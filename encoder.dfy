/**
 * The wire codec between client and server (`Encoder`): a package is
 * sent as one flag byte followed by its payload. Flag 0 carries result
 * data; flag 1 carries the text of an error.
 */
module Encoder {
  import opened Bytes
  import opened Outcomes

  /**
   * An exception travelling in a package, reduced to its message as
   * UTF-8 bytes; `None` stands for an exception whose message is null.
   */
  datatype Failure = Failure(message: Option<seq<Byte>>)

  /** A package holds data, or an error, or (as the type allows) neither or both. */
  datatype Package = Package(data: Option<seq<Byte>>, err: Option<Failure>)

  const FLAG_DATA: Byte := 0
  const FLAG_ERROR: Byte := 1

  /** "Intern server error!" in UTF-8, sent for an exception without a message. */
  const DEFAULT_MESSAGE: seq<Byte> :=
    [73, 110, 116, 101, 114, 110, 32, 115, 101, 114, 118, 101, 114, 32, 101, 114, 114, 111, 114, 33]

  /** The text sent for an error: its own message, or the default one. */
  function MessageOf(f: Failure): (m: seq<Byte>)
    ensures f.message.None? ==> m == DEFAULT_MESSAGE
    ensures f.message.Some? ==> m == f.message.value
  {
    if f.message.Some? then f.message.value else DEFAULT_MESSAGE
  }

  /**
   * `encode`: an error wins over data and is sent as flag 1 and its
   * message; otherwise the data is sent behind flag 0. A package with
   * neither makes the concatenation dereference null.
   */
  function Encode(p: Package): (r: Result<seq<Byte>>)
    ensures r.Err? <==> p.err.None? && p.data.None?
    ensures r.Err? ==> r.error == NullPointer
    ensures r.Ok? ==> |r.value| >= 1
    ensures r.Ok? && p.err.Some? ==>
      r.value[0] == FLAG_ERROR && |r.value| == 1 + |MessageOf(p.err.value)|
    ensures r.Ok? && p.err.None? ==>
      r.value[0] == FLAG_DATA && |r.value| == 1 + |p.data.value|
  {
    if p.err.Some? then
      Ok([FLAG_ERROR] + MessageOf(p.err.value))
    else if p.data.None? then
      Err(NullPointer)
    else
      Ok([FLAG_DATA] + p.data.value)
  }

  /**
   * `decode`: an empty frame or a flag other than 0 and 1 is rejected;
   * flag 0 yields the rest as data, flag 1 yields an error whose message
   * is the rest.
   */
  function Decode(s: seq<Byte>): (r: Result<Package>)
    ensures r.Err? <==> |s| == 0 || (s[0] != FLAG_DATA && s[0] != FLAG_ERROR)
    ensures r.Err? ==> r.error == InvalidPkgData
    ensures r.Ok? && s[0] == FLAG_DATA ==> r.value.err.None? && r.value.data == Some(s[1..])
    ensures r.Ok? && s[0] == FLAG_ERROR ==>
      r.value.data.None? && r.value.err == Some(Failure(Some(s[1..])))
  {
    if |s| < 1 || (s[0] != FLAG_ERROR && s[0] != FLAG_DATA) then
      Err(InvalidPkgData)
    else if s[0] == FLAG_DATA then
      Ok(Package(Some(s[1..]), None))
    else
      Ok(Package(None, Some(Failure(Some(s[1..])))))
  }

  /** Data sent without an error comes back unchanged and without an error. */
  lemma DataRoundTrip(d: seq<Byte>)
    ensures Encode(Package(Some(d), None)).Ok?
    ensures Decode(Encode(Package(Some(d), None)).value) == Ok(Package(Some(d), None))
  {
    assert ([FLAG_DATA] + d)[1..] == d;
  }

  /**
   * An error comes back as an error without data, whatever data was sent
   * beside it, carrying the text that was sent for it.
   */
  lemma ErrorRoundTrip(p: Package)
    requires p.err.Some?
    ensures Encode(p).Ok?
    ensures Decode(Encode(p).value) == Ok(Package(None, Some(Failure(Some(MessageOf(p.err.value))))))
  {
    assert ([FLAG_ERROR] + MessageOf(p.err.value))[1..] == MessageOf(p.err.value);
  }

  /** Every frame `decode` accepts is exactly what `encode` makes of the result. */
  lemma FrameRoundTrip(s: seq<Byte>)
    requires Decode(s).Ok?
    ensures Encode(Decode(s).value) == Ok(s)
  {
    assert [s[0]] + s[1..] == s;
  }
}
