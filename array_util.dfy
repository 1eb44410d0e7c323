/** Byte-array concatenation and list-to-array copying (`ArrayUtil`). */
module ArrayUtil {
  import opened Bytes

  /** Sum of the lengths of `raws`. */
  function TotalLength(raws: seq<seq<Byte>>): nat
  {
    if raws == [] then 0 else TotalLength(raws[..|raws| - 1]) + |raws[|raws| - 1]|
  }

  /** The in-order concatenation of `raws`. */
  function Flatten(raws: seq<seq<Byte>>): (r: seq<Byte>)
    ensures |r| == TotalLength(raws)
    ensures raws == [] ==> r == []
    ensures |raws| == 1 ==> r == raws[0]
  {
    if raws == [] then [] else Flatten(raws[..|raws| - 1]) + raws[|raws| - 1]
  }

  /** Part `i` of the concatenation starts at the sum of the lengths before it. */
  lemma {:induction false} FlattenAt(raws: seq<seq<Byte>>, i: nat, j: nat)
    requires i < |raws| && j < |raws[i]|
    ensures TotalLength(raws[..i]) + j < |Flatten(raws)|
    ensures Flatten(raws)[TotalLength(raws[..i]) + j] == raws[i][j]
  {
    var n := |raws| - 1;
    var init := raws[..n];
    if i == n {
      assert raws[..i] == init;
    } else {
      assert init[..i] == raws[..i];
      FlattenAt(init, i, j);
    }
  }

  /** Prefix sums grow by one part at a time. */
  lemma TotalLengthStep(raws: seq<seq<Byte>>, i: nat)
    requires i < |raws|
    ensures TotalLength(raws[..i + 1]) == TotalLength(raws[..i]) + |raws[i]|
    ensures Flatten(raws[..i + 1]) == Flatten(raws[..i]) + raws[i]
  {
    assert raws[..i + 1][..i] == raws[..i];
  }

  /**
   * `concat`: a first loop sums the lengths, a second copies each part
   * at the running position.
   */
  method Concat(raws: seq<seq<Byte>>) returns (res: array<Byte>)
    ensures fresh(res)
    ensures res[..] == Flatten(raws)
  {
    var len := 0;
    var i := 0;
    while i < |raws|
      invariant 0 <= i <= |raws|
      invariant len == TotalLength(raws[..i])
    {
      TotalLengthStep(raws, i);
      len := len + |raws[i]|;
      i := i + 1;
    }
    assert raws[..i] == raws;
    res := new Byte[len](_ => 0);
    var pos := 0;
    i := 0;
    while i < |raws|
      invariant 0 <= i <= |raws|
      invariant pos == TotalLength(raws[..i]) <= len
      invariant res[..pos] == Flatten(raws[..i])
    {
      TotalLengthStep(raws, i);
      var part := raws[i];
      assert pos + |part| <= len by {
        FlattenSplit(raws, i + 1);
      }
      CopyInto(res, pos, part);
      assert res[..pos + |part|] == res[..pos] + res[pos..pos + |part|];
      pos := pos + |part|;
      i := i + 1;
    }
  }

  /** `System.arraycopy` of a whole part to `pos`; what lies before `pos` stays. */
  method CopyInto(res: array<Byte>, pos: nat, part: seq<Byte>)
    requires pos + |part| <= res.Length
    modifies res
    ensures res[..pos] == old(res[..pos])
    ensures res[pos..pos + |part|] == part
  {
    forall k | 0 <= k < |part| {
      res[pos + k] := part[k];
    }
  }

  /** The concatenation of a split sequence is the concatenation of the halves. */
  lemma {:induction false} FlattenSplit(raws: seq<seq<Byte>>, i: nat)
    requires i <= |raws|
    ensures Flatten(raws) == Flatten(raws[..i]) + Flatten(raws[i..])
  {
    if i < |raws| {
      var n := |raws| - 1;
      FlattenSplit(raws[..n], i);
      assert raws[..n][..i] == raws[..i];
      assert raws[..n][i..] == raws[i..n];
      assert raws[i..][..|raws[i..]| - 1] == raws[i..n];
    } else {
      assert raws[..i] == raws;
    }
  }

  /** `toArray`: copies a list of longs into a fresh array of its size. */
  method ToArray(list: seq<I64>) returns (res: array<I64>)
    ensures fresh(res)
    ensures res.Length == |list| && res[..] == list
  {
    res := new I64[|list|](_ => 0);
    var i := 0;
    while i < res.Length
      invariant 0 <= i <= res.Length
      invariant res[..i] == list[..i]
    {
      res[i] := list[i];
      i := i + 1;
    }
  }
}
