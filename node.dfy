/**
 * B+Tree nodes (`Node`). A node is a record of the data manager with the
 * fixed layout
 *
 *   [LeafFlag 1][KeyNumber 2][SiblingUid 8] [Son0 8][Key0 8] ... [Son65 8][Key65 8]
 *
 * 11 header bytes and 66 (son, key) slots: room for the 2 * 32 keys a node
 * holds before it splits, plus two. Node bytes are read through the
 * functions below and changed in place, in an array, by the `SetRaw*`
 * methods, `ShiftRawKth`, `Insert` and `Split`.
 *
 * The data manager the nodes live in is `Records`: a map from uid to
 * record bytes and the next uid it hands out.
 */
module Node {
  import opened Bytes
  import opened Outcomes

  const IS_LEAF_OFFSET: int := 0
  const NO_KEYS_OFFSET: int := 1
  const SIBLING_OFFSET: int := 3
  const NODE_HEADER_SIZE: int := 11
  const BALANCE_NUMBER: int := 32
  /** 2 * BALANCE_NUMBER + 2 slots. */
  const SLOTS: int := 66
  /** NODE_HEADER_SIZE + 16 * SLOTS. */
  const NODE_SIZE: int := 1067

  lemma NodeSize()
    ensures SLOTS == 2 * BALANCE_NUMBER + 2
    ensures NODE_SIZE == NODE_HEADER_SIZE + (2 * 8) * SLOTS
    ensures SIBLING_OFFSET + 8 == NODE_HEADER_SIZE
  {
  }

  /** Where son `k` starts. */
  function SonAt(k: int): int { NODE_HEADER_SIZE + 16 * k }

  /** Where key `k` starts. */
  function KeyAt(k: int): int { NODE_HEADER_SIZE + 16 * k + 8 }

  // ---------------------------------------------------------------------
  // Reading node bytes.

  /** The long stored at `pos`. */
  function LongAt(s: seq<Byte>, pos: int): I64
    requires 0 <= pos && pos + 8 <= |s|
  {
    ParseLong(s[pos..pos + 8])
  }

  /** `getRawIfLeaf` */
  predicate IsLeaf(s: seq<Byte>)
    requires |s| == NODE_SIZE
  {
    s[IS_LEAF_OFFSET] == 1
  }

  /** `getRawNoKeys` */
  function NoKeys(s: seq<Byte>): I16
    requires |s| == NODE_SIZE
  {
    ParseShort(s[NO_KEYS_OFFSET..SIBLING_OFFSET])
  }

  /** `getRawSibling` */
  function Sibling(s: seq<Byte>): I64
    requires |s| == NODE_SIZE
  {
    LongAt(s, SIBLING_OFFSET)
  }

  /** `getRawKthSon` */
  function Son(s: seq<Byte>, k: int): I64
    requires |s| == NODE_SIZE && 0 <= k < SLOTS
  {
    LongAt(s, SonAt(k))
  }

  /** `getRawKthKey` */
  function Key(s: seq<Byte>, k: int): I64
    requires |s| == NODE_SIZE && 0 <= k < SLOTS
  {
    LongAt(s, KeyAt(k))
  }

  /** One (son, key) pair. */
  datatype Slot = Slot(son: I64, key: I64)

  /** The node's 66 slots. */
  function Slots(s: seq<Byte>): (r: seq<Slot>)
    requires |s| == NODE_SIZE
    ensures |r| == SLOTS
    ensures forall k :: 0 <= k < SLOTS ==> r[k] == Slot(Son(s, k), Key(s, k))
  {
    seq(SLOTS, k requires 0 <= k < SLOTS => Slot(Son(s, k), Key(s, k)))
  }

  /**
   * The nodes a tree stores: 0 to 63 keys (a node reaching 64 splits
   * before it is released).
   */
  predicate Wf(s: seq<Byte>)
  {
    |s| == NODE_SIZE && 0 <= NoKeys(s) < 2 * BALANCE_NUMBER
  }

  /** The keys of the node's used slots never decrease. */
  predicate Sorted(s: seq<Byte>)
    requires |s| == NODE_SIZE && 0 <= NoKeys(s) <= SLOTS
  {
    forall i, j :: 0 <= i < j < NoKeys(s) ==> Key(s, i) <= Key(s, j)
  }

  // ---------------------------------------------------------------------
  // Byte-level images of the writes.

  /** `d` copied over `s` from `pos` on. */
  function Put(s: seq<Byte>, pos: int, d: seq<Byte>): (r: seq<Byte>)
    requires 0 <= pos && pos + |d| <= |s|
    ensures |r| == |s|
  {
    s[..pos] + d + s[pos + |d|..]
  }

  /** A long written at `pos` reads back there; a long elsewhere is untouched. */
  lemma PutLong(s: seq<Byte>, pos: int, x: I64, q: int)
    requires 0 <= pos && pos + 8 <= |s| && 0 <= q && q + 8 <= |s|
    requires q == pos || q + 8 <= pos || pos + 8 <= q
    ensures LongAt(Put(s, pos, LongToBytes(x)), q) == if q == pos then x else LongAt(s, q)
  {
    var t := Put(s, pos, LongToBytes(x));
    if q == pos {
      assert t[q..q + 8] == LongToBytes(x);
      LongRoundTrip(x);
    } else {
      assert t[q..q + 8] == s[q..q + 8];
    }
  }

  /** Reading a window of a `Put`: inside the copied bytes, or wholly beside them. */
  lemma PutRead(s: seq<Byte>, pos: int, d: seq<Byte>, q: int, n: nat)
    requires 0 <= pos && pos + |d| <= |s| && 0 <= q && q + n <= |s|
    ensures pos <= q && q + n <= pos + |d| ==> Put(s, pos, d)[q..q + n] == d[q - pos..q - pos + n]
    ensures q + n <= pos || pos + |d| <= q ==> Put(s, pos, d)[q..q + n] == s[q..q + n]
  {
    if pos <= q && q + n <= pos + |d| {
      PutReadInside(s, pos, d, q, n);
    } else if q + n <= pos || pos + |d| <= q {
      PutReadBeside(s, pos, d, q, n);
    }
  }

  lemma PutReadInside(s: seq<Byte>, pos: int, d: seq<Byte>, q: int, n: nat)
    requires 0 <= pos <= q && q + n <= pos + |d| <= |s|
    ensures Put(s, pos, d)[q..q + n] == d[q - pos..q - pos + n]
  {
    var r := Put(s, pos, d);
    forall j | q <= j < q + n ensures r[j] == d[j - pos] {
      PutIndex(s, pos, d, j);
    }
  }

  lemma PutReadBeside(s: seq<Byte>, pos: int, d: seq<Byte>, q: int, n: nat)
    requires 0 <= pos && pos + |d| <= |s| && 0 <= q && q + n <= |s|
    requires q + n <= pos || pos + |d| <= q
    ensures Put(s, pos, d)[q..q + n] == s[q..q + n]
  {
    var r := Put(s, pos, d);
    forall j | q <= j < q + n ensures r[j] == s[j] {
      PutIndex(s, pos, d, j);
    }
  }

  /** One byte of a `Put`. */
  lemma PutIndex(s: seq<Byte>, pos: int, d: seq<Byte>, j: int)
    requires 0 <= pos && pos + |d| <= |s| && 0 <= j < |s|
    ensures Put(s, pos, d)[j] == if j < pos then s[j] else if j < pos + |d| then d[j - pos] else s[j]
  {
  }

  /** Two nodes with the same header bytes have the same header fields. */
  lemma SameHeader(s: seq<Byte>, t: seq<Byte>)
    requires |s| == |t| == NODE_SIZE && s[..NODE_HEADER_SIZE] == t[..NODE_HEADER_SIZE]
    ensures s[IS_LEAF_OFFSET] == t[IS_LEAF_OFFSET] && NoKeys(s) == NoKeys(t) && Sibling(s) == Sibling(t)
  {
    assert s[0] == s[..NODE_HEADER_SIZE][0] && t[0] == t[..NODE_HEADER_SIZE][0];
    assert s[1..3] == s[..NODE_HEADER_SIZE][1..3] && t[1..3] == t[..NODE_HEADER_SIZE][1..3];
    assert s[3..11] == s[..NODE_HEADER_SIZE][3..11] && t[3..11] == t[..NODE_HEADER_SIZE][3..11];
  }

  /** Two nodes with the same body bytes have the same slots. */
  lemma SameSlots(s: seq<Byte>, t: seq<Byte>)
    requires |s| == |t| == NODE_SIZE && s[NODE_HEADER_SIZE..] == t[NODE_HEADER_SIZE..]
    ensures Slots(s) == Slots(t)
  {
    forall k | 0 <= k < SLOTS ensures Son(s, k) == Son(t, k) && Key(s, k) == Key(t, k) {
      assert s[SonAt(k)..SonAt(k) + 8] == s[NODE_HEADER_SIZE..][16 * k..16 * k + 8];
      assert t[SonAt(k)..SonAt(k) + 8] == t[NODE_HEADER_SIZE..][16 * k..16 * k + 8];
      assert s[KeyAt(k)..KeyAt(k) + 8] == s[NODE_HEADER_SIZE..][16 * k + 8..16 * k + 16];
      assert t[KeyAt(k)..KeyAt(k) + 8] == t[NODE_HEADER_SIZE..][16 * k + 8..16 * k + 16];
    }
  }

  /** A write into the body keeps the header; a write into the header keeps the body. */
  lemma PutSides(s: seq<Byte>, pos: int, d: seq<Byte>)
    requires |s| == NODE_SIZE && 0 <= pos && pos + |d| <= |s|
    ensures NODE_HEADER_SIZE <= pos ==> Put(s, pos, d)[..NODE_HEADER_SIZE] == s[..NODE_HEADER_SIZE]
    ensures pos + |d| <= NODE_HEADER_SIZE ==> Put(s, pos, d)[NODE_HEADER_SIZE..] == s[NODE_HEADER_SIZE..]
  {
  }

  /** `setRawKthKey` on bytes. */
  function SetKey(s: seq<Byte>, k: int, x: I64): (r: seq<Byte>)
    requires |s| == NODE_SIZE && 0 <= k < SLOTS
    ensures |r| == NODE_SIZE
  {
    Put(s, KeyAt(k), LongToBytes(x))
  }

  /** `SetKey` keeps the header and changes slot `k`'s key alone. */
  lemma SetKeyFacts(s: seq<Byte>, k: int, x: I64)
    requires |s| == NODE_SIZE && 0 <= k < SLOTS
    ensures var r := SetKey(s, k, x);
            r[..NODE_HEADER_SIZE] == s[..NODE_HEADER_SIZE] && Slots(r) == Slots(s)[k := Slot(Son(s, k), x)]
  {
    var r := SetKey(s, k, x);
    PutSides(s, KeyAt(k), LongToBytes(x));
    forall j | 0 <= j < SLOTS ensures Son(r, j) == Son(s, j) && Key(r, j) == (if j == k then x else Key(s, j)) {
      PutLong(s, KeyAt(k), x, SonAt(j));
      PutLong(s, KeyAt(k), x, KeyAt(j));
    }
  }

  /** `setRawKthSon` on bytes. */
  function SetSon(s: seq<Byte>, k: int, x: I64): (r: seq<Byte>)
    requires |s| == NODE_SIZE && 0 <= k < SLOTS
    ensures |r| == NODE_SIZE
  {
    Put(s, SonAt(k), LongToBytes(x))
  }

  /** `SetSon` keeps the header and changes slot `k`'s son alone. */
  lemma SetSonFacts(s: seq<Byte>, k: int, x: I64)
    requires |s| == NODE_SIZE && 0 <= k < SLOTS
    ensures var r := SetSon(s, k, x);
            r[..NODE_HEADER_SIZE] == s[..NODE_HEADER_SIZE] && Slots(r) == Slots(s)[k := Slot(x, Key(s, k))]
  {
    var r := SetSon(s, k, x);
    PutSides(s, SonAt(k), LongToBytes(x));
    forall j | 0 <= j < SLOTS ensures Son(r, j) == (if j == k then x else Son(s, j)) && Key(r, j) == Key(s, j) {
      PutLong(s, SonAt(k), x, SonAt(j));
      PutLong(s, SonAt(k), x, KeyAt(j));
    }
  }

  /** `setRawNoKeys` on bytes: the count as a Java `short`. */
  function SetNoKeys(s: seq<Byte>, n: int): (r: seq<Byte>)
    requires |s| == NODE_SIZE
    ensures |r| == NODE_SIZE
  {
    Put(s, NO_KEYS_OFFSET, ShortToBytes(Wrap16(n)))
  }

  /** `SetNoKeys` changes the count alone, to `n` as a Java `short`. */
  lemma SetNoKeysFacts(s: seq<Byte>, n: int)
    requires |s| == NODE_SIZE
    ensures var r := SetNoKeys(s, n);
            r[IS_LEAF_OFFSET] == s[IS_LEAF_OFFSET] && NoKeys(r) == Wrap16(n) && Sibling(r) == Sibling(s) && Slots(r) == Slots(s)
  {
    var r := SetNoKeys(s, n);
    PutSides(s, NO_KEYS_OFFSET, ShortToBytes(Wrap16(n)));
    SameSlots(r, s);
    assert r[NO_KEYS_OFFSET..SIBLING_OFFSET] == ShortToBytes(Wrap16(n));
    ShortRoundTrip(Wrap16(n));
    assert r[3..11] == s[3..11];
  }

  /** `setRawSibling` on bytes. */
  function SetSibling(s: seq<Byte>, x: I64): (r: seq<Byte>)
    requires |s| == NODE_SIZE
    ensures |r| == NODE_SIZE
  {
    Put(s, SIBLING_OFFSET, LongToBytes(x))
  }

  /** `SetSibling` changes the sibling alone. */
  lemma SetSiblingFacts(s: seq<Byte>, x: I64)
    requires |s| == NODE_SIZE
    ensures var r := SetSibling(s, x);
            r[IS_LEAF_OFFSET] == s[IS_LEAF_OFFSET] && NoKeys(r) == NoKeys(s) && Sibling(r) == x && Slots(r) == Slots(s)
  {
    var r := SetSibling(s, x);
    PutSides(s, SIBLING_OFFSET, LongToBytes(x));
    SameSlots(r, s);
    PutLong(s, SIBLING_OFFSET, x, SIBLING_OFFSET);
    assert r[1..3] == s[1..3];
  }

  /** `setRawIsLeaf` on bytes. */
  function SetLeaf(s: seq<Byte>, isLeaf: bool): (r: seq<Byte>)
    requires |s| == NODE_SIZE
    ensures |r| == NODE_SIZE
  {
    s[IS_LEAF_OFFSET := if isLeaf then 1 else 0]
  }

  /** `SetLeaf` changes the leaf flag alone. */
  lemma SetLeafFacts(s: seq<Byte>, isLeaf: bool)
    requires |s| == NODE_SIZE
    ensures var r := SetLeaf(s, isLeaf);
            IsLeaf(r) == isLeaf && NoKeys(r) == NoKeys(s) && Sibling(r) == Sibling(s) && Slots(r) == Slots(s)
  {
    var r := SetLeaf(s, isLeaf);
    assert r[1..3] == s[1..3] && r[3..11] == s[3..11];
    SameSlots(r, s);
  }

  /** `shiftRawKth` on bytes: slots `kth` and on move one slot up, the last one falls off. */
  function Shifted(s: seq<Byte>, kth: int): (r: seq<Byte>)
    requires |s| == NODE_SIZE && 0 <= kth < SLOTS - 1
    ensures |r| == NODE_SIZE
  {
    s[..SonAt(kth + 1)] + s[SonAt(kth)..NODE_SIZE - 16]
  }

  /** `Shifted` keeps the header, and slot `kth` on move one slot up. */
  lemma ShiftedFacts(s: seq<Byte>, kth: int)
    requires |s| == NODE_SIZE && 0 <= kth < SLOTS - 1
    ensures var r := Shifted(s, kth);
            r[..NODE_HEADER_SIZE] == s[..NODE_HEADER_SIZE] && Slots(r) == Slots(s)[..kth + 1] + Slots(s)[kth..SLOTS - 1]
  {
    var r := Shifted(s, kth);
    forall j | 0 <= j < SLOTS
      ensures Slots(r)[j] == (Slots(s)[..kth + 1] + Slots(s)[kth..SLOTS - 1])[j]
    {
      ShiftedSlot(s, kth, j);
    }
  }

  /** Slot `j` of `Shifted(s, kth)`. */
  lemma ShiftedSlot(s: seq<Byte>, kth: int, j: int)
    requires |s| == NODE_SIZE && 0 <= kth < SLOTS - 1 && 0 <= j < SLOTS
    ensures Slots(Shifted(s, kth))[j] == if j <= kth then Slots(s)[j] else Slots(s)[j - 1]
  {
    var b := SonAt(kth + 1);
    var r := Shifted(s, kth);
    if j <= kth {
      ConcatReadLeft(s[..b], s[b - 16..NODE_SIZE - 16], SonAt(j), 16);
      SliceOfSlice(s, 0, b, SonAt(j), 16);
      SlotWindow(r, s, j, j);
    } else {
      ConcatReadRight(s[..b], s[b - 16..NODE_SIZE - 16], SonAt(j), 16);
      SliceOfSlice(s, b - 16, NODE_SIZE - 16, SonAt(j) - b, 16);
      SlotWindow(r, s, j, j - 1);
    }
  }

  /** A window of a slice is a window of the whole. */
  lemma SliceOfSlice(s: seq<Byte>, lo: int, hi: int, q: int, n: nat)
    requires 0 <= lo <= hi <= |s| && 0 <= q && q + n <= hi - lo
    ensures s[lo..hi][q..q + n] == s[lo + q..lo + q + n]
  {
    var t := s[lo..hi];
    forall j | q <= j < q + n ensures t[j] == s[lo + j] { }
  }

  /** A window of `a + b` lying inside `a`. */
  lemma ConcatReadLeft(a: seq<Byte>, b: seq<Byte>, q: int, n: nat)
    requires 0 <= q && q + n <= |a|
    ensures (a + b)[q..q + n] == a[q..q + n]
  {
  }

  /** A window of `a + b` lying inside `b`. */
  lemma ConcatReadRight(a: seq<Byte>, b: seq<Byte>, q: int, n: nat)
    requires |a| <= q && q + n <= |a| + |b|
    ensures (a + b)[q..q + n] == b[q - |a|..q - |a| + n]
  {
    forall j | q <= j < q + n ensures (a + b)[j] == b[j - |a|] { }
  }

  /** Equal 16-byte windows at slots `j` of `r` and `k` of `s` hold equal slots. */
  lemma SlotWindow(r: seq<Byte>, s: seq<Byte>, j: int, k: int)
    requires |r| == |s| == NODE_SIZE && 0 <= j < SLOTS && 0 <= k < SLOTS
    requires r[SonAt(j)..SonAt(j) + 16] == s[SonAt(k)..SonAt(k) + 16]
    ensures Slots(r)[j] == Slots(s)[k]
  {
    assert r[SonAt(j)..SonAt(j) + 8] == r[SonAt(j)..SonAt(j) + 16][..8];
    assert s[SonAt(k)..SonAt(k) + 8] == s[SonAt(k)..SonAt(k) + 16][..8];
    assert r[KeyAt(j)..KeyAt(j) + 8] == r[SonAt(j)..SonAt(j) + 16][8..];
    assert s[KeyAt(k)..KeyAt(k) + 8] == s[SonAt(k)..SonAt(k) + 16][8..];
  }

  /** Eight zero bytes read as the long 0. */
  lemma ZeroLong(s: seq<Byte>, pos: int)
    requires 0 <= pos && pos + 8 <= |s| && forall i :: pos <= i < pos + 8 ==> s[i] == 0
    ensures LongAt(s, pos) == 0
  {
    BigEndianZero(8);
    assert s[pos..pos + 8] == BigEndian(0, 8);
    BigEndianRoundTrip(0, 8);
  }

  /** A zero-filled node: a non-leaf (flag 0) with no keys, sibling 0 and zero slots. */
  function Zeroed(): (r: seq<Byte>)
    ensures |r| == NODE_SIZE
  {
    seq(NODE_SIZE, _ => 0)
  }

  /** The zeroed node's fields. */
  lemma ZeroedFacts()
    ensures var r := Zeroed();
            !IsLeaf(r) && NoKeys(r) == 0 && Sibling(r) == 0 && Slots(r) == ZeroSlots()
  {
    var r := Zeroed();
    BigEndianZero(2);
    assert r[1..3] == BigEndian(0, 2);
    BigEndianRoundTrip(0, 2);
    ZeroLong(r, SIBLING_OFFSET);
    forall k | 0 <= k < SLOTS ensures Son(r, k) == 0 && Key(r, k) == 0 {
      ZeroLong(r, SonAt(k));
      ZeroLong(r, KeyAt(k));
    }
  }

  /** Slots that are all zero. */
  function ZeroSlots(): (r: seq<Slot>)
    ensures |r| == SLOTS && forall k :: 0 <= k < SLOTS ==> r[k] == Slot(0, 0)
  {
    seq(SLOTS, _ => Slot(0, 0))
  }

  /** A node built on zeroed bytes with the header set and no slot written. */
  function EmptyNode(isLeaf: bool, noKeys: int, sibling: I64): (r: seq<Byte>)
    ensures |r| == NODE_SIZE
  {
    SetSibling(SetNoKeys(SetLeaf(Zeroed(), isLeaf), noKeys), sibling)
  }

  /** The empty node's header is the one asked for, and its slots are zero. */
  lemma EmptyNodeFacts(isLeaf: bool, noKeys: int, sibling: I64)
    ensures var r := EmptyNode(isLeaf, noKeys, sibling);
            IsLeaf(r) == isLeaf && NoKeys(r) == Wrap16(noKeys) && Sibling(r) == sibling && Slots(r) == ZeroSlots()
  {
    var z := Zeroed();
    var a := SetLeaf(z, isLeaf);
    var b := SetNoKeys(a, noKeys);
    ZeroedFacts();
    SetLeafFacts(z, isLeaf);
    SetNoKeysFacts(a, noKeys);
    SetSiblingFacts(b, sibling);
  }

  /**
   * `newNilRootRaw`: an empty leaf with no sibling, the root of a new
   * tree.
   */
  function NewNilRootRaw(): (r: seq<Byte>)
    ensures Wf(r) && IsLeaf(r) && NoKeys(r) == 0 && Sibling(r) == 0
  {
    EmptyNodeFacts(true, 0, 0);
    EmptyNode(true, 0, 0)
  }

  /**
   * `newRootRaw`: an internal node with no sibling and two keys, `key`
   * leading to `left` and the largest long to `right`.
   */
  function NewRootRaw(left: I64, right: I64, key: I64): (r: seq<Byte>)
    ensures Wf(r) && !IsLeaf(r) && NoKeys(r) == 2 && Sibling(r) == 0
    ensures Slots(r) == ZeroSlots()[0 := Slot(left, key)][1 := Slot(right, LONG_MAX)]
  {
    var h := EmptyNode(false, 2, 0);
    var a := SetSon(h, 0, left);
    var b := SetKey(a, 0, key);
    var c := SetSon(b, 1, right);
    var r := SetKey(c, 1, LONG_MAX);
    EmptyNodeFacts(false, 2, 0);
    SetSonFacts(h, 0, left);
    SetKeyFacts(a, 0, key);
    SetSonFacts(b, 1, right);
    SetKeyFacts(c, 1, LONG_MAX);
    assert r[..NODE_HEADER_SIZE] == h[..NODE_HEADER_SIZE];
    SameHeader(r, h);
    r
  }

  // ---------------------------------------------------------------------
  // Searching a node.

  /** The first slot from `from` on, below `NoKeys`, whose key is at least `key`; `NoKeys` when none is. */
  function AtLeastFrom(s: seq<Byte>, key: I64, from: int): (r: int)
    requires |s| == NODE_SIZE && 0 <= NoKeys(s) <= SLOTS && 0 <= from <= NoKeys(s)
    ensures from <= r <= NoKeys(s)
    ensures forall j :: from <= j < r ==> Key(s, j) < key
    ensures r < NoKeys(s) ==> Key(s, r) >= key
    decreases NoKeys(s) - from
  {
    if from == NoKeys(s) then from
    else if Key(s, from) >= key then from
    else AtLeastFrom(s, key, from + 1)
  }

  /** The first slot from `from` on, below `NoKeys`, whose key is above `key`; `NoKeys` when none is. */
  function AboveFrom(s: seq<Byte>, key: I64, from: int): (r: int)
    requires |s| == NODE_SIZE && 0 <= NoKeys(s) <= SLOTS && 0 <= from <= NoKeys(s)
    ensures from <= r <= NoKeys(s)
    ensures forall j :: from <= j < r ==> Key(s, j) <= key
    ensures r < NoKeys(s) ==> Key(s, r) > key
    decreases NoKeys(s) - from
  {
    if from == NoKeys(s) then from
    else if Key(s, from) > key then from
    else AboveFrom(s, key, from + 1)
  }

  /** The sons of slots `lo` up to, not including, `hi`. */
  function Sons(s: seq<Byte>, lo: int, hi: int): (r: seq<I64>)
    requires |s| == NODE_SIZE && 0 <= lo <= hi <= SLOTS
    ensures |r| == hi - lo && forall i :: 0 <= i < hi - lo ==> r[i] == Son(s, lo + i)
  {
    seq<I64>(hi - lo, i requires 0 <= i < hi - lo => Son(s, lo + i))
  }

  /** What `searchNext` finds: a son to descend to, or (0 and) the sibling to go on with. */
  datatype SearchNextRes = SearchNextRes(uid: I64, siblingUid: I64)

  /**
   * What `searchNext` answers: the son of the first key above `key`; when
   * every key is at most `key`, uid 0 and the sibling.
   */
  function NextOf(s: seq<Byte>, key: I64): (res: SearchNextRes)
    requires Wf(s)
    ensures res.siblingUid != 0 ==> res.uid == 0 && res.siblingUid == Sibling(s) && forall j :: 0 <= j < NoKeys(s) ==> Key(s, j) <= key
    ensures res.uid != 0 ==> exists i :: 0 <= i < NoKeys(s) && key < Key(s, i) && res.uid == Son(s, i)
  {
    var i := AboveFrom(s, key, 0);
    if i < NoKeys(s) then SearchNextRes(Son(s, i), 0) else SearchNextRes(0, Sibling(s))
  }

  /** `searchNext` on the node's bytes. */
  method SearchNext(raw: array<Byte>, key: I64) returns (res: SearchNextRes)
    requires Wf(raw[..])
    ensures res == NextOf(raw[..], key)
  {
    var s := raw[..];
    var noKeys := NoKeys(s);
    for i := 0 to noKeys
      invariant AboveFrom(s, key, i) == AboveFrom(s, key, 0)
    {
      if key < Key(s, i) {
        return SearchNextRes(Son(s, i), 0);
      }
    }
    res := SearchNextRes(0, Sibling(s));
  }

  /**
   * A new root sends keys below the split key to the old root and the
   * others, up to the largest long, to the new node.
   */
  lemma NewRootRoutes(left: I64, right: I64, splitKey: I64, key: I64)
    requires left != 0 && right != 0 && key < LONG_MAX
    ensures NextOf(NewRootRaw(left, right, splitKey), key) ==
              SearchNextRes(if key < splitKey then left else right, 0)
  {
    var s := NewRootRaw(left, right, splitKey);
    assert Slots(s)[0] == Slot(left, splitKey) && Slots(s)[1] == Slot(right, LONG_MAX);
  }

  /** What `leafSearchRange` finds: the matching sons, and the sibling to go on with or 0. */
  datatype LeafSearchRangeRes = LeafSearchRangeRes(uids: seq<I64>, siblingUid: I64)

  /**
   * `leafSearchRange(left, right)`: from the first key at least `left`,
   * the sons of the keys up to the first one above `right`; the sibling
   * only when that run reaches the last key.
   */
  function LeafRange(s: seq<Byte>, left: I64, right: I64): (res: LeafSearchRangeRes)
    requires Wf(s)
    ensures |res.uids| <= NoKeys(s)
    ensures res.siblingUid != 0 ==> res.siblingUid == Sibling(s)
  {
    var lo := AtLeastFrom(s, left, 0);
    var hi := AboveFrom(s, right, lo);
    LeafSearchRangeRes(Sons(s, lo, hi), if hi == NoKeys(s) then Sibling(s) else 0)
  }

  /**
   * A key in `[left, right]` that no earlier key exceeds `right` before
   * has its son in the leaf's answer.
   */
  lemma LeafRangeFinds(s: seq<Byte>, left: I64, right: I64, i: int)
    requires Wf(s) && 0 <= i < NoKeys(s) && left <= Key(s, i) <= right
    requires forall j :: 0 <= j < i ==> Key(s, j) <= right
    ensures Son(s, i) in LeafRange(s, left, right).uids
  {
    var lo := AtLeastFrom(s, left, 0);
    var hi := AboveFrom(s, right, lo);
    assert lo <= i;
    assert hi > i;
    assert LeafRange(s, left, right).uids[i - lo] == Son(s, i);
  }

  /**
   * In a node with sorted keys, the `k`-th son in the leaf's answer is the
   * son of slot `AtLeastFrom(s, left, 0) + k`, whose key is in `[left, right]`.
   */
  lemma LeafRangeSound(s: seq<Byte>, left: I64, right: I64, k: int)
    requires Wf(s) && Sorted(s) && 0 <= k < |LeafRange(s, left, right).uids|
    ensures var i := AtLeastFrom(s, left, 0) + k;
            0 <= i < NoKeys(s) && Son(s, i) == LeafRange(s, left, right).uids[k] && left <= Key(s, i) <= right
  {
    var lo := AtLeastFrom(s, left, 0);
    var hi := AboveFrom(s, right, lo);
    assert LeafRange(s, left, right).uids == Sons(s, lo, hi);
    assert lo + k < hi <= NoKeys(s);
    assert Key(s, lo + k) <= right;
    assert left <= Key(s, lo) <= Key(s, lo + k);
  }

  /** `leafSearchRange` on the node's bytes. */
  method LeafSearchRange(raw: array<Byte>, left: I64, right: I64) returns (res: LeafSearchRangeRes)
    requires Wf(raw[..])
    ensures res == LeafRange(raw[..], left, right)
  {
    var s := raw[..];
    var noKey := NoKeys(s);
    var kth := SkipBelow(s, left);
    var uids;
    uids, kth := TakeUpTo(s, right, kth);
    res := LeafSearchRangeRes(uids, if kth == noKey then Sibling(s) else 0);
  }

  /** `leafSearchRange`'s first loop: past the keys below `left`. */
  method SkipBelow(s: seq<Byte>, left: I64) returns (kth: int)
    requires Wf(s)
    ensures kth == AtLeastFrom(s, left, 0)
  {
    var noKey := NoKeys(s);
    kth := 0;
    while kth < noKey && Key(s, kth) < left
      invariant 0 <= kth <= noKey
      invariant AtLeastFrom(s, left, kth) == AtLeastFrom(s, left, 0)
    {
      kth := kth + 1;
    }
  }

  /** `leafSearchRange`'s second loop: the sons up to the first key above `right`. */
  method TakeUpTo(s: seq<Byte>, right: I64, lo: int) returns (uids: seq<I64>, kth: int)
    requires Wf(s) && 0 <= lo <= NoKeys(s)
    ensures kth == AboveFrom(s, right, lo) && uids == Sons(s, lo, kth)
  {
    var noKey := NoKeys(s);
    kth := lo;
    uids := [];
    while kth < noKey && Key(s, kth) <= right
      invariant lo <= kth <= noKey
      invariant AboveFrom(s, right, kth) == AboveFrom(s, right, lo)
      invariant uids == Sons(s, lo, kth)
    {
      assert Sons(s, lo, kth + 1) == Sons(s, lo, kth) + [Son(s, kth)];
      uids := uids + [Son(s, kth)];
      kth := kth + 1;
    }
  }

  // ---------------------------------------------------------------------
  // Changing a node in place.

  /** `System.arraycopy` of `d` into the node from `pos` on. */
  method Write(raw: array<Byte>, pos: int, d: seq<Byte>)
    requires 0 <= pos && pos + |d| <= raw.Length
    modifies raw
    ensures raw[..] == Put(old(raw[..]), pos, d)
  {
    forall i | 0 <= i < |d| {
      raw[pos + i] := d[i];
    }
    assert raw[..] == old(raw[..])[..pos] + d + old(raw[..])[pos + |d|..];
  }

  method SetRawIsLeaf(raw: array<Byte>, isLeaf: bool)
    requires raw.Length == NODE_SIZE
    modifies raw
    ensures raw[..] == SetLeaf(old(raw[..]), isLeaf)
  {
    raw[IS_LEAF_OFFSET] := if isLeaf then 1 else 0;
  }

  method SetRawNoKeys(raw: array<Byte>, noKeys: int)
    requires raw.Length == NODE_SIZE
    modifies raw
    ensures raw[..] == SetNoKeys(old(raw[..]), noKeys)
  {
    Write(raw, NO_KEYS_OFFSET, ShortToBytes(Wrap16(noKeys)));
  }

  method SetRawSibling(raw: array<Byte>, sibling: I64)
    requires raw.Length == NODE_SIZE
    modifies raw
    ensures raw[..] == SetSibling(old(raw[..]), sibling)
  {
    Write(raw, SIBLING_OFFSET, LongToBytes(sibling));
  }

  method SetRawKthSon(raw: array<Byte>, uid: I64, kth: int)
    requires raw.Length == NODE_SIZE && 0 <= kth < SLOTS
    modifies raw
    ensures raw[..] == SetSon(old(raw[..]), kth, uid)
  {
    Write(raw, SonAt(kth), LongToBytes(uid));
  }

  method SetRawKthKey(raw: array<Byte>, key: I64, kth: int)
    requires raw.Length == NODE_SIZE && 0 <= kth < SLOTS
    modifies raw
    ensures raw[..] == SetKey(old(raw[..]), kth, key)
  {
    Write(raw, KeyAt(kth), LongToBytes(key));
  }

  /** `shiftRawKth`: from the last byte down, each byte of slot `kth + 1` on takes the byte one slot below. */
  method ShiftRawKth(raw: array<Byte>, kth: int)
    requires raw.Length == NODE_SIZE && 0 <= kth < SLOTS - 1
    modifies raw
    ensures raw[..] == Shifted(old(raw[..]), kth)
  {
    var begin := SonAt(kth + 1);
    var i := NODE_SIZE - 1;
    while i >= begin
      invariant begin - 1 <= i < NODE_SIZE
      invariant forall j :: 0 <= j <= i ==> raw[j] == old(raw[j])
      invariant forall j :: i < j < NODE_SIZE ==> raw[j] == old(raw[j - 16])
    {
      raw[i] := raw[i - 16];
      i := i - 1;
    }
    ghost var s := old(raw[..]);
    assert raw[..] == s[..begin] + s[begin - 16..NODE_SIZE - 16];
  }

  /** A leaf's insert at slot `kth`: the later slots move up, the entry goes in. */
  function LeafInsert(s: seq<Byte>, kth: int, uid: I64, key: I64): (r: seq<Byte>)
    requires Wf(s) && 0 <= kth <= NoKeys(s)
    ensures |r| == NODE_SIZE
  {
    SetNoKeys(SetSon(SetKey(Shifted(s, kth), kth, key), kth, uid), NoKeys(s) + 1)
  }

  /** A leaf insert puts the entry at slot `kth` over the later slots, moved up, and counts it. */
  lemma LeafInsertFacts(s: seq<Byte>, kth: int, uid: I64, key: I64)
    requires Wf(s) && 0 <= kth <= NoKeys(s)
    ensures var r := LeafInsert(s, kth, uid, key);
            && r[IS_LEAF_OFFSET] == s[IS_LEAF_OFFSET] && NoKeys(r) == NoKeys(s) + 1 && Sibling(r) == Sibling(s)
            && Slots(r) == Slots(s)[..kth] + [Slot(uid, key)] + Slots(s)[kth..SLOTS - 1]
  {
    var a := Shifted(s, kth);
    var b := SetKey(a, kth, key);
    var c := SetSon(b, kth, uid);
    assert c[..NODE_HEADER_SIZE] == s[..NODE_HEADER_SIZE] by {
      PutSides(a, KeyAt(kth), LongToBytes(key));
      PutSides(b, SonAt(kth), LongToBytes(uid));
    }
    SameHeader(c, s);
    SetNoKeysFacts(c, NoKeys(s) + 1);
    assert Slots(a) == Slots(s)[..kth + 1] + Slots(s)[kth..SLOTS - 1] by {
      ShiftedFacts(s, kth);
    }
    assert Slots(c) == Slots(a)[kth := Slot(uid, key)] by {
      SetKeyFacts(a, kth, key);
      SetSonFacts(b, kth, uid);
    }
    LeafSlots(Slots(s), kth, Slot(uid, key));
  }

  /** The slot arithmetic of a leaf insert, on the slots alone. */
  lemma LeafSlots(x: seq<Slot>, kth: int, p: Slot)
    requires |x| == SLOTS && 0 <= kth < SLOTS - 1
    ensures (x[..kth + 1] + x[kth..SLOTS - 1])[kth := p] == x[..kth] + [p] + x[kth..SLOTS - 1]
  {
  }

  /**
   * An internal node's insert at slot `kth`: the key there becomes `key`,
   * and the old key, with the new son, goes in after it.
   */
  function InnerInsert(s: seq<Byte>, kth: int, uid: I64, key: I64): (r: seq<Byte>)
    requires Wf(s) && 0 <= kth < NoKeys(s) + 1
    ensures |r| == NODE_SIZE
  {
    var rkk := Key(s, kth);
    SetNoKeys(SetSon(SetKey(Shifted(SetKey(s, kth, key), kth + 1), kth + 1, rkk), kth + 1, uid), NoKeys(s) + 1)
  }

  /**
   * An internal insert gives slot `kth` the new key, puts the new son with
   * the old key after it over the later slots, moved up, and counts it.
   */
  lemma InnerInsertFacts(s: seq<Byte>, kth: int, uid: I64, key: I64)
    requires Wf(s) && 0 <= kth < NoKeys(s) + 1
    ensures var r := InnerInsert(s, kth, uid, key);
            && r[IS_LEAF_OFFSET] == s[IS_LEAF_OFFSET] && NoKeys(r) == NoKeys(s) + 1 && Sibling(r) == Sibling(s)
            && Slots(r) == Slots(s)[..kth] + [Slot(Son(s, kth), key), Slot(uid, Key(s, kth))] + Slots(s)[kth + 1..SLOTS - 1]
  {
    var rkk := Key(s, kth);
    var a := SetKey(s, kth, key);
    var b := Shifted(a, kth + 1);
    var c := SetKey(b, kth + 1, rkk);
    var d := SetSon(c, kth + 1, uid);
    assert d[..NODE_HEADER_SIZE] == s[..NODE_HEADER_SIZE] by {
      PutSides(s, KeyAt(kth), LongToBytes(key));
      PutSides(b, KeyAt(kth + 1), LongToBytes(rkk));
      PutSides(c, SonAt(kth + 1), LongToBytes(uid));
    }
    SameHeader(d, s);
    SetNoKeysFacts(d, NoKeys(s) + 1);
    InnerInsertBody(s, kth, uid, key);
  }

  /** The slots before the count is written, in an internal insert. */
  lemma InnerInsertBody(s: seq<Byte>, kth: int, uid: I64, key: I64)
    requires Wf(s) && 0 <= kth < NoKeys(s) + 1
    ensures var c := SetKey(Shifted(SetKey(s, kth, key), kth + 1), kth + 1, Key(s, kth));
            Slots(SetSon(c, kth + 1, uid)) == Slots(s)[..kth] + [Slot(Son(s, kth), key), Slot(uid, Key(s, kth))] + Slots(s)[kth + 1..SLOTS - 1]
  {
    var rkk := Key(s, kth);
    var a := SetKey(s, kth, key);
    var b := Shifted(a, kth + 1);
    SetKeyFacts(s, kth, key);
    ShiftedFacts(a, kth + 1);
    InnerInsertTail(b, kth + 1, rkk, uid);
    InnerSlots(Slots(s), kth, Slot(Son(s, kth), key), Slot(uid, rkk));
  }

  /** Writing key, then son, into one slot. */
  lemma InnerInsertTail(b: seq<Byte>, k: int, x: I64, uid: I64)
    requires |b| == NODE_SIZE && 0 <= k < SLOTS
    ensures Slots(SetSon(SetKey(b, k, x), k, uid)) == Slots(b)[k := Slot(uid, x)]
  {
    SetKeyFacts(b, k, x);
    SetSonFacts(SetKey(b, k, x), k, uid);
  }

  /** The slot arithmetic of an internal insert, on the slots alone. */
  lemma InnerSlots(x: seq<Slot>, kth: int, p: Slot, q: Slot)
    requires |x| == SLOTS && 0 <= kth < SLOTS - 2
    ensures var a := x[kth := p];
            (a[..kth + 2] + a[kth + 1..SLOTS - 1])[kth + 1 := q] == x[..kth] + [p, q] + x[kth + 1..SLOTS - 1]
  {
    var a := x[kth := p];
    var l := (a[..kth + 2] + a[kth + 1..SLOTS - 1])[kth + 1 := q];
    var w := x[..kth] + [p, q] + x[kth + 1..SLOTS - 1];
    forall j | 0 <= j < SLOTS ensures l[j] == w[j] {
      if j > kth + 1 {
        assert l[j] == a[j - 1] == x[j - 1];
      } else if j < kth {
        assert l[j] == a[j] == x[j];
      }
    }
  }

  /** `insert`'s image of the node: `None` when the node refuses the entry. */
  function InsertImage(s: seq<Byte>, uid: I64, key: I64): (r: Option<seq<Byte>>)
    requires Wf(s)
    ensures var kth := AtLeastFrom(s, key, 0);
            && (r.None? <==> kth == NoKeys(s) && Sibling(s) != 0)
            && (r.Some? ==> r.value == if IsLeaf(s) then LeafInsert(s, kth, uid, key) else InnerInsert(s, kth, uid, key))
  {
    var kth := AtLeastFrom(s, key, 0);
    if kth == NoKeys(s) && Sibling(s) != 0 then None
    else if IsLeaf(s) then Some(LeafInsert(s, kth, uid, key))
    else Some(InnerInsert(s, kth, uid, key))
  }

  /** An accepted insert keeps the node's kind and sibling and counts one key more. */
  lemma InsertImageHeader(s: seq<Byte>, uid: I64, key: I64)
    requires Wf(s)
    ensures var r := InsertImage(s, uid, key);
            r.Some? ==> |r.value| == NODE_SIZE && IsLeaf(r.value) == IsLeaf(s) &&
                        NoKeys(r.value) == NoKeys(s) + 1 && Sibling(r.value) == Sibling(s)
  {
    var kth := AtLeastFrom(s, key, 0);
    if kth < NoKeys(s) || Sibling(s) == 0 {
      if IsLeaf(s) {
        LeafInsertFacts(s, kth, uid, key);
      } else {
        InnerInsertFacts(s, kth, uid, key);
      }
    }
  }

  /** A leaf insert keeps the used keys sorted. */
  lemma LeafInsertSorted(s: seq<Byte>, uid: I64, key: I64)
    requires Wf(s) && IsLeaf(s) && Sorted(s) && InsertImage(s, uid, key).Some?
    ensures |InsertImage(s, uid, key).value| == NODE_SIZE && 0 <= NoKeys(InsertImage(s, uid, key).value) <= SLOTS
    ensures Sorted(InsertImage(s, uid, key).value)
  {
    var kth := AtLeastFrom(s, key, 0);
    var r := LeafInsert(s, kth, uid, key);
    LeafInsertFacts(s, kth, uid, key);
    forall i, j | 0 <= i < j < NoKeys(r) ensures Key(r, i) <= Key(r, j) {
      LeafInsertKey(s, kth, uid, key, i);
      LeafInsertKey(s, kth, uid, key, j);
    }
  }

  /** Key `i` after a leaf insert at `kth`. */
  lemma LeafInsertKey(s: seq<Byte>, kth: int, uid: I64, key: I64, i: int)
    requires Wf(s) && 0 <= kth <= NoKeys(s) && 0 <= i < SLOTS
    ensures Key(LeafInsert(s, kth, uid, key), i) == if i < kth then Key(s, i) else if i == kth then key else Key(s, i - 1)
  {
    var r := LeafInsert(s, kth, uid, key);
    LeafInsertFacts(s, kth, uid, key);
    assert Slots(r)[i] == (if i < kth then Slots(s)[i] else if i == kth then Slot(uid, key) else Slots(s)[i - 1]);
  }

  /**
   * After a leaf takes an entry without reaching 64 keys, a range search
   * of the leaf over any range holding the key finds the entry's uid.
   */
  lemma LeafInsertFound(s: seq<Byte>, uid: I64, key: I64, left: I64, right: I64)
    requires Wf(s) && IsLeaf(s) && NoKeys(s) < 2 * BALANCE_NUMBER - 1 && InsertImage(s, uid, key).Some?
    requires left <= key <= right
    ensures Wf(InsertImage(s, uid, key).value)
    ensures uid in LeafRange(InsertImage(s, uid, key).value, left, right).uids
  {
    var kth := AtLeastFrom(s, key, 0);
    var r := LeafInsert(s, kth, uid, key);
    LeafInsertFacts(s, kth, uid, key);
    assert Slots(r)[kth] == Slot(uid, key);
    forall j | 0 <= j < kth ensures Key(r, j) <= right {
      assert Slots(r)[j] == Slots(s)[j];
    }
    LeafRangeFinds(r, left, right, kth);
  }

  /**
   * `insert(uid, key)`: the entry goes in at the first key at least `key`
   * (a leaf's later slots move up; an internal node's key there becomes
   * `key` and the old key moves up with the new son), and the count grows
   * by one. A node all of whose keys are below `key` and that has a
   * sibling refuses, changing nothing.
   */
  method Insert(raw: array<Byte>, uid: I64, key: I64) returns (ok: bool)
    requires Wf(raw[..])
    modifies raw
    ensures ok == InsertImage(old(raw[..]), uid, key).Some?
    ensures ok ==> raw[..] == InsertImage(old(raw[..]), uid, key).value
    ensures !ok ==> raw[..] == old(raw[..])
  {
    var noKey := NoKeys(raw[..]);
    var kth := SkipBelow(raw[..], key);
    if kth == noKey && Sibling(raw[..]) != 0 {
      return false;
    }
    if IsLeaf(raw[..]) {
      LeafInsertRaw(raw, kth, uid, key);
    } else {
      InnerInsertRaw(raw, kth, uid, key);
    }
    ok := true;
  }

  /** `insert`'s leaf branch on the node's bytes. */
  method LeafInsertRaw(raw: array<Byte>, kth: int, uid: I64, key: I64)
    requires Wf(raw[..]) && 0 <= kth <= NoKeys(raw[..])
    modifies raw
    ensures raw[..] == LeafInsert(old(raw[..]), kth, uid, key)
  {
    var noKey := NoKeys(raw[..]);
    ShiftRawKth(raw, kth);
    SetRawKthKey(raw, key, kth);
    SetRawKthSon(raw, uid, kth);
    SetRawNoKeys(raw, noKey + 1);
  }

  /** `insert`'s internal-node branch on the node's bytes. */
  method InnerInsertRaw(raw: array<Byte>, kth: int, uid: I64, key: I64)
    requires Wf(raw[..]) && 0 <= kth <= NoKeys(raw[..])
    modifies raw
    ensures raw[..] == InnerInsert(old(raw[..]), kth, uid, key)
  {
    var noKey := NoKeys(raw[..]);
    var rkk := Key(raw[..], kth);
    SetRawKthKey(raw, key, kth);
    ShiftRawKth(raw, kth + 1);
    SetRawKthKey(raw, rkk, kth + 1);
    SetRawKthSon(raw, uid, kth + 1);
    SetRawNoKeys(raw, noKey + 1);
  }

  /** `needSplit` */
  predicate NeedSplit(s: seq<Byte>)
    requires |s| == NODE_SIZE
  {
    NoKeys(s) == BALANCE_NUMBER * 2
  }

  /** Slot `k` after the slots from 32 on are copied to the front of `h`. */
  lemma CopiedSlot(h: seq<Byte>, s: seq<Byte>, k: int)
    requires |h| == |s| == NODE_SIZE && 0 <= k < SLOTS
    ensures var r := Put(h, NODE_HEADER_SIZE, s[SonAt(BALANCE_NUMBER)..]);
            if k < SLOTS - BALANCE_NUMBER then Son(r, k) == Son(s, k + BALANCE_NUMBER) && Key(r, k) == Key(s, k + BALANCE_NUMBER)
            else Son(r, k) == Son(h, k) && Key(r, k) == Key(h, k)
  {
    var d := s[SonAt(BALANCE_NUMBER)..];
    PutRead(h, NODE_HEADER_SIZE, d, SonAt(k), 8);
    PutRead(h, NODE_HEADER_SIZE, d, KeyAt(k), 8);
    if k < SLOTS - BALANCE_NUMBER {
      assert d[SonAt(k) - NODE_HEADER_SIZE..SonAt(k) - NODE_HEADER_SIZE + 8] == s[SonAt(k + BALANCE_NUMBER)..SonAt(k + BALANCE_NUMBER) + 8];
      assert d[KeyAt(k) - NODE_HEADER_SIZE..KeyAt(k) - NODE_HEADER_SIZE + 8] == s[KeyAt(k + BALANCE_NUMBER)..KeyAt(k + BALANCE_NUMBER) + 8];
    }
  }

  /** The node a split moves the upper half into: same kind, slots 32 on, the old sibling. */
  function SplitNewNode(s: seq<Byte>): (r: seq<Byte>)
    requires |s| == NODE_SIZE
    ensures |r| == NODE_SIZE
  {
    Put(EmptyNode(IsLeaf(s), BALANCE_NUMBER, Sibling(s)), NODE_HEADER_SIZE, s[SonAt(BALANCE_NUMBER)..])
  }

  /** The new node of a split: same kind, 32 keys, the old sibling, and slots 32 on moved to the front. */
  lemma SplitNewNodeFacts(s: seq<Byte>)
    requires |s| == NODE_SIZE
    ensures var r := SplitNewNode(s);
            && Wf(r) && IsLeaf(r) == IsLeaf(s) && NoKeys(r) == BALANCE_NUMBER && Sibling(r) == Sibling(s)
            && Slots(r) == Slots(s)[BALANCE_NUMBER..] + ZeroSlots()[..BALANCE_NUMBER]
  {
    var h := EmptyNode(IsLeaf(s), BALANCE_NUMBER, Sibling(s));
    var d := s[SonAt(BALANCE_NUMBER)..];
    var r := SplitNewNode(s);
    EmptyNodeFacts(IsLeaf(s), BALANCE_NUMBER, Sibling(s));
    PutSides(h, NODE_HEADER_SIZE, d);
    SameHeader(r, h);
    forall k | 0 <= k < SLOTS
      ensures Slots(r)[k] == (Slots(s)[BALANCE_NUMBER..] + ZeroSlots()[..BALANCE_NUMBER])[k]
    {
      CopiedSlot(h, s, k);
    }
  }

  /** The node a split keeps: the lower 32 keys, linked to the new node. */
  function SplitOldNode(s: seq<Byte>, son: I64): (r: seq<Byte>)
    requires |s| == NODE_SIZE
    ensures |r| == NODE_SIZE
  {
    SetSibling(SetNoKeys(s, BALANCE_NUMBER), son)
  }

  /** The kept node of a split: same kind and slots, 32 keys, the new node as sibling. */
  lemma SplitOldNodeFacts(s: seq<Byte>, son: I64)
    requires |s| == NODE_SIZE
    ensures var r := SplitOldNode(s, son);
            Wf(r) && IsLeaf(r) == IsLeaf(s) && NoKeys(r) == BALANCE_NUMBER && Sibling(r) == son && Slots(r) == Slots(s)
  {
    SetNoKeysFacts(s, BALANCE_NUMBER);
    SetSiblingFacts(SetNoKeys(s, BALANCE_NUMBER), son);
  }

  /** Both halves of a split are well formed. */
  lemma SplitWf(s: seq<Byte>, son: I64)
    requires |s| == NODE_SIZE
    ensures Wf(SplitNewNode(s)) && Wf(SplitOldNode(s, son))
  {
    SplitNewNodeFacts(s);
    SplitOldNodeFacts(s, son);
  }

  /** The sons and keys of the used slots. */
  function Used(s: seq<Byte>): (r: seq<Slot>)
    requires |s| == NODE_SIZE && 0 <= NoKeys(s) <= SLOTS
  {
    Slots(s)[..NoKeys(s)]
  }

  /** A split of a full node loses no entry: the kept half, then the moved half, are the old entries. */
  lemma SplitKeepsEntries(s: seq<Byte>, son: I64)
    requires |s| == NODE_SIZE && NeedSplit(s)
    ensures var o, n := SplitOldNode(s, son), SplitNewNode(s);
            && NoKeys(o) == NoKeys(n) == BALANCE_NUMBER
            && Used(o) + Used(n) == Used(s) && Key(n, 0) == Key(s, BALANCE_NUMBER)
  {
    SplitOldNodeFacts(s, son);
    SplitNewNodeFacts(s);
    var n := SplitNewNode(s);
    assert Slots(n)[0] == Slots(s)[BALANCE_NUMBER];
  }

  /** What `insertAndSplit` returns: a sibling to try instead, or the split's new node and its first key. */
  datatype InsertAndSplitRes = InsertAndSplitRes(siblingUid: I64, newSon: I64, newKey: I64)

  /** The data manager's state as a value: its records and the uid it hands out next. */
  datatype Store = Store(items: map<I64, seq<Byte>>, next: I64)

  /**
   * `loadNode`: the node's bytes. A missing record is a null data item;
   * a record that is not a node image is refused (the original reads
   * whatever bytes follow it in the page).
   */
  function LoadNode(items: map<I64, seq<Byte>>, uid: I64): (r: Result<seq<Byte>>)
    ensures r.Ok? <==> uid in items && Wf(items[uid])
    ensures r.Ok? ==> r.value == items[uid]
    ensures r.Err? ==> r.error == (if uid in items then Panic else NullPointer)
  {
    if uid !in items then Err(NullPointer)
    else if !Wf(items[uid]) then Err(Panic)
    else Ok(items[uid])
  }

  /**
   * `insertAndSplit` on node `nodeUid`, on the data manager's state: the
   * insert, then a split when the node reached 64 keys. A refused insert
   * gives the sibling and changes nothing (`unBefore`), and so does a
   * split whose insert of the new node fails; otherwise the changed node
   * is written back (`after`).
   */
  function InsertAndSplitStep(st: Store, nodeUid: I64, uid: I64, key: I64): (out: (Result<InsertAndSplitRes>, Store))
    ensures out.1.next >= st.next && st.items.Keys <= out.1.items.Keys
    ensures forall u :: u in out.1.items && (u !in st.items || out.1.items[u] != st.items[u]) ==>
              Wf(out.1.items[u]) && (u == nodeUid || st.next <= u < out.1.next)
    ensures out.0.Err? || out.0.value.siblingUid != 0 ==> out.1 == st
    ensures out.0.Ok? && out.0.value.newSon != 0 ==> out.0.value.newSon == st.next && out.1.next == st.next + 1
  {
    var n := LoadNode(st.items, nodeUid);
    if n.Err? then (Err(n.error), st)
    else
      InsertImageHeader(n.value, uid, key);
      StepOnImage(st, nodeUid, n.value, InsertImage(n.value, uid, key))
  }

  /** `insertAndSplit` once the insert's image `img` of node `s` is known. */
  function StepOnImage(st: Store, nodeUid: I64, s: seq<Byte>, img: Option<seq<Byte>>): (out: (Result<InsertAndSplitRes>, Store))
    requires img.Some? ==> |img.value| == NODE_SIZE && 0 <= NoKeys(img.value) <= 2 * BALANCE_NUMBER
    requires |s| == NODE_SIZE
    ensures out.1.next >= st.next && st.items.Keys <= out.1.items.Keys
    ensures forall u :: u in out.1.items && (u !in st.items || out.1.items[u] != st.items[u]) ==>
              Wf(out.1.items[u]) && (u == nodeUid || st.next <= u < out.1.next)
    ensures out.0.Err? || out.0.value.siblingUid != 0 ==> out.1 == st
    ensures out.0.Ok? && out.0.value.newSon != 0 ==> out.0.value.newSon == st.next && out.1.next == st.next + 1
  {
    if img.None? then (Ok(InsertAndSplitRes(Sibling(s), 0, 0)), st)
    else if !NeedSplit(img.value) then (Ok(InsertAndSplitRes(0, 0, 0)), st.(items := st.items[nodeUid := img.value]))
    else if st.next == LONG_MAX then (Err(DatabaseBusy), st)
    else
      var son := st.next;
      SplitWf(img.value, son);
      var items := st.items[son := SplitNewNode(img.value)][nodeUid := SplitOldNode(img.value, son)];
      (Ok(InsertAndSplitRes(0, son, Key(img.value, BALANCE_NUMBER))), Store(items, son + 1))
  }

  /**
   * The data manager holding the nodes: records by uid, and the uid the
   * next insert gets. Uids start at 1; 0 is the null uid.
   */
  class Records {
    var items: map<I64, seq<Byte>>
    var next: I64

    ghost predicate Valid()
      reads this
    {
      0 < next && forall u :: u in items ==> 0 < u < next
    }

    function State(): Store
      reads this
    {
      Store(items, next)
    }

    constructor (items: map<I64, seq<Byte>>, next: I64)
      requires 0 < next && forall u :: u in items ==> 0 < u < next
      ensures Valid() && this.items == items && this.next == next
    {
      this.items := items;
      this.next := next;
    }

    /**
     * `dm.insert`: a new record under a new uid. The data manager's own
     * failures are its uid space running out, DatabaseBusy.
     */
    method Insert(raw: seq<Byte>) returns (r: Result<I64>)
      requires Valid()
      modifies this
      ensures Valid()
      ensures old(next) == LONG_MAX ==> r == Err(DatabaseBusy) && items == old(items) && next == old(next)
      ensures old(next) < LONG_MAX ==>
                r == Ok(old(next)) && old(next) !in old(items) &&
                items == old(items)[old(next) := raw] && next == old(next) + 1
    {
      if next == LONG_MAX {
        return Err(DatabaseBusy);
      }
      r := Ok(next);
      items := items[next := raw];
      next := next + 1;
    }

    /** A record's bytes written back in place (the node's window in its page). */
    method Write(uid: I64, raw: seq<Byte>)
      requires Valid() && uid in items
      modifies this`items
      ensures Valid() && items == old(items)[uid := raw]
    {
      items := items[uid := raw];
    }
  }

  /** What `split` returns: the new node and its first key. */
  datatype SplitRes = SplitRes(newSon: I64, newKey: I64)

  /**
   * `split`: a new node with the upper half goes to the data manager; the
   * node keeps 32 keys and links to the new node. When the insert of the
   * new node fails, the node is unchanged.
   */
  method Split(dm: Records, raw: array<Byte>) returns (r: Result<SplitRes>)
    requires dm.Valid() && raw.Length == NODE_SIZE
    modifies dm, raw
    ensures dm.Valid()
    ensures old(dm.next) == LONG_MAX ==>
              r == Err(DatabaseBusy) && raw[..] == old(raw[..]) && dm.items == old(dm.items) && dm.next == old(dm.next)
    ensures old(dm.next) < LONG_MAX ==>
              r == Ok(SplitRes(old(dm.next), Key(old(raw[..]), BALANCE_NUMBER))) && dm.next == old(dm.next) + 1 &&
              dm.items == old(dm.items)[old(dm.next) := SplitNewNode(old(raw[..]))] &&
              raw[..] == SplitOldNode(old(raw[..]), old(dm.next))
  {
    var nodeRaw := SplitNode(raw);
    var son := dm.Insert(nodeRaw[..]);
    if son.Err? {
      return Err(son.error);
    }
    SplitNewNodeFacts(raw[..]);
    assert Slots(nodeRaw[..])[0] == Slots(raw[..])[BALANCE_NUMBER];
    r := Ok(SplitRes(son.value, Key(nodeRaw[..], 0)));
    SetRawNoKeys(raw, BALANCE_NUMBER);
    SetRawSibling(raw, son.value);
  }

  /** `split`'s new node, built in a fresh array. */
  method SplitNode(raw: array<Byte>) returns (nodeRaw: array<Byte>)
    requires raw.Length == NODE_SIZE
    ensures fresh(nodeRaw) && nodeRaw[..] == SplitNewNode(raw[..])
  {
    nodeRaw := new Byte[NODE_SIZE](_ => 0);
    assert nodeRaw[..] == Zeroed();
    SetRawIsLeaf(nodeRaw, IsLeaf(raw[..]));
    SetRawNoKeys(nodeRaw, BALANCE_NUMBER);
    SetRawSibling(nodeRaw, Sibling(raw[..]));
    Write(nodeRaw, NODE_HEADER_SIZE, raw[SonAt(BALANCE_NUMBER)..]);
  }

  /** `insertAndSplit` once the node's bytes are in `raw`. */
  method InsertAndSplitRaw(dm: Records, nodeUid: I64, raw: array<Byte>, uid: I64, key: I64) returns (r: Result<InsertAndSplitRes>)
    requires dm.Valid() && nodeUid in dm.items && Wf(raw[..]) && raw[..] == dm.items[nodeUid]
    modifies dm, raw
    ensures dm.Valid()
    ensures (r, dm.State()) == InsertAndSplitStep(old(dm.State()), nodeUid, uid, key)
  {
    ghost var st := dm.State();
    ghost var img := InsertImage(raw[..], uid, key);
    assert LoadNode(st.items, nodeUid) == Ok(raw[..]);
    var ok := Insert(raw, uid, key);
    if !ok {
      assert InsertAndSplitStep(st, nodeUid, uid, key) == (Ok(InsertAndSplitRes(Sibling(raw[..]), 0, 0)), st);
      return Ok(InsertAndSplitRes(Sibling(raw[..]), 0, 0));
    }
    if !NeedSplit(raw[..]) {
      dm.Write(nodeUid, raw[..]);
      assert InsertAndSplitStep(st, nodeUid, uid, key) == (Ok(InsertAndSplitRes(0, 0, 0)), dm.State());
      return Ok(InsertAndSplitRes(0, 0, 0));
    }
    var s := Split(dm, raw);
    if s.Err? {
      assert InsertAndSplitStep(st, nodeUid, uid, key) == (Err(DatabaseBusy), st);
      return Err(s.error);
    }
    dm.Write(nodeUid, raw[..]);
    r := Ok(InsertAndSplitRes(0, s.value.newSon, s.value.newKey));
  }

  /** `insertAndSplit`: load the node, then insert into it and split it as needed. */
  method InsertAndSplit(dm: Records, nodeUid: I64, uid: I64, key: I64) returns (r: Result<InsertAndSplitRes>)
    requires dm.Valid()
    modifies dm
    ensures dm.Valid()
    ensures (r, dm.State()) == InsertAndSplitStep(old(dm.State()), nodeUid, uid, key)
  {
    var n := LoadNode(dm.items, nodeUid);
    if n.Err? {
      return Err(n.error);
    }
    var raw := new Byte[NODE_SIZE](i requires 0 <= i < NODE_SIZE => n.value[i]);
    assert raw[..] == n.value;
    r := InsertAndSplitRaw(dm, nodeUid, raw, uid, key);
  }
}
