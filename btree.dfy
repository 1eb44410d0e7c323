/**
 * The B+Tree index (`BTree`): a tree of `Node` records in the data
 * manager, reached through a boot record whose first 8 bytes hold the
 * root's uid. Searches walk down by `searchNext` and then along the
 * leaves' sibling links; inserts go down to a leaf and split nodes on the
 * way back up, and a split of the root makes a new root and repoints the
 * boot record.
 *
 * Every walk the original runs as an unbounded loop or recursion takes a
 * step bound `fuel` here; running out of it is `OutOfSteps`.
 */
module BPlusTree {
  import opened Bytes
  import opened Outcomes
  import opened Node

  // ---------------------------------------------------------------------
  // The tree on the data manager's state.

  /** `rootUid`: the first 8 bytes of the boot record. */
  function RootOf(items: map<I64, seq<Byte>>, bootUid: I64): (r: Result<I64>)
    ensures r.Ok? <==> bootUid in items && |items[bootUid]| >= 8
    ensures r.Ok? ==> LongToBytes(r.value) == items[bootUid][..8]
  {
    if bootUid !in items then Err(NullPointer)
    else if |items[bootUid]| < 8 then Err(Panic)
    else
      LongBytesRoundTrip(items[bootUid][..8]);
      Ok(ParseLong(items[bootUid][..8]))
  }

  /**
   * `searchNext` in the tree: from `nodeUid`, along sibling links, to the
   * first node with a key above `key`; the son beside that key.
   */
  function NextWalk(items: map<I64, seq<Byte>>, nodeUid: I64, key: I64, fuel: nat): (r: Result<I64>)
    ensures r.Ok? ==> r.value != 0
    decreases fuel
  {
    if fuel == 0 then Err(OutOfSteps)
    else
      var n := LoadNode(items, nodeUid);
      if n.Err? then Err(n.error)
      else
        var res := NextOf(n.value, key);
        if res.uid != 0 then Ok(res.uid)
        else NextWalk(items, res.siblingUid, key, fuel - 1)
  }

  /** `searchLeaf`: down from `nodeUid` to the leaf where `key` belongs. */
  function LeafWalk(items: map<I64, seq<Byte>>, nodeUid: I64, key: I64, fuel: nat): (r: Result<I64>)
    ensures r.Ok? ==> LoadNode(items, r.value).Ok? && IsLeaf(items[r.value])
    decreases fuel
  {
    if fuel == 0 then Err(OutOfSteps)
    else
      var n := LoadNode(items, nodeUid);
      if n.Err? then Err(n.error)
      else if IsLeaf(n.value) then Ok(nodeUid)
      else
        var next := NextWalk(items, nodeUid, key, fuel);
        if next.Err? then Err(next.error)
        else LeafWalk(items, next.value, key, fuel - 1)
  }

  /** `searchRange`'s loop: from leaf `leafUid` along the sibling links, the uids with keys in `[left, right]`. */
  function RangeWalk(items: map<I64, seq<Byte>>, leafUid: I64, left: I64, right: I64, fuel: nat): (r: Result<seq<I64>>)
    decreases fuel
  {
    if fuel == 0 then Err(OutOfSteps)
    else
      var n := LoadNode(items, leafUid);
      if n.Err? then Err(n.error)
      else
        var res := LeafRange(n.value, left, right);
        if res.siblingUid == 0 then Ok(res.uids)
        else
          var rest := RangeWalk(items, res.siblingUid, left, right, fuel - 1);
          if rest.Err? then rest else Ok(res.uids + rest.value)
  }

  /** `searchRange(left, right)`: the leaf for `left`, then along the leaves. */
  function SearchRangeOf(items: map<I64, seq<Byte>>, bootUid: I64, left: I64, right: I64, fuel: nat): Result<seq<I64>>
  {
    var root := RootOf(items, bootUid);
    if root.Err? then Err(root.error)
    else
      var leaf := LeafWalk(items, root.value, left, fuel);
      if leaf.Err? then Err(leaf.error)
      else RangeWalk(items, leaf.value, left, right, fuel)
  }

  /** A uid the index holds for a key in `[left, right]`: the son of such a key in some node. */
  ghost predicate Indexed(items: map<I64, seq<Byte>>, x: I64, left: I64, right: I64)
  {
    exists u, i :: u in items && Wf(items[u]) && 0 <= i < NoKeys(items[u]) &&
                   Son(items[u], i) == x && left <= Key(items[u], i) <= right
  }

  /** Every node's used keys are sorted. */
  ghost predicate NodesSorted(items: map<I64, seq<Byte>>)
  {
    forall u :: u in items && Wf(items[u]) ==> Sorted(items[u])
  }

  /** Over sorted nodes, every uid a range walk gives belongs to a key in the range. */
  lemma {:induction false} RangeWalkSound(items: map<I64, seq<Byte>>, leafUid: I64, left: I64, right: I64, fuel: nat)
    requires NodesSorted(items) && RangeWalk(items, leafUid, left, right, fuel).Ok?
    ensures forall x :: x in RangeWalk(items, leafUid, left, right, fuel).value ==> Indexed(items, x, left, right)
    decreases fuel
  {
    var s := items[leafUid];
    var res := LeafRange(s, left, right);
    forall k | 0 <= k < |res.uids| ensures Indexed(items, res.uids[k], left, right) {
      LeafRangeSound(s, left, right, k);
    }
    if res.siblingUid != 0 {
      RangeWalkSound(items, res.siblingUid, left, right, fuel - 1);
    }
  }

  /** Over sorted nodes, a search answers only uids whose keys are in the range. */
  lemma SearchRangeSound(items: map<I64, seq<Byte>>, bootUid: I64, left: I64, right: I64, fuel: nat)
    requires NodesSorted(items) && SearchRangeOf(items, bootUid, left, right, fuel).Ok?
    ensures forall x :: x in SearchRangeOf(items, bootUid, left, right, fuel).value ==> Indexed(items, x, left, right)
  {
    var root := RootOf(items, bootUid).value;
    var leaf := LeafWalk(items, root, left, fuel).value;
    RangeWalkSound(items, leaf, left, right, fuel);
  }

  // ---------------------------------------------------------------------
  // Inserting, on the data manager's state.

  /** What the recursive `insert` hands up: a new node and its first key when a split happened below, else 0. */
  datatype InsertRes = InsertRes(newNode: I64, newKey: I64)

  /** The step's effect on the store: records only added, every changed record a well-formed node. */
  ghost predicate Grows(st: Store, st': Store)
  {
    st.next <= st'.next && st.items.Keys <= st'.items.Keys &&
    forall u :: u in st'.items && (u !in st.items || st'.items[u] != st.items[u]) ==> Wf(st'.items[u])
  }

  lemma GrowsTrans(a: Store, b: Store, c: Store)
    requires Grows(a, b) && Grows(b, c)
    ensures Grows(a, c)
  {
  }

  /**
   * `BTree.insertAndSplit`: the node's `insertAndSplit`, moving on to the
   * sibling while the node refuses the entry.
   */
  function SplitWalk(st: Store, nodeUid: I64, uid: I64, key: I64, fuel: nat): (out: (Result<InsertRes>, Store))
    ensures st.next <= out.1.next
    ensures out.0.Ok? && out.0.value.newNode != 0 ==> st.next <= out.0.value.newNode < out.1.next
    decreases fuel
  {
    if fuel == 0 then (Err(OutOfSteps), st)
    else
      var step := InsertAndSplitStep(st, nodeUid, uid, key);
      if step.0.Err? then (Err(step.0.error), step.1)
      else if step.0.value.siblingUid == 0 then
        (Ok(InsertRes(step.0.value.newSon, step.0.value.newKey)), step.1)
      else SplitWalk(st, step.0.value.siblingUid, uid, key, fuel - 1)
  }

  /** One step of `SplitWalk`, given the outcome `(res, st')` of the node's `insertAndSplit`. */
  lemma SplitWalkStep(st: Store, nodeUid: I64, uid: I64, key: I64, fuel: nat, res: Result<InsertAndSplitRes>, st': Store)
    requires fuel > 0 && (res, st') == InsertAndSplitStep(st, nodeUid, uid, key)
    ensures res.Err? ==> SplitWalk(st, nodeUid, uid, key, fuel) == (Err(res.error), st')
    ensures res.Ok? && res.value.siblingUid == 0 ==>
              SplitWalk(st, nodeUid, uid, key, fuel) == (Ok(InsertRes(res.value.newSon, res.value.newKey)), st')
    ensures res.Ok? && res.value.siblingUid != 0 ==>
              st' == st && SplitWalk(st, nodeUid, uid, key, fuel) == SplitWalk(st, res.value.siblingUid, uid, key, fuel - 1)
  {
  }

  /** The walk depends on the number of steps left, not on how that number is written. */
  lemma SplitWalkSameFuel(st: Store, nodeUid: I64, uid: I64, key: I64, a: nat, b: nat)
    requires a == b
    ensures SplitWalk(st, nodeUid, uid, key, a) == SplitWalk(st, nodeUid, uid, key, b)
  {
  }

  /**
   * The recursive `insert(rootUid, uid, key)`: at a leaf, insert there;
   * otherwise insert into the son `searchNext` picks, and when that split,
   * insert the new node into this node.
   */
  function InsertDown(st: Store, nodeUid: I64, uid: I64, key: I64, fuel: nat): (out: (Result<InsertRes>, Store))
    ensures st.next <= out.1.next
    decreases fuel, 1
  {
    if fuel == 0 then (Err(OutOfSteps), st)
    else
      var n := LoadNode(st.items, nodeUid);
      if n.Err? then (Err(n.error), st)
      else if IsLeaf(n.value) then SplitWalk(st, nodeUid, uid, key, fuel)
      else InsertBelow(st, nodeUid, uid, key, fuel)
  }

  /** The recursive insert at an internal node: into the son `searchNext` picks, then its split, if any, here. */
  function InsertBelow(st: Store, nodeUid: I64, uid: I64, key: I64, fuel: nat): (out: (Result<InsertRes>, Store))
    requires fuel > 0
    ensures st.next <= out.1.next
    decreases fuel, 0
  {
    var next := NextWalk(st.items, nodeUid, key, fuel);
    if next.Err? then (Err(next.error), st)
    else AfterChild(InsertDown(st, next.value, uid, key, fuel - 1), nodeUid, fuel)
  }

  /**
   * An internal node's part of the recursive insert, given its child's
   * outcome: when the child split, the new node goes into this node.
   */
  function AfterChild(below: (Result<InsertRes>, Store), nodeUid: I64, fuel: nat): (out: (Result<InsertRes>, Store))
    ensures below.1.next <= out.1.next
  {
    if below.0.Err? then below
    else if below.0.value.newNode != 0 then
      SplitWalk(below.1, nodeUid, below.0.value.newNode, below.0.value.newKey, fuel)
    else (Ok(InsertRes(0, 0)), below.1)
  }

  /** The walk along the siblings only adds records, and leaves every record it changed a well-formed node. */
  lemma {:induction false} SplitWalkGrows(st: Store, nodeUid: I64, uid: I64, key: I64, fuel: nat)
    ensures Grows(st, SplitWalk(st, nodeUid, uid, key, fuel).1)
    decreases fuel
  {
    if fuel > 0 {
      var step := InsertAndSplitStep(st, nodeUid, uid, key);
      if step.0.Ok? && step.0.value.siblingUid != 0 {
        SplitWalkGrows(st, step.0.value.siblingUid, uid, key, fuel - 1);
      }
    }
  }

  /** The recursive insert only adds records, and leaves every record it changed a well-formed node. */
  lemma {:induction false} InsertDownGrows(st: Store, nodeUid: I64, uid: I64, key: I64, fuel: nat)
    ensures Grows(st, InsertDown(st, nodeUid, uid, key, fuel).1)
    decreases fuel
  {
    if fuel > 0 {
      var n := LoadNode(st.items, nodeUid);
      if n.Ok? && IsLeaf(n.value) {
        SplitWalkGrows(st, nodeUid, uid, key, fuel);
      } else if n.Ok? {
        var next := NextWalk(st.items, nodeUid, key, fuel);
        if next.Ok? {
          var below := InsertDown(st, next.value, uid, key, fuel - 1);
          assert InsertDown(st, nodeUid, uid, key, fuel) == InsertBelow(st, nodeUid, uid, key, fuel) == AfterChild(below, nodeUid, fuel);
          InsertDownGrows(st, next.value, uid, key, fuel - 1);
          AfterChildGrows(below, nodeUid, fuel);
          GrowsTrans(st, below.1, AfterChild(below, nodeUid, fuel).1);
        }
      }
    }
  }

  lemma AfterChildGrows(below: (Result<InsertRes>, Store), nodeUid: I64, fuel: nat)
    ensures Grows(below.1, AfterChild(below, nodeUid, fuel).1)
  {
    if below.0.Ok? && below.0.value.newNode != 0 {
      SplitWalkGrows(below.1, nodeUid, below.0.value.newNode, below.0.value.newKey, fuel);
    }
  }

  /**
   * `updateRootUid(left, right, rightKey)`: a new root over the old root
   * and the split's new node goes to the data manager, and the boot
   * record's first 8 bytes now hold its uid.
   */
  function UpdateRoot(st: Store, bootUid: I64, left: I64, right: I64, rightKey: I64): (out: (Result<I64>, Store))
    requires bootUid in st.items && |st.items[bootUid]| >= 8
    ensures out.0.Ok? ==> out.0.value == st.next && out.1.next == st.next + 1 &&
                          out.1.items == st.items[st.next := NewRootRaw(left, right, rightKey)]
                                                 [bootUid := Put(st.items[bootUid], 0, LongToBytes(st.next))]
    ensures out.0.Err? ==> out.0.error == DatabaseBusy && out.1 == st
  {
    if st.next == LONG_MAX then (Err(DatabaseBusy), st)
    else
      var uid := st.next;
      var items := st.items[uid := NewRootRaw(left, right, rightKey)];
      (Ok(uid), Store(items[bootUid := Put(st.items[bootUid], 0, LongToBytes(uid))], uid + 1))
  }

  /**
   * `insert(key, uid)`: the recursive insert from the root, then a new
   * root when the old one split. The result says whether the root split.
   */
  function InsertTree(st: Store, bootUid: I64, key: I64, uid: I64, fuel: nat): (out: (Result<bool>, Store))
  {
    var root := RootOf(st.items, bootUid);
    if root.Err? then (Err(root.error), st)
    else
      var down := InsertDown(st, root.value, uid, key, fuel);
      if down.0.Err? then (Err(down.0.error), down.1)
      else if down.0.value.newNode == 0 then (Ok(false), down.1)
      else if bootUid !in down.1.items || |down.1.items[bootUid]| < 8 then (Err(Panic), down.1)
      else
        var up := UpdateRoot(down.1, bootUid, root.value, down.0.value.newNode, down.0.value.newKey);
        if up.0.Err? then (Err(up.0.error), up.1) else (Ok(true), up.1)
  }

  /**
   * `create`: an empty leaf as the root, then an 8-byte boot record
   * pointing at it; the boot record's uid is the tree's handle.
   */
  function CreateTree(st: Store): (out: (Result<I64>, Store))
    ensures out.0.Ok? ==>
              var root := st.next;
              out.0.value == root + 1 && out.1.next == root + 2 &&
              out.1.items == st.items[root := NewNilRootRaw()][root + 1 := LongToBytes(root)]
  {
    if st.next == LONG_MAX then (Err(DatabaseBusy), st)
    else
      var root := st.next;
      var items := st.items[root := NewNilRootRaw()];
      if root + 1 == LONG_MAX then (Err(DatabaseBusy), Store(items, root + 1))
      else (Ok(root + 1), Store(items[root + 1 := LongToBytes(root)], root + 2))
  }

  // ---------------------------------------------------------------------
  // What the operations promise together.

  /** A new tree is empty: every range search of it answers nothing. */
  lemma CreatedTreeIsEmpty(st: Store, left: I64, right: I64, fuel: nat)
    requires 0 < st.next && (forall u :: u in st.items ==> u < st.next) && fuel > 0
    requires CreateTree(st).0.Ok?
    ensures var out := CreateTree(st);
            SearchRangeOf(out.1.items, out.0.value, left, right, fuel) == Ok([])
  {
    var out := CreateTree(st);
    var root := st.next;
    var items := out.1.items;
    LongRoundTrip(root);
    assert items[root + 1][..8] == LongToBytes(root);
    assert RootOf(items, root + 1) == Ok(root);
    var s := NewNilRootRaw();
    assert LoadNode(items, root) == Ok(s);
    assert LeafRange(s, left, right) == LeafSearchRangeRes([], 0);
  }

  /** The walks depend on the number of steps left, not on how that number is written. */
  lemma NextWalkSameFuel(items: map<I64, seq<Byte>>, nodeUid: I64, key: I64, a: nat, b: nat)
    requires a == b
    ensures NextWalk(items, nodeUid, key, a) == NextWalk(items, nodeUid, key, b)
  {
  }

  lemma LeafWalkSameFuel(items: map<I64, seq<Byte>>, nodeUid: I64, key: I64, a: nat, b: nat)
    requires a == b
    ensures LeafWalk(items, nodeUid, key, a) == LeafWalk(items, nodeUid, key, b)
  {
  }

  lemma RangeWalkSameFuel(items: map<I64, seq<Byte>>, leafUid: I64, left: I64, right: I64, a: nat, b: nat)
    requires a == b
    ensures RangeWalk(items, leafUid, left, right, a) == RangeWalk(items, leafUid, left, right, b)
  {
  }

  /** A walk's outcome with `uids` in front of what it found. */
  function Prefixed(uids: seq<I64>, w: Result<seq<I64>>): (r: Result<seq<I64>>)
    ensures r.Err? == w.Err? && (r.Err? ==> r == w) && (r.Ok? ==> r.value == uids + w.value)
  {
    if w.Err? then w else Ok(uids + w.value)
  }

  lemma PrefixedEmpty(w: Result<seq<I64>>)
    ensures Prefixed([], w) == w
  {
    if w.Ok? {
      assert [] + w.value == w.value;
    }
  }

  lemma PrefixedTwice(a: seq<I64>, b: seq<I64>, w: Result<seq<I64>>)
    ensures Prefixed(a, Prefixed(b, w)) == Prefixed(a + b, w)
  {
    if w.Ok? {
      assert a + (b + w.value) == a + b + w.value;
    }
  }

  /** One leaf of `RangeWalk`, with the steps left after it written `rest`. */
  lemma RangeWalkStep(items: map<I64, seq<Byte>>, leafUid: I64, left: I64, right: I64, fuel: nat, rest: nat, s: seq<Byte>)
    requires rest + 1 == fuel && LoadNode(items, leafUid) == Ok(s)
    ensures var res := LeafRange(s, left, right);
            RangeWalk(items, leafUid, left, right, fuel) ==
              if res.siblingUid == 0 then Ok(res.uids) else Prefixed(res.uids, RangeWalk(items, res.siblingUid, left, right, rest))
  {
    var res := LeafRange(s, left, right);
    if res.siblingUid != 0 {
      RangeWalkSameFuel(items, res.siblingUid, left, right, fuel - 1, rest);
      assert RangeWalk(items, leafUid, left, right, fuel) == Prefixed(res.uids, RangeWalk(items, res.siblingUid, left, right, fuel - 1));
    }
  }

  /**
   * Insert then search, in a tree that is a single leaf (no sibling, room
   * for the entry without a split): the search for the key finds the uid,
   * and the only record that changed is the leaf.
   */
  lemma InsertThenSearchFinds(st: Store, bootUid: I64, key: I64, uid: I64, fuel: nat)
    requires fuel > 0 && RootOf(st.items, bootUid).Ok?
    requires var root := RootOf(st.items, bootUid).value;
             root != bootUid && LoadNode(st.items, root).Ok? &&
             IsLeaf(st.items[root]) && Sibling(st.items[root]) == 0 && NoKeys(st.items[root]) < 2 * BALANCE_NUMBER - 1
    ensures var root := RootOf(st.items, bootUid).value;
            var out := InsertTree(st, bootUid, key, uid, fuel);
            && out == (Ok(false), st.(items := st.items[root := InsertImage(st.items[root], uid, key).value]))
            && SearchRangeOf(out.1.items, bootUid, key, key, fuel).Ok?
            && uid in SearchRangeOf(out.1.items, bootUid, key, key, fuel).value
  {
    var root := RootOf(st.items, bootUid).value;
    var s := st.items[root];
    var img := InsertImage(s, uid, key);
    assert img.Some?;
    InsertImageHeader(s, uid, key);
    LeafInsertFound(s, uid, key, key, key);
    var s' := img.value;
    var st' := st.(items := st.items[root := s']);
    assert InsertAndSplitStep(st, root, uid, key) == (Ok(InsertAndSplitRes(0, 0, 0)), st');
    assert SplitWalk(st, root, uid, key, fuel) == (Ok(InsertRes(0, 0)), st');
    assert InsertDown(st, root, uid, key, fuel) == (Ok(InsertRes(0, 0)), st');
    assert st'.items[bootUid] == st.items[bootUid];
    assert RootOf(st'.items, bootUid) == Ok(root);
    assert LoadNode(st'.items, root) == Ok(s');
    assert LeafWalk(st'.items, root, key, fuel) == Ok(root);
    assert LeafRange(s', key, key).siblingUid == 0;
  }

  // ---------------------------------------------------------------------
  // The tree object.

  /** `create` on the data manager. */
  method Create(dm: Records) returns (r: Result<I64>)
    requires dm.Valid()
    modifies dm
    ensures dm.Valid()
    ensures (r, dm.State()) == CreateTree(old(dm.State()))
  {
    var root := dm.Insert(NewNilRootRaw());
    if root.Err? {
      return Err(root.error);
    }
    r := dm.Insert(LongToBytes(root.value));
  }

  class BTree {
    const dm: Records
    const bootUid: I64

    /** `load`: the tree whose boot record is `bootUid`. */
    constructor Load(bootUid: I64, dm: Records)
      ensures this.bootUid == bootUid && this.dm == dm
    {
      this.bootUid := bootUid;
      this.dm := dm;
    }

    /** `rootUid` */
    method RootUid() returns (r: Result<I64>)
      ensures r == RootOf(dm.items, bootUid)
    {
      if bootUid !in dm.items {
        return Err(NullPointer);
      }
      var boot := dm.items[bootUid];
      if |boot| < 8 {
        return Err(Panic);
      }
      r := Ok(ParseLong(boot[..8]));
    }

    /** `Node.loadNode`: the node's bytes in an array of their own. */
    method LoadRaw(nodeUid: I64) returns (r: Result<array<Byte>>)
      ensures var n := LoadNode(dm.items, nodeUid);
              (n.Err? ==> r == Err(n.error)) && (n.Ok? ==> r.Ok? && fresh(r.value) && r.value[..] == n.value)
    {
      var n := LoadNode(dm.items, nodeUid);
      if n.Err? {
        return Err(n.error);
      }
      var raw := new Byte[NODE_SIZE](i requires 0 <= i < NODE_SIZE => n.value[i]);
      assert raw[..] == n.value;
      r := Ok(raw);
    }

    /** `searchNext` */
    method SearchNext(nodeUid: I64, key: I64, fuel: nat) returns (r: Result<I64>)
      ensures r == NextWalk(dm.items, nodeUid, key, fuel)
    {
      var u := nodeUid;
      var f: nat := fuel;
      while f > 0
        invariant f <= fuel
        invariant NextWalk(dm.items, u, key, f) == NextWalk(dm.items, nodeUid, key, fuel)
      {
        var node := LoadRaw(u);
        if node.Err? {
          return Err(node.error);
        }
        var res := Node.SearchNext(node.value, key);
        if res.uid != 0 {
          return Ok(res.uid);
        }
        var rest: nat := f - 1;
        NextWalkSameFuel(dm.items, res.siblingUid, key, f - 1, rest);
        u, f := res.siblingUid, rest;
      }
      r := Err(OutOfSteps);
    }

    /** `searchLeaf` */
    method SearchLeaf(nodeUid: I64, key: I64, fuel: nat) returns (r: Result<I64>)
      ensures r == LeafWalk(dm.items, nodeUid, key, fuel)
    {
      var u := nodeUid;
      var f: nat := fuel;
      while f > 0
        invariant f <= fuel
        invariant LeafWalk(dm.items, u, key, f) == LeafWalk(dm.items, nodeUid, key, fuel)
      {
        var node := LoadRaw(u);
        if node.Err? {
          return Err(node.error);
        }
        if IsLeaf(node.value[..]) {
          return Ok(u);
        }
        var next := SearchNext(u, key, f);
        if next.Err? {
          return Err(next.error);
        }
        var rest: nat := f - 1;
        LeafWalkSameFuel(dm.items, next.value, key, f - 1, rest);
        u, f := next.value, rest;
      }
      r := Err(OutOfSteps);
    }

    /** `searchRange(left, right)` */
    method SearchRange(left: I64, right: I64, fuel: nat) returns (r: Result<seq<I64>>)
      ensures r == SearchRangeOf(dm.items, bootUid, left, right, fuel)
    {
      var root := RootUid();
      if root.Err? {
        return Err(root.error);
      }
      var leaf := SearchLeaf(root.value, left, fuel);
      if leaf.Err? {
        return Err(leaf.error);
      }
      r := LeafRun(leaf.value, left, right, fuel);
    }

    /** `searchRange`'s loop over the leaves. */
    method LeafRun(leafUid: I64, left: I64, right: I64, fuel: nat) returns (r: Result<seq<I64>>)
      ensures r == RangeWalk(dm.items, leafUid, left, right, fuel)
    {
      var u := leafUid;
      var f: nat := fuel;
      var uids: seq<I64> := [];
      ghost var goal := RangeWalk(dm.items, leafUid, left, right, fuel);
      PrefixedEmpty(goal);
      while f > 0
        invariant goal == Prefixed(uids, RangeWalk(dm.items, u, left, right, f))
      {
        var leaf := LoadRaw(u);
        if leaf.Err? {
          return Err(leaf.error);
        }
        var res := LeafSearchRange(leaf.value, left, right);
        var rest: nat := f - 1;
        RangeWalkStep(dm.items, u, left, right, f, rest, leaf.value[..]);
        if res.siblingUid == 0 {
          return Ok(uids + res.uids);
        }
        PrefixedTwice(uids, res.uids, RangeWalk(dm.items, res.siblingUid, left, right, rest));
        uids, u, f := uids + res.uids, res.siblingUid, rest;
      }
      r := Err(OutOfSteps);
    }

    /** `search(key)`: the range search over `[key, key]`. */
    method Search(key: I64, fuel: nat) returns (r: Result<seq<I64>>)
      ensures r == SearchRangeOf(dm.items, bootUid, key, key, fuel)
      ensures r.Ok? && NodesSorted(dm.items) ==> forall x :: x in r.value ==> Indexed(dm.items, x, key, key)
    {
      r := SearchRange(key, key, fuel);
      if r.Ok? && NodesSorted(dm.items) {
        SearchRangeSound(dm.items, bootUid, key, key, fuel);
      }
    }

    /** `BTree.insertAndSplit` */
    method InsertAndSplit(nodeUid: I64, uid: I64, key: I64, fuel: nat) returns (r: Result<InsertRes>)
      requires dm.Valid()
      modifies dm
      ensures dm.Valid()
      ensures (r, dm.State()) == SplitWalk(old(dm.State()), nodeUid, uid, key, fuel)
    {
      var u := nodeUid;
      var f: nat := fuel;
      ghost var st := dm.State();
      while f > 0
        invariant f <= fuel && dm.Valid() && dm.State() == st
        invariant SplitWalk(st, u, uid, key, f) == SplitWalk(st, nodeUid, uid, key, fuel)
      {
        var done, out, sibling, rest := SplitAttempt(st, u, uid, key, f);
        if done {
          return out;
        }
        u, f := sibling, rest;
      }
      r := Err(OutOfSteps);
    }

    /**
     * One pass of `BTree.insertAndSplit`'s loop, from state `st`: either
     * the outcome, or the sibling to go on with (and the steps left) and
     * nothing changed.
     */
    method SplitAttempt(ghost st: Store, u: I64, uid: I64, key: I64, f: nat) returns (done: bool, out: Result<InsertRes>, sibling: I64, rest: nat)
      requires dm.Valid() && dm.State() == st && f > 0
      modifies dm
      ensures dm.Valid()
      ensures done ==> SplitWalk(st, u, uid, key, f) == (out, dm.State())
      ensures rest < f
      ensures !done ==> dm.State() == st && SplitWalk(st, u, uid, key, f) == SplitWalk(st, sibling, uid, key, rest)
    {
      rest := f - 1;
      var res := Node.InsertAndSplit(dm, u, uid, key);
      SplitWalkStep(st, u, uid, key, f, res, dm.State());
      if res.Err? {
        return true, Err(res.error), 0, rest;
      }
      if res.value.siblingUid == 0 {
        return true, Ok(InsertRes(res.value.newSon, res.value.newKey)), 0, rest;
      }
      SplitWalkSameFuel(st, res.value.siblingUid, uid, key, f - 1, rest);
      return false, Err(OutOfSteps), res.value.siblingUid, rest;
    }

    /** The recursive `insert(rootUid, uid, key)`. */
    method InsertRec(nodeUid: I64, uid: I64, key: I64, fuel: nat) returns (r: Result<InsertRes>)
      requires dm.Valid()
      modifies dm
      ensures dm.Valid()
      ensures (r, dm.State()) == InsertDown(old(dm.State()), nodeUid, uid, key, fuel)
      decreases fuel, 1
    {
      if fuel == 0 {
        return Err(OutOfSteps);
      }
      ghost var st := dm.State();
      var node := LoadRaw(nodeUid);
      assert dm.State() == st;
      if node.Err? {
        return Err(node.error);
      }
      if IsLeaf(node.value[..]) {
        r := InsertAndSplit(nodeUid, uid, key, fuel);
        return;
      }
      r := InsertInto(nodeUid, uid, key, fuel);
    }

    /** The recursive `insert` at an internal node. */
    method InsertInto(nodeUid: I64, uid: I64, key: I64, fuel: nat) returns (r: Result<InsertRes>)
      requires dm.Valid() && fuel > 0
      modifies dm
      ensures dm.Valid()
      ensures (r, dm.State()) == InsertBelow(old(dm.State()), nodeUid, uid, key, fuel)
      decreases fuel, 0
    {
      var next := SearchNext(nodeUid, key, fuel);
      if next.Err? {
        return Err(next.error);
      }
      var res := InsertRec(next.value, uid, key, fuel - 1);
      r := AbsorbChild(nodeUid, res, fuel);
    }

    /** `insert`'s internal-node part: the child's split, if any, goes into this node. */
    method AbsorbChild(nodeUid: I64, res: Result<InsertRes>, fuel: nat) returns (r: Result<InsertRes>)
      requires dm.Valid()
      modifies dm
      ensures dm.Valid()
      ensures (r, dm.State()) == AfterChild((res, old(dm.State())), nodeUid, fuel)
    {
      if res.Err? {
        return res;
      }
      if res.value.newNode != 0 {
        r := InsertAndSplit(nodeUid, res.value.newNode, res.value.newKey, fuel);
      } else {
        r := Ok(InsertRes(0, 0));
      }
    }

    /** `updateRootUid(left, right, rightKey)` */
    method UpdateRootUid(left: I64, right: I64, rightKey: I64) returns (r: Result<I64>)
      requires dm.Valid() && bootUid in dm.items && |dm.items[bootUid]| >= 8
      modifies dm
      ensures dm.Valid()
      ensures (r, dm.State()) == UpdateRoot(old(dm.State()), bootUid, left, right, rightKey)
    {
      ghost var st := dm.State();
      r := dm.Insert(NewRootRaw(left, right, rightKey));
      if r.Err? {
        return;
      }
      assert dm.items[bootUid] == st.items[bootUid];
      dm.Write(bootUid, Put(dm.items[bootUid], 0, LongToBytes(r.value)));
      assert dm.State() == UpdateRoot(st, bootUid, left, right, rightKey).1;
    }

    /** `insert(key, uid)` */
    method Insert(key: I64, uid: I64, fuel: nat) returns (r: Result<bool>)
      requires dm.Valid()
      modifies dm
      ensures dm.Valid()
      ensures (r, dm.State()) == InsertTree(old(dm.State()), bootUid, key, uid, fuel)
    {
      var root := RootUid();
      if root.Err? {
        return Err(root.error);
      }
      var res := InsertRec(root.value, uid, key, fuel);
      if res.Err? {
        return Err(res.error);
      }
      if res.value.newNode == 0 {
        return Ok(false);
      }
      if bootUid !in dm.items || |dm.items[bootUid]| < 8 {
        return Err(Panic);
      }
      var up := UpdateRootUid(root.value, res.value.newNode, res.value.newKey);
      if up.Err? {
        return Err(up.error);
      }
      r := Ok(true);
    }
  }
}
