/**
 * The row-lock table (`LockTable`): which xid holds each uid, which uids
 * each xid acquired, who waits for each uid in arrival order, and which
 * uid each waiting xid waits for. Holding is exclusive. A waiting xid
 * whose thread is registered can be handed a freed uid; the thread itself
 * is not modelled, only the set of xids that registered one.
 */
module LockTable {
  import opened Bytes
  import opened Outcomes

  /** What `add` did when it did not fail: the caller holds the uid, or must wait for it. */
  datatype AddOutcome = Acquired | Waiting

  /** The five maps of the table, as one value. */
  datatype Tables = Tables(
    xid2uids: map<I64, seq<I64>>,
    uid2xid: map<I64, I64>,
    uidWait2xids: map<I64, seq<I64>>,
    waitThreads: set<I64>,
    xid2waitUid: map<I64, I64>)

  /** The list `m` holds under `k`, a missing key reading as an empty list. */
  function ListAt(m: map<I64, seq<I64>>, k: I64): seq<I64>
  {
    if k in m then m[k] else []
  }

  /** `isInList` */
  predicate IsInList(m: map<I64, seq<I64>>, k: I64, v: I64)
  {
    k in m && v in m[k]
  }

  /** `putIntoList`: `v` appended to the list under `k`, which is created if missing. */
  function PutIntoList(m: map<I64, seq<I64>>, k: I64, v: I64): (r: map<I64, seq<I64>>)
    ensures r.Keys == m.Keys + {k}
    ensures r[k] == ListAt(m, k) + [v]
    ensures forall j :: j in m && j != k ==> r[j] == m[j]
  {
    m[k := ListAt(m, k) + [v]]
  }

  /** The list without the first occurrence of `v`. */
  function RemoveFirst(s: seq<I64>, v: I64): (r: seq<I64>)
    ensures v !in s ==> r == s
    ensures v in s ==> |r| == |s| - 1
  {
    if s == [] then []
    else if s[0] == v then s[1..]
    else [s[0]] + RemoveFirst(s[1..], v)
  }

  /**
   * `removeFromList`: the first occurrence of `v` under `k` is removed and a
   * list left empty is dropped; a missing or empty list is left alone.
   */
  function RemoveFromList(m: map<I64, seq<I64>>, k: I64, v: I64): map<I64, seq<I64>>
  {
    if k !in m || m[k] == [] then m
    else
      var l := RemoveFirst(m[k], v);
      if l == [] then m - {k} else m[k := l]
  }

  /** Removing what was just appended gives back the map, when `v` was not listed already. */
  lemma {:induction false} RemoveFirstAppended(s: seq<I64>, v: I64)
    requires v !in s
    ensures RemoveFirst(s + [v], v) == s
  {
    if s != [] {
      assert (s + [v])[1..] == s[1..] + [v];
      RemoveFirstAppended(s[1..], v);
    }
  }

  /** `putIntoList` followed by `removeFromList` of the same value undoes it. */
  lemma PutThenRemove(m: map<I64, seq<I64>>, k: I64, v: I64)
    requires !IsInList(m, k, v)
    requires k in m ==> m[k] != []
    ensures RemoveFromList(PutIntoList(m, k, v), k, v) == m
  {
    RemoveFirstAppended(ListAt(m, k), v);
    if k !in m {
      assert PutIntoList(m, k, v) - {k} == m;
    } else {
      assert PutIntoList(m, k, v)[k := m[k]] == m;
    }
  }

  // ---------------------------------------------------------------------
  // The wait-for graph
  // ---------------------------------------------------------------------

  /**
   * Following the wait-for edges from `x`, an xid waiting for a uid points
   * at the uid's holder. The walk ends (true) when it reaches an xid that
   * waits for nothing or for an unheld uid, and fails (false) when it comes
   * back to an xid in `seen`.
   */
  function Ends(w: map<I64, I64>, u: map<I64, I64>, x: I64, seen: set<I64>): bool
    decreases w.Keys - seen
  {
    if x in seen then false
    else if x !in w || w[x] !in u then true
    else Ends(w, u, u[w[x]], seen + {x})
  }

  /** Some holder's walk runs into a cycle. */
  ghost predicate Deadlocked(w: map<I64, I64>, u: map<I64, I64>, holders: set<I64>)
  {
    exists h :: h in holders && !Ends(w, u, h, {})
  }

  /** The xids in `done` are ranked so that each edge out of `done` stays in it and goes down. */
  ghost predicate Ranked(w: map<I64, I64>, u: map<I64, I64>, done: set<I64>, rank: map<I64, nat>)
  {
    && rank.Keys == done
    && forall d :: d in done && d in w && w[d] in u ==> u[w[d]] in done && rank[u[w[d]]] < rank[d]
  }

  /** A ranked xid's walk ends, whatever higher-ranked or unranked xids were seen before. */
  lemma {:induction false} RankedEnds(w: map<I64, I64>, u: map<I64, I64>, done: set<I64>,
                                      rank: map<I64, nat>, d: I64, seen: set<I64>)
    requires Ranked(w, u, done, rank) && d in done
    requires forall y :: y in seen && y in done ==> rank[y] > rank[d]
    ensures Ends(w, u, d, seen)
    decreases rank[d]
  {
    if d in w && w[d] in u {
      RankedEnds(w, u, done, rank, u[w[d]], seen + {d});
    }
  }

  /** Ranks for the xids of a walk of length `n`, the last one just above `base`. */
  ghost function PathRanks(pos: map<I64, nat>, n: nat, base: nat): map<I64, nat>
    requires forall y :: y in pos ==> pos[y] < n
  {
    map y | y in pos :: base + n - pos[y]
  }

  /** The xids of a walk into a ranked xid `x` can be ranked above it. */
  lemma RankPath(w: map<I64, I64>, u: map<I64, I64>, done: set<I64>, rank0: map<I64, nat>,
                 h: I64, path: seq<I64>, pos: map<I64, nat>, x: I64)
    requires Ranked(w, u, done, rank0) && x in done
    requires pos.Keys !! done
    requires Chain(w, u, h, x, path, pos)
    ensures Ranked(w, u, done + pos.Keys, rank0 + PathRanks(pos, |path|, rank0[x]))
  {
    var rank := rank0 + PathRanks(pos, |path|, rank0[x]);
    forall d | d in done + pos.Keys && d in w && w[d] in u
      ensures u[w[d]] in done + pos.Keys && rank[u[w[d]]] < rank[d]
    {
      if d in pos && pos[d] < |path| - 1 {
        assert path[pos[d] + 1] in pos by {
          assert path[pos[d] + 1] == u[w[d]];
        }
      }
    }
  }

  /** Every stamp given so far is a walk's stamp, none later than `stamp`. */
  predicate StampsUpTo(stamps: map<I64, int>, stamp: int)
  {
    forall y :: y in stamps ==> 1 < stamps[y] <= stamp
  }

  /**
   * The stamps of a walk in progress: the xids of earlier walks carry older
   * stamps, those of this walk the current one.
   */
  predicate StampsOf(stamps: map<I64, int>, done: set<I64>, walked: set<I64>, stamp: int)
  {
    && 1 < stamp
    && stamps.Keys == done + walked
    && done !! walked
    && (forall y :: y in done ==> 1 < stamps[y] < stamp)
    && (forall y :: y in walked ==> stamps[y] == stamp)
  }

  /** Stamping an unstamped xid adds it to the walk. */
  lemma StampOne(stamps: map<I64, int>, done: set<I64>, walked: set<I64>, stamp: int, x: I64)
    requires StampsOf(stamps, done, walked, stamp) && x !in stamps
    ensures StampsOf(stamps[x := stamp], done, walked + {x}, stamp)
    ensures StampsUpTo(stamps[x := stamp], stamp)
    ensures stamps[x := stamp].Keys == done + {x} + walked
  {
    StampsBounded(stamps[x := stamp], done, walked + {x}, stamp);
  }

  /** Stamps of a walk in progress are stamps up to the current one. */
  lemma StampsBounded(stamps: map<I64, int>, done: set<I64>, walked: set<I64>, stamp: int)
    requires StampsOf(stamps, done, walked, stamp)
    ensures StampsUpTo(stamps, stamp)
  {
    forall y | y in stamps
      ensures 1 < stamps[y] <= stamp
    {
      if y in done {
      } else {
        assert y in walked;
      }
    }
  }

  /**
   * `path` is the walk from `h` so far, `pos` the place of each of its xids,
   * and `x` where the walk goes next.
   */
  ghost predicate Chain(w: map<I64, I64>, u: map<I64, I64>, h: I64, x: I64, path: seq<I64>, pos: map<I64, nat>)
  {
    && pos.Keys <= w.Keys
    && (forall y :: y in pos ==> pos[y] < |path| && path[pos[y]] == y)
    && (forall j :: 0 <= j < |path| ==> path[j] in pos && pos[path[j]] == j)
    && (forall j :: 0 <= j < |path| - 1 ==> path[j] in w && w[path[j]] in u && u[w[path[j]]] == path[j + 1])
    && (path == [] ==> x == h)
    && (path != [] ==> w[path[|path| - 1]] in u && u[w[path[|path| - 1]]] == x)
  }

  /** One more step of the walk keeps its shape, and whether it ends. */
  lemma ChainStep(w: map<I64, I64>, u: map<I64, I64>, h: I64, x: I64, path: seq<I64>, pos: map<I64, nat>)
    requires Chain(w, u, h, x, path, pos)
    requires x !in pos && x in w && w[x] in u
    ensures Chain(w, u, h, u[w[x]], path + [x], pos[x := |path|])
    ensures pos[x := |path|].Keys == pos.Keys + {x}
    ensures Ends(w, u, x, pos.Keys) == Ends(w, u, u[w[x]], pos.Keys + {x})
  {
    var path', pos' := path + [x], pos[x := |path|];
    forall j | 0 <= j < |path'|
      ensures path'[j] in pos' && pos'[path'[j]] == j
    {
      if j < |path| {
        assert path'[j] == path[j];
      }
    }
    forall y | y in pos'
      ensures pos'[y] < |path'| && path'[pos'[y]] == y
    {
      if y != x {
        assert path'[pos[y]] == path[pos[y]];
      }
    }
    forall j | 0 <= j < |path'| - 1
      ensures path'[j] in w && w[path'[j]] in u && u[w[path'[j]]] == path'[j + 1]
    {
      if j < |path| - 1 {
        assert path'[j] == path[j] && path'[j + 1] == path[j + 1];
      }
    }
    assert Chain(w, u, h, u[w[x]], path', pos');
  }

  /** A walk that stops at `x` for want of an edge ranks its xids above `x`, ranked 0. */
  lemma DeadEndRanks(w: map<I64, I64>, u: map<I64, I64>, done: set<I64>, rank0: map<I64, nat>,
                     h: I64, path: seq<I64>, pos: map<I64, nat>, x: I64)
    requires Ranked(w, u, done, rank0) && x !in done && x !in pos
    requires pos.Keys !! done
    requires Chain(w, u, h, x, path, pos)
    requires x !in w || w[x] !in u
    ensures Ranked(w, u, done + {x} + pos.Keys, rank0[x := 0] + PathRanks(pos, |path|, 0))
  {
    RankPath(w, u, done + {x}, rank0[x := 0], h, path, pos, x);
  }

  // ---------------------------------------------------------------------
  // Acquiring and releasing, as functions of the tables
  // ---------------------------------------------------------------------

  /** What a call on the table returned, and the tables after it. */
  datatype AddStep = AddStep(r: Result<AddOutcome>, t: Tables)

  /**
   * `add(xid, uid)`: nothing to do when `xid` already acquired `uid`; an
   * unheld uid is granted; otherwise `xid` waits for it, unless the new
   * wait-for edge closes a cycle, in which case the edge and the queue
   * entry are taken back and the call fails with a deadlock.
   */
  ghost function AddEffect(t: Tables, xid: I64, uid: I64): AddStep
  {
    if IsInList(t.xid2uids, xid, uid) then AddStep(Ok(Acquired), t)
    else if uid !in t.uid2xid then
      AddStep(Ok(Acquired), t.(uid2xid := t.uid2xid[uid := xid], xid2uids := PutIntoList(t.xid2uids, xid, uid)))
    else
      var w := t.xid2waitUid[xid := uid];
      var waiters := PutIntoList(t.uidWait2xids, uid, xid);
      if Deadlocked(w, t.uid2xid, t.xid2uids.Keys) then
        AddStep(Err(Deadlock), t.(xid2waitUid := w - {xid}, uidWait2xids := RemoveFromList(waiters, uid, xid)))
      else
        AddStep(Ok(Waiting), t.(xid2waitUid := w, uidWait2xids := waiters, waitThreads := t.waitThreads + {xid}))
  }

  /** The position of the first xid of `xs` with a registered thread, or `|xs|` if there is none. */
  function FirstWaiter(xs: seq<I64>, threads: set<I64>): (i: nat)
    ensures i <= |xs|
    ensures forall j :: 0 <= j < i ==> xs[j] !in threads
    ensures i < |xs| ==> xs[i] in threads
  {
    if xs == [] then 0
    else if xs[0] in threads then 0
    else 1 + FirstWaiter(xs[1..], threads)
  }

  /**
   * The pop loop of `selectNewXid` over the queue `xs` of `uid`: waiters
   * without a thread are dropped; the first with one is granted `uid`, its
   * thread and its wait edge are removed, and the rest of the queue stays.
   * The source does not record the new owner's uid in `xid2uids`;
   * `recordOwner` adds that step.
   */
  function PopWaiters(t: Tables, uid: I64, xs: seq<I64>, recordOwner: bool): Tables
    decreases |xs|
  {
    if xs == [] then t.(uidWait2xids := t.uidWait2xids - {uid})
    else if xs[0] in t.waitThreads then
      var x := xs[0];
      t.(uid2xid := t.uid2xid[uid := x],
         xid2uids := if recordOwner then PutIntoList(t.xid2uids, x, uid) else t.xid2uids,
         waitThreads := t.waitThreads - {x},
         xid2waitUid := t.xid2waitUid - {x},
         uidWait2xids := if xs[1..] == [] then t.uidWait2xids - {uid} else t.uidWait2xids[uid := xs[1..]])
    else PopWaiters(t, uid, xs[1..], recordOwner)
  }

  /** `selectNewXid(uid)`: `uid` is freed and offered to its queue; an absent or empty queue is left as it is. */
  function HandOff(t: Tables, uid: I64, recordOwner: bool): Tables
  {
    var t1 := t.(uid2xid := t.uid2xid - {uid});
    if uid !in t.uidWait2xids || t.uidWait2xids[uid] == [] then t1
    else PopWaiters(t1, uid, t.uidWait2xids[uid], recordOwner)
  }

  /** The uids of `uids` handed off in order. */
  function ReleaseAll(t: Tables, uids: seq<I64>, recordOwner: bool): Tables
    decreases |uids|
  {
    if uids == [] then t
    else ReleaseAll(HandOff(t, uids[0], recordOwner), uids[1..], recordOwner)
  }

  /** `remove(xid)`: every uid `xid` acquired is handed off, then `xid` leaves the table. */
  function Release(t: Tables, xid: I64, recordOwner: bool): (r: Tables)
    ensures xid !in r.xid2uids && xid !in r.xid2waitUid && xid !in r.waitThreads
  {
    var t1 := ReleaseAll(t, ListAt(t.xid2uids, xid), recordOwner);
    t1.(xid2waitUid := t1.xid2waitUid - {xid}, xid2uids := t1.xid2uids - {xid}, waitThreads := t1.waitThreads - {xid})
  }

  /** The pop loop grants `uid` to the first waiter of `xs` that has a thread, or to nobody. */
  lemma {:induction false} PopWaitersFifo(t: Tables, uid: I64, xs: seq<I64>, recordOwner: bool)
    ensures var i := FirstWaiter(xs, t.waitThreads);
            var r := PopWaiters(t, uid, xs, recordOwner);
            && (i < |xs| ==>
                  && r.uid2xid == t.uid2xid[uid := xs[i]]
                  && r.waitThreads == t.waitThreads - {xs[i]}
                  && r.xid2waitUid == t.xid2waitUid - {xs[i]}
                  && ListAt(r.uidWait2xids, uid) == xs[i + 1..]
                  && r.xid2uids == if recordOwner then PutIntoList(t.xid2uids, xs[i], uid) else t.xid2uids)
            && (i == |xs| ==>
                  && r.uid2xid == t.uid2xid && r.waitThreads == t.waitThreads
                  && r.xid2waitUid == t.xid2waitUid && r.xid2uids == t.xid2uids
                  && uid !in r.uidWait2xids)
            && (forall k :: k != uid ==> ListAt(r.uidWait2xids, k) == ListAt(t.uidWait2xids, k))
    decreases |xs|
  {
    if xs != [] && xs[0] !in t.waitThreads {
      PopWaitersFifo(t, uid, xs[1..], recordOwner);
      var j := FirstWaiter(xs[1..], t.waitThreads);
      assert FirstWaiter(xs, t.waitThreads) == 1 + j;
      if j < |xs| - 1 {
        assert xs[1 + j] == xs[1..][j];
        assert xs[1 + j + 1..] == xs[1..][j + 1..];
      }
    }
  }

  /**
   * Hand-off is first come, first served: a freed uid goes to the first
   * queued xid that registered a thread, the xids queued before it are
   * dropped and those after it keep waiting; with no such xid the uid
   * becomes unheld. No other uid's holder or queue changes.
   */
  lemma HandOffFifo(t: Tables, uid: I64, recordOwner: bool)
    ensures var xs := ListAt(t.uidWait2xids, uid);
            var i := FirstWaiter(xs, t.waitThreads);
            var r := HandOff(t, uid, recordOwner);
            && (i < |xs| ==>
                  && r.uid2xid == t.uid2xid[uid := xs[i]]
                  && r.waitThreads == t.waitThreads - {xs[i]}
                  && r.xid2waitUid == t.xid2waitUid - {xs[i]}
                  && ListAt(r.uidWait2xids, uid) == xs[i + 1..])
            && (i == |xs| ==>
                  && r.uid2xid == t.uid2xid - {uid} && r.waitThreads == t.waitThreads
                  && r.xid2waitUid == t.xid2waitUid && ListAt(r.uidWait2xids, uid) == [])
            && (forall k :: k != uid ==> ListAt(r.uidWait2xids, k) == ListAt(t.uidWait2xids, k))
  {
    PopWaitersFifo(t.(uid2xid := t.uid2xid - {uid}), uid, ListAt(t.uidWait2xids, uid), recordOwner);
  }

  /** Two tables that differ at most in their acquired lists. */
  predicate SameButOwners(a: Tables, b: Tables)
  {
    a.(xid2uids := b.xid2uids) == b
  }

  /** The pop loop never reads the acquired lists: recording the owner changes nothing else. */
  lemma {:induction false} PopWaitersAgree(a: Tables, b: Tables, uid: I64, xs: seq<I64>)
    requires SameButOwners(a, b)
    ensures SameButOwners(PopWaiters(a, uid, xs, true), PopWaiters(b, uid, xs, false))
    ensures PopWaiters(b, uid, xs, false).xid2uids == b.xid2uids
    decreases |xs|
  {
    if xs != [] && xs[0] !in a.waitThreads {
      PopWaitersAgree(a, b, uid, xs[1..]);
    }
  }

  /** Handing off every uid of `uids`: only the acquired lists can differ between the two hand-offs. */
  lemma {:induction false} ReleaseAllAgree(a: Tables, b: Tables, uids: seq<I64>)
    requires SameButOwners(a, b)
    ensures SameButOwners(ReleaseAll(a, uids, true), ReleaseAll(b, uids, false))
    ensures ReleaseAll(b, uids, false).xid2uids == b.xid2uids
    decreases |uids|
  {
    if uids != [] {
      var uid := uids[0];
      var a1 := a.(uid2xid := a.uid2xid - {uid});
      var b1 := b.(uid2xid := b.uid2xid - {uid});
      if uid in a.uidWait2xids && a.uidWait2xids[uid] != [] {
        PopWaitersAgree(a1, b1, uid, a.uidWait2xids[uid]);
      }
      ReleaseAllAgree(HandOff(a, uid, true), HandOff(b, uid, false), uids[1..]);
    }
  }

  /**
   * `remove` as written and with the owner recorded agree on holders,
   * queues, wait edges and threads; they differ only in the acquired
   * lists, which as written lose the removed xid's list and nothing else
   * changes, so a uid handed to a waiter is never listed under it.
   */
  lemma ReleaseAsWrittenAgrees(t: Tables, xid: I64)
    ensures SameButOwners(Release(t, xid, true), Release(t, xid, false))
    ensures Release(t, xid, false).xid2uids == t.xid2uids - {xid}
  {
    ReleaseAllAgree(t, t, ListAt(t.xid2uids, xid));
  }

  /** No list of `m` holds the same value twice. */
  predicate DistinctLists(m: map<I64, seq<I64>>)
  {
    forall x :: x in m ==> forall i, j :: 0 <= i < j < |m[x]| ==> m[x][i] != m[x][j]
  }

  /**
   * The acquired lists and the holder map agree: a uid is listed under an
   * xid exactly when that xid holds it, and no list repeats a uid.
   */
  predicate Consistent(t: Tables)
  {
    && (forall x, v :: x in t.xid2uids && v in t.xid2uids[x] ==> v in t.uid2xid && t.uid2xid[v] == x)
    && (forall v :: v in t.uid2xid ==> IsInList(t.xid2uids, t.uid2xid[v], v))
    && DistinctLists(t.xid2uids)
  }

  /** Appending a value not yet listed keeps every list free of repeats. */
  lemma AppendKeepsDistinct(m: map<I64, seq<I64>>, k: I64, v: I64)
    requires DistinctLists(m) && !IsInList(m, k, v)
    ensures DistinctLists(PutIntoList(m, k, v))
  {
    var r := PutIntoList(m, k, v);
    forall x | x in r
      ensures forall i, j :: 0 <= i < j < |r[x]| ==> r[x][i] != r[x][j]
    {
      if x == k {
        assert v !in ListAt(m, k);
      }
    }
  }

  /** Granting an unheld uid keeps the table consistent. */
  lemma GrantKeepsConsistent(t: Tables, xid: I64, uid: I64)
    requires Consistent(t) && uid !in t.uid2xid
    ensures Consistent(t.(uid2xid := t.uid2xid[uid := xid], xid2uids := PutIntoList(t.xid2uids, xid, uid)))
  {
    var r := t.(uid2xid := t.uid2xid[uid := xid], xid2uids := PutIntoList(t.xid2uids, xid, uid));
    assert !IsInList(t.xid2uids, xid, uid);
    AppendKeepsDistinct(t.xid2uids, xid, uid);
    forall x, v | x in r.xid2uids && v in r.xid2uids[x]
      ensures v in r.uid2xid && r.uid2xid[v] == x
    {
      if x == xid && v != uid {
        assert v in ListAt(t.xid2uids, xid);
      }
    }
  }

  /** The empty table is consistent, and `add` keeps the table consistent. */
  lemma AddKeepsConsistent(t: Tables, xid: I64, uid: I64)
    requires Consistent(t)
    ensures Consistent(AddEffect(t, xid, uid).t)
    ensures Consistent(Tables(map[], map[], map[], {}, map[]))
  {
    if !IsInList(t.xid2uids, xid, uid) && uid !in t.uid2xid {
      GrantKeepsConsistent(t, xid, uid);
    }
  }

  /**
   * What `add` reports, on a consistent table: `Acquired` means the caller
   * holds the uid; a deadlock leaves the table exactly as it was when the
   * caller was not waiting or queued already and no queue was empty;
   * `Waiting` means the wait-for graph has no cycle reachable from a holder.
   */
  lemma AddOutcomes(t: Tables, xid: I64, uid: I64)
    requires Consistent(t)
    ensures var s := AddEffect(t, xid, uid);
            && (s.r == Ok(Acquired) ==> uid in s.t.uid2xid && s.t.uid2xid[uid] == xid)
            && (s.r == Ok(Waiting) ==>
                  && s.t.xid2waitUid[xid] == uid && xid in s.t.waitThreads
                  && !Deadlocked(s.t.xid2waitUid, s.t.uid2xid, s.t.xid2uids.Keys))
            && (s.r.Err? ==> s.r.error == Deadlock)
            && (s.r.Err? && xid !in t.xid2waitUid && !IsInList(t.uidWait2xids, uid, xid) &&
                (uid in t.uidWait2xids ==> t.uidWait2xids[uid] != []) ==>
                  s.t == t)
  {
    var s := AddEffect(t, xid, uid);
    if s.r.Err? && xid !in t.xid2waitUid && !IsInList(t.uidWait2xids, uid, xid)
       && (uid in t.uidWait2xids ==> t.uidWait2xids[uid] != []) {
      PutThenRemove(t.uidWait2xids, uid, xid);
      assert t.xid2waitUid[xid := uid] - {xid} == t.xid2waitUid;
    }
  }

  /**
   * Handing off the uids of `xid` one at a time, while `xid` holds exactly
   * the uids still to go and every other xid's list agrees with the holder
   * map.
   */
  ghost predicate ReleasingFrom(t: Tables, xid: I64, rest: seq<I64>)
  {
    && xid !in t.waitThreads
    && (forall i, j :: 0 <= i < j < |rest| ==> rest[i] != rest[j])
    && HoldsExactly(t.uid2xid, xid, rest)
    && ListedHeldExcept(t.xid2uids, t.uid2xid, xid)
    && HeldListedExcept(t.uid2xid, t.xid2uids, xid)
    && DistinctLists(t.xid2uids - {xid})
  }

  /** `xid` holds exactly the uids of `rest`. */
  ghost predicate HoldsExactly(h: map<I64, I64>, xid: I64, rest: seq<I64>)
  {
    forall v :: v in h && h[v] == xid <==> v in rest
  }

  /** Every uid listed under an xid other than `xid` is held by that xid. */
  ghost predicate ListedHeldExcept(m: map<I64, seq<I64>>, h: map<I64, I64>, xid: I64)
  {
    forall x, v :: x in m && x != xid && v in m[x] ==> v in h && h[v] == x
  }

  /** Every uid held by an xid other than `xid` is listed under it. */
  ghost predicate HeldListedExcept(h: map<I64, I64>, m: map<I64, seq<I64>>, xid: I64)
  {
    forall v :: v in h && h[v] != xid ==> IsInList(m, h[v], v)
  }

  /** `rest` without its head holds exactly the other members of `rest`. */
  lemma DropHead(rest: seq<I64>)
    requires rest != [] && forall i, j :: 0 <= i < j < |rest| ==> rest[i] != rest[j]
    ensures forall v :: v in rest[1..] <==> v in rest && v != rest[0]
    ensures forall i, j :: 0 <= i < j < |rest[1..]| ==> rest[1..][i] != rest[1..][j]
  {
    forall v | v in rest && v != rest[0]
      ensures v in rest[1..]
    {
      var k :| 0 <= k < |rest| && rest[k] == v;
      assert rest[1..][k - 1] == v;
    }
  }

  /** Freeing the head of `rest` with no one to take it. */
  lemma ReleasingAfterFree(t: Tables, r: Tables, xid: I64, rest: seq<I64>)
    requires rest != [] && ReleasingFrom(t, xid, rest)
    requires r.uid2xid == t.uid2xid - {rest[0]} && r.waitThreads == t.waitThreads && r.xid2uids == t.xid2uids
    ensures ReleasingFrom(r, xid, rest[1..])
  {
    DropHead(rest);
    forall v ensures v in r.uid2xid && r.uid2xid[v] == xid <==> v in rest[1..] {
      if v != rest[0] {
        assert v in r.uid2xid <==> v in t.uid2xid;
      }
    }
    assert rest[0] in t.uid2xid && t.uid2xid[rest[0]] == xid;
    forall x, v | x in r.xid2uids && x != xid && v in r.xid2uids[x]
      ensures v in r.uid2xid && r.uid2xid[v] == x
    {
      assert v in t.uid2xid && t.uid2xid[v] == x;
    }
  }

  /** Handing the head of `rest` to the waiter `w`, which records it. */
  lemma ReleasingAfterGrant(t: Tables, r: Tables, xid: I64, rest: seq<I64>, w: I64)
    requires rest != [] && ReleasingFrom(t, xid, rest) && w in t.waitThreads
    requires r.uid2xid == t.uid2xid[rest[0] := w] && r.waitThreads == t.waitThreads - {w}
    requires r.xid2uids == PutIntoList(t.xid2uids, w, rest[0])
    ensures ReleasingFrom(r, xid, rest[1..])
  {
    var uid := rest[0];
    DropHead(rest);
    assert uid in t.uid2xid && t.uid2xid[uid] == xid;
    assert !IsInList(t.xid2uids, w, uid);
    HoldsAfterGrant(t.uid2xid, xid, rest, w);
    HeldListedAfterGrant(t.uid2xid, t.xid2uids, xid, uid, w);
    ListedHeldAfterGrant(t.xid2uids, t.uid2xid, xid, uid, w);
    PutIntoListOther(t.xid2uids, w, uid, xid);
    AppendKeepsDistinct(t.xid2uids - {xid}, w, uid);
  }

  /** Appending under one key commutes with dropping another. */
  lemma PutIntoListOther(m: map<I64, seq<I64>>, k: I64, v: I64, other: I64)
    requires k != other
    ensures PutIntoList(m, k, v) - {other} == PutIntoList(m - {other}, k, v)
  {
    assert ListAt(m - {other}, k) == ListAt(m, k);
  }

  /** Handing the head of `rest` to another xid leaves `xid` holding the tail. */
  lemma HoldsAfterGrant(h: map<I64, I64>, xid: I64, rest: seq<I64>, w: I64)
    requires rest != [] && w != xid && HoldsExactly(h, xid, rest)
    requires forall v :: v in rest[1..] <==> v in rest && v != rest[0]
    ensures HoldsExactly(h[rest[0] := w], xid, rest[1..])
  {
  }

  /** The granted uid is recorded under its new holder. */
  lemma HeldListedAfterGrant(h: map<I64, I64>, m: map<I64, seq<I64>>, xid: I64, uid: I64, w: I64)
    requires HeldListedExcept(h, m, xid)
    ensures HeldListedExcept(h[uid := w], PutIntoList(m, w, uid), xid)
  {
    var h', m' := h[uid := w], PutIntoList(m, w, uid);
    forall v | v in h' && h'[v] != xid
      ensures IsInList(m', h'[v], v)
    {
      if v != uid {
        assert IsInList(m, h[v], v);
      }
    }
  }

  /** Every list stays held after `uid` passes from `xid` to `w`, which lists it. */
  lemma ListedHeldAfterGrant(m: map<I64, seq<I64>>, h: map<I64, I64>, xid: I64, uid: I64, w: I64)
    requires ListedHeldExcept(m, h, xid) && uid in h && h[uid] == xid && w != xid
    ensures ListedHeldExcept(PutIntoList(m, w, uid), h[uid := w], xid)
  {
    var h', m' := h[uid := w], PutIntoList(m, w, uid);
    forall x, v | x in m' && x != xid && v in m'[x]
      ensures v in h' && h'[v] == x
    {
      if x == w && v != uid {
        assert v in ListAt(m, w);
      }
    }
  }

  /** One hand-off, recording the new owner, moves one uid out of `xid`'s hands. */
  lemma HandOffStep(t: Tables, xid: I64, rest: seq<I64>)
    requires rest != [] && ReleasingFrom(t, xid, rest)
    ensures ReleasingFrom(HandOff(t, rest[0], true), xid, rest[1..])
  {
    var uid := rest[0];
    var t1 := t.(uid2xid := t.uid2xid - {uid});
    var xs := ListAt(t.uidWait2xids, uid);
    var r := HandOff(t, uid, true);
    if uid !in t.uidWait2xids || t.uidWait2xids[uid] == [] {
      ReleasingAfterFree(t, r, xid, rest);
      return;
    }
    PopWaitersFifo(t1, uid, xs, true);
    var i := FirstWaiter(xs, t.waitThreads);
    if i < |xs| {
      assert t1.uid2xid[uid := xs[i]] == t.uid2xid[uid := xs[i]];
      ReleasingAfterGrant(t, r, xid, rest, xs[i]);
    } else {
      ReleasingAfterFree(t, r, xid, rest);
    }
  }

  /** Handing off all of `rest` leaves `xid` holding nothing. */
  lemma {:induction false} ReleaseAllFrees(t: Tables, xid: I64, rest: seq<I64>)
    requires ReleasingFrom(t, xid, rest)
    ensures ReleasingFrom(ReleaseAll(t, rest, true), xid, [])
    decreases |rest|
  {
    if rest != [] {
      HandOffStep(t, xid, rest);
      ReleaseAllFrees(HandOff(t, rest[0], true), xid, rest[1..]);
    }
  }

  /** A consistent table is ready to release the uids listed under a running `xid`. */
  lemma StartReleasing(t: Tables, xid: I64)
    requires Consistent(t) && xid !in t.waitThreads
    ensures ReleasingFrom(t, xid, ListAt(t.xid2uids, xid))
  {
    var l := ListAt(t.xid2uids, xid);
    forall v ensures v in t.uid2xid && t.uid2xid[v] == xid <==> v in l {
      if v in t.uid2xid && t.uid2xid[v] == xid {
        assert IsInList(t.xid2uids, xid, v);
      }
    }
  }

  /** Once `xid` holds nothing, dropping it from the table leaves it consistent. */
  lemma FinishReleasing(t: Tables, xid: I64)
    requires ReleasingFrom(t, xid, [])
    ensures var r := t.(xid2waitUid := t.xid2waitUid - {xid}, xid2uids := t.xid2uids - {xid},
                        waitThreads := t.waitThreads - {xid});
            Consistent(r) && forall v :: v in r.uid2xid ==> r.uid2xid[v] != xid
  {
  }

  /**
   * With the hand-off recording its new owner, `remove(xid)` on a
   * consistent table by a running (not waiting) xid keeps the table
   * consistent, and afterwards `xid` holds no uid.
   */
  lemma ReleaseKeepsConsistent(t: Tables, xid: I64)
    requires Consistent(t) && xid !in t.waitThreads
    ensures Consistent(Release(t, xid, true))
    ensures forall v :: v in Release(t, xid, true).uid2xid ==> Release(t, xid, true).uid2xid[v] != xid
  {
    StartReleasing(t, xid);
    ReleaseAllFrees(t, xid, ListAt(t.xid2uids, xid));
    FinishReleasing(ReleaseAll(t, ListAt(t.xid2uids, xid), true), xid);
  }

  /**
   * As written, the hand-off strands a uid: xid 1 takes uid 7, xid 2 waits
   * for it and is handed it when 1 is removed, but since 2 never had 7
   * listed, removing 2 leaves 7 held by 2 for good.
   */
  lemma ReleaseAsWrittenStrands()
    ensures var t0 := Tables(map[], map[], map[], {}, map[]);
            var s1 := AddEffect(t0, 1, 7);
            var s2 := AddEffect(s1.t, 2, 7);
            var t3 := Release(s2.t, 1, false);
            var t4 := Release(t3, 2, false);
            && s1.r == Ok(Acquired) && s2.r == Ok(Waiting)
            && t3.uid2xid == map[7 := 2]
            && t4.uid2xid == map[7 := 2]
  {
    StrandsFirstAdd();
    StrandsSecondAdd();
    StrandsFirstRelease();
    var t3 := Tables(map[], map[7 := 2], map[], {}, map[]);
    assert ListAt(t3.xid2uids, 2) == [];
  }

  /** In `ReleaseAsWrittenStrands`: 1 takes 7. */
  lemma StrandsFirstAdd()
    ensures AddEffect(Tables(map[], map[], map[], {}, map[]), 1, 7)
         == AddStep(Ok(Acquired), Tables(map[1 := [7]], map[7 := 1], map[], {}, map[]))
  {
    var none: map<I64, seq<I64>> := map[];
    assert ListAt(none, 1) == [];
    var l7: seq<I64> := [7];
    assert ListAt(none, 1) + [7] == l7 && none[1 := l7] == map[1 := l7];
    assert PutIntoList(none, 1, 7) == map[1 := l7];
  }

  /** In `ReleaseAsWrittenStrands`: 2 waits for 7. */
  lemma StrandsSecondAdd()
    ensures AddEffect(Tables(map[1 := [7]], map[7 := 1], map[], {}, map[]), 2, 7)
         == AddStep(Ok(Waiting), Tables(map[1 := [7]], map[7 := 1], map[7 := [2]], {2}, map[2 := 7]))
  {
    var none: map<I64, seq<I64>> := map[];
    assert ListAt(none, 7) == [];
    assert Ends(map[2 := 7], map[7 := 1], 1, {});
    assert !Deadlocked(map[2 := 7], map[7 := 1], {1});
    var l2: seq<I64> := [2];
    assert ListAt(none, 7) + [2] == l2 && none[7 := l2] == map[7 := l2];
    assert PutIntoList(none, 7, 2) == map[7 := l2];
  }

  /** In `ReleaseAsWrittenStrands`: releasing 1 hands 7 to 2 without listing it under 2. */
  lemma StrandsFirstRelease()
    ensures Release(Tables(map[1 := [7]], map[7 := 1], map[7 := [2]], {2}, map[2 := 7]), 1, false)
         == Tables(map[], map[7 := 2], map[], {}, map[])
  {
    var t2 := Tables(map[1 := [7]], map[7 := 1], map[7 := [2]], {2}, map[2 := 7]);
    assert HandOff(t2, 7, false) == Tables(map[1 := [7]], map[7 := 2], map[], {}, map[]);
  }

  class LockTable {
    /** The uids each xid acquired, in order. */
    var xid2uids: map<I64, seq<I64>>
    /** The holder of each held uid. */
    var uid2xid: map<I64, I64>
    /** The xids waiting for each uid, first come first. */
    var uidWait2xids: map<I64, seq<I64>>
    /** The xids that registered a waiting thread. */
    var waitThreads: set<I64>
    /** The uid each waiting xid waits for. */
    var xid2waitUid: map<I64, I64>

    /** The whole table as a value. */
    function State(): Tables
      reads this
    {
      Tables(xid2uids, uid2xid, uidWait2xids, waitThreads, xid2waitUid)
    }

    constructor ()
      ensures State() == Tables(map[], map[], map[], {}, map[])
    {
      xid2uids := map[];
      uid2xid := map[];
      uidWait2xids := map[];
      waitThreads := {};
      xid2waitUid := map[];
    }

    /**
     * `hasDeadLock`: each holder not yet stamped starts a walk with a new
     * stamp; meeting the current stamp is a cycle, meeting an older one is a
     * walk already known to end. The answer is whether some holder's walk
     * runs into a cycle.
     */
    method HasDeadLock() returns (r: bool)
      ensures r <==> Deadlocked(xid2waitUid, uid2xid, xid2uids.Keys)
    {
      var xidStamp: map<I64, int> := map[];
      var stamp := 1;
      var todo := xid2uids.Keys;
      ghost var rank: map<I64, nat> := map[];
      while todo != {}
        invariant todo <= xid2uids.Keys
        invariant forall h :: h in xid2uids && h !in todo ==> Ends(xid2waitUid, uid2xid, h, {})
        invariant StampsUpTo(xidStamp, stamp)
        invariant Ranked(xid2waitUid, uid2xid, xidStamp.Keys, rank)
        decreases todo
      {
        var h :| h in todo;
        todo := todo - {h};
        if h in xidStamp && xidStamp[h] > 0 {
          RankedEnds(xid2waitUid, uid2xid, xidStamp.Keys, rank, h, {});
        } else {
          stamp := stamp + 1;
          var cycle;
          ghost var none: map<I64, nat> := map[];
          assert none.Keys == {};
          cycle, xidStamp, rank := Dfs(h, xidStamp, stamp, xidStamp.Keys, rank, h, [], none);
          if cycle {
            return true;
          }
        }
      }
      r := false;
    }

    /**
     * `dfs(x)` under stamp `stamp`, on a walk from `h` that has stamped the
     * xids of `path` so far, every other stamp being older: reports whether
     * the walk comes back to an xid stamped on this walk. When it does not,
     * every stamped xid can be ranked.
     */
    method Dfs(x: I64, xidStamp: map<I64, int>, stamp: int, ghost done: set<I64>,
               ghost rank0: map<I64, nat>, ghost h: I64, ghost path: seq<I64>, ghost pos: map<I64, nat>)
      returns (cycle: bool, stamps: map<I64, int>, ghost rank: map<I64, nat>)
      requires StampsOf(xidStamp, done, pos.Keys, stamp)
      requires Ranked(xid2waitUid, uid2xid, done, rank0)
      requires Chain(xid2waitUid, uid2xid, h, x, path, pos)
      ensures cycle <==> !Ends(xid2waitUid, uid2xid, x, pos.Keys)
      ensures StampsUpTo(stamps, stamp)
      ensures !cycle ==> Ranked(xid2waitUid, uid2xid, stamps.Keys, rank)
      decreases xid2waitUid.Keys - pos.Keys
    {
      var w, u := xid2waitUid, uid2xid;
      var stp := if x in xidStamp then Some(xidStamp[x]) else None;
      if stp.Some? && stp.value == stamp {
        StampsBounded(xidStamp, done, pos.Keys, stamp);
        return true, xidStamp, rank0;
      }
      if stp.Some? && stp.value < stamp {
        RankedEnds(w, u, done, rank0, x, pos.Keys);
        RankPath(w, u, done, rank0, h, path, pos, x);
        return false, xidStamp, rank0 + PathRanks(pos, |path|, rank0[x]);
      }
      stamps := xidStamp[x := stamp];
      StampOne(xidStamp, done, pos.Keys, stamp, x);
      if x !in w {
        DeadEndRanks(w, u, done, rank0, h, path, pos, x);
        return false, stamps, rank0[x := 0] + PathRanks(pos, |path|, 0);
      }
      var uid := w[x];
      if uid !in u {
        DeadEndRanks(w, u, done, rank0, h, path, pos, x);
        return false, stamps, rank0[x := 0] + PathRanks(pos, |path|, 0);
      }
      ChainStep(w, u, h, x, path, pos);
      cycle, stamps, rank := Dfs(u[uid], stamps, stamp, done, rank0, h, path + [x], pos[x := |path|]);
    }

    /**
     * `add(xid, uid)`. The thread that would park on `Waiting` is not
     * modelled: the call returns and the caller is known to wait.
     */
    method Add(xid: I64, uid: I64) returns (r: Result<AddOutcome>)
      modifies this
      ensures AddStep(r, State()) == AddEffect(old(State()), xid, uid)
    {
      if IsInList(xid2uids, xid, uid) {
        return Ok(Acquired);
      }
      if uid !in uid2xid {
        uid2xid := uid2xid[uid := xid];
        xid2uids := PutIntoList(xid2uids, xid, uid);
        return Ok(Acquired);
      }
      xid2waitUid := xid2waitUid[xid := uid];
      uidWait2xids := PutIntoList(uidWait2xids, uid, xid);
      var deadlock := HasDeadLock();
      if deadlock {
        xid2waitUid := xid2waitUid - {xid};
        uidWait2xids := RemoveFromList(uidWait2xids, uid, xid);
        return Err(Deadlock);
      }
      waitThreads := waitThreads + {xid};
      r := Ok(Waiting);
    }

    /** `remove(xid)`, with the hand-off recording its new owner. */
    method Remove(xid: I64)
      modifies this
      ensures State() == Release(old(State()), xid, true)
    {
      if xid in xid2uids {
        var x2u := xid2uids[xid];
        while x2u != []
          invariant ReleaseAll(State(), x2u, true) == ReleaseAll(old(State()), ListAt(old(xid2uids), xid), true)
          decreases |x2u|
        {
          var uid := x2u[0];
          x2u := x2u[1..];
          SelectNewXid(uid);
        }
      }
      xid2waitUid := xid2waitUid - {xid};
      xid2uids := xid2uids - {xid};
      waitThreads := waitThreads - {xid};
    }

    /** `selectNewXid(uid)`, with the hand-off recording its new owner. */
    method SelectNewXid(uid: I64)
      modifies this
      ensures State() == HandOff(old(State()), uid, true)
    {
      uid2xid := uid2xid - {uid};
      if uid !in uidWait2xids || uidWait2xids[uid] == [] {
        return;
      }
      var xids := uidWait2xids[uid];
      ghost var t1 := State();
      while xids != []
        invariant State() == t1
        invariant PopWaiters(t1, uid, xids, true) == HandOff(old(State()), uid, true)
        decreases |xids|
      {
        var x := xids[0];
        xids := xids[1..];
        if x in waitThreads {
          waitThreads := waitThreads - {x};
          uid2xid := uid2xid[uid := x];
          xid2waitUid := xid2waitUid - {x};
          xid2uids := PutIntoList(xid2uids, x, uid);
          if xids == [] {
            uidWait2xids := uidWait2xids - {uid};
          } else {
            uidWait2xids := uidWait2xids[uid := xids];
          }
          return;
        }
      }
      uidWait2xids := uidWait2xids - {uid};
    }
  }
}
