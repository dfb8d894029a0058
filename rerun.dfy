/** A second jsvGarbageCollect straight after a first one
    (src/jsvarcache.c:357-463): with no allocation in between, every
    record the first collection kept is still reachable from a locked
    record, so the second mark phase leaves nothing to free and the call
    returns false. */
module Rerun {
  import opened Slots
  import opened Scan
  import opened Graph
  import opened Sweep

  /** No children list of an occupied record the scan visits runs through
      an UNUSED slot. The sweep rewrites the links of UNUSED slots when it
      rebuilds the free list, so a children list through one could change
      under it. */
  ghost predicate ListsOccupied(s: seq<Slot>)
  {
    forall k, x :: 0 <= k < |s| && InScan(s, k) && s[k].Used? && HasChildren(s[k].kind) && x in Chain(s, Siblings, s[k].firstChild) ==>
      1 <= x <= |s| && s[x - 1].Used?
  }

  /** v is the pool a sweep of m leaves: the released pool, with the
      UNUSED slots it visits threaded into the free list and every other
      slot as released. */
  ghost predicate AfterSweep(m: seq<Slot>, v: seq<Slot>)
  {
    |v| == |m| && Linked(v, FreeRefs(Released(m))) &&
    forall k :: 0 <= k < |v| && k + 1 !in FreeRefs(Released(m)) ==> v[k] == Released(m)[k]
  }

  /** Threading the free list changes only UNUSED slots: skips and
      occupied slots are those of the released pool. */
  lemma AfterSweepShape(m: seq<Slot>, v: seq<Slot>)
    requires AfterSweep(m, v)
    ensures SameSkips(Released(m), v)
    ensures forall k :: 0 <= k < |v| ==> (v[k].Used? <==> Released(m)[k].Used?)
    ensures forall k :: 0 <= k < |v| && v[k].Used? ==> v[k] == Released(m)[k]
  {
    var t, L := Released(m), FreeRefs(Released(m));
    FreeRefsFromSpec(t, 0);
    forall k | 0 <= k < |v|
      ensures FlatSkip(t[k]) == FlatSkip(v[k]) && (v[k].Used? <==> t[k].Used?) && (v[k].Used? ==> v[k] == t[k])
    {
      if k + 1 in L {
        var i :| 0 <= i < |L| && L[i] == k + 1;
        assert v[L[i] - 1].Unused?;
      }
    }
  }

  /** A run of all-zero slots is scanned one slot at a time. */
  lemma {:induction false} ZeroRun(t: seq<Slot>, j: nat, q: nat, k: nat)
    requires j <= q <= |t| && q <= k
    requires forall x :: j <= x < q ==> t[x] == Zero
    ensures InScanFrom(t, j, k) <==> InScanFrom(t, q, k)
    decreases q - j
  {
    if j < q {
      assert NextPos(t, j) == j + 1;
      ZeroRun(t, j + 1, q, k);
    }
  }

  /** From a position the scan of m visits, the scan of the released pool
      visits every kept position the scan of m visits, and every occupied
      slot the released scan visits is one the scan of m visits. */
  lemma {:induction false} ReleasedScan(m: seq<Slot>, i: nat, k: nat)
    requires Fits(m) && i < |m| && InScan(m, i) && k < |m|
    ensures InScanFrom(m, i, k) && !Freed(m, k) ==> InScanFrom(Released(m), i, k)
    ensures InScanFrom(Released(m), i, k) && Released(m)[k].Used? ==> InScanFrom(m, i, k)
    decreases |m| - i
  {
    var t := Released(m);
    var q := NextPos(m, i);
    FitsVisited(m, 0, i);
    if i != k {
      if q < |m| {
        InScanNext(m, 0, i);
        ReleasedScan(m, q, k);
      }
      if IsMarked(m[i]) {
        forall x | i <= x < q ensures t[x] == Zero { FlatRunReleased(m, i, x); }
        assert NextPos(t, i) == i + 1;
        if InScanFrom(m, i, k) {
          InScanBounds(m, q, k);
          ZeroRun(t, i + 1, q, k);
        }
        if InScanFrom(t, i, k) && t[k].Used? {
          InScanBounds(t, i + 1, k);
          assert q <= k;
          ZeroRun(t, i + 1, q, k);
        }
      } else {
        FreedVisited(m, i);
        assert t[i] == m[i];
        assert NextPos(t, i) == q;
        assert InScanFrom(m, i, k) <==> i < k && InScanFrom(m, q, k);
        assert InScanFrom(t, i, k) <==> i < k && InScanFrom(t, q, k);
      }
    }
  }

  /** The same from the start of the pool. */
  lemma ReleasedScanAt(m: seq<Slot>, k: nat)
    requires Fits(m) && k < |m|
    ensures InScan(m, k) && !Freed(m, k) ==> InScan(Released(m), k)
    ensures InScan(Released(m), k) && Released(m)[k].Used? ==> InScan(m, k)
  {
    assert InScan(m, 0);
    ReleasedScan(m, 0, k);
  }

  /** A record reachable when the first collection started is visited,
      not released, and, if occupied, still there up to its candidate bit
      after the sweep. */
  lemma KeptRecord(s0: seq<Slot>, m: seq<Slot>, v: seq<Slot>, x: nat)
    requires GcGraphOk(s0) && MarkResult(s0, m) && AfterSweep(m, v) && Reachable(s0, x)
    ensures 1 <= x <= |s0| && InScan(s0, x - 1) && !Freed(m, x - 1)
    ensures s0[x - 1].Used? ==> v[x - 1].Used? && SameUpToMark(s0[x - 1], v[x - 1])
  {
    var k := x - 1;
    ReachableUnmarked(s0, m, x);
    MarkKeepsScan(s0, m, k);
    FreedVisited(m, k);
    ClearedSame(s0, m, k);
    assert Released(m)[k] == m[k];
    if s0[k].Used? {
      SameUpToMarkLinks(s0[k], m[k]);
      AfterSweepShape(m, v);
      assert v[k] == m[k];
    }
  }

  /** The mark phase changes a record only in its candidate bit. */
  lemma ClearedSame(s0: seq<Slot>, m: seq<Slot>, k: nat)
    requires ClearsOnly(Tag(s0), m) && k < |s0|
    ensures SameUpToMark(s0[k], m[k])
  {
    TagMarks(s0, k);
    assert m[k] == Tag(s0)[k] || m[k] == Unmark(Tag(s0)[k]);
  }

  /** An edge out of a reachable record is an edge of the pool after the
      sweep: its links are kept, and so is the children list it follows. */
  lemma EdgeKept(s0: seq<Slot>, m: seq<Slot>, v: seq<Slot>, a: nat, b: nat)
    requires GcGraphOk(s0) && ListsOccupied(s0) && MarkResult(s0, m) && AfterSweep(m, v)
    requires Reachable(s0, a) && Edge(s0, a, b)
    ensures Edge(v, a, b)
  {
    KeptRecord(s0, m, v, a);
    var x, y := s0[a - 1], v[a - 1];
    SameUpToMarkLinks(x, y);
    if !HasSingleChild(x.kind) && HasChildren(x.kind) {
      ListKept(s0, m, v, a);
    }
  }

  /** The children list of a reachable record is the same list after the
      sweep. */
  lemma ListKept(s0: seq<Slot>, m: seq<Slot>, v: seq<Slot>, a: nat)
    requires GcGraphOk(s0) && ListsOccupied(s0) && MarkResult(s0, m) && AfterSweep(m, v)
    requires Reachable(s0, a) && 1 <= a <= |s0| && InScan(s0, a - 1) && s0[a - 1].Used?
    requires !HasSingleChild(s0[a - 1].kind) && HasChildren(s0[a - 1].kind)
    ensures Chain(v, Siblings, s0[a - 1].firstChild) == Chain(s0, Siblings, s0[a - 1].firstChild)
  {
    var c := s0[a - 1].firstChild;
    assert Walk(s0, Siblings, c, |s0|).Some?;
    forall z | z in Chain(s0, Siblings, c) ensures 1 <= z <= |s0| && Follow(s0[z - 1], Siblings) == Follow(v[z - 1], Siblings) {
      MemberKept(s0, m, v, a, z);
    }
    ChainSame(s0, v, Siblings, c);
  }

  /** A member of the children list of a reachable record keeps its
      sibling link through the sweep. */
  lemma MemberKept(s0: seq<Slot>, m: seq<Slot>, v: seq<Slot>, a: nat, z: nat)
    requires GcGraphOk(s0) && ListsOccupied(s0) && MarkResult(s0, m) && AfterSweep(m, v)
    requires Reachable(s0, a) && 1 <= a <= |s0| && InScan(s0, a - 1) && s0[a - 1].Used?
    requires !HasSingleChild(s0[a - 1].kind) && HasChildren(s0[a - 1].kind)
    requires z in Chain(s0, Siblings, s0[a - 1].firstChild)
    ensures 1 <= z <= |s0| && Follow(s0[z - 1], Siblings) == Follow(v[z - 1], Siblings)
  {
    var u :| IsRoot(s0, u) && ReachFrom(s0, u, a);
    assert Edge(s0, a, z);
    ReachStep(s0, u, a, z);
    KeptRecord(s0, m, v, z);
    SameUpToMarkLinks(s0[z - 1], v[z - 1]);
  }

  /** A locked record the first collection's scan visits is a root of the
      pool after the sweep too. */
  lemma RootKept(s0: seq<Slot>, m: seq<Slot>, v: seq<Slot>, u: nat)
    requires GcGraphOk(s0) && Fits(s0) && MarkResult(s0, m) && AfterSweep(m, v)
    requires IsRoot(s0, u)
    ensures IsRoot(v, u)
  {
    ReachSelf(s0, u);
    KeptRecord(s0, m, v, u);
    SameUpToMarkLinks(s0[u - 1], v[u - 1]);
    MarkKeepsShape(s0, m);
    MarkKeepsScan(s0, m, u - 1);
    ReleasedScanAt(m, u - 1);
    AfterSweepShape(m, v);
    InScanSameSkips(Released(m), v, 0, u - 1);
  }

  /** A path from a root of s0 is a path of the pool after the sweep. */
  lemma {:induction false} PathKept(s0: seq<Slot>, m: seq<Slot>, v: seq<Slot>, p: seq<nat>, n: nat)
    requires GcGraphOk(s0) && ListsOccupied(s0) && MarkResult(s0, m) && AfterSweep(m, v)
    requires IsPath(s0, p) && IsRoot(s0, p[0]) && n < |p|
    ensures ReachFrom(v, p[0], p[n])
  {
    if n == 0 {
      ReachSelf(v, p[0]);
    } else {
      PathKept(s0, m, v, p, n - 1);
      var pre := p[..n];
      assert IsPath(s0, pre) && pre[0] == p[0] && pre[|pre| - 1] == p[n - 1];
      assert Reachable(s0, p[n - 1]);
      assert Edge(s0, p[n - 1], p[n]);
      EdgeKept(s0, m, v, p[n - 1], p[n]);
      ReachStep(v, p[0], p[n - 1], p[n]);
    }
  }

  /** Every occupied record the scan visits after the first collection is
      reachable from a locked record. */
  lemma KeptReachable(s0: seq<Slot>, m: seq<Slot>, v: seq<Slot>, k: nat)
    requires GcGraphOk(s0) && Fits(s0) && ListsOccupied(s0) && MarkResult(s0, m) && AfterSweep(m, v)
    requires k < |v| && InScan(v, k) && v[k].Used?
    ensures Reachable(v, k + 1)
  {
    var t := Released(m);
    AfterSweepShape(m, v);
    InScanSameSkips(t, v, 0, k);
    MarkKeepsShape(s0, m);
    ReleasedScanAt(m, k);
    assert t[k].Used? && !Freed(m, k) && t[k] == m[k];
    FreedVisited(m, k);
    MarkKeepsScan(s0, m, k);
    ClearedSame(s0, m, k);
    SameUpToMarkLinks(s0[k], m[k]);
    MarkedIffUnreachable(s0, m, k);
    var u, p :| IsRoot(s0, u) && IsPath(s0, p) && p[0] == u && p[|p| - 1] == k + 1;
    PathKept(s0, m, v, p, |p| - 1);
    RootKept(s0, m, v, u);
  }

  /** A second collection over the pool the first one left finds nothing
      to free, so it returns false. */
  lemma SecondCollectFreesNothing(s0: seq<Slot>, m: seq<Slot>, v: seq<Slot>, m2: seq<Slot>)
    requires GcGraphOk(s0) && Fits(s0) && ListsOccupied(s0) && MarkResult(s0, m) && AfterSweep(m, v)
    requires GcGraphOk(v) && MarkResult(v, m2)
    ensures !AnyMarked(m2)
  {
    if AnyMarked(m2) {
      var k: nat :| k < |m2| && InScan(m2, k) && IsMarked(m2[k]);
      MarkKeepsScan(v, m2, k);
      TagMarks(v, k);
      KeptReachable(s0, m, v, k);
      MarkedIffUnreachable(v, m2, k);
    }
  }
}
