/** What the sweep of jsvGarbageCollect (src/jsvarcache.c:382-462) does to
    the pool m the mark phase leaves: it frees every visited record whose
    candidate bit is still set (a flat string together with its
    continuation blocks), relists every UNUSED slot in ascending order, and
    calls jsvUnRef on the live single child of each freed record. */
module Sweep {
  import opened Slots
  import opened Scan
  import opened Graph
  import opened Threading

  /** Slot k is released by a sweep that starts at position i: it lies in
      the step of a visited position whose candidate bit is set. */
  predicate FreedFrom(m: seq<Slot>, i: nat, k: nat)
    decreases |m| - i
  {
    i < |m| &&
    ((IsMarked(m[i]) && i <= k < NextPos(m, i)) ||
     (NextPos(m, i) <= k && FreedFrom(m, NextPos(m, i), k)))
  }

  predicate Freed(m: seq<Slot>, k: nat) { FreedFrom(m, 0, k) }

  /** Inside the step of a visited position p, a slot is released exactly
      when the candidate bit of p is set. */
  lemma {:induction false} FreedInStep(m: seq<Slot>, i: nat, p: nat, k: nat)
    requires InScanFrom(m, i, p) && p < |m| && p <= k < NextPos(m, p)
    ensures FreedFrom(m, i, k) <==> IsMarked(m[p])
    decreases |m| - i
  {
    InScanBounds(m, i, p);
    if i != p {
      InScanBounds(m, NextPos(m, i), p);
      FreedInStep(m, NextPos(m, i), p, k);
    }
  }

  /** A released slot lies in the step of a visited marked position. */
  lemma {:induction false} FreedHasHead(m: seq<Slot>, i: nat, k: nat) returns (p: nat)
    requires FreedFrom(m, i, k)
    ensures p < |m| && InScanFrom(m, i, p) && IsMarked(m[p]) && p <= k < NextPos(m, p)
    decreases |m| - i
  {
    if IsMarked(m[i]) && i <= k < NextPos(m, i) {
      p := i;
    } else {
      p := FreedHasHead(m, NextPos(m, i), k);
    }
  }

  /** The pool after the sweep, before the free list is threaded:
      released slots are UNUSED, every other slot is kept as it is. */
  function Released(m: seq<Slot>): (t: seq<Slot>)
    ensures |t| == |m|
  {
    seq(|m|, k requires 0 <= k < |m| => if Freed(m, k) then Zero else m[k])
  }

  /** A marked flat string at a visited position is released whole. */
  lemma FlatRunReleased(m: seq<Slot>, p: nat, k: nat)
    requires p < |m| && InScan(m, p) && IsMarked(m[p])
    requires p <= k < NextPos(m, p) && k < |m|
    ensures Released(m)[k] == Zero
  {
    FreedInStep(m, 0, p, k);
  }

  /** The sweep frees something: some visited slot still has its bit set. */
  predicate AnyMarked(m: seq<Slot>)
  {
    exists k: nat :: k < |m| && InScan(m, k) && IsMarked(m[k])
  }

  /** Some position a scan from i visits has its bit set; the loop form of
      AnyMarked. */
  function MarkedFrom(m: seq<Slot>, i: nat): bool
    decreases |m| - i
  {
    i < |m| && (IsMarked(m[i]) || MarkedFrom(m, NextPos(m, i)))
  }

  lemma {:induction false} MarkedFromSpec(m: seq<Slot>, i: nat)
    ensures MarkedFrom(m, i) <==> exists k: nat :: k < |m| && InScanFrom(m, i, k) && IsMarked(m[k])
    decreases |m| - i
  {
    if i < |m| {
      var q := NextPos(m, i);
      MarkedFromSpec(m, q);
      if MarkedFrom(m, q) {
        var k: nat :| k < |m| && InScanFrom(m, q, k) && IsMarked(m[k]);
        InScanBounds(m, q, k);
        assert InScanFrom(m, i, k);
      }
    }
  }

  /** The reference jsvUnRef is called on at visited position i, if any:
      the single child of a record that is freed, when the child is still
      occupied and unmarked as the sweep finds it. A child before position
      i has already been released if the sweep released it. */
  function UnrefAt(m: seq<Slot>, i: nat): (r: seq<nat>)
    requires i < |m|
    ensures |r| <= 1
  {
    var x := m[i];
    if IsMarked(x) && HasSingleChild(x.kind) && x.firstChild != 0 && x.firstChild <= |m|
       && m[x.firstChild - 1].Used? && !IsMarked(m[x.firstChild - 1])
       && !(x.firstChild - 1 < i && Freed(m, x.firstChild - 1))
    then [x.firstChild] else []
  }

  /** The references jsvUnRef is called on by the sweep from position i, in
      call order. */
  function UnrefTargetsFrom(m: seq<Slot>, i: nat): (r: seq<nat>)
    ensures forall x :: x in r ==> 1 <= x <= |m| && m[x - 1].Used? && !IsMarked(m[x - 1])
    decreases |m| - i
  {
    if i >= |m| then []
    else UnrefAt(m, i) + UnrefTargetsFrom(m, NextPos(m, i))
  }

  function UnrefTargets(m: seq<Slot>): seq<nat> { UnrefTargetsFrom(m, 0) }

  // ---------------------------------------------------------------------------
  // What the sweep achieves

  /** A visited slot is released exactly when its bit is set. */
  lemma FreedVisited(m: seq<Slot>, k: nat)
    requires k < |m| && InScan(m, k)
    ensures Freed(m, k) <==> IsMarked(m[k])
  {
    FreedInStep(m, 0, k, k);
  }

  /** A slot is released only if the sweep finds something to free. */
  lemma FreedOnlyIfAnyMarked(m: seq<Slot>, k: nat)
    requires Freed(m, k)
    ensures AnyMarked(m)
  {
    var p := FreedHasHead(m, 0, k);
    InScanBounds(m, 0, p);
  }

  /** The continuation blocks of a released flat string are released
      with it; those of a kept one are kept. */
  lemma FlatBodyFollowsHead(m: seq<Slot>, p: nat, k: nat)
    requires p < |m| && InScan(m, p) && p < k < NextPos(m, p)
    ensures Freed(m, k) <==> IsMarked(m[p])
    ensures m[p].Used? && IsFlatString(m[p].kind)
  {
    FreedInStep(m, 0, p, k);
  }

  /** A child jsvUnRef is called on, when the scan visits it, is kept. */
  lemma UnrefTargetsKept(m: seq<Slot>, x: nat)
    requires x in UnrefTargets(m) && InScan(m, x - 1)
    ensures Released(m)[x - 1] == m[x - 1] && m[x - 1].Used?
  {
    FreedVisited(m, x - 1);
  }

  /** A visited record the mark phase kept is never put on the free list. */
  lemma FreeListOfReleased(m: seq<Slot>, k: nat)
    requires k < |m| && InScan(m, k) && m[k].Used? && !IsMarked(m[k])
    ensures k + 1 !in FreeRefs(Released(m))
  {
    FreedVisited(m, k);
    FreeRefsFromSpec(Released(m), 0);
  }

  // ---------------------------------------------------------------------------
  // Mark and sweep together

  /** The mark phase clears candidate bits only, so the sweep visits the
      positions a scan of the original pool visits. */
  lemma MarkKeepsScan(s0: seq<Slot>, m: seq<Slot>, k: nat)
    requires ClearsOnly(Tag(s0), m)
    ensures InScan(m, k) == InScan(s0, k)
    ensures SameSkips(s0, m)
  {
    TagSameSkips(s0);
    assert SameSkips(s0, m) by {
      forall j | 0 <= j < |s0| ensures FlatSkip(s0[j]) == FlatSkip(m[j]) {
        assert FlatSkip(Tag(s0)[j]) == FlatSkip(m[j]);
      }
    }
    InScanSameSkips(s0, m, 0, k);
  }

  /** The mark phase keeps what the sweep relies on: flat strings fit and
      the child links of visited records stay inside the pool. */
  lemma MarkKeepsShape(s0: seq<Slot>, m: seq<Slot>)
    requires ClearsOnly(Tag(s0), m) && Fits(s0) && LinksInRange(s0)
    ensures Fits(m) && LinksInRange(m) && |m| == |s0|
  {
    MarkKeepsScan(s0, m, 0);
    FitsSameSkips(s0, m, 0);
    forall k: nat | k < |m| && InScan(m, k)
      ensures FollowedInRange(m[k], |m|)
    {
      MarkKeepsScan(s0, m, k);
      TagMarks(s0, k);
      assert SameUpToMark(Tag(s0)[k], m[k]);
      assert SameUpToMark(s0[k], m[k]);
      SameUpToMarkLinks(s0[k], m[k]);
    }
  }

  /** A locked record the scan visits is never freed. */
  lemma LockedNeverFreed(s0: seq<Slot>, m: seq<Slot>, u: nat)
    requires MarkResult(s0, m) && IsRoot(s0, u)
    ensures !Freed(m, u - 1)
  {
    MarkKeepsScan(s0, m, u - 1);
    FreedVisited(m, u - 1);
  }

  /** The collector frees an occupied visited record exactly when no
      locked record reaches it. */
  lemma FreedIffUnreachable(s0: seq<Slot>, m: seq<Slot>, k: nat)
    requires GcGraphOk(s0) && MarkResult(s0, m)
    requires k < |s0| && InScan(s0, k) && s0[k].Used?
    ensures Freed(m, k) <==> !Reachable(s0, k + 1)
  {
    MarkKeepsScan(s0, m, k);
    FreedVisited(m, k);
    MarkedIffUnreachable(s0, m, k);
  }

  /** jsvGarbageCollect reports that it freed something exactly when some
      occupied visited record was unreachable from the locked ones. */
  lemma FreedSomethingIff(s0: seq<Slot>, m: seq<Slot>)
    requires GcGraphOk(s0) && MarkResult(s0, m)
    ensures AnyMarked(m) <==> exists k: nat :: k < |s0| && InScan(s0, k) && s0[k].Used? && !Reachable(s0, k + 1)
  {
    if AnyMarked(m) {
      var k: nat :| k < |m| && InScan(m, k) && IsMarked(m[k]);
      MarkKeepsScan(s0, m, k);
      TagMarks(s0, k);
      assert s0[k].Used?;
      MarkedIffUnreachable(s0, m, k);
    }
    if exists k: nat :: k < |s0| && InScan(s0, k) && s0[k].Used? && !Reachable(s0, k + 1) {
      var k: nat :| k < |s0| && InScan(s0, k) && s0[k].Used? && !Reachable(s0, k + 1);
      MarkKeepsScan(s0, m, k);
      MarkedIffUnreachable(s0, m, k);
    }
  }

  // ---------------------------------------------------------------------------
  // The sweep loop, step by step

  /** The pool as the sweep leaves it before position k: the released
      slots before k are UNUSED, every other slot is as the mark phase
      left it. */
  function Upto(m: seq<Slot>, k: nat): (t: seq<Slot>)
    ensures |t| == |m|
  {
    seq(|m|, j requires 0 <= j < |m| => if j < k && Freed(m, j) then Zero else m[j])
  }

  /** The sweep reached position k: the free list threaded so far holds the
      UNUSED slots of the released pool before k, in order. */
  ghost predicate Swept(m: seq<Slot>, cur: seq<Slot>, L: seq<nat>, head: nat, lastEmpty: nat, k: nat)
  {
    k <= |m| && Threaded(cur, Upto(m, k), L, head, lastEmpty) &&
    L + FreeRefsFrom(Released(m), k) == FreeRefs(Released(m)) &&
    (forall y :: y in L ==> y <= k)
  }

  lemma SweptStart(m: seq<Slot>)
    ensures Swept(m, m, [], 0, 0, 0)
  {
    assert Upto(m, 0) == m;
    ThreadedStart(m);
  }

  /** The slot at the position the sweep reached is as the mark phase left it. */
  lemma SweptHere(m: seq<Slot>, cur: seq<Slot>, L: seq<nat>, head: nat, lastEmpty: nat, p: nat)
    requires Swept(m, cur, L, head, lastEmpty, p) && p < |m|
    ensures cur[p] == m[p] && |cur| == |m|
  {
    assert p + 1 !in L;
  }

  /** A kept record: nothing is listed and the sweep moves to the next
      visited position. */
  lemma SweptKeep(m: seq<Slot>, cur: seq<Slot>, L: seq<nat>, head: nat, lastEmpty: nat, p: nat, q: nat)
    requires Swept(m, cur, L, head, lastEmpty, p) && p < |m| && InScan(m, p)
    requires m[p].Used? && !IsMarked(m[p]) && q == NextPos(m, p) <= |m|
    ensures Swept(m, cur, L, head, lastEmpty, q)
  {
    var q := NextPos(m, p);
    forall j | p <= j < q ensures !Freed(m, j) {
      FreedInStep(m, 0, p, j);
    }
    assert Upto(m, q) == Upto(m, p);
    FreedVisited(m, p);
    assert Released(m)[p] == m[p];
  }

  /** Listing the slot at position k, which the sweep releases or finds
      UNUSED. */
  lemma SweptList(m: seq<Slot>, cur: seq<Slot>, L: seq<nat>, head: nat, lastEmpty: nat, k: nat, x: nat,
                  cur2: seq<Slot>, head2: nat)
    requires Swept(m, cur, L, head, lastEmpty, k) && x == k + 1 <= |m| && Released(m)[k].Unused?
    requires Threaded(cur2, Upto(m, x), L + [x], head2, x)
    ensures Swept(m, cur2, L + [x], head2, x, x)
  {
    FreeRefsStep(Released(m), L, k);
  }

  /** The next Upto differs from the last one only at the position listed. */
  lemma UptoStep(m: seq<Slot>, k: nat)
    ensures forall j :: 0 <= j < |m| && j != k ==> Upto(m, k + 1)[j] == Upto(m, k)[j]
  {
  }

  /** The sweep reached the end: the base is the released pool and the list
      is its scan's free list. */
  lemma SweptEnd(m: seq<Slot>, cur: seq<Slot>, L: seq<nat>, head: nat, lastEmpty: nat, k: nat)
    requires Swept(m, cur, L, head, lastEmpty, k) && |m| <= k
    ensures Threaded(cur, Released(m), L, head, lastEmpty) && L == FreeRefs(Released(m))
  {
    assert Upto(m, k) == Released(m);
  }

  /** What jsvGarbageCollect tests of the single child c, in the pool as
      the sweep has left it, is the test UnrefAt states of m. */
  lemma SweptChild(m: seq<Slot>, cur: seq<Slot>, L: seq<nat>, head: nat, lastEmpty: nat, p: nat, c: nat)
    requires Swept(m, cur, L, head, lastEmpty, p) && 1 <= c <= |m|
    ensures (cur[c - 1].Used? && !IsMarked(cur[c - 1])) <==>
            (m[c - 1].Used? && !IsMarked(m[c - 1]) && !(c - 1 < p && Freed(m, c - 1)))
  {
    if c in L {
      assert c in FreeRefs(Released(m));
      FreeRefsFromSpec(Released(m), 0);
      var j :| 0 <= j < |L| && L[j] == c;
    }
  }

  /** One step of the jsvUnRef calls. */
  lemma UnrefStep(m: seq<Slot>, U: seq<nat>, p: nat)
    requires p < |m| && U + UnrefTargetsFrom(m, p) == UnrefTargets(m)
    ensures (U + UnrefAt(m, p)) + UnrefTargetsFrom(m, NextPos(m, p)) == UnrefTargets(m)
  {
    var A, B := UnrefAt(m, p), UnrefTargetsFrom(m, NextPos(m, p));
    assert UnrefTargetsFrom(m, p) == A + B;
    Assoc(U, A, B);
  }

  /** One step of the sweep's bookkeeping at visited position p: the flag
      and the jsvUnRef calls so far. */
  ghost predicate Tally(m: seq<Slot>, freed: bool, U: seq<nat>, k: nat)
  {
    (freed || MarkedFrom(m, k) <==> MarkedFrom(m, 0)) && U + UnrefTargetsFrom(m, k) == UnrefTargets(m)
  }

  lemma TallyStep(m: seq<Slot>, freed: bool, U: seq<nat>, p: nat)
    requires p < |m| && Tally(m, freed, U, p)
    ensures Tally(m, freed || IsMarked(m[p]), U + UnrefAt(m, p), NextPos(m, p))
  {
    UnrefStep(m, U, p);
  }

  lemma TallyStart(m: seq<Slot>)
    ensures Tally(m, false, [], 0)
  {
    assert [] + UnrefTargets(m) == UnrefTargets(m);
  }

  /** At the end of the sweep the flag says whether anything was freed and
      the calls are exactly the targets. */
  lemma TallyEnd(m: seq<Slot>, freed: bool, U: seq<nat>, k: nat)
    requires |m| <= k && Tally(m, freed, U, k)
    ensures freed == AnyMarked(m) && U == UnrefTargets(m)
  {
    MarkedFromSpec(m, 0);
    assert U + [] == U;
  }


}
