/** Full-pool scans and the free list, over the slots of references
    1..|s| (slot of reference r at position r-1).

    Every full-pool loop of the pool (free-list rebuild, soft kill, usage,
    tag, mark, sweep) visits positions in ascending order and, on a flat
    string head, jumps over its continuation blocks. The positions such a
    scan visits depend only on FlatSkip of each slot. */
module Scan {
  import opened Slots

  /** Concatenation is associative. */
  lemma Assoc(a: seq<nat>, b: seq<nat>, c: seq<nat>)
    ensures (a + b) + c == a + (b + c)
  {
    assert |(a + b) + c| == |a + (b + c)|;
    forall k | 0 <= k < |a| + |b| + |c| ensures ((a + b) + c)[k] == (a + (b + c))[k] {
      if k < |a| + |b| { assert ((a + b) + c)[k] == (a + b)[k]; }
    }
  }

  /** Position a scan visits after position i. */
  function NextPos(s: seq<Slot>, i: nat): (j: nat)
    requires i < |s|
    ensures i < j && j == i + 1 + FlatSkip(s[i])
  {
    i + 1 + FlatSkip(s[i])
  }

  /** Position k is visited by a scan that starts at position i. */
  predicate InScanFrom(s: seq<Slot>, i: nat, k: nat)
    decreases |s| - i
  {
    i < |s| && (i == k || (i < k && InScanFrom(s, NextPos(s, i), k)))
  }

  /** Position k is visited by a scan of the whole pool. */
  predicate InScan(s: seq<Slot>, k: nat) { InScanFrom(s, 0, k) }

  lemma {:induction false} InScanBounds(s: seq<Slot>, i: nat, k: nat)
    requires InScanFrom(s, i, k)
    ensures i <= k < |s|
    decreases |s| - i
  {
    if i != k { InScanBounds(s, NextPos(s, i), k); }
  }

  /** The scan reaches the position after any visited position. */
  lemma {:induction false} InScanNext(s: seq<Slot>, i: nat, p: nat)
    requires InScanFrom(s, i, p) && p < |s| && NextPos(s, p) < |s|
    ensures InScanFrom(s, i, NextPos(s, p))
    decreases |s| - i
  {
    if i != p {
      InScanBounds(s, NextPos(s, i), p);
      InScanNext(s, NextPos(s, i), p);
    }
  }

  /** Continuation blocks of a visited flat string head are never visited. */
  lemma {:induction false} InScanGap(s: seq<Slot>, i: nat, p: nat, k: nat)
    requires InScanFrom(s, i, p) && p < |s| && p < k < NextPos(s, p)
    ensures !InScanFrom(s, i, k)
    decreases |s| - i
  {
    if InScanFrom(s, i, k) {
      InScanBounds(s, i, p);
      if i == p {
        InScanBounds(s, NextPos(s, p), k);
      } else {
        InScanGap(s, NextPos(s, i), p, k);
      }
    }
  }

  /** Two states whose slots skip alike are scanned alike. */
  predicate SameSkips(s: seq<Slot>, t: seq<Slot>)
  {
    |s| == |t| && forall k :: 0 <= k < |s| ==> FlatSkip(s[k]) == FlatSkip(t[k])
  }

  /** Same skips and the same UNUSED slots: the free refs agree too. */
  predicate SameShape(s: seq<Slot>, t: seq<Slot>)
  {
    SameSkips(s, t) && forall k :: 0 <= k < |s| ==> s[k].Unused? == t[k].Unused?
  }

  lemma {:induction false} InScanSameSkips(s: seq<Slot>, t: seq<Slot>, i: nat, k: nat)
    requires SameSkips(s, t)
    ensures InScanFrom(s, i, k) == InScanFrom(t, i, k)
    decreases |s| - i
  {
    if i < |s| && i < k { InScanSameSkips(s, t, NextPos(s, i), k); }
  }

  /** The references of the UNUSED slots a scan from position i visits, in
      the order the scan visits them: the free list jsvCreateEmptyVarList
      builds (src/jsvarcache.c:129-151). */
  function FreeRefsFrom(s: seq<Slot>, i: nat): seq<nat>
    decreases |s| - i
  {
    if i >= |s| then []
    else (if s[i].Unused? then [i + 1] else []) + FreeRefsFrom(s, NextPos(s, i))
  }

  /** The list holds exactly the UNUSED slots the scan visits, in strictly
      ascending order. */
  lemma {:induction false} FreeRefsFromSpec(s: seq<Slot>, i: nat)
    ensures forall x :: x in FreeRefsFrom(s, i) ==> 1 <= x && i < x && x <= |s| && s[x - 1].Unused? && InScanFrom(s, i, x - 1)
    ensures forall k: nat :: k < |s| && InScanFrom(s, i, k) && s[k].Unused? ==> k + 1 in FreeRefsFrom(s, i)
    ensures Ascending(FreeRefsFrom(s, i))
    decreases |s| - i
  {
    if i < |s| {
      var rest := FreeRefsFrom(s, NextPos(s, i));
      FreeRefsFromSpec(s, NextPos(s, i));
      assert forall x :: x in rest ==> InScanFrom(s, i, x - 1);
      assert forall b :: 0 <= b < |rest| ==> rest[b] in rest && i + 1 < rest[b];
    }
  }

  function FreeRefs(s: seq<Slot>): seq<nat> { FreeRefsFrom(s, 0) }

  lemma {:induction false} FreeRefsSameShape(s: seq<Slot>, t: seq<Slot>, i: nat)
    requires SameShape(s, t)
    ensures FreeRefsFrom(s, i) == FreeRefsFrom(t, i)
    decreases |s| - i
  {
    if i < |s| {
      var q := NextPos(s, i);
      assert q == NextPos(t, i) && s[i].Unused? == t[i].Unused?;
      FreeRefsSameShape(s, t, q);
      assert FreeRefsFrom(s, i) == (if s[i].Unused? then [i + 1] else []) + FreeRefsFrom(s, q);
      assert FreeRefsFrom(t, i) == (if t[i].Unused? then [i + 1] else []) + FreeRefsFrom(t, q);
    }
  }

  /** jsvGetMemoryUsage from position i: each occupied slot counts 1, and a
      flat string head also counts its continuation blocks. */
  function UsageFrom(s: seq<Slot>, i: nat): nat
    decreases |s| - i
  {
    if i >= |s| then 0
    else (if s[i].Used? then 1 + FlatSkip(s[i]) else 0) + UsageFrom(s, NextPos(s, i))
  }

  function Usage(s: seq<Slot>): nat { UsageFrom(s, 0) }

  /** Every flat string the scan meets ends inside the pool. */
  predicate FitsFrom(s: seq<Slot>, i: nat)
    decreases |s| - i
  {
    i >= |s| || (NextPos(s, i) <= |s| && FitsFrom(s, NextPos(s, i)))
  }

  predicate Fits(s: seq<Slot>) { FitsFrom(s, 0) }

  /** A flat string the scan visits ends inside the pool. */
  lemma {:induction false} FitsVisited(s: seq<Slot>, i: nat, p: nat)
    requires FitsFrom(s, i) && InScanFrom(s, i, p)
    ensures p < |s| && NextPos(s, p) <= |s|
    decreases |s| - i
  {
    if i != p { FitsVisited(s, NextPos(s, i), p); }
  }

  lemma {:induction false} FitsSameSkips(s: seq<Slot>, t: seq<Slot>, i: nat)
    requires SameSkips(s, t) && FitsFrom(s, i)
    ensures FitsFrom(t, i)
    decreases |s| - i
  {
    if i < |s| { FitsSameSkips(s, t, NextPos(s, i)); }
  }

  /** usage + free-list length == total, when flat strings fit. */
  lemma {:induction false} UsagePlusFreeFrom(s: seq<Slot>, i: nat)
    requires i <= |s| && FitsFrom(s, i)
    ensures UsageFrom(s, i) + |FreeRefsFrom(s, i)| == |s| - i
    decreases |s| - i
  {
    if i < |s| { UsagePlusFreeFrom(s, NextPos(s, i)); }
  }

  lemma UsagePlusFree(s: seq<Slot>)
    requires Fits(s)
    ensures Usage(s) + |FreeRefs(s)| == |s|
  {
    UsagePlusFreeFrom(s, 0);
  }

  /** A pool whose every slot is UNUSED. */
  predicate AllUnused(s: seq<Slot>) { forall k :: 0 <= k < |s| ==> s[k].Unused? }

  /** [lo, lo+1, ..., hi-1] */
  function Range(lo: nat, hi: nat): (r: seq<nat>)
    ensures |r| == if lo <= hi then hi - lo else 0
    ensures forall k :: 0 <= k < |r| ==> r[k] == lo + k
    decreases hi - lo
  {
    if lo >= hi then [] else [lo] + Range(lo + 1, hi)
  }

  /** In an all-UNUSED pool the scan lists every reference, and nothing is used. */
  lemma {:induction false} AllUnusedFrom(s: seq<Slot>, i: nat)
    requires AllUnused(s) && i <= |s|
    ensures FreeRefsFrom(s, i) == Range(i + 1, |s| + 1)
    ensures UsageFrom(s, i) == 0 && FitsFrom(s, i)
    decreases |s| - i
  {
    if i < |s| { AllUnusedFrom(s, i + 1); }
  }

  /** A run of UNUSED slots each linked to the next, the last linked to 0,
      is the list start, start+1, ..., start+count-1. */
  lemma RunListed(s: seq<Slot>, start: nat, count: nat)
    requires 1 <= start && 1 <= count && start + count - 1 <= |s|
    requires forall k :: start - 1 <= k < start + count - 2 ==> s[k] == Unused(k + 2)
    requires s[start + count - 2] == Unused(0)
    ensures ListIs(s, start, Range(start, start + count))
  {
    var R := Range(start, start + count);
    assert forall j :: 0 <= j < |R| ==> R[j] == start + j;
  }

  /** A pool whose slots 1..n form the list 1, 2, ..., n is all UNUSED; a
      pool relisted from it lists the same references and uses nothing. */
  lemma FullListAllUnused(s1: seq<Slot>, s2: seq<Slot>, head: nat)
    requires ListIs(s1, 1, Range(1, |s1| + 1)) && |s2| == |s1|
    requires ListIs(s2, head, FreeRefs(s1))
    ensures AllUnused(s1) && AllUnused(s2)
    ensures ListIs(s2, head, Range(1, |s2| + 1)) && Usage(s2) == 0 && Fits(s2)
  {
    var R := Range(1, |s1| + 1);
    forall k | 0 <= k < |s1| ensures s1[k].Unused? {
      assert R[k] == k + 1;
    }
    AllUnusedFrom(s1, 0);
    forall k | 0 <= k < |s2| ensures s2[k].Unused? {
      assert R[k] == k + 1;
    }
    AllUnusedFrom(s2, 0);
  }

  /** The positions a scan visits get the candidate bit (tag phase). */
  function Tag(s: seq<Slot>): (t: seq<Slot>)
    ensures |t| == |s|
  {
    seq(|s|, k requires 0 <= k < |s| => if InScan(s, k) then Mark(s[k]) else s[k])
  }

  /** jsvClearEmptyVarList: every visited UNUSED slot becomes all-zero. */
  function Cleared(s: seq<Slot>): (t: seq<Slot>)
    ensures |t| == |s|
  {
    seq(|s|, k requires 0 <= k < |s| => if InScan(s, k) && s[k].Unused? then Zero else s[k])
  }

  /** The loop of jsvClearEmptyVarList reached position p of a scan of s0:
      the slots before p are cleared, the others untouched. */
  predicate ClearLoop(s0: seq<Slot>, cur: seq<Slot>, p: nat)
  {
    |cur| == |s0| && (p < |s0| ==> InScan(s0, p)) &&
    forall k :: 0 <= k < |s0| ==> cur[k] == (if k < p then Cleared(s0)[k] else s0[k])
  }

  lemma ClearStart(s0: seq<Slot>)
    ensures ClearLoop(s0, s0, 0)
  {
    if 0 < |s0| { assert InScan(s0, 0); }
  }

  /** One step: an UNUSED slot at p becomes all-zero, and the scan jumps
      over a flat string's continuation blocks. */
  lemma ClearStep(s0: seq<Slot>, cur: seq<Slot>, p: nat)
    requires ClearLoop(s0, cur, p) && p < |s0|
    ensures cur[p] == s0[p]
    ensures ClearLoop(s0, if s0[p].Unused? then cur[p := Zero] else cur, NextPos(s0, p))
  {
    var q := NextPos(s0, p);
    forall k | p < k < q && k < |s0| ensures !InScan(s0, k) {
      InScanGap(s0, 0, p, k);
    }
    if q < |s0| {
      InScanNext(s0, 0, p);
    }
  }

  lemma ClearEnd(s0: seq<Slot>, cur: seq<Slot>, p: nat)
    requires ClearLoop(s0, cur, p) && |s0| <= p
    ensures cur == Cleared(s0)
  {
  }

  // ---------------------------------------------------------------------------
  // Free lists

  /** L is a run of UNUSED slots, each one's link naming the next. */
  predicate Linked(s: seq<Slot>, L: seq<nat>)
  {
    (forall k :: 0 <= k < |L| ==> 1 <= L[k] <= |s| && s[L[k] - 1].Unused?) &&
    (forall k :: 0 <= k < |L| - 1 ==> s[L[k] - 1].next == L[k + 1])
  }

  /** Following links from head visits exactly L and then stops at 0. */
  predicate ListIs(s: seq<Slot>, head: nat, L: seq<nat>)
  {
    Linked(s, L) &&
    head == (if L == [] then 0 else L[0]) &&
    (L != [] ==> s[L[|L| - 1] - 1].next == 0)
  }

  predicate Ascending(L: seq<nat>) { forall a, b :: 0 <= a < b < |L| ==> L[a] < L[b] }

  /** Appending a reference above every listed one keeps the order. */
  lemma AscendingAppend(L: seq<nat>, x: nat)
    requires Ascending(L) && forall y :: y in L ==> y < x
    ensures Ascending(L + [x])
  {
    var L2 := L + [x];
    forall a, b | 0 <= a < b < |L2| ensures L2[a] < L2[b] {
      assert L2[a] == L[a] && L[a] in L;
      if b < |L| { assert L2[b] == L[b]; }
    }
  }

  /** The list reachable from a head is determined by the slots. */
  lemma {:induction false} ListIsUnique(s: seq<Slot>, head: nat, L1: seq<nat>, L2: seq<nat>)
    requires ListIs(s, head, L1) && ListIs(s, head, L2)
    ensures L1 == L2
    decreases |L1|
  {
    assert L1 != [] ==> s[head - 1].next == (if |L1| > 1 then L1[1] else 0);
    assert L2 != [] ==> s[head - 1].next == (if |L2| > 1 then L2[1] else 0);
    if |L1| > 1 && |L2| > 1 {
      assert ListIs(s, L1[1], L1[1..]) && ListIs(s, L1[1], L2[1..]);
      ListIsUnique(s, L1[1], L1[1..], L2[1..]);
    }
  }

  /** A list that ends in 0 never repeats a reference. */
  lemma {:induction false} ListIsDistinct(s: seq<Slot>, head: nat, L: seq<nat>)
    requires ListIs(s, head, L)
    ensures forall a, b :: 0 <= a < b < |L| ==> L[a] != L[b]
    decreases |L|
  {
    if |L| > 1 {
      assert ListIs(s, L[1], L[1..]);
      ListIsDistinct(s, L[1], L[1..]);
      forall b | 0 < b < |L| ensures L[0] != L[b] {
        if L[0] == L[b] {
          // the suffix from b is a list from L[0], so it is all of L
          assert ListIs(s, L[0], L[b..]);
          ListIsUnique(s, L[0], L, L[b..]);
        }
      }
    }
  }

  function Elements(L: seq<nat>): set<nat> { set x | x in L }

  lemma {:induction false} DistinctCard(L: seq<nat>)
    requires forall a, b :: 0 <= a < b < |L| ==> L[a] != L[b]
    ensures |Elements(L)| == |L|
    decreases |L|
  {
    if L != [] {
      var tail := L[1..];
      DistinctCard(tail);
      var S, T := Elements(L), Elements(tail);
      forall x | x in S ensures x in T + {L[0]} {
        var j :| 0 <= j < |L| && L[j] == x;
        if j > 0 { assert tail[j - 1] == x; }
      }
      forall x | x in T + {L[0]} ensures x in S {
        if x in T { var j :| 0 <= j < |tail| && tail[j] == x; assert L[j + 1] == x; }
      }
      assert S == T + {L[0]};
      forall j | 0 <= j < |tail| ensures tail[j] != L[0] { assert L[j + 1] != L[0]; }
      assert L[0] !in T;
      assert |T| == |tail|;
      assert |T + {L[0]}| == |T| + 1;
    }
  }

  /** Any free list holding exactly the UNUSED slots a scan visits has the
      length of the list the scan builds. */
  lemma FreeListLength(s: seq<Slot>, head: nat, L: seq<nat>)
    requires ListIs(s, head, L)
    requires Elements(L) == Elements(FreeRefs(s))
    ensures |L| == |FreeRefs(s)|
  {
    ListIsDistinct(s, head, L);
    DistinctCard(L);
    FreeRefsFromSpec(s, 0);
    DistinctCard(FreeRefs(s));
  }

  /** Soft kill zeroes free slots but keeps the scan's free refs, so the
      following soft init relists exactly the same slots. */
  lemma ClearedKeepsFreeRefs(s: seq<Slot>)
    ensures FreeRefs(Cleared(s)) == FreeRefs(s)
  {
    assert SameShape(s, Cleared(s));
    FreeRefsSameShape(s, Cleared(s), 0);
  }
}
