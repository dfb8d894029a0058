/** Threading a free list through the pool with a trailing cursor, as
    jsvCreateEmptyVarList (src/jsvarcache.c:129-151) and the sweep of
    jsvGarbageCollect (src/jsvarcache.c:386-458) do: a temporary record
    stands before the first listed slot, lastEmpty names the slot listed
    last (0 for the temporary record), and each newly listed slot is linked
    from lastEmpty. */
module Threading {
  import opened Slots
  import opened Scan

  /** Link the slot after lastEmpty to x: the temporary record's link when
      lastEmpty is 0 (kept by the caller), otherwise lastEmpty's own. */
  function Link(cur: seq<Slot>, lastEmpty: nat, x: nat): (r: seq<Slot>)
    requires lastEmpty <= |cur|
    ensures |r| == |cur|
  {
    if lastEmpty == 0 then cur else cur[lastEmpty - 1 := SetNext(cur[lastEmpty - 1], x)]
  }

  /** Every slot not listed in L is the base's. */
  predicate Kept(cur: seq<Slot>, base: seq<Slot>, L: seq<nat>)
    requires |cur| == |base|
  {
    forall k :: 0 <= k < |base| && k + 1 !in L ==> cur[k] == base[k]
  }

  /** Every listed reference names an UNUSED slot. */
  predicate Listed(cur: seq<Slot>, L: seq<nat>)
  {
    forall j :: 0 <= j < |L| ==> 1 <= L[j] <= |cur| && cur[L[j] - 1].Unused?
  }

  /** Each listed slot but the last links to the next one listed. */
  predicate Chained(cur: seq<Slot>, L: seq<nat>)
    requires Listed(cur, L)
  {
    forall j, k {:trigger L[j], L[k]} :: 0 <= j < |L| && k == j + 1 && k < |L| ==> cur[L[j] - 1].next == L[k]
  }

  /** cur is base with the slots of L threaded, in ascending order, from head, except
      that the link of the last listed slot is not yet finished. */
  predicate Threaded(cur: seq<Slot>, base: seq<Slot>, L: seq<nat>, head: nat, lastEmpty: nat)
  {
    |cur| == |base| && Ascending(L) && Kept(cur, base, L) && Listed(cur, L) && Chained(cur, L) &&
    head == (if L == [] then 0 else L[0]) &&
    lastEmpty == (if L == [] then 0 else L[|L| - 1])
  }

  /** Nothing listed yet. */
  lemma ThreadedStart(s: seq<Slot>)
    ensures Threaded(s, s, [], 0, 0)
  {
  }

  /** Listing one more slot x, after it was made UNUSED, keeps the threading;
      the base may change at x, which is listed from now on. */
  lemma ThreadedAppend(cur: seq<Slot>, base: seq<Slot>, L: seq<nat>, head: nat, lastEmpty: nat,
                       x: nat, u: Slot, base2: seq<Slot>)
    requires Threaded(cur, base, L, head, lastEmpty)
    requires 1 <= x <= |cur| && (forall y :: y in L ==> y < x) && u.Unused?
    requires |base2| == |base| && forall k :: 0 <= k < |base| && k != x - 1 ==> base2[k] == base[k]
    ensures lastEmpty <= |cur|
    ensures Threaded(Link(cur[x - 1 := u], lastEmpty, x), base2, L + [x],
                     if lastEmpty == 0 then x else head, x)
  {
    var c2 := Link(cur[x - 1 := u], lastEmpty, x);
    AscendingAppend(L, x);
    if lastEmpty != 0 { assert lastEmpty in L; }
    AppendKept(cur, base, L, lastEmpty, x, u, base2);
    AppendListed(cur, L, lastEmpty, x, u);
    AppendChained(cur, L, lastEmpty, x, u);
  }

  lemma AppendKept(cur: seq<Slot>, base: seq<Slot>, L: seq<nat>, lastEmpty: nat, x: nat, u: Slot, base2: seq<Slot>)
    requires |cur| == |base| && Kept(cur, base, L) && 1 <= x <= |cur| && lastEmpty <= |cur|
    requires lastEmpty == 0 || lastEmpty in L
    requires |base2| == |base| && forall k :: 0 <= k < |base| && k != x - 1 ==> base2[k] == base[k]
    ensures Kept(Link(cur[x - 1 := u], lastEmpty, x), base2, L + [x])
  {
    var c2 := Link(cur[x - 1 := u], lastEmpty, x);
    forall k | 0 <= k < |base2| && k + 1 !in L + [x] ensures c2[k] == base2[k] {
      assert k + 1 != x && k + 1 !in L;
    }
  }

  lemma AppendListed(cur: seq<Slot>, L: seq<nat>, lastEmpty: nat, x: nat, u: Slot)
    requires Listed(cur, L) && 1 <= x <= |cur| && lastEmpty <= |cur| && u.Unused?
    requires lastEmpty == 0 || lastEmpty in L
    ensures Listed(Link(cur[x - 1 := u], lastEmpty, x), L + [x])
  {
    var c2 := Link(cur[x - 1 := u], lastEmpty, x);
    var L2 := L + [x];
    forall j | 0 <= j < |L2| ensures 1 <= L2[j] <= |c2| && c2[L2[j] - 1].Unused? {
      if j < |L| { assert L2[j] == L[j]; }
    }
  }

  lemma AppendChained(cur: seq<Slot>, L: seq<nat>, lastEmpty: nat, x: nat, u: Slot)
    requires Listed(cur, L) && Chained(cur, L) && Ascending(L) && 1 <= x <= |cur| && u.Unused?
    requires (forall y :: y in L ==> y < x) && lastEmpty == (if L == [] then 0 else L[|L| - 1])
    requires Listed(Link(cur[x - 1 := u], lastEmpty, x), L + [x])
    ensures Chained(Link(cur[x - 1 := u], lastEmpty, x), L + [x])
  {
    var c1 := cur[x - 1 := u];
    var c2 := Link(c1, lastEmpty, x);
    var L2 := L + [x];
    forall j, k | 0 <= j < |L2| && k == j + 1 && k < |L2| ensures c2[L2[j] - 1].next == L2[k] {
      var y := L[j];
      assert L2[j] == y && y in L;
      if k < |L| {
        assert L2[k] == L[k] && y < L[|L| - 1];
        assert c2[y - 1] == cur[y - 1];
      }
    }
  }

  /** Closing the list: the last listed slot links to 0. */
  function Finish(cur: seq<Slot>, lastEmpty: nat): (r: seq<Slot>)
    requires lastEmpty <= |cur|
    ensures |r| == |cur|
  {
    Link(cur, lastEmpty, 0)
  }

  lemma ThreadedFinish(cur: seq<Slot>, base: seq<Slot>, L: seq<nat>, head: nat, lastEmpty: nat)
    requires Threaded(cur, base, L, head, lastEmpty)
    ensures lastEmpty <= |cur|
    ensures ListIs(Finish(cur, lastEmpty), head, L)
    ensures forall k :: 0 <= k < |base| && k + 1 !in L ==> Finish(cur, lastEmpty)[k] == base[k]
  {
  }

  /** One step of a scan that lists the UNUSED slots it visits. */
  lemma FreeRefsStep(s: seq<Slot>, L: seq<nat>, p: nat)
    requires p < |s| && L + FreeRefsFrom(s, p) == FreeRefs(s)
    ensures (L + (if s[p].Unused? then [p + 1] else [])) + FreeRefsFrom(s, NextPos(s, p)) == FreeRefs(s)
  {
    var A: seq<nat> := if s[p].Unused? then [p + 1] else [];
    var B := FreeRefsFrom(s, NextPos(s, p));
    assert FreeRefsFrom(s, p) == A + B;
    Assoc(L, A, B);
  }

  /** The scan of jsvCreateEmptyVarList reached position k of s: the slots
      listed so far are the scan's free refs before k, threaded in order. */
  ghost predicate Scanned(s: seq<Slot>, cur: seq<Slot>, L: seq<nat>, head: nat, lastEmpty: nat, k: nat)
  {
    Threaded(cur, s, L, head, lastEmpty) && L + FreeRefsFrom(s, k) == FreeRefs(s) &&
    (forall y :: y in L ==> y <= k)
  }

  lemma ScannedStart(s: seq<Slot>)
    ensures Scanned(s, s, [], 0, 0, 0)
  {
    assert [] + FreeRefs(s) == FreeRefs(s);
  }

  lemma ScannedHere(s: seq<Slot>, cur: seq<Slot>, L: seq<nat>, head: nat, lastEmpty: nat, p: nat)
    requires Scanned(s, cur, L, head, lastEmpty, p) && p < |s|
    ensures cur[p] == s[p] && |cur| == |s|
  {
    assert p + 1 !in L;
  }

  /** Listing the UNUSED slot at position p. */
  lemma ScannedList(s: seq<Slot>, cur: seq<Slot>, L: seq<nat>, head: nat, lastEmpty: nat, p: nat, x: nat,
                    cur2: seq<Slot>, head2: nat)
    requires Scanned(s, cur, L, head, lastEmpty, p) && x == p + 1 <= |s| && s[p].Unused?
    requires Threaded(cur2, s, L + [x], head2, x)
    ensures x == NextPos(s, p) && Scanned(s, cur2, L + [x], head2, x, x)
  {
    FreeRefsStep(s, L, p);
  }

  /** Passing the occupied slot at position p. */
  lemma ScannedKeep(s: seq<Slot>, cur: seq<Slot>, L: seq<nat>, head: nat, lastEmpty: nat, p: nat, q: nat)
    requires Scanned(s, cur, L, head, lastEmpty, p) && p < |s| && s[p].Used? && q == NextPos(s, p)
    ensures Scanned(s, cur, L, head, lastEmpty, q)
  {
    FreeRefsStep(s, L, p);
    assert L + [] == L;
  }

  lemma ScannedEnd(s: seq<Slot>, cur: seq<Slot>, L: seq<nat>, head: nat, lastEmpty: nat, k: nat)
    requires Scanned(s, cur, L, head, lastEmpty, k) && |s| <= k
    ensures Threaded(cur, s, L, head, lastEmpty) && L == FreeRefs(s)
  {
    assert L + [] == L;
  }
}
