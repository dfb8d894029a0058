/** The first two loops of jsvGarbageCollect (src/jsvarcache.c:357-381),
    stated over pool values: the tag loop gives every visited occupied
    record the candidate bit, and the root loop calls the mark phase on
    every visited locked record that still has it. */
module Collect {
  import opened Slots
  import opened Scan
  import opened Graph
  import opened Marking

  /** The tag loop reached position p of a scan of s0: the slots before p
      are tagged, the others untouched. */
  predicate TagLoop(s0: seq<Slot>, cur: seq<Slot>, p: nat)
  {
    |cur| == |s0| && (p < |s0| ==> InScan(s0, p)) &&
    forall k :: 0 <= k < |s0| ==> cur[k] == (if k < p then Tag(s0)[k] else s0[k])
  }

  lemma TagStart(s0: seq<Slot>)
    ensures TagLoop(s0, s0, 0)
  {
    if 0 < |s0| { assert InScan(s0, 0); }
  }

  /** One step: the slot at p gets the bit (a no-op on an UNUSED slot), and
      the scan jumps over a flat string's continuation blocks. */
  lemma TagStep(s0: seq<Slot>, cur: seq<Slot>, p: nat)
    requires TagLoop(s0, cur, p) && p < |s0|
    ensures cur[p] == s0[p]
    ensures TagLoop(s0, cur[p := Mark(cur[p])], NextPos(s0, p))
  {
    var q := NextPos(s0, p);
    forall k | p < k < q && k < |s0| ensures !InScan(s0, k) {
      InScanGap(s0, 0, p, k);
    }
    if q < |s0| {
      InScanNext(s0, 0, p);
    }
  }

  lemma TagEnd(s0: seq<Slot>, cur: seq<Slot>, p: nat)
    requires TagLoop(s0, cur, p) && |s0| <= p
    ensures cur == Tag(s0)
  {
  }

  /** The root loop reached position p of a scan of s0: only candidate
      bits were cleared since tagging, every root before p is cleared, and
      every slot cleared is reachable from a root and has no edge to a
      slot still marked. */
  ghost predicate RootLoop(s0: seq<Slot>, cur: seq<Slot>, p: nat)
  {
    (p < |s0| ==> InScan(s0, p)) && SameUpToMarks(s0, cur) && ClearsOnly(Tag(s0), cur) &&
    (forall u: nat :: IsRoot(s0, u) && u <= p ==> !Marked(cur, u - 1)) &&
    (forall k :: NewlyUnmarked(Tag(s0), cur, k) ==> ClosedAt(s0, cur, k + 1) && Reachable(s0, k + 1))
  }

  lemma RootStart(s0: seq<Slot>)
    ensures RootLoop(s0, Tag(s0), 0)
  {
    forall k | 0 <= k < |s0| ensures SameUpToMark(s0[k], Tag(s0)[k]) {
      TagMarks(s0, k);
    }
    if 0 < |s0| { assert InScan(s0, 0); }
  }

  /** One step at position p: either the slot is not a marked locked
      record and nothing changes (nxt == cur), or the mark phase ran from
      it (cur to nxt). */
  lemma RootStep(s0: seq<Slot>, cur: seq<Slot>, nxt: seq<Slot>, p: nat)
    requires RootLoop(s0, cur, p) && p < |s0|
    requires if IsMarked(cur[p]) && Locks(cur[p]) > 0
             then SameUpToMarks(s0, nxt) && MarkedBelow(s0, cur, nxt, p + 1) && !Marked(nxt, p)
             else nxt == cur
    ensures RootLoop(s0, nxt, NextPos(s0, p))
  {
    var q := NextPos(s0, p);
    SameUpToMarkLinks(s0[p], cur[p]);
    var fired := IsMarked(cur[p]) && Locks(cur[p]) > 0;
    if fired {
      assert IsRoot(s0, p + 1);
      ClearsOnlyTrans(Tag(s0), cur, nxt);
    }
    forall u: nat | IsRoot(s0, u) && u <= q ensures !Marked(nxt, u - 1) {
      if p + 1 < u {
        InScanGap(s0, 0, p, u - 1);
      }
    }
    forall k | NewlyUnmarked(Tag(s0), nxt, k) ensures ClosedAt(s0, nxt, k + 1) && Reachable(s0, k + 1) {
      if Marked(cur, k) {
        assert NewlyUnmarked(cur, nxt, k);
        assert IsRoot(s0, p + 1) && ReachFrom(s0, p + 1, k + 1);
      } else {
        assert NewlyUnmarked(Tag(s0), cur, k);
        if fired {
          ClosedAtMonotone(s0, cur, nxt, k + 1);
        }
      }
    }
    if q < |s0| {
      InScanNext(s0, 0, p);
    }
  }

  lemma RootEnd(s0: seq<Slot>, cur: seq<Slot>, p: nat)
    requires RootLoop(s0, cur, p) && |s0| <= p
    ensures MarkResult(s0, cur)
  {
  }
}
