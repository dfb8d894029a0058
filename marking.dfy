/** The pieces of the mark phase (jsvGarbageCollectMarkUsed,
    src/jsvarcache.c:324-354) stated over pool values: what one call
    achieves below the record it starts from, and how the string walk and
    the children walk add up to that. */
module Marking {
  import opened Wrappers
  import opened Slots
  import opened Scan
  import opened Graph

  /** From e to s, marking from record r cleared candidate bits only, and
      every slot it cleared is reachable from r and has no edge to a slot
      still marked. */
  ghost predicate MarkedBelow(s0: seq<Slot>, e: seq<Slot>, s: seq<Slot>, r: nat)
  {
    ClearsOnly(e, s) &&
    forall k :: NewlyUnmarked(e, s, k) ==> ClosedAt(s0, s, k + 1) && ReachFrom(s0, r, k + 1)
  }

  /** A walk that ends, seen through Chain. */
  lemma ChainFacts(s: seq<Slot>, w: Walker, c: nat)
    requires Walk(s, w, c, |s|).Some?
    ensures WalkFrom(s, w, c, Chain(s, w, c))
  {
  }

  lemma EdgeReach(s: seq<Slot>, u: nat, v: nat)
    requires Edge(s, u, v)
    ensures ReachFrom(s, u, v)
  {
    assert IsPath(s, [u, v]);
  }

  /** Marking below a child c of r is marking below r. */
  lemma MarkedBelowTrans(s0: seq<Slot>, e: seq<Slot>, s1: seq<Slot>, s2: seq<Slot>, r: nat, c: nat)
    requires MarkedBelow(s0, e, s1, r) && MarkedBelow(s0, s1, s2, c) && Edge(s0, r, c)
    ensures MarkedBelow(s0, e, s2, r)
  {
    forall k | NewlyUnmarked(e, s2, k) ensures ClosedAt(s0, s2, k + 1) && ReachFrom(s0, r, k + 1) {
      if Marked(s1, k) {
        assert NewlyUnmarked(s1, s2, k);
        ReachPrepend(s0, r, c, k + 1);
      } else {
        assert NewlyUnmarked(e, s1, k);
        ClosedAtMonotone(s0, s1, s2, k + 1);
      }
    }
  }

  /** Marking below a child c of r, from e, is marking below r. */
  lemma MarkedBelowEdge(s0: seq<Slot>, e: seq<Slot>, s: seq<Slot>, r: nat, c: nat)
    requires MarkedBelow(s0, e, s, c) && Edge(s0, r, c)
    ensures MarkedBelow(s0, e, s, r)
  {
    forall k | NewlyUnmarked(e, s, k) ensures ReachFrom(s0, r, k + 1) {
      ReachPrepend(s0, r, c, k + 1);
    }
  }

  /** Nothing was marked yet: from e to e. */
  lemma MarkedBelowNone(s0: seq<Slot>, e: seq<Slot>, r: nat)
    ensures MarkedBelow(s0, e, e, r)
  {
  }

  /** u refers to v through its single child or its children list. */
  predicate ChildEdge(s: seq<Slot>, u: nat, v: nat)
  {
    1 <= u <= |s| && s[u - 1].Used? && v != 0 &&
    var x := s[u - 1];
    ((HasSingleChild(x.kind) && v == x.firstChild) ||
     (!HasSingleChild(x.kind) && HasChildren(x.kind) && v in Chain(s, Siblings, x.firstChild)))
  }

  /** No child link of u leads to a slot still marked. */
  ghost predicate ChildrenClosed(s0: seq<Slot>, s: seq<Slot>, u: nat)
  {
    forall v: nat :: ChildEdge(s0, u, v) ==> !Marked(s, v - 1)
  }

  /** The string chain below a record with character data: every member
      is reachable from r, and every edge out of a member leads to a
      member (the chain holds only string extension blocks). */
  ghost predicate ChainClosed(s0: seq<Slot>, W: seq<nat>)
  {
    forall x, v: nat :: x in W && Edge(s0, x, v) ==> v in W
  }

  ghost predicate AllReached(s0: seq<Slot>, r: nat, W: seq<nat>)
  {
    forall x :: x in W ==> ReachFrom(s0, r, x)
  }

  lemma {:induction false} StringChainAt(s0: seq<Slot>, r: nat, W: seq<nat>, i: nat)
    requires GcGraphOk(s0) && 1 <= r <= |s0| && InScan(s0, r - 1) && s0[r - 1].Used? && HasCharacterData(s0[r - 1].kind)
    requires WalkFrom(s0, StringChain, s0[r - 1].lastChild, W) && i < |W|
    ensures InScan(s0, W[i] - 1)
    ensures PlainChars(s0[W[i] - 1])
    ensures ReachFrom(s0, r, W[i])
    ensures i + 1 < |W| ==> s0[W[i] - 1].Used? && W[i + 1] == s0[W[i] - 1].lastChild
  {
    if i == 0 {
      CharStep(s0, r, W[0]);
      EdgeReach(s0, r, W[0]);
    } else {
      StringChainAt(s0, r, W, i - 1);
      StringChainNext(s0, r, W, i);
    }
    if i + 1 < |W| {
      assert W[i + 1] == LastLink(s0[W[i] - 1]);
    }
  }

  /** One step along the string chain W below r. */
  lemma StringChainNext(s0: seq<Slot>, r: nat, W: seq<nat>, i: nat)
    requires GcGraphOk(s0) && 1 <= r <= |s0|
    requires WalkShape(s0, StringChain, W) && 0 < i < |W|
    requires InScan(s0, W[i - 1] - 1) && PlainChars(s0[W[i - 1] - 1]) && ReachFrom(s0, r, W[i - 1])
    ensures InScan(s0, W[i] - 1) && PlainChars(s0[W[i] - 1]) && ReachFrom(s0, r, W[i])
  {
    var p := W[i - 1];
    assert W[i] == LastLink(s0[p - 1]);
    CharStep(s0, p, W[i]);
    ReachStep(s0, r, p, W[i]);
  }

  /** The lastChild q of a visited record with character data is a
      visited string extension block, and an edge. */
  lemma CharStep(s0: seq<Slot>, p: nat, q: nat)
    requires GcGraphOk(s0) && 1 <= p <= |s0| && InScan(s0, p - 1) && s0[p - 1].Used? && HasCharacterData(s0[p - 1].kind)
    requires q == s0[p - 1].lastChild && q != 0
    ensures 1 <= q <= |s0| && InScan(s0, q - 1) && PlainChars(s0[q - 1]) && Edge(s0, p, q)
  {
    CharChainAt(s0, p - 1);
    assert Edge(s0, p, q);
    EdgeInScan(s0, p, q);
  }

  /** The chain jsvGarbageCollectMarkUsed walks through lastChild from a
      record with character data is closed and reached from that record. */
  lemma StringChainFacts(s0: seq<Slot>, r: nat)
    requires GcGraphOk(s0) && 1 <= r <= |s0| && InScan(s0, r - 1) && s0[r - 1].Used? && HasCharacterData(s0[r - 1].kind)
    ensures s0[r - 1].lastChild <= |s0|
    ensures var W := Chain(s0, StringChain, s0[r - 1].lastChild);
      WalkFrom(s0, StringChain, s0[r - 1].lastChild, W) &&
      ChainClosed(s0, W) && AllReached(s0, r, W) && (s0[r - 1].lastChild != 0 ==> s0[r - 1].lastChild in W)
  {
    var c := s0[r - 1].lastChild;
    ChainFacts(s0, StringChain, c);
    var W := Chain(s0, StringChain, c);
    StringChainReached(s0, r, W);
    StringChainClosed(s0, r, W);
  }

  lemma StringChainReached(s0: seq<Slot>, r: nat, W: seq<nat>)
    requires GcGraphOk(s0) && 1 <= r <= |s0| && InScan(s0, r - 1) && s0[r - 1].Used? && HasCharacterData(s0[r - 1].kind)
    requires WalkFrom(s0, StringChain, s0[r - 1].lastChild, W)
    ensures AllReached(s0, r, W)
  {
    forall x | x in W ensures ReachFrom(s0, r, x) {
      var i :| 0 <= i < |W| && W[i] == x;
      StringChainAt(s0, r, W, i);
    }
  }

  lemma StringChainClosed(s0: seq<Slot>, r: nat, W: seq<nat>)
    requires GcGraphOk(s0) && 1 <= r <= |s0| && InScan(s0, r - 1) && s0[r - 1].Used? && HasCharacterData(s0[r - 1].kind)
    requires WalkFrom(s0, StringChain, s0[r - 1].lastChild, W)
    ensures ChainClosed(s0, W)
  {
    forall x, v: nat | x in W && Edge(s0, x, v) ensures v in W {
      var i :| 0 <= i < |W| && W[i] == x;
      StringChainAt(s0, r, W, i);
      PlainEdge(s0, x, v);
      if i + 1 < |W| {
        assert v == W[i + 1];
      } else {
        assert false;
      }
    }
  }

  /** The only edge out of a string extension block is its lastChild. */
  lemma PlainEdge(s0: seq<Slot>, x: nat, v: nat)
    requires 1 <= x <= |s0| && PlainChars(s0[x - 1]) && Edge(s0, x, v)
    ensures v == LastLink(s0[x - 1]) && v != 0
  {
  }

  /** One call of jsvGarbageCollectMarkUsed on r: clearing r (e to s1),
      then the string chain W (s1 to s2), then the children (s2 to s3). */
  lemma MarkUsedDone(s0: seq<Slot>, e: seq<Slot>, s1: seq<Slot>, s2: seq<Slot>, s3: seq<Slot>,
                     r: nat, W: seq<nat>)
    requires 1 <= r <= |e| == |s0| && s1 == e[r - 1 := Unmark(e[r - 1])]
    requires ClearsOnly(s1, s2) && (forall k :: NewlyUnmarked(s1, s2, k) ==> k + 1 in W)
    requires forall x :: x in W ==> !Marked(s2, x - 1)
    requires ChainClosed(s0, W) && AllReached(s0, r, W)
    requires s0[r - 1].Used? && HasCharacterData(s0[r - 1].kind) && s0[r - 1].lastChild != 0 ==> s0[r - 1].lastChild in W
    requires MarkedBelow(s0, s2, s3, r) && ChildrenClosed(s0, s3, r)
    ensures MarkedBelow(s0, e, s3, r) && ClosedAt(s0, s3, r)
  {
    assert ClearsOnly(e, s1);
    ClearsOnlyTrans(e, s1, s2);
    ClearsOnlyTrans(e, s2, s3);
    forall v: nat | Edge(s0, r, v) ensures !Marked(s3, v - 1) {
      if !ChildEdge(s0, r, v) {
        assert v in W;
        assert !Marked(s2, v - 1);
      }
    }
    forall k | NewlyUnmarked(e, s3, k) ensures ClosedAt(s0, s3, k + 1) && ReachFrom(s0, r, k + 1) {
      if Marked(s2, k) {
        assert NewlyUnmarked(s2, s3, k);
      } else if k == r - 1 {
        ReachSelf(s0, r);
      } else {
        assert NewlyUnmarked(s1, s2, k);
        assert k + 1 in W;
        assert ClosedAt(s0, s2, k + 1);
        ClosedAtMonotone(s0, s2, s3, k + 1);
      }
    }
  }

  // ---------------------------------------------------------------------------
  // Loop steps

  /** The state of the string loop after j steps along W from e. */
  ghost predicate StringLoop(s0: seq<Slot>, e: seq<Slot>, cur: seq<Slot>, W: seq<nat>, j: nat)
  {
    j <= |W| && SameUpToMarks(s0, cur) && ClearsOnly(e, cur) &&
    (forall i :: 0 <= i < j ==> !Marked(cur, W[i] as int - 1)) &&
    (forall k :: NewlyUnmarked(e, cur, k) ==> k + 1 in W)
  }

  lemma StringLoopStart(s0: seq<Slot>, e: seq<Slot>, W: seq<nat>)
    requires SameUpToMarks(s0, e)
    ensures StringLoop(s0, e, e, W, 0)
  {
  }

  /** One step of the string loop: the slot of W[j] is cleared, and the
      walk goes on to its lastChild. */
  lemma StringLoopStep(s0: seq<Slot>, e: seq<Slot>, cur: seq<Slot>, W: seq<nat>, j: nat)
    requires WalkShape(s0, StringChain, W)
    requires StringLoop(s0, e, cur, W, j) && j < |W|
    ensures 1 <= W[j] <= |cur|
    ensures StringLoop(s0, e, cur[W[j] - 1 := Unmark(cur[W[j] - 1])], W, j + 1)
    ensures LastLink(cur[W[j] - 1]) == if j + 1 < |W| then W[j + 1] else 0
  {
    var x := W[j];
    SameUpToMarkLinks(s0[x - 1], cur[x - 1]);
    UnmarkOne(s0, e, cur, x - 1);
    var nxt := cur[x - 1 := Unmark(cur[x - 1])];
    assert x in W;
    forall k | NewlyUnmarked(e, nxt, k) ensures k + 1 in W {
      if k != x - 1 {
        assert NewlyUnmarked(e, cur, k);
      }
    }
  }

  /** Clearing one more bit keeps the records and only clears. */
  lemma UnmarkOne(s0: seq<Slot>, e: seq<Slot>, cur: seq<Slot>, k: nat)
    requires SameUpToMarks(s0, cur) && ClearsOnly(e, cur) && k < |cur|
    ensures SameUpToMarks(s0, cur[k := Unmark(cur[k])])
    ensures ClearsOnly(e, cur[k := Unmark(cur[k])])
  {
    var nxt := cur[k := Unmark(cur[k])];
    forall i | 0 <= i < |s0| ensures SameUpToMark(s0[i], nxt[i]) {
      assert SameUpToMark(s0[i], cur[i]);
    }
    forall i | 0 <= i < |e| ensures nxt[i] == e[i] || nxt[i] == Unmark(e[i]) {
      assert cur[i] == e[i] || cur[i] == Unmark(e[i]);
    }
  }

  /** After the string loop every slot of W is clear and nothing else
      was cleared. */
  lemma StringLoopEnd(s0: seq<Slot>, e: seq<Slot>, cur: seq<Slot>, W: seq<nat>)
    requires StringLoop(s0, e, cur, W, |W|)
    ensures SameUpToMarks(s0, cur) && ClearsOnly(e, cur)
    ensures forall x :: x in W ==> !Marked(cur, x - 1)
    ensures forall k :: NewlyUnmarked(e, cur, k) ==> k + 1 in W
  {
    forall x | x in W ensures !Marked(cur, x - 1) {
      var i :| 0 <= i < |W| && W[i] == x;
    }
  }

  /** The state of the children loop of r after j steps along C from e. */
  ghost predicate ChildLoop(s0: seq<Slot>, e: seq<Slot>, cur: seq<Slot>, r: nat, C: seq<nat>, j: nat)
  {
    j <= |C| && SameUpToMarks(s0, cur) && MarkedBelow(s0, e, cur, r) &&
    (forall i :: 0 <= i < j ==> !Marked(cur, C[i] as int - 1))
  }

  lemma ChildLoopStart(s0: seq<Slot>, e: seq<Slot>, r: nat, C: seq<nat>)
    requires SameUpToMarks(s0, e)
    ensures ChildLoop(s0, e, e, r, C, 0)
  {
  }

  /** A child whose bit is already clear is passed over; one whose bit is
      set is marked below (cur to nxt). */
  lemma ChildLoopStep(s0: seq<Slot>, e: seq<Slot>, cur: seq<Slot>, nxt: seq<Slot>, r: nat, C: seq<nat>, j: nat)
    requires ChildLoop(s0, e, cur, r, C, j) && j < |C| && Edge(s0, r, C[j])
    requires nxt == cur || (SameUpToMarks(s0, nxt) && MarkedBelow(s0, cur, nxt, C[j]))
    requires !Marked(nxt, C[j] - 1)
    ensures ChildLoop(s0, e, nxt, r, C, j + 1)
  {
    if nxt != cur {
      MarkedBelowTrans(s0, e, cur, nxt, r, C[j]);
    }
  }

  lemma ChildLoopEnd(s0: seq<Slot>, e: seq<Slot>, cur: seq<Slot>, r: nat, C: seq<nat>)
    requires ChildLoop(s0, e, cur, r, C, |C|)
    ensures SameUpToMarks(s0, cur) && MarkedBelow(s0, e, cur, r)
    ensures forall x :: x in C ==> !Marked(cur, x - 1)
  {
    forall x | x in C ensures !Marked(cur, x - 1) {
      var i :| 0 <= i < |C| && C[i] == x;
    }
  }

  /** The walk over the children of r. */
  lemma ChildEdges(s0: seq<Slot>, r: nat, C: seq<nat>, j: nat)
    requires GcGraphOk(s0) && 1 <= r <= |s0| && InScan(s0, r - 1) && s0[r - 1].Used?
    requires !HasSingleChild(s0[r - 1].kind) && HasChildren(s0[r - 1].kind)
    requires C == Chain(s0, Siblings, s0[r - 1].firstChild) && j < |C|
    ensures Edge(s0, r, C[j]) && 1 <= C[j] <= |s0| && InScan(s0, C[j] - 1)
    ensures NextLink(s0[C[j] - 1]) == if j + 1 < |C| then C[j + 1] else 0
  {
    var fc := s0[r - 1].firstChild;
    assert fc <= |s0| by { assert LinksInRange(s0); }
    ChainFacts(s0, Siblings, fc);
    var x := C[j];
    assert x in C;
    assert Edge(s0, r, x);
    EdgeInScan(s0, r, x);
    WalkNext(s0, Siblings, C, j);
  }

  lemma EdgeInScan(s: seq<Slot>, u: nat, v: nat)
    requires LinksInScan(s) && Edge(s, u, v) && InScan(s, u - 1)
    ensures 1 <= v <= |s| && InScan(s, v - 1)
  {
  }

  /** The slot after the j-th of a walk is where its link leads. */
  lemma WalkNext(s: seq<Slot>, w: Walker, W: seq<nat>, j: nat)
    requires WalkShape(s, w, W) && j < |W|
    ensures 1 <= W[j] <= |s| && Follow(s[W[j] - 1], w) == if j + 1 < |W| then W[j + 1] else 0
  {
    if j + 1 < |W| {
      assert W[j + 1] == Follow(s[W[j] - 1], w);
    }
  }
}
