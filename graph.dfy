/** The record graph the garbage collector traverses, and what its mark
    phase (src/jsvarcache.c:324-380) must achieve.

    Links are read from the pool as it was when the collection started
    (s0); marking changes only candidate bits, so the links never change
    while the mark phase runs. */
module Graph {
  import opened Wrappers
  import opened Slots
  import opened Scan

  /** Which link a walk follows. */
  datatype Walker = Siblings | StringChain

  function Follow(x: Slot, w: Walker): nat
  {
    match w
    case Siblings => NextLink(x)
    case StringChain => LastLink(x)
  }

  /** W follows w from its first element, inside the pool, and stops at a
      link that is 0. */
  ghost predicate WalkShape(s: seq<Slot>, w: Walker, W: seq<nat>)
  {
    (forall j :: 0 <= j < |W| ==> 1 <= W[j] <= |s|) &&
    (forall j, k {:trigger W[j], W[k]} :: 0 <= j && k == j + 1 && k < |W| ==> W[k] == Follow(s[W[j] - 1], w)) &&
    (W != [] ==> Follow(s[W[|W| - 1] - 1], w) == 0)
  }

  /** W is the walk that starts at c. */
  ghost predicate WalkFrom(s: seq<Slot>, w: Walker, c: nat, W: seq<nat>)
  {
    (W == [] <==> c == 0) && (W != [] ==> W[0] == c) && WalkShape(s, w, W)
  }

  /** The references a walk visits from c until it reaches 0, if that
      happens within fuel steps and every link stays inside the pool. */
  function Walk(s: seq<Slot>, w: Walker, c: nat, fuel: nat): (r: Option<seq<nat>>)
    ensures r.Some? ==> WalkFrom(s, w, c, r.value) && |r.value| <= fuel
    decreases fuel
  {
    if c == 0 then Some([])
    else if fuel == 0 || c > |s| then None
    else match Walk(s, w, Follow(s[c - 1], w), fuel - 1)
      case None => None
      case Some(rest) => Some([c] + rest)
  }

  /** More fuel never changes a walk that already ended. */
  lemma {:induction false} WalkMoreFuel(s: seq<Slot>, w: Walker, c: nat, fuel: nat, more: nat)
    requires Walk(s, w, c, fuel).Some? && fuel <= more
    ensures Walk(s, w, c, more) == Walk(s, w, c, fuel)
    decreases fuel
  {
    if c != 0 { WalkMoreFuel(s, w, Follow(s[c - 1], w), fuel - 1, more - 1); }
  }

  /** The walks the mark phase starts from a record it visits end: the
      string chain from lastChild of a record with character data, and the
      children list from firstChild of a record with children. Slots the
      scan skips (flat-string bodies) and links it never follows are not
      constrained. */
  predicate WalksEnd(s: seq<Slot>)
  {
    forall k {:trigger InScan(s, k)} :: 0 <= k < |s| && InScan(s, k) && s[k].Used? ==>
      (HasCharacterData(s[k].kind) ==> Walk(s, StringChain, s[k].lastChild, |s|).Some?) &&
      (!HasSingleChild(s[k].kind) && HasChildren(s[k].kind) ==> Walk(s, Siblings, s[k].firstChild, |s|).Some?)
  }

  /** The whole walk from c (empty when it does not end). */
  function Chain(s: seq<Slot>, w: Walker, c: nat): seq<nat>
  {
    match Walk(s, w, c, |s|)
    case None => []
    case Some(v) => v
  }

  /** One step of a walk that ends. */
  lemma ChainStep(s: seq<Slot>, w: Walker, c: nat)
    requires Walk(s, w, c, |s|).Some? && c != 0
    ensures 1 <= c <= |s|
    ensures Chain(s, w, c) == [c] + Chain(s, w, Follow(s[c - 1], w))
    ensures Walk(s, w, Follow(s[c - 1], w), |s|).Some?
  {
    var n := Follow(s[c - 1], w);
    WalkMoreFuel(s, w, n, |s| - 1, |s|);
  }

  /** Two pools agreeing on the links of a whole chain have that chain. */
  lemma {:induction false} WalkSame(s: seq<Slot>, t: seq<Slot>, w: Walker, c: nat, fuel: nat, W: seq<nat>)
    requires |s| == |t| && Walk(s, w, c, fuel) == Some(W)
    requires forall x :: x in W ==> 1 <= x <= |s| && Follow(s[x - 1], w) == Follow(t[x - 1], w)
    ensures Walk(t, w, c, fuel) == Some(W)
    decreases fuel
  {
    if c != 0 {
      var n := Follow(s[c - 1], w);
      var rest := WalkHead(s, w, c, fuel);
      assert W == [c] + rest;
      assert Follow(t[c - 1], w) == n;
      WalkSame(s, t, w, n, fuel - 1, rest);
    }
  }

  /** The same for a walk that ends within the pool's size. */
  lemma ChainSame(s: seq<Slot>, t: seq<Slot>, w: Walker, c: nat)
    requires |s| == |t| && Walk(s, w, c, |s|).Some?
    requires forall x :: x in Chain(s, w, c) ==> 1 <= x <= |s| && Follow(s[x - 1], w) == Follow(t[x - 1], w)
    ensures Chain(t, w, c) == Chain(s, w, c)
  {
    WalkSame(s, t, w, c, |s|, Chain(s, w, c));
  }

  /** The first step of a walk that ends. */
  lemma WalkHead(s: seq<Slot>, w: Walker, c: nat, fuel: nat) returns (rest: seq<nat>)
    requires c != 0 && Walk(s, w, c, fuel).Some?
    ensures fuel > 0 && c <= |s| && Walk(s, w, Follow(s[c - 1], w), fuel - 1) == Some(rest)
    ensures Walk(s, w, c, fuel).value == [c] + rest && c in Walk(s, w, c, fuel).value
    ensures forall x :: x in rest ==> x in Walk(s, w, c, fuel).value
  {
    rest := Walk(s, w, Follow(s[c - 1], w), fuel - 1).value;
  }

  /** u refers to v through a link the mark phase follows from an occupied
      record u: the string chain of a record with character data, the
      single child, or any member of the children list. */
  predicate Edge(s: seq<Slot>, u: nat, v: nat)
  {
    1 <= u <= |s| && s[u - 1].Used? && v != 0 &&
    var x := s[u - 1];
    ((HasCharacterData(x.kind) && v == x.lastChild) ||
     (HasSingleChild(x.kind) && v == x.firstChild) ||
     (!HasSingleChild(x.kind) && HasChildren(x.kind) && v in Chain(s, Siblings, x.firstChild)))
  }

  /** A path of edges. */
  predicate IsPath(s: seq<Slot>, p: seq<nat>)
  {
    |p| > 0 && forall i :: 0 <= i < |p| - 1 ==> Edge(s, p[i], p[i + 1])
  }

  ghost predicate ReachFrom(s: seq<Slot>, u: nat, v: nat)
  {
    exists p :: IsPath(s, p) && p[0] == u && p[|p| - 1] == v
  }

  /** A root: an occupied slot the scan visits whose lock count is not 0. */
  predicate IsRoot(s: seq<Slot>, u: nat)
  {
    1 <= u <= |s| && InScan(s, u - 1) && s[u - 1].Used? && s[u - 1].locks > 0
  }

  ghost predicate Reachable(s: seq<Slot>, v: nat)
  {
    exists u :: IsRoot(s, u) && ReachFrom(s, u, v)
  }

  /** A string chain from a record with character data passes only
      through occupied records that hold characters and have no children
      (string extension blocks). The string loop of the mark phase reads
      lastChild without testing the record's type, so a chain that reached
      a freed record would follow its stale field: such pools are excluded. */
  predicate PlainChars(x: Slot)
  {
    x.Used? && HasCharacterData(x.kind) && !HasSingleChild(x.kind) && !HasChildren(x.kind)
  }

  predicate CharChainsOk(s: seq<Slot>)
  {
    forall k {:trigger InScan(s, k)} :: 0 <= k < |s| && InScan(s, k) && s[k].Used? && HasCharacterData(s[k].kind) && s[k].lastChild != 0 ==>
      s[k].lastChild <= |s| && PlainChars(s[s[k].lastChild - 1])
  }

  /** CharChainsOk at one visited record. */
  lemma CharChainAt(s: seq<Slot>, k: nat)
    requires CharChainsOk(s) && k < |s| && InScan(s, k) && s[k].Used? && HasCharacterData(s[k].kind) && s[k].lastChild != 0
    ensures s[k].lastChild <= |s| && PlainChars(s[s[k].lastChild - 1])
  {
  }

  /** Every edge out of a visited slot leads to a visited slot: no record
      refers into the body of a flat string. */
  ghost predicate LinksInScan(s: seq<Slot>)
  {
    forall u: nat, v: nat :: Edge(s, u, v) && InScan(s, u - 1) ==> v <= |s| && InScan(s, v - 1)
  }

  /** The links of x that the collector follows name a slot of a pool of
      n slots, or 0: firstChild of a record with a single child or with
      children, lastChild of a record with character data. */
  predicate FollowedInRange(x: Slot, n: nat)
  {
    x.Used? ==>
      ((HasSingleChild(x.kind) || HasChildren(x.kind)) ==> x.firstChild <= n) &&
      (HasCharacterData(x.kind) ==> x.lastChild <= n)
  }

  /** The followed links of every visited record stay inside the pool. */
  predicate LinksInRange(s: seq<Slot>)
  {
    forall k: nat {:trigger InScan(s, k)} :: k < |s| && InScan(s, k) ==> FollowedInRange(s[k], |s|)
  }

  /** What the garbage collector demands of the record graph. */
  ghost predicate GcGraphOk(s: seq<Slot>)
  {
    WalksEnd(s) && CharChainsOk(s) && LinksInScan(s) && LinksInRange(s)
  }

  /** The body of a flat string is raw bytes the scan never visits: a
      locked one-block flat string whose body reads as a string record
      looping on itself is a pool the collector accepts. */
  lemma FlatBodyUnconstrained()
    ensures var s := [Used(FlatStr, 1, 0, 0, 0, 0, 1, false), Used(Str, 0, 0, 2, 2, 0, 0, true)];
      Fits(s) && !InScan(s, 1) && GcGraphOk(s)
  {
    var s := [Used(FlatStr, 1, 0, 0, 0, 0, 1, false), Used(Str, 0, 0, 2, 2, 0, 0, true)];
    assert NextPos(s, 0) == 2;
    assert Fits(s);
    forall k: nat | k < |s| ensures InScan(s, k) <==> k == 0 {
      assert InScanFrom(s, 0, k) <==> k == 0;
    }
    assert WalksEnd(s) && CharChainsOk(s) && LinksInRange(s);
  }

  /** Links the mark phase never follows are not constrained: a locked
      string record whose nextSibling and firstChild hold values outside
      the pool is a pool the collector accepts. */
  lemma UnfollowedLinksUnconstrained()
    ensures GcGraphOk([Used(Str, 1, 9, 0, 5, 7, 0, false)])
  {
    var s := [Used(Str, 1, 9, 0, 5, 7, 0, false)];
    forall k: nat | k < |s| ensures InScan(s, k) <==> k == 0 {
      assert InScanFrom(s, 0, k) <==> k == 0;
    }
    assert WalksEnd(s) && CharChainsOk(s) && LinksInRange(s);
  }

  // ---------------------------------------------------------------------------
  // Candidate bits

  predicate Marked(s: seq<Slot>, k: int) { 0 <= k < |s| && IsMarked(s[k]) }

  /** b is a with some candidate bits cleared. */
  predicate ClearsOnly(a: seq<Slot>, b: seq<Slot>)
  {
    |a| == |b| && forall k :: 0 <= k < |a| ==> b[k] == a[k] || b[k] == Unmark(a[k])
  }

  /** Same records, up to candidate bits. */
  predicate SameUpToMarks(a: seq<Slot>, b: seq<Slot>)
  {
    |a| == |b| && forall k :: 0 <= k < |a| ==> SameUpToMark(a[k], b[k])
  }

  /** The mark phase cleared the candidate bit of slot k. */
  predicate NewlyUnmarked(a: seq<Slot>, b: seq<Slot>, k: int) { Marked(a, k) && !Marked(b, k) }

  /** No edge out of u leads to a slot still marked. */
  ghost predicate ClosedAt(s0: seq<Slot>, s: seq<Slot>, u: nat)
  {
    forall v: nat :: Edge(s0, u, v) ==> !Marked(s, v - 1)
  }

  /** The state m the mark phase leaves, starting from pool s0: from the
      tagged pool only candidate bits were cleared, every root was cleared,
      and every slot cleared is reachable from a root and has no edge to a
      slot still marked. */
  ghost predicate MarkResult(s0: seq<Slot>, m: seq<Slot>)
  {
    ClearsOnly(Tag(s0), m) &&
    (forall u: nat :: IsRoot(s0, u) ==> !Marked(m, u - 1)) &&
    (forall k :: NewlyUnmarked(Tag(s0), m, k) ==> ClosedAt(s0, m, k + 1) && Reachable(s0, k + 1))
  }

  lemma ClearsOnlyTrans(a: seq<Slot>, b: seq<Slot>, c: seq<Slot>)
    requires ClearsOnly(a, b) && ClearsOnly(b, c)
    ensures ClearsOnly(a, c)
  {
  }

  /** Closure survives further clearing. */
  lemma ClosedAtMonotone(s0: seq<Slot>, s: seq<Slot>, t: seq<Slot>, u: nat)
    requires ClosedAt(s0, s, u) && ClearsOnly(s, t)
    ensures ClosedAt(s0, t, u)
  {
  }

  /** Tagging marks exactly the occupied slots the scan visits. */
  lemma TagMarks(s: seq<Slot>, k: nat)
    requires k < |s|
    ensures Marked(Tag(s), k) <==> (InScan(s, k) && s[k].Used?) || IsMarked(s[k])
    ensures SameUpToMark(Tag(s)[k], s[k])
  {
  }

  lemma TagSameSkips(s: seq<Slot>)
    ensures SameSkips(s, Tag(s)) && SameShape(s, Tag(s))
  {
  }

  /** An edge out of a visited slot the mark phase cleared leads to a
      visited slot it cleared too. */
  lemma EdgeUnmarked(s0: seq<Slot>, m: seq<Slot>, u: nat, v: nat)
    requires LinksInScan(s0) && MarkResult(s0, m)
    requires Edge(s0, u, v) && InScan(s0, u - 1) && !Marked(m, u - 1)
    ensures 1 <= v <= |s0| && InScan(s0, v - 1) && !Marked(m, v - 1)
  {
    TagMarks(s0, u - 1);
    assert NewlyUnmarked(Tag(s0), m, u - 1);
    assert ClosedAt(s0, m, u);
  }

  /** First property of the mark phase: along any path from a root, every
      slot the path visits is visited by the scan and is no longer marked. */
  lemma {:induction false} PathUnmarked(s0: seq<Slot>, m: seq<Slot>, p: seq<nat>, n: nat)
    requires LinksInScan(s0) && MarkResult(s0, m)
    requires IsPath(s0, p) && IsRoot(s0, p[0]) && n < |p|
    ensures 1 <= p[n] <= |s0| && InScan(s0, p[n] - 1) && !Marked(m, p[n] - 1)
  {
    if n > 0 {
      PathUnmarked(s0, m, p, n - 1);
      assert Edge(s0, p[n - 1], p[n]);
      EdgeUnmarked(s0, m, p[n - 1], p[n]);
    }
  }

  /** Locked records, and everything reachable from them, stay unmarked. */
  lemma ReachableUnmarked(s0: seq<Slot>, m: seq<Slot>, v: nat)
    requires GcGraphOk(s0) && MarkResult(s0, m) && Reachable(s0, v)
    ensures 1 <= v <= |s0| && InScan(s0, v - 1) && !Marked(m, v - 1)
  {
    var u, p :| IsRoot(s0, u) && IsPath(s0, p) && p[0] == u && p[|p| - 1] == v;
    PathUnmarked(s0, m, p, |p| - 1);
  }

  /** An occupied visited slot is still marked after the mark phase
      exactly when no root reaches it. */
  lemma MarkedIffUnreachable(s0: seq<Slot>, m: seq<Slot>, k: nat)
    requires GcGraphOk(s0) && MarkResult(s0, m)
    requires k < |s0| && InScan(s0, k) && s0[k].Used?
    ensures Marked(m, k) <==> !Reachable(s0, k + 1)
  {
    TagMarks(s0, k);
    if !Marked(m, k) {
      assert NewlyUnmarked(Tag(s0), m, k);
    }
    if Reachable(s0, k + 1) {
      ReachableUnmarked(s0, m, k + 1);
    }
  }

  /** Number of slots whose candidate bit is set: what each recursive
      call of the mark phase decreases. */
  function MarkedCount(s: seq<Slot>): nat
  {
    if s == [] then 0 else (if IsMarked(s[0]) then 1 else 0) + MarkedCount(s[1..])
  }

  /** Clearing bits never raises the count, and clearing one lowers it. */
  lemma {:induction false} MarkedCountClears(a: seq<Slot>, b: seq<Slot>, k: int)
    requires ClearsOnly(a, b)
    ensures MarkedCount(b) <= MarkedCount(a)
    ensures NewlyUnmarked(a, b, k) ==> MarkedCount(b) < MarkedCount(a)
    decreases |a|
  {
    if a != [] {
      assert ClearsOnly(a[1..], b[1..]) by {
        forall j | 0 <= j < |a| - 1 ensures b[1..][j] == a[1..][j] || b[1..][j] == Unmark(a[1..][j]) {
          assert b[j + 1] == a[j + 1] || b[j + 1] == Unmark(a[j + 1]);
        }
      }
      MarkedCountClears(a[1..], b[1..], k - 1);
      if NewlyUnmarked(a, b, k) && k > 0 {
        assert NewlyUnmarked(a[1..], b[1..], k - 1);
      }
    }
  }

  // ---------------------------------------------------------------------------
  // Paths

  lemma ReachSelf(s: seq<Slot>, u: nat)
    ensures ReachFrom(s, u, u)
  {
    assert IsPath(s, [u]);
  }

  lemma ReachStep(s: seq<Slot>, u: nat, v: nat, w: nat)
    requires ReachFrom(s, u, v) && Edge(s, v, w)
    ensures ReachFrom(s, u, w)
  {
    var p :| IsPath(s, p) && p[0] == u && p[|p| - 1] == v;
    assert IsPath(s, p + [w]);
  }

  lemma ReachPrepend(s: seq<Slot>, u: nat, v: nat, w: nat)
    requires Edge(s, u, v) && ReachFrom(s, v, w)
    ensures ReachFrom(s, u, w)
  {
    var p :| IsPath(s, p) && p[0] == v && p[|p| - 1] == w;
    assert IsPath(s, [u] + p);
  }
}
