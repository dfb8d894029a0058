/** The VAR_CACHE build of src/jsvarcache.c: the pool lives in a backing
    store of slots (variables[]), and only 128 of them are held in RAM, in
    cache lines. Each line remembers the reference it holds (0 when it is
    empty) and an age, the value of a counter when it was last loaded.

    jsvGetAddressOf returns the line holding a reference; on a miss it
    evicts the oldest line that is empty or unlocked, writes its record
    back to the store and loads the wanted one. */
module VarCache {
  import opened Slots
  import opened Wrappers

  /** CACHE_SIZE. */
  const CacheSize: nat := 128

  /** The starting bound of the victim scan (0x7FFFFFFF): a line this old
      or older is never chosen. */
  const MaxAge: int := 0x7FFF_FFFF

  // ---------------------------------------------------------------------------
  // Store addressing

  /** The store index the cache uses for reference r as written: the
      write-back and the load both use variables[r]. */
  function StoreIndexAsWritten(r: nat): nat { r }

  /** With the index as written, a reference 1..n lies in a store of n
      entries exactly when it is not the largest one, jsVarsSize, and
      entry 0 of the store is never used. */
  lemma StoreIndexAsWrittenOutOfRange(r: nat, n: nat)
    requires 1 <= r <= n
    ensures StoreIndexAsWritten(r) < n <==> r != n
    ensures StoreIndexAsWritten(r) != 0
  {
  }

  /** The store index of reference r as the other builds place it: r-1, so
      that references 1..n use exactly the n entries of the store. */
  function StoreIndex(r: nat): (i: nat)
    requires 1 <= r
    ensures i < r && i + 1 == r
  {
    r - 1
  }

  /** Every reference 1..n has its own entry in a store of n slots. */
  lemma StoreIndexInRange(r: nat, q: nat, n: nat)
    requires 1 <= r <= n && 1 <= q <= n
    ensures StoreIndex(r) < n
    ensures StoreIndex(r) == StoreIndex(q) <==> r == q
  {
  }

  // ---------------------------------------------------------------------------
  // The victim scan, on values

  /** Line i may be given to a new reference: it is empty or its record is
      unlocked, and it is younger than the scan's starting bound. */
  predicate Candidate(refs: seq<nat>, lines: seq<Slot>, ages: seq<int>, i: nat)
    requires |refs| == |lines| == |ages| && i < |refs|
  {
    (refs[i] == 0 || Locks(lines[i]) == 0) && ages[i] < MaxAge
  }

  /** No line below n is a candidate. */
  predicate NoCandidate(refs: seq<nat>, lines: seq<Slot>, ages: seq<int>, n: nat)
    requires |refs| == |lines| == |ages| && n <= |refs|
  {
    forall j :: 0 <= j < n ==> !Candidate(refs, lines, ages, j)
  }

  /** e is the victim among lines 0..n-1: a candidate of the smallest age,
      and the first one of that age. */
  predicate IsVictim(refs: seq<nat>, lines: seq<Slot>, ages: seq<int>, n: nat, e: nat)
    requires |refs| == |lines| == |ages| && n <= |refs|
  {
    e < n && Candidate(refs, lines, ages, e) &&
    (forall j :: 0 <= j < n && Candidate(refs, lines, ages, j) ==> ages[e] <= ages[j]) &&
    (forall j :: 0 <= j < e && Candidate(refs, lines, ages, j) ==> ages[e] < ages[j])
  }

  /** There is at most one victim. */
  lemma VictimUnique(refs: seq<nat>, lines: seq<Slot>, ages: seq<int>, n: nat, e1: nat, e2: nat)
    requires |refs| == |lines| == |ages| && n <= |refs|
    requires IsVictim(refs, lines, ages, n, e1) && IsVictim(refs, lines, ages, n, e2)
    ensures e1 == e2
  {
  }

  /** A line whose record is locked is never the victim. */
  lemma LockedNeverVictim(refs: seq<nat>, lines: seq<Slot>, ages: seq<int>, n: nat, e: nat)
    requires |refs| == |lines| == |ages| && n <= |refs| && e < |refs|
    requires refs[e] != 0 && Locks(lines[e]) > 0
    ensures !IsVictim(refs, lines, ages, n, e)
  {
  }

  // ---------------------------------------------------------------------------
  // What a reference holds

  /** The first position of x in s. */
  function IndexOf(s: seq<nat>, x: nat): (i: nat)
    requires x in s
    ensures i < |s| && s[i] == x && x !in s[..i]
  {
    if s[0] == x then 0 else
      assert s == [s[0]] + s[1..];
      1 + IndexOf(s[1..], x)
  }

  /** No reference is held by two lines. */
  predicate DistinctRefs(refs: seq<nat>)
  {
    forall i, j :: 0 <= i < j < |refs| && refs[i] != 0 ==> refs[i] != refs[j]
  }

  /** The record of reference r as the program sees it: the line holding r,
      or else r's entry in the store. */
  function ViewOf(refs: seq<nat>, lines: seq<Slot>, store: seq<Slot>, r: nat): Slot
    requires |refs| == |lines| && 1 <= r <= |store|
  {
    if r in refs then lines[IndexOf(refs, r)] else store[StoreIndex(r)]
  }

  /** The write-back of an evicted line holding reference held (none when
      held is 0). */
  function WriteBack(store: seq<Slot>, held: nat, x: Slot): (t: seq<Slot>)
    requires held <= |store|
    ensures |t| == |store|
  {
    if held != 0 then store[StoreIndex(held) := x] else store
  }

  /** In a table without duplicates the line holding r is its only
      occurrence. */
  lemma IndexOfDistinct(refs: seq<nat>, k: nat)
    requires DistinctRefs(refs) && k < |refs| && refs[k] != 0
    ensures IndexOf(refs, refs[k]) == k
  {
  }

  /** Evicting line e (its record written back) and loading reference x
      into it keeps the table free of duplicates and changes no
      reference's record: the cache is invisible to the program. */
  lemma EvictKeepsView(refs: seq<nat>, lines: seq<Slot>, store: seq<Slot>, e: nat, x: nat, r: nat)
    requires |refs| == |lines| && e < |refs| && DistinctRefs(refs)
    requires forall i :: 0 <= i < |refs| ==> refs[i] <= |store|
    requires 1 <= x <= |store| && x !in refs && 1 <= r <= |store|
    ensures DistinctRefs(refs[e := x])
    ensures ViewOf(refs[e := x], lines[e := store[StoreIndex(x)]], WriteBack(store, refs[e], lines[e]), r)
            == ViewOf(refs, lines, store, r)
  {
    var refs', lines' := refs[e := x], lines[e := store[StoreIndex(x)]];
    var store' := WriteBack(store, refs[e], lines[e]);
    forall i, j | 0 <= i < j < |refs'| && refs'[i] != 0 ensures refs'[i] != refs'[j] {
      if i != e && j != e {
        assert refs[i] != refs[j];
      } else if i == e {
        assert refs[j] in refs;
      } else {
        assert refs[i] in refs;
      }
    }
    if r == x {
      assert refs'[e] == x;
      IndexOfDistinct(refs', e);
    } else if r in refs {
      var k := IndexOf(refs, r);
      if k != e {
        assert refs'[k] == r;
        IndexOfDistinct(refs', k);
      }
    }
  }

  // ---------------------------------------------------------------------------
  // The cache

  class Cache {
    const lines: array<Slot>   // jsVarCache
    const refs: array<nat>     // jsVarRefs
    const ages: array<int>     // jsVarAge
    const store: array<Slot>   // variables, jsVarsSize records
    var ageCounter: int        // jsVarAgeCounter

    /** 128 lines, the store apart from them, every held reference names a
        store record, and no reference is held twice. */
    ghost predicate Valid()
      reads this, refs
    {
      lines.Length == CacheSize && refs.Length == CacheSize && ages.Length == CacheSize &&
      lines != store &&
      (forall i :: 0 <= i < CacheSize ==> refs[i] <= store.Length) &&
      DistinctRefs(refs[..])
    }

    /** The record the program sees for reference r. */
    ghost function View(r: nat): Slot
      reads this, refs, lines, store
      requires Valid() && 1 <= r <= store.Length
    {
      ViewOf(refs[..], lines[..], store[..], r)
    }

    /** The zero-initialised globals: every line empty and of age 0, over a
        store of n UNUSED records. */
    constructor (n: nat)
      ensures Valid() && store.Length == n && ageCounter == 0
      ensures forall i :: 0 <= i < CacheSize ==> refs[i] == 0 && ages[i] == 0 && lines[i] == Zero
      ensures forall k :: 0 <= k < n ==> store[k] == Zero
      ensures fresh(lines) && fresh(refs) && fresh(ages) && fresh(store)
    {
      lines := new Slot[CacheSize](_ => Zero);
      refs := new nat[CacheSize](_ => 0);
      ages := new int[CacheSize](_ => 0);
      store := new Slot[n](_ => Zero);
      ageCounter := 0;
    }

    /** The scan of jsvGetAddressOf (src/jsvarcache.c:76-84): the first line
        holding ref; when there is none, the victim, or -1 when no line is
        a candidate. */
    method FindLine(ref: nat) returns (hit: Option<nat>, empty: int)
      requires Valid()
      ensures hit.Some? ==> hit.value < CacheSize && refs[hit.value] == ref && ref !in refs[..hit.value]
      ensures hit.None? ==> ref !in refs[..]
      ensures hit.None? && empty < 0 ==> empty == -1 && NoCandidate(refs[..], lines[..], ages[..], CacheSize)
      ensures hit.None? && 0 <= empty ==> IsVictim(refs[..], lines[..], ages[..], CacheSize, empty)
    {
      var age := MaxAge;
      empty := -1;
      var i := 0;
      while i < CacheSize
        invariant 0 <= i <= CacheSize && ref !in refs[..i]
        invariant empty < 0 ==> empty == -1 && age == MaxAge && NoCandidate(refs[..], lines[..], ages[..], i)
        invariant 0 <= empty ==> IsVictim(refs[..], lines[..], ages[..], i, empty) && age == ages[empty]
      {
        if refs[i] == ref {
          return Some(i), empty;
        }
        if (refs[i] == 0 || Locks(lines[i]) == 0) && ages[i] < age {
          age := ages[i];
          empty := i;
        }
        assert refs[..i + 1] == refs[..i] + [refs[i]];
        i := i + 1;
      }
      assert refs[..] == refs[..CacheSize];
      hit := None;
    }

    /** jsvGetRef in the cache build (src/jsvarcache.c:302-304): the
        reference held by a line, 0 for the null pointer. */
    function GetRef(line: Option<nat>): (r: nat)
      reads this, refs
      requires Valid() && (line.Some? ==> line.value < CacheSize)
      ensures line.None? ==> r == 0
      ensures line.Some? ==> r <= store.Length
    {
      if line.None? then 0 else refs[line.value]
    }

    /** jsvGetAddressOf in the cache build (src/jsvarcache.c:69-101). A hit
        returns the line and changes nothing. A miss with no candidate
        fails (None) and changes nothing. Otherwise the victim's record is
        written back, the counter advances and becomes the victim's age,
        and the victim receives ref's record. No reference's record, as the
        program sees it, changes. */
    method GetAddressOf(ref: nat) returns (line: Option<nat>)
      requires Valid() && 1 <= ref <= store.Length
      modifies this`ageCounter, lines, refs, ages, store
      ensures Valid()
      ensures line.Some? ==> line.value < CacheSize && GetRef(line) == ref
      ensures forall r :: 1 <= r <= store.Length ==> View(r) == old(View(r))
      ensures ref in old(refs[..]) || line.None? ==>
                refs[..] == old(refs[..]) && lines[..] == old(lines[..]) && ages[..] == old(ages[..]) &&
                store[..] == old(store[..]) && ageCounter == old(ageCounter)
      ensures line.None? <==> ref !in old(refs[..]) && NoCandidate(old(refs[..]), old(lines[..]), old(ages[..]), CacheSize)
      ensures ref !in old(refs[..]) && line.Some? ==>
                var e := line.value;
                IsVictim(old(refs[..]), old(lines[..]), old(ages[..]), CacheSize, e) &&
                refs[..] == old(refs[..])[e := ref] &&
                lines[..] == old(lines[..])[e := old(store[StoreIndex(ref)])] &&
                ages[..] == old(ages[..])[e := old(ageCounter) + 1] && ageCounter == old(ageCounter) + 1 &&
                store[..] == WriteBack(old(store[..]), old(refs[e]), old(lines[e]))
    {
      var hit, empty := FindLine(ref);
      if hit.Some? {
        return hit;
      }
      if empty < 0 {
        return None;
      }
      ghost var R, Ls, S := refs[..], lines[..], store[..];
      forall r | 1 <= r <= store.Length ensures ViewOf(R[empty := ref], Ls[empty := S[StoreIndex(ref)]], WriteBack(S, R[empty], Ls[empty]), r) == ViewOf(R, Ls, S, r) {
        EvictKeepsView(R, Ls, S, empty, ref, r);
      }
      EvictKeepsView(R, Ls, S, empty, ref, ref);
      Evict(empty, ref);
      line := Some(empty);
    }

    /** The load of jsvGetAddressOf (src/jsvarcache.c:89-100) into line e. */
    method Evict(e: nat, ref: nat)
      requires Valid() && e < CacheSize && 1 <= ref <= store.Length && ref !in refs[..]
      modifies this`ageCounter, lines, refs, ages, store
      ensures refs[..] == old(refs[..])[e := ref]
      ensures lines[..] == old(lines[..])[e := old(store[StoreIndex(ref)])]
      ensures ages[..] == old(ages[..])[e := old(ageCounter) + 1] && ageCounter == old(ageCounter) + 1
      ensures store[..] == WriteBack(old(store[..]), old(refs[e]), old(lines[e]))
    {
      if refs[e] != 0 {
        store[StoreIndex(refs[e])] := lines[e];
      }
      ageCounter := ageCounter + 1;
      ages[e] := ageCounter;
      lines[e] := store[StoreIndex(ref)];
      refs[e] := ref;
    }
  }
}
