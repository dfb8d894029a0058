/** The fixed-size record (JsVar) stored in every slot of the variable pool,
    seen as a tagged variant: an UNUSED slot only carries the free-list link
    (which shares the next-sibling field), an occupied slot carries its
    record kind, lock count, structural links, flat-string block count and
    the garbage-collect candidate bit. */
module Slots {

  /** Record kinds, as far as the pool cares about them. The capability
      predicates below are the record layer's (jsvHasCharacterData,
      jsvHasSingleChild, jsvHasChildren, jsvIsName, jsvIsFlatString). */
  datatype Kind =
    | Scalar       // integer, float, boolean, null, native function, ...
    | Str          // string head holding characters
    | StrExt       // string extension block holding characters
    | FlatStr      // flat string head: the following slots are its raw bytes
    | NameStr      // property name that is a string, value in firstChild
    | NameInt      // property name that is an integer, value in firstChild
    | ArrayBuffer  // array buffer, backing string in firstChild
    | Container    // object, array, function or root: children list

  predicate HasCharacterData(k: Kind) { k == Str || k == StrExt || k == FlatStr || k == NameStr }
  predicate HasSingleChild(k: Kind) { k == NameStr || k == NameInt || k == ArrayBuffer }
  predicate HasChildren(k: Kind) { k == Container }
  predicate IsName(k: Kind) { k == NameStr || k == NameInt }
  predicate IsFlatString(k: Kind) { k == FlatStr }

  /** One slot. References are 1-based; 0 means "no reference". */
  datatype Slot =
    | Unused(next: nat)
    | Used(kind: Kind, locks: nat, firstChild: nat, lastChild: nat,
           nextSibling: nat, prevSibling: nat, flatBlocks: nat, gcMark: bool)

  /** The all-zero record: JSV_UNUSED with every link 0. */
  const Zero: Slot := Unused(0)

  /** jsvGetLocks: an UNUSED slot has no locks (they live in the flags). */
  function Locks(x: Slot): nat { if x.Unused? then 0 else x.locks }

  /** How many slots after this one a full-pool scan skips:
      the continuation blocks of a flat string head, otherwise none. */
  function FlatSkip(x: Slot): nat { if x.Used? && IsFlatString(x.kind) then x.flatBlocks else 0 }

  /** The candidate bit is set (only occupied records carry it). */
  predicate IsMarked(x: Slot) { x.Used? && x.gcMark }

  /** flags |= JSV_GARBAGE_COLLECT on an occupied record. */
  function Mark(x: Slot): (r: Slot)
    ensures x.Used? ==> IsMarked(r)
    ensures x.Unused? ==> r == x
    ensures FlatSkip(r) == FlatSkip(x) && Locks(r) == Locks(x)
  {
    if x.Used? then x.(gcMark := true) else x
  }

  /** flags &= ~JSV_GARBAGE_COLLECT; a no-op on an UNUSED slot. */
  function Unmark(x: Slot): (r: Slot)
    ensures !IsMarked(r)
    ensures x.Unused? ==> r == x
    ensures FlatSkip(r) == FlatSkip(x) && Locks(r) == Locks(x)
  {
    if x.Used? then x.(gcMark := false) else x
  }

  /** The link a sibling walk follows: next sibling of a record, or the
      free-list link of an UNUSED slot (the same field in the record). */
  function NextLink(x: Slot): nat { if x.Unused? then x.next else x.nextSibling }

  /** jsvSetNextSibling: the free-list link of an UNUSED slot is the
      next-sibling field of a record. */
  function SetNext(x: Slot, n: nat): (r: Slot)
    ensures NextLink(r) == n && r.Unused? == x.Unused?
    ensures FlatSkip(r) == FlatSkip(x) && IsMarked(r) == IsMarked(x)
  {
    if x.Unused? then Unused(n) else x.(nextSibling := n)
  }

  /** The link the string walk follows. An UNUSED slot keeps no other link
      in this model; the collector's requirements keep string chains away
      from UNUSED slots, so the walk never reads this case. */
  function LastLink(x: Slot): nat { if x.Unused? then 0 else x.lastChild }

  /** Two slots are the same record up to the candidate bit. */
  predicate SameUpToMark(x: Slot, y: Slot) { Unmark(x) == Unmark(y) }

  /** Records equal up to the candidate bit have the same links. */
  lemma SameUpToMarkLinks(x: Slot, y: Slot)
    requires SameUpToMark(x, y)
    ensures x.Used? == y.Used? && NextLink(x) == NextLink(y) && LastLink(x) == LastLink(y)
    ensures FlatSkip(x) == FlatSkip(y) && Locks(x) == Locks(y)
    ensures x.Used? ==> x.kind == y.kind && x.firstChild == y.firstChild && x.lastChild == y.lastChild && x.flatBlocks == y.flatBlocks
  {
    if x.Used? {
      assert Unmark(x).kind == Unmark(y).kind;
    }
  }
}
