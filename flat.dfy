/** Slot addressing in the default build of src/jsvarcache.c: one array of
    jsVarsSize records, reference r at index r-1, and 0 for "no record". */
module FlatPool {

  /** A pointer into the record array, or the null pointer. */
  datatype VarPtr = NullVar | At(index: nat)

  /** jsvGetAddressOf (src/jsvarcache.c:109 in the flat build): the
      record of reference r, which the source asserts is not 0. Every
      reference of a pool of n records lies inside it. */
  function GetAddressOf(r: nat, n: nat): (p: VarPtr)
    requires 1 <= r
    ensures p.At? && (r <= n <==> p.index < n)
  {
    At(r - 1)
  }

  /** jsvGetRef (src/jsvarcache.c:302 and 316 in the flat build): 0 for the null
      pointer, otherwise one more than the index. */
  function GetRef(p: VarPtr): (r: nat)
    ensures r == 0 <==> p.NullVar?
    ensures p.At? ==> GetAddressOf(r, p.index + 1) == p
  {
    if p.NullVar? then 0 else 1 + p.index
  }

  /** The two are inverse: every reference survives the round trip. */
  lemma RefRoundTrip(r: nat, n: nat)
    requires 1 <= r <= n
    ensures GetRef(GetAddressOf(r, n)) == r
  {
  }
}
