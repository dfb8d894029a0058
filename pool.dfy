/** The variable pool of the resizable build (src/jsvarcache.c with
    RESIZABLE_JSVARS): a table of 4096-slot blocks, the size in use, the
    head of the free list and the busy flag.

    Reference r (1-based) lives at offset (r-1) & 4095 of block
    (r-1) >> 12. The ghost Contents is the concatenation of all blocks;
    Vars() is its prefix of `size` slots, the slots of references
    1..size that every full-pool loop visits. */
module VarPool {
  import opened Slots
  import opened Scan
  import opened Graph
  import opened Sweep
  import opened Threading
  import opened Marking
  import opened Collect
  import opened Rerun

  /** JSVAR_BLOCK_SIZE; JSVAR_BLOCK_SHIFT is 12. */
  const BlockSize: nat := 4096

  /** jsVarsSize >> JSVAR_BLOCK_SHIFT, as jsvGetRef and jsvSetMemoryTotal
      compute it: the number of FULL blocks a size covers. */
  function FullBlocks(size: nat): (n: nat)
    ensures n * BlockSize <= size < (n + 1) * BlockSize
  {
    size / BlockSize
  }

  /** The number of blocks holding some slot of a pool of the given size. */
  function BlocksInUse(size: nat): (n: nat)
    ensures size <= n * BlockSize < size + BlockSize
  {
    (size + BlockSize - 1) / BlockSize
  }

  /** Every block of the table has 4096 slots, no two entries share a
      block, and c is the concatenation of the blocks. */
  ghost predicate Tied(bs: seq<array<Slot>>, c: seq<Slot>)
    reads bs
  {
    (forall b :: 0 <= b < |bs| ==> bs[b].Length == BlockSize) &&
    (forall b1, b2 :: 0 <= b1 < b2 < |bs| ==> bs[b1] != bs[b2]) &&
    |c| == BlockSize * |bs| &&
    (forall b, o :: 0 <= b < |bs| && 0 <= o < BlockSize ==> bs[b][o] == c[BlockSize * b + o])
  }

  /** The first k blocks of a table are tied to the first 4096*k slots. */
  lemma TiedPrefix(bs: seq<array<Slot>>, c: seq<Slot>, k: nat)
    requires Tied(bs, c) && k <= |bs|
    ensures Tied(bs[..k], c[..BlockSize * k])
  {
    var bs', c' := bs[..k], c[..BlockSize * k];
    forall b, o | 0 <= b < |bs'| && 0 <= o < BlockSize ensures bs'[b][o] == c'[BlockSize * b + o] {
      assert BlockSize * b + o < BlockSize * k;
    }
  }

  /** A new block appended to the table appends its slots. */
  lemma TiedAppend(bs: seq<array<Slot>>, c: seq<Slot>, a: array<Slot>)
    requires Tied(bs, c) && a.Length == BlockSize && a !in bs
    ensures Tied(bs + [a], c + a[..])
  {
    var bs', c' := bs + [a], c + a[..];
    forall b, o | 0 <= b < |bs'| && 0 <= o < BlockSize ensures bs'[b][o] == c'[BlockSize * b + o] {
      if b < |bs| {
        assert BlockSize * b + o < |c|;
      } else {
        assert BlockSize * b + o == |c| + o;
      }
    }
  }

  /** A larger size needs at least as many blocks. */
  lemma BlocksInUseMonotone(a: nat, b: nat)
    requires a <= b
    ensures BlocksInUse(a) <= BlocksInUse(b)
  {
  }

  /** A pointer to a slot: a block and an offset in it. */
  datatype Ptr = Null | Ptr(block: array<Slot>, offset: nat)

  class Pool {
    var blocks: seq<array<Slot>>   // jsVarBlocks
    var size: nat                  // jsVarsSize
    var firstEmpty: nat            // jsVarFirstEmpty
    var isMemoryBusy: bool         // isMemoryBusy
    var unRefCalls: seq<nat>       // the references jsvUnRef was called on, in order
    ghost var Contents: seq<Slot>

    /** The block table holds distinct blocks of 4096 slots whose
        concatenation is Contents, and the size in use fits. */
    ghost predicate Valid()
      reads this`blocks, this`Contents, this`size, blocks
    {
      Tied(blocks, Contents) && size <= |Contents|
    }

    /** The slots of references 1..size. */
    ghost function Vars(): seq<Slot>
      reads this`Contents, this`size
      requires size <= |Contents|
    {
      Contents[..size]
    }

    /** The pool before jsvInit: no block table, size 0. */
    constructor ()
      ensures Valid() && blocks == [] && size == 0 && firstEmpty == 0
      ensures !isMemoryBusy && unRefCalls == []
    {
      blocks := [];
      size := 0;
      firstEmpty := 0;
      isMemoryBusy := false;
      unRefCalls := [];
      Contents := [];
    }

    /** The block and offset of the slot of reference r. */
    ghost function AddrOf(r: nat): Ptr
      reads this`blocks
      requires 1 <= r <= BlockSize * |blocks|
    {
      Ptr(blocks[(r - 1) / BlockSize], (r - 1) % BlockSize)
    }

    lemma AddrInRange(r: nat)
      requires Valid() && 1 <= r <= |Contents|
      ensures (r - 1) / BlockSize < |blocks| && (r - 1) % BlockSize < BlockSize
      ensures BlockSize * ((r - 1) / BlockSize) + (r - 1) % BlockSize == r - 1
      ensures blocks[(r - 1) / BlockSize][(r - 1) % BlockSize] == Contents[r - 1]
    {
    }

    /** jsvGetAddressOf (src/jsvarcache.c:104-107): the pointer to the slot
        of reference r. */
    method GetAddressOf(r: nat) returns (p: Ptr)
      requires Valid() && 1 <= r <= |Contents|
      ensures p == AddrOf(r)
      ensures p.Ptr? && p.offset < p.block.Length && p.block[p.offset] == Contents[r - 1]
    {
      AddrInRange(r);
      var t := r - 1;
      p := Ptr(blocks[t / BlockSize], t % BlockSize);
    }

    /** Reading the slot jsvGetAddressOf(r) points at. */
    method Get(r: nat) returns (x: Slot)
      requires Valid() && 1 <= r <= |Contents|
      ensures x == Contents[r - 1]
      ensures r <= size ==> x == Vars()[r - 1]
    {
      AddrInRange(r);
      var t := r - 1;
      x := blocks[t / BlockSize][t % BlockSize];
    }

    /** Writing the slot jsvGetAddressOf(r) points at. */
    method Set(r: nat, x: Slot)
      requires Valid() && 1 <= r <= |Contents|
      modifies this`Contents, blocks[(r - 1) / BlockSize]
      ensures Valid()
      ensures Contents == old(Contents)[r - 1 := x]
      ensures r <= size ==> Vars() == old(Vars())[r - 1 := x]
      ensures size < r ==> Vars() == old(Vars())
    {
      AddrInRange(r);
      var t := r - 1;
      var b, o := t / BlockSize, t % BlockSize;
      blocks[b][o] := x;
      Contents := Contents[t := x];
      forall b', o' | 0 <= b' < |blocks| && 0 <= o' < BlockSize
        ensures blocks[b'][o'] == Contents[BlockSize * b' + o']
      {
        if b' == b && o' != o { assert BlockSize * b' + o' != t; }
        if b' != b { assert BlockSize * b' + o' != t; }
      }
    }

    /** Clearing the candidate bit of reference r (the read and the write
        jsvGarbageCollectMarkUsed does through jsvGetAddressOf). */
    method UnmarkAt(r: nat) returns (v: Slot)
      requires Valid() && 1 <= r <= size
      modifies this`Contents, blocks
      ensures Valid() && v == old(Vars())[r - 1]
      ensures Vars() == old(Vars())[r - 1 := Unmark(v)]
    {
      v := Get(r);
      Set(r, Unmark(v));
    }

    /** The reference a pointer names, scanning the first c blocks; 0 when
        it lies in none of them. */
    ghost function RefIn(p: Ptr, c: nat): (r: nat)
      reads this`blocks
      requires c <= |blocks|
    {
      if c == 0 || p.Null? then 0
      else if RefIn(p, c - 1) != 0 then RefIn(p, c - 1)
      else if p.block == blocks[c - 1] && p.offset < BlockSize then 1 + BlockSize * (c - 1) + p.offset
      else 0
    }

    /** jsvGetRef (src/jsvarcache.c:301-319), scanning the blocks that hold
        the pool: null gives 0, a pointer into one of those blocks gives its
        reference, anything else 0. (The source scans only the full blocks;
        see FullBlocksMissRefs.) */
    method GetRef(p: Ptr) returns (r: nat)
      requires Valid()
      ensures r == RefIn(p, BlocksInUse(size))
      ensures p.Null? ==> r == 0
      ensures r != 0 ==> 1 <= r <= BlockSize * BlocksInUse(size) && AddrOf(r) == p
      ensures forall q :: 1 <= q <= BlockSize * BlocksInUse(size) && AddrOf(q) == p ==> r == q
    {
      if p.Null? { return 0; }
      var c := BlocksInUse(size);
      assert c <= |blocks|;
      var i := 0;
      while i < c
        invariant 0 <= i <= c
        invariant RefIn(p, i) == 0
        invariant forall j :: 0 <= j < i ==> !(p.block == blocks[j] && p.offset < BlockSize)
      {
        if p.block == blocks[i] && p.offset < BlockSize {
          r := 1 + BlockSize * i + p.offset;
          RefInFound(p, i, c);
          return;
        }
        i := i + 1;
      }
      r := 0;
      forall q | 1 <= q <= BlockSize * c && AddrOf(q) == p ensures false {
        AddrBlockBelow(q, c);
      }
    }

    lemma AddrBlockBelow(q: nat, c: nat)
      requires 1 <= q <= BlockSize * c && c <= |blocks|
      ensures (q - 1) / BlockSize < c
    {
    }

    lemma {:induction false} RefInFound(p: Ptr, i: nat, c: nat)
      requires Valid() && p.Ptr? && i < c <= |blocks|
      requires p.block == blocks[i] && p.offset < BlockSize && RefIn(p, i) == 0
      ensures RefIn(p, c) == 1 + BlockSize * i + p.offset
      ensures AddrOf(RefIn(p, c)) == p
      ensures forall q :: 1 <= q <= BlockSize * c && AddrOf(q) == p ==> RefIn(p, c) == q
      decreases c
    {
      if c > i + 1 {
        RefInFound(p, i, c - 1);
      }
      var r := 1 + BlockSize * i + p.offset;
      assert (r - 1) / BlockSize == i;
      assert (r - 1) % BlockSize == p.offset;
      forall q | 1 <= q <= BlockSize * c && AddrOf(q) == p ensures r == q {
        var bq := (q - 1) / BlockSize;
        assert blocks[bq] == blocks[i];
        assert bq == i;
      }
    }
  
    /** The address loop of jsvGetRef as written, over FullBlocks(size)
        blocks, gives 0 for reference 1 once jsvSetMaxVarsUsed has made the
        size smaller than one block. */
    lemma FullBlocksMissRefs()
      requires Valid() && 0 < size < BlockSize
      ensures RefIn(AddrOf(1), FullBlocks(size)) == 0
      ensures RefIn(AddrOf(1), BlocksInUse(size)) == 1
    {
      assert FullBlocks(size) == 0 && BlocksInUse(size) == 1;
      assert AddrOf(1) == Ptr(blocks[0], 0);
    }

    // -------------------------------------------------------------------------
    // Set-up and tear-down

    /** jsvSetMaxVarsUsed (src/jsvarcache.c:119-126): a debugging limit on
        the size, below one block. */
    method SetMaxVarsUsed(n: nat)
      requires Valid() && n < BlockSize && |blocks| >= 1
      modifies this`size
      ensures Valid() && size == n
    {
      size := n;
    }

    /** jsvInitJsVars (src/jsvarcache.c:185-195): makes the slots of
        references start..start+count-1 UNUSED, each linked to the next and
        the last to 0, and returns start, the head of that list. */
    method InitJsVars(start: nat, count: nat) returns (first: nat)
      requires Valid() && 1 <= start && 1 <= count && start + count - 1 <= size
      modifies this`Contents, blocks
      ensures Valid() && first == start
      ensures |Contents| == |old(Contents)|
      ensures forall k :: 0 <= k < |Contents| && !(start - 1 <= k < start - 1 + count) ==> Contents[k] == old(Contents)[k]
      ensures ListIs(Vars(), start, Range(start, start + count))
    {
      LinkRun(start, count);
      var v := Get(start + count - 1);
      Set(start + count - 1, SetNext(v, 0));
      first := start;
      RunListed(Vars(), start, count);
    }

    /** The loop of jsvInitJsVars (src/jsvarcache.c:187-192): slot i becomes
        UNUSED with link i+1. */
    method LinkRun(start: nat, count: nat)
      requires Valid() && 1 <= start && start + count - 1 <= size
      modifies this`Contents, blocks
      ensures Valid()
      ensures |Contents| == |old(Contents)|
      ensures forall k :: 0 <= k < |Contents| && !(start - 1 <= k < start - 1 + count) ==> Contents[k] == old(Contents)[k]
      ensures forall k :: start - 1 <= k < start - 1 + count ==> Contents[k] == Unused(k + 2)
    {
      var i := start;
      while i < start + count
        invariant Valid() && start <= i <= start + count
        invariant |Contents| == |old(Contents)|
        invariant forall k :: 0 <= k < |Contents| && !(start - 1 <= k < i - 1) ==> Contents[k] == old(Contents)[k]
        invariant forall k :: start - 1 <= k < i - 1 ==> Contents[k] == Unused(k + 2)
      {
        Set(i, Unused(i + 1));
        i := i + 1;
      }
    }

    /** The allocation part of jsvInit (src/jsvarcache.c:199-203): one fresh
        block of BlockSize slots is the whole table. */
    method AllocFirstBlock()
      modifies this`size, this`blocks, this`Contents
      ensures Valid() && size == BlockSize && |blocks| == 1 && fresh(blocks[0])
    {
      size := BlockSize;
      var b := new Slot[BlockSize];
      blocks := [b];
      Contents := b[..];
    }

    /** jsvInit (src/jsvarcache.c:197-206): one fresh block, every slot
        UNUSED, the free list 1, 2, ..., 4096 in ascending order. */
    method Init()
      requires !isMemoryBusy
      modifies this`size, this`blocks, this`Contents, this`firstEmpty, this`isMemoryBusy
      ensures Valid() && size == BlockSize && |blocks| == 1 && fresh(blocks[0]) && !isMemoryBusy
      ensures AllUnused(Vars()) && ListIs(Vars(), firstEmpty, Range(1, size + 1))
      ensures Usage(Vars()) == 0
    {
      AllocFirstBlock();
      InitList();
    }

    /** The list part of jsvInit (src/jsvarcache.c:204-205): every slot of
        the pool becomes UNUSED and the free list runs through all of them
        in ascending order. */
    method InitList()
      requires Valid() && !isMemoryBusy && 1 <= size
      modifies this`Contents, this`firstEmpty, this`isMemoryBusy, blocks
      ensures Valid() && !isMemoryBusy
      ensures AllUnused(Vars()) && ListIs(Vars(), firstEmpty, Range(1, size + 1))
      ensures Usage(Vars()) == 0
    {
      firstEmpty := InitJsVars(1, size);
      RelistAll();
    }

    /** jsvSoftInit on a pool whose slots are all on the free list in
        ascending order leaves that list as it is. */
    method RelistAll()
      requires Valid() && !isMemoryBusy && ListIs(Vars(), 1, Range(1, size + 1))
      modifies this`Contents, this`firstEmpty, this`isMemoryBusy, blocks
      ensures Valid() && !isMemoryBusy
      ensures AllUnused(Vars()) && ListIs(Vars(), firstEmpty, Range(1, size + 1))
      ensures Usage(Vars()) == 0
    {
      ghost var s1 := Vars();
      SoftInit();
      ghost var s2 := Vars();
      assert |s1| == |s2| == size;
      FullListAllUnused(s1, s2, firstEmpty);
    }

    /** jsvKill (src/jsvarcache.c:208-217): the block table is released and
        the size is 0; the free-list head is left as it was. */
    method Kill()
      modifies this`blocks, this`size, this`Contents
      ensures Valid() && blocks == [] && size == 0
    {
      blocks := [];
      size := 0;
      Contents := [];
    }

    /** jsvSetMemoryTotal (src/jsvarcache.c:243-269) as written. A count
        that is not larger returns early with the busy flag still set. A
        larger count keeps only the FullBlocks(size) leading blocks (the
        same arrays, so their records keep their addresses), gives
        every later table entry a fresh block, rounds the size up to whole
        blocks and lists the new references oldSize+1..size as the free
        list (the source asserts that the list was empty). */
    method SetMemoryTotal(newCount: nat)
      requires Valid() && !isMemoryBusy
      requires newCount > size ==> firstEmpty == 0
      modifies this`blocks, this`size, this`Contents, this`firstEmpty, this`isMemoryBusy, blocks
      ensures Valid()
      ensures isMemoryBusy <==> newCount <= old(size)
      ensures newCount <= old(size) ==>
                size == old(size) && blocks == old(blocks) && Contents == old(Contents) && firstEmpty == old(firstEmpty)
      ensures old(size) < newCount ==>
                size == BlockSize * BlocksInUse(newCount) && newCount <= size &&
                FullBlocks(old(size)) <= |old(blocks)| &&
                blocks[..FullBlocks(old(size))] == old(blocks)[..FullBlocks(old(size))] &&
                (forall j :: FullBlocks(old(size)) <= j < |blocks| ==> fresh(blocks[j])) &&
                (forall r :: 1 <= r <= BlockSize * FullBlocks(old(size)) ==> AddrOf(r) == Ptr(old(blocks)[(r - 1) / BlockSize], (r - 1) % BlockSize)) &&
                (forall k :: 0 <= k < BlockSize * FullBlocks(old(size)) ==> Vars()[k] == old(Vars())[k]) &&
                ListIs(Vars(), firstEmpty, Range(old(size) + 1, size + 1))
    {
      isMemoryBusy := true;
      if newCount <= size { return; }
      ShapeBound();
      Grow(newCount, FullBlocks(size));
      isMemoryBusy := false;
    }

    /** jsvSetMemoryTotal as evidently intended: the early return leaves the
        pool idle, and the partly used last block is kept, so every slot in
        use survives the growth at its address: the table is split into
        blocks so that growing never moves a record (src/jsvarcache.c:40-45). */
    method SetMemoryTotalCorrected(newCount: nat)
      requires Valid() && !isMemoryBusy
      requires newCount > size ==> firstEmpty == 0
      modifies this`blocks, this`size, this`Contents, this`firstEmpty, this`isMemoryBusy, blocks
      ensures Valid() && !isMemoryBusy
      ensures newCount <= old(size) ==>
                size == old(size) && blocks == old(blocks) && Contents == old(Contents) && firstEmpty == old(firstEmpty)
      ensures old(size) < newCount ==>
                size == BlockSize * BlocksInUse(newCount) && newCount <= size &&
                BlocksInUse(old(size)) <= |old(blocks)| &&
                blocks[..BlocksInUse(old(size))] == old(blocks)[..BlocksInUse(old(size))] &&
                (forall r :: 1 <= r <= BlockSize * BlocksInUse(old(size)) ==> AddrOf(r) == Ptr(old(blocks)[(r - 1) / BlockSize], (r - 1) % BlockSize)) &&
                Vars()[..old(size)] == old(Vars()) &&
                ListIs(Vars(), firstEmpty, Range(old(size) + 1, size + 1))
    {
      if newCount <= size { return; }
      isMemoryBusy := true;
      GrowInUse(newCount);
      isMemoryBusy := false;
    }

    /** The growth of SetMemoryTotalCorrected: Grow keeping every block that
        holds a record in use. */
    method GrowInUse(newCount: nat)
      requires Valid() && size < newCount
      modifies this`blocks, this`size, this`Contents, this`firstEmpty, blocks
      ensures Valid() && size == BlockSize * BlocksInUse(newCount) && newCount <= size
      ensures BlocksInUse(old(size)) <= |old(blocks)| &&
              blocks[..BlocksInUse(old(size))] == old(blocks)[..BlocksInUse(old(size))]
      ensures forall r :: 1 <= r <= BlockSize * BlocksInUse(old(size)) ==> AddrOf(r) == Ptr(old(blocks)[(r - 1) / BlockSize], (r - 1) % BlockSize)
      ensures Vars()[..old(size)] == old(Vars())
      ensures ListIs(Vars(), firstEmpty, Range(old(size) + 1, size + 1))
    {
      ShapeBound();
      ghost var s0 := Vars();
      Grow(newCount, BlocksInUse(size));
      assert Vars()[..old(size)] == s0;
    }

    /** The pool's references lie in the blocks of the table. */
    lemma ShapeBound()
      requires Valid()
      ensures FullBlocks(size) <= BlocksInUse(size) <= |blocks| && size <= BlockSize * |blocks|
    {
    }

    /** References in blocks that are kept keep their addresses. */
    lemma KeptAddresses(b0: seq<array<Slot>>, keep: nat)
      requires keep <= |b0| && keep <= |blocks| && blocks[..keep] == b0[..keep]
      ensures forall r :: 1 <= r <= BlockSize * keep ==>
                AddrOf(r) == Ptr(b0[(r - 1) / BlockSize], (r - 1) % BlockSize)
    {
      forall r | 1 <= r <= BlockSize * keep
        ensures AddrOf(r) == Ptr(b0[(r - 1) / BlockSize], (r - 1) % BlockSize)
      {
        assert (r - 1) / BlockSize < keep;
        assert blocks[(r - 1) / BlockSize] == blocks[..keep][(r - 1) / BlockSize];
      }
    }

    /** The growth step of jsvSetMemoryTotal (src/jsvarcache.c:249-262)
        keeping the first keep blocks of the table. */
    method Grow(newCount: nat, keep: nat)
      requires Valid() && size < newCount && keep <= BlocksInUse(size)
      modifies this`blocks, this`size, this`Contents, this`firstEmpty, blocks
      ensures Valid() && size == BlockSize * BlocksInUse(newCount) && |blocks| == BlocksInUse(newCount)
      ensures keep <= |old(blocks)| && blocks[..keep] == old(blocks)[..keep]
      ensures forall r :: 1 <= r <= BlockSize * keep ==> AddrOf(r) == Ptr(old(blocks)[(r - 1) / BlockSize], (r - 1) % BlockSize)
      ensures forall j :: keep <= j < |blocks| ==> fresh(blocks[j])
      ensures forall k :: 0 <= k < old(size) && k < BlockSize * keep ==> Vars()[k] == old(Vars())[k]
      ensures ListIs(Vars(), firstEmpty, Range(old(size) + 1, size + 1))
    {
      var oldSize := size;
      ghost var b0 := blocks;
      ShapeBound();
      var n := BlocksInUse(newCount);
      BlocksInUseMonotone(size, newCount);
      ReplaceTail(keep, n);
      ghost var c1 := Contents;
      size := BlockSize * n;
      ListNew(oldSize);
      forall k | 0 <= k < oldSize && k < BlockSize * keep ensures Vars()[k] == old(Vars())[k] {
        assert Contents[k] == c1[k] == c1[..BlockSize * keep][k];
      }
      KeptAddresses(b0, keep);
    }

    /** The list part of jsvSetMemoryTotal (src/jsvarcache.c:259-262):
        references oldSize+1..size become the free list. */
    method ListNew(oldSize: nat)
      requires Valid() && oldSize < size
      modifies this`Contents, this`firstEmpty, blocks
      ensures Valid() && |Contents| == |old(Contents)|
      ensures forall k :: 0 <= k < oldSize ==> Contents[k] == old(Contents)[k]
      ensures ListIs(Vars(), firstEmpty, Range(oldSize + 1, size + 1))
    {
      var count := size - oldSize;
      assert oldSize + 1 + count == size + 1;
      firstEmpty := InitJsVars(oldSize + 1, count);
    }

    /** The block table of jsvSetMemoryTotal (src/jsvarcache.c:254-257): the
        first keep entries stay and entries keep..n-1 get fresh blocks. */
    method ReplaceTail(keep: nat, n: nat)
      requires Valid() && keep <= |blocks| && keep <= n
      modifies this`blocks, this`Contents
      ensures Tied(blocks, Contents) && |blocks| == n
      ensures blocks[..keep] == old(blocks)[..keep]
      ensures forall j :: keep <= j < n ==> fresh(blocks[j])
      ensures Contents[..BlockSize * keep] == old(Contents)[..BlockSize * keep]
    {
      var t := blocks[..keep];
      ghost var c := Contents[..BlockSize * keep];
      TiedPrefix(blocks, Contents, keep);
      ghost var t0, c0 := t, c;
      var i := keep;
      while i < n
        invariant keep <= i <= n && |t| == i
        invariant Tied(t, c)
        invariant t[..keep] == t0
        invariant forall j :: keep <= j < i ==> fresh(t[j])
        invariant c[..BlockSize * keep] == c0
      {
        var a := new Slot[BlockSize];
        TiedAppend(t, c, a);
        t := t + [a];
        c := c + a[..];
        i := i + 1;
      }
      blocks := t;
      Contents := c;
    }

    /** Once the size is not a multiple of 4096, the slot of reference size
        lies in block FullBlocks(size), which jsvSetMemoryTotal as written
        replaces by a fresh one. */
    lemma FullBlocksMissSlots()
      requires Valid() && size % BlockSize != 0
      ensures (size - 1) / BlockSize == FullBlocks(size) && BlockSize * FullBlocks(size) < size
    {
    }

    // -------------------------------------------------------------------------
    // Capacity queries

    /** jsvGetMemoryUsage (src/jsvarcache.c:220-235). */
    method GetMemoryUsage() returns (usage: nat)
      requires Valid()
      ensures usage == Usage(Vars())
    {
      usage := 0;
      var i := 1;
      while i <= size
        invariant 1 <= i
        invariant usage + UsageFrom(Vars(), i - 1) == Usage(Vars())
        decreases size + 1 - i
      {
        var v := Get(i);
        if v.Used? {
          usage := usage + 1;
          if IsFlatString(v.kind) {
            var b := v.flatBlocks;
            i := i + b;
            usage := usage + b;
          }
        }
        i := i + 1;
      }
    }

    /** jsvGetMemoryTotal (src/jsvarcache.c:238-240). */
    function GetMemoryTotal(): nat
      reads this
    {
      size
    }

    /** Usage plus the length of a free list holding the UNUSED slots the
        scan visits is the total. */
    lemma UsagePlusFreeIsTotal(L: seq<nat>)
      requires Valid() && Fits(Vars())
      requires ListIs(Vars(), firstEmpty, L) && Elements(L) == Elements(FreeRefs(Vars()))
      ensures Usage(Vars()) + |L| == GetMemoryTotal()
    {
      UsagePlusFree(Vars());
      FreeListLength(Vars(), firstEmpty, L);
    }

    /** jsvMoreFreeVariablesThan (src/jsvarcache.c:271-282): walks at most
        vars+1 links of the free list L. */
    method MoreFreeVariablesThan(vars: nat, ghost L: seq<nat>) returns (b: bool)
      requires Valid() && ListIs(Vars(), firstEmpty, L)
      ensures b <==> vars > 0 && |L| > vars
    {
      if vars == 0 { return false; }
      var n: nat := vars;
      var r := firstEmpty;
      ghost var j := 0;
      while r != 0
        invariant 0 <= j <= |L| && n + j == vars
        invariant r == (if j < |L| then L[j] else 0)
        decreases |L| - j
      {
        if n == 0 { return true; }
        n := n - 1;
        var v := Get(r);
        r := NextLink(v);
        j := j + 1;
      }
      return false;
    }

    /** jsvIsMemoryFull (src/jsvarcache.c:285-287). */
    function IsMemoryFull(): bool
      reads this
    {
      firstEmpty == 0
    }

    /** Memory is full exactly when the free list is empty. */
    lemma IsMemoryFullIff(L: seq<nat>)
      requires Valid() && ListIs(Vars(), firstEmpty, L)
      ensures IsMemoryFull() <==> L == []
    {
    }

    // -------------------------------------------------------------------------
    // Free list

    /** jsvSetNextSibling(lastEmpty, x) with lastEmpty 0 standing for the
        temporary record in front of the list, whose link is head. */
    method LinkAfter(lastEmpty: nat, x: nat, head: nat) returns (head': nat)
      requires Valid() && lastEmpty <= size
      modifies this`Contents, blocks
      ensures Valid() && Vars() == Link(old(Vars()), lastEmpty, x)
      ensures head' == (if lastEmpty == 0 then x else head)
    {
      if lastEmpty == 0 {
        head' := x;
      } else {
        var v := Get(lastEmpty);
        Set(lastEmpty, SetNext(v, x));
        head' := head;
      }
    }

    /** Puts slot x on the free list being threaded after lastEmpty; with
        release, first marks it UNUSED (flags = JSV_UNUSED keeps the link
        field). */
    method ListSlot(x: nat, release: bool, lastEmpty: nat, head: nat,
                    ghost base: seq<Slot>, ghost base2: seq<Slot>, ghost L: seq<nat>) returns (head': nat)
      requires Valid() && 1 <= x <= size
      requires Threaded(Vars(), base, L, head, lastEmpty)
      requires (forall y :: y in L ==> y < x) && (release || Vars()[x - 1].Unused?)
      requires |base2| == |base| && forall k :: 0 <= k < |base| && k != x - 1 ==> base2[k] == base[k]
      modifies this`Contents, blocks
      ensures Valid() && Threaded(Vars(), base2, L + [x], head', x)
    {
      var v := Get(x);
      var u := v;
      if release {
        u := Unused(NextLink(v));
        Set(x, u);
      } else {
        assert Vars()[x - 1 := u] == Vars();
      }
      ThreadedAppend(old(Vars()), base, L, head, lastEmpty, x, u, base2);
      head' := LinkAfter(lastEmpty, x, head);
    }

    /** jsvCreateEmptyVarList (src/jsvarcache.c:129-151): links the UNUSED
        slots the scan visits, in ascending order, as the free list;
        occupied slots and the continuation blocks of flat strings are
        untouched and never listed. */
    method CreateEmptyVarList()
      requires Valid() && !isMemoryBusy
      modifies this`Contents, this`firstEmpty, this`isMemoryBusy, blocks
      ensures Valid() && !isMemoryBusy
      ensures ListIs(Vars(), firstEmpty, FreeRefs(old(Vars())))
      ensures forall k :: 0 <= k < size && k + 1 !in FreeRefs(old(Vars())) ==> Vars()[k] == old(Vars())[k]
    {
      isMemoryBusy := true;
      firstEmpty := 0;
      ghost var s0 := Vars();
      var head, lastEmpty, L := ThreadFree(s0);
      head := CloseList(lastEmpty, head, s0, L);
      firstEmpty := head;
      isMemoryBusy := false;
    }

    /** The loop of jsvCreateEmptyVarList (src/jsvarcache.c:138-147): the
        UNUSED slots the scan visits are threaded after the temporary
        record, in ascending order. */
    method ThreadFree(ghost s0: seq<Slot>) returns (head: nat, lastEmpty: nat, ghost L: seq<nat>)
      requires Valid() && Vars() == s0
      modifies this`Contents, blocks
      ensures Valid() && Threaded(Vars(), s0, L, head, lastEmpty) && L == FreeRefs(s0)
    {
      head, lastEmpty, L := 0, 0, [];
      ScannedStart(s0);
      var i := 1;
      ghost var p: nat := 0;
      while i <= size
        invariant Valid() && i == p + 1 && |Vars()| == |s0|
        invariant Scanned(s0, Vars(), L, head, lastEmpty, p)
        decreases size + 1 - i
      {
        var last;
        last, head, lastEmpty, L := ThreadAt(i, head, lastEmpty, s0, L, p);
        i, p := last + 1, last;
      }
      ScannedEnd(s0, Vars(), L, head, lastEmpty, p);
    }

    /** One pass of that loop at reference i: an UNUSED slot is linked after
        lastEmpty; a flat string's continuation blocks are skipped. The
        result is the reference of the last slot of the step. */
    method ThreadAt(i: nat, head: nat, lastEmpty: nat, ghost s0: seq<Slot>, ghost L: seq<nat>, ghost p: nat)
        returns (last: nat, head': nat, lastEmpty': nat, ghost L': seq<nat>)
      requires i == p + 1 && Valid() && |Vars()| == |s0| && i <= size
      requires Scanned(s0, Vars(), L, head, lastEmpty, p)
      modifies this`Contents, blocks
      ensures Valid() && |Vars()| == |s0| && last == NextPos(s0, p)
      ensures Scanned(s0, Vars(), L', head', lastEmpty', last)
    {
      ScannedHere(s0, Vars(), L, head, lastEmpty, p);
      var v := Get(i);
      head', lastEmpty', L', last := head, lastEmpty, L, i;
      if v.Unused? {
        ghost var cur := Vars();
        head' := ListSlot(i, false, lastEmpty, head, s0, s0, L);
        ScannedList(s0, cur, L, head, lastEmpty, p, i, Vars(), head');
        L', lastEmpty' := L + [i], i;
      } else {
        if IsFlatString(v.kind) {
          last := i + v.flatBlocks;
        }
        ScannedKeep(s0, Vars(), L, head, lastEmpty, p, last);
      }
    }

    /** jsvSetNextSibling(lastEmpty, 0) and jsVarFirstEmpty = the temporary
        record's link: the threaded list becomes the free list. */
    method CloseList(lastEmpty: nat, head: nat, ghost base: seq<Slot>, ghost L: seq<nat>) returns (head': nat)
      requires Valid() && Threaded(Vars(), base, L, head, lastEmpty)
      modifies this`Contents, blocks
      ensures Valid() && head' == head
      ensures ListIs(Vars(), head', L)
      ensures forall k :: 0 <= k < |base| && k + 1 !in L ==> Vars()[k] == base[k]
    {
      ThreadedFinish(Vars(), base, L, head, lastEmpty);
      head' := LinkAfter(lastEmpty, 0, head);
    }

    /** jsvClearEmptyVarList (src/jsvarcache.c:156-172): every UNUSED slot
        the scan visits becomes all-zero and the free list is empty. */
    method ClearEmptyVarList()
      requires Valid() && !isMemoryBusy
      modifies this`Contents, this`firstEmpty, this`isMemoryBusy, blocks
      ensures Valid() && !isMemoryBusy && firstEmpty == 0
      ensures Vars() == Cleared(old(Vars()))
    {
      isMemoryBusy := true;
      firstEmpty := 0;
      ClearFree();
      isMemoryBusy := false;
    }

    /** The loop of jsvClearEmptyVarList (src/jsvarcache.c:161-170). */
    method ClearFree()
      requires Valid()
      modifies this`Contents, blocks
      ensures Valid() && Vars() == Cleared(old(Vars()))
    {
      ghost var s0 := Vars();
      ClearStart(s0);
      var i := 1;
      ghost var p: nat := 0;
      while i <= size
        invariant Valid() && i == p + 1 && ClearLoop(s0, Vars(), p)
        decreases size + 1 - i
      {
        ClearStep(s0, Vars(), p);
        var v := Get(i);
        if v.Unused? {
          Set(i, Zero);
        } else if IsFlatString(v.kind) {
          i := i + v.flatBlocks;
        }
        i := i + 1;
        p := NextPos(s0, p);
      }
      ClearEnd(s0, Vars(), p);
    }

    /** jsvSoftInit (src/jsvarcache.c:174-176). */
    method SoftInit()
      requires Valid() && !isMemoryBusy
      modifies this`Contents, this`firstEmpty, this`isMemoryBusy, blocks
      ensures Valid() && !isMemoryBusy
      ensures ListIs(Vars(), firstEmpty, FreeRefs(old(Vars())))
      ensures forall k :: 0 <= k < size && k + 1 !in FreeRefs(old(Vars())) ==> Vars()[k] == old(Vars())[k]
    {
      CreateEmptyVarList();
    }

    /** jsvSoftKill (src/jsvarcache.c:178-180). */
    method SoftKill()
      requires Valid() && !isMemoryBusy
      modifies this`Contents, this`firstEmpty, this`isMemoryBusy, blocks
      ensures Valid() && !isMemoryBusy && firstEmpty == 0
      ensures Vars() == Cleared(old(Vars()))
    {
      ClearEmptyVarList();
    }

    // -------------------------------------------------------------------------
    // Mark phase

    /** The string loop of jsvGarbageCollectMarkUsed (src/jsvarcache.c:327-336):
        clears the candidate bit of every slot of the walk W that starts at
        c and follows lastChild, and of nothing else. */
    method MarkString(c: nat, ghost s0: seq<Slot>, ghost W: seq<nat>)
      requires Valid() && SameUpToMarks(s0, Vars())
      requires c <= size && WalkFrom(s0, StringChain, c, W)
      modifies this`Contents, blocks
      ensures Valid() && SameUpToMarks(s0, Vars()) && ClearsOnly(old(Vars()), Vars())
      ensures forall x :: x in W ==> !Marked(Vars(), x - 1)
      ensures forall k :: NewlyUnmarked(old(Vars()), Vars(), k) ==> k + 1 in W
    {
      ghost var e := Vars();
      StringLoopStart(s0, e, W);
      var child := c;
      ghost var j := 0;
      while child != 0
        invariant Valid() && j <= |W| && child == (if j < |W| then W[j] else 0)
        invariant StringLoop(s0, e, Vars(), W, j)
        decreases |W| - j
      {
        child := MarkStringStep(child, s0, e, W, j);
        j := j + 1;
      }
      StringLoopEnd(s0, e, Vars(), W);
    }

    /** One pass of that loop: clears the bit of child, the j-th slot of W,
        and returns its lastChild, the next slot of W or 0. */
    method MarkStringStep(child: nat, ghost s0: seq<Slot>, ghost e: seq<Slot>, ghost W: seq<nat>, ghost j: nat)
        returns (next: nat)
      requires Valid() && WalkShape(s0, StringChain, W) && j < |W| && child == W[j]
      requires StringLoop(s0, e, Vars(), W, j)
      modifies this`Contents, blocks
      ensures Valid() && StringLoop(s0, e, Vars(), W, j + 1)
      ensures next == if j + 1 < |W| then W[j + 1] else 0
    {
      ghost var cur := Vars();
      StringLoopStep(s0, e, cur, W, j);
      var v := UnmarkAt(child);
      assert Vars() == cur[W[j] - 1 := Unmark(cur[W[j] - 1])];
      next := LastLink(v);
    }

    /** jsvGarbageCollectMarkUsed (src/jsvarcache.c:324-354) on reference r:
        clears r, the string chain below it, and, through recursive calls
        on children whose bit is still set, everything reachable below it.
        None of the links change. */
    method MarkUsed(r: nat, ghost s0: seq<Slot>)
      requires Valid() && GcGraphOk(s0) && SameUpToMarks(s0, Vars())
      requires 1 <= r <= size && InScan(s0, r - 1)
      modifies this`Contents, blocks
      ensures Valid() && SameUpToMarks(s0, Vars())
      ensures MarkedBelow(s0, old(Vars()), Vars(), r)
      ensures !Marked(Vars(), r - 1) && ClosedAt(s0, Vars(), r)
      decreases MarkedCount(Vars()) + (if Marked(Vars(), r - 1) then 0 else 1), 3
    {
      ghost var e := Vars();
      var v := UnmarkAt(r);
      SameUpToMarkLinks(s0[r - 1], v);
      UnmarkOne(s0, e, e, r - 1);
      ghost var s1 := Vars();
      MarkedCountClears(e, s1, r - 1);
      ghost var W := MarkStringOf(r, v, s0);
      ghost var s2 := Vars();
      MarkedCountClears(s1, s2, 0);
      MarkLinks(r, v, s0);
      MarkUsedDone(s0, e, s1, s2, Vars(), r, W);
    }

    /** The string part of jsvGarbageCollectMarkUsed (src/jsvarcache.c:327-336)
        on the record v of reference r: when v holds characters, clears the
        chain W below it, which is closed and reached from r. */
    method MarkStringOf(r: nat, v: Slot, ghost s0: seq<Slot>) returns (ghost W: seq<nat>)
      requires Valid() && GcGraphOk(s0) && SameUpToMarks(s0, Vars())
      requires 1 <= r <= size && InScan(s0, r - 1) && SameUpToMark(s0[r - 1], v)
      modifies this`Contents, blocks
      ensures Valid() && SameUpToMarks(s0, Vars()) && ClearsOnly(old(Vars()), Vars())
      ensures forall k :: NewlyUnmarked(old(Vars()), Vars(), k) ==> k + 1 in W
      ensures forall x :: x in W ==> !Marked(Vars(), x - 1)
      ensures ChainClosed(s0, W) && AllReached(s0, r, W)
      ensures s0[r - 1].Used? && HasCharacterData(s0[r - 1].kind) && s0[r - 1].lastChild != 0 ==> s0[r - 1].lastChild in W
    {
      SameUpToMarkLinks(s0[r - 1], v);
      W := [];
      if v.Used? && HasCharacterData(v.kind) {
        StringChainFacts(s0, r);
        W := Chain(s0, StringChain, v.lastChild);
        MarkString(v.lastChild, s0, W);
      } else {
        assert ClearsOnly(Vars(), Vars());
      }
    }

    /** The child part of jsvGarbageCollectMarkUsed (src/jsvarcache.c:338-353)
        on the record v of reference r: marks below the single child, or
        below every child of the list, whose bit is still set. */
    method MarkLinks(r: nat, v: Slot, ghost s0: seq<Slot>)
      requires Valid() && GcGraphOk(s0) && SameUpToMarks(s0, Vars())
      requires 1 <= r <= size && InScan(s0, r - 1) && SameUpToMark(s0[r - 1], v)
      modifies this`Contents, blocks
      ensures Valid() && SameUpToMarks(s0, Vars())
      ensures MarkedBelow(s0, old(Vars()), Vars(), r) && ChildrenClosed(s0, Vars(), r)
      decreases MarkedCount(Vars()) + 1, 2
    {
      SameUpToMarkLinks(s0[r - 1], v);
      MarkedBelowNone(s0, Vars(), r);
      if v.Used? && HasSingleChild(v.kind) {
        if v.firstChild != 0 {
          var ch := v.firstChild;
          assert Edge(s0, r, ch);
          var cv := Get(ch);
          if IsMarked(cv) {
            MarkUsed(ch, s0);
            MarkedBelowEdge(s0, old(Vars()), Vars(), r, ch);
          }
        }
      } else if v.Used? && HasChildren(v.kind) {
        MarkChildren(r, v.firstChild, s0);
      }
    }

    /** The children loop of jsvGarbageCollectMarkUsed (src/jsvarcache.c:344-353):
        walks the sibling chain from c, the first child of r, and marks
        below every child whose bit is still set. */
    method MarkChildren(r: nat, c: nat, ghost s0: seq<Slot>)
      requires Valid() && GcGraphOk(s0) && SameUpToMarks(s0, Vars())
      requires 1 <= r <= size && InScan(s0, r - 1) && s0[r - 1].Used?
      requires !HasSingleChild(s0[r - 1].kind) && HasChildren(s0[r - 1].kind) && c == s0[r - 1].firstChild
      modifies this`Contents, blocks
      ensures Valid() && SameUpToMarks(s0, Vars())
      ensures MarkedBelow(s0, old(Vars()), Vars(), r)
      ensures forall x :: x in Chain(s0, Siblings, c) ==> !Marked(Vars(), x - 1)
      decreases MarkedCount(Vars()) + 1, 1
    {
      ghost var C := Chain(s0, Siblings, c);
      ghost var e := Vars();
      ChildLoopStart(s0, e, r, C);
      ChainFacts(s0, Siblings, c);
      var child := c;
      ghost var j := 0;
      while child != 0
        invariant Valid() && j <= |C| && child == (if j < |C| then C[j] else 0)
        invariant ChildLoop(s0, e, Vars(), r, C, j) && MarkedCount(Vars()) <= MarkedCount(e)
        decreases |C| - j
      {
        child := MarkChild(r, child, s0, e, C, j);
        j := j + 1;
      }
      ChildLoopEnd(s0, e, Vars(), r, C);
    }

    /** One step of the children loop (src/jsvarcache.c:346-352): marks
        below the child C[j] of r if its bit is still set, and moves on to
        its next sibling. */
    method MarkChild(r: nat, child: nat, ghost s0: seq<Slot>, ghost e: seq<Slot>, ghost C: seq<nat>, ghost j: nat)
        returns (next: nat)
      requires Valid() && GcGraphOk(s0) && SameUpToMarks(s0, Vars()) && 1 <= r <= size && InScan(s0, r - 1) && s0[r - 1].Used?
      requires !HasSingleChild(s0[r - 1].kind) && HasChildren(s0[r - 1].kind)
      requires C == Chain(s0, Siblings, s0[r - 1].firstChild) && j < |C| && child == C[j]
      requires ChildLoop(s0, e, Vars(), r, C, j)
      modifies this`Contents, blocks
      ensures Valid() && ChildLoop(s0, e, Vars(), r, C, j + 1)
      ensures MarkedCount(Vars()) <= MarkedCount(old(Vars()))
      ensures next == if j + 1 < |C| then C[j + 1] else 0
      decreases MarkedCount(Vars()) + 1, 0
    {
      ghost var cur := Vars();
      ChildEdges(s0, r, C, j);
      var cv := Get(child);
      SameUpToMarkLinks(s0[child - 1], cv);
      if IsMarked(cv) {
        MarkUsed(child, s0);
        MarkedCountClears(cur, Vars(), 0);
      }
      ChildLoopStep(s0, e, cur, Vars(), r, C, j);
      next := NextLink(cv);
    }

    // -------------------------------------------------------------------------
    // Garbage collection

    /** The tag loop of jsvGarbageCollect (src/jsvarcache.c:361-370): every
        occupied record the scan visits gets the candidate bit. */
    method TagAll()
      requires Valid()
      modifies this`Contents, blocks
      ensures Valid() && Vars() == Tag(old(Vars()))
    {
      ghost var s0 := Vars();
      TagStart(s0);
      var i := 1;
      while i <= size
        invariant Valid() && 1 <= i && TagLoop(s0, Vars(), i - 1)
        decreases size + 1 - i
      {
        TagStep(s0, Vars(), i - 1);
        var v := Get(i);
        if v.Used? {
          Set(i, Mark(v));
          if IsFlatString(v.kind) {
            i := i + v.flatBlocks;
          }
        } else {
          assert Vars()[i - 1 := Mark(v)] == Vars();
        }
        i := i + 1;
      }
      TagEnd(s0, Vars(), i - 1);
    }

    /** The root loop of jsvGarbageCollect (src/jsvarcache.c:371-380): the
        mark phase runs from every visited locked record that still has its
        candidate bit. */
    method MarkRoots(ghost s0: seq<Slot>)
      requires Valid() && GcGraphOk(s0) && Vars() == Tag(s0)
      modifies this`Contents, blocks
      ensures Valid() && MarkResult(s0, Vars())
    {
      RootStart(s0);
      var i := 1;
      ghost var p: nat := 0;
      while i <= size
        invariant Valid() && i == p + 1 && |Vars()| == |s0| && RootLoop(s0, Vars(), p)
        decreases size + 1 - i
      {
        var last := RootAt(i, s0, p);
        i, p := last + 1, last;
      }
      RootEnd(s0, Vars(), p);
    }

    /** One pass of that loop at reference i: a marked locked record is a
        root, and the mark phase runs from it. The result is the reference
        of the last slot of the step. */
    method RootAt(i: nat, ghost s0: seq<Slot>, ghost p: nat) returns (last: nat)
      requires Valid() && GcGraphOk(s0) && i == p + 1 && i <= size && |Vars()| == |s0|
      requires RootLoop(s0, Vars(), p)
      modifies this`Contents, blocks
      ensures Valid() && |Vars()| == |s0| && last == NextPos(s0, p) && RootLoop(s0, Vars(), last)
    {
      ghost var cur := Vars();
      var v := Get(i);
      SameUpToMarkLinks(s0[p], v);
      if IsMarked(v) && Locks(v) > 0 {
        MarkUsed(i, s0);
      }
      RootStep(s0, cur, Vars(), p);
      last := i;
      if v.Used? && IsFlatString(v.kind) {
        last := i + v.flatBlocks;
      }
    }

    /** The sweep loop of jsvGarbageCollect (src/jsvarcache.c:390-456) over
        the pool m the mark phase left: frees what is still marked, calls
        jsvUnRef on the live single children of freed records, and threads
        every UNUSED slot of the result, in ascending order, after the
        temporary record. */
    method SweepAll(ghost m: seq<Slot>) returns (freed: bool, head: nat, lastEmpty: nat, ghost L: seq<nat>)
      requires Valid() && Vars() == m && Fits(m) && LinksInRange(m)
      modifies this`Contents, blocks, this`unRefCalls
      ensures Valid() && Threaded(Vars(), Released(m), L, head, lastEmpty) && L == FreeRefs(Released(m))
      ensures freed == AnyMarked(m) && unRefCalls == old(unRefCalls) + UnrefTargets(m)
    {
      freed, head, lastEmpty, L := false, 0, 0, [];
      ghost var U: seq<nat> := [];
      SweptStart(m);
      TallyStart(m);
      var i := 1;
      ghost var p: nat := 0;
      ghost var base := unRefCalls;
      while i <= size
        invariant Valid() && |Vars()| == |m| && i == p + 1 && (p < |m| ==> InScan(m, p))
        invariant Swept(m, Vars(), L, head, lastEmpty, p)
        invariant unRefCalls == base + U && Tally(m, freed, U, p)
        decreases size + 1 - i
      {
        var last;
        last, freed, head, lastEmpty, L, U := SweepStep(i, freed, head, lastEmpty, m, L, U, base, p);
        i, p := last + 1, last;
      }
      SweptEnd(m, Vars(), L, head, lastEmpty, p);
      TallyEnd(m, freed, U, p);
    }

    /** One pass of the sweep loop at reference i, with the loop's
        bookkeeping: the freedSomething flag and the jsvUnRef calls so far. */
    method SweepStep(i: nat, freed: bool, head: nat, lastEmpty: nat, ghost m: seq<Slot>, ghost L: seq<nat>,
                     ghost U: seq<nat>, ghost base: seq<nat>, ghost p: nat)
        returns (last: nat, freed': bool, head': nat, lastEmpty': nat, ghost L': seq<nat>, ghost U': seq<nat>)
      requires i == p + 1
      requires Valid() && |Vars()| == |m| && Fits(m) && LinksInRange(m)
      requires 1 <= i <= |m| && InScan(m, p)
      requires Swept(m, Vars(), L, head, lastEmpty, p)
      requires unRefCalls == base + U && Tally(m, freed, U, p)
      modifies this`Contents, blocks, this`unRefCalls
      ensures Valid() && |Vars()| == |m| && last == NextPos(m, p) && (last < |m| ==> InScan(m, last))
      ensures Swept(m, Vars(), L', head', lastEmpty', last)
      ensures unRefCalls == base + U' && Tally(m, freed', U', last)
    {
      TallyStep(m, freed, U, p);
      var marked;
      last, marked, head', lastEmpty', L' := SweepAt(i, head, lastEmpty, m, L, p);
      freed' := freed || marked;
      U' := U + UnrefAt(m, p);
      Assoc(base, U, UnrefAt(m, p));
      if last < |m| {
        InScanNext(m, 0, p);
      }
    }

    /** The body of the sweep loop at reference i (src/jsvarcache.c:390-456):
        a marked slot is released (a flat string with its continuation
        blocks), an UNUSED one is relisted, an unmarked record is kept; the
        result is the reference of the last slot of the step. */
    method SweepAt(i: nat, head: nat, lastEmpty: nat, ghost m: seq<Slot>, ghost L: seq<nat>, ghost p: nat)
        returns (last: nat, marked: bool, head': nat, lastEmpty': nat, ghost L': seq<nat>)
      requires i == p + 1
      requires Valid() && |Vars()| == |m| && Fits(m) && LinksInRange(m)
      requires 1 <= i <= |m| && InScan(m, p)
      requires Swept(m, Vars(), L, head, lastEmpty, p)
      modifies this`Contents, blocks, this`unRefCalls
      ensures Valid() && |Vars()| == |m| && last == NextPos(m, p)
      ensures Swept(m, Vars(), L', head', lastEmpty', last)
      ensures marked == IsMarked(m[p]) && unRefCalls == old(unRefCalls) + UnrefAt(m, p)
    {
      SweptHere(m, Vars(), L, head, lastEmpty, p);
      FitsVisited(m, 0, p);
      var v := Get(i);
      marked := IsMarked(v);
      if marked {
        last, head', lastEmpty', L' := Release(i, v, head, lastEmpty, m, L, p);
      } else {
        last, head', lastEmpty', L' := KeepOrRelist(i, v, head, lastEmpty, m, L, p);
      }
    }

    /** A marked slot at reference i: a flat string is released with its
        continuation blocks, any other record on its own. */
    method Release(i: nat, v: Slot, head: nat, lastEmpty: nat, ghost m: seq<Slot>, ghost L: seq<nat>, ghost p: nat)
        returns (last: nat, head': nat, lastEmpty': nat, ghost L': seq<nat>)
      requires i == p + 1
      requires Valid() && |Vars()| == |m| && LinksInRange(m) && 1 <= i <= |m| && InScan(m, p)
      requires NextPos(m, p) <= |m| && v == m[p] && IsMarked(v)
      requires Swept(m, Vars(), L, head, lastEmpty, p)
      modifies this`Contents, blocks, this`unRefCalls
      ensures Valid() && |Vars()| == |m| && last == NextPos(m, p)
      ensures Swept(m, Vars(), L', head', lastEmpty', last)
      ensures unRefCalls == old(unRefCalls) + UnrefAt(m, p)
    {
      if IsFlatString(v.kind) {
        last, head', lastEmpty', L' := FreeFlat(i, v.flatBlocks, head, lastEmpty, m, L, p);
        assert UnrefAt(m, p) == [];
      } else {
        head', L' := FreeRecord(i, v, head, lastEmpty, m, L, p);
        last, lastEmpty' := i, i;
      }
    }

    /** An unmarked slot at reference i: an occupied one is kept (a flat
        string with its continuation blocks), an UNUSED one is relisted. */
    method KeepOrRelist(i: nat, v: Slot, head: nat, lastEmpty: nat, ghost m: seq<Slot>, ghost L: seq<nat>, ghost p: nat)
        returns (last: nat, head': nat, lastEmpty': nat, ghost L': seq<nat>)
      requires i == p + 1
      requires Valid() && |Vars()| == |m| && 1 <= i <= |m| && InScan(m, p) && NextPos(m, p) <= |m|
      requires v == m[p] && !IsMarked(v)
      requires Swept(m, Vars(), L, head, lastEmpty, p)
      modifies this`Contents, blocks
      ensures Valid() && |Vars()| == |m| && last == NextPos(m, p)
      ensures Swept(m, Vars(), L', head', lastEmpty', last)
      ensures unchanged(this`unRefCalls)
    {
      last, head', lastEmpty', L' := i, head, lastEmpty, L;
      if v.Used? {
        if IsFlatString(v.kind) {
          last := i + v.flatBlocks;
        }
        SweptKeep(m, Vars(), L, head, lastEmpty, p, last);
      } else {
        FreedVisited(m, p);
        head' := ListSwept(i, false, lastEmpty, head, m, L, p);
        L', lastEmpty' := L + [i], i;
      }
    }

    /** Lists reference x, whose slot the sweep releases (release) or finds
        UNUSED, after lastEmpty. */
    method ListSwept(x: nat, release: bool, lastEmpty: nat, head: nat, ghost m: seq<Slot>, ghost L: seq<nat>, ghost p: nat)
        returns (head': nat)
      requires x == p + 1
      requires Valid() && |Vars()| == |m| && 1 <= x <= |m| && Released(m)[p].Unused?
      requires release || m[p].Unused?
      requires Swept(m, Vars(), L, head, lastEmpty, p)
      modifies this`Contents, blocks
      ensures Valid() && |Vars()| == |m| && Swept(m, Vars(), L + [x], head', x, x)
    {
      ghost var cur := Vars();
      SweptHere(m, cur, L, head, lastEmpty, p);
      UptoStep(m, p);
      head' := ListSlot(x, release, lastEmpty, head, Upto(m, p), Upto(m, x), L);
      SweptList(m, cur, L, head, lastEmpty, p, x, Vars(), head');
    }

    /** A marked flat string at reference i (src/jsvarcache.c:394-410): its
        head and its count continuation blocks become UNUSED and are listed
        in order; the result is the reference of the last block. */
    method FreeFlat(i: nat, count: nat, head: nat, lastEmpty: nat, ghost m: seq<Slot>, ghost L: seq<nat>, ghost p: nat)
        returns (last: nat, head': nat, lastEmpty': nat, ghost L': seq<nat>)
      requires i == p + 1
      requires Valid() && |Vars()| == |m| && 1 <= i <= |m| && InScan(m, p) && NextPos(m, p) <= |m|
      requires IsMarked(m[p]) && IsFlatString(m[p].kind) && count == m[p].flatBlocks
      requires Swept(m, Vars(), L, head, lastEmpty, p)
      modifies this`Contents, blocks
      ensures Valid() && |Vars()| == |m| && last == i + count == NextPos(m, p)
      ensures Swept(m, Vars(), L', head', lastEmpty', last)
    {
      assert NextPos(m, p) == i + count;
      head', lastEmpty', L' := head, lastEmpty, L;
      last := i - 1;
      assert last == p;
      var n: nat := count + 1;
      while n > 0
        invariant Valid() && |Vars()| == |m| && p <= last && last + n == i + count
        invariant Swept(m, Vars(), L', head', lastEmpty', last)
        decreases n
      {
        var x := last + 1;
        FlatRunReleased(m, p, last);
        head' := ListSwept(x, true, lastEmpty', head', m, L', last);
        L', lastEmpty', last := L' + [x], x, x;
        n := n - 1;
      }
    }

    /** A marked record that is not a flat string, at reference i
        (src/jsvarcache.c:411-447): jsvUnRef on its single child when that
        child is occupied and unmarked, then the slot becomes UNUSED and is
        listed. */
    method FreeRecord(i: nat, v: Slot, head: nat, lastEmpty: nat, ghost m: seq<Slot>, ghost L: seq<nat>, ghost p: nat)
        returns (head': nat, ghost L': seq<nat>)
      requires i == p + 1
      requires Valid() && |Vars()| == |m| && LinksInRange(m) && 1 <= i <= |m| && InScan(m, p)
      requires v == m[p] && IsMarked(v) && !IsFlatString(v.kind)
      requires Swept(m, Vars(), L, head, lastEmpty, p)
      modifies this`Contents, blocks, this`unRefCalls
      ensures Valid() && |Vars()| == |m| && Swept(m, Vars(), L', head', i, i) && L' == L + [i]
      ensures unRefCalls == old(unRefCalls) + UnrefAt(m, p)
    {
      UnrefChild(v, head, lastEmpty, m, L, p);
      FreedVisited(m, p);
      head' := ListSwept(i, true, lastEmpty, head, m, L, p);
      L' := L + [i];
    }

    /** The jsvUnRef call of the sweep on a released record's single child
        that is still occupied and unmarked (src/jsvarcache.c:413-426). */
    method UnrefChild(v: Slot, head: nat, lastEmpty: nat, ghost m: seq<Slot>, ghost L: seq<nat>, ghost p: nat)
      requires Valid() && |Vars()| == |m| && LinksInRange(m) && p < |m| && InScan(m, p) && v == m[p] && IsMarked(v)
      requires Swept(m, Vars(), L, head, lastEmpty, p)
      modifies this`unRefCalls
      ensures unRefCalls == old(unRefCalls) + UnrefAt(m, p)
    {
      if HasSingleChild(v.kind) {
        var ch := v.firstChild;
        if ch != 0 {
          SweptChild(m, Vars(), L, head, lastEmpty, p, ch);
          var cv := Get(ch);
          if cv.Used? && !IsMarked(cv) {
            UnRef(ch);
          }
        }
      }
    }

    /** jsvGarbageCollect (src/jsvarcache.c:357-463). When the pool is busy
        nothing happens and false is returned. Otherwise, with s0 the pool
        on entry and m the pool the mark phase leaves: the free list is
        the scan's free list of Released(m), every other slot agrees with
        Released(m), jsvUnRef was called on UnrefTargets(m), and the result
        says whether anything was freed. AfterSweep(m, Vars()) is what
        Rerun.SecondCollectFreesNothing needs of the first call. */
    method GarbageCollect() returns (freed: bool, ghost m: seq<Slot>)
      requires Valid() && (!isMemoryBusy ==> GcGraphOk(Vars()) && Fits(Vars()))
      modifies this`Contents, blocks, this`isMemoryBusy, this`firstEmpty, this`unRefCalls
      ensures Valid() && size == old(size)
      ensures old(isMemoryBusy) ==> !freed && isMemoryBusy && Vars() == old(Vars()) &&
                                    firstEmpty == old(firstEmpty) && unRefCalls == old(unRefCalls)
      ensures !old(isMemoryBusy) ==> !isMemoryBusy && MarkResult(old(Vars()), m) &&
                                     ListIs(Vars(), firstEmpty, FreeRefs(Released(m))) &&
                                     (forall k :: 0 <= k < size && k + 1 !in FreeRefs(Released(m)) ==> Vars()[k] == Released(m)[k]) &&
                                     (freed <==> AnyMarked(m)) && unRefCalls == old(unRefCalls) + UnrefTargets(m) &&
                                     AfterSweep(m, Vars())
    {
      m := Vars();
      if isMemoryBusy {
        return false, m;
      }
      isMemoryBusy := true;
      m := MarkPhase();
      freed := SweepPhase(m);
      isMemoryBusy := false;
    }

    /** The first two loops of jsvGarbageCollect (src/jsvarcache.c:361-380):
        tag every occupied slot, then clear the tag of everything reachable
        from a locked record. */
    method MarkPhase() returns (ghost m: seq<Slot>)
      requires Valid() && GcGraphOk(Vars()) && Fits(Vars())
      modifies this`Contents, blocks
      ensures Valid() && Vars() == m && MarkResult(old(Vars()), m) && Fits(m) && LinksInRange(m)
    {
      ghost var s0 := Vars();
      TagAll();
      MarkRoots(s0);
      m := Vars();
      MarkKeepsShape(s0, m);
    }

    /** The sweep of jsvGarbageCollect (src/jsvarcache.c:385-460): release
        what is still tagged, call jsvUnRef as the sweep does, and rebuild
        the free list from every UNUSED slot it visits. */
    method SweepPhase(ghost m: seq<Slot>) returns (freed: bool)
      requires Valid() && Vars() == m && Fits(m) && LinksInRange(m)
      modifies this`Contents, blocks, this`firstEmpty, this`unRefCalls
      ensures Valid() && ListIs(Vars(), firstEmpty, FreeRefs(Released(m)))
      ensures forall k :: 0 <= k < size && k + 1 !in FreeRefs(Released(m)) ==> Vars()[k] == Released(m)[k]
      ensures (freed <==> AnyMarked(m)) && unRefCalls == old(unRefCalls) + UnrefTargets(m)
    {
      firstEmpty := 0;
      var head, lastEmpty;
      ghost var L;
      freed, head, lastEmpty, L := SweepAll(m);
      head := CloseList(lastEmpty, head, Released(m), L);
      firstEmpty := head;
    }

    /** jsvUnRef, outside this model: only the call is recorded. */
    method UnRef(r: nat)
      modifies this`unRefCalls
      ensures unRefCalls == old(unRefCalls) + [r]
    {
      unRefCalls := unRefCalls + [r];
    }
  }
}
