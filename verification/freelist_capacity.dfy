/** What a zone managed by ccontrol/src/lib/freelist.c can hold: the largest
    request a fresh zone grants, the fact that freeing a block undoes its
    allocation, and how many bytes a run of allocations needs. */
module FreelistCapacity {
  import opened FreelistLayout
  import opened FreelistModel

  // ---------------------------------------------------------------------
  // The largest request of a fresh zone
  // ---------------------------------------------------------------------

  /** The largest request ccontrol/tests/fl.c expects a fresh zone of
      `extent` bytes to grant: the zone less ALLOCATOR_OVERHEAD. */
  function TestMax(extent: nat): int
  {
    extent - ALLOCATOR_OVERHEAD
  }

  /** The largest request a fresh zone of `extent` bytes grants: the free
      bytes rounded down to a whole number of records, less one header. */
  function MaxRequest(extent: nat): (n: nat)
    requires extent >= 2 * FL_SIZE
    ensures n + HEADER_SIZE <= extent - FL_SIZE
  {
    var free := extent - FL_SIZE;
    free - free % FL_SIZE - HEADER_SIZE
  }

  /** The intended fl_adjustsize never decreases as the request grows (in
      size_t it does, see WrappedAdjustNotMonotone). */
  lemma {:induction false} AdjustSizeMonotone(n: nat, m: nat)
    requires n <= m
    ensures AdjustSize(n) <= AdjustSize(m)
  {
    var r, q := AdjustSize(n), AdjustSize(m);
    if q < r {
      Gap(q, r);
    }
  }

  /** Distinct multiples of sizeof(fl) lie at least sizeof(fl) apart. */
  lemma Gap(x: nat, y: nat)
    requires x % FL_SIZE == 0 && y % FL_SIZE == 0 && x < y
    ensures x + FL_SIZE <= y
  {
  }

  /** A request that fills a whole number of records with its header is
      not rounded, and one byte more takes one more record. */
  lemma {:induction false} AdjustAligned(t: nat)
    requires t % FL_SIZE == 0 && t >= FL_SIZE
    ensures AdjustSize(t - HEADER_SIZE) == t
    ensures AdjustSize(t - HEADER_SIZE + 1) == t + FL_SIZE
  {
    assert (t + 1) % FL_SIZE == 1;
  }

  /** A fresh zone grants MaxRequest(extent) bytes and refuses every larger
      request. */
  lemma {:induction false} MaxRequestGranted(extent: nat)
    requires extent >= 2 * FL_SIZE
    ensures Allocate(Init(extent), MaxRequest(extent)).ptr.At?
    ensures forall n :: n > MaxRequest(extent) ==> Allocate(Init(extent), n).ptr.Null?
  {
    var h := Init(extent);
    var m := MaxRequest(extent);
    var t := m + HEADER_SIZE;
    assert t % FL_SIZE == 0;
    AdjustAligned(t);
    assert h.chunks[0].free && h.chunks[0].size >= AdjustSize(m);
    assert FirstFit(h.chunks, AdjustSize(m)) == 0;
    forall n | n > m ensures Allocate(h, n).ptr.Null? {
      AdjustSizeMonotone(m + 1, n);
    }
  }

  /** The test's expectation is right exactly for zones whose size is a
      whole number of records. */
  lemma {:induction false} TestMaxAligned(extent: nat)
    requires extent >= 2 * FL_SIZE
    ensures TestMax(extent) == MaxRequest(extent) <==> extent % FL_SIZE == 0
  {
  }

  /** The fl.c test asserts that a 500-byte zone grants 500 -
      ALLOCATOR_OVERHEAD = 476 bytes; it refuses them, because 476 plus a
      header rounds up to 496 while the zone holds 484 free bytes. */
  lemma TestMaxRefused()
    ensures TestMax(500) == 476
    ensures Allocate(Init(500), 476).ptr.Null?
    ensures MaxRequest(500) == 472 && Allocate(Init(500), 472).ptr.At?
  {
    assert AdjustSize(476) == 496;
    MaxRequestGranted(500);
  }

  // ---------------------------------------------------------------------
  // Requests near SIZE_MAX
  // ---------------------------------------------------------------------

  /** In size_t, fl_adjustsize falls back to small sizes at the top of the
      range: SIZE_MAX - 23 adjusts to SIZE_MAX - 15, one byte more to 0, and
      SIZE_MAX itself to a single record. */
  lemma WrappedAdjustNotMonotone()
    ensures AdjustSizeWrapped(SIZE_MOD - 24) == SIZE_MOD - 16
    ensures AdjustSizeWrapped(SIZE_MOD - 23) == 0
    ensures AdjustSizeWrapped(SIZE_MOD - 8) == 0
    ensures AdjustSizeWrapped(SIZE_MOD - 1) == FL_SIZE
  {
  }

  /** fl_allocate as written serves the largest requests from a fresh
      64-byte zone: SIZE_MAX gets one 16-byte record carved from the top of
      the free node, and SIZE_MAX - 7 gets a pointer past the end of the
      zone, behind an empty record. */
  lemma SizeMaxGranted()
    ensures AllocateWrapped(Init(64), SIZE_MOD - 1)
         == AllocResult(Heap(32, [Chunk(16, 32, true), Chunk(48, 16, false)], 64), At(56))
    ensures AllocateWrapped(Init(64), SIZE_MOD - 8).ptr == At(72)
    ensures AllocateWrapped(Init(64), SIZE_MOD - 8).heap.avail == 48
  {
    WrappedAdjustNotMonotone();
    var c := Init(64).chunks;
    assert FirstFit(c, FL_SIZE) == 0 && FirstFit(c, 0) == 0;
  }

  /** With the intended size, fl_allocate agrees with the code as written
      wherever fl_adjustsize does not wrap, and refuses, leaving the zone
      alone, wherever it wraps: the exact size then exceeds any size_t head
      count. */
  lemma HugeRequestRefused(h: Heap, n: nat)
    requires n < SIZE_MOD && h.avail < SIZE_MOD
    ensures n + HEADER_SIZE + FL_SIZE <= SIZE_MOD ==> Allocate(h, n) == AllocateWrapped(h, n)
    ensures n + HEADER_SIZE + FL_SIZE > SIZE_MOD ==> Allocate(h, n) == AllocResult(h, Null)
  {
  }

  // ---------------------------------------------------------------------
  // Freeing undoes allocating
  // ---------------------------------------------------------------------

  /** Freeing the block fl_allocate just handed out puts back the records
      the zone had before, and the head's count grows by the block's size,
      which is at least the adjusted request. */
  lemma {:induction false} FreeUndoesAllocate(h: Heap, n: nat)
    requires WellFormed(h)
    requires Allocate(h, n).ptr.At?
    ensures var r := Allocate(h, n);
            && CanFree(r.heap, r.ptr)
            && Free(r.heap, r.ptr).chunks == h.chunks
            && Free(r.heap, r.ptr).extent == h.extent
            && Free(r.heap, r.ptr).avail >= h.avail
  {
    var r := Allocate(h, n);
    BlockFound(h, n);
    UndoCarve(h.chunks, FirstFit(h.chunks, AdjustSize(n)), AdjustSize(n), r.heap, r.ptr);
  }

  /** Freeing the block carved from c[j] merges the carved run back into
      c[j]; the head's count grows by the block's size. */
  lemma {:induction false} UndoCarve(c: seq<Chunk>, j: nat, a: nat, h: Heap, p: Ptr)
    requires Coalesced(c) && j < |c| && c[j].free && a <= c[j].size
    requires h.chunks == c[..j] + Carve(c[j], a) + c[j + 1..]
    requires CanFree(h, p) && p.At?
    requires IndexOf(h.chunks, VoidToFl(p.off)) == j + |Carve(c[j], a)| - 1
    ensures Free(h, p).chunks == c && Free(h, p).extent == h.extent
    ensures Free(h, p).avail == h.avail + Carve(c[j], a)[|Carve(c[j], a)| - 1].size
  {
    var xs := Carve(c[j], a);
    var b := j + |xs| - 1;
    MergeCarved(c, j, a);
    FreeMerges(h, p, b);
    assert h.chunks[b] == xs[|xs| - 1];
    Rebuild(c, j, xs);
  }

  /** fl_free of the block at position b, spelled out. */
  lemma {:induction false} FreeMerges(h: Heap, p: Ptr, b: nat)
    requires CanFree(h, p) && p.At? && IndexOf(h.chunks, VoidToFl(p.off)) == b
    ensures b < |h.chunks|
    ensures var c := h.chunks;
            Free(h, p) == Heap(h.avail + c[b].size, c[..MergeLo(c, b)] + [Merged(c, b)] + c[MergeHi(c, b)..], h.extent)
  {
  }

  /** The pointer fl_allocate returns names the block it carved, the last
      record of the carved run. */
  lemma {:induction false} BlockFound(h: Heap, n: nat)
    requires WellFormed(h)
    requires Allocate(h, n).ptr.At?
    ensures var r := Allocate(h, n);
            var a := AdjustSize(n);
            var c := h.chunks;
            var j := FirstFit(c, a);
            && j < |c| && c[j].free && a <= c[j].size
            && r.heap == Heap(h.avail - a, c[..j] + Carve(c[j], a) + c[j + 1..], h.extent)
            && CanFree(r.heap, r.ptr)
            && IndexOf(r.heap.chunks, VoidToFl(r.ptr.off)) == j + |Carve(c[j], a)| - 1
            && Carve(c[j], a)[|Carve(c[j], a)| - 1].size >= a
  {
    var r := Allocate(h, n);
    var a := AdjustSize(n);
    var c := h.chunks;
    var j := FirstFit(c, a);
    var xs := Carve(c[j], a);
    Served(h, n);
    var c' := r.heap.chunks;
    var b := j + |xs| - 1;
    assert c'[b] == xs[|xs| - 1];
    AllocatePreserves(h, n);
    IndexOfRecord(c', b);
  }

  /** The zone and the pointer fl_allocate gives back when it serves `n`. */
  lemma {:induction false} Served(h: Heap, n: nat)
    requires Allocate(h, n).ptr.At?
    ensures var a := AdjustSize(n);
            var c := h.chunks;
            var j := FirstFit(c, a);
            && n > 0 && j < |c| && a <= h.avail
            && var xs := Carve(c[j], a);
               Allocate(h, n) == AllocResult(Heap(h.avail - a, c[..j] + xs + c[j + 1..], h.extent),
                                             At(FlToVoid(xs[|xs| - 1].addr)))
  {
  }

  /** In a coalesced layout, the carved run around a block is exactly what
      fl_free merges back into the node it was carved from. */
  lemma {:induction false} MergeCarved(c: seq<Chunk>, j: nat, a: nat)
    requires Coalesced(c) && j < |c| && c[j].free && a <= c[j].size
    ensures var xs := Carve(c[j], a);
            var c' := c[..j] + xs + c[j + 1..];
            var b := j + |xs| - 1;
            && MergeLo(c', b) == j && MergeHi(c', b) == j + |xs| && Merged(c', b) == c[j]
  {
    var xs := Carve(c[j], a);
    var c' := c[..j] + xs + c[j + 1..];
    var b := j + |xs| - 1;
    assert c'[b] == xs[|xs| - 1];
    assert j + 1 < |c| ==> !c[j + 1].free;
    assert b + 1 < |c'| ==> c'[b + 1] == c[j + 1];
    if |xs| == 2 {
      assert c'[j] == xs[0];
    } else {
      assert 0 < j ==> !c[j - 1].free;
      assert 0 < j ==> c'[j - 1] == c[j - 1];
    }
  }

  /** In an aligned zone freeing the block fl_allocate just handed out
      restores the zone exactly, head's count included. */
  lemma {:induction false} FreeRestoresExact(h: Heap, n: nat)
    requires Exact(h)
    requires Allocate(h, n).ptr.At?
    ensures var r := Allocate(h, n);
            CanFree(r.heap, r.ptr) && Free(r.heap, r.ptr) == h
  {
    var r := Allocate(h, n);
    var a := AdjustSize(n);
    var c := h.chunks;
    var j := FirstFit(c, a);
    var xs := Carve(c[j], a);
    BlockFound(h, n);
    assert r.heap.avail == h.avail - a;
    Chosen(c, j);
    assert c[j].size % FL_SIZE == 0;
    CarvedBlockSize(c[j], a);
    assert xs[|xs| - 1].size == a;
    UndoCarve(c, j, a, r.heap, r.ptr);
  }

  /** Out of an aligned node the block carved for an adjusted size is
      exactly that size. */
  lemma {:induction false} CarvedBlockSize(f: Chunk, a: nat)
    requires f.size % FL_SIZE == 0 && a % FL_SIZE == 0 && a <= f.size
    ensures Carve(f, a)[|Carve(f, a)| - 1].size == a
  {
    if f.size - a < FL_SIZE {
      NoSlack(f.size, a);
    }
  }

  /** Putting the record c[j] back in place of the run that replaced it. */
  lemma {:induction false} Rebuild(c: seq<Chunk>, j: nat, xs: seq<Chunk>)
    requires j < |c|
    ensures var c' := c[..j] + xs + c[j + 1..];
            c'[..j] + [c[j]] + c'[j + |xs|..] == c
  {
    var c' := c[..j] + xs + c[j + 1..];
    assert c'[..j] == c[..j];
    assert c'[j + |xs|..] == c[j + 1..];
    assert c == c[..j] + [c[j]] + c[j + 1..];
  }

  /** In a zone whose size is not a whole number of records the head's
      count drifts above the free bytes: a 40-byte zone hands its 24-byte
      node out whole for a 1-byte request, counting 16 bytes, and takes 24
      back when the block is freed. */
  lemma UnalignedDrift()
    ensures var h := Init(40);
            var r := Allocate(h, 1);
            && r.ptr == At(FlToVoid(FL_SIZE))
            && r.heap.avail == 8
            && Free(r.heap, r.ptr).avail == 32
            && FreeBytes(Free(r.heap, r.ptr).chunks) == 24
  {
    var h := Init(40);
    assert AdjustSize(1) == 16;
    assert FirstFit(h.chunks, 16) == 0;
    var c' := Allocate(h, 1).heap.chunks;
    assert c' == [Chunk(FL_SIZE, 24, false)];
    assert IndexOf(c', FL_SIZE) == 0;
    FreeUndoesAllocate(h, 1);
  }

  // ---------------------------------------------------------------------
  // A run of allocations
  // ---------------------------------------------------------------------

  /** The bytes a run of requests takes off the head's count. */
  function Consumed(ns: seq<nat>): nat
  {
    if ns == [] then 0 else AdjustSize(ns[0]) + Consumed(ns[1..])
  }

  /** The sum of a run of requests. */
  function Total(ns: seq<nat>): nat
  {
    if ns == [] then 0 else ns[0] + Total(ns[1..])
  }

  /** Serving the requests `ns` one after the other, starting from `h`: the
      zone at the end and the pointers returned, in order. */
  function AllocateAll(h: Heap, ns: seq<nat>): (r: (Heap, seq<Ptr>))
    ensures |r.1| == |ns|
    decreases |ns|
  {
    if ns == [] then (h, [])
    else
      var first := Allocate(h, ns[0]);
      var rest := AllocateAll(first.heap, ns[1..]);
      (rest.0, [first.ptr] + rest.1)
  }

  /** The pointers of a run: the first request's, then the rest's. */
  lemma {:induction false} AllocateAllCons(h: Heap, ns: seq<nat>)
    requires ns != []
    ensures AllocateAll(h, ns).1 == [Allocate(h, ns[0]).ptr] + AllocateAll(Allocate(h, ns[0]).heap, ns[1..]).1
  {
  }

  /** Every request of a run is non-zero. */
  predicate NonZero(ns: seq<nat>)
  {
    forall i | 0 <= i < |ns| :: ns[i] > 0
  }

  /** The rest of a run of non-zero requests is non-zero. */
  lemma {:induction false} NonZeroTail(ns: seq<nat>)
    requires NonZero(ns) && ns != []
    ensures ns[0] > 0 && NonZero(ns[1..])
  {
    forall i | 0 <= i < |ns| - 1 ensures ns[1..][i] > 0 {
      assert ns[1..][i] == ns[i + 1];
    }
  }

  /** A non-zero request takes at least one record. */
  lemma {:induction false} AdjustAtLeast(n: nat)
    requires n > 0
    ensures AdjustSize(n) >= FL_SIZE
  {
    if AdjustSize(n) < FL_SIZE {
      NoSlack(AdjustSize(n), 0);
    }
  }

  /** A run of non-zero requests takes at least one record per request. */
  lemma {:induction false} ConsumedAtLeast(ns: seq<nat>)
    requires NonZero(ns)
    ensures Consumed(ns) >= FL_SIZE * |ns|
  {
    if ns != [] {
      NonZeroTail(ns);
      AdjustAtLeast(ns[0]);
      ConsumedAtLeast(ns[1..]);
    }
  }

  /** Each request takes at most sizeof(fl) - 1 bytes beyond itself and
      its header. */
  lemma {:induction false} ConsumedAtMost(ns: seq<nat>)
    ensures Consumed(ns) <= Total(ns) + (HEADER_SIZE + FL_SIZE - 1) * |ns|
  {
    if ns != [] {
      ConsumedAtMost(ns[1..]);
    }
  }

  /** The zone holds a single free node, and the head counts exactly its
      bytes. */
  ghost predicate SingleNode(h: Heap)
  {
    WellFormed(h) && |FreeList(h.chunks)| == 1 && FreeList(h.chunks)[0].size == h.avail
  }

  /** Carving a request out of the single node of a zone leaves a single
      node, or no node at all when the remainder is below one record. */
  lemma {:induction false} CarveSingle(h: Heap, n: nat)
    requires SingleNode(h) && n > 0 && AdjustSize(n) <= h.avail
    ensures Allocate(h, n).ptr.At?
    ensures h.avail - AdjustSize(n) >= FL_SIZE ==> SingleNode(Allocate(h, n).heap)
    ensures Allocate(h, n).heap.avail == h.avail - AdjustSize(n)
  {
    var a := AdjustSize(n);
    var c := h.chunks;
    var l := FreeList(c);
    var j := FirstFit(c, a);
    FirstFitInList(c, a);
    assert l[0].size >= a;
    assert j < |c| && l[0] == c[j];
    assert FreeList(c[..j]) == [] && FreeList(c[j + 1..]) == [];
    AllocatePreserves(h, n);
    var xs := Carve(c[j], a);
    var c' := c[..j] + xs + c[j + 1..];
    assert Allocate(h, n).heap.chunks == c';
    if h.avail - a >= FL_SIZE {
      SplitSingle(c, j, a);
      assert xs[0].size == h.avail - a;
    }
  }

  /** Splitting the only node of a layout leaves its low part as the only
      node. */
  lemma {:induction false} SplitSingle(c: seq<Chunk>, j: nat, a: nat)
    requires j < |c| && c[j].free && c[j].size >= a + FL_SIZE
    requires FreeList(c[..j]) == [] && FreeList(c[j + 1..]) == []
    ensures var xs := Carve(c[j], a);
            FreeList(c[..j] + xs + c[j + 1..]) == [xs[0]]
  {
    var xs := Carve(c[j], a);
    Splice(c, j, j + 1, xs);
    Small(xs[0], xs[1]);
    assert xs == [xs[0], xs[1]];
  }

  /** From a zone with a single node that counts at least the bytes a run
      of non-zero requests consumes, every request of the run is granted. */
  lemma {:induction false} RunGranted(h: Heap, ns: seq<nat>)
    requires SingleNode(h) && NonZero(ns) && Consumed(ns) <= h.avail
    ensures forall i | 0 <= i < |ns| :: AllocateAll(h, ns).1[i].At?
    decreases |ns|
  {
    if ns != [] {
      var a := AdjustSize(ns[0]);
      var rest := ns[1..];
      var first := Allocate(h, ns[0]);
      var tail := AllocateAll(first.heap, rest).1;
      AllocateAllCons(h, ns);
      NonZeroTail(ns);
      assert Consumed(ns) == a + Consumed(rest);
      CarveSingle(h, ns[0]);
      if rest != [] {
        ConsumedAtLeast(rest);
        assert h.avail - a >= FL_SIZE;
        RunGranted(first.heap, rest);
      }
      assert forall i | 0 <= i < |tail| :: tail[i].At?;
    }
  }

  /** A fresh zone of `extent` bytes grants a run of non-zero requests
      whenever the run consumes no more than its free bytes. */
  lemma {:induction false} FreshZoneGrantsRun(extent: nat, ns: seq<nat>)
    requires extent >= 2 * FL_SIZE && NonZero(ns)
    requires FL_SIZE + Consumed(ns) <= extent
    ensures forall i | 0 <= i < |ns| :: AllocateAll(Init(extent), ns).1[i].At?
  {
    var h := Init(extent);
    assert FreeList(h.chunks) == [Chunk(FL_SIZE, extent - FL_SIZE, true)];
    RunGranted(h, ns);
  }
}
