/** Reference model of the first-fit, address-ordered, coalescing allocator of
    ccontrol/src/lib/freelist.c, stated over the physical layout of a zone.

    Past the dummy head, the zone [FL_SIZE, extent) is tiled by records in
    address order. A record is either a free-list node or a block handed out
    to a caller (its size word is then the block's header). The free list the
    code walks is exactly the free records in address order (FreeList). */
module FreelistModel {
  import opened FreelistLayout

  // ---------------------------------------------------------------------
  // fl_adjustsize
  // ---------------------------------------------------------------------

  /** fl_adjustsize as intended: the smallest multiple of sizeof(fl) that
      holds the request plus its header, computed without wrapping. The
      rest of the model allocates with this size; for the 23 largest
      requests it exceeds every size_t head count, so they are refused. */
  function AdjustSize(n: nat): (r: nat)
    ensures r % FL_SIZE == 0
    ensures n + HEADER_SIZE <= r < n + HEADER_SIZE + FL_SIZE
  {
    var s := n + HEADER_SIZE;
    if s % FL_SIZE != 0 then s + (FL_SIZE - s % FL_SIZE) else s
  }

  /** fl_adjustsize as written: both additions are in size_t. It agrees
      with AdjustSize up to SIZE_MAX - 23 and wraps to 0 or 16 above. */
  function AdjustSizeWrapped(n: nat): (r: nat)
    requires n < SIZE_MOD
    ensures r < SIZE_MOD && r % FL_SIZE == 0
    ensures r == AdjustSize(n) % SIZE_MOD
    ensures r == AdjustSize(n) <==> n + HEADER_SIZE + FL_SIZE <= SIZE_MOD
  {
    var s := (n + HEADER_SIZE) % SIZE_MOD;
    if s % FL_SIZE != 0 then (s + (FL_SIZE - s % FL_SIZE)) % SIZE_MOD else s
  }

  // ---------------------------------------------------------------------
  // Zone state
  // ---------------------------------------------------------------------

  /** A record of the zone past the dummy head. */
  datatype Chunk = Chunk(addr: nat, size: nat, free: bool)
  {
    function End(): nat { addr + size }
  }

  /** The zone as fl_init leaves it and fl_allocate/fl_free change it: the
      dummy head's size word `avail`, the records in address order, and the
      zone size `extent` that fl_init was given. */
  datatype Heap = Heap(avail: nat, chunks: seq<Chunk>, extent: nat)

  /** Records follow each other without gaps. */
  ghost predicate Contiguous(c: seq<Chunk>)
  {
    forall i :: 0 <= i < |c| - 1 ==> c[i].End() == c[i + 1].addr
  }

  /** Every record can hold a full fl record. */
  ghost predicate Roomy(c: seq<Chunk>)
  {
    forall x | x in c :: x.size >= FL_SIZE
  }

  /** The records tile [FL_SIZE, extent). */
  ghost predicate Tiled(c: seq<Chunk>, extent: nat)
  {
    && |c| > 0
    && c[0].addr == FL_SIZE
    && Contiguous(c)
    && c[|c| - 1].End() == extent
    && Roomy(c)
  }

  /** No two free records are physically adjacent. */
  ghost predicate Coalesced(c: seq<Chunk>)
  {
    forall i :: 0 <= i < |c| - 1 ==> !(c[i].free && c[i + 1].free)
  }

  /** Bytes held by free records, and by records handed out. */
  function FreeBytes(c: seq<Chunk>): nat
  {
    if c == [] then 0 else (if c[0].free then c[0].size else 0) + FreeBytes(c[1..])
  }

  function UsedBytes(c: seq<Chunk>): nat
  {
    if c == [] then 0 else (if c[0].free then 0 else c[0].size) + UsedBytes(c[1..])
  }

  /** The invariant every reachable zone keeps. The head's size word never
      understates the free bytes (it can overstate them, see Exact). */
  ghost predicate WellFormed(h: Heap)
  {
    && Tiled(h.chunks, h.extent)
    && Coalesced(h.chunks)
    && h.avail >= FreeBytes(h.chunks)
  }

  /** Every record starts and ends on a sizeof(fl) boundary. */
  ghost predicate Aligned(c: seq<Chunk>)
  {
    forall x | x in c :: x.addr % FL_SIZE == 0 && x.size % FL_SIZE == 0
  }

  /** The accounting the head's comment promises: its size word is the
      number of free bytes. Kept whenever the zone size is aligned. */
  ghost predicate Exact(h: Heap)
  {
    WellFormed(h) && Aligned(h.chunks) && h.avail == FreeBytes(h.chunks)
  }

  // ---------------------------------------------------------------------
  // The free list as the code sees it
  // ---------------------------------------------------------------------

  /** The free-list nodes, in list order: the free records in address order. */
  function FreeList(c: seq<Chunk>): seq<Chunk>
  {
    if c == [] then [] else (if c[0].free then [c[0]] else []) + FreeList(c[1..])
  }

  /** The record whose `next` field links to the i-th node: the head for the
      first node, otherwise the previous node. */
  function PredAddr(l: seq<Chunk>, i: nat): nat
    requires i <= |l|
  {
    if i == 0 then HEAD else l[i - 1].addr
  }

  /** The value of the `next` field that precedes the i-th node. */
  function LinkAt(l: seq<Chunk>, i: nat): Ptr
  {
    if i < |l| then At(l[i].addr) else Null
  }

  /** Sum of the sizes in a list of nodes. */
  function SizeSum(l: seq<Chunk>): nat
  {
    if l == [] then 0 else l[0].size + SizeSum(l[1..])
  }

  // ---------------------------------------------------------------------
  // fl_init
  // ---------------------------------------------------------------------

  /** fl_init over a zone of `extent` bytes: the head and one node right
      after it both record extent - sizeof(fl) bytes. The zone must hold the
      head and the node's own record. */
  function Init(extent: nat): (h: Heap)
    requires extent >= 2 * FL_SIZE
    ensures WellFormed(h) && h.extent == extent
    ensures h.avail == extent - FL_SIZE == FreeBytes(h.chunks)
    ensures FreeList(h.chunks) == [Chunk(FL_SIZE, extent - FL_SIZE, true)]
    ensures Exact(h) <==> extent % FL_SIZE == 0
  {
    var c := [Chunk(FL_SIZE, extent - FL_SIZE, true)];
    assert FreeList(c) == [c[0]] + FreeList([]);
    assert FreeBytes(c) == c[0].size + FreeBytes([]);
    Heap(extent - FL_SIZE, c, extent)
  }

  // ---------------------------------------------------------------------
  // fl_allocate
  // ---------------------------------------------------------------------

  /** fl_findfit on the layout: the first free record (lowest address, hence
      first in list order) that can hold `want` bytes, or |c| if none can. */
  function FirstFit(c: seq<Chunk>, want: nat): (j: nat)
    ensures j <= |c|
    ensures j < |c| ==> c[j].free && c[j].size >= want
    ensures forall i :: 0 <= i < j ==> !(c[i].free && c[i].size >= want)
  {
    if c == [] then 0
    else if c[0].free && c[0].size >= want then 0
    else 1 + FirstFit(c[1..], want)
  }

  /** What becomes of the chosen node f for a block of `a` bytes: with a
      surplus under sizeof(fl) it is handed out whole; otherwise it keeps its
      address, shrinks by `a`, and the block is carved from its high end. The
      block is always the last record returned. */
  function Carve(f: Chunk, a: nat): (xs: seq<Chunk>)
    requires a <= f.size
    ensures 1 <= |xs| <= 2 && !xs[|xs| - 1].free
    ensures xs[0].addr == f.addr && xs[|xs| - 1].End() == f.End()
    ensures |xs| == 2 <==> f.size - a >= FL_SIZE
    ensures |xs| == 2 ==> xs[0].free && xs[0].End() == xs[1].addr && xs[1].size == a
  {
    if f.size - a < FL_SIZE then [Chunk(f.addr, f.size, false)]
    else [Chunk(f.addr, f.size - a, true), Chunk(f.addr + (f.size - a), a, false)]
  }

  datatype AllocResult = AllocResult(heap: Heap, ptr: Ptr)

  /** fl_allocate. A zero request and an adjusted size above the head's
      count are refused before the scan; a scan that finds nothing is
      refused too. Otherwise the first fit is carved, the pointer is one
      header past the block, and the head's count falls by the adjusted
      size. */
  function Allocate(h: Heap, n: nat): AllocResult
  {
    if n == 0 then AllocResult(h, Null) else Place(h, AdjustSize(n))
  }

  /** fl_allocate as written, with the adjusted size wrapped in size_t. */
  function AllocateWrapped(h: Heap, n: nat): AllocResult
    requires n < SIZE_MOD
  {
    if n == 0 then AllocResult(h, Null) else Place(h, AdjustSizeWrapped(n))
  }

  /** fl_allocate once the size is adjusted to `a`: the check against the
      head's count, the scan, and the carving. */
  function Place(h: Heap, a: nat): AllocResult
  {
    if a > h.avail then AllocResult(h, Null)
    else
      var c := h.chunks;
      var j := FirstFit(c, a);
      if j == |c| then AllocResult(h, Null)
      else
        var xs := Carve(c[j], a);
        AllocResult(Heap(h.avail - a, c[..j] + xs + c[j + 1..], h.extent),
                    At(FlToVoid(xs[|xs| - 1].addr)))
  }

  // ---------------------------------------------------------------------
  // fl_free
  // ---------------------------------------------------------------------

  /** Index of the first record starting at `addr`, or |c|. */
  function IndexOf(c: seq<Chunk>, addr: nat): (j: nat)
    ensures j <= |c|
    ensures j < |c| ==> c[j].addr == addr
    ensures forall i :: 0 <= i < j ==> c[i].addr != addr
  {
    if c == [] then 0
    else if c[0].addr == addr then 0
    else 1 + IndexOf(c[1..], addr)
  }

  /** fl_free's contract with its caller: NULL, or a pointer fl_allocate
      returned from this zone and that has not been freed since. */
  ghost predicate CanFree(h: Heap, p: Ptr)
  {
    p.Null? ||
    (p.off >= HEADER_SIZE
     && IndexOf(h.chunks, VoidToFl(p.off)) < |h.chunks|
     && !h.chunks[IndexOf(h.chunks, VoidToFl(p.off))].free)
  }

  /** Whether the record before / after position j is free. */
  function LeftFree(c: seq<Chunk>, j: nat): bool
  {
    0 < j <= |c| && c[j - 1].free
  }

  function RightFree(c: seq<Chunk>, j: nat): bool
  {
    j + 1 < |c| && c[j + 1].free
  }

  /** The run of records fl_free turns into one free record: the block at
      j, with its left neighbour when that is free and its right neighbour
      when that is free. */
  function MergeLo(c: seq<Chunk>, j: nat): nat
  {
    if LeftFree(c, j) then j - 1 else j
  }

  function MergeHi(c: seq<Chunk>, j: nat): nat
  {
    if RightFree(c, j) then j + 2 else j + 1
  }

  /** The free record that replaces that run: it starts where the run
      starts and its size is the sum of the sizes in the run. */
  function Merged(c: seq<Chunk>, j: nat): Chunk
    requires j < |c|
  {
    Chunk(c[MergeLo(c, j)].addr,
          (if LeftFree(c, j) then c[j - 1].size else 0) + c[j].size
          + (if RightFree(c, j) then c[j + 1].size else 0),
          true)
  }

  /** fl_free. NULL is ignored. Otherwise the head's count grows by the
      block's size word, and the block, together with a free record ending
      at its address and a free record starting at its end, becomes a
      single free record whose size is the sum of theirs. */
  function Free(h: Heap, p: Ptr): Heap
    requires CanFree(h, p)
  {
    if p.Null? then h
    else
      var c := h.chunks;
      var j := IndexOf(c, VoidToFl(p.off));
      Heap(h.avail + c[j].size, c[..MergeLo(c, j)] + [Merged(c, j)] + c[MergeHi(c, j)..], h.extent)
  }

  // =====================================================================
  // Lemmas on sequences of records
  // =====================================================================

  lemma {:induction false} FreeListConcat(a: seq<Chunk>, b: seq<Chunk>)
    ensures FreeList(a + b) == FreeList(a) + FreeList(b)
  {
    if a == [] {
      assert a + b == b;
    } else {
      var head := if a[0].free then [a[0]] else [];
      assert (a + b)[0] == a[0] && (a + b)[1..] == a[1..] + b;
      FreeListConcat(a[1..], b);
      calc {
        FreeList(a + b);
        head + FreeList(a[1..] + b);
        head + (FreeList(a[1..]) + FreeList(b));
        (head + FreeList(a[1..])) + FreeList(b);
        FreeList(a) + FreeList(b);
      }
    }
  }

  lemma {:induction false} FreeBytesConcat(a: seq<Chunk>, b: seq<Chunk>)
    ensures FreeBytes(a + b) == FreeBytes(a) + FreeBytes(b)
    ensures UsedBytes(a + b) == UsedBytes(a) + UsedBytes(b)
  {
    if a == [] {
      assert a + b == b;
    } else {
      assert (a + b)[1..] == a[1..] + b;
      FreeBytesConcat(a[1..], b);
    }
  }

  /** The free list and byte counts of one or two records. */
  lemma {:induction false} Small(x: Chunk, y: Chunk)
    ensures FreeList([x]) == (if x.free then [x] else [])
    ensures FreeBytes([x]) == (if x.free then x.size else 0)
    ensures FreeList([x, y]) == FreeList([x]) + FreeList([y])
    ensures FreeBytes([x, y]) == FreeBytes([x]) + FreeBytes([y])
  {
    assert [x][1..] == [];
    assert [x, y][1..] == [y];
    assert [y][1..] == [];
  }

  /** Replacing the records c[i..m] by `xs` replaces their part of the free
      list and of the byte counts. */
  lemma {:induction false} Splice(c: seq<Chunk>, i: nat, m: nat, xs: seq<Chunk>)
    requires i <= m <= |c|
    ensures FreeList(c[..i] + xs + c[m..]) == FreeList(c[..i]) + FreeList(xs) + FreeList(c[m..])
    ensures FreeList(c) == FreeList(c[..i]) + FreeList(c[i..m]) + FreeList(c[m..])
    ensures FreeBytes(c[..i] + xs + c[m..]) == FreeBytes(c) - FreeBytes(c[i..m]) + FreeBytes(xs)
    ensures FreeBytes(c[i..m]) <= FreeBytes(c)
  {
    FreeListConcat(c[..i] + xs, c[m..]);
    FreeListConcat(c[..i], xs);
    FreeBytesConcat(c[..i] + xs, c[m..]);
    FreeBytesConcat(c[..i], xs);
    assert c == c[..i] + c[i..m] + c[m..];
    FreeListConcat(c[..i] + c[i..m], c[m..]);
    FreeListConcat(c[..i], c[i..m]);
    FreeBytesConcat(c[..i] + c[i..m], c[m..]);
    FreeBytesConcat(c[..i], c[i..m]);
  }

  lemma {:induction false} FreeListMembers(c: seq<Chunk>)
    ensures forall x :: x in FreeList(c) ==> x in c && x.free
  {
    if c != [] {
      FreeListMembers(c[1..]);
    }
  }

  /** The head's count, when exact, is the sum of the node sizes. */
  lemma {:induction false} FreeListSizeSum(c: seq<Chunk>)
    ensures SizeSum(FreeList(c)) == FreeBytes(c)
  {
    if c != [] {
      FreeListSizeSum(c[1..]);
      if c[0].free {
        assert FreeList(c) == [c[0]] + FreeList(c[1..]);
        assert FreeList(c)[1..] == FreeList(c[1..]);
      } else {
        assert FreeList(c) == [] + FreeList(c[1..]);
        assert FreeList(c) == FreeList(c[1..]);
      }
    }
  }

  /** In contiguous records, an earlier record ends no later than a later
      one starts. */
  lemma {:induction false} Ordered(c: seq<Chunk>, i: nat, j: nat)
    requires Contiguous(c)
    requires i < j < |c|
    ensures c[i].End() <= c[j].addr
  {
    if i + 1 < j {
      Ordered(c, i, j - 1);
    }
  }

  /** Records of a tiled zone start at strictly increasing addresses. */
  lemma {:induction false} Increasing(c: seq<Chunk>)
    requires Contiguous(c) && Roomy(c)
    ensures forall i, j | 0 <= i < j < |c| :: c[i].addr < c[j].addr
  {
    forall i, j | 0 <= i < j < |c| ensures c[i].addr < c[j].addr {
      Ordered(c, i, j);
      assert c[i] in c;
    }
  }

  /** In a tiled zone a record is found by its address. */
  lemma {:induction false} IndexOfRecord(c: seq<Chunk>, j: nat)
    requires Contiguous(c) && Roomy(c) && j < |c|
    ensures IndexOf(c, c[j].addr) == j
  {
    Increasing(c);
  }

  /** Free-list nodes keep the order of the records they come from. */
  lemma {:induction false} FreeListIncreasing(c: seq<Chunk>)
    requires forall i, j | 0 <= i < j < |c| :: c[i].addr < c[j].addr
    ensures forall i, j | 0 <= i < j < |FreeList(c)| :: FreeList(c)[i].addr < FreeList(c)[j].addr
  {
    if c != [] {
      var r := c[1..];
      FreeListIncreasing(r);
      FreeListMembers(r);
      var l := FreeList(c);
      if c[0].free {
        assert l == [c[0]] + FreeList(r);
        forall i, j | 0 <= i < j < |l| ensures l[i].addr < l[j].addr {
          if i == 0 {
            assert l[j] == FreeList(r)[j - 1] && l[j] in r;
          } else {
            assert l[i] == FreeList(r)[i - 1] && l[j] == FreeList(r)[j - 1];
          }
        }
      } else {
        assert l == [] + FreeList(r);
      }
    }
  }

  /** Every node of the free list lies at or past the first record, and
      past its end when that record is not free. */
  lemma {:induction false} FreeListBounds(c: seq<Chunk>)
    requires Contiguous(c) && c != []
    ensures forall x :: x in FreeList(c) ==> x.addr >= c[0].addr
    ensures !c[0].free ==> forall x :: x in FreeList(c) ==> x.addr >= c[0].End()
  {
    FreeListMembers(c);
    forall x | x in FreeList(c)
      ensures x.addr >= c[0].addr
      ensures !c[0].free ==> x.addr >= c[0].End()
    {
      var k :| 0 <= k < |c| && c[k] == x;
      if k > 0 {
        Ordered(c, 0, k);
      }
    }
  }

  /** Coalescing in list terms: consecutive nodes of the free list are
      separated by at least one record handed out. */
  lemma {:induction false} FreeListSeparated(c: seq<Chunk>)
    requires Contiguous(c) && Coalesced(c) && Roomy(c)
    ensures forall i :: 0 <= i < |FreeList(c)| - 1 ==> FreeList(c)[i].End() < FreeList(c)[i + 1].addr
  {
    if c != [] {
      var r := c[1..];
      assert Contiguous(r) && Coalesced(r);
      assert Roomy(r) by {
        forall x | x in r ensures x.size >= FL_SIZE {
          assert x in c;
        }
      }
      FreeListSeparated(r);
      var l := FreeList(c);
      var lr := FreeList(r);
      if c[0].free {
        assert l == [c[0]] + lr;
        forall i | 0 <= i < |l| - 1 ensures l[i].End() < l[i + 1].addr {
          if i == 0 {
            assert !r[0].free;
            FreeListBounds(r);
            assert l[1] == lr[0] && lr[0] in lr;
            assert r[0] in c;
          } else {
            assert l[i] == lr[i - 1] && l[i + 1] == lr[i];
          }
        }
      } else {
        assert l == [] + lr;
      }
    }
  }

  /** Conservation: the records of a contiguous run account for every byte
      it spans. */
  lemma {:induction false} Conservation(c: seq<Chunk>)
    requires Contiguous(c) && c != []
    ensures FreeBytes(c) + UsedBytes(c) == c[|c| - 1].End() - c[0].addr
  {
    if |c| > 1 {
      Conservation(c[1..]);
    }
  }

  /** In a well-formed zone, free and handed-out bytes add up to the zone
      minus the head record. */
  lemma {:induction false} ZoneConservation(h: Heap)
    requires WellFormed(h)
    ensures FreeBytes(h.chunks) + UsedBytes(h.chunks) == h.extent - FL_SIZE
  {
    Conservation(h.chunks);
  }

  // ---------------------------------------------------------------------
  // Rebuilding a zone after a local change
  // ---------------------------------------------------------------------

  lemma {:induction false} ContiguousConcat(a: seq<Chunk>, b: seq<Chunk>)
    requires Contiguous(a) && Contiguous(b)
    requires a != [] && b != [] ==> a[|a| - 1].End() == b[0].addr
    ensures Contiguous(a + b)
  {
    forall i | 0 <= i < |a + b| - 1 ensures (a + b)[i].End() == (a + b)[i + 1].addr {
      if i < |a| - 1 {
        assert (a + b)[i] == a[i] && (a + b)[i + 1] == a[i + 1];
      } else if i == |a| - 1 {
        assert (a + b)[i] == a[i] && (a + b)[i + 1] == b[0];
      } else {
        assert (a + b)[i] == b[i - |a|] && (a + b)[i + 1] == b[i - |a| + 1];
      }
    }
  }

  lemma {:induction false} CoalescedConcat(a: seq<Chunk>, b: seq<Chunk>)
    requires Coalesced(a) && Coalesced(b)
    requires a != [] && b != [] ==> !(a[|a| - 1].free && b[0].free)
    ensures Coalesced(a + b)
  {
    forall i | 0 <= i < |a + b| - 1 ensures !((a + b)[i].free && (a + b)[i + 1].free) {
      if i < |a| - 1 {
        assert (a + b)[i] == a[i] && (a + b)[i + 1] == a[i + 1];
      } else if i == |a| - 1 {
        assert (a + b)[i] == a[i] && (a + b)[i + 1] == b[0];
      } else {
        assert (a + b)[i] == b[i - |a|] && (a + b)[i + 1] == b[i - |a| + 1];
      }
    }
  }

  /** A slice of a contiguous, coalesced run is one too. */
  lemma {:induction false} SliceShape(c: seq<Chunk>, i: nat, j: nat)
    requires i <= j <= |c|
    ensures Contiguous(c) ==> Contiguous(c[i..j])
    ensures Coalesced(c) ==> Coalesced(c[i..j])
  {
    var s := c[i..j];
    if Contiguous(c) {
      forall k | 0 <= k < |s| - 1 ensures s[k].End() == s[k + 1].addr {
        assert s[k] == c[i + k] && s[k + 1] == c[i + k + 1];
      }
    }
    if Coalesced(c) {
      forall k | 0 <= k < |s| - 1 ensures !(s[k].free && s[k + 1].free) {
        assert s[k] == c[i + k] && s[k + 1] == c[i + k + 1];
      }
    }
  }

  /** Replacing the records c[lo..hi] of a tiled, coalesced zone by a run
      `xs` spanning the same bytes keeps it tiled and coalesced, provided the
      run itself is, and no free record of it touches a free neighbour. */
  lemma {:induction false} Replace(c: seq<Chunk>, extent: nat, lo: nat, hi: nat, xs: seq<Chunk>)
    requires Tiled(c, extent) && Coalesced(c)
    requires lo < hi <= |c| && xs != []
    requires Contiguous(xs) && Roomy(xs) && Coalesced(xs)
    requires xs[0].addr == c[lo].addr && xs[|xs| - 1].End() == c[hi - 1].End()
    requires lo > 0 ==> !(c[lo - 1].free && xs[0].free)
    requires hi < |c| ==> !(xs[|xs| - 1].free && c[hi].free)
    ensures Tiled(c[..lo] + xs + c[hi..], extent) && Coalesced(c[..lo] + xs + c[hi..])
  {
    var a, b := c[..lo], c[hi..];
    SliceShape(c, 0, lo);
    SliceShape(c, hi, |c|);
    assert a == c[0..lo] && b == c[hi..|c|];
    if lo > 0 {
      assert a[|a| - 1] == c[lo - 1];
    }
    ContiguousConcat(a, xs);
    CoalescedConcat(a, xs);
    var axs := a + xs;
    assert axs[|axs| - 1] == xs[|xs| - 1];
    if hi < |c| {
      assert b[0] == c[hi];
    }
    ContiguousConcat(axs, b);
    CoalescedConcat(axs, b);
    var r := axs + b;
    RoomySplice(c, lo, hi, xs);
    assert r[0] == (if lo == 0 then xs[0] else c[0]);
    assert r[|r| - 1] == (if hi == |c| then xs[|xs| - 1] else c[|c| - 1]);
  }

  /** Roominess survives a replacement by roomy records. */
  lemma {:induction false} RoomySplice(c: seq<Chunk>, lo: nat, hi: nat, xs: seq<Chunk>)
    requires Roomy(c) && Roomy(xs) && lo <= hi <= |c|
    ensures Roomy(c[..lo] + xs + c[hi..])
  {
    var a, b := c[..lo], c[hi..];
    forall x | x in a + xs + b ensures x.size >= FL_SIZE {
      if x in a {
        var k :| 0 <= k < |a| && a[k] == x;
        assert c[k] == x;
      } else if x in b {
        var k :| 0 <= k < |b| && b[k] == x;
        assert c[hi + k] == x;
      }
    }
  }

  /** Alignment survives a replacement by aligned records. */
  lemma {:induction false} ReplaceAligned(c: seq<Chunk>, lo: nat, hi: nat, xs: seq<Chunk>)
    requires Aligned(c) && Aligned(xs) && lo <= hi <= |c|
    ensures Aligned(c[..lo] + xs + c[hi..])
  {
    forall x | x in c[..lo] + xs + c[hi..] ensures x.addr % FL_SIZE == 0 && x.size % FL_SIZE == 0 {
      if x in c[..lo] {
        var k :| 0 <= k < lo && c[..lo][k] == x;
        assert c[k] == x;
      } else if x in c[hi..] {
        var k :| 0 <= k < |c| - hi && c[hi..][k] == x;
        assert c[hi + k] == x;
      }
    }
  }

  // =====================================================================
  // fl_findfit in list terms
  // =====================================================================

  /** Splitting the free list around record j. */
  lemma {:induction false} FreeListAround(c: seq<Chunk>, j: nat)
    requires j < |c|
    ensures FreeList(c) == FreeList(c[..j]) + (if c[j].free then [c[j]] else []) + FreeList(c[j + 1..])
  {
    assert c == c[..j] + [c[j]] + c[j + 1..];
    FreeListConcat(c[..j] + [c[j]], c[j + 1..]);
    FreeListConcat(c[..j], [c[j]]);
    Small(c[j], c[j]);
  }

  /** The list of a prefix grows by the prefix's last record when it is free. */
  lemma {:induction false} ListSnoc(c: seq<Chunk>, j: nat)
    requires 0 < j <= |c|
    ensures FreeList(c[..j]) == FreeList(c[..j - 1]) + (if c[j - 1].free then [c[j - 1]] else [])
  {
    assert c[..j] == c[..j - 1] + [c[j - 1]];
    FreeListConcat(c[..j - 1], [c[j - 1]]);
    Small(c[j - 1], c[j - 1]);
  }

  /** The list of a suffix starts with the suffix's first record when it is free. */
  lemma {:induction false} ListCons(c: seq<Chunk>, i: nat)
    requires i < |c|
    ensures FreeList(c[i..]) == (if c[i].free then [c[i]] else []) + FreeList(c[i + 1..])
  {
    assert c[i..] == [c[i]] + c[i + 1..];
    FreeListConcat([c[i]], c[i + 1..]);
    Small(c[i], c[i]);
  }

  /** The first fit in address order is the first fit in list order: every
      node before position |FreeList(c[..j])| is too small, and the node at
      that position is the chosen record (or the list ends there). */
  lemma {:induction false} FirstFitInList(c: seq<Chunk>, want: nat)
    ensures var j := FirstFit(c, want);
            var l := FreeList(c);
            var k := |FreeList(c[..j])|;
            && k <= |l|
            && (forall i :: 0 <= i < k ==> l[i].size < want)
            && (j < |c| ==> k < |l| && l[k] == c[j] && l[..k] == FreeList(c[..j]) && l[k + 1..] == FreeList(c[j + 1..]))
            && (j == |c| ==> k == |l|)
  {
    var j := FirstFit(c, want);
    var l := FreeList(c);
    var pre := FreeList(c[..j]);
    FreeListMembers(c[..j]);
    if j < |c| {
      FreeListAround(c, j);
      assert l == pre + [c[j]] + FreeList(c[j + 1..]);
      assert l[..|pre|] == pre;
      assert l[|pre| + 1..] == FreeList(c[j + 1..]);
    } else {
      assert c[..j] == c;
    }
    forall i | 0 <= i < |pre| ensures l[i].size < want {
      assert l[i] == pre[i];
      assert pre[i] in pre;
      var m :| 0 <= m < j && c[..j][m] == pre[i];
      assert c[m] == pre[i];
    }
  }

  // =====================================================================
  // fl_allocate: outcome, invariants, accounting
  // =====================================================================

  /** fl_allocate refuses (NULL, zone untouched) exactly for a zero request,
      an adjusted size above the head's count, or when no free node fits. */
  lemma {:induction false} AllocateRefusal(h: Heap, n: nat)
    ensures var r := Allocate(h, n);
            r.ptr.Null? <==>
              (n == 0 || AdjustSize(n) > h.avail
               || forall i :: 0 <= i < |h.chunks| ==> !(h.chunks[i].free && h.chunks[i].size >= AdjustSize(n)))
    ensures Allocate(h, n).ptr.Null? ==> Allocate(h, n).heap == h
  {
    if n > 0 && AdjustSize(n) <= h.avail {
      var j := FirstFit(h.chunks, AdjustSize(n));
      if j < |h.chunks| {
        assert h.chunks[j].free && h.chunks[j].size >= AdjustSize(n);
      }
    }
  }

  /** A successful fl_allocate hands out a record of the new zone carved
      from the first free record large enough: it is no longer free, holds
      the adjusted size with less than sizeof(fl) of slack (none in an
      aligned zone), the pointer is one header past it, it ends where the
      chosen node ended, and the head's count fell by the adjusted size. */
  lemma {:induction false} AllocateSuccess(h: Heap, n: nat)
    requires Allocate(h, n).ptr.At?
    ensures var r := Allocate(h, n);
            var a := AdjustSize(n);
            var j := FirstFit(h.chunks, a);
            && n > 0 && j < |h.chunks|
            && r.heap.avail == h.avail - a
            && r.heap.extent == h.extent
            && exists b :: 0 <= b < |r.heap.chunks|
                 && var blk := r.heap.chunks[b];
                    && !blk.free
                    && r.ptr == At(FlToVoid(blk.addr))
                    && a <= blk.size < a + FL_SIZE
                    && h.chunks[j].addr <= blk.addr
                    && blk.End() == h.chunks[j].End()
                    && (Aligned(h.chunks) ==> blk.size == a)
  {
    var a := AdjustSize(n);
    var c := h.chunks;
    var j := FirstFit(c, a);
    var xs := Carve(c[j], a);
    var r := Allocate(h, n);
    var c' := c[..j] + xs + c[j + 1..];
    assert r == AllocResult(Heap(h.avail - a, c', h.extent), At(FlToVoid(xs[|xs| - 1].addr)));
    var b := j + |xs| - 1;
    var blk := xs[|xs| - 1];
    assert c'[b] == blk;
    assert a <= blk.size < a + FL_SIZE;
    if Aligned(c) {
      assert c[j] in c;
      assert blk.size == a;
    }
    assert 0 <= b < |r.heap.chunks| && r.heap.chunks[b] == blk;
  }

  /** The records that replace the chosen node keep the zone's shape. */
  lemma {:induction false} CarveShape(f: Chunk, a: nat)
    requires a <= f.size && a % FL_SIZE == 0 && a > 0
    ensures Contiguous(Carve(f, a)) && Roomy(Carve(f, a)) && Coalesced(Carve(f, a))
    ensures FreeBytes(Carve(f, a)) == if f.size - a < FL_SIZE then 0 else f.size - a
    ensures f.addr % FL_SIZE == 0 && f.size % FL_SIZE == 0 ==> Aligned(Carve(f, a))
  {
    var xs := Carve(f, a);
    Small(xs[0], xs[|xs| - 1]);
    if |xs| == 2 {
      assert xs == [xs[0], xs[1]];
    } else {
      assert xs == [xs[0]];
    }
    if f.addr % FL_SIZE == 0 && f.size % FL_SIZE == 0 {
      if |xs| == 2 {
        DiffAligned(f.addr, f.size, a);
      }
      forall x | x in xs ensures x.addr % FL_SIZE == 0 && x.size % FL_SIZE == 0 {
      }
    }
  }

  lemma DiffAligned(p: nat, q: nat, a: nat)
    requires p % FL_SIZE == 0 && q % FL_SIZE == 0 && a % FL_SIZE == 0 && a <= q
    ensures (q - a) % FL_SIZE == 0 && (p + (q - a)) % FL_SIZE == 0
  {
    assert q - a == FL_SIZE * (q / FL_SIZE - a / FL_SIZE);
    assert p + (q - a) == FL_SIZE * (p / FL_SIZE + q / FL_SIZE - a / FL_SIZE);
  }

  /** The chosen node, as a run of one record. */
  lemma {:induction false} Chosen(c: seq<Chunk>, j: nat)
    requires j < |c|
    ensures c[j..j + 1] == [c[j]] && c[j] in c
    ensures FreeBytes(c[j..j + 1]) == if c[j].free then c[j].size else 0
  {
    assert c[j..j + 1] == [c[j]];
    Small(c[j], c[j]);
  }

  /** fl_allocate keeps the zone well formed. */
  lemma {:induction false} AllocatePreserves(h: Heap, n: nat)
    requires WellFormed(h)
    ensures WellFormed(Allocate(h, n).heap)
  {
    if Allocate(h, n).ptr.At? {
      CarvePreserves(h, AdjustSize(n));
    }
  }

  /** Carving `a` bytes out of the first node that holds them, and taking
      them off the counter, keeps the zone well formed. */
  lemma {:induction false} CarvePreserves(h: Heap, a: nat)
    requires WellFormed(h) && 0 < a <= h.avail && a % FL_SIZE == 0
    requires FirstFit(h.chunks, a) < |h.chunks|
    ensures var c := h.chunks;
            var j := FirstFit(c, a);
            WellFormed(Heap(h.avail - a, c[..j] + Carve(c[j], a) + c[j + 1..], h.extent))
  {
    var c := h.chunks;
    var j := FirstFit(c, a);
    var f := c[j];
    var xs := Carve(f, a);
    CarveShape(f, a);
    Chosen(c, j);
    Replace(c, h.extent, j, j + 1, xs);
    Splice(c, j, j + 1, xs);
  }

  /** Two multiples of sizeof(fl) less than sizeof(fl) apart are equal. */
  lemma {:induction false} NoSlack(x: nat, a: nat)
    requires x % FL_SIZE == 0 && a % FL_SIZE == 0 && a <= x < a + FL_SIZE
    ensures x == a
  {
  }

  /** With an aligned zone, fl_allocate keeps the head's count equal to the
      free bytes: a node handed out whole then has no slack at all. */
  lemma {:induction false} AllocateKeepsExact(h: Heap, n: nat)
    requires Exact(h)
    ensures Exact(Allocate(h, n).heap)
  {
    AllocatePreserves(h, n);
    if Allocate(h, n).ptr.At? {
      var a := AdjustSize(n);
      var c := h.chunks;
      var j := FirstFit(c, a);
      var f := c[j];
      var xs := Carve(f, a);
      Chosen(c, j);
      assert f.addr % FL_SIZE == 0 && f.size % FL_SIZE == 0;
      CarveShape(f, a);
      Splice(c, j, j + 1, xs);
      ReplaceAligned(c, j, j + 1, xs);
      if |xs| == 1 {
        NoSlack(f.size, a);
      }
    }
  }

  // =====================================================================
  // fl_free: the neighbours the code finds, invariants, accounting
  // =====================================================================

  /** The free list splits around a record handed out: the nodes below it
      start below its address and end no later, the nodes above it start at
      or after its end. */
  lemma {:induction false} NeighboursOrder(c: seq<Chunk>, j: nat)
    requires Contiguous(c) && Roomy(c)
    requires j < |c| && !c[j].free
    ensures FreeList(c) == FreeList(c[..j]) + FreeList(c[j + 1..])
    ensures forall x | x in FreeList(c[..j]) :: x.End() <= c[j].addr && x.addr < c[j].addr
    ensures forall x | x in FreeList(c[j + 1..]) :: x.addr >= c[j].End() && x.addr > c[j].addr
  {
    FreeListAround(c, j);
    FreeListMembers(c[..j]);
    FreeListMembers(c[j + 1..]);
    assert c[j] in c;
    forall x | x in FreeList(c[..j]) ensures x.End() <= c[j].addr && x.addr < c[j].addr {
      var m :| 0 <= m < j && c[..j][m] == x;
      assert c[m] == x && c[m] in c;
      Ordered(c, m, j);
    }
    forall x | x in FreeList(c[j + 1..]) ensures x.addr >= c[j].End() {
      var m :| 0 <= m < |c| - (j + 1) && c[j + 1..][m] == x;
      assert c[j + 1 + m] == x;
      Ordered(c, j, j + 1 + m);
    }
  }

  /** The last node below record j ends at its address exactly when the
      record before j is free, and is then that record. */
  lemma {:induction false} NeighbourLeft(c: seq<Chunk>, j: nat)
    requires Contiguous(c) && Roomy(c) && j < |c|
    ensures var pre := FreeList(c[..j]);
            (pre != [] && pre[|pre| - 1].End() == c[j].addr) <==> LeftFree(c, j)
    ensures LeftFree(c, j) ==> var pre := FreeList(c[..j]); pre != [] && pre[|pre| - 1] == c[j - 1]
  {
    if j == 0 {
      assert c[..j] == [];
    } else {
      var pre := FreeList(c[..j]);
      var pre' := FreeList(c[..j - 1]);
      ListSnoc(c, j);
      if c[j - 1].free {
        assert pre[|pre| - 1] == c[j - 1];
      } else if pre != [] {
        assert pre == pre';
        var y := pre'[|pre'| - 1];
        FreeListMembers(c[..j - 1]);
        assert y in pre';
        var m :| 0 <= m < j - 1 && c[..j - 1][m] == y;
        Ordered(c, m, j - 1);
        assert c[j - 1] in c;
        assert y.End() <= c[j - 1].addr < c[j].addr;
      }
    }
  }

  /** The first node above record j starts at its end exactly when the
      record after j is free, and is then that record. */
  lemma {:induction false} NeighbourRight(c: seq<Chunk>, j: nat)
    requires Contiguous(c) && Roomy(c) && j < |c|
    ensures var post := FreeList(c[j + 1..]);
            (post != [] && post[0].addr == c[j].End()) <==> RightFree(c, j)
    ensures RightFree(c, j) ==> var post := FreeList(c[j + 1..]); post != [] && post[0] == c[j + 1]
  {
    if j + 1 == |c| {
      assert c[j + 1..] == [];
    } else {
      var post := FreeList(c[j + 1..]);
      ListCons(c, j + 1);
      if c[j + 1].free {
        assert post[0] == c[j + 1];
      } else if post != [] {
        assert post == FreeList(c[j + 2..]);
        var y := post[0];
        FreeListMembers(c[j + 2..]);
        assert y in post;
        var m :| 0 <= m < |c| - (j + 2) && c[j + 2..][m] == y;
        Ordered(c, j + 1, j + 2 + m);
        assert c[j + 1] in c;
        assert y.addr >= c[j + 1].End() > c[j].End();
      }
    }
  }

  /** For a record j handed out, with k nodes before it in the free list:
      every earlier node starts below it and every later node above it (so
      fl_findprevious stops at position k); the node before it ends at its
      address exactly when the record before it is free; and the node after
      it starts at its end exactly when the record after it is free. */
  lemma {:induction false} Neighbours(c: seq<Chunk>, j: nat)
    requires Contiguous(c) && Roomy(c)
    requires j < |c| && !c[j].free
    ensures var l := FreeList(c);
            var k := |FreeList(c[..j])|;
            && k <= |l|
            && l == FreeList(c[..j]) + FreeList(c[j + 1..])
            && (forall i :: 0 <= i < k ==> l[i].addr < c[j].addr)
            && (forall i :: k <= i < |l| ==> l[i].addr > c[j].addr)
            && ((k > 0 && l[k - 1].End() == c[j].addr) <==> LeftFree(c, j))
            && (LeftFree(c, j) ==> l[k - 1] == c[j - 1])
            && ((k < |l| && l[k].addr == c[j].End()) <==> RightFree(c, j))
            && (RightFree(c, j) ==> l[k] == c[j + 1])
  {
    var l := FreeList(c);
    var pre := FreeList(c[..j]);
    var post := FreeList(c[j + 1..]);
    NeighboursOrder(c, j);
    NeighbourLeft(c, j);
    NeighbourRight(c, j);
    var k := |pre|;
    forall i | 0 <= i < k ensures l[i].addr < c[j].addr {
      assert l[i] == pre[i] && pre[i] in pre;
    }
    forall i | k <= i < |l| ensures l[i].addr > c[j].addr {
      assert l[i] == post[i - k] && post[i - k] in post;
    }
    if k > 0 {
      assert l[k - 1] == pre[k - 1];
    }
    if k < |l| {
      assert l[k] == post[0];
    }
  }

  /** The run that fl_free replaces by one merged record: it surrounds the
      block, spans exactly the merged record's bytes, all of them free but
      the block's, and no free record borders it. */
  lemma {:induction false} MergedRun(c: seq<Chunk>, j: nat)
    requires Contiguous(c) && Coalesced(c) && j < |c| && !c[j].free
    ensures MergeLo(c, j) <= j < MergeHi(c, j) <= |c|
    ensures FreeBytes(c[MergeLo(c, j)..MergeHi(c, j)]) + c[j].size == Merged(c, j).size
    ensures Merged(c, j).addr <= c[j].addr && c[j].End() <= Merged(c, j).End()
    ensures Merged(c, j).End() == c[MergeHi(c, j) - 1].End()
    ensures MergeLo(c, j) > 0 ==> !c[MergeLo(c, j) - 1].free
    ensures MergeHi(c, j) < |c| ==> !c[MergeHi(c, j)].free
  {
    var left, right := LeftFree(c, j), RightFree(c, j);
    var lo, hi := MergeLo(c, j), MergeHi(c, j);
    var mid := c[lo..hi];
    var u := c[j];
    if left && right {
      assert mid == [c[j - 1]] + [u, c[j + 1]];
      FreeBytesConcat([c[j - 1]], [u, c[j + 1]]);
      Small(u, c[j + 1]);
      Small(c[j - 1], c[j - 1]);
      assert c[j - 1].End() == u.addr && u.End() == c[j + 1].addr;
    } else if left {
      assert mid == [c[j - 1], u];
      Small(c[j - 1], u);
      assert c[j - 1].End() == u.addr;
    } else if right {
      assert mid == [u, c[j + 1]];
      Small(u, c[j + 1]);
      assert u.End() == c[j + 1].addr;
    } else {
      assert mid == [u];
      Small(u, u);
    }
  }

  /** fl_free keeps the zone well formed, and the block's bytes end up
      inside a single free record. */
  lemma {:induction false} FreePreserves(h: Heap, p: Ptr)
    requires WellFormed(h) && CanFree(h, p)
    ensures WellFormed(Free(h, p))
    ensures p.At? ==>
              var u := h.chunks[IndexOf(h.chunks, VoidToFl(p.off))];
              exists i :: 0 <= i < |Free(h, p).chunks|
                && Free(h, p).chunks[i].free
                && Free(h, p).chunks[i].addr <= u.addr
                && u.End() <= Free(h, p).chunks[i].End()
  {
    if p.At? {
      var c := h.chunks;
      var j := IndexOf(c, VoidToFl(p.off));
      var lo, hi, x := MergeLo(c, j), MergeHi(c, j), Merged(c, j);
      var c' := Free(h, p).chunks;
      assert c' == c[..lo] + [x] + c[hi..];
      MergedRun(c, j);
      assert Tiled(c', h.extent) && Coalesced(c') by {
        assert c[j] in c;
        Replace(c, h.extent, lo, hi, [x]);
      }
      assert FreeBytes(c') <= Free(h, p).avail by {
        Splice(c, lo, hi, [x]);
        Small(x, x);
      }
      assert c'[lo] == x;
    }
  }

  /** In an aligned zone the merged record is aligned too. */
  lemma {:induction false} MergedAligned(c: seq<Chunk>, j: nat)
    requires Contiguous(c) && Coalesced(c) && Aligned(c) && j < |c| && !c[j].free
    ensures Aligned([Merged(c, j)])
  {
    var l := if LeftFree(c, j) then c[j - 1].size else 0;
    var r := if RightFree(c, j) then c[j + 1].size else 0;
    assert c[j] in c && c[MergeLo(c, j)] in c;
    assert LeftFree(c, j) ==> c[j - 1] in c;
    assert RightFree(c, j) ==> c[j + 1] in c;
    SumAligned(l, c[j].size, r);
  }

  lemma SumAligned(a: nat, b: nat, d: nat)
    requires a % FL_SIZE == 0 && b % FL_SIZE == 0 && d % FL_SIZE == 0
    ensures (a + b + d) % FL_SIZE == 0
  {
    assert a + b + d == FL_SIZE * (a / FL_SIZE + b / FL_SIZE + d / FL_SIZE);
  }

  /** With an aligned zone, fl_free keeps the head's count equal to the
      free bytes. */
  lemma {:induction false} FreeKeepsExact(h: Heap, p: Ptr)
    requires Exact(h) && CanFree(h, p)
    ensures Exact(Free(h, p))
  {
    FreePreserves(h, p);
    if p.At? {
      var c := h.chunks;
      var j := IndexOf(c, VoidToFl(p.off));
      var lo, hi, x := MergeLo(c, j), MergeHi(c, j), Merged(c, j);
      MergedRun(c, j);
      Small(x, x);
      Splice(c, lo, hi, [x]);
      MergedAligned(c, j);
      ReplaceAligned(c, lo, hi, [x]);
    }
  }
}
