/** The allocator of ccontrol/src/lib/freelist.c as the code runs it: the
    zone's words are updated in place and the free list is walked through
    its `next` links.

    Only two kinds of word matter to the allocator: the size word at the
    start of every record, and the next word of the head and of every free
    node. The zone is modelled by those two words per record offset. The
    ghost field `chunks` is the layout of FreelistModel, and every method is
    proved to compute exactly the reference function of that module. */
module Freelist {
  import opened FreelistLayout
  import opened FreelistModel

  /** The size word of record `x` holds its size. */
  ghost predicate SizeOf(size: map<nat, nat>, x: Chunk)
  {
    x.addr in size && size[x.addr] == x.size
  }

  /** Every record's size word holds its size. */
  ghost predicate Stored(size: map<nat, nat>, c: seq<Chunk>)
  {
    forall x {:trigger SizeOf(size, x)} | x in c :: SizeOf(size, x)
  }

  /** The next word of the record before the i-th node of `l` (the head for
      i == 0) points at that node, or holds NULL past the last node. */
  ghost predicate LinkOk(next: map<nat, Ptr>, l: seq<Chunk>, i: nat)
  {
    i <= |l| && PredAddr(l, i) in next && next[PredAddr(l, i)] == LinkAt(l, i)
  }

  /** The head's next word and every node's next word link the nodes of `l`
      in order, and the last one holds NULL. */
  ghost predicate Linked(next: map<nat, Ptr>, l: seq<Chunk>)
  {
    forall i: nat | i <= |l| :: LinkOk(next, l, i)
  }

  /** The words of a zone represent the layout `c`: the head's size word is
      the zone's counter of a well-formed layout, every record's size word is
      its size, and the next words link the free records in address order. */
  ghost predicate Represents(size: map<nat, nat>, next: map<nat, Ptr>, c: seq<Chunk>, extent: nat)
  {
    && HEAD in size
    && WellFormed(Heap(size[HEAD], c, extent))
    && Stored(size, c)
    && Linked(next, FreeList(c))
  }

  class Arena {
    /** The size word of each record, keyed by its offset in the zone. */
    var size: map<nat, nat>
    /** The next word of the head and of each free node. */
    var next: map<nat, Ptr>
    /** The layout of the zone past the head. */
    ghost var chunks: seq<Chunk>
    /** The zone size fl_init was given. */
    ghost var extent: nat

    /** The zone as the reference model sees it. */
    ghost function Abs(): Heap
      reads this
      requires HEAD in size
    {
      Heap(size[HEAD], chunks, extent)
    }

    ghost predicate Valid()
      reads this
    {
      Represents(size, next, chunks, extent)
    }

    /** fl_init: the head and a single node spanning the rest of the zone. */
    constructor Init(zoneSize: nat)
      requires zoneSize >= 2 * FL_SIZE
      ensures Valid() && Abs() == FreelistModel.Init(zoneSize)
    {
      var first := FL_SIZE;
      size := map[first := zoneSize - FL_SIZE, HEAD := zoneSize - FL_SIZE];
      next := map[first := Null, HEAD := At(first)];
      chunks := [Chunk(first, zoneSize - FL_SIZE, true)];
      extent := zoneSize;
      new;
      ghost var h := FreelistModel.Init(zoneSize);
      assert chunks == h.chunks;
      ghost var l := FreeList(chunks);
      assert l == chunks;
      assert LinkOk(next, l, 0) && LinkOk(next, l, 1);
    }

    /** fl_findfit: walks the list from the head and stops at the first node
        holding at least `want` bytes. `prev` is the record whose next word
        points at it; both are NULL when no node fits. The node found is the
        reference model's first fit. */
    method FindFit(want: nat) returns (res: Ptr, prev: Ptr, ghost k: nat)
      requires Valid()
      ensures var l := FreeList(chunks);
              && k <= |l|
              && (forall i :: 0 <= i < k ==> l[i].size < want)
              && (k < |l| ==> l[k].size >= want && res == At(l[k].addr) && prev == At(PredAddr(l, k)))
              && (k == |l| ==> res == Null && prev == Null)
      ensures var j := FirstFit(chunks, want);
              && (res == if j < |chunks| then At(chunks[j].addr) else Null)
              && k == |FreeList(chunks[..j])|
    {
      ghost var l := FreeList(chunks);
      FreeListMembers(chunks);
      assert LinkOk(next, l, 0);
      var it := next[HEAD];
      var before := HEAD;
      k := 0;
      while it != Null
        invariant k <= |l|
        invariant it == LinkAt(l, k) && before == PredAddr(l, k)
        invariant forall i :: 0 <= i < k ==> l[i].size < want
        decreases |l| - k
      {
        assert l[k] in l;
        assert SizeOf(size, l[k]) && LinkOk(next, l, k + 1);
        if size[it.off] >= want {
          res, prev := it, At(before);
          FirstFitInList(chunks, want);
          FitUnique(l, k, |FreeList(chunks[..FirstFit(chunks, want)])|, want);
          return;
        }
        before := it.off;
        it := next[it.off];
        k := k + 1;
      }
      res, prev := Null, Null;
      FirstFitInList(chunks, want);
    }

    /** fl_findprevious: walks the list from the head and returns the last
        record (the head or a node) before the first node above `f`. It only
        follows next words. */
    method FindPrevious(f: nat) returns (prev: nat, ghost k: nat)
      requires Linked(next, FreeList(chunks))
      ensures var l := FreeList(chunks);
              && k <= |l|
              && (forall i :: 0 <= i < k ==> l[i].addr <= f)
              && (k < |l| ==> l[k].addr > f)
              && prev == PredAddr(l, k)
    {
      ghost var l := FreeList(chunks);
      assert LinkOk(next, l, 0);
      var it := next[HEAD];
      prev := HEAD;
      k := 0;
      while it != Null
        invariant k <= |l|
        invariant it == LinkAt(l, k) && prev == PredAddr(l, k)
        invariant forall i :: 0 <= i < k ==> l[i].addr <= f
        decreases |l| - k
      {
        if it.off > f {
          return;
        }
        assert LinkOk(next, l, k + 1);
        prev := it.off;
        it := next[it.off];
        k := k + 1;
      }
    }

    /** fl_allocate, proved to compute the reference Allocate. */
    method Allocate(n: nat) returns (p: Ptr)
      requires Valid()
      modifies this
      ensures Valid()
      ensures Abs() == FreelistModel.Allocate(old(Abs()), n).heap
      ensures p == FreelistModel.Allocate(old(Abs()), n).ptr
    {
      ghost var h := Abs();
      if n == 0 {
        return Null;
      }
      var a := AdjustSize(n);
      if a > size[HEAD] {
        return Null;
      }
      var f, prev, k := FindFit(a);
      if f == Null {
        assert FirstFit(h.chunks, a) == |h.chunks|;
        return Null;
      }
      AllocateTaken(h, n);
      ghost var j := FirstFit(h.chunks, a);
      var sz, nx;
      sz, nx, p := CarveWords(size, next, f, prev, a, h.chunks, extent, j, k);
      size, next, chunks := sz, nx, h.chunks[..j] + Carve(h.chunks[j], a) + h.chunks[j + 1..];
    }

    /** fl_free, proved to compute the reference Free. */
    method Free(p: Ptr)
      requires Valid() && CanFree(Abs(), p)
      modifies this
      ensures Valid()
      ensures Abs() == FreelistModel.Free(old(Abs()), p)
    {
      if p == Null {
        return;
      }
      ghost var h := Abs();
      ghost var size0 := size;
      ghost var j := IndexOf(chunks, VoidToFl(p.off));
      var f := VoidToFl(p.off);
      NotALink(next, chunks, extent, j);
      assert chunks[j] in chunks && SizeOf(size, chunks[j]);
      next := next[f := Null];
      size := size[HEAD := size[HEAD] + size[f]];
      StoredOffHead(size0, size, chunks, extent);
      var prev, k := FindPrevious(f);
      size, next := Release(f, prev, h, p, j, k);
      chunks := FreelistModel.Free(h, p).chunks;
    }

    /** The rest of fl_free, once the block's next word is cleared, its size
        is added to the head's counter and fl_findprevious returned `prev`:
        the block is merged into the node before it when that node ends at
        the block, or linked in after `prev` otherwise; then the node after
        is merged in when it starts at the block's end. The words it
        returns are the zone's words once fl_free returns. */
    method Release(f: nat, prev: nat, ghost h: Heap, ghost p: Ptr, ghost j: nat, ghost k: nat)
      returns (sz: map<nat, nat>, nx: map<nat, Ptr>)
      requires WellFormed(h) && CanFree(h, p) && p.At? && f == VoidToFl(p.off)
      requires j == IndexOf(h.chunks, f) && chunks == h.chunks && extent == h.extent
      requires HEAD in size && size[HEAD] == h.avail + h.chunks[j].size
      requires Stored(size, chunks) && Linked(next, FreeList(chunks))
      requires var l := FreeList(chunks);
               && k <= |l|
               && (forall i :: 0 <= i < k ==> l[i].addr <= f)
               && (k < |l| ==> l[k].addr > f)
               && prev == PredAddr(l, k)
      ensures HEAD in sz && Heap(sz[HEAD], FreelistModel.Free(h, p).chunks, h.extent) == FreelistModel.Free(h, p)
      ensures Represents(sz, nx, FreelistModel.Free(h, p).chunks, h.extent)
    {
      FreeScan(size, next, chunks, extent, j, k);
      sz, nx := size, next;
      var cur: nat;
      if prev != HEAD && prev + sz[prev] == f {
        sz := sz[prev := sz[prev] + sz[f]];
        cur := prev;
      } else {
        nx := nx[f := nx[prev]];
        nx := nx[prev := At(f)];
        cur := f;
      }
      ghost var sz1, nx1 := sz, nx;
      var after := nx[cur];
      if after != Null && cur + sz[cur] == after.off {
        sz := sz[cur := sz[cur] + sz[after.off]];
        nx := nx[cur := nx[after.off]];
      }
      FreeCommit(size, next, sz1, nx1, sz, nx, h, p, j, k);
    }
  }

  /** The words of fl_allocate's update, on the words of the zone `size`,
      `next` whose layout is `c`: a node `f` with less than sizeof(fl) to
      spare is unlinked whole from `prev`, otherwise its tail is cut off;
      the head's counter drops by `a` either way. */
  method CarveWords(size: map<nat, nat>, next: map<nat, Ptr>, f: Ptr, prev: Ptr, a: nat,
                    ghost c: seq<Chunk>, ghost extent: nat, ghost j: nat, ghost k: nat)
    returns (sz: map<nat, nat>, nx: map<nat, Ptr>, p: Ptr)
    requires Represents(size, next, c, extent) && 0 < a <= size[HEAD] && a % FL_SIZE == 0
    requires j == FirstFit(c, a) && j < |c| && k == |FreeList(c[..j])|
    requires f == At(c[j].addr) && k < |FreeList(c)|
    requires prev == At(PredAddr(FreeList(c), k))
    ensures Represents(sz, nx, c[..j] + Carve(c[j], a) + c[j + 1..], extent)
    ensures sz[HEAD] == size[HEAD] - a
    ensures var g := c[j];
            p == At(FlToVoid(if g.size - a < FL_SIZE then g.addr else g.addr + (g.size - a)))
  {
    FitFound(size, next, c, extent, a, j, k);
    if size[f.off] - a < FL_SIZE {
      nx := next[prev.off := next[f.off]];
      sz := size[HEAD := size[HEAD] - a];
      p := At(FlToVoid(f.off));
    } else {
      var rest := size[f.off] - a;
      sz := size[f.off := rest][f.off + rest := a][HEAD := size[HEAD] - a];
      nx := next;
      p := At(FlToVoid(f.off + rest));
    }
    AllocCommit(size, next, sz, nx, c, extent, a, k);
  }

  // =====================================================================
  // Proof helpers
  // =====================================================================

  /** Two maps agree outside a set of keys. */
  ghost predicate Agree<V>(s: map<nat, V>, s0: map<nat, V>, keys: set<nat>)
  {
    forall a :: a in s0 && a !in keys ==> a in s && s[a] == s0[a]
  }

  /** Facts about the layout of a well-formed zone that the walks rely on:
      records and nodes at increasing addresses, all above the head. */
  lemma {:induction false} Layout(c: seq<Chunk>, extent: nat)
    requires Tiled(c, extent)
    ensures forall i, j | 0 <= i < j < |c| :: c[i].addr < c[j].addr
    ensures forall x | x in c :: x.addr >= FL_SIZE
    ensures forall x | x in FreeList(c) :: x in c && x.free && x.addr >= FL_SIZE
    ensures forall i, j | 0 <= i < j < |FreeList(c)| :: FreeList(c)[i].addr < FreeList(c)[j].addr
    ensures Distinct(FreeList(c))
  {
    Increasing(c);
    forall x | x in c ensures x.addr >= FL_SIZE {
      var m :| 0 <= m < |c| && c[m] == x;
    }
    FreeListMembers(c);
    FreeListIncreasing(c);
    var l := FreeList(c);
    forall i, j | 0 <= i < j <= |l| ensures PredAddr(l, i) != PredAddr(l, j) {
      assert l[j - 1] in l;
    }
  }

  /** Two positions that both satisfy the first-fit condition coincide. */
  lemma {:induction false} FitUnique(l: seq<Chunk>, k: nat, k': nat, want: nat)
    requires k < |l| && k' <= |l|
    requires l[k].size >= want && forall i :: 0 <= i < k ==> l[i].size < want
    requires k' < |l| ==> l[k'].size >= want
    requires forall i :: 0 <= i < k' ==> l[i].size < want
    ensures k == k'
  {
  }

  /** fl_findprevious stops at the split the layout predicts. */
  lemma {:induction false} SameSplit(l: seq<Chunk>, K: nat, k: nat, f: nat)
    requires K <= |l| && k <= |l|
    requires forall i :: 0 <= i < K ==> l[i].addr < f
    requires forall i :: K <= i < |l| ==> l[i].addr > f
    requires forall i :: 0 <= i < k ==> l[i].addr <= f
    requires k < |l| ==> l[k].addr > f
    ensures k == K
  {
    if K < |l| {
      assert l[K].addr > f;
    }
  }

  /** The block being freed is not the head and no next word of the list is
      stored in it, so clearing its next word keeps the list intact. */
  lemma {:induction false} NotALink(next: map<nat, Ptr>, c: seq<Chunk>, extent: nat, j: nat)
    requires Tiled(c, extent) && j < |c| && !c[j].free
    requires Linked(next, FreeList(c))
    ensures c[j].addr != HEAD
    ensures forall i | 0 <= i <= |FreeList(c)| :: PredAddr(FreeList(c), i) != c[j].addr
    ensures Linked(next[c[j].addr := Null], FreeList(c))
  {
    Layout(c, extent);
    var l := FreeList(c);
    assert c[j] in c;
    forall i | 0 <= i <= |l| ensures PredAddr(l, i) != c[j].addr {
      if i > 0 {
        assert l[i - 1] in l;
        var m :| 0 <= m < |c| && c[m] == l[i - 1];
      }
    }
    var next' := next[c[j].addr := Null];
    forall i: nat | i <= |l| ensures LinkOk(next', l, i) {
      assert LinkOk(next, l, i);
    }
  }

  /** Changing the head's size word keeps every record's size word. */
  lemma {:induction false} StoredOffHead(size0: map<nat, nat>, size: map<nat, nat>, c: seq<Chunk>, extent: nat)
    requires Tiled(c, extent) && Stored(size0, c) && Agree(size, size0, {HEAD})
    ensures Stored(size, c)
  {
    Layout(c, extent);
    forall x | x in c ensures SizeOf(size, x) {
      assert SizeOf(size0, x);
    }
  }

  /** What fl_free reads while it looks for the block's neighbours: the
      record fl_findprevious returns, its size word and next word, and how
      the two adjacency tests the code makes decide exactly whether the
      record before and the record after the block are free. */
  lemma {:induction false} FreeScan(size: map<nat, nat>, next: map<nat, Ptr>, c: seq<Chunk>,
                                    extent: nat, j: nat, k: nat)
    requires Tiled(c, extent) && Stored(size, c) && HEAD in size
    requires Linked(next, FreeList(c))
    requires j < |c| && !c[j].free
    requires var l := FreeList(c);
             && k <= |l|
             && (forall i :: 0 <= i < k ==> l[i].addr <= c[j].addr)
             && (k < |l| ==> l[k].addr > c[j].addr)
    ensures var l := FreeList(c);
            var pk := PredAddr(l, k);
            && k == |FreeList(c[..j])|
            && c[j].addr in size && size[c[j].addr] == c[j].size && c[j].addr != HEAD
            && pk != c[j].addr && pk in size && pk in next && next[pk] == LinkAt(l, k)
            && ((pk != HEAD && pk + size[pk] == c[j].addr) <==> LeftFree(c, j))
            && (LeftFree(c, j) ==> pk == c[j - 1].addr && size[pk] == c[j - 1].size)
            && ((LinkAt(l, k) != Null && LinkAt(l, k).off == c[j].End()) <==> RightFree(c, j))
            && (RightFree(c, j) ==>
                  && k < |l| && l[k] == c[j + 1]
                  && c[j + 1].addr in size && size[c[j + 1].addr] == c[j + 1].size
                  && c[j + 1].addr in next && next[c[j + 1].addr] == LinkAt(l, k + 1)
                  && c[j + 1].addr != c[j].addr && c[j + 1].addr != pk && c[j + 1].addr != HEAD)
  {
    var l := FreeList(c);
    ScanSplit(next, c, extent, j, k);
    assert SizeOf(size, c[j]) && LinkOk(next, l, k);
    if k > 0 {
      assert SizeOf(size, l[k - 1]);
    }
    if RightFree(c, j) {
      assert PredAddr(l, k + 1) == l[k].addr;
      assert SizeOf(size, l[k]) && LinkOk(next, l, k + 1);
    }
  }

  /** Where fl_findprevious stops around record j, in terms of the layout:
      the nodes on either side of the split and whether they border j. */
  lemma {:induction false} ScanSplit(next: map<nat, Ptr>, c: seq<Chunk>, extent: nat, j: nat, k: nat)
    requires Tiled(c, extent) && Linked(next, FreeList(c))
    requires j < |c| && !c[j].free
    requires var l := FreeList(c);
             && k <= |l|
             && (forall i :: 0 <= i < k ==> l[i].addr <= c[j].addr)
             && (k < |l| ==> l[k].addr > c[j].addr)
    ensures var l := FreeList(c);
            var f := c[j].addr;
            && k == |FreeList(c[..j])|
            && ((k > 0 && l[k - 1].End() == f) <==> LeftFree(c, j))
            && (LeftFree(c, j) ==> l[k - 1] == c[j - 1])
            && ((k < |l| && l[k].addr == c[j].End()) <==> RightFree(c, j))
            && (RightFree(c, j) ==> l[k] == c[j + 1])
            && c[j] in c && f >= FL_SIZE
            && (k > 0 ==> l[k - 1] in c && l[k - 1].addr >= FL_SIZE)
            && (k < |l| ==> l[k] in c)
            && (0 < k < |l| ==> l[k - 1].addr < l[k].addr)
            && PredAddr(l, k) != f
  {
    var l := FreeList(c);
    var f := c[j].addr;
    Neighbours(c, j);
    SameSplit(l, |FreeList(c[..j])|, k, f);
    Layout(c, extent);
    NotALink(next, c, extent, j);
  }

  /** Rebuilding the links after the nodes l[lo..hi] are replaced by `ys`:
      links outside the change are kept, the ones around `ys` are given. */
  lemma {:induction false} Relink(next: map<nat, Ptr>, next2: map<nat, Ptr>, l: seq<Chunk>,
                                  lo: nat, hi: nat, ys: seq<Chunk>)
    requires Linked(next, l)
    requires lo <= hi <= |l|
    requires forall i | 0 <= i <= |l| && (i < lo || i > hi) ::
               PredAddr(l, i) in next && PredAddr(l, i) in next2 && next2[PredAddr(l, i)] == next[PredAddr(l, i)]
    requires forall i: nat | lo <= i <= lo + |ys| :: LinkOk(next2, l[..lo] + ys + l[hi..], i)
    ensures Linked(next2, l[..lo] + ys + l[hi..])
  {
    var l' := l[..lo] + ys + l[hi..];
    var d := lo + |ys|;
    forall i: nat | i <= |l'| ensures LinkOk(next2, l', i) {
      if i < lo {
        assert LinkOk(next, l, i);
        assert PredAddr(l', i) == PredAddr(l, i);
        assert LinkAt(l', i) == LinkAt(l, i);
      } else if i > d {
        var i0 := i - d + hi;
        assert LinkOk(next, l, i0);
        assert l'[i - 1] == l[i0 - 1];
        assert PredAddr(l', i) == PredAddr(l, i0);
        assert i < |l'| ==> l'[i] == l[i0];
        assert LinkAt(l', i) == LinkAt(l, i0);
      }
    }
  }

  /** Rebuilding the stored sizes after the records c[lo..hi] are replaced
      by `xs`. */
  lemma {:induction false} Restore(size2: map<nat, nat>, c: seq<Chunk>,
                                   lo: nat, hi: nat, xs: seq<Chunk>)
    requires Stored(size2, xs)
    requires lo <= hi <= |c|
    requires forall m | 0 <= m < |c| && (m < lo || m >= hi) :: SizeOf(size2, c[m])
    ensures Stored(size2, c[..lo] + xs + c[hi..])
  {
    forall y | y in c[..lo] + xs + c[hi..] ensures SizeOf(size2, y) {
      if y in c[..lo] {
        var m :| 0 <= m < lo && c[..lo][m] == y;
        assert c[m] == y;
      } else if y in c[hi..] {
        var m :| 0 <= m < |c| - hi && c[hi..][m] == y;
        assert c[hi + m] == y;
      } else {
        assert y in xs;
      }
    }
  }

  /** In a tiled zone an address inside record j is the address of no other
      record, nor the head's. */
  lemma {:induction false} Inside(c: seq<Chunk>, extent: nat, j: nat, a: nat)
    requires Tiled(c, extent) && j < |c| && c[j].addr <= a < c[j].End()
    ensures a != HEAD
    ensures forall m | 0 <= m < |c| && m != j :: c[m].addr != a
  {
    assert c[j] in c;
    Layout(c, extent);
    forall m | 0 <= m < |c| && m != j ensures c[m].addr != a {
      assert c[m] in c;
      if m < j {
        Ordered(c, m, j);
      } else {
        Ordered(c, j, m);
      }
    }
  }

  /** What fl_allocate reads about the node fl_findfit returned: its size
      word, its next word and the next word of its predecessor. */
  lemma {:induction false} FitFound(size: map<nat, nat>, next: map<nat, Ptr>, c: seq<Chunk>,
                                    extent: nat, a: nat, j: nat, k: nat)
    requires Tiled(c, extent) && Stored(size, c) && Linked(next, FreeList(c))
    requires 0 < a && j == FirstFit(c, a) && j < |c| && k == |FreeList(c[..j])|
    ensures var l := FreeList(c);
            && k < |l| && l[k] == c[j] && c[j].size >= a
            && c[j].addr != HEAD && c[j].addr in size && size[c[j].addr] == c[j].size
            && c[j].addr in next && next[c[j].addr] == LinkAt(l, k + 1)
            && PredAddr(l, k) in next && PredAddr(l, k) != c[j].addr
  {
    var l := FreeList(c);
    Layout(c, extent);
    FirstFitInList(c, a);
    assert c[j] in c && PredAddr(l, k + 1) == c[j].addr;
    assert SizeOf(size, c[j]) && LinkOk(next, l, k) && LinkOk(next, l, k + 1);
  }

  /** The reference Allocate when fl_findfit found record j: the record is
      carved, and the block handed out is the whole record or its tail. */
  lemma {:induction false} AllocateTaken(h: Heap, n: nat)
    requires 0 < n && AdjustSize(n) <= h.avail && FirstFit(h.chunks, AdjustSize(n)) < |h.chunks|
    ensures var a := AdjustSize(n);
            var c := h.chunks;
            var j := FirstFit(c, a);
            var f := c[j];
            && Allocate(h, n).heap == Heap(h.avail - a, c[..j] + Carve(f, a) + c[j + 1..], h.extent)
            && Allocate(h, n).ptr == At(FlToVoid(if f.size - a < FL_SIZE then f.addr else f.addr + (f.size - a)))
  {
  }

  /** The words fl_allocate leaves behind represent the carved layout. */
  lemma {:induction false} AllocCommit(size0: map<nat, nat>, next0: map<nat, Ptr>,
                                       size: map<nat, nat>, next: map<nat, Ptr>,
                                       c: seq<Chunk>, extent: nat, a: nat, k: nat)
    requires Represents(size0, next0, c, extent)
    requires 0 < a <= size0[HEAD] && a % FL_SIZE == 0
    requires FirstFit(c, a) < |c| && k == |FreeList(c[..FirstFit(c, a)])|
    requires k < |FreeList(c)|
    requires var f := c[FirstFit(c, a)];
             if f.size - a < FL_SIZE then
               && size == size0[HEAD := size0[HEAD] - a]
               && f.addr in next0 && next == next0[PredAddr(FreeList(c), k) := next0[f.addr]]
             else
               && size == size0[f.addr := f.size - a][f.addr + (f.size - a) := a][HEAD := size0[HEAD] - a]
               && next == next0
    ensures var j := FirstFit(c, a);
            Represents(size, next, c[..j] + Carve(c[j], a) + c[j + 1..], extent)
  {
    var j := FirstFit(c, a);
    var h := Heap(size0[HEAD], c, extent);
    FitFound(size0, next0, c, extent, a, j, k);
    if c[j].size - a < FL_SIZE {
      AllocSizes(size0, size, c, extent, a, j);
      AllocLinks(next0, next, c, extent, a, j, k);
    } else {
      AllocSizes(size0, size, c, extent, a, j);
      AllocLinks(next0, next, c, extent, a, j, k);
    }
    CarvePreserves(h, a);
  }

  /** The size words fl_allocate writes describe the carved zone. */
  lemma {:induction false} AllocSizes(size0: map<nat, nat>, size: map<nat, nat>,
                                      c: seq<Chunk>, extent: nat, a: nat, j: nat)
    requires Tiled(c, extent) && Stored(size0, c)
    requires j < |c| && 0 < a <= c[j].size && HEAD in size0 && a <= size0[HEAD]
    requires var f := c[j];
             if f.size - a < FL_SIZE then
               size == size0[HEAD := size0[HEAD] - a]
             else
               size == size0[f.addr := f.size - a][f.addr + (f.size - a) := a][HEAD := size0[HEAD] - a]
    ensures Stored(size, c[..j] + Carve(c[j], a) + c[j + 1..])
  {
    var f := c[j];
    var xs := Carve(f, a);
    assert f in c;
    Layout(c, extent);
    Inside(c, extent, j, f.addr);
    if |xs| == 2 {
      Inside(c, extent, j, f.addr + (f.size - a));
    }
    forall m | 0 <= m < |c| && (m < j || m >= j + 1) ensures SizeOf(size, c[m]) {
      assert c[m] in c && SizeOf(size0, c[m]);
    }
    assert SizeOf(size0, f);
    forall x | x in xs ensures SizeOf(size, x) {
      if |xs| == 2 {
        assert xs == [xs[0], xs[1]];
      } else {
        assert xs == [xs[0]];
      }
    }
    Restore(size, c, j, j + 1, xs);
  }

  /** No two records of a list hand their next word to the same place. */
  ghost predicate Distinct(l: seq<Chunk>)
  {
    forall i, j | 0 <= i < j <= |l| :: PredAddr(l, i) != PredAddr(l, j)
  }

  /** Unlinking node k: its predecessor's next word now holds the link that
      node k held. */
  lemma {:induction false} LinksDrop(next0: map<nat, Ptr>, next: map<nat, Ptr>, l: seq<Chunk>, k: nat)
    requires Linked(next0, l) && Distinct(l) && k < |l|
    requires Agree(next, next0, {PredAddr(l, k)})
    requires PredAddr(l, k) in next && next[PredAddr(l, k)] == LinkAt(l, k + 1)
    ensures Linked(next, l[..k] + l[k + 1..])
  {
    var l' := l[..k] + [] + l[k + 1..];
    assert l' == l[..k] + l[k + 1..];
    assert PredAddr(l', k) == PredAddr(l, k) && LinkAt(l', k) == LinkAt(l, k + 1);
    assert LinkOk(next, l', k);
    forall i | 0 <= i <= |l| && (i < k || i > k + 1)
      ensures PredAddr(l, i) in next0 && PredAddr(l, i) in next && next[PredAddr(l, i)] == next0[PredAddr(l, i)]
    {
      assert LinkOk(next0, l, i);
      assert PredAddr(l, i) != PredAddr(l, k);
    }
    Relink(next0, next, l, k, k + 1, []);
  }

  /** Replacing the nodes l[lo..hi] by the single node x: the link into x
      and the link out of x are given, every other next word is kept. */
  lemma {:induction false} LinksSplice(next0: map<nat, Ptr>, next: map<nat, Ptr>, l: seq<Chunk>,
                                       lo: nat, hi: nat, x: Chunk, keys: set<nat>)
    requires Linked(next0, l) && lo <= hi <= |l|
    requires forall i | 0 <= i <= |l| && (i < lo || i > hi) :: PredAddr(l, i) !in keys
    requires Agree(next, next0, keys)
    requires PredAddr(l, lo) in next && next[PredAddr(l, lo)] == At(x.addr)
    requires x.addr in next && next[x.addr] == LinkAt(l, hi)
    ensures Linked(next, l[..lo] + [x] + l[hi..])
  {
    var l' := l[..lo] + [x] + l[hi..];
    assert PredAddr(l', lo) == PredAddr(l, lo) && LinkAt(l', lo) == At(x.addr);
    assert PredAddr(l', lo + 1) == x.addr && LinkAt(l', lo + 1) == LinkAt(l, hi);
    assert LinkOk(next, l', lo) && LinkOk(next, l', lo + 1);
    forall i: nat | lo <= i <= lo + 1 ensures LinkOk(next, l', i) {
    }
    forall i | 0 <= i <= |l| && (i < lo || i > hi)
      ensures PredAddr(l, i) in next0 && PredAddr(l, i) in next && next[PredAddr(l, i)] == next0[PredAddr(l, i)]
    {
      assert LinkOk(next0, l, i);
    }
    Relink(next0, next, l, lo, hi, [x]);
  }

  /** The free list after fl_allocate carves record j: node k is dropped, or
      replaced by the remainder that keeps its address. */
  lemma {:induction false} CarvedList(c: seq<Chunk>, a: nat, j: nat, k: nat)
    requires Contiguous(c) && Roomy(c)
    requires 0 < a && j == FirstFit(c, a) && j < |c| && k == |FreeList(c[..j])|
    ensures var l := FreeList(c);
            var l' := FreeList(c[..j] + Carve(c[j], a) + c[j + 1..]);
            && k < |l| && l[k] == c[j]
            && (c[j].size - a < FL_SIZE ==> l' == l[..k] + l[k + 1..])
            && (c[j].size - a >= FL_SIZE ==>
                  l' == l[..k] + [Carve(c[j], a)[0]] + l[k + 1..] && Carve(c[j], a)[0].addr == c[j].addr)
  {
    var l := FreeList(c);
    var xs := Carve(c[j], a);
    var pre, post := FreeList(c[..j]), FreeList(c[j + 1..]);
    assert k < |l| && l[k] == c[j] && l[..k] == pre && l[k + 1..] == post by {
      FirstFitInList(c, a);
    }
    assert FreeList(c[..j] + xs + c[j + 1..]) == pre + FreeList(xs) + post by {
      Splice(c, j, j + 1, xs);
    }
    CarvedNodes(c[j], a);
    if |xs| == 1 {
      assert FreeList(xs) == [];
      assert pre + [] + post == pre + post;
    } else {
      assert FreeList(xs) == [xs[0]];
    }
  }

  /** The nodes among the records that replace a carved node: the remainder,
      when there is one. */
  lemma {:induction false} CarvedNodes(f: Chunk, a: nat)
    requires a <= f.size
    ensures FreeList(Carve(f, a)) == if f.size - a < FL_SIZE then [] else [Carve(f, a)[0]]
  {
    var xs := Carve(f, a);
    if |xs| == 1 {
      assert xs == [xs[0]];
      Small(xs[0], xs[0]);
    } else {
      assert xs == [xs[0], xs[1]];
      Small(xs[0], xs[1]);
      Small(xs[0], xs[0]);
      Small(xs[1], xs[1]);
    }
  }

  /** The next words fl_allocate writes link the nodes of the carved zone. */
  lemma {:induction false} AllocLinks(next0: map<nat, Ptr>, next: map<nat, Ptr>,
                                      c: seq<Chunk>, extent: nat, a: nat, j: nat, k: nat)
    requires Tiled(c, extent) && Linked(next0, FreeList(c))
    requires 0 < a && j == FirstFit(c, a) && j < |c| && k == |FreeList(c[..j])| && k < |FreeList(c)|
    requires var l := FreeList(c);
             if c[j].size - a < FL_SIZE then
               && Agree(next, next0, {PredAddr(l, k)})
               && PredAddr(l, k) in next && next[PredAddr(l, k)] == LinkAt(l, k + 1)
             else
               Agree(next, next0, {})
    ensures Linked(next, FreeList(c[..j] + Carve(c[j], a) + c[j + 1..]))
  {
    var l := FreeList(c);
    Layout(c, extent);
    CarvedList(c, a, j, k);
    if c[j].size - a < FL_SIZE {
      LinksDrop(next0, next, l, k);
    } else {
      assert PredAddr(l, k + 1) == c[j].addr;
      assert LinkOk(next0, l, k) && LinkOk(next0, l, k + 1);
      LinksSplice(next0, next, l, k, k + 1, Carve(c[j], a)[0], {});
    }
  }

  /** The words fl_free leaves behind represent the merged layout. `size1`
      and `next1` are the words once the block's next word is cleared and
      the head's counter grown, and `k` is where fl_findprevious stopped;
      `size2`, `next2` are the words once the block is merged with or linked
      after the node before it; `size`, `next` once the node after it is
      merged in. */
  lemma {:induction false} FreeCommit(size1: map<nat, nat>, next1: map<nat, Ptr>,
                                      size2: map<nat, nat>, next2: map<nat, Ptr>,
                                      size: map<nat, nat>, next: map<nat, Ptr>,
                                      h: Heap, p: Ptr, j: nat, k: nat)
    requires WellFormed(h) && CanFree(h, p) && p.At? && j == IndexOf(h.chunks, VoidToFl(p.off))
    requires HEAD in size1 && size1[HEAD] == h.avail + h.chunks[j].size
    requires Stored(size1, h.chunks) && Linked(next1, FreeList(h.chunks))
    requires var l := FreeList(h.chunks);
             && k <= |l|
             && (forall i :: 0 <= i < k ==> l[i].addr <= h.chunks[j].addr)
             && (k < |l| ==> l[k].addr > h.chunks[j].addr)
    requires var c := h.chunks;
             var l := FreeList(c);
             var pk := PredAddr(l, k);
             var f := c[j].addr;
             && pk in size1 && f in size1 && pk in next1
             && (if LeftFree(c, j) then
                   size2 == size1[pk := size1[pk] + size1[f]] && next2 == next1
                 else
                   size2 == size1 && next2 == next1[f := next1[pk]][pk := At(f)])
    requires var c := h.chunks;
             var x := Merged(c, j).addr;
             if RightFree(c, j) then
               && x in size2 && c[j + 1].addr in size2 && c[j + 1].addr in next2
               && size == size2[x := size2[x] + size2[c[j + 1].addr]]
               && next == next2[x := next2[c[j + 1].addr]]
             else
               size == size2 && next == next2
    ensures HEAD in size && Heap(size[HEAD], FreelistModel.Free(h, p).chunks, h.extent) == FreelistModel.Free(h, p)
    ensures Represents(size, next, FreelistModel.Free(h, p).chunks, h.extent)
  {
    var c := h.chunks;
    var l := FreeList(c);
    var x := Merged(c, j);
    var pk := PredAddr(l, k);
    var f := c[j].addr;
    var hiL := if RightFree(c, j) then k + 1 else k;
    FreeScan(size1, next1, c, h.extent, j, k);
    assert x.addr == if LeftFree(c, j) then pk else f;
    assert Agree(size, size1, {HEAD, x.addr}) && x.addr in size && size[x.addr] == x.size;
    assert && Agree(next, next1, {f, pk})
           && x.addr in next && next[x.addr] == LinkAt(l, hiL)
           && (!LeftFree(c, j) ==> pk in next && next[pk] == At(f));
    assert size[HEAD] == size1[HEAD];
    assert FreelistModel.Free(h, p) == Heap(size1[HEAD], c[..MergeLo(c, j)] + [x] + c[MergeHi(c, j)..], h.extent);
    FreePreserves(h, p);
    FreeSizes(size1, size, c, h.extent, j);
    FreeLinks(next1, next, c, h.extent, j, k);
  }

  /** The size words fl_free writes describe the merged zone. */
  lemma {:induction false} FreeSizes(size0: map<nat, nat>, size: map<nat, nat>,
                                     c: seq<Chunk>, extent: nat, j: nat)
    requires Tiled(c, extent) && Coalesced(c) && Stored(size0, c)
    requires j < |c| && !c[j].free
    requires Agree(size, size0, {HEAD, Merged(c, j).addr})
    requires Merged(c, j).addr in size && size[Merged(c, j).addr] == Merged(c, j).size
    ensures Stored(size, c[..MergeLo(c, j)] + [Merged(c, j)] + c[MergeHi(c, j)..])
  {
    var lo, hi, x := MergeLo(c, j), MergeHi(c, j), Merged(c, j);
    MergedRun(c, j);
    Layout(c, extent);
    Inside(c, extent, lo, x.addr);
    forall m | 0 <= m < |c| && (m < lo || m >= hi) ensures SizeOf(size, c[m]) {
      assert c[m] in c && SizeOf(size0, c[m]);
    }
    assert SizeOf(size, x);
    Restore(size, c, lo, hi, [x]);
  }

  /** The next words fl_free writes link the nodes of the merged zone. The
      only words it changes are the block's own and the one of the record
      fl_findprevious returned. */
  lemma {:induction false} FreeLinks(next1: map<nat, Ptr>, next: map<nat, Ptr>,
                                     c: seq<Chunk>, extent: nat, j: nat, k: nat)
    requires Tiled(c, extent) && Coalesced(c) && Linked(next1, FreeList(c))
    requires j < |c| && !c[j].free && k == |FreeList(c[..j])| && k <= |FreeList(c)|
    requires var l := FreeList(c);
             var hiL := if RightFree(c, j) then k + 1 else k;
             && Agree(next, next1, {c[j].addr, PredAddr(l, k)})
             && Merged(c, j).addr in next && next[Merged(c, j).addr] == LinkAt(l, hiL)
             && (!LeftFree(c, j) ==> PredAddr(l, k) in next && next[PredAddr(l, k)] == At(c[j].addr))
    ensures Linked(next, FreeList(c[..MergeLo(c, j)] + [Merged(c, j)] + c[MergeHi(c, j)..]))
  {
    var l := FreeList(c);
    var x := Merged(c, j);
    var loL := if LeftFree(c, j) then k - 1 else k;
    var hiL := if RightFree(c, j) then k + 1 else k;
    var keys := {c[j].addr, PredAddr(l, k)};
    assert Distinct(l) && forall i | 0 <= i <= |l| :: PredAddr(l, i) != c[j].addr by {
      Layout(c, extent);
      NotALink(next1, c, extent, j);
    }
    assert && 0 <= loL <= k <= hiL <= |l|
           && FreeList(c[..MergeLo(c, j)] + [x] + c[MergeHi(c, j)..]) == l[..loL] + [x] + l[hiL..] by {
      MergedList(c, j, k);
    }
    KeysApart(l, c[j].addr, k, loL, hiL);
    if LeftFree(c, j) {
      assert l[k - 1] == c[j - 1] by {
        Neighbours(c, j);
      }
      LeftLink(next1, next, l, k, c[j].addr, x.addr);
    }
    LinksSplice(next1, next, l, loL, hiL, x, keys);
  }

  /** Outside the nodes fl_free merges, no record of the list hands its
      next word to the block or to the record fl_findprevious returned. */
  lemma {:induction false} KeysApart(l: seq<Chunk>, f: nat, k: nat, lo: nat, hi: nat)
    requires Distinct(l) && lo <= k <= hi <= |l|
    requires forall i | 0 <= i <= |l| :: PredAddr(l, i) != f
    ensures forall i | 0 <= i <= |l| && (i < lo || i > hi) :: PredAddr(l, i) !in {f, PredAddr(l, k)}
  {
    forall i | 0 <= i <= |l| && (i < lo || i > hi) ensures PredAddr(l, i) !in {f, PredAddr(l, k)} {
      if i < k {
        assert PredAddr(l, i) != PredAddr(l, k);
      } else {
        assert PredAddr(l, k) != PredAddr(l, i);
      }
    }
  }

  /** When the block joins the node before it, the link into that node is
      one fl_free does not touch. */
  lemma {:induction false} LeftLink(next1: map<nat, Ptr>, next: map<nat, Ptr>, l: seq<Chunk>,
                                    k: nat, f: nat, addr: nat)
    requires Linked(next1, l) && Distinct(l) && 0 < k <= |l|
    requires PredAddr(l, k - 1) != f && l[k - 1].addr == addr
    requires Agree(next, next1, {f, PredAddr(l, k)})
    ensures PredAddr(l, k - 1) in next && next[PredAddr(l, k - 1)] == At(addr)
  {
    assert LinkOk(next1, l, k - 1);
    assert PredAddr(l, k - 1) != PredAddr(l, k);
  }

  /** The free list after fl_free: the nodes merged with the block are
      replaced by the merged record. */
  lemma {:induction false} MergedList(c: seq<Chunk>, j: nat, k: nat)
    requires Contiguous(c) && Roomy(c) && j < |c| && !c[j].free && k == |FreeList(c[..j])|
    ensures var l := FreeList(c);
            var loL := if LeftFree(c, j) then k - 1 else k;
            var hiL := if RightFree(c, j) then k + 1 else k;
            && 0 <= loL <= k <= hiL <= |l|
            && FreeList(c[..MergeLo(c, j)] + [Merged(c, j)] + c[MergeHi(c, j)..]) == l[..loL] + [Merged(c, j)] + l[hiL..]
  {
    var l := FreeList(c);
    var lo, hi, x := MergeLo(c, j), MergeHi(c, j), Merged(c, j);
    var loL := if LeftFree(c, j) then k - 1 else k;
    var hiL := if RightFree(c, j) then k + 1 else k;
    Neighbours(c, j);
    NodesBelow(c, j, k);
    NodesAbove(c, j, k);
    Splice(c, lo, hi, [x]);
    Small(x, x);
    assert FreeList([x]) == [x];
  }

  /** The nodes below the records fl_free merges. */
  lemma {:induction false} NodesBelow(c: seq<Chunk>, j: nat, k: nat)
    requires Contiguous(c) && Roomy(c) && j < |c| && !c[j].free && k == |FreeList(c[..j])|
    ensures var loL := if LeftFree(c, j) then k - 1 else k;
            0 <= loL <= |FreeList(c)| && FreeList(c[..MergeLo(c, j)]) == FreeList(c)[..loL]
  {
    var l := FreeList(c);
    var pre := FreeList(c[..j]);
    Neighbours(c, j);
    assert l == pre + FreeList(c[j + 1..]);
    if LeftFree(c, j) {
      ListSnoc(c, j);
      assert pre[..k - 1] == l[..k - 1];
    } else {
      assert pre == l[..k];
    }
  }

  /** The nodes above the records fl_free merges. */
  lemma {:induction false} NodesAbove(c: seq<Chunk>, j: nat, k: nat)
    requires Contiguous(c) && Roomy(c) && j < |c| && !c[j].free && k == |FreeList(c[..j])|
    ensures var hiL := if RightFree(c, j) then k + 1 else k;
            hiL <= |FreeList(c)| && FreeList(c[MergeHi(c, j)..]) == FreeList(c)[hiL..]
  {
    var l := FreeList(c);
    var post := FreeList(c[j + 1..]);
    Neighbours(c, j);
    assert l == FreeList(c[..j]) + post;
    if RightFree(c, j) {
      ListCons(c, j + 1);
      assert post[1..] == l[k + 1..];
    } else {
      assert post == l[k..];
    }
  }
}
