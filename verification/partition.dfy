/** The older ccontrol kernel module (ccontrol/module/ccontrol.c). At load
    time it splits the last-level cache colours among `subdivs.Length`
    subdivisions (partitions), reserves `mem` bytes of physical memory in
    heads of 2^order pages, gives every page to the partition that owns its
    colour, and exposes each partition as a character device that user space
    maps. LL_NUM_COLORS, L2_NUM_COLORS and PFN_TO_COLOR come from a header
    that is not part of this model: they are the parameters `ncolors`, `l2`
    and `color`, and MAX_SUBDIVISIONS is taken to be LL_NUM_COLORS. */
module Partition {
  import opened CStdlib
  import opened Frames

  /** subdivs[0] + ... + subdivs[i - 1]: the colours handed to the
      subdivisions before the i-th. */
  function Prefix(s: seq<nat>, i: nat): nat
    requires i <= |s|
  {
    if i == 0 then 0 else Prefix(s, i - 1) + s[i - 1]
  }

  lemma {:induction false} PrefixMono(s: seq<nat>, i: nat, j: nat)
    requires i <= j <= |s|
    ensures Prefix(s, i) <= Prefix(s, j)
    decreases j - i
  {
    if i < j {
      PrefixMono(s, i, j - 1);
    }
  }

  /** The sum of the first `i` sizes as init's loop computes it: in
      `unsigned int`, wrapping modulo 2^32. */
  function SumWrapped(s: seq<nat>, i: nat): (r: nat)
    requires i <= |s|
    ensures r < UINT_MOD
  {
    if i == 0 then 0 else (SumWrapped(s, i - 1) + s[i - 1]) % UINT_MOD
  }

  lemma ModAdd(a: nat, b: nat, m: nat)
    requires m > 0
    ensures (a % m + b) % m == (a + b) % m
  {
    var q, r := a / m, a % m;
    var q', r' := (r + b) / m, (r + b) % m;
    assert a + b == (q + q') * m + r' by {
      assert (q + q') * m == q * m + q' * m;
    }
    DivModUnique(a + b, m, q + q', r');
  }

  /** The wrapped sum is the true sum modulo 2^32. */
  lemma {:induction false} SumWrappedMod(s: seq<nat>, i: nat)
    requires i <= |s|
    ensures SumWrapped(s, i) == Prefix(s, i) % UINT_MOD
  {
    if i > 0 {
      SumWrappedMod(s, i - 1);
      ModAdd(Prefix(s, i - 1), s[i - 1], UINT_MOD);
    }
  }

  /** Two sizes whose true sum is far above the number of colours pass the
      wrapped check, and init_colormap then hands out colour ranks up to
      that sum, past the end of the colour map. */
  lemma WrappedSumAccepted(n: nat)
    requires 1 <= n < UINT_MOD - 1
    ensures var s := [UINT_MOD - 1, n + 1];
      SumWrapped(s, |s|) == n && Prefix(s, |s|) > n
  {
    var s := [UINT_MOD - 1, n + 1];
    assert SumWrapped(s, 1) == UINT_MOD - 1;
    assert SumWrapped(s, 2) == (UINT_MOD + n) % UINT_MOD;
    DivModUnique(UINT_MOD + n, UINT_MOD, 1, n);
  }

  /** The sum check of init, in exact arithmetic: the sizes must add up to
      the number of colours. */
  method SubdivSum(s: seq<nat>) returns (sum: nat)
    ensures sum == Prefix(s, |s|)
    ensures sum % UINT_MOD == SumWrapped(s, |s|)
  {
    sum := 0;
    var i := 0;
    while i < |s|
      invariant 0 <= i <= |s| && sum == Prefix(s, i)
    {
      sum := sum + s[i];
      i := i + 1;
    }
    SumWrappedMod(s, |s|);
  }

  /** The subdivision that gets the colour ranked `x`: the one whose ranks
      Prefix(i) .. Prefix(i + 1) - 1 hold `x`. */
  function Owner(s: seq<nat>, x: nat): (i: nat)
    requires x < Prefix(s, |s|)
    ensures i < |s| && Prefix(s, i) <= x < Prefix(s, i + 1)
  {
    OwnerBelow(s, x, |s|)
  }

  function OwnerBelow(s: seq<nat>, x: nat, n: nat): (i: nat)
    requires n <= |s| && x < Prefix(s, n)
    ensures i < n && Prefix(s, i) <= x < Prefix(s, i + 1)
    decreases n
  {
    if x >= Prefix(s, n - 1) then n - 1 else OwnerBelow(s, x, n - 1)
  }

  /** Exactly one subdivision's ranks hold `x`. */
  lemma OwnerUnique(s: seq<nat>, i: nat, x: nat)
    requires i < |s| && Prefix(s, i) <= x < Prefix(s, i + 1)
    ensures x < Prefix(s, |s|) && Owner(s, x) == i
  {
    PrefixMono(s, i + 1, |s|);
    var o := Owner(s, x);
    if o < i {
      PrefixMono(s, o + 1, i);
    } else if o > i {
      PrefixMono(s, i + 1, o);
    }
  }

  /** No two positions of `o` hold the same colour. */
  predicate Distinct(o: seq<nat>)
  {
    forall a, b | 0 <= a < b < |o| :: o[a] != o[b]
  }

  /** `o` lists every colour below `n` exactly once. */
  predicate Permutation(o: seq<nat>, n: nat)
  {
    |o| == n && Distinct(o) && (forall a | 0 <= a < |o| :: o[a] < n)
  }

  /** The colours r, r + l2, r + 2 * l2, ... below `ll`: those of one L2
      colour when r < l2. */
  function Stride(r: nat, l2: nat, ll: nat): seq<nat>
    requires l2 >= 1
    decreases ll - r
  {
    if r >= ll then [] else [r] + Stride(r + l2, l2, ll)
  }

  /** The colours below `ll` of L2 colours 0 .. i - 1, L2 colour by L2
      colour. */
  function Grouped(ll: nat, l2: nat, i: nat): seq<nat>
    requires l2 >= 1
  {
    if i == 0 then [] else Grouped(ll, l2, i - 1) + Stride(i - 1, l2, ll)
  }

  /** The order in which init_colormap hands out colours: grouped by L2
      colour when the cache has an L2 below the last level (`l2` >= 1,
      L2_NUM_COLORS), else 0, 1, 2, .... */
  function ColorOrder(ll: nat, l2: nat): seq<nat>
  {
    if l2 == 0 then seq(ll, c => c) else Grouped(ll, l2, l2)
  }

  /** Sorted by L2 colour (the remainder modulo `l2`), then by colour. */
  predicate ByResidue(o: seq<nat>, l2: nat)
    requires l2 >= 1
  {
    forall a, b | 0 <= a < b < |o| ::
      Col(o[a], l2) < Col(o[b], l2) || (Col(o[a], l2) == Col(o[b], l2) && o[a] < o[b])
  }

  lemma {:induction false} ColAtMost(x: nat, k: nat)
    requires k > 0
    ensures Col(x, k) <= x
    decreases x
  {
    if x >= k {
      ColAtMost(x - k, k);
    }
  }

  /** Colours closer than `k` differ modulo `k`. */
  lemma {:induction false} ColGap(r: nat, x: nat, k: nat)
    requires k > 0 && r < x < r + k
    ensures Col(x, k) != Col(r, k)
    decreases r
  {
    if r >= k {
      ColGap(r - k, x - k, k);
    } else if x >= k {
      assert Col(x, k) == Col(x - k, k) == x - k;
    }
  }

  /** A stride holds exactly the colours from `r` below `ll` with the
      remainder of `r`, ascending. */
  lemma {:induction false} StrideMembers(r: nat, l2: nat, ll: nat)
    requires l2 >= 1
    ensures forall x: nat :: x in Stride(r, l2, ll) <==> r <= x < ll && Col(x, l2) == Col(r, l2)
    ensures forall a, b | 0 <= a < b < |Stride(r, l2, ll)| :: Stride(r, l2, ll)[a] < Stride(r, l2, ll)[b]
    decreases ll - r
  {
    if r < ll {
      var t := Stride(r + l2, l2, ll);
      StrideMembers(r + l2, l2, ll);
      assert Col(r + l2, l2) == Col(r, l2);
      forall x | r < x < ll && Col(x, l2) == Col(r, l2)
        ensures x in t
      {
        if x < r + l2 {
          ColGap(r, x, l2);
        }
      }
      forall b | 0 < b < |[r] + t|
        ensures r < ([r] + t)[b]
      {
        assert ([r] + t)[b] in t;
      }
    }
  }

  /** The L2 groups below `i` hold exactly the colours below `ll` whose L2
      colour is below `i`, sorted by L2 colour and then by colour. */
  lemma {:induction false} GroupedMembers(ll: nat, l2: nat, i: nat)
    requires 1 <= l2 && i <= l2
    ensures forall x: nat :: x in Grouped(ll, l2, i) <==> x < ll && Col(x, l2) < i
    ensures ByResidue(Grouped(ll, l2, i), l2)
  {
    if i > 0 {
      var g, t := Grouped(ll, l2, i - 1), Stride(i - 1, l2, ll);
      GroupedMembers(ll, l2, i - 1);
      StrideMembers(i - 1, l2, ll);
      assert Col(i - 1, l2) == i - 1;
      forall x: nat | x < ll && Col(x, l2) == i - 1
        ensures x in t
      {
        ColAtMost(x, l2);
      }
      forall a, b | 0 <= a < b < |g + t|
        ensures Col((g + t)[a], l2) < Col((g + t)[b], l2)
          || (Col((g + t)[a], l2) == Col((g + t)[b], l2) && (g + t)[a] < (g + t)[b])
      {
        if b < |g| {
        } else if a < |g| {
          assert (g + t)[a] in g && (g + t)[b] in t;
        } else {
          assert (g + t)[a] == t[a - |g|] && (g + t)[b] == t[b - |g|];
          assert t[a - |g|] in t && t[b - |g|] in t;
        }
      }
    }
  }

  /** The colours listed in `o`. */
  function Listed(o: seq<nat>): (r: set<nat>)
    ensures forall x :: x in r <==> x in o
  {
    if o == [] then {} else Listed(o[..|o| - 1]) + {o[|o| - 1]}
  }

  /** The colours below `n`. */
  function Below(n: nat): (r: set<nat>)
    ensures forall x: nat :: x in r <==> x < n
    ensures |r| == n
  {
    if n == 0 then {} else Below(n - 1) + {n - 1}
  }

  lemma {:induction false} DistinctCard(o: seq<nat>)
    requires Distinct(o)
    ensures |Listed(o)| == |o|
    decreases |o|
  {
    if o != [] {
      var init, e := o[..|o| - 1], o[|o| - 1];
      assert Distinct(init);
      DistinctCard(init);
      assert e !in init;
    }
  }

  /** A list of distinct colours that holds exactly those below `n` has
      `n` entries. */
  lemma DistinctCovers(o: seq<nat>, n: nat)
    requires Distinct(o) && forall x: nat :: x in o <==> x < n
    ensures |o| == n
  {
    DistinctCard(o);
    assert Listed(o) == Below(n);
  }

  /** Both variants of init_colormap hand out every colour exactly once;
      with an L2, grouped by L2 colour and ascending within a group. */
  lemma ColorOrderPermutation(ll: nat, l2: nat)
    ensures Permutation(ColorOrder(ll, l2), ll)
    ensures forall c | 0 <= c < ll :: c in ColorOrder(ll, l2)
    ensures l2 >= 1 ==> ByResidue(ColorOrder(ll, l2), l2)
  {
    var o := ColorOrder(ll, l2);
    if l2 == 0 {
      forall c | 0 <= c < ll
        ensures c in o
      {
        assert o[c] == c;
      }
    } else {
      GroupedMembers(ll, l2, l2);
      forall x: nat | x < ll
        ensures x in o
      {
      }
      forall a | 0 <= a < |o|
        ensures o[a] < ll
      {
        assert o[a] in o;
      }
      DistinctCovers(o, ll);
    }
  }

  lemma {:induction false} GroupedGrows(ll: nat, l2: nat, i: nat, n: nat)
    requires 1 <= l2 && i <= n
    ensures |Grouped(ll, l2, i)| <= |Grouped(ll, l2, n)|
    decreases n
  {
    if i < n {
      GroupedGrows(ll, l2, i, n - 1);
    }
  }

  /** j * l2, by repeated addition. */
  function Multiple(j: nat, l2: nat): nat
  {
    if j == 0 then 0 else Multiple(j - 1, l2) + l2
  }

  lemma {:induction false} MultipleMul(j: nat, l2: nat)
    ensures Multiple(j, l2) == j * l2
  {
    if j > 0 {
      MultipleMul(j - 1, l2);
      assert j * l2 == (j - 1) * l2 + l2;
    }
  }

  /** The j-th colour of L2 colour `i` that the first loop of the L2
      init_colormap writes is a colour. */
  lemma StrideBound(i: nat, j: nat, l2: nat, ll: nat)
    requires i < l2 && j < ll / l2
    ensures i + Multiple(j, l2) < ll
  {
    var q := ll / l2;
    MultipleMul(q, l2);
    assert ll == q * l2 + ll % l2;
    MultipleMono(j + 1, q, l2);
  }

  lemma {:induction false} MultipleMono(j: nat, q: nat, l2: nat)
    requires j <= q
    ensures Multiple(j, l2) <= Multiple(q, l2)
    decreases q
  {
    if j < q {
      MultipleMono(j, q - 1, l2);
    }
  }

  /** After that loop, at most one more colour of L2 colour `i` is left. */
  lemma StrideEnd(i: nat, l2: nat, ll: nat)
    requires i < l2
    ensures ll < i + Multiple(ll / l2, l2) + l2
  {
    MultipleMul(ll / l2, l2);
    assert ll == (ll / l2) * l2 + ll % l2;
  }

  /** The colors[] table of the L2 init_colormap: the colours of each L2
      colour in turn. */
  method GroupColors(ll: nat, l2: nat) returns (colors: array<nat>)
    requires l2 >= 1
    ensures colors.Length == ll && colors[..] == ColorOrder(ll, l2)
  {
    colors := new nat[ll](_ => 0);
    ColorOrderPermutation(ll, l2);
    var index := 0;
    var i := 0;
    while i < l2
      invariant 0 <= i <= l2 && index == |Grouped(ll, l2, i)| && index <= ll
      invariant colors.Length == ll && colors[..index] == Grouped(ll, l2, i)
    {
      GroupedGrows(ll, l2, i + 1, l2);
      index := WriteStride(colors, index, i, l2, ll);
      i := i + 1;
    }
    assert colors[..] == colors[..index];
  }

  /** One pass of the L2 init_colormap's outer loop: the colours j * l2 + i
      for j < ll / l2, then one more if it is still a colour, written from
      `index` on. */
  method WriteStride(colors: array<nat>, index: nat, i: nat, l2: nat, ll: nat) returns (next: nat)
    requires i < l2 && colors.Length == ll && index + |Stride(i, l2, ll)| <= ll
    modifies colors
    ensures next == index + |Stride(i, l2, ll)|
    ensures colors[..next] == old(colors[..index]) + Stride(i, l2, ll)
  {
    ghost var front := colors[..index];
    var q := ll / l2;
    next := index;
    var j := 0;
    var c := i;
    while j < q
      invariant 0 <= j <= q && c == i + Multiple(j, l2)
      invariant next + |Stride(c, l2, ll)| == index + |Stride(i, l2, ll)|
      invariant colors[..next] + Stride(c, l2, ll) == front + Stride(i, l2, ll)
    {
      StrideBound(i, j, l2, ll);
      assert Stride(c, l2, ll) == [c] + Stride(c + l2, l2, ll);
      colors[next] := c;
      assert colors[..next + 1] == colors[..next] + [c];
      next := next + 1;
      c := c + l2;
      j := j + 1;
    }
    StrideEnd(i, l2, ll);
    if c < ll {
      assert Stride(c, l2, ll) == [c];
      colors[next] := c;
      assert colors[..next + 1] == colors[..next] + [c];
      next := next + 1;
    }
  }

  /** The colour ranked `x` in `order` maps to the subdivision
      Owner(s, x), for every rank. */
  predicate Assigned(cmap: seq<int>, order: seq<nat>, s: seq<nat>)
  {
    forall x | 0 <= x < |order| :: order[x] < |cmap| && x < Prefix(s, |s|) && cmap[order[x]] == Owner(s, x)
  }

  /** Every colour of the map belongs to one of `n` subdivisions. */
  predicate Mapped(cmap: seq<int>, n: nat)
  {
    forall c | 0 <= c < |cmap| :: 0 <= cmap[c] < n
  }

  /** The partition a page goes to: colormap[PFN_TO_COLOR(pfn)] (0 only for
      a colour outside a map that Mapped rules out). */
  function PartOf(cmap: seq<int>, color: Page -> nat): Page -> nat
  {
    p => if color(p) < |cmap| && cmap[color(p)] >= 0 then cmap[color(p)] as nat else 0
  }

  /** `n` empty partitions. */
  function Empties(n: nat): (s: seq<seq<Page>>)
    ensures |s| == n && forall k | 0 <= k < n :: s[k] == []
  {
    seq(n, _ => [])
  }

  /** Once every page of the heads has gone to its partition, the partitions
      together hold exactly those pages, and partition `k` only pages whose
      colour the map gives to `k`. */
  lemma PartsHold(cmap: seq<int>, color: Page -> nat, n: nat, ps: seq<Page>, parts: seq<seq<Page>>)
    requires Mapped(cmap, n) && Ranged(color, |cmap|)
    requires Pushed(Empties(n), parts, ps, PartOf(cmap, color))
    ensures Pooled(parts, n) == multiset(ps)
    ensures forall k, x | 0 <= k < n && 0 <= x < |parts[k]| :: cmap[color(parts[k][x])] == k
  {
    var key := PartOf(cmap, color);
    forall p: Page
      ensures key(p) < n
    {
    }
    PushedPooled(Empties(n), parts, ps, key, n);
    PooledEmpty(Empties(n), n);
    forall k, x | 0 <= k < n && 0 <= x < |parts[k]|
      ensures cmap[color(parts[k][x])] == k
    {
      HavingMembers(ps, key, k);
      assert parts[k] == Having(ps, key, k);
      assert parts[k][x] in Having(ps, key, k);
    }
  }

  /** The tables of partitions 0 .. n - 1 that cleanup frees when the
      vmalloc of table `vfail` failed (`vfail` >= n: none failed): each
      table allocated, once. */
  function TablesFreed(n: nat, vfail: nat): (t: seq<nat>)
    ensures forall x: nat :: multiset(t)[x] == if x < n && x < vfail then 1 else 0
  {
    var m := if vfail < n then vfail else n;
    Ascending(m)
  }

  function Ascending(m: nat): (t: seq<nat>)
    ensures forall x: nat :: multiset(t)[x] == if x < m then 1 else 0
  {
    if m == 0 then []
    else
      var t, e: nat := Ascending(m - 1), m - 1;
      assert multiset(t + [e]) == multiset(t) + multiset{e};
      t + [e]
  }

  /** The tables freed as init is written: the failing vmalloc's rollback
      loop frees tables vfail - 1 down to 0, and cleanup then frees every
      table pointer that is not NULL, those same tables again. (Entries past
      `vfail` are uninitialised, and not modelled.) */
  function TablesFreedAsWritten(n: nat, vfail: nat): seq<nat>
  {
    if vfail < n then Descending(vfail) + Ascending(vfail) else Ascending(n)
  }

  function Descending(m: nat): (t: seq<nat>)
    ensures forall x: nat :: multiset(t)[x] == if x < m then 1 else 0
  {
    if m == 0 then []
    else
      var t, e: nat := Descending(m - 1), m - 1;
      assert multiset([e] + t) == multiset{e} + multiset(t);
      [e] + t
  }

  /** As written, a vmalloc failure after the first table frees every
      earlier table twice. */
  lemma TablesFreedTwice(n: nat, vfail: nat)
    requires 1 <= vfail < n
    ensures forall x | 0 <= x < vfail :: multiset(TablesFreedAsWritten(n, vfail))[x] == 2
    ensures forall x | 0 <= x < vfail :: multiset(TablesFreed(n, vfail))[x] == 1
  {
  }

  /** The mmap handler of the partition devices (ccontrol_mmap) as written:
      the page count of the mapping is stored in an `unsigned int`. */
  function MmapNarrow(nbpages: nat, pgoff: nat, start: nat, end: nat, shared: bool): (err: int)
    requires start <= end
    ensures err == 0 <==> pgoff == 0 && ((end - start) / PAGE_SIZE) % UINT_MOD <= nbpages && shared
  {
    if pgoff != 0 then EPERM
    else if ((end - start) / PAGE_SIZE) % UINT_MOD > nbpages then ENOMEM
    else if !shared then EPERM
    else 0
  }

  /** A mapping of 2^32 + 1 pages over a one-page device is accepted, and a
      fault 2^32 pages in is served with the device's page 0; the size check
      with the count in `unsigned long` (Mmap) refuses it. */
  lemma NarrowMmapAliases()
    ensures var end := (UINT_MOD + 1) * PAGE_SIZE;
      MmapNarrow(1, 0, 0, end, true) == 0 && Mmap(1, 0, 0, end, true) == ENOMEM
      && FaultAt(1, UINT_MOD, true) == Served(0)
  {
    var end := (UINT_MOD + 1) * PAGE_SIZE;
    DivModUnique(end, PAGE_SIZE, UINT_MOD + 1, 0);
    DivModUnique(UINT_MOD + 1, UINT_MOD, 1, 1);
    DivModUnique(UINT_MOD, UINT_MOD, 1, 0);
  }

  /** How ccontrol_vma_fault ends: as a fault handler does (a page or
      VM_FAULT_ERROR), or in a kernel oops. */
  datatype OldFault = Handled(f: Fault) | Oops

  /** ccontrol_vma_fault as written: the offset check and vm_insert_page
      are those of FaultAt, but the debug printk at the `out:` label reads
      page_count(page) and page->_count, and on the out-of-range path `page`
      is still NULL. */
  function FaultOld(nbpages: nat, pgoff: nat, insertOk: bool): OldFault
  {
    var offset := pgoff % UINT_MOD;
    if offset >= nbpages then Oops else Handled(FaultAt(nbpages, pgoff, insertOk))
  }

  /** The old handler dereferences NULL on exactly the faults the newer
      handler (FaultAt) refuses for their offset, and answers every other
      fault as the newer one does. A fault one page past a one-page device,
      which the VM_CAN_NONLINEAR mapping admits, is one of them. */
  lemma OutOfRangeFaultOops(nbpages: nat, pgoff: nat, insertOk: bool)
    ensures FaultOld(nbpages, pgoff, insertOk).Oops? <==> FaultAt(nbpages, pgoff, true) == FaultError
    ensures FaultOld(nbpages, pgoff, insertOk).Handled? ==>
              FaultOld(nbpages, pgoff, insertOk).f == FaultAt(nbpages, pgoff, insertOk)
    ensures FaultOld(1, 1, true) == Oops && FaultAt(1, 1, true) == FaultError
  {
  }

  /** The module's global state: the colour map, the pages of each
      partition (pages[k][0 .. sizes[k] - 1]), the reserved heads and the
      devices, one per partition. */
  class Partitions {
    const ncolors: nat
    const l2: nat
    const color: Page -> nat
    const subdivs: seq<nat>
    const width: nat
    const colormap: array<int>
    var parts: seq<seq<Page>>
    var heads: seq<Page>
    var devices: seq<seq<Page>>

    /** The module before init: the parameters set, the static colour map
        zeroed, nothing allocated; heads of 2^order pages with order =
        get_order(MAX_SUBDIVISIONS * PAGE_SIZE). */
    constructor(ncolors: nat, l2: nat, color: Page -> nat, subdivs: seq<nat>)
      requires ncolors >= 1 && Ranged(color, ncolors) && |subdivs| <= ncolors
      requires forall i | 0 <= i < |subdivs| :: subdivs[i] < UINT_MOD
      ensures this.ncolors == ncolors && this.l2 == l2 && this.color == color && this.subdivs == subdivs
      ensures width == HeadPages(ncolors) && colormap.Length == ncolors && colormap[..] == seq(ncolors, _ => 0)
      ensures parts == [] && heads == [] && devices == []
    {
      this.ncolors := ncolors;
      this.l2 := l2;
      this.color := color;
      this.subdivs := subdivs;
      width := HeadPages(ncolors);
      colormap := new int[ncolors](_ => 0);
      parts := [];
      heads := [];
      devices := [];
    }

    /** init_colormap: the colour ranked `x` in ColorOrder goes to the
        subdivision Owner(subdivs, x), so every colour gets a subdivision
        and subdivision `i` gets subdivs[i] colours. */
    method InitColormap()
      requires colormap.Length == ncolors && Prefix(subdivs, |subdivs|) == ncolors
      modifies colormap
      ensures Assigned(colormap[..], ColorOrder(ncolors, l2), subdivs)
      ensures Mapped(colormap[..], |subdivs|)
    {
      ColorOrderPermutation(ncolors, l2);
      if l2 == 0 {
        AssignColors(seq(ncolors, c => c));
      } else {
        var colors := GroupColors(ncolors, l2);
        AssignColors(colors[..]);
      }
      var o := ColorOrder(ncolors, l2);
      forall c | 0 <= c < ncolors
        ensures 0 <= colormap[c] < |subdivs|
      {
        assert c in o;
        var x :| 0 <= x < |o| && o[x] == c;
        assert colormap[o[x]] == Owner(subdivs, x);
      }
    }

    /** The nested loop of init_colormap: colour order[index] goes to
        subdivision i, for subdivs[i] consecutive indexes. */
    method AssignColors(order: seq<nat>)
      requires Permutation(order, colormap.Length) && Prefix(subdivs, |subdivs|) == colormap.Length
      modifies colormap
      ensures forall x | 0 <= x < |order| :: colormap[order[x]] == Owner(subdivs, x)
    {
      var index := 0;
      var i := 0;
      while i < |subdivs|
        invariant 0 <= i <= |subdivs| && index == Prefix(subdivs, i)
        invariant forall x | 0 <= x < index :: x < Prefix(subdivs, |subdivs|) && colormap[order[x]] == Owner(subdivs, x)
      {
        var j := 0;
        PrefixMono(subdivs, i + 1, |subdivs|);
        while j < subdivs[i]
          invariant 0 <= j <= subdivs[i] && index == Prefix(subdivs, i) + j
          invariant forall x | 0 <= x < index :: x < Prefix(subdivs, |subdivs|) && colormap[order[x]] == Owner(subdivs, x)
        {
          OwnerUnique(subdivs, i, index);
          colormap[order[index]] := i;
          index := index + 1;
          j := j + 1;
        }
        i := i + 1;
      }
    }

    /** The inner loop of init's distribution: each page of the head `h`
        is appended to the partition colormap[PFN_TO_COLOR(pfn)]. */
    method Scatter(h: Page)
      requires colormap.Length == ncolors && Ranged(color, ncolors)
      requires |parts| == |subdivs| && Mapped(colormap[..], |subdivs|)
      modifies this
      ensures Pushed(old(parts), parts, Run(h, width), PartOf(colormap[..], color))
      ensures heads == old(heads) && devices == old(devices)
    {
      ghost var s0 := parts;
      ghost var key := PartOf(colormap[..], color);
      var j := 0;
      while j < width
        invariant 0 <= j <= width && Pushed(s0, parts, Run(h, width)[..j], key)
        invariant heads == old(heads) && devices == old(devices)
      {
        var p := h + j;
        var k := colormap[color(p)];
        assert key(p) == k;
        ghost var before := parts;
        parts := parts[k := parts[k] + [p]];
        PushedOne(before, p, key);
        PushedTwice(s0, before, parts, Run(h, width)[..j], [p], key);
        assert Run(h, width)[..j + 1] == Run(h, width)[..j] + [p];
        j := j + 1;
      }
      assert Run(h, width)[..width] == Run(h, width);
    }

    /** The outer loop of init's distribution: allocate `blocks` heads,
        `got` being what alloc_pages returns before it first fails, and
        distribute each. Returns how many heads were allocated. */
    method Reserve(blocks: nat, got: seq<Page>) returns (n: nat)
      requires colormap.Length == ncolors && Ranged(color, ncolors)
      requires Mapped(colormap[..], |subdivs|) && heads == [] && parts == Empties(|subdivs|)
      modifies this
      ensures n == if |got| < blocks then |got| else blocks
      ensures heads == got[..n] && devices == old(devices)
      ensures Pushed(Empties(|subdivs|), parts, Spread(heads, width), PartOf(colormap[..], color))
    {
      ghost var key := PartOf(colormap[..], color);
      n := 0;
      while n < blocks && n < |got|
        invariant n <= blocks && n <= |got| && heads == got[..n] && devices == old(devices)
        invariant Pushed(Empties(|subdivs|), parts, Spread(heads, width), key)
      {
        var h := got[n];
        ghost var before := parts;
        Scatter(h);
        PushedTwice(Empties(|subdivs|), before, parts, Spread(heads, width), Run(h, width), key);
        SpreadPush(heads, h, width);
        heads := heads + [h];
        assert got[..n + 1] == got[..n] + [h];
        n := n + 1;
      }
    }

    /** The module's init. The kernel's answers are parameters: `regionErr`
        from alloc_chrdev_region, `tablesOk` for the kmalloc of the sizes
        and pages tables, `vfail` the first partition whose page table
        vmalloc fails (none when >= the number of partitions), `headsOk`
        for the kmalloc of the heads table, `got` the heads alloc_pages
        returns before it fails, `devicesOk` for the kmalloc of the devices.
        On an error cleanup frees `freedHeads` and the partition tables
        `freedTables`. */
    method Init(mem: nat, regionErr: int, tablesOk: bool, vfail: nat, headsOk: bool, got: seq<Page>, devicesOk: bool)
      returns (err: int, freedHeads: seq<Page>, freedTables: seq<nat>)
      requires mem <= ULONG_MAX && regionErr <= 0
      requires colormap.Length == ncolors && width == HeadPages(ncolors) && Ranged(color, ncolors)
      requires parts == [] && heads == [] && devices == []
      modifies this, colormap
      ensures var blocks := BlockCount(mem, width);
        err == 0 <==> (Prefix(subdivs, |subdivs|) == ncolors && regionErr == 0 && tablesOk
          && vfail >= |subdivs| && headsOk && |got| >= blocks && devicesOk)
      ensures Prefix(subdivs, |subdivs|) != ncolors ==> err == EPERM && freedHeads == [] && freedTables == []
      ensures Prefix(subdivs, |subdivs|) == ncolors && regionErr != 0 ==> err == regionErr && freedHeads == [] && freedTables == []
      ensures Prefix(subdivs, |subdivs|) == ncolors && regionErr == 0 && err != 0 ==>
        err == ENOMEM && freedHeads == heads && freedTables == TablesFreed(|subdivs|, if tablesOk then vfail else 0)
      ensures var blocks := BlockCount(mem, width);
        err == ENOMEM && regionErr == 0 && tablesOk && vfail >= |subdivs| && headsOk ==> heads == got[..if |got| < blocks then |got| else blocks]
      ensures err == 0 ==> (heads == got[..BlockCount(mem, width)] && devices == parts
        && Pushed(Empties(|subdivs|), parts, Spread(heads, width), PartOf(colormap[..], color))
        && Mapped(colormap[..], |subdivs|) && Assigned(colormap[..], ColorOrder(ncolors, l2), subdivs))
    {
      freedHeads, freedTables := [], [];
      var sum := SubdivSum(subdivs);
      if sum != ncolors {
        return EPERM, freedHeads, freedTables;
      }
      var blocks := BlockCount(mem, width);
      if regionErr != 0 {
        return regionErr, freedHeads, freedTables;
      }
      if !tablesOk {
        return ENOMEM, freedHeads, freedTables;
      }
      parts := Empties(|subdivs|);
      if vfail < |subdivs| {
        return ENOMEM, freedHeads, TablesFreed(|subdivs|, vfail);
      }
      freedTables := TablesFreed(|subdivs|, vfail);
      if !headsOk {
        return ENOMEM, freedHeads, freedTables;
      }
      InitColormap();
      var n := Reserve(blocks, got);
      if n < blocks {
        return ENOMEM, heads, freedTables;
      }
      if !devicesOk {
        return ENOMEM, heads, freedTables;
      }
      devices := parts;
      err, freedTables := 0, [];
    }
  }
}
