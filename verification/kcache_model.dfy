/** The free lists of the kcache malloc replacement (ccontrol/malloc/malloc.c)
    as values. Each device is one mapped region. Its free regions form a
    singly linked list, and each record holds a size followed by a next
    link. The list is kept in LIFO order: freed regions go to the front.
    Allocation takes the first region that fits, with exact-fit extraction
    or a split at the high end. Freeing merges the block with a region
    that ends where it starts, then with one found at its end. The build
    is LP64: a `struct free_region` is 16 bytes and a header 8. */
module KcacheModel {
  import opened CStdlib

  const PAGE_SIZE: nat := 4096

  /** DEVICES: the number of kcache devices. */
  const DEVICES: nat := 4

  /** The size configured for every device: 32 pages. */
  const DEVICE_SIZE: nat := 32 * PAGE_SIZE

  /** MIN_SIZE: sizeof(struct free_region). */
  const MIN_SIZE: nat := 16

  /** HEADER_SIZE: sizeof(unsigned long). */
  const HEADER_SIZE: nat := 8

  datatype Option<T> = None | Some(value: T)

  // ---------------------------------------------------------------------
  // Sizes
  // ---------------------------------------------------------------------

  /** normalize: rounds up to a multiple of MIN_SIZE in `unsigned long`
      arithmetic, so a size in the last 15 values wraps to 0. */
  function Normalize(n: nat): (r: nat)
    requires n <= ULONG_MAX
    ensures r <= ULONG_MAX && r % MIN_SIZE == 0
    ensures n + (MIN_SIZE - 1) <= ULONG_MAX ==> n <= r < n + MIN_SIZE
    ensures n + (MIN_SIZE - 1) > ULONG_MAX && n % MIN_SIZE != 0 ==> r == 0
  {
    if n % MIN_SIZE != 0 then
      assert n + (MIN_SIZE - n % MIN_SIZE) == MIN_SIZE * (n / MIN_SIZE + 1);
      (n + (MIN_SIZE - n % MIN_SIZE)) % ULONG_MOD
    else n
  }

  /** normalize is idempotent. */
  lemma NormalizeIdempotent(n: nat)
    requires n <= ULONG_MAX
    ensures Normalize(Normalize(n)) == Normalize(n)
  {
  }

  /** The size allocate looks for: the normalized size plus a header, in
      `unsigned long` arithmetic. */
  function Request(n: nat): (r: nat)
    requires n <= ULONG_MAX
    ensures 0 < r <= ULONG_MAX && r % MIN_SIZE == HEADER_SIZE
  {
    var q := Normalize(n) / MIN_SIZE;
    assert Normalize(n) == MIN_SIZE * q && q < 0x1000_0000_0000_0000;
    (Normalize(n) + HEADER_SIZE) % ULONG_MOD
  }

  // ---------------------------------------------------------------------
  // Lists of free regions
  // ---------------------------------------------------------------------

  /** A free region record, or the extent of a block handed out. */
  datatype Region = Region(addr: nat, size: nat)
  {
    function End(): nat { addr + size }
  }

  /** Two regions share no byte. */
  predicate Apart(x: Region, y: Region)
  {
    x.End() <= y.addr || y.End() <= x.addr
  }

  /** Byte `a` lies in region `x`. */
  predicate Holds(x: Region, a: nat)
  {
    x.addr <= a < x.End()
  }

  /** The regions of `l` share no byte. */
  ghost predicate Separate(l: seq<Region>)
  {
    forall i, j | 0 <= i < j < |l| :: Apart(l[i], l[j])
  }

  /** Byte `a` is free: some region of `l` holds it. */
  ghost predicate FreeByte(l: seq<Region>, a: nat)
  {
    exists i | 0 <= i < |l| :: Holds(l[i], a)
  }

  /** find_fit's choice: the first region in list order that is large
      enough, or |l| when none is. */
  function FirstFit(l: seq<Region>, want: nat): (k: nat)
    ensures k <= |l|
    ensures k < |l| ==> l[k].size >= want
    ensures forall j | 0 <= j < k :: l[j].size < want
  {
    if l == [] then 0 else if l[0].size >= want then 0 else 1 + FirstFit(l[1..], want)
  }

  /** find_previous's choice: the first region ending at `f`, or |l|. */
  function FindPrevious(l: seq<Region>, f: nat): (k: nat)
    ensures k <= |l|
    ensures k < |l| ==> l[k].End() == f
    ensures forall j | 0 <= j < k :: l[j].End() != f
  {
    if l == [] then 0 else if l[0].End() == f then 0 else 1 + FindPrevious(l[1..], f)
  }

  /** find_next's choice: the first region starting at `t`, or |l|. */
  function FindNext(l: seq<Region>, t: nat): (k: nat)
    ensures k <= |l|
    ensures k < |l| ==> l[k].addr == t
    ensures forall j | 0 <= j < k :: l[j].addr != t
  {
    if l == [] then 0 else if l[0].addr == t then 0 else 1 + FindNext(l[1..], t)
  }

  /** extract: the list without its element at `k`, the rest in order. */
  function Remove(l: seq<Region>, k: nat): (r: seq<Region>)
    requires k < |l|
    ensures |r| == |l| - 1
    ensures forall i | 0 <= i < |r| :: r[i] == l[if i < k then i else i + 1]
  {
    l[..k] + l[k + 1..]
  }

  // ---------------------------------------------------------------------
  // Devices
  // ---------------------------------------------------------------------

  /** One entry of `config`: the device's size, its descriptor, its free
      list (from `p`, following the links) and the header of every block
      handed out and not yet freed, keyed by the block's address. */
  datatype Dev = Dev(size: nat, fd: int, list: seq<Region>, hdr: map<nat, nat>)

  /** `config[dev].p`: the list's first record, or NULL (0). */
  function Head(d: Dev): nat
  {
    if d.list == [] then 0 else d.list[0].addr
  }

  /** What allocate gives back: a pointer, NULL, or a crash because the
      device's list was empty and find_fit read through NULL. */
  datatype Alloc = Fault | Null | Block(ptr: nat)

  datatype Granted = Granted(dev: Dev, res: Alloc)

  /** allocate. A request above the device's whole size is refused before
      the list is looked at; find_fit then reads the first record whatever
      the list holds. A region of exactly the requested size is extracted
      whole; a larger one gives up its high end, whose first word becomes
      the block's header. */
  /** extract: region `k` leaves the list whole and becomes a block. */
  function Whole(d: Dev, k: nat): (g: Granted)
    requires k < |d.list|
    ensures g.res == Block(d.list[k].addr + HEADER_SIZE)
    ensures g.dev.hdr == d.hdr[d.list[k].addr := d.list[k].size]
    ensures g.dev.size == d.size && g.dev.fd == d.fd
  {
    var x := d.list[k];
    Granted(d.(list := Remove(d.list, k), hdr := d.hdr[x.addr := x.size]), Block(x.addr + HEADER_SIZE))
  }

  /** The split of region `k`: its low part stays in the list and its high
      `r` bytes become a block. */
  function Split(d: Dev, k: nat, r: nat): (g: Granted)
    requires k < |d.list| && r < d.list[k].size
    ensures g.res == Block(d.list[k].addr + (d.list[k].size - r) + HEADER_SIZE)
    ensures g.dev.hdr == d.hdr[d.list[k].addr + (d.list[k].size - r) := r]
    ensures g.dev.size == d.size && g.dev.fd == d.fd
  {
    var x := d.list[k];
    var rest := x.size - r;
    Granted(d.(list := d.list[k := Region(x.addr, rest)], hdr := d.hdr[x.addr + rest := r]),
            Block(x.addr + rest + HEADER_SIZE))
  }

  function Allocated(d: Dev, n: nat): (g: Granted)
    requires n <= ULONG_MAX
    ensures g.res.Fault? <==> Request(n) <= d.size && d.list == []
    ensures g.res.Null? <==> Request(n) > d.size || (d.list != [] && FirstFit(d.list, Request(n)) == |d.list|)
    ensures !g.res.Block? ==> g.dev == d
    ensures g.res.Block? ==>
              && g.res.ptr >= HEADER_SIZE && g.res.ptr - HEADER_SIZE in g.dev.hdr
              && g.dev.hdr[g.res.ptr - HEADER_SIZE] == Request(n)
  {
    var r := Request(n);
    if r > d.size then Granted(d, Null)
    else if d.list == [] then Granted(d, Fault)
    else
      var k := FirstFit(d.list, r);
      if k == |d.list| then Granted(d, Null)
      else
        if d.list[k].size == r then Whole(d, k) else Split(d, k, r)
  }

  /** A pointer handed out by the device and not yet freed. */
  predicate Live(d: Dev, ptr: nat)
  {
    ptr >= HEADER_SIZE && ptr - HEADER_SIZE in d.hdr
  }

  /** A list with one region taken out, and the region the freed block
      has grown into. */
  datatype Merge = Merge(rest: seq<Region>, it: Region)

  /** find_previous and the merge into the region it finds: a region that
      ends where `fr` starts leaves the list and takes `fr` in. */
  function MergePrev(l: seq<Region>, fr: Region): (m: Merge)
    ensures m.it.size >= fr.size && m.it.addr <= fr.addr
  {
    var k := FindPrevious(l, fr.addr);
    if k < |l| then Merge(Remove(l, k), Region(l[k].addr, l[k].size + fr.size)) else Merge(l, fr)
  }

  /** find_next at address `at` and the merge with the region it finds
      there. */
  function MergeNext(l: seq<Region>, it: Region, at: nat): (m: Merge)
    ensures m.it.size >= it.size && m.it.addr == it.addr
  {
    var k := FindNext(l, at);
    if k < |l| then Merge(Remove(l, k), Region(it.addr, it.size + l[k].size)) else Merge(l, it)
  }

  /** Where destroy looks for the successor of the region `it`: as
      written, `it+it->size` on a `struct free_region *` steps over
      `it->size` records, not bytes (`scaled`); otherwise the region's end. */
  function Successor(it: Region, scaled: bool): (a: nat)
    ensures !scaled ==> a == it.End()
    ensures scaled ==> a == it.addr + MIN_SIZE * it.size
  {
    if scaled then it.addr + MIN_SIZE * it.size else it.End()
  }

  /** destroy. The block first merges into a region that ends where it
      starts; then a region found at its successor address is merged in;
      the result goes to the front of the list. */
  function DestroyedWith(d: Dev, ptr: nat, scaled: bool): (d': Dev)
    requires Live(d, ptr)
    ensures d'.size == d.size && d'.fd == d.fd && d'.hdr == d.hdr - {ptr - HEADER_SIZE}
    ensures |d'.list| > 0 && d'.list[0].addr <= ptr - HEADER_SIZE
  {
    var f := ptr - HEADER_SIZE;
    var p := MergePrev(d.list, Region(f, d.hdr[f]));
    var q := MergeNext(p.rest, p.it, Successor(p.it, scaled));
    d.(list := [q.it] + q.rest, hdr := d.hdr - {f})
  }

  /** destroy as written. */
  function Destroyed(d: Dev, ptr: nat): Dev
    requires Live(d, ptr)
  {
    DestroyedWith(d, ptr, true)
  }

  /** destroy with the successor looked for at the block's end in bytes. */
  function DestroyedFixed(d: Dev, ptr: nat): Dev
    requires Live(d, ptr)
  {
    DestroyedWith(d, ptr, false)
  }

  /** The device once init has mapped it at `base`: one free region
      covering the whole device. */
  function Mapped(d: Dev, fd: int, base: nat): (d': Dev)
    ensures d'.size == d.size && d'.fd == fd && d'.hdr == d.hdr
    ensures Head(d') == base && d'.list == [Region(base, d.size)]
  {
    d.(fd := fd, list := [Region(base, d.size)])
  }

  // ---------------------------------------------------------------------
  // Invariants
  // ---------------------------------------------------------------------

  /** Free regions and live blocks are nonempty and share no byte. */
  ghost predicate Disjoint(d: Dev)
  {
    && (forall i | 0 <= i < |d.list| :: d.list[i].size > 0)
    && (forall a | a in d.hdr :: d.hdr[a] > 0)
    && Separate(d.list)
    && (forall i, a | 0 <= i < |d.list| && a in d.hdr :: Apart(d.list[i], Region(a, d.hdr[a])))
    && (forall a, b | a in d.hdr && b in d.hdr && a != b :: Apart(Region(a, d.hdr[a]), Region(b, d.hdr[b])))
  }

  /** No free region ends where another begins. */
  ghost predicate Coalesced(d: Dev)
  {
    forall i, j | 0 <= i < |d.list| && 0 <= j < |d.list| :: d.list[i].End() != d.list[j].addr
  }

  /** Every region of `l` can hold a `struct free_region`. */
  ghost predicate RoomyList(l: seq<Region>)
  {
    forall i | 0 <= i < |l| :: l[i].size >= MIN_SIZE
  }

  /** Every free region and every block can hold a `struct free_region`,
      so a region's link never reaches into the next region. */
  ghost predicate Roomy(d: Dev)
  {
    && RoomyList(d.list)
    && (forall a | a in d.hdr :: d.hdr[a] >= MIN_SIZE)
  }

  ghost predicate Sound(d: Dev)
  {
    Disjoint(d) && Coalesced(d) && Roomy(d)
  }

  // ---------------------------------------------------------------------
  // The corrected allocator
  // ---------------------------------------------------------------------

  /** The size allocate should look for: none for 0 bytes or when the
      rounding or the header would pass ULONG_MAX. */
  function RequestChecked(n: nat): (r: Option<nat>)
    ensures r.None? <==> n == 0 || n + (MIN_SIZE - 1) + HEADER_SIZE > ULONG_MAX
    ensures r.Some? ==> n + HEADER_SIZE <= r.value <= ULONG_MAX && r.value % MIN_SIZE == HEADER_SIZE
    ensures r.Some? ==> r.value == Request(n)
  {
    if n == 0 || n + (MIN_SIZE - 1) + HEADER_SIZE > ULONG_MAX then None
    else
      assert Normalize(n) + HEADER_SIZE < ULONG_MOD;
      Some(Normalize(n) + HEADER_SIZE)
  }

  /** allocate with a checked request, no read of an empty list, and a
      region handed out whole when splitting it would leave less than a
      `struct free_region`. */
  function AllocatedFixed(d: Dev, n: nat): (g: Granted)
    ensures !g.res.Fault?
    ensures g.dev.size == d.size && g.dev.fd == d.fd
    ensures !g.res.Block? ==> g.dev == d
    ensures forall a | a in d.hdr :: a in g.dev.hdr
  {
    match RequestChecked(n)
    case None => Granted(d, Null)
    case Some(r) =>
      if r > d.size || d.list == [] then Granted(d, Null)
      else
        var k := FirstFit(d.list, r);
        if k == |d.list| then Granted(d, Null)
        else
          if d.list[k].size - r < MIN_SIZE then Whole(d, k) else Split(d, k, r)
  }

  // ---------------------------------------------------------------------
  // Steps of the proofs
  // ---------------------------------------------------------------------

  /** `x` is nonempty and shares no byte with the device's free regions
      and live blocks. */
  ghost predicate Outside(x: Region, d: Dev)
  {
    && x.size > 0
    && (forall i | 0 <= i < |d.list| :: Apart(x, d.list[i]))
    && (forall a | a in d.hdr :: Apart(x, Region(a, d.hdr[a])))
  }

  /** No region of `l` ends where `x` begins or begins where `x` ends. */
  ghost predicate Unjoined(x: Region, l: seq<Region>)
  {
    forall i | 0 <= i < |l| :: l[i].End() != x.addr && x.End() != l[i].addr
  }

  /** An address inside a free region is no block's address. */
  lemma {:induction false} InsideFree(d: Dev, k: nat, a: nat)
    requires Disjoint(d) && k < |d.list|
    requires d.list[k].addr <= a < d.list[k].End()
    ensures a !in d.hdr
  {
    assert a in d.hdr ==> Apart(d.list[k], Region(a, d.hdr[a]));
  }

  /** Taking a region out of the list leaves a sound list and a region
      outside what is left. */
  lemma {:induction false} RemoveFrom(d: Dev, k: nat)
    requires Disjoint(d) && Coalesced(d) && k < |d.list|
    ensures var d1 := d.(list := Remove(d.list, k));
            Disjoint(d1) && Coalesced(d1) && Outside(d.list[k], d1)
  {
    var l := Remove(d.list, k);
    var x := d.list[k];
    forall i, j | 0 <= i < j < |l| ensures Apart(l[i], l[j]) {
      assert l[i] == d.list[if i < k then i else i + 1];
      assert l[j] == d.list[if j < k then j else j + 1];
    }
    forall i | 0 <= i < |l| ensures Apart(x, l[i]) {
      var i' := if i < k then i else i + 1;
      assert l[i] == d.list[i'];
      if i' < k {
        assert Apart(d.list[i'], d.list[k]);
      } else {
        assert Apart(d.list[k], d.list[i']);
      }
    }
    forall i, a | 0 <= i < |l| && a in d.hdr ensures Apart(l[i], Region(a, d.hdr[a])) {
      assert l[i] == d.list[if i < k then i else i + 1];
    }
    forall i, j | 0 <= i < |l| && 0 <= j < |l| ensures l[i].End() != l[j].addr {
      assert l[i] == d.list[if i < k then i else i + 1];
      assert l[j] == d.list[if j < k then j else j + 1];
    }
  }

  /** Handing out a whole region: it leaves the list and becomes a block. */
  lemma {:induction false} ExtractKeeps(d: Dev, k: nat)
    requires Disjoint(d) && Coalesced(d) && k < |d.list|
    ensures Disjoint(Whole(d, k).dev) && Coalesced(Whole(d, k).dev)
  {
    var x := d.list[k];
    var d1 := d.(list := Remove(d.list, k));
    var hdr := d.hdr[x.addr := x.size];
    RemoveFrom(d, k);
    InsideFree(d, k, x.addr);
    forall i, a | 0 <= i < |d1.list| && a in hdr ensures Apart(d1.list[i], Region(a, hdr[a])) {
      if a == x.addr {
        assert Apart(x, d1.list[i]);
      }
    }
    forall a, b | a in hdr && b in hdr && a != b ensures Apart(Region(a, hdr[a]), Region(b, hdr[b])) {
      if a == x.addr {
        assert Apart(x, Region(b, d.hdr[b]));
      } else if b == x.addr {
        assert Apart(x, Region(a, d.hdr[a]));
      }
    }
  }

  /** Splitting a region: its low part stays in the list and its high
      `r` bytes become a block. */
  lemma {:induction false} SplitKeeps(d: Dev, k: nat, r: nat)
    requires Disjoint(d) && Coalesced(d) && k < |d.list| && 0 < r < d.list[k].size
    ensures Disjoint(Split(d, k, r).dev) && Coalesced(Split(d, k, r).dev)
  {
    var x := d.list[k];
    var rest := x.size - r;
    var d' := Split(d, k, r).dev;
    assert d'.list == d.list[k := Region(x.addr, rest)];
    SplitApart(d, k, r);
    SplitBlocks(d, k, r);
    SplitCoalesced(d, k, rest);
  }

  /** The low part of a split region stays apart from the other regions
      and from the live blocks. */
  lemma {:induction false} SplitApart(d: Dev, k: nat, r: nat)
    requires Disjoint(d) && k < |d.list| && 0 < r < d.list[k].size
    ensures var x := d.list[k];
            var l := d.list[k := Region(x.addr, x.size - r)];
            var hdr := d.hdr[x.addr + (x.size - r) := r];
            && (forall i, j | 0 <= i < j < |l| :: Apart(l[i], l[j]))
            && (forall i, a | 0 <= i < |l| && a in hdr :: Apart(l[i], Region(a, hdr[a])))
  {
    var x := d.list[k];
    var rest := x.size - r;
    var hi := Region(x.addr + rest, r);
    var l := d.list[k := Region(x.addr, rest)];
    var hdr := d.hdr[hi.addr := r];
    forall i, j | 0 <= i < j < |l| ensures Apart(l[i], l[j]) {
      assert Apart(d.list[i], d.list[j]);
    }
    forall i, a | 0 <= i < |l| && a in hdr ensures Apart(l[i], Region(a, hdr[a])) {
      if a == hi.addr && i != k {
        if i < k {
          assert Apart(d.list[i], x);
        } else {
          assert Apart(x, d.list[i]);
        }
      } else if a != hi.addr {
        assert Apart(d.list[i], Region(a, d.hdr[a]));
      }
    }
  }

  /** The high part of a split region is a block apart from the others. */
  lemma {:induction false} SplitBlocks(d: Dev, k: nat, r: nat)
    requires Disjoint(d) && k < |d.list| && 0 < r < d.list[k].size
    ensures var x := d.list[k];
            var hdr := d.hdr[x.addr + (x.size - r) := r];
            && (forall a | a in hdr :: hdr[a] > 0)
            && (forall a, b | a in hdr && b in hdr && a != b :: Apart(Region(a, hdr[a]), Region(b, hdr[b])))
  {
    var x := d.list[k];
    var hi := x.addr + (x.size - r);
    var hdr := d.hdr[hi := r];
    InsideFree(d, k, hi);
    forall a, b | a in hdr && b in hdr && a != b ensures Apart(Region(a, hdr[a]), Region(b, hdr[b])) {
      if a == hi {
        assert Apart(x, Region(b, d.hdr[b]));
      } else if b == hi {
        assert Apart(x, Region(a, d.hdr[a]));
      }
    }
  }

  /** Shrinking a region from its high end leaves no two regions touching. */
  lemma {:induction false} SplitCoalesced(d: Dev, k: nat, rest: nat)
    requires Disjoint(d) && Coalesced(d) && k < |d.list| && 0 < rest < d.list[k].size
    ensures var l := d.list[k := Region(d.list[k].addr, rest)];
            forall i, j | 0 <= i < |l| && 0 <= j < |l| :: l[i].End() != l[j].addr
  {
    var x := d.list[k];
    var l := d.list[k := Region(x.addr, rest)];
    forall i, j | 0 <= i < |l| && 0 <= j < |l| ensures l[i].End() != l[j].addr {
      if i == k && j != k {
        if j < k {
          assert Apart(d.list[j], x);
        } else {
          assert Apart(x, d.list[j]);
        }
      } else if j == k && i != k {
        assert d.list[i].End() != x.addr;
      }
    }
  }

  /** The block at `f` leaves the live blocks and lies outside the rest. */
  lemma {:induction false} FreeStart(d: Dev, f: nat)
    requires Disjoint(d) && Coalesced(d) && f in d.hdr
    ensures var d0 := d.(hdr := d.hdr - {f});
            Disjoint(d0) && Coalesced(d0) && Outside(Region(f, d.hdr[f]), d0)
  {
    var x := Region(f, d.hdr[f]);
    forall i | 0 <= i < |d.list| ensures Apart(x, d.list[i]) {
      assert Apart(d.list[i], x);
    }
  }

  /** Two adjacent regions outside the device join into one outside it. */
  lemma {:induction false} Join(x: Region, y: Region, d: Dev)
    requires Disjoint(d) && Outside(x, d) && Outside(y, d) && x.End() == y.addr
    ensures Outside(Region(x.addr, x.size + y.size), d)
  {
    var z := Region(x.addr, x.size + y.size);
    forall i | 0 <= i < |d.list| ensures Apart(z, d.list[i]) {
      assert Apart(x, d.list[i]) && Apart(y, d.list[i]) && d.list[i].size > 0;
    }
    forall a | a in d.hdr ensures Apart(z, Region(a, d.hdr[a])) {
      assert Apart(x, Region(a, d.hdr[a])) && Apart(y, Region(a, d.hdr[a])) && d.hdr[a] > 0;
    }
  }

  /** insert: a region outside the device and joined to none of its
      regions goes to the front of a sound list. */
  lemma {:induction false} Push(x: Region, d: Dev)
    requires Disjoint(d) && Coalesced(d) && Outside(x, d) && Unjoined(x, d.list)
    ensures var d' := d.(list := [x] + d.list);
            Disjoint(d') && Coalesced(d')
  {
    var l := [x] + d.list;
    forall i, j | 0 <= i < j < |l| ensures Apart(l[i], l[j]) {
      if i == 0 {
        assert Apart(x, d.list[j - 1]);
      } else {
        assert Apart(d.list[i - 1], d.list[j - 1]);
      }
    }
    forall i, a | 0 <= i < |l| && a in d.hdr ensures Apart(l[i], Region(a, d.hdr[a])) {
      if i > 0 {
        assert l[i] == d.list[i - 1];
      }
    }
    forall i, j | 0 <= i < |l| && 0 <= j < |l| ensures l[i].End() != l[j].addr {
      if i == 0 && j > 0 {
        assert x.End() != d.list[j - 1].addr;
      } else if j == 0 && i > 0 {
        assert d.list[i - 1].End() != x.addr;
      } else if i > 0 && j > 0 {
        assert d.list[i - 1].End() != d.list[j - 1].addr;
      }
    }
  }

  /** Taking a region out of the list keeps a region outside the device
      outside it. */
  lemma {:induction false} OutsideRemove(x: Region, d: Dev, k: nat)
    requires Outside(x, d) && k < |d.list|
    ensures Outside(x, d.(list := Remove(d.list, k)))
  {
    var l := Remove(d.list, k);
    forall i | 0 <= i < |l| ensures Apart(x, l[i]) {
      assert l[i] == d.list[if i < k then i else i + 1];
    }
  }

  /** No region of `l` ends at `a`. */
  ghost predicate NoneEndAt(l: seq<Region>, a: nat)
  {
    forall i | 0 <= i < |l| :: l[i].End() != a
  }

  /** The merge with the region before the freed block. */
  lemma {:induction false} PrevStep(d0: Dev, fr: Region)
    requires Disjoint(d0) && Coalesced(d0) && Outside(fr, d0)
    ensures var p := MergePrev(d0.list, fr);
            var d1 := d0.(list := p.rest);
            Disjoint(d1) && Coalesced(d1) && Outside(p.it, d1) && NoneEndAt(d1.list, p.it.addr)
  {
    var l := d0.list;
    var k := FindPrevious(l, fr.addr);
    if k < |l| {
      var d1 := d0.(list := Remove(l, k));
      RemoveFrom(d0, k);
      OutsideRemove(fr, d0, k);
      Join(l[k], fr, d1);
      forall i | 0 <= i < |d1.list| ensures d1.list[i].End() != l[k].addr {
        assert d1.list[i] == l[if i < k then i else i + 1];
      }
    }
  }

  /** The merge with the region that starts where the block ends. */
  lemma {:induction false} NextJoin(d1: Dev, it: Region, m: nat)
    requires Disjoint(d1) && Coalesced(d1) && Outside(it, d1) && NoneEndAt(d1.list, it.addr)
    requires m < |d1.list| && d1.list[m].addr == it.End()
    ensures var z := Region(it.addr, it.size + d1.list[m].size);
            var d2 := d1.(list := Remove(d1.list, m));
            Disjoint(d2) && Coalesced(d2) && Outside(z, d2) && Unjoined(z, d2.list)
  {
    var l := d1.list;
    var d2 := d1.(list := Remove(l, m));
    RemoveFrom(d1, m);
    OutsideRemove(it, d1, m);
    Join(it, l[m], d2);
    forall i | 0 <= i < |d2.list|
      ensures d2.list[i].End() != it.addr && l[m].End() != d2.list[i].addr
    {
      assert d2.list[i] == l[if i < m then i else i + 1];
    }
  }

  /** The merge with the region after the block, looked for at its end. */
  lemma {:induction false} NextStep(d1: Dev, it: Region)
    requires Disjoint(d1) && Coalesced(d1) && Outside(it, d1) && NoneEndAt(d1.list, it.addr)
    ensures var q := MergeNext(d1.list, it, it.End());
            var d2 := d1.(list := q.rest);
            Disjoint(d2) && Coalesced(d2) && Outside(q.it, d2) && Unjoined(q.it, d2.list)
  {
    var l := d1.list;
    var m := FindNext(l, it.End());
    if m < |l| {
      NextJoin(d1, it, m);
    }
  }

  /** Taking a region out keeps every remaining one large enough. */
  lemma {:induction false} RemoveRoomy(l: seq<Region>, k: nat)
    requires RoomyList(l) && k < |l|
    ensures RoomyList(Remove(l, k))
  {
    var r := Remove(l, k);
    forall i | 0 <= i < |r| ensures r[i].size >= MIN_SIZE {
      assert r[i] == l[if i < k then i else i + 1];
    }
  }

  /** Every region a merge leaves in the list was in it before. */
  lemma {:induction false} MergeRoomy(l: seq<Region>, fr: Region, at: nat)
    requires RoomyList(l)
    ensures RoomyList(MergePrev(l, fr).rest) && RoomyList(MergeNext(l, fr, at).rest)
  {
    var k := FindPrevious(l, fr.addr);
    if k < |l| {
      RemoveRoomy(l, k);
    }
    var m := FindNext(l, at);
    if m < |l| {
      RemoveRoomy(l, m);
    }
  }

  /** Freeing never makes a region or a block smaller than a record. */
  lemma {:induction false} DestroyedRoomy(d: Dev, ptr: nat, scaled: bool)
    requires Live(d, ptr) && Roomy(d)
    ensures Roomy(DestroyedWith(d, ptr, scaled))
  {
    var f := ptr - HEADER_SIZE;
    var p := MergePrev(d.list, Region(f, d.hdr[f]));
    MergeRoomy(d.list, Region(f, d.hdr[f]), 0);
    MergeRoomy(p.rest, p.it, Successor(p.it, scaled));
  }

  /** With the successor looked for at the block's end in bytes, freeing
      keeps free regions and live blocks apart, leaves no two free regions
      touching, and keeps every region large enough for its record. */
  lemma {:induction false} DestroyedFixedSound(d: Dev, ptr: nat)
    requires Live(d, ptr) && Sound(d)
    ensures Sound(DestroyedFixed(d, ptr))
  {
    var f := ptr - HEADER_SIZE;
    var fr := Region(f, d.hdr[f]);
    var d0 := d.(hdr := d.hdr - {f});
    FreeStart(d, f);
    PrevStep(d0, fr);
    var p := MergePrev(d0.list, fr);
    var d1 := d0.(list := p.rest);
    NextStep(d1, p.it);
    var q := MergeNext(p.rest, p.it, p.it.End());
    Push(q.it, d1.(list := q.rest));
    DestroyedRoomy(d, ptr, false);
  }

  /** allocate as written keeps free regions and live blocks apart and
      leaves no two free regions touching. */
  lemma {:induction false} AllocatedKeeps(d: Dev, n: nat)
    requires n <= ULONG_MAX && Disjoint(d) && Coalesced(d)
    ensures Disjoint(Allocated(d, n).dev) && Coalesced(Allocated(d, n).dev)
  {
    var r := Request(n);
    if r <= d.size && d.list != [] {
      var k := FirstFit(d.list, r);
      if k < |d.list| {
        if d.list[k].size == r {
          ExtractKeeps(d, k);
        } else {
          SplitKeeps(d, k, r);
        }
      }
    }
  }

  /** Handing out a whole region keeps a sound device sound. */
  lemma {:induction false} ExtractSound(d: Dev, k: nat)
    requires Sound(d) && k < |d.list|
    ensures Sound(Whole(d, k).dev)
  {
    ExtractKeeps(d, k);
    var l := Remove(d.list, k);
    assert forall i | 0 <= i < |l| :: l[i] == d.list[if i < k then i else i + 1];
  }

  /** Splitting a region into two parts that can each hold a record keeps
      a sound device sound. */
  lemma {:induction false} SplitSound(d: Dev, k: nat, r: nat)
    requires Sound(d) && k < |d.list| && MIN_SIZE <= r && d.list[k].size - r >= MIN_SIZE
    ensures Sound(Split(d, k, r).dev)
  {
    SplitKeeps(d, k, r);
  }

  /** The corrected allocate keeps the device sound and hands out a block
      whose header covers the request. */
  lemma {:induction false} AllocatedFixedSound(d: Dev, n: nat)
    requires Sound(d)
    ensures Sound(AllocatedFixed(d, n).dev)
    ensures var g := AllocatedFixed(d, n);
            g.res.Block? ==>
              g.res.ptr >= HEADER_SIZE && g.res.ptr - HEADER_SIZE in g.dev.hdr
              && g.dev.hdr[g.res.ptr - HEADER_SIZE] >= n + HEADER_SIZE
    ensures var g := AllocatedFixed(d, n);
            g.res.Block? ==>
              g.res.ptr - HEADER_SIZE !in d.hdr
              && g.dev.hdr == d.hdr[g.res.ptr - HEADER_SIZE := g.dev.hdr[g.res.ptr - HEADER_SIZE]]
  {
    var c := RequestChecked(n);
    if c.Some? && c.value <= d.size && d.list != [] {
      var r := c.value;
      var k := FirstFit(d.list, r);
      if k < |d.list| {
        var x := d.list[k];
        if x.size - r < MIN_SIZE {
          InsideFree(d, k, x.addr);
          ExtractSound(d, k);
        } else {
          assert r >= MIN_SIZE;
          InsideFree(d, k, x.addr + (x.size - r));
          SplitSound(d, k, r);
        }
      }
    }
  }
  // ---------------------------------------------------------------------
  // Where the bytes go
  // ---------------------------------------------------------------------

  /** extract frees nothing and takes exactly region `k`'s bytes out of
      the free ones. */
  lemma {:induction false} RemoveBytes(l: seq<Region>, k: nat)
    requires Separate(l) && k < |l|
    ensures Separate(Remove(l, k))
    ensures forall a :: FreeByte(Remove(l, k), a) <==> FreeByte(l, a) && !Holds(l[k], a)
  {
    var r := Remove(l, k);
    forall i, j | 0 <= i < j < |r| ensures Apart(r[i], r[j]) {
      assert r[i] == l[if i < k then i else i + 1] && r[j] == l[if j < k then j else j + 1];
    }
    forall a ensures FreeByte(r, a) <==> FreeByte(l, a) && !Holds(l[k], a) {
      RemoveByte(l, k, a);
    }
  }

  /** One byte of RemoveBytes. */
  lemma {:induction false} RemoveByte(l: seq<Region>, k: nat, a: nat)
    requires Separate(l) && k < |l|
    ensures FreeByte(Remove(l, k), a) <==> FreeByte(l, a) && !Holds(l[k], a)
  {
    var r := Remove(l, k);
    if FreeByte(r, a) {
      var i :| 0 <= i < |r| && Holds(r[i], a);
      var j := if i < k then i else i + 1;
      assert r[i] == l[j];
      if j < k { assert Apart(l[j], l[k]); } else { assert Apart(l[k], l[j]); }
    }
    if FreeByte(l, a) && !Holds(l[k], a) {
      var j :| 0 <= j < |l| && Holds(l[j], a);
      var i := if j < k then j else j - 1;
      assert r[i] == l[j];
      assert Holds(r[i], a);
    }
  }

  /** A region at the front adds its bytes to the free ones. */
  lemma {:induction false} ConsBytes(x: Region, l: seq<Region>)
    ensures forall a :: FreeByte([x] + l, a) <==> Holds(x, a) || FreeByte(l, a)
  {
    var c := [x] + l;
    forall a ensures FreeByte(c, a) <==> Holds(x, a) || FreeByte(l, a) {
      if FreeByte(c, a) {
        var i :| 0 <= i < |c| && Holds(c[i], a);
        if i > 0 { assert c[i] == l[i - 1] && Holds(l[i - 1], a); }
      }
      if Holds(x, a) { assert Holds(c[0], a); }
      if FreeByte(l, a) {
        var j :| 0 <= j < |l| && Holds(l[j], a);
        assert c[j + 1] == l[j] && Holds(c[j + 1], a);
      }
    }
  }

  /** Merging `fr` into a region that ends where it starts: the grown
      region ends where `fr` ends, and together with the regions left it
      holds the bytes of `fr` and of the list. */
  lemma {:induction false} MergePrevBytes(l: seq<Region>, fr: Region)
    requires Separate(l)
    ensures var m := MergePrev(l, fr);
            && Separate(m.rest) && m.it.End() == fr.End()
            && forall a :: Holds(m.it, a) || FreeByte(m.rest, a) <==> Holds(fr, a) || FreeByte(l, a)
  {
    var k := FindPrevious(l, fr.addr);
    if k < |l| {
      RemoveBytes(l, k);
      forall a | Holds(l[k], a) ensures FreeByte(l, a) { }
    }
  }

  /** Merging into `it` the region that starts at its end: `it` keeps its
      start, and together with the regions left it holds the bytes of
      `it` and of the list. */
  lemma {:induction false} MergeNextBytes(l: seq<Region>, it: Region)
    requires Separate(l)
    ensures var m := MergeNext(l, it, it.End());
            && Separate(m.rest) && m.it.End() >= it.End()
            && forall a :: Holds(m.it, a) || FreeByte(m.rest, a) <==> Holds(it, a) || FreeByte(l, a)
  {
    var k := FindNext(l, it.End());
    if k < |l| {
      RemoveBytes(l, k);
      forall a | Holds(l[k], a) ensures FreeByte(l, a) { }
    }
  }

  /** destroy with the successor at the block's end gives the block's
      bytes, which were not free, back to the free regions and takes no
      other byte out or in; the front region, grown by a region ending at
      the block and one starting at its end, covers the whole block. */
  lemma {:induction false} DestroyedFixedFrees(d: Dev, ptr: nat)
    requires Disjoint(d) && Live(d, ptr)
    ensures var f := ptr - HEADER_SIZE;
            var b := Region(f, d.hdr[f]);
            var l := DestroyedFixed(d, ptr).list;
            && (forall a | Holds(b, a) :: !FreeByte(d.list, a))
            && (forall a :: FreeByte(l, a) <==> FreeByte(d.list, a) || Holds(b, a))
            && l[0].addr <= b.addr && b.End() <= l[0].End()
  {
    var f := ptr - HEADER_SIZE;
    var b := Region(f, d.hdr[f]);
    var p := MergePrev(d.list, b);
    MergePrevBytes(d.list, b);
    var q := MergeNext(p.rest, p.it, p.it.End());
    MergeNextBytes(p.rest, p.it);
    ConsBytes(q.it, q.rest);
    assert DestroyedFixed(d, ptr).list == [q.it] + q.rest;
  }

  /** Handing out region `k` whole takes exactly its bytes. */
  lemma {:induction false} WholeBytes(d: Dev, k: nat)
    requires Separate(d.list) && k < |d.list|
    ensures Whole(d, k).dev.list == Remove(d.list, k)
    ensures forall a :: FreeByte(Whole(d, k).dev.list, a) <==> FreeByte(d.list, a) && !Holds(d.list[k], a)
  {
    RemoveBytes(d.list, k);
  }

  /** Splitting region `k` shrinks it in place and takes exactly its high
      `r` bytes. */
  lemma {:induction false} SplitBytes(d: Dev, k: nat, r: nat)
    requires Separate(d.list) && k < |d.list| && r < d.list[k].size
    ensures var x := d.list[k];
            var l := Split(d, k, r).dev.list;
            && l == d.list[k := Region(x.addr, x.size - r)]
            && forall a :: FreeByte(l, a) <==> FreeByte(d.list, a) && !Holds(Region(x.addr + (x.size - r), r), a)
  {
    var x := d.list[k];
    var hi := Region(x.addr + (x.size - r), r);
    var l := d.list[k := Region(x.addr, x.size - r)];
    assert Split(d, k, r).dev.list == l;
    forall a ensures FreeByte(l, a) <==> FreeByte(d.list, a) && !Holds(hi, a) {
      if FreeByte(l, a) {
        var i :| 0 <= i < |l| && Holds(l[i], a);
        if i == k {
          assert Holds(d.list[k], a);
        } else {
          assert l[i] == d.list[i];
          if i < k { assert Apart(d.list[i], x); } else { assert Apart(x, d.list[i]); }
        }
      }
      if FreeByte(d.list, a) && !Holds(hi, a) {
        var j :| 0 <= j < |d.list| && Holds(d.list[j], a);
        assert Holds(l[j], a);
      }
    }
  }

  /** allocate as written takes its block from the first region that
      fits the request: the whole region when it fits exactly, else the
      region shrinks in place and the block is its high end. The block's
      bytes stop being free, and no other byte changes. */
  lemma {:induction false} AllocatedCarves(d: Dev, n: nat)
    requires n <= ULONG_MAX && Disjoint(d)
    ensures var g := Allocated(d, n);
            var r := Request(n);
            var k := FirstFit(d.list, r);
            g.res.Block? ==>
              && k < |d.list|
              && var x := d.list[k];
                 var b := Region(g.res.ptr - HEADER_SIZE, r);
                 && x.addr <= b.addr && b.End() == x.End()
                 && (x.size == r ==> g.dev.list == Remove(d.list, k))
                 && (x.size != r ==> g.dev.list == d.list[k := Region(x.addr, x.size - r)])
                 && forall a :: FreeByte(g.dev.list, a) <==> FreeByte(d.list, a) && !Holds(b, a)
  {
    var r := Request(n);
    if r <= d.size && d.list != [] {
      var k := FirstFit(d.list, r);
      if k < |d.list| {
        if d.list[k].size == r {
          WholeBytes(d, k);
        } else {
          SplitBytes(d, k, r);
        }
      }
    }
  }

  /** The corrected allocate takes its block from the first region that
      fits the checked request: whole when a split would leave less than
      a record, else the high `r` bytes with the region shrunk in place.
      The block's bytes stop being free, and no other byte changes. */
  lemma {:induction false} AllocatedFixedCarves(d: Dev, n: nat)
    requires Disjoint(d)
    ensures var g := AllocatedFixed(d, n);
            g.res.Block? ==>
              && RequestChecked(n).Some?
              && var r := RequestChecked(n).value;
                 var k := FirstFit(d.list, r);
                 && k < |d.list|
                 && g.res.ptr >= HEADER_SIZE && g.res.ptr - HEADER_SIZE in g.dev.hdr
                 && var x := d.list[k];
                    var b := Region(g.res.ptr - HEADER_SIZE, g.dev.hdr[g.res.ptr - HEADER_SIZE]);
                    && x.addr <= b.addr && b.End() == x.End()
                    && (x.size - r < MIN_SIZE ==> g.dev.list == Remove(d.list, k) && b == x)
                    && (x.size - r >= MIN_SIZE ==> g.dev.list == d.list[k := Region(x.addr, x.size - r)] && b.size == r)
                    && forall a :: FreeByte(g.dev.list, a) <==> FreeByte(d.list, a) && !Holds(b, a)
  {
    var c := RequestChecked(n);
    if c.Some? && c.value <= d.size && d.list != [] {
      var r := c.value;
      var k := FirstFit(d.list, r);
      if k < |d.list| {
        if d.list[k].size - r < MIN_SIZE {
          WholeBytes(d, k);
        } else {
          SplitBytes(d, k, r);
        }
      }
    }
  }

  // ---------------------------------------------------------------------
  // Where the code as written departs from what it evidently intends
  // ---------------------------------------------------------------------

  /** Two adjacent blocks and, 384 bytes above the first, a free region. */
  function OverlapDev(): Dev
  {
    Dev(DEVICE_SIZE, 3, [Region(5000, 24)], map[4616 := 24, 4640 := 24])
  }

  /** Before the free, the device is sound. */
  lemma OverlapSound()
    ensures Sound(OverlapDev())
  {
    var d := OverlapDev();
    assert d.hdr.Keys == {4616, 4640};
    forall a, b | a in d.hdr && b in d.hdr && a != b ensures Apart(Region(a, d.hdr[a]), Region(b, d.hdr[b])) {
      assert a == 4616 || a == 4640;
    }
  }

  /** Freeing the first block: find_next looks 24 records (384 bytes) past
      it, finds the free region there and merges it, so the grown region
      covers the second block, which is still live. */
  lemma ScaledSuccessorOverlaps()
    ensures Live(OverlapDev(), 4624)
    ensures Destroyed(OverlapDev(), 4624).list == [Region(4616, 48)]
    ensures 4640 in Destroyed(OverlapDev(), 4624).hdr
    ensures !Disjoint(Destroyed(OverlapDev(), 4624))
  {
    OverlapSound();
    var d := OverlapDev();
    assert FindPrevious(d.list, 4616) == 1;
    assert FindNext([Region(5000, 24)], 4616 + MIN_SIZE * 24) == 0;
    var d' := Destroyed(d, 4624);
    assert 4640 in d'.hdr && !Apart(d'.list[0], Region(4640, d'.hdr[4640]));
  }

  /** A block directly below a free region. */
  function AdjacentDev(): Dev
  {
    Dev(DEVICE_SIZE, 3, [Region(4640, 24)], map[4616 := 24])
  }

  /** Freeing the block leaves it beside the region it touches, where
      the byte-wise successor merges the two. */
  lemma ScaledSuccessorMissesNeighbour()
    ensures Sound(AdjacentDev()) && Live(AdjacentDev(), 4624)
    ensures Destroyed(AdjacentDev(), 4624).list == [Region(4616, 24), Region(4640, 24)]
    ensures !Coalesced(Destroyed(AdjacentDev(), 4624))
    ensures DestroyedFixed(AdjacentDev(), 4624).list == [Region(4616, 48)]
  {
    var d := AdjacentDev();
    assert FindPrevious(d.list, 4616) == 1;
    assert FindNext(d.list, 4616 + MIN_SIZE * 24) == 1;
    assert FindNext(d.list, 4640) == 0;
    assert Destroyed(d, 4624).list[0].End() == Destroyed(d, 4624).list[1].addr;
  }

  /** A freshly mapped device at 65536. */
  function FreshDev(): Dev
  {
    Mapped(Dev(DEVICE_SIZE, -1, [], map[]), 3, 65536)
  }

  /** malloc(131048) asks for 131064 bytes of the 131072: the split leaves
      a free record of 8 bytes, whose next link lies on the new block's
      header. */
  lemma RemnantTooSmall()
    ensures Sound(FreshDev())
    ensures Request(131048) == 131064
    ensures Allocated(FreshDev(), 131048).dev.list == [Region(65536, 8)]
    ensures Allocated(FreshDev(), 131048).res == Block(65536 + 8 + HEADER_SIZE)
    ensures !Roomy(Allocated(FreshDev(), 131048).dev)
  {
    assert Normalize(131048) == 131056;
    assert FirstFit(FreshDev().list, 131064) == 0;
    assert Allocated(FreshDev(), 131048).dev.list[0].size < MIN_SIZE;
  }

  /** malloc(0), then malloc(131048) take the whole device; the next
      malloc reads the first record of an empty list. */
  lemma EmptyListFaults()
    ensures var d1 := Allocated(FreshDev(), 0).dev;
            var d2 := Allocated(d1, 131048).dev;
            d2.list == [] && Allocated(d2, 1).res == Fault
  {
    var d1 := Allocated(FreshDev(), 0).dev;
    FirstSmallBlock();
    LastBlockTakesAll(d1);
    assert Normalize(1) == 16;
  }

  /** malloc(0) on a fresh device splits 8 bytes off its top. */
  lemma FirstSmallBlock()
    ensures Allocated(FreshDev(), 0).dev.list == [Region(65536, 131064)]
  {
    assert Normalize(0) == 0 && Request(0) == 8;
    assert FirstFit(FreshDev().list, 8) == 0;
  }

  /** malloc(0) as written: `size <= 0` is tested after the header is
      added, so it never holds and no request is refused for being 0. A
      fresh device hands out an 8-byte block that is all header, at its very
      top: the user pointer is the device's end, so the `next` link destroy
      stores one header past the record lies beyond the mapping, and the
      block is smaller than a `struct free_region`. */
  lemma ZeroRequestServed(d: Dev)
    ensures Request(0) == HEADER_SIZE
    ensures Allocated(d, 0).res.Null? <==>
              HEADER_SIZE > d.size || (d.list != [] && FirstFit(d.list, HEADER_SIZE) == |d.list|)
    ensures Allocated(FreshDev(), 0).res == Block(65536 + DEVICE_SIZE)
    ensures Allocated(FreshDev(), 0).dev.hdr[65536 + DEVICE_SIZE - HEADER_SIZE] == HEADER_SIZE
    ensures !Roomy(Allocated(FreshDev(), 0).dev)
  {
    assert Normalize(0) == 0;
    assert FirstFit(FreshDev().list, HEADER_SIZE) == 0;
  }

  /** cleanup unmaps from the list's head (`config[dev].p`), which is the
      mapping's base only until a freed block goes to the front of the
      list. After two 16-byte requests on a fresh device and a free of the
      first, the head is the freed block, 131048 bytes past the base, so
      munmap(head, size) runs that far past the device's mapping. */
  lemma HeadLeavesBase()
    ensures Head(FreshDev()) == 65536
    ensures var d1 := AllocatedFixed(FreshDev(), 16).dev;
            var d2 := AllocatedFixed(d1, 16).dev;
            && Live(d2, 196592)
            && Head(DestroyedFixed(d2, 196592)) == 65536 + 131048
  {
    assert Normalize(16) == 16;
    var d0 := FreshDev();
    assert FirstFit(d0.list, 24) == 0;
    var d1 := AllocatedFixed(d0, 16).dev;
    assert d1.list == [Region(65536, 131048)] && d1.hdr == map[196584 := 24];
    assert FirstFit(d1.list, 24) == 0;
    var d2 := AllocatedFixed(d1, 16).dev;
    assert d2.list == [Region(65536, 131024)];
    assert 196584 in d2.hdr && d2.hdr[196584] == 24;
    assert FindPrevious(d2.list, 196584) == 1;
    assert FindNext(d2.list, 196608) == 1;
  }

  /** A 131064-byte region fits a request of 131048 bytes exactly. */
  lemma LastBlockTakesAll(d: Dev)
    requires d.size == DEVICE_SIZE && d.list == [Region(65536, 131064)]
    ensures Allocated(d, 131048).dev.list == []
  {
    assert Normalize(131048) == 131056;
    assert FirstFit(d.list, 131064) == 0;
  }

  /** malloc of one of the 15 largest sizes: normalize wraps to 0 and an
      8-byte block is granted. */
  lemma HugeRequestWraps()
    ensures Request(ULONG_MAX) == HEADER_SIZE
    ensures Allocated(FreshDev(), ULONG_MAX).res.Block?
    ensures RequestChecked(ULONG_MAX).None?
  {
    assert Normalize(ULONG_MAX) == 0;
    assert FirstFit(FreshDev().list, 8) == 0;
  }
  /** MAP_FAILED: `(void *) -1`. */
  const MAP_FAILED: nat := ULONG_MAX

  /** init as written takes any address but NULL for a mapping. */
  predicate MapAccepted(m: nat)
  {
    m != 0
  }

  /** The check init evidently intends: mmap reports failure with
      MAP_FAILED, not NULL. */
  predicate MapAcceptedFixed(m: nat)
  {
    m != 0 && m != MAP_FAILED
  }

  /** A failed mmap passes init's check, which then writes the first
      record at the last address there is. */
  lemma MapFailedAccepted()
    ensures MapAccepted(MAP_FAILED) && !MapAcceptedFixed(MAP_FAILED)
    ensures Region(MAP_FAILED, DEVICE_SIZE).End() > ULONG_MOD
  {
  }

  /** realloc as written keeps the block when its header equals the raw
      new size. */
  predicate KeepsInPlace(h: nat, n: nat)
  {
    h == n
  }

  /** realloc keeping the block when allocate would ask for exactly its
      size. */
  predicate KeepsInPlaceFixed(h: nat, n: nat)
  {
    RequestChecked(n) == Some(h)
  }

  /** A kept block holds the new size; a header never equals the raw size
      that gives it, so realloc as written never keeps a block of the same
      request. */
  lemma KeepsInPlaceFixedHolds(h: nat, n: nat)
    ensures KeepsInPlaceFixed(h, n) ==> h - HEADER_SIZE >= n
    ensures n <= ULONG_MAX ==> !KeepsInPlace(Request(n), n)
  {
    if n <= ULONG_MAX && n % MIN_SIZE == 0 {
      assert Normalize(n) == n;
      assert n + HEADER_SIZE < ULONG_MOD;
    }
  }

  /** malloc(1) gets a 24-byte block; realloc(p, 24) keeps it, though it
      holds 16 bytes. */
  lemma KeptBlockTooSmall()
    ensures Request(1) == 24
    ensures KeepsInPlace(Request(1), 24) && Request(1) - HEADER_SIZE < 24
    ensures !KeepsInPlaceFixed(Request(1), 24)
  {
    assert Normalize(1) == 16;
    assert Normalize(24) == 32;
  }

  /** The bytes realloc as written copies: the old block's whole size,
      header included. */
  function CopyLength(h: nat, h': nat): nat
  {
    h
  }

  /** The bytes realloc should copy: what both blocks can hold. */
  function CopyLengthFixed(h: nat, h': nat): (c: nat)
    ensures c + HEADER_SIZE <= h || c == 0
    ensures c + HEADER_SIZE <= h' || c == 0
    ensures h >= HEADER_SIZE && h' >= HEADER_SIZE ==> c + HEADER_SIZE == h || c + HEADER_SIZE == h'
  {
    var m := if h <= h' then h else h';
    if m >= HEADER_SIZE then m - HEADER_SIZE else 0
  }

  /** Shrinking a 120-byte block to one of 24: as written, 120 bytes go
      into a block that holds 16, read from one that holds 112. */
  lemma CopyOverruns()
    ensures CopyLength(120, 24) > 24 - HEADER_SIZE && CopyLength(120, 24) > 120 - HEADER_SIZE
    ensures CopyLengthFixed(120, 24) == 24 - HEADER_SIZE
  {
  }

  /** calloc as written: `size * nm` in `unsigned long` arithmetic. */
  function CallocSize(nm: nat, sz: nat): (v: nat)
    ensures v < ULONG_MOD
  {
    (sz * nm) % ULONG_MOD
  }

  /** calloc refusing a product past ULONG_MAX. */
  function CallocSizeChecked(nm: nat, sz: nat): (v: Option<nat>)
    ensures v.None? <==> nm * sz > ULONG_MAX
    ensures v.Some? ==> v.value == nm * sz && v.value == CallocSize(nm, sz)
  {
    if nm * sz > ULONG_MAX then None else Some(nm * sz)
  }

  /** calloc(2^32, 2^32) asks allocate for 0 bytes. */
  lemma CallocWraps()
    ensures CallocSize(0x1_0000_0000, 0x1_0000_0000) == 0
    ensures CallocSizeChecked(0x1_0000_0000, 0x1_0000_0000).None?
  {
    assert 0x1_0000_0000 * 0x1_0000_0000 == ULONG_MOD;
  }
}
