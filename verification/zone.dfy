/** The zone layer of ccontrol/src/lib/ccontrol.c: the size a caller should
    ask for, the staged creation of a coloured zone with its unwinding on
    failure, its best-effort teardown, and the NULL-guarded entry points that
    hand the zone's memory to the free list.

    The system calls (open, ioctl, mknod, mmap, munmap, close, unlink) are not
    executed: a creation or a teardown is given the outcome of each call as a
    parameter and returns the calls it issued, in order. */
module Zones {
  import opened FreelistLayout
  import FreelistModel
  import FreelistCapacity
  import Freelist
  import ColorSets

  /** Arithmetic on `unsigned int` and on `size_t` (LP64) is modulo these. */
  const UINT_MOD: nat := 0x1_0000_0000
  const SIZE_MOD: nat := 0x1_0000_0000_0000_0000

  // ---------------------------------------------------------------------
  // ccontrol_memsize2zonesize
  // ---------------------------------------------------------------------

  /** ccontrol_memsize2zonesize with ALLOCATOR_OVERHEAD read as the
      parenthesised sum: `nballoc - 1` is computed on `unsigned int` and the
      total on `size_t`. */
  function MemsizeToZonesize(nballoc: nat, memsize: nat): (r: nat)
    requires nballoc < UINT_MOD && memsize < SIZE_MOD
    ensures r < SIZE_MOD
  {
    (memsize + ALLOCATOR_OVERHEAD + HEADER_SIZE * ((nballoc + UINT_MOD - 1) % UINT_MOD)) % SIZE_MOD
  }

  /** The same line with ALLOCATOR_OVERHEAD expanded as the header defines
      it, trailing ';' included: the return statement ends after the
      overhead, and the per-allocation headers are never added. */
  function MemsizeToZonesizeExpanded(nballoc: nat, memsize: nat): (r: nat)
    requires nballoc < UINT_MOD && memsize < SIZE_MOD
    ensures r < SIZE_MOD
  {
    (memsize + ALLOCATOR_OVERHEAD) % SIZE_MOD
  }

  /** The two readings agree exactly for a single allocation; for none, the
      unsigned `nballoc - 1` wraps to 2^32 - 1 headers. */
  lemma ReadingsAgree(nballoc: nat, memsize: nat)
    requires nballoc < UINT_MOD && memsize < SIZE_MOD
    ensures MemsizeToZonesize(nballoc, memsize) == MemsizeToZonesizeExpanded(nballoc, memsize) <==> nballoc == 1
    ensures nballoc == 0 && memsize + ALLOCATOR_OVERHEAD + HEADER_SIZE * (UINT_MOD - 1) < SIZE_MOD ==>
              MemsizeToZonesize(nballoc, memsize) == memsize + ALLOCATOR_OVERHEAD + HEADER_SIZE * (UINT_MOD - 1)
  {
    var k := (nballoc + UINT_MOD - 1) % UINT_MOD;
    assert nballoc == 1 <==> k == 0;
    assert nballoc == 0 ==> k == UINT_MOD - 1;
    assert 0 <= HEADER_SIZE * k < SIZE_MOD;
  }

  /** Under either reading, a zone sized for one allocation of 1024 bytes
      cannot serve it: fl_allocate needs 1040 bytes and the zone has 1032
      free. */
  lemma MemsizeToZonesizeTooSmall()
    ensures MemsizeToZonesize(1, 1024) == MemsizeToZonesizeExpanded(1, 1024) == 1048
    ensures FreelistModel.Allocate(FreelistModel.Init(1048), 1024).ptr.Null?
  {
    assert FreelistModel.AdjustSize(1024) == 1040;
  }

  /** A zone size that serves `nballoc` allocations totalling `memsize`
      bytes: the head record plus, per allocation, its header and up to
      sizeof(fl) - 1 bytes of rounding, rounded up to whole records. */
  function ZoneSizeFor(nballoc: nat, memsize: nat): (r: nat)
    ensures r % FL_SIZE == 0
    ensures r >= FL_SIZE + memsize + (HEADER_SIZE + FL_SIZE - 1) * nballoc
    ensures nballoc > 0 ==> r >= 2 * FL_SIZE
  {
    var need := memsize + (HEADER_SIZE + FL_SIZE - 1) * nballoc;
    FL_SIZE + need + (FL_SIZE - need % FL_SIZE) % FL_SIZE
  }

  /** A fresh zone of ZoneSizeFor(|ns|, Total(ns)) bytes grants every
      request of the run `ns`, in order, and keeps exact accounting. */
  lemma {:induction false} ZoneSizeForSuffices(ns: seq<nat>)
    requires ns != [] && FreelistCapacity.NonZero(ns)
    ensures var s := ZoneSizeFor(|ns|, FreelistCapacity.Total(ns));
            && s >= 2 * FL_SIZE
            && FreelistModel.Exact(FreelistModel.Init(s))
            && forall i | 0 <= i < |ns| :: FreelistCapacity.AllocateAll(FreelistModel.Init(s), ns).1[i].At?
  {
    var s := ZoneSizeFor(|ns|, FreelistCapacity.Total(ns));
    FreelistCapacity.ConsumedAtMost(ns);
    FreelistCapacity.FreshZoneGrantsRun(s, ns);
  }

  // ---------------------------------------------------------------------
  // The zone record
  // ---------------------------------------------------------------------

  /** dev_t, as makedev(major, minor) builds it. */
  datatype DevNum = DevNum(major: int, minor: int)

  /** What the zone's pointer `p` holds: NULL, MAP_FAILED after a failed
      mmap, a live mapping, or a mapping that has been unmapped. */
  datatype Mapping = NoMapping | MapFailed | Mapped | Unmapped

  /** struct ccontrol_zone. The free list lives inside the mapping; while
      the zone is mapped `arena` is that free list. */
  class Zone {
    var fd: int
    var p: Mapping
    var size: nat
    var dev: DevNum
    var arena: Freelist.Arena?

    ghost predicate Valid()
      reads this, arena
    {
      p.Mapped? ==> arena != null && arena.Valid()
    }

    /** ccontrol_new once malloc succeeded: no descriptor, no mapping, no
        size. The device number is left as malloc returned it. */
    constructor ()
      ensures fd == -1 && p == NoMapping && size == 0 && arena == null
      ensures Valid()
    {
      fd := -1;
      p := NoMapping;
      size := 0;
      arena := null;
    }
  }

  /** ccontrol_new: a fresh zone, or NULL when malloc fails (`mallocOk`
      is malloc's outcome). */
  method New(mallocOk: bool) returns (z: Zone?)
    ensures mallocOk <==> z != null
    ensures z != null ==> fresh(z) && z.fd == -1 && z.p == NoMapping && z.size == 0 && z.Valid()
  {
    if !mallocOk {
      return null;
    }
    z := new Zone();
  }

  // ---------------------------------------------------------------------
  // Calls issued to the system and the kernel module
  // ---------------------------------------------------------------------

  /** A call issued by the zone code. The device node's file name is built
      from the minor number only. */
  datatype Call =
    | OpenControl
    | IoctlNew(size: nat, colors: seq<ColorSets.Word>)
    | Mknod(dev: DevNum)
    | OpenColor(minor: int)
    | Mmap(size: nat)
    | FlInit(size: nat)
    | Munmap(size: nat)
    | CloseColor(fd: int)
    | Unlink(minor: int)
    | IoctlFree(dev: DevNum)
    | CloseControl

  /** The outcome of each setup call of one creation: whether the control
      device opens, whether IOCTL_NEW creates a device and its number,
      whether mknod succeeds, the descriptor open returns for the node (-1
      on failure), and whether mmap succeeds. */
  datatype SetupOutcomes = SetupOutcomes(
    controlOpens: bool, created: bool, dev: DevNum, nodeMade: bool, colorFd: int, mapped: bool)

  /** The five setup calls of a creation, in order. IOCTL_NEW passes the
      size through the `unsigned int` field of its argument. */
  function Setup(size: nat, colors: seq<ColorSets.Word>, o: SetupOutcomes): (s: seq<Call>)
    ensures |s| == 5
  {
    [OpenControl, IoctlNew(size % UINT_MOD, colors), Mknod(o.dev), OpenColor(o.dev.minor), Mmap(size)]
  }

  /** The number of setup calls that succeed before the first failure (5
      when all succeed). */
  function Reached(o: SetupOutcomes): (k: nat)
    ensures k <= 5
  {
    if !o.controlOpens then 0
    else if !o.created then 1
    else if !o.nodeMade then 2
    else if o.colorFd == -1 then 3
    else if !o.mapped then 4
    else 5
  }

  /** The call that releases what a successful setup call acquired. */
  function Undo(call: Call, o: SetupOutcomes): Call
  {
    match call
    case OpenControl => CloseControl
    case IoctlNew(_, _) => IoctlFree(o.dev)
    case Mknod(dev) => Unlink(dev.minor)
    case OpenColor(_) => CloseColor(o.colorFd)
    case Mmap(size) => Munmap(size)
    case _ => call
  }

  /** The releases of the calls `done`, latest first. */
  function Unwind(done: seq<Call>, o: SetupOutcomes): (u: seq<Call>)
    ensures |u| == |done|
    ensures forall i | 0 <= i < |done| :: u[|done| - 1 - i] == Undo(done[i], o)
  {
    if done == [] then [] else [Undo(done[|done| - 1], o)] + Unwind(done[..|done| - 1], o)
  }

  /** Whether a call acquires a resource or releases one. */
  predicate Acquires(call: Call)
  {
    call.OpenControl? || call.IoctlNew? || call.Mknod? || call.OpenColor? || call.Mmap?
  }

  predicate Releases(call: Call)
  {
    call.CloseControl? || call.IoctlFree? || call.Unlink? || call.CloseColor? || call.Munmap?
  }

  /** ccontrol_create_zone. NULL arguments are refused before any call.
      Otherwise the setup calls are issued in order until one fails; on a
      failure the calls that succeeded are released through the fall-
      through labels, latest first, and the result is 1. On success the
      free list is initialised over the mapping, the size and device
      number are recorded, only the control descriptor is closed, and the
      result is 0. The zone's descriptor is stored as soon as the node is
      opened, and its pointer becomes MAP_FAILED when mmap fails. */
  method CreateZone(z: Zone?, c: ColorSets.ColorSet?, size: nat, o: SetupOutcomes) returns (err: int, calls: seq<Call>)
    requires c != null ==> c.Valid()
    requires size >= 2 * FL_SIZE
    modifies z
    ensures z == null || c == null ==> err == 1 && calls == []
    ensures z != null && c != null ==>
              var k := Reached(o);
              var s := Setup(size, old(c.Words()), o);
              && (err == 0 <==> k == 5)
              && (k < 5 ==> err == 1 && calls == s[..k + 1] + Unwind(s[..k], o))
              && (k == 5 ==> calls == s + [FlInit(size), CloseControl])
    ensures z != null && c != null ==>
              && z.fd == (if Reached(o) >= 3 then o.colorFd else old(z.fd))
              && z.p == (if Reached(o) == 5 then Mapped else if Reached(o) == 4 then MapFailed else old(z.p))
              && z.size == (if Reached(o) == 5 then size else old(z.size))
              && z.dev == (if Reached(o) == 5 then o.dev else old(z.dev))
              && (Reached(o) == 5 ==>
                    && z.arena != null && fresh(z.arena) && z.Valid()
                    && z.arena.Abs() == FreelistModel.Init(size))
              && (Reached(o) < 5 ==> z.arena == old(z.arena))
  {
    if z == null || c == null {
      return 1, [];
    }
    var s := Setup(size, c.Words(), o);
    calls := [OpenControl];
    if !o.controlOpens {
      return 1, calls;
    }
    calls := calls + [IoctlNew(size % UINT_MOD, c.bits[..])];
    // How many acquired resources the unwinding releases, latest first:
    // the label the code jumps to.
    var release: nat;
    if !o.created {
      err, release := 1, 1;
    } else {
      calls := calls + [Mknod(o.dev)];
      if !o.nodeMade {
        err, release := 1, 2;
      } else {
        calls := calls + [OpenColor(o.dev.minor)];
        z.fd := o.colorFd;
        if z.fd == -1 {
          err, release := 1, 3;
        } else {
          calls := calls + [Mmap(size)];
          if !o.mapped {
            z.p := MapFailed;
            err, release := 1, 4;
          } else {
            z.arena := new Freelist.Arena.Init(size);
            z.p := Mapped;
            calls := calls + [FlInit(size)];
            z.size := size;
            z.dev := o.dev;
            err, release := 0, 1;
          }
        }
      }
    }
    assert calls[..] == (if err == 0 then s + [FlInit(size)] else s[..Reached(o) + 1]);
    if release >= 4 {
      calls := calls + [CloseColor(z.fd)];
    }
    if release >= 3 {
      calls := calls + [Unlink(o.dev.minor)];
    }
    if release >= 2 {
      calls := calls + [IoctlFree(o.dev)];
    }
    calls := calls + [CloseControl];
    if err != 0 {
      UnwindSetup(size, c.Words(), o, Reached(o));
    }
  }

  /** The unwinding after k successful setup calls, spelled out. */
  lemma UnwindSetup(size: nat, colors: seq<ColorSets.Word>, o: SetupOutcomes, k: nat)
    requires k < 5
    ensures var s := Setup(size, colors, o);
            Unwind(s[..k], o) ==
              (if k >= 4 then [CloseColor(o.colorFd)] else [])
              + (if k >= 3 then [Unlink(o.dev.minor)] else [])
              + (if k >= 2 then [IoctlFree(o.dev)] else [])
              + (if k >= 1 then [CloseControl] else [])
  {
    var s := Setup(size, colors, o);
    var u := Unwind(s[..k], o);
    forall i | 0 <= i < k ensures u[i] == Undo(s[k - 1 - i], o) {
      assert s[..k][k - 1 - i] == s[k - 1 - i];
    }
  }

  /** The releases of the calls `done`, in the order the calls were made. */
  function Undos(done: seq<Call>, o: SetupOutcomes): (u: seq<Call>)
    ensures |u| == |done|
    ensures forall i | 0 <= i < |done| :: u[i] == Undo(done[i], o)
  {
    if done == [] then [] else [Undo(done[0], o)] + Undos(done[1..], o)
  }

  /** Whatever call fails, a failed creation leaves nothing behind: each
      setup call that succeeded acquired something, every call issued after
      the failure releases something, and the releases are exactly the
      undoing of the successful calls, each once, latest first. */
  lemma {:induction false} FailedCreateReleasesAll(size: nat, colors: seq<ColorSets.Word>, o: SetupOutcomes)
    requires Reached(o) < 5
    ensures var k := Reached(o);
            var s := Setup(size, colors, o);
            var u := Unwind(s[..k], o);
            && (forall i | 0 <= i < k :: Acquires(s[i]))
            && (forall i | 0 <= i < |u| :: Releases(u[i]))
            && u == Reverse(Undos(s[..k], o))
            && multiset(u) == multiset(Undos(s[..k], o))
  {
    var k := Reached(o);
    var s := Setup(size, colors, o);
    var done := s[..k];
    SetupAcquires(size, colors, o);
    forall i | 0 <= i < |done| ensures Acquires(done[i]) {
      assert done[i] == s[i];
    }
    UnwindReleases(done, o);
    UnwindReverse(done, o);
    ReverseMultiset(Undos(done, o));
  }

  /** Every setup call acquires something. */
  lemma SetupAcquires(size: nat, colors: seq<ColorSets.Word>, o: SetupOutcomes)
    ensures forall i | 0 <= i < 5 :: Acquires(Setup(size, colors, o)[i])
  {
  }

  /** Undoing calls that acquire something only releases. */
  lemma {:induction false} UnwindReleases(done: seq<Call>, o: SetupOutcomes)
    requires forall i | 0 <= i < |done| :: Acquires(done[i])
    ensures forall i | 0 <= i < |done| :: Releases(Unwind(done, o)[i])
  {
    var u := Unwind(done, o);
    forall i | 0 <= i < |done| ensures Releases(u[i]) {
      assert u[i] == Undo(done[|done| - 1 - i], o);
    }
  }

  /** The unwinding is the releases in reverse order. */
  lemma {:induction false} UnwindReverse(done: seq<Call>, o: SetupOutcomes)
    ensures Unwind(done, o) == Reverse(Undos(done, o))
  {
  }

  /** The elements of `s` in reverse order. */
  function Reverse<T>(s: seq<T>): (r: seq<T>)
    ensures |r| == |s|
    ensures forall i | 0 <= i < |s| :: r[i] == s[|s| - 1 - i]
  {
    if s == [] then [] else Reverse(s[1..]) + [s[0]]
  }

  lemma {:induction false} ReverseMultiset<T>(s: seq<T>)
    ensures multiset(Reverse(s)) == multiset(s)
  {
    if s != [] {
      ReverseMultiset(s[1..]);
      assert s == [s[0]] + s[1..];
    }
  }

  // ---------------------------------------------------------------------
  // ccontrol_destroy_zone
  // ---------------------------------------------------------------------

  /** The outcome of the teardown calls whose result the code looks at:
      opening the control device and IOCTL_FREE. */
  datatype TeardownOutcomes = TeardownOutcomes(controlOpens: bool, freed: bool)

  /** The calls a teardown issues for a zone of `size` bytes on descriptor
      `fd` and device `dev`: unmap and close whatever happens, then, if the
      control device opens, unlink the node, free the device and close the
      control device. */
  function Teardown(size: nat, fd: int, dev: DevNum, o: TeardownOutcomes): seq<Call>
  {
    [Munmap(size), CloseColor(fd), OpenControl]
    + (if o.controlOpens then [Unlink(dev.minor), IoctlFree(dev), CloseControl] else [])
  }

  /** ccontrol_destroy_zone: best effort. munmap and close errors are
      ignored; the result is 1 only for a NULL zone, a control device that
      does not open, or an IOCTL_FREE that fails. The zone's fields are left
      as they were, but its memory, and the free list in it, is gone. */
  method DestroyZone(z: Zone?, o: TeardownOutcomes) returns (err: int, calls: seq<Call>)
    modifies z
    ensures err == 0 || err == 1
    ensures err == 1 <==> z == null || !o.controlOpens || !o.freed
    ensures z == null ==> calls == []
    ensures z != null ==>
              && calls == Teardown(old(z.size), old(z.fd), old(z.dev), o)
              && z.fd == old(z.fd) && z.size == old(z.size) && z.dev == old(z.dev)
              && z.p == (if old(z.p).Mapped? then Unmapped else old(z.p))
              && z.arena == null
  {
    if z == null {
      return 1, [];
    }
    calls := [Munmap(z.size)];
    if z.p.Mapped? {
      z.p := Unmapped;
    }
    z.arena := null;
    calls := calls + [CloseColor(z.fd)];
    calls := calls + [OpenControl];
    if !o.controlOpens {
      return 1, calls;
    }
    calls := calls + [Unlink(z.dev.minor)];
    calls := calls + [IoctlFree(z.dev)];
    err := if o.freed then 0 else 1;
    calls := calls + [CloseControl];
  }

  /** Tearing down a zone that was created successfully releases exactly
      what the creation kept, latest first: the mapping, the descriptor,
      the node and the kernel device, opening the control device for the
      last two. */
  lemma {:induction false} TeardownUndoesSetup(size: nat, colors: seq<ColorSets.Word>, o: SetupOutcomes)
    requires Reached(o) == 5
    ensures var u := Unwind(Setup(size, colors, o)[1..], o);
            Teardown(size, o.colorFd, o.dev, TeardownOutcomes(true, true))
              == u[..2] + [OpenControl] + u[2..] + [CloseControl]
  {
    var s := Setup(size, colors, o);
    var u := Unwind(s[1..], o);
    assert u[0] == Undo(s[1..][3], o) && u[1] == Undo(s[1..][2], o);
    assert u[2] == Undo(s[1..][1], o) && u[3] == Undo(s[1..][0], o);
    assert u[..2] == [Munmap(size), CloseColor(o.colorFd)];
    assert u[2..] == [Unlink(o.dev.minor), IoctlFree(o.dev)];
  }

  // ---------------------------------------------------------------------
  // Entry points
  // ---------------------------------------------------------------------

  /** What an entry point does with a zone's pointer: refuse it (NULL, or
      nothing done), hand it to the free-list code on a live mapping, or
      hand it to the free-list code although it is not a mapping, which then
      reads and writes memory that is not there. */
  datatype Entry = Refused | Serves | Faults

  /** The entry points' guard as written: only a NULL `p` is refused. */
  function Guard(m: Mapping): Entry
  {
    if m.NoMapping? then Refused else if m.Mapped? then Serves else Faults
  }

  /** The guard with MAP_FAILED refused as well. */
  function GuardChecked(m: Mapping): Entry
  {
    if m.NoMapping? || m.MapFailed? then Refused else if m.Mapped? then Serves else Faults
  }

  /** A zone whose mmap failed is left holding MAP_FAILED (CreateZone), and
      the guard as written passes it on to fl_allocate, fl_free and
      fl_realloc, which use it as the zone's dummy head. The checked guard
      refuses exactly that pointer and otherwise decides as written. */
  lemma MapFailedPassesGuard(m: Mapping)
    ensures Guard(MapFailed) == Faults && GuardChecked(MapFailed) == Refused
    ensures m != MapFailed ==> Guard(m) == GuardChecked(m)
    ensures GuardChecked(m) == Faults <==> m.Unmapped?
  {
  }

  /** A zone the entry points may be called on: NULL, a zone never mapped,
      one whose mapping failed, or a mapped zone with its free list. A zone
      that has been destroyed is not. */
  ghost predicate Usable(z: Zone?)
    reads z, if z != null then {z.arena} else {}
  {
    z == null || z.p.NoMapping? || z.p.MapFailed? || (z.p.Mapped? && z.Valid())
  }

  /** ccontrol_malloc with the checked guard: NULL without a zone, without
      a mapping or after a failed mmap, otherwise fl_allocate on the zone's
      free list. */
  method Malloc(z: Zone?, n: nat) returns (p: Ptr)
    requires Usable(z)
    modifies if z != null && z.p.Mapped? then {z.arena} else {}
    ensures z == null || GuardChecked(z.p) == Refused ==> p == Null
    ensures z != null && z.p.Mapped? ==>
              && z.Valid()
              && z.arena.Abs() == FreelistModel.Allocate(old(z.arena.Abs()), n).heap
              && p == FreelistModel.Allocate(old(z.arena.Abs()), n).ptr
  {
    if z == null || GuardChecked(z.p) == Refused {
      return Null;
    }
    p := z.arena.Allocate(n);
  }

  /** ccontrol_free with the checked guard: nothing without a zone, without
      a mapping or after a failed mmap, otherwise fl_free on the zone's free
      list. */
  method Free(z: Zone?, ptr: Ptr)
    requires Usable(z)
    requires z != null && z.p.Mapped? ==> FreelistModel.CanFree(z.arena.Abs(), ptr)
    modifies if z != null && z.p.Mapped? then {z.arena} else {}
    ensures z != null && z.p.Mapped? ==>
              z.Valid() && z.arena.Abs() == FreelistModel.Free(old(z.arena.Abs()), ptr)
  {
    if z == null || GuardChecked(z.p) == Refused {
      return;
    }
    z.arena.Free(ptr);
  }

  /** ccontrol_realloc with the checked guard: NULL without a zone, without
      a mapping or after a failed mmap, otherwise what fl_realloc returns
      (`reallocated`). */
  method Realloc(z: Zone?, ptr: Ptr, n: nat, reallocated: Ptr) returns (p: Ptr)
    requires Usable(z)
    ensures p == if z == null || GuardChecked(z.p) == Refused then Null else reallocated
  {
    if z == null || GuardChecked(z.p) == Refused {
      return Null;
    }
    p := reallocated;
  }
}
