/** The LD_PRELOAD layer that replaces malloc, free, realloc and calloc
    (ccontrol/src/lib/libc_bypass.c and its later copy src/lib/libc_bypass.c).
    Two global flags drive a three-state bootstrap: idle (neither set),
    initialising (`in_init`) and ready (`init_ok`). The first entry point
    called while idle runs `init`, which reads the environment and creates
    the process's single coloured zone; every later call is delegated to
    that zone. Calls made while `init` runs are served by anonymous
    mappings. Any failure in `init` ends the process. */
module LibcBypass {
  import opened FreelistLayout
  import FreelistModel
  import opened ColorSets
  import opened CStdlib
  import opened BypassParse
  import Zones

  datatype Option<T> = None | Some(value: T)

  /** The two builds of the layer. The older one parses the environment
      itself (parse_color_list and parse_size); the later one hands the
      strings to ccontrol_str2cset and ccontrol_str2size. */
  datatype Build = Parsing | External

  /** What the process's surroundings give `init`: whether atexit succeeds,
      the colour and size variables (None when unset), what the external
      parsers of the later build return for them (None for an error), and
      the outcomes of the zone creation's system calls. */
  datatype World = World(
    atexitOk: bool,
    colorsVar: Option<string>,
    sizeVar: Option<string>,
    str2cset: Option<SetWords>,
    str2size: Option<nat>,
    setup: Zones.SetupOutcomes)

  /** The words of a colour set. */
  type SetWords = s: seq<Word> | |s| == CSET_SIZE witness NoColors()

  /** The colours the build reads from the colour variable, or None when
      the variable is unset or the parser reports an error. */
  ghost function ParsedColors(build: Build, w: World): Option<set<nat>>
  {
    if w.colorsVar.None? then None
    else if build == Parsing then
      var parsed := ColorList(w.colorsVar.value, {});
      if parsed.code == 0 then Some(parsed.colors) else None
    else if w.str2cset.Some? then Some(Members(w.str2cset.value))
    else None
  }

  /** The zone size the build reads from the size variable, or None when
      the variable is unset or the parser reports an error. */
  function ParsedSize(build: Build, w: World): Option<nat>
  {
    if w.sizeVar.None? then None
    else if build == Parsing then
      match ParseSize(w.sizeVar.value)
      case SizeOk(n) => Some(n)
      case SizeError(_) => None
    else w.str2size
  }

  /** The steps of `init` that can end the process. */
  datatype Step = AtexitStep | ColorsVarStep | SizeVarStep | ColorsParseStep | SizeParseStep | ZoneStep

  /** How `init` ends: exit(EXIT_FAILURE) at a step, or a zone created for
      these colours and this size. */
  datatype InitEnd = ExitAt(step: Step) | Created(colors: set<nat>, size: nat)

  /** The steps of `init` in order; the first that fails ends the process. */
  ghost function Outcome(build: Build, w: World): (e: InitEnd)
    ensures e.Created? ==> ParsedColors(build, w) == Some(e.colors) && ParsedSize(build, w) == Some(e.size)
  {
    if !w.atexitOk then ExitAt(AtexitStep)
    else if w.colorsVar.None? then ExitAt(ColorsVarStep)
    else if w.sizeVar.None? then ExitAt(SizeVarStep)
    else if ParsedColors(build, w).None? then ExitAt(ColorsParseStep)
    else if ParsedSize(build, w).None? then ExitAt(SizeParseStep)
    else if Zones.Reached(w.setup) < 5 then ExitAt(ZoneStep)
    else Created(ParsedColors(build, w).value, ParsedSize(build, w).value)
  }

  /** The environments the model covers: a size that parses is at least
      two free-list records, the smallest zone fl_init can lay out. */
  predicate Modelled(build: Build, w: World)
  {
    (ParsedSize(build, w).Some? ==> ParsedSize(build, w).value >= 2 * FL_SIZE)
  }

  /** A pointer an entry point hands back: one from the zone (possibly
      NULL), an anonymous mapping of `len` bytes, MAP_FAILED from a failed
      mmap, nothing because the process has exited, or nothing because the
      process dies of a memory fault. */
  datatype Block = Pointer(p: Ptr) | Anonymous(len: nat) | MapFailed | NoReturn | Fault

  /** MMAP(len): an anonymous mapping, or MAP_FAILED, handed back as is. */
  function Mmap(len: nat, mmapOk: bool): (b: Block)
    ensures b.Anonymous? <==> mmapOk
    ensures b.Anonymous? ==> b.len == len
  {
    if mmapOk then Anonymous(len) else MapFailed
  }

  /** The flags, the global `local_zone` and whether the process is still
      running. `colors` records the colour set the zone was created for. */
  class Bypass {
    const build: Build
    const zone: Zones.Zone
    var inInit: bool
    var initOk: bool
    var exited: bool
    ghost var colors: set<nat>

    /** The flags are never both set, and a ready layer has its zone
        mapped with a well-formed free list. */
    ghost predicate Valid()
      reads this, zone, zone.arena
    {
      && !(inInit && initOk)
      && (initOk && !exited ==> zone.p.Mapped? && zone.Valid())
    }

    /** Both flags clear, as the globals start; the zone is not mapped. */
    constructor (build: Build)
      ensures this.build == build && fresh(zone)
      ensures !inInit && !initOk && !exited && zone.p.NoMapping?
      ensures Valid()
    {
      this.build := build;
      zone := new Zones.Zone();
      inInit, initOk, exited := false, false, false;
    }

    /** The free list the zone serves the call from: the current one when
        ready, otherwise the one `init` is about to create. */
    ghost function Serving(w: World): FreelistModel.Heap
      reads this, zone, zone.arena
      requires Valid() && !exited && !inInit
      requires initOk || (Outcome(build, w).Created? && Modelled(build, w))
    {
      if initOk then zone.arena.Abs() else FreelistModel.Init(Outcome(build, w).size)
    }

    /** init: sets `in_init`, then registers cleanup, reads both variables,
        parses the colours and the size and creates the zone, calling
        exit(EXIT_FAILURE) at the first step that fails. Only after the
        zone exists are `in_init` cleared and `init_ok` set. The process
        ends with `in_init` still set and `init_ok` clear, so the cleanup
        handler that exit runs leaves the zone alone. */
    method Init(w: World)
      requires Valid() && !exited && !inInit && !initOk && Modelled(build, w)
      modifies this, zone
      ensures Valid()
      ensures exited <==> Outcome(build, w).ExitAt?
      ensures exited ==> inInit && !initOk
      ensures !exited ==>
                && !inInit && initOk && colors == Outcome(build, w).colors
                && zone.size == Outcome(build, w).size
                && fresh(zone.arena) && zone.arena.Abs() == FreelistModel.Init(zone.size)
    {
      inInit := true;
      if !w.atexitOk {
        exited := true;
        return;
      }
      if w.colorsVar.None? || w.sizeVar.None? {
        exited := true;
        return;
      }
      var c: ColorSet;
      var err: int;
      if build == Parsing {
        c := new ColorSet(NoColors());
        err := ParseColorList(c, w.colorsVar.value);
      } else if w.str2cset.Some? {
        c := new ColorSet(w.str2cset.value);
        err := 0;
      } else {
        c := new ColorSet(NoColors());
        err := 1;
      }
      if err != 0 {
        exited := true;
        return;
      }
      var size: nat;
      if build == Parsing {
        match ParseSize(w.sizeVar.value)
        case SizeError(_) =>
          exited := true;
          return;
        case SizeOk(n) =>
          size := n;
      } else {
        if w.str2size.None? {
          exited := true;
          return;
        }
        size := w.str2size.value;
      }
      ghost var cs := Members(c.Words());
      var calls;
      err, calls := Zones.CreateZone(zone, c, size, w.setup);
      if err != 0 {
        exited := true;
        return;
      }
      inInit := false;
      initOk := true;
      colors := cs;
    }

    /** cleanup, the atexit handler: only when `init_ok` is set, destroys
        the zone, ending the process at once (_exit) if that fails and
        clearing `init_ok` otherwise. */
    method Cleanup(o: Zones.TeardownOutcomes)
      requires Valid() && !exited
      modifies this, zone
      ensures Valid() && inInit == old(inInit)
      ensures !old(initOk) ==> unchanged(this) && unchanged(zone)
      ensures old(initOk) ==>
                && zone.p.Unmapped? && zone.arena == null
                && (exited <==> !o.controlOpens || !o.freed)
                && initOk == exited
    {
      if initOk {
        var err, calls := Zones.DestroyZone(zone, o);
        if err != 0 {
          exited := true;
          return;
        }
        initOk := false;
      }
    }

    /** malloc: an anonymous mapping while `in_init` is set; otherwise
        `init` first when the layer is idle, then fl_allocate on the zone. */
    method Malloc(n: nat, w: World, mmapOk: bool) returns (r: Block)
      requires Valid() && !exited
      requires !inInit && !initOk ==> Modelled(build, w)
      modifies this, zone, zone.arena
      ensures Valid()
      ensures old(inInit) ==> r == Mmap(n, mmapOk) && unchanged(this) && unchanged(zone)
      ensures !old(inInit) && !old(initOk) && Outcome(build, w).ExitAt? ==>
                exited && inInit && !initOk && r == NoReturn
      ensures !old(inInit) && (old(initOk) || Outcome(build, w).Created?) ==>
                && !exited && !inInit && initOk && zone.p.Mapped? && zone.Valid()
                && var a := FreelistModel.Allocate(old(Serving(w)), n);
                   r == Pointer(a.ptr) && zone.arena.Abs() == a.heap
    {
      if inInit {
        return Mmap(n, mmapOk);
      }
      if !initOk {
        Init(w);
        if exited {
          return NoReturn;
        }
      }
      var p := Zones.Malloc(zone, n);
      r := Pointer(p);
    }

    /** free: nothing while `in_init` is set; otherwise `init` first when
        the layer is idle, then fl_free on the zone. */
    method Free(ptr: Ptr, w: World)
      requires Valid() && !exited
      requires !inInit && !initOk ==> Modelled(build, w)
      requires !inInit && (initOk || Outcome(build, w).Created?) ==> FreelistModel.CanFree(Serving(w), ptr)
      modifies this, zone, zone.arena
      ensures Valid()
      ensures old(inInit) ==>
                unchanged(this) && unchanged(zone) && (zone.arena != null ==> unchanged(zone.arena))
      ensures !old(inInit) && !old(initOk) && Outcome(build, w).ExitAt? ==> exited && inInit && !initOk
      ensures !old(inInit) && (old(initOk) || Outcome(build, w).Created?) ==>
                && !exited && !inInit && initOk && zone.p.Mapped? && zone.Valid()
                && zone.arena.Abs() == FreelistModel.Free(old(Serving(w)), ptr)
    {
      if inInit {
        return;
      }
      if !initOk {
        Init(w);
        if exited {
          return;
        }
      }
      Zones.Free(zone, ptr);
    }

    /** realloc: while `in_init` is set, a fresh anonymous mapping into
        which memcpy copies `n` bytes from `ptr` (`copied`), whatever the
        old block holds. The copy dies of a memory fault when there is
        something to copy and either the mmap failed (MAP_FAILED is written
        to) or `ptr` is NULL (address 0 is read); with nothing to copy the
        mapping, or MAP_FAILED, comes back as is. Otherwise `init` first when
        the layer is idle, then whatever fl_realloc returns (`reallocated`),
        and memcpy is not called here. */
    method Realloc(ptr: Ptr, n: nat, w: World, mmapOk: bool, reallocated: Ptr) returns (r: Block, copied: nat)
      requires Valid() && !exited
      requires !inInit && !initOk ==> Modelled(build, w)
      modifies this, zone
      ensures Valid()
      ensures old(inInit) ==> copied == n && unchanged(this) && unchanged(zone)
      ensures old(inInit) ==> r == if n > 0 && (!mmapOk || ptr.Null?) then Fault else Mmap(n, mmapOk)
      ensures !old(inInit) ==> copied == 0
      ensures !old(inInit) && !old(initOk) && Outcome(build, w).ExitAt? ==>
                exited && inInit && !initOk && r == NoReturn
      ensures !old(inInit) && (old(initOk) || Outcome(build, w).Created?) ==>
                !exited && !inInit && initOk && r == Pointer(reallocated)
    {
      copied := 0;
      if inInit {
        r := Mmap(n, mmapOk);
        copied := n;
        if copied > 0 && (r.MapFailed? || ptr.Null?) {
          r := Fault;
        }
        return;
      }
      if !initOk {
        Init(w);
        if exited {
          return NoReturn, 0;
        }
      }
      var p := Zones.Realloc(zone, ptr, n, reallocated);
      r := Pointer(p);
    }

    /** calloc: NULL when either count is 0; otherwise the product, which
        wraps modulo 2^64 like any `size_t` product, is served as malloc
        serves it (through this layer's own malloc once `init` has run). */
    method Calloc(nm: nat, sz: nat, w: World, mmapOk: bool) returns (r: Block)
      requires Valid() && !exited
      requires !inInit && !initOk ==> Modelled(build, w)
      modifies this, zone, zone.arena
      ensures Valid()
      ensures nm == 0 || sz == 0 ==> r == Pointer(Null) && unchanged(this) && unchanged(zone)
      ensures nm != 0 && sz != 0 && old(inInit) ==>
                r == Mmap((nm * sz) % Zones.SIZE_MOD, mmapOk) && unchanged(this) && unchanged(zone)
      ensures nm != 0 && sz != 0 && !old(inInit) && !old(initOk) && Outcome(build, w).ExitAt? ==>
                exited && inInit && !initOk && r == NoReturn
      ensures nm != 0 && sz != 0 && !old(inInit) && (old(initOk) || Outcome(build, w).Created?) ==>
                && !exited && !inInit && initOk && zone.p.Mapped? && zone.Valid()
                && var a := FreelistModel.Allocate(old(Serving(w)), (nm * sz) % Zones.SIZE_MOD);
                   r == Pointer(a.ptr) && zone.arena.Abs() == a.heap
    {
      if nm == 0 || sz == 0 {
        return Pointer(Null);
      }
      var len := (nm * sz) % Zones.SIZE_MOD;
      if inInit {
        return Mmap(len, mmapOk);
      }
      if !initOk {
        Init(w);
        if exited {
          return NoReturn;
        }
      }
      r := Malloc(len, w, mmapOk);
    }
  }

  /** With the older build, an environment that spells a list of valid
      colour ranges and a size in decimal, with every system step
      succeeding, leads `init` to a zone for exactly the covered colours
      and that many bytes. */
  lemma {:induction false} DecimalEnvironmentCreates(runs: seq<Run>, n: nat, w: World)
    requires runs != [] && ValidRuns(runs) && n <= ULONG_MAX
    requires w.atexitOk && Zones.Reached(w.setup) == 5
    requires w.colorsVar == Some(Render(runs)) && w.sizeVar == Some(Decimal(n))
    ensures Outcome(Parsing, w) == Created(Covered(runs), n)
  {
    RenderParses(runs, {});
    assert {} + Covered(runs) == Covered(runs);
    ParseSizeDecimal(n);
  }
}
