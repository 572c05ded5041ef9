/** The kcache malloc replacement (ccontrol/malloc/malloc.c) as a state
    machine over its global `config` array, one entry per kcache device.
    The entry points lock a mutex, initialise the devices on first use,
    pick the device `pthread_self() % DEVICES` and run the first-fit
    allocator of KcacheModel on it. The allocator here is the corrected
    one (checked request sizes, no read of an empty list, no remnant
    smaller than a record, the successor found at the block's end in
    bytes, realloc and calloc checked); KcacheModel keeps the code as
    written beside it. What the system does for init (atexit, open, mmap)
    arrives as an Env; the thread's identity as a number. */
module Kcache {
  import opened CStdlib
  import opened KcacheModel

  /** What init receives from the system: whether atexit succeeds, the
      descriptor each open returns (-1 on failure) and the address each
      mmap returns. */
  datatype Env = Env(atexitOk: bool, fds: seq<int>, maps: seq<nat>)

  predicate WellFormed(env: Env)
  {
    |env.fds| == DEVICES && |env.maps| == DEVICES
  }

  /** A device whose free list and blocks keep the allocator's
      invariants. */
  ghost predicate Ready(d: Dev)
  {
    d.size == DEVICE_SIZE && Sound(d)
  }

  /** The whole `config`: every device ready, and nothing mapped or handed
      out while the first device has no descriptor (init stops at the
      first failure, and the first device is the first it opens). */
  ghost predicate Healthy(cs: seq<Dev>)
  {
    && |cs| == DEVICES
    && (forall i | 0 <= i < DEVICES :: Ready(cs[i]))
    && (cs[0].fd == -1 ==> forall i | 0 <= i < DEVICES :: cs[i].list == [] && cs[i].hdr == map[])
  }

  /** What init leaves in `config` and whether it reports failure. */
  datatype Setup = Setup(cs: seq<Dev>, failed: bool)

  /** init's loop from device `i`: open, map, and lay one free region over
      the device, until the first open or mmap that fails. */
  function Opened(cs: seq<Dev>, env: Env, i: nat): (s: Setup)
    requires |cs| == DEVICES && WellFormed(env) && i <= DEVICES
    ensures |s.cs| == DEVICES
    ensures forall j | 0 <= j < i :: s.cs[j] == cs[j]
    ensures !s.failed ==> forall j | i <= j < DEVICES :: s.cs[j].fd == env.fds[j] && Head(s.cs[j]) == env.maps[j]
    decreases DEVICES - i
  {
    if i == DEVICES then Setup(cs, false)
    else if env.fds[i] == -1 then Setup(cs, true)
    else if !MapAcceptedFixed(env.maps[i]) then Setup(cs[i := cs[i].(fd := env.fds[i])], true)
    else Opened(cs[i := Mapped(cs[i], env.fds[i], env.maps[i])], env, i + 1)
  }

  /** test_init: init runs while the first device has no descriptor. */
  function Tested(cs: seq<Dev>, env: Env): (s: Setup)
    requires |cs| == DEVICES && WellFormed(env)
    ensures |s.cs| == DEVICES
  {
    if cs[0].fd == -1 then Opened(cs, env, 0) else Setup(cs, false)
  }

  /** A device freshly mapped with no block handed out is ready. */
  lemma MappedReady(d: Dev, fd: int, base: nat)
    requires d.size == DEVICE_SIZE && d.hdr == map[]
    ensures Ready(Mapped(d, fd, base))
  {
  }

  /** init keeps `config` healthy, from a state where the devices it has
      still to map hold no block. */
  lemma {:induction false} OpenedHealthy(cs: seq<Dev>, env: Env, i: nat)
    requires Healthy(cs) && WellFormed(env) && i <= DEVICES
    requires i > 0 ==> cs[0].fd != -1
    requires forall j | i <= j < DEVICES :: cs[j].hdr == map[]
    ensures Healthy(Opened(cs, env, i).cs)
    decreases DEVICES - i
  {
    if i < DEVICES && env.fds[i] != -1 {
      if MapAcceptedFixed(env.maps[i]) {
        var cs' := cs[i := Mapped(cs[i], env.fds[i], env.maps[i])];
        MappedReady(cs[i], env.fds[i], env.maps[i]);
        assert forall j | 0 <= j < DEVICES :: Ready(cs'[j]);
        OpenedHealthy(cs', env, i + 1);
      } else {
        var cs' := cs[i := cs[i].(fd := env.fds[i])];
        assert forall j | 0 <= j < DEVICES :: Ready(cs'[j]);
      }
    }
  }

  /** test_init keeps `config` healthy. */
  lemma TestedHealthy(cs: seq<Dev>, env: Env)
    requires Healthy(cs) && WellFormed(env)
    ensures Healthy(Tested(cs, env).cs)
  {
    if cs[0].fd == -1 {
      OpenedHealthy(cs, env, 0);
    }
  }

  /** The pointer an allocation gives the caller: the block, or NULL. */
  function PtrOf(a: Alloc): (p: nat)
    ensures a.Block? ==> p == a.ptr
    ensures !a.Block? ==> p == 0
  {
    if a.Block? then a.ptr else 0
  }

  /** What realloc leaves on its device, the pointer it returns and the
      bytes it copies, once the pointer and the size are both nonzero. */
  datatype Resize = Resize(dev: Dev, ptr: nat, copied: nat)

  function Resized(d: Dev, ptr: nat, n: nat): (r: Resize)
    requires Live(d, ptr)
    ensures r.ptr == 0 ==> r.dev == d
  {
    var h := d.hdr[ptr - HEADER_SIZE];
    if KeepsInPlaceFixed(h, n) then Resize(d, ptr, 0)
    else
      var g := AllocatedFixed(d, n);
      if g.res.Block? then
        var h' := g.dev.hdr[g.res.ptr - HEADER_SIZE];
        Resize(DestroyedFixed(g.dev, ptr), g.res.ptr, CopyLengthFixed(h, h'))
      else Resize(d, 0, 0)
  }

  /** A block handed out or kept by realloc is live and holds `n`
      bytes. */
  ghost predicate Grants(d: Dev, p: nat, n: nat)
  {
    p != 0 ==> Live(d, p) && d.hdr[p - HEADER_SIZE] >= n + HEADER_SIZE
  }

  /** realloc's block holds the new size, and the copy fits both blocks. */
  lemma ResizedGrants(d: Dev, ptr: nat, n: nat)
    requires Sound(d) && Live(d, ptr)
    ensures var r := Resized(d, ptr, n);
            Grants(r.dev, r.ptr, n) && r.copied + HEADER_SIZE <= d.hdr[ptr - HEADER_SIZE]
  {
    var h := d.hdr[ptr - HEADER_SIZE];
    if KeepsInPlaceFixed(h, n) {
      KeepsInPlaceFixedHolds(h, n);
    } else {
      if AllocatedFixed(d, n).res.Block? {
        MovedGrants(d, ptr, n);
      }
    }
  }

  /** The new block survives the destroy of the old one. */
  lemma MovedGrants(d: Dev, ptr: nat, n: nat)
    requires Sound(d) && Live(d, ptr) && AllocatedFixed(d, n).res.Block?
    ensures var g := AllocatedFixed(d, n);
            Grants(DestroyedFixed(g.dev, ptr), g.res.ptr, n)
  {
    var g := AllocatedFixed(d, n);
    AllocatedFixedSound(d, n);
    var a := g.res.ptr - HEADER_SIZE;
    var d' := DestroyedFixed(g.dev, ptr);
    assert a != ptr - HEADER_SIZE;
    assert d'.hdr == g.dev.hdr - {ptr - HEADER_SIZE};
    assert a in d'.hdr && d'.hdr[a] == g.dev.hdr[a];
  }

  /** What an entry point leaves in `config` and the pointer it returns. */
  datatype Served = Served(cs: seq<Dev>, ptr: nat)

  /** malloc once the process goes on: test_init, then the corrected
      allocate on device `dev` unless init failed. */
  function Malloced(cs: seq<Dev>, env: Env, dev: nat, n: nat): (r: Served)
    requires |cs| == DEVICES && WellFormed(env) && dev < DEVICES
    ensures |r.cs| == DEVICES
  {
    var s := Tested(cs, env);
    if s.failed then Served(s.cs, 0)
    else
      var g := AllocatedFixed(s.cs[dev], n);
      Served(s.cs[dev := g.dev], PtrOf(g.res))
  }

  /** malloc keeps `config` healthy and its block holds `n` bytes. */
  lemma MallocedHealthy(cs: seq<Dev>, env: Env, dev: nat, n: nat)
    requires Healthy(cs) && WellFormed(env) && dev < DEVICES
    ensures var r := Malloced(cs, env, dev, n);
            Healthy(r.cs) && Grants(r.cs[dev], r.ptr, n)
  {
    TestedHealthy(cs, env);
    var s := Tested(cs, env);
    if !s.failed {
      AllocatedHealthy(s.cs, dev, n);
    }
  }

  /** calloc once the process goes on: NULL for a zero count or size
      before anything else; test_init; NULL (corrected) for a product past
      ULONG_MAX; otherwise the corrected allocate of the product. */
  function Calloced(cs: seq<Dev>, env: Env, dev: nat, nm: nat, sz: nat): (r: Served)
    requires |cs| == DEVICES && WellFormed(env) && dev < DEVICES
    ensures |r.cs| == DEVICES
  {
    if nm == 0 || sz == 0 then Served(cs, 0)
    else if CallocSizeChecked(nm, sz).None? then Served(Tested(cs, env).cs, 0)
    else Malloced(cs, env, dev, nm * sz)
  }

  /** calloc keeps `config` healthy and its block holds `nm * sz`
      bytes. */
  lemma CallocedHealthy(cs: seq<Dev>, env: Env, dev: nat, nm: nat, sz: nat)
    requires Healthy(cs) && WellFormed(env) && dev < DEVICES
    ensures var r := Calloced(cs, env, dev, nm, sz);
            Healthy(r.cs) && Grants(r.cs[dev], r.ptr, nm * sz)
  {
    if nm != 0 && sz != 0 {
      TestedHealthy(cs, env);
      MallocedHealthy(cs, env, dev, nm * sz);
    }
  }

  /** The calls cleanup makes for one device: munmap of its list's head
      when there is one, then close of its descriptor when it has one. */
  datatype Call = Munmap(addr: nat, len: nat) | Close(fd: int)

  function DeviceCalls(d: Dev): (c: seq<Call>)
    ensures Close(d.fd) in c <==> d.fd != -1
    ensures Munmap(Head(d), d.size) in c <==> d.list != []
    ensures |c| <= 2
  {
    (if d.list != [] then [Munmap(Head(d), d.size)] else []) + (if d.fd != -1 then [Close(d.fd)] else [])
  }

  /** cleanup's calls, device by device. */
  function CleanupCalls(cs: seq<Dev>): (c: seq<Call>)
    ensures |c| <= 2 * |cs|
  {
    if cs == [] then [] else CleanupCalls(cs[..|cs| - 1]) + DeviceCalls(cs[|cs| - 1])
  }

  /** cleanup's calls for one more device. */
  lemma CleanupStep(cs: seq<Dev>, i: nat)
    requires i < |cs|
    ensures CleanupCalls(cs[..i + 1]) == CleanupCalls(cs[..i]) + DeviceCalls(cs[i])
  {
    assert cs[..i + 1][..i] == cs[..i];
  }

  /** Every open descriptor is closed, and only those. */
  lemma {:induction false} CleanupCloses(cs: seq<Dev>, fd: int)
    requires fd != -1
    ensures Close(fd) in CleanupCalls(cs) <==> exists i | 0 <= i < |cs| :: cs[i].fd == fd
  {
    if cs != [] {
      var front := cs[..|cs| - 1];
      CleanupCloses(front, fd);
      var c := CleanupCalls(cs);
      assert c == CleanupCalls(front) + DeviceCalls(cs[|cs| - 1]);
      if exists i | 0 <= i < |cs| :: cs[i].fd == fd {
        var i :| 0 <= i < |cs| && cs[i].fd == fd;
        if i < |cs| - 1 {
          assert front[i] == cs[i];
        }
      }
      if exists i | 0 <= i < |front| :: front[i].fd == fd {
        var i :| 0 <= i < |front| && front[i].fd == fd;
        assert cs[i] == front[i];
      }
    }
  }

  class Allocator {
    /** `config`: one entry per device. */
    const config: array<Dev>

    /** The process has called exit. */
    var exited: bool

    ghost predicate Valid()
      reads this, config
    {
      config.Length == DEVICES && Healthy(config[..])
    }

    /** Every device unopened: no descriptor, nothing mapped. */
    constructor ()
      ensures Valid() && !exited
      ensures fresh(config)
      ensures forall i | 0 <= i < DEVICES :: config[i] == Dev(DEVICE_SIZE, -1, [], map[])
    {
      config := new Dev[DEVICES](_ => Dev(DEVICE_SIZE, -1, [], map[]));
      exited := false;
    }

    /** find_fit: a do-while over the list from its head, so the list
        must hold a record. */
    method FindFit(dev: nat, want: nat) returns (k: nat)
      requires dev < config.Length && config[dev].list != []
      ensures k == FirstFit(config[dev].list, want)
    {
      var l := config[dev].list;
      k := 0;
      while true
        invariant k < |l|
        invariant forall j | 0 <= j < k :: l[j].size < want
        decreases |l| - k
      {
        if l[k].size >= want {
          FirstFitUnique(l, want, k);
          return;
        }
        k := k + 1;
        if k == |l| {
          FirstFitUnique(l, want, k);
          return;
        }
      }
    }

    /** find_previous: the first region ending where `f` starts. */
    method FindPrevious(dev: nat, f: nat) returns (k: nat)
      requires dev < config.Length
      ensures k == KcacheModel.FindPrevious(config[dev].list, f)
    {
      var l := config[dev].list;
      k := 0;
      while k < |l|
        invariant k <= |l|
        invariant forall j | 0 <= j < k :: l[j].End() != f
      {
        if l[k].End() == f {
          FindPreviousUnique(l, f, k);
          return;
        }
        k := k + 1;
      }
      FindPreviousUnique(l, f, k);
    }

    /** find_next: the first region starting at `t`. */
    method FindNext(dev: nat, t: nat) returns (k: nat)
      requires dev < config.Length
      ensures k == KcacheModel.FindNext(config[dev].list, t)
    {
      var l := config[dev].list;
      k := 0;
      while k < |l|
        invariant k <= |l|
        invariant forall j | 0 <= j < k :: l[j].addr != t
      {
        if l[k].addr == t {
          FindNextUnique(l, t, k);
          return;
        }
        k := k + 1;
      }
      FindNextUnique(l, t, k);
    }

    /** extract: unlink region `k` (its predecessor is region `k - 1`). */
    method Extract(dev: nat, k: nat)
      requires dev < config.Length && k < |config[dev].list|
      modifies config
      ensures config[..] == old(config[..])[dev := old(config[dev]).(list := Remove(old(config[dev]).list, k))]
    {
      var d := config[dev];
      if |d.list| == 1 {
        // the only record: the list becomes empty
        config[dev] := d.(list := []);
      } else if k == 0 {
        // the head: the list starts at its successor
        assert d.list[1..] == Remove(d.list, 0);
        config[dev] := d.(list := d.list[1..]);
      } else {
        // the predecessor links past it
        config[dev] := d.(list := d.list[..k] + d.list[k + 1..]);
      }
    }

    /** insert: the region goes to the front of the list. */
    method Insert(dev: nat, fr: Region)
      requires dev < config.Length
      modifies config
      ensures config[..] == old(config[..])[dev := old(config[dev]).(list := [fr] + old(config[dev]).list)]
    {
      config[dev] := config[dev].(list := [fr] + config[dev].list);
    }

    /** allocate, corrected: the block handed out and the new state of the
        device are those of AllocatedFixed. */
    method Allocate(dev: nat, n: nat) returns (p: nat)
      requires dev < config.Length
      modifies config
      ensures config[..] == old(config[..])[dev := AllocatedFixed(old(config[dev]), n).dev]
      ensures p == PtrOf(AllocatedFixed(old(config[dev]), n).res)
    {
      var d := config[dev];
      var req := RequestChecked(n);
      if req.None? || req.value > d.size || d.list == [] {
        return 0;
      }
      var r := req.value;
      var k := FindFit(dev, r);
      if k == |d.list| {
        return 0;
      }
      var node := d.list[k];
      if node.size - r < MIN_SIZE {
        Extract(dev, k);
        config[dev] := config[dev].(hdr := d.hdr[node.addr := node.size]);
        p := node.addr + HEADER_SIZE;
        assert config[dev] == Whole(d, k).dev;
      } else {
        var rest := node.size - r;
        config[dev] := d.(list := d.list[k := Region(node.addr, rest)], hdr := d.hdr[node.addr + rest := r]);
        p := node.addr + rest + HEADER_SIZE;
        assert config[dev] == Split(d, k, r).dev;
      }
    }

    /** destroy, corrected: the device afterwards is DestroyedFixed of the
        one before. */
    method Destroy(dev: nat, ptr: nat)
      requires dev < config.Length && Live(config[dev], ptr)
      modifies config
      ensures config[..] == old(config[..])[dev := DestroyedFixed(old(config[dev]), ptr)]
    {
      var d := config[dev];
      var f := ptr - HEADER_SIZE;
      var it := MergeBefore(dev, Region(f, d.hdr[f]));
      it := MergeAfter(dev, it);
      Insert(dev, it);
      config[dev] := config[dev].(hdr := d.hdr - {f});
    }

    /** destroy's first half: a region ending where `fr` starts leaves the
        list and takes `fr` in. */
    method MergeBefore(dev: nat, fr: Region) returns (it: Region)
      requires dev < config.Length
      modifies config
      ensures var m := MergePrev(old(config[dev]).list, fr);
              config[..] == old(config[..])[dev := old(config[dev]).(list := m.rest)] && it == m.it
    {
      it := fr;
      var k := FindPrevious(dev, fr.addr);
      if k < |config[dev].list| {
        var before := config[dev].list[k];
        Extract(dev, k);
        it := Region(before.addr, before.size + fr.size);
      }
    }

    /** destroy's second half: a region starting where `it` ends leaves the
        list and is merged in. */
    method MergeAfter(dev: nat, it: Region) returns (it': Region)
      requires dev < config.Length
      modifies config
      ensures var m := MergeNext(old(config[dev]).list, it, Successor(it, false));
              config[..] == old(config[..])[dev := old(config[dev]).(list := m.rest)] && it' == m.it
    {
      it' := it;
      var k := FindNext(dev, it.End());
      if k < |config[dev].list| {
        var after := config[dev].list[k];
        Extract(dev, k);
        it' := Region(it.addr, it.size + after.size);
      }
    }

    /** init: register cleanup, then open and map every device in turn,
        stopping at the first failure. When atexit fails the process
        exits. */
    method Init(env: Env) returns (failed: bool)
      requires config.Length == DEVICES && WellFormed(env) && !exited
      modifies this, config
      ensures exited == !env.atexitOk
      ensures exited ==> config[..] == old(config[..])
      ensures !exited ==> config[..] == Opened(old(config[..]), env, 0).cs && failed == Opened(old(config[..]), env, 0).failed
    {
      ghost var cs := config[..];
      if !env.atexitOk {
        exited := true;
        return true;
      }
      var i := 0;
      while i < DEVICES
        invariant 0 <= i <= DEVICES
        invariant Opened(config[..], env, i) == Opened(cs, env, 0)
        invariant !exited
      {
        ghost var before := config[..];
        var fd := env.fds[i];
        if fd == -1 {
          return true;
        }
        config[i] := config[i].(fd := fd);
        assert config[..] == before[i := before[i].(fd := fd)];
        var m := env.maps[i];
        if !MapAcceptedFixed(m) {
          return true;
        }
        config[i] := Mapped(config[i], fd, m);
        assert config[..] == before[i := Mapped(before[i], fd, m)];
        i := i + 1;
      }
      return false;
    }

    /** test_init: init runs only while the first device has no
        descriptor. */
    method TestInit(env: Env) returns (failed: bool)
      requires Valid() && WellFormed(env) && !exited
      modifies this, config
      ensures Valid()
      ensures exited <==> old(config[0].fd) == -1 && !env.atexitOk
      ensures exited ==> config[..] == old(config[..])
      ensures !exited ==> config[..] == Tested(old(config[..]), env).cs && failed == Tested(old(config[..]), env).failed
    {
      if config[0].fd == -1 {
        TestedHealthy(config[..], env);
        failed := Init(env);
      } else {
        failed := false;
      }
    }

    /** malloc: NULL when init fails; otherwise the corrected allocate on
        the thread's device. */
    method Malloc(n: nat, tid: nat, env: Env) returns (p: nat)
      requires Valid() && WellFormed(env) && !exited
      modifies this, config
      ensures Valid()
      ensures exited <==> old(config[0].fd) == -1 && !env.atexitOk
      ensures exited ==> config[..] == old(config[..]) && p == 0
      ensures !exited ==> Served(config[..], p) == Malloced(old(config[..]), env, tid % DEVICES, n)
      ensures Grants(config[tid % DEVICES], p, n)
    {
      MallocedHealthy(config[..], env, tid % DEVICES, n);
      var failed := TestInit(env);
      if exited || failed {
        return 0;
      }
      p := Allocate(tid % DEVICES, n);
    }

    /** free: nothing for NULL; otherwise the corrected destroy on the
        thread's device, which must be the one the block came from. */
    method Free(ptr: nat, tid: nat, env: Env)
      requires Valid() && WellFormed(env) && !exited
      requires ptr == 0 || Live(config[tid % DEVICES], ptr)
      modifies this, config
      ensures Valid() && !exited
      ensures ptr == 0 ==> config[..] == old(config[..])
      ensures ptr != 0 ==> config[..] == old(config[..])[tid % DEVICES := DestroyedFixed(old(config[tid % DEVICES]), ptr)]
    {
      if ptr == 0 {
        return;
      }
      LiveOpened(config[..], tid % DEVICES, ptr);
      var failed := TestInit(env);
      DestroyedHealthy(config[..], tid % DEVICES, ptr);
      Destroy(tid % DEVICES, ptr);
    }

    /** realloc: malloc for NULL, free and NULL for size 0; otherwise the
        block is kept when allocate would ask for its exact size, or the
        contents move to a new block and the old one is destroyed.
        `copied` is the length memcpy is given. */
    method Realloc(ptr: nat, n: nat, tid: nat, env: Env) returns (p: nat, copied: nat)
      requires Valid() && WellFormed(env) && !exited
      requires ptr == 0 || Live(config[tid % DEVICES], ptr)
      modifies this, config
      ensures Valid()
      ensures ptr != 0 ==> !exited
      ensures ptr == 0 && !exited ==> Served(config[..], p) == Malloced(old(config[..]), env, tid % DEVICES, n)
      ensures ptr != 0 && n == 0 ==>
                p == 0 && config[..] == old(config[..])[tid % DEVICES := DestroyedFixed(old(config[tid % DEVICES]), ptr)]
      ensures ptr != 0 && n != 0 ==>
                var r := Resized(old(config[tid % DEVICES]), ptr, n);
                config[..] == old(config[..])[tid % DEVICES := r.dev] && p == r.ptr && copied == r.copied
      ensures Grants(config[tid % DEVICES], p, n)
    {
      copied := 0;
      if ptr == 0 {
        p := Malloc(n, tid, env);
        return;
      }
      if n == 0 {
        Free(ptr, tid, env);
        return 0, 0;
      }
      p, copied := Resize(ptr, n, tid, env);
    }

    /** realloc of a live block to a nonzero size. */
    method Resize(ptr: nat, n: nat, tid: nat, env: Env) returns (p: nat, copied: nat)
      requires Valid() && WellFormed(env) && !exited
      requires n != 0 && Live(config[tid % DEVICES], ptr)
      modifies this, config
      ensures Valid() && !exited
      ensures var r := Resized(old(config[tid % DEVICES]), ptr, n);
              config[..] == old(config[..])[tid % DEVICES := r.dev] && p == r.ptr && copied == r.copied
      ensures Grants(config[tid % DEVICES], p, n)
    {
      var dev := tid % DEVICES;
      LiveOpened(config[..], dev, ptr);
      ResizedHealthy(config[..], dev, ptr, n);
      ResizedGrants(config[dev], ptr, n);
      var failed := TestInit(env);
      p, copied := Move(dev, ptr, n);
    }

    /** The block kept, or moved to a new one and destroyed. */
    method Move(dev: nat, ptr: nat, n: nat) returns (p: nat, copied: nat)
      requires dev < config.Length && Live(config[dev], ptr)
      modifies config
      ensures var r := Resized(old(config[dev]), ptr, n);
              config[..] == old(config[..])[dev := r.dev] && p == r.ptr && copied == r.copied
    {
      var d := config[dev];
      var h := d.hdr[ptr - HEADER_SIZE];
      if KeepsInPlaceFixed(h, n) {
        return ptr, 0;
      }
      p := Allocate(dev, n);
      copied := 0;
      if p != 0 {
        var h' := config[dev].hdr[p - HEADER_SIZE];
        copied := CopyLengthFixed(h, h');
        Destroy(dev, ptr);
      }
    }

    /** calloc: NULL for a zero count or size, and (corrected) for a
        product past ULONG_MAX; otherwise allocate of the product. The
        zeroing of the block is not modelled. */
    method Calloc(nm: nat, sz: nat, tid: nat, env: Env) returns (p: nat)
      requires Valid() && WellFormed(env) && !exited
      modifies this, config
      ensures Valid()
      ensures nm == 0 || sz == 0 ==> p == 0 && config[..] == old(config[..]) && !exited
      ensures exited <==> nm != 0 && sz != 0 && old(config[0].fd) == -1 && !env.atexitOk
      ensures exited ==> config[..] == old(config[..]) && p == 0
      ensures !exited ==> Served(config[..], p) == Calloced(old(config[..]), env, tid % DEVICES, nm, sz)
      ensures Grants(config[tid % DEVICES], p, nm * sz)
    {
      if nm == 0 || sz == 0 {
        return 0;
      }
      CallocedHealthy(config[..], env, tid % DEVICES, nm, sz);
      var failed := TestInit(env);
      if exited || failed {
        return 0;
      }
      var v := CallocSizeChecked(nm, sz);
      if v.None? {
        return 0;
      }
      p := Allocate(tid % DEVICES, v.value);
    }

    /** cleanup: the munmap and close calls it makes. munmap is given the
        list's head, as the code does. */
    method Cleanup() returns (calls: seq<Call>)
      requires config.Length == DEVICES
      ensures calls == CleanupCalls(config[..])
    {
      calls := [];
      var i := 0;
      while i < DEVICES
        invariant 0 <= i <= DEVICES
        invariant calls == CleanupCalls(config[..i])
      {
        var d := config[i];
        ghost var before := calls;
        if d.list != [] {
          calls := calls + [Munmap(Head(d), d.size)];
        }
        if d.fd != -1 {
          calls := calls + [Close(d.fd)];
        }
        assert calls == before + DeviceCalls(d);
        CleanupStep(config[..], i);
        i := i + 1;
      }
      assert config[..DEVICES] == config[..];
    }
  }

  /** The first fit is the index before which no region fits and at which
      one does (or the end). */
  lemma FirstFitUnique(l: seq<Region>, want: nat, k: nat)
    requires k <= |l| && (k < |l| ==> l[k].size >= want)
    requires forall j | 0 <= j < k :: l[j].size < want
    ensures k == FirstFit(l, want)
  {
  }

  lemma FindPreviousUnique(l: seq<Region>, f: nat, k: nat)
    requires k <= |l| && (k < |l| ==> l[k].End() == f)
    requires forall j | 0 <= j < k :: l[j].End() != f
    ensures k == FindPrevious(l, f)
  {
  }

  lemma FindNextUnique(l: seq<Region>, t: nat, k: nat)
    requires k <= |l| && (k < |l| ==> l[k].addr == t)
    requires forall j | 0 <= j < k :: l[j].addr != t
    ensures k == FindNext(l, t)
  {
  }

  /** A live block means the first device has a descriptor. */
  lemma LiveOpened(cs: seq<Dev>, dev: nat, ptr: nat)
    requires Healthy(cs) && dev < DEVICES && Live(cs[dev], ptr)
    ensures cs[0].fd != -1
  {
    assert ptr - HEADER_SIZE in cs[dev].hdr;
  }

  /** The corrected allocate keeps `config` healthy, and a block it hands
      out holds the bytes asked for. */
  lemma AllocatedHealthy(cs: seq<Dev>, dev: nat, n: nat)
    requires Healthy(cs) && dev < DEVICES
    ensures var g := AllocatedFixed(cs[dev], n);
            Healthy(cs[dev := g.dev]) && Grants(g.dev, PtrOf(g.res), n)
  {
    var g := AllocatedFixed(cs[dev], n);
    AllocatedFixedSound(cs[dev], n);
    if g.res.Block? {
      assert PtrOf(g.res) == g.res.ptr;
    }
    KeepHealthy(cs, dev, g.dev);
  }

  /** The corrected destroy keeps `config` healthy. */
  lemma DestroyedHealthy(cs: seq<Dev>, dev: nat, ptr: nat)
    requires Healthy(cs) && dev < DEVICES && Live(cs[dev], ptr)
    ensures Healthy(cs[dev := DestroyedFixed(cs[dev], ptr)])
  {
    DestroyedFixedSound(cs[dev], ptr);
    LiveOpened(cs, dev, ptr);
    KeepHealthy(cs, dev, DestroyedFixed(cs[dev], ptr));
  }

  /** realloc keeps `config` healthy. */
  lemma ResizedHealthy(cs: seq<Dev>, dev: nat, ptr: nat, n: nat)
    requires Healthy(cs) && dev < DEVICES && Live(cs[dev], ptr)
    ensures Healthy(cs[dev := Resized(cs[dev], ptr, n).dev])
  {
    var d := cs[dev];
    var h := d.hdr[ptr - HEADER_SIZE];
    if !KeepsInPlaceFixed(h, n) {
      var g := AllocatedFixed(d, n);
      AllocatedFixedSound(d, n);
      if g.res.Block? {
        DestroyedFixedSound(g.dev, ptr);
        LiveOpened(cs, dev, ptr);
        KeepHealthy(cs, dev, DestroyedFixed(g.dev, ptr));
      }
    }
  }

  /** Replacing one ready device keeps `config` healthy when the first
      device has a descriptor or the new device holds nothing. */
  lemma KeepHealthy(cs: seq<Dev>, dev: nat, d: Dev)
    requires Healthy(cs) && dev < DEVICES && Ready(d) && d.fd == cs[dev].fd
    requires cs[0].fd == -1 ==> d.list == [] && d.hdr == map[]
    ensures Healthy(cs[dev := d])
  {
  }
}
