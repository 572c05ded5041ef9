/** Physical pages as the two kernel modules of ccontrol see them: frame
    numbers, the heads (blocks of 2^order consecutive frames) the modules
    reserve, the arithmetic that sizes them, and the page-fault rule both
    modules share. The page colour (PFN_TO_COLOR) comes from a header that is
    not part of this model, so it is a parameter `color` everywhere. */
module Frames {
  import opened CStdlib

  /** A physical page, by its frame number. */
  type Page = nat

  /** PAGE_SIZE on the builds considered. */
  const PAGE_SIZE: nat := 4096

  /** Arithmetic on `unsigned int` is modulo this. */
  const UINT_MOD: nat := 0x1_0000_0000

  /** The kernel's error numbers the modules return, negated. */
  const ENOMEM: int := -12
  const EPERM: int := -1
  const EINVAL: int := -22

  predicate IsPow2(w: nat)
    decreases w
  {
    w == 1 || (w >= 2 && w % 2 == 0 && IsPow2(w / 2))
  }

  /** 1 << get_order(n * PAGE_SIZE): the pages in the smallest power-of-two
      block that holds `n` pages. */
  function HeadPages(n: nat): (w: nat)
    ensures IsPow2(w) && w >= 1 && w >= n
    ensures n >= 1 ==> w < 2 * n
  {
    Widen(n, 1)
  }

  function Widen(n: nat, w: nat): (r: nat)
    requires IsPow2(w) && (n >= 1 ==> w < 2 * n)
    ensures IsPow2(r) && r >= w && r >= n
    ensures n >= 1 ==> r < 2 * n
    decreases n - w
  {
    if w >= n then w
    else
      assert IsPow2(2 * w) by { assert (2 * w) / 2 == w; }
      Widen(n, 2 * w)
  }

  /** The pages of one head: nth_page(head, j) for j < w. */
  function Run(h: Page, w: nat): (r: seq<Page>)
    ensures |r| == w
  {
    seq(w, j => h + j)
  }

  /** All pages of the heads `hs`, head by head. */
  function Spread(hs: seq<Page>, w: nat): seq<Page>
  {
    if hs == [] then [] else Spread(hs[..|hs| - 1], w) + Run(hs[|hs| - 1], w)
  }

  lemma SpreadPush(hs: seq<Page>, h: Page, w: nat)
    ensures Spread(hs + [h], w) == Spread(hs, w) + Run(h, w)
  {
    assert (hs + [h])[..|hs|] == hs;
  }

  lemma SpreadOne(h: Page, w: nat)
    ensures Spread([h], w) == Run(h, w)
  {
    assert [h][..0] == [];
  }

  lemma {:induction false} SpreadAppend(a: seq<Page>, b: seq<Page>, w: nat)
    ensures Spread(a + b, w) == Spread(a, w) + Spread(b, w)
    decreases |b|
  {
    if b == [] {
      assert a + b == a;
    } else {
      var b', h := b[..|b| - 1], b[|b| - 1];
      assert b == b' + [h];
      assert a + b == (a + b') + [h];
      SpreadAppend(a, b', w);
      SpreadPush(a + b', h, w);
      SpreadPush(b', h, w);
    }
  }

  /** The pages of `ps`, in order, whose key is `k`. */
  function Having(ps: seq<Page>, key: Page -> nat, k: nat): (r: seq<Page>)
    ensures |r| <= |ps|
  {
    if ps == [] then []
    else
      var init := ps[..|ps| - 1];
      Having(init, key, k) + (if key(ps[|ps| - 1]) == k then [ps[|ps| - 1]] else [])
  }

  /** The filter keeps exactly the pages of `ps` whose key is `k`. */
  lemma {:induction false} HavingMembers(ps: seq<Page>, key: Page -> nat, k: nat)
    ensures forall p | p in Having(ps, key, k) :: p in ps && key(p) == k
    ensures forall p | p in ps && key(p) == k :: p in Having(ps, key, k)
    decreases |ps|
  {
    if ps != [] {
      var init := ps[..|ps| - 1];
      assert ps == init + [ps[|ps| - 1]];
      HavingMembers(init, key, k);
    }
  }

  lemma HavingPush(ps: seq<Page>, p: Page, key: Page -> nat, k: nat)
    ensures Having(ps + [p], key, k) == Having(ps, key, k) + (if key(p) == k then [p] else [])
  {
    assert (ps + [p])[..|ps|] == ps;
  }

  /** Filtering distributes over concatenation. */
  lemma {:induction false} HavingAppend(a: seq<Page>, b: seq<Page>, key: Page -> nat, k: nat)
    ensures Having(a + b, key, k) == Having(a, key, k) + Having(b, key, k)
    decreases |b|
  {
    if b == [] {
      assert a + b == a;
    } else {
      var b' := b[..|b| - 1];
      var p := b[|b| - 1];
      assert b == b' + [p];
      assert a + b == (a + b') + [p];
      HavingAppend(a, b', key, k);
      HavingPush(a + b', p, key, k);
      HavingPush(b', p, key, k);
    }
  }

  /** The pages in the first `n` bins of a table of page stacks. */
  function Pooled(s: seq<seq<Page>>, n: nat): multiset<Page>
    requires n <= |s|
  {
    if n == 0 then multiset{} else Pooled(s, n - 1) + multiset(s[n - 1])
  }

  /** A table whose bins below `n` are empty pools nothing. */
  lemma {:induction false} PooledEmpty(s: seq<seq<Page>>, n: nat)
    requires n <= |s| && forall c | 0 <= c < n :: s[c] == []
    ensures Pooled(s, n) == multiset{}
  {
    if n > 0 {
      PooledEmpty(s, n - 1);
    }
  }

  /** The pages of `ps` whose key is below `n`, gathered bin by bin. */
  function Binned(ps: seq<Page>, key: Page -> nat, n: nat): multiset<Page>
  {
    if n == 0 then multiset{} else Binned(ps, key, n - 1) + multiset(Having(ps, key, n - 1))
  }

  lemma {:induction false} BinnedPush(ps: seq<Page>, p: Page, key: Page -> nat, n: nat)
    ensures Binned(ps + [p], key, n) == Binned(ps, key, n) + (if key(p) < n then multiset{p} else multiset{})
  {
    if n > 0 {
      BinnedPush(ps, p, key, n - 1);
      HavingPush(ps, p, key, n - 1);
    }
  }

  /** Sorting pages into bins by a key below `n` loses and invents none. */
  lemma {:induction false} BinnedWhole(ps: seq<Page>, key: Page -> nat, n: nat)
    requires forall p | p in ps :: key(p) < n
    ensures Binned(ps, key, n) == multiset(ps)
    decreases |ps|
  {
    if ps == [] {
      BinnedEmpty(key, n);
    } else {
      var init := ps[..|ps| - 1];
      assert ps == init + [ps[|ps| - 1]];
      BinnedWhole(init, key, n);
      BinnedPush(init, ps[|ps| - 1], key, n);
    }
  }

  lemma {:induction false} BinnedEmpty(key: Page -> nat, n: nat)
    ensures Binned([], key, n) == multiset{}
  {
    if n > 0 {
      BinnedEmpty(key, n - 1);
    }
  }

  /** When every bin of `t` is the bin of `s` plus the pages of `ps` with
      that key, the table as a whole grew by exactly `ps`. */
  lemma {:induction false} PooledGrows(s: seq<seq<Page>>, t: seq<seq<Page>>, ps: seq<Page>, key: Page -> nat, n: nat)
    requires n <= |s| && n <= |t|
    requires forall c | 0 <= c < n :: multiset(t[c]) == multiset(s[c]) + multiset(Having(ps, key, c))
    ensures Pooled(t, n) == Pooled(s, n) + Binned(ps, key, n)
  {
    if n > 0 {
      PooledGrows(s, t, ps, key, n - 1);
      var a, b, x, y := Pooled(s, n - 1), Binned(ps, key, n - 1), multiset(s[n - 1]), multiset(Having(ps, key, n - 1));
      assert Pooled(t, n) == (a + b) + (x + y);
      assert (a + b) + (x + y) == (a + x) + (b + y);
    }
  }

  /** A table whose bins below `n` are unchanged pools the same pages. */
  lemma {:induction false} PooledSame(s: seq<seq<Page>>, t: seq<seq<Page>>, n: nat)
    requires n <= |s| && n <= |t|
    requires forall c | 0 <= c < n :: multiset(t[c]) == multiset(s[c])
    ensures Pooled(t, n) == Pooled(s, n)
  {
    if n > 0 {
      PooledSame(s, t, n - 1);
    }
  }

  /** Quotient and remainder are unique. */
  lemma DivModUnique(a: int, k: int, q: int, r: int)
    requires k > 0 && 0 <= r < k && a == q * k + r
    ensures a / k == q && a % k == r
  {
    var q', r' := a / k, a % k;
    assert a == q' * k + r';
    var d := q - q';
    assert d * k == r' - r by { assert q * k - q' * k == (q - q') * k; }
    if d >= 1 {
      assert false;
    } else if d <= -1 {
      assert false;
    }
  }

  /** The round in which the t-th item dealt round-robin over `k` places
      falls. */
  function Row(t: nat, k: nat): nat
    requires k > 0
    decreases t
  {
    if t < k then 0 else 1 + Row(t - k, k)
  }

  /** The place in its round of the t-th item dealt over `k` places. */
  function Col(t: nat, k: nat): (j: nat)
    requires k > 0
    ensures j < k
    decreases t
  {
    if t < k then t else Col(t - k, k)
  }

  /** Rounds and positions are quotient and remainder. */
  lemma {:induction false} RowCol(t: nat, k: nat)
    requires k > 0
    ensures Row(t, k) == t / k && Col(t, k) == t % k
    decreases t
  {
    if t < k {
      DivModUnique(t, k, 0, t);
    } else {
      RowCol(t - k, k);
      var q, r := (t - k) / k, (t - k) % k;
      assert t == (q + 1) * k + r by { assert (q + 1) * k == q * k + k; }
      DivModUnique(t, k, q + 1, r);
    }
  }

  /** Starting a round at place 0, the j-th item of the round is at
      place j. */
  lemma {:induction false} ColShift(start: nat, k: nat, j: nat)
    requires k > 0 && Col(start, k) == 0 && j < k
    ensures Col(start + j, k) == j
    decreases start
  {
    if start >= k {
      ColShift(start - k, k, j);
    }
  }

  /** Every page has a key (a colour, a partition) below `n`. */
  ghost predicate Ranged(key: Page -> nat, n: nat)
  {
    forall p: Page :: key(p) < n
  }

  /** `t` is `s` with the pages of `ps` appended, in order, to the bins of
      their keys: a page of key `c` goes on top of stack `c`. */
  ghost predicate Pushed(s: seq<seq<Page>>, t: seq<seq<Page>>, ps: seq<Page>, key: Page -> nat)
  {
    |t| == |s| && forall c | 0 <= c < |s| :: t[c] == s[c] + Having(ps, key, c)
  }

  /** Pushing pages adds exactly them to the pool. */
  lemma PushedPooled(s: seq<seq<Page>>, t: seq<seq<Page>>, ps: seq<Page>, key: Page -> nat, n: nat)
    requires Pushed(s, t, ps, key) && |s| == n && Ranged(key, n)
    ensures Pooled(t, n) == Pooled(s, n) + multiset(ps)
  {
    forall c | 0 <= c < n
      ensures multiset(t[c]) == multiset(s[c]) + multiset(Having(ps, key, c))
    {
    }
    PooledGrows(s, t, ps, key, n);
    BinnedWhole(ps, key, n);
  }

  /** Pushing one page puts it on top of its key's stack. */
  lemma PushedOne(s: seq<seq<Page>>, p: Page, key: Page -> nat)
    requires key(p) < |s|
    ensures Pushed(s, s[key(p) := s[key(p)] + [p]], [p], key)
  {
    forall c | 0 <= c < |s|
      ensures Having([p], key, c) == if key(p) == c then [p] else []
    {
      HavingPush([], p, key, c);
      assert [] + [p] == [p];
    }
  }

  /** Pushing `a` and then `b` is pushing `a + b`. */
  lemma PushedTwice(s0: seq<seq<Page>>, s1: seq<seq<Page>>, s2: seq<seq<Page>>, a: seq<Page>, b: seq<Page>, key: Page -> nat)
    requires Pushed(s0, s1, a, key) && Pushed(s1, s2, b, key)
    ensures Pushed(s0, s2, a + b, key)
  {
    forall c | 0 <= c < |s0|
      ensures s2[c] == s0[c] + Having(a + b, key, c)
    {
      HavingAppend(a, b, key, c);
    }
  }

  /** What a page fault at file page `pgoff` resolves to: the device page at
      that offset, or VM_FAULT_ERROR. */
  datatype Fault = Served(offset: nat) | FaultError

  /** The fault handler of both modules: the offset is `pgoff` cast to
      `unsigned int`, and an offset past the device's pages, or a failed
      vm_insert_page, is an error. */
  function FaultAt(nbpages: nat, pgoff: nat, insertOk: bool): (f: Fault)
    ensures f.Served? ==> f.offset < nbpages && insertOk
    ensures f.Served? ==> f.offset == pgoff % UINT_MOD
    ensures pgoff < nbpages && pgoff < UINT_MOD && insertOk ==> f == Served(pgoff)
  {
    var offset := pgoff % UINT_MOD;
    if offset >= nbpages then FaultError
    else if !insertOk then FaultError
    else Served(offset)
  }

  /** The block count of both modules' init: `memory` divided by the bytes
      of one head, rounded up, in `unsigned int` with the product taken in
      `unsigned long`. */
  function BlockCount(memory: nat, w: nat): (blocks: nat)
    requires w >= 1
    ensures blocks < UINT_MOD
  {
    var bytes := PAGE_SIZE * w;
    var q := (memory / bytes) % UINT_MOD;
    if (q * bytes) % ULONG_MOD < memory then (q + 1) % UINT_MOD else q
  }

  /** The blocks hold `memory` and one block fewer would not, as long as the
      count fits an `unsigned int` and the memory an `unsigned long`. */
  lemma BlockCountCeil(memory: nat, w: nat)
    requires w >= 1 && memory <= ULONG_MAX
    requires memory / (PAGE_SIZE * w) < UINT_MOD - 1
    ensures BlockCount(memory, w) * (PAGE_SIZE * w) >= memory
    ensures BlockCount(memory, w) > 0 ==> (BlockCount(memory, w) - 1) * (PAGE_SIZE * w) < memory
  {
    var bytes := PAGE_SIZE * w;
    var q := memory / bytes;
    assert q % UINT_MOD == q;
    assert q * bytes <= memory;
    assert q * bytes % ULONG_MOD == q * bytes;
    assert memory < (q + 1) * bytes;
  }

  /** The mmap handler of the coloured devices (colored_mmap): the mapping
      must start at file page 0, cover no more pages than the device holds
      (the count taken in `size_t`), and be shared. */
  function Mmap(nbpages: nat, pgoff: nat, start: nat, end: nat, shared: bool): (err: int)
    requires start <= end
    ensures err == 0 <==> pgoff == 0 && (end - start) / PAGE_SIZE <= nbpages && shared
    ensures err == ENOMEM <==> pgoff == 0 && (end - start) / PAGE_SIZE > nbpages
  {
    if pgoff != 0 then EPERM
    else if (end - start) / PAGE_SIZE > nbpages then ENOMEM
    else if !shared then EPERM
    else 0
  }

  /** Every fault inside an accepted mapping is served with the device page
      at the fault's offset. */
  lemma MappedFaultServed(nbpages: nat, start: nat, end: nat, addr: nat)
    requires start <= addr < end && start % PAGE_SIZE == 0 && end % PAGE_SIZE == 0
    requires nbpages < UINT_MOD
    requires Mmap(nbpages, 0, start, end, true) == 0
    ensures FaultAt(nbpages, (addr - start) / PAGE_SIZE, true) == Served((addr - start) / PAGE_SIZE)
  {
    var q := (end - start) / PAGE_SIZE;
    DivModUnique(end - start, PAGE_SIZE, q, 0);
    assert (addr - start) / PAGE_SIZE < q;
  }
}
