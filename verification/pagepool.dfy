/** The page pool of ccontrol's kernel module (ccontrol/src/module/ccontrol.c):
    per-colour stacks of reserved pages, coloured devices carved from them
    round-robin over a colour set, the list of live devices, and the bound
    checks of the device's mmap and page-fault handlers. */
module PagePool {
  import opened Frames

  /** The colours of `cset` below `n`, in ascending order: the order in which
      create_colored visits them on every round. */
  function Visit(cset: set<nat>, n: nat): (cols: seq<nat>)
    ensures |cols| <= n
  {
    if n == 0 then [] else Visit(cset, n - 1) + (if n - 1 in cset then [n - 1] else [])
  }

  /** The colours visited are exactly those of `cset` below `n`, each once,
      in strictly ascending order. */
  lemma {:induction false} VisitOrdered(cset: set<nat>, n: nat)
    ensures var cols := Visit(cset, n);
      (forall j | 0 <= j < |cols| :: cols[j] < n && cols[j] in cset)
      && (forall c | 0 <= c < n && c in cset :: c in cols)
      && (forall i, j | 0 <= i < j < |cols| :: cols[i] < cols[j])
  {
    if n > 0 {
      VisitOrdered(cset, n - 1);
      var init, cols := Visit(cset, n - 1), Visit(cset, n);
      assert cols == init + (if n - 1 in cset then [n - 1] else []);
      forall c | 0 <= c < n && c in cset
        ensures c in cols
      {
        if c < n - 1 {
          assert c in init;
        }
      }
    }
  }

  /** Visiting the colours below `i` is the start of visiting those below `n`. */
  lemma {:induction false} VisitPrefix(cset: set<nat>, i: nat, n: nat)
    requires i <= n
    ensures |Visit(cset, i)| <= |Visit(cset, n)|
    ensures Visit(cset, n)[..|Visit(cset, i)|] == Visit(cset, i)
    decreases n - i
  {
    if i < n {
      VisitPrefix(cset, i, n - 1);
    }
  }

  /** A set colour `i` is visited right after the set colours below it. */
  lemma VisitAt(cset: set<nat>, i: nat, n: nat)
    requires i < n && i in cset
    ensures |Visit(cset, i)| < |Visit(cset, n)|
    ensures Visit(cset, n)[|Visit(cset, i)|] == i
  {
    VisitPrefix(cset, i + 1, n);
    assert Visit(cset, i + 1) == Visit(cset, i) + [i];
  }

  /** How many of the first `m` pages dealt round-robin over `k` colours go
      to the colour visited `j`-th in a round. */
  function Share(k: nat, m: nat, j: nat): nat
    requires j < k
    decreases m
  {
    if m <= j then 0 else if m < k then 1 else 1 + Share(k, m - k, j)
  }

  /** Each colour gets one page per completed round, and the colours visited
      before the round was cut off get one more. */
  lemma {:induction false} ShareSplit(k: nat, m: nat, j: nat)
    requires j < k
    ensures Share(k, m, j) == m / k + (if m % k > j then 1 else 0)
    decreases m
  {
    if m < k {
      DivModUnique(m, k, 0, m);
    } else {
      ShareSplit(k, m - k, j);
      RowCol(m - k, k);
      RowCol(m, k);
    }
  }

  /** Dealing one more page adds it to the colour whose turn it is. */
  lemma {:induction false} ShareStep(k: nat, m: nat, j: nat)
    requires j < k
    ensures Share(k, m + 1, j) == Share(k, m, j) + (if Col(m, k) == j then 1 else 0)
    decreases m
  {
    if m >= k {
      ShareStep(k, m - k, j);
      assert m + 1 - k == m - k + 1;
    }
  }

  /** The colour whose turn it is has had one page per completed round. */
  lemma {:induction false} ShareAt(k: nat, m: nat, j: nat)
    requires j < k && Col(m, k) == j
    ensures Share(k, m, j) == Row(m, k)
    decreases m
  {
    if m >= k {
      ShareAt(k, m - k, j);
    }
  }

  /** A full round gives every colour one page. */
  lemma ShareRound(k: nat, m: nat, j: nat)
    requires j < k
    ensures Share(k, m + k, j) == Share(k, m, j) + 1
  {
    assert m + k - k == m;
  }

  /** Round-robin keeps the colours balanced: a colour visited earlier in a
      round has as many pages as a later one, or one more. */
  lemma SharesBalanced(k: nat, m: nat, i: nat, j: nat)
    requires i < j < k
    ensures Share(k, m, j) <= Share(k, m, i) <= Share(k, m, j) + 1
  {
    ShareSplit(k, m, i);
    ShareSplit(k, m, j);
  }

  /** The shares of the colours visited before the `i`-th. */
  function SharesBelow(k: nat, m: nat, i: nat): nat
    requires i <= k
  {
    if i == 0 then 0 else SharesBelow(k, m, i - 1) + Share(k, m, i - 1)
  }

  /** The shares add up to the pages dealt. */
  lemma SharesTotal(k: nat, m: nat)
    requires k > 0
    ensures SharesBelow(k, m, k) == m
  {
    var q, r := m / k, m % k;
    SharesBelowSplit(k, m, k, q, r);
  }

  lemma {:induction false} SharesBelowSplit(k: nat, m: nat, i: nat, q: nat, r: nat)
    requires 0 < k && i <= k && r < k && m == q * k + r
    ensures SharesBelow(k, m, i) == i * q + (if i < r then i else r)
  {
    if i > 0 {
      SharesBelowSplit(k, m, i - 1, q, r);
      DivModUnique(m, k, q, r);
      ShareSplit(k, m, i - 1);
      MulStep(i, q);
    }
  }

  lemma MulStep(i: nat, q: nat)
    requires i > 0
    ensures i * q == (i - 1) * q + q
  {
  }

  /** The page `d` deep in a stack whose top is its last element. */
  function Top(s: seq<Page>, d: nat): Page
    requires d < |s|
  {
    s[|s| - 1 - d]
  }

  /** Dealing `size` pages round-robin over the colours `cols` never finds
      a colour's stack empty: the page dealt t-th comes Row(t) = t / |cols|
      deep from the top of the stack of colour cols[Col(t)], Col(t) being
      t % |cols| (RowCol). A request of no pages
      never completes, since the count is checked only after a page is
      taken. */
  predicate Feasible(s: seq<seq<Page>>, cols: seq<nat>, size: nat)
    requires cols != [] && forall j | 0 <= j < |cols| :: cols[j] < |s|
  {
    size >= 1 && forall t | 0 <= t < size :: Row(t, |cols|) < |s[cols[Col(t, |cols|)]]|
  }

  /** The pages a feasible request receives, in device order. */
  function Dealt(s: seq<seq<Page>>, cols: seq<nat>, size: nat): (ps: seq<Page>)
    requires cols != [] && forall j | 0 <= j < |cols| :: cols[j] < |s|
    requires Feasible(s, cols, size)
    ensures |ps| == size
  {
    seq(size, t requires 0 <= t < size => Top(s[cols[Col(t, |cols|)]], Row(t, |cols|)))
  }

  /** Every page of stack `c` has colour `c`. */
  ghost predicate Colored(s: seq<seq<Page>>, color: Page -> nat)
  {
    forall c, x | 0 <= c < |s| && 0 <= x < |s[c]| :: color(s[c][x]) == c
  }

  /** The pages below the top `n` of each visited colour's stack; the other
      stacks unchanged. What create_colored leaves on success. */
  ghost predicate Carved(s0: seq<seq<Page>>, s: seq<seq<Page>>, cols: seq<nat>, size: nat)
    requires cols != [] && forall j | 0 <= j < |cols| :: cols[j] < |s0|
  {
    |s| == |s0|
    && (forall j {:trigger s[cols[j]]} | 0 <= j < |cols| ::
          Share(|cols|, size, j) <= |s0[cols[j]]| && s[cols[j]] == s0[cols[j]][..|s0[cols[j]]| - Share(|cols|, size, j)])
    && (forall c | 0 <= c < |s| && c !in cols :: s[c] == s0[c])
  }

  /** The pages dealt so far are the ones Dealt names. */
  ghost predicate DealtSoFar(s0: seq<seq<Page>>, cols: seq<nat>, dealt: seq<Page>)
    requires cols != [] && forall j | 0 <= j < |cols| :: cols[j] < |s0|
  {
    forall t {:trigger dealt[t]} | 0 <= t < |dealt| ::
      Row(t, |cols|) < |s0[cols[Col(t, |cols|)]]| && dealt[t] == Top(s0[cols[Col(t, |cols|)]], Row(t, |cols|))
  }

  /** No page lost or invented: what a stack lost is what was dealt from it. */
  ghost predicate Conserved(s0: seq<seq<Page>>, s: seq<seq<Page>>, dealt: seq<Page>, color: Page -> nat)
    requires |s| == |s0|
  {
    forall c {:trigger Having(dealt, color, c)} | 0 <= c < |s| ::
      multiset(s[c]) + multiset(Having(dealt, color, c)) == multiset(s0[c])
  }

  /** Part way through create_colored: `dealt` holds the pages taken from
      the stacks `s0` so far, each stack of a visited colour has lost its
      share from the top, the others are untouched, and no page was lost or
      invented. */
  ghost predicate Dealing(s0: seq<seq<Page>>, s: seq<seq<Page>>, cols: seq<nat>, dealt: seq<Page>, color: Page -> nat)
  {
    cols != [] && |s| == |s0| && (forall j | 0 <= j < |cols| :: cols[j] < |s0|)
    && Carved(s0, s, cols, |dealt|) && DealtSoFar(s0, cols, dealt) && Conserved(s0, s, dealt, color)
  }

  lemma DealStart(s0: seq<seq<Page>>, cols: seq<nat>, color: Page -> nat)
    requires cols != [] && forall j | 0 <= j < |cols| :: cols[j] < |s0|
    ensures Dealing(s0, s0, cols, [], color)
  {
  }

  lemma CarvedAt(s0: seq<seq<Page>>, s: seq<seq<Page>>, cols: seq<nat>, size: nat, j: nat)
    requires cols != [] && forall j | 0 <= j < |cols| :: cols[j] < |s0|
    requires Carved(s0, s, cols, size) && j < |cols|
    ensures Share(|cols|, size, j) <= |s0[cols[j]]|
    ensures s[cols[j]] == s0[cols[j]][..|s0[cols[j]]| - Share(|cols|, size, j)]
  {
  }

  /** Popping the colour whose turn it is carves one more page. */
  lemma CarvedStep(s0: seq<seq<Page>>, s: seq<seq<Page>>, cols: seq<nat>, m: nat, j: nat)
    requires cols != [] && forall j | 0 <= j < |cols| :: cols[j] < |s0|
    requires forall i, j | 0 <= i < j < |cols| :: cols[i] < cols[j]
    requires Carved(s0, s, cols, m)
    requires j < |cols| && Col(m, |cols|) == j && |s[cols[j]]| > 0
    ensures var i := cols[j]; Carved(s0, s[i := s[i][..|s[i]| - 1]], cols, m + 1)
  {
    var k, i := |cols|, cols[j];
    var s' := s[i := s[i][..|s[i]| - 1]];
    forall j' | 0 <= j' < k
      ensures Share(k, m + 1, j') <= |s0[cols[j']]| && s'[cols[j']] == s0[cols[j']][..|s0[cols[j']]| - Share(k, m + 1, j')]
    {
      ShareStep(k, m, j');
      CarvedAt(s0, s, cols, m, j');
      if j' != j {
        assert cols[j'] != i by {
          if j' < j { assert cols[j'] < cols[j]; } else { assert cols[j] < cols[j']; }
        }
      } else {
        var d := |s0[i]| - Share(k, m, j);
        assert s'[i] == s0[i][..d][..d - 1];
      }
    }
  }

  /** Dealing the page Dealt names next keeps the dealt pages Dealt's. */
  lemma DealtStep(s0: seq<seq<Page>>, cols: seq<nat>, dealt: seq<Page>, p: Page)
    requires cols != [] && forall j | 0 <= j < |cols| :: cols[j] < |s0|
    requires DealtSoFar(s0, cols, dealt)
    requires var m := |dealt|;
      Row(m, |cols|) < |s0[cols[Col(m, |cols|)]]| && p == Top(s0[cols[Col(m, |cols|)]], Row(m, |cols|))
    ensures DealtSoFar(s0, cols, dealt + [p])
  {
    var k, m := |cols|, |dealt|;
    var dealt' := dealt + [p];
    forall t | 0 <= t < |dealt'|
      ensures Row(t, k) < |s0[cols[Col(t, k)]]| && dealt'[t] == Top(s0[cols[Col(t, k)]], Row(t, k))
    {
      if t < m {
        assert dealt'[t] == dealt[t];
      } else {
        assert t == m;
      }
    }
  }

  /** Moving the top page of a stack to the dealt pages conserves pages. */
  lemma ConservedStep(s0: seq<seq<Page>>, s: seq<seq<Page>>, dealt: seq<Page>, color: Page -> nat, i: nat)
    requires |s| == |s0| && Conserved(s0, s, dealt, color)
    requires i < |s| && |s[i]| > 0 && color(s[i][|s[i]| - 1]) == i
    ensures Conserved(s0, s[i := s[i][..|s[i]| - 1]], dealt + [s[i][|s[i]| - 1]], color)
  {
    var p := s[i][|s[i]| - 1];
    var s' := s[i := s[i][..|s[i]| - 1]];
    forall c | 0 <= c < |s'|
      ensures multiset(s'[c]) + multiset(Having(dealt + [p], color, c)) == multiset(s0[c])
    {
      ConservedBin(s[c], s'[c], dealt, p, color, c, c == i);
    }
  }

  /** One bin of ConservedStep: the bin that lost `p` gained it among the
      dealt pages of its colour; any other bin is untouched. */
  lemma ConservedBin(b: seq<Page>, b': seq<Page>, dealt: seq<Page>, p: Page, color: Page -> nat, c: nat, hit: bool)
    requires hit ==> |b| > 0 && b' == b[..|b| - 1] && p == b[|b| - 1] && color(p) == c
    requires !hit ==> b' == b && color(p) != c
    ensures multiset(b') + multiset(Having(dealt + [p], color, c))
      == multiset(b) + multiset(Having(dealt, color, c))
  {
    HavingPush(dealt, p, color, c);
    if hit {
      assert b == b' + [p];
    }
  }

  /** Taking the top page of the colour whose turn it is keeps Dealing. */
  lemma DealStep(s0: seq<seq<Page>>, s: seq<seq<Page>>, cols: seq<nat>, dealt: seq<Page>, color: Page -> nat, j: nat)
    requires Dealing(s0, s, cols, dealt, color) && Colored(s0, color)
    requires forall i, j | 0 <= i < j < |cols| :: cols[i] < cols[j]
    requires j < |cols| && Col(|dealt|, |cols|) == j && |s[cols[j]]| > 0
    ensures var i := cols[j];
      Dealing(s0, s[i := s[i][..|s[i]| - 1]], cols, dealt + [s[i][|s[i]| - 1]], color)
  {
    var i, k, m := cols[j], |cols|, |dealt|;
    ShareAt(k, m, j);
    CarvedAt(s0, s, cols, m, j);
    var p := TopOfCarved(s0, s, color, i, Row(m, k));
    CarvedStep(s0, s, cols, m, j);
    DealtStep(s0, cols, dealt, p);
    ConservedStep(s0, s, dealt, color, i);
  }

  /** The top of a stack carved `d` deep is the page `d` deep in the
      original, and has the stack's colour. */
  lemma TopOfCarved(s0: seq<seq<Page>>, s: seq<seq<Page>>, color: Page -> nat, i: nat, d: nat) returns (p: Page)
    requires i < |s0| && i < |s| && Colored(s0, color)
    requires d <= |s0[i]| && s[i] == s0[i][..|s0[i]| - d] && |s[i]| > 0
    ensures d < |s0[i]| && p == s[i][|s[i]| - 1] && p == Top(s0[i], d) && color(p) == i
  {
    p := s[i][|s[i]| - 1];
    assert p == s0[i][|s0[i]| - 1 - d];
  }

  /** Finding the stack of the colour whose turn it is empty means the
      request was not feasible. */
  lemma DealStuck(s0: seq<seq<Page>>, s: seq<seq<Page>>, cols: seq<nat>, dealt: seq<Page>, color: Page -> nat, j: nat, size: nat)
    requires Dealing(s0, s, cols, dealt, color)
    requires j < |cols| && Col(|dealt|, |cols|) == j && |s[cols[j]]| == 0
    requires size == 0 || |dealt| < size
    ensures !Feasible(s0, cols, size)
  {
    var k, m := |cols|, |dealt|;
    ShareAt(k, m, j);
    CarvedAt(s0, s, cols, m, j);
    if size > 0 {
      assert !(Row(m, k) < |s0[cols[Col(m, k)]]|);
    }
  }

  /** Once `size` pages are dealt, the request was feasible and the device
      holds exactly the pages Dealt names. */
  lemma DealDone(s0: seq<seq<Page>>, cols: seq<nat>, dealt: seq<Page>)
    requires cols != [] && (forall j | 0 <= j < |cols| :: cols[j] < |s0|)
    requires DealtSoFar(s0, cols, dealt) && |dealt| >= 1
    ensures Feasible(s0, cols, |dealt|)
    ensures dealt == Dealt(s0, cols, |dealt|)
  {
    var k := |cols|;
    forall t | 0 <= t < |dealt|
      ensures Row(t, k) < |s0[cols[Col(t, k)]]| && dealt[t] == Top(s0[cols[Col(t, k)]], Row(t, k))
    {
      var p := dealt[t];
    }
  }


  /** create_colored's conversion of a byte count to pages: round up to a
      page boundary in `size_t`, then divide. */
  function PagesFor(bytes: nat): (n: nat)
    requires bytes < 0x1_0000_0000_0000_0000
    ensures bytes + PAGE_SIZE <= 0x1_0000_0000_0000_0000 ==> n * PAGE_SIZE >= bytes && n * PAGE_SIZE < bytes + PAGE_SIZE
  {
    var padded := if bytes % PAGE_SIZE != 0 then (bytes + (PAGE_SIZE - bytes % PAGE_SIZE)) % 0x1_0000_0000_0000_0000 else bytes;
    padded / PAGE_SIZE
  }

  /** A coloured device: its minor number and its pages, in the order they
      are mapped. */
  datatype ColoredDev = ColoredDev(minor: nat, pages: seq<Page>)

  /** The devices, newest first, carry distinct minors between 1 and the
      number of devices ever created: list_add puts each new device, with
      the next minor, at the front. */
  predicate Minors(ds: seq<ColoredDev>, nbdevices: nat)
  {
    (forall x | 0 <= x < |ds| :: 1 <= ds[x].minor <= nbdevices)
    && (forall x, y | 0 <= x < y < |ds| :: ds[x].minor > ds[y].minor)
  }

  /** The pages the devices hold. */
  function Owned(ds: seq<ColoredDev>): multiset<Page>
  {
    if ds == [] then multiset{} else multiset(ds[0].pages) + Owned(ds[1..])
  }

  /** All the devices' pages, in list order. */
  function AllPages(ds: seq<ColoredDev>): (ps: seq<Page>)
    ensures multiset(ps) == Owned(ds)
  {
    if ds == [] then [] else ds[0].pages + AllPages(ds[1..])
  }

  lemma {:induction false} OwnedRemove(ds: seq<ColoredDev>, k: nat)
    requires k < |ds|
    ensures Owned(ds) == multiset(ds[k].pages) + Owned(ds[..k] + ds[k + 1..])
  {
    if k > 0 {
      OwnedRemove(ds[1..], k - 1);
      assert ds[1..][..k - 1] + ds[1..][k..] == (ds[..k] + ds[k + 1..])[1..];
    } else {
      assert ds[..k] + ds[k + 1..] == ds[1..];
    }
  }

  /** The position of the device with minor `minor`, or |ds| when there is
      none: the walk of ioctl_free. */
  function Find(ds: seq<ColoredDev>, minor: nat): (k: nat)
    ensures k <= |ds|
    ensures k < |ds| ==> ds[k].minor == minor
    ensures forall x | 0 <= x < k :: ds[x].minor != minor
  {
    if ds == [] then 0
    else if ds[0].minor == minor then 0
    else 1 + Find(ds[1..], minor)
  }

  /** With distinct minors, Find names the one device with that minor, and
      reports none exactly when no device has it. */
  lemma FindUnique(ds: seq<ColoredDev>, nbdevices: nat, minor: nat)
    requires Minors(ds, nbdevices)
    ensures Find(ds, minor) < |ds| <==> exists x | 0 <= x < |ds| :: ds[x].minor == minor
    ensures forall x | 0 <= x < |ds| && ds[x].minor == minor :: x == Find(ds, minor)
  {
    var k := Find(ds, minor);
    forall x | 0 <= x < |ds| && ds[x].minor == minor
      ensures x == k
    {
      if k < x {
        assert false;
      }
    }
  }

  /** Removing a device keeps the minors distinct and ordered. */
  lemma MinorsRemove(ds: seq<ColoredDev>, nbdevices: nat, k: nat)
    requires Minors(ds, nbdevices) && k < |ds|
    ensures Minors(ds[..k] + ds[k + 1..], nbdevices)
  {
    var ds' := ds[..k] + ds[k + 1..];
    forall x, y | 0 <= x < y < |ds'|
      ensures ds'[x].minor > ds'[y].minor
    {
      var x', y' := if x < k then x else x + 1, if y < k then y else y + 1;
      assert ds'[x] == ds[x'] && ds'[y] == ds[y'];
    }
  }

  /** What one pass of create_colored's `for` loop, as written, ends in:
      the device full, a colour's stack found empty, or the pass over with
      the stacks left and the pages taken so far. */
  datatype Pass = Full(dealt: seq<Page>) | Stuck | Going(s: seq<seq<Page>>, dealt: seq<Page>)

  /** A pass as written from the `j`-th visited colour on: a colour with
      pages gives its top page and the count is then compared with `size`;
      a colour with none ends the request. */
  function PassFrom(s: seq<seq<Page>>, cols: seq<nat>, j: nat, size: nat, dealt: seq<Page>): (p: Pass)
    requires j <= |cols| && forall i | 0 <= i < |cols| :: cols[i] < |s|
    ensures p.Going? ==> |p.s| == |s| && |p.dealt| == |dealt| + (|cols| - j)
    decreases |cols| - j
  {
    if j == |cols| then Going(s, dealt)
    else
      var c := cols[j];
      if |s[c]| == 0 then Stuck
      else
        var dealt' := dealt + [Top(s[c], 0)];
        var s' := s[c := s[c][..|s[c]| - 1]];
        if |dealt'| == size then Full(dealt') else PassFrom(s', cols, j + 1, size, dealt')
  }

  /** `rounds` turns of create_colored's `while(1)` loop as written; a
      `Going` result means the loop is still running. */
  function Spin(s: seq<seq<Page>>, cols: seq<nat>, size: nat, dealt: seq<Page>, rounds: nat): (p: Pass)
    requires forall i | 0 <= i < |cols| :: cols[i] < |s|
    ensures p.Going? ==> |p.dealt| == |dealt| + rounds * |cols|
    decreases rounds
  {
    if rounds == 0 then Going(s, dealt)
    else
      match PassFrom(s, cols, 0, size, dealt)
      case Going(s', dealt') => Spin(s', cols, size, dealt', rounds - 1)
      case other => other
  }

  /** create_colored as written with a colour set holding no colour below
      the number of colours: the `for` loop visits no colour, so however
      many times the `while(1)` loop turns, no page is taken, no stack is
      found empty and the device never fills: the loop never ends. */
  lemma {:induction false} EmptySetSpins(s: seq<seq<Page>>, cset: set<nat>, size: nat, rounds: nat)
    requires forall c | 0 <= c < |s| :: c !in cset
    ensures Visit(cset, |s|) == []
    ensures Spin(s, Visit(cset, |s|), size, [], rounds) == Going(s, [])
  {
    VisitOrdered(cset, |s|);
    if Visit(cset, |s|) != [] {
      assert Visit(cset, |s|)[0] in cset;
    }
    if rounds > 0 {
      EmptySetSpins(s, cset, size, rounds - 1);
    }
  }

  /** The loop of create_colored: pages are taken round-robin over the
      colours of `cset` below `n`, in ascending order, each from the top of
      its colour's stack in `s0`, until `size` pages are taken or a colour's
      stack is found empty. Returns the stacks left and the pages taken. */
  method Deal(s0: seq<seq<Page>>, cset: set<nat>, n: nat, size: nat, ghost color: Page -> nat)
    returns (ok: bool, s: seq<seq<Page>>, dealt: seq<Page>)
    requires |s0| == n && Colored(s0, color)
    requires exists c | 0 <= c < n :: c in cset
    ensures var cols := Visit(cset, n);
      cols != [] && (forall j | 0 <= j < |cols| :: cols[j] < n) && (ok <==> Feasible(s0, cols, size))
    ensures var cols := Visit(cset, n);
      ok ==> |dealt| == size && dealt == Dealt(s0, cols, size)
    ensures Dealing(s0, s, Visit(cset, n), dealt, color)
  {
    ghost var cols := Visit(cset, n);
    VisitOrdered(cset, n);
    var num := 0;
    dealt := [];
    s := s0;
    DealStart(s0, cols, color);
    while true
      invariant Dealing(s0, s, cols, dealt, color) && num == |dealt|
      invariant Col(num, |cols|) == 0
      invariant size == 0 || num < size
      decreases |s[cols[0]]|
    {
      var full, stuck;
      full, stuck, s, dealt, num := DealRound(s0, cset, n, size, color, s, dealt, num);
      if full {
        return true, s, dealt;
      }
      if stuck {
        return false, s, dealt;
      }
    }
  }

  /** One round of the loop of create_colored: a page from each colour of
      `cset` in turn, stopping once `size` pages are taken (`full`) or at a
      colour whose stack is empty (`stuck`). */
  method DealRound(s0: seq<seq<Page>>, cset: set<nat>, n: nat, size: nat, ghost color: Page -> nat,
                   s: seq<seq<Page>>, dealt: seq<Page>, num: nat)
    returns (full: bool, stuck: bool, s': seq<seq<Page>>, dealt': seq<Page>, num': nat)
    requires |s0| == n && Colored(s0, color)
    requires var cols := Visit(cset, n);
      cols != [] && (forall j | 0 <= j < |cols| :: cols[j] < n)
      && (forall i, j | 0 <= i < j < |cols| :: cols[i] < cols[j])
    requires Dealing(s0, s, Visit(cset, n), dealt, color) && num == |dealt|
    requires Col(num, |Visit(cset, n)|) == 0 && (size == 0 || num < size)
    ensures Dealing(s0, s', Visit(cset, n), dealt', color) && num' == |dealt'|
    ensures full ==> (!stuck && |dealt'| == size && Feasible(s0, Visit(cset, n), size)
      && dealt' == Dealt(s0, Visit(cset, n), size))
    ensures stuck ==> !Feasible(s0, Visit(cset, n), size)
    ensures !full && !stuck ==> (Col(num', |Visit(cset, n)|) == 0 && (size == 0 || num' < size)
      && |s'[Visit(cset, n)[0]]| < |s[Visit(cset, n)[0]]|)
  {
    ghost var cols := Visit(cset, n);
    ghost var k := |cols|;
    s', dealt', num' := s, dealt, num;
    ShareRound(k, num, 0);
    CarvedAt(s0, s, cols, num, 0);
    var i := 0;
    while i < n
      invariant 0 <= i <= n
      invariant Dealing(s0, s', cols, dealt', color) && num' == |dealt'|
      invariant num' == num + |Visit(cset, i)|
      invariant size == 0 || num' < size
    {
      if i in cset {
        VisitAt(cset, i, n);
        ghost var j := |Visit(cset, i)|;
        ColShift(num, k, j);
        var took;
        took, s', dealt' := Take(s0, cols, color, s', dealt', i, j);
        if !took {
          DealStuck(s0, s', cols, dealt', color, j, size);
          return false, true, s', dealt', num';
        }
        num' := num' + 1;
        if num' == size {
          DealDone(s0, cols, dealt');
          return true, false, s', dealt', num';
        }
      }
      i := i + 1;
    }
    VisitPrefix(cset, n, n);
    assert num' == num + k;
    CarvedAt(s0, s', cols, num', 0);
    full, stuck := false, false;
  }

  /** One turn of the loop of create_colored: the top page of colour `i`,
      the `j`-th visited, is taken when its stack is not empty. */
  method Take(ghost s0: seq<seq<Page>>, ghost cols: seq<nat>, ghost color: Page -> nat,
              s: seq<seq<Page>>, dealt: seq<Page>, i: nat, ghost j: nat)
    returns (took: bool, s': seq<seq<Page>>, dealt': seq<Page>)
    requires Dealing(s0, s, cols, dealt, color) && Colored(s0, color)
    requires forall i, j | 0 <= i < j < |cols| :: cols[i] < cols[j]
    requires j < |cols| && cols[j] == i && Col(|dealt|, |cols|) == j
    ensures took <==> |s[i]| > 0
    ensures took ==> Dealing(s0, s', cols, dealt', color) && |dealt'| == |dealt| + 1
    ensures !took ==> s' == s && dealt' == dealt
  {
    if |s[i]| == 0 {
      return false, s, dealt;
    }
    DealStep(s0, s, cols, dealt, color, j);
    var p := s[i][|s[i]| - 1];
    s' := s[i := s[i][..|s[i]| - 1]];
    dealt' := dealt + [p];
    took := true;
  }

  /** The pool's invariant: one stack per colour, each holding pages of its
      colour; minors kept as list_add keeps them; and the stacks and the
      devices together hold exactly the pages of the reserved heads. */
  ghost predicate Healthy(n: nat, color: Page -> nat, w: nat, stacks: seq<seq<Page>>, heads: seq<Page>,
                          devices: seq<ColoredDev>, nbdevices: nat)
  {
    n >= 1 && w == HeadPages(n) && Ranged(color, n)
    && |stacks| == n && Colored(stacks, color)
    && Minors(devices, nbdevices)
    && Pooled(stacks, n) + Owned(devices) == multiset(Spread(heads, w))
  }

  /** ioctl_free keeps the pool healthy: the device leaves the list and its
      pages return to the stacks. */
  lemma FreedHealthy(n: nat, color: Page -> nat, w: nat, s: seq<seq<Page>>, t: seq<seq<Page>>, heads: seq<Page>,
                     ds: seq<ColoredDev>, nb: nat, k: nat)
    requires Healthy(n, color, w, s, heads, ds, nb) && k < |ds| && Pushed(s, t, ds[k].pages, color)
    ensures Healthy(n, color, w, t, heads, ds[..k] + ds[k + 1..], nb)
  {
    OwnedRemove(ds, k);
    MinorsRemove(ds, nb, k);
    PushedPooled(s, t, ds[k].pages, color, n);
    ColoredPush(s, t, ds[k].pages, color);
  }

  /** clean_devices keeps the pool healthy: every device's pages return. */
  lemma CleanedHealthy(n: nat, color: Page -> nat, w: nat, s: seq<seq<Page>>, t: seq<seq<Page>>, heads: seq<Page>,
                       ds: seq<ColoredDev>, nb: nat)
    requires Healthy(n, color, w, s, heads, ds, nb) && Pushed(s, t, AllPages(ds), color)
    ensures Healthy(n, color, w, t, heads, [], nb)
  {
    PushedPooled(s, t, AllPages(ds), color, n);
    ColoredPush(s, t, AllPages(ds), color);
  }

  /** ioctl_new keeps the pool healthy: the pages taken from the stacks
      make up the new device, which gets the next minor. */
  lemma CreatedHealthy(n: nat, color: Page -> nat, w: nat, s: seq<seq<Page>>, t: seq<seq<Page>>, heads: seq<Page>,
                       ds: seq<ColoredDev>, nb: nat, ps: seq<Page>, ds': seq<ColoredDev>, nb': nat)
    requires Healthy(n, color, w, s, heads, ds, nb) && |t| == n && Colored(t, color)
    requires Conserved(s, t, ps, color)
    requires ds' == [ColoredDev(nb + 1, ps)] + ds && nb' == nb + 1
    ensures Healthy(n, color, w, t, heads, ds', nb')
  {
    PooledGrows(t, s, ps, color, n);
    BinnedWhole(ps, color, n);
    OwnedPush(ColoredDev(nb + 1, ps), ds);
    MinorsPush(ds, nb, ps);
  }


  lemma OwnedPush(d: ColoredDev, ds: seq<ColoredDev>)
    ensures Owned([d] + ds) == multiset(d.pages) + Owned(ds)
  {
    assert ([d] + ds)[1..] == ds;
  }

  /** list_add of a device with the next minor keeps the minors ordered. */
  lemma MinorsPush(ds: seq<ColoredDev>, nb: nat, pages: seq<Page>)
    requires Minors(ds, nb)
    ensures Minors([ColoredDev(nb + 1, pages)] + ds, nb + 1)
  {
    var ds' := [ColoredDev(nb + 1, pages)] + ds;
    forall x, y | 0 <= x < y < |ds'|
      ensures ds'[x].minor > ds'[y].minor
    {
      assert ds'[y] == ds[y - 1];
      if x > 0 {
        assert ds'[x] == ds[x - 1];
      }
    }
  }

  lemma ConservedNone(s0: seq<seq<Page>>, s: seq<seq<Page>>, color: Page -> nat)
    requires |s| == |s0| && Conserved(s0, s, [], color)
    ensures forall c | 0 <= c < |s| :: multiset(s[c]) == multiset(s0[c])
  {
    forall c | 0 <= c < |s|
      ensures multiset(s[c]) == multiset(s0[c])
    {
      assert Having([], color, c) == [];
    }
  }

  /** A pool whose stacks were restored as multisets is still healthy. */
  lemma RestoredHealthy(n: nat, color: Page -> nat, w: nat, s: seq<seq<Page>>, t: seq<seq<Page>>, heads: seq<Page>,
                        ds: seq<ColoredDev>, nb: nat)
    requires Healthy(n, color, w, s, heads, ds, nb) && |t| == n && Colored(t, color)
    requires forall c | 0 <= c < n :: multiset(t[c]) == multiset(s[c])
    ensures Healthy(n, color, w, t, heads, ds, nb)
  {
    PooledSame(s, t, n);
  }

  /** reserve_memory keeps the pool healthy: the pages of the new heads go
      on the stacks. */
  lemma ReservedHealthy(n: nat, color: Page -> nat, w: nat, s: seq<seq<Page>>, t: seq<seq<Page>>, heads: seq<Page>,
                        hs: seq<Page>, ds: seq<ColoredDev>, nb: nat)
    requires Healthy(n, color, w, s, heads, ds, nb) && Pushed(s, t, Spread(hs, w), color)
    ensures Healthy(n, color, w, t, heads + hs, ds, nb)
  {
    PushedPooled(s, t, Spread(hs, w), color, n);
    ColoredPush(s, t, Spread(hs, w), color);
    SpreadAppend(heads, hs, w);
  }

  /** The module's global state: the colour stacks filled from the
      reserved heads and the list of coloured devices. */
  class Pool {
    /** LL_NUM_COLORS. */
    const ncolors: nat
    /** PFN_TO_COLOR. */
    const color: Page -> nat
    /** The pages of one head: 1 << order. */
    const width: nat
    /** pages[c][0 .. nbpages[c]]: the free pages of colour c, top last. */
    var stacks: seq<seq<Page>>
    /** heads[0 .. nbheads]. */
    var heads: seq<Page>
    /** control.devices, front first. */
    var devices: seq<ColoredDev>
    var nbdevices: nat

    ghost predicate Valid()
      reads this
    {
      Healthy(ncolors, color, width, stacks, heads, devices, nbdevices)
    }

    /** The module before init: empty stacks, no heads, no devices. */
    constructor(ncolors: nat, color: Page -> nat)
      requires ncolors >= 1 && Ranged(color, ncolors)
      ensures Valid()
      ensures this.ncolors == ncolors && this.color == color && width == HeadPages(ncolors)
      ensures stacks == seq(ncolors, c => []) && heads == [] && devices == [] && nbdevices == 0
    {
      this.ncolors := ncolors;
      this.color := color;
      width := HeadPages(ncolors);
      stacks := seq(ncolors, c => []);
      heads := [];
      devices := [];
      nbdevices := 0;
      new;
      PooledEmpty(stacks, ncolors);
    }

    /** Pushes every page of `ps` on the stack of its colour, in order: the
        loop of free_colored, the rollback of create_colored and the inner
        loop of reserve_memory. */
    method Reclaim(ps: seq<Page>)
      requires |stacks| == ncolors && forall p | p in ps :: color(p) < ncolors
      modifies this
      ensures Pushed(old(stacks), stacks, ps, color)
      ensures heads == old(heads) && devices == old(devices) && nbdevices == old(nbdevices)
    {
      var m := 0;
      while m < |ps|
        invariant 0 <= m <= |ps| && |stacks| == ncolors
        invariant Pushed(old(stacks), stacks, ps[..m], color)
        invariant heads == old(heads) && devices == old(devices) && nbdevices == old(nbdevices)
      {
        var p := ps[m];
        ghost var s1 := stacks;
        PushedOne(s1, p, color);
        stacks := stacks[color(p) := stacks[color(p)] + [p]];
        PushedTwice(old(stacks), s1, stacks, ps[..m], [p], color);
        assert ps[..m + 1] == ps[..m] + [p];
        m := m + 1;
      }
      assert ps[..m] == ps;
    }


    /** create_colored: `bytes` rounded up to pages are taken round-robin
        over the colours of `cset` in ascending order, each from the top of
        its colour's stack, until the device is full; a colour found empty
        fails the request with -ENOMEM after every page taken has been
        pushed back on its colour's stack. `allocOk` says whether the
        device's kmalloc and vmalloc succeeded. Corrected: a set with no
        colour below the number of colours, on which the loop as written
        never ends (EmptySetSpins), is refused with -EINVAL. */
    method CreateColored(cset: set<nat>, bytes: nat, allocOk: bool) returns (err: int, pages: seq<Page>)
      requires |stacks| == ncolors && Colored(stacks, color) && Ranged(color, ncolors)
      requires bytes < 0x1_0000_0000_0000_0000
      modifies this
      ensures |stacks| == ncolors && Colored(stacks, color)
      ensures heads == old(heads) && devices == old(devices) && nbdevices == old(nbdevices)
      ensures var cols := Visit(cset, ncolors);
        (forall j | 0 <= j < |cols| :: cols[j] < ncolors)
        && (cols == [] <==> err == EINVAL)
        && (err == 0 <==> cols != [] && allocOk && Feasible(old(stacks), cols, PagesFor(bytes)))
      ensures var cols := Visit(cset, ncolors);
        err == 0 ==> (Feasible(old(stacks), cols, PagesFor(bytes))
          && pages == Dealt(old(stacks), cols, PagesFor(bytes))
          && Carved(old(stacks), stacks, cols, PagesFor(bytes)))
      ensures err != 0 ==> (err == ENOMEM || err == EINVAL) && pages == []
      ensures err == EINVAL ==> stacks == old(stacks)
      ensures Conserved(old(stacks), stacks, pages, color)
    {
      ghost var cols := Visit(cset, ncolors);
      VisitOrdered(cset, ncolors);
      ghost var s0 := stacks;
      if Visit(cset, ncolors) == [] {
        return EINVAL, [];
      }
      assert Visit(cset, ncolors)[0] in cset;
      var size := PagesFor(bytes);
      if !allocOk {
        return ENOMEM, [];
      }
      var ok, s, dealt := Deal(stacks, cset, ncolors, size, color);
      if ok {
        ColoredPrefix(s0, s, cols, size, color);
        stacks := s;
        return 0, dealt;
      }
      ColoredPrefix(s0, s, cols, |dealt|, color);
      stacks := s;
      Reclaim(dealt);
      RolledBack(s0, s, stacks, dealt, color);
      ColoredPush(s, stacks, dealt, color);
      return ENOMEM, [];
    }

    /** free_colored: every page of the device goes back on its colour's
        stack. */
    method FreeColored(dev: ColoredDev)
      requires |stacks| == ncolors && forall p | p in dev.pages :: color(p) < ncolors
      modifies this
      ensures Pushed(old(stacks), stacks, dev.pages, color)
      ensures heads == old(heads) && devices == old(devices) && nbdevices == old(nbdevices)
    {
      Reclaim(dev.pages);
    }

    /** ioctl_new: create a coloured device; when cdev_add fails (`cdevErr`
        non-zero) its pages go back and that error is returned; otherwise the
        device gets the next minor and joins the front of the list. */
    method IoctlNew(cset: set<nat>, bytes: nat, allocOk: bool, cdevErr: int) returns (err: int, minor: nat)
      requires Valid() && bytes < 0x1_0000_0000_0000_0000
      modifies this
      ensures Valid() && heads == old(heads)
      ensures var cols := Visit(cset, ncolors);
        (forall j | 0 <= j < |cols| :: cols[j] < ncolors)
        && (cols == [] ==> err == EINVAL && stacks == old(stacks))
        && (err == 0 <==> cols != [] && allocOk && Feasible(old(stacks), cols, PagesFor(bytes)) && cdevErr == 0)
      ensures err == 0 ==> (minor == old(nbdevices) + 1 && nbdevices == minor
        && forall x | 0 <= x < |old(devices)| :: old(devices)[x].minor != minor)
      ensures var cols := Visit(cset, ncolors);
        err == 0 ==> (devices == [ColoredDev(minor, Dealt(old(stacks), cols, PagesFor(bytes)))] + old(devices)
          && Carved(old(stacks), stacks, cols, PagesFor(bytes)))
      ensures err != 0 ==> (devices == old(devices) && nbdevices == old(nbdevices)
        && forall c | 0 <= c < ncolors :: multiset(stacks[c]) == multiset(old(stacks[c])))
    {
      ghost var s0, h0, ds0, nb0 := stacks, heads, devices, nbdevices;
      assert Healthy(ncolors, color, width, s0, h0, ds0, nb0);
      var pages;
      err, pages := CreateColored(cset, bytes, allocOk);
      ghost var s1 := stacks;
      if err != 0 {
        ConservedNone(s0, s1, color);
        RestoredHealthy(ncolors, color, width, s0, s1, h0, ds0, nb0);
        return err, 0;
      }
      if cdevErr != 0 {
        FreeColored(ColoredDev(0, pages));
        RolledBack(s0, s1, stacks, pages, color);
        ColoredPush(s1, stacks, pages, color);
        RestoredHealthy(ncolors, color, width, s0, stacks, h0, ds0, nb0);
        return cdevErr, 0;
      }
      minor := Register(s0, pages);
      err := 0;
    }

    /** The end of ioctl_new: the device with pages `pages`, taken from the
        stacks `s0`, gets the next minor and joins the front of the list. */
    method Register(ghost s0: seq<seq<Page>>, pages: seq<Page>) returns (minor: nat)
      requires Healthy(ncolors, color, width, s0, heads, devices, nbdevices)
      requires |stacks| == ncolors && Colored(stacks, color) && Conserved(s0, stacks, pages, color)
      modifies this
      ensures Valid() && stacks == old(stacks) && heads == old(heads)
      ensures minor == old(nbdevices) + 1 && nbdevices == minor
      ensures devices == [ColoredDev(minor, pages)] + old(devices)
    {
      minor := nbdevices + 1;
      var ds := [ColoredDev(minor, pages)] + devices;
      CreatedHealthy(ncolors, color, width, s0, stacks, heads, devices, nbdevices, pages, ds, minor);
      nbdevices := minor;
      devices := ds;
    }

    /** Walks the device list for `minor`, as ioctl_free does. */
    method FindDevice(minor: nat) returns (k: nat)
      ensures k == Find(devices, minor)
    {
      k := 0;
      while k < |devices| && devices[k].minor != minor
        invariant k <= |devices|
        invariant Find(devices, minor) == k + Find(devices[k..], minor)
      {
        assert devices[k..][1..] == devices[k + 1..];
        k := k + 1;
      }
    }

    /** ioctl_free: an unknown minor is -EINVAL and changes nothing;
        otherwise the device leaves the list and its pages go back. */
    method IoctlFree(minor: nat) returns (err: int)
      requires Valid()
      modifies this
      ensures Valid() && heads == old(heads) && nbdevices == old(nbdevices)
      ensures var k := Find(old(devices), minor);
        (err == EINVAL <==> k == |old(devices)|) && (err != EINVAL ==> err == 0)
      ensures err == EINVAL ==> devices == old(devices) && stacks == old(stacks)
      ensures var k := Find(old(devices), minor);
        err == 0 ==> (devices == old(devices)[..k] + old(devices)[k + 1..]
          && Pushed(old(stacks), stacks, old(devices)[k].pages, color))
    {
      var k := FindDevice(minor);
      if k == |devices| {
        return EINVAL;
      }
      var dev := devices[k];
      ghost var s0 := stacks;
      ghost var ds := devices;
      devices := devices[..k] + devices[k + 1..];
      FreeColored(dev);
      FreedHealthy(ncolors, color, width, s0, stacks, heads, ds, nbdevices, k);
      err := 0;
    }

    /** clean_devices: every device leaves the list and its pages go back. */
    method CleanDevices()
      requires Valid()
      modifies this
      ensures Valid() && heads == old(heads) && nbdevices == old(nbdevices) && devices == []
      ensures Pushed(old(stacks), stacks, AllPages(old(devices)), color)
    {
      ghost var s0, h0, ds0 := stacks, heads, devices;
      assert Healthy(ncolors, color, width, s0, h0, ds0, nbdevices);
      ReturnDevices();
      CleanedHealthy(ncolors, color, width, s0, stacks, h0, ds0, nbdevices);
    }

    /** The loop of clean_devices: the devices leave the list front first,
        each one's pages going back on the stacks. */
    method ReturnDevices()
      requires |stacks| == ncolors && Ranged(color, ncolors)
      modifies this
      ensures heads == old(heads) && nbdevices == old(nbdevices) && devices == []
      ensures Pushed(old(stacks), stacks, AllPages(old(devices)), color)
    {
      ghost var done: seq<Page> := [];
      while devices != []
        invariant |stacks| == ncolors
        invariant heads == old(heads) && nbdevices == old(nbdevices)
        invariant done + AllPages(devices) == AllPages(old(devices))
        invariant Pushed(old(stacks), stacks, done, color)
        decreases |devices|
      {
        var dev := devices[0];
        ghost var s1 := stacks;
        assert AllPages(devices) == dev.pages + AllPages(devices[1..]);
        devices := devices[1..];
        FreeColored(dev);
        PushedTwice(old(stacks), s1, stacks, done, dev.pages, color);
        done := done + dev.pages;
      }
      assert done == AllPages(old(devices)) by { assert done + [] == done; }
    }

    /** reserve_memory: `got` are the heads alloc_pages returns, in order;
        when it returns fewer than `nbh` the next allocation fails and the
        result is -ENOMEM. Every page of every head obtained is pushed on
        the stack of its colour. */
    method ReserveMemory(nbh: nat, got: seq<Page>) returns (err: int)
      requires Valid()
      modifies this
      ensures Valid() && devices == old(devices) && nbdevices == old(nbdevices)
      ensures err == (if |got| < nbh then ENOMEM else 0)
      ensures var taken := if |got| < nbh then got else got[..nbh];
        heads == old(heads) + taken && Pushed(old(stacks), stacks, Spread(taken, width), color)
    {
      ghost var s0, h0 := stacks, heads;
      assert Healthy(ncolors, color, width, s0, h0, devices, nbdevices);
      var n := PushHeads(nbh, got);
      ReservedHealthy(ncolors, color, width, s0, stacks, h0, got[..n], devices, nbdevices);
      if n < nbh {
        assert got[..n] == got;
        return ENOMEM;
      }
      return 0;
    }

    /** The loop of reserve_memory: the first `n` heads of `got`, at most
        `nbh`, join the heads and their pages go on the stacks. */
    method PushHeads(nbh: nat, got: seq<Page>) returns (n: nat)
      requires |stacks| == ncolors && Ranged(color, ncolors)
      modifies this
      ensures n == if |got| < nbh then |got| else nbh
      ensures heads == old(heads) + got[..n] && Pushed(old(stacks), stacks, Spread(got[..n], width), color)
      ensures devices == old(devices) && nbdevices == old(nbdevices)
    {
      n := 0;
      while n < nbh && n < |got|
        invariant 0 <= n <= nbh && n <= |got|
        invariant |stacks| == ncolors
        invariant devices == old(devices) && nbdevices == old(nbdevices)
        invariant heads == old(heads) + got[..n]
        invariant Pushed(old(stacks), stacks, Spread(got[..n], width), color)
      {
        var h := got[n];
        ghost var s1 := stacks;
        Reclaim(Run(h, width));
        SpreadOne(h, width);
        PushedTwice(old(stacks), s1, stacks, Spread(got[..n], width), Spread([h], width), color);
        assert got[..n + 1] == got[..n] + [h];
        SpreadAppend(got[..n], [h], width);
        heads := heads + [h];
        n := n + 1;
      }
    }

  }

  /** A stack cut down from a coloured one is still coloured. */
  lemma ColoredPrefix(s0: seq<seq<Page>>, s: seq<seq<Page>>, cols: seq<nat>, m: nat, color: Page -> nat)
    requires Colored(s0, color)
    requires cols != [] && forall j | 0 <= j < |cols| :: cols[j] < |s0|
    requires Carved(s0, s, cols, m)
    ensures Colored(s, color)
  {
    forall c, x | 0 <= c < |s| && 0 <= x < |s[c]|
      ensures color(s[c][x]) == c
    {
      if c in cols {
        var j :| 0 <= j < |cols| && cols[j] == c;
        assert s[c][x] == s0[c][x];
      }
    }
  }

  /** Pushing pages on the stacks of their colours keeps them coloured. */
  lemma ColoredPush(s1: seq<seq<Page>>, s2: seq<seq<Page>>, ps: seq<Page>, color: Page -> nat)
    requires Colored(s1, color) && |s2| == |s1|
    requires forall c | 0 <= c < |s2| :: s2[c] == s1[c] + Having(ps, color, c)
    ensures Colored(s2, color)
  {
    forall c, x | 0 <= c < |s2| && 0 <= x < |s2[c]|
      ensures color(s2[c][x]) == c
    {
      if x >= |s1[c]| {
        HavingMembers(ps, color, c);
        assert s2[c][x] in Having(ps, color, c);
      }
    }
  }

  /** Pushing the dealt pages back restores every stack as a multiset. */
  lemma RolledBack(s0: seq<seq<Page>>, s1: seq<seq<Page>>, s2: seq<seq<Page>>, dealt: seq<Page>, color: Page -> nat)
    requires |s1| == |s0| == |s2|
    requires forall c | 0 <= c < |s1| :: multiset(s1[c]) + multiset(Having(dealt, color, c)) == multiset(s0[c])
    requires forall c | 0 <= c < |s2| :: s2[c] == s1[c] + Having(dealt, color, c)
    ensures forall c | 0 <= c < |s2| :: multiset(s2[c]) == multiset(s0[c])
  {
  }
}
