/** The two parsers of ccontrol/src/lib/libc_bypass.c, which read the
    colour set and the zone size from the environment.

    A colour list is a sequence of tokens `a` or `a-b` separated by ','.
    Each number is read by strtoul with base 0, so "0x10" is sixteen and a
    leading '0' makes a number octal: "08" reads as the two tokens "0" and
    "8". A size is a number read the same way, optionally followed by k, m
    or g (either case). */
module BypassParse {
  import opened CStdlib
  import opened ColorSets

  // ---------------------------------------------------------------------
  // parse_color_list
  // ---------------------------------------------------------------------

  /** The colours a <= x <= b. */
  function Span(a: nat, b: int): (r: set<nat>)
    ensures forall x :: x in r <==> a <= x <= b
    decreases b - a
  {
    if b < a then {} else Span(a, b - 1) + {b as nat}
  }

  /** The first token of a colour list: rejected, or the range it names
      and the text after it (past a separating ','). */
  datatype Token = Reject | Range(lo: nat, hi: nat, rest: string)

  /** A token whose bounds are known: a reversed range or an upper bound
      past the set's capacity is rejected. */
  function Bounded(a: nat, b: nat, rest: string): (t: Token)
    ensures t.Range? ==> t.lo <= t.hi < COLOR_SETSIZE && |t.rest| <= |rest|
    ensures t.Range? <==> a <= b < COLOR_SETSIZE
  {
    if a > b then Reject
    else if b >= COLOR_SETSIZE then Reject
    else Range(a, b, if At(rest, 0) == ',' then rest[1..] else rest)
  }

  /** The first token of `s`. Each bound must start with a decimal digit
      and must not overflow `unsigned long`. */
  function FirstToken(s: string): (t: Token)
    ensures t.Range? ==> t.lo <= t.hi < COLOR_SETSIZE && |t.rest| < |s|
    ensures !IsDigit(At(s, 0)) ==> t.Reject?
  {
    if !IsDigit(At(s, 0)) then Reject else AfterFirst(s, StrToUL(s))
  }

  /** The token whose first bound strtoul read from `s` as `first`: a
      single colour, or a range when a '-' follows. */
  function AfterFirst(s: string, first: Conv): (t: Token)
    requires first.end <= |s|
    ensures t.Range? ==> t.lo <= t.hi < COLOR_SETSIZE && |t.rest| <= |s| - first.end
  {
    if first.erange then Reject
    else
      var s1 := s[first.end..];
      if At(s1, 0) == '-' then AfterDash(first.value, s1[1..])
      else Bounded(first.value, first.value, s1)
  }

  /** The token whose first bound is `a`, with the text `s2` after its '-'. */
  function AfterDash(a: nat, s2: string): (t: Token)
    ensures t.Range? ==> t.lo <= t.hi < COLOR_SETSIZE && |t.rest| <= |s2|
  {
    if !IsDigit(At(s2, 0)) then Reject else AfterSecond(a, s2, StrToUL(s2))
  }

  /** The range from `a` to the bound strtoul read from `s2` as `second`. */
  function AfterSecond(a: nat, s2: string, second: Conv): (t: Token)
    requires second.end <= |s2|
    ensures t.Range? ==> t.lo <= t.hi < COLOR_SETSIZE && |t.rest| <= |s2|
  {
    if second.erange then Reject else Bounded(a, second.value, s2[second.end..])
  }

  /** The outcome of parse_color_list: its result and the colours set. */
  datatype Parsed = Parsed(code: int, colors: set<nat>)

  /** parse_color_list on the text `s` after the colours `acc` have been
      set: tokens are read and their ranges set until a token is rejected
      (result 1, the colours set so far stay set) or the text ends after a
      token (result 0). */
  function ColorList(s: string, acc: set<nat>): (r: Parsed)
    ensures r.code == 0 || r.code == 1
    ensures acc <= r.colors
    ensures forall x | x in r.colors && x !in acc :: x < COLOR_SETSIZE
    ensures !IsDigit(At(s, 0)) ==> r == Parsed(1, acc)
    decreases |s|
  {
    match FirstToken(s)
    case Reject => Parsed(1, acc)
    case Range(a, b, rest) =>
      if At(rest, 0) == '\0' then Parsed(0, acc + Span(a, b))
      else ColorList(rest, acc + Span(a, b))
  }

  /** parse_color_list(c, input): clears the set, then walks the text with
      a cursor, setting every colour of each range in turn. The result and
      the colours left in the set are those of ColorList. */
  method ParseColorList(c: ColorSet, input: string) returns (code: int)
    requires c.Valid()
    modifies c.bits
    ensures c.Valid()
    ensures code == ColorList(input, {}).code
    ensures Members(c.Words()) == ColorList(input, {}).colors
  {
    c.Zero();
    MembersNoColors();
    var str := input;
    while true
      invariant c.Valid()
      invariant ColorList(str, Members(c.Words())) == ColorList(input, {})
      decreases |str|
    {
      var t := ReadToken(str);
      if t.Reject? {
        return 1;
      }
      SetSpan(c, t.lo, t.hi);
      str := t.rest;
      if At(str, 0) == '\0' {
        return 0;
      }
    }
  }

  /** The inner loop of parse_color_list: sets the colours a..b one by
      one. */
  method SetSpan(c: ColorSet, a: nat, b: nat)
    requires c.Valid() && a <= b < COLOR_SETSIZE
    modifies c.bits
    ensures c.Valid()
    ensures Members(c.Words()) == old(Members(c.Words())) + Span(a, b)
  {
    ghost var acc := Members(c.Words());
    var x := a;
    while x <= b
      invariant c.Valid()
      invariant a <= x <= b + 1
      invariant Members(c.Words()) == acc + Span(a, x as int - 1)
    {
      ghost var w := c.Words();
      c.Set(x);
      MembersWithColor(w, x);
      assert Span(a, x) == Span(a, x as int - 1) + {x};
      x := x + 1;
    }
  }

  /** One pass of parse_color_list's loop up to setting the bits: a number
      that must start with a digit and not overflow, then after a '-' a
      second one, then the bounds checks, then a separating ','. */
  method ReadToken(input: string) returns (t: Token)
    ensures t == FirstToken(input)
  {
    var str := input;
    if !IsDigit(At(str, 0)) {
      return Reject;
    }
    var r := StrToUL(str);
    assert FirstToken(input) == AfterFirst(input, r);
    if r.erange {
      return Reject;
    }
    var a := r.value;
    var b := a;
    str := str[r.end..];
    if At(str, 0) == '-' {
      str := str[1..];
      if !IsDigit(At(str, 0)) {
        return Reject;
      }
      var r2 := StrToUL(str);
      assert AfterDash(a, str) == AfterSecond(a, str, r2);
      if r2.erange {
        return Reject;
      }
      b := r2.value;
      str := str[r2.end..];
    }
    if a > b {
      return Reject;
    }
    if b >= COLOR_SETSIZE {
      return Reject;
    }
    if At(str, 0) == ',' {
      str := str[1..];
    }
    return Range(a, b, str);
  }

  // ---------------------------------------------------------------------
  // What parse_color_list accepts
  // ---------------------------------------------------------------------

  /** A range of colours, written "lo-hi". */
  datatype Run = Run(lo: nat, hi: nat)

  predicate ValidRuns(runs: seq<Run>)
  {
    forall i | 0 <= i < |runs| :: runs[i].lo <= runs[i].hi < COLOR_SETSIZE
  }

  /** The decimal spelling of a list of ranges, separated by ','. */
  function Render(runs: seq<Run>): string
  {
    if runs == [] then []
    else
      Decimal(runs[0].lo) + ("-" + (Decimal(runs[0].hi)
      + (if |runs| == 1 then [] else "," + Render(runs[1..]))))
  }

  /** The colours a list of ranges covers. */
  function Covered(runs: seq<Run>): set<nat>
  {
    if runs == [] then {} else Span(runs[0].lo, runs[0].hi) + Covered(runs[1..])
  }

  /** A number spelled in decimal and followed by a '-' opens a range. */
  lemma {:induction false} DashToken(a: nat, t: string)
    requires a <= ULONG_MAX && t != [] && t[0] == '-'
    ensures FirstToken(Decimal(a) + t) == AfterDash(a, t[1..])
  {
    var s := Decimal(a) + t;
    StrToULDecimal(a, t);
    assert At(s, 0) == Decimal(a)[0];
    assert s[|Decimal(a)|..] == t;
  }

  /** A number spelled in decimal after a '-' closes the range. */
  lemma {:induction false} SecondBound(a: nat, b: nat, rest: string)
    requires b <= ULONG_MAX
    requires rest == [] || (!IsDigit(rest[0]) && rest[0] != 'x' && rest[0] != 'X')
    ensures AfterDash(a, Decimal(b) + rest) == Bounded(a, b, rest)
  {
    var s := Decimal(b) + rest;
    StrToULDecimal(b, rest);
    assert At(s, 0) == Decimal(b)[0];
    assert s[|Decimal(b)|..] == rest;
  }

  /** The token "a-b" followed by text that cannot extend its second
      number is the range from a to b, subject to the bounds checks. */
  lemma {:induction false} RangeToken(a: nat, b: nat, rest: string)
    requires a <= ULONG_MAX && b <= ULONG_MAX
    requires rest == [] || (!IsDigit(rest[0]) && rest[0] != 'x' && rest[0] != 'X')
    ensures FirstToken(Decimal(a) + ("-" + (Decimal(b) + rest))) == Bounded(a, b, rest)
  {
    var t := "-" + (Decimal(b) + rest);
    DashToken(a, t);
    assert t[1..] == Decimal(b) + rest;
    SecondBound(a, b, rest);
  }

  /** The token "a" followed by anything but a digit, an 'x' or a '-' is
      the single colour a, subject to the bounds check. */
  lemma {:induction false} SingleToken(a: nat, rest: string)
    requires a <= ULONG_MAX
    requires rest == [] || (!IsDigit(rest[0]) && rest[0] != 'x' && rest[0] != 'X' && rest[0] != '-')
    ensures FirstToken(Decimal(a) + rest) == Bounded(a, a, rest)
  {
    var s := Decimal(a) + rest;
    StrToULDecimal(a, rest);
    assert At(s, 0) == Decimal(a)[0];
    assert s[|Decimal(a)|..] == rest;
  }

  /** The first token of a rendered list is its first range. */
  lemma {:induction false} FirstTokenRendered(runs: seq<Run>)
    requires runs != [] && ValidRuns(runs)
    ensures FirstToken(Render(runs))
              == Range(runs[0].lo, runs[0].hi, if |runs| == 1 then [] else Render(runs[1..]))
  {
    var a, b := runs[0].lo, runs[0].hi;
    var tail: string := if |runs| == 1 then [] else "," + Render(runs[1..]);
    assert Render(runs) == Decimal(a) + ("-" + (Decimal(b) + tail));
    RangeToken(a, b, tail);
  }

  lemma {:induction false} ValidRunsTail(runs: seq<Run>)
    requires runs != [] && ValidRuns(runs)
    ensures ValidRuns(runs[1..])
  {
    forall i | 0 <= i < |runs| - 1 ensures runs[1..][i].lo <= runs[1..][i].hi < COLOR_SETSIZE {
      assert runs[1..][i] == runs[i + 1];
    }
  }

  /** parse_color_list reads back every list of valid ranges it is given
      in decimal: the result is 0 and the colours set are those covered. */
  lemma {:induction false} RenderParses(runs: seq<Run>, acc: set<nat>)
    requires runs != [] && ValidRuns(runs)
    ensures ColorList(Render(runs), acc) == Parsed(0, acc + Covered(runs))
    decreases |runs|
  {
    FirstTokenRendered(runs);
    var a, b := runs[0].lo, runs[0].hi;
    if |runs| == 1 {
      assert Covered(runs) == Span(a, b) + Covered([]);
    } else {
      var rest := runs[1..];
      ValidRunsTail(runs);
      RenderParses(rest, acc + Span(a, b));
      assert At(Render(rest), 0) == Decimal(rest[0].lo)[0];
      assert ColorList(Render(runs), acc) == ColorList(Render(rest), acc + Span(a, b));
      assert acc + Span(a, b) + Covered(rest) == acc + Covered(runs);
    }
  }

  /** A reversed range, or one reaching past colour 1023, is rejected with
      result 1 and leaves only the colours set before it. */
  lemma {:induction false} BadRangeRejected(a: nat, b: nat, rest: string, acc: set<nat>)
    requires a <= ULONG_MAX && b <= ULONG_MAX
    requires a > b || b >= COLOR_SETSIZE
    requires rest == [] || (!IsDigit(rest[0]) && rest[0] != 'x' && rest[0] != 'X')
    ensures ColorList(Decimal(a) + ("-" + (Decimal(b) + rest)), acc) == Parsed(1, acc)
  {
    RangeToken(a, b, rest);
  }

  /** A single colour followed by ',' and more text is set, and the
      parse goes on with the text after the ','. */
  lemma {:induction false} SingleThenMore(a: nat, t: string, acc: set<nat>)
    requires a < COLOR_SETSIZE
    requires |t| > 1 && t[0] == ',' && t[1] != '\0'
    ensures ColorList(Decimal(a) + t, acc) == ColorList(t[1..], acc + {a})
  {
    SingleToken(a, t);
    assert Span(a, a) == {a};
  }

  /** A rejected token does not undo the ranges set before it: "1,5-2"
      gives result 1 with colour 1 set. */
  lemma {:induction false} PartialSetKept(a: nat, x: nat, y: nat, acc: set<nat>)
    requires a < COLOR_SETSIZE && y < x <= ULONG_MAX
    ensures ColorList(Decimal(a) + ("," + (Decimal(x) + ("-" + Decimal(y)))), acc) == Parsed(1, acc + {a})
  {
    var u := Decimal(x) + ("-" + Decimal(y));
    var t := "," + u;
    assert t[1] == Decimal(x)[0];
    SingleThenMore(a, t, acc);
    assert t[1..] == u;
    assert Decimal(y) + [] == Decimal(y);
    BadRangeRejected(x, y, [], acc + {a});
  }

  /** A leading '0' makes a number octal: "010" is colour 8. */
  lemma OctalTen()
    ensures ColorList("010", {}) == Parsed(0, {8})
  {
    var s := "010";
    assert DigitsEnd(s, 3, 8) == 3;
    assert DigitsEnd(s, 0, 8) == 3;
    assert DigitsValue(s, 0, 3, 8) == 8;
    assert StrToUL(s) == Conv(8, 3, false);
    assert FirstToken(s) == Range(8, 8, []);
    assert Span(8, 8) == {8};
  }

  /** A '0' followed by an 8 or a 9 is the octal number 0 on its own. */
  lemma {:induction false} OctalZero(t: string)
    requires t != [] && (t[0] == '8' || t[0] == '9')
    ensures FirstToken("0" + t) == Range(0, 0, t)
  {
    var s := "0" + t;
    assert At(s, 1) == t[0];
    assert DigitsEnd(s, 1, 8) == 1;
    assert DigitsEnd(s, 0, 8) == 1;
    assert DigitsValue(s, 0, 1, 8) == 0;
    assert StrToUL(s) == Conv(0, 1, false);
    assert s[1..] == t;
  }

  /** An octal number stops at its first digit 8 or 9: "08" is the two
      colours 0 and 8, and "099" the colours 0 and 99, with no ','
      between them. */
  lemma {:induction false} OctalSplit(d: nat, acc: set<nat>)
    requires d < COLOR_SETSIZE && (Decimal(d)[0] == '8' || Decimal(d)[0] == '9')
    ensures ColorList("0" + Decimal(d), acc) == Parsed(0, acc + {0, d})
  {
    OctalZero(Decimal(d));
    assert Decimal(d) + [] == Decimal(d);
    SingleToken(d, []);
    assert Span(0, 0) == {0} && Span(d, d) == {d};
  }

  // ---------------------------------------------------------------------
  // parse_size
  // ---------------------------------------------------------------------

  /** What parse_size returns: strtoul's errno, or 0 with the size. */
  datatype SizeParse = SizeError(errno: nat) | SizeOk(size: nat)

  /** `r <<= 10` on an `unsigned long`. */
  function Shift10(x: nat): (r: nat)
    ensures r <= ULONG_MAX
  {
    (x * 1024) % ULONG_MOD
  }

  /** The number of ten-bit shifts the switch on the suffix applies: its
      cases fall through from 'g' to 'm' to 'k', shifting once in each. */
  function Shifts(suffix: char): (k: nat)
    ensures k <= 3
  {
    if suffix == 'g' || suffix == 'G' then 3
    else if suffix == 'm' || suffix == 'M' then 2
    else if suffix == 'k' || suffix == 'K' then 1
    else 0
  }

  /** `k` successive `r <<= 10`. */
  function ShiftN(x: nat, k: nat): (r: nat)
  {
    if k == 0 then x else Shift10(ShiftN(x, k - 1))
  }

  /** parse_size. An overflow in strtoul is reported with its errno;
      otherwise the number is shifted once per case the suffix falls
      through, each shift wrapping modulo 2^64. Text that is not a number
      reads as size 0. */
  function ParseSize(s: string): (r: SizeParse)
    ensures r.SizeError? <==> StrToUL(s).erange
    ensures r.SizeError? ==> r.errno == ERANGE
    ensures r.SizeOk? && Shifts(At(s, StrToUL(s).end)) == 0 ==> r.size == StrToUL(s).value
  {
    var conv := StrToUL(s);
    if conv.erange then SizeError(ERANGE)
    else SizeOk(ShiftN(conv.value, Shifts(At(s, conv.end))))
  }

  /** A size written in decimal without a suffix reads back unscaled. */
  lemma {:induction false} ParseSizeDecimal(n: nat)
    requires n <= ULONG_MAX
    ensures ParseSize(Decimal(n)) == SizeOk(n)
  {
    StrToULDecimal(n, []);
    assert Decimal(n) + [] == Decimal(n);
    assert At(Decimal(n), |Decimal(n)|) == '\0';
  }

  /** 1024 to the power `k`. */
  function Pow1024(k: nat): nat
  {
    if k == 0 then 1 else Pow1024(k - 1) * 1024
  }

  /** The power of two a suffix multiplies by. */
  function Scale(suffix: char): nat
  {
    Pow1024(Shifts(suffix))
  }

  /** Shifting twice is one shift by the product, modulo 2^64. */
  lemma ShiftMod(x: nat, m: nat)
    ensures (((x * m) % ULONG_MOD) * 1024) % ULONG_MOD == (x * (m * 1024)) % ULONG_MOD
  {
    var y := x * m;
    var q := y / ULONG_MOD;
    assert y == q * ULONG_MOD + y % ULONG_MOD;
    assert y * 1024 == (q * 1024) * ULONG_MOD + (y % ULONG_MOD) * 1024;
    ModAddMultiple((y % ULONG_MOD) * 1024, q * 1024);
    assert x * (m * 1024) == y * 1024;
  }

  /** Adding a multiple of 2^64 does not change a value modulo 2^64. */
  lemma {:induction false} ModAddMultiple(r: nat, k: nat)
    ensures (r + k * ULONG_MOD) % ULONG_MOD == r % ULONG_MOD
  {
    if k > 0 {
      ModAddMultiple(r, k - 1);
      assert r + k * ULONG_MOD == (r + (k - 1) * ULONG_MOD) + ULONG_MOD;
    }
  }

  /** A value below 2^64 is its own remainder. */
  lemma ModSmall(e: nat)
    requires e <= ULONG_MAX
    ensures e % ULONG_MOD == e
  {
  }

  /** `k` shifts of an `unsigned long` multiply it by 1024^k modulo 2^64. */
  lemma {:induction false} ShiftNScales(x: nat, k: nat)
    requires x <= ULONG_MAX
    ensures ShiftN(x, k) == (x * Pow1024(k)) % ULONG_MOD
  {
    if k > 0 {
      ShiftNScales(x, k - 1);
      ShiftMod(x, Pow1024(k - 1));
    }
  }

  /** parse_size reads back the decimal spelling of any `unsigned long`
      followed by a suffix: the number times the suffix's power of two,
      modulo 2^64. */
  lemma {:induction false} ParseSizeScales(n: nat, suffix: char)
    requires n <= ULONG_MAX
    requires !IsDigit(suffix) && suffix != 'x' && suffix != 'X'
    ensures ParseSize(Decimal(n) + [suffix]) == SizeOk((n * Scale(suffix)) % ULONG_MOD)
  {
    var s := Decimal(n) + [suffix];
    StrToULDecimal(n, [suffix]);
    assert At(s, |Decimal(n)|) == suffix;
    ShiftNScales(n, Shifts(suffix));
  }

  /** The shifts wrap silently: every positive multiple of 2^34 gibibytes,
      such as "17179869184g", is read as a size of 0, with no error. */
  lemma {:induction false} SizeWraps(k: nat)
    requires 0 < k && k * 0x4_0000_0000 <= ULONG_MAX
    ensures ParseSize(Decimal(k * 0x4_0000_0000) + "g") == SizeOk(0)
  {
    var n := k * 0x4_0000_0000;
    ParseSizeScales(n, 'g');
    assert Scale('g') == 0x4000_0000;
    assert n * 0x4000_0000 == 0 + k * ULONG_MOD;
    ModAddMultiple(0, k);
  }

  /** parse_size with the shifts checked: a number whose scaled value does
      not fit an `unsigned long` is reported as ERANGE, like an overflow in
      strtoul. */
  function ParseSizeChecked(s: string): (r: SizeParse)
    ensures r.SizeError? ==> r.errno == ERANGE
  {
    var conv := StrToUL(s);
    if conv.erange then SizeError(ERANGE)
    else
      var v := conv.value * Scale(At(s, conv.end));
      if v > ULONG_MAX then SizeError(ERANGE) else SizeOk(v)
  }

  /** The checked parser succeeds exactly when strtoul does not overflow
      and the scaled number fits; its size is then the number times its
      suffix's power of two, and parse_size agrees with it. */
  lemma {:induction false} ParseSizeCheckedExact(s: string)
    ensures var conv := StrToUL(s);
            var exact := conv.value * Scale(At(s, conv.end));
            && (ParseSizeChecked(s).SizeOk? <==> !conv.erange && exact <= ULONG_MAX)
            && (ParseSizeChecked(s).SizeOk? ==> ParseSizeChecked(s).size == exact && ParseSize(s) == ParseSizeChecked(s))
  {
    var conv := StrToUL(s);
    var ch := At(s, conv.end);
    var v := conv.value;
    var e := v * Scale(ch);
    if !conv.erange && e <= ULONG_MAX {
      ShiftNScales(v, Shifts(ch));
      ModSmall(e);
      assert ParseSize(s) == SizeOk(ShiftN(v, Shifts(ch)));
    }
  }
}
