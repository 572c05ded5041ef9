/** The C library pieces the parsers of ccontrol/src/lib/libc_bypass.c rely
    on: `isdigit`, `isspace` and glibc's `strtoul(str, &end, 0)` on an LP64
    build. A C string is modelled as the characters before its terminating
    NUL; reading at or past its length yields '\0'. A `char *` cursor that
    the C code advances is modelled as the remaining suffix. */
module CStdlib {

  /** ULONG_MAX on LP64. */
  const ULONG_MAX: nat := 0xFFFF_FFFF_FFFF_FFFF

  /** Arithmetic on `unsigned long` is modulo this. */
  const ULONG_MOD: nat := ULONG_MAX + 1

  /** ERANGE on Linux. */
  const ERANGE: nat := 34

  /** The character at `i`, or the terminating NUL. */
  function At(s: string, i: nat): char
  {
    if i < |s| then s[i] else '\0'
  }

  /** A C string holds no NUL before its end. */
  predicate CString(s: string)
  {
    forall i | 0 <= i < |s| :: s[i] != '\0'
  }

  /** isdigit in the C locale. */
  predicate IsDigit(ch: char)
  {
    '0' <= ch <= '9'
  }

  /** isspace in the C locale. */
  predicate IsSpace(ch: char)
  {
    ch == ' ' || ch == '\t' || ch == '\n' || ch == '\U{0B}' || ch == '\U{0C}' || ch == '\r'
  }

  /** The digit value strtoul gives `ch` in any base, or 36 when `ch` is no
      digit at all. */
  function DigitValue(ch: char): (v: nat)
    ensures v <= 36
    ensures IsDigit(ch) <==> v < 10
  {
    if '0' <= ch <= '9' then ch as nat - '0' as nat
    else if 'a' <= ch <= 'z' then ch as nat - 'a' as nat + 10
    else if 'A' <= ch <= 'Z' then ch as nat - 'A' as nat + 10
    else 36
  }

  /** The first position at or after `i` that is not white space. */
  function SkipSpace(s: string, i: nat): (k: nat)
    ensures i <= k && !IsSpace(At(s, k))
    ensures forall j | i <= j < k :: IsSpace(At(s, j))
    decreases |s| - i
  {
    if IsSpace(At(s, i)) then SkipSpace(s, i + 1) else i
  }

  /** The end of the longest run of digits of `base` starting at `k`. */
  function DigitsEnd(s: string, k: nat, base: nat): (e: nat)
    requires base <= 36
    ensures k <= e && (k <= |s| ==> e <= |s|)
    ensures forall j | k <= j < e :: DigitValue(At(s, j)) < base
    ensures DigitValue(At(s, e)) >= base
    decreases |s| - k
  {
    if DigitValue(At(s, k)) < base then
      (if k < |s| then DigitsEnd(s, k + 1, base) else assert false; k)
    else k
  }

  /** The bases strtoul reads with base 0. */
  predicate Radix(base: nat)
  {
    base == 8 || base == 10 || base == 16
  }

  /** `v * base`, spelled out per radix. */
  function Times(v: nat, base: nat): nat
    requires Radix(base)
  {
    if base == 8 then v * 8 else if base == 10 then v * 10 else v * 16
  }

  /** The number the digits s[k..e] denote in `base`. */
  function DigitsValue(s: string, k: nat, e: nat, base: nat): nat
    requires Radix(base)
    decreases e
  {
    if e <= k then 0 else Times(DigitsValue(s, k, e - 1, base), base) + DigitValue(At(s, e - 1))
  }

  /** What strtoul(s, &end, 0) returns, where it leaves `end`, and whether
      it sets errno to ERANGE. */
  datatype Conv = Conv(value: nat, end: nat, erange: bool)

  /** glibc's strtoul with base 0: leading white space, an optional sign,
      then a hexadecimal number after "0x"/"0X", an octal one after a
      leading "0", or a decimal one. With no digits nothing is consumed and
      the result is 0; past ULONG_MAX the result is ULONG_MAX with ERANGE;
      a minus sign negates modulo 2^64. */
  function StrToUL(s: string): (r: Conv)
    ensures r.value <= ULONG_MAX
    ensures r.end <= |s|
    ensures IsDigit(At(s, 0)) ==> r.end > 0
    ensures r.erange ==> r.value == ULONG_MAX
  {
    var k0 := SkipSpace(s, 0);
    var neg := At(s, k0) == '-';
    var k := if At(s, k0) == '-' || At(s, k0) == '+' then k0 + 1 else k0;
    var hex := At(s, k) == '0' && (At(s, k + 1) == 'x' || At(s, k + 1) == 'X') && DigitValue(At(s, k + 2)) < 16;
    var base := if hex then 16 else if At(s, k) == '0' then 8 else 10;
    var start := if hex then k + 2 else k;
    var e := DigitsEnd(s, start, base);
    if e == start then Conv(0, 0, false)
    else
      var v := DigitsValue(s, start, e, base);
      if v > ULONG_MAX then Conv(ULONG_MAX, e, true)
      else Conv(if neg && v > 0 then ULONG_MOD - v else v, e, false)
  }

  /** The decimal digit for `d`. */
  function DigitChar(d: nat): (ch: char)
    requires d < 10
    ensures IsDigit(ch) && DigitValue(ch) == d
  {
    ('0' as nat + d) as char
  }

  /** The decimal spelling of `n`, without leading zeros. */
  function Decimal(n: nat): (s: string)
    ensures |s| > 0
    ensures forall i | 0 <= i < |s| :: IsDigit(s[i])
    ensures n > 0 ==> s[0] != '0'
    decreases n
  {
    if n < 10 then [DigitChar(n)] else Decimal(n / 10) + [DigitChar(n % 10)]
  }

  /** Reading back a decimal spelling: the digits run to the end of the
      spelling and denote `n`. */
  lemma {:induction false} DecimalDigits(n: nat, rest: string)
    requires rest == [] || !IsDigit(rest[0])
    ensures var s := Decimal(n) + rest;
      DigitsEnd(s, 0, 10) == |Decimal(n)| && DigitsValue(s, 0, |Decimal(n)|, 10) == n
  {
    var d := Decimal(n);
    var s := d + rest;
    assert At(s, |d|) == (if rest == [] then '\0' else rest[0]);
    DigitsRun(s, 0, |d|, 10);
    DecimalValue(n, rest);
  }

  /** A run of `base` digits from `k` up to a non-digit at `e` ends at `e`. */
  lemma {:induction false} DigitsRun(s: string, k: nat, e: nat, base: nat)
    requires k <= e <= |s| && base <= 36
    requires forall j | k <= j < e :: DigitValue(At(s, j)) < base
    requires DigitValue(At(s, e)) >= base
    ensures DigitsEnd(s, k, base) == e
    decreases e - k
  {
    if k < e {
      DigitsRun(s, k + 1, e, base);
    }
  }

  /** The digits value only depends on the characters it reads. */
  lemma {:induction false} DigitsValuePrefix(s: string, t: string, k: nat, e: nat, base: nat)
    requires Radix(base)
    requires e <= |s| && e <= |t| && s[..e] == t[..e]
    ensures DigitsValue(s, k, e, base) == DigitsValue(t, k, e, base)
    decreases e
  {
    if k < e {
      assert At(s, e - 1) == s[..e][e - 1] == t[..e][e - 1] == At(t, e - 1);
      assert s[..e - 1] == s[..e][..e - 1] && t[..e - 1] == t[..e][..e - 1];
      DigitsValuePrefix(s, t, k, e - 1, base);
    }
  }

  lemma {:induction false} DecimalValue(n: nat, rest: string)
    ensures DigitsValue(Decimal(n) + rest, 0, |Decimal(n)|, 10) == n
    decreases n
  {
    var d := Decimal(n);
    var s := d + rest;
    if n < 10 {
      assert At(s, 0) == DigitChar(n);
    } else {
      var d' := Decimal(n / 10);
      DecimalValue(n / 10, []);
      assert d == d' + [DigitChar(n % 10)];
      assert s[..|d'|] == (d' + [])[..|d'|];
      DigitsValuePrefix(s, d' + [], 0, |d'|, 10);
      assert At(s, |d| - 1) == DigitChar(n % 10);
    }
  }

  /** strtoul reads back the decimal spelling of any `unsigned long`, up to a
      following character that is not a digit and cannot turn a leading
      "0" into a hexadecimal prefix. */
  lemma {:induction false} StrToULDecimal(n: nat, rest: string)
    requires n <= ULONG_MAX
    requires rest == [] || (!IsDigit(rest[0]) && rest[0] != 'x' && rest[0] != 'X')
    ensures StrToUL(Decimal(n) + rest) == Conv(n, |Decimal(n)|, false)
  {
    var d := Decimal(n);
    var s := d + rest;
    assert At(s, 0) == d[0];
    assert !IsSpace(At(s, 0));
    assert SkipSpace(s, 0) == 0;
    if n == 0 {
      assert d == ['0'];
      assert At(s, 1) == (if rest == [] then '\0' else rest[0]);
      DigitsRun(s, 0, 1, 8);
      assert DigitsValue(s, 0, 1, 8) == 0;
    } else {
      DecimalDigits(n, rest);
      assert At(s, 0) != '0';
    }
  }
}
