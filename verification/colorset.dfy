/** The colour set of ccontrol/lib/colorset.h: a bit mask over COLOR_SETSIZE
    cache colours, stored in an array of machine words in the manner of
    FD_SET. The modelled build is LP64, so a word (`unsigned long`) holds 64
    bits and a set holds 1024 / 64 = 16 words. */
module ColorSets {

  /** __NBITS: bits in one `unsigned long`. */
  const NBITS: nat := 64

  /** __MAX_COLORS. */
  const MAX_COLORS: nat := 1024

  /** __CSET_SIZE: words in a colour set. */
  const CSET_SIZE: nat := MAX_COLORS / NBITS

  /** COLOR_SETSIZE: the number of colours a set can hold. */
  const COLOR_SETSIZE: nat := MAX_COLORS

  type Word = bv64

  /** __COLORELT: the word holding colour `c`. */
  function ColorElt(c: nat): (i: nat)
    ensures c < COLOR_SETSIZE ==> i < CSET_SIZE
  {
    c / NBITS
  }

  /** The position of colour `c` inside its word. */
  function BitOf(c: nat): bv6
  {
    (c % NBITS) as bv6
  }

  /** The single-bit word with bit `b` set. */
  function Mask(b: bv6): Word
  {
    1 << b
  }

  /** __COLORMASK. */
  function ColorMask(c: nat): Word
  {
    Mask(BitOf(c))
  }

  /** Whether bit `b` of `w` is set. */
  predicate Bit(w: Word, b: bv6)
  {
    w & Mask(b) != 0
  }

  /** COLOR_ISSET over the words of a colour set. */
  predicate IsSetIn(words: seq<Word>, c: nat)
    requires |words| == CSET_SIZE && c < COLOR_SETSIZE
  {
    Bit(words[ColorElt(c)], BitOf(c))
  }

  /** The colours a set holds. */
  ghost function Members(words: seq<Word>): set<nat>
    requires |words| == CSET_SIZE
  {
    set c | 0 <= c < COLOR_SETSIZE && IsSetIn(words, c)
  }

  lemma BitSetSame(w: Word, b: bv6)
    ensures Bit(w | Mask(b), b)
  {
  }

  lemma BitSetOther(w: Word, b: bv6, d: bv6)
    requires b != d
    ensures Bit(w | Mask(b), d) == Bit(w, d)
  {
  }

  lemma BitClearSame(w: Word, b: bv6)
    ensures !Bit(w & !Mask(b), b)
  {
  }

  lemma BitClearOther(w: Word, b: bv6, d: bv6)
    requires b != d
    ensures Bit(w & !Mask(b), d) == Bit(w, d)
  {
  }

  lemma BitPosition(x: nat)
    requires x < 64
    ensures (x as bv6) as nat == x
  {
  }

  /** Distinct colours never share both a word and a bit position. */
  lemma {:induction false} ColorPosition(c: nat, d: nat)
    requires c != d && ColorElt(c) == ColorElt(d)
    ensures BitOf(c) != BitOf(d)
  {
    assert c % NBITS != d % NBITS;
    BitPosition(c % NBITS);
    BitPosition(d % NBITS);
  }

  /** Replacing the word that holds `c` leaves a colour held by another
      word alone. */
  lemma {:induction false} OtherWord(words: seq<Word>, c: nat, d: nat, w: Word)
    requires |words| == CSET_SIZE && c < COLOR_SETSIZE && d < COLOR_SETSIZE
    requires ColorElt(d) != ColorElt(c)
    ensures IsSetIn(words[ColorElt(c) := w], d) == IsSetIn(words, d)
  {
    assert words[ColorElt(c) := w][ColorElt(d)] == words[ColorElt(d)];
  }

  /** A colour sharing `c`'s word keeps its bit when `c` is set. */
  lemma {:induction false} SetSameWord(words: seq<Word>, c: nat, d: nat)
    requires |words| == CSET_SIZE && c < COLOR_SETSIZE && d < COLOR_SETSIZE && d != c
    requires ColorElt(d) == ColorElt(c)
    ensures IsSetIn(words[ColorElt(c) := words[ColorElt(c)] | ColorMask(c)], d) == IsSetIn(words, d)
  {
    var i, bc, bd := ColorElt(c), BitOf(c), BitOf(d);
    ColorPosition(c, d);
    BitSetOther(words[i], bc, bd);
  }

  /** A colour sharing `c`'s word keeps its bit when `c` is cleared. */
  lemma {:induction false} ClearSameWord(words: seq<Word>, c: nat, d: nat)
    requires |words| == CSET_SIZE && c < COLOR_SETSIZE && d < COLOR_SETSIZE && d != c
    requires ColorElt(d) == ColorElt(c)
    ensures IsSetIn(words[ColorElt(c) := words[ColorElt(c)] & !ColorMask(c)], d) == IsSetIn(words, d)
  {
    ColorPosition(c, d);
    BitClearOther(words[ColorElt(c)], BitOf(c), BitOf(d));
  }

  /** The words after COLOR_SET(c): colour `c` is in, every other colour
      keeps its membership. */
  function WithColor(words: seq<Word>, c: nat): (r: seq<Word>)
    requires |words| == CSET_SIZE && c < COLOR_SETSIZE
    ensures |r| == CSET_SIZE
    ensures IsSetIn(r, c)
    ensures forall d | 0 <= d < COLOR_SETSIZE && d != c :: IsSetIn(r, d) == IsSetIn(words, d)
  {
    BitSetSame(words[ColorElt(c)], BitOf(c));
    forall d | 0 <= d < COLOR_SETSIZE && d != c
      ensures IsSetIn(words[ColorElt(c) := words[ColorElt(c)] | ColorMask(c)], d) == IsSetIn(words, d)
    {
      if ColorElt(d) == ColorElt(c) {
        SetSameWord(words, c, d);
      } else {
        OtherWord(words, c, d, words[ColorElt(c)] | ColorMask(c));
      }
    }
    words[ColorElt(c) := words[ColorElt(c)] | ColorMask(c)]
  }

  /** The words after COLOR_CLR(c): colour `c` is out, every other colour
      keeps its membership. */
  function WithoutColor(words: seq<Word>, c: nat): (r: seq<Word>)
    requires |words| == CSET_SIZE && c < COLOR_SETSIZE
    ensures |r| == CSET_SIZE
    ensures !IsSetIn(r, c)
    ensures forall d | 0 <= d < COLOR_SETSIZE && d != c :: IsSetIn(r, d) == IsSetIn(words, d)
  {
    BitClearSame(words[ColorElt(c)], BitOf(c));
    forall d | 0 <= d < COLOR_SETSIZE && d != c
      ensures IsSetIn(words[ColorElt(c) := words[ColorElt(c)] & !ColorMask(c)], d) == IsSetIn(words, d)
    {
      if ColorElt(d) == ColorElt(c) {
        ClearSameWord(words, c, d);
      } else {
        OtherWord(words, c, d, words[ColorElt(c)] & !ColorMask(c));
      }
    }
    words[ColorElt(c) := words[ColorElt(c)] & !ColorMask(c)]
  }

  /** The words after COLOR_ZERO: no colour is set. */
  function NoColors(): (r: seq<Word>)
    ensures |r| == CSET_SIZE
    ensures forall c | 0 <= c < COLOR_SETSIZE :: !IsSetIn(r, c)
  {
    seq(CSET_SIZE, _ => 0)
  }

  /** COLOR_SET adds exactly `c` to the set. */
  lemma {:induction false} MembersWithColor(words: seq<Word>, c: nat)
    requires |words| == CSET_SIZE && c < COLOR_SETSIZE
    ensures Members(WithColor(words, c)) == Members(words) + {c}
  {
    var r := WithColor(words, c);
    forall d | d in Members(r) ensures d in Members(words) + {c} {
    }
    forall d | d in Members(words) + {c} ensures d in Members(r) {
    }
  }

  /** COLOR_CLR removes exactly `c` from the set. */
  lemma {:induction false} MembersWithoutColor(words: seq<Word>, c: nat)
    requires |words| == CSET_SIZE && c < COLOR_SETSIZE
    ensures Members(WithoutColor(words, c)) == Members(words) - {c}
  {
    var r := WithoutColor(words, c);
    forall d | d in Members(r) ensures d in Members(words) - {c} {
    }
    forall d | d in Members(words) - {c} ensures d in Members(r) {
    }
  }

  /** COLOR_ZERO empties the set. */
  lemma {:induction false} MembersNoColors()
    ensures Members(NoColors()) == {}
  {
    forall d | d in Members(NoColors()) ensures false {
    }
  }

  /** COLOR_SET and COLOR_CLR are idempotent: a second application leaves
      the set as the first one left it. */
  lemma {:induction false} WithColorIdempotent(words: seq<Word>, c: nat)
    requires |words| == CSET_SIZE && c < COLOR_SETSIZE
    ensures Members(WithColor(WithColor(words, c), c)) == Members(WithColor(words, c))
  {
    MembersWithColor(words, c);
    MembersWithColor(WithColor(words, c), c);
  }

  lemma {:induction false} WithoutColorIdempotent(words: seq<Word>, c: nat)
    requires |words| == CSET_SIZE && c < COLOR_SETSIZE
    ensures Members(WithoutColor(WithoutColor(words, c), c)) == Members(WithoutColor(words, c))
  {
    MembersWithoutColor(words, c);
    MembersWithoutColor(WithoutColor(words, c), c);
  }

  /** A `color_set` object: its words are updated in place. */
  class ColorSet {
    var bits: array<Word>

    ghost predicate Valid()
      reads this
    {
      bits.Length == CSET_SIZE
    }

    function Words(): seq<Word>
      reads this, bits
    {
      bits[..]
    }

    /** A set holding whatever words it was created with (a `color_set`
        on the stack is not cleared until COLOR_ZERO runs). */
    constructor (words: seq<Word>)
      requires |words| == CSET_SIZE
      ensures Valid() && Words() == words && fresh(bits)
    {
      bits := new Word[CSET_SIZE](i requires 0 <= i < CSET_SIZE => words[i]);
    }

    /** COLOR_ISSET(c, this). */
    predicate IsSet(c: nat)
      requires Valid() && c < COLOR_SETSIZE
      reads this, bits
    {
      IsSetIn(bits[..], c)
    }

    /** COLOR_SET(c, this). */
    method Set(c: nat)
      requires Valid() && c < COLOR_SETSIZE
      modifies bits
      ensures Valid() && Words() == WithColor(old(Words()), c)
    {
      bits[ColorElt(c)] := bits[ColorElt(c)] | ColorMask(c);
    }

    /** COLOR_CLR(c, this). */
    method Clr(c: nat)
      requires Valid() && c < COLOR_SETSIZE
      modifies bits
      ensures Valid() && Words() == WithoutColor(old(Words()), c)
    {
      bits[ColorElt(c)] := bits[ColorElt(c)] & !ColorMask(c);
    }

    /** COLOR_ZERO(this): a loop clearing every word. */
    method Zero()
      requires Valid()
      modifies bits
      ensures Valid() && Words() == NoColors()
    {
      var i := 0;
      while i < CSET_SIZE
        invariant 0 <= i <= CSET_SIZE
        invariant forall k | 0 <= k < i :: bits[k] == 0
      {
        bits[i] := 0;
        i := i + 1;
      }
    }
  }
}
