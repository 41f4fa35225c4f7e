/** What a conversion looks like in a format, written from its parts, and that it is read back. */
module Formats {
  import opened Words
  import opened Wrappers
  import opened Numerals
  import opened Print

  /** A width or precision: left out, written in decimal digits, or taken from the arguments. */
  datatype Extent = Absent | Written(digits: seq<Byte>) | Taken

  ghost predicate ProperExtent(e: Extent) {
    e.Written? ==> |e.digits| > 0 && forall k {:trigger e.digits[k]} :: 0 <= k < |e.digits| ==> IsDigit(e.digits[k])
  }

  function ExtentText(e: Extent): seq<Byte> {
    match e
    case Absent => []
    case Written(digits) => digits
    case Taken => [STAR]
  }

  /** The value that is used, and how many arguments it takes. */
  function ExtentValue(e: Extent, args: seq<Arg>, a: nat): int
    requires e.Taken? ==> a < |args| && args[a].Int?
  {
    match e
    case Absent => -1
    case Written(digits) => Number(digits, 0, |digits|, 10)
    case Taken => Signed(args[a].w)
  }

  function ExtentArgs(e: Extent): nat {
    if e.Taken? then 1 else 0
  }

  /** The precision with the dot before it; a dot alone is no precision either. */
  function PrecisionText(e: Extent, dot: bool): seq<Byte> {
    if e.Absent? && !dot then [] else [DOT] + ExtentText(e)
  }

  const DOT: Byte := 0x2e

  predicate IsFlag(c: Byte) {
    c == 0x2d || c == 0x2b || c == SPACE || c == ZERO || c == 0x23
  }

  /** Flags may come in any order and more than once. */
  function FlagsIn(fs: seq<Byte>): Flags {
    Flags(0x2d in fs, 0x2b in fs, SPACE in fs, ZERO in fs, 0x23 in fs)
  }

  predicate IsLength(c: Byte) {
    c == 0x68 || c == 0x6c || c == 0x4c
  }

  /** A character that cannot be part of what comes before the conversion character. */
  predicate IsFinal(c: Byte) {
    !IsFlag(c) && !IsDigit(c) && !IsLength(c) && c != DOT && c != STAR
  }

  lemma TextBegins(fmt: seq<Byte>, i: nat, text: seq<Byte>)
    requires Comes(fmt, i, text) && text != []
    ensures i < |fmt| && fmt[i] == text[0]
  {
  }

  // ----- flags -----

  function Both(f: Flags, g: Flags): Flags {
    Flags(f.left || g.left, f.sign || g.sign, f.space || g.space, f.zero || g.zero, f.alternate || g.alternate)
  }

  lemma MoreFlags(f: Flags, fs: seq<Byte>)
    requires fs != [] && IsFlag(fs[0])
    ensures Flagged(f, fs[0]).Some? && Both(Flagged(f, fs[0]).value, FlagsIn(fs[1..])) == Both(f, FlagsIn(fs))
  {
    assert forall c :: c in fs <==> c == fs[0] || c in fs[1..];
  }

  lemma {:induction false} FlagsRead(fmt: seq<Byte>, i: nat, fs: seq<Byte>, f: Flags)
    requires Terminated(fmt) && Comes(fmt, i, fs) && (forall k {:trigger fs[k]} :: 0 <= k < |fs| ==> IsFlag(fs[k]))
    requires i + |fs| < |fmt| && !IsFlag(fmt[i + |fs|])
    ensures FlagsAt(fmt, i, f) == (Both(f, FlagsIn(fs)), i + |fs|)
    decreases |fs|
  {
    if fs != [] {
      assert fmt[i + 0] == fs[0] && IsFlag(fs[0]);
      assert fs[..1] + fs[1..] == fs;
      ComesSplit(fmt, i, fs[..1], fs[1..]);
      FlagsRead(fmt, i + 1, fs[1..], Flagged(f, fs[0]).value);
      MoreFlags(f, fs);
    }
  }

  lemma PlainFlagsRead(fmt: seq<Byte>, i: nat, fs: seq<Byte>)
    requires Terminated(fmt) && Comes(fmt, i, fs) && (forall k {:trigger fs[k]} :: 0 <= k < |fs| ==> IsFlag(fs[k]))
    requires i + |fs| < |fmt| && !IsFlag(fmt[i + |fs|])
    ensures FlagsAt(fmt, i, NO_FLAGS) == (FlagsIn(fs), i + |fs|)
  {
    FlagsRead(fmt, i, fs, NO_FLAGS);
    assert Both(NO_FLAGS, FlagsIn(fs)) == FlagsIn(fs);
  }

  // ----- width and precision -----

  /** Reading the first digits of a number. */
  lemma {:induction false} DecimalRead(fmt: seq<Byte>, i: nat, ds: seq<Byte>, k: nat)
    requires Terminated(fmt) && Comes(fmt, i, ds) && k <= |ds| && i + |ds| < |fmt|
    requires forall j {:trigger ds[j]} :: 0 <= j < |ds| ==> IsDigit(ds[j])
    ensures DecimalAt(fmt, i, 0) == DecimalAt(fmt, i + k, Number(ds, 0, k, 10))
  {
    if k > 0 {
      DecimalRead(fmt, i, ds, k - 1);
      assert fmt[i + (k - 1)] == ds[k - 1];
    }
  }

  lemma {:induction false} DecimalDigits(n: nat)
    ensures forall j {:trigger Digits(n, 10)[j]} :: 0 <= j < |Digits(n, 10)| ==> IsDigit(Digits(n, 10)[j])
    decreases n
  {
    QuotientFalls(n, 10);
    if n >= 10 {
      DecimalDigits(n / 10);
    }
  }

  /** A number written in base 10 stands for itself; only 0 begins with a zero. */
  lemma NumberExtent(n: nat, args: seq<Arg>, a: nat)
    ensures ProperExtent(Written(Digits(n, 10))) && ExtentValue(Written(Digits(n, 10)), args, a) == n
    ensures n > 0 ==> Digits(n, 10)[0] != ZERO
  {
    DecimalDigits(n);
    DigitsDenote(n, 10);
  }

  lemma ExtentRead(fmt: seq<Byte>, i: nat, e: Extent, args: seq<Arg>, a: nat)
    requires Terminated(fmt) && Comes(fmt, i, ExtentText(e)) && i + |ExtentText(e)| < |fmt|
    requires ProperExtent(e) && var c := fmt[i + |ExtentText(e)|]; !IsDigit(c) && (e.Absent? ==> c != STAR)
    requires e.Taken? ==> a < |args| && args[a].Int?
    ensures FieldAt(fmt, i, args, a) == Some(Field(ExtentValue(e, args, a), i + |ExtentText(e)|, a + ExtentArgs(e)))
  {
    var t := ExtentText(e);
    if t != [] {
      TextBegins(fmt, i, t);
    }
    if e.Written? {
      DecimalRead(fmt, i, t, |t|);
    }
  }

  lemma PrecisionRead(fmt: seq<Byte>, i: nat, e: Extent, dot: bool, args: seq<Arg>, a: nat)
    requires Terminated(fmt) && Comes(fmt, i, PrecisionText(e, dot)) && i + |PrecisionText(e, dot)| < |fmt|
    requires ProperExtent(e) && var c := fmt[i + |PrecisionText(e, dot)|]; !IsDigit(c) && c != STAR && c != DOT
    requires e.Taken? ==> a < |args| && args[a].Int?
    ensures PrecisionAt(fmt, i, args, a) == Some(Field(ExtentValue(e, args, a), i + |PrecisionText(e, dot)|, a + ExtentArgs(e)))
  {
    if !e.Absent? || dot {
      ComesSplit(fmt, i, [DOT], ExtentText(e));
      TextBegins(fmt, i, [DOT]);
      assert i + 1 + |ExtentText(e)| == i + |PrecisionText(e, dot)|;
      ExtentRead(fmt, i + 1, e, args, a);
    }
  }

  // ----- the whole conversion -----

  /** The parts of a conversion: flags, width, precision, length, and the conversion character. */
  datatype Parts = Parts(flags: seq<Byte>, width: Extent, precision: Extent, dot: bool, length: seq<Byte>, c: Byte)

  function PartsText(p: Parts): seq<Byte> {
    p.flags + (ExtentText(p.width) + (PrecisionText(p.precision, p.dot) + (p.length + [p.c])))
  }

  ghost predicate ProperParts(p: Parts) {
    && (forall k {:trigger p.flags[k]} :: 0 <= k < |p.flags| ==> IsFlag(p.flags[k])) && ProperExtent(p.width) && ProperExtent(p.precision)
    && (p.width.Written? ==> p.width.digits[0] != ZERO)
    && |p.length| <= 1 && (forall k {:trigger p.length[k]} :: 0 <= k < |p.length| ==> IsLength(p.length[k])) && IsFinal(p.c)
  }

  /** The arguments that width and precision take are integers. */
  ghost predicate ArgsFit(p: Parts, args: seq<Arg>, a: nat) {
    && a + ExtentArgs(p.width) + ExtentArgs(p.precision) <= |args|
    && forall k {:trigger args[k]} :: a <= k < a + ExtentArgs(p.width) + ExtentArgs(p.precision) ==> args[k].Int?
  }

  /** What a conversion written from its parts says. */
  function Meant(p: Parts, i: nat, args: seq<Arg>, a: nat): Conversion
    requires ArgsFit(p, args, a)
  {
    Conversion(FlagsIn(p.flags), ExtentValue(p.width, args, a), ExtentValue(p.precision, args, a + ExtentArgs(p.width)),
               i + |PartsText(p)| - 1, a + ExtentArgs(p.width) + ExtentArgs(p.precision))
  }

  /** With which characters the parts begin. */
  lemma PartsBegin(p: Parts)
    requires ProperParts(p)
    ensures var t3 := p.length + [p.c];
            var t2 := PrecisionText(p.precision, p.dot) + t3;
            var t1 := ExtentText(p.width) + t2;
            && !IsFlag(t3[0]) && !IsDigit(t3[0]) && t3[0] != STAR && t3[0] != DOT
            && !IsFlag(t2[0]) && !IsDigit(t2[0]) && t2[0] != STAR
            && !IsFlag(t1[0])
  {
    assert p.length != [] ==> IsLength(p.length[0]);
    assert p.width.Written? ==> IsDigit(p.width.digits[0]);
  }

  /** Where the parts are, and the characters at which they meet. */
  lemma FourParts(fmt: seq<Byte>, i: nat, a: seq<Byte>, b: seq<Byte>, c: seq<Byte>, d: seq<Byte>)
    requires Comes(fmt, i, a + (b + (c + d))) && d != []
    ensures Comes(fmt, i, a) && Comes(fmt, i + |a|, b) && Comes(fmt, i + |a| + |b|, c) && Comes(fmt, i + |a| + |b| + |c|, d)
    ensures i + |a| + |b| + |c| < |fmt| && fmt[i + |a| + |b| + |c|] == d[0]
    ensures fmt[i + |a| + |b|] == (c + d)[0] && fmt[i + |a|] == (b + (c + d))[0]
  {
    ComesSplit(fmt, i, a, b + (c + d));
    TextBegins(fmt, i + |a|, b + (c + d));
    ComesSplit(fmt, i + |a|, b, c + d);
    TextBegins(fmt, i + |a| + |b|, c + d);
    ComesSplit(fmt, i + |a| + |b|, c, d);
    TextBegins(fmt, i + |a| + |b| + |c|, d);
  }

  lemma LengthRead(fmt: seq<Byte>, l: nat, length: seq<Byte>, c: Byte)
    requires Terminated(fmt) && l < |fmt| && Comes(fmt, l, length + [c])
    requires |length| <= 1 && (forall k {:trigger length[k]} :: 0 <= k < |length| ==> IsLength(length[k])) && !IsLength(c)
    ensures l + |length| < |fmt| && fmt[l + |length|] == c && LengthEnd(fmt, l) == l + |length|
  {
    ComesSplit(fmt, l, length, [c]);
    TextBegins(fmt, l + |length|, [c]);
    if length != [] {
      TextBegins(fmt, l, length);
    }
  }

  /** Where the width, the precision and the length begin. */
  function WidthAt(i: nat, p: Parts): nat {
    i + |p.flags|
  }

  function DotAt(i: nat, p: Parts): nat {
    WidthAt(i, p) + |ExtentText(p.width)|
  }

  function LengthAt(i: nat, p: Parts): nat {
    DotAt(i, p) + |PrecisionText(p.precision, p.dot)|
  }

  /** The parts are there, with characters between them that end the one before. */
  ghost predicate Placed(fmt: seq<Byte>, i: nat, p: Parts) {
    var j, k, l := WidthAt(i, p), DotAt(i, p), LengthAt(i, p);
    && Comes(fmt, i, p.flags) && Comes(fmt, j, ExtentText(p.width)) && Comes(fmt, k, PrecisionText(p.precision, p.dot))
    && Comes(fmt, l, p.length + [p.c])
    && l < |fmt| && !IsFlag(fmt[j]) && !IsDigit(fmt[k]) && fmt[k] != STAR
    && !IsDigit(fmt[l]) && fmt[l] != STAR && fmt[l] != DOT
  }

  lemma PartsPlaced(fmt: seq<Byte>, i: nat, p: Parts)
    requires ProperParts(p) && Comes(fmt, i, PartsText(p))
    ensures Placed(fmt, i, p)
  {
    PartsBegin(p);
    FourParts(fmt, i, p.flags, ExtentText(p.width), PrecisionText(p.precision, p.dot), p.length + [p.c]);
  }

  lemma ThirdRead(fmt: seq<Byte>, i: nat, p: Parts, args: seq<Arg>, a: nat)
    requires Terminated(fmt) && ProperParts(p) && ArgsFit(p, args, a) && Placed(fmt, i, p)
    ensures var a1 := a + ExtentArgs(p.width);
            DotAt(i, p) < |fmt| && PrecisionAt(fmt, DotAt(i, p), args, a1) ==
                                   Some(Field(ExtentValue(p.precision, args, a1), LengthAt(i, p), a1 + ExtentArgs(p.precision)))
  {
    PrecisionRead(fmt, DotAt(i, p), p.precision, p.dot, args, a + ExtentArgs(p.width));
  }

  lemma SecondRead(fmt: seq<Byte>, i: nat, p: Parts, args: seq<Arg>, a: nat)
    requires Terminated(fmt) && ProperParts(p) && ArgsFit(p, args, a) && Placed(fmt, i, p)
    ensures WidthAt(i, p) < |fmt|
    ensures FieldAt(fmt, WidthAt(i, p), args, a) == Some(Field(ExtentValue(p.width, args, a), DotAt(i, p), a + ExtentArgs(p.width)))
  {
    ExtentRead(fmt, WidthAt(i, p), p.width, args, a);
  }

  lemma FirstRead(fmt: seq<Byte>, i: nat, p: Parts)
    requires Terminated(fmt) && i < |fmt| && ProperParts(p) && Placed(fmt, i, p)
    ensures WidthAt(i, p) < |fmt| && LengthAt(i, p) < |fmt| && FlagsAt(fmt, i, NO_FLAGS) == (FlagsIn(p.flags), WidthAt(i, p))
  {
    PlainFlagsRead(fmt, i, p.flags);
  }

  lemma Assembled(fmt: seq<Byte>, i: nat, args: seq<Arg>, a: nat, f: Flags, j: nat, width: int, k: nat, a1: nat, precision: int, l: nat, a2: nat)
    requires Terminated(fmt) && i < |fmt| && j < |fmt| && k < |fmt| && l < |fmt|
    requires FlagsAt(fmt, i, NO_FLAGS) == (f, j) && FieldAt(fmt, j, args, a) == Some(Field(width, k, a1))
    requires PrecisionAt(fmt, k, args, a1) == Some(Field(precision, l, a2))
    ensures ConversionAt(fmt, i, args, a) == Some(Conversion(f, width, precision, LengthEnd(fmt, l), a2))
  {
  }

  lemma PartsEnd(p: Parts, i: nat)
    ensures LengthAt(i, p) + |p.length| + 1 == i + |PartsText(p)|
  {
  }

  lemma PlacedRead(fmt: seq<Byte>, i: nat, p: Parts, args: seq<Arg>, a: nat)
    requires Terminated(fmt) && i < |fmt| && ProperParts(p) && ArgsFit(p, args, a) && Placed(fmt, i, p)
    ensures ConversionAt(fmt, i, args, a) ==
            Some(Conversion(FlagsIn(p.flags), ExtentValue(p.width, args, a), ExtentValue(p.precision, args, a + ExtentArgs(p.width)),
                            LengthEnd(fmt, LengthAt(i, p)), a + ExtentArgs(p.width) + ExtentArgs(p.precision)))
  {
    SecondRead(fmt, i, p, args, a);
    ThirdRead(fmt, i, p, args, a);
    FirstRead(fmt, i, p);
    var a1 := a + ExtentArgs(p.width);
    Assembled(fmt, i, args, a, FlagsIn(p.flags), WidthAt(i, p), ExtentValue(p.width, args, a), DotAt(i, p), a1,
              ExtentValue(p.precision, args, a1), LengthAt(i, p), a1 + ExtentArgs(p.precision));
  }

  lemma LastRead(fmt: seq<Byte>, i: nat, p: Parts)
    requires Terminated(fmt) && ProperParts(p) && Placed(fmt, i, p)
    ensures LengthAt(i, p) < |fmt| && LengthEnd(fmt, LengthAt(i, p)) == i + |PartsText(p)| - 1
    ensures i + |PartsText(p)| <= |fmt| && fmt[i + |PartsText(p)| - 1] == p.c
  {
    LengthRead(fmt, LengthAt(i, p), p.length, p.c);
    PartsEnd(p, i);
  }

  lemma PlacedIsMeant(fmt: seq<Byte>, i: nat, p: Parts, args: seq<Arg>, a: nat)
    requires Terminated(fmt) && i < |fmt| && ProperParts(p) && ArgsFit(p, args, a) && Placed(fmt, i, p)
    ensures ConversionAt(fmt, i, args, a) == Some(Meant(p, i, args, a))
  {
    LastRead(fmt, i, p);
    PlacedRead(fmt, i, p, args, a);
  }

  /** A conversion written from its parts is read back: the flags that occur, the width and precision that were written or that
      the arguments give, and the place of the conversion character behind the length. */
  lemma ConversionRead(fmt: seq<Byte>, i: nat, p: Parts, args: seq<Arg>, a: nat)
    requires Terminated(fmt) && ProperParts(p) && ArgsFit(p, args, a) && Comes(fmt, i, PartsText(p))
    ensures i < |fmt| && ConversionAt(fmt, i, args, a) == Some(Meant(p, i, args, a))
    ensures i + |PartsText(p)| <= |fmt| && fmt[i + |PartsText(p)| - 1] == p.c
  {
    PartsPlaced(fmt, i, p);
    LastRead(fmt, i, p);
    PlacedIsMeant(fmt, i, p, args, a);
  }
}
