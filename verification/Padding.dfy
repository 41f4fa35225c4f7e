/** Integers printed with a width, a precision and flags: how the text is laid out, and that it is read back. */
module Padding {
  import opened Words
  import opened Wrappers
  import opened Numerals
  import opened Print
  import opened Formats

  /** The characters of a number that is not padded to a width. */
  function Body(f: Flags, precision: int, x: Radix, w: Word): nat
    requires 2 <= x.base <= 16
  {
    |SignText(f, x.signed, w)| + |PrefixText(f, x.base)| + Max(|Digits(Magnitude(x.signed, w), x.base)|, precision)
  }

  /** `%#b` counts one character more for its prefix than it prints, and fills up with a zero. */
  function ExtraZero(f: Flags, base: nat): nat {
    if f.alternate && base == 2 then 1 else 0
  }

  /** Spaces on one side, the sign, the prefix, zeros and digits. */
  function Laid(a: nat, sign: seq<Byte>, prefix: seq<Byte>, z: nat, ds: seq<Byte>, b: nat): seq<Byte> {
    Repeat(SPACE, a) + sign + prefix + Repeat(ZERO, z) + ds + Repeat(SPACE, b)
  }

  lemma RepeatMax(c: Byte, n: int)
    ensures Repeat(c, n) == Repeat(c, Max(n, 0))
  {
  }

  /** The counters for a number with `n` digits, a sign of `s` and a prefix of `p` characters. */
  lemma Counted(f: Flags, width: int, precision: int, n: nat, s: nat, p: nat, extra: nat, room: int, a: int, z: int, b: int)
    requires var all := Max(n, precision) + s + p + extra;
             && room == (if !f.left && f.zero && width > all then width else all) - s - p
             && a == Max(if !f.left && !f.zero then width - all else 0, 0) && z == room - n
             && b == Max(if f.left then width - room - s else 0, 0)
    ensures z >= 0 && z + n >= precision
    ensures a + s + p + z + n + b == Max(Max(n, precision) + s + p + extra, width + if f.left then p else 0)
    ensures (a > 0 ==> !f.left && !f.zero) && (b > 0 ==> f.left) && (z > extra ==> precision > n || (f.zero && !f.left))
  {
  }

  /** How many spaces there are in front, zeros, and spaces behind. */
  function Before(f: Flags, width: int, precision: int, x: Radix, w: Word): nat
    requires 2 <= x.base <= 16
  {
    Max(if !f.left && !f.zero then width - NumberRoom(f, precision, x, w) else 0, 0)
  }

  function Zeros(f: Flags, width: int, precision: int, x: Radix, w: Word): nat
    requires 2 <= x.base <= 16
  {
    Max(DigitsRoom(f, width, precision, x, w) - |Digits(Magnitude(x.signed, w), x.base)|, 0)
  }

  function Behind(f: Flags, width: int, precision: int, x: Radix, w: Word): nat
    requires 2 <= x.base <= 16
  {
    Max(if f.left then width - DigitsRoom(f, width, precision, x, w) - |SignText(f, x.signed, w)| else 0, 0)
  }

  function Shown(x: Radix, w: Word): seq<Byte>
    requires 2 <= x.base <= 16
  {
    CasedAll(Digits(Magnitude(x.signed, w), x.base), x.upper)
  }

  /** The text consists of these parts. */
  lemma NumberIsLaid(f: Flags, width: int, precision: int, x: Radix, w: Word)
    requires 2 <= x.base <= 16
    ensures NumberText(f, width, precision, x, w) ==
            Laid(Before(f, width, precision, x, w), SignText(f, x.signed, w), PrefixText(f, x.base), Zeros(f, width, precision, x, w),
                 Shown(x, w), Behind(f, width, precision, x, w))
  {
    var right := if f.left then width - DigitsRoom(f, width, precision, x, w) - |SignText(f, x.signed, w)| else 0;
    RepeatMax(SPACE, right);
    RepeatMax(ZERO, DigitsRoom(f, width, precision, x, w) - |Digits(Magnitude(x.signed, w), x.base)|);
    NumberParts(f, width, precision, x, w, Before(f, width, precision, x, w), right);
  }

  /** How the lengths of the parts add up: there are at least `precision` digits and at least `width` characters. There are no more
      than needed, unless the prefix is `%#b`'s, or the number is adjusted to the left: then the prefix does not count. */
  lemma NumberExtents(f: Flags, width: int, precision: int, x: Radix, w: Word)
    requires 2 <= x.base <= 16
    ensures var a, z, b := Before(f, width, precision, x, w), Zeros(f, width, precision, x, w), Behind(f, width, precision, x, w);
            var s, p, n := |SignText(f, x.signed, w)|, |PrefixText(f, x.base)|, |Shown(x, w)|;
            && z + n >= precision && a + s + p + z + n + b >= width
            && a + s + p + z + n + b == Max(Body(f, precision, x, w) + ExtraZero(f, x.base), width + if f.left then p else 0)
            && (a > 0 ==> !f.left && !f.zero) && (b > 0 ==> f.left)
            && (z > ExtraZero(f, x.base) ==> precision > n || (f.zero && !f.left))
  {
    var n, room := |Digits(Magnitude(x.signed, w), x.base)|, DigitsRoom(f, width, precision, x, w);
    Counted(f, width, precision, n, |SignText(f, x.signed, w)|, |PrefixText(f, x.base)|, ExtraZero(f, x.base), room,
            Before(f, width, precision, x, w), room - n, Behind(f, width, precision, x, w));
  }

  /** The text is at least `width` long, and longer than it must be in the two cases only. */
  lemma NumberLength(f: Flags, width: int, precision: int, x: Radix, w: Word)
    requires 2 <= x.base <= 16
    ensures var length := |NumberText(f, width, precision, x, w)|;
            && length >= width && length >= precision
            && length == Max(Body(f, precision, x, w) + ExtraZero(f, x.base), width + if f.left then |PrefixText(f, x.base)| else 0)
  {
    NumberIsLaid(f, width, precision, x, w);
    NumberExtents(f, width, precision, x, w);
  }

  /** `%-#5x` prints seven characters where five are enough. */
  lemma TooWide()
    ensures var f, x := NO_FLAGS.(left := true, alternate := true), Radix(16, false, false);
            Body(f, -1, x, 1) == 3 && |NumberText(f, 5, -1, x, 1)| == 7
  {
    var f, x := NO_FLAGS.(left := true, alternate := true), Radix(16, false, false);
    assert Digits(1, 16) == [DigitChar(1)];
    NumberLength(f, 5, -1, x, 1);
  }

  // ----- reading it back -----

  /** Zeros in front do not count. */
  lemma {:induction false} ZerosInFront(s: seq<Byte>, k: nat, m: nat, e: nat, base: nat)
    requires k <= m <= e <= |s| && forall j {:trigger s[j]} :: k <= j < m ==> s[j] == ZERO
    ensures Number(s, k, e, base) == Number(s, m, e, base)
    decreases e
  {
    if e > m {
      ZerosInFront(s, k, m, e - 1, base);
    } else if e > k {
      ZerosInFront(s, k, e - 1, e - 1, base);
      assert DigitValue(s[e - 1]) == 0;
    }
  }

  /** Zeros and then the digits are read as the number, up to what follows them. */
  lemma DigitsRead(s: seq<Byte>, k: nat, z: nat, ds: seq<Byte>, base: nat)
    requires k + z + |ds| < |s| && base <= 16 && DigitValue(s[k + z + |ds|]) >= base
    requires forall j {:trigger s[j]} :: k <= j < k + z ==> s[j] == ZERO
    requires forall j {:trigger ds[j]} :: 0 <= j < |ds| ==> s[k + z + j] == ds[j] && DigitValue(ds[j]) < base
    requires base >= 2
    ensures DigitsEnd(s, k, base) == k + z + |ds| && Number(s, k, k + z + |ds|, base) == Number(ds, 0, |ds|, base)
  {
    var e := k + z + |ds|;
    forall j | k <= j < e
      ensures DigitValue(s[j]) < base
    {
      if j >= k + z {
        assert s[k + z + (j - k - z)] == ds[j - k - z];
      }
    }
    RunEnds(s, k, e, base);
    ZerosInFront(s, k, k + z, e, base);
    NumberMoved(s, k + z, ds, |ds|, base);
  }

  /** The parts, one behind the other. */
  ghost predicate InParts(s: seq<Byte>, a: nat, sign: seq<Byte>, prefix: seq<Byte>, z: nat, ds: seq<Byte>, b: nat) {
    var i := a + |sign|;
    var m := i + |prefix| + z;
    && |s| == m + |ds| + b + 1 && s[|s| - 1] == 0 && ds != []
    && Comes(s, 0, Repeat(SPACE, a)) && Comes(s, a, sign) && Comes(s, i, prefix) && Comes(s, i + |prefix|, Repeat(ZERO, z))
    && Comes(s, m, ds) && Comes(s, m + |ds|, Repeat(SPACE, b))
  }

  lemma ComesFirst(text: seq<Byte>, rest: seq<Byte>)
    ensures Comes(text + rest, 0, text)
  {
  }

  lemma LaidComes(s: seq<Byte>, a: nat, sign: seq<Byte>, prefix: seq<Byte>, z: nat, ds: seq<Byte>, b: nat)
    requires Comes(s, 0, Laid(a, sign, prefix, z, ds, b))
    ensures Comes(s, 0, Repeat(SPACE, a)) && Comes(s, a, sign) && Comes(s, a + |sign|, prefix)
    ensures Comes(s, a + |sign| + |prefix|, Repeat(ZERO, z)) && Comes(s, a + |sign| + |prefix| + z, ds)
    ensures Comes(s, a + |sign| + |prefix| + z + |ds|, Repeat(SPACE, b))
  {
    SixParts(s, 0, Repeat(SPACE, a), sign, prefix, Repeat(ZERO, z), ds, Repeat(SPACE, b));
  }

  lemma LaidInParts(a: nat, sign: seq<Byte>, prefix: seq<Byte>, z: nat, ds: seq<Byte>, b: nat)
    requires ds != []
    ensures InParts(Laid(a, sign, prefix, z, ds, b) + [0], a, sign, prefix, z, ds, b)
  {
    ComesFirst(Laid(a, sign, prefix, z, ds, b), [0]);
    LaidComes(Laid(a, sign, prefix, z, ds, b) + [0], a, sign, prefix, z, ds, b);
  }

  ghost predicate ProperSign(sign: seq<Byte>) {
    |sign| <= 1 && (|sign| == 1 ==> sign[0] in [0x2b, 0x2d, SPACE])
  }

  /** Behind the sign there is a digit, unless there is a percent sign. */
  lemma DigitComes(s: seq<Byte>, a: nat, sign: seq<Byte>, prefix: seq<Byte>, z: nat, ds: seq<Byte>, b: nat, base: nat)
    requires InParts(s, a, sign, prefix, z, ds, b) && 1 <= base <= 16 && DigitValue(ds[0]) < base
    requires |prefix| > 0 ==> prefix[0] == ZERO
    ensures DigitValue(s[a + |sign|]) < base
  {
    var i := a + |sign|;
    if |prefix| > 0 {
      assert s[i + 0] == prefix[0];
    } else if z > 0 {
      assert s[i + 0] == Repeat(ZERO, z)[0];
    } else {
      assert s[i + 0] == ds[0];
    }
  }

  /** Spaces are skipped, up to the sign or to what is behind it. */
  lemma SignPassed(s: seq<Byte>, a: nat, sign: seq<Byte>, i: nat)
    requires ProperSign(sign) && i == a + |sign| < |s| && Comes(s, 0, Repeat(SPACE, a)) && Comes(s, a, sign)
    requires !IsSpace(s[i]) && s[i] != 0x2b && s[i] != 0x2d
    ensures var k := SpacesEnd(s, 0);
            k <= i && (if s[k] == 0x2d || s[k] == 0x2b then k + 1 else k) == i && (s[k] == 0x2d <==> sign == [0x2d])
  {
    var k := if sign == [SPACE] then i else a;
    assert |sign| > 0 ==> s[a + 0] == sign[0];
    forall j | 0 <= j < k
      ensures s[j] == SPACE
    {
      if j < a {
        assert s[0 + j] == Repeat(SPACE, a)[j];
      }
    }
    SpacesSkipped(s, 0, k);
  }

  /** Where the parser begins with the digits: behind a prefix of base 16; the prefix of base 8 is one more zero. */
  lemma ZerosFound(s: seq<Byte>, i: nat, prefix: seq<Byte>, z: nat, ds: seq<Byte>, base: nat) returns (k: nat, zeros: nat)
    requires 2 <= base <= 16 && ds != [] && (forall j {:trigger ds[j]} :: 0 <= j < |ds| ==> DigitValue(ds[j]) < base)
    requires prefix == [] || (base == 8 && prefix == [ZERO]) || (base == 16 && prefix == [ZERO, 0x78])
    requires Comes(s, i, prefix) && Comes(s, i + |prefix|, Repeat(ZERO, z)) && Comes(s, i + |prefix| + z, ds)
    requires i + |prefix| + z + |ds| < |s| && s[i + |prefix| + z + |ds|] in [0, SPACE]
    ensures DigitsBegin(s, i, base) == (k, base) && k + zeros == i + |prefix| + z
    ensures forall j {:trigger s[j]} :: k <= j < k + zeros ==> s[j] == ZERO
  {
    var q := i + |prefix|;
    k, zeros := if base == 16 then q else i, if base == 16 then z else |prefix| + z;
    forall j | k <= j < k + zeros
      ensures s[j] == ZERO
    {
      if j >= q {
        assert s[q + (j - q)] == Repeat(ZERO, z)[j - q];
      } else {
        assert s[i + (j - i)] == prefix[j - i];
      }
    }
    if prefix != [] {
      assert s[i + 0] == prefix[0];
      assert base == 16 ==> s[i + 1] == prefix[1];
    } else {
      NoPrefix(s, i, z, ds);
    }
  }

  /** Without a prefix, nothing looks like one. */
  lemma NoPrefix(s: seq<Byte>, i: nat, z: nat, ds: seq<Byte>)
    requires ds != [] && (forall j {:trigger ds[j]} :: 0 <= j < |ds| ==> DigitValue(ds[j]) < 16)
    requires Comes(s, i, Repeat(ZERO, z)) && Comes(s, i + z, ds) && i + z + |ds| < |s| && s[i + z + |ds|] in [0, SPACE]
    ensures s[i + 1] != 0x78 && s[i + 1] != 0x58
  {
    if z > 1 {
      assert s[i + 1] == Repeat(ZERO, z)[1];
    } else if z == 1 {
      assert s[i + z + 0] == ds[0];
    } else if |ds| > 1 {
      assert s[i + z + 1] == ds[1];
    }
  }

  ghost predicate DigitsOf(ds: seq<Byte>, base: nat, n: nat) {
    && ds != [] && (forall j {:trigger ds[j]} :: 0 <= j < |ds| ==> DigitValue(ds[j]) < base) && Number(ds, 0, |ds|, base) == n
  }

  lemma ParsedFrom(s: seq<Byte>, i: nat, negative: bool, k: nat, zeros: nat, ds: seq<Byte>, base: nat, u: Word)
    requires i < |s| && k + zeros + |ds| < |s| && 2 <= base <= 16 && DigitsOf(ds, base, u) && DigitsBegin(s, i, base) == (k, base)
    requires (forall j {:trigger s[j]} :: k <= j < k + zeros ==> s[j] == ZERO) && Comes(s, k + zeros, ds)
    requires DigitValue(s[k + zeros + |ds|]) >= base
    ensures ParsedAt(s, i, negative, base) == (if negative then Sub(0, u) else u, k + zeros + |ds|)
  {
    DigitsRead(s, k, zeros, ds, base);
  }

  lemma PartsFound(s: seq<Byte>, a: nat, sign: seq<Byte>, prefix: seq<Byte>, z: nat, ds: seq<Byte>, b: nat, base: nat) returns (k: nat, zeros: nat)
    requires InParts(s, a, sign, prefix, z, ds, b) && 2 <= base <= 16
    requires forall j {:trigger ds[j]} :: 0 <= j < |ds| ==> DigitValue(ds[j]) < base
    requires prefix == [] || (base == 8 && prefix == [ZERO]) || (base == 16 && prefix == [ZERO, 0x78])
    ensures k + zeros + |ds| + b == |s| - 1 && a + |sign| < |s| && DigitsBegin(s, a + |sign|, base) == (k, base)
    ensures (forall j {:trigger s[j]} :: k <= j < k + zeros ==> s[j] == ZERO) && Comes(s, k + zeros, ds)
    ensures DigitValue(s[k + zeros + |ds|]) >= base
  {
    var e := a + |sign| + |prefix| + z + |ds|;
    assert b > 0 ==> s[e + 0] == Repeat(SPACE, b)[0];
    k, zeros := ZerosFound(s, a + |sign|, prefix, z, ds, base);
  }

  /** What is laid out so is read as the number, with its sign, up to the spaces behind. */
  lemma PartsParsed(s: seq<Byte>, a: nat, sign: seq<Byte>, prefix: seq<Byte>, z: nat, ds: seq<Byte>, b: nat, base: nat, u: Word)
    requires InParts(s, a, sign, prefix, z, ds, b) && ProperSign(sign) && 2 <= base <= 16 && DigitsOf(ds, base, u)
    requires prefix == [] || (base == 8 && prefix == [ZERO]) || (base == 16 && prefix == [ZERO, 0x78])
    ensures ParsedAt(s, a + |sign|, sign == [0x2d], base) == (if sign == [0x2d] then Sub(0, u) else u, |s| - 1 - b)
  {
    var k, zeros := PartsFound(s, a, sign, prefix, z, ds, b, base);
    ParsedFrom(s, a + |sign|, sign == [0x2d], k, zeros, ds, base, u);
  }

  lemma InPartsParsed(s: seq<Byte>, a: nat, sign: seq<Byte>, prefix: seq<Byte>, z: nat, ds: seq<Byte>, b: nat, base: nat, u: Word)
    requires InParts(s, a, sign, prefix, z, ds, b) && ProperSign(sign) && 2 <= base <= 16 && DigitsOf(ds, base, u)
    requires prefix == [] || (base == 8 && prefix == [ZERO]) || (base == 16 && prefix == [ZERO, 0x78])
    ensures Parsed(s, base) == (if sign == [0x2d] then Sub(0, u) else u, |s| - 1 - b)
  {
    DigitComes(s, a, sign, prefix, z, ds, b, base);
    SignPassed(s, a, sign, a + |sign|);
    ParsedBehind(s, a + |sign|, sign == [0x2d], base);
    PartsParsed(s, a, sign, prefix, z, ds, b, base, u);
  }

  lemma LaidIsParsed(a: nat, sign: seq<Byte>, prefix: seq<Byte>, z: nat, ds: seq<Byte>, b: nat, base: nat, u: Word)
    requires ProperSign(sign) && 2 <= base <= 16 && DigitsOf(ds, base, u)
    requires prefix == [] || (base == 8 && prefix == [ZERO]) || (base == 16 && prefix == [ZERO, 0x78])
    ensures var text := Laid(a, sign, prefix, z, ds, b);
            Parsed(text + [0], base) == (if sign == [0x2d] then Sub(0, u) else u, |text| - b)
  {
    LaidInParts(a, sign, prefix, z, ds, b);
    InPartsParsed(Laid(a, sign, prefix, z, ds, b) + [0], a, sign, prefix, z, ds, b, base, u);
  }

  /** Where a percent sign stands for the prefix, nothing is read. */
  lemma PercentIsNotParsed(a: nat, z: nat, ds: seq<Byte>, b: nat)
    requires ds != []
    ensures Parsed(Laid(a, [], [PERCENT], z, ds, b) + [0], 2) == (0, 0)
  {
    var s := Laid(a, [], [PERCENT], z, ds, b) + [0];
    LaidInParts(a, [], [PERCENT], z, ds, b);
    assert s[a + 0] == [PERCENT][0];
    SignPassed(s, a, [], a);
  }

  lemma ShownDenotes(x: Radix, w: Word)
    requires 2 <= x.base <= 16
    ensures DigitsOf(Shown(x, w), x.base, Magnitude(x.signed, w))
  {
    var ds := Digits(Magnitude(x.signed, w), x.base);
    DigitsDenote(Magnitude(x.signed, w), x.base);
    CasedNumber(ds, x.upper, |ds|, x.base);
  }

  lemma SignAndMagnitude(f: Flags, signed: bool, w: Word)
    ensures ProperSign(SignText(f, signed, w))
    ensures (if SignText(f, signed, w) == [0x2d] then Sub(0, Magnitude(signed, w)) else Magnitude(signed, w)) == w
  {
  }

  lemma LaidWord(f: Flags, x: Radix, w: Word, a: nat, z: nat, b: nat)
    requires 2 <= x.base <= 16 && (x.signed ==> x.base == 10) && !(f.alternate && x.base == 2)
    ensures var text := Laid(a, SignText(f, x.signed, w), PrefixText(f, x.base), z, Shown(x, w), b);
            Parsed(text + [0], x.base) == (w, |text| - b)
  {
    ShownDenotes(x, w);
    SignAndMagnitude(f, x.signed, w);
    LaidIsParsed(a, SignText(f, x.signed, w), PrefixText(f, x.base), z, Shown(x, w), b, x.base, Magnitude(x.signed, w));
  }

  /** An integer printed with any flags, width and precision is read back as the same word, up to the spaces behind it; only
      what `%#b` prints is not read at all. */
  lemma PaddedIsParsed(f: Flags, width: int, precision: int, x: Radix, w: Word)
    requires 2 <= x.base <= 16 && (x.signed ==> x.base == 10)
    ensures var text := NumberText(f, width, precision, x, w);
            Parsed(text + [0], x.base) ==
            if f.alternate && x.base == 2 then (0, 0) else (w, |text| - Behind(f, width, precision, x, w))
  {
    var a, z, b := Before(f, width, precision, x, w), Zeros(f, width, precision, x, w), Behind(f, width, precision, x, w);
    NumberIsLaid(f, width, precision, x, w);
    if f.alternate && x.base == 2 {
      PercentIsNotParsed(a, z, Shown(x, w), b);
    } else {
      LaidWord(f, x, w, a, z, b);
    }
  }

  /** Unless it is adjusted to the left, the whole text is read. */
  lemma PrintedIsParsed(f: Flags, width: int, precision: int, x: Radix, w: Word)
    requires 2 <= x.base <= 16 && (x.signed ==> x.base == 10) && !f.left && !(f.alternate && x.base == 2)
    ensures Parsed(NumberText(f, width, precision, x, w) + [0], x.base) == (w, |NumberText(f, width, precision, x, w)|)
  {
    PaddedIsParsed(f, width, precision, x, w);
  }

  // ----- whole conversions -----

  /** Behind the spaces there is a minus sign for a negative number, and for another signed one a plus sign or a space if the flags
      ask for it; then the prefix, if the flag asks for it. */
  lemma NumberBegins(f: Flags, width: int, precision: int, x: Radix, w: Word)
    requires 2 <= x.base <= 16
    ensures var text, a := NumberText(f, width, precision, x, w), Before(f, width, precision, x, w);
            var sign := if !x.signed then [] else if w >= 0x8000_0000 then [0x2d] else if f.sign then [0x2b] else if f.space then [0x20] else [];
            var prefix := if !f.alternate then [] else if x.base == 2 then [0x25] else if x.base == 8 then [0x30]
                          else if x.base == 16 then [0x30, 0x78] else [];
            Comes(text, a, sign) && Comes(text, a + |sign|, prefix)
  {
    var a, z, b := Before(f, width, precision, x, w), Zeros(f, width, precision, x, w), Behind(f, width, precision, x, w);
    NumberIsLaid(f, width, precision, x, w);
    LaidBegins(a, SignText(f, x.signed, w), PrefixText(f, x.base), z, Shown(x, w), b);
  }

  lemma LaidBegins(a: nat, sign: seq<Byte>, prefix: seq<Byte>, z: nat, ds: seq<Byte>, b: nat)
    ensures Comes(Laid(a, sign, prefix, z, ds, b), a, sign) && Comes(Laid(a, sign, prefix, z, ds, b), a + |sign|, prefix)
  {
    ComesSelf(Laid(a, sign, prefix, z, ds, b));
    LaidComes(Laid(a, sign, prefix, z, ds, b), a, sign, prefix, z, ds, b);
  }

  /** A conversion without flags, width and precision prints the number of its argument. */
  lemma PlainOutput(c: Byte, w: Word, x: Radix)
    requires RadixOf(c) == Some(x)
    ensures Output([0x25, c, 0], 0, [Int(w)], 0) == Some(NumberText(NO_FLAGS, -1, -1, x, w))
  {
    var fmt, args := [0x25, c, 0], [Int(w)];
    assert Terminated(fmt) && fmt[0] == PERCENT && fmt[1] == c && fmt[2] == 0;
    assert FlagsAt(fmt, 1, NO_FLAGS) == (NO_FLAGS, 1);
    var v := Conversion(NO_FLAGS, -1, -1, 1, 0);
    assert ConversionAt(fmt, 1, args, 0) == Some(v);
    assert Converted(fmt, v, args) == Some((NumberText(NO_FLAGS, -1, -1, x, w), 1));
    assert Output(fmt, 2, args, 1) == Some([]);
    assert NumberText(NO_FLAGS, -1, -1, x, w) + [] == NumberText(NO_FLAGS, -1, -1, x, w);
  }

  /** `%b`, `%o`, `%x`, `%X`, `%d`, `%i` and `%u`: the base in which the word is read back, which of them print a minus sign, and
      which letters they use. */
  lemma PlainConversion(c: Byte, w: Word) returns (text: seq<Byte>)
    requires c in {0x62, 0x6f, 0x78, 0x58, 0x64, 0x69, 0x75}
    ensures Output([0x25, c, 0], 0, [Int(w)], 0) == Some(text)
    ensures Parsed(text + [0], if c == 0x62 then 2 else if c == 0x6f then 8 else if c in {0x78, 0x58} then 16 else 10) == (w, |text|)
    ensures |text| > 0 && (text[0] == 0x2d <==> c in {0x64, 0x69} && w >= 0x8000_0000)
    ensures forall k {:trigger text[k]} :: 0 <= k < |text| ==> !(if c == 0x58 then IsLower(text[k]) else IsUpper(text[k]))
  {
    var x := RadixOf(c).value;
    PlainOutput(c, w, x);
    text := NumberText(NO_FLAGS, -1, -1, x, w);
    PrintedIsParsed(NO_FLAGS, -1, -1, x, w);
    PlainLetters(x, w);
  }

  lemma PlainLetters(x: Radix, w: Word)
    requires 2 <= x.base <= 16
    ensures var text := NumberText(NO_FLAGS, -1, -1, x, w);
            && |text| > 0 && (text[0] == 0x2d <==> x.signed && w >= 0x8000_0000)
            && forall k {:trigger text[k]} :: 0 <= k < |text| ==> !(if x.upper then IsLower(text[k]) else IsUpper(text[k]))
  {
    PlainText(x, w);
    ShownLetters(x, w);
  }

  lemma ShownLetters(x: Radix, w: Word)
    requires 2 <= x.base <= 16
    ensures Shown(x, w) != [] && DigitValue(Shown(x, w)[0]) < 16
    ensures forall k {:trigger Shown(x, w)[k]} :: 0 <= k < |Shown(x, w)| ==> !(if x.upper then IsLower(Shown(x, w)[k]) else IsUpper(Shown(x, w)[k]))
  {
    ShownDenotes(x, w);
    DigitLetters(Magnitude(x.signed, w), x.base);
  }

  lemma {:induction false} DigitLetters(u: nat, base: nat)
    requires 2 <= base <= 16
    ensures forall k {:trigger Digits(u, base)[k]} :: 0 <= k < |Digits(u, base)| ==> !IsUpper(Digits(u, base)[k])
    decreases u
  {
    QuotientFalls(u, base);
    if u >= base {
      DigitLetters(u / base, base);
    }
  }

  lemma PlainText(x: Radix, w: Word)
    requires 2 <= x.base <= 16
    ensures NumberText(NO_FLAGS, -1, -1, x, w) == SignText(NO_FLAGS, x.signed, w) + Shown(x, w)
  {
  }

  /** `%c`, `%%`, `%s` and a character that is no conversion, without flags, width and precision. */
  lemma SimpleConversions(c: Byte, arg: Arg)
    requires c == 0x63 ==> arg.Int?
    requires c == 0x73 ==> arg.Str? && (arg.text.Some? ==> 0 !in arg.text.value)
    requires c in {0x63, 0x25, 0x73} || (IsFinal(c) && c !in {0, 0x70, 0x66, 0x74, 0x6e, 0x62, 0x6f, 0x78, 0x58, 0x64, 0x69, 0x75})
    ensures Output([0x25, c, 0], 0, [arg], 0) ==
            Some(if c == 0x63 then [arg.w % 256] else if c == 0x25 then [0x25]
                 else if c != 0x73 then [0x25, c]
                 else if arg.text.Some? then arg.text.value else [0x28, 0x6e, 0x75, 0x6c, 0x6c, 0x29])
  {
    var fmt, args := [0x25, c, 0], [arg];
    assert Terminated(fmt) && fmt[0] == PERCENT && fmt[1] == c && fmt[2] == 0;
    assert FlagsAt(fmt, 1, NO_FLAGS) == (NO_FLAGS, 1);
    var v := Conversion(NO_FLAGS, -1, -1, 1, 0);
    assert ConversionAt(fmt, 1, args, 0) == Some(v);
    assert Converted(fmt, v, args).Some?;
    var text, a := Converted(fmt, v, args).value.0, Converted(fmt, v, args).value.1;
    assert Output(fmt, 2, args, a) == Some([]);
    assert text + [] == text;
    if c == 0x73 && arg.text.Some? {
      assert StringText(NO_FLAGS, -1, -1, arg.text.value) == arg.text.value;
    }
  }
}
