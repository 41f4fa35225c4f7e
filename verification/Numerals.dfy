/** Numbers as text: the digits that are printed, and the value that is parsed back. */
module Numerals {
  import opened Words

  predicate IsSpace(c: Byte) {
    c == 0x20 || c == 0x09
  }

  predicate IsDigit(c: Byte) {
    0x30 <= c <= 0x39
  }

  predicate IsLower(c: Byte) {
    0x61 <= c <= 0x7a
  }

  predicate IsUpper(c: Byte) {
    0x41 <= c <= 0x5a
  }

  /** The value of a digit or letter; nothing else is below any base. */
  function DigitValue(c: Byte): nat {
    if IsDigit(c) then c - 0x30
    else if IsUpper(c) then c - 0x41 + 10
    else if IsLower(c) then c - 0x61 + 10
    else 256
  }

  /** The end of the run of digits that begins at `i`. */
  function DigitsEnd(s: seq<Byte>, i: nat, base: nat): (e: nat)
    requires i <= |s|
    ensures i <= e <= |s|
    ensures forall k {:trigger s[k]} :: i <= k < e ==> DigitValue(s[k]) < base
    ensures e < |s| ==> DigitValue(s[e]) >= base
    decreases |s| - i
  {
    if i < |s| && DigitValue(s[i]) < base then DigitsEnd(s, i + 1, base) else i
  }

  /** The number with the given digits, the highest first. */
  function Number(s: seq<Byte>, i: nat, e: nat, base: nat): nat
    requires i <= e <= |s|
  {
    if e == i then 0 else Number(s, i, e - 1, base) * base + DigitValue(s[e - 1])
  }

  function Saturated(n: nat): Word {
    if n > MAX then MAX else n
  }

  lemma {:induction false} MulOrder(a: nat, b: nat, k: nat)
    requires a < b
    ensures a * k + k <= b * k
  {
    if k > 0 {
      MulOrder(a, b, k - 1);
      assert a * k == a * (k - 1) + a && b * k == b * (k - 1) + b;
    }
  }

  lemma Shifted(n: nat, base: nat, d: nat)
    requires base >= 1
    ensures n <= n * base + d
  {
  }

  /** The test against the largest quotient and remainder tells exactly when the next digit overflows. */
  lemma CutoffIsOverflow(acc: nat, c: nat, base: nat, q: nat, r: nat)
    requires c < base && r < base
    ensures acc > q || (acc == q && c > r) <==> acc * base + c > q * base + r
  {
    if acc > q {
      MulOrder(q, acc, base);
    } else if acc < q {
      MulOrder(acc, q, base);
    }
  }

  // ----- parsing -----

  function SpacesEnd(s: seq<Byte>, i: nat): (e: nat)
    requires i <= |s|
    ensures i <= e <= |s| && (e < |s| ==> !IsSpace(s[e]))
    decreases |s| - i
  {
    if i < |s| && IsSpace(s[i]) then SpacesEnd(s, i + 1) else i
  }

  /** Where the digits begin, and the base they are in: after a prefix, and taken from it when none was given. */
  function DigitsBegin(s: seq<Byte>, i: nat, base: nat): (r: (nat, nat))
    requires i < |s|
    ensures r.0 <= |s|
  {
    if (base == 0 || base == 16) && s[i] == 0x30 && i + 1 < |s| && (s[i + 1] == 0x78 || s[i + 1] == 0x58) then (i + 2, 16)
    else (i, if base != 0 then base else if s[i] == 0x30 then 8 else 10)
  }

  /** The value of a run of digits and its end, given where the number begins behind the sign; or 0 for the end when there
      is no digit. */
  function ParsedAt(s: seq<Byte>, i: nat, negative: bool, base: nat): (Word, nat)
    requires i < |s|
  {
    var (k, b) := DigitsBegin(s, i, base);
    ParsedRun(s, k, negative, b)
  }

  function ParsedRun(s: seq<Byte>, k: nat, negative: bool, base: nat): (Word, nat)
    requires k <= |s|
  {
    var e := DigitsEnd(s, k, base);
    var n := Number(s, k, e, base);
    (if negative && n <= MAX then Sub(0, n) else Saturated(n), if e > k then e else 0)
  }

  /** What is parsed from a terminated string: the value, and the place of the first character that does not belong to the
      number, or 0 when there is no number. */
  function Parsed(s: seq<Byte>, base: nat): (Word, nat)
    requires |s| > 0 && s[|s| - 1] == 0
  {
    var i := SpacesEnd(s, 0);
    if i >= |s| - 1 then (0, 0)
    else ParsedAt(s, if s[i] == 0x2d || s[i] == 0x2b then i + 1 else i, s[i] == 0x2d, base)
  }

  /** Converts a string to a word. A number that is too large gives the largest word, and its sign is not looked at. */
  method Strtoul(s: seq<Byte>, base: nat) returns (acc: Word, end: nat)
    requires |s| > 0 && s[|s| - 1] == 0 && (base == 0 || 2 <= base <= 36)
    ensures (acc, end) == Parsed(s, base)
  {
    var i := SkipSpaces(s);
    var neg := false;
    if s[i] == 0x2d {
      neg := true;
      i := i + 1;
    } else if s[i] == 0x2b {
      i := i + 1;
    }
    acc, end := ParseDigits(s, i, neg, base);
  }

  /** From the prefix on. */
  method ParseDigits(s: seq<Byte>, begin: nat, neg: bool, givenBase: nat) returns (acc: Word, end: nat)
    requires begin < |s| && s[|s| - 1] == 0 && (givenBase == 0 || 2 <= givenBase <= 36)
    ensures (acc, end) == ParsedAt(s, begin, neg, givenBase)
  {
    var i, base := begin, givenBase;
    if (base == 0 || base == 16) && s[i] == 0x30 && (s[i + 1] == 0x78 || s[i + 1] == 0x58) {
      i := i + 2;
      base := 16;
    }
    if base == 0 {
      base := if s[i] == 0x30 then 8 else 10;
    }
    acc, end := ParseRun(s, i, neg, base);
  }

  /** The run of digits. */
  method ParseRun(s: seq<Byte>, i: nat, neg: bool, base: nat) returns (acc: Word, end: nat)
    requires i < |s| && s[|s| - 1] == 0 && 2 <= base <= 36
    ensures (acc, end) == ParsedRun(s, i, neg, base)
  {
    var over, e;
    acc, over, e := Accumulate(s, i, base);
    if neg && e > i && !over {
      acc := Sub(0, acc);
    }
    end := if e > i then e else 0;
  }

  method SkipSpaces(s: seq<Byte>) returns (i: nat)
    requires |s| > 0 && s[|s| - 1] == 0
    ensures i < |s| && i == SpacesEnd(s, 0)
  {
    i := 0;
    while IsSpace(s[i])
      invariant i < |s| && SpacesEnd(s, i) == SpacesEnd(s, 0)
      decreases |s| - i
    {
      i := i + 1;
    }
  }

  lemma NextDigit(s: seq<Byte>, i: nat, k: nat, base: nat, q: nat, r: nat)
    requires i <= k < |s| && DigitValue(s[k]) < base && IsLimit(q, r, base)
    ensures Number(s, i, k + 1, base) == Number(s, i, k, base) * base + DigitValue(s[k])
    ensures Number(s, i, k, base) > q || (Number(s, i, k, base) == q && DigitValue(s[k]) > r) <==> Number(s, i, k + 1, base) > MAX
    ensures Number(s, i, k, base) > MAX ==> Number(s, i, k + 1, base) > MAX
  {
    CutoffIsOverflow(Number(s, i, k, base), DigitValue(s[k]), base, q, r);
    Shifted(Number(s, i, k, base), base, DigitValue(s[k]));
  }

  method Limits(base: nat) returns (cutoff: nat, cutlim: nat)
    requires 2 <= base
    ensures IsLimit(cutoff, cutlim, base)
  {
    cutoff, cutlim := MAX / base, MAX % base;
    QuotientIsLess(MAX, base);
  }

  ghost predicate IsLimit(cutoff: nat, cutlim: nat, base: nat) {
    cutlim < base && cutoff * base + cutlim == MAX
  }

  /** The value of the run of digits at `i`, saturated; no step of the computation overflows. */
  method Accumulate(s: seq<Byte>, i: nat, base: nat) returns (acc: Word, over: bool, k: nat)
    requires i < |s| && s[|s| - 1] == 0 && 2 <= base <= 36
    ensures k == DigitsEnd(s, i, base) && acc == Saturated(Number(s, i, k, base)) && (over <==> Number(s, i, k, base) > MAX)
  {
    var cutoff, cutlim := Limits(base);
    acc, over, k := 0, false, i;
    while DigitValue(s[k]) < base
      invariant i <= k < |s| && DigitsEnd(s, k, base) == DigitsEnd(s, i, base)
      invariant acc == Saturated(Number(s, i, k, base)) && (over <==> Number(s, i, k, base) > MAX)
      decreases |s| - k
    {
      NextDigit(s, i, k, base, cutoff, cutlim);
      if !over {
        if acc > cutoff || (acc == cutoff && DigitValue(s[k]) > cutlim) {
          over := true;
          acc := MAX;
        } else {
          acc := acc * base + DigitValue(s[k]);
        }
      }
      k := k + 1;
    }
  }

  // ----- printing -----

  /** The characters of the digits of base 2 to 16. */
  function DigitChar(d: nat): (c: Byte)
    requires d < 16
    ensures DigitValue(c) == d
  {
    if d < 10 then 0x30 + d else 0x61 + d - 10
  }

  lemma QuotientFalls(u: nat, base: nat)
    requires base >= 2
    ensures 0 <= u / base <= u && (u >= base ==> u / base < u) && 0 <= u % base < base
  {
  }

  /** The digits of a word, the highest first; 0 has one digit. */
  function Digits(u: nat, base: nat): (r: seq<Byte>)
    requires 2 <= base <= 16
    ensures |r| >= 1
    decreases u
  {
    QuotientFalls(u, base);
    (if u < base then [] else Digits(u / base, base)) + [DigitChar(u % base)]
  }

  lemma QuotientIsLess(u: nat, base: nat)
    requires base >= 2
    ensures 0 <= u / base && (u >= base ==> u / base < u) && 0 <= u % base < base && u == u / base * base + u % base
  {
  }

  /** The digits are digits of the base, and denote the number. */
  lemma {:induction false} DigitsDenote(u: nat, base: nat)
    requires 2 <= base <= 16
    ensures forall k {:trigger Digits(u, base)[k]} :: 0 <= k < |Digits(u, base)| ==> DigitValue(Digits(u, base)[k]) < base
    ensures Number(Digits(u, base), 0, |Digits(u, base)|, base) == u
    ensures u > 0 ==> Digits(u, base)[0] != 0x30
    decreases u
  {
    QuotientIsLess(u, base);
    var ds := Digits(u, base);
    if u < base {
      ModUnique(u, 0, u, base);
      assert Number(ds, 0, 0, base) == 0;
    } else {
      DigitsDenote(u / base, base);
      var front := Digits(u / base, base);
      NumberPrefix(front, ds, |front|, base);
    }
  }

  /** The value of the first digits depends on them only. */
  lemma {:induction false} NumberPrefix(s: seq<Byte>, t: seq<Byte>, e: nat, base: nat)
    requires e <= |s| && e <= |t| && s[..e] == t[..e]
    ensures Number(s, 0, e, base) == Number(t, 0, e, base)
  {
    if e > 0 {
      assert s[e - 1] == s[..e][e - 1] && t[e - 1] == t[..e][e - 1];
      assert s[..e - 1] == s[..e][..e - 1] && t[..e - 1] == t[..e][..e - 1];
      NumberPrefix(s, t, e - 1, base);
    }
  }

  // ----- what is parsed from a text -----

  /** The text is what comes at place `p`. */
  ghost predicate Comes(total: seq<Byte>, p: nat, text: seq<Byte>) {
    p + |text| <= |total| && forall k {:trigger text[k]} :: 0 <= k < |text| ==> total[p + k] == text[k]
  }

  lemma ComesSplit(total: seq<Byte>, p: nat, s: seq<Byte>, t: seq<Byte>)
    requires Comes(total, p, s + t)
    ensures Comes(total, p, s) && Comes(total, p + |s|, t)
  {
    forall k | 0 <= k < |s|
      ensures total[p + k] == s[k]
    {
      assert (s + t)[k] == s[k];
    }
    forall k | 0 <= k < |t|
      ensures total[p + |s| + k] == t[k]
    {
      assert (s + t)[|s| + k] == t[k];
    }
  }

  lemma {:induction false} SpacesSkipped(s: seq<Byte>, i: nat, k: nat)
    requires i <= k < |s| && !IsSpace(s[k]) && forall j {:trigger s[j]} :: i <= j < k ==> IsSpace(s[j])
    ensures SpacesEnd(s, i) == k
    decreases k - i
  {
    if i < k {
      SpacesSkipped(s, i + 1, k);
    }
  }

  lemma {:induction false} RunEnds(s: seq<Byte>, k: nat, e: nat, base: nat)
    requires k <= e < |s| && DigitValue(s[e]) >= base && forall j {:trigger s[j]} :: k <= j < e ==> DigitValue(s[j]) < base
    ensures DigitsEnd(s, k, base) == e
    decreases e - k
  {
    if k < e {
      RunEnds(s, k + 1, e, base);
    }
  }

  /** The number depends on the digits only. */
  lemma {:induction false} NumberMoved(s: seq<Byte>, m: nat, ds: seq<Byte>, n: nat, base: nat)
    requires n <= |ds| && m + |ds| <= |s| && forall j {:trigger ds[j]} :: 0 <= j < |ds| ==> s[m + j] == ds[j]
    ensures Number(s, m, m + n, base) == Number(ds, 0, n, base)
  {
    if n > 0 {
      NumberMoved(s, m, ds, n - 1, base);
      assert s[m + (n - 1)] == ds[n - 1];
    }
  }

  /** The values of digits and of small and capital letters. */
  lemma DigitValues(d: nat)
    ensures d < 10 ==> DigitValue(0x30 + d) == d
    ensures d < 26 ==> DigitValue(0x61 + d) == 10 + d == DigitValue(0x41 + d)
    ensures d < 256 && !(0x30 <= d <= 0x39 || 0x41 <= d <= 0x5a || 0x61 <= d <= 0x7a) ==> DigitValue(d) >= 36
  {
  }

  /** The base of the digits: 16 behind a prefix; otherwise the one that is given, or 8 for digits that begin with 0 and 10 for
      others. */
  function BaseOf(prefixed: bool, c: Byte, base: nat): nat {
    if prefixed then 16 else if base != 0 then base else if c == 0x30 then 8 else 10
  }

  predicate IsNegative(sign: seq<Byte>) {
    |sign| == 1 && sign[0] == 0x2d
  }

  /** White space, a sign, a prefix, digits, and what does not belong to the number any more. */
  ghost predicate ProperText(ws: seq<Byte>, sign: seq<Byte>, prefix: seq<Byte>, ds: seq<Byte>, rest: seq<Byte>, base: nat) {
    && (base == 0 || 2 <= base <= 36)
    && (forall k {:trigger ws[k]} :: 0 <= k < |ws| ==> ws[k] == 0x20 || ws[k] == 0x09)
    && |sign| <= 1 && (|sign| == 1 ==> sign[0] == 0x2b || sign[0] == 0x2d)
    && (|prefix| == 0 || (|prefix| == 2 && prefix[0] == 0x30 && (prefix[1] == 0x78 || prefix[1] == 0x58) && (base == 0 || base == 16)))
    && |ds| > 0 && (forall k {:trigger ds[k]} :: 0 <= k < |ds| ==> DigitValue(ds[k]) < BaseOf(|prefix| > 0, ds[0], base))
    && |rest| > 0 && rest[|rest| - 1] == 0 && DigitValue(rest[0]) >= BaseOf(|prefix| > 0, ds[0], base)
    && (|prefix| == 0 && (base == 0 || base == 16) && ds[0] == 0x30 ==>
          var c := if |ds| > 1 then ds[1] else rest[0]; c != 0x78 && c != 0x58)
  }

  /** The parts lie one behind the other. */
  ghost predicate InText(s: seq<Byte>, ws: seq<Byte>, sign: seq<Byte>, prefix: seq<Byte>, ds: seq<Byte>, rest: seq<Byte>) {
    var i := |ws| + |sign|;
    && |s| == i + |prefix| + |ds| + |rest| && Comes(s, 0, ws) && Comes(s, |ws|, sign) && Comes(s, i, prefix)
    && Comes(s, i + |prefix|, ds) && Comes(s, i + |prefix| + |ds|, rest)
  }

  lemma ComesSelf(s: seq<Byte>)
    ensures Comes(s, 0, s)
  {
  }

  lemma FiveParts(s: seq<Byte>, ws: seq<Byte>, sign: seq<Byte>, prefix: seq<Byte>, ds: seq<Byte>, rest: seq<Byte>)
    requires Comes(s, 0, ws + sign + prefix + ds + rest) && |s| == |ws| + |sign| + |prefix| + |ds| + |rest|
    ensures InText(s, ws, sign, prefix, ds, rest)
  {
    ComesSplit(s, 0, ws + sign + prefix + ds, rest);
    ComesSplit(s, 0, ws + sign + prefix, ds);
    ComesSplit(s, 0, ws + sign, prefix);
    ComesSplit(s, 0, ws, sign);
  }

  /** The parser finds the number behind white space and sign. */
  lemma SignFound(s: seq<Byte>, ws: seq<Byte>, sign: seq<Byte>, prefix: seq<Byte>, ds: seq<Byte>, rest: seq<Byte>, base: nat)
    requires ProperText(ws, sign, prefix, ds, rest, base) && InText(s, ws, sign, prefix, ds, rest)
    ensures s[|s| - 1] == 0 && |ws| < |s| - 1 && SpacesEnd(s, 0) == |ws|
    ensures (s[|ws|] == 0x2d <==> IsNegative(sign)) && (s[|ws|] == 0x2b <==> |sign| == 1 && sign[0] == 0x2b)
  {
    assert s[|ws| + |sign| + |prefix| + |ds| + (|rest| - 1)] == rest[|rest| - 1];
    if |sign| > 0 {
      assert s[|ws| + 0] == sign[0];
    } else if |prefix| > 0 {
      assert s[|ws| + |sign| + 0] == prefix[0];
    } else {
      assert s[|ws| + |sign| + |prefix| + 0] == ds[0];
    }
    forall j | 0 <= j < |ws|
      ensures IsSpace(s[j])
    {
      assert s[0 + j] == ws[j];
    }
    SpacesSkipped(s, 0, |ws|);
  }

  /** And the digits behind the prefix. */
  lemma DigitsFound(s: seq<Byte>, ws: seq<Byte>, sign: seq<Byte>, prefix: seq<Byte>, ds: seq<Byte>, rest: seq<Byte>, base: nat)
    requires ProperText(ws, sign, prefix, ds, rest, base) && InText(s, ws, sign, prefix, ds, rest)
    ensures DigitsBegin(s, |ws| + |sign|, base) == (|ws| + |sign| + |prefix|, BaseOf(|prefix| > 0, ds[0], base))
  {
    var i := |ws| + |sign|;
    if |prefix| > 0 {
      assert s[i + 0] == prefix[0] && s[i + 1] == prefix[1];
    } else {
      assert s[i + |prefix| + 0] == ds[0];
      if |ds| > 1 {
        assert s[i + |prefix| + 1] == ds[1];
      } else {
        assert s[i + |prefix| + |ds| + 0] == rest[0];
      }
    }
  }

  /** The value of the digits, and where they end. */
  lemma RunParsed(s: seq<Byte>, k: nat, ds: seq<Byte>, negative: bool, base: nat)
    requires k + |ds| < |s| && ds != [] && Comes(s, k, ds) && DigitValue(s[k + |ds|]) >= base
    requires forall j {:trigger ds[j]} :: 0 <= j < |ds| ==> DigitValue(ds[j]) < base
    ensures var n := Number(ds, 0, |ds|, base);
            ParsedRun(s, k, negative, base) == (if n > MAX then MAX else if negative then Sub(0, n) else n, k + |ds|)
  {
    forall j | k <= j < k + |ds|
      ensures DigitValue(s[j]) < base
    {
      assert s[k + (j - k)] == ds[j - k];
    }
    RunEnds(s, k, k + |ds|, base);
    NumberMoved(s, k, ds, |ds|, base);
  }

  lemma ParsedBehind(s: seq<Byte>, i: nat, negative: bool, base: nat)
    requires i + 1 < |s| && s[|s| - 1] == 0
    requires var k := SpacesEnd(s, 0); k <= i && (if s[k] == 0x2d || s[k] == 0x2b then k + 1 else k) == i && (s[k] == 0x2d <==> negative)
    ensures Parsed(s, base) == ParsedAt(s, i, negative, base)
  {
  }

  /** What the parser makes of a text: the number that its digits denote, the largest word if that is too large, and otherwise the
      complement behind a minus sign; and the place of the first character that does not belong to the number. */
  lemma TextParsed(ws: seq<Byte>, sign: seq<Byte>, prefix: seq<Byte>, ds: seq<Byte>, rest: seq<Byte>, base: nat)
    requires ProperText(ws, sign, prefix, ds, rest, base)
    ensures var s, n := ws + sign + prefix + ds + rest, Number(ds, 0, |ds|, BaseOf(|prefix| > 0, ds[0], base));
            && s[|s| - 1] == 0
            && Parsed(s, base) == (if n > MAX then MAX else if IsNegative(sign) then Sub(0, n) else n, |ws| + |sign| + |prefix| + |ds|)
  {
    ComesSelf(ws + sign + prefix + ds + rest);
    FiveParts(ws + sign + prefix + ds + rest, ws, sign, prefix, ds, rest);
    InTextParsed(ws + sign + prefix + ds + rest, ws, sign, prefix, ds, rest, base);
  }

  /** The value and the end of the number. */
  function Valued(n: nat, negative: bool, end: nat): (Word, nat) {
    (if n > MAX then MAX else if negative then Sub(0, n) else n, end)
  }

  lemma NumberFound(s: seq<Byte>, ws: seq<Byte>, sign: seq<Byte>, prefix: seq<Byte>, ds: seq<Byte>, rest: seq<Byte>, base: nat)
    requires ProperText(ws, sign, prefix, ds, rest, base) && InText(s, ws, sign, prefix, ds, rest)
    ensures ParsedAt(s, |ws| + |sign|, IsNegative(sign), base) ==
            Valued(Number(ds, 0, |ds|, BaseOf(|prefix| > 0, ds[0], base)), IsNegative(sign), |ws| + |sign| + |prefix| + |ds|)
  {
    var k := |ws| + |sign| + |prefix|;
    DigitsFound(s, ws, sign, prefix, ds, rest, base);
    assert s[k + |ds| + 0] == rest[0];
    RunFound(s, |ws| + |sign|, k, ds, IsNegative(sign), base, BaseOf(|prefix| > 0, ds[0], base));
  }

  lemma RunFound(s: seq<Byte>, i: nat, k: nat, ds: seq<Byte>, negative: bool, base: nat, b: nat)
    requires i < |s| && k + |ds| < |s| && DigitsBegin(s, i, base) == (k, b)
    requires ds != [] && Comes(s, k, ds) && DigitValue(s[k + |ds|]) >= b
    requires forall j {:trigger ds[j]} :: 0 <= j < |ds| ==> DigitValue(ds[j]) < b
    ensures ParsedAt(s, i, negative, base) == Valued(Number(ds, 0, |ds|, b), negative, k + |ds|)
  {
    RunParsed(s, k, ds, negative, b);
  }

  lemma InTextParsed(s: seq<Byte>, ws: seq<Byte>, sign: seq<Byte>, prefix: seq<Byte>, ds: seq<Byte>, rest: seq<Byte>, base: nat)
    requires ProperText(ws, sign, prefix, ds, rest, base) && InText(s, ws, sign, prefix, ds, rest)
    ensures s[|s| - 1] == 0
    ensures Parsed(s, base) == Valued(Number(ds, 0, |ds|, BaseOf(|prefix| > 0, ds[0], base)), IsNegative(sign), |ws| + |sign| + |prefix| + |ds|)
  {
    SignFound(s, ws, sign, prefix, ds, rest, base);
    NumberFound(s, ws, sign, prefix, ds, rest, base);
    ParsedBehind(s, |ws| + |sign|, IsNegative(sign), base);
  }

  // ----- the two undo each other -----

  /** A string of digits, however long, is parsed to the value it denotes, or the largest word if that is too large; the
      parser stops at the terminator. */
  lemma DigitStringParsed(s: seq<Byte>, base: nat)
    requires s != [] && 2 <= base <= 16 && forall k :: 0 <= k < |s| ==> DigitValue(s[k]) < base
    ensures Parsed(s + [0], base) == (Saturated(Number(s, 0, |s|, base)), |s|)
  {
    DigitsAlone(s, base);
    TextParsed([], [], [], s, [0], base);
    NothingBefore(s);
  }

  lemma DigitsAlone(s: seq<Byte>, base: nat)
    requires s != [] && 2 <= base <= 16 && forall k :: 0 <= k < |s| ==> DigitValue(s[k]) < base
    ensures ProperText([], [], [], s, [0], base)
  {
    assert |s| > 1 ==> DigitValue(s[1]) < 16;
  }

  lemma NothingBefore(s: seq<Byte>)
    ensures [] + [] + [] + s + [0] == s + [0]
  {
  }

  /** Printing a word in any base up to 16 and parsing the text gives the word back. */
  lemma PrintThenParse(u: Word, base: nat)
    requires 2 <= base <= 16
    ensures Parsed(Digits(u, base) + [0], base) == (u, |Digits(u, base)|)
  {
    DigitsDenote(u, base);
    DigitStringParsed(Digits(u, base), base);
  }
}
