/** Formatted output into a buffer of limited size. */
module Print {
  import opened Words
  import opened Wrappers
  import opened Numerals

  /** An argument: an integer, or a string, which may be the null pointer. */
  datatype Arg =
    | Int(w: Word)
    | Str(text: Option<seq<Byte>>)

  datatype Flags = Flags(left: bool, sign: bool, space: bool, zero: bool, alternate: bool)

  const NO_FLAGS := Flags(false, false, false, false, false)

  const PERCENT: Byte := 0x25
  const SPACE: Byte := 0x20
  const ZERO: Byte := 0x30
  const STAR: Byte := 0x2a

  function Signed(w: Word): (n: int)
    ensures -0x8000_0000 <= n < 0x8000_0000 && (n == w || n == w - 0x1_0000_0000)
  {
    if w < 0x8000_0000 then w else w - WORD
  }

  function Max(a: int, b: int): int {
    if a > b then a else b
  }

  function Repeat(c: Byte, n: int): (r: seq<Byte>)
    ensures |r| == Max(n, 0) && forall k :: 0 <= k < |r| ==> r[k] == c
  {
    seq(Max(n, 0), _ => c)
  }

  // ----- what a conversion looks like -----

  /** A terminated format. */
  ghost predicate Terminated(fmt: seq<Byte>) {
    |fmt| > 0 && fmt[|fmt| - 1] == 0
  }

  function Flagged(f: Flags, c: Byte): Option<Flags> {
    if c == 0x2d then Some(f.(left := true))
    else if c == 0x2b then Some(f.(sign := true))
    else if c == SPACE then Some(f.(space := true))
    else if c == ZERO then Some(f.(zero := true))
    else if c == 0x23 then Some(f.(alternate := true))
    else None
  }

  function FlagsAt(fmt: seq<Byte>, i: nat, f: Flags): (r: (Flags, nat))
    requires Terminated(fmt) && i < |fmt|
    ensures i <= r.1 < |fmt|
    decreases |fmt| - i
  {
    match Flagged(f, fmt[i])
    case Some(f') => FlagsAt(fmt, i + 1, f')
    case None => (f, i)
  }

  function DecimalAt(fmt: seq<Byte>, i: nat, n: nat): (r: (nat, nat))
    requires Terminated(fmt) && i < |fmt|
    ensures i <= r.1 < |fmt|
    decreases |fmt| - i
  {
    if IsDigit(fmt[i]) then DecimalAt(fmt, i + 1, n * 10 + (fmt[i] - 0x30)) else (n, i)
  }

  /** A number in the format, or taken from the arguments; where the format goes on; and the next argument. */
  datatype Field = Field(value: int, next: nat, arg: nat)

  function FieldAt(fmt: seq<Byte>, i: nat, args: seq<Arg>, a: nat): (r: Option<Field>)
    requires Terminated(fmt) && i < |fmt|
    ensures r.Some? ==> i <= r.value.next < |fmt|
  {
    if fmt[i] == STAR then
      if a < |args| && args[a].Int? then Some(Field(Signed(args[a].w), i + 1, a + 1)) else None
    else if IsDigit(fmt[i]) then
      var (n, j) := DecimalAt(fmt, i, 0);
      Some(Field(n, j, a))
    else Some(Field(-1, i, a))
  }

  function PrecisionAt(fmt: seq<Byte>, i: nat, args: seq<Arg>, a: nat): (r: Option<Field>)
    requires Terminated(fmt) && i < |fmt|
    ensures r.Some? ==> i <= r.value.next < |fmt|
  {
    if fmt[i] == 0x2e then FieldAt(fmt, i + 1, args, a) else Some(Field(-1, i, a))
  }

  function LengthEnd(fmt: seq<Byte>, i: nat): (j: nat)
    requires Terminated(fmt) && i < |fmt|
    ensures i <= j < |fmt|
  {
    if fmt[i] == 0x68 || fmt[i] == 0x6c || fmt[i] == 0x4c then i + 1 else i
  }

  /** A conversion: flags, width, precision, and the place of the conversion character. */
  datatype Conversion = Conversion(flags: Flags, width: int, precision: int, at: nat, arg: nat)

  function ConversionAt(fmt: seq<Byte>, i: nat, args: seq<Arg>, a: nat): (r: Option<Conversion>)
    requires Terminated(fmt) && i < |fmt|
    ensures r.Some? ==> i <= r.value.at < |fmt|
  {
    var (f, j) := FlagsAt(fmt, i, NO_FLAGS);
    match FieldAt(fmt, j, args, a)
    case None => None
    case Some(width) =>
      match PrecisionAt(fmt, width.next, args, width.arg)
      case None => None
      case Some(precision) =>
        Some(Conversion(f, width.value, precision.value, LengthEnd(fmt, precision.next), precision.arg))
  }

  // ----- what a conversion prints -----

  /** How an integer conversion reads its argument. */
  datatype Radix = Radix(base: nat, upper: bool, signed: bool)

  function RadixOf(c: Byte): (r: Option<Radix>)
    ensures r.Some? ==> 2 <= r.value.base <= 16
  {
    if c == 0x62 then Some(Radix(2, false, false))
    else if c == 0x6f then Some(Radix(8, false, false))
    else if c == 0x78 then Some(Radix(16, false, false))
    else if c == 0x58 then Some(Radix(16, true, false))
    else if c == 0x64 || c == 0x69 then Some(Radix(10, false, true))
    else if c == 0x75 then Some(Radix(10, false, false))
    else None
  }

  function SignText(f: Flags, signed: bool, w: Word): (r: seq<Byte>)
    ensures |r| <= 1
  {
    if !signed then []
    else if f.sign && Signed(w) >= 0 then [0x2b]
    else if f.space && Signed(w) >= 0 then [SPACE]
    else if Signed(w) < 0 then [0x2d]
    else []
  }

  function Magnitude(signed: bool, w: Word): Word {
    if signed && Signed(w) < 0 then Sub(0, w) else w
  }

  function PrefixText(f: Flags, base: nat): seq<Byte> {
    if !f.alternate then []
    else if base == 2 then [PERCENT]
    else if base == 8 then [ZERO]
    else if base == 16 then [ZERO, 0x78]
    else []
  }

  /** The room counted for the prefix; for base 2 it is one more than is used. */
  function PrefixRoom(f: Flags, base: nat): nat {
    if !f.alternate then 0 else if base == 8 then 1 else if base == 16 || base == 2 then 2 else 0
  }

  function Cased(c: Byte, upper: bool): Byte {
    if upper && IsLower(c) then c - 0x20 else c
  }

  function CasedAll(s: seq<Byte>, upper: bool): (r: seq<Byte>)
    ensures |r| == |s|
  {
    seq(|s|, i requires 0 <= i < |s| => Cased(s[i], upper))
  }

  /** The characters counted for a number before it is padded to its width. */
  function NumberRoom(f: Flags, precision: int, x: Radix, w: Word): int
    requires 2 <= x.base <= 16
  {
    Max(|Digits(Magnitude(x.signed, w), x.base)|, precision) + |SignText(f, x.signed, w)| + PrefixRoom(f, x.base)
  }

  /** The characters left for zeros and digits. */
  function DigitsRoom(f: Flags, width: int, precision: int, x: Radix, w: Word): int
    requires 2 <= x.base <= 16
  {
    var n := NumberRoom(f, precision, x, w);
    (if !f.left && f.zero && width > n then width else n) - |SignText(f, x.signed, w)| - |PrefixText(f, x.base)|
  }

  function NumberText(f: Flags, width: int, precision: int, x: Radix, w: Word): seq<Byte>
    requires 2 <= x.base <= 16
  {
    var ds := CasedAll(Digits(Magnitude(x.signed, w), x.base), x.upper);
    var room := DigitsRoom(f, width, precision, x, w);
    Repeat(SPACE, if !f.left && !f.zero then width - NumberRoom(f, precision, x, w) else 0)
    + SignText(f, x.signed, w)
    + PrefixText(f, x.base)
    + Repeat(ZERO, room - |ds|)
    + ds
    + Repeat(SPACE, if f.left then width - room - |SignText(f, x.signed, w)| else 0)
  }

  function StringText(f: Flags, width: int, precision: int, text: seq<Byte>): seq<Byte> {
    var shown := if 0 <= precision < |text| then text[..precision] else text;
    var pad := if width > 0 then width - |shown| else 0;
    Repeat(if f.zero then ZERO else SPACE, if f.left then 0 else pad) + shown + Repeat(SPACE, if f.left then pad else 0)
  }

  const NULL_STRING: seq<Byte> := [0x28, 0x6e, 0x75, 0x6c, 0x6c, 0x29]

  /** What a conversion prints, and the next argument; none for a format that ends inside it, for an argument that is
      missing or of the wrong kind, and for conversions that are not part of this model. */
  function Converted(fmt: seq<Byte>, v: Conversion, args: seq<Arg>): Option<(seq<Byte>, nat)>
    requires v.at < |fmt|
  {
    var c := fmt[v.at];
    if c == 0 || c == 0x70 || c == 0x66 || c == 0x74 || c == 0x6e then None
    else if RadixOf(c).Some? then
      if v.arg < |args| && args[v.arg].Int?
      then Some((NumberText(v.flags, v.width, v.precision, RadixOf(c).value, args[v.arg].w), v.arg + 1)) else None
    else if c == 0x73 then
      if v.arg < |args| && args[v.arg].Str? then
        match args[v.arg].text
        case None => Some((NULL_STRING, v.arg + 1))
        case Some(text) => if 0 in text then None else Some((StringText(v.flags, v.width, v.precision, text), v.arg + 1))
      else None
    else if c == 0x63 then
      if v.arg < |args| && args[v.arg].Int? then Some(([args[v.arg].w % 256], v.arg + 1)) else None
    else if c == PERCENT then Some(([PERCENT], v.arg))
    else Some(([PERCENT, c], v.arg))
  }

  /** What the format prints from place `i` on, with the arguments from number `a` on, in unlimited space. */
  function Output(fmt: seq<Byte>, i: nat, args: seq<Arg>, a: nat): Option<seq<Byte>>
    requires Terminated(fmt) && i < |fmt|
    decreases |fmt| - i
  {
    if fmt[i] == PERCENT then
      match ConversionAt(fmt, i + 1, args, a)
      case None => None
      case Some(v) =>
        match Converted(fmt, v, args)
        case None => None
        case Some((text, a')) =>
          if v.at + 1 >= |fmt| then None
          else
            match Output(fmt, v.at + 1, args, a')
            case None => None
            case Some(rest) => Some(text + rest)
    else if fmt[i] == 0 then Some([])
    else
      match Output(fmt, i + 1, args, a)
      case None => None
      case Some(rest) => Some([fmt[i]] + rest)
  }

  // ----- reading the format -----

  method ParseFlags(fmt: seq<Byte>, begin: nat) returns (f: Flags, i: nat)
    requires Terminated(fmt) && begin < |fmt|
    ensures (f, i) == FlagsAt(fmt, begin, NO_FLAGS)
  {
    f, i := NO_FLAGS, begin;
    while true
      invariant i < |fmt| && FlagsAt(fmt, i, f) == FlagsAt(fmt, begin, NO_FLAGS)
      decreases |fmt| - i
    {
      match Flagged(f, fmt[i])
      case None =>
        return;
      case Some(f') =>
        f := f';
        i := i + 1;
    }
  }

  method ParseField(fmt: seq<Byte>, begin: nat, args: seq<Arg>, a: nat) returns (value: int, i: nat, a': nat)
    requires Terminated(fmt) && begin < |fmt| && FieldAt(fmt, begin, args, a).Some?
    ensures Field(value, i, a') == FieldAt(fmt, begin, args, a).value
  {
    i, a' := begin, a;
    if fmt[i] == STAR {
      return Signed(args[a].w), i + 1, a + 1;
    } else if IsDigit(fmt[i]) {
      value := 0;
      while IsDigit(fmt[i])
        invariant begin <= i < |fmt| && value >= 0 && DecimalAt(fmt, i, value) == DecimalAt(fmt, begin, 0)
        decreases |fmt| - i
      {
        value := value * 10;
        value := value + (fmt[i] - 0x30);
        i := i + 1;
      }
    } else {
      value := -1;
    }
  }

  method ParseConversion(fmt: seq<Byte>, begin: nat, args: seq<Arg>, a: nat) returns (v: Conversion)
    requires Terminated(fmt) && begin < |fmt| && ConversionAt(fmt, begin, args, a).Some?
    ensures v == ConversionAt(fmt, begin, args, a).value
  {
    var f, i := ParseFlags(fmt, begin);
    var width, precision, b;
    width, i, b := ParseField(fmt, i, args, a);
    if fmt[i] == 0x2e {
      precision, i, b := ParseField(fmt, i + 1, args, b);
    } else {
      precision := -1;
    }
    if fmt[i] == 0x68 || fmt[i] == 0x6c || fmt[i] == 0x4c {
      i := i + 1;
    }
    v := Conversion(f, width, precision, i, b);
  }

  // ----- writing -----

  /** The place of the next character and the space that is left; `total` is what the whole format prints, `room` the space
      there was at the start. */
  class Printer {
    const str: array<Byte>
    var p: nat
    var size: Word
    ghost const total: seq<Byte>
    ghost const room: nat

    constructor (str: array<Byte>, size: Word, ghost total: seq<Byte>)
      requires size < str.Length
      ensures Going() && p == 0 && this.str == str && this.total == total && room == size
    {
      this.str, this.p, this.size, this.total, this.room := str, 0, size, total, size;
    }

    /** What was written is the beginning of the output. */
    ghost predicate Written()
      reads this, str
    {
      p <= room < str.Length && p <= |total| && str[..p] == total[..p]
    }

    ghost predicate Going()
      reads this, str
    {
      Written() && size == room - p
    }

    /** The space is used up. */
    ghost predicate Full()
      reads this, str
    {
      Written() && p == room
    }

    /** Writes a character if there is space for it. */
    method PutCh(c: Byte) returns (done: bool)
      requires Going() && Comes(total, p, [c])
      modifies this`p, this`size, str
      ensures done ==> Full() && p == old(p)
      ensures !done ==> Going() && p == old(p) + 1
      ensures forall k {:trigger str[k]} :: room <= k < str.Length ==> str[k] == old(str[k])
    {
      done := size <= 0;
      size := Sub(size, 1);
      if !done {
        ghost var was := str[..p];
        str[p] := c;
        p := p + 1;
        assert str[..p] == was + [c] && total[p - 1] == total[p - 1..p - 1 + 1][0];
        assert total[..p] == total[..p - 1] + [total[p - 1]];
      }
    }

    method PutText(text: seq<Byte>) returns (done: bool)
      requires Going() && Comes(total, p, text)
      modifies this`p, this`size, str
      ensures done ==> Full()
      ensures !done ==> Going() && p == old(p) + |text|
      ensures forall k {:trigger str[k]} :: room <= k < str.Length ==> str[k] == old(str[k])
    {
      var k := 0;
      while k < |text|
        invariant 0 <= k <= |text| && Going() && p == old(p) + k && Comes(total, p, text[k..])
        invariant forall i {:trigger str[i]} :: room <= i < str.Length ==> str[i] == old(str[i])
      {
        assert text[k..] == [text[k]] + text[k + 1..];
        ComesSplit(total, p, [text[k]], text[k + 1..]);
        done := PutCh(text[k]);
        if done {
          return;
        }
        k := k + 1;
      }
      done := false;
    }

    /** Writes a character so many times; not at all for a count below 1. */
    method PutRepeat(c: Byte, n: int) returns (done: bool)
      requires Going() && Comes(total, p, Repeat(c, n))
      modifies this`p, this`size, str
      ensures done ==> Full()
      ensures !done ==> Going() && p == old(p) + Max(n, 0)
      ensures forall k {:trigger str[k]} :: room <= k < str.Length ==> str[k] == old(str[k])
    {
      var k := n;
      while k > 0
        invariant k <= n && Going() && p + Max(k, 0) == old(p) + Max(n, 0) && Comes(total, p, Repeat(c, k))
        invariant forall i {:trigger str[i]} :: room <= i < str.Length ==> str[i] == old(str[i])
      {
        assert Repeat(c, k) == [c] + Repeat(c, k - 1);
        ComesSplit(total, p, [c], Repeat(c, k - 1));
        done := PutCh(c);
        if done {
          return;
        }
        k := k - 1;
      }
      done := false;
    }

    /** Writes the digits of a number, which are found lowest first. */
    method PutDigits(ghost ds: seq<Byte>, convert: array<Byte>, numdigits: nat) returns (done: bool)
      requires Going() && convert != str && numdigits <= convert.Length
      requires Reversed(convert[..numdigits], ds) && Comes(total, p, ds)
      modifies this`p, this`size, str
      ensures done ==> Full()
      ensures !done ==> Going() && p == old(p) + |ds|
      ensures forall k {:trigger str[k]} :: room <= k < str.Length ==> str[k] == old(str[k])
    {
      var n := numdigits;
      while n > 0
        invariant 0 <= n <= numdigits && Going() && p == old(p) + numdigits - n && Comes(total, p, ds[numdigits - n..])
        invariant convert[..numdigits] == old(convert[..numdigits])
        invariant forall i {:trigger str[i]} :: room <= i < str.Length ==> str[i] == old(str[i])
      {
        n := n - 1;
        ghost var k := numdigits - n - 1;
        assert ds[k..] == [ds[k]] + ds[k + 1..];
        ComesSplit(total, p, [ds[k]], ds[k + 1..]);
        assert convert[..numdigits][n] == ds[k];
        done := PutCh(convert[n]);
        if done {
          return;
        }
      }
      done := false;
    }

    /** Writes an integer. The counter that is left, which a string conversion behind may use, is not negative. */
    method PutNumber(f: Flags, width: int, precision: int, x: Radix, w: Word) returns (done: bool, numpr: int)
      requires Going() && x.base in [2, 8, 10, 16] && Comes(total, p, NumberText(f, width, precision, x, w))
      modifies this`p, this`size, str
      ensures numpr >= 0
      ensures done ==> Full()
      ensures !done ==> Going() && p == old(p) + |NumberText(f, width, precision, x, w)|
      ensures forall k {:trigger str[k]} :: room <= k < str.Length ==> str[k] == old(str[k])
    {
      var convert, numdigits := ConvertDigits(Magnitude(x.signed, w), x.base, x.upper);
      ghost var ds := CasedAll(Digits(Magnitude(x.signed, w), x.base), x.upper);
      var spaces, right;
      spaces, numpr, right := Measure(f, width, precision, x, w, numdigits);
      NumberParts(f, width, precision, x, w, spaces, right);
      done := PutParts(spaces, SignText(f, x.signed, w), PrefixText(f, x.base), numpr - numdigits, ds, convert, numdigits, right);
    }

    /** Writes the parts of an integer one after the other. */
    method PutParts(spaces: int, signText: seq<Byte>, prefix: seq<Byte>, zeros: int, ghost ds: seq<Byte>,
                    convert: array<Byte>, numdigits: nat, right: int)
      returns (done: bool)
      requires Going() && convert != str && numdigits <= convert.Length && Reversed(convert[..numdigits], ds)
      requires Comes(total, p, Repeat(SPACE, spaces) + signText + prefix + Repeat(ZERO, zeros) + ds + Repeat(SPACE, right))
      modifies this`p, this`size, str
      ensures done ==> Full()
      ensures !done ==> Going() && p == old(p) + Max(spaces, 0) + |signText| + |prefix| + Max(zeros, 0) + |ds| + Max(right, 0)
      ensures forall k {:trigger str[k]} :: room <= k < str.Length ==> str[k] == old(str[k])
    {
      SixParts(total, p, Repeat(SPACE, spaces), signText, prefix, Repeat(ZERO, zeros), ds, Repeat(SPACE, right));
      done := PutHead(spaces, signText, prefix);
      if !done {
        done := PutTail(zeros, ds, convert, numdigits, right);
      }
    }

    method PutHead(spaces: int, signText: seq<Byte>, prefix: seq<Byte>) returns (done: bool)
      requires Going() && Comes(total, p, Repeat(SPACE, spaces)) && Comes(total, p + Max(spaces, 0), signText)
      requires Comes(total, p + Max(spaces, 0) + |signText|, prefix)
      modifies this`p, this`size, str
      ensures done ==> Full()
      ensures !done ==> Going() && p == old(p) + Max(spaces, 0) + |signText| + |prefix|
      ensures forall k {:trigger str[k]} :: room <= k < str.Length ==> str[k] == old(str[k])
    {
      done := PutRepeat(SPACE, spaces);
      if done {
        return;
      }
      done := PutText(signText);
      if done {
        return;
      }
      done := PutText(prefix);
    }

    method PutTail(zeros: int, ghost ds: seq<Byte>, convert: array<Byte>, numdigits: nat, right: int) returns (done: bool)
      requires Going() && convert != str && numdigits <= convert.Length && Reversed(convert[..numdigits], ds)
      requires Comes(total, p, Repeat(ZERO, zeros)) && Comes(total, p + Max(zeros, 0), ds)
      requires Comes(total, p + Max(zeros, 0) + |ds|, Repeat(SPACE, right))
      modifies this`p, this`size, str
      ensures done ==> Full()
      ensures !done ==> Going() && p == old(p) + Max(zeros, 0) + |ds| + Max(right, 0)
      ensures forall k {:trigger str[k]} :: room <= k < str.Length ==> str[k] == old(str[k])
    {
      done := PutRepeat(ZERO, zeros);
      if done {
        return;
      }
      done := PutDigits(ds, convert, numdigits);
      if done {
        return;
      }
      done := PutRepeat(SPACE, right);
    }

    /** Writes a string. With no width, the counter of an earlier conversion decides on padding to the right; as it is
        never negative, there is none. */
    method PutString(f: Flags, width: int, precision: int, text: seq<Byte>, counter: int) returns (done: bool, numpr: int)
      requires Going() && counter >= 0 && Comes(total, p, StringText(f, width, precision, text))
      modifies this`p, this`size, str
      ensures numpr >= 0
      ensures done ==> Full()
      ensures !done ==> Going() && p == old(p) + |StringText(f, width, precision, text)|
      ensures forall k {:trigger str[k]} :: room <= k < str.Length ==> str[k] == old(str[k])
    {
      var shown := if 0 <= precision < |text| then text[..precision] else text;
      var pad, right;
      pad, numpr, right := MeasureString(f, width, precision, text, counter);
      StringParts(total, p, f, width, precision, text, pad, right);
      done := PutRepeat(if f.zero then ZERO else SPACE, pad);
      if done {
        return;
      }
      done := PutText(shown);
      if done {
        return;
      }
      done := PutRepeat(SPACE, right);
    }

    /** Writes what one conversion prints. */
    method Convert(fmt: seq<Byte>, v: Conversion, args: seq<Arg>, counter: int) returns (done: bool, a: nat, numpr: int)
      requires Going() && counter >= 0 && v.at < |fmt| && Converted(fmt, v, args).Some?
      requires Comes(total, p, Converted(fmt, v, args).value.0)
      modifies this`p, this`size, str
      ensures numpr >= 0 && a == Converted(fmt, v, args).value.1
      ensures done ==> Full()
      ensures !done ==> Going() && p == old(p) + |Converted(fmt, v, args).value.0|
      ensures forall k {:trigger str[k]} :: room <= k < str.Length ==> str[k] == old(str[k])
    {
      var c := fmt[v.at];
      a, numpr := v.arg, counter;
      var x := RadixOf(c);
      if x.Some? {
        a := v.arg + 1;
        done, numpr := PutNumber(v.flags, v.width, v.precision, x.value, args[v.arg].w);
      } else if c == 0x73 {
        a := v.arg + 1;
        if args[v.arg].text.None? {
          done := PutText(NULL_STRING);
        } else {
          done, numpr := PutString(v.flags, v.width, v.precision, args[v.arg].text.value, counter);
        }
      } else if c == 0x63 {
        a := v.arg + 1;
        done := PutCh(args[v.arg].w % 256);
      } else if c == PERCENT {
        done := PutCh(PERCENT);
      } else {
        done := PutText([PERCENT, c]);
      }
    }

    /** Copies the format up to the next percent sign. */
    method PutPlain(fmt: seq<Byte>, begin: nat, ghost args: seq<Arg>, ghost a: nat) returns (done: bool, i: nat)
      requires Going() && Terminated(fmt) && begin < |fmt| && Output(fmt, begin, args, a) == Some(total[p..])
      modifies this`p, this`size, str
      ensures done ==> Full() || (Going() && p == |total|)
      ensures !done ==>
                && Going() && begin < i < |fmt| && fmt[i - 1] == PERCENT
                && Output(fmt, i - 1, args, a) == Some(total[p..])
      ensures forall k {:trigger str[k]} :: room <= k < str.Length ==> str[k] == old(str[k])
    {
      i := begin;
      done := false;
      while fmt[i] != PERCENT
        invariant begin <= i < |fmt| && Going() && Output(fmt, i, args, a) == Some(total[p..])
        invariant forall k {:trigger str[k]} :: room <= k < str.Length ==> str[k] == old(str[k])
        decreases |fmt| - i
      {
        if size <= 0 || fmt[i] == 0 {
          return true, i;
        }
        PlainComes(total, p, fmt, i, args, a);
        done := PutCh(fmt[i]);
        if done {
          return;
        }
        i := i + 1;
      }
      i := i + 1;
    }
  }

  /** How much padding a string gets. */
  method MeasureString(f: Flags, width: int, precision: int, text: seq<Byte>, counter: int) returns (pad: int, numpr: int, right: int)
    requires counter >= 0
    ensures numpr >= 0
    ensures var all := if width > 0 then width - |if 0 <= precision < |text| then text[..precision] else text| else 0;
            Max(pad, 0) == Max(if f.left then 0 else all, 0) && Max(right, 0) == Max(if f.left then all else 0, 0)
  {
    numpr := counter;
    pad := 0;
    if width > 0 {
      numpr := |text|;
      if precision >= 0 && precision < numpr {
        numpr := precision;
      }
      pad := if f.left then 0 else width - numpr;
    }
    right := if f.left then width - numpr else 0;
  }

  lemma StringParts(total: seq<Byte>, p: nat, f: Flags, width: int, precision: int, text: seq<Byte>, pad: int, right: int)
    requires Comes(total, p, StringText(f, width, precision, text))
    requires var all := if width > 0 then width - |if 0 <= precision < |text| then text[..precision] else text| else 0;
             Max(pad, 0) == Max(if f.left then 0 else all, 0) && Max(right, 0) == Max(if f.left then all else 0, 0)
    ensures var shown := if 0 <= precision < |text| then text[..precision] else text;
            && Comes(total, p, Repeat(if f.zero then ZERO else SPACE, pad)) && Comes(total, p + Max(pad, 0), shown)
            && Comes(total, p + Max(pad, 0) + |shown|, Repeat(SPACE, right))
            && |StringText(f, width, precision, text)| == Max(pad, 0) + |shown| + Max(right, 0)
  {
    var shown := if 0 <= precision < |text| then text[..precision] else text;
    var all := if width > 0 then width - |shown| else 0;
    var front, back := Repeat(if f.zero then ZERO else SPACE, pad), Repeat(SPACE, right);
    assert front == Repeat(if f.zero then ZERO else SPACE, if f.left then 0 else all);
    assert back == Repeat(SPACE, if f.left then all else 0);
    ComesSplit(total, p, front + shown, back);
    ComesSplit(total, p, front, shown);
  }

  /** How much padding a number gets, and the room for its zeros and digits. */
  method Measure(f: Flags, width: int, precision: int, x: Radix, w: Word, numdigits: nat) returns (spaces: int, numpr: int, right: int)
    requires 2 <= x.base <= 16 && numdigits == |Digits(Magnitude(x.signed, w), x.base)|
    ensures numpr == DigitsRoom(f, width, precision, x, w) && numpr >= 0
    ensures Max(spaces, 0) == Max(if !f.left && !f.zero then width - NumberRoom(f, precision, x, w) else 0, 0)
    ensures right == if f.left then width - numpr - |SignText(f, x.signed, w)| else 0
  {
    var signText := SignText(f, x.signed, w);
    numpr := if numdigits > precision then numdigits else precision;
    numpr := numpr + |signText| + PrefixRoom(f, x.base);
    spaces := 0;
    if !f.left && width > numpr {
      if f.zero {
        numpr := width;
      } else {
        spaces := width - numpr;
      }
    }
    numpr := numpr - |signText| - |PrefixText(f, x.base)|;
    right := if f.left then width - numpr - |signText| else 0;
  }

  /** The text of a number in parts. */
  lemma NumberParts(f: Flags, width: int, precision: int, x: Radix, w: Word, spaces: int, right: int)
    requires 2 <= x.base <= 16
    requires Max(spaces, 0) == Max(if !f.left && !f.zero then width - NumberRoom(f, precision, x, w) else 0, 0)
    requires right == if f.left then width - DigitsRoom(f, width, precision, x, w) - |SignText(f, x.signed, w)| else 0
    ensures var ds, zeros := CasedAll(Digits(Magnitude(x.signed, w), x.base), x.upper),
                             DigitsRoom(f, width, precision, x, w) - |Digits(Magnitude(x.signed, w), x.base)|;
            && NumberText(f, width, precision, x, w) ==
               Repeat(SPACE, spaces) + SignText(f, x.signed, w) + PrefixText(f, x.base) + Repeat(ZERO, zeros) + ds + Repeat(SPACE, right)
            && |NumberText(f, width, precision, x, w)| ==
               Max(spaces, 0) + |SignText(f, x.signed, w)| + |PrefixText(f, x.base)| + Max(zeros, 0) + |ds| + Max(right, 0)
  {
  }

  lemma OneComes(total: seq<Byte>, p: nat, c: Byte, rest: seq<Byte>)
    requires p <= |total| && total[p..] == [c] + rest
    ensures Comes(total, p, [c]) && total[p + 1..] == rest
  {
  }

  /** A character of the format is printed as it is. */
  lemma PlainComes(total: seq<Byte>, p: nat, fmt: seq<Byte>, i: nat, args: seq<Arg>, a: nat)
    requires Terminated(fmt) && i < |fmt| && fmt[i] != PERCENT && fmt[i] != 0 && p <= |total|
    requires Output(fmt, i, args, a) == Some(total[p..])
    ensures i + 1 < |fmt| && p < |total| && Comes(total, p, [fmt[i]]) && Output(fmt, i + 1, args, a) == Some(total[p + 1..])
  {
    OneComes(total, p, fmt[i], Output(fmt, i + 1, args, a).value);
  }

  lemma TextComes(total: seq<Byte>, p: nat, text: seq<Byte>, rest: seq<Byte>)
    requires p <= |total| && total[p..] == text + rest
    ensures Comes(total, p, text) && total[p + |text|..] == rest
  {
  }

  lemma SixParts(total: seq<Byte>, p: nat, a: seq<Byte>, b: seq<Byte>, c: seq<Byte>, d: seq<Byte>, e: seq<Byte>, f: seq<Byte>)
    requires Comes(total, p, a + b + c + d + e + f)
    ensures Comes(total, p, a) && Comes(total, p + |a|, b) && Comes(total, p + |a| + |b|, c)
    ensures Comes(total, p + |a| + |b| + |c|, d) && Comes(total, p + |a| + |b| + |c| + |d|, e)
    ensures Comes(total, p + |a| + |b| + |c| + |d| + |e|, f)
  {
    ComesSplit(total, p, a + b + c + d + e, f);
    ComesSplit(total, p, a + b + c + d, e);
    ComesSplit(total, p, a + b + c, d);
    ComesSplit(total, p, a + b, c);
    ComesSplit(total, p, a, b);
  }

  // ----- the whole -----

  const NULL_FORMAT: seq<Byte> := [0x28, 0x6e, 0x75, 0x6c, 0x6c, 0x20, 0x66, 0x6d, 0x74, 0x20, 0x73, 0x74, 0x72, 0x69, 0x6e, 0x67, 0x29]

  /** What is printed in unlimited space. */
  function Whole(fmt: Option<seq<Byte>>, args: seq<Arg>): Option<seq<Byte>>
    requires fmt.Some? ==> |fmt.value| > 0 && fmt.value[|fmt.value| - 1] == 0
  {
    match fmt
    case None => Some(NULL_FORMAT)
    case Some(text) => Output(text, 0, args, 0)
  }

  /** Prints into a buffer of `size` cells: the first `size - 1` characters of the whole output, and a terminator. Nothing
      behind it is touched. */
  method Vsnprintf(str: array<Byte>, size: Word, fmt: Option<seq<Byte>>, args: seq<Arg>) returns (n: nat)
    requires 1 <= size <= str.Length
    requires fmt.Some? ==> |fmt.value| > 0 && fmt.value[|fmt.value| - 1] == 0
    requires Whole(fmt, args).Some?
    modifies str
    ensures var whole := Whole(fmt, args).value;
            n == (if |whole| < size then |whole| else size - 1) && str[..n] == whole[..n] && str[n] == 0
    ensures forall k {:trigger str[k]} :: size <= k < str.Length ==> str[k] == old(str[k])
  {
    ghost var whole := Whole(fmt, args).value;
    var out := new Printer(str, size - 1, whole);
    if fmt.None? {
      assert whole[0..0 + |NULL_FORMAT|] == NULL_FORMAT;
      var done := out.PutText(NULL_FORMAT);
    } else {
      assert whole[0..] == whole;
      Run(out, fmt.value, args);
    }
    n := out.p;
    str[n] := 0;
  }

  /** The output from a percent sign on begins with what the conversion prints. */
  lemma OutputBegins(fmt: seq<Byte>, i: nat, args: seq<Arg>, a: nat) returns (v: Conversion, text: seq<Byte>, a': nat, rest: seq<Byte>)
    requires Terminated(fmt) && 0 < i < |fmt| && fmt[i - 1] == PERCENT && Output(fmt, i - 1, args, a).Some?
    ensures ConversionAt(fmt, i, args, a) == Some(v) && i <= v.at && v.at + 1 < |fmt| && Converted(fmt, v, args) == Some((text, a'))
    ensures Output(fmt, v.at + 1, args, a') == Some(rest) && Output(fmt, i - 1, args, a) == Some(text + rest)
  {
    v := ConversionAt(fmt, i, args, a).value;
    text, a' := Converted(fmt, v, args).value.0, Converted(fmt, v, args).value.1;
    rest := Output(fmt, v.at + 1, args, a').value;
  }

  /** The loop over the format. */
  method Run(out: Printer, fmt: seq<Byte>, args: seq<Arg>)
    requires out.Going() && Terminated(fmt) && out.p == 0 && Output(fmt, 0, args, 0) == Some(out.total[0..])
    modifies out`p, out`size, out.str
    ensures out.Full() || (out.Going() && out.p == |out.total|)
    ensures forall k {:trigger out.str[k]} :: out.room <= k < out.str.Length ==> out.str[k] == old(out.str[k])
  {
    var i: nat, a: nat, numpr, done := 0, 0, 0, false;
    while out.size > 0
      invariant out.Going() && i < |fmt| && numpr >= 0 && Output(fmt, i, args, a) == Some(out.total[out.p..])
      invariant forall k {:trigger out.str[k]} :: out.room <= k < out.str.Length ==> out.str[k] == old(out.str[k])
      decreases |fmt| - i
    {
      done, i, a, numpr := Round(out, fmt, i, args, a, numpr);
      if done {
        return;
      }
    }
  }

  lemma RestComes(fmt: seq<Byte>, i: nat, args: seq<Arg>, a: nat, total: seq<Byte>, p: nat, rest: seq<Byte>)
    requires Terminated(fmt) && i < |fmt| && p <= |total| && Output(fmt, i, args, a) == Some(rest) && total[p..] == rest
    ensures Output(fmt, i, args, a) == Some(total[p..])
  {
  }

  /** One round of the loop: plain characters and the conversion behind them. */
  method Round(out: Printer, fmt: seq<Byte>, begin: nat, args: seq<Arg>, first: nat, counter: int)
    returns (done: bool, i: nat, a: nat, numpr: int)
    requires out.Going() && Terminated(fmt) && begin < |fmt| && counter >= 0
    requires Output(fmt, begin, args, first) == Some(out.total[out.p..])
    modifies out`p, out`size, out.str
    ensures done ==> out.Full() || (out.Going() && out.p == |out.total|)
    ensures !done ==> out.Going() && begin < i < |fmt| && numpr >= 0 && Output(fmt, i, args, a) == Some(out.total[out.p..])
    ensures forall k {:trigger out.str[k]} :: out.room <= k < out.str.Length ==> out.str[k] == old(out.str[k])
  {
    done, i := out.PutPlain(fmt, begin, args, first);
    a, numpr := first, counter;
    if done {
      return;
    }
    ghost var v, text, a', rest := OutputBegins(fmt, i, args, first);
    TextComes(out.total, out.p, text, rest);
    ghost var behind := out.p + |text|;
    done, i, a, numpr := PutNext(out, fmt, i, args, first, counter, v, text, a');
    if !done {
      assert i == v.at + 1 && a == a' && out.p == behind;
      RestComes(fmt, i, args, a, out.total, out.p, rest);
    }
  }

  /** Reads and writes the conversion behind a percent sign. */
  method PutNext(out: Printer, fmt: seq<Byte>, begin: nat, args: seq<Arg>, first: nat, counter: int,
                 ghost v0: Conversion, ghost text: seq<Byte>, ghost a': nat)
    returns (done: bool, i: nat, a: nat, numpr: int)
    requires out.Going() && Terminated(fmt) && begin < |fmt| && counter >= 0 && v0.at < |fmt|
    requires ConversionAt(fmt, begin, args, first) == Some(v0) && Converted(fmt, v0, args) == Some((text, a'))
    requires Comes(out.total, out.p, text)
    modifies out`p, out`size, out.str
    ensures done ==> out.Full()
    ensures !done ==> out.Going() && i == v0.at + 1 && a == a' && numpr >= 0 && out.p == old(out.p) + |text|
    ensures forall k {:trigger out.str[k]} :: out.room <= k < out.str.Length ==> out.str[k] == old(out.str[k])
  {
    var v := ParseConversion(fmt, begin, args, first);
    done, a, numpr := out.Convert(fmt, v, args, counter);
    i := v.at + 1;
  }

  /** Whatever a smaller buffer holds is the beginning of what a larger one holds. */
  method TruncationIsPrefix(small: array<Byte>, m: Word, large: array<Byte>, n: Word, fmt: Option<seq<Byte>>, args: seq<Arg>)
    returns (k: nat, l: nat)
    requires small != large && 1 <= m <= small.Length && m <= n <= large.Length
    requires fmt.Some? ==> |fmt.value| > 0 && fmt.value[|fmt.value| - 1] == 0
    requires Whole(fmt, args).Some?
    modifies small, large
    ensures k < m && l < n && k <= l && small[..k] == large[..k] && small[k] == 0 && (k < m - 1 ==> k == l)
  {
    k := Vsnprintf(small, m, fmt, args);
    l := Vsnprintf(large, n, fmt, args);
    ghost var whole := Whole(fmt, args).value;
    assert large[..l][..k] == whole[..l][..k] == whole[..k];
    assert large[..l][..k] == large[..k];
  }

  ghost predicate Reversed(s: seq<Byte>, t: seq<Byte>) {
    |s| == |t| && forall k {:trigger s[k]} :: 0 <= k < |s| ==> s[k] == t[|s| - 1 - k]
  }

  /** Fills in the digits of a number, lowest first. */
  method ConvertDigits(value: Word, base: nat, upper: bool) returns (convert: array<Byte>, numdigits: nat)
    requires base in [2, 8, 10, 16]
    ensures fresh(convert) && convert.Length == 64 && 1 <= numdigits <= 32
    ensures Reversed(convert[..numdigits], CasedAll(Digits(value, base), upper))
  {
    convert := new Byte[64](_ => 0);
    DigitsFit(value, base);
    numdigits := FillDigits(convert, value, base, upper, Digits(value, base));
  }

  ghost predicate BeginsWith(t: seq<Byte>, s: seq<Byte>) {
    |s| <= |t| && forall k {:trigger s[k]} :: 0 <= k < |s| ==> t[k] == s[k]
  }

  method FillDigits(convert: array<Byte>, value: Word, base: nat, upper: bool, ghost ds: seq<Byte>) returns (numdigits: nat)
    requires 2 <= base <= 16 && ds == Digits(value, base) && 1 <= |ds| <= convert.Length
    modifies convert
    ensures numdigits == |ds| && Reversed(convert[..numdigits], CasedAll(ds, upper))
  {
    numdigits := 0;
    var uval: nat := value;
    ghost var left := ds;
    while true
      invariant left == Digits(uval, base) && |left| == |ds| - numdigits && |left| > 0 && BeginsWith(ds, left)
      invariant FilledBehind(convert[..], numdigits, ds, upper)
      decreases uval
    {
      var c, rest := SplitDigit(uval, base, ds, left);
      convert[numdigits] := Cased(c, upper);
      numdigits := numdigits + 1;
      if uval < base {
        FilledIsReversed(convert[..], ds, upper);
        return;
      }
      uval := rest;
      left := left[..|left| - 1];
    }
  }

  /** The last `n` digits are there, the last one first. */
  ghost predicate FilledBehind(convert: seq<Byte>, n: nat, ds: seq<Byte>, upper: bool) {
    n <= |ds| <= |convert| && forall k {:trigger convert[k]} :: 0 <= k < n ==> convert[k] == Cased(ds[|ds| - 1 - k], upper)
  }

  lemma FilledIsReversed(convert: seq<Byte>, ds: seq<Byte>, upper: bool)
    requires FilledBehind(convert, |ds|, ds, upper)
    ensures Reversed(convert[..|ds|], CasedAll(ds, upper))
  {
    forall k | 0 <= k < |ds|
      ensures convert[..|ds|][k] == CasedAll(ds, upper)[|ds| - 1 - k]
    {
      assert convert[..|ds|][k] == convert[k];
    }
  }

  /** The lowest digit, and what is left. */
  method SplitDigit(u: nat, base: nat, ghost ds: seq<Byte>, ghost left: seq<Byte>) returns (c: Byte, rest: nat)
    requires 2 <= base <= 16 && left == Digits(u, base) && BeginsWith(ds, left)
    ensures c == ds[|left| - 1]
    ensures if u < base then |left| == 1 else rest < u && |left| > 1 && Digits(rest, base) == left[..|left| - 1]
  {
    LastDigit(u, base, left);
    c, rest := DigitChar(u % base), u / base;
  }

  /** The last of the digits, and the others. */
  lemma LastDigit(u: nat, base: nat, left: seq<Byte>)
    requires 2 <= base <= 16 && left == Digits(u, base)
    ensures |left| > 0 && 0 <= u % base < base && 0 <= u / base && (u >= base ==> u / base < u)
    ensures left[|left| - 1] == DigitChar(u % base)
    ensures if u < base then |left| == 1 else |left| > 1 && Digits(u / base, base) == left[..|left| - 1]
  {
    QuotientFalls(u, base);
    if u >= base {
      var front := Digits(u / base, base);
      assert left == front + [DigitChar(u % base)];
    }
  }

  /** A word has at most 32 digits. */
  lemma DigitsFit(u: Word, base: nat)
    requires base in [2, 8, 10, 16]
    ensures |Digits(u, base)| <= 32
  {
    Pow2Of32();
    DigitsBound(u, base, 32);
  }

  lemma QuotientHalves(u: nat, base: nat, m: nat)
    requires base >= 2 && u < 2 * m
    ensures 0 <= u / base < m
  {
  }

  lemma {:induction false} DigitsBound(u: nat, base: nat, n: nat)
    requires 2 <= base <= 16 && n >= 1 && u < Pow2(n)
    ensures |Digits(u, base)| <= n
    decreases n
  {
    if u >= base {
      assert n > 1 by {
        assert Pow2(1) == 2;
      }
      QuotientHalves(u, base, Pow2(n - 1));
      DigitsBound(u / base, base, n - 1);
    }
  }

  // ----- printed numbers can be read back -----

  lemma {:induction false} CasedNumber(ds: seq<Byte>, upper: bool, e: nat, base: nat)
    requires e <= |ds| && base <= 16 && forall k {:trigger ds[k]} :: 0 <= k < |ds| ==> DigitValue(ds[k]) < base
    ensures forall k {:trigger CasedAll(ds, upper)[k]} :: 0 <= k < |ds| ==> DigitValue(CasedAll(ds, upper)[k]) < base
    ensures Number(CasedAll(ds, upper), 0, e, base) == Number(ds, 0, e, base)
  {
    var cs := CasedAll(ds, upper);
    forall k | 0 <= k < |ds|
      ensures DigitValue(cs[k]) == DigitValue(ds[k]) < base
    {
    }
    if e > 0 {
      CasedNumber(ds, upper, e - 1, base);
    }
  }
}
