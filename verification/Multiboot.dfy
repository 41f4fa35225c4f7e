/** The multiboot information: how much room a copy of it needs, and the copy, which is laid out anew behind one address. */
module Multiboot {
  import opened Words
  import opened Wrappers
  import opened Bootinfo

  /** The sizes of the information itself and of a module's entry, and the words of the information that are filled in. */
  const MBI := 88
  const ENTRY := 16
  const CMDLINE := 16
  const MODS := 24

  datatype ModEntry = ModEntry(start: Word, end: Word, cmdline: Option<seq<Byte>>, entry: Word)

  /** The information: its 22 words, the command line and the modules. A string may be missing. */
  datatype Info = Info(words: seq<Word>, cmdline: Option<seq<Byte>>, mods: seq<ModEntry>)

  ghost predicate ValidInfo(info: Info) {
    && |info.words| == 22 && info.words[5] == |info.mods|
    && (info.cmdline.None? ==> info.words[4] == 0)
    && (info.cmdline.Some? ==> 0 !in info.cmdline.value)
    && forall i {:trigger info.mods[i]} :: 0 <= i < |info.mods| && info.mods[i].cmdline.Some? ==> 0 !in info.mods[i].cmdline.value
  }

  // ----- how much room is set aside -----

  function Length(text: Option<seq<Byte>>): nat {
    if text.Some? then |text.value| else 0
  }

  /** The bytes of a string in the copy, with its terminator. */
  function Stored(text: Option<seq<Byte>>): nat {
    if text.Some? then |text.value| + 1 else 0
  }

  /** Where the copy puts the command line of module `n`: behind the information, all entries, and the strings before. */
  function StringOff(info: Info, n: nat): nat
    requires n <= |info.mods|
  {
    if n == 0 then MBI + ENTRY * |info.mods| + Stored(info.cmdline)
    else StringOff(info, n - 1) + Stored(info.mods[n - 1].cmdline)
  }

  /** How many of the command lines are missing, of the first `n` modules and of the whole. */
  function Missing(info: Info, n: nat): nat
    requires n <= |info.mods|
  {
    if n == 0 then if info.cmdline.None? then 1 else 0
    else Missing(info, n - 1) + if info.mods[n - 1].cmdline.None? then 1 else 0
  }

  /** The room that is set aside holds the whole copy, with a word to spare for each string, and a byte more for one that is
      missing. */
  method GetSize(info: Info) returns (size: nat)
    ensures size == StringOff(info, |info.mods|) + 4 * (|info.mods| + 1) + Missing(info, |info.mods|)
  {
    size := MBI;
    size := size + 1 + Length(info.cmdline) + 4;
    for i := 0 to |info.mods|
      invariant size + ENTRY * (|info.mods| - i) == StringOff(info, i) + 4 * (i + 1) + Missing(info, i)
    {
      size := size + ENTRY;
      size := size + 1 + Length(info.mods[i].cmdline) + 4;
    }
  }

  lemma {:induction false} StringsAscend(info: Info, j: nat, k: nat)
    requires j <= k <= |info.mods|
    ensures StringOff(info, j) <= StringOff(info, k)
    ensures MBI + ENTRY * |info.mods| + Stored(info.cmdline) <= StringOff(info, j)
    decreases k
  {
    if j < k {
      StringsAscend(info, j, k - 1);
    } else if k > 0 {
      StringsAscend(info, k - 1, k - 1);
    }
  }

  // ----- what a structure in memory says -----

  /** The pointer `p` is to the string, which lies at offset `off` of memory that starts at address `base`; or it is null. */
  ghost predicate Points(s: seq<Byte>, base: Word, p: Word, text: Option<seq<Byte>>, off: nat) {
    if text.None? then p == 0 else p == base + off && StringAt(s, off, text.value)
  }

  ghost predicate HeadAt(s: seq<Byte>, base: Word, info: Info)
    requires |info.words| == 22
  {
    && MBI <= |s|
    && (forall i {:trigger info.words[i]} :: 0 <= i < 22 && i != 4 && i != 6 ==> WordAt(s, 4 * i) == info.words[i])
    && WordAt(s, MODS) == base + MBI
    && Points(s, base, WordAt(s, CMDLINE), info.cmdline, MBI + ENTRY * |info.mods|)
  }

  ghost predicate ModAt(s: seq<Byte>, base: Word, info: Info, k: nat)
    requires k < |info.mods|
  {
    var at, m := MBI + ENTRY * k, info.mods[k];
    && at + ENTRY <= |s|
    && WordAt(s, at) == m.start && WordAt(s, at + 4) == m.end && WordAt(s, at + 12) == m.entry
    && Points(s, base, WordAt(s, at + 8), m.cmdline, StringOff(info, k))
  }

  /** The memory holds the information, with the first `n` modules. */
  ghost predicate InfoAt(s: seq<Byte>, base: Word, info: Info, n: nat)
    requires |info.words| == 22 && n <= |info.mods|
  {
    HeadAt(s, base, info) && forall k {:trigger ModAt(s, base, info, k)} :: 0 <= k < n ==> ModAt(s, base, info, k)
  }

  /** The words that the copy fills in: the command line's address in word 4, the number of modules in word 5, and the address of
      their entries in word 6; each entry has the limits of the module, the address of its command line, and one word more. */
  lemma InfoLayout(s: seq<Byte>, base: Word, info: Info, k: nat)
    requires ValidInfo(info) && k < |info.mods| && InfoAt(s, base, info, |info.mods|)
    ensures |s| >= 88 && WordAt(s, 20) == |info.mods| && WordAt(s, 24) == base + 88
    ensures info.cmdline.None? ==> WordAt(s, 16) == 0
    ensures info.cmdline.Some? ==> WordAt(s, 16) >= base && StringAt(s, WordAt(s, 16) - base, info.cmdline.value)
    ensures 88 + 16 * k + 16 <= |s| && WordAt(s, 88 + 16 * k) == info.mods[k].start && WordAt(s, 88 + 16 * k + 4) == info.mods[k].end
    ensures info.mods[k].cmdline.None? ==> WordAt(s, 88 + 16 * k + 8) == 0
    ensures info.mods[k].cmdline.Some? ==>
              var p := WordAt(s, 88 + 16 * k + 8);
              p >= base && StringAt(s, p - base, info.mods[k].cmdline.value)
  {
    assert ModAt(s, base, info, k);
    assert WordAt(s, 4 * 5) == info.words[5];
  }

  lemma PointsStay(was: seq<Byte>, now: seq<Byte>, low: int, high: int, base: Word, p: Word, text: Option<seq<Byte>>, off: nat)
    requires Outside(was, now, low, high) && Points(was, base, p, text, off) && (off + Stored(text) <= low || high <= off)
    ensures Points(now, base, p, text, off)
  {
    if text.Some? {
      StringStays(was, now, low, high, off, text.value);
    }
  }

  /** What is read does not depend on memory that is neither in the information, nor in the entries, nor in the strings. */
  lemma HeadStays(was: seq<Byte>, now: seq<Byte>, low: int, high: int, base: Word, info: Info)
    requires |info.words| == 22 && HeadAt(was, base, info) && Outside(was, now, low, high) && MBI <= low
    requires MBI + ENTRY * |info.mods| + Stored(info.cmdline) <= low || high <= MBI + ENTRY * |info.mods|
    ensures HeadAt(now, base, info)
  {
    AllWordsStay(was, now, low, high);
    PointsStay(was, now, low, high, base, WordAt(was, CMDLINE), info.cmdline, MBI + ENTRY * |info.mods|);
  }

  lemma ModStays(was: seq<Byte>, now: seq<Byte>, low: int, high: int, base: Word, info: Info, k: nat)
    requires k < |info.mods| && ModAt(was, base, info, k) && Outside(was, now, low, high) && MBI + ENTRY * (k + 1) <= low
    requires StringOff(info, k + 1) <= low || high <= StringOff(info, k)
    ensures ModAt(now, base, info, k)
  {
    AllWordsStay(was, now, low, high);
    PointsStay(was, now, low, high, base, WordAt(was, MBI + ENTRY * k + 8), info.mods[k].cmdline, StringOff(info, k));
  }

  /** The first modules stay as they are when the entry of the next one is written, or its string. */
  lemma InfoStays(was: seq<Byte>, now: seq<Byte>, low: int, high: int, base: Word, info: Info, n: nat)
    requires |info.words| == 22 && n < |info.mods| && InfoAt(was, base, info, n) && Outside(was, now, low, high)
    requires (low == MBI + ENTRY * n && high == low + ENTRY) || low == StringOff(info, n)
    ensures InfoAt(now, base, info, n)
  {
    StringsAscend(info, 0, n);
    HeadStays(was, now, low, high, base, info);
    forall k | 0 <= k < n
      ensures ModAt(now, base, info, k)
    {
      assert ModAt(was, base, info, k);
      StringsAscend(info, k + 1, n);
      StringsAscend(info, 0, k);
      ModStays(was, now, low, high, base, info, k);
    }
  }

  // ----- the copy -----

  /** The words of the structure; then the pointers to the command line and to the modules are set. */
  method PutHead(mem: array<Byte>, base: Word, info: Info)
    requires ValidInfo(info) && StringOff(info, 0) <= mem.Length && base + mem.Length < WORD
    modifies mem
    ensures HeadAt(mem[..], base, info) && Outside(old(mem[..]), mem[..], 0, StringOff(info, 0))
  {
    PutWords(mem, info.words);
    var strings := MBI + ENTRY * |info.mods|;
    if info.cmdline.Some? {
      PutWord(mem, CMDLINE, base + strings);
      PutString(mem, strings, info.cmdline.value);
    }
    ghost var was := mem[..];
    PutWord(mem, MODS, base + MBI);
    PointsStay(was, mem[..], MODS, MODS + 4, base, WordAt(mem[..], CMDLINE), info.cmdline, strings);
  }

  method PutWords(mem: array<Byte>, words: seq<Word>)
    requires |words| == 22 && MBI <= mem.Length
    modifies mem
    ensures forall i {:trigger words[i]} :: 0 <= i < 22 ==> WordAt(mem[..], 4 * i) == words[i]
    ensures Outside(old(mem[..]), mem[..], 0, MBI)
  {
    var n := 0;
    while n < 22
      invariant 0 <= n <= 22
      invariant Outside(old(mem[..]), mem[..], 0, 4 * n)
      invariant forall i {:trigger words[i]} :: 0 <= i < n ==> WordAt(mem[..], 4 * i) == words[i]
    {
      PutWord(mem, 4 * n, words[n]);
      n := n + 1;
    }
  }

  method PutEntry(mem: array<Byte>, at: nat, start: Word, end: Word, cmdline: Word, entry: Word)
    requires at + ENTRY <= mem.Length
    modifies mem
    ensures WordAt(mem[..], at) == start && WordAt(mem[..], at + 4) == end
    ensures WordAt(mem[..], at + 8) == cmdline && WordAt(mem[..], at + 12) == entry
    ensures Outside(old(mem[..]), mem[..], at, at + ENTRY)
  {
    PutWord(mem, at, start);
    PutWord(mem, at + 4, end);
    PutWord(mem, at + 8, cmdline);
    PutWord(mem, at + 12, entry);
  }

  /** The entry of module `n`, and its command line; `mid` is the memory in between. */
  method PutMod(mem: array<Byte>, base: Word, info: Info, n: nat, strings: nat) returns (ghost mid: seq<Byte>)
    requires n < |info.mods| && strings == StringOff(info, n) && MBI + ENTRY * (n + 1) <= strings
    requires StringOff(info, n + 1) <= mem.Length && base + mem.Length < WORD
    modifies mem
    ensures ModAt(mem[..], base, info, n)
    ensures Outside(old(mem[..]), mid, MBI + ENTRY * n, MBI + ENTRY * (n + 1))
    ensures Outside(mid, mem[..], strings, strings + Stored(info.mods[n].cmdline))
  {
    var at, m := MBI + ENTRY * n, info.mods[n];
    PutEntry(mem, at, m.start, m.end, if m.cmdline.Some? then base + strings else 0, m.entry);
    mid := mem[..];
    if m.cmdline.Some? {
      PutString(mem, strings, m.cmdline.value);
    }
  }

  /** With the entry and the string of module `n`, the memory holds one module more. */
  lemma OneMore(was: seq<Byte>, mid: seq<Byte>, now: seq<Byte>, base: Word, info: Info, n: nat)
    requires |info.words| == 22 && n < |info.mods| && InfoAt(was, base, info, n) && ModAt(now, base, info, n)
    requires Outside(was, mid, MBI + ENTRY * n, MBI + ENTRY * (n + 1))
    requires Outside(mid, now, StringOff(info, n), StringOff(info, n + 1))
    ensures InfoAt(now, base, info, n + 1)
  {
    InfoStays(was, mid, MBI + ENTRY * n, MBI + ENTRY * (n + 1), base, info, n);
    InfoStays(mid, now, StringOff(info, n), StringOff(info, n + 1), base, info, n);
  }

  method CopyMod(mem: array<Byte>, base: Word, info: Info, n: nat, strings: nat)
    requires |info.words| == 22 && n < |info.mods| && strings == StringOff(info, n)
    requires StringOff(info, n + 1) <= mem.Length && base + mem.Length < WORD && InfoAt(mem[..], base, info, n)
    modifies mem
    ensures InfoAt(mem[..], base, info, n + 1)
    ensures Outside(old(mem[..]), mem[..], 0, StringOff(info, n + 1))
  {
    StringsAscend(info, 0, n);
    ghost var mid := PutMod(mem, base, info, n, strings);
    OneMore(old(mem[..]), mid, mem[..], base, info, n);
  }

  /** Copies the information to the memory at `base`: what is read there is what was read before, and only the room that the
      copy needs is written. */
  method Copy(mem: array<Byte>, base: Word, info: Info)
    requires ValidInfo(info) && StringOff(info, |info.mods|) <= mem.Length && base + mem.Length < WORD
    modifies mem
    ensures InfoAt(mem[..], base, info, |info.mods|)
    ensures Outside(old(mem[..]), mem[..], 0, StringOff(info, |info.mods|))
  {
    StringsAscend(info, 0, |info.mods|);
    PutHead(mem, base, info);
    var strings := MBI + ENTRY * |info.mods| + Stored(info.cmdline);
    for n := 0 to |info.mods|
      invariant strings == StringOff(info, n) <= StringOff(info, |info.mods|)
      invariant InfoAt(mem[..], base, info, n) && Outside(old(mem[..]), mem[..], 0, strings)
    {
      StringsAscend(info, n + 1, |info.mods|);
      CopyMod(mem, base, info, n, strings);
      strings := strings + Stored(info.mods[n].cmdline);
    }
  }
}
