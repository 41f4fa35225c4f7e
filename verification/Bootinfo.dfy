/** The bootinfo structure: kickstart writes records one behind the other, the root task and RAM-DSM walk them. Offsets
    are counted from the start of the structure. */
module Bootinfo {
  import opened Words
  import opened Wrappers

  const MAGIC: Word := 0x14b0_021d
  const VERSION: Word := 1
  const HEADER := 32
  const SIZE := 8
  const FIRST_ENTRY := 12
  const NUM_ENTRIES := 16

  const MODULE: Word := 1
  const SIMPLE_EXEC: Word := 2
  const MULTIBOOT: Word := 0x102
  const MODULE_SIZE := 24
  const EXEC_SIZE := 64
  const MBI_SIZE := 16

  /** What is recorded: a module as it is, an executable whose sections were found (its 16 words, of which the offset of
      the next record and of the command line are filled in by the writer), or where the multiboot information is. */
  datatype Entry =
    | Module(start: Word, end: Word, cmdline: seq<Byte>)
    | Exec(words: seq<Word>, cmdline: seq<Byte>)
    | Mbi(address: Word)

  ghost predicate ValidEntry(e: Entry) {
    match e
    case Module(_, _, cmdline) => 0 !in cmdline
    case Exec(words, cmdline) => |words| == 16 && words[0] == SIMPLE_EXEC && words[1] == 1 && 0 !in cmdline
    case Mbi(_) => true
  }

  /** The least multiple of the word size that is not below `n`. */
  function AlignUp(n: nat): (r: nat)
    ensures n <= r < n + 4
  {
    if n == 0 then 0 else if n < 4 then 4 else AlignUp(n - 4) + 4
  }

  /** Aligning is adding 3 and clearing the two lowest bits. */
  lemma {:induction false} AlignUpIsMask(n: nat)
    ensures AlignUp(n) == n + 3 - (n + 3) % 4
  {
    if n >= 4 {
      AlignUpIsMask(n - 4);
    }
  }

  function EntrySize(e: Entry): (size: nat)
    ensures size >= 16
  {
    match e
    case Module(_, _, cmdline) => AlignUp(MODULE_SIZE + |cmdline| + 1)
    case Exec(_, cmdline) => AlignUp(EXEC_SIZE + |cmdline| + 1)
    case Mbi(_) => MBI_SIZE
  }

  /** Where entry `k` is. */
  function Offset(entries: seq<Entry>, k: nat): (offset: nat)
    requires k <= |entries|
    ensures offset >= HEADER
  {
    if k == 0 then HEADER else Offset(entries, k - 1) + EntrySize(entries[k - 1])
  }

  // ----- words in memory -----

  /** The number whose bytes are given, the lowest first. */
  function Little(bytes: seq<Byte>): nat {
    if bytes == [] then 0 else (bytes[0] as int) + 0x100 * Little(bytes[1..])
  }

  lemma LittleOfFour(bytes: seq<Byte>)
    requires |bytes| == 4
    ensures Little(bytes) == (bytes[0] as int) + 0x100 * (bytes[1] as int) + 0x1_0000 * (bytes[2] as int) + 0x100_0000 * (bytes[3] as int)
    ensures Little(bytes) < WORD
  {
    var b1, b2, b3 := bytes[1..], bytes[2..], bytes[3..];
    assert b1[1..] == b2 && b2[1..] == b3 && b3[1..] == [];
    assert Little(b3) == bytes[3] as int;
    assert b2[0] == bytes[2] && Little(b2) == bytes[2] as int + 0x100 * Little(b3);
    assert b1[0] == bytes[1] && Little(b1) == bytes[1] as int + 0x100 * Little(b2);
  }

  function WordAt(s: seq<Byte>, a: nat): Word
    requires a + 4 <= |s|
  {
    LittleOfFour(s[a..a + 4]);
    Little(s[a..a + 4])
  }

  /** Nothing changed outside the range from `low` up to `high`. */
  ghost predicate Outside(was: seq<Byte>, now: seq<Byte>, low: int, high: int) {
    |now| == |was| && forall i {:trigger now[i]} :: 0 <= i < |was| && !(low <= i < high) ==> now[i] == was[i]
  }

  /** A NUL-terminated string. */
  ghost predicate StringAt(s: seq<Byte>, a: nat, text: seq<Byte>) {
    a + |text| < |s| && s[a + |text|] == 0 && s[a..a + |text|] == text
  }

  /** The record at `rec` is that of the entry. */
  ghost predicate EntryAt(s: seq<Byte>, rec: nat, e: Entry) {
    && rec + EntrySize(e) <= |s|
    && WordAt(s, rec + 8) == EntrySize(e)
    && match e
       case Module(start, end, cmdline) =>
         && WordAt(s, rec) == MODULE && WordAt(s, rec + 4) == 1
         && WordAt(s, rec + 12) == start && WordAt(s, rec + 16) == Sub(end, start)
         && WordAt(s, rec + 20) == MODULE_SIZE && StringAt(s, rec + MODULE_SIZE, cmdline)
       case Exec(words, cmdline) =>
         && |words| == 16
         && (forall i {:trigger words[i]} :: 0 <= i < 15 && i != 2 ==> WordAt(s, rec + 4 * i) == words[i])
         && WordAt(s, rec + 60) == EXEC_SIZE && StringAt(s, rec + EXEC_SIZE, cmdline)
       case Mbi(address) =>
         WordAt(s, rec) == MULTIBOOT && WordAt(s, rec + 4) == 1 && WordAt(s, rec + 12) == address
  }

  lemma WordStays(was: seq<Byte>, now: seq<Byte>, low: int, high: int, a: nat)
    requires Outside(was, now, low, high) && a + 4 <= |was| && (a + 4 <= low || high <= a)
    ensures WordAt(now, a) == WordAt(was, a)
  {
    assert now[a..a + 4] == was[a..a + 4];
  }

  /** Words outside the range stay. */
  ghost predicate WordsStay(was: seq<Byte>, now: seq<Byte>, low: int, high: int)
    requires |was| == |now|
  {
    forall a: nat {:trigger WordAt(now, a)} :: a + 4 <= |was| && (a + 4 <= low || high <= a) ==> WordAt(now, a) == WordAt(was, a)
  }

  lemma AllWordsStay(was: seq<Byte>, now: seq<Byte>, low: int, high: int)
    requires Outside(was, now, low, high)
    ensures WordsStay(was, now, low, high)
  {
    forall a: nat | a + 4 <= |was| && (a + 4 <= low || high <= a)
      ensures WordAt(now, a) == WordAt(was, a)
    {
      WordStays(was, now, low, high, a);
    }
  }

  lemma StringStays(was: seq<Byte>, now: seq<Byte>, low: int, high: int, a: nat, text: seq<Byte>)
    requires Outside(was, now, low, high) && StringAt(was, a, text) && (a + |text| < low || high <= a)
    ensures StringAt(now, a, text)
  {
  }

  /** A record stays as it is when other memory is written. */
  lemma EntryStays(was: seq<Byte>, now: seq<Byte>, low: int, high: int, rec: nat, e: Entry)
    requires Outside(was, now, low, high) && EntryAt(was, rec, e) && (rec + EntrySize(e) <= low || high <= rec)
    ensures EntryAt(now, rec, e)
  {
    AllWordsStay(was, now, low, high);
    match e
    case Module(_, _, cmdline) =>
      StringStays(was, now, low, high, rec + MODULE_SIZE, cmdline);
    case Exec(words, cmdline) =>
      StringStays(was, now, low, high, rec + EXEC_SIZE, cmdline);
    case Mbi(_) =>
  }

  // ----- the writer -----

  method PutWord(mem: array<Byte>, a: nat, w: Word)
    requires a + 4 <= mem.Length
    modifies mem
    ensures WordAt(mem[..], a) == w && Outside(old(mem[..]), mem[..], a, a + 4)
    ensures WordsStay(old(mem[..]), mem[..], a, a + 4)
  {
    var w1 := w / 0x100;
    var w2 := w1 / 0x100;
    PutBytes(mem, a, w % 0x100, w1 % 0x100, w2 % 0x100, w2 / 0x100);
    AllWordsStay(old(mem[..]), mem[..], a, a + 4);
  }

  method PutBytes(mem: array<Byte>, a: nat, b0: Byte, b1: Byte, b2: Byte, b3: Byte)
    requires a + 4 <= mem.Length
    modifies mem
    ensures WordAt(mem[..], a) == b0 as int + 0x100 * (b1 as int) + 0x1_0000 * (b2 as int) + 0x100_0000 * (b3 as int)
    ensures Outside(old(mem[..]), mem[..], a, a + 4)
  {
    mem[a], mem[a + 1], mem[a + 2], mem[a + 3] := b0, b1, b2, b3;
    LittleOfFour(mem[..][a..a + 4]);
  }

  /** Copies a string with its terminator. */
  method PutString(mem: array<Byte>, a: nat, text: seq<Byte>)
    requires a + |text| < mem.Length
    modifies mem
    ensures StringAt(mem[..], a, text) && Outside(old(mem[..]), mem[..], a, a + |text| + 1)
    ensures WordsStay(old(mem[..]), mem[..], a, a + |text| + 1)
  {
    var cnt := 0;
    while cnt < |text|
      invariant 0 <= cnt <= |text|
      invariant mem[a..a + cnt] == text[..cnt]
      invariant Outside(old(mem[..]), mem[..], a, a + cnt)
    {
      mem[a + cnt] := text[cnt];
      cnt := cnt + 1;
    }
    mem[a + cnt] := 0;
    AllWordsStay(old(mem[..]), mem[..], a, a + |text| + 1);
  }

  /** A boot module: its limits after loading, its command line, and what the search for sections fills in, if any. */
  datatype BootModule = BootModule(start: Word, end: Word, cmdline: seq<Byte>, sections: Option<seq<Word>>)

  /** The entry for module number `i`: without `decode-all`, only the first three are looked at as executables. */
  function EntryFor(mod: BootModule, i: nat, decodeAll: bool): Entry {
    if (decodeAll || i < 3) && mod.sections.Some? then Exec(mod.sections.value, mod.cmdline)
    else Module(mod.start, mod.end, mod.cmdline)
  }

  /** The structure holds the first `n` entries. */
  ghost predicate Holds(s: seq<Byte>, entries: seq<Entry>, n: nat)
    requires n <= |entries|
  {
    Headed(s, Offset(entries, n), n) && EntriesAt(s, entries, n)
  }

  lemma {:induction false} OffsetsAscend(entries: seq<Entry>, j: nat, k: nat)
    requires j < k <= |entries|
    ensures Offset(entries, j) + EntrySize(entries[j]) <= Offset(entries, k)
  {
    if j < k - 1 {
      OffsetsAscend(entries, j, k - 1);
    }
  }

  /** The empty structure. */
  method InitBootinfo(mem: array<Byte>, ghost entries: seq<Entry>)
    requires mem.Length >= HEADER
    modifies mem
    ensures Holds(mem[..], entries, 0)
  {
    PutWord(mem, 0, MAGIC);
    PutWord(mem, 4, VERSION);
    PutWord(mem, SIZE, HEADER);
    PutWord(mem, FIRST_ENTRY, HEADER);
    PutWord(mem, NUM_ENTRIES, 0);
  }

  /** The fixed part of a module's record. */
  method PutModuleWords(mem: array<Byte>, rec: nat, start: Word, end: Word)
    requires rec + MODULE_SIZE <= mem.Length
    modifies mem
    ensures Outside(old(mem[..]), mem[..], rec, rec + MODULE_SIZE)
    ensures WordAt(mem[..], rec) == MODULE && WordAt(mem[..], rec + 4) == 1
    ensures WordAt(mem[..], rec + 12) == start && WordAt(mem[..], rec + 16) == Sub(end, start)
    ensures WordAt(mem[..], rec + 20) == MODULE_SIZE
  {
    PutWord(mem, rec, MODULE);
    PutWord(mem, rec + 4, 1);
    PutWord(mem, rec + 8, MODULE_SIZE);
    PutWord(mem, rec + 12, start);
    PutWord(mem, rec + 16, Sub(end, start));
    PutWord(mem, rec + 20, MODULE_SIZE);
  }

  /** Records a module as it is. */
  method PutModule(mem: array<Byte>, rec: nat, start: Word, end: Word, cmdline: seq<Byte>) returns (size: Word)
    requires rec + EntrySize(Module(start, end, cmdline)) <= mem.Length < WORD
    modifies mem
    ensures size == EntrySize(Module(start, end, cmdline))
    ensures EntryAt(mem[..], rec, Module(start, end, cmdline)) && Outside(old(mem[..]), mem[..], rec, rec + size)
  {
    PutModuleWords(mem, rec, start, end);
    PutString(mem, rec + MODULE_SIZE, cmdline);
    size := AlignUp(MODULE_SIZE + |cmdline| + 1);
    ghost var was := mem[..];
    PutWord(mem, rec + 8, size);
    StringStays(was, mem[..], rec + 8, rec + 12, rec + MODULE_SIZE, cmdline);
  }

  /** The words that describe an executable, as the search for sections leaves them. */
  method PutExecWords(mem: array<Byte>, rec: nat, words: seq<Word>)
    requires |words| == 16 && rec + EXEC_SIZE <= mem.Length
    modifies mem
    ensures Outside(old(mem[..]), mem[..], rec, rec + EXEC_SIZE)
    ensures forall i {:trigger words[i]} :: 0 <= i < 16 ==> WordAt(mem[..], rec + 4 * i) == words[i]
  {
    var n := 0;
    while n < 16
      invariant 0 <= n <= 16
      invariant Outside(old(mem[..]), mem[..], rec, rec + 4 * n)
      invariant forall i {:trigger words[i]} :: 0 <= i < n ==> WordAt(mem[..], rec + 4 * i) == words[i]
    {
      PutWord(mem, rec + 4 * n, words[n]);
      n := n + 1;
    }
  }

  /** Records an executable. */
  method PutExec(mem: array<Byte>, rec: nat, words: seq<Word>, cmdline: seq<Byte>) returns (size: Word)
    requires |words| == 16 && rec + EntrySize(Exec(words, cmdline)) <= mem.Length < WORD
    modifies mem
    ensures size == EntrySize(Exec(words, cmdline))
    ensures EntryAt(mem[..], rec, Exec(words, cmdline)) && Outside(old(mem[..]), mem[..], rec, rec + size)
  {
    PutExecWords(mem, rec, words);
    PutWord(mem, rec + 60, EXEC_SIZE);
    PutString(mem, rec + EXEC_SIZE, cmdline);
    size := AlignUp(EXEC_SIZE + |cmdline| + 1);
    ghost var was := mem[..];
    PutWord(mem, rec + 8, size);
    StringStays(was, mem[..], rec + 8, rec + 12, rec + EXEC_SIZE, cmdline);
  }

  /** Records where the multiboot information is. */
  method PutMbi(mem: array<Byte>, rec: nat, address: Word)
    requires rec + MBI_SIZE <= mem.Length
    modifies mem
    ensures EntryAt(mem[..], rec, Mbi(address)) && Outside(old(mem[..]), mem[..], rec, rec + MBI_SIZE)
  {
    PutWord(mem, rec, MULTIBOOT);
    PutWord(mem, rec + 4, 1);
    PutWord(mem, rec + 8, MBI_SIZE);
    PutWord(mem, rec + 12, address);
  }

  ghost predicate EntriesAt(s: seq<Byte>, entries: seq<Entry>, n: nat)
    requires n <= |entries|
  {
    forall k {:trigger InPlace(s, entries, k)} :: 0 <= k < n ==> InPlace(s, entries, k)
  }

  /** Entry `k` is where it belongs. */
  ghost predicate InPlace(s: seq<Byte>, entries: seq<Entry>, k: nat)
    requires k < |entries|
  {
    EntryAt(s, Offset(entries, k), entries[k])
  }

  /** Writing into the header or behind the records leaves the records as they are. */
  lemma EntriesStay(was: seq<Byte>, now: seq<Byte>, low: int, high: int, entries: seq<Entry>, n: nat)
    requires n <= |entries| && EntriesAt(was, entries, n) && Outside(was, now, low, high)
    requires high <= HEADER || Offset(entries, n) <= low
    ensures EntriesAt(now, entries, n)
  {
    forall k | 0 <= k < n
      ensures InPlace(now, entries, k)
    {
      assert InPlace(was, entries, k);
      OffsetsAscend(entries, k, n);
      EntryStays(was, now, low, high, Offset(entries, k), entries[k]);
    }
  }

  function GetWord(mem: array<Byte>, a: nat): Word
    requires a + 4 <= mem.Length
    reads mem
  {
    WordAt(mem[..], a)
  }

  /** The header of a structure with `n` entries that end at `size`. */
  ghost predicate Headed(s: seq<Byte>, size: int, n: int) {
    && HEADER <= |s|
    && WordAt(s, 0) == MAGIC && WordAt(s, 4) == VERSION
    && WordAt(s, SIZE) == size && WordAt(s, FIRST_ENTRY) == HEADER && WordAt(s, NUM_ENTRIES) == n
  }

  /** The words of the header: the magic number, the version, the size, the offset of the first record, and their number. */
  lemma HeaderLayout(s: seq<Byte>, entries: seq<Entry>, n: nat)
    requires n <= |entries| && Holds(s, entries, n)
    ensures |s| >= 32 && WordAt(s, 0) == 0x14b0_021d && WordAt(s, 4) == 1
    ensures WordAt(s, 8) == Offset(entries, n) && WordAt(s, 12) == 32 && WordAt(s, 16) == n
  {
  }

  /** The words of a module's record: type 1, version 1, the offset of the next record, where the module begins, its size, and the
      offset of the command line. The next record begins at the next multiple of four. */
  lemma ModuleLayout(s: seq<Byte>, rec: nat, start: Word, end: Word, cmdline: seq<Byte>)
    requires EntryAt(s, rec, Module(start, end, cmdline))
    ensures rec + 24 < |s| && WordAt(s, rec) == 1 && WordAt(s, rec + 4) == 1
    ensures WordAt(s, rec + 8) % 4 == 0 && 24 + |cmdline| < WordAt(s, rec + 8) <= 24 + |cmdline| + 4
    ensures WordAt(s, rec + 12) == start && WordAt(s, rec + 16) == Sub(end, start)
    ensures WordAt(s, rec + 20) == 24 && StringAt(s, rec + 24, cmdline)
  {
    AlignUpIsMask(24 + |cmdline| + 1);
  }

  /** The words of an executable's record: what the search for sections filled in, but for the offset of the next record in word 2
      and that of the command line in word 15. */
  lemma ExecLayout(s: seq<Byte>, rec: nat, words: seq<Word>, cmdline: seq<Byte>)
    requires EntryAt(s, rec, Exec(words, cmdline))
    ensures rec + 64 < |s| && |words| == 16 && forall i {:trigger words[i]} :: 0 <= i < 15 && i != 2 ==> WordAt(s, rec + 4 * i) == words[i]
    ensures WordAt(s, rec + 8) % 4 == 0 && 64 + |cmdline| < WordAt(s, rec + 8) <= 64 + |cmdline| + 4
    ensures WordAt(s, rec + 60) == 64 && StringAt(s, rec + 64, cmdline)
  {
    AlignUpIsMask(64 + |cmdline| + 1);
  }

  lemma MbiLayout(s: seq<Byte>, rec: nat, address: Word)
    requires EntryAt(s, rec, Mbi(address))
    ensures rec + 16 <= |s| && WordAt(s, rec) == 0x102 && WordAt(s, rec + 4) == 1 && WordAt(s, rec + 8) == 16 && WordAt(s, rec + 12) == address
  {
  }

  /** Writing behind the header leaves it as it is. */
  lemma HeadStays(was: seq<Byte>, now: seq<Byte>, low: int, high: int, size: int, n: int)
    requires Headed(was, size, n) && Outside(was, now, low, high) && HEADER <= low
    ensures Headed(now, size, n)
  {
    AllWordsStay(was, now, low, high);
  }

  method Recount(mem: array<Byte>, ghost was: Word, ghost n: Word, size: Word)
    requires Headed(mem[..], was, n) && n < MAX && was + size < WORD
    modifies mem
    ensures Headed(mem[..], was + size, n + 1) && Outside(old(mem[..]), mem[..], 0, HEADER)
  {
    PutWord(mem, NUM_ENTRIES, Add(GetWord(mem, NUM_ENTRIES), 1));
    PutWord(mem, SIZE, Add(GetWord(mem, SIZE), size));
  }

  /** Counts a record that was written behind the others. */
  method CountEntry(mem: array<Byte>, ghost entries: seq<Entry>, ghost n: nat, ghost was: seq<Byte>, size: Word)
    requires n < |entries| < WORD && Offset(entries, n + 1) <= mem.Length < WORD && size == EntrySize(entries[n])
    requires Holds(was, entries, n) && Outside(was, mem[..], Offset(entries, n), Offset(entries, n + 1))
    requires EntryAt(mem[..], Offset(entries, n), entries[n])
    modifies mem
    ensures Holds(mem[..], entries, n + 1) && Outside(was, mem[..], 0, Offset(entries, n + 1))
  {
    ghost var rec, end := Offset(entries, n), Offset(entries, n + 1);
    ghost var s1 := mem[..];
    HeadStays(was, s1, rec, end, rec, n);
    EntriesStay(was, s1, rec, end, entries, n);
    Recount(mem, rec, n, size);
    EntriesStay(s1, mem[..], 0, HEADER, entries, n);
    EntryStays(s1, mem[..], 0, HEADER, rec, entries[n]);
    assert InPlace(mem[..], entries, n);
  }

  /** The first entries are those for all modules but the kernel. */
  ghost predicate Begins(entries: seq<Entry>, mods: seq<BootModule>, decodeAll: bool) {
    |mods| >= 1 && |entries| >= |mods| - 1
    && forall j {:trigger entries[j]} :: 0 <= j < |mods| - 1 ==> entries[j] == EntryFor(mods[j + 1], j + 1, decodeAll) && ValidEntry(entries[j])
  }

  /** Only the modules 1 and 2 are recorded as executables, unless `decode-all` is given, and then only if their sections were
      found. */
  lemma RecordedKind(entries: seq<Entry>, mods: seq<BootModule>, decodeAll: bool, i: nat)
    requires Begins(entries, mods, decodeAll) && 1 <= i < |mods|
    ensures entries[i - 1].Exec? <==> (decodeAll || i in {1, 2}) && mods[i].sections.Some?
    ensures entries[i - 1].Exec? ==> entries[i - 1] == Exec(mods[i].sections.value, mods[i].cmdline)
    ensures !entries[i - 1].Exec? ==> entries[i - 1] == Module(mods[i].start, mods[i].end, mods[i].cmdline)
  {
    assert entries[i - 1] == EntryFor(mods[(i - 1) + 1], (i - 1) + 1, decodeAll);
  }

  /** Records module number `i`. */
  method RecordModule(mem: array<Byte>, rec: Word, mod: BootModule, i: nat, decodeAll: bool, ghost entries: seq<Entry>, ghost n: nat)
    returns (next: Word)
    requires n < |entries| < WORD && entries[n] == EntryFor(mod, i, decodeAll) && ValidEntry(entries[n])
    requires Offset(entries, n + 1) <= mem.Length < WORD && Holds(mem[..], entries, n) && rec == Offset(entries, n)
    modifies mem
    ensures Holds(mem[..], entries, n + 1) && next == Offset(entries, n + 1)
    ensures Outside(old(mem[..]), mem[..], 0, Offset(entries, n + 1))
  {
    ghost var was := mem[..];
    var size;
    if (decodeAll || i < 3) && mod.sections.Some? {
      size := PutExec(mem, rec, mod.sections.value, mod.cmdline);
    } else {
      size := PutModule(mem, rec, mod.start, mod.end, mod.cmdline);
    }
    CountEntry(mem, entries, n, was, size);
    next := rec + size;
  }

  /** Records all modules but the first, from `first` on; the result is where the next record goes. `mem` is the memory from
      the structure on; how much of it was set aside is not looked at, and is enough if the records, with the padding behind each,
      end inside it. */
  method RecordModules(mem: array<Byte>, first: Word, mods: seq<BootModule>, decodeAll: bool, ghost entries: seq<Entry>) returns (rec: Word)
    requires Begins(entries, mods, decodeAll) && |entries| < WORD && Offset(entries, |mods| - 1) <= mem.Length < WORD
    requires Holds(mem[..], entries, 0) && first == Offset(entries, 0)
    modifies mem
    ensures Holds(mem[..], entries, |mods| - 1) && rec == Offset(entries, |mods| - 1)
    ensures Outside(old(mem[..]), mem[..], 0, Offset(entries, |mods| - 1))
  {
    rec := first;
    ghost var n: nat := 0;
    var i := 1;
    while i < |mods|
      invariant i == n + 1 <= |mods|
      invariant Holds(mem[..], entries, n) && rec == Offset(entries, n)
      invariant Outside(old(mem[..]), mem[..], 0, Offset(entries, n))
    {
      NextEntry(entries, mods, decodeAll, n);
      rec := RecordModule(mem, rec, mods[i], i, decodeAll, entries, n);
      n := n + 1;
      i := i + 1;
    }
  }

  lemma NextEntry(entries: seq<Entry>, mods: seq<BootModule>, decodeAll: bool, n: nat)
    requires Begins(entries, mods, decodeAll) && n + 1 < |mods|
    ensures entries[n] == EntryFor(mods[n + 1], n + 1, decodeAll) && ValidEntry(entries[n])
    ensures Offset(entries, n + 1) <= Offset(entries, |mods| - 1)
  {
    Fits(entries, n + 1, |mods| - 1);
  }

  lemma Fits(entries: seq<Entry>, j: nat, k: nat)
    requires j <= k <= |entries|
    ensures Offset(entries, j) <= Offset(entries, k)
  {
  }

  /** The last record tells where the multiboot information is. */
  method RecordMbi(mem: array<Byte>, rec: Word, address: Word, ghost entries: seq<Entry>, ghost n: nat)
    requires mem.Length < WORD && n < |entries| < WORD && entries[n] == Mbi(address) && Offset(entries, n + 1) <= mem.Length
    requires Holds(mem[..], entries, n) && rec == Offset(entries, n)
    modifies mem
    ensures Holds(mem[..], entries, n + 1)
  {
    ghost var was := mem[..];
    PutMbi(mem, rec, address);
    CountEntry(mem, entries, n, was, MBI_SIZE);
  }

  // ----- the reader -----

  /** Follows the records to number `index`; none when there are fewer entries than that. */
  method FindModule(mem: array<Byte>, index: Word, ghost entries: seq<Entry>) returns (rec: Option<Word>)
    requires mem.Length < WORD && Holds(mem[..], entries, |entries|) && |entries| < WORD && Offset(entries, |entries|) < WORD
    ensures rec == None <==> |entries| < index
    ensures rec.Some? ==> rec.value == Offset(entries, index)
    ensures rec.Some? && index < |entries| ==> EntryAt(mem[..], rec.value, entries[index])
    ensures rec.Some? && index == |entries| ==> rec.value == GetWord(mem, SIZE)
  {
    if GetWord(mem, NUM_ENTRIES) < index {
      return None;
    }
    var r := GetWord(mem, FIRST_ENTRY);
    var i: Word := 0;
    while i < index
      invariant i <= index && r == Offset(entries, i)
    {
      var size := ReadSize(mem, r, entries, i);
      NextOffset(entries, i, r, size);
      r := Add(r, size);
      i := i + 1;
    }
    assert index < |entries| ==> InPlace(mem[..], entries, index);
    return Some(r);
  }

  /** The size of a record, as the record itself tells it. */
  method ReadSize(mem: array<Byte>, r: Word, ghost entries: seq<Entry>, ghost i: nat) returns (size: Word)
    requires i < |entries| && EntriesAt(mem[..], entries, |entries|) && r == Offset(entries, i)
    ensures size == EntrySize(entries[i])
  {
    assert InPlace(mem[..], entries, i);
    SizeField(mem[..], r, entries[i]);
    size := GetWord(mem, r + 8);
  }

  lemma SizeField(s: seq<Byte>, rec: nat, e: Entry)
    requires EntryAt(s, rec, e)
    ensures rec + 12 <= |s| && WordAt(s, rec + 8) == EntrySize(e)
  {
  }

  lemma NextOffset(entries: seq<Entry>, i: nat, r: Word, size: Word)
    requires i < |entries| && r == Offset(entries, i) && size == EntrySize(entries[i]) && Offset(entries, |entries|) < WORD
    ensures Add(r, size) == Offset(entries, i + 1)
  {
    Fits(entries, i + 1, |entries|);
  }

  /** Writer and reader together: kickstart records the modules and the multiboot information, and module `index` as a
      reader finds it is module `index + 1` of the multiboot information; the last one found is where that is. An index
      one too high is not refused: it leads behind the records. */
  method WriteThenFind(mem: array<Byte>, mods: seq<BootModule>, decodeAll: bool, address: Word, index: Word, ghost entries: seq<Entry>)
    returns (rec: Option<Word>)
    requires Begins(entries, mods, decodeAll) && |mods| == |entries| < WORD && entries[|mods| - 1] == Mbi(address)
    requires Offset(entries, |mods|) <= mem.Length < WORD
    modifies mem
    ensures Holds(mem[..], entries, |mods|)
    ensures rec == None <==> |mods| < index
    ensures rec.Some? && index < |mods| - 1 ==> EntryAt(mem[..], rec.value, EntryFor(mods[index + 1], index + 1, decodeAll))
    ensures rec.Some? && index == |mods| - 1 ==> EntryAt(mem[..], rec.value, Mbi(address))
    ensures rec.Some? && index == |mods| ==> rec.value == GetWord(mem, SIZE)
  {
    Fits(entries, 0, |mods|);
    Fits(entries, |mods| - 1, |mods|);
    InitBootinfo(mem, entries);
    var next := RecordModules(mem, GetWord(mem, SIZE), mods, decodeAll, entries);
    RecordMbi(mem, next, address, entries, |mods| - 1);
    rec := FindModule(mem, index, entries);
  }
}
