/** The keyboard server: scancodes become characters in a bounded buffer, from which one reader at a time is served. */
module Keyboard {
  import opened Words
  import opened Wrappers

  const BUFFER_LENGTH := 1024
  const MAX_CHAR_LEN := 7
  const HIGH_CODE := 0x59

  // ----- decoding -----

  datatype Modifiers = Modifiers(capsLock: bool, numLock: bool, scrollLock: bool, ctrlDown: bool, altDown: bool, shiftDown: bool)

  const RELEASED := Modifiers(false, false, false, false, false, false)

  /** The characters of a key, seven cells for each state of shift, alt and control. */
  type Keymap = (bool, bool, bool, Byte) -> seq<Byte>

  ghost predicate ValidKeymap(keymap: Keymap) {
    forall s, a, c, k :: |keymap(s, a, c, k)| == MAX_CHAR_LEN
  }

  /** The scancodes that only change the state of the modifiers. */
  predicate IsModifier(code: Byte) {
    || code == 0xe0 || code == 0x1d || code == 0x9d || code == 0x2a || code == 0x36 || code == 0xaa
    || code == 0xb6 || code == 0x38 || code == 0xb8 || code == 0x3a || code == 0x45 || code == 0x46
  }

  function Modified(m: Modifiers, code: Byte): Modifiers {
    match code
    case 0x1d => m.(ctrlDown := true)
    case 0x9d => m.(ctrlDown := false)
    case 0x2a => m.(shiftDown := true)
    case 0x36 => m.(shiftDown := true)
    case 0xaa => m.(shiftDown := false, capsLock := false)
    case 0xb6 => m.(shiftDown := false, capsLock := false)
    case 0x38 => m.(altDown := true)
    case 0xb8 => m.(altDown := false)
    case 0x3a => m.(capsLock := true, shiftDown := true)
    case 0x45 => m.(numLock := !m.numLock)
    case 0x46 => m.(scrollLock := !m.scrollLock)
    case _ => m
  }

  lemma OneMore(s: seq<Byte>, t: seq<Byte>, n: nat)
    requires n < |t|
    ensures s + t[..n + 1] == s + t[..n] + [t[n]]
  {
  }

  lemma KeepsModifiers(m: Modifiers, code: Byte)
    requires !IsModifier(code)
    ensures Modified(m, code) == m
  {
  }

  /** The cells up to the first NUL. */
  function Text(cells: seq<Byte>): (r: seq<Byte>)
    ensures |r| <= |cells| && r == cells[..|r|] && 0 !in r
    ensures |r| < |cells| ==> cells[|r|] == 0
  {
    if cells == [] || cells[0] == 0 then [] else [cells[0]] + Text(cells[1..])
  }

  /** The characters that one scancode stands for. */
  function CharsOf(keymap: Keymap, m: Modifiers, code: Byte): seq<Byte> {
    if IsModifier(code) || code >= HIGH_CODE then [] else Text(keymap(m.shiftDown, m.altDown, m.ctrlDown, code))
  }

  /** The state of the modifiers after the first `n` of a series of scancodes, and the characters they stand for. */
  ghost function After(codes: seq<Byte>, n: nat): Modifiers
    requires n <= |codes|
  {
    if n == 0 then RELEASED else Modified(After(codes, n - 1), codes[n - 1])
  }

  ghost function Typed(keymap: Keymap, codes: seq<Byte>, n: nat): seq<Byte>
    requires n <= |codes|
  {
    if n == 0 then [] else Typed(keymap, codes, n - 1) + CharsOf(keymap, After(codes, n - 1), codes[n - 1])
  }

  /** What was decoded before does not depend on the scancodes that follow. */
  lemma {:induction false} TypedPrefix(keymap: Keymap, codes: seq<Byte>, code: Byte, n: nat)
    requires n <= |codes|
    ensures After(codes + [code], n) == After(codes, n) && Typed(keymap, codes + [code], n) == Typed(keymap, codes, n)
  {
    if n > 0 {
      TypedPrefix(keymap, codes, code, n - 1);
    }
  }

  lemma TypedNext(keymap: Keymap, codes: seq<Byte>, code: Byte)
    ensures After(codes + [code], |codes| + 1) == Modified(After(codes, |codes|), code)
    ensures Typed(keymap, codes + [code], |codes| + 1) == Typed(keymap, codes, |codes|) + CharsOf(keymap, After(codes, |codes|), code)
  {
    TypedPrefix(keymap, codes, code, |codes|);
  }

  lemma DecodedNext(keymap: Keymap, codes: seq<Byte>, code: Byte, modifiers: Modifiers, typed: seq<Byte>)
    requires modifiers == After(codes, |codes|) && typed == Typed(keymap, codes, |codes|)
    ensures Modified(modifiers, code) == After(codes + [code], |codes + [code]|)
    ensures typed + CharsOf(keymap, modifiers, code) == Typed(keymap, codes + [code], |codes + [code]|)
  {
    TypedNext(keymap, codes, code);
  }

  // ----- which keys are held -----

  ghost predicate LastAt(codes: seq<Byte>, n: nat, i: int, on: set<Byte>, off: set<Byte>)
    requires n <= |codes|
  {
    0 <= i < n && codes[i] in on && forall j :: i < j < n ==> codes[j] !in on && codes[j] !in off
  }

  /** Of the codes before place `n` that are in one of the sets, the last is in the first one. */
  ghost predicate LastOf(codes: seq<Byte>, n: nat, on: set<Byte>, off: set<Byte>)
    requires n <= |codes|
  {
    exists i :: LastAt(codes, n, i, on, off)
  }

  lemma LastOfNext(codes: seq<Byte>, n: nat, on: set<Byte>, off: set<Byte>)
    requires n < |codes|
    ensures LastOf(codes, n + 1, on, off) <==> codes[n] in on || (codes[n] !in off && LastOf(codes, n, on, off))
  {
    if codes[n] in on {
      assert LastAt(codes, n + 1, n, on, off);
    } else if codes[n] !in off && LastOf(codes, n, on, off) {
      var i :| LastAt(codes, n, i, on, off);
      assert LastAt(codes, n + 1, i, on, off);
    } else if LastOf(codes, n + 1, on, off) {
      var i :| LastAt(codes, n + 1, i, on, off);
      assert i < n && LastAt(codes, n, i, on, off);
    }
  }

  /** How often a code came before place `n`. */
  function Count(codes: seq<Byte>, n: nat, code: Byte): nat
    requires n <= |codes|
  {
    if n == 0 then 0 else Count(codes, n - 1, code) + if codes[n - 1] == code then 1 else 0
  }

  ghost predicate ShiftHeld(codes: seq<Byte>, n: nat)
    requires n <= |codes|
  {
    LastOf(codes, n, {0x2a, 0x36, 0x3a}, {0xaa, 0xb6})
  }

  ghost predicate ControlHeld(codes: seq<Byte>, n: nat)
    requires n <= |codes|
  {
    LastOf(codes, n, {0x1d}, {0x9d})
  }

  ghost predicate AltHeld(codes: seq<Byte>, n: nat)
    requires n <= |codes|
  {
    LastOf(codes, n, {0x38}, {0xb8})
  }

  /** What one code changes. */
  lemma OneCode(m: Modifiers, code: Byte)
    ensures var m' := Modified(m, code);
            && (m'.ctrlDown <==> code == 0x1d || (code != 0x9d && m.ctrlDown))
            && (m'.altDown <==> code == 0x38 || (code != 0xb8 && m.altDown))
            && (m'.shiftDown <==> code in {0x2a, 0x36, 0x3a} || (code !in {0xaa, 0xb6} && m.shiftDown))
            && (m'.capsLock <==> code == 0x3a || (code !in {0xaa, 0xb6} && m.capsLock))
            && (m'.numLock <==> (code == 0x45) != m.numLock) && (m'.scrollLock <==> (code == 0x46) != m.scrollLock)
  {
    match code {
      case 0x1d =>
      case 0x9d =>
      case 0x2a =>
      case 0x36 =>
      case 0xaa =>
      case 0xb6 =>
      case 0x38 =>
      case 0xb8 =>
      case 0x3a =>
      case 0x45 =>
      case 0x46 =>
      case _ =>
    }
  }

  /** Control and alt are down if the key was pressed last and not released; shift also if caps lock was pressed; num lock and
      scroll lock change with every press. */
  lemma {:induction false} HeldKeys(codes: seq<Byte>, n: nat)
    requires n <= |codes|
    ensures var m := After(codes, n);
            && (m.ctrlDown <==> ControlHeld(codes, n)) && (m.altDown <==> AltHeld(codes, n)) && (m.shiftDown <==> ShiftHeld(codes, n))
            && (m.capsLock <==> LastOf(codes, n, {0x3a}, {0xaa, 0xb6}))
            && (m.numLock <==> Count(codes, n, 0x45) % 2 == 1) && (m.scrollLock <==> Count(codes, n, 0x46) % 2 == 1)
  {
    if n > 0 {
      HeldKeys(codes, n - 1);
      OneCode(After(codes, n - 1), codes[n - 1]);
      LastOfNext(codes, n - 1, {0x1d}, {0x9d});
      LastOfNext(codes, n - 1, {0x38}, {0xb8});
      LastOfNext(codes, n - 1, {0x2a, 0x36, 0x3a}, {0xaa, 0xb6});
      LastOfNext(codes, n - 1, {0x3a}, {0xaa, 0xb6});
    }
  }

  /** A key that is no modifier adds its characters in the keymap for the keys that are held, and any other code adds none. */
  lemma KeyTyped(keymap: Keymap, codes: seq<Byte>, n: nat)
    requires n < |codes|
    ensures Typed(keymap, codes, n + 1) == Typed(keymap, codes, n) +
            if codes[n] in {0xe0, 0x1d, 0x9d, 0x2a, 0x36, 0xaa, 0xb6, 0x38, 0xb8, 0x3a, 0x45, 0x46} || codes[n] >= 0x59 then []
            else Text(keymap(ShiftHeld(codes, n), AltHeld(codes, n), ControlHeld(codes, n), codes[n]))
  {
    HeldKeys(codes, n);
  }

  // ----- the server -----

  /** What a reader is sent: how many characters, whether there are more, and seven cells. */
  datatype Answer = Answer(numchars: nat, more: bool, chars: seq<Byte>)

  class Keyboard {
    const keymap: Keymap
    const buffer: array<Byte>
    var pos: nat
    var modifiers: Modifiers
    var waiting: Word
    /** All scancodes read so far, the characters they stand for, and all characters sent so far. */
    ghost var codes: seq<Byte>
    ghost var typed: seq<Byte>
    ghost var sent: seq<Byte>

    /** The characters in the buffer. */
    ghost function Pending(): seq<Byte>
      requires pos <= buffer.Length
      reads this, buffer
    {
      buffer[..pos]
    }

    /** Nothing is lost, nothing is sent twice, and the order is kept. */
    ghost predicate InOrder()
      reads this, buffer
    {
      && buffer.Length == BUFFER_LENGTH && pos < BUFFER_LENGTH
      && buffer[pos] == 0 && 0 !in Pending()
      && sent + Pending() == typed
    }

    /** The characters are those of the scancodes, each decoded under the modifiers that were down. */
    ghost predicate Decoded()
      reads this
    {
      ValidKeymap(keymap) && modifiers == After(codes, |codes|) && typed == Typed(keymap, codes, |codes|)
    }

    /** Between two requests a reader that waits means that there is nothing to read. */
    ghost predicate Valid()
      reads this, buffer
    {
      InOrder() && Decoded() && (waiting != NILTHREAD ==> pos == 0)
    }

    constructor (keymap: Keymap)
      requires ValidKeymap(keymap)
      ensures Valid() && fresh(buffer) && buffer.Length == 1024 && pos == 0 && waiting == NILTHREAD && codes == [] && sent == []
      ensures modifiers == Modifiers(false, false, false, false, false, false)
    {
      this.keymap := keymap;
      buffer := new Byte[BUFFER_LENGTH](_ => 0);
      pos, modifiers, waiting := 0, RELEASED, NILTHREAD;
      codes, typed, sent := [], [], [];
    }

    /** Decodes a scancode behind the characters in the buffer. */
    method KeycodeToChars(code: Byte)
      requires buffer.Length == BUFFER_LENGTH && pos < BUFFER_LENGTH - MAX_CHAR_LEN && ValidKeymap(keymap)
      modifies this`pos, this`modifiers, buffer
      ensures pos < BUFFER_LENGTH && buffer[pos] == 0 && modifiers == Modified(old(modifiers), code)
      ensures Pending() == old(Pending()) + CharsOf(keymap, old(modifiers), code)
    {
      ghost var was := Pending();
      if IsModifier(code) {
        modifiers := Modified(modifiers, code);
      } else {
        KeepsModifiers(modifiers, code);
        if code < HIGH_CODE {
          var current := keymap(modifiers.shiftDown, modifiers.altDown, modifiers.ctrlDown, code);
          CopyKey(current);
        }
      }
      ghost var now := Pending();
      buffer[pos] := 0;
      assert Pending() == now;
    }

    /** Reads a scancode and decodes it. */
    method ReadCode(code: Byte)
      requires InOrder() && Decoded() && pos < BUFFER_LENGTH - MAX_CHAR_LEN
      modifies this`pos, this`modifiers, this`codes, this`typed, buffer
      ensures InOrder() && Decoded() && codes == old(codes) + [code]
    {
      ghost var text := CharsOf(keymap, modifiers, code);
      DecodedNext(keymap, codes, code, modifiers, typed);
      Append(code, text);
      codes := codes + [code];
    }

    method Append(code: Byte, ghost text: seq<Byte>)
      requires InOrder() && ValidKeymap(keymap) && pos < BUFFER_LENGTH - MAX_CHAR_LEN && text == CharsOf(keymap, modifiers, code)
      modifies this`pos, this`modifiers, this`typed, buffer
      ensures InOrder() && typed == old(typed) + text && modifiers == Modified(old(modifiers), code)
    {
      ghost var was := Pending();
      KeycodeToChars(code);
      typed := typed + text;
      assert sent + was + text == sent + (was + text);
    }

    /** Reads scancodes until there are no more or the buffer is full. */
    method ReadCodes(available: seq<Byte>) returns (n: nat)
      requires InOrder() && Decoded()
      modifies this`pos, this`modifiers, this`codes, this`typed, buffer
      ensures InOrder() && Decoded() && n <= |available| && codes == old(codes) + available[..n]
      ensures n < |available| ==> pos >= BUFFER_LENGTH - MAX_CHAR_LEN
    {
      n := 0;
      while n < |available| && pos < BUFFER_LENGTH - MAX_CHAR_LEN
        invariant InOrder() && Decoded() && n <= |available| && codes == old(codes) + available[..n]
      {
        OneMore(old(codes), available, n);
        ReadCode(available[n]);
        n := n + 1;
      }
    }

    /** Copies the cells of a key up to the first NUL. */
    method CopyKey(current: seq<Byte>)
      requires buffer.Length == BUFFER_LENGTH && pos < BUFFER_LENGTH - MAX_CHAR_LEN && |current| == MAX_CHAR_LEN
      modifies this`pos, buffer
      ensures old(pos) <= pos <= old(pos) + MAX_CHAR_LEN
      ensures buffer[..pos] == old(buffer[..pos]) + Text(current)
    {
      ghost var was := buffer[..pos];
      var k := 0;
      while k < MAX_CHAR_LEN
        invariant 0 <= k <= |Text(current)| && pos == old(pos) + k
        invariant buffer[..pos] == was + Text(current)[..k]
        decreases MAX_CHAR_LEN - k
      {
        ghost var now := buffer[..pos];
        buffer[pos] := current[k];
        assert buffer[..pos] == now;
        if current[k] == 0 {
          break;
        }
        OneMore(was, Text(current), k);
        pos := pos + 1;
        k := k + 1;
      }
      assert k == |Text(current)|;
    }

    /** Copies a string up to and with its terminator, but at most `max` cells, into an answer. */
    method CopyOut(max: nat) returns (chars: seq<Byte>)
      requires buffer.Length == BUFFER_LENGTH && max <= BUFFER_LENGTH && pos < BUFFER_LENGTH && buffer[pos] == 0 && 0 !in Pending()
      ensures |chars| == max
      ensures chars[..if pos < max then pos else max] == buffer[..if pos < max then pos else max]
    {
      chars := [];
      var k := 0;
      while k < max
        invariant 0 <= k <= max && k <= pos && chars == buffer[..k]
      {
        assert k < pos ==> buffer[k] in Pending();
        if buffer[k] == 0 {
          break;
        }
        chars := chars + [buffer[k]];
        k := k + 1;
      }
      // what is not written keeps whatever was there
      chars := chars + seq(max - k, _ => 0);
    }

    /** Moves the buffer's contents down by `n` cells, in place, up to and with the terminator. */
    method Shift(n: nat)
      requires buffer.Length == BUFFER_LENGTH && 0 < n <= pos < BUFFER_LENGTH && buffer[pos] == 0 && 0 !in Pending()
      modifies buffer
      ensures buffer[..pos - n] == old(buffer[n..pos]) && buffer[pos - n] == 0
    {
      var k := 0;
      while k < BUFFER_LENGTH - n
        invariant 0 <= k <= pos - n
        invariant forall i {:trigger buffer[i]} :: 0 <= i < k ==> buffer[i] == old(buffer[i + n])
        invariant forall i {:trigger buffer[i]} :: k <= i < BUFFER_LENGTH ==> buffer[i] == old(buffer[i])
      {
        assert k + n < pos ==> old(buffer[k + n]) in old(Pending());
        buffer[k] := buffer[k + n];
        if buffer[k] == 0 {
          break;
        }
        k := k + 1;
      }
    }

    /** Sends up to seven characters from the front of the buffer. */
    method ProcessBuffers() returns (a: Answer)
      requires InOrder()
      modifies this`pos, this`sent, buffer
      ensures InOrder()
      ensures a.numchars == (if old(pos) <= 7 then old(pos) else 7) && a.more == (old(pos) > 7)
      ensures |a.chars| == 7 && a.chars[..a.numchars] == old(buffer[..if pos <= 7 then pos else 7])
      ensures sent == old(sent) + a.chars[..a.numchars]
      ensures pos == old(pos) - a.numchars
    {
      var charsInBuf := pos;
      var chars := CopyOut(7);
      ghost var front := chars[..if pos <= 7 then pos else 7];
      ghost var rest := buffer[..pos][|front|..];
      assert Pending() == front + rest;
      assert sent + Pending() == sent + front + rest;
      if charsInBuf <= 7 {
        a := Answer(charsInBuf, false, chars);
        buffer[0] := 0;
        pos := 0;
        assert rest == [];
      } else {
        a := Answer(7, true, chars);
        Shift(7);
        pos := pos - 7;
        assert Pending() == rest;
        assert forall x :: x in rest ==> x in old(Pending());
      }
      sent := sent + front;
    }

    /** A reader asks for characters: it gets what there is, or waits; while another one waits it gets nothing. */
    method Read(caller: Word) returns (answer: Option<Answer>)
      requires Valid() && caller != NILTHREAD
      modifies this`pos, this`sent, this`waiting, buffer
      ensures Valid()
      ensures old(pos) != 0 ==>
                && waiting == old(waiting) && answer.Some? && answer.value.numchars > 0
                && |answer.value.chars| == 7 && answer.value.numchars <= 7
                && sent == old(sent) + answer.value.chars[..answer.value.numchars]
      ensures old(pos) == 0 ==> sent == old(sent) && pos == 0
      ensures old(pos) == 0 && old(waiting) == NILTHREAD ==> answer == None && waiting == caller
      ensures old(pos) == 0 && old(waiting) != NILTHREAD ==>
                answer == Some(Answer(0, false, [0, 0, 0, 0, 0, 0, 0])) && waiting == old(waiting)
    {
      if pos != 0 {
        var a := ProcessBuffers();
        answer := Some(a);
      } else if waiting == NILTHREAD {
        waiting := caller;
        answer := None;
      } else {
        answer := Some(Answer(0, false, [0, 0, 0, 0, 0, 0, 0]));
      }
    }

    /** The keyboard has scancodes: they are read until there are no more or the buffer is full. A reader that waits is
        sent what there is now, and waits no longer. */
    method Interrupt(available: seq<Byte>) returns (n: nat, reply: Option<Answer>, to: Word)
      requires Valid()
      modifies this, buffer
      ensures Valid()
      ensures n <= |available| && codes == old(codes) + available[..n]
      ensures n < |available| && reply == None ==> pos >= 1024 - 7
      ensures reply == None ==> sent == old(sent) && waiting == old(waiting)
      ensures reply.Some? ==>
                && old(waiting) != NILTHREAD && to == old(waiting) && waiting == NILTHREAD
                && |reply.value.chars| == 7 && 0 < reply.value.numchars <= 7
                && sent == old(sent) + reply.value.chars[..reply.value.numchars]
      ensures old(waiting) != NILTHREAD && reply == None ==> typed == old(typed)
    {
      reply, to := None, NILTHREAD;
      n := ReadCodes(available);
      if waiting != NILTHREAD && pos != 0 {
        var a := ProcessBuffers();
        reply, to := Some(a), waiting;
        waiting := NILTHREAD;
      }
    }
  }
}
