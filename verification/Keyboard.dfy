/**
 * The keyboard driver (student-distrib/keyboard.c) over the console: modifier
 * state, one edit buffer and one print buffer per terminal, echo. Every method
 * refines the terminal protocol of module Tty.
 */
module Keyboard {
  import opened Bytes
  import opened Screen
  import opened Tty
  import C = Console

  const BUF := 129

  function With(s: System, t: nat, v: Tty): System
    requires |s.ttys| == 3 && t < 3
  {
    s.(ttys := s.ttys[t := v])
  }

  /** The echo half of a key: store and show it, or only show Enter once the line is full. */
  function Echoed(v: Tty, enter: bool, c: byte): (r: Tty)
    requires v.Valid()
    ensures r.Valid()
  {
    PutOffset(v.screen, c);
    if |v.line| < LINE_MAX then v.(line := v.line + [c], screen := Put(v.screen, c))
    else if enter then v.(screen := Put(v.screen, c))
    else v
  }

  lemma ReplayOne(v: Tty, a: Act)
    requires v.Valid() && ActValid(a)
    ensures Replay(v, [a]) == TtyStep(v, a)
  {
    assert [a][..0] == [];
    assert Replay(v, []) == v;
  }

  /** A key press up to, and not including, the tests for Enter and Backspace. */
  function KeyDown(km: Keymap, s: System, code: byte, stray: byte): (r: System)
    requires km.Valid() && s.Valid() && code < KEYS
    ensures r.Valid()
  {
    var held := Press(s.ctl, code);
    var d := held.display;
    if IsReset(held, code) then System(held, s.ttys[d := ResetStep(s.ttys[d])])
    else if held.pressed[LEFT_ALT] then System(held.(display := NextDisplay(held, code)), s.ttys)
    else if km.scan[code] != NUL then
      System(held, s.ttys[d := Echoed(s.ttys[d], code == ENTER, CharMatch(km, held, code, stray))])
    else System(held, s.ttys)
  }

  /** The protocol's step for a key, with its one act or none. */
  lemma KeyStep(km: Keymap, s: System, code: byte, stray: byte)
    requires km.Valid() && s.Valid() && code < KEYS
    ensures var held := Press(s.ctl, code);
            var d, acts := held.display, KeyActs(km, held, code, stray);
            && |acts| <= 1 && (acts != [] ==> ActValid(acts[0]))
            && Step(km, s, Key(code, stray)) ==
               System(held.(display := NextDisplay(held, code)),
                      if acts == [] then s.ttys else s.ttys[d := TtyStep(s.ttys[d], acts[0])])
  {
    var held := Press(s.ctl, code);
    var d, acts := held.display, KeyActs(km, held, code, stray);
    if acts != [] {
      assert acts == [acts[0]];
      ReplayOne(s.ttys[d], acts[0]);
    } else {
      assert Replay(s.ttys[d], acts) == s.ttys[d];
      assert s.ttys[d := s.ttys[d]] == s.ttys;
    }
  }

  lemma EnterThenLine(km: Keymap, s: System, stray: byte)
    requires km.Valid() && s.Valid()
    ensures var k := KeyDown(km, s, ENTER, stray);
            Step(km, s, Key(ENTER, stray)) == With(k, k.ctl.display, SubmitStep(k.ttys[k.ctl.display], false))
  {
    KeyStep(km, s, ENTER, stray);
  }

  lemma BackspaceThenLine(km: Keymap, s: System, stray: byte)
    requires km.Valid() && s.Valid()
    ensures var k := KeyDown(km, s, BACKSPACE, stray);
            Step(km, s, Key(BACKSPACE, stray)) == With(k, k.ctl.display, EraseStep(k.ttys[k.ctl.display]))
  {
    KeyStep(km, s, BACKSPACE, stray);
  }

  /** The handler's sequence of separate tests amounts to one act of the protocol. */
  lemma KeyDownThenLine(km: Keymap, s: System, code: byte, stray: byte)
    requires km.Valid() && s.Valid() && code < KEYS
    ensures var k := KeyDown(km, s, code, stray);
            Step(km, s, Key(code, stray)) ==
            if code == ENTER then With(k, k.ctl.display, SubmitStep(k.ttys[k.ctl.display], false))
            else if code == BACKSPACE then With(k, k.ctl.display, EraseStep(k.ttys[k.ctl.display]))
            else k
  {
    if code == ENTER {
      EnterThenLine(km, s, stray);
    } else if code == BACKSPACE {
      BackspaceThenLine(km, s, stray);
    } else {
      KeyStep(km, s, code, stray);
    }
  }

  /** The per-terminal buffers as the driver stores them: zero padded, with a fill index. */
  datatype Buffers = Buffers(keyBuf: seq<seq<byte>>, cursorInd: seq<int>, outBuf: seq<seq<byte>>, ready: seq<bool>)
  {
    predicate Ok(t: nat)
      requires |keyBuf| == |cursorInd| == |outBuf| == 3 && t < 3
    {
      && |keyBuf[t]| == BUF && 0 <= cursorInd[t] <= LINE_MAX && |outBuf[t]| == PRINT_LIM
      && keyBuf[t] == Padded(keyBuf[t][..cursorInd[t]], BUF)
    }

    predicate Valid() {
      && |keyBuf| == |cursorInd| == |outBuf| == |ready| == 3
      && forall t: nat {:trigger Ok(t)} :: t < 3 ==> Ok(t)
    }

    function Line(t: nat): (r: seq<byte>)
      requires Valid() && t < 3
      ensures 0 <= |r| == cursorInd[t] <= LINE_MAX && keyBuf[t] == Padded(r, BUF) && |outBuf[t]| == PRINT_LIM
    {
      assert Ok(t);
      keyBuf[t][..cursorInd[t]]
    }
  }

  function TtyAt(screens: seq<Screen>, b: Buffers, t: nat): Tty
    requires |screens| == 3 && b.Valid() && t < 3
  {
    Tty(screens[t], b.Line(t), b.outBuf[t], b.ready[t])
  }

  function Ttys(screens: seq<Screen>, b: Buffers): (r: seq<Tty>)
    requires |screens| == 3 && b.Valid()
    ensures |r| == 3
  {
    [TtyAt(screens, b, 0), TtyAt(screens, b, 1), TtyAt(screens, b, 2)]
  }

  /** Storing at the fill index appends. */
  lemma PaddedEdit(line: seq<byte>, c: byte)
    requires |line| < LINE_MAX
    ensures Padded(line, BUF)[|line| := c] == Padded(line + [c], BUF)
  {
  }

  /** Buffers with the edited line of terminal t replaced. */
  function WithLine(b: Buffers, t: nat, line: seq<byte>): (c: Buffers)
    requires b.Valid() && t < 3 && |line| <= LINE_MAX
    ensures c.Valid()
  {
    var c := b.(keyBuf := b.keyBuf[t := Padded(line, BUF)], cursorInd := b.cursorInd[t := |line|]);
    assert c.keyBuf[t][..c.cursorInd[t]] == line;
    assert c.Valid() by {
      assert b.Ok(0) && b.Ok(1) && b.Ok(2);
      assert c.Ok(0) && c.Ok(1) && c.Ok(2);
    }
    c
  }

  /** Buffers with the print buffer and ready flag of terminal t replaced. */
  function WithOut(b: Buffers, t: nat, out: seq<byte>, ready: bool): (c: Buffers)
    requires b.Valid() && t < 3 && |out| == PRINT_LIM
    ensures c.Valid()
  {
    var c := b.(outBuf := b.outBuf[t := out], ready := b.ready[t := ready]);
    assert c.Valid() by {
      assert b.Ok(0) && b.Ok(1) && b.Ok(2);
      assert c.Ok(0) && c.Ok(1) && c.Ok(2);
    }
    c
  }

  /** A new screen and a new line for terminal t change that terminal only. */
  lemma LineChanged(ss: seq<Screen>, b: Buffers, t: nat, screen: Screen, line: seq<byte>)
    requires |ss| == 3 && b.Valid() && t < 3 && |line| <= LINE_MAX
    ensures Ttys(ss[t := screen], WithLine(b, t, line)) ==
            Ttys(ss, b)[t := TtyAt(ss, b, t).(screen := screen, line := line)]
  {
    assert forall q: nat {:trigger b.Line(q)} :: q < 3 && q != t ==> WithLine(b, t, line).Line(q) == b.Line(q);
    assert WithLine(b, t, line).Line(t) == line;
  }

  lemma OutChanged(ss: seq<Screen>, b: Buffers, t: nat, screen: Screen, out: seq<byte>, ready: bool)
    requires |ss| == 3 && b.Valid() && t < 3 && |out| == PRINT_LIM
    ensures Ttys(ss[t := screen], WithOut(b, t, out, ready)) ==
            Ttys(ss, b)[t := TtyAt(ss, b, t).(screen := screen, outBuf := out, ready := ready)]
  {
    assert forall q: nat {:trigger b.Line(q)} :: q < 3 ==> WithOut(b, t, out, ready).Line(q) == b.Line(q);
  }

  /** Clearing below the fill index removes the last byte. */
  lemma PaddedErase(line: seq<byte>)
    requires 0 < |line| <= LINE_MAX
    ensures Padded(line, BUF)[|line| - 1 := NUL] == Padded(line[..|line| - 1], BUF)
  {
  }

  class Keyboard {
    const con: C.Console
    const km: Keymap
    var pressed: seq<bool>
    var caps: bool
    var keyBuf: seq<seq<byte>>
    var cursorInd: seq<int>
    var outBuf: seq<seq<byte>>
    var ready: seq<bool>

    ghost function B(): Buffers
      reads this
    {
      Buffers(keyBuf, cursorInd, outBuf, ready)
    }

    ghost predicate Shape()
      reads this, con, con.mem
    {
      con.Valid() && km.Valid() && |pressed| == KEYS && B().Valid()
    }

    ghost function S(): System
      requires Shape()
      reads this, con, con.mem
    {
      System(Control(pressed, caps, con.display, con.active), Ttys(con.screens, B()))
    }

    ghost predicate Valid()
      reads this, con, con.mem
    {
      Shape() && S().Valid()
    }

    constructor (con: C.Console, km: Keymap)
      requires con.Valid() && km.Valid()
      ensures Valid() && this.con == con && this.km == km
      ensures S().ctl == Control(Falses(KEYS), false, con.display, con.active)
      ensures forall t :: 0 <= t < 3 ==> S().ttys[t] == Tty(con.screens[t], [], Repeat(PRINT_LIM, NUL), false)
    {
      this.con, this.km := con, km;
      pressed, caps := Falses(KEYS), false;
      var empty, out := Repeat(BUF, NUL), Repeat(PRINT_LIM, NUL);
      keyBuf, outBuf := [empty, empty, empty], [out, out, out];
      cursorInd, ready := [0, 0, 0], [false, false, false];
    }

    static function Falses(n: nat): (r: seq<bool>)
      ensures |r| == n
    {
      seq(n, _ => false)
    }

    method StoreKey(t: nat, c: byte)
      requires B().Valid() && t < 3 && cursorInd[t] < LINE_MAX
      modifies this`keyBuf, this`cursorInd
      ensures B() == WithLine(old(B()), t, old(B()).Line(t) + [c])
    {
      assert B().Ok(t);
      var line: seq<byte> := keyBuf[t];
      PaddedEdit(B().Line(t), c);
      keyBuf := keyBuf[t := line[cursorInd[t] := c]];
      cursorInd := cursorInd[t := cursorInd[t] + 1];
    }

    method UnstoreKey(t: nat)
      requires B().Valid() && t < 3 && cursorInd[t] != 0
      modifies this`keyBuf, this`cursorInd
      ensures old(B()).Line(t) != []
      ensures B() == WithLine(old(B()), t, old(B()).Line(t)[..|old(B()).Line(t)| - 1])
    {
      assert B().Ok(t);
      var line: seq<byte> := keyBuf[t];
      PaddedErase(B().Line(t));
      cursorInd := cursorInd[t := cursorInd[t] - 1];
      keyBuf := keyBuf[t := line[cursorInd[t] := NUL]];
    }

    /** The branch for a key that has a character. */
    method EchoKey(code: byte, c: byte)
      requires Valid()
      modifies this`keyBuf, this`cursorInd, con`screens, con`xs, con`ys, con.mem
      ensures Shape()
      ensures S() == With(old(S()), con.display, Echoed(old(S()).ttys[con.display], code == ENTER, c))
    {
      if cursorInd[con.display] >= LINE_MAX {
        if code == ENTER {
          EchoOnly(c);
        }
      } else {
        StoreAndEcho(c);
      }
    }

    method EchoOnly(c: byte)
      requires Valid()
      modifies con`screens, con`xs, con`ys, con.mem
      ensures Shape()
      ensures var v := old(S()).ttys[con.display];
              S() == With(old(S()), con.display, v.(screen := Put(v.screen, c)))
    {
      ghost var t, ss, b, v := con.display, con.screens, B(), S().ttys[con.display];
      con.PutcScrollDisplay(c);
      LineChanged(ss, b, t, Put(v.screen, c), v.line);
      assert WithLine(b, t, v.line) == b;
    }

    method StoreAndEcho(c: byte)
      requires Valid() && cursorInd[con.display] < LINE_MAX
      modifies this`keyBuf, this`cursorInd, con`screens, con`xs, con`ys, con.mem
      ensures Shape()
      ensures var v := old(S()).ttys[con.display];
              S() == With(old(S()), con.display, v.(line := v.line + [c], screen := Put(v.screen, c)))
    {
      ghost var t, ss, b, v := con.display, con.screens, B(), S().ttys[con.display];
      StoreKey(con.display, c);
      con.PutcScrollDisplay(c);
      LineChanged(ss, b, t, Put(v.screen, c), v.line + [c]);
    }

    method SubmitLine()
      requires Valid()
      modifies this`keyBuf, this`cursorInd, this`outBuf, this`ready
      ensures Shape()
      ensures S() == With(old(S()), con.display, SubmitStep(old(S()).ttys[con.display], false))
    {
      var t := con.display;
      ghost var ss, b, v := con.screens, B(), S().ttys[con.display];
      assert b.Ok(t);
      ghost var r := SubmitStep(v, false);
      outBuf := outBuf[t := keyBuf[t] + Repeat(PRINT_LIM - BUF, NUL)];
      assert outBuf[t] == r.outBuf;
      keyBuf := keyBuf[t := Repeat(BUF, NUL)];
      assert keyBuf[t] == Padded([], BUF);
      ready := ready[t := true];
      cursorInd := cursorInd[t := 0];
      assert B() == WithOut(WithLine(b, t, []), t, r.outBuf, true);
      assert ss == ss[t := v.screen];
      LineChanged(ss, b, t, v.screen, []);
      OutChanged(ss, WithLine(b, t, []), t, v.screen, r.outBuf, true);
    }

    method EraseChar()
      requires Valid()
      modifies this`keyBuf, this`cursorInd, con`screens, con`xs, con`ys, con.mem
      ensures Shape()
      ensures S() == With(old(S()), con.display, EraseStep(old(S()).ttys[con.display]))
    {
      assert B().Ok(con.display);
      if cursorInd[con.display] != 0 {
        UnstoreAndErase();
      }
    }

    method UnstoreAndErase()
      requires Valid() && cursorInd[con.display] > 0
      modifies this`keyBuf, this`cursorInd, con`screens, con`xs, con`ys, con.mem
      ensures Shape()
      ensures var v := old(S()).ttys[con.display];
              && v.line != [] && v.screen.Valid() && v.screen.Offset() > 0
              && S() == With(old(S()), con.display, v.(line := v.line[..|v.line| - 1], screen := Delete(v.screen)))
    {
      ghost var t, ss, b, v := con.display, con.screens, B(), S().ttys[con.display];
      assert v.Valid();
      UnstoreKey(con.display);
      con.DeleteC();
      LineChanged(ss, b, t, Delete(v.screen), v.line[..|v.line| - 1]);
    }

    method ShowPrompt()
      requires con.Valid()
      modifies con`screens, con`xs, con`ys, con.mem
      ensures con.Shape()
      ensures con.screens == old(con.screens)[con.display := PutAll(old(con.screens)[con.display], PROMPT)]
      ensures con.Valid()
    {
      var k := 0;
      while k < 7
        invariant 0 <= k <= 7 && con.Valid()
        invariant con.screens ==
                  old(con.screens)[con.display := PutAll(old(con.screens)[con.display], PROMPT[..k])]
      {
        con.PutcScrollDisplay(PROMPT[k]);
        assert PROMPT[..k + 1][..k] == PROMPT[..k];
        k := k + 1;
      }
      assert PROMPT[..7] == PROMPT;
    }

    method ResetLine()
      requires Valid()
      modifies this`keyBuf, this`cursorInd, con`screens, con`xs, con`ys, con.mem
      ensures Shape()
      ensures S() == With(old(S()), con.display, ResetStep(old(S()).ttys[con.display]))
    {
      var t := con.display;
      ghost var ss, b, v := con.screens, B(), S().ttys[con.display];
      con.ClearDisplay();
      ShowPrompt();
      keyBuf := keyBuf[t := Repeat(BUF, NUL)];
      cursorInd := cursorInd[t := 0];
      assert keyBuf[t] == Padded([], BUF);
      assert B() == WithLine(b, t, []);
      LineChanged(ss, b, t, PutAll(Clear(v.screen), PROMPT), []);
    }

    method PressKey(code: byte, stray: byte)
      requires Valid() && code < KEYS
      modifies this`pressed, this`caps, this`keyBuf, this`cursorInd, con`screens, con`xs, con`ys, con`display, con.mem
      ensures Shape() && S() == KeyDown(km, old(S()), code, stray)
    {
      pressed := pressed[code := true];
      if code == CAPSLOCK {
        caps := !caps;
      }
      var ctl := Control(pressed, caps, con.display, con.active);
      ghost var s := S();
      assert s == System(Press(old(S()).ctl, code), old(S()).ttys);
      if code == KEY_L && pressed[LEFT_CTRL] {
        ResetLine();
      } else if pressed[LEFT_ALT] {
        if code == F1 {
          con.SetDisplayTerminal(0);
        }
        if code == F2 {
          con.SetDisplayTerminal(1);
        }
        if code == F3 {
          con.SetDisplayTerminal(2);
        }
      } else if km.scan[code] != NUL {
        EchoKey(code, CharMatch(km, ctl, code, stray));
      }
    }

    /** One scan code taken from the keyboard port, as in the body of the handler's loop. */
    method HandleKey(code: byte, stray: byte)
      requires Valid()
      modifies this`pressed, this`caps, this`keyBuf, this`cursorInd, this`outBuf, this`ready,
               con`screens, con`xs, con`ys, con`display, con.mem
      ensures Shape() && S() == Step(km, old(S()), Key(code, stray))
      ensures Valid()
    {
      if code >= KEYS {
        pressed := pressed[code - KEYS := false];
      } else {
        PressKey(code, stray);
        KeyDownThenLine(km, old(S()), code, stray);
      }
      if code == ENTER {
        SubmitLine();
      }
      if code == BACKSPACE {
        EraseChar();
      }
    }

    /** The copy into the print buffer, with its terminator. */
    method StoreOutput(t: nat, w: seq<byte>)
      requires B().Valid() && t < 3 && |w| < PRINT_LIM
      modifies this`outBuf
      ensures |old(B()).outBuf[t]| == PRINT_LIM
      ensures B() == WithOut(old(B()), t, w + [NUL] + old(B()).outBuf[t][|w| + 1..], old(B()).ready[t])
      ensures outBuf[t][..|w|] == w
    {
      assert B().Ok(t);
      outBuf := outBuf[t := w + [NUL] + outBuf[t][|w| + 1..]];
    }

    method TerminalWrite(buf: seq<byte>) returns (n: nat)
      requires Valid() && |buf| < PRINT_LIM
      modifies this`outBuf, con`screens, con`xs, con`ys, con.mem
      ensures Shape() && n == |buf| && S() == Step(km, old(S()), Write(buf))
      ensures Valid()
    {
      var idx := con.active;
      ghost var ss, b, v := con.screens, B(), S().ttys[con.active];
      ghost var r := OutputStep(v, buf);
      StoreOutput(idx, buf);
      n := con.PutsScroll(outBuf[idx], |buf|);
      OutChanged(ss, b, idx, r.screen, r.outBuf, r.ready);
      ReplayOne(v, Output(buf));
    }

    /** Returns once a line is ready. The result is the C string found in the caller's buffer, which must
        therefore end somewhere: in the copied bytes or in what the buffer held behind them. */
    method TerminalRead(buf: array<byte>, count: nat) returns (n: nat)
      requires Valid() && ready[con.active] && buf != con.mem
      requires count <= buf.Length && count <= PRINT_LIM
      requires NUL in outBuf[con.active][..count] || NUL in buf[count..]
      modifies this`ready, buf
      ensures Shape() && S() == Step(km, old(S()), Read)
      ensures Valid()
      ensures buf[..] == old(outBuf[con.active][..count] + buf[count..])
      ensures n <= buf.Length && buf[..n] == CString(old(outBuf[con.active][..count] + buf[count..]))
    {
      var idx := con.active;
      ghost var ss, b, v := con.screens, B(), S().ttys[con.active];
      assert b.Ok(idx);
      n := CopyAndMeasure(buf, outBuf[idx], count);
      assert con.screens == ss;
      ready := ready[idx := false];
      ReplayOne(v, Taken);
      assert B() == WithOut(b, idx, v.outBuf, false);
      OutChanged(ss, b, idx, v.screen, v.outBuf, false);
      assert ss == ss[idx := v.screen];
    }

    /** A read of more bytes than the waiting line holds: the caller gets the line up to its first NUL, whatever
        its buffer held, which is the whole line when it has none. */
    method ReadLine(buf: array<byte>, count: nat, ghost line: seq<byte>) returns (n: nat)
      requires Valid() && ready[con.active] && buf != con.mem
      requires |line| < count <= buf.Length && count <= PRINT_LIM && outBuf[con.active] == Padded(line, PRINT_LIM)
      modifies this`ready, buf
      ensures Valid() && S() == Step(km, old(S()), Read)
      ensures n <= buf.Length && buf[..n] == CString(line)
      ensures buf[..n] == line <==> NUL !in line
      ensures buf[count..] == old(buf[count..])
    {
      ghost var front := outBuf[con.active][..count];
      assert front[|line|] == NUL;
      ReadYieldsLine(line, count);
      CStringOfFront(front, buf[count..]);
      n := TerminalRead(buf, count);
      assert buf[..][count..] == buf[count..];
    }

    method ServeEnterServe(es: seq<Event>, stray: byte, after: seq<Event>)
      requires Valid() && (forall e :: e in es ==> e.Valid()) && (forall e :: e in after ==> e.Valid())
      modifies this, con, con.mem
      ensures Valid() && S() == RunEnterRun(km, old(S()), es, stray, after)
    {
      ServeAll(es);
      HandleKey(ENTER, stray);
      ServeAll(after);
    }

    /** The line editor end to end: after any run, Enter on the displayed terminal, and any further run that
        leaves that terminal's line alone and ends with it active, a read of more bytes than the line holds
        returns what its own keys made, up to the first NUL. */
    method TypeEnterRead(es: seq<Event>, stray: byte, after: seq<Event>, buf: array<byte>, count: nat) returns (n: nat)
      requires Valid() && (forall e :: e in es ==> e.Valid()) && (forall e :: e in after ==> e.Valid())
      requires buf != con.mem && count <= buf.Length && count <= PRINT_LIM && |TypedLine(km, S(), es)| < count
      requires var enter := ControlStep(ControlRun(S().ctl, es), Key(ENTER, stray));
               && LeavesLine(km, enter, after, ControlRun(S().ctl, es).display)
               && ControlRun(enter, after).active == ControlRun(S().ctl, es).display
      modifies this, con, con.mem, buf
      ensures Valid() && S() == Step(km, RunEnterRun(km, old(S()), es, stray, after), Read)
      ensures n <= buf.Length && buf[..n] == CString(TypedLine(km, old(S()), es))
      ensures buf[..n] == TypedLine(km, old(S()), es) <==> NUL !in TypedLine(km, old(S()), es)
    {
      ghost var s, line := S(), TypedLine(km, S(), es);
      ghost var t := ControlRun(s.ctl, es).display;
      SubmittedRun(km, s, es, stray, after);
      ControlRuns(km, s, es, stray, after);
      ServeEnterServe(es, stray, after);
      assert S().ttys[t].outBuf == outBuf[t] && S().ttys[t].ready == ready[t];
      n := ReadLine(buf, count, line);
    }

    /** The driver through any run of events follows the protocol. */
    method ServeAll(es: seq<Event>)
      requires Valid() && forall e :: e in es ==> e.Valid()
      modifies this, con, con.mem
      ensures Valid() && S() == Run(km, old(S()), es)
      decreases |es|
    {
      if es != [] {
        ServeAll(es[..|es| - 1]);
        ServeOne(es[|es| - 1]);
      }
    }

    /** The driver through any run of events: each terminal ends up as its own acts alone would leave it. */
    method Serve(es: seq<Event>)
      requires Valid() && forall e :: e in es ==> e.Valid()
      modifies this, con, con.mem
      ensures Valid() && S() == Run(km, old(S()), es)
      ensures forall t: nat :: t < 3 ==> S().ttys[t] == Replay(old(S()).ttys[t], Own(km, old(S()).ctl, es, t))
    {
      ghost var s := S();
      forall t: nat | t < 3 ensures Run(km, s, es).ttys[t] == Replay(s.ttys[t], Own(km, s.ctl, es, t)) {
        Independence(km, s, es, t);
      }
      ServeAll(es);
    }

    method ServeOne(e: Event)
      requires Valid() && e.Valid()
      modifies this, con, con.mem
      ensures Valid() && S() == Step(km, old(S()), e)
    {
      match e
      case Key(code, stray) =>
        HandleKey(code, stray);
      case Write(w) =>
        var _ := TerminalWrite(w);
      case Activate(t) =>
        con.SetActiveTerminal(t);
        assert Replay(old(S()).ttys[t], []) == old(S()).ttys[t];
        assert Replay(old(S()).ttys[con.active], []) == old(S()).ttys[con.active];
      case Read =>
        ghost var v := S().ttys[con.active];
        if ready[con.active] {
          var buf := new byte[PRINT_LIM + 1](_ => NUL);
          assert buf[PRINT_LIM..][0] == NUL;
          var _ := TerminalRead(buf, PRINT_LIM);
        } else {
          ReplayOne(v, Taken);
          assert S().ttys[con.active := v] == S().ttys;
        }
    }

    /** `memcpy` into the caller's buffer, then `strlen` of it. */
    static method CopyAndMeasure(buf: array<byte>, from: seq<byte>, count: nat) returns (n: nat)
      requires count <= buf.Length && count <= |from|
      requires NUL in from[..count] || NUL in buf[count..]
      modifies buf
      ensures buf[..] == from[..count] + old(buf[count..])
      ensures n <= buf.Length && buf[..n] == CString(from[..count] + old(buf[count..]))
    {
      var i := 0;
      while i < count
        invariant 0 <= i <= count
        invariant forall j :: 0 <= j < buf.Length ==> buf[j] == if j < i then from[j] else old(buf[j])
      {
        buf[i] := from[i];
        i := i + 1;
      }
      ghost var s := from[..count] + old(buf[count..]);
      assert buf[..] == s && NUL in s;
      n := 0;
      ghost var z :| 0 <= z < |s| && s[z] == NUL;
      while buf[n] != NUL
        invariant 0 <= n <= z < buf.Length && NUL !in s[..n]
        decreases z - n
      {
        n := n + 1;
      }
      CStringUnique(s, s[..n]);
    }
  }
}
