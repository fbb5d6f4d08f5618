/**
 * The terminal protocol on values: what one key, one program write, one read and
 * one scheduler switch do to the three terminals (student-distrib/keyboard.c).
 * A key acts only on the displayed terminal, a write only on the active one.
 */
module Tty {
  import opened Bytes
  import opened Screen

  const LINE_MAX := 128
  const PRINT_LIM := 2050
  const KEYS := 128

  const BACKSPACE := 14
  const ENTER := 28
  const LEFT_CTRL := 29
  const KEY_L := 38
  const LEFT_SHIFT := 42
  const RIGHT_SHIFT := 54
  const LEFT_ALT := 56
  const CAPSLOCK := 58
  const F1 := 59
  const F2 := 60
  const F3 := 61

  /** The two translation tables filled in by `init_scan_code`. */
  datatype Keymap = Keymap(scan: seq<byte>, shift: seq<byte>)
  {
    predicate Valid() {
      |scan| == 255 && |shift| == 80 && scan[ENTER] == NEWLINE && scan[BACKSPACE] == NUL
    }
  }

  /** The state a key press consults that belongs to no terminal. */
  datatype Control = Control(pressed: seq<bool>, caps: bool, display: nat, active: nat)
  {
    predicate Valid() { |pressed| == KEYS && display < 3 && active < 3 }

    predicate Shift()
      requires Valid()
    {
      pressed[LEFT_SHIFT] || pressed[RIGHT_SHIFT]
    }
  }

  /** `line` is the edited line, `outBuf` the buffer shared by submitted lines and program output. */
  datatype Tty = Tty(screen: Screen, line: seq<byte>, outBuf: seq<byte>, ready: bool)
  {
    /** The last conjunct is why a backspace never leaves the screen. */
    predicate Valid() {
      screen.Valid() && |line| <= LINE_MAX && |outBuf| == PRINT_LIM && screen.Offset() >= |line|
    }
  }

  /** What happens to one terminal. `Submit(echo)` is Enter; Alt suppresses its echo. */
  datatype Act = Type(c: byte) | Submit(echo: bool) | Erase | Reset | Output(bytes: seq<byte>) | Taken

  /** A scan code, a `terminal_write`, a completed `terminal_read`, a `set_active_terminal`. `stray` is
      the byte found past the end of the shift table, which a shifted keypad key reads. */
  datatype Event = Key(code: byte, stray: byte) | Write(bytes: seq<byte>) | Read | Activate(t: nat)
  {
    predicate Valid() {
      match this
      case Write(w) => |w| < PRINT_LIM
      case Activate(t) => t < 3
      case _ => true
    }
  }

  const PROMPT: seq<byte> := [51, 57, 49, 79, 83, 62, 32]

  function Shifted(km: Keymap, code: byte, stray: byte): byte
    requires km.Valid() && code < KEYS
  {
    if code < 80 then km.shift[code] else stray
  }

  function CharMatch(km: Keymap, ctl: Control, code: byte, stray: byte): (r: byte)
    requires km.Valid() && ctl.Valid() && code < KEYS
    ensures code == ENTER ==> r == NEWLINE
  {
    var res := km.scan[code];
    if res == NUL then NUL
    else if ctl.caps && 97 <= res <= 122 then
      (if ctl.Shift() then res else Shifted(km, code, stray))
    else if ctl.Shift() then
      (if code == ENTER then NEWLINE else Shifted(km, code, stray))
    else res
  }

  function Press(ctl: Control, code: byte): (r: Control)
    requires ctl.Valid()
    ensures r.Valid() && r.display == ctl.display && r.active == ctl.active
  {
    if code >= KEYS then ctl.(pressed := ctl.pressed[code - KEYS := false])
    else ctl.(pressed := ctl.pressed[code := true], caps := if code == CAPSLOCK then !ctl.caps else ctl.caps)
  }

  predicate IsReset(ctl: Control, code: byte)
    requires ctl.Valid()
  {
    code == KEY_L && ctl.pressed[LEFT_CTRL]
  }

  /** The acts of one key on the displayed terminal, given the keys held once it is down. */
  function KeyActs(km: Keymap, ctl: Control, code: byte, stray: byte): seq<Act>
    requires km.Valid() && ctl.Valid()
  {
    if code >= KEYS then []
    else if IsReset(ctl, code) then [Reset]
    else if code == ENTER then [Submit(!ctl.pressed[LEFT_ALT])]
    else if code == BACKSPACE then [Erase]
    else if !ctl.pressed[LEFT_ALT] && km.scan[code] != NUL then [Type(CharMatch(km, ctl, code, stray))]
    else []
  }

  function NextDisplay(ctl: Control, code: byte): (d: nat)
    requires ctl.Valid()
    ensures d < 3
  {
    if code < KEYS && ctl.pressed[LEFT_ALT] && F1 <= code <= F3 then code - F1 else ctl.display
  }

  function ControlStep(ctl: Control, e: Event): (r: Control)
    requires ctl.Valid() && e.Valid()
    ensures r.Valid()
  {
    match e
    case Key(code, _) =>
      var held := Press(ctl, code);
      held.(display := NextDisplay(held, code))
    case Activate(t) => ctl.(active := t)
    case _ => ctl
  }

  /** Which acts an event performs on terminal t; it depends on no terminal's contents. */
  function ActsOn(km: Keymap, ctl: Control, e: Event, t: nat): seq<Act>
    requires km.Valid() && ctl.Valid() && e.Valid() && t < 3
  {
    match e
    case Key(code, stray) => if t == ctl.display then KeyActs(km, Press(ctl, code), code, stray) else []
    case Write(w) => if t == ctl.active then [Output(w)] else []
    case Read => if t == ctl.active then [Taken] else []
    case Activate(_) => []
  }

  predicate ActValid(a: Act) { a.Output? ==> |a.bytes| < PRINT_LIM }

  /** The line handed over by Enter: a newline joins it when it was echoed and there was room. */
  function Submitted(line: seq<byte>, echo: bool): seq<byte> {
    if echo && |line| < LINE_MAX then line + [NEWLINE] else line
  }

  function TypeStep(v: Tty, c: byte): (r: Tty)
    requires v.Valid()
    ensures r.Valid()
  {
    PutOffset(v.screen, c);
    if |v.line| < LINE_MAX then v.(line := v.line + [c], screen := Put(v.screen, c)) else v
  }

  function SubmitStep(v: Tty, echo: bool): (r: Tty)
    requires v.Valid()
    ensures r.Valid()
  {
    Tty(if echo then Put(v.screen, NEWLINE) else v.screen, [],
        Padded(Submitted(v.line, echo), PRINT_LIM), true)
  }

  function EraseStep(v: Tty): (r: Tty)
    requires v.Valid()
    ensures r.Valid()
  {
    if v.line == [] then v
    else v.(line := v.line[..|v.line| - 1], screen := Delete(v.screen))
  }

  function ResetStep(v: Tty): (r: Tty)
    requires v.Valid()
    ensures r.Valid()
  {
    v.(screen := PutAll(Clear(v.screen), PROMPT), line := [])
  }

  function OutputStep(v: Tty, w: seq<byte>): (r: Tty)
    requires v.Valid() && |w| < PRINT_LIM
    ensures r.Valid()
  {
    PutAllOffset(v.screen, w, |v.line|);
    v.(screen := PutAll(v.screen, w), outBuf := w + [NUL] + v.outBuf[|w| + 1..])
  }

  function TtyStep(v: Tty, a: Act): (r: Tty)
    requires v.Valid() && ActValid(a)
    ensures r.Valid()
  {
    match a
    case Type(c) => TypeStep(v, c)
    case Submit(echo) => SubmitStep(v, echo)
    case Erase => EraseStep(v)
    case Reset => ResetStep(v)
    case Output(w) => OutputStep(v, w)
    case Taken => v.(ready := false)
  }

  /** A terminal with nothing beside it. */
  function Replay(v: Tty, acts: seq<Act>): (r: Tty)
    requires v.Valid() && forall a :: a in acts ==> ActValid(a)
    ensures r.Valid()
  {
    if acts == [] then v else TtyStep(Replay(v, acts[..|acts| - 1]), acts[|acts| - 1])
  }

  lemma {:induction false} ReplayConcat(v: Tty, a: seq<Act>, b: seq<Act>)
    requires v.Valid() && (forall x :: x in a ==> ActValid(x)) && (forall x :: x in b ==> ActValid(x))
    ensures Replay(v, a + b) == Replay(Replay(v, a), b)
  {
    if b == [] {
      assert a + b == a;
    } else {
      var n := |b| - 1;
      assert (a + b)[..|a + b| - 1] == a + b[..n] && (a + b)[|a + b| - 1] == b[n];
      ReplayConcat(v, a, b[..n]);
    }
  }

  datatype System = System(ctl: Control, ttys: seq<Tty>)
  {
    predicate Valid() {
      ctl.Valid() && |ttys| == 3 && ttys[0].Valid() && ttys[1].Valid() && ttys[2].Valid()
    }
  }

  lemma ActsOnValid(km: Keymap, ctl: Control, e: Event, t: nat)
    requires km.Valid() && ctl.Valid() && e.Valid() && t < 3
    ensures |ActsOn(km, ctl, e, t)| <= 1 && forall a :: a in ActsOn(km, ctl, e, t) ==> ActValid(a)
  {
  }

  /** The kernel's step: at most one terminal is touched, and which one is decided by the globals. */
  function Step(km: Keymap, s: System, e: Event): (r: System)
    requires km.Valid() && s.Valid() && e.Valid()
    ensures r.Valid()
  {
    ActsOnValid(km, s.ctl, e, s.ctl.display);
    ActsOnValid(km, s.ctl, e, s.ctl.active);
    var t := if e.Key? then s.ctl.display else s.ctl.active;
    System(ControlStep(s.ctl, e), s.ttys[t := Replay(s.ttys[t], ActsOn(km, s.ctl, e, t))])
  }

  function Run(km: Keymap, s: System, es: seq<Event>): (r: System)
    requires km.Valid() && s.Valid() && forall e :: e in es ==> e.Valid()
    ensures r.Valid()
  {
    if es == [] then s else Step(km, Run(km, s, es[..|es| - 1]), es[|es| - 1])
  }

  function ControlRun(ctl: Control, es: seq<Event>): (r: Control)
    requires ctl.Valid() && forall e :: e in es ==> e.Valid()
    ensures r.Valid()
  {
    if es == [] then ctl else ControlStep(ControlRun(ctl, es[..|es| - 1]), es[|es| - 1])
  }

  /** The acts of a whole run that belong to terminal t. */
  function Own(km: Keymap, ctl: Control, es: seq<Event>, t: nat): (r: seq<Act>)
    requires km.Valid() && ctl.Valid() && t < 3 && forall e :: e in es ==> e.Valid()
    ensures forall a :: a in r ==> ActValid(a)
  {
    if es == [] then []
    else
      var before := es[..|es| - 1];
      ActsOnValid(km, ControlRun(ctl, before), es[|es| - 1], t);
      Own(km, ctl, before, t) + ActsOn(km, ControlRun(ctl, before), es[|es| - 1], t)
  }

  /** One step, seen from terminal t. */
  lemma StepSeen(km: Keymap, s: System, e: Event, t: nat)
    requires km.Valid() && s.Valid() && e.Valid() && t < 3
    ensures forall a :: a in ActsOn(km, s.ctl, e, t) ==> ActValid(a)
    ensures Step(km, s, e).ctl == ControlStep(s.ctl, e)
    ensures Step(km, s, e).ttys[t] == Replay(s.ttys[t], ActsOn(km, s.ctl, e, t))
  {
    ActsOnValid(km, s.ctl, e, t);
    assert Replay(s.ttys[t], []) == s.ttys[t];
  }

  lemma IndependenceStep(km: Keymap, m: System, e: Event, t: nat, v: Tty, acts: seq<Act>)
    requires km.Valid() && m.Valid() && e.Valid() && t < 3 && v.Valid() && forall a :: a in acts ==> ActValid(a)
    requires m.ttys[t] == Replay(v, acts)
    ensures forall a :: a in acts + ActsOn(km, m.ctl, e, t) ==> ActValid(a)
    ensures Step(km, m, e).ttys[t] == Replay(v, acts + ActsOn(km, m.ctl, e, t))
  {
    StepSeen(km, m, e, t);
    ReplayConcat(v, acts, ActsOn(km, m.ctl, e, t));
  }

  /** Terminal independence: after any interleaving, each terminal is exactly what its own acts make of
      it on a terminal that has nothing beside it. */
  lemma {:induction false} Independence(km: Keymap, s: System, es: seq<Event>, t: nat)
    requires km.Valid() && s.Valid() && t < 3 && forall e :: e in es ==> e.Valid()
    ensures Run(km, s, es).ctl == ControlRun(s.ctl, es)
    ensures Run(km, s, es).ttys[t] == Replay(s.ttys[t], Own(km, s.ctl, es, t))
  {
    if es != [] {
      var before, e := es[..|es| - 1], es[|es| - 1];
      Independence(km, s, before, t);
      IndependenceStep(km, Run(km, s, before), e, t, s.ttys[t], Own(km, s.ctl, before, t));
    }
  }

  /** Safety of every run from empty lines: cursor, line and erasing stay inside the page. */
  lemma RunStaysOnScreen(km: Keymap, s: System, es: seq<Event>, t: nat)
    requires km.Valid() && s.Valid() && t < 3 && forall e :: e in es ==> e.Valid()
    ensures var v := Run(km, s, es).ttys[t];
            && 0 <= v.screen.x < COLS && 0 <= v.screen.y <= ROWS && (v.screen.y == ROWS ==> v.screen.x == 0)
            && 0 <= |v.line| <= LINE_MAX && v.screen.Offset() >= |v.line|
            && (v.line != [] ==> 0 <= Delete(v.screen).Offset() < CELLS)
  {
    var v := Run(km, s, es).ttys[t];
    assert v.Valid();
  }

  predicate IsKeyAct(a: Act) { !a.Output? && !a.Taken? }

  function KeyActsOnly(acts: seq<Act>): seq<Act> {
    if acts == [] then []
    else KeyActsOnly(acts[..|acts| - 1]) + if IsKeyAct(acts[|acts| - 1]) then [acts[|acts| - 1]] else []
  }

  /** The line editor on its own, with no screen and no buffers. */
  function Edit(line: seq<byte>, acts: seq<Act>): (r: seq<byte>)
    requires |line| <= LINE_MAX
    ensures |r| <= LINE_MAX
  {
    if acts == [] then line
    else
      var l := Edit(line, acts[..|acts| - 1]);
      match acts[|acts| - 1]
      case Type(c) => if |l| < LINE_MAX then l + [c] else l
      case Erase => if l == [] then l else l[..|l| - 1]
      case Submit(_) => []
      case Reset => []
      case _ => l
  }

  /** The edited line is a fold of the terminal's own key acts: output and reads never change it. */
  lemma {:induction false} LineIsEdit(v: Tty, acts: seq<Act>)
    requires v.Valid() && forall a :: a in acts ==> ActValid(a)
    ensures Replay(v, acts).line == Edit(v.line, acts) == Edit(v.line, KeyActsOnly(acts))
  {
    if acts != [] {
      var before, a := acts[..|acts| - 1], acts[|acts| - 1];
      LineIsEdit(v, before);
      var kept := KeyActsOnly(before);
      if IsKeyAct(a) {
        assert (kept + [a])[..|kept|] == kept;
      } else {
        assert kept + [] == kept;
      }
    }
  }

  /** What Enter handed over is still there to be read after any further typing, as long as that terminal
      neither prints nor submits again. */
  lemma {:induction false} SubmittedLineWaits(v: Tty, echo: bool, acts: seq<Act>)
    requires v.Valid() && forall a :: a in acts ==> !a.Output? && !a.Submit? && !a.Taken?
    ensures var r := Replay(TtyStep(v, Submit(echo)), acts);
            r.ready && r.outBuf == Padded(Submitted(v.line, echo), PRINT_LIM)
  {
    if acts != [] {
      SubmittedLineWaits(v, echo, acts[..|acts| - 1]);
    }
  }

  /** A read of `count` bytes, more than the line holds, yields the line up to its first NUL. */
  lemma ReadYieldsLine(line: seq<byte>, count: nat)
    requires |line| < count <= PRINT_LIM
    ensures CString(Padded(line, PRINT_LIM)[..count]) == CString(line)
    ensures CString(line) == line <==> NUL !in line
  {
    LineThenNuls(line, Padded(line, PRINT_LIM)[..count]);
    if NUL !in line {
      CStringUnique(line, line);
    }
  }

  lemma LineThenNuls(line: seq<byte>, s: seq<byte>)
    requires line < s && s[|line|] == NUL
    ensures CString(s) == CString(line)
  {
    var r := CString(line);
    assert |r| < |line| ==> s[|r|] == line[|r|];
    CStringUnique(s, r);
  }

  /** Enter on the displayed terminal. */
  lemma EnterSubmits(km: Keymap, s: System, stray: byte)
    requires km.Valid() && s.Valid()
    ensures var d := s.ctl.display;
            Step(km, s, Key(ENTER, stray)).ttys[d] == TtyStep(s.ttys[d], Submit(!s.ctl.pressed[LEFT_ALT]))
  {
    var d, a := s.ctl.display, Submit(!s.ctl.pressed[LEFT_ALT]);
    StepSeen(km, s, Key(ENTER, stray), d);
    assert ActsOn(km, s.ctl, Key(ENTER, stray), d) == [a];
    assert [a][..0] == [];
    assert Replay(s.ttys[d], [a][..0]) == s.ttys[d];
  }

  /** Three stages of a run: anything, Enter on the displayed terminal, anything. */
  function RunEnterRun(km: Keymap, s: System, es: seq<Event>, stray: byte, after: seq<Event>): (r: System)
    requires km.Valid() && s.Valid() && (forall e :: e in es ==> e.Valid()) && (forall e :: e in after ==> e.Valid())
    ensures r.Valid()
  {
    Run(km, Step(km, Run(km, s, es), Key(ENTER, stray)), after)
  }

  /** The line that the Enter hands over: the fold of the terminal's own keys before it. */
  function TypedLine(km: Keymap, s: System, es: seq<Event>): (r: seq<byte>)
    requires km.Valid() && s.Valid() && forall e :: e in es ==> e.Valid()
    ensures |r| <= LINE_MAX
  {
    var ctl := ControlRun(s.ctl, es);
    Submitted(Edit(s.ttys[ctl.display].line, Own(km, s.ctl, es, ctl.display)), !ctl.pressed[LEFT_ALT])
  }

  /** Nothing that terminal t itself does in this run prints, submits or reads. */
  predicate LeavesLine(km: Keymap, ctl: Control, es: seq<Event>, t: nat)
    requires km.Valid() && ctl.Valid() && t < 3 && forall e :: e in es ==> e.Valid()
  {
    forall a :: a in Own(km, ctl, es, t) ==> !a.Output? && !a.Submit? && !a.Taken?
  }

  /** The globals through the three stages. */
  lemma ControlRuns(km: Keymap, s: System, es: seq<Event>, stray: byte, after: seq<Event>)
    requires km.Valid() && s.Valid() && (forall e :: e in es ==> e.Valid()) && (forall e :: e in after ==> e.Valid())
    ensures RunEnterRun(km, s, es, stray, after).ctl ==
            ControlRun(ControlStep(ControlRun(s.ctl, es), Key(ENTER, stray)), after)
  {
    Independence(km, s, es, 0);
    Independence(km, Step(km, Run(km, s, es), Key(ENTER, stray)), after, 0);
  }

  /** The line editor over whole runs: whatever all terminals do before, and after as long as this one neither
      prints nor submits nor reads, what waits after Enter is the fold of its own keys, with the newline
      exactly when Alt was up and there was room. */
  lemma SubmittedRun(km: Keymap, s: System, es: seq<Event>, stray: byte, after: seq<Event>)
    requires km.Valid() && s.Valid() && (forall e :: e in es ==> e.Valid()) && (forall e :: e in after ==> e.Valid())
    requires LeavesLine(km, ControlStep(ControlRun(s.ctl, es), Key(ENTER, stray)), after, ControlRun(s.ctl, es).display)
    ensures var v := RunEnterRun(km, s, es, stray, after).ttys[ControlRun(s.ctl, es).display];
            v.ready && v.outBuf == Padded(TypedLine(km, s, es), PRINT_LIM)
  {
    var t := ControlRun(s.ctl, es).display;
    Independence(km, s, es, t);
    var m := Run(km, s, es);
    var n := Step(km, m, Key(ENTER, stray));
    LineIsEdit(s.ttys[t], Own(km, s.ctl, es, t));
    EnterSubmits(km, m, stray);
    Independence(km, n, after, t);
    SubmittedLineWaits(m.ttys[t], !m.ctl.pressed[LEFT_ALT], Own(km, n.ctl, after, t));
  }

  /** After Ctrl-L the screen shows "391OS> " at the top left and nothing else, and the line is empty. */
  lemma ResetShows(v: Tty)
    requires v.Valid()
    ensures var r := TtyStep(v, Reset);
            && r.line == [] && r.screen.x == 7 && r.screen.y == 0
            && GlyphAt(r.screen.page, 0) == '3' as int && GlyphAt(r.screen.page, 1) == '9' as int
            && GlyphAt(r.screen.page, 2) == '1' as int && GlyphAt(r.screen.page, 3) == 'O' as int
            && GlyphAt(r.screen.page, 4) == 'S' as int && GlyphAt(r.screen.page, 5) == '>' as int
            && forall k :: 6 <= k < CELLS ==> GlyphAt(r.screen.page, k) == ' ' as int
  {
    TextOnBlank(v.screen, PROMPT);
  }

  predicate NotTaken(acts: seq<Act>, i: nat) { forall j :: i <= j < |acts| ==> !acts[j].Taken? }

  /** A line was submitted and not read since, or was ready before and never read. */
  predicate Waiting(was: bool, acts: seq<Act>) {
    (exists i :: 0 <= i < |acts| && acts[i].Submit? && NotTaken(acts, i)) || (was && NotTaken(acts, 0))
  }

  lemma WaitingSnoc(was: bool, acts: seq<Act>)
    requires acts != []
    ensures Waiting(was, acts) <==>
            acts[|acts| - 1].Submit? || (!acts[|acts| - 1].Taken? && Waiting(was, acts[..|acts| - 1]))
  {
    var n := |acts| - 1;
    var before := acts[..n];
    if acts[n].Submit? {
      assert NotTaken(acts, n);
    } else if !acts[n].Taken? {
      forall i | 0 <= i <= n ensures NotTaken(acts, i) <==> NotTaken(before, i) {
        assert forall j :: 0 <= j < n ==> before[j] == acts[j];
      }
      assert forall i :: 0 <= i < n ==> before[i] == acts[i];
    }
  }

  /** A terminal is ready exactly when a submitted line waits to be read. */
  lemma {:induction false} ReadyIff(v: Tty, acts: seq<Act>)
    requires v.Valid() && forall a :: a in acts ==> ActValid(a)
    ensures Replay(v, acts).ready <==> Waiting(v.ready, acts)
  {
    if acts != [] {
      ReadyIff(v, acts[..|acts| - 1]);
      WaitingSnoc(v.ready, acts);
    }
  }

  /** The same over whole runs of all terminals. */
  lemma ReadyRun(km: Keymap, s: System, es: seq<Event>, t: nat)
    requires km.Valid() && s.Valid() && t < 3 && forall e :: e in es ==> e.Valid()
    ensures Run(km, s, es).ttys[t].ready <==> Waiting(s.ttys[t].ready, Own(km, s.ctl, es, t))
  {
    Independence(km, s, es, t);
    ReadyIff(s.ttys[t], Own(km, s.ctl, es, t));
  }

  /** Keys that type these bytes. */
  function Types(w: seq<byte>): (r: seq<Act>)
    ensures |r| == |w| && forall i :: 0 <= i < |w| ==> r[i] == Type(w[i])
  {
    seq(|w|, i requires 0 <= i < |w| => Type(w[i]))
  }

  /** Typing appends up to 128 bytes and drops what does not fit. */
  lemma {:induction false} TypingAppends(line: seq<byte>, w: seq<byte>)
    requires |line| <= LINE_MAX
    ensures Edit(line, Types(w)) == if |line| + |w| <= 128 then line + w else (line + w)[..128]
  {
    if w == [] {
      assert line + w == line;
    } else {
      var n := |w| - 1;
      TypingAppends(line, w[..n]);
      assert Types(w)[..n] == Types(w[..n]) && w == w[..n] + [w[n]];
    }
  }

  /** k backspaces take the last k bytes, or all there are. */
  lemma {:induction false} ErasingTakes(line: seq<byte>, k: nat)
    requires |line| <= LINE_MAX
    ensures Edit(line, seq(k, _ => Erase)) == if k <= |line| then line[..|line| - k] else []
  {
    if k > 0 {
      ErasingTakes(line, k - 1);
      assert seq(k, _ => Erase)[..k - 1] == seq(k - 1, _ => Erase);
    }
  }

  lemma {:induction false} EditConcat(line: seq<byte>, a: seq<Act>, b: seq<Act>)
    requires |line| <= LINE_MAX
    ensures Edit(line, a + b) == Edit(Edit(line, a), b)
  {
    if b == [] {
      assert a + b == a;
    } else {
      var n := |b| - 1;
      assert (a + b)[..|a + b| - 1] == a + b[..n] && (a + b)[|a + b| - 1] == b[n];
      EditConcat(line, a, b[..n]);
    }
  }

  lemma TypeErase(w: seq<byte>, k: nat)
    requires |w| <= LINE_MAX && k <= |w|
    ensures Edit([], Types(w) + seq(k, _ => Erase)) == w[..|w| - k]
  {
    EditConcat([], Types(w), seq(k, _ => Erase));
    TypingAppends([], w);
    assert [] + w == w;
    ErasingTakes(w, k);
  }

  /** Enter with room for the newline. */
  lemma EnterHandsOver(v: Tty)
    requires v.Valid() && |v.line| < 128
    ensures var r := TtyStep(v, Submit(true));
            r.line == [] && r.ready && r.outBuf[..|v.line| + 2] == v.line + [10, 0]
  {
  }

  /** From an empty line, typing w, erasing k of it and pressing Enter hands over the rest of w with a newline
      and a NUL behind it, and leaves an empty line. */
  lemma TypeEraseEnter(v: Tty, w: seq<byte>, k: nat)
    requires v.Valid() && v.line == [] && |w| < 128 && k <= |w|
    ensures var r := TtyStep(Replay(v, Types(w) + seq(k, _ => Erase)), Submit(true));
            r.line == [] && r.ready && r.outBuf[..|w| - k + 2] == w[..|w| - k] + [10, 0]
  {
    var acts := Types(w) + seq(k, _ => Erase);
    TypeErase(w, k);
    LineIsEdit(v, acts);
    EnterHandsOver(Replay(v, acts));
  }

  /** Program output is left in the print buffer as a C string. */
  lemma OutputLeft(v: Tty, w: seq<byte>)
    requires v.Valid() && |w| < PRINT_LIM && NUL !in w
    ensures CString(TtyStep(v, Output(w)).outBuf) == w
    ensures TtyStep(v, Output(w)).outBuf[|w| + 1..] == v.outBuf[|w| + 1..]
  {
    CStringUnique(TtyStep(v, Output(w)).outBuf, w);
  }
}
