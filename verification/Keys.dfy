/**
 * What a run of scan codes does to the modifier state (student-distrib/keyboard.c),
 * stated by the presses and releases in the run, and what a key then does.
 */
module Keys {
  import opened Bytes
  import opened Tty
  import opened Scancodes

  predicate Presses(e: Event, c: byte) { e.Key? && e.code == c }

  predicate Releases(e: Event, c: byte) { e.Key? && e.code as int == c + 128 }

  /** No release of key c from position i on. */
  predicate NotReleased(es: seq<Event>, c: byte, i: nat) { forall j :: i <= j < |es| ==> !Releases(es[j], c) }

  /** Key c was pressed in the run and not released since, or was down before it and never released. */
  predicate Down(was: bool, es: seq<Event>, c: byte) {
    (exists i :: 0 <= i < |es| && Presses(es[i], c) && NotReleased(es, c, i)) || (was && NotReleased(es, c, 0))
  }

  function CountPresses(es: seq<Event>, c: byte): nat {
    if es == [] then 0 else CountPresses(es[..|es| - 1], c) + if Presses(es[|es| - 1], c) then 1 else 0
  }

  lemma DownSnoc(was: bool, es: seq<Event>, c: byte)
    requires es != [] && c < KEYS
    ensures Down(was, es, c) <==>
            Presses(es[|es| - 1], c) || (!Releases(es[|es| - 1], c) && Down(was, es[..|es| - 1], c))
  {
    var n := |es| - 1;
    var before := es[..n];
    if Presses(es[n], c) {
      assert NotReleased(es, c, n);
    } else if !Releases(es[n], c) {
      forall i | 0 <= i <= n ensures NotReleased(es, c, i) <==> NotReleased(before, c, i) {
        assert forall j :: 0 <= j < n ==> before[j] == es[j];
      }
      assert forall i :: 0 <= i < n ==> before[i] == es[i];
    }
  }

  /** A key is held after any run exactly when it is down in this sense. */
  lemma {:induction false} HeldIff(ctl: Control, es: seq<Event>, c: byte)
    requires ctl.Valid() && c < KEYS && forall e :: e in es ==> e.Valid()
    ensures ControlRun(ctl, es).pressed[c] <==> Down(ctl.pressed[c], es, c)
  {
    if es != [] {
      HeldIff(ctl, es[..|es| - 1], c);
      DownSnoc(ctl.pressed[c], es, c);
    }
  }

  /** Caps Lock changes with every press of its key, and with nothing else. */
  lemma {:induction false} CapsIff(ctl: Control, es: seq<Event>)
    requires ctl.Valid() && forall e :: e in es ==> e.Valid()
    ensures ControlRun(ctl, es).caps <==> (ctl.caps != (CountPresses(es, CAPSLOCK) % 2 == 1))
  {
    if es != [] {
      CapsIff(ctl, es[..|es| - 1]);
    }
  }

  predicate ShiftDown(ctl: Control, es: seq<Event>)
    requires ctl.Valid()
  {
    Down(ctl.pressed[LEFT_SHIFT], es, LEFT_SHIFT) || Down(ctl.pressed[RIGHT_SHIFT], es, RIGHT_SHIFT)
  }

  predicate CapsOn(ctl: Control, es: seq<Event>) { ctl.caps != (CountPresses(es, CAPSLOCK) % 2 == 1) }

  /** What a key with a character types: a letter follows Caps Lock and Shift together, Enter neither, and any
      other key Shift alone. Past the shift table, from code 80 on, Shift types the byte found there. */
  function Typed(code: byte, stray: byte, caps: bool, shift: bool): byte
    requires code < KEYS
  {
    if IsLetter(ScanChar(code)) then (if caps != shift then ScanChar(code) - 32 else ScanChar(code))
    else if code == ENTER || !shift then ScanChar(code)
    else if code < 80 then ShiftChar(code)
    else stray
  }

  lemma CharTyped(ctl: Control, code: byte, stray: byte)
    requires ctl.Valid() && code < KEYS && ScanChar(code) != NUL
    ensures CharMatch(Standard(), ctl, code, stray) == Typed(code, stray, ctl.caps, ctl.Shift())
  {
    if IsLetter(ScanChar(code)) {
      LettersShift(code);
    }
  }

  /** After any run of keys, output, reads and switches: what the next key does on the displayed terminal, told
      by the presses and releases of the run. A release does nothing; L with Ctrl down is the reset; Enter
      submits, with its echo unless Alt is down; Backspace erases; any other key types its character unless
      Alt is down or it has none. */
  lemma NextKey(ctl: Control, es: seq<Event>, code: byte, stray: byte)
    requires ctl.Valid() && (forall e :: e in es ==> e.Valid())
    ensures var ctrl, alt := Down(ctl.pressed[LEFT_CTRL], es, LEFT_CTRL), Down(ctl.pressed[LEFT_ALT], es, LEFT_ALT);
            var c := ControlRun(ctl, es);
            ActsOn(Standard(), c, Key(code, stray), c.display) ==
            if code >= KEYS then []
            else if code == 38 && ctrl then [Reset]
            else if code == 28 then [Submit(!alt)]
            else if code == 14 then [Erase]
            else if alt || ScanChar(code) == NUL then []
            else [Type(Typed(code, stray, CapsOn(ctl, es), ShiftDown(ctl, es)))]
  {
    var c := ControlRun(ctl, es);
    HeldIff(ctl, es, LEFT_CTRL);
    HeldIff(ctl, es, LEFT_ALT);
    HeldIff(ctl, es, LEFT_SHIFT);
    HeldIff(ctl, es, RIGHT_SHIFT);
    CapsIff(ctl, es);
    if code < KEYS && ScanChar(code) != NUL {
      CharTyped(Press(c, code), code, stray);
    }
  }

  /** With Alt down F1, F2 and F3 show terminal 0, 1 and 2; no other event changes what is shown. */
  lemma NextShown(ctl: Control, es: seq<Event>, e: Event)
    requires ctl.Valid() && (forall x :: x in es ==> x.Valid()) && e.Valid()
    ensures var c := ControlRun(ctl, es);
            var alt := Down(ctl.pressed[LEFT_ALT], es, LEFT_ALT);
            ControlStep(c, e).display ==
            if alt && Presses(e, 59) then 0 else if alt && Presses(e, 60) then 1 else if alt && Presses(e, 61) then 2
            else c.display
  {
    HeldIff(ctl, es, LEFT_ALT);
  }

  lemma ActsForL(ctl: Control, es: seq<Event>, stray: byte)
    requires ctl.Valid() && forall e :: e in es ==> e.Valid()
    ensures var c := ControlRun(ctl, es);
            ActsOn(Standard(), c, Key(38, stray), c.display) ==
            if Down(ctl.pressed[LEFT_CTRL], es, LEFT_CTRL) then [Reset]
            else if Down(ctl.pressed[LEFT_ALT], es, LEFT_ALT) then []
            else [Type(Typed(38, stray, CapsOn(ctl, es), ShiftDown(ctl, es)))]
  {
    NextKey(ctl, es, 38, stray);
    assert ScanChar(38) == 108;
  }

  /** The line after at most one act. */
  lemma LineAfter(v: Tty, acts: seq<Act>)
    requires v.Valid() && |acts| <= 1 && forall a :: a in acts ==> ActValid(a)
    ensures acts == [] ==> Replay(v, acts).line == v.line
    ensures acts == [Reset] ==> Replay(v, acts).line == []
    ensures acts != [] && acts[0].Type? ==>
              Replay(v, acts).line == if |v.line| >= LINE_MAX then v.line else v.line + [acts[0].c]
  {
    LineIsEdit(v, acts);
    if acts != [] {
      assert acts[..0] == [] && Edit(v.line, acts[..0]) == v.line;
    }
  }

  /** L clears the line exactly when Ctrl is down; without it, and without Alt, it types an L. */
  lemma CtrlL(s: System, es: seq<Event>, stray: byte)
    requires s.Valid() && forall e :: e in es ==> e.Valid()
    ensures var m := Run(Standard(), s, es);
            var d := m.ctl.display;
            var line, next := m.ttys[d].line, Step(Standard(), m, Key(38, stray)).ttys[d].line;
            var ctrl := Down(s.ctl.pressed[LEFT_CTRL], es, LEFT_CTRL);
            var alt := Down(s.ctl.pressed[LEFT_ALT], es, LEFT_ALT);
            next == if ctrl then []
                    else if alt || |line| >= LINE_MAX then line
                    else line + [Typed(38, stray, CapsOn(s.ctl, es), ShiftDown(s.ctl, es))]
  {
    Independence(Standard(), s, es, 0);
    ActsForL(s.ctl, es, stray);
    LineOfL(Run(Standard(), s, es), stray);
  }

  /** The line after an L, from the acts it leads to. */
  lemma LineOfL(m: System, stray: byte)
    requires m.Valid()
    ensures var d, acts := m.ctl.display, ActsOn(Standard(), m.ctl, Key(38, stray), m.ctl.display);
            var line, next := m.ttys[d].line, Step(Standard(), m, Key(38, stray)).ttys[d].line;
            && (acts == [] ==> next == line) && (acts == [Reset] ==> next == [])
            && (acts != [] && acts[0].Type? ==> next == if |line| >= LINE_MAX then line else line + [acts[0].c])
  {
    var d := m.ctl.display;
    ActsOnValid(Standard(), m.ctl, Key(38, stray), d);
    StepSeen(Standard(), m, Key(38, stray), d);
    LineAfter(m.ttys[d], ActsOn(Standard(), m.ctl, Key(38, stray), d));
  }

  /** Shift down, up, then A: a small letter. */
  lemma ShiftUpAgain(ctl: Control, stray: byte)
    requires ctl.Valid() && !ctl.pressed[RIGHT_SHIFT] && !ctl.pressed[LEFT_ALT] && !ctl.pressed[LEFT_CTRL] && !ctl.caps
    ensures var es := [Key(42, stray), Key(170, stray)];
            var c := ControlRun(ctl, es);
            ActsOn(Standard(), c, Key(30, stray), c.display) == [Type(97)]
  {
    var es := [Key(42, stray), Key(170, stray)];
    assert Releases(es[1], LEFT_SHIFT);
    assert es[..1] == [Key(42, stray)] && es[..1][..0] == [];
    assert CountPresses(es[..1], CAPSLOCK) == 0;
    NextKey(ctl, es, 30, stray);
    assert !Down(ctl.pressed[LEFT_SHIFT], es, LEFT_SHIFT);
  }
}
