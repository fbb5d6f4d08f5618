/**
 * Terminals and processes together. The keyboard handler, the system calls and the
 * timer share two globals, the displayed and the active terminal, which the terminal
 * protocol and the process model each keep; here one run drives both models, with
 * `set_active_terminal` called exactly where the process code calls it.
 */
module Whole {
  import opened Bytes
  import T = Tty
  import K = Processes
  import S = ProcessStacks

  /** A scan code, output and input of the running process, and its other system calls or a tick. */
  datatype Event = Scan(code: byte, stray: byte) | Print(bytes: seq<byte>) | TakeLine | Call(call: K.Event)
  {
    /** Alt-Fn reaches the processes through its scan code only. */
    predicate Valid() {
      match this
      case Print(w) => |w| < T.PRINT_LIM
      case Call(c) => !c.SpawnOn? && !c.ShowFirst?
      case _ => true
    }
  }

  datatype State = State(sys: T.System, k: K.Kernel)
  {
    predicate Valid() { sys.Valid() && k.Shape() && k.top[0] != K.NONE }

    /** Both models have the same idea of the two globals. */
    predicate Agree() { sys.ctl.display == k.display && sys.ctl.active == k.active }
  }

  /** The message of a refused execute, with its terminating NUL. */
  const TOO_MANY: seq<byte> :=
    [84, 79, 79, 32, 77, 65, 78, 89, 32, 80, 82, 79, 67, 69, 83, 83, 69, 83, 32, 79, 80, 69, 78, 33, 10, 0]

  lemma TooManyText(i: nat)
    requires i <= 25
    ensures |TOO_MANY| == 26 && TOO_MANY[i] == if i == 25 then 0 else "TOO MANY PROCESSES OPEN!\n"[i] as int
  {
  }

  /** What the process code does at an event: Alt-Fn shows or spawns a terminal. */
  function Calls(ctl: T.Control, e: Event): (r: seq<K.Event>)
    requires ctl.Valid() && e.Valid()
    ensures |r| <= 1 && forall c :: c in r ==> c.Valid()
  {
    match e
    case Scan(code, _) =>
      if code < T.KEYS && T.Press(ctl, code).pressed[T.LEFT_ALT] && T.F1 <= code <= T.F3 then
        [if code == T.F1 then K.ShowFirst else K.SpawnOn(code - T.F1)]
      else []
    case Call(c) => [c]
    case _ => []
  }

  /** What that call asks of the terminals: where it calls `set_active_terminal`, or prints its refusal. */
  function Effects(k: K.Kernel, c: K.Event): (r: seq<T.Event>)
    requires k.Shape() && k.top[0] != K.NONE && c.Valid()
    ensures |r| <= 1 && forall x :: x in r ==> x.Valid()
  {
    match c
    case Execute(valid) =>
      if !valid then []
      else if K.GetPid(k.live) == -1 then [T.Write(TOO_MANY)]
      else [T.Activate(k.Cur().terminal)]
    case HaltNow => if k.Cur().pid == k.Cur().ppid then [T.Activate(k.Cur().terminal)] else []
    case TickNow =>
      [T.Activate(k.pcb[k.top[K.NextTerminal(K.Occupied(k.top), k.Cur().terminal)]].terminal)]
    case SpawnOn(t) => if k.started[t] || K.GetPid(k.live) == -1 then [] else [T.Activate(t)]
    case _ => []
  }

  /** What an event asks of the terminals before any call it leads to. */
  function Direct(e: Event): (r: seq<T.Event>)
    requires e.Valid()
    ensures |r| <= 1 && forall x :: x in r ==> x.Valid()
  {
    match e
    case Scan(code, stray) => [T.Key(code, stray)]
    case Print(w) => [T.Write(w)]
    case TakeLine => [T.Read]
    case Call(_) => []
  }

  function Requests(st: State, e: Event): (r: seq<T.Event>)
    requires st.Valid() && e.Valid()
    ensures forall x :: x in r ==> x.Valid()
  {
    var cs := Calls(st.sys.ctl, e);
    Direct(e) + if cs == [] then [] else Effects(st.k, cs[0])
  }

  /** The terminals after the event itself. */
  function DirectStep(km: T.Keymap, sys: T.System, e: Event): (r: T.System)
    requires km.Valid() && sys.Valid() && e.Valid()
    ensures r.Valid()
  {
    if e.Call? then sys else T.Step(km, sys, Direct(e)[0])
  }

  /** The terminals after what a call asks of them. */
  function EffectStep(km: T.Keymap, sys: T.System, k: K.Kernel, cs: seq<K.Event>): (r: T.System)
    requires km.Valid() && sys.Valid() && k.Shape() && k.top[0] != K.NONE && forall c :: c in cs ==> c.Valid()
    ensures r.Valid()
  {
    if cs == [] || Effects(k, cs[0]) == [] then sys else T.Step(km, sys, Effects(k, cs[0])[0])
  }

  function Step(km: T.Keymap, st: State, e: Event): (r: State)
    requires km.Valid() && st.Valid() && e.Valid()
    ensures r.Valid()
  {
    var cs := Calls(st.sys.ctl, e);
    State(EffectStep(km, DirectStep(km, st.sys, e), st.k, cs), if cs == [] then st.k else K.Step(st.k, cs[0]))
  }

  function Run(km: T.Keymap, st: State, es: seq<Event>): (r: State)
    requires km.Valid() && st.Valid() && forall e :: e in es ==> e.Valid()
    ensures r.Valid()
  {
    if es == [] then st else Step(km, Run(km, st, es[..|es| - 1]), es[|es| - 1])
  }

  /** All requests to the terminals in a run, in order. */
  function AllRequests(km: T.Keymap, st: State, es: seq<Event>): (r: seq<T.Event>)
    requires km.Valid() && st.Valid() && forall e :: e in es ==> e.Valid()
    ensures forall x :: x in r ==> x.Valid()
  {
    if es == [] then []
    else AllRequests(km, st, es[..|es| - 1]) + Requests(Run(km, st, es[..|es| - 1]), es[|es| - 1])
  }

  /** All steps of the process code in a run, in order. */
  function AllCalls(km: T.Keymap, st: State, es: seq<Event>): (r: seq<K.Event>)
    requires km.Valid() && st.Valid() && forall e :: e in es ==> e.Valid()
    ensures forall x :: x in r ==> x.Valid()
  {
    if es == [] then []
    else AllCalls(km, st, es[..|es| - 1]) + Calls(Run(km, st, es[..|es| - 1]).sys.ctl, es[|es| - 1])
  }

  lemma {:induction false} TtyRunConcat(km: T.Keymap, s: T.System, a: seq<T.Event>, b: seq<T.Event>)
    requires km.Valid() && s.Valid() && (forall x :: x in a ==> x.Valid()) && (forall x :: x in b ==> x.Valid())
    ensures T.Run(km, s, a + b) == T.Run(km, T.Run(km, s, a), b)
  {
    if b == [] {
      assert a + b == a;
    } else {
      var n := |b| - 1;
      assert (a + b)[..|a + b| - 1] == a + b[..n] && (a + b)[|a + b| - 1] == b[n];
      TtyRunConcat(km, s, a, b[..n]);
    }
  }

  lemma {:induction false} CallRunConcat(k: K.Kernel, a: seq<K.Event>, b: seq<K.Event>)
    requires k.Shape() && k.top[0] != K.NONE && (forall x :: x in a ==> x.Valid()) && (forall x :: x in b ==> x.Valid())
    ensures S.Run(k, a + b) == S.Run(S.Run(k, a), b)
  {
    if b == [] {
      assert a + b == a;
    } else {
      var n := |b| - 1;
      assert (a + b)[..|a + b| - 1] == a + b[..n] && (a + b)[|a + b| - 1] == b[n];
      CallRunConcat(k, a, b[..n]);
    }
  }

  lemma TtyRunShort(km: T.Keymap, s: T.System, xs: seq<T.Event>)
    requires km.Valid() && s.Valid() && |xs| <= 1 && forall x :: x in xs ==> x.Valid()
    ensures T.Run(km, s, xs) == if xs == [] then s else T.Step(km, s, xs[0])
  {
    if xs != [] {
      assert xs[..0] == [];
      assert T.Run(km, s, xs[..0]) == s;
    }
  }

  lemma CallRunShort(k: K.Kernel, cs: seq<K.Event>)
    requires k.Shape() && k.top[0] != K.NONE && |cs| <= 1 && forall c :: c in cs ==> c.Valid()
    ensures S.Run(k, cs) == if cs == [] then k else K.Step(k, cs[0])
  {
    if cs != [] {
      assert cs[..0] == [];
      assert S.Run(k, cs[..0]) == k;
    }
  }

  /** The terminals' part of a step is a short run of the terminals. */
  lemma RequestsAreRun(km: T.Keymap, sys: T.System, d: seq<T.Event>, fx: seq<T.Event>)
    requires km.Valid() && sys.Valid() && |d| <= 1 && |fx| <= 1
    requires (forall x :: x in d ==> x.Valid()) && (forall x :: x in fx ==> x.Valid())
    ensures var mid := if d == [] then sys else T.Step(km, sys, d[0]);
            T.Run(km, sys, d + fx) == if fx == [] then mid else T.Step(km, mid, fx[0])
  {
    TtyRunConcat(km, sys, d, fx);
    TtyRunShort(km, sys, d);
    TtyRunShort(km, T.Run(km, sys, d), fx);
  }

  /** A step of the whole is a short run of the terminals and a short run of the processes. */
  lemma StepIsRuns(km: T.Keymap, st: State, e: Event)
    requires km.Valid() && st.Valid() && e.Valid()
    ensures Step(km, st, e).sys == T.Run(km, st.sys, Requests(st, e))
    ensures Step(km, st, e).k == S.Run(st.k, Calls(st.sys.ctl, e))
  {
    var cs := Calls(st.sys.ctl, e);
    CallRunShort(st.k, cs);
    RequestsAreRun(km, st.sys, Direct(e), if cs == [] then [] else Effects(st.k, cs[0]));
  }

  /** The two halves of a run of the whole are a run of the terminals and a run of the processes, so every
      theorem about either holds of it. */
  lemma {:induction false} Projections(km: T.Keymap, st: State, es: seq<Event>)
    requires km.Valid() && st.Valid() && forall e :: e in es ==> e.Valid()
    ensures Run(km, st, es).sys == T.Run(km, st.sys, AllRequests(km, st, es))
    ensures Run(km, st, es).k == S.Run(st.k, AllCalls(km, st, es))
  {
    if es != [] {
      var before, e := es[..|es| - 1], es[|es| - 1];
      Projections(km, st, before);
      var m := Run(km, st, before);
      StepIsRuns(km, m, e);
      TtyRunConcat(km, st.sys, AllRequests(km, st, before), Requests(m, e));
      CallRunConcat(st.k, AllCalls(km, st, before), Calls(m.sys.ctl, e));
    }
  }

  /** The call and its effect on the terminals set the active terminal alike, and leave the display to the key. */
  lemma EffectAgrees(k: K.Kernel, c: K.Event)
    requires k.Shape() && k.top[0] != K.NONE && c.Valid()
    ensures var fx := Effects(k, c);
            K.Step(k, c).active == if fx != [] && fx[0].Activate? then fx[0].t else k.active
    ensures K.Step(k, c).display == if c.SpawnOn? then c.t else if c.ShowFirst? then 0 else k.display
  {
    if c.HaltNow? && k.Cur().pid == k.Cur().ppid {
      assert !K.Retire(k).live[k.Cur().pid];
    }
  }

  lemma StepAgrees(km: T.Keymap, st: State, e: Event)
    requires km.Valid() && st.Valid() && e.Valid() && st.Agree()
    ensures Step(km, st, e).Agree()
  {
    var cs := Calls(st.sys.ctl, e);
    if cs != [] {
      EffectAgrees(st.k, cs[0]);
    }
  }

  /** The two copies of the displayed and the active terminal never part. */
  lemma {:induction false} RunAgrees(km: T.Keymap, st: State, es: seq<Event>)
    requires km.Valid() && st.Valid() && (forall e :: e in es ==> e.Valid()) && st.Agree()
    ensures Run(km, st, es).Agree()
  {
    if es != [] {
      RunAgrees(km, st, es[..|es| - 1]);
      StepAgrees(km, Run(km, st, es[..|es| - 1]), es[|es| - 1]);
    }
  }

  /** What an event does to terminal t, told by whose process is running and not by the active terminal. */
  function ProcessActs(km: T.Keymap, st: State, e: Event, t: nat): (r: seq<T.Act>)
    requires km.Valid() && st.Valid() && e.Valid() && t < 3
  {
    match e
    case Scan(code, stray) =>
      if t == st.k.display then T.KeyActs(km, T.Press(st.sys.ctl, code), code, stray) else []
    case Print(w) => if t == st.k.Cur().terminal then [T.Output(w)] else []
    case TakeLine => if t == st.k.Cur().terminal then [T.Taken] else []
    case Call(c) =>
      if c.Execute? && c.valid && K.GetPid(st.k.live) == -1 && t == st.k.Cur().terminal then [T.Output(TOO_MANY)]
      else []
  }

  /** A step that is sound for the processes. */
  predicate SoundStep(st: State, e: Event)
    requires st.Valid() && e.Valid()
  {
    var cs := Calls(st.sys.ctl, e); cs == [] || K.Sound(st.k, cs[0])
  }

  predicate SoundRun(km: T.Keymap, st: State, es: seq<Event>)
    requires km.Valid() && st.Valid() && forall e :: e in es ==> e.Valid()
  {
    es == [] || (SoundRun(km, st, es[..|es| - 1]) && SoundStep(Run(km, st, es[..|es| - 1]), es[|es| - 1]))
  }

  /** The copies agree and the processes form three stacks. */
  ghost predicate Coherent(st: State) { st.Valid() && st.Agree() && K.Structured(st.k) }

  lemma StepCoherent(km: T.Keymap, st: State, e: Event)
    requires km.Valid() && Coherent(st) && e.Valid() && SoundStep(st, e)
    ensures Coherent(Step(km, st, e))
  {
    StepAgrees(km, st, e);
    var cs := Calls(st.sys.ctl, e);
    if cs != [] {
      S.StepKeepsIffSound(st.k, cs[0]);
    }
  }

  lemma {:induction false} RunCoherent(km: T.Keymap, st: State, es: seq<Event>)
    requires km.Valid() && Coherent(st) && (forall e :: e in es ==> e.Valid()) && SoundRun(km, st, es)
    ensures Coherent(Run(km, st, es))
  {
    if es != [] {
      RunCoherent(km, st, es[..|es| - 1]);
      StepCoherent(km, Run(km, st, es[..|es| - 1]), es[|es| - 1]);
    }
  }

  lemma ProcessActsValid(km: T.Keymap, st: State, e: Event, t: nat)
    requires km.Valid() && st.Valid() && e.Valid() && t < 3
    ensures forall a :: a in ProcessActs(km, st, e, t) ==> T.ActValid(a)
  {
  }

  /** Program output goes to the terminal of the process that runs. */
  predicate Aligned(st: State)
    requires st.k.Shape()
  {
    st.Agree() && st.sys.ctl.active == st.k.Cur().terminal
  }

  lemma CoherentAligned(st: State)
    requires Coherent(st)
    ensures Aligned(st)
  {
    var stk :| K.Structure(st.k, stk);
  }

  lemma RunAligned(km: T.Keymap, st: State, es: seq<Event>)
    requires km.Valid() && Coherent(st) && (forall e :: e in es ==> e.Valid()) && SoundRun(km, st, es)
    ensures Aligned(Run(km, st, es))
  {
    RunCoherent(km, st, es);
    CoherentAligned(Run(km, st, es));
  }

  lemma {:induction false} ControlConcat(ctl: T.Control, a: seq<T.Event>, b: seq<T.Event>)
    requires ctl.Valid() && (forall x :: x in a ==> x.Valid()) && (forall x :: x in b ==> x.Valid())
    ensures T.ControlRun(ctl, a + b) == T.ControlRun(T.ControlRun(ctl, a), b)
  {
    if b == [] {
      assert a + b == a;
    } else {
      var n := |b| - 1;
      assert (a + b)[..|a + b| - 1] == a + b[..n] && (a + b)[|a + b| - 1] == b[n];
      ControlConcat(ctl, a, b[..n]);
    }
  }

  /** One more event at the end of a run. */
  lemma OwnSnoc(km: T.Keymap, ctl: T.Control, a: seq<T.Event>, x: T.Event, t: nat)
    requires km.Valid() && ctl.Valid() && t < 3 && (forall y :: y in a ==> y.Valid()) && x.Valid()
    ensures T.Own(km, ctl, a + [x], t) == T.Own(km, ctl, a, t) + T.ActsOn(km, T.ControlRun(ctl, a), x, t)
  {
    assert (a + [x])[..|a|] == a;
  }

  lemma {:induction false} OwnConcat(km: T.Keymap, ctl: T.Control, a: seq<T.Event>, b: seq<T.Event>, t: nat)
    requires km.Valid() && ctl.Valid() && t < 3
    requires (forall x :: x in a ==> x.Valid()) && (forall x :: x in b ==> x.Valid())
    ensures T.Own(km, ctl, a + b, t) == T.Own(km, ctl, a, t) + T.Own(km, T.ControlRun(ctl, a), b, t)
  {
    if b == [] {
      assert a + b == a;
    } else {
      var front, x := b[..|b| - 1], b[|b| - 1];
      OwnConcat(km, ctl, a, front, t);
      OwnSnoc(km, ctl, a + front, x, t);
      OwnSnoc(km, T.ControlRun(ctl, a), front, x, t);
      ControlConcat(ctl, a, front);
      Regroup(a, b);
      Assoc(T.Own(km, ctl, a, t), T.Own(km, T.ControlRun(ctl, a), front, t),
            T.ActsOn(km, T.ControlRun(ctl, a + front), x, t));
    }
  }

  lemma Regroup<X>(a: seq<X>, b: seq<X>)
    requires b != []
    ensures b == b[..|b| - 1] + [b[|b| - 1]] && a + b == (a + b[..|b| - 1]) + [b[|b| - 1]]
  {
  }

  lemma Assoc<X>(a: seq<X>, b: seq<X>, c: seq<X>)
    ensures (a + b) + c == a + (b + c)
  {
  }

  lemma OwnOne(km: T.Keymap, ctl: T.Control, x: T.Event, t: nat)
    requires km.Valid() && ctl.Valid() && t < 3 && x.Valid()
    ensures T.Own(km, ctl, [x], t) == T.ActsOn(km, ctl, x, t)
    ensures T.ControlRun(ctl, [x]) == T.ControlStep(ctl, x)
  {
    assert [x][..0] == [];
    assert T.Own(km, ctl, [], t) == [] && T.ControlRun(ctl, []) == ctl;
  }

  /** What a call asks of the terminals: nothing that shows, or its refusal on the active terminal. */
  lemma EffectActs(km: T.Keymap, ctl: T.Control, k: K.Kernel, c: K.Event, t: nat)
    requires km.Valid() && ctl.Valid() && k.Shape() && k.top[0] != K.NONE && c.Valid() && t < 3
    ensures T.Own(km, ctl, Effects(k, c), t) ==
            if c.Execute? && c.valid && K.GetPid(k.live) == -1 && t == ctl.active then [T.Output(TOO_MANY)] else []
  {
    var fx := Effects(k, c);
    if fx != [] {
      assert fx == [fx[0]];
      OwnOne(km, ctl, fx[0], t);
    }
  }

  /** The requests of one event are the acts of the processes and the keyboard. */
  lemma RequestsActs(km: T.Keymap, st: State, e: Event, t: nat)
    requires km.Valid() && st.Valid() && Aligned(st) && e.Valid() && t < 3
    ensures T.Own(km, st.sys.ctl, Requests(st, e), t) == ProcessActs(km, st, e, t)
  {
    var cs := Calls(st.sys.ctl, e);
    var d := Direct(e);
    var fx := if cs == [] then [] else Effects(st.k, cs[0]);
    OwnConcat(km, st.sys.ctl, d, fx, t);
    if cs != [] {
      EffectActs(km, T.ControlRun(st.sys.ctl, d), st.k, cs[0], t);
    }
    if d != [] {
      assert d == [d[0]];
      OwnOne(km, st.sys.ctl, d[0], t);
    }
  }

  /** The acts of a run that belong to the processes and the keyboard of terminal t. */
  function Own(km: T.Keymap, st: State, es: seq<Event>, t: nat): (r: seq<T.Act>)
    requires km.Valid() && st.Valid() && t < 3 && forall e :: e in es ==> e.Valid()
    ensures forall a :: a in r ==> T.ActValid(a)
  {
    if es == [] then []
    else
      var m := Run(km, st, es[..|es| - 1]);
      ProcessActsValid(km, m, es[|es| - 1], t);
      Own(km, st, es[..|es| - 1], t) + ProcessActs(km, m, es[|es| - 1], t)
  }

  lemma ControlOf(km: T.Keymap, st: State, es: seq<Event>)
    requires km.Valid() && st.Valid() && forall e :: e in es ==> e.Valid()
    ensures Run(km, st, es).sys.ctl == T.ControlRun(st.sys.ctl, AllRequests(km, st, es))
  {
    Projections(km, st, es);
    T.Independence(km, st.sys, AllRequests(km, st, es), 0);
  }

  /** In a sound run the acts that the globals direct to terminal t are those of its own processes and keys. */
  lemma {:induction false} SameOwn(km: T.Keymap, st: State, es: seq<Event>, t: nat)
    requires km.Valid() && Coherent(st) && t < 3 && (forall e :: e in es ==> e.Valid()) && SoundRun(km, st, es)
    ensures T.Own(km, st.sys.ctl, AllRequests(km, st, es), t) == Own(km, st, es, t)
  {
    if es != [] {
      var before, e := es[..|es| - 1], es[|es| - 1];
      SameOwn(km, st, before, t);
      ControlOf(km, st, before);
      RunAligned(km, st, before);
      var m := Run(km, st, before);
      RequestsActs(km, m, e, t);
      OwnConcat(km, st.sys.ctl, AllRequests(km, st, before), Requests(m, e), t);
    }
  }

  /** Terminal t of r is the replay of its own acts. */
  ghost predicate OwnAt(km: T.Keymap, st: State, es: seq<Event>, r: State, t: nat)
    requires km.Valid() && st.Valid() && r.Valid() && t < 3 && forall e :: e in es ==> e.Valid()
  {
    r.sys.ttys[t] == T.Replay(st.sys.ttys[t], Own(km, st, es, t))
  }

  /** Every process has its terminal to itself: after any sound run each terminal is what the keys typed while
      it was shown and the output and reads of its own stack of processes make of it, whatever the timer, the
      other terminals' processes and the display switches did in between. */
  lemma OwnTerminal(km: T.Keymap, st: State, es: seq<Event>, t: nat)
    requires km.Valid() && Coherent(st) && t < 3 && (forall e :: e in es ==> e.Valid()) && SoundRun(km, st, es)
    ensures OwnAt(km, st, es, Run(km, st, es), t)
  {
    Projections(km, st, es);
    T.Independence(km, st.sys, AllRequests(km, st, es), t);
    SameOwn(km, st, es, t);
  }

  lemma SoundRunOwn(km: T.Keymap, st: State, es: seq<Event>)
    requires km.Valid() && Coherent(st) && (forall e :: e in es ==> e.Valid()) && SoundRun(km, st, es)
    ensures Coherent(Run(km, st, es)) && forall t: nat :: t < 3 ==> OwnAt(km, st, es, Run(km, st, es), t)
  {
    RunCoherent(km, st, es);
    forall t: nat | t < 3 ensures OwnAt(km, st, es, Run(km, st, es), t) {
      OwnTerminal(km, st, es, t);
    }
  }

  /** The state in which the first shell starts. */
  lemma BootCoherent(sys: T.System)
    requires sys.Valid() && sys.ctl.display == 0 && sys.ctl.active == 0
    ensures Coherent(State(sys, K.Boot()))
  {
    S.BootStructured();
    S.BootFields();
  }
}
