/**
 * The keyboard driver over the console and the process code, running side by side:
 * the object that owns both takes exactly the steps of module Whole.
 */
module Integrated {
  import opened Bytes
  import opened Whole
  import T = Tty
  import K = Processes
  import Kb = Keyboard
  import M = Machine
  import CB = ControlBlock

  class System {
    const kb: Kb.Keyboard
    const mc: M.Machine

    ghost predicate Valid()
      reads this, kb, kb.con, kb.con.mem, mc, mc.dir
    {
      kb.Valid() && mc.Valid()
    }

    ghost function St(): State
      requires Valid()
      reads this, kb, kb.con, kb.con.mem, mc, mc.dir
    {
      State(kb.S(), mc.K())
    }

    constructor (kb: Kb.Keyboard, mc: M.Machine)
      requires kb.Valid() && mc.Valid()
      ensures Valid() && this.kb == kb && this.mc == mc
    {
      this.kb, this.mc := kb, mc;
    }

    /** What a call asks of the terminals, found out before it is made. */
    method Asks(c: K.Event) returns (r: seq<T.Event>)
      requires Valid() && c.Valid()
      ensures r == Effects(mc.K(), c)
    {
      r := [];
      var w := mc.pcb[mc.curr];
      assert CB.PcbOf(w) == mc.K().Cur();
      match c
      case Execute(valid) =>
        var pid := mc.GetFreePid();
        if valid {
          r := [if pid == -1 then T.Write(TOO_MANY) else T.Activate(w[CB.TERMINAL])];
        }
      case HaltNow =>
        if w[CB.PID] == w[CB.PPID] {
          r := [T.Activate(w[CB.TERMINAL])];
        }
      case TickNow =>
        var nxt := mc.FindNextTerminal(w[CB.TERMINAL]);
        assert CB.PcbOf(mc.pcb[mc.tCurr[nxt]]) == mc.K().pcb[mc.tCurr[nxt]];
        r := [T.Activate(mc.pcb[mc.tCurr[nxt]][CB.TERMINAL])];
      case SpawnOn(t) =>
        var pid := mc.GetFreePid();
        if !mc.started[t] && pid != -1 {
          r := [T.Activate(t)];
        }
      case _ =>
    }

    /** A call of the process code with its effect on the terminals. */
    method MakeCall(c: K.Event)
      requires Valid() && c.Valid()
      modifies kb, kb.con, kb.con.mem, mc, mc.dir
      ensures Valid() && St() == State(EffectStep(kb.km, old(kb.S()), old(mc.K()), [c]), K.Step(old(mc.K()), c))
    {
      var fx := Asks(c);
      mc.ServeOne(c);
      if fx != [] {
        kb.ServeOne(fx[0]);
      }
    }

    /** A scan code, with the call that Alt-Fn leads to. */
    method ServeScan(code: byte, stray: byte)
      requires Valid()
      modifies kb, kb.con, kb.con.mem, mc, mc.dir
      ensures Valid() && St() == Step(kb.km, old(St()), Scan(code, stray))
    {
      ghost var cs := Calls(kb.S().ctl, Scan(code, stray));
      kb.ServeOne(T.Key(code, stray));
      if code < T.KEYS && kb.pressed[T.LEFT_ALT] && T.F1 <= code <= T.F3 {
        var c := if code == T.F1 then K.ShowFirst else K.SpawnOn(code - T.F1);
        assert cs == [c];
        MakeCall(c);
      }
    }

    method ServeOne(e: Event)
      requires Valid() && e.Valid()
      modifies kb, kb.con, kb.con.mem, mc, mc.dir
      ensures Valid() && St() == Step(kb.km, old(St()), e)
    {
      match e
      case Scan(code, stray) =>
        ServeScan(code, stray);
      case Print(w) =>
        kb.ServeOne(T.Write(w));
      case TakeLine =>
        kb.ServeOne(T.Read);
      case Call(c) =>
        MakeCall(c);
    }

    /** Any run of events is a run of the model. */
    method ServeAll(es: seq<Event>)
      requires Valid() && forall e :: e in es ==> e.Valid()
      modifies kb, kb.con, kb.con.mem, mc, mc.dir
      ensures Valid() && St() == Run(kb.km, old(St()), es)
      decreases |es|
    {
      if es != [] {
        ServeAll(es[..|es| - 1]);
        ServeOne(es[|es| - 1]);
      }
    }

    /** Terminals and processes follow the model through any run, and a sound run from a coherent state leaves
        each terminal as its own processes and keys alone would. */
    method Serve(es: seq<Event>)
      requires Valid() && forall e :: e in es ==> e.Valid()
      modifies kb, kb.con, kb.con.mem, mc, mc.dir
      ensures Valid() && St() == Run(kb.km, old(St()), es)
      ensures old(Coherent(St())) && SoundRun(kb.km, old(St()), es) ==>
                Coherent(St()) && forall t: nat :: t < 3 ==> OwnAt(kb.km, old(St()), es, St(), t)
    {
      ghost var st := St();
      if Coherent(st) && SoundRun(kb.km, st, es) {
        SoundRunOwn(kb.km, st, es);
      }
      ServeAll(es);
    }
  }
}
