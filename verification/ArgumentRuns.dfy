/**
 * Whose arguments `getargs` returns (student-distrib/syscall.c). The argument buffer
 * and its size are one pair of globals for all processes, and every `verify_file`
 * overwrites them: that of a command that is then refused, that of another terminal,
 * and that of the shell started by Alt-Fn or by the respawn of a root.
 */
module ArgumentRuns {
  import opened Bytes
  import K = Processes
  import S = ProcessStacks
  import X = Executable
  import M = Machine
  import CB = ControlBlock

  /** "shell" */
  const SHELL: seq<byte> := [115, 104, 101, 108, 108]

  /** An execute with its command line and the verdict on it, or any other step of the process code. */
  datatype Event = Command(cmd: seq<byte>, valid: bool) | Other(e: K.Event)
  {
    predicate Valid() { Other? ==> e.Valid() && !e.Execute? }

    function Call(): K.Event { if Command? then K.Execute(valid) else e }
  }

  /** `text` is what the argument buffer holds; `own[p]` records what pid p was last started with. */
  datatype State = State(k: K.Kernel, text: seq<byte>, own: seq<seq<byte>>)
  {
    predicate Valid() { k.Shape() && k.top[0] != K.NONE && |own| == K.PROCS }
  }

  /** The command that a step hands to `verify_file`, if it does. */
  function Checked(k: K.Kernel, e: Event): Option<seq<byte>>
    requires k.Shape() && e.Valid()
  {
    match e
    case Command(cmd, _) => Some(cmd)
    case Other(HaltNow) => if k.Cur().pid == k.Cur().ppid then Some(SHELL) else None
    case Other(SpawnOn(t)) => if k.started[t] || K.GetPid(k.live) == -1 then None else Some(SHELL)
    case _ => None
  }

  /** The step starts a process: what was checked is valid and a pid is free. */
  predicate Starts(k: K.Kernel, e: Event)
    requires k.Shape() && e.Valid()
  {
    Checked(k, e).Some? && (e.Command? ==> e.valid && K.GetPid(k.live) != -1)
  }

  function Step(st: State, e: Event): (r: State)
    requires st.Valid() && e.Valid()
    ensures r.Valid()
  {
    var k := K.Step(st.k, e.Call());
    var text := if Checked(st.k, e).Some? then X.ArgText(Checked(st.k, e).value) else st.text;
    State(k, text, if Starts(st.k, e) then st.own[k.curr := text] else st.own)
  }

  function Run(st: State, es: seq<Event>): (r: State)
    requires st.Valid() && forall e :: e in es ==> e.Valid()
    ensures r.Valid()
  {
    if es == [] then st else Step(Run(st, es[..|es| - 1]), es[|es| - 1])
  }

  /** The text left by the last `verify_file` of a run, if there was one. */
  function LastText(st: State, es: seq<Event>): Option<seq<byte>>
    requires st.Valid() && forall e :: e in es ==> e.Valid()
  {
    if es == [] then None
    else
      var c := Checked(Run(st, es[..|es| - 1]).k, es[|es| - 1]);
      if c.Some? then Some(X.ArgText(c.value)) else LastText(st, es[..|es| - 1])
  }

  /** No step of the run starts a process under pid p. */
  predicate NotRestarted(st: State, es: seq<Event>, p: int)
    requires st.Valid() && forall e :: e in es ==> e.Valid()
  {
    es == [] ||
    (&& NotRestarted(st, es[..|es| - 1], p)
     && (Starts(Run(st, es[..|es| - 1]).k, es[|es| - 1]) ==> Run(st, es).k.curr != p))
  }

  /** A step that starts a process leaves it running, under the pid that was free. */
  lemma StartedRuns(k: K.Kernel, e: Event)
    requires k.Shape() && k.top[0] != K.NONE && e.Valid() && Starts(k, e)
    ensures var n := K.Step(k, e.Call()); n.live[n.curr] && n.Cur().pid == n.curr
    ensures !e.Call().HaltNow? ==> K.Step(k, e.Call()).curr == K.GetPid(k.live)
  {
    if e.Call().HaltNow? {
      assert !K.Retire(k).live[k.Cur().pid];
    }
  }

  /** The globals forget everything but the last check. */
  lemma {:induction false} TextOfRun(st: State, es: seq<Event>)
    requires st.Valid() && forall e :: e in es ==> e.Valid()
    ensures Run(st, es).text == if LastText(st, es).Some? then LastText(st, es).value else st.text
  {
    if es != [] {
      TextOfRun(st, es[..|es| - 1]);
    }
  }

  lemma {:induction false} OwnKept(st: State, es: seq<Event>, p: int)
    requires st.Valid() && (forall e :: e in es ==> e.Valid()) && 0 <= p < K.PROCS && NotRestarted(st, es, p)
    ensures Run(st, es).own[p] == st.own[p]
  {
    if es != [] {
      OwnKept(st, es[..|es| - 1], p);
    }
  }

  /** A process started by e, at any later point before its pid is started again, is handed the arguments it was
      started with if and only if no command was checked since, or the last one checked has the same text. */
  lemma OwnArgsIff(st: State, e: Event, es: seq<Event>)
    requires st.Valid() && e.Valid() && (forall x :: x in es ==> x.Valid()) && Starts(st.k, e)
    requires NotRestarted(Step(st, e), es, Step(st, e).k.curr)
    ensures var m := Step(st, e);
            var r, p, own := Run(m, es), m.k.curr, X.ArgText(Checked(st.k, e).value);
            && r.own[p] == own
            && (r.text == own <==> LastText(m, es).None? || LastText(m, es).value == own)
  {
    OwnKept(Step(st, e), es, Step(st, e).k.curr);
    TextOfRun(Step(st, e), es);
  }

  lemma ShellHasNoArgs()
    ensures X.ArgText(SHELL) == []
  {
    assert X.NameLength(SHELL) == |SHELL|;
  }

  lemma RunThree(st: State, x: Event, y: Event, z: Event)
    requires st.Valid() && x.Valid() && y.Valid() && z.Valid()
    ensures Run(st, [x, y, z]) == Step(Step(Step(st, x), y), z)
  {
    var es := [x, y, z];
    assert es[..2] == [x, y] && [x, y][..1] == [x] && [x][..0] == [];
    assert Run(st, [x]) == Step(Run(st, []), x);
    assert Run(st, [x, y]) == Step(Run(st, [x]), y);
  }

  lemma LostSteps(st: State, cmd: seq<byte>)
    requires st.Valid() && st.k == K.Boot()
    ensures var b := Step(Step(st, Command(cmd, true)), Other(K.SpawnOn(1)));
            S.Spawned(b.k) && b.own[1] == X.ArgText(cmd) && b.text == []
  {
    S.BootFields();
    S.AfterSpawn();
    ShellHasNoArgs();
    var a := Step(st, Command(cmd, true));
    assert a.k.curr == 1 && a.k.live == [true, true, false, false, false, false] && !a.k.started[1];
  }

  lemma TickBack(b: State)
    requires b.Valid() && S.Spawned(b.k)
    ensures var c := Step(b, Other(K.TickNow)); c.k.curr == 1 && c.own == b.own && c.text == b.text
  {
  }

  /** Losing them is reachable: a program started with arguments on terminal 0, the first Alt-F2, and the tick
      that brings the program back. It runs, its arguments were not empty, and the buffer is. */
  lemma ArgsLostReachable(st: State, cmd: seq<byte>) returns (es: seq<Event>)
    requires st.Valid() && st.k == K.Boot() && X.ArgText(cmd) != []
    ensures es == [Command(cmd, true), Other(K.SpawnOn(1)), Other(K.TickNow)] && forall e :: e in es ==> e.Valid()
    ensures var r := Run(st, es); r.k.curr == 1 && r.own[1] == X.ArgText(cmd) != r.text == []
  {
    LostSteps(st, cmd);
    TickBack(Step(Step(st, Command(cmd, true)), Other(K.SpawnOn(1))));
    RunThree(st, Command(cmd, true), Other(K.SpawnOn(1)), Other(K.TickNow));
    es := [Command(cmd, true), Other(K.SpawnOn(1)), Other(K.TickNow)];
  }

  /** Losing them to a refused command: a program started with arguments tries to execute something that is no
      program. It still runs, nothing was started, and the buffer holds the refused command's text. */
  lemma ArgsLostByRefused(st: State, cmd: seq<byte>, bad: seq<byte>)
    requires st.Valid() && st.k == K.Boot() && X.ArgText(bad) != X.ArgText(cmd)
    ensures var a := Step(st, Command(cmd, true));
            var r := Step(a, Command(bad, false));
            r.k == a.k && r.k.curr == 1 && r.own[1] == X.ArgText(cmd) != r.text == X.ArgText(bad)
  {
    S.BootFields();
    var a := Step(st, Command(cmd, true));
    assert a.k.curr == 1;
  }

  /** Every shell that the kernel starts on its own empties the buffer: the first Alt-Fn on a terminal, and the
      respawn of a halted root. */
  lemma NewShellEmpties(st: State, e: Event)
    requires st.Valid() && e.Valid() && e.Other?
    requires || (e.e.SpawnOn? && K.Step(st.k, e.e).live != st.k.live)
             || (e.e.HaltNow? && st.k.Cur().pid == st.k.Cur().ppid)
    ensures Step(st, e).text == []
  {
    ShellHasNoArgs();
  }

  /** A command whose parts fit the buffers. */
  predicate Parsable(e: Event) { e.Command? ==> NUL !in e.cmd && X.Fits(e.cmd) }

  /** The process code with the two globals. */
  class Session {
    const mc: M.Machine
    const inFile: array<byte>
    const argBuf: array<byte>
    var argSize: nat
    ghost var own: seq<seq<byte>>

    ghost predicate Valid()
      reads this, mc, mc.dir, argBuf
    {
      && mc.Valid() && |own| == K.PROCS && inFile != argBuf
      && inFile.Length == argBuf.Length == X.CMD_LIMIT && argSize <= X.CMD_LIMIT
      && argBuf[..] == Padded(argBuf[..argSize], X.CMD_LIMIT) && NUL !in argBuf[..argSize]
    }

    ghost function St(): (st: State)
      requires Valid()
      reads this, mc, mc.dir, argBuf
      ensures st.Valid()
    {
      State(mc.K(), argBuf[..argSize], own)
    }

    constructor (mc: M.Machine)
      requires mc.Valid()
      ensures Valid() && this.mc == mc && St().k == mc.K() && St().text == [] && fresh(inFile) && fresh(argBuf)
    {
      this.mc := mc;
      inFile := new byte[X.CMD_LIMIT](_ => NUL);
      argBuf := new byte[X.CMD_LIMIT](_ => NUL);
      argSize, own := 0, seq(K.PROCS, _ => []);
    }

    /** `verify_file` as far as the globals go. */
    method CheckText(cmd: seq<byte>)
      requires Valid() && NUL !in cmd && X.Fits(cmd)
      modifies this`argSize, inFile, argBuf
      ensures Valid() && St() == old(St()).(text := X.ArgText(cmd))
    {
      argSize := X.ParseCommand(cmd, inFile, argBuf);
      X.TextWithoutNul(cmd, X.NameLength(cmd));
    }

    /** Whether the step that is due hands "shell" to `verify_file`. */
    method ChecksShell(e: K.Event) returns (b: bool)
      requires Valid() && Other(e).Valid()
      ensures b <==> Checked(mc.K(), Other(e)).Some?
    {
      var w := mc.pcb[mc.curr];
      assert CB.PcbOf(w) == mc.K().Cur();
      match e
      case HaltNow =>
        b := w[CB.PID] == w[CB.PPID];
      case SpawnOn(t) =>
        var pid := mc.GetFreePid();
        b := !mc.started[t] && pid != -1;
      case _ =>
        b := false;
    }

    method ServeOther(e: K.Event)
      requires Valid() && Other(e).Valid()
      modifies this, inFile, argBuf, mc, mc.dir
      ensures Valid() && St() == Step(old(St()), Other(e))
    {
      var shell := ChecksShell(e);
      if shell {
        ShellHasNoArgs();
        CheckText(SHELL);
      }
      mc.ServeOne(e);
      if shell {
        own := own[mc.curr := []];
      }
    }

    /** An execute of the running process, with the verdict on its command. */
    method ServeCommand(cmd: seq<byte>, valid: bool)
      requires Valid() && NUL !in cmd && X.Fits(cmd)
      modifies this, inFile, argBuf, mc, mc.dir
      ensures Valid() && St() == Step(old(St()), Command(cmd, valid))
    {
      CheckText(cmd);
      var pid := mc.GetFreePid();
      mc.ServeOne(K.Execute(valid));
      if valid && pid != -1 {
        own := own[mc.curr := X.ArgText(cmd)];
      }
    }

    method Serve(es: seq<Event>)
      requires Valid() && forall e :: e in es ==> e.Valid() && Parsable(e)
      modifies this, inFile, argBuf, mc, mc.dir
      ensures Valid() && St() == Run(old(St()), es)
      decreases |es|
    {
      if es != [] {
        var e := es[|es| - 1];
        assert e in es && e.Valid() && Parsable(e);
        Serve(es[..|es| - 1]);
        ServeOne(e);
      }
    }

    method ServeOne(e: Event)
      requires Valid() && e.Valid() && Parsable(e)
      modifies this, inFile, argBuf, mc, mc.dir
      ensures Valid() && St() == Step(old(St()), e)
    {
      match e
      case Command(cmd, valid) => ServeCommand(cmd, valid);
      case Other(c) => ServeOther(c);
    }

    /** A program is started, anything happens that does not start its pid again, and `getargs` is called: what
        comes back is the arguments the program was started with if and only if no command was checked since
        or the last one checked has the same text. */
    method StartServeGetargs(cmd: seq<byte>, es: seq<Event>, mem: array<byte>, at: nat) returns (r: int)
      requires Valid() && Parsable(Command(cmd, true)) && Starts(mc.K(), Command(cmd, true))
      requires forall e :: e in es ==> e.Valid() && Parsable(e)
      requires var m := Step(St(), Command(cmd, true));
               && NotRestarted(m, es, m.k.curr)
               && |Run(m, es).text| < X.CMD_LIMIT && at + |Run(m, es).text| < mem.Length
      requires mem != argBuf && mem != inFile && NUL in mem[at..]
      modifies this, inFile, argBuf, mc, mc.dir, mem
      ensures Valid() && St() == Run(Step(old(St()), Command(cmd, true)), es)
      ensures var last := LastText(Step(old(St()), Command(cmd, true)), es);
              (if r == 0 then CString(mem[at..]) else []) == X.ArgText(cmd)
              <==> last.None? || last.value == X.ArgText(cmd)
    {
      OwnArgsIff(St(), Command(cmd, true), es);
      ServeCommand(cmd, true);
      Serve(es);
      r := Getargs(mem, at);
    }

    /** `getargs` of the running process: it is handed the text of the last check, whoever made it. */
    method Getargs(mem: array<byte>, at: nat) returns (r: int)
      requires Valid() && mem != argBuf && |St().text| < X.CMD_LIMIT
      requires at + |St().text| < mem.Length && NUL in mem[at..]
      modifies mem
      ensures Valid() && St() == old(St())
      ensures St().text == [] ==> r == -1 && mem[..] == old(mem[..])
      ensures St().text != [] ==> r == 0 && mem[..] == X.Gotten(old(mem[..]), at, St().text)
      ensures St().text != [] ==> CString(mem[at..]) == St().text
    {
      X.ScannedTextIff(argBuf[..argSize], []);
      assert argBuf[..] == Padded(argBuf[..argSize], X.CMD_LIMIT) + [];
      assert argBuf[argSize] == NUL;
      r := X.Getargs(argBuf, argSize, mem, at);
    }
  }
}
