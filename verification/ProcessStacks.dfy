/** Whole-run theorems about processes: the three stacks, and exactly when a step keeps them. */
module ProcessStacks {
  import opened Bytes
  import opened Processes
  import D = Descriptors
  import FS = FileSystem
  import P = Paging

  /** A stack depends only on the blocks of its own processes and on its own top. */
  lemma StackFrame(k: Kernel, n: Kernel, t: int, s: seq<int>)
    requires k.Shape() && n.Shape() && 0 <= t < TERMS && Stack(k, t, s)
    requires n.top[t] == k.top[t]
    requires forall i :: 0 <= i < |s| ==> n.live[s[i]] && n.pcb[s[i]].pid == s[i]
                                          && n.pcb[s[i]].ppid == k.pcb[s[i]].ppid && n.pcb[s[i]].terminal == t
    ensures Stack(n, t, s)
  {
  }

  lemma StackOf(k: Kernel, stk: seq<seq<int>>, t: int)
    requires k.Shape() && Forest(k, stk) && 0 <= t < TERMS
    ensures Stack(k, t, stk[t])
  {
  }

  /** The running process is the last element of its stack. */
  lemma RunningIsTop(k: Kernel, stk: seq<seq<int>>)
    requires k.Shape() && Forest(k, stk) && Context(k)
    ensures var s := stk[k.Cur().terminal];
            && s != [] && s[|s| - 1] == k.curr && k.Cur().pid == k.curr
            && k.Cur().ppid == (if |s| == 1 then k.curr else s[|s| - 2])
            && (k.Cur().ppid == k.curr <==> |s| == 1)
  {
    StackOf(k, stk, k.Cur().terminal);
  }

  /** A live process q placed on top of the stack of terminal t. */
  predicate Pushed(k: Kernel, n: Kernel, t: int, q: int)
    requires k.Shape() && n.Shape() && 0 <= t < TERMS && 0 <= q < PROCS
  {
    && n.live == k.live[q := true] && n.top == k.top[t := q]
    && (forall p :: 0 <= p < PROCS && p != q ==> n.pcb[p] == k.pcb[p])
    && n.pcb[q].pid == q && n.pcb[q].terminal == t
    && n.pcb[q].ppid == if k.top[t] == NONE then q else k.top[t]
  }

  lemma StackPush(k: Kernel, n: Kernel, t: int, q: int, s: seq<int>)
    requires k.Shape() && n.Shape() && 0 <= t < TERMS && 0 <= q < PROCS && !k.live[q]
    requires Pushed(k, n, t, q) && Stack(k, t, s)
    ensures Stack(n, t, s + [q])
  {
    var r := s + [q];
    assert forall i :: 0 <= i < |s| ==> r[i] == s[i] && r[i] != q;
  }

  lemma ForestPushed(k: Kernel, n: Kernel, stk: seq<seq<int>>, t: int, q: int)
    requires k.Shape() && n.Shape() && 0 <= t < TERMS && 0 <= q < PROCS && !k.live[q]
    requires Forest(k, stk) && Pushed(k, n, t, q)
    ensures Forest(n, stk[t := stk[t] + [q]])
  {
    var out := stk[t := stk[t] + [q]];
    forall u | 0 <= u < TERMS ensures Stack(n, u, out[u]) {
      StackOf(k, stk, u);
      if u == t {
        StackPush(k, n, t, q, stk[t]);
      } else {
        StackFrame(k, n, u, stk[u]);
      }
    }
    forall p | 0 <= p < PROCS ensures OnStack(n, out, p) {
      assert OnStack(k, stk, p);
      assert stk[t] <= out[t] && q in out[t];
    }
  }

  lemma ForestPush(k: Kernel, stk: seq<seq<int>>, t: int)
    requires k.Shape() && Forest(k, stk) && Context(k) && 0 <= t < TERMS && GetPid(k.live) != -1
    requires t == k.Cur().terminal || stk[t] == []
    ensures Forest(ExecuteOn(k, t, true), stk[t := stk[t] + [GetPid(k.live)]])
  {
    RunningIsTop(k, stk);
    StackOf(k, stk, t);
    ForestPushed(k, ExecuteOn(k, t, true), stk, t, GetPid(k.live));
  }

  lemma FdsOkPush(k: Kernel, t: int)
    requires k.Shape() && FdsOk(k) && 0 <= t < TERMS && GetPid(k.live) != -1
    ensures FdsOk(ExecuteOn(k, t, true))
  {
    var q := GetPid(k.live);
    D.InitLive(k.pcb[q].fds);
  }

  /** A process started in a structured state has exactly descriptors 0 and 1 open in both records, whoever
      used its pid before. */
  lemma NewProcessFds(k: Kernel, t: int)
    requires Structured(k) && 0 <= t < TERMS && GetPid(k.live) != -1
    ensures var f := ExecuteOn(k, t, true).Cur().fds;
            && f.Live() && f.file[0].handlers == D.Stdin && f.file[1].handlers == D.Stdout
            && forall i :: D.MIN_FILES <= i < D.FDS ==> !f.file[i].flag && !f.bitmap[i]
  {
    var stk :| Structure(k, stk);
    D.InitLive(k.pcb[GetPid(k.live)].fds);
  }

  lemma ContextPush(k: Kernel, t: int)
    requires k.Shape() && Context(k) && 0 <= t < TERMS && GetPid(k.live) != -1
    ensures Context(ExecuteOn(k, t, true))
  {
    P.MapPidOk(k.tables, k.curr, GetPid(k.live));
  }

  lemma ExecuteKeeps(k: Kernel, stk: seq<seq<int>>, valid: bool) returns (out: seq<seq<int>>)
    requires Structure(k, stk)
    ensures out == (if !valid || GetPid(k.live) == -1 then stk
                    else var t := k.Cur().terminal; stk[t := stk[t] + [GetPid(k.live)]])
    ensures Structure(ExecuteOn(k, k.Cur().terminal, valid), out)
  {
    var t := k.Cur().terminal;
    if !valid || GetPid(k.live) == -1 {
      out := stk;
    } else {
      RunningIsTop(k, stk);
      ForestPush(k, stk, t);
      FdsOkPush(k, t);
      ContextPush(k, t);
      out := stk[t := stk[t] + [GetPid(k.live)]];
    }
  }

  lemma SpawnKeeps(k: Kernel, stk: seq<seq<int>>, t: int) returns (out: seq<seq<int>>)
    requires Structure(k, stk) && 0 < t < TERMS
    ensures out == if k.started[t] || GetPid(k.live) == -1 then stk else stk[t := [GetPid(k.live)]]
    ensures Structure(Spawn(k, t), out)
  {
    if k.started[t] || GetPid(k.live) == -1 {
      out := stk;
      ForestSame(k, k.(display := t), stk);
    } else {
      var m := k.(display := t, started := k.started[t := true]);
      ForestSame(k, m, stk);
      assert stk[t] == [] by { assert t == 1 || t == 2; }
      ForestPush(m, stk, t);
      FdsOkPush(m, t);
      ContextPush(m, t);
      out := stk[t := stk[t] + [GetPid(k.live)]];
      assert stk[t] + [GetPid(k.live)] == [GetPid(k.live)];
    }
  }

  /** Steps that leave the blocks' links alone leave the forest alone. */
  lemma ForestSame(k: Kernel, n: Kernel, stk: seq<seq<int>>)
    requires k.Shape() && n.Shape() && Forest(k, stk) && n.live == k.live && n.top == k.top
    requires forall p :: 0 <= p < PROCS ==>
               n.pcb[p].pid == k.pcb[p].pid && n.pcb[p].ppid == k.pcb[p].ppid && n.pcb[p].terminal == k.pcb[p].terminal
    ensures Forest(n, stk)
  {
    forall t | 0 <= t < TERMS ensures Stack(n, t, stk[t]) {
      StackOf(k, stk, t);
      StackFrame(k, n, t, stk[t]);
    }
    forall p | 0 <= p < PROCS ensures OnStack(n, stk, p) {
      assert OnStack(k, stk, p);
    }
  }

  lemma FdsOkRetire(k: Kernel)
    requires k.Shape() && FdsOk(k) && k.live[k.curr] && k.Cur().pid == k.curr
    ensures FdsOk(Retire(k))
  {
    D.HaltThenReuse(k.Cur().fds);
  }

  /** The top process q of terminal t gone, its parent on top. */
  predicate Popped(k: Kernel, n: Kernel, t: int, q: int)
    requires k.Shape() && n.Shape() && 0 <= t < TERMS && 0 <= q < PROCS
  {
    && n.live == k.live[q := false] && n.top == k.top[t := k.pcb[q].ppid]
    && forall p :: 0 <= p < PROCS && p != q ==> n.pcb[p] == k.pcb[p]
  }

  lemma StackPop(k: Kernel, n: Kernel, t: int, s: seq<int>)
    requires k.Shape() && n.Shape() && 0 <= t < TERMS && |s| >= 2 && Stack(k, t, s) && Popped(k, n, t, s[|s| - 1])
    ensures Stack(n, t, s[..|s| - 1])
  {
    var below := s[..|s| - 1];
    assert forall i :: 0 <= i < |below| ==> below[i] == s[i] && below[i] != s[|s| - 1];
  }

  lemma BelowTop(s: seq<int>, p: int)
    requires s != [] && p in s && p != s[|s| - 1]
    ensures p in s[..|s| - 1]
  {
    var i :| 0 <= i < |s| && s[i] == p;
    assert s[..|s| - 1][i] == p;
  }

  lemma ForestPopped(k: Kernel, n: Kernel, stk: seq<seq<int>>, t: int)
    requires k.Shape() && n.Shape() && Forest(k, stk) && 0 <= t < TERMS && |stk[t]| >= 2
    requires 0 <= k.top[t] && Popped(k, n, t, k.top[t])
    ensures Forest(n, stk[t := stk[t][..|stk[t]| - 1]])
  {
    var s := stk[t];
    var out := stk[t := s[..|s| - 1]];
    StackOf(k, stk, t);
    forall u | 0 <= u < TERMS ensures Stack(n, u, out[u]) {
      StackOf(k, stk, u);
      if u == t {
        StackPop(k, n, t, s);
      } else {
        StackFrame(k, n, u, stk[u]);
      }
    }
    forall p | 0 <= p < PROCS ensures OnStack(n, out, p) {
      assert OnStack(k, stk, p);
      if n.live[p] && k.pcb[p].terminal == t {
        BelowTop(s, p);
      }
    }
  }

  lemma HaltPops(k: Kernel, stk: seq<seq<int>>) returns (out: seq<seq<int>>)
    requires Structure(k, stk) && k.Cur().ppid != k.curr
    ensures var t := k.Cur().terminal; |stk[t]| > 1 && out == stk[t := stk[t][..|stk[t]| - 1]]
    ensures Structure(Halt(k), out)
  {
    var t := k.Cur().terminal;
    var n := Halt(k);
    RunningIsTop(k, stk);
    StackOf(k, stk, t);
    ForestPopped(k, n, stk, t);
    FdsOkRetire(k);
    P.MapPidOk(k.tables, k.curr, k.Cur().ppid);
    out := stk[t := stk[t][..|stk[t]| - 1]];
    ContextPopped(k, n, stk, t);
  }

  lemma ContextPopped(k: Kernel, n: Kernel, stk: seq<seq<int>>, t: int)
    requires Structure(k, stk) && k.Cur().ppid != k.curr && n == Halt(k) && t == k.Cur().terminal
    ensures Context(n)
  {
    RunningIsTop(k, stk);
    StackOf(k, stk, t);
    var below := stk[t][|stk[t]| - 2];
    assert n.curr == below && k.pcb[below].pid == below && n.pcb[below] == k.pcb[below];
    P.MapPidOk(k.tables, k.curr, below);
  }

  /** What the respawn of a root writes: the new process gets the least pid now free, and its parent
      is the retired root, by pid. */
  lemma RespawnFields(k: Kernel)
    requires k.Shape() && k.live[k.curr] && k.Cur().pid == k.Cur().ppid == k.curr
    ensures var q, n := GetPid(k.live[k.curr := false]), Halt(k);
            && 0 <= q <= k.curr && n.live == k.live[k.curr := false][q := true]
            && n.top == k.top[k.Cur().terminal := q] && n.curr == q && n.active == k.Cur().terminal
            && n.started == k.started && n.tables == P.MapPid(k.tables, q)
            && n.pcb[q].pid == q && n.pcb[q].ppid == k.curr && n.pcb[q].terminal == k.Cur().terminal
            && (forall p :: 0 <= p < PROCS && p != q && p != k.curr ==> n.pcb[p] == k.pcb[p])
  {
    var m := Retire(k);
    assert m.live == k.live[k.curr := false];
    assert m.top[k.Cur().terminal] == k.curr;
  }

  /** A root that halts while every lower pid is taken gets its own pid back: nothing moves. */
  lemma RootRespawnKeeps(k: Kernel, stk: seq<seq<int>>)
    requires Structure(k, stk) && k.Cur().ppid == k.curr
    requires forall p :: 0 <= p < k.curr ==> k.live[p]
    ensures Structure(Halt(k), stk)
  {
    RunningIsTop(k, stk);
    RespawnFields(k);
    var n := Halt(k);
    assert n.live == k.live && n.top == k.top;
    ForestSame(k, n, stk);
    P.MapPidOk(k.tables, k.curr, k.curr);
    FdsOkRespawn(k);
  }

  lemma FdsOkRespawn(k: Kernel)
    requires k.Shape() && FdsOk(k) && k.live[k.curr] && k.Cur().pid == k.Cur().ppid == k.curr
    ensures FdsOk(Halt(k))
  {
    FdsOkRetire(k);
    FdsOkPush(Retire(k), k.Cur().terminal);
  }

  /** A root that halts while a lower pid is free is replaced by a process whose parent is dead. */
  lemma RootRespawnOrphans(k: Kernel, p: int)
    requires k.Shape() && k.live[k.curr] && k.Cur().pid == k.Cur().ppid == k.curr
    requires 0 <= p < k.curr && !k.live[p]
    ensures var n := Halt(k); n.live[n.curr] && n.Cur().ppid == k.curr != n.curr && !n.live[k.curr]
  {
    RespawnFields(k);
    assert GetPid(k.live[k.curr := false]) <= p;
  }

  lemma OrphanBreaks(k: Kernel)
    requires k.Shape() && !k.live[k.Cur().ppid]
    ensures !Structured(k)
  {
    if Structured(k) {
      var stk :| Structure(k, stk);
      OrphanFree(k, stk);
    }
  }

  /** In a structured state the parent of the running process is live. */
  lemma OrphanFree(k: Kernel, stk: seq<seq<int>>)
    requires Structure(k, stk)
    ensures k.live[k.Cur().ppid]
  {
    RunningIsTop(k, stk);
    StackOf(k, stk, k.Cur().terminal);
  }

  lemma TickKeeps(k: Kernel, stk: seq<seq<int>>)
    requires Structure(k, stk)
    ensures Structure(Tick(k), stk)
  {
    var u := NextTerminal(Occupied(k.top), k.Cur().terminal);
    StackOf(k, stk, u);
    assert k.top[0] != NONE;
    assert k.top[u] != NONE;
    var n := Tick(k);
    P.MapPidOk(k.tables, k.curr, n.curr);
    P.MapVideoOk(P.MapPid(k.tables, n.curr), n.curr, n.active, k.display);
    ForestSame(k, n, stk);
  }

  /** Descriptor calls touch the running process's table and nothing else. */
  lemma FdsKeep(k: Kernel, stk: seq<seq<int>>, fds: D.Table)
    requires Structure(k, stk) && fds.Shape()
    ensures Structure(WithFds(k, fds), stk) <==> fds.Live()
    ensures Structured(WithFds(k, fds)) ==> fds.Live()
  {
    var n := WithFds(k, fds);
    ForestSame(k, n, stk);
    assert FdsOk(n) ==> n.pcb[k.curr].fds.Live();
  }

  lemma ReadLive(t: D.Table, fd: int, count: int)
    requires t.Shape() && t.Live()
    ensures D.Read(t, fd, count).0.Live()
  {
  }

  /** A halt keeps the structure exactly when it is sound. */
  lemma HaltKeepsIffSound(k: Kernel, stk: seq<seq<int>>)
    requires Structure(k, stk)
    ensures Structured(Halt(k)) <==> Sound(k, HaltNow)
  {
    if k.Cur().ppid != k.curr {
      var out := HaltPops(k, stk);
    } else if forall p :: 0 <= p < k.curr ==> k.live[p] {
      RootRespawnKeeps(k, stk);
    } else {
      var p :| 0 <= p < k.curr && !k.live[p];
      RunningIsTop(k, stk);
      RootRespawnOrphans(k, p);
      OrphanBreaks(Halt(k));
    }
  }

  /** So does a descriptor call. */
  lemma FdCallKeepsIffSound(k: Kernel, stk: seq<seq<int>>, e: Event)
    requires Structure(k, stk) && k.top[0] != NONE && (e.OpenFile? || e.CloseFile? || e.ReadFile?)
    ensures Structured(Step(k, e)) <==> Sound(k, e)
  {
    match e
    case OpenFile(d) =>
      if d.Some? {
        D.OpenTakesLeast(k.Cur().fds, d.value);
      }
      FdsKeep(k, stk, D.Open(k.Cur().fds, d).0);
    case CloseFile(fd) =>
      D.CloseAgreesIff(k.Cur().fds, fd);
      FdsKeep(k, stk, D.Close(k.Cur().fds, fd).0);
    case ReadFile(fd, count) =>
      ReadLive(k.Cur().fds, fd, count);
      FdsKeep(k, stk, D.Read(k.Cur().fds, fd, count).0);
  }

  /** Exactly the sound steps keep the structure. */
  lemma StepKeepsIffSound(k: Kernel, e: Event)
    requires Structured(k) && k.top[0] != NONE && e.Valid()
    ensures Structured(Step(k, e)) <==> Sound(k, e)
  {
    var stk :| Structure(k, stk);
    match e
    case Execute(valid) =>
      var out := ExecuteKeeps(k, stk, valid);
    case HaltNow =>
      HaltKeepsIffSound(k, stk);
    case TickNow =>
      TickKeeps(k, stk);
    case SpawnOn(t) =>
      var out := SpawnKeeps(k, stk, t);
    case ShowFirst =>
      ForestSame(k, k.(display := 0), stk);
      assert Structure(Step(k, e), stk);
    case Vidmap =>
      P.MapVideoOk(k.tables, k.curr, k.display, k.display);
      ForestSame(k, Step(k, e), stk);
      assert Structure(Step(k, e), stk);
    case _ =>
      FdCallKeepsIffSound(k, stk, e);
  }

  function Run(k: Kernel, es: seq<Event>): (r: Kernel)
    requires k.Shape() && k.top[0] != NONE && forall e :: e in es ==> e.Valid()
    ensures r.Shape() && r.top[0] != NONE
  {
    if es == [] then k else Step(Run(k, es[..|es| - 1]), es[|es| - 1])
  }

  /** Every step of the run is sound in the state it is taken in. */
  predicate SoundRun(k: Kernel, es: seq<Event>)
    requires k.Shape() && k.top[0] != NONE && forall e :: e in es ==> e.Valid()
  {
    es == [] || (SoundRun(k, es[..|es| - 1]) && Sound(Run(k, es[..|es| - 1]), es[|es| - 1]))
  }

  lemma {:induction false} RunKeeps(k: Kernel, es: seq<Event>)
    requires Structured(k) && k.top[0] != NONE && (forall e :: e in es ==> e.Valid()) && SoundRun(k, es)
    ensures Structured(Run(k, es))
  {
    if es != [] {
      RunKeeps(k, es[..|es| - 1]);
      StepKeepsIffSound(Run(k, es[..|es| - 1]), es[|es| - 1]);
    }
  }

  lemma BootFields()
    ensures var k := Boot();
            && k.live == [true, false, false, false, false, false] && k.top == [0, NONE, NONE]
            && k.curr == 0 && k.active == 0 && k.started == [true, false, false]
            && k.pcb[0].pid == 0 && k.pcb[0].ppid == 0 && k.pcb[0].terminal == 0
            && k.tables == P.MapPid(P.Initial(), 0)
  {
  }

  lemma BootFds()
    ensures FdsOk(Boot())
  {
    BootFields();
    var none := D.Table(seq(D.FDS, _ => D.File(D.NoHandlers, 0, 0, false)), seq(D.FDS, _ => false));
    D.InitLive(none);
    assert Boot().pcb[0].fds == D.Init(none);
    assert forall p :: 0 < p < PROCS ==> Boot().pcb[p].fds == none;
  }

  lemma BootForest()
    ensures Forest(Boot(), [[0], [], []])
  {
    BootFields();
    var stk := [[0], [], []];
    assert forall t :: 0 <= t < TERMS ==> Stack(Boot(), t, stk[t]);
    assert forall p :: 0 <= p < PROCS ==> OnStack(Boot(), stk, p);
  }

  lemma BootStructured()
    ensures Boot().top[0] != NONE && Structure(Boot(), [[0], [], []])
  {
    BootFields();
    BootFds();
    BootForest();
    P.MapPidOk(P.Initial(), 0, 0);
  }

  /** The root of terminal 0 is pid 0, so its halt is sound in every state of every sound run. */
  lemma FirstTerminalAlwaysSound(k: Kernel)
    requires Structured(k) && k.Cur().terminal == 0 && k.Cur().ppid == k.curr
    ensures k.curr == 0 && Sound(k, HaltNow)
  {
    var stk :| Structure(k, stk);
    RunningIsTop(k, stk);
  }

  /** What a sound run from boot guarantees of the machine, with no stack in sight: the running process is
      live and on top of the active terminal, a user access reaches no other process's frame and not the
      kernel's, and every live process has agreeing descriptor tables. */
  lemma SoundRunSafety(es: seq<Event>, va: nat)
    requires Boot().top[0] != NONE && (forall e :: e in es ==> e.Valid()) && SoundRun(Boot(), es)
    requires va < 0x1_0000_0000
    ensures var k := Run(Boot(), es);
            && k.live[k.curr] && k.active == k.Cur().terminal && k.top[k.active] == k.curr
            && k.tables.dir[P.PROGRAM_SLOT] == P.Frame(true, k.curr + 2)
            && k.tables.dir[0] == P.Initial().dir[0] && k.tables.dir[1] == P.Initial().dir[1]
            && (forall p :: 0 <= p < PROCS && k.live[p] ==> k.pcb[p].fds.Agree())
            && (P.Translate(k.tables, va, true).Some? ==>
                  var pa := P.Translate(k.tables, va, true).value;
                  !P.InFrame(pa, 1) && forall q: nat :: q != k.curr ==> !P.InFrame(pa, P.FrameOf(q)))
  {
    BootStructured();
    RunKeeps(Boot(), es);
    var k := Run(Boot(), es);
    var stk :| Structure(k, stk);
    P.UserReach(k.tables, k.curr, va);
  }

  /** A program runs on terminal 0, and the shell of terminal 1 has just been spawned. */
  predicate Spawned(k: Kernel) {
    && k.Shape() && k.live == [true, true, true, false, false, false] && k.top == [1, 2, NONE] && k.curr == 2
    && k.pcb[0].pid == 0 && k.pcb[0].terminal == 0
    && k.pcb[1].pid == 1 && k.pcb[1].ppid == 0 && k.pcb[1].terminal == 0
    && k.pcb[2].pid == 2 && k.pcb[2].ppid == 2 && k.pcb[2].terminal == 1
  }

  lemma AfterSpawn()
    ensures Boot().top[0] != NONE && Spawned(Step(Step(Boot(), Execute(true)), SpawnOn(1)))
  {
    BootFields();
    var k := Step(Boot(), Execute(true));
    assert k.live == [true, true, false, false, false, false] && k.top == [1, NONE, NONE] && k.curr == 1;
  }

  lemma AfterFinish(k: Kernel)
    requires Spawned(k)
    ensures var n := Step(Step(Step(k, TickNow), HaltNow), TickNow);
            n.live == [true, false, true, false, false, false] && n.curr == 2 && n.pcb[2].ppid == 2
    ensures Sound(Step(k, TickNow), HaltNow)
  {
    var a := Step(k, TickNow);
    assert a.curr == 1 && a.live == k.live && a.top == k.top && a.pcb == k.pcb;
    var b := Step(a, HaltNow);
    assert b.curr == 0 && b.live == [true, false, true, false, false, false] && b.top == [0, 2, NONE];
    assert b.pcb[0] == k.pcb[0] && b.pcb[2] == k.pcb[2];
  }

  /** A run extended by one event. */
  lemma Extend(k: Kernel, es: seq<Event>, e: Event) returns (out: seq<Event>)
    requires k.Shape() && k.top[0] != NONE && (forall x :: x in es ==> x.Valid()) && e.Valid()
    ensures out == es + [e] && (forall x :: x in out ==> x.Valid())
    ensures Run(k, out) == Step(Run(k, es), e)
    ensures SoundRun(k, out) <==> SoundRun(k, es) && Sound(Run(k, es), e)
  {
    out := es + [e];
    assert out[..|es|] == es;
  }

  lemma FinishAndReturn(k: Kernel, es: seq<Event>) returns (out: seq<Event>)
    requires k.Shape() && k.top[0] != NONE && (forall x :: x in es ==> x.Valid()) && SoundRun(k, es)
    requires Spawned(Run(k, es))
    ensures out == es + [TickNow] + [HaltNow] + [TickNow]
    ensures (forall x :: x in out ==> x.Valid()) && SoundRun(k, out) && !Sound(Run(k, out), HaltNow)
  {
    var m := Run(k, es);
    AfterFinish(m);
    NotSound(Step(Step(Step(m, TickNow), HaltNow), TickNow));
    out := Extend(k, es, TickNow);
    out := Extend(k, out, HaltNow);
    out := Extend(k, out, TickNow);
  }

  lemma NotSound(k: Kernel)
    requires k.Shape() && k.live == [true, false, true, false, false, false] && k.curr == 2 && k.pcb[2].ppid == 2
    ensures !Sound(k, HaltNow)
  {
    assert !k.live[1];
  }

  lemma StartAndSpawn(k: Kernel) returns (es: seq<Event>)
    requires k == Boot()
    ensures k.top[0] != NONE && es == [Execute(true)] + [SpawnOn(1)] && SoundRun(k, es)
    ensures Run(k, es) == Step(Step(k, Execute(true)), SpawnOn(1))
  {
    BootFields();
    es := Extend(k, [], Execute(true));
    assert es == [Execute(true)];
    es := Extend(k, es, SpawnOn(1));
  }

  /** The unsound respawn is reachable from boot by a sound run: start a program, spawn terminal 1, let the
      program finish, come back to terminal 1, and exit its shell. What is left is no longer three stacks. */
  lemma UnsoundRespawnReachable(k: Kernel) returns (es: seq<Event>)
    requires k == Boot()
    ensures es == [Execute(true)] + [SpawnOn(1)] + [TickNow] + [HaltNow] + [TickNow]
    ensures k.top[0] != NONE && (forall x :: x in es ==> x.Valid()) && SoundRun(k, es)
    ensures !Sound(Run(k, es), HaltNow) && !Structured(Step(Run(k, es), HaltNow))
  {
    BootStructured();
    AfterSpawn();
    es := StartAndSpawn(k);
    es := FinishAndReturn(k, es);
    UnsoundBreaks(k, es, HaltNow);
  }

  lemma UnsoundBreaks(k: Kernel, es: seq<Event>, e: Event)
    requires Structured(k) && k.top[0] != NONE && (forall x :: x in es ==> x.Valid()) && e.Valid()
    requires SoundRun(k, es) && !Sound(Run(k, es), e)
    ensures !Structured(Step(Run(k, es), e))
  {
    RunKeeps(k, es);
    StepKeepsIffSound(Run(k, es), e);
  }

  /** Opening an existing file while a descriptor below 8 is free takes the least one. */
  lemma OpenStep(k: Kernel, d: FS.Dentry, n: nat)
    requires k.Shape() && k.top[0] != NONE && 2 <= n < D.FDS
    requires forall i :: 0 <= i < D.FDS ==> (k.Cur().fds.bitmap[i] <==> i < n)
    ensures var r := Step(k, OpenFile(Some(d)));
            forall i :: 0 <= i < D.FDS ==> (r.Cur().fds.bitmap[i] <==> i < n + 1)
  {
    assert D.FirstFree(k.Cur().fds.bitmap, D.MIN_FILES) == n;
  }

  /** From boot, n opens in a row are a sound run that leaves descriptors 0 to n + 1 taken. */
  lemma {:induction false} Opens(k: Kernel, d: FS.Dentry, n: nat) returns (es: seq<Event>)
    requires k == Boot() && n <= 6
    ensures |es| == n && forall e :: e in es ==> e == OpenFile(Some(d))
    ensures k.top[0] != NONE && SoundRun(k, es)
    ensures forall i :: 0 <= i < D.FDS ==> (Run(k, es).Cur().fds.bitmap[i] <==> i < n + 2)
  {
    BootStructured();
    if n == 0 {
      es := [];
      BootBitmap();
    } else {
      es := Opens(k, d, n - 1);
      OpenStep(Run(k, es), d, n + 1);
      es := Extend(k, es, OpenFile(Some(d)));
    }
  }

  lemma BootBitmap()
    ensures forall i :: 0 <= i < D.FDS ==> (Boot().Cur().fds.bitmap[i] <==> i < 2)
  {
  }

  /** Losing a descriptor's record is reachable too: the first shell opens any file five times, which takes
      descriptors 2 to 6, and closes descriptor 8. */
  lemma UnsoundCloseReachable(k: Kernel, d: FS.Dentry) returns (es: seq<Event>)
    requires k == Boot()
    ensures |es| == 5 && forall e :: e in es ==> e == OpenFile(Some(d))
    ensures k.top[0] != NONE && SoundRun(k, es)
    ensures !Sound(Run(k, es), CloseFile(D.FDS)) && !Structured(Step(Run(k, es), CloseFile(D.FDS)))
  {
    BootStructured();
    es := Opens(k, d, 5);
    UnsoundBreaks(k, es, CloseFile(D.FDS));
  }

  /** What a user access to the first page of the video window reaches. */
  function Window(k: Kernel, off: nat): Option<nat>
    requires k.Shape() && off < 0x1000
  {
    P.Translate(k.tables, 0x840_0000 + off, true)
  }

  /** The video window over the steps: a tick gives the chosen process the monitor page exactly when its
      terminal is the displayed one, and physical page 0 otherwise; `vidmap` gives the monitor page; no other
      step moves the window. */
  lemma WindowSteps(k: Kernel, e: Event, off: nat)
    requires Structured(k) && k.top[0] != NONE && e.Valid() && off < 0x1000
    ensures e.TickNow? ==>
              Window(Step(k, e), off) == Some(if Step(k, e).Cur().terminal == k.display then 0xB_8000 + off else off)
    ensures e.Vidmap? ==> Window(Step(k, e), off) == Some(0xB_8000 + off)
    ensures !e.TickNow? && !e.Vidmap? ==> Window(Step(k, e), off) == Window(k, off)
  {
    var stk :| Structure(k, stk);
    match e
    case TickNow => TickWindow(k, stk, off);
    case Vidmap => P.WindowShows(k.tables, k.display, k.display, off);
    case _ => WindowStays(k, e, off);
  }

  lemma TickWindow(k: Kernel, stk: seq<seq<int>>, off: nat)
    requires Structure(k, stk) && k.top[0] != NONE && off < 0x1000
    ensures Window(Tick(k), off) == Some(if Tick(k).Cur().terminal == k.display then 0xB_8000 + off else off)
  {
    var u := NextTerminal(Occupied(k.top), k.Cur().terminal);
    StackOf(k, stk, u);
    var n := k.pcb[k.top[u]];
    P.WindowShows(P.MapPid(k.tables, n.pid), n.terminal, k.display, off);
  }

  lemma WindowStays(k: Kernel, e: Event, off: nat)
    requires k.Shape() && k.top[0] != NONE && e.Valid() && !e.TickNow? && !e.Vidmap? && off < 0x1000
    ensures Window(Step(k, e), off) == Window(k, off)
  {
    forall pid: nat ensures P.Translate(P.MapPid(k.tables, pid), 0x840_0000 + off, true) == Window(k, off) {
      P.WindowKept(k.tables, pid, off);
    }
  }

  /** The last tick or `vidmap` of a run, if there was one. */
  function LastMapped(k: Kernel, es: seq<Event>): Option<Kernel>
    requires k.Shape() && k.top[0] != NONE && forall e :: e in es ==> e.Valid()
    ensures LastMapped(k, es).Some? ==> LastMapped(k, es).value.Shape()
  {
    if es == [] then None
    else if es[|es| - 1].TickNow? || es[|es| - 1].Vidmap? then Some(Run(k, es))
    else LastMapped(k, es[..|es| - 1])
  }

  /** Over a sound run the window is the one of the last tick or `vidmap`: switching the display does not move
      it before the next tick. */
  lemma {:induction false} WindowOfRun(k: Kernel, es: seq<Event>, off: nat)
    requires Structured(k) && k.top[0] != NONE && (forall e :: e in es ==> e.Valid()) && SoundRun(k, es) && off < 0x1000
    ensures Window(Run(k, es), off) ==
            Window(if LastMapped(k, es).Some? then LastMapped(k, es).value else k, off)
  {
    if es != [] && !es[|es| - 1].TickNow? && !es[|es| - 1].Vidmap? {
      WindowOfRun(k, es[..|es| - 1], off);
      WindowStays(Run(k, es[..|es| - 1]), es[|es| - 1], off);
    }
  }
}
