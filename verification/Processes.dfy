/**
 * Process lifecycle, scheduling and address-space switch as steps on a value
 * (student-distrib/syscall.c, timer.c, keyboard.c): execute, halt, timer tick,
 * Alt-Fn spawn, and the descriptor calls of the running process.
 */
module Processes {
  import opened Bytes
  import D = Descriptors
  import FS = FileSystem
  import P = Paging

  const PROCS := 6
  const TERMS := 3
  const NONE := -1

  datatype Pcb = Pcb(pid: int, ppid: int, terminal: int, fds: D.Table)

  /** `live` is proc_state, `top` is t_curr, `started[t]` the flag that terminal t has been spawned. */
  datatype Kernel = Kernel(live: seq<bool>, top: seq<int>, curr: int, pcb: seq<Pcb>,
                           active: int, display: int, started: seq<bool>, tables: P.Tables)
  {
    /** Array sizes and index ranges; zeroed control blocks satisfy it too. */
    predicate Shape() {
      && |live| == PROCS && |top| == TERMS && |pcb| == PROCS && |started| == TERMS
      && 0 <= curr < PROCS && tables.Shape()
      && (forall t :: 0 <= t < TERMS ==> NONE <= top[t] < PROCS)
      && (forall p :: 0 <= p < PROCS ==> PcbShape(pcb[p]))
    }

    function Cur(): Pcb
      requires Shape()
    {
      pcb[curr]
    }
  }

  predicate PcbShape(b: Pcb) {
    0 <= b.pid < PROCS && 0 <= b.ppid < PROCS && 0 <= b.terminal < TERMS && b.fds.Shape()
  }

  /** The scan of `get_pid`: the least pid not in use, or -1. */
  function GetPid(live: seq<bool>): (r: int)
    requires |live| == PROCS
    ensures -1 <= r < PROCS
    ensures r == -1 ==> forall p :: 0 <= p < PROCS ==> live[p]
    ensures r >= 0 ==> !live[r] && forall p :: 0 <= p < r ==> live[p]
  {
    if !live[0] then 0 else if !live[1] then 1 else if !live[2] then 2
    else if !live[3] then 3 else if !live[4] then 4 else if !live[5] then 5 else -1
  }

  /** The new block's parent is itself on an empty terminal and the running process otherwise. */
  function PcbInit(k: Kernel, pid: int, t: int): (r: Kernel)
    requires k.Shape() && 0 <= pid < PROCS && 0 <= t < TERMS
    ensures r.Shape()
  {
    var parent := if k.top[t] == NONE || k.curr == pid then pid else k.Cur().pid;
    k.(pcb := k.pcb[pid := Pcb(pid, parent, t, D.Init(k.pcb[pid].fds))], curr := pid, top := k.top[t := pid])
  }

  function ExecuteOn(k: Kernel, t: int, valid: bool): (r: Kernel)
    requires k.Shape() && 0 <= t < TERMS
    ensures r.Shape()
  {
    var pid := GetPid(k.live);
    if !valid || pid == -1 then k
    else
      var b := PcbInit(k.(live := k.live[pid := true]), pid, t);
      b.(tables := P.MapPid(b.tables, pid), active := t)
  }

  /** The part of `halt` before the respawn test. */
  function Retire(k: Kernel): (r: Kernel)
    requires k.Shape()
    ensures r.Shape()
  {
    var c := k.Cur();
    k.(live := k.live[c.pid := false],
       pcb := k.pcb[k.curr := c.(fds := D.Sweep(c.fds))],
       curr := c.ppid,
       top := k.top[c.terminal := c.ppid])
  }

  /** The respawn of a root happens while t_curr still names the pid just retired. */
  function Halt(k: Kernel): (r: Kernel)
    requires k.Shape()
    ensures r.Shape()
  {
    var c := k.Cur();
    var m := Retire(k);
    if c.pid == c.ppid then ExecuteOn(m, c.terminal, true)
    else m.(tables := P.MapPid(m.tables, m.pcb[c.ppid].pid))
  }

  /** Which terminals have a process. */
  function Occupied(top: seq<int>): (r: seq<bool>)
    requires |top| == TERMS
    ensures |r| == TERMS
  {
    [top[0] != NONE, top[1] != NONE, top[2] != NONE]
  }

  /** How many terminals on, one to three, u comes after t on the ring. */
  function RingDistance(t: int, u: int): (d: int)
    requires 0 <= t < TERMS && 0 <= u < TERMS
    ensures 0 < d <= TERMS && (t + d) % TERMS == u
  {
    if u > t then u - t else u + TERMS - t
  }

  /** Round robin: the first occupied terminal after t, cyclically. */
  function NextTerminal(occ: seq<bool>, t: int): (r: int)
    requires |occ| == TERMS && 0 <= t < TERMS
    ensures 0 <= r < TERMS
    ensures occ[0] || occ[1] || occ[2] ==> occ[r]
  {
    if occ[(t + 1) % TERMS] then (t + 1) % TERMS else if occ[(t + 2) % TERMS] then (t + 2) % TERMS else t
  }

  /** It is the first one: no terminal strictly between t and the chosen one, going upwards, is occupied. */
  lemma NoneBetween(occ: seq<bool>, t: int, d: int)
    requires |occ| == TERMS && 0 <= t < TERMS && 0 < d < RingDistance(t, NextTerminal(occ, t))
    ensures !occ[(t + d) % TERMS]
  {
    assert d == 1 || d == 2;
    if t == 0 {
    } else if t == 1 {
    } else {
      assert t == 2;
    }
  }

  function Tick(k: Kernel): (r: Kernel)
    requires k.Shape() && k.top[0] != NONE
    ensures r.Shape()
  {
    var n := k.pcb[k.top[NextTerminal(Occupied(k.top), k.Cur().terminal)]];
    k.(tables := P.MapVideo(P.MapPid(k.tables, n.pid), n.terminal, k.display), curr := n.pid, active := n.terminal)
  }

  /** Alt-F2 and Alt-F3: show the terminal and start its shell the first time, if a pid is free. */
  function Spawn(k: Kernel, t: int): (r: Kernel)
    requires k.Shape() && 0 < t < TERMS
    ensures r.Shape()
  {
    var shown := k.(display := t);
    if k.started[t] || GetPid(k.live) == -1 then shown
    else ExecuteOn(shown.(started := k.started[t := true]), t, true)
  }

  function WithFds(k: Kernel, fds: D.Table): (r: Kernel)
    requires k.Shape() && fds.Shape()
    ensures r.Shape()
  {
    k.(pcb := k.pcb[k.curr := k.Cur().(fds := fds)])
  }

  datatype Event =
    | Execute(valid: bool)
    | HaltNow
    | TickNow
    | SpawnOn(t: int)
    | ShowFirst
    | OpenFile(entry: Option<FS.Dentry>)
    | CloseFile(fd: int)
    | ReadFile(fd: int, count: int)
    | Vidmap
  {
    predicate Valid() { SpawnOn? ==> 0 < t < TERMS }
  }

  function Step(k: Kernel, e: Event): (r: Kernel)
    requires k.Shape() && k.top[0] != NONE && e.Valid()
    ensures r.Shape() && r.top[0] != NONE
  {
    match e
    case Execute(valid) => ExecuteOn(k, k.Cur().terminal, valid)
    case HaltNow => Halt(k)
    case TickNow => Tick(k)
    case SpawnOn(t) => Spawn(k, t)
    case ShowFirst => k.(display := 0)
    case OpenFile(d) => WithFds(k, D.Open(k.Cur().fds, d).0)
    case CloseFile(fd) => WithFds(k, D.Close(k.Cur().fds, fd).0)
    case ReadFile(fd, count) => WithFds(k, D.Read(k.Cur().fds, fd, count).0)
    case Vidmap => k.(tables := P.MapVideo(k.tables, k.display, k.display))
  }

  /** `s` lists the processes of terminal t from its root to its top. */
  predicate Stack(k: Kernel, t: int, s: seq<int>)
    requires k.Shape() && 0 <= t < TERMS
  {
    && (forall i :: 0 <= i < |s| ==>
          0 <= s[i] < PROCS && k.live[s[i]] && k.pcb[s[i]].pid == s[i] && k.pcb[s[i]].terminal == t)
    && (forall i :: 0 < i < |s| ==> k.pcb[s[i]].ppid == s[i - 1])
    && (s != [] ==> k.pcb[s[0]].ppid == s[0])
    && (forall i, j :: 0 <= i < j < |s| ==> s[i] != s[j])
    && k.top[t] == if s == [] then NONE else s[|s| - 1]
  }

  /** The live pids are exactly the three stacks. */
  predicate Forest(k: Kernel, stk: seq<seq<int>>)
    requires k.Shape()
  {
    && |stk| == TERMS
    && (forall t {:trigger Stack(k, t, stk[t])} :: 0 <= t < TERMS ==> Stack(k, t, stk[t]))
    && forall p {:trigger OnStack(k, stk, p)} :: 0 <= p < PROCS ==> OnStack(k, stk, p)
  }

  predicate OnStack(k: Kernel, stk: seq<seq<int>>, p: int)
    requires k.Shape() && |stk| == TERMS && 0 <= p < PROCS
  {
    k.live[p] ==> p in stk[k.pcb[p].terminal]
  }

  /** The running process is the top of its own terminal, and the active terminal and the page tables are its own. */
  predicate Context(k: Kernel)
    requires k.Shape()
  {
    && k.live[k.curr] && k.top[k.Cur().terminal] == k.curr
    && k.active == k.Cur().terminal && P.Ok(k.tables, k.curr)
  }

  predicate FdsOk(k: Kernel)
    requires k.Shape()
  {
    forall p :: 0 <= p < PROCS ==> if k.live[p] then k.pcb[p].fds.Live() else k.pcb[p].fds.Swept()
  }

  /** Terminal 0 is rooted at pid 0; the others are occupied once they were spawned. */
  predicate Rooted(k: Kernel, stk: seq<seq<int>>)
    requires k.Shape() && |stk| == TERMS
  {
    && k.top[0] != NONE && stk[0] != [] && stk[0][0] == 0
    && (k.started[1] <==> stk[1] != []) && (k.started[2] <==> stk[2] != [])
  }

  predicate Structure(k: Kernel, stk: seq<seq<int>>) {
    k.Shape() && Forest(k, stk) && Rooted(k, stk) && Context(k) && FdsOk(k)
  }

  ghost predicate Structured(k: Kernel) { exists stk :: Structure(k, stk) }

  /** A condition a caller can check beforehand: a root may halt when no lower pid is free, and
      descriptor 8 may be closed when descriptor 6 is not open. */
  predicate Sound(k: Kernel, e: Event)
    requires k.Shape()
  {
    && (e.HaltNow? && k.Cur().ppid == k.curr ==> forall p :: 0 <= p < k.curr ==> k.live[p])
    && (e.CloseFile? && e.fd == D.FDS ==> !k.Cur().fds.bitmap[6])
  }

  /** The kernel once `execute_with_terminal_num("shell", 0)` has made the first process. */
  function Boot(): (k: Kernel)
    ensures k.Shape()
  {
    var none := D.Table(seq(D.FDS, _ => D.File(D.NoHandlers, 0, 0, false)), seq(D.FDS, _ => false));
    var zero := Pcb(0, 0, 0, none);
    var k0 := Kernel(seq(PROCS, _ => false), [NONE, NONE, NONE], 0, seq(PROCS, _ => zero),
                     0, 0, [true, false, false], P.Initial());
    ExecuteOn(k0, 0, true)
  }
}
