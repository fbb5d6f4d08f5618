/** Fairness of the timer (student-distrib/timer.c): which terminals the ticks of a run choose. */
module RoundRobin {
  import opened Processes
  import opened ProcessStacks

  function Count(occ: seq<bool>): nat
    requires |occ| == TERMS
  {
    (if occ[0] then 1 else 0) + (if occ[1] then 1 else 0) + (if occ[2] then 1 else 0)
  }

  /** No terminal is spawned by this step. */
  predicate Quiet(k: Kernel, e: Event)
    requires k.Shape() && e.Valid()
  {
    e.SpawnOn? ==> k.started[e.t] || GetPid(k.live) == -1
  }

  predicate QuietRun(k: Kernel, es: seq<Event>)
    requires k.Shape() && k.top[0] != NONE && forall e :: e in es ==> e.Valid()
  {
    es == [] || (QuietRun(k, es[..|es| - 1]) && Quiet(Run(k, es[..|es| - 1]), es[|es| - 1]))
  }

  /** The terminals chosen by the ticks of a run, in order. */
  function Chosen(k: Kernel, es: seq<Event>): (r: seq<int>)
    requires k.Shape() && k.top[0] != NONE && forall e :: e in es ==> e.Valid()
    ensures forall j :: 0 <= j < |r| ==> 0 <= r[j] < TERMS
  {
    if es == [] then []
    else
      var m := Run(k, es[..|es| - 1]);
      var next := NextTerminal(Occupied(m.top), m.Cur().terminal);
      Chosen(k, es[..|es| - 1]) + if es[|es| - 1].TickNow? then [next] else []
  }

  /** A halt gives its terminal to the parent or to the respawned root: it stays occupied and running. */
  lemma HaltStays(k: Kernel)
    requires Structured(k)
    ensures Occupied(Halt(k).top) == Occupied(k.top) && Halt(k).Cur().terminal == k.Cur().terminal
  {
    var stk :| Structure(k, stk);
    RunningIsTop(k, stk);
    if k.Cur().ppid == k.curr {
      RespawnFields(k);
    } else {
      StackOf(k, stk, k.Cur().terminal);
    }
  }

  lemma TickMoves(k: Kernel)
    requires Structured(k) && k.top[0] != NONE
    ensures Occupied(Tick(k).top) == Occupied(k.top)
    ensures Tick(k).Cur().terminal == NextTerminal(Occupied(k.top), k.Cur().terminal)
  {
    var stk :| Structure(k, stk);
    StackOf(k, stk, NextTerminal(Occupied(k.top), k.Cur().terminal));
  }

  /** Sound steps that spawn nothing keep every terminal occupied or empty, and only a tick leaves the
      running terminal. */
  lemma QuietStep(k: Kernel, e: Event)
    requires Structured(k) && k.top[0] != NONE && e.Valid() && Sound(k, e) && Quiet(k, e)
    ensures Occupied(Step(k, e).top) == Occupied(k.top)
    ensures Step(k, e).Cur().terminal ==
            if e.TickNow? then NextTerminal(Occupied(k.top), k.Cur().terminal) else k.Cur().terminal
  {
    match e
    case HaltNow => HaltStays(k);
    case TickNow => TickMoves(k);
    case _ => RunningOccupied(k);
  }

  lemma RunningOccupied(k: Kernel)
    requires Structured(k)
    ensures k.top[k.Cur().terminal] == k.curr && Occupied(k.top)[k.Cur().terminal]
  {
    var stk :| Structure(k, stk);
  }

  /** Each choice is the cyclic successor of the one before, the first one of the terminal running at the start. */
  predicate Follows(occ: seq<bool>, start: int, c: seq<int>)
    requires |occ| == TERMS && 0 <= start < TERMS
  {
    && (forall j :: 0 <= j < |c| ==> 0 <= c[j] < TERMS)
    && (c != [] ==> c[0] == NextTerminal(occ, start))
    && forall j :: 0 < j < |c| ==> c[j] == NextTerminal(occ, c[j - 1])
  }

  /** The last step of a quiet, sound run. */
  lemma QuietLast(k: Kernel, es: seq<Event>)
    requires Structured(k) && k.top[0] != NONE && (forall e :: e in es ==> e.Valid()) && es != []
    requires SoundRun(k, es) && QuietRun(k, es)
    ensures var m, e, r := Run(k, es[..|es| - 1]), es[|es| - 1], Run(k, es);
            && Occupied(r.top) == Occupied(m.top)
            && r.Cur().terminal ==
               if e.TickNow? then NextTerminal(Occupied(m.top), m.Cur().terminal) else m.Cur().terminal
  {
    RunKeeps(k, es[..|es| - 1]);
    QuietStep(Run(k, es[..|es| - 1]), es[|es| - 1]);
  }

  lemma {:induction false} ChosenFollows(k: Kernel, es: seq<Event>)
    requires Structured(k) && k.top[0] != NONE && (forall e :: e in es ==> e.Valid())
    requires SoundRun(k, es) && QuietRun(k, es)
    ensures Occupied(Run(k, es).top) == Occupied(k.top)
    ensures Follows(Occupied(k.top), k.Cur().terminal, Chosen(k, es))
    ensures Run(k, es).Cur().terminal == Last(k.Cur().terminal, Chosen(k, es))
  {
    if es != [] {
      ChosenFollows(k, es[..|es| - 1]);
      QuietLast(k, es);
      FollowsLast(k, es, Occupied(k.top), k.Cur().terminal);
    }
  }

  /** The last step of a run whose choices followed the ring so far. */
  lemma FollowsLast(k: Kernel, es: seq<Event>, occ: seq<bool>, start: int)
    requires k.Shape() && k.top[0] != NONE && (forall e :: e in es ==> e.Valid()) && es != []
    requires |occ| == TERMS && 0 <= start < TERMS
    requires var m, e, r := Run(k, es[..|es| - 1]), es[|es| - 1], Run(k, es);
             && Occupied(m.top) == occ && m.Cur().terminal == Last(start, Chosen(k, es[..|es| - 1]))
             && r.Cur().terminal == if e.TickNow? then NextTerminal(occ, m.Cur().terminal) else m.Cur().terminal
    requires Follows(occ, start, Chosen(k, es[..|es| - 1]))
    ensures Follows(occ, start, Chosen(k, es)) && Run(k, es).Cur().terminal == Last(start, Chosen(k, es))
  {
    ChosenSnoc(k, es);
    FollowsSnoc(occ, start, Chosen(k, es[..|es| - 1]));
  }

  /** The terminal running after these choices. */
  function Last(start: int, c: seq<int>): int { if c == [] then start else c[|c| - 1] }

  lemma ChosenSnoc(k: Kernel, es: seq<Event>)
    requires k.Shape() && k.top[0] != NONE && (forall e :: e in es ==> e.Valid()) && es != []
    ensures var m, c := Run(k, es[..|es| - 1]), Chosen(k, es[..|es| - 1]);
            Chosen(k, es) == if es[|es| - 1].TickNow? then c + [NextTerminal(Occupied(m.top), m.Cur().terminal)] else c
  {
  }

  lemma FollowsSnoc(occ: seq<bool>, start: int, c: seq<int>)
    requires |occ| == TERMS && 0 <= start < TERMS && Follows(occ, start, c)
    ensures Follows(occ, start, c + [NextTerminal(occ, Last(start, c))])
  {
  }

  /** `w` names every occupied terminal once and no other. */
  predicate OnceEach(occ: seq<bool>, w: seq<int>)
    requires |occ| == TERMS
  {
    && (forall t :: 0 <= t < TERMS ==> (occ[t] <==> t in w))
    && (forall j, l :: 0 <= j < l < |w| ==> w[j] != w[l])
  }

  /** Any n consecutive choices, n the number of occupied terminals, are those terminals once each. */
  lemma Window(occ: seq<bool>, start: int, c: seq<int>, i: nat)
    requires |occ| == TERMS && 0 <= start < TERMS && occ[start] && Follows(occ, start, c)
    requires i + Count(occ) <= |c|
    ensures OnceEach(occ, c[i..i + Count(occ)])
  {
    FollowsOccupied(occ, start, c, i);
    var w := c[i..i + Count(occ)];
    assert w[0] == c[i];
    if |w| > 1 {
      assert w[1] == c[i + 1];
    }
    if |w| > 2 {
      assert w[2] == c[i + 2];
    }
    Ring(occ, w);
  }

  /** Following the cyclic successor from an occupied terminal as often as there are occupied ones. */
  lemma Ring(occ: seq<bool>, w: seq<int>)
    requires |occ| == TERMS && |w| == Count(occ) > 0 && 0 <= w[0] < TERMS && occ[w[0]]
    requires |w| > 1 ==> w[1] == NextTerminal(occ, w[0])
    requires |w| > 2 ==> w[2] == NextTerminal(occ, NextTerminal(occ, w[0]))
    ensures OnceEach(occ, w)
  {
    if |w| == 1 {
      assert w == [w[0]];
    } else if |w| == 2 {
      assert w == [w[0], w[1]];
    } else {
      assert w == [w[0], w[1], w[2]];
    }
  }

  lemma {:induction false} FollowsOccupied(occ: seq<bool>, start: int, c: seq<int>, i: nat)
    requires |occ| == TERMS && 0 <= start < TERMS && occ[start] && Follows(occ, start, c) && i < |c|
    ensures occ[c[i]]
  {
    if i > 0 {
      FollowsOccupied(occ, start, c, i - 1);
    }
  }

  lemma ChosenFair(k: Kernel, es: seq<Event>)
    requires Structured(k) && k.top[0] != NONE && (forall e :: e in es ==> e.Valid())
    requires SoundRun(k, es) && QuietRun(k, es)
    ensures Follows(Occupied(k.top), k.Cur().terminal, Chosen(k, es)) && Occupied(k.top)[k.Cur().terminal]
  {
    ChosenFollows(k, es);
    RunningOccupied(k);
  }

  /** Round robin: whatever executes, descriptor calls and sound halts happen in between, every occupied
      terminal is chosen exactly once in any n consecutive ticks after the last spawn. */
  lemma FairTicks(k: Kernel, es: seq<Event>, i: nat)
    requires Structured(k) && k.top[0] != NONE && (forall e :: e in es ==> e.Valid())
    requires SoundRun(k, es) && QuietRun(k, es)
    requires i + Count(Occupied(k.top)) <= |Chosen(k, es)|
    ensures OnceEach(Occupied(k.top), Chosen(k, es)[i..i + Count(Occupied(k.top))])
  {
    ChosenFair(k, es);
    Window(Occupied(k.top), k.Cur().terminal, Chosen(k, es), i);
  }

  /** A tick goes upwards round the ring to the first occupied terminal: none it passes has a process. */
  lemma TickPassesEmpty(k: Kernel, d: int)
    requires Structured(k) && k.top[0] != NONE && 0 < d < RingDistance(k.Cur().terminal, Tick(k).Cur().terminal)
    ensures k.top[(k.Cur().terminal + d) % TERMS] == NONE
    ensures k.top[Tick(k).Cur().terminal] != NONE
  {
    TickMoves(k);
    NoneBetween(Occupied(k.top), k.Cur().terminal, d);
  }
}
