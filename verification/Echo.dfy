/** What the user sees while editing a line is the line: the editor and the scrolling screen agree. */
module Echo {
  import opened Bytes
  import opened Screen
  import opened Tape
  import opened Tty

  /** A terminal together with the rows it has scrolled off. */
  datatype Live = Live(log: seq<byte>, v: Tty)
  {
    predicate Valid() { v.Valid() && |log| % COLS == 0 }

    function Tape(): Tape
      requires Valid()
    {
      TapeOf(Logged(log, v.screen))
    }
  }

  /** A glyph typed or erased. */
  predicate EditsGlyphs(a: Act) { a.Erase? || (a.Type? && !IsNewline(a.c)) }

  /** The acts that write on the tape; Ctrl-L starts a new page instead. */
  predicate OnTape(a: Act) { !a.Reset? && ActValid(a) }

  /** The rows an act scrolls off are logged. */
  function LogStep(l: Live, a: Act): (r: seq<byte>)
    requires l.Valid() && OnTape(a)
    ensures |r| % COLS == 0
  {
    var now := Logged(l.log, l.v.screen);
    match a
    case Type(c) => if |l.v.line| < LINE_MAX then PutLogged(now, c).log else l.log
    case Submit(echo) => if echo then PutLogged(now, NEWLINE).log else l.log
    case Output(w) => PutAllLogged(now, w).log
    case _ => l.log
  }

  function LiveStep(l: Live, a: Act): (r: Live)
    requires l.Valid() && OnTape(a)
    ensures r.Valid()
  {
    Live(LogStep(l, a), TtyStep(l.v, a))
  }

  function LiveRun(l: Live, acts: seq<Act>): (r: Live)
    requires l.Valid() && forall a :: a in acts ==> OnTape(a)
    ensures r.Valid()
  {
    if acts == [] then l else LiveStep(LiveRun(l, acts[..|acts| - 1]), acts[|acts| - 1])
  }

  /** What an act writes on an endless tape, given the line being edited; it knows no screen. */
  function TapeStep(t: Tape, line: seq<byte>, a: Act): (r: Tape)
    requires t.Valid()
    ensures r.Valid()
  {
    match a
    case Type(c) => if |line| < LINE_MAX then TapePut(t, c) else t
    case Submit(echo) => if echo then TapePut(t, NEWLINE) else t
    case Erase => if line == [] || t.pos == 0 then t else TapeDelete(t)
    case Output(w) => TapePutAll(t, w)
    case _ => t
  }

  function TapeRun(t: Tape, line: seq<byte>, acts: seq<Act>): (r: Tape)
    requires t.Valid() && |line| <= LINE_MAX
    ensures r.Valid()
  {
    if acts == [] then t
    else
      var before := acts[..|acts| - 1];
      TapeStep(TapeRun(t, line, before), Edit(line, before), acts[|acts| - 1])
  }

  lemma LiveStepRefinesTape(l: Live, a: Act)
    requires l.Valid() && OnTape(a)
    ensures LiveStep(l, a).Tape() == TapeStep(l.Tape(), l.v.line, a)
  {
    var now := Logged(l.log, l.v.screen);
    match a
    case Type(c) => PutRefinesTape(now, c);
    case Submit(_) => PutRefinesTape(now, NEWLINE);
    case Erase =>
      if l.v.line != [] {
        DeleteRefinesTape(now);
      }
    case Output(w) =>
      PutAllRefinesTape(now, w);
      PutAllLoggedScreen(now, w);
    case Taken =>
  }

  lemma {:induction false} LiveRunReplays(l: Live, acts: seq<Act>)
    requires l.Valid() && forall a :: a in acts ==> OnTape(a)
    ensures LiveRun(l, acts).v == Replay(l.v, acts)
  {
    if acts != [] {
      LiveRunReplays(l, acts[..|acts| - 1]);
    }
  }

  /** Scrolling loses nothing, for any mix of output, typing, erasing, submitting and reading: the terminal
      and the rows it scrolled off are what the acts write on an endless tape. */
  lemma {:induction false} LiveRunRefinesTape(l: Live, acts: seq<Act>)
    requires l.Valid() && forall a :: a in acts ==> OnTape(a)
    ensures LiveRun(l, acts).Tape() == TapeRun(l.Tape(), l.v.line, acts)
    ensures LiveRun(l, acts).v == Replay(l.v, acts)
  {
    LiveRunReplays(l, acts);
    if acts != [] {
      var before := acts[..|acts| - 1];
      LiveRunRefinesTape(l, before);
      LineIsEdit(l.v, before);
      LiveStepRefinesTape(LiveRun(l, before), acts[|acts| - 1]);
    }
  }

  /** From an empty line at tape position p, any mix of typed glyphs and backspaces leaves the cursor at
      p + |line|, the cells in between showing exactly the line, and everything before p untouched,
      however often the screen scrolled. */
  lemma {:induction false} EchoShowsLine(l: Live, acts: seq<Act>)
    requires l.Valid() && l.v.line == [] && forall a :: a in acts ==> OnTape(a) && EditsGlyphs(a)
    ensures var r, p := LiveRun(l, acts), l.Tape().pos;
            && r.Tape().pos == p + |r.v.line|
            && (forall i: nat :: i < p ==> r.Tape().At(i) == l.Tape().At(i))
            && (forall i: nat :: i < |r.v.line| ==> r.Tape().At(p + i) == r.v.line[i])
  {
    if acts != [] {
      var before, a := acts[..|acts| - 1], acts[|acts| - 1];
      EchoShowsLine(l, before);
      var m := LiveRun(l, before);
      var r := LiveStep(m, a);
      var screen := Logged(m.log, m.v.screen);
      if a.Type? && |m.v.line| < LINE_MAX {
        PutRefinesTape(screen, a.c);
        GlyphOnTape(m.Tape(), a.c);
      } else if a.Erase? && m.v.line != [] {
        DeleteRefinesTape(screen);
      }
    }
  }

  lemma GlyphOnTape(t: Tape, c: byte)
    requires t.Valid() && !IsNewline(c)
    ensures TapePut(t, c).pos == t.pos + 1
    ensures forall i: nat :: TapePut(t, c).At(i) == if i == t.pos then c else t.At(i)
  {
  }
}
