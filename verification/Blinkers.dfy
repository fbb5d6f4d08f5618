/**
 * The blinking characters of the fish program (fish/blink.S) on values: a list
 * with push-front and first-match, and one countdown per record. All numbers are
 * unsigned 16-bit, as in the packed record.
 */
module Blinkers {
  import opened Bytes
  import opened Arithmetic

  const SLOTS := 2000
  const WORD := 0x1_0000

  datatype Blinker = Blinker(loc: nat, onCh: byte, offCh: byte, onLen: nat, offLen: nat, countdown: nat, status: nat)
  {
    predicate Valid() {
      loc < WORD && onLen < WORD && offLen < WORD && countdown < WORD && status <= 1
    }

    predicate On() { status == 1 }

    function Shown(): byte { if On() then onCh else offCh }
  }

  /** The decrement wraps at 16 bits and the test that follows is signed. */
  predicate Expires(b: Blinker)
    requires b.Valid()
  {
    var c := (b.countdown + WORD - 1) % WORD;
    !(0 < c < 0x8000)
  }

  function TickOne(b: Blinker): (r: Blinker)
    requires b.Valid()
    ensures r.Valid() && r.loc == b.loc
  {
    if !Expires(b) then b.(countdown := (b.countdown + WORD - 1) % WORD)
    else b.(countdown := if b.On() then b.offLen else b.onLen, status := 1 - b.status)
  }

  function TickN(b: Blinker, k: nat): (r: Blinker)
    requires b.Valid()
    ensures r.Valid() && r.loc == b.loc
  {
    if k == 0 then b else TickOne(TickN(b, k - 1))
  }

  /** The number of ticks a length stands for: itself up to 0x8000, and one beyond that or at zero. */
  function Eff(n: nat): (r: nat)
    ensures r > 0
  {
    if 1 <= n <= 0x8000 then n else 1
  }

  lemma TickEff(b: Blinker)
    requires b.Valid()
    ensures Expires(b) <==> Eff(b.countdown) == 1
    ensures !Expires(b) ==> Eff(TickOne(b).countdown) == Eff(b.countdown) - 1 && TickOne(b).On() == b.On()
    ensures Expires(b) ==> TickOne(b).On() == !b.On()
    ensures Expires(b) ==> Eff(TickOne(b).countdown) == Eff(if b.On() then b.offLen else b.onLen)
  {
  }

  /** The closed form: a record that starts fully on is on after k ticks exactly when k modulo its period is
      below its on-length, and its countdown is what is left of the current phase. Every 16-bit length. */
  lemma {:induction false} Period(b: Blinker, k: nat)
    requires b.Valid() && b.On() && b.countdown == b.onLen
    ensures var a, p := Eff(b.onLen), Eff(b.onLen) + Eff(b.offLen);
            var r, m := TickN(b, k), k % p;
            && (r.On() <==> m < a)
            && Eff(r.countdown) == (if m < a then a - m else p - m)
            && r == b.(countdown := r.countdown, status := r.status)
  {
    if k > 0 {
      Period(b, k - 1);
      var p := Eff(b.onLen) + Eff(b.offLen);
      ModStep(k - 1, p);
      TickEff(TickN(b, k - 1));
    } else {
      ModUnique(0, Eff(b.onLen) + Eff(b.offLen), 0, 0);
    }
  }

  predicate InStep(a: Blinker, b: Blinker) {
    a.status == b.status && a.countdown == b.countdown && a.onLen == b.onLen && a.offLen == b.offLen
  }

  lemma {:induction false} InStepForever(a: Blinker, b: Blinker, k: nat)
    requires a.Valid() && b.Valid() && InStep(a, b)
    ensures InStep(TickN(a, k), TickN(b, k))
  {
    if k > 0 {
      InStepForever(a, b, k - 1);
    }
  }

  /** The list of live records, newest first, and the bytes of text-mode video memory. */
  datatype State = State(list: seq<Blinker>, video: seq<byte>)
  {
    predicate Valid() {
      && |video| == 2 * SLOTS && |list| <= SLOTS
      && forall i :: 0 <= i < |list| ==> list[i].Valid() && list[i].loc < SLOTS
    }
  }

  /** The index of the first record at a location, or the length of the list. */
  function FirstAt(list: seq<Blinker>, loc: nat): (i: nat)
    ensures i <= |list|
    ensures i < |list| ==> list[i].loc == loc
    ensures forall j :: 0 <= j < i ==> list[j].loc != loc
  {
    if list == [] || list[0].loc == loc then 0 else 1 + FirstAt(list[1..], loc)
  }

  lemma {:induction false} FirstAtUnique(list: seq<Blinker>, loc: nat, i: nat)
    requires i <= |list| && (i < |list| ==> list[i].loc == loc) && forall j :: 0 <= j < i ==> list[j].loc != loc
    ensures FirstAt(list, loc) == i
  {
    if list != [] && list[0].loc != loc {
      FirstAtUnique(list[1..], loc, i - 1);
    }
  }

  function Lookup(list: seq<Blinker>, loc: nat): Option<Blinker> {
    var i := FirstAt(list, loc);
    if i == |list| then None else Some(list[i])
  }

  function Started(b: Blinker): Blinker { b.(status := 1, countdown := b.onLen) }

  predicate AddFits(s: State, b: Blinker) { b.loc < SLOTS && |s.list| < SLOTS }

  function Add(s: State, b: Blinker): (r: State)
    requires s.Valid() && Started(b).Valid()
    ensures r.Valid()
  {
    if !AddFits(s, b) then s
    else State([Started(b)] + s.list, s.video[2 * b.loc := b.onCh])
  }

  function Remove(s: State, loc: nat): (r: State)
    requires s.Valid()
    ensures r.Valid()
  {
    var i := FirstAt(s.list, loc);
    if i == |s.list| then s else s.(list := Without(s.list, i))
  }

  /** The conditional move that should pick the on character tests a sign bit that is never set, so the
      redraw always shows the off character. */
  function Sync(s: State, src: nat, dst: nat): (r: State)
    requires s.Valid()
    ensures r.Valid()
  {
    var i, j := FirstAt(s.list, src), FirstAt(s.list, dst);
    if i == |s.list| || j == |s.list| then s
    else
      var a, b := s.list[i], s.list[j];
      State(s.list[j := b.(onLen := a.onLen, offLen := a.offLen, countdown := a.countdown, status := a.status)],
            s.video[2 * b.loc := b.offCh])
  }

  /** Video memory after the first n records have had their tick, in list order. */
  function TickVideo(s: State, n: nat): (v: seq<byte>)
    requires s.Valid() && n <= |s.list|
    ensures |v| == |s.video|
  {
    if n == 0 then s.video
    else
      var b := s.list[n - 1];
      if Expires(b) then TickVideo(s, n - 1)[2 * b.loc := TickOne(b).Shown()] else TickVideo(s, n - 1)
  }

  function Tick(s: State): (r: State)
    requires s.Valid()
    ensures r.Valid()
  {
    State(seq(|s.list|, i requires 0 <= i < |s.list| => TickOne(s.list[i])), TickVideo(s, |s.list|))
  }

  datatype Op = AddOp(b: Blinker) | RemoveOp(loc: nat) | FindOp(loc: nat) | SyncOp(src: nat, dst: nat) | TickOp
  {
    predicate Valid() { AddOp? ==> Started(b).Valid() }

    /** This operation may change which record a location finds, or the record's phase. */
    predicate Touches(loc: nat) {
      match this
      case AddOp(b) => b.loc == loc
      case RemoveOp(l) => l == loc
      case SyncOp(_, dst) => dst == loc
      case _ => false
    }
  }

  function Step(s: State, op: Op): (r: State)
    requires s.Valid() && op.Valid()
    ensures r.Valid()
  {
    match op
    case AddOp(b) => Add(s, b)
    case RemoveOp(loc) => Remove(s, loc)
    case FindOp(_) => s
    case SyncOp(src, dst) => Sync(s, src, dst)
    case TickOp => Tick(s)
  }

  function Run(s: State, ops: seq<Op>): (r: State)
    requires s.Valid() && forall op :: op in ops ==> op.Valid()
    ensures r.Valid()
  {
    if ops == [] then s else Step(Run(s, ops[..|ops| - 1]), ops[|ops| - 1])
  }

  function Ticks(ops: seq<Op>): nat {
    if ops == [] then 0 else Ticks(ops[..|ops| - 1]) + if ops[|ops| - 1].TickOp? then 1 else 0
  }

  /** No second record shares this location. */
  predicate Unique(list: seq<Blinker>, loc: nat) {
    forall i, j :: 0 <= i < |list| && 0 <= j < |list| && list[i].loc == loc && list[j].loc == loc ==> i == j
  }

  lemma AddLookup(s: State, b: Blinker, loc: nat)
    requires s.Valid() && Started(b).Valid() && b.loc != loc && Lookup(s.list, loc).Some?
    ensures Lookup(Add(s, b).list, loc) == Lookup(s.list, loc)
    ensures Unique(s.list, loc) ==> Unique(Add(s, b).list, loc)
  {
    if AddFits(s, b) {
      FirstAtUnique(Add(s, b).list, loc, FirstAt(s.list, loc) + 1);
    }
  }

  /** A list without its element j. */
  function Without<X>(list: seq<X>, j: nat): (r: seq<X>)
    requires j < |list|
    ensures |r| == |list| - 1 && forall m {:trigger r[m]} :: 0 <= m < |r| ==> r[m] == list[if m < j then m else m + 1]
  {
    list[..j] + list[j + 1..]
  }

  lemma WithoutUnique(list: seq<Blinker>, j: nat, loc: nat)
    requires j < |list| && Unique(list, loc)
    ensures Unique(Without(list, j), loc)
  {
  }

  lemma WithoutFirst(list: seq<Blinker>, j: nat, loc: nat)
    requires j < |list| && list[j].loc != loc
    ensures Lookup(Without(list, j), loc) == Lookup(list, loc)
  {
    var i := FirstAt(list, loc);
    FirstAtUnique(Without(list, j), loc, if i < j then i else i - 1);
  }

  lemma RemoveLookup(s: State, l: nat, loc: nat)
    requires s.Valid() && l != loc
    ensures Lookup(Remove(s, l).list, loc) == Lookup(s.list, loc)
    ensures Unique(s.list, loc) ==> Unique(Remove(s, l).list, loc)
  {
    var j := FirstAt(s.list, l);
    if j < |s.list| {
      WithoutFirst(s.list, j, loc);
      if Unique(s.list, loc) {
        WithoutUnique(s.list, j, loc);
      }
    }
  }

  lemma WithoutCounts(list: seq<Blinker>, j: nat)
    requires j < |list|
    ensures multiset(Without(list, j)) == multiset(list) - multiset{list[j]}
  {
    var front, back := list[..j], list[j + 1..];
    assert list == front + [list[j]] + back;
    assert Without(list, j) == front + back;
  }

  /** Records of other locations in front do not matter. */
  lemma {:induction false} LookupBehind(front: seq<Blinker>, back: seq<Blinker>, loc: nat)
    requires forall i :: 0 <= i < |front| ==> front[i].loc != loc
    ensures Lookup(front + back, loc) == Lookup(back, loc)
  {
    if front == [] {
      assert front + back == back;
    } else {
      LookupBehind(front[1..], back, loc);
      LookupTail(front[0], front[1..] + back, loc);
      assert front + back == [front[0]] + (front[1..] + back);
    }
  }

  lemma LookupTail(b: Blinker, list: seq<Blinker>, loc: nat)
    requires b.loc != loc
    ensures Lookup([b] + list, loc) == Lookup(list, loc)
  {
    assert ([b] + list)[1..] == list;
  }

  /** Behind the first match, the list goes on as before. */
  lemma WithoutFirstMatch(list: seq<Blinker>, loc: nat)
    requires FirstAt(list, loc) < |list|
    ensures Lookup(Without(list, FirstAt(list, loc)), loc) == Lookup(list[FirstAt(list, loc) + 1..], loc)
  {
    var i := FirstAt(list, loc);
    LookupBehind(list[..i], list[i + 1..], loc);
    assert Without(list, i) == list[..i] + list[i + 1..];
  }

  /** A remove succeeds exactly on a location that has a record: the record found there goes, no other and no
      cell changes, and the location then finds what the list behind the first match finds. */
  lemma RemoveEffect(s: State, loc: nat)
    requires s.Valid()
    ensures Lookup(s.list, loc).None? ==> Remove(s, loc) == s
    ensures Lookup(s.list, loc).Some? ==>
              var r, i := Remove(s, loc), FirstAt(s.list, loc);
              && |r.list| == |s.list| - 1 && r.video == s.video
              && multiset(r.list) == multiset(s.list) - multiset{Lookup(s.list, loc).value}
              && Lookup(r.list, loc) == Lookup(s.list[i + 1..], loc)
              && (Unique(s.list, loc) ==> Lookup(r.list, loc) == None)
  {
    if Lookup(s.list, loc).Some? {
      var i := FirstAt(s.list, loc);
      WithoutCounts(s.list, i);
      WithoutFirstMatch(s.list, loc);
      if Unique(s.list, loc) {
        assert Lookup(s.list[i + 1..], loc) == None;
      }
    }
  }

  /** An accepted add is found at its location at once, in front of any older record there, and a remove takes
      it back. */
  lemma AddThenRemove(s: State, b: Blinker)
    requires s.Valid() && Started(b).Valid() && AddFits(s, b)
    ensures Lookup(Add(s, b).list, b.loc) == Some(Started(b)) && |Add(s, b).list| == |s.list| + 1
    ensures Remove(Add(s, b), b.loc).list == s.list
  {
    FirstAtUnique(Add(s, b).list, b.loc, 0);
  }

  /** A full list takes records again after a remove that found one, and not before. */
  lemma FullTakesAgain(s: State, loc: nat, b: Blinker)
    requires s.Valid() && |s.list| == SLOTS && b.loc < SLOTS
    ensures !AddFits(s, b)
    ensures AddFits(Remove(s, loc), b) <==> Lookup(s.list, loc).Some?
  {
    RemoveEffect(s, loc);
  }

  lemma StepLookup(s: State, op: Op, loc: nat)
    requires s.Valid() && op.Valid() && !op.Touches(loc) && Lookup(s.list, loc).Some?
    ensures Lookup(Step(s, op).list, loc) ==
            Some(if op.TickOp? then TickOne(Lookup(s.list, loc).value) else Lookup(s.list, loc).value)
    ensures Unique(s.list, loc) ==> Unique(Step(s, op).list, loc)
  {
    match op
    case AddOp(b) => AddLookup(s, b, loc);
    case RemoveOp(l) => RemoveLookup(s, l, loc);
    case FindOp(_) =>
    case _ => FirstAtUnique(Step(s, op).list, loc, FirstAt(s.list, loc));
  }

  /** Whatever happens to the other locations, the record a location finds only ages by the ticks. */
  lemma {:induction false} RunLookup(s: State, ops: seq<Op>, loc: nat)
    requires s.Valid() && Lookup(s.list, loc).Some?
    requires forall op :: op in ops ==> op.Valid() && !op.Touches(loc)
    ensures Lookup(s.list, loc).value.Valid()
    ensures Lookup(Run(s, ops).list, loc) == Some(TickN(Lookup(s.list, loc).value, Ticks(ops)))
    ensures Unique(s.list, loc) ==> Unique(Run(s, ops).list, loc)
  {
    if ops != [] {
      RunLookup(s, ops[..|ops| - 1], loc);
      StepLookup(Run(s, ops[..|ops| - 1]), ops[|ops| - 1], loc);
    }
  }

  /** The cell of a location shows the phase of the record found there. */
  predicate CellShows(s: State, loc: nat)
    requires s.Valid() && loc < SLOTS
  {
    Lookup(s.list, loc).Some? ==> s.video[2 * loc] == Lookup(s.list, loc).value.Shown()
  }

  lemma {:induction false} TickCell(s: State, loc: nat, n: nat)
    requires s.Valid() && loc < SLOTS && n <= |s.list| && Unique(s.list, loc) && FirstAt(s.list, loc) < |s.list|
    ensures var i := FirstAt(s.list, loc);
            TickVideo(s, n)[2 * loc] ==
            if i < n && Expires(s.list[i]) then TickOne(s.list[i]).Shown() else s.video[2 * loc]
  {
    if n > 0 {
      TickCell(s, loc, n - 1);
      assert s.list[n - 1].loc == loc <==> n - 1 == FirstAt(s.list, loc);
    }
  }

  lemma StepCell(s: State, op: Op, loc: nat)
    requires s.Valid() && op.Valid() && !op.Touches(loc) && loc < SLOTS
    requires Lookup(s.list, loc).Some? && Unique(s.list, loc) && CellShows(s, loc)
    ensures CellShows(Step(s, op), loc)
  {
    StepLookup(s, op, loc);
    if op.TickOp? {
      TickCell(s, loc, |s.list|);
    }
  }

  lemma {:induction false} RunCell(s: State, ops: seq<Op>, loc: nat)
    requires s.Valid() && loc < SLOTS && forall op :: op in ops ==> op.Valid() && !op.Touches(loc)
    requires Lookup(s.list, loc).Some? && Unique(s.list, loc) && CellShows(s, loc)
    ensures CellShows(Run(s, ops), loc)
  {
    if ops != [] {
      var before := ops[..|ops| - 1];
      RunCell(s, before, loc);
      RunLookup(s, before, loc);
      StepCell(Run(s, before), ops[|ops| - 1], loc);
    }
  }

  /** A record added at a free location blinks on the screen with its own period, through any run of
      operations on other locations. */
  lemma AddedBlinks(s: State, b: Blinker, ops: seq<Op>)
    requires s.Valid() && Started(b).Valid() && AddFits(s, b) && Lookup(s.list, b.loc) == None
    requires forall op :: op in ops ==> op.Valid() && !op.Touches(b.loc)
    ensures var a, p := Eff(b.onLen), Eff(b.onLen) + Eff(b.offLen);
            Run(Add(s, b), ops).video[2 * b.loc] == if Ticks(ops) % p < a then b.onCh else b.offCh
  {
    var r := Add(s, b);
    AddedAlone(s, b);
    RunLookup(r, ops, b.loc);
    RunCell(r, ops, b.loc);
    Period(Started(b), Ticks(ops));
  }

  lemma AddedAlone(s: State, b: Blinker)
    requires s.Valid() && Started(b).Valid() && AddFits(s, b) && Lookup(s.list, b.loc) == None
    ensures var r := Add(s, b);
            Lookup(r.list, b.loc) == Some(Started(b)) && Unique(r.list, b.loc) && CellShows(r, b.loc)
  {
    FirstAtUnique(Add(s, b).list, b.loc, 0);
  }

  /** After a sync the two records stay in step for ever, and the target's cell shows its off character
      although the record may be on. */
  lemma SyncedStayInStep(s: State, src: nat, dst: nat, ops: seq<Op>)
    requires s.Valid() && src != dst && Lookup(s.list, src).Some? && Lookup(s.list, dst).Some?
    requires forall op :: op in ops ==> op.Valid() && !op.Touches(src) && !op.Touches(dst)
    ensures var r := Run(Sync(s, src, dst), ops);
            && Lookup(r.list, src).Some? && Lookup(r.list, dst).Some?
            && InStep(Lookup(r.list, src).value, Lookup(r.list, dst).value)
    ensures Sync(s, src, dst).video[2 * dst] == Lookup(s.list, dst).value.offCh
  {
    var m := Sync(s, src, dst);
    var i, j := FirstAt(s.list, src), FirstAt(s.list, dst);
    FirstAtUnique(m.list, src, i);
    FirstAtUnique(m.list, dst, j);
    RunLookup(m, ops, src);
    RunLookup(m, ops, dst);
    InStepForever(m.list[i], m.list[j], Ticks(ops));
  }

  /** Until its countdown runs out, a record keeps its phase. */
  lemma {:induction false} TickNPhase(b: Blinker, k: nat)
    requires b.Valid() && k < Eff(b.countdown)
    ensures var r := TickN(b, k);
            Eff(r.countdown) == Eff(b.countdown) - k && r == b.(countdown := r.countdown)
  {
    if k > 0 {
      TickNPhase(b, k - 1);
      TickEff(TickN(b, k - 1));
    }
  }

  /** Only a tick draws a cell that the operation does not touch. */
  lemma OthersDrawElsewhere(s: State, op: Op, loc: nat)
    requires s.Valid() && op.Valid() && !op.Touches(loc) && loc < SLOTS && !op.TickOp?
    ensures Step(s, op).video[2 * loc] == s.video[2 * loc]
  {
  }

  /** Before its first change of phase an untouched location keeps both its cell and its phase. */
  lemma {:induction false} RunBefore(s: State, ops: seq<Op>, loc: nat)
    requires s.Valid() && loc < SLOTS && forall op :: op in ops ==> op.Valid() && !op.Touches(loc)
    requires Lookup(s.list, loc).Some? && Unique(s.list, loc)
    requires Ticks(ops) < Eff(Lookup(s.list, loc).value.countdown)
    ensures Run(s, ops).video[2 * loc] == s.video[2 * loc]
  {
    if ops != [] {
      var before, op := ops[..|ops| - 1], ops[|ops| - 1];
      RunBefore(s, before, loc);
      RunLookup(s, before, loc);
      var m := Run(s, before);
      if op.TickOp? {
        TickNPhase(Lookup(s.list, loc).value, Ticks(before));
        TickEff(Lookup(m.list, loc).value);
        TickCell(m, loc, |m.list|);
      } else {
        OthersDrawElsewhere(m, op, loc);
      }
    }
  }

  /** A change of phase draws the cell, whatever it showed. */
  lemma ExpiryDraws(s: State, loc: nat)
    requires s.Valid() && loc < SLOTS && Lookup(s.list, loc).Some? && Unique(s.list, loc)
    requires Expires(Lookup(s.list, loc).value)
    ensures CellShows(Tick(s), loc)
  {
    StepLookup(s, TickOp, loc);
    TickCell(s, loc, |s.list|);
  }

  /** A wrong cell heals at the first change of phase and not before: through any run that does not touch a
      unique location its cell shows its phase if and only if it did at the start or the countdown has run out. */
  lemma {:induction false} CellHealsIff(s: State, ops: seq<Op>, loc: nat)
    requires s.Valid() && loc < SLOTS && forall op :: op in ops ==> op.Valid() && !op.Touches(loc)
    requires Lookup(s.list, loc).Some? && Unique(s.list, loc)
    ensures CellShows(Run(s, ops), loc) <==> CellShows(s, loc) || Ticks(ops) >= Eff(Lookup(s.list, loc).value.countdown)
  {
    var b := Lookup(s.list, loc).value;
    if CellShows(s, loc) {
      RunCell(s, ops, loc);
    } else if Ticks(ops) < Eff(b.countdown) {
      RunBefore(s, ops, loc);
      RunLookup(s, ops, loc);
      TickNPhase(b, Ticks(ops));
    } else {
      var before, op := ops[..|ops| - 1], ops[|ops| - 1];
      RunLookup(s, before, loc);
      var m := Run(s, before);
      if Ticks(before) < Eff(b.countdown) {
        TickNPhase(b, Ticks(before));
        TickEff(Lookup(m.list, loc).value);
        ExpiryDraws(m, loc);
      } else {
        CellHealsIff(s, before, loc);
        StepCell(m, op, loc);
      }
    }
  }

  lemma SyncLookup(s: State, src: nat, dst: nat)
    requires s.Valid() && Lookup(s.list, src).Some? && Lookup(s.list, dst).Some?
    ensures var a, b := Lookup(s.list, src).value, Lookup(s.list, dst).value;
            Lookup(Sync(s, src, dst).list, dst) ==
            Some(b.(onLen := a.onLen, offLen := a.offLen, countdown := a.countdown, status := a.status))
    ensures Unique(s.list, dst) ==> Unique(Sync(s, src, dst).list, dst)
  {
    FirstAtUnique(Sync(s, src, dst).list, dst, FirstAt(s.list, dst));
  }

  /** The redraw of a sync shows the target's new phase exactly when the source is off or the target draws
      both phases alike. */
  lemma SyncShowsIff(s: State, src: nat, dst: nat)
    requires s.Valid() && dst < SLOTS && Lookup(s.list, src).Some? && Lookup(s.list, dst).Some?
    ensures var a, b := Lookup(s.list, src).value, Lookup(s.list, dst).value;
            CellShows(Sync(s, src, dst), dst) <==> !a.On() || b.onCh == b.offCh
  {
    SyncLookup(s, src, dst);
  }

  /** After a sync, through any run that leaves the target alone, its cell shows its phase exactly when the
      redraw did or the source's remaining countdown has passed. */
  lemma SyncedCellIff(s: State, src: nat, dst: nat, ops: seq<Op>)
    requires s.Valid() && dst < SLOTS && Lookup(s.list, src).Some? && Lookup(s.list, dst).Some? && Unique(s.list, dst)
    requires forall op :: op in ops ==> op.Valid() && !op.Touches(dst)
    ensures var a, b := Lookup(s.list, src).value, Lookup(s.list, dst).value;
            CellShows(Run(Sync(s, src, dst), ops), dst)
            <==> !a.On() || b.onCh == b.offCh || Ticks(ops) >= Eff(a.countdown)
  {
    SyncLookup(s, src, dst);
    SyncShowsIff(s, src, dst);
    CellHealsIff(Sync(s, src, dst), ops, dst);
  }
}
