/**
 * One terminal on its own: a text page, a cursor, and the character operations
 * of student-distrib/lib.c as functions on values. A page is 4096 bytes; cell k
 * is the glyph byte 2k and the attribute byte 2k+1, and only the first
 * 80 * 25 = 2000 cells are visible.
 */
module Screen {
  import opened Bytes

  const COLS := 80
  const ROWS := 25
  const CELLS := 2000
  const PAGE := 4096
  const ATTRIB: byte := 7
  const BLANK: byte := 32

  /** `y == 25` is the pending wrap: the last cell was filled and the scroll is still owed. */
  datatype Screen = Screen(page: seq<byte>, x: int, y: int)
  {
    predicate Valid() {
      |page| == PAGE && 0 <= x < COLS && 0 <= y <= ROWS && (y == ROWS ==> x == 0)
    }

    function Offset(): int { COLS * y + x }
  }

  predicate IsNewline(c: byte) { c == NEWLINE || c == RETURN }

  function WithCell(page: seq<byte>, k: nat, c: byte): (r: seq<byte>)
    requires |page| == PAGE && k < CELLS
    ensures |r| == PAGE
  {
    page[2 * k := c][2 * k + 1 := ATTRIB]
  }

  /** Every row moved up by one, the last row blank, bytes past the visible cells untouched. */
  function Scrolled(page: seq<byte>): (r: seq<byte>)
    requires |page| == PAGE
    ensures |r| == PAGE
  {
    seq(PAGE, i requires 0 <= i < PAGE =>
      if i >= 2 * CELLS then page[i]
      else if i % 2 == 1 then ATTRIB
      else if i < 2 * (CELLS - COLS) then page[i + 2 * COLS]
      else BLANK)
  }

  function Scroll(s: Screen): (r: Screen)
    requires |s.page| == PAGE
    ensures |r.page| == PAGE
  {
    Screen(Scrolled(s.page), 0, ROWS - 1)
  }

  function PutGlyph(s: Screen, c: byte): (r: Screen)
    requires s.Valid() && s.y < ROWS
    ensures r.Valid()
  {
    Screen(WithCell(s.page, s.Offset(), c), (s.x + 1) % COLS, s.y + (s.x + 1) / COLS)
  }

  function Put(s: Screen, c: byte): (r: Screen)
    requires s.Valid()
    ensures r.Valid()
  {
    if IsNewline(c) then
      if s.y + 1 >= ROWS then Scroll(s) else Screen(s.page, 0, s.y + 1)
    else
      PutGlyph(if s.y >= ROWS then Scroll(s) else s, c)
  }

  function PutAll(s: Screen, w: seq<byte>): (r: Screen)
    requires s.Valid()
    ensures r.Valid()
  {
    if w == [] then s else Put(PutAll(s, w[..|w| - 1]), w[|w| - 1])
  }

  function Delete(s: Screen): (r: Screen)
    requires s.Valid() && s.Offset() > 0
    ensures r.Valid()
  {
    var x := if s.x == 0 then COLS - 1 else s.x - 1;
    var y := if s.x == 0 then s.y - 1 else s.y;
    Screen(WithCell(s.page, COLS * y + x, BLANK), x, y)
  }

  function DeleteAll(s: Screen, k: nat): (r: Screen)
    requires s.Valid() && s.Offset() >= k
    ensures r.Valid() && r.Offset() == s.Offset() - k
    decreases k
  {
    if k == 0 then s else DeleteAll(Delete(s), k - 1)
  }

  function Blanked(page: seq<byte>): (r: seq<byte>)
    requires |page| == PAGE
    ensures |r| == PAGE
  {
    seq(PAGE, i requires 0 <= i < PAGE =>
      if i >= 2 * CELLS then page[i] else if i % 2 == 0 then BLANK else ATTRIB)
  }

  function Clear(s: Screen): (r: Screen)
    requires |s.page| == PAGE
    ensures r.Valid()
  {
    Screen(Blanked(s.page), 0, 0)
  }

  /** Typing moves the cursor forwards, or scrolls and leaves it on the last row or past it. */
  lemma PutOffset(s: Screen, c: byte)
    requires s.Valid()
    ensures Put(s, c).Offset() > s.Offset() || Put(s, c).Offset() >= COLS * (ROWS - 1)
    ensures !IsNewline(c) ==> Put(s, c).Offset() == if s.y == ROWS then COLS * (ROWS - 1) + 1 else s.Offset() + 1
  {
  }

  /** Cell k of a page. */
  function GlyphAt(page: seq<byte>, k: nat): byte
    requires |page| == PAGE && k < CELLS
  {
    page[2 * k]
  }

  /** Every visible cell has the grey-on-black attribute. */
  predicate Grey(page: seq<byte>)
    requires |page| == PAGE
  {
    forall k {:trigger page[2 * k + 1]} :: 0 <= k < CELLS ==> page[2 * k + 1] == 7
  }

  /** The bytes of a page behind its visible cells. */
  function Behind(page: seq<byte>): seq<byte>
    requires |page| == PAGE
  {
    page[2 * CELLS..]
  }

  lemma CellKeeps(page: seq<byte>, k: nat, c: byte)
    requires |page| == PAGE && k < CELLS
    ensures Grey(page) ==> Grey(WithCell(page, k, c))
    ensures Behind(WithCell(page, k, c)) == Behind(page)
    ensures GlyphAt(WithCell(page, k, c), k) == c
    ensures forall j :: 0 <= j < CELLS && j != k ==> GlyphAt(WithCell(page, k, c), j) == GlyphAt(page, j)
  {
  }

  /** Characters, backspaces and scrolls keep the attributes and never touch what lies behind the cells. */
  lemma PutKeeps(s: Screen, c: byte)
    requires s.Valid()
    ensures Grey(s.page) ==> Grey(Put(s, c).page)
    ensures Behind(Put(s, c).page) == Behind(s.page)
  {
    ScrollKeeps(s.page);
    if !IsNewline(c) {
      var b := if s.y >= ROWS then Scroll(s) else s;
      CellKeeps(b.page, b.Offset(), c);
    }
  }

  lemma ScrollKeeps(page: seq<byte>)
    requires |page| == PAGE
    ensures Grey(page) ==> Grey(Scrolled(page))
    ensures Behind(Scrolled(page)) == Behind(page)
  {
    forall k | 0 <= k < CELLS ensures Scrolled(page)[2 * k + 1] == 7 {
      assert (2 * k + 1) % 2 == 1;
    }
  }

  lemma DeleteKeeps(s: Screen)
    requires s.Valid() && s.Offset() > 0
    ensures Grey(s.page) ==> Grey(Delete(s).page)
    ensures Behind(Delete(s).page) == Behind(s.page)
  {
    CellKeeps(s.page, Delete(s).Offset(), BLANK);
  }

  /** A cleared screen is blank, with the cursor at the origin, whatever it held. */
  lemma ClearBlanks(s: Screen)
    requires |s.page| == PAGE
    ensures forall k :: 0 <= k < CELLS ==> GlyphAt(Clear(s).page, k) == 32
    ensures Grey(Clear(s).page) && Behind(Clear(s).page) == Behind(s.page)
    ensures Clear(s).x == 0 && Clear(s).y == 0
  {
    forall k | 0 <= k < CELLS ensures Clear(s).page[2 * k + 1] == 7 && GlyphAt(Clear(s).page, k) == 32 {
      assert (2 * k + 1) % 2 == 1 && (2 * k) % 2 == 0;
    }
  }

  /** A short text on a cleared screen: the text from the origin on, and blanks. */
  lemma {:induction false} TextOnBlank(s: Screen, w: seq<byte>)
    requires |s.page| == PAGE && |w| < COLS && forall c :: c in w ==> !IsNewline(c)
    ensures var r := PutAll(Clear(s), w);
            && r.x == |w| && r.y == 0 && Grey(r.page) && Behind(r.page) == Behind(s.page)
            && forall k :: 0 <= k < CELLS ==> GlyphAt(r.page, k) == if k < |w| then w[k] else 32
  {
    ClearBlanks(s);
    if w != [] {
      var n := |w| - 1;
      TextOnBlank(s, w[..n]);
      PutOnFirstRow(PutAll(Clear(s), w[..n]), w[n]);
    }
  }

  lemma PutOnFirstRow(m: Screen, c: byte)
    requires m.Valid() && m.y == 0 && m.x < COLS - 1 && !IsNewline(c)
    ensures var r := Put(m, c);
            && r.x == m.x + 1 && r.y == 0 && (Grey(m.page) ==> Grey(r.page)) && Behind(r.page) == Behind(m.page)
            && forall k :: 0 <= k < CELLS ==> GlyphAt(r.page, k) == if k == m.x then c else GlyphAt(m.page, k)
  {
    CellKeeps(m.page, m.x, c);
  }

  lemma {:induction false} PutAllOffset(s: Screen, w: seq<byte>, floor: nat)
    requires s.Valid() && floor <= COLS * (ROWS - 1) && s.Offset() >= floor
    ensures PutAll(s, w).Offset() >= floor
  {
    if w != [] {
      PutAllOffset(s, w[..|w| - 1], floor);
      PutOffset(PutAll(s, w[..|w| - 1]), w[|w| - 1]);
    }
  }
}

/**
 * Scrolling loses nothing. Keep a log of the glyph rows that scrolled off; log
 * and screen together are one tape, and the screen operations are writes on it.
 */
module Tape {
  import opened Bytes
  import opened Screen

  datatype Logged = Logged(log: seq<byte>, screen: Screen)
  {
    predicate Valid() { screen.Valid() && |log| % COLS == 0 }
  }

  /** `pos == |cells|` is a wrap that is still pending. */
  datatype Tape = Tape(cells: seq<byte>, pos: nat)
  {
    predicate Valid() { pos <= |cells| && |cells| % COLS == 0 }

    /** The tape is blank beyond its written rows. */
    function At(i: nat): byte { if i < |cells| then cells[i] else BLANK }
  }

  function Glyphs(page: seq<byte>): (r: seq<byte>)
    requires |page| == PAGE
    ensures |r| == CELLS
  {
    seq(CELLS, k requires 0 <= k < CELLS => page[2 * k])
  }

  function TapeOf(l: Logged): (t: Tape)
    requires l.Valid()
    ensures t.Valid()
  {
    Tape(l.log + Glyphs(l.screen.page), |l.log| + l.screen.Offset())
  }

  predicate Scrolls(s: Screen, c: byte) {
    if IsNewline(c) then s.y + 1 >= ROWS else s.y >= ROWS
  }

  function PutLogged(l: Logged, c: byte): (r: Logged)
    requires l.Valid()
    ensures r.Valid()
  {
    Logged(if Scrolls(l.screen, c) then l.log + Glyphs(l.screen.page)[..COLS] else l.log, Put(l.screen, c))
  }

  function PutAllLogged(l: Logged, w: seq<byte>): (r: Logged)
    requires l.Valid()
    ensures r.Valid()
  {
    if w == [] then l else PutLogged(PutAllLogged(l, w[..|w| - 1]), w[|w| - 1])
  }

  function GrowTo(cells: seq<byte>, pos: nat): (r: seq<byte>)
    requires pos <= |cells|
    ensures pos < |r| && cells <= r
  {
    if pos == |cells| then cells + Repeat(COLS, BLANK) else cells
  }

  /** A glyph lands at the position and advances it by one; a newline goes to the next row start,
      unless a wrap is pending, when it only forces the row that was owed. */
  function TapePut(t: Tape, c: byte): (r: Tape)
    requires t.Valid()
    ensures r.Valid()
  {
    if IsNewline(c) then
      var pos := if t.pos == |t.cells| then t.pos else (t.pos / COLS + 1) * COLS;
      Tape(GrowTo(t.cells, pos), pos)
    else
      Tape(GrowTo(t.cells, t.pos)[t.pos := c], t.pos + 1)
  }

  function TapePutAll(t: Tape, w: seq<byte>): (r: Tape)
    requires t.Valid()
    ensures r.Valid()
  {
    if w == [] then t else TapePut(TapePutAll(t, w[..|w| - 1]), w[|w| - 1])
  }

  function TapeDelete(t: Tape): (r: Tape)
    requires t.Valid() && t.pos > 0
    ensures r.Valid()
  {
    Tape(t.cells[t.pos - 1 := BLANK], t.pos - 1)
  }

  lemma GlyphsScrolled(page: seq<byte>)
    requires |page| == PAGE
    ensures Glyphs(page)[..COLS] + Glyphs(Scrolled(page)) == Glyphs(page) + Repeat(COLS, BLANK)
  {
  }

  lemma GlyphsWithCell(page: seq<byte>, k: nat, c: byte)
    requires |page| == PAGE && k < CELLS
    ensures Glyphs(WithCell(page, k, c)) == Glyphs(page)[k := c]
  {
  }

  /** A scroll appends one blank row to the tape and moves nothing. */
  lemma ScrollRefinesTape(l: Logged)
    requires l.Valid()
    ensures var page := l.screen.page;
            (l.log + Glyphs(page)[..COLS]) + Glyphs(Scrolled(page)) == (l.log + Glyphs(page)) + Repeat(COLS, BLANK)
  {
    var page := l.screen.page;
    GlyphsScrolled(page);
    var scrolled := Glyphs(Scrolled(page));
    assert (l.log + Glyphs(page)[..COLS]) + scrolled == l.log + (Glyphs(page)[..COLS] + scrolled);
  }

  lemma NewlineRefinesTape(l: Logged, c: byte)
    requires l.Valid() && IsNewline(c)
    ensures TapeOf(PutLogged(l, c)) == TapePut(TapeOf(l), c)
  {
    ScrollRefinesTape(l);
  }

  lemma GlyphRefinesTape(l: Logged, c: byte)
    requires l.Valid() && !IsNewline(c)
    ensures TapeOf(PutLogged(l, c)) == TapePut(TapeOf(l), c)
  {
    ScrollRefinesTape(l);
    var b := if l.screen.y >= ROWS then Scroll(l.screen) else l.screen;
    GlyphsWithCell(b.page, b.Offset(), c);
  }

  lemma PutRefinesTape(l: Logged, c: byte)
    requires l.Valid()
    ensures TapeOf(PutLogged(l, c)) == TapePut(TapeOf(l), c)
  {
    if IsNewline(c) {
      NewlineRefinesTape(l, c);
    } else {
      GlyphRefinesTape(l, c);
    }
  }

  lemma {:induction false} PutAllRefinesTape(l: Logged, w: seq<byte>)
    requires l.Valid()
    ensures TapeOf(PutAllLogged(l, w)) == TapePutAll(TapeOf(l), w)
  {
    if w != [] {
      PutAllRefinesTape(l, w[..|w| - 1]);
      PutRefinesTape(PutAllLogged(l, w[..|w| - 1]), w[|w| - 1]);
    }
  }

  lemma {:induction false} PutAllLoggedScreen(l: Logged, w: seq<byte>)
    requires l.Valid()
    ensures PutAllLogged(l, w).screen == PutAll(l.screen, w)
  {
    if w != [] {
      PutAllLoggedScreen(l, w[..|w| - 1]);
    }
  }

  lemma DeleteRefinesTape(l: Logged)
    requires l.Valid() && l.screen.Offset() > 0
    ensures TapeOf(Logged(l.log, Delete(l.screen))) == TapeDelete(TapeOf(l))
  {
    var s := Delete(l.screen);
    GlyphsWithCell(l.screen.page, s.Offset(), BLANK);
  }

  /** What glyphs do to the tape: they fill exactly the cells they are written to. */
  lemma {:induction false} GlyphsOnTape(t: Tape, w: seq<byte>)
    requires t.Valid() && forall c :: c in w ==> !IsNewline(c)
    ensures TapePutAll(t, w).pos == t.pos + |w|
    ensures forall i: nat :: TapePutAll(t, w).At(i) == if t.pos <= i < t.pos + |w| then w[i - t.pos] else t.At(i)
  {
    if w != [] {
      var n := |w| - 1;
      var u := TapePutAll(t, w[..n]);
      GlyphsOnTape(t, w[..n]);
      assert forall i: nat :: TapePut(u, w[n]).At(i) == if i == u.pos then w[n] else u.At(i);
    }
  }

  lemma {:induction false} DeletesOnTape(l: Logged, k: nat)
    requires l.Valid() && l.screen.Offset() >= k
    ensures var t, u := TapeOf(l), TapeOf(Logged(l.log, DeleteAll(l.screen, k)));
            && u.pos == t.pos - k
            && forall i: nat :: u.At(i) == if t.pos - k <= i < t.pos then BLANK else t.At(i)
    decreases k
  {
    if k > 0 {
      DeleteRefinesTape(l);
      DeletesOnTape(Logged(l.log, Delete(l.screen)), k - 1);
    }
  }

  lemma {:induction false} GlyphsMakeRoom(l: Logged, w: seq<byte>)
    requires l.Valid() && forall c :: c in w ==> !IsNewline(c)
    requires |w| <= COLS * (ROWS - 1)
    ensures PutAllLogged(l, w).screen.Offset() >= |w|
    ensures PutAllLogged(l, w).screen == PutAll(l.screen, w)
  {
    if w != [] {
      var n := |w| - 1;
      GlyphsMakeRoom(l, w[..n]);
      PutOffset(PutAllLogged(l, w[..n]).screen, w[n]);
    }
  }

  /** Typing k glyphs and erasing k times, for any k up to 24 full rows, comes back to the same place
      on the tape, leaves those k cells blank and touches no other cell, whatever scrolled in between. */
  lemma TypeThenErase(l: Logged, w: seq<byte>)
    requires l.Valid() && forall c :: c in w ==> !IsNewline(c)
    requires |w| <= COLS * (ROWS - 1)
    ensures PutAllLogged(l, w).screen.Offset() >= |w|
    ensures var typed := PutAllLogged(l, w);
            var t, u := TapeOf(l), TapeOf(Logged(typed.log, DeleteAll(typed.screen, |w|)));
            && u.pos == t.pos
            && forall i: nat :: u.At(i) == if t.pos <= i < t.pos + |w| then BLANK else t.At(i)
  {
    GlyphsMakeRoom(l, w);
    PutAllRefinesTape(l, w);
    ErasedTape(TapeOf(l), PutAllLogged(l, w), w);
  }

  /** Erasing as much as was typed. */
  lemma ErasedTape(t: Tape, typed: Logged, w: seq<byte>)
    requires t.Valid() && typed.Valid() && (forall c :: c in w ==> !IsNewline(c)) && typed.screen.Offset() >= |w|
    requires TapeOf(typed) == TapePutAll(t, w)
    ensures var u := TapeOf(Logged(typed.log, DeleteAll(typed.screen, |w|)));
            && u.pos == t.pos
            && forall i: nat :: u.At(i) == if t.pos <= i < t.pos + |w| then BLANK else t.At(i)
  {
    GlyphsOnTape(t, w);
    DeletesOnTape(typed, |w|);
  }
}
