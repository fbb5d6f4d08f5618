/**
 * Three terminals on one video page (student-distrib/lib.c). Physical video
 * memory is one array of four 4 KB pages: page 0 is what the monitor shows, page
 * t + 1 is the back page of terminal t. The displayed terminal lives on page 0.
 */
module Console {
  import opened Bytes
  import opened Screen
  import Memory

  const TERMINALS := 3

  predicate AllValid(ss: seq<Screen>)
    requires |ss| == TERMINALS
  {
    ss[0].Valid() && ss[1].Valid() && ss[2].Valid()
  }

  function PageOf(m: seq<byte>, p: nat): (r: seq<byte>)
    requires |m| == 4 * PAGE && p < 4
    ensures |r| == PAGE
  {
    m[PAGE * p..PAGE * (p + 1)]
  }

  function PagesOf(m: seq<byte>): (r: seq<seq<byte>>)
    requires |m| == 4 * PAGE
    ensures |r| == 4
  {
    [PageOf(m, 0), PageOf(m, 1), PageOf(m, 2), PageOf(m, 3)]
  }

  /** Memory that differs on page p only. */
  lemma OnePage(m: seq<byte>, n: seq<byte>, p: nat)
    requires |m| == |n| == 4 * PAGE && p < 4
    requires forall i :: 0 <= i < 4 * PAGE && !(PAGE * p <= i < PAGE * (p + 1)) ==> n[i] == m[i]
    ensures PagesOf(n) == PagesOf(m)[p := PageOf(n, p)]
  {
    assert p != 0 ==> PageOf(n, 0) == PageOf(m, 0);
    assert p != 1 ==> PageOf(n, 1) == PageOf(m, 1);
    assert p != 2 ==> PageOf(n, 2) == PageOf(m, 2);
    assert p != 3 ==> PageOf(n, 3) == PageOf(m, 3);
  }

  lemma CopiedPage(m: seq<byte>, dst: nat, src: nat, p: nat)
    requires |m| == 4 * PAGE && dst < 4 && src < 4 && p < 4
    ensures PageOf(Memory.Copied(m, PAGE * dst, PAGE * src, PAGE), p) == PageOf(m, if p == dst then src else p)
  {
    var c := Memory.Copied(m, PAGE * dst, PAGE * src, PAGE);
    var q := if p == dst then src else p;
    forall i | 0 <= i < PAGE ensures PageOf(c, p)[i] == PageOf(m, q)[i] {
      assert PageOf(c, p)[i] == c[PAGE * p + i];
      assert PageOf(m, q)[i] == m[PAGE * q + i];
    }
  }

  /** Copying a page of bytes is assigning a page. */
  lemma CopiedPages(m: seq<byte>, dst: nat, src: nat)
    requires |m| == 4 * PAGE && dst < 4 && src < 4
    ensures PagesOf(Memory.Copied(m, PAGE * dst, PAGE * src, PAGE)) == PagesOf(m)[dst := PageOf(m, src)]
  {
    CopiedPage(m, dst, src, 0);
    CopiedPage(m, dst, src, 1);
    CopiedPage(m, dst, src, 2);
    CopiedPage(m, dst, src, 3);
  }

  class Console {
    const mem: array<byte>
    var xs: seq<int>
    var ys: seq<int>
    var display: nat
    var active: nat
    /** The three logical screens, whichever pages they are on. */
    ghost var screens: seq<Screen>

    ghost predicate Shape()
      reads this
    {
      mem.Length == 4 * PAGE && |xs| == |ys| == TERMINALS && display < TERMINALS && active < TERMINALS
    }

    ghost function Page(p: nat): (r: seq<byte>)
      requires mem.Length == 4 * PAGE && p < 4
      reads mem
      ensures |r| == PAGE
    {
      PageOf(mem[..], p)
    }

    ghost function Pages(): (r: seq<seq<byte>>)
      requires mem.Length == 4 * PAGE
      reads mem
      ensures |r| == 4 && forall p :: 0 <= p < 4 ==> |r[p]| == PAGE
    {
      PagesOf(mem[..])
    }

    /** The page on which terminal t currently lives. */
    ghost function Home(t: nat): (p: nat)
      requires t < TERMINALS
      reads this
      ensures p < 4
    {
      if t == display then 0 else t + 1
    }

    /** The logical screen of terminal t: the video page if displayed, its back page otherwise. */
    ghost function ScreenOf(t: nat): Screen
      requires Shape() && t < TERMINALS
      reads this, mem
    {
      Screen(Pages()[Home(t)], xs[t], ys[t])
    }

    ghost function Screens(): (r: seq<Screen>)
      requires Shape()
      reads this, mem
      ensures |r| == TERMINALS
    {
      [ScreenOf(0), ScreenOf(1), ScreenOf(2)]
    }

    ghost predicate Valid()
      reads this, mem
    {
      && Shape() && |screens| == TERMINALS && AllValid(screens)
      && forall t: nat {:trigger ScreenOf(t)} :: t < TERMINALS ==> screens[t] == ScreenOf(t)
    }

    /** Any initial contents of video memory; both cursors at the origin, terminal 0 shown and running. */
    constructor (m: array<byte>)
      requires m.Length == 4 * PAGE
      ensures Valid() && mem == m && display == 0 && active == 0
      ensures forall t :: 0 <= t < TERMINALS ==> screens[t].x == 0 && screens[t].y == 0
    {
      mem := m;
      xs, ys := [0, 0, 0], [0, 0, 0];
      display, active := 0, 0;
      new;
      screens := Screens();
    }

    /** The monitor, which is page 0, shows the displayed terminal, and every other one is on its own page. */
    lemma MonitorShows()
      requires Valid()
      ensures mem[..PAGE] == screens[display].page
      ensures forall t: nat :: t < TERMINALS && t != display ==> mem[PAGE * (t + 1)..PAGE * (t + 2)] == screens[t].page
    {
      assert screens[display] == ScreenOf(display);
      assert mem[..PAGE] == PageOf(mem[..], 0);
      forall t: nat | t < TERMINALS && t != display
        ensures mem[PAGE * (t + 1)..PAGE * (t + 2)] == screens[t].page
      {
        assert screens[t] == ScreenOf(t);
        assert mem[PAGE * (t + 1)..PAGE * (t + 2)] == PageOf(mem[..], t + 1);
      }
    }

    /** Records the screens that the pages now show. */
    ghost method Look()
      requires Shape() && AllValid(Screens())
      modifies this`screens
      ensures Valid() && screens == Screens()
    {
      screens := Screens();
    }

    method StoreCell(p: nat, k: nat, c: byte)
      requires mem.Length == 4 * PAGE && p < 4 && k < CELLS
      modifies mem
      ensures Pages() == old(Pages())[p := WithCell(old(Pages())[p], k, c)]
    {
      mem[PAGE * p + 2 * k] := c;
      mem[PAGE * p + 2 * k + 1] := ATTRIB;
    }

    /** Row y + 1 of page p is copied onto row y. */
    method MoveRowUp(p: nat, y: nat)
      requires mem.Length == 4 * PAGE && p < 4 && y < ROWS - 1
      modifies mem
      ensures forall j {:trigger mem[j]} :: 0 <= j < mem.Length ==>
                mem[j] == if PAGE * p + 2 * COLS * y <= j < PAGE * p + 2 * COLS * (y + 1)
                          then (if j % 2 == 0 then old(mem[j + 2 * COLS]) else ATTRIB)
                          else old(mem[j])
    {
      var row := PAGE * p + 2 * COLS * y;
      var x := 0;
      while x < COLS
        invariant 0 <= x <= COLS
        invariant forall j {:trigger mem[j]} :: 0 <= j < mem.Length ==>
                    mem[j] == if row <= j < row + 2 * x
                              then (if j % 2 == 0 then old(mem[j + 2 * COLS]) else ATTRIB)
                              else old(mem[j])
      {
        mem[row + 2 * x] := mem[row + 2 * x + 2 * COLS];
        mem[row + 2 * x + 1] := ATTRIB;
        x := x + 1;
      }
    }

    /** Rows 1 to 24 of page p move up by one row. */
    method MoveRowsUp(p: nat)
      requires mem.Length == 4 * PAGE && p < 4
      modifies mem
      ensures forall j {:trigger mem[j]} :: 0 <= j < mem.Length ==>
                mem[j] == if PAGE * p <= j < PAGE * p + 2 * (CELLS - COLS)
                          then (if j % 2 == 0 then old(mem[j + 2 * COLS]) else ATTRIB)
                          else old(mem[j])
    {
      var y := 0;
      while y < ROWS - 1
        invariant 0 <= y <= ROWS - 1
        invariant forall j {:trigger mem[j]} :: 0 <= j < mem.Length ==>
                    mem[j] == if PAGE * p <= j < PAGE * p + 2 * COLS * y
                              then (if j % 2 == 0 then old(mem[j + 2 * COLS]) else ATTRIB)
                              else old(mem[j])
      {
        MoveRowUp(p, y);
        y := y + 1;
      }
    }

    method BlankLastRow(p: nat)
      requires mem.Length == 4 * PAGE && p < 4
      modifies mem
      ensures forall j {:trigger mem[j]} :: 0 <= j < mem.Length ==>
                mem[j] == if PAGE * p + 2 * (CELLS - COLS) <= j < PAGE * p + 2 * CELLS
                          then (if j % 2 == 0 then BLANK else ATTRIB)
                          else old(mem[j])
    {
      var base := PAGE * p;
      var x := 0;
      while x < COLS
        invariant 0 <= x <= COLS
        invariant forall j {:trigger mem[j]} :: 0 <= j < mem.Length ==>
                    mem[j] == if base + 2 * (CELLS - COLS) <= j < base + 2 * (CELLS - COLS + x)
                              then (if j % 2 == 0 then BLANK else ATTRIB)
                              else old(mem[j])
      {
        mem[base + 2 * (COLS * (ROWS - 1) + x)] := BLANK;
        mem[base + 2 * (COLS * (ROWS - 1) + x) + 1] := ATTRIB;
        x := x + 1;
      }
    }

    /** The loops shared by `shift_up` and `shift_up_display`. */
    method ShiftPage(p: nat)
      requires mem.Length == 4 * PAGE && p < 4
      modifies mem
      ensures Pages() == old(Pages())[p := Scrolled(old(Pages())[p])]
    {
      MoveRowsUp(p);
      BlankLastRow(p);
      forall i | 0 <= i < PAGE ensures Page(p)[i] == Scrolled(old(Page(p)))[i] {
        assert Page(p)[i] == mem[PAGE * p + i] && (PAGE * p + i) % 2 == i % 2;
      }
      assert Page(p) == Scrolled(old(Page(p)));
      OnePage(old(mem[..]), mem[..], p);
    }

    method ShiftUpDisplay()
      requires Shape()
      modifies this`xs, this`ys, mem
      ensures Shape() && Screens() == old(Screens())[display := Scroll(old(Screens())[display])]
    {
      ShiftPage(0);
      ys := ys[display := ROWS - 1];
      xs := xs[display := 0];
    }

    method ShiftUp()
      requires Shape() && active != display
      modifies this`xs, this`ys, mem
      ensures Shape() && Screens() == old(Screens())[active := Scroll(old(Screens())[active])]
    {
      ShiftPage(active + 1);
      ys := ys[active := ROWS - 1];
      xs := xs[active := 0];
    }

    /** The scroll loop of `putc_scroll`: it runs at most once, because a scroll leaves row 24. */
    method ScrollActive() returns (ghost rounds: nat)
      requires Shape()
      modifies this`xs, this`ys, mem
      ensures Shape() && rounds == (if old(ys[active]) >= ROWS then 1 else 0)
      ensures Screens() == if old(ys[active]) >= ROWS
                           then old(Screens())[active := Scroll(old(Screens())[active])] else old(Screens())
    {
      rounds := 0;
      while ys[active] >= ROWS
        invariant Shape()
        invariant rounds == 0 ==> ys == old(ys) && Screens() == old(Screens())
        invariant rounds > 0 ==> rounds == 1 && old(ys[active]) >= ROWS && ys[active] == ROWS - 1
        invariant rounds > 0 ==> Screens() == old(Screens())[active := Scroll(old(Screens())[active])]
        decreases ys[active]
      {
        if active == display {
          ShiftUpDisplay();
        } else {
          ShiftUp();
        }
        rounds := rounds + 1;
        assert ys[active] == Screens()[active].y;
      }
    }

    /** Stores a glyph at the cursor of terminal t and advances that cursor. */
    method StoreGlyph(t: nat, c: byte)
      requires Shape() && t < TERMINALS && Screens()[t].Valid() && ys[t] < ROWS
      modifies this`xs, this`ys, mem
      ensures Shape() && Screens() == old(Screens())[t := PutGlyph(old(Screens())[t], c)]
    {
      if t == display {
        StoreCell(0, COLS * ys[t] + xs[t], c);
      } else {
        StoreCell(t + 1, COLS * ys[t] + xs[t], c);
      }
      xs := xs[t := xs[t] + 1];
      ys := ys[t := ys[t] + xs[t] / COLS];
      xs := xs[t := xs[t] % COLS];
    }

    method NewlineActive()
      requires Valid()
      modifies this`xs, this`ys, mem
      ensures Shape() && Screens() == old(screens)[active := Put(old(screens)[active], NEWLINE)]
    {
      assert screens == Screens();
      ys := ys[active := ys[active] + 1];
      xs := xs[active := 0];
      var _ := ScrollActive();
    }

    method PutcScroll(c: byte)
      requires Valid()
      modifies this`screens, this`xs, this`ys, mem
      ensures screens == old(screens)[active := Put(old(screens)[active], c)]
      ensures Valid()
    {
      if c == NEWLINE || c == RETURN {
        NewlineActive();
      } else {
        assert screens == Screens();
        var _ := ScrollActive();
        assert ys[active] == Screens()[active].y;
        StoreGlyph(active, c);
      }
      Look();
    }

    /** `len` of -1 stands for the length of the C string, any other negative length for 0. */
    method PutsScroll(s: seq<byte>, len: int) returns (n: nat)
      requires Valid() && len <= |s| && (len == -1 ==> NUL in s)
      modifies this`screens, this`xs, this`ys, mem
      ensures n == (if len == -1 then |CString(s)| else if len < 0 then 0 else len)
      ensures Valid()
      ensures screens == old(screens)[active := PutAll(old(screens)[active], s[..n])]
    {
      var lim := if len == -1 then |CString(s)| else len;
      n := 0;
      while n < lim
        invariant 0 <= n <= |s| && (n <= lim || n == 0) && Valid()
        invariant screens == old(screens)[active := PutAll(old(screens)[active], s[..n])]
      {
        PutcScroll(s[n]);
        assert s[..n + 1][..n] == s[..n];
        n := n + 1;
      }
    }

    /** The scroll loop of `putc_scroll_display`. */
    method ScrollDisplay()
      requires Shape()
      modifies this`xs, this`ys, mem
      ensures Shape()
      ensures Screens() == if old(ys[display]) >= ROWS
                           then old(Screens())[display := Scroll(old(Screens())[display])] else old(Screens())
    {
      while ys[display] >= ROWS
        invariant Shape()
        invariant Screens() == old(Screens())
               || (&& old(ys[display]) >= ROWS && ys[display] < ROWS
                   && Screens() == old(Screens())[display := Scroll(old(Screens())[display])])
        decreases ys[display]
      {
        ShiftUpDisplay();
        assert ys[display] == Screens()[display].y;
      }
      assert ys[display] == Screens()[display].y && old(ys[display]) == old(Screens()[display].y);
    }

    method PutcScrollDisplay(c: byte)
      requires Valid()
      modifies this`screens, this`xs, this`ys, mem
      ensures screens == old(screens)[display := Put(old(screens)[display], c)]
      ensures Valid()
    {
      if c == NEWLINE || c == RETURN {
        NewlineDisplay();
      } else {
        assert screens == Screens();
        ScrollDisplay();
        assert ys[display] == Screens()[display].y;
        StoreGlyph(display, c);
      }
      Look();
    }

    method NewlineDisplay()
      requires Valid()
      modifies this`xs, this`ys, mem
      ensures Shape() && Screens() == old(screens)[display := Put(old(screens)[display], NEWLINE)]
    {
      assert screens == Screens();
      ys := ys[display := ys[display] + 1];
      xs := xs[display := 0];
      ScrollDisplay();
    }

    /** Erasing needs a cell before the cursor: at the origin it would write in front of the page. */
    method DeleteC()
      requires Valid() && screens[display].Offset() > 0
      modifies this`screens, this`xs, this`ys, mem
      ensures screens == old(screens)[display := Delete(old(screens)[display])]
      ensures Valid()
    {
      assert screens == Screens();
      if xs[display] == 0 {
        xs := xs[display := COLS - 1];
        ys := ys[display := ys[display] - 1];
      } else {
        xs := xs[display := xs[display] - 1];
      }
      StoreCell(0, COLS * ys[display] + xs[display], BLANK);
      Look();
    }

    method ClearDisplay()
      requires Valid()
      modifies this`screens, this`xs, this`ys, mem
      ensures screens == old(screens)[display := Clear(old(screens)[display])]
      ensures Valid()
    {
      assert screens == Screens();
      xs := xs[display := 0];
      ys := ys[display := 0];
      var i := 0;
      while i < ROWS * COLS
        modifies mem
        invariant 0 <= i <= ROWS * COLS
        invariant forall j {:trigger mem[j]} :: 0 <= j < mem.Length ==>
                    mem[j] == if j < 2 * i then (if j % 2 == 0 then BLANK else ATTRIB) else old(mem[j])
      {
        mem[2 * i] := BLANK;
        mem[2 * i + 1] := ATTRIB;
        i := i + 1;
      }
      assert Page(0) == Blanked(old(Page(0)));
      OnePage(old(mem[..]), mem[..], 0);
      Look();
    }

    method CopyPage(dst: nat, src: nat)
      requires mem.Length == 4 * PAGE && dst < 4 && src < 4 && dst != src
      modifies mem
      ensures Pages() == old(Pages())[dst := old(Pages())[src]]
    {
      Memory.Memcpy(mem, PAGE * dst, PAGE * src, PAGE);
      CopiedPages(old(mem[..]), dst, src);
    }

    /** The swap moves bytes between pages and moves no screen: all three logical screens stay. */
    method SetDisplayTerminal(t: nat)
      requires Valid() && t < TERMINALS
      modifies this`screens, this`display, mem
      ensures display == t && screens == old(screens)
      ensures Valid()
    {
      assert screens == Screens();
      CopyPage(display + 1, 0);
      CopyPage(0, t + 1);
      display := t;
      Look();
    }

    method SetActiveTerminal(t: nat)
      requires Valid() && t < TERMINALS
      modifies this`screens, this`active
      ensures active == t && screens == old(screens)
      ensures Valid()
    {
      assert screens == Screens();
      active := t;
      Look();
    }
  }
}
