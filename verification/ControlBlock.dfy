/**
 * A process control block as it lies in memory (student-distrib/syscall.h): seven
 * words, eight file entries of seven words each, and the eight words of the bitmap,
 * at the bottom of a 4 KB page whose other end is the kernel stack. The descriptor
 * calls write words; here they are proved to be the steps of module Descriptors.
 */
module ControlBlock {
  import opened Bytes
  import D = Descriptors
  import opened Processes
  import FS = FileSystem

  const WORDS := 1024

  const PID := 0
  const PPID := 1
  const PARENT_ESP := 2
  const PARENT_EBP := 3
  const CURRENT_ESP := 4
  const CURRENT_EBP := 5
  const TERMINAL := 6
  const FILES := 7
  const STRIDE := 7
  const BITMAP := 63
  const END := 71

  type Block = w: seq<int> | |w| == WORDS witness seq(WORDS, _ => 0)

  function EntryWord(fd: int): int { FILES + STRIDE * fd }

  function InodeWord(fd: int): int { EntryWord(fd) + 4 }

  function PosWord(fd: int): int { EntryWord(fd) + 5 }

  function FlagWord(fd: int): int { EntryWord(fd) + 6 }

  function BitmapWord(fd: int): int { BITMAP + fd }

  /** Symbolic addresses of the handlers: entry point number `op` of each family. */
  function Handler(h: D.Handlers, op: nat): int
    requires op < 4
  {
    match h
    case NoHandlers => 0
    case Stdin => 10 + op
    case Stdout => 20 + op
    case Rtc => 30 + op
    case Directory => 40 + op
    case Regular => 50 + op
  }

  /** The four function pointers of an entry are those of one family. */
  predicate Points(w: Block, fd: nat, h: D.Handlers)
    requires fd < D.FDS
  {
    var e := EntryWord(fd);
    w[e] == Handler(h, 0) && w[e + 1] == Handler(h, 1) && w[e + 2] == Handler(h, 2) && w[e + 3] == Handler(h, 3)
  }

  function HandlersOf(w: Block, fd: nat): D.Handlers
    requires fd < D.FDS
  {
    if Points(w, fd, D.Stdin) then D.Stdin else if Points(w, fd, D.Stdout) then D.Stdout
    else if Points(w, fd, D.Rtc) then D.Rtc else if Points(w, fd, D.Directory) then D.Directory
    else if Points(w, fd, D.Regular) then D.Regular else D.NoHandlers
  }

  function FileOf(w: Block, fd: nat): D.File
    requires fd < D.FDS
  {
    D.File(HandlersOf(w, fd), w[InodeWord(fd)], w[PosWord(fd)], w[FlagWord(fd)] != 0)
  }

  /** The descriptor table that a block holds. */
  function TableOf(w: Block): (t: D.Table)
    ensures t.Shape()
  {
    D.Table(seq(D.FDS, i requires 0 <= i < D.FDS => FileOf(w, i)),
            seq(D.FDS, i requires 0 <= i < D.FDS => w[BitmapWord(i)] != 0))
  }

  function PcbOf(w: Block): Pcb { Pcb(w[PID], w[PPID], w[TERMINAL], TableOf(w)) }

  function PcbsOf(ws: seq<Block>): (r: seq<Pcb>)
    ensures |r| == |ws|
  {
    seq(|ws|, i requires 0 <= i < |ws| => PcbOf(ws[i]))
  }

  lemma PcbsUpdate(ws: seq<Block>, p: nat, w: Block)
    requires p < |ws|
    ensures PcbsOf(ws[p := w]) == PcbsOf(ws)[p := PcbOf(w)]
  {
  }

  /** Entry 8, past the end of the array: its flag word is word 6 of the bitmap, and the bitmap word that
      belongs to it is the first one behind the block. */
  lemma EntryEightOverlaps()
    ensures FlagWord(D.FDS) == BitmapWord(6) && BitmapWord(D.FDS) == END
  {
  }

  /** Two blocks with the same words in entry fd hold the same file there. */
  lemma SameFile(w: Block, r: Block, fd: nat)
    requires fd < D.FDS && forall j :: EntryWord(fd) <= j < EntryWord(fd) + STRIDE ==> r[j] == w[j]
    ensures FileOf(r, fd) == FileOf(w, fd)
  {
    var e := EntryWord(fd);
    assert r[e] == w[e] && r[e + 1] == w[e + 1] && r[e + 2] == w[e + 2] && r[e + 3] == w[e + 3];
    assert forall h :: Points(r, fd, h) <==> Points(w, fd, h);
  }

  /** A write to entry fd changes that file only. */
  lemma WriteEntry(w: Block, r: Block, fd: nat)
    requires fd < D.FDS
    requires forall j :: 0 <= j < WORDS && !(EntryWord(fd) <= j < EntryWord(fd) + STRIDE) ==> r[j] == w[j]
    ensures TableOf(r) == TableOf(w).(file := TableOf(w).file[fd := FileOf(r, fd)])
  {
    forall i: nat | i < D.FDS && i != fd ensures FileOf(r, i) == FileOf(w, i) {
      SameFile(w, r, i);
    }
    assert TableOf(r).file == TableOf(w).file[fd := FileOf(r, fd)];
    assert TableOf(r).bitmap == TableOf(w).bitmap;
  }

  lemma WriteFlag(w: Block, fd: nat, v: int)
    requires fd < D.FDS
    ensures var r, t := w[FlagWord(fd) := v], TableOf(w);
            TableOf(r) == t.(file := t.file[fd := t.file[fd].(flag := v != 0)])
  {
    var r := w[FlagWord(fd) := v];
    WriteEntry(w, r, fd);
    assert forall h :: Points(r, fd, h) <==> Points(w, fd, h);
  }

  lemma WritePos(w: Block, fd: nat, v: int)
    requires fd < D.FDS
    ensures var r, t := w[PosWord(fd) := v], TableOf(w);
            TableOf(r) == t.(file := t.file[fd := t.file[fd].(pos := v)])
  {
    var r := w[PosWord(fd) := v];
    WriteEntry(w, r, fd);
    assert forall h :: Points(r, fd, h) <==> Points(w, fd, h);
  }

  lemma WriteBitmap(w: Block, i: nat, v: int)
    requires i < D.FDS
    ensures var r, t := w[BitmapWord(i) := v], TableOf(w);
            TableOf(r) == t.(bitmap := t.bitmap[i := v != 0])
  {
    var r := w[BitmapWord(i) := v];
    forall k: nat | k < D.FDS ensures FileOf(r, k) == FileOf(w, k) {
      SameFile(w, r, k);
    }
    assert TableOf(r).file == TableOf(w).file;
    assert TableOf(r).bitmap == TableOf(w).bitmap[i := v != 0];
  }

  /** Words in front of the entries and behind the bitmap are not part of the table. */
  lemma WriteElsewhere(w: Block, r: Block)
    requires forall j :: FILES <= j < END ==> r[j] == w[j]
    ensures TableOf(r) == TableOf(w)
  {
    forall k: nat | k < D.FDS ensures FileOf(r, k) == FileOf(w, k) {
      SameFile(w, r, k);
    }
    assert TableOf(r).file == TableOf(w).file;
    assert TableOf(r).bitmap == TableOf(w).bitmap;
  }

  /** The words in front of the table are the same. */
  predicate SameHeader(w: Block, r: Block) { forall j :: 0 <= j < FILES ==> r[j] == w[j] }

  function Zeroed(): Block { seq(WORDS, _ => 0) }

  lemma ZeroedPcb()
    ensures PcbOf(Zeroed()) ==
            Pcb(0, 0, 0, D.Table(seq(D.FDS, _ => D.File(D.NoHandlers, 0, 0, false)), seq(D.FDS, _ => false)))
  {
  }

  /** No word outside the table differs. */
  predicate SameOutside(w: Block, r: Block) {
    forall j :: 0 <= j < WORDS && (j < FILES || END <= j) ==> r[j] == w[j]
  }

  /** `close`: the flag word is addressed by the entry stride alone, so descriptor 8 needs no case of its own
      here; that it acts on bitmap word 6 follows from the layout. Its second write clears the word behind
      the block. */
  method CloseWords(w: Block, fd: int) returns (r: Block, ret: int)
    ensures TableOf(r) == D.Close(TableOf(w), fd).0 && ret == D.Close(TableOf(w), fd).1
    ensures forall j :: 0 <= j < FILES || END < j < WORDS ==> r[j] == w[j]
    ensures r[END] == if fd == D.FDS && ret == 0 then 0 else w[END]
  {
    r := w;
    if fd > D.FDS || fd < D.MIN_FILES {
      return r, -1;
    }
    EntryEightOverlaps();
    if r[FlagWord(fd)] == 0 {
      return r, -1;
    }
    if fd < D.FDS {
      WriteFlag(w, fd, 0);
      WriteBitmap(w[FlagWord(fd) := 0], fd, 0);
    } else {
      WriteBitmap(w, 6, 0);
      WriteElsewhere(w[FlagWord(fd) := 0], w[FlagWord(fd) := 0][END := 0]);
    }
    r := r[FlagWord(fd) := 0];
    r := r[BitmapWord(fd) := 0];
    return r, 0;
  }

  /** The closing loop of `halt`. */
  method CloseAll(w: Block) returns (r: Block)
    ensures TableOf(r) == D.Sweep(TableOf(w)) && SameOutside(w, r)
  {
    r := w;
    var i := 0;
    while i < D.FDS
      invariant 0 <= i <= D.FDS && TableOf(r) == D.SweepTo(TableOf(w), i) && SameOutside(w, r)
    {
      if r[FlagWord(i)] != 0 {
        var closed, _ := CloseWords(r, i);
        r := closed;
      }
      WriteFlag(r, i, 0);
      r := r[FlagWord(i) := 0];
      i := i + 1;
    }
  }

  /** `open` once the directory entry is found. */
  method OpenWords(w: Block, d: FS.Dentry) returns (r: Block, fd: int)
    ensures TableOf(r) == D.Open(TableOf(w), Some(d)).0 && fd == D.Open(TableOf(w), Some(d)).1
    ensures SameOutside(w, r)
  {
    r, fd := w, D.MIN_FILES;
    ghost var t := TableOf(w);
    while fd < D.FDS && r[BitmapWord(fd)] != 0
      invariant D.MIN_FILES <= fd <= D.FDS
      invariant D.FirstFree(t.bitmap, D.MIN_FILES) == D.FirstFree(t.bitmap, fd)
    {
      assert t.bitmap[fd];
      fd := fd + 1;
    }
    assert fd < D.FDS ==> !t.bitmap[fd];
    if fd == D.FDS {
      return w, -1;
    }
    WriteBitmap(w, fd, 1);
    r := r[BitmapWord(fd) := 1];
    r := FillEntry(r, fd, d);
  }

  /** A file type that is none of the three leaves the pointers as they were. */
  method FillEntry(w: Block, fd: nat, d: FS.Dentry) returns (r: Block)
    requires fd < D.FDS
    ensures var t := TableOf(w);
            var f := D.File(D.HandlersFor(d.ftype, t.file[fd].handlers), d.inode, 0, true);
            TableOf(r) == t.(file := t.file[fd := f])
    ensures SameOutside(w, r)
  {
    r := w;
    if d.ftype == 0 {
      r := SetHandlers(r, fd, D.Rtc);
    }
    if d.ftype == 1 {
      r := SetHandlers(r, fd, D.Directory);
    }
    if d.ftype == 2 {
      r := SetHandlers(r, fd, D.Regular);
    }
    ghost var m := r;
    r := r[InodeWord(fd) := d.inode][FlagWord(fd) := 1][PosWord(fd) := 0];
    assert forall h :: Points(r, fd, h) <==> Points(m, fd, h);
    assert FileOf(r, fd) == D.File(HandlersOf(m, fd), d.inode, 0, true);
    WriteEntry(w, r, fd);
  }

  method SetHandlers(w: Block, fd: nat, h: D.Handlers) returns (r: Block)
    requires fd < D.FDS && h != D.NoHandlers
    ensures HandlersOf(r, fd) == h
    ensures FileOf(r, fd) == FileOf(w, fd).(handlers := h)
    ensures forall j :: 0 <= j < WORDS && !(EntryWord(fd) <= j < EntryWord(fd) + 4) ==> r[j] == w[j]
  {
    var e := EntryWord(fd);
    r := w[e := Handler(h, 0)][e + 1 := Handler(h, 1)][e + 2 := Handler(h, 2)][e + 3 := Handler(h, 3)];
    assert Points(r, fd, h) && forall g :: g != h ==> !Points(r, fd, g);
  }

  /** The descriptor part of `pcb_init`: flags 2 to 7 are cleared, their bitmap words are left as they are. */
  method InitWords(w: Block) returns (r: Block)
    ensures TableOf(r) == D.Init(TableOf(w)) && SameOutside(w, r)
  {
    r := InitStandard(w, 0, D.Stdin);
    r := InitStandard(r, 1, D.Stdout);
    ghost var m, t := r, TableOf(w);
    var i := D.MIN_FILES;
    while i < D.FDS
      invariant D.MIN_FILES <= i <= D.FDS && SameOutside(w, r)
      invariant TableOf(r).bitmap == D.Init(t).bitmap
      invariant forall j :: 0 <= j < D.FDS ==> TableOf(r).file[j] == if j < i then D.Init(t).file[j] else t.file[j]
    {
      WriteFlag(r, i, 0);
      r := r[FlagWord(i) := 0];
      i := i + 1;
    }
    assert TableOf(r).file == D.Init(t).file;
  }

  method InitStandard(w: Block, fd: nat, h: D.Handlers) returns (r: Block)
    requires fd < D.FDS && h != D.NoHandlers
    ensures var t := TableOf(w);
            TableOf(r) == D.Table(t.file[fd := t.file[fd].(handlers := h, flag := true)], t.bitmap[fd := true])
    ensures SameOutside(w, r)
  {
    r := SetHandlers(w, fd, h);
    WriteEntry(w, r, fd);
    WriteFlag(r, fd, 1);
    r := r[FlagWord(fd) := 1];
    WriteBitmap(r, fd, 1);
    r := r[BitmapWord(fd) := 1];
  }
}
