/**
 * The descriptor table inside a process control block (student-distrib/syscall.c).
 * It is kept twice: `flag` in each file entry, read by `read`, `close` and `halt`,
 * and a separate `bitmap`, read by `open` and `write`.
 */
module Descriptors {
  import opened Bytes
  import FS = FileSystem

  const FDS := 8
  const MIN_FILES := 2

  datatype Handlers = NoHandlers | Stdin | Stdout | Rtc | Directory | Regular

  datatype File = File(handlers: Handlers, inode: int, pos: int, flag: bool)

  datatype Table = Table(file: seq<File>, bitmap: seq<bool>)
  {
    predicate Shape() { |file| == FDS && |bitmap| == FDS }

    /** The two records of which descriptors are open say the same. */
    predicate Agree()
      requires Shape()
    {
      forall i :: 0 <= i < FDS ==> file[i].flag == bitmap[i]
    }

    /** Nothing a program opened is left over. */
    predicate Swept()
      requires Shape()
    {
      forall i :: MIN_FILES <= i < FDS ==> !bitmap[i]
    }

    /** The table of a running program: 0 reads the keyboard and 1 writes the screen. */
    predicate Live()
      requires Shape()
    {
      Agree() && bitmap[0] && bitmap[1] && file[0].handlers == Stdin && file[1].handlers == Stdout
    }
  }

  /** What `pcb_init` does: it clears flags 2..7 but never bitmap 2..7. */
  function Init(t: Table): (r: Table)
    requires t.Shape()
    ensures r.Shape()
  {
    Table(seq(FDS, i requires 0 <= i < FDS =>
            if i == 0 then t.file[0].(handlers := Stdin, flag := true)
            else if i == 1 then t.file[1].(handlers := Stdout, flag := true)
            else t.file[i].(flag := false)),
          t.bitmap[0 := true][1 := true])
  }

  function FirstFree(bitmap: seq<bool>, from: nat): (i: nat)
    requires |bitmap| == FDS && from <= FDS
    ensures from <= i <= FDS
    ensures i < FDS ==> !bitmap[i]
    ensures forall j :: from <= j < i ==> bitmap[j]
    decreases FDS - from
  {
    if from == FDS || !bitmap[from] then from else FirstFree(bitmap, from + 1)
  }

  function HandlersFor(ftype: int, was: Handlers): Handlers {
    if ftype == 0 then Rtc else if ftype == 1 then Directory else if ftype == 2 then Regular else was
  }

  function Open(t: Table, d: Option<FS.Dentry>): (r: (Table, int))
    requires t.Shape()
    ensures r.0.Shape()
  {
    if d.None? then (t, -1)
    else
      var i: int := FirstFree(t.bitmap, MIN_FILES);
      if i == FDS then (t, -1)
      else (Table(t.file[i := File(HandlersFor(d.value.ftype, t.file[i].handlers), d.value.inode, 0, true)],
                  t.bitmap[i := true]), i)
  }

  /** The range test admits descriptor 8. Entry 8 of the file array lies on the bitmap: file entries are
      seven words, so the flag word of entry 8 is word 6 of the bitmap. */
  function Close(t: Table, fd: int): (r: (Table, int))
    requires t.Shape()
    ensures r.0.Shape()
  {
    if fd > FDS || fd < MIN_FILES then (t, -1)
    else if fd == FDS then
      (if !t.bitmap[6] then (t, -1) else (t.(bitmap := t.bitmap[6 := false]), 0))
    else if !t.file[fd].flag then (t, -1)
    else (Table(t.file[fd := t.file[fd].(flag := false)], t.bitmap[fd := false]), 0)
  }

  /** The closing loop of `halt` after its first n rounds. */
  function SweepTo(t: Table, n: nat): (r: Table)
    requires t.Shape() && n <= FDS
    ensures r.Shape()
  {
    if n == 0 then t
    else
      var b := SweepTo(t, n - 1);
      var c := if b.file[n - 1].flag then Close(b, n - 1).0 else b;
      c.(file := c.file[n - 1 := c.file[n - 1].(flag := false)])
  }

  function Sweep(t: Table): (r: Table)
    requires t.Shape()
    ensures r.Shape()
  {
    SweepTo(t, |t.file|)
  }

  /** `read` moves the position of the descriptor by what the handler delivered. */
  function Read(t: Table, fd: int, count: int): (r: (Table, int))
    requires t.Shape()
    ensures r.0.Shape()
  {
    if fd >= FDS || fd < 0 then (t, -1)
    else if !t.file[fd].flag || count < 0 then (t, -1)
    else (t.(file := t.file[fd := t.file[fd].(pos := t.file[fd].pos + count)]), count)
  }

  /** Opening an existing file takes the least free descriptor from 2 on, fails exactly when all six are
      taken, starts at position 0, and leaves every other descriptor as it was. */
  lemma OpenTakesLeast(t: Table, d: FS.Dentry)
    requires t.Shape() && t.Agree()
    ensures var (r, fd) := Open(t, Some(d));
            && r.Agree()
            && (fd == -1 <==> forall i :: MIN_FILES <= i < FDS ==> t.file[i].flag)
            && (fd == -1 ==> r == t)
            && (fd != -1 ==>
                  && MIN_FILES <= fd < FDS && !t.file[fd].flag
                  && (forall j :: MIN_FILES <= j < fd ==> t.file[j].flag)
                  && r.file[fd].flag && r.file[fd].pos == 0 && r.file[fd].inode == d.inode
                  && (d.ftype == 0 ==> r.file[fd].handlers == Rtc)
                  && (d.ftype == 1 ==> r.file[fd].handlers == Directory)
                  && (d.ftype == 2 ==> r.file[fd].handlers == Regular)
                  && (forall j :: 0 <= j < FDS && j != fd ==> r.file[j] == t.file[j]))
  {
    var i := FirstFree(t.bitmap, MIN_FILES);
    assert i < FDS ==> t.file[i].flag == t.bitmap[i];
  }

  /** Closing keeps the two records in agreement except in one case: descriptor 8 while 6 is open. */
  lemma CloseAgreesIff(t: Table, fd: int)
    requires t.Shape() && t.Agree()
    ensures Close(t, fd).0.Agree() <==> !(fd == FDS && t.bitmap[6])
    ensures fd != FDS ==> Close(t, fd).1 == if MIN_FILES <= fd < FDS && t.file[fd].flag then 0 else -1
    ensures fd != FDS ==> forall j :: 0 <= j < FDS && j != fd ==> Close(t, fd).0.file[j] == t.file[j]
  {
    var r := Close(t, fd).0;
    if fd == FDS && t.bitmap[6] {
      assert r.file[6].flag != r.bitmap[6];
    }
  }

  /** An open descriptor that is closed can be opened again at once under the same number when it was the
      least free one, and the table is then what it was before the open, up to that file entry. */
  lemma OpenThenClose(t: Table, d: FS.Dentry)
    requires t.Shape() && t.Agree() && Open(t, Some(d)).1 != -1
    ensures var (r, fd) := Open(t, Some(d));
            && Close(r, fd).1 == 0 && Close(r, fd).0.bitmap == t.bitmap
            && (forall j :: 0 <= j < FDS && j != fd ==> Close(r, fd).0.file[j] == t.file[j])
            && Open(Close(r, fd).0, Some(d)) == (r, fd)
  {
    OpenTakesLeast(t, d);
    var (r, fd) := Open(t, Some(d));
    var c := Close(r, fd).0;
    assert c.bitmap == t.bitmap;
    assert HandlersFor(d.ftype, c.file[fd].handlers) == r.file[fd].handlers;
    assert c.file[fd := r.file[fd]] == r.file;
  }

  lemma {:induction false} SweepToClears(t: Table, n: nat)
    requires t.Shape() && t.Agree() && n <= FDS
    ensures var r := SweepTo(t, n);
            && (forall j :: n <= j < FDS ==> r.file[j] == t.file[j] && r.bitmap[j] == t.bitmap[j])
            && (forall j :: MIN_FILES <= j < n ==> !r.bitmap[j])
            && (forall j :: 0 <= j < n ==> !r.file[j].flag)
  {
    if n > 0 {
      SweepToClears(t, n - 1);
    }
  }

  /** Halting leaves the bitmap of a live process swept, so a later `pcb_init` on the same block starts
      with exactly descriptors 0 and 1 open although it clears no bitmap entry. */
  lemma HaltThenReuse(t: Table)
    requires t.Shape() && t.Live()
    ensures Sweep(t).Swept() && forall i :: 0 <= i < FDS ==> !Sweep(t).file[i].flag
    ensures var reused := Init(Sweep(t));
            reused.Live() && forall i :: MIN_FILES <= i < FDS ==> !reused.file[i].flag && !reused.bitmap[i]
  {
    SweepToClears(t, |t.file|);
    var r := Sweep(t);
    assert r == SweepTo(t, |t.file|);
    assert r.Swept();
    InitLive(Sweep(t));
  }

  lemma InitLive(t: Table)
    requires t.Shape() && t.Swept()
    ensures Init(t).Live() && forall i :: MIN_FILES <= i < FDS ==> !Init(t).file[i].flag && !Init(t).bitmap[i]
  {
  }
}
