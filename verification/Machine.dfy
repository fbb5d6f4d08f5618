/**
 * The kernel's process code as it runs: globals and control blocks updated in place,
 * tables scanned by loops (student-distrib/syscall.c, timer.c, keyboard.c). Each
 * method is proved to take the step of module Processes that the whole-run theorems
 * are about.
 */
module Machine {
  import opened Bytes
  import opened Processes
  import opened ProcessStacks
  import opened ControlBlock
  import D = Descriptors
  import FS = FileSystem
  import X = Executable
  import P = Paging

  /** The top of a pid's kernel stack. */
  function StackTop(pid: int): int { 0x80_0000 - 0x1000 * pid - 0x10 }

  class Machine {
    const img: FS.Image
    const dir: FS.Directory
    var procState: seq<bool>
    var tCurr: seq<int>
    var curr: int
    var pcb: seq<Block>
    var active: int
    var display: int
    var started: seq<bool>
    var tables: P.Tables

    ghost function K(): Kernel
      reads this
    {
      Kernel(procState, tCurr, curr, PcbsOf(pcb), active, display, started, tables)
    }

    ghost predicate Valid()
      reads this, dir
    {
      K().Shape() && tCurr[0] != NONE && img.Valid() && dir.Valid() && dir.img == img
    }

    /** Zeroed memory, and the first shell started on terminal 0. */
    constructor (img: FS.Image)
      requires img.Valid()
      ensures Valid() && this.img == img && K() == Boot() && fresh(dir)
    {
      this.img := img;
      dir := new FS.Directory(img);
      procState, tCurr, curr := seq(PROCS, _ => false), [NONE, NONE, NONE], 0;
      pcb := seq(PROCS, _ => Zeroed());
      active, display, started, tables := 0, 0, [true, false, false], P.Initial();
      new;
      ZeroedPcb();
      ghost var none := D.Table(seq(D.FDS, _ => D.File(D.NoHandlers, 0, 0, false)), seq(D.FDS, _ => false));
      assert PcbsOf(pcb) == seq(PROCS, _ => Pcb(0, 0, 0, none));
      BootFields();
      ExecuteWithTerminalNum(0, true);
    }

    method GetFreePid() returns (r: int)
      requires K().Shape()
      ensures r == GetPid(procState)
    {
      var i := 0;
      while i < PROCS
        invariant 0 <= i <= PROCS
        invariant forall p :: 0 <= p < i ==> procState[p]
      {
        if !procState[i] {
          return i;
        }
        i := i + 1;
      }
      return -1;
    }

    /** Stores block p and says what the kernel state then is. */
    method SetBlock(p: int, w: Block)
      requires 0 <= p < |pcb|
      modifies this`pcb
      ensures pcb == old(pcb)[p := w] && K() == old(K()).(pcb := old(K()).pcb[p := PcbOf(w)])
    {
      PcbsUpdate(pcb, p, w);
      pcb := pcb[p := w];
    }

    /** `pcb_init`. The parent block may be the new block itself, whose pid has just been written. */
    method PcbInitAt(pid: int, t: int)
      requires K().Shape() && 0 <= pid < PROCS && 0 <= t < TERMS
      modifies this`pcb, this`curr, this`tCurr
      ensures K() == PcbInit(old(K()), pid, t)
      ensures pcb[pid][CURRENT_ESP] == pcb[pid][CURRENT_EBP] == StackTop(pid)
      ensures old(tCurr[t]) != NONE && pid != old(curr) ==>
                pcb[pid][PARENT_ESP] == pcb[pid][PARENT_EBP] == old(pcb[curr][CURRENT_EBP])
      ensures old(tCurr[t]) != NONE && pid == old(curr) ==>
                pcb[pid][PARENT_ESP] == pcb[pid][PARENT_EBP] == StackTop(pid)
      ensures old(tCurr[t]) == NONE ==>
                pcb[pid][PARENT_ESP] == StackTop(pid) && pcb[pid][PARENT_EBP] == old(pcb[pid][PARENT_EBP])
    {
      var w := InitWords(pcb[pid][PID := pid]);
      WriteElsewhere(pcb[pid], pcb[pid][PID := pid]);
      ghost var init := w;
      w := w[CURRENT_EBP := StackTop(pid)][CURRENT_ESP := StackTop(pid)];
      var parent := if curr == pid then w else pcb[curr];
      assert pcb[curr][PID] == K().pcb[curr].pid;
      if tCurr[t] == NONE {
        w := w[PPID := pid][PARENT_ESP := StackTop(pid)];
      } else {
        w := w[PPID := parent[PID]][PARENT_EBP := parent[CURRENT_EBP]][PARENT_ESP := parent[CURRENT_EBP]];
      }
      w := w[TERMINAL := t];
      WriteElsewhere(init, w);
      curr := pid;
      tCurr := tCurr[t := pid];
      SetBlock(pid, w);
    }

    /** `valid` is the verdict of `verify_file` on the command. */
    method ExecuteWithTerminalNum(t: int, valid: bool)
      requires K().Shape() && 0 <= t < TERMS
      modifies this`procState, this`pcb, this`curr, this`tCurr, this`tables, this`active
      ensures K() == ExecuteOn(old(K()), t, valid)
    {
      if !valid {
        return;
      }
      var pid := GetFreePid();
      if pid == -1 {
        return;
      }
      procState := procState[pid := true];
      PcbInitAt(pid, t);
      tables := P.MapPid(tables, pid);
      active := t;
    }

    /** `execute` on a command line: parsed, checked, and the file loaded at the program's address. A command
        that does not verify, or a full process table, starts nothing and loads nothing; otherwise the program
        image is the whole file, or its first 4 MB. `g0` and `g1` are stack leftovers as in `CheckFile`. */
    method ExecuteCommand(t: int, cmd: seq<byte>, argBuf: array<byte>, program: array<byte>,
                          g0: seq<byte>, g1: seq<byte>)
      returns (entry: Option<nat>)
      requires K().Shape() && img.Valid() && 0 <= t < TERMS && NUL !in cmd && X.Fits(cmd) && |g0| == |g1| == 4
      requires argBuf.Length == X.CMD_LIMIT && argBuf != program
      requires X.Checkable(img, Padded(X.FileName(cmd), X.CMD_LIMIT))
      requires var i := FS.IndexOf(img.dentries, Padded(X.FileName(cmd), X.CMD_LIMIT));
               i < |img.dentries| ==> Roomy(img.dentries[i].inode, program.Length)
      modifies this`procState, this`pcb, this`curr, this`tCurr, this`tables, this`active, argBuf, program
      ensures entry == X.Verdict(img, Padded(X.FileName(cmd), X.CMD_LIMIT), g0, g1)
      ensures K() == ExecuteOn(old(K()), t, entry.Some?) && argBuf[..] == Padded(X.ArgText(cmd), X.CMD_LIMIT)
      ensures X.RightVerdict(img, Padded(X.FileName(cmd), X.CMD_LIMIT), entry) && (entry.None? ==> K() == old(K()))
      ensures entry.None? || GetPid(old(procState)) == -1 ==> program[..] == old(program[..])
      ensures entry.Some? && GetPid(old(procState)) != -1 ==>
                var inode := img.dentries[FS.IndexOf(img.dentries, Padded(X.FileName(cmd), X.CMD_LIMIT))].inode;
                if FS.ValidInode(img, inode) then
                  var n := FS.Min(FS.PROGRAM_MAX, img.inodes[inode].length);
                  program[..n] == FS.Span(img, img.inodes[inode], 0, n) && program[n..] == old(program[n..])
                else program[..] == old(program[..])
    {
      X.VerdictRight(img, Padded(X.FileName(cmd), X.CMD_LIMIT), g0, g1);
      var inFile := new byte[X.CMD_LIMIT];
      var argSize;
      entry, argSize := X.VerifyFile(img, cmd, inFile, argBuf, g0, g1);
      var pid := GetFreePid();
      ExecuteWithTerminalNum(t, entry.Some?);
      if entry.Some? && pid != -1 {
        var d := FS.ReadDentryByName(img, inFile[..]);
        var _ := FS.ReadF(img, d.value.inode, program);
      }
    }

    /** A program image of `size` bytes has room for what the loader reads, and those blocks exist. */
    ghost predicate Roomy(inode: nat, size: nat) {
      FS.ValidInode(img, inode) ==>
        var n := FS.Min(FS.PROGRAM_MAX, img.inodes[inode].length);
        n <= size && FS.AllMapped(img, img.inodes[inode], 0, n)
    }

    /** `halt` up to the respawn test. */
    method RetireCurrent()
      requires K().Shape()
      modifies this`procState, this`pcb, this`curr, this`tCurr
      ensures K() == Retire(old(K()))
    {
      var cur := curr;
      assert PcbOf(pcb[cur]) == K().pcb[cur];
      procState := procState[pcb[cur][PID] := false];
      var w := CloseAll(pcb[cur]);
      SetBlock(cur, w);
      curr := w[PPID];
      tCurr := tCurr[w[TERMINAL] := w[PPID]];
    }

    method HaltProcess()
      requires Valid()
      modifies this`procState, this`pcb, this`curr, this`tCurr, this`tables, this`active
      ensures K() == Halt(old(K()))
    {
      var cur := pcb[curr];
      assert PcbOf(cur) == K().pcb[curr];
      RetireCurrent();
      if cur[PID] == cur[PPID] {
        ExecuteWithTerminalNum(cur[TERMINAL], true);
      } else {
        assert PcbOf(pcb[cur[PPID]]) == K().pcb[cur[PPID]];
        tables := P.MapPid(tables, pcb[cur[PPID]][PID]);
      }
    }

    /** The search ends because terminal 0 is occupied: the cyclic distance to it shrinks. */
    method FindNextTerminal(t: int) returns (nxt: int)
      requires |tCurr| == TERMS && tCurr[0] != NONE && 0 <= t < TERMS
      ensures nxt == NextTerminal(Occupied(tCurr), t)
    {
      nxt := (t + 1) % TERMS;
      ghost var seen := 1;
      while tCurr[nxt] == NONE
        invariant 1 <= seen <= TERMS && nxt == (t + seen) % TERMS
        invariant seen >= 2 ==> tCurr[(t + 1) % TERMS] == NONE
        invariant seen >= 3 ==> tCurr[(t + 2) % TERMS] == NONE
        decreases (TERMS - nxt) % TERMS
      {
        nxt := (nxt + 1) % TERMS;
        seen := seen + 1;
      }
    }

    method PitIntHandler()
      requires Valid()
      modifies this`tables, this`curr, this`active
      ensures K() == Tick(old(K()))
    {
      assert PcbOf(pcb[curr]) == K().pcb[curr];
      var nxt := FindNextTerminal(pcb[curr][TERMINAL]);
      var n := pcb[tCurr[nxt]];
      assert PcbOf(n) == K().pcb[tCurr[nxt]];
      tables := P.MapPid(tables, n[PID]);
      tables := P.MapVideo(tables, n[TERMINAL], display);
      curr := n[PID];
      active := n[TERMINAL];
    }

    /** Alt-F2 and Alt-F3. */
    method ShowTerminal(t: int)
      requires Valid() && 0 < t < TERMS
      modifies this`procState, this`pcb, this`curr, this`tCurr, this`tables, this`active, this`display, this`started
      ensures K() == Spawn(old(K()), t)
    {
      display := t;
      if !started[t] {
        var pid := GetFreePid();
        if pid == -1 {
          return;
        }
        started := started[t := true];
        ExecuteWithTerminalNum(t, true);
      }
    }

    /** `open` once the name is looked up. Opening a directory rewinds the one directory index there is. */
    method OpenFd(entry: Option<FS.Dentry>) returns (fd: int)
      requires Valid()
      modifies this`pcb, dir
      ensures K() == WithFds(old(K()), D.Open(old(K()).Cur().fds, entry).0)
      ensures fd == D.Open(old(K()).Cur().fds, entry).1
      ensures dir.Valid() && dir.index == if fd != -1 && entry.value.ftype == 1 then 0 else old(dir.index)
    {
      Unchanged(K());
      if entry.None? {
        return -1;
      }
      var w: Block;
      w, fd := OpenWords(pcb[curr], entry.value);
      if fd != -1 && entry.value.ftype == 1 {
        dir.OpenDir();
      }
      SetTable(w);
    }

    /** `open`: the entry is the one with the least index among those of that name. */
    method Open(fname: seq<byte>) returns (fd: int)
      requires Valid() && FS.Terminated(fname, FS.NAME)
      modifies this`pcb, dir
      ensures var entry := FS.ByIndex(img, FS.IndexOf(img.dentries, fname));
              && K() == WithFds(old(K()), D.Open(old(K()).Cur().fds, entry).0)
              && fd == D.Open(old(K()).Cur().fds, entry).1
              && dir.Valid() && dir.index == if fd != -1 && entry.value.ftype == 1 then 0 else old(dir.index)
    {
      var entry := FS.ReadDentryByName(img, fname);
      fd := OpenFd(entry);
    }

    /** The running process's block gets a new descriptor table and nothing else. */
    method SetTable(w: Block)
      requires K().Shape() && SameHeader(pcb[curr], w)
      modifies this`pcb
      ensures K() == WithFds(old(K()), TableOf(w)) && pcb == old(pcb)[curr := w]
    {
      assert PcbOf(pcb[curr]) == K().pcb[curr];
      SetBlock(curr, w);
    }

    /** `close`, with descriptor 8 admitted as in the source. */
    method CloseFd(fd: int) returns (r: int)
      requires Valid()
      modifies this`pcb
      ensures K() == WithFds(old(K()), D.Close(old(K()).Cur().fds, fd).0)
      ensures r == D.Close(old(K()).Cur().fds, fd).1
      ensures pcb[curr][END] == if fd == D.FDS && r == 0 then 0 else old(pcb[curr][END])
    {
      assert PcbOf(pcb[curr]) == K().pcb[curr];
      var w: Block;
      w, r := CloseWords(pcb[curr], fd);
      SetTable(w);
    }

    /** `read` around its handler, which returned `count`. */
    method ReadFd(fd: int, count: int) returns (r: int)
      requires Valid()
      modifies this`pcb
      ensures K() == WithFds(old(K()), D.Read(old(K()).Cur().fds, fd, count).0)
      ensures r == D.Read(old(K()).Cur().fds, fd, count).1
    {
      Unchanged(K());
      assert PcbOf(pcb[curr]) == K().pcb[curr];
      if fd >= D.FDS || fd < 0 {
        return -1;
      }
      var w := pcb[curr];
      if w[FlagWord(fd)] == 0 {
        return -1;
      }
      if count < 0 {
        return -1;
      }
      WritePos(w, fd, w[PosWord(fd)] + count);
      SetTable(w[PosWord(fd) := w[PosWord(fd)] + count]);
      return count;
    }

    /** What the handlers of the running process's descriptor fd deliver for `nbytes`; terminals and the clock
        answer `device`. */
    ghost function Delivered(f: D.File, nbytes: nat, device: int): int
      requires f.handlers == D.Regular ==> f.inode >= 0 && f.pos >= 0
      reads dir
    {
      match f.handlers
      case Regular => if FS.ValidInode(img, f.inode) then FS.Count(img.inodes[f.inode].length, f.pos, nbytes) else -1
      case Directory => if dir.index < |img.dentries| then FS.NAME else 0
      case Stdout => -1
      case _ => device
    }

    /** A read of an open descriptor has room and its blocks exist. */
    ghost predicate Readable(f: D.File, size: nat, nbytes: nat) {
      && (f.handlers == D.Directory ==> FS.NAME <= size)
      && (f.handlers == D.Regular ==>
            && f.inode >= 0 && f.pos >= 0
            && (FS.ValidInode(img, f.inode) ==>
                  var n := FS.Count(img.inodes[f.inode].length, f.pos, nbytes);
                  n <= size && FS.AllMapped(img, img.inodes[f.inode], f.pos, f.pos + n)))
    }

    /** `read`: the handler fills the buffer, and the position of that descriptor moves by what it delivered. */
    method Read(fd: int, buf: array<byte>, nbytes: nat, device: int) returns (r: int)
      requires Valid()
      requires 0 <= fd < D.FDS && K().Cur().fds.file[fd].flag ==> Readable(K().Cur().fds.file[fd], buf.Length, nbytes)
      modifies this`pcb, dir, buf
      ensures dir.Valid() && K().Shape()
      ensures var t := old(K()).Cur().fds;
              if 0 <= fd < D.FDS && t.file[fd].flag then
                var f, n := t.file[fd], old(Delivered(K().Cur().fds.file[fd], nbytes, device));
                && K() == WithFds(old(K()), D.Read(t, fd, n).0) && r == D.Read(t, fd, n).1
                && dir.index == (if f.handlers == D.Directory && n > 0 then old(dir.index) + 1 else old(dir.index))
                && (f.handlers == D.Regular && n >= 0 ==>
                      buf[..n] == FS.Span(img, img.inodes[f.inode], f.pos, f.pos + n) && buf[n..] == old(buf[n..]))
                && (f.handlers == D.Directory && n > 0 ==> buf[..n] == img.dentries[old(dir.index)].fname)
              else K() == old(K()) && r == -1 && dir.index == old(dir.index) && buf[..] == old(buf[..])
    {
      assert PcbOf(pcb[curr]) == K().pcb[curr];
      if fd >= D.FDS || fd < 0 {
        return -1;
      }
      var w := pcb[curr];
      assert TableOf(w).file[fd] == FileOf(w, fd);
      if w[FlagWord(fd)] == 0 {
        return -1;
      }
      var count := CallHandler(FileOf(w, fd), buf, nbytes, device);
      r := ReadFd(fd, count);
    }

    /** The jump through the entry's read pointer. */
    method CallHandler(f: D.File, buf: array<byte>, nbytes: nat, device: int) returns (n: int)
      requires img.Valid() && dir.Valid() && dir.img == img && Readable(f, buf.Length, nbytes)
      modifies dir, buf
      ensures dir.Valid() && n == old(Delivered(f, nbytes, device))
      ensures dir.index == if f.handlers == D.Directory && n > 0 then old(dir.index) + 1 else old(dir.index)
      ensures f.handlers == D.Regular && n >= 0 ==>
                buf[..n] == FS.Span(img, img.inodes[f.inode], f.pos, f.pos + n) && buf[n..] == old(buf[n..])
      ensures f.handlers == D.Directory && n > 0 ==> buf[..n] == img.dentries[old(dir.index)].fname
    {
      match f.handlers
      case Regular =>
        n := FS.ReadData(img, f.inode, f.pos, buf, nbytes);
      case Directory =>
        var name;
        n, name := dir.ReadDir();
        var i := 0;
        while i < |name|
          modifies buf
          invariant 0 <= i <= |name| && buf[..i] == name[..i]
        {
          buf[i] := name[i];
          i := i + 1;
        }
        assert name[..|name|] == name;
      case Stdout =>
        n := -1;
      case _ =>
        n := device;
    }

    /** A regular file whose blocks exist as far as reading it with chunk c goes. */
    ghost predicate Drainable(f: D.File, c: nat)
      requires c > 0
    {
      && f.handlers == D.Regular && f.inode >= 0 && f.pos >= 0 && FS.ValidInode(img, f.inode)
      && FS.AllMapped(img, img.inodes[f.inode], f.pos, FS.DrainedTo(img.inodes[f.inode].length, c, f.pos))
    }

    /** One chunk of an open regular file whose position has come to `pos` since state k. */
    method ReadChunk(fd: nat, buf: array<byte>, ghost k: Kernel, ghost pos: nat) returns (cnt: int)
      requires Valid() && fd < D.FDS && k.Shape() && k.Cur().fds.file[fd].flag
      requires K() == WithFds(k, Moved(k.Cur().fds, fd, pos))
      requires var f := k.Cur().fds.file[fd];
               && f.handlers == D.Regular && f.inode >= 0 && FS.ValidInode(img, f.inode)
               && var n := FS.Count(img.inodes[f.inode].length, pos, buf.Length);
                  FS.AllMapped(img, img.inodes[f.inode], pos, pos + n)
      modifies this`pcb, dir, buf
      ensures var ino := img.inodes[k.Cur().fds.file[fd].inode];
              && cnt == FS.Count(ino.length, pos, buf.Length) && buf[..cnt] == FS.Span(img, ino, pos, pos + cnt)
      ensures Valid() && K() == WithFds(k, Moved(k.Cur().fds, fd, pos + cnt)) && dir.index == old(dir.index)
    {
      MovedFacts(k, fd, pos);
      ghost var f := k.Cur().fds.file[fd];
      MovedOn(k, fd, pos, FS.Count(img.inodes[f.inode].length, pos, buf.Length));
      cnt := Read(fd, buf, buf.Length, 0);
    }

    /** Reading an open regular file through its descriptor until 0 comes: what is delivered is the block chain
        from the descriptor's position to where `DrainedTo` says, that is where the position is left, and no
        other descriptor and nothing else of the kernel changes. */
    method DrainFd(fd: nat, c: nat) returns (out: seq<byte>)
      requires Valid() && fd < D.FDS && c > 0 && K().Cur().fds.file[fd].flag
      requires Drainable(K().Cur().fds.file[fd], c)
      modifies this`pcb, dir
      ensures var f := old(K()).Cur().fds.file[fd];
              var end := FS.DrainedTo(img.inodes[f.inode].length, c, f.pos);
              && out == FS.Span(img, img.inodes[f.inode], f.pos, end)
              && K() == WithFds(old(K()), Moved(old(K()).Cur().fds, fd, end))
              && dir.Valid() && dir.index == old(dir.index)
    {
      ghost var k, t := K(), K().Cur().fds;
      ghost var f := t.file[fd];
      ghost var ino := img.inodes[f.inode];
      ghost var end := FS.DrainedTo(ino.length, c, f.pos);
      var buf := new byte[c];
      out := [];
      ghost var pos: nat := f.pos;
      Unmoved(k, fd);
      while true
        modifies this`pcb, dir, buf
        invariant f.pos <= pos <= end == FS.DrainedTo(ino.length, c, pos)
        invariant out == FS.Span(img, ino, f.pos, pos)
        invariant Valid() && K() == WithFds(k, Moved(t, fd, pos)) && dir.index == old(dir.index)
        decreases ino.length - pos
      {
        FS.DrainNext(ino.length, c, pos);
        FS.DrainExtends(img, ino, f.pos, pos, FS.Count(ino.length, pos, c), end);
        var cnt := ReadChunk(fd, buf, k, pos);
        if cnt == 0 {
          break;
        }
        out := out + buf[..cnt];
        pos := pos + cnt;
      }
    }

    /** `write` of `nbytes` bytes: only the screen and the clock take any, and the kernel state does not change.
        What the terminal then shows is `Keyboard.TerminalWrite`. */
    method Write(fd: int, nbytes: nat, device: int) returns (r: int)
      requires Valid()
      ensures !(0 <= fd < D.FDS) || !K().Cur().fds.bitmap[fd] ==> r == -1
      ensures K().Cur().fds.Live() && fd == 0 ==> r == -1
      ensures K().Cur().fds.Live() && fd == 1 ==> r == nbytes
      ensures 0 <= fd < D.FDS && K().Cur().fds.bitmap[fd] ==>
                match K().Cur().fds.file[fd].handlers
                case Stdout => r == nbytes
                case Stdin => r == -1
                case Directory => r == -1
                case Regular => r == -1
                case _ => r == if device < 0 then -1 else device
    {
      var w := pcb[curr];
      assert PcbOf(w) == K().pcb[curr];
      if fd >= D.FDS || fd < 0 {
        return -1;
      }
      assert TableOf(w).bitmap[fd] == (w[BitmapWord(fd)] != 0);
      if w[BitmapWord(fd)] == 0 {
        return -1;
      }
      assert TableOf(w).file[fd] == FileOf(w, fd);
      var count := match HandlersOf(w, fd)
        case Stdout => nbytes
        case Stdin => -1
        case Directory => -1
        case Regular => -1
        case _ => device;
      if count < 0 {
        return -1;
      }
      r := count;
    }

    /** Descriptors 0 and 1 of a live program: what the keyboard delivers, and nothing from the screen. */
    method ReadStandard(fd: int, buf: array<byte>, nbytes: nat, device: int) returns (r: int)
      requires Valid() && K().Cur().fds.Live() && 0 <= fd <= 1
      modifies this`pcb, dir, buf
      ensures r == if fd == 0 && device >= 0 then device else -1
      ensures dir.index == old(dir.index)
    {
      r := Read(fd, buf, nbytes, device);
    }

    /** Opening an entry that exists while a descriptor is free. */
    method OpenKnown(fname: seq<byte>, ghost d: FS.Dentry) returns (fd: int)
      requires Valid() && FS.Terminated(fname, FS.NAME) && K().Cur().fds.Agree() && HasRoom(K().Cur().fds)
      requires FS.IndexOf(img.dentries, fname) < |img.dentries| && d == img.dentries[FS.IndexOf(img.dentries, fname)]
      modifies this`pcb, dir
      ensures Valid() && 0 <= fd < D.FDS
      ensures K().Cur().fds.file[fd].flag
      ensures d.ftype == 0 ==> K().Cur().fds.file[fd].handlers == D.Rtc
      ensures d.ftype == 1 ==> K().Cur().fds.file[fd].handlers == D.Directory && dir.index == 0
    {
      ghost var t := K().Cur().fds;
      RoomIff(t, Some(d));
      D.OpenTakesLeast(t, d);
      fd := Open(fname);
      assert K().Cur().fds == D.Open(t, Some(d)).0;
    }

    /** Opening a directory and reading it once delivers the name of the first entry of all. */
    method OpenDirThenRead(fname: seq<byte>, buf: array<byte>, nbytes: nat) returns (fd: int, r: int)
      requires Valid() && FS.Terminated(fname, FS.NAME) && K().Cur().fds.Agree() && HasRoom(K().Cur().fds)
      requires FS.NAME <= buf.Length && FS.IndexOf(img.dentries, fname) < |img.dentries|
      requires img.dentries[FS.IndexOf(img.dentries, fname)].ftype == 1
      modifies this`pcb, dir, buf
      ensures fd != -1 && r == 32 && buf[..32] == img.dentries[0].fname && dir.index == 1
    {
      fd := OpenKnown(fname, img.dentries[FS.IndexOf(img.dentries, fname)]);
      r := Read(fd, buf, nbytes, 0);
    }

    /** Opening the clock and reading it delivers what the clock answers. */
    method OpenRtcThenRead(fname: seq<byte>, buf: array<byte>, nbytes: nat, device: int) returns (fd: int, r: int)
      requires Valid() && FS.Terminated(fname, FS.NAME) && K().Cur().fds.Agree() && HasRoom(K().Cur().fds)
      requires FS.IndexOf(img.dentries, fname) < |img.dentries|
      requires img.dentries[FS.IndexOf(img.dentries, fname)].ftype == 0
      modifies this`pcb, dir, buf
      ensures fd != -1 && (r == if device < 0 then -1 else device)
    {
      fd := OpenKnown(fname, img.dentries[FS.IndexOf(img.dentries, fname)]);
      r := Read(fd, buf, nbytes, device);
    }

    /** A program opens a regular file by name, reads chunks until 0 comes, and closes it. It fails exactly
        when the name does not resolve or all six descriptors are taken. Otherwise its output begins with the
        file and is the file exactly when the chunk holds it or divides its length, and afterwards every
        descriptor is open or closed as before, with no other one's file or position changed. */
    method OpenReadClose(fname: seq<byte>, c: nat) returns (ok: bool, out: seq<byte>)
      requires Valid() && FS.Terminated(fname, FS.NAME) && c > 0 && K().Cur().fds.Agree()
      requires var i := FS.IndexOf(img.dentries, fname);
               i < |img.dentries| ==>
                 var d := img.dentries[i];
                 && d.ftype == 2 && FS.ValidInode(img, d.inode)
                 && FS.AllMapped(img, img.inodes[d.inode], 0, FS.DrainedTo(img.inodes[d.inode].length, c, 0))
      modifies this`pcb, dir
      ensures ok <==> FS.IndexOf(img.dentries, fname) < |img.dentries| && HasRoom(old(K()).Cur().fds)
      ensures !ok ==> K() == old(K())
      ensures ok ==> K().Shape() && K() == WithFds(old(K()), K().Cur().fds)
                     && OthersKept(old(K()).Cur().fds, K().Cur().fds)
      ensures ok ==>
                var ino := img.inodes[img.dentries[FS.IndexOf(img.dentries, fname)].inode];
                && ino.length <= |out| < ino.length + c
                && FS.AllMapped(img, ino, 0, ino.length) && out[..ino.length] == FS.Contents(img, ino)
                && (out == FS.Contents(img, ino) <==> c >= ino.length || ino.length % c == 0)
    {
      Unchanged(K());
      ghost var t := K().Cur().fds;
      out := [];
      RoomIff(t, FS.ByIndex(img, FS.IndexOf(img.dentries, fname)));
      var fd := Open(fname);
      if fd == -1 {
        return false, out;
      }
      ghost var d := img.dentries[FS.IndexOf(img.dentries, fname)];
      OpenMoveClose(t, d, FS.DrainedTo(img.inodes[d.inode].length, c, 0));
      assert K().Cur().fds == D.Open(t, Some(d)).0;
      out := DrainAndClose(fd, c);
      FS.DrainedContents(img, img.inodes[d.inode], c);
      ok := true;
    }

    method DrainAndClose(fd: nat, c: nat) returns (out: seq<byte>)
      requires Valid() && fd < D.FDS && c > 0 && K().Cur().fds.file[fd].flag
      requires Drainable(K().Cur().fds.file[fd], c)
      modifies this`pcb, dir
      ensures var t, f := old(K()).Cur().fds, old(K()).Cur().fds.file[fd];
              var end := FS.DrainedTo(img.inodes[f.inode].length, c, f.pos);
              && out == FS.Span(img, img.inodes[f.inode], f.pos, end)
              && K() == WithFds(old(K()), D.Close(Moved(t, fd, end), fd).0)
              && K().Shape() && K().Cur().fds == D.Close(Moved(t, fd, end), fd).0
    {
      out := DrainFd(fd, c);
      var _ := CloseFd(fd);
    }

    method Serve(es: seq<Event>)
      requires Valid() && forall e :: e in es ==> e.Valid()
      modifies this, dir
      ensures Valid() && K() == Run(old(K()), es)
      ensures old(Structured(K())) && SoundRun(old(K()), es) ==> Structured(K())
    {
      ghost var k0 := K();
      var i := 0;
      while i < |es|
        invariant 0 <= i <= |es| && Valid() && K() == Run(k0, es[..i])
      {
        assert es[..i + 1][..i] == es[..i];
        ServeOne(es[i]);
        i := i + 1;
      }
      assert es[..i] == es;
      if Structured(k0) && SoundRun(k0, es) {
        RunKeeps(k0, es);
      }
    }

    method ServeOne(e: Event)
      requires Valid() && e.Valid()
      modifies this, dir
      ensures Valid() && K() == Step(old(K()), e)
    {
      match e
      case Execute(valid) =>
        assert PcbOf(pcb[curr]) == K().pcb[curr];
        ExecuteWithTerminalNum(pcb[curr][TERMINAL], valid);
      case HaltNow => HaltProcess();
      case TickNow => PitIntHandler();
      case SpawnOn(t) => ShowTerminal(t);
      case ShowFirst => display := 0;
      case OpenFile(entry) => var _ := OpenFd(entry);
      case CloseFile(fd) => var _ := CloseFd(fd);
      case ReadFile(fd, count) => var _ := ReadFd(fd, count);
      case Vidmap => tables := P.MapVideo(tables, display, display);
    }
  }

  lemma Unchanged(k: Kernel)
    requires k.Shape()
    ensures WithFds(k, k.Cur().fds) == k
  {
    assert k.pcb[k.curr := k.Cur()] == k.pcb;
  }

  /** A table with the position of one descriptor replaced. */
  function Moved(t: D.Table, fd: nat, pos: int): (r: D.Table)
    requires t.Shape() && fd < D.FDS
    ensures r.Shape()
  {
    t.(file := t.file[fd := t.file[fd].(pos := pos)])
  }

  lemma Unmoved(k: Kernel, fd: nat)
    requires k.Shape() && fd < D.FDS
    ensures WithFds(k, Moved(k.Cur().fds, fd, k.Cur().fds.file[fd].pos)) == k
  {
    var t := k.Cur().fds;
    assert t.file[fd := t.file[fd].(pos := t.file[fd].pos)] == t.file;
    Unchanged(k);
  }

  lemma MovedFacts(k: Kernel, fd: nat, pos: int)
    requires k.Shape() && fd < D.FDS
    ensures var f := WithFds(k, Moved(k.Cur().fds, fd, pos)).Cur().fds.file[fd];
            f == k.Cur().fds.file[fd].(pos := pos)
  {
  }

  /** A successful read moves the position on. */
  lemma MovedOn(k: Kernel, fd: nat, pos: int, n: nat)
    requires k.Shape() && fd < D.FDS && k.Cur().fds.file[fd].flag
    ensures var m := WithFds(k, Moved(k.Cur().fds, fd, pos));
            && D.Read(m.Cur().fds, fd, n).1 == n
            && WithFds(m, D.Read(m.Cur().fds, fd, n).0) == WithFds(k, Moved(k.Cur().fds, fd, pos + n))
  {
    var t := k.Cur().fds;
    var m := WithFds(k, Moved(t, fd, pos));
    assert D.Read(m.Cur().fds, fd, n).0.file == Moved(t, fd, pos + n).file;
  }

  /** The same descriptors are open in both tables, and at most the least free one's entry differs. */
  predicate OthersKept(t: D.Table, u: D.Table)
    requires t.Shape() && u.Shape()
  {
    && u.bitmap == t.bitmap && u.Agree()
    && forall j :: 0 <= j < D.FDS && j != D.FirstFree(t.bitmap, D.MIN_FILES) ==> u.file[j] == t.file[j]
  }

  /** One of the six descriptors that programs may open is free. */
  predicate HasRoom(t: D.Table)
    requires t.Shape()
  {
    exists j :: D.MIN_FILES <= j < D.FDS && !t.bitmap[j]
  }

  lemma RoomIff(t: D.Table, entry: Option<FS.Dentry>)
    requires t.Shape()
    ensures D.Open(t, entry).1 != -1 <==> entry.Some? && HasRoom(t)
  {
  }

  lemma OpenMoveClose(t: D.Table, d: FS.Dentry, pos: int)
    requires t.Shape() && t.Agree() && D.Open(t, Some(d)).1 != -1
    ensures var (r, fd) := D.Open(t, Some(d));
            && 0 <= fd < D.FDS && r.file[fd] == D.File(D.HandlersFor(d.ftype, t.file[fd].handlers), d.inode, 0, true)
            && OthersKept(t, D.Close(Moved(r, fd, pos), fd).0)
  {
    var fd := D.FirstFree(t.bitmap, D.MIN_FILES);
    assert D.Close(Moved(D.Open(t, Some(d)).0, fd, pos), fd).0.bitmap == t.bitmap;
  }
}
