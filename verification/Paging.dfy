/**
 * The page directory and its two page tables (student-distrib/paging.c), and the
 * address translation they stand for. Only the mapping bits are kept.
 */
module Paging {
  import opened Bytes

  const ENTRIES := 1024
  const MB4 := 0x40_0000
  const KB4 := 0x1000
  const PT_VIDEO := 0xB8
  const PROGRAM_SLOT := 32
  const VIDMAP_SLOT := 33

  /** A directory entry maps nothing, one 4 MB frame, or goes through the low-memory table or the
      table of the video window. */
  datatype Pde = Unmapped | Frame(user: bool, frame: nat) | LowTable(user: bool) | VidTable(user: bool)
  datatype Pte = Absent | Page(user: bool, page: nat)

  datatype Tables = Tables(dir: seq<Pde>, low: seq<Pte>, vid: seq<Pte>)
  {
    predicate Shape() { |dir| == ENTRIES && |low| == ENTRIES && |vid| == ENTRIES }
  }

  predicate IsVideoPage(p: int) { PT_VIDEO <= p <= PT_VIDEO + 4 }

  /** The tables as `paging_init` leaves them; the video window table is still zeroed memory. */
  function Initial(): (g: Tables)
    ensures g.Shape()
  {
    Tables(seq(ENTRIES, i => if i == 0 then LowTable(false) else if i == 1 then Frame(false, 1) else Unmapped),
           seq(ENTRIES, i requires 0 <= i => if IsVideoPage(i) then Page(false, i) else Absent),
           seq(ENTRIES, _ => Absent))
  }

  method PagingInit() returns (g: Tables)
    ensures g == Initial()
  {
    var dir: seq<Pde>, low: seq<Pte> := [], [];
    var i := 0;
    while i < ENTRIES
      invariant 0 <= i <= ENTRIES && |dir| == |low| == i
      invariant forall j :: 0 <= j < i ==> dir[j] == Unmapped && low[j] == Absent
    {
      dir, low := dir + [Unmapped], low + [Absent];
      i := i + 1;
    }
    dir := dir[0 := LowTable(false)];
    i := PT_VIDEO;
    while i <= PT_VIDEO + 4
      invariant PT_VIDEO <= i <= PT_VIDEO + 5 && |low| == ENTRIES
      invariant forall j :: 0 <= j < ENTRIES ==>
                  low[j] == if IsVideoPage(j) && j < i then Page(false, j) else Absent
    {
      low := low[i := Page(false, i)];
      i := i + 1;
    }
    dir := dir[1 := Frame(false, 1)];
    g := Tables(dir, low, seq(ENTRIES, _ => Absent));
    assert g.dir == Initial().dir && g.low == Initial().low && g.vid == Initial().vid;
  }

  function MapPid(g: Tables, pid: nat): (r: Tables)
    requires g.Shape()
    ensures r.Shape()
  {
    g.(dir := g.dir[PROGRAM_SLOT := Frame(true, (pid * MB4 + 2 * MB4) / MB4)])
  }

  /** The window at 132 MB shows the monitor, or physical page 0 for a terminal that is not displayed. */
  function MapVideo(g: Tables, terminal: int, display: int): (r: Tables)
    requires g.Shape()
    ensures r.Shape()
  {
    g.(dir := g.dir[VIDMAP_SLOT := VidTable(true)],
       vid := g.vid[0 := Page(true, if terminal == display then PT_VIDEO else 0)])
  }

  function Lookup(t: seq<Pte>, va: nat, user: bool): Option<nat>
    requires |t| == ENTRIES
  {
    match t[va % MB4 / KB4]
    case Absent => None
    case Page(u, p) => if user && !u then None else Some(p * KB4 + va % KB4)
  }

  /** The physical address behind a 32-bit virtual address, for a user or a supervisor access. */
  function Translate(g: Tables, va: nat, user: bool): Option<nat>
    requires g.Shape() && va < 0x1_0000_0000
  {
    match g.dir[va / MB4]
    case Unmapped => None
    case Frame(u, f) => if user && !u then None else Some(f * MB4 + va % MB4)
    case LowTable(u) => if user && !u then None else Lookup(g.low, va, user)
    case VidTable(u) => if user && !u then None else Lookup(g.vid, va, user)
  }

  predicate InFrame(pa: nat, f: nat) { f * MB4 <= pa < (f + 1) * MB4 }
  predicate InPage(pa: nat, p: nat) { p * KB4 <= pa < (p + 1) * KB4 }

  /** The frame that holds the program of a pid. */
  function FrameOf(pid: nat): nat { pid + 2 }

  /** What every sound run keeps: only the program slot and the video window ever differ from the boot tables. */
  predicate Ok(g: Tables, pid: nat) {
    && g.Shape()
    && g.low == Initial().low
    && (forall i :: 0 <= i < ENTRIES && i != PROGRAM_SLOT && i != VIDMAP_SLOT ==> g.dir[i] == Initial().dir[i])
    && g.dir[PROGRAM_SLOT] == Frame(true, FrameOf(pid))
    && (g.dir[VIDMAP_SLOT] == Unmapped || g.dir[VIDMAP_SLOT] == VidTable(true))
    && (g.vid[0] == Absent || g.vid[0] == Page(true, 0) || g.vid[0] == Page(true, PT_VIDEO))
    && forall i :: 0 < i < ENTRIES ==> g.vid[i] == Absent
  }

  lemma MapPidOk(g: Tables, was: nat, pid: nat)
    requires g.Shape() && (Ok(g, was) || g == Initial())
    ensures Ok(MapPid(g, pid), pid)
  {
    assert (pid * MB4 + 2 * MB4) / MB4 == pid + 2;
  }

  lemma MapVideoOk(g: Tables, pid: nat, terminal: int, display: int)
    requires Ok(g, pid)
    ensures Ok(MapVideo(g, terminal, display), pid)
  {
  }

  /** Isolation: a user access reaches the running pid's own frame, the monitor page or physical page 0,
      never another pid's frame and never the kernel's; the program window is that frame byte for byte. */
  lemma UserReach(g: Tables, pid: nat, va: nat)
    requires Ok(g, pid) && va < 0x1_0000_0000
    ensures Translate(g, va, true).Some? ==>
              var pa := Translate(g, va, true).value;
              && (InFrame(pa, FrameOf(pid)) || InPage(pa, PT_VIDEO) || InPage(pa, 0))
              && !InFrame(pa, 1)
              && (forall q: nat :: q != pid ==> !InFrame(pa, FrameOf(q)))
    ensures PROGRAM_SLOT * MB4 <= va < (PROGRAM_SLOT + 1) * MB4 ==>
              Translate(g, va, true) == Some(FrameOf(pid) * MB4 + (va - PROGRAM_SLOT * MB4))
  {
    var i := va / MB4;
    assert va == i * MB4 + va % MB4;
    assert i != PROGRAM_SLOT && i != VIDMAP_SLOT ==> g.dir[i] == Initial().dir[i];
    if Translate(g, va, true).Some? {
      var pa := Translate(g, va, true).value;
      if i == PROGRAM_SLOT {
        assert InFrame(pa, FrameOf(pid));
        forall q: nat | q != pid ensures !InFrame(pa, FrameOf(q)) {
        }
      }
    }
  }

  /** The kernel's own view of the first 8 MB never changes. */
  lemma KernelViewFixed(g: Tables, pid: nat, va: nat)
    requires Ok(g, pid) && va < 2 * MB4
    ensures Translate(g, va, false) == Translate(Initial(), va, false)
  {
    var i := va / MB4;
    assert g.dir[i] == Initial().dir[i];
  }

  /** The boot view: a supervisor access to 4 to 8 MB and to the five video pages goes to the address itself,
      nothing else below 8 MB is there, and a user access reaches none of it. */
  lemma BootView(va: nat)
    requires va < 2 * MB4
    ensures Translate(Initial(), va, false) ==
            if 0x40_0000 <= va < 0x80_0000 || 0xB_8000 <= va < 0xB_D000 then Some(va) else None
    ensures Translate(Initial(), va, true) == None
  {
    var i := va / MB4;
    assert va == i * MB4 + va % MB4;
    if i == 0 {
      assert va == va / KB4 * KB4 + va % KB4;
      assert IsVideoPage(va / KB4) <==> 0xB_8000 <= va < 0xB_D000;
    }
  }

  /** The kernel's own view after any sound run, in absolute addresses. */
  lemma KernelIdentity(g: Tables, pid: nat, va: nat)
    requires Ok(g, pid) && va < 2 * MB4
    ensures Translate(g, va, false) ==
            if 0x40_0000 <= va < 0x80_0000 || 0xB_8000 <= va < 0xB_D000 then Some(va) else None
    ensures Translate(g, va, true) == None
  {
    BootView(va);
    KernelViewFixed(g, pid, va);
    assert g.dir[va / MB4] == Initial().dir[va / MB4];
  }

  /** The page at 132 MB is the monitor page for the displayed terminal, and physical page 0 for another. */
  lemma WindowShows(g: Tables, terminal: int, display: int, off: nat)
    requires g.Shape() && off < 0x1000
    ensures Translate(MapVideo(g, terminal, display), 0x840_0000 + off, true) ==
            Some(if terminal == display then 0xB_8000 + off else off)
  {
    var va := 0x840_0000 + off;
    assert va / MB4 == VIDMAP_SLOT && va % MB4 == off && off / KB4 == 0 && va % KB4 == off;
  }

  /** Mapping a pid leaves the window alone. */
  lemma WindowKept(g: Tables, pid: nat, off: nat)
    requires g.Shape() && off < 0x1000
    ensures Translate(MapPid(g, pid), 0x840_0000 + off, true) == Translate(g, 0x840_0000 + off, true)
  {
    assert (0x840_0000 + off) / MB4 == VIDMAP_SLOT;
  }
}
