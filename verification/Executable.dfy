/**
 * How the kernel reads a command (student-distrib/syscall.c): `verify_file` splits it
 * into a file name and an argument buffer and checks the file for the ELF magic
 * number; `getargs` hands the buffer to the program.
 */
module Executable {
  import opened Bytes
  import opened FileSystem
  import A = Arguments
  import N = Numbers
  import Memory

  const CMD_LIMIT := 129
  const START_ADDR := 24
  const MAGIC: seq<byte> := [0x7F, 0x45, 0x4C, 0x46]

  function NameEnd(cmd: seq<byte>, i: nat): (n: nat)
    requires i <= |cmd|
    ensures i <= n <= |cmd| && (forall j :: i <= j < n ==> cmd[j] != SPACE) && (n < |cmd| ==> cmd[n] == SPACE)
    decreases |cmd| - i
  {
    if i == |cmd| || cmd[i] == SPACE then i else NameEnd(cmd, i + 1)
  }

  /** The length of the file name: everything before the first space. */
  function NameLength(cmd: seq<byte>): (n: nat)
    ensures n <= |cmd| && (forall i :: 0 <= i < n ==> cmd[i] != SPACE) && (n < |cmd| ==> cmd[n] == SPACE)
  {
    NameEnd(cmd, 0)
  }

  function FileName(cmd: seq<byte>): seq<byte> { cmd[..NameLength(cmd)] }

  /** The argument buffer: the rest of the command with all its spaces deleted. */
  function ArgText(cmd: seq<byte>): seq<byte> { A.NoSpaces(cmd, NameLength(cmd)) }

  /** File name and argument buffer together are the command without its spaces, split at the first one. */
  lemma NameAndArgs(cmd: seq<byte>)
    ensures FileName(cmd) + ArgText(cmd) == A.NoSpaces(cmd, 0)
  {
    A.NoSpacesOfWord(cmd, 0, NameLength(cmd));
    assert cmd[0..NameLength(cmd)] == FileName(cmd);
  }

  /** The argument buffer is the arguments separated by single spaces exactly when there is at most one: two
      or more run together. */
  lemma ArgTextJoinedIff(cmd: seq<byte>)
    requires forall i :: 0 <= i < |cmd| ==> cmd[i] != NUL && cmd[i] != NEWLINE
    ensures var args := A.Args(cmd, NameLength(cmd));
            ArgText(cmd) == A.Join(args) <==> |args| <= 1
  {
    A.SplitConserves(cmd, NameLength(cmd));
    A.FlattenIsJoinIff(A.Args(cmd, NameLength(cmd)));
  }

  /** Exactly the commands whose parts stay inside the two buffers; the source checks neither length. */
  predicate Fits(cmd: seq<byte>) { NameLength(cmd) < CMD_LIMIT && |ArgText(cmd)| <= CMD_LIMIT }

  /** Every command of at most 128 bytes fits, and so does any longer one whose excess is spaces. */
  lemma ShortCommandFits(cmd: seq<byte>)
    ensures |A.NoSpaces(cmd, 0)| <= 128 ==> Fits(cmd)
    ensures |cmd| <= 128 ==> Fits(cmd)
  {
    NameAndArgs(cmd);
    NoLonger(cmd, 0);
  }

  lemma {:induction false} NoLonger(cmd: seq<byte>, i: nat)
    requires i <= |cmd|
    ensures |A.NoSpaces(cmd, i)| <= |cmd| - i
    decreases |cmd| - i
  {
    if i < |cmd| {
      NoLonger(cmd, i + 1);
    }
  }

  /** The parsing half of `verify_file`, on zeroed buffers. */
  method ParseCommand(cmd: seq<byte>, inFile: array<byte>, argBuf: array<byte>) returns (argSize: nat)
    requires NUL !in cmd && Fits(cmd)
    requires inFile.Length == argBuf.Length == CMD_LIMIT && inFile != argBuf
    modifies inFile, argBuf
    ensures inFile[..] == Padded(FileName(cmd), CMD_LIMIT)
    ensures argSize == |ArgText(cmd)| && argBuf[..] == Padded(ArgText(cmd), CMD_LIMIT)
  {
    Zero(inFile);
    var i := CopyName(cmd, inFile);
    Zero(argBuf);
    argSize := CopyArgs(cmd, i, argBuf);
  }

  /** Copies everything from position n on but spaces. */
  method CopyArgs(cmd: seq<byte>, n: nat, argBuf: array<byte>) returns (argSize: nat)
    requires n <= |cmd| && |A.NoSpaces(cmd, n)| <= argBuf.Length
    requires forall j :: 0 <= j < argBuf.Length ==> argBuf[j] == NUL
    modifies argBuf
    ensures argSize == |A.NoSpaces(cmd, n)| && argBuf[..] == Padded(A.NoSpaces(cmd, n), argBuf.Length)
  {
    argSize := 0;
    var i := n;
    ghost var got: seq<byte> := [];
    while i < |cmd|
      invariant n <= i <= |cmd| && argSize == |got| && got + A.NoSpaces(cmd, i) == A.NoSpaces(cmd, n)
      invariant forall j :: 0 <= j < argBuf.Length ==> argBuf[j] == if j < argSize then got[j] else NUL
    {
      if cmd[i] != SPACE {
        A.MoveWord(got, cmd[i], A.NoSpaces(cmd, i + 1));
        argBuf[argSize] := cmd[i];
        argSize, got := argSize + 1, got + [cmd[i]];
      }
      i := i + 1;
    }
    assert argBuf[..] == Padded(got, argBuf.Length);
  }

  method Zero(buf: array<byte>)
    modifies buf
    ensures forall j :: 0 <= j < buf.Length ==> buf[j] == NUL
  {
    Memory.Memset(buf, 0, 0, buf.Length);
    assert forall j :: 0 <= j < buf.Length ==> buf[j] == buf[..][j];
  }

  method CopyName(cmd: seq<byte>, inFile: array<byte>) returns (i: nat)
    requires NameLength(cmd) < CMD_LIMIT == inFile.Length && forall j :: 0 <= j < inFile.Length ==> inFile[j] == NUL
    modifies inFile
    ensures i == NameLength(cmd) && inFile[..] == Padded(FileName(cmd), CMD_LIMIT)
  {
    i := 0;
    while i < |cmd| && cmd[i] != SPACE
      invariant 0 <= i <= |cmd| && NameEnd(cmd, 0) == NameEnd(cmd, i)
      invariant forall j :: 0 <= j < inFile.Length ==> inFile[j] == if j < i then cmd[j] else NUL
    {
      inFile[i] := cmd[i];
      i := i + 1;
    }
    inFile[i] := NUL;
    assert inFile[..] == Padded(FileName(cmd), CMD_LIMIT);
  }

  /** Memory after `getargs` was handed the address `at`: the old string there is cleared up to its NUL,
      wherever that is, and the arguments and a NUL are written over it. */
  function Gotten(m: seq<byte>, at: nat, args: seq<byte>): (r: seq<byte>)
    requires at + |args| < |m|
    ensures |r| == |m|
  {
    var held := |CString(m[at..])|;
    seq(|m|, j requires 0 <= j < |m| =>
      if at <= j < at + |args| then args[j - at]
      else if j == at + |args| || at <= j < at + held then NUL
      else m[j])
  }

  /** A caller's buffer of `size` bytes with room for the arguments is all that changes if and only if the
      string it held before ended inside it or right behind it: `nbytes` is not looked at. */
  lemma GetargsStaysIff(m: seq<byte>, at: nat, args: seq<byte>, size: nat)
    requires |args| < size && at + size <= |m|
    ensures Gotten(m, at, args)[..at] == m[..at]
    ensures Gotten(m, at, args)[at + size..] == m[at + size..] <==> |CString(m[at..])| <= size
  {
    var n := |CString(m[at..])|;
    if size < n {
      assert CString(m[at..])[size] == m[at + size];
      assert Gotten(m, at, args)[at + size..][0] == NUL;
    }
  }

  /** What a scan of the argument buffer finds, given the memory behind it: the text, exactly when the text
      leaves room for a NUL or a NUL follows the buffer. */
  lemma ScannedTextIff(text: seq<byte>, behind: seq<byte>)
    requires NUL !in text && |text| <= CMD_LIMIT
    ensures CString(Padded(text, CMD_LIMIT) + behind) == if |text| < CMD_LIMIT then text else text + CString(behind)
    ensures CString(Padded(text, CMD_LIMIT) + behind) == text <==> |text| < CMD_LIMIT || CString(behind) == []
  {
    var s := Padded(text, CMD_LIMIT) + behind;
    if |text| < CMD_LIMIT {
      assert s[..|text|] == text && s[|text|] == NUL;
      CStringUnique(s, text);
    } else {
      var c := CString(behind);
      assert s == text + behind && text + c <= s;
      assert |c| < |behind| ==> s[|text + c|] == behind[|c|];
      CStringUnique(s, text + c);
    }
  }

  /** `getargs`: -1 when the size word is 0, and otherwise the string found in the argument buffer, copied to
      the caller's address and terminated. `argBuf` is the buffer with what lies behind it, `mem` the memory
      of the process; both strings must end for the scans to end. */
  method Getargs(argBuf: array<byte>, argSize: nat, mem: array<byte>, at: nat) returns (r: int)
    requires argBuf != mem && NUL in argBuf[..] && at + |CString(argBuf[..])| < mem.Length && NUL in mem[at..]
    modifies mem
    ensures argSize == 0 ==> r == -1 && mem[..] == old(mem[..])
    ensures argSize != 0 ==> && r == 0 && mem[..] == Gotten(old(mem[..]), at, CString(argBuf[..]))
                             && CString(mem[at..]) == CString(argBuf[..])
  {
    if argSize == 0 {
      return -1;
    }
    assert argBuf[0..] == argBuf[..];
    var len := N.Strlen(argBuf, 0);
    assert argBuf[0..len] == argBuf[..len];
    WriteArgs(mem, at, argBuf[..len]);
    GottenReads(old(mem[..]), at, argBuf[..len]);
    assert mem[..][at..] == mem[at..];
    return 0;
  }

  method WriteArgs(mem: array<byte>, at: nat, args: seq<byte>)
    requires at + |args| < mem.Length && NUL in mem[at..]
    modifies mem
    ensures mem[..] == Gotten(old(mem[..]), at, args)
  {
    ClearString(mem, at);
    A.Strcpy(mem, at, args);
  }

  lemma GottenReads(m: seq<byte>, at: nat, args: seq<byte>)
    requires at + |args| < |m| && NUL !in args
    ensures CString(Gotten(m, at, args)[at..]) == args
  {
    var s := Gotten(m, at, args)[at..];
    assert s[..|args|] == args;
    CStringUnique(s, args);
  }

  /** Parsing a command and then `getargs`: the program gets the argument text of the command, or -1 when
      there is none, and no other byte of its memory changes but those of its old string. */
  method ParseThenGetargs(cmd: seq<byte>, inFile: array<byte>, argBuf: array<byte>, mem: array<byte>, at: nat)
    returns (r: int)
    requires NUL !in cmd && Fits(cmd) && |ArgText(cmd)| < CMD_LIMIT
    requires inFile.Length == argBuf.Length == CMD_LIMIT && inFile != argBuf && mem != argBuf && mem != inFile
    requires at + |ArgText(cmd)| < mem.Length && NUL in mem[at..]
    modifies inFile, argBuf, mem
    ensures ArgText(cmd) == [] ==> r == -1 && mem[..] == old(mem[..])
    ensures ArgText(cmd) != [] ==> && r == 0 && mem[..] == Gotten(old(mem[..]), at, ArgText(cmd))
                                   && CString(mem[at..]) == ArgText(cmd)
  {
    var argSize := ParseCommand(cmd, inFile, argBuf);
    TextWithoutNul(cmd, NameLength(cmd));
    ScannedTextIff(ArgText(cmd), []);
    assert argBuf[..] == Padded(ArgText(cmd), CMD_LIMIT) + [];
    assert argBuf[|ArgText(cmd)|] == NUL;
    r := Getargs(argBuf, argSize, mem, at);
  }

  lemma {:induction false} TextWithoutNul(cmd: seq<byte>, i: nat)
    requires i <= |cmd| && NUL !in cmd
    ensures NUL !in A.NoSpaces(cmd, i)
    decreases |cmd| - i
  {
    if i < |cmd| {
      TextWithoutNul(cmd, i + 1);
    }
  }

  /** `memset` of the string found at an address. */
  method ClearString(mem: array<byte>, at: nat)
    requires at < mem.Length && NUL in mem[at..]
    modifies mem
    ensures var n := |CString(old(mem[..])[at..])|;
            && at + n < mem.Length
            && forall j :: 0 <= j < mem.Length ==> mem[j] == if at <= j < at + n then NUL else old(mem[j])
  {
    var n := N.Strlen(mem, at);
    ghost var m := mem[..];
    assert m[at..] == mem[at..];
    Memory.Memset(mem, at, 0, n);
    assert forall j :: 0 <= j < mem.Length ==> mem[j] == mem[..][j] && old(mem[j]) == m[j];
  }

  /** The four bytes a failed or short read leaves in a buffer that held `garbage`. */
  function FourBytes(img: Image, inode: nat, offset: nat, garbage: seq<byte>): (r: seq<byte>)
    requires |garbage| == 4 && Loadable(img, inode, offset)
    ensures |r| == 4
  {
    if !ValidInode(img, inode) then garbage
    else
      var ino := img.inodes[inode];
      var n := Count(ino.length, offset, 4);
      Span(img, ino, offset, offset + n) + garbage[n..]
  }

  predicate Loadable(img: Image, inode: nat, offset: nat) {
    ValidInode(img, inode) ==>
      AllMapped(img, img.inodes[inode], offset, offset + Count(img.inodes[inode].length, offset, 4))
  }

  method ReadFour(img: Image, inode: nat, offset: nat, garbage: seq<byte>) returns (r: seq<byte>)
    requires |garbage| == 4 && Loadable(img, inode, offset)
    ensures r == FourBytes(img, inode, offset, garbage)
  {
    var buf := new byte[4](i requires 0 <= i < 4 => garbage[i]);
    assert buf[..] == garbage;
    var n := ReadData(img, inode, offset, buf, 4);
    r := buf[..];
    if ValidInode(img, inode) {
      assert r == buf[..n] + buf[n..];
    }
  }

  function LittleEndian(b: seq<byte>): nat
    requires |b| == 4
  {
    b[0] as int + 0x100 * (b[1] as int) + 0x1_0000 * (b[2] as int) + 0x100_0000 * (b[3] as int)
  }

  /** The verdict on a name: the entry address, if it resolves to a file that starts with the magic number. */
  function Verdict(img: Image, fname: seq<byte>, g0: seq<byte>, g1: seq<byte>): Option<nat>
    requires Checkable(img, fname) && |g0| == |g1| == 4
  {
    var k := IndexOf(img.dentries, fname);
    if k < |img.dentries| && FourBytes(img, img.dentries[k].inode, 0, g0) == MAGIC
    then Some(LittleEndian(FourBytes(img, img.dentries[k].inode, START_ADDR, g1))) else None
  }

  /** The blocks that checking a file touches exist. */
  predicate Checkable(img: Image, fname: seq<byte>) {
    var k := IndexOf(img.dentries, fname);
    k < |img.dentries| ==> Loadable(img, img.dentries[k].inode, 0) && Loadable(img, img.dentries[k].inode, START_ADDR)
  }

  /** A file of at least 28 bytes whose blocks exist. */
  predicate Proper(img: Image, inode: nat) {
    && ValidInode(img, inode) && img.inodes[inode].length >= 28
    && AllMapped(img, img.inodes[inode], 0, img.inodes[inode].length)
  }

  /** The contents start with 7F 'E' 'L' 'F'. */
  predicate IsElf(c: seq<byte>) { |c| >= 4 && c[0] == 0x7F && c[1] == 0x45 && c[2] == 0x4C && c[3] == 0x46 }

  function LowByte(v: nat): nat { v % 256 }

  /** Bytes 24 to 27 are this word, the lowest byte first. */
  predicate IsEntry(c: seq<byte>, v: nat) {
    |c| >= 28 && LowByte(v) == c[24] && LowByte(v / 256) == c[25]
    && LowByte(v / 256 / 256) == c[26] && v / 256 / 256 / 256 == c[27]
  }

  lemma OffLowByte(q: nat, b: nat)
    requires b < 256
    ensures (b + 256 * q) / 256 == q && LowByte(b + 256 * q) == b
  {
  }

  lemma LittleEndianBytes(b: seq<byte>)
    requires |b| == 4
    ensures var v := LittleEndian(b);
            && LowByte(v) == b[0] && LowByte(v / 256) == b[1]
            && LowByte(v / 256 / 256) == b[2] && v / 256 / 256 / 256 == b[3]
  {
    var b0: int, b1: int, b2: int, b3: int := b[0], b[1], b[2], b[3];
    OffLowByte(b1 + 256 * (b2 + 256 * b3), b0);
    OffLowByte(b2 + 256 * b3, b1);
    OffLowByte(b3, b2);
    assert LittleEndian(b) == b0 + 256 * (b1 + 256 * (b2 + 256 * b3));
  }

  lemma MagicBytes(c: seq<byte>)
    requires |c| >= 4
    ensures c[..4] == MAGIC <==> IsElf(c)
  {
    assert c[..4] == [c[0], c[1], c[2], c[3]];
  }

  /** What the verdict on a name has to be: none when the name does not resolve, and for a proper file exactly
      that it starts with the magic number, with its own entry word. */
  predicate RightVerdict(img: Image, fname: seq<byte>, r: Option<nat>) {
    var k := IndexOf(img.dentries, fname);
    && (k == |img.dentries| ==> r == None)
    && (k < |img.dentries| && Proper(img, img.dentries[k].inode) ==>
          var c := Contents(img, img.inodes[img.dentries[k].inode]);
          (r.Some? <==> IsElf(c)) && (r.Some? ==> IsEntry(c, r.value)))
  }

  lemma VerdictRight(img: Image, fname: seq<byte>, g0: seq<byte>, g1: seq<byte>)
    requires Checkable(img, fname) && |g0| == |g1| == 4
    ensures RightVerdict(img, fname, Verdict(img, fname, g0, g1))
  {
    var k := IndexOf(img.dentries, fname);
    if k < |img.dentries| && Proper(img, img.dentries[k].inode) {
      var c := Contents(img, img.inodes[img.dentries[k].inode]);
      ProperFile(img, img.dentries[k].inode, g0);
      ProperFile(img, img.dentries[k].inode, g1);
      MagicBytes(c);
      LittleEndianBytes(c[24..28]);
    }
  }

  /** The checking half of `verify_file`: the name must resolve and the file must start with the magic
      number; the entry point is the word at byte 24. `g0` and `g1` are what the two buffers held before. */
  method CheckFile(img: Image, fname: seq<byte>, g0: seq<byte>, g1: seq<byte>) returns (r: Option<nat>)
    requires img.Valid() && Terminated(fname, NAME) && |g0| == |g1| == 4 && Checkable(img, fname)
    ensures r == Verdict(img, fname, g0, g1)
    ensures RightVerdict(img, fname, r)
  {
    VerdictRight(img, fname, g0, g1);
    var d := ReadDentryByName(img, fname);
    if d.None? {
      return None;
    }
    var head := ReadFour(img, d.value.inode, 0, g0);
    var c := Strncmp(head, MAGIC, 4);
    MagicEqual(head);
    if c != 0 {
      return None;
    }
    var entry := ReadFour(img, d.value.inode, START_ADDR, g1);
    r := Some(LittleEndian(entry));
  }

  lemma MagicEqual(head: seq<byte>)
    requires |head| == 4
    ensures Trunc(head, 4) == Trunc(MAGIC, 4) <==> head == MAGIC
  {
    CStringUnique(MAGIC, MAGIC);
    assert Trunc(MAGIC, 4) == MAGIC;
    assert Trunc(head, 4) <= head;
  }

  /** For an entry with a proper inode and at least 28 bytes nothing depends on leftover buffer contents:
      the file is accepted exactly when it starts with the magic number, with the entry word of bytes 24..27. */
  lemma ProperFile(img: Image, inode: nat, g: seq<byte>)
    requires ValidInode(img, inode) && img.inodes[inode].length >= 28 && |g| == 4
    requires AllMapped(img, img.inodes[inode], 0, img.inodes[inode].length)
    ensures var ino := img.inodes[inode];
            && Loadable(img, inode, 0) && Loadable(img, inode, START_ADDR)
            && FourBytes(img, inode, 0, g) == Contents(img, ino)[..4]
            && FourBytes(img, inode, START_ADDR, g) == Contents(img, ino)[24..28]
  {
    var ino := img.inodes[inode];
    assert Count(ino.length, 0, 4) == 4 && Count(ino.length, START_ADDR, 4) == 4;
  }

  /** The name the directory is searched for: the file name, cut at 32 bytes. */
  lemma SearchedName(name: seq<byte>)
    requires NUL !in name && |name| < CMD_LIMIT
    ensures Trunc(Padded(name, CMD_LIMIT), NAME) == if |name| <= NAME then name else name[..NAME]
  {
    TruncAt(Padded(name, CMD_LIMIT), NAME, if |name| <= NAME then |name| else NAME);
  }

  method VerifyFile(img: Image, cmd: seq<byte>, inFile: array<byte>, argBuf: array<byte>, g0: seq<byte>, g1: seq<byte>)
    returns (r: Option<nat>, argSize: nat)
    requires img.Valid() && NUL !in cmd && Fits(cmd) && |g0| == |g1| == 4
    requires inFile.Length == argBuf.Length == CMD_LIMIT && inFile != argBuf
    requires Checkable(img, Padded(FileName(cmd), CMD_LIMIT))
    modifies inFile, argBuf
    ensures inFile[..] == Padded(FileName(cmd), CMD_LIMIT)
    ensures argSize == |ArgText(cmd)| && argBuf[..] == Padded(ArgText(cmd), CMD_LIMIT)
    ensures r == Verdict(img, Padded(FileName(cmd), CMD_LIMIT), g0, g1)
    ensures RightVerdict(img, Padded(FileName(cmd), CMD_LIMIT), r)
  {
    argSize := ParseCommand(cmd, inFile, argBuf);
    r := CheckFile(img, inFile[..], g0, g1);
  }
}
