/**
 * The read-only filesystem (student-distrib/filesys_read.c): directory lookup by
 * 32-byte names and reads through a chain of 4 KB data blocks.
 */
module FileSystem {
  import opened Bytes
  import opened Arithmetic

  const BLOCK := 4096
  const NAME := 32
  const PROGRAM_MAX := 0x40_0000

  datatype Dentry = Dentry(fname: seq<byte>, ftype: int, inode: nat, reserved: seq<byte>)
  datatype Inode = Inode(length: nat, blocks: seq<nat>)

  /** The memory image found at the boot block. */
  datatype Image = Image(dentries: seq<Dentry>, inodes: seq<Inode>, data: seq<byte>)
  {
    predicate Valid() { forall i :: 0 <= i < |dentries| ==> |dentries[i].fname| == NAME }
  }

  /** A name as the comparison sees it: cut at the first NUL or at n bytes. */
  function Trunc(s: seq<byte>, n: nat): seq<byte> { CString(if |s| <= n then s else s[..n]) }

  /** Bytes are compared as signed characters. */
  function Signed(c: byte): int { if c < 128 then c else c - 256 }

  /** A string that a scan of at most n bytes never runs off. */
  predicate Terminated(s: seq<byte>, n: nat) { n <= |s| || NUL in s }

  /** Zero exactly on equal truncations, otherwise the difference at the first byte where they part. */
  method Strncmp(s1: seq<byte>, s2: seq<byte>, n: nat) returns (r: int)
    requires Terminated(s1, n) && Terminated(s2, n)
    ensures r == 0 <==> Trunc(s1, n) == Trunc(s2, n)
    ensures r != 0 ==> exists i :: 0 <= i < |s1| && i < |s2| && i < n && s1[..i] == s2[..i] && NUL !in s1[..i]
                                   && r == Signed(s1[i]) - Signed(s2[i])
  {
    var i := 0;
    while i < n
      invariant 0 <= i <= n && i <= |s1| && i <= |s2| && s1[..i] == s2[..i] && NUL !in s1[..i]
    {
      assert s1[..|s1|] == s1 && s2[..|s2|] == s2;
      assert i < |s1| && i < |s2|;
      if s1[i] != s2[i] || s1[i] == NUL {
        TruncAt(s1, n, i);
        TruncAt(s2, n, i);
        if s1[i] != s2[i] {
          TruncsDiffer(s1, s2, n, i);
        }
        return Signed(s1[i]) - Signed(s2[i]);
      }
      i := i + 1;
    }
    TruncAt(s1, n, n);
    TruncAt(s2, n, n);
    return 0;
  }

  lemma TruncAt(s: seq<byte>, n: nat, i: nat)
    requires i <= n && i <= |s| && NUL !in s[..i] && (i == n || i < |s|)
    ensures (i == n || s[i] == NUL) ==> Trunc(s, n) == s[..i]
    ensures i < n && s[i] != NUL ==> |Trunc(s, n)| > i && Trunc(s, n)[i] == s[i]
  {
    var c := if |s| <= n then s else s[..n];
    if i == n || s[i] == NUL {
      CStringUnique(c, s[..i]);
    } else {
      assert forall j :: 0 <= j <= i ==> c[j] != NUL by {
        assert forall j :: 0 <= j < i ==> c[j] == s[..i][j];
      }
    }
  }

  lemma TruncsDiffer(s1: seq<byte>, s2: seq<byte>, n: nat, i: nat)
    requires i < n && i < |s1| && i < |s2| && NUL !in s1[..i] && s1[..i] == s2[..i] && s1[i] != s2[i]
    ensures Trunc(s1, n) != Trunc(s2, n)
  {
    TruncAt(s1, n, i);
    TruncAt(s2, n, i);
  }

  predicate Named(d: Dentry, fname: seq<byte>) { Trunc(d.fname, NAME) == Trunc(fname, NAME) }

  /** Which entries match, and the first one that does from i on. */
  function Matches(ds: seq<Dentry>, fname: seq<byte>): (r: seq<bool>)
    ensures |r| == |ds|
  {
    seq(|ds|, i requires 0 <= i < |ds| => Named(ds[i], fname))
  }

  function FirstTrue(m: seq<bool>, i: nat): (k: nat)
    requires i <= |m|
    ensures i <= k <= |m| && (k < |m| ==> m[k]) && forall j :: i <= j < k ==> !m[j]
    decreases |m| - i
  {
    if i == |m| || m[i] then i else FirstTrue(m, i + 1)
  }

  /** The least index whose name equals the given one, or the number of entries. */
  function IndexOf(ds: seq<Dentry>, fname: seq<byte>): (k: nat)
    ensures k <= |ds| && (k < |ds| ==> Named(ds[k], fname)) && forall j :: 0 <= j < k ==> !Named(ds[j], fname)
  {
    var m := Matches(ds, fname);
    var k := FirstTrue(m, 0);
    assert forall j :: 0 <= j < |m| ==> m[j] == Named(ds[j], fname);
    k
  }

  function ByIndex(img: Image, i: nat): Option<Dentry> {
    if i >= |img.dentries| then None else Some(img.dentries[i])
  }

  /** Lookup by name is lookup by index at the least matching index. */
  method ReadDentryByName(img: Image, fname: seq<byte>) returns (r: Option<Dentry>)
    requires img.Valid() && Terminated(fname, NAME)
    ensures r == ByIndex(img, IndexOf(img.dentries, fname))
  {
    var i := 0;
    while i < |img.dentries|
      invariant 0 <= i <= |img.dentries|
      invariant FirstTrue(Matches(img.dentries, fname), 0) == FirstTrue(Matches(img.dentries, fname), i)
    {
      assert Matches(img.dentries, fname)[i] == Named(img.dentries[i], fname);
      var c := Strncmp(fname, img.dentries[i].fname, NAME);
      if c == 0 {
        return Some(img.dentries[i]);
      }
      i := i + 1;
    }
    return None;
  }

  /** Byte p of a file's block chain lies inside the image. */
  predicate Mapped(img: Image, ino: Inode, p: nat) {
    p / BLOCK < |ino.blocks| && ino.blocks[p / BLOCK] * BLOCK + p % BLOCK < |img.data|
  }

  /** The block-chain byte at file position p. */
  function ByteAt(img: Image, ino: Inode, p: nat): byte
    requires Mapped(img, ino, p)
  {
    img.data[ino.blocks[p / BLOCK] * BLOCK + p % BLOCK]
  }

  predicate AllMapped(img: Image, ino: Inode, from: nat, to: nat) {
    forall p :: from <= p < to ==> Mapped(img, ino, p)
  }

  function Span(img: Image, ino: Inode, from: nat, to: nat): (r: seq<byte>)
    requires from <= to && AllMapped(img, ino, from, to)
    ensures |r| == to - from
  {
    seq<byte>(to - from, i requires 0 <= i < to - from => ByteAt(img, ino, from + i))
  }

  function Contents(img: Image, ino: Inode): seq<byte>
    requires AllMapped(img, ino, 0, ino.length)
  {
    Span(img, ino, 0, ino.length)
  }

  /** The data section of an image is made of whole blocks. */
  predicate WholeBlocks(img: Image) { |img.data| % BLOCK == 0 }

  /** Data block b as it lies in the image. */
  function Block(img: Image, b: nat): (r: seq<byte>)
    requires (b + 1) * BLOCK <= |img.data|
    ensures |r| == BLOCK
  {
    img.data[b * BLOCK..(b + 1) * BLOCK]
  }

  predicate ChainExists(img: Image, ino: Inode, j: nat, n: nat) {
    j <= n <= |ino.blocks| && forall i :: j <= i < n ==> (ino.blocks[i] + 1) * BLOCK <= |img.data|
  }

  /** Blocks j to n - 1 of a file's chain, one after the other. */
  function Chain(img: Image, ino: Inode, j: nat, n: nat): (r: seq<byte>)
    requires ChainExists(img, ino, j, n)
    ensures |r| == (n - j) * BLOCK
    decreases n
  {
    if j == n then [] else Chain(img, ino, j, n - 1) + Block(img, ino.blocks[n - 1])
  }

  /** How many blocks the first n bytes of a file lie in. */
  function BlocksFor(n: nat): nat { (n + BLOCK - 1) / BLOCK }

  lemma {:induction false} ChainAt(img: Image, ino: Inode, j: nat, n: nat, p: nat)
    requires ChainExists(img, ino, j, n) && p < (n - j) * BLOCK
    ensures j + p / BLOCK < n && (ino.blocks[j + p / BLOCK] + 1) * BLOCK <= |img.data|
    ensures Chain(img, ino, j, n)[p] == img.data[ino.blocks[j + p / BLOCK] * BLOCK + p % BLOCK]
    decreases n
  {
    var front := (n - 1 - j) * BLOCK;
    if p < front {
      ChainAt(img, ino, j, n - 1, p);
    } else {
      Position(n - 1 - j, p - front, p);
      assert Chain(img, ino, j, n)[p] == Block(img, ino.blocks[n - 1])[p - front];
    }
  }

  /** A mapped byte of an image made of whole blocks has its whole block there. */
  lemma BlockMapped(img: Image, ino: Inode, p: nat)
    requires WholeBlocks(img) && Mapped(img, ino, p)
    ensures (ino.blocks[p / BLOCK] + 1) * BLOCK <= |img.data|
  {
    assert |img.data| == |img.data| / BLOCK * BLOCK;
  }

  lemma ChainMapped(img: Image, ino: Inode, from: nat, to: nat)
    requires WholeBlocks(img) && from < to && AllMapped(img, ino, from, to)
    ensures ChainExists(img, ino, from / BLOCK, BlocksFor(to))
  {
    var n := BlocksFor(to);
    assert n == (to - 1) / BLOCK + 1;
    assert Mapped(img, ino, to - 1);
    forall i | from / BLOCK <= i < n ensures (ino.blocks[i] + 1) * BLOCK <= |img.data| {
      var p := if i == from / BLOCK then from else i * BLOCK;
      assert from <= p < to && p / BLOCK == i;
      BlockMapped(img, ino, p);
    }
  }

  /** Bytes of a file are the slice of its chain of blocks that starts where the first byte lies. */
  lemma SpanIsChain(img: Image, ino: Inode, from: nat, to: nat)
    requires WholeBlocks(img) && from < to && AllMapped(img, ino, from, to)
    ensures var j, n, s := from / BLOCK, BlocksFor(to), from % BLOCK;
            && ChainExists(img, ino, j, n) && s + to - from <= |Chain(img, ino, j, n)|
            && Span(img, ino, from, to) == Chain(img, ino, j, n)[s..s + to - from]
  {
    ChainMapped(img, ino, from, to);
    var j, n, s := from / BLOCK, BlocksFor(to), from % BLOCK;
    var c := Chain(img, ino, j, n);
    assert from == j * BLOCK + s;
    forall i | 0 <= i < to - from ensures Span(img, ino, from, to)[i] == c[s..s + to - from][i] {
      ByteOfChain(img, ino, j, n, s, i);
    }
  }

  lemma ByteOfChain(img: Image, ino: Inode, j: nat, n: nat, s: nat, i: nat)
    requires ChainExists(img, ino, j, n) && s + i < (n - j) * BLOCK
    ensures Mapped(img, ino, j * BLOCK + s + i)
    ensures ByteAt(img, ino, j * BLOCK + s + i) == Chain(img, ino, j, n)[s + i]
  {
    ChainAt(img, ino, j, n, s + i);
    SamePlace(j, s, i);
  }

  /** These bytes are a piece of the file's chain of blocks, from position `from` on. */
  predicate ChainBytes(img: Image, ino: Inode, from: nat, out: seq<byte>) {
    out == [] ||
    var j, n, s := from / BLOCK, BlocksFor(from + |out|), from % BLOCK;
    && ChainExists(img, ino, j, n) && s + |out| <= |Chain(img, ino, j, n)|
    && out == Chain(img, ino, j, n)[s..s + |out|]
  }

  lemma SpanChainBytes(img: Image, ino: Inode, from: nat, to: nat)
    requires from <= to && AllMapped(img, ino, from, to)
    ensures WholeBlocks(img) ==> ChainBytes(img, ino, from, Span(img, ino, from, to))
  {
    if WholeBlocks(img) && from < to {
      SpanIsChain(img, ino, from, to);
    }
  }

  lemma SamePlace(j: nat, s: nat, i: nat)
    ensures (j * BLOCK + s + i) / BLOCK == j + (s + i) / BLOCK && (j * BLOCK + s + i) % BLOCK == (s + i) % BLOCK
  {
  }

  /** A mapped block of the file is that block of the image, byte for byte. */
  lemma SpanOfBlock(img: Image, ino: Inode, j: nat)
    requires AllMapped(img, ino, j * BLOCK, (j + 1) * BLOCK)
    ensures j < |ino.blocks| && (ino.blocks[j] + 1) * BLOCK <= |img.data|
    ensures Span(img, ino, j * BLOCK, (j + 1) * BLOCK) == img.data[ino.blocks[j] * BLOCK..(ino.blocks[j] + 1) * BLOCK]
  {
    assert Mapped(img, ino, j * BLOCK + (BLOCK - 1));
    Position(j, BLOCK - 1, j * BLOCK + (BLOCK - 1));
    forall i | 0 <= i < BLOCK
      ensures Span(img, ino, j * BLOCK, (j + 1) * BLOCK)[i] == Block(img, ino.blocks[j])[i]
    {
      Position(j, i, j * BLOCK + i);
      assert Mapped(img, ino, j * BLOCK + i);
    }
    assert Span(img, ino, j * BLOCK, (j + 1) * BLOCK) == Block(img, ino.blocks[j]);
  }

  /** The contents of a file: its blocks in chain order, cut at its length. */
  lemma ContentsIsChain(img: Image, ino: Inode)
    requires WholeBlocks(img) && ino.length > 0 && AllMapped(img, ino, 0, ino.length)
    ensures var n := BlocksFor(ino.length);
            && ChainExists(img, ino, 0, n) && ino.length <= n * BLOCK
            && Contents(img, ino) == Chain(img, ino, 0, n)[..ino.length]
  {
    SpanIsChain(img, ino, 0, ino.length);
  }

  function Min(a: nat, b: nat): nat { if a < b then a else b }

  /** How many bytes a read delivers: the end-of-file test compares the count so far, not the position. */
  function Count(len: nat, offset: nat, length: nat): nat {
    if offset >= len then 0 else Min(length, len)
  }

  /** What a read delivers when the test compares the position, as in `ReadDataFixed`. */
  function ExactCount(len: nat, offset: nat, length: nat): nat {
    if offset >= len then 0 else Min(length, len - offset)
  }

  predicate ValidInode(img: Image, inode: nat) { 0 < inode < |img.inodes| }

  /** The running block counters track the file position: byte i of the buffer is the block-chain byte at
      offset + i. The caller's buffer must hold what is delivered, and the blocks touched must exist. */
  method ReadData(img: Image, inode: nat, offset: nat, buf: array<byte>, length: nat) returns (r: int)
    requires ValidInode(img, inode) ==>
               var ino := img.inodes[inode];
               var n := Count(ino.length, offset, length);
               n <= buf.Length && AllMapped(img, ino, offset, offset + n)
    modifies buf
    ensures !ValidInode(img, inode) ==> r == -1 && buf[..] == old(buf[..])
    ensures ValidInode(img, inode) ==>
              var ino := img.inodes[inode];
              && r == Count(ino.length, offset, length)
              && buf[..r] == Span(img, ino, offset, offset + r) && buf[r..] == old(buf[r..])
              && (WholeBlocks(img) ==> ChainBytes(img, ino, offset, buf[..r]))
  {
    if inode == 0 || inode >= |img.inodes| {
      return -1;
    }
    var ino := img.inodes[inode];
    SpanChainBytes(img, ino, offset, offset + Count(ino.length, offset, length));
    if offset >= ino.length {
      return 0;
    }
    var block, within := offset / BLOCK, offset % BLOCK;
    var i := 0;
    while i < length
      invariant 0 <= i <= length && i <= ino.length
      invariant block * BLOCK + within == offset + i && 0 <= within <= BLOCK
      invariant forall j :: 0 <= j < buf.Length ==>
                  buf[j] == if j < i then ByteAt(img, ino, offset + j) else old(buf[j])
    {
      if i >= ino.length {
        return i;
      }
      if within == BLOCK {
        within, block := 0, block + 1;
      }
      Position(block, within, offset + i);
      assert Mapped(img, ino, offset + i);
      buf[i] := img.data[ino.blocks[block] * BLOCK + within];
      within := within + 1;
      i := i + 1;
    }
    return length;
  }

  lemma Position(block: nat, within: nat, p: nat)
    requires block * BLOCK + within == p && within < BLOCK
    ensures p / BLOCK == block && p % BLOCK == within
  {
  }

  /** The same loop with the position in the end-of-file test. No read reaches past the file. */
  method ReadDataFixed(img: Image, inode: nat, offset: nat, buf: array<byte>, length: nat) returns (r: int)
    requires ValidInode(img, inode) ==>
               var ino := img.inodes[inode];
               var n := ExactCount(ino.length, offset, length);
               n <= buf.Length && AllMapped(img, ino, offset, offset + n)
    modifies buf
    ensures !ValidInode(img, inode) ==> r == -1 && buf[..] == old(buf[..])
    ensures ValidInode(img, inode) ==>
              var ino := img.inodes[inode];
              && r == ExactCount(ino.length, offset, length)
              && buf[..r] == Span(img, ino, offset, offset + r) && buf[r..] == old(buf[r..])
              && (WholeBlocks(img) ==> ChainBytes(img, ino, offset, buf[..r]))
  {
    if inode == 0 || inode >= |img.inodes| {
      return -1;
    }
    var ino := img.inodes[inode];
    SpanChainBytes(img, ino, offset, offset + ExactCount(ino.length, offset, length));
    if offset >= ino.length {
      return 0;
    }
    var block, within := offset / BLOCK, offset % BLOCK;
    var i := 0;
    while i < length
      invariant 0 <= i <= length && offset + i <= ino.length
      invariant block * BLOCK + within == offset + i && 0 <= within <= BLOCK
      invariant forall j :: 0 <= j < buf.Length ==>
                  buf[j] == if j < i then ByteAt(img, ino, offset + j) else old(buf[j])
    {
      if offset + i >= ino.length {
        return i;
      }
      if within == BLOCK {
        within, block := 0, block + 1;
      }
      Position(block, within, offset + i);
      assert Mapped(img, ino, offset + i);
      buf[i] := img.data[ino.blocks[block] * BLOCK + within];
      within := within + 1;
      i := i + 1;
    }
    return length;
  }

  /** One read returns only bytes of the file exactly when it does not reach past the end from where it starts. */
  lemma CountExactIff(len: nat, offset: nat, length: nat)
    ensures Count(len, offset, length) == ExactCount(len, offset, length)
            <==> offset >= len || offset + Min(length, len) <= len
    ensures Count(len, 0, length) == ExactCount(len, 0, length)
  {
  }

  /** Where reading with chunk c until a read returns 0 ends up, starting at `pos`. */
  function DrainedTo(len: nat, c: nat, pos: nat): (r: nat)
    requires c > 0
    ensures r >= pos
    decreases len - pos
  {
    if pos >= len then pos else DrainedTo(len, c, pos + Count(len, pos, c))
  }

  /** One more read of a drain. */
  lemma DrainNext(len: nat, c: nat, pos: nat)
    requires c > 0
    ensures var n := Count(len, pos, c);
            && pos + n <= DrainedTo(len, c, pos) == DrainedTo(len, c, pos + n) && (n == 0 <==> pos >= len)
  {
  }

  /** From a multiple of c, the kernel's drain stops at the next multiple of c at or past the end. */
  lemma {:induction false} SteppedDrain(len: nat, c: nat, k: nat)
    requires 0 < c < len && (k == 0 || c * (k - 1) < len)
    ensures DrainedTo(len, c, c * k) % c == 0
    ensures len <= DrainedTo(len, c, c * k) < len + c
    decreases len - c * k
  {
    if c * k < len {
      assert c * (k + 1) == c * k + c;
      SteppedDrain(len, c, k + 1);
    } else {
      assert c * k == c * (k - 1) + c;
      ModUnique(c * k, c, k, 0);
    }
  }

  /** Draining a file of length len with chunk c: at least the file, less than one chunk too much, and
      nothing too much exactly when the chunk holds the file or divides its length. */
  lemma DrainOvershoot(len: nat, c: nat)
    requires c > 0
    ensures len <= DrainedTo(len, c, 0) < len + c
    ensures DrainedTo(len, c, 0) == len <==> c >= len || len % c == 0
  {
    if c < len {
      assert c * 0 == 0;
      SteppedDrain(len, c, 0);
      var d := DrainedTo(len, c, 0);
      if d != len && len % c == 0 {
        MultiplesApart(len, c, d);
      }
    }
  }

  /** What is mapped over a whole drain is mapped over one read of it, and the read extends the output. */
  lemma DrainExtends(img: Image, ino: Inode, from: nat, pos: nat, n: nat, end: nat)
    requires from <= pos && pos + n <= end && AllMapped(img, ino, from, end)
    ensures AllMapped(img, ino, pos, pos + n) && AllMapped(img, ino, from, pos) && AllMapped(img, ino, from, pos + n)
    ensures Span(img, ino, from, pos) + Span(img, ino, pos, pos + n) == Span(img, ino, from, pos + n)
  {
    SpanConcat(img, ino, from, pos, pos + n);
  }

  /** Appending one read to what has been drained so far. */
  lemma SpanConcat(img: Image, ino: Inode, a: nat, b: nat, c: nat)
    requires a <= b <= c && AllMapped(img, ino, a, c)
    ensures Span(img, ino, a, b) + Span(img, ino, b, c) == Span(img, ino, a, c)
  {
  }

  /** What a drain from the start delivers, as bytes. */
  lemma DrainedContents(img: Image, ino: Inode, c: nat)
    requires c > 0 && AllMapped(img, ino, 0, DrainedTo(ino.length, c, 0))
    ensures var out := Span(img, ino, 0, DrainedTo(ino.length, c, 0));
            && ino.length <= |out| < ino.length + c
            && AllMapped(img, ino, 0, ino.length) && out[..ino.length] == Contents(img, ino)
            && (out == Contents(img, ino) <==> c >= ino.length || ino.length % c == 0)
  {
    DrainOvershoot(ino.length, c);
    SpanConcat(img, ino, 0, ino.length, DrainedTo(ino.length, c, 0));
  }

  /** The loop of `cat`: read with a chunk of c bytes until nothing comes. It delivers the block chain from
      byte 0, so its first bytes are the file and its overshoot is the one of DrainOvershoot. */
  method Drain(img: Image, inode: nat, c: nat) returns (out: seq<byte>)
    requires ValidInode(img, inode) && c > 0
    requires AllMapped(img, img.inodes[inode], 0, DrainedTo(img.inodes[inode].length, c, 0))
    ensures var ino := img.inodes[inode];
            var n := DrainedTo(ino.length, c, 0);
            && out == Span(img, ino, 0, n) && ino.length <= |out| < ino.length + c
            && AllMapped(img, ino, 0, ino.length) && out[..ino.length] == Contents(img, ino)
            && (out == Contents(img, ino) <==> c >= ino.length || ino.length % c == 0)
            && (WholeBlocks(img) ==> ChainBytes(img, ino, 0, out))
  {
    var ino := img.inodes[inode];
    DrainedContents(img, ino, c);
    SpanChainBytes(img, ino, 0, DrainedTo(ino.length, c, 0));
    var buf := new byte[c];
    var pos := 0;
    out := [];
    ghost var total := DrainedTo(ino.length, c, 0);
    while true
      invariant 0 <= pos <= total == DrainedTo(ino.length, c, pos) && out == Span(img, ino, 0, pos)
      invariant fresh(buf) && buf.Length == c
      decreases ino.length - pos
    {
      var cnt := ReadData(img, inode, pos, buf, c);
      if cnt == 0 {
        break;
      }
      SpanConcat(img, ino, 0, pos, pos + cnt);
      out := out + buf[..cnt];
      pos := pos + cnt;
    }
  }

  /** The same loop over the corrected read: it delivers exactly the file, whatever the chunk, and touches
      no block beyond the file's own. */
  method DrainFixed(img: Image, inode: nat, c: nat) returns (out: seq<byte>)
    requires ValidInode(img, inode) && c > 0
    requires AllMapped(img, img.inodes[inode], 0, img.inodes[inode].length)
    ensures out == Contents(img, img.inodes[inode])
    ensures WholeBlocks(img) ==> ChainBytes(img, img.inodes[inode], 0, out)
  {
    var ino := img.inodes[inode];
    SpanChainBytes(img, ino, 0, ino.length);
    var buf := new byte[c];
    var pos := 0;
    out := [];
    while true
      invariant 0 <= pos <= ino.length && out == Span(img, ino, 0, pos)
      invariant fresh(buf) && buf.Length == c
      decreases ino.length - pos
    {
      var cnt := ReadDataFixed(img, inode, pos, buf, c);
      if cnt == 0 {
        break;
      }
      SpanConcat(img, ino, 0, pos, pos + cnt);
      out := out + buf[..cnt];
      pos := pos + cnt;
    }
  }

  /** Whole-file loads from offset 0 are exact. The length word is fetched before the inode is checked; past
      the inode table it is whatever memory holds there, `stray`, and the read then refuses the inode. */
  method LoadF(img: Image, fname: seq<byte>, buf: array<byte>, stray: nat) returns (r: int)
    requires img.Valid() && Terminated(fname, NAME)
    requires var k := IndexOf(img.dentries, fname);
             k < |img.dentries| && ValidInode(img, img.dentries[k].inode) ==>
               var ino := img.inodes[img.dentries[k].inode];
               ino.length <= buf.Length && AllMapped(img, ino, 0, ino.length)
    modifies buf
    ensures var k := IndexOf(img.dentries, fname);
            if k == |img.dentries| || !ValidInode(img, img.dentries[k].inode) then r == -1 && buf[..] == old(buf[..])
            else var ino := img.inodes[img.dentries[k].inode];
                 r == ino.length && buf[..r] == Contents(img, ino) && buf[r..] == old(buf[r..])
  {
    var d := ReadDentryByName(img, fname);
    if d.None? {
      return -1;
    }
    var inode := d.value.inode;
    var length := if inode < |img.inodes| then img.inodes[inode].length else stray;
    r := ReadData(img, inode, 0, buf, length);
  }

  /** The program loader reads up to 4 MB from the start: the whole of any file that fits, and otherwise
      its first 4 MB. */
  method ReadF(img: Image, inode: nat, buf: array<byte>) returns (r: int)
    requires ValidInode(img, inode) ==>
               var n := Min(PROGRAM_MAX, img.inodes[inode].length);
               n <= buf.Length && AllMapped(img, img.inodes[inode], 0, n)
    modifies buf
    ensures !ValidInode(img, inode) ==> r == -1 && buf[..] == old(buf[..])
    ensures ValidInode(img, inode) ==>
              var ino := img.inodes[inode];
              && r == Min(PROGRAM_MAX, ino.length) && buf[..r] == Span(img, ino, 0, r) && buf[r..] == old(buf[r..])
              && (ino.length <= 0x40_0000 ==> buf[..r] == Contents(img, ino))
  {
    r := ReadData(img, inode, 0, buf, PROGRAM_MAX);
  }

  /** The directory stream: one global index. */
  class Directory {
    const img: Image
    var index: nat

    ghost predicate Valid()
      reads this
    {
      img.Valid() && index <= |img.dentries|
    }

    constructor (img: Image)
      requires img.Valid()
      ensures Valid() && this.img == img
    {
      this.img, index := img, 0;
    }

    method OpenDir()
      requires Valid()
      modifies this
      ensures Valid() && index == 0
    {
      index := 0;
    }

    /** The name at the index, or nothing at the end; the index never passes the end. */
    method ReadDir() returns (ret: int, name: seq<byte>)
      requires Valid()
      modifies this
      ensures Valid()
      ensures old(index) < |img.dentries| ==>
                ret == NAME && name == img.dentries[old(index)].fname && index == old(index) + 1
      ensures old(index) == |img.dentries| ==> ret == 0 && name == [] && index == old(index)
    {
      name := [];
      if index > |img.dentries| {
        return -1, [];
      }
      var d := ByIndex(img, index);
      if d.None? {
        return 0, [];
      }
      name := d.value.fname;
      ret := NAME;
      index := index + 1;
    }

    /** After `open_dir`, n reads list the first n entries in order, each once, and every read after the
        last entry returns 0. */
    method List(n: nat) returns (names: seq<seq<byte>>, zeros: nat)
      requires Valid()
      modifies this
      ensures Valid()
      ensures |names| + zeros == n && |names| == Min(n, |img.dentries|)
      ensures forall i :: 0 <= i < |names| ==> names[i] == img.dentries[i].fname
    {
      OpenDir();
      names, zeros := [], 0;
      var i := 0;
      while i < n
        invariant 0 <= i <= n && Valid() && |names| + zeros == i
        invariant index == |names| == Min(i, |img.dentries|)
        invariant forall j :: 0 <= j < |names| ==> names[j] == img.dentries[j].fname
      {
        var ret, name := ReadDir();
        if ret == 0 {
          zeros := zeros + 1;
        } else {
          names := names + [name];
        }
        i := i + 1;
      }
    }
  }
}
