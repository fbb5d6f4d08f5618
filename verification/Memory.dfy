/**
 * The kernel's memory routines (student-distrib/lib.c): byte stores up to the
 * first aligned address, then whole words, then the remaining bytes. Memory is
 * one array of bytes and an address is an index into it.
 */
module Memory {
  import opened Bytes

  /** Memory `m` with `n` bytes from `dst` set to `c`. */
  function Filled(m: seq<byte>, dst: nat, c: byte, n: nat): (r: seq<byte>)
    requires dst + n <= |m|
    ensures |r| == |m|
    ensures forall i :: 0 <= i < |m| ==> r[i] == if dst <= i < dst + n then c else m[i]
  {
    m[..dst] + Repeat(n, c) + m[dst + n..]
  }

  /** Memory `m` with a snapshot of `n` bytes at `src` placed at `dst`. */
  function Copied(m: seq<byte>, dst: nat, src: nat, n: nat): (r: seq<byte>)
    requires dst + n <= |m| && src + n <= |m|
    ensures |r| == |m|
    ensures forall i {:trigger r[i]} :: 0 <= i < |m| ==> r[i] == if dst <= i < dst + n then m[i - dst + src] else m[i]
  {
    m[..dst] + m[src..src + n] + m[dst + n..]
  }

  /** The four bytes of a 32-bit word, lowest address first. */
  function WordBytes(w: int): (r: seq<byte>)
    requires 0 <= w < 0x1_0000_0000
    ensures |r| == 4
  {
    [w % 0x100, w / 0x100 % 0x100, w / 0x1_0000 % 0x100, w / 0x100_0000]
  }

  lemma SplatBytes(c: byte)
    ensures WordBytes(c * 0x100_0000 + c * 0x1_0000 + c * 0x100 + c) == [c, c, c, c]
  {
    var w := c * 0x100_0000 + c * 0x1_0000 + c * 0x100 + c;
    assert w / 0x100 == c * 0x1_0000 + c * 0x100 + c;
    assert w / 0x1_0000 == c * 0x100 + c;
  }

  method StoreWord(mem: array<byte>, addr: nat, w: seq<byte>)
    requires |w| == 4 && addr + 4 <= mem.Length
    modifies mem
    ensures forall i :: 0 <= i < mem.Length ==>
              mem[i] == if addr <= i < addr + 4 then w[i - addr] else old(mem[i])
  {
    mem[addr], mem[addr + 1], mem[addr + 2], mem[addr + 3] := w[0], w[1], w[2], w[3];
  }

  method Memset(mem: array<byte>, s: nat, value: int, n: nat)
    requires s + n <= mem.Length
    modifies mem
    ensures mem[..] == Filled(old(mem[..]), s, value % 0x100, n)
  {
    var c: byte := value % 0x100;
    var word := c * 0x100_0000 + c * 0x1_0000 + c * 0x100 + c;
    var edi: nat, ecx: nat := s, n;
    while ecx != 0 && edi % 4 != 0
      invariant s <= edi && edi + ecx == s + n
      invariant forall i :: 0 <= i < mem.Length ==> mem[i] == if s <= i < edi then c else old(mem[i])
      decreases ecx
    {
      mem[edi] := c;
      edi, ecx := edi + 1, ecx - 1;
    }
    var edx: nat := ecx % 4;
    ecx := ecx / 4;
    SplatBytes(c);
    while ecx != 0
      invariant s <= edi && edi + 4 * ecx + edx == s + n
      invariant forall i :: 0 <= i < mem.Length ==> mem[i] == if s <= i < edi then c else old(mem[i])
      decreases ecx
    {
      StoreWord(mem, edi, WordBytes(word));
      edi, ecx := edi + 4, ecx - 1;
    }
    while edx != 0
      invariant s <= edi && edi + edx == s + n
      invariant forall i :: 0 <= i < mem.Length ==> mem[i] == if s <= i < edi then c else old(mem[i])
      decreases edx
    {
      mem[edi] := c;
      edi, edx := edi + 1, edx - 1;
    }
  }

  /** Copies single bytes, until `n` are done or, when `align` is set, the destination is aligned. */
  method CopyBytes(mem: array<byte>, ghost was: seq<byte>, dst: nat, src: nat, edi: nat, n: nat, align: bool)
    returns (to: nat)
    requires mem.Length == |was| && dst <= edi && edi + n <= |was| && src + (edi - dst) + n <= |was|
    requires dst <= src || src + (edi - dst) + n <= dst
    requires forall i {:trigger mem[i]} :: 0 <= i < mem.Length ==>
               mem[i] == if dst <= i < edi then was[i - dst + src] else was[i]
    modifies mem
    ensures edi <= to <= edi + n && (to < edi + n ==> align && to % 4 == 0)
    ensures forall i {:trigger mem[i]} :: 0 <= i < mem.Length ==>
              mem[i] == if dst <= i < to then was[i - dst + src] else was[i]
  {
    to := edi;
    while to < edi + n && (!align || to % 4 != 0)
      invariant edi <= to <= edi + n
      invariant forall i {:trigger mem[i]} :: 0 <= i < mem.Length ==>
                  mem[i] == if dst <= i < to then was[i - dst + src] else was[i]
    {
      mem[to] := mem[src + (to - dst)];
      to := to + 1;
    }
  }

  /** `rep movsl`. */
  method CopyWords(mem: array<byte>, ghost was: seq<byte>, dst: nat, src: nat, edi: nat, words: nat) returns (to: nat)
    requires mem.Length == |was| && dst <= edi && edi + 4 * words <= |was| && src + (edi - dst) + 4 * words <= |was|
    requires dst <= src || src + (edi - dst) + 4 * words <= dst
    requires forall i {:trigger mem[i]} :: 0 <= i < mem.Length ==>
               mem[i] == if dst <= i < edi then was[i - dst + src] else was[i]
    modifies mem
    ensures to == edi + 4 * words
    ensures forall i {:trigger mem[i]} :: 0 <= i < mem.Length ==>
              mem[i] == if dst <= i < to then was[i - dst + src] else was[i]
  {
    to := edi;
    var ecx := words;
    while ecx != 0
      invariant 0 <= ecx <= words && to == edi + 4 * (words - ecx)
      invariant forall i {:trigger mem[i]} :: 0 <= i < mem.Length ==>
                  mem[i] == if dst <= i < to then was[i - dst + src] else was[i]
    {
      var esi := src + (to - dst);
      var word := mem[esi..esi + 4];
      StoreWord(mem, to, word);
      to, ecx := to + 4, ecx - 1;
    }
  }

  /** Word-splitting copy: bytes up to an aligned destination, words, remaining bytes. It is a snapshot
      copy whenever copying upwards is, which includes every pair of disjoint ranges. */
  method Memcpy(mem: array<byte>, dst: nat, src: nat, n: nat)
    requires dst + n <= mem.Length && src + n <= mem.Length
    requires dst <= src || src + n <= dst
    modifies mem
    ensures mem[..] == Copied(old(mem[..]), dst, src, n)
  {
    ghost var was := mem[..];
    var edi := CopyBytes(mem, was, dst, src, dst, n, true);
    var ecx := dst + n - edi;
    var edx := ecx % 4;
    edi := CopyWords(mem, was, dst, src, edi, ecx / 4);
    edi := CopyBytes(mem, was, dst, src, edi, edx, false);
    assert mem[..] == Copied(was, dst, src, n);
  }

  /** Byte-by-byte copy upwards, the forward `rep movsb`. */
  method CopyUp(mem: array<byte>, dst: nat, src: nat, n: nat)
    requires dst + n <= mem.Length && src + n <= mem.Length
    requires dst <= src || src + n <= dst
    modifies mem
    ensures mem[..] == Copied(old(mem[..]), dst, src, n)
  {
    var edi: nat, esi: nat, ecx: nat := dst, src, n;
    while ecx != 0
      invariant dst <= edi && esi - edi == src - dst && edi + ecx == dst + n
      invariant forall i {:trigger mem[i]} :: 0 <= i < mem.Length ==>
                  mem[i] == if dst <= i < edi then old(mem[i - dst + src]) else old(mem[i])
      decreases ecx
    {
      mem[edi] := mem[esi];
      edi, esi, ecx := edi + 1, esi + 1, ecx - 1;
    }
  }

  /** Direction-splitting move: a snapshot copy under any overlap. */
  method Memmove(mem: array<byte>, dst: nat, src: nat, n: nat)
    requires dst + n <= mem.Length && src + n <= mem.Length
    modifies mem
    ensures mem[..] == Copied(old(mem[..]), dst, src, n)
  {
    var ecx := n;
    if src >= dst {
      CopyUp(mem, dst, src, n);
    } else {
      var esi, edi := src + n - 1, dst + n - 1;
      while ecx != 0
        invariant 0 <= ecx <= n && edi == dst + ecx - 1 && esi == src + ecx - 1
        invariant forall i {:trigger mem[i]} :: 0 <= i < mem.Length ==>
                    mem[i] == if dst + ecx <= i < dst + n then old(mem[i - dst + src]) else old(mem[i])
      {
        mem[edi] := mem[esi];
        edi, esi, ecx := edi - 1, esi - 1, ecx - 1;
      }
    }
  }
}
