/** Machine bytes and NUL-terminated strings shared by the kernel and user models. */
module Bytes {

  type byte = x: int | 0 <= x < 256

  datatype Option<+T> = None | Some(value: T)

  const NUL: byte := 0
  const SPACE: byte := 32
  const NEWLINE: byte := 10
  const RETURN: byte := 13

  /** A buffer of `n` equal bytes. */
  function Repeat(n: nat, c: byte): (r: seq<byte>)
    ensures |r| == n
    ensures forall i :: 0 <= i < n ==> r[i] == c
  {
    seq(n, _ => c)
  }

  /** A string in a zeroed buffer of n bytes. */
  function Padded(s: seq<byte>, n: nat): (r: seq<byte>)
    requires |s| <= n
    ensures |r| == n && s <= r
  {
    s + Repeat(n - |s|, NUL)
  }

  /** The C string held at the start of a buffer: everything before the first NUL. */
  function CString(s: seq<byte>): (r: seq<byte>)
    ensures r <= s
    ensures NUL !in r
    ensures |r| < |s| ==> s[|r|] == NUL
  {
    if s == [] || s[0] == NUL then [] else [s[0]] + CString(s[1..])
  }

  /** A string that ends inside the first part does not see the second. */
  lemma CStringOfFront(a: seq<byte>, b: seq<byte>)
    requires NUL in a
    ensures CString(a + b) == CString(a)
  {
    var r := CString(a);
    assert r <= a + b;
    assert |r| < |a| by {
      assert |r| == |a| ==> r == a;
    }
    CStringUnique(a + b, r);
  }

  /** Three facts pin the C string down: a NUL-free prefix followed by NUL or the end. */
  lemma {:induction false} CStringUnique(s: seq<byte>, r: seq<byte>)
    requires r <= s && NUL !in r
    requires |r| < |s| ==> s[|r|] == NUL
    ensures CString(s) == r
  {
    if s != [] && s[0] != NUL {
      CStringUnique(s[1..], r[1..]);
    }
  }
}
