/**
 * Number printing: `itoa` and `strrev` (student-distrib/lib.c; the user library's
 * syscalls/ece391support.c has the same code) and the zero-padded `%#x`.
 */
module Numbers {
  import opened Bytes

  const ZERO: byte := 48

  /** The lookup table "0123456789ABCDEFGHIJKLMNOPQRSTUVWXYZ". */
  function Digit(d: nat): (c: byte)
    requires d < 36
    ensures c != NUL && (c == ZERO <==> d == 0)
  {
    if d < 10 then 48 + d else 55 + d
  }

  function DigitValue(c: byte): int { if 48 <= c <= 57 then c - 48 else if 65 <= c <= 90 then c - 55 else -1 }

  lemma DigitInverse(d: nat, c: byte)
    ensures d < 36 ==> DigitValue(Digit(d)) == d
    ensures DigitValue(c) >= 0 ==> DigitValue(c) < 36 && Digit(DigitValue(c)) == c
  {
  }

  predicate IsNumeral(s: seq<byte>, radix: nat) {
    forall i :: 0 <= i < |s| ==> 0 <= DigitValue(s[i]) < radix
  }

  /** Reading a numeral, most significant digit first. */
  function Value(s: seq<byte>, radix: nat): (v: nat)
    requires IsNumeral(s, radix)
  {
    if s == [] then 0 else Value(s[..|s| - 1], radix) * radix + DigitValue(s[|s| - 1])
  }

  /** The numeral of a value. */
  function Digits(v: nat, radix: nat): (s: seq<byte>)
    requires 2 <= radix <= 36
    ensures |s| > 0 && NUL !in s
    decreases v
  {
    if v < radix then [Digit(v)] else DivSmaller(v, radix); Digits(v / radix, radix) + [Digit(v % radix)]
  }

  lemma DivSmaller(v: nat, radix: nat)
    requires radix >= 2
    ensures v > 0 ==> v / radix < v
    ensures v == v / radix * radix + v % radix && 0 <= v % radix < radix
    ensures v < radix ==> v / radix == 0 && v % radix == v
    ensures v >= radix ==> v / radix > 0
  {
  }

  lemma DivUnique(q: nat, r: nat, radix: nat)
    requires r < radix
    ensures (q * radix + r) / radix == q && (q * radix + r) % radix == r
  {
    var v := q * radix + r;
    var d, m := v / radix, v % radix;
    assert v == d * radix + m && 0 <= m < radix;
    assert q + 1 <= d ==> (q + 1) * radix <= d * radix;
    assert d + 1 <= q ==> (d + 1) * radix <= q * radix;
  }

  /** Reading back what was printed gives the value, and there is no leading zero. */
  lemma {:induction false} ReadBack(v: nat, radix: nat)
    requires 2 <= radix <= 36
    ensures IsNumeral(Digits(v, radix), radix) && Value(Digits(v, radix), radix) == v
    ensures v > 0 ==> Digits(v, radix)[0] != ZERO
    decreases v
  {
    DivSmaller(v, radix);
    if v < radix {
      DigitInverse(v, ZERO);
    } else {
      var high := Digits(v / radix, radix);
      ReadBack(v / radix, radix);
      DigitInverse(v % radix, ZERO);
      assert Digits(v, radix)[..|high|] == high;
    }
  }

  lemma DigitsSnoc(q: nat, d: nat, radix: nat)
    requires 2 <= radix <= 36 && q > 0 && d < radix
    ensures q * radix + d > 0 && Digits(q * radix + d, radix) == Digits(q, radix) + [Digit(d)]
  {
    DivUnique(q, d, radix);
    assert q * radix >= radix;
  }

  /** Printing what was read gives the numeral back, for every numeral without a leading zero: the printed
      form is the only one. */
  lemma {:induction false} PrintBack(s: seq<byte>, radix: nat)
    requires 2 <= radix <= 36 && s != [] && IsNumeral(s, radix) && (|s| == 1 || s[0] != ZERO)
    ensures Digits(Value(s, radix), radix) == s
    ensures s[0] != ZERO ==> Value(s, radix) > 0
  {
    var n := |s| - 1;
    DigitInverse(0, s[n]);
    assert s == s[..n] + [s[n]];
    if n == 0 {
      assert Value(s[..0], radix) == 0;
    } else {
      PrintBack(s[..n], radix);
      DigitsSnoc(Value(s[..n], radix), DigitValue(s[n]), radix);
    }
  }

  /** Leading zeros do not change a value. */
  lemma {:induction false} ValueOfPadded(z: nat, s: seq<byte>, radix: nat)
    requires 2 <= radix && IsNumeral(s, radix)
    ensures IsNumeral(Repeat(z, ZERO) + s, radix) && Value(Repeat(z, ZERO) + s, radix) == Value(s, radix)
    decreases |s| + z
  {
    var p := Repeat(z, ZERO) + s;
    if s != [] {
      var n := |s| - 1;
      ValueOfPadded(z, s[..n], radix);
      assert p[..|p| - 1] == Repeat(z, ZERO) + s[..n];
    } else if z > 0 {
      ValueOfPadded(z - 1, s, radix);
      assert p[..|p| - 1] == Repeat(z - 1, ZERO) + s;
    }
  }

  /** No numeral of the same value is shorter than the printed one, leading zeros or not. */
  lemma {:induction false} PrintedShortest(s: seq<byte>, radix: nat)
    requires 2 <= radix <= 36 && s != [] && IsNumeral(s, radix)
    ensures |Digits(Value(s, radix), radix)| <= |s|
  {
    if |s| == 1 || s[0] != ZERO {
      PrintBack(s, radix);
    } else {
      PrintedShortest(s[1..], radix);
      ValueOfPadded(1, s[1..], radix);
      assert s == Repeat(1, ZERO) + s[1..];
    }
  }

  /** The length of the C string at address `at`. */
  method Strlen(buf: array<byte>, at: nat) returns (n: nat)
    requires at <= buf.Length && NUL in buf[at..]
    ensures at + n < buf.Length && buf[at..at + n] == CString(buf[at..])
  {
    n := 0;
    ghost var z :| 0 <= z < buf.Length - at && buf[at..][z] == NUL;
    while buf[at + n] != NUL
      invariant n <= z && at + z < buf.Length && buf[at + z] == NUL
      invariant forall j :: at <= j < at + n ==> buf[j] != NUL
      decreases z - n
    {
      n := n + 1;
    }
    CStringUnique(buf[at..], buf[at..at + n]);
  }

  /** The swap loop. */
  method ReverseRange(buf: array<byte>, at: nat, len: nat)
    requires at + len <= buf.Length
    modifies buf
    ensures forall j :: at <= j < at + len ==> buf[j] == old(buf[2 * at + len - 1 - j])
    ensures forall j :: 0 <= j < buf.Length && !(at <= j < at + len) ==> buf[j] == old(buf[j])
  {
    var beg, end: int := 0, len as int - 1;
    while beg < end
      invariant 0 <= beg <= end + 2 && beg + end == len as int - 1
      invariant forall j :: at <= j < at + beg ==> buf[j] == old(buf[2 * at + len - 1 - j])
      invariant forall j {:trigger buf[j]} :: at + end < j < at + len ==> buf[j] == old(buf[2 * at + len - 1 - j])
      invariant forall j :: 0 <= j < buf.Length && !(at <= j < at + beg) && !(at + end < j < at + len) ==>
                  buf[j] == old(buf[j])
    {
      var tmp := buf[at + end];
      buf[at + end] := buf[at + beg];
      buf[at + beg] := tmp;
      beg, end := beg + 1, end - 1;
    }
  }

  /** In-place reversal of the C string at `at`. */
  method Strrev(buf: array<byte>, at: nat)
    requires at <= buf.Length && NUL in buf[at..]
    modifies buf
    ensures var n := |old(CString(buf[at..]))|;
            && at + n < buf.Length
            && (forall j :: at <= j < at + n ==> buf[j] == old(buf[2 * at + |CString(buf[at..])| - 1 - j]))
            && (forall j :: 0 <= j < buf.Length && !(at <= j < at + n) ==> buf[j] == old(buf[j]))
  {
    var len := Strlen(buf, at);
    ghost var m := buf[..];
    assert |CString(buf[at..])| == len;
    ReverseRange(buf, at, len);
    assert forall j {:trigger buf[j]} :: at <= j < at + len ==> buf[j] == m[2 * at + len - 1 - j];
  }

  /** The digit loop writes the least significant digit first. */
  method WriteDigits(value: nat, buf: array<byte>, at: nat, radix: nat) returns (n: nat)
    requires 2 <= radix <= 36 && value > 0 && at + |Digits(value, radix)| < buf.Length
    modifies buf
    ensures n == |Digits(value, radix)|
    ensures forall j {:trigger buf[j]} :: 0 <= j < buf.Length ==>
              buf[j] == if at <= j < at + n then Digits(value, radix)[n - 1 - (j - at)] else old(buf[j])
  {
    ghost var all := Digits(value, radix);
    var newval: nat := value;
    n := 0;
    while newval > 0
      invariant 0 <= n <= |all| && (newval > 0 ==> n < |all| && Digits(newval, radix) == all[..|all| - n])
      invariant newval == 0 ==> n == |all|
      invariant forall j {:trigger buf[j]} :: 0 <= j < buf.Length ==>
                  buf[j] == if at <= j < at + n then all[|all| - 1 - (j - at)] else old(buf[j])
      decreases newval
    {
      var next, d := SplitLast(newval, radix);
      assert all[..|all| - n][|all| - n - 1] == all[|all| - n - 1];
      assert all[..|all| - n][..|all| - n - 1] == all[..|all| - n - 1];
      buf[at + n] := Digit(d);
      newval := next;
      n := n + 1;
    }
    assert n == |all|;
  }

  /** One place value: the quotient and remainder peel off the last digit. */
  method SplitLast(v: nat, radix: nat) returns (next: nat, d: nat)
    requires 2 <= radix <= 36 && v > 0
    ensures next < v && d < radix
    ensures var s := Digits(v, radix);
            && s[|s| - 1] == Digit(d) && (next == 0 <==> |s| == 1)
            && (next > 0 ==> s[..|s| - 1] == Digits(next, radix))
  {
    DivSmaller(v, radix);
    d, next := v % radix, v / radix;
    if v >= radix {
      assert Digits(v, radix) == Digits(next, radix) + [Digit(d)];
    }
  }

  /** `itoa` leaves the numeral of the value, NUL-terminated, at the given address and touches no other byte. */
  method Itoa(value: nat, buf: array<byte>, at: nat, radix: nat)
    requires 2 <= radix <= 36 && at + |Digits(value, radix)| < buf.Length
    modifies buf
    ensures var s := Digits(value, radix);
            && (forall i :: 0 <= i < |s| ==> buf[at + i] == s[i]) && buf[at + |s|] == NUL
            && (forall j :: 0 <= j < buf.Length && !(at <= j <= at + |s|) ==> buf[j] == old(buf[j]))
  {
    if value == 0 {
      buf[at], buf[at + 1] := ZERO, NUL;
      return;
    }
    var n := WriteDigits(value, buf, at, radix);
    ghost var s := Digits(value, radix);
    buf[at + n] := NUL;
    StringAt(buf, at, n);
    ghost var low := buf[..];
    Strrev(buf, at);
    forall i | 0 <= i < n ensures buf[at + i] == s[i] {
      assert buf[at + i] == low[2 * at + n - 1 - (at + i)];
    }
  }

  /** NUL-free bytes followed by NUL are the string at that address. */
  lemma StringAt(buf: array<byte>, at: nat, n: nat)
    requires at + n < buf.Length && buf[at + n] == NUL && forall j :: at <= j < at + n ==> buf[j] != NUL
    ensures NUL in buf[at..] && CString(buf[at..]) == buf[at..at + n]
  {
    assert buf[at..][n] == NUL;
    CStringUnique(buf[at..], buf[at..at + n]);
  }

  /** `%#x`: eight hexadecimal digits of the same value. */
  method AlternateHex(value: nat) returns (out: seq<byte>)
    requires value < 0x1_0000_0000
    ensures |out| == 8 && IsNumeral(out, 16) && Value(out, 16) == value
  {
    HexLength(value, 8);
    ghost var s := Digits(value, 16);
    var buf := new byte[64];
    Itoa(value, buf, 8, 16);
    forall j | 8 <= j < 8 + |s| ensures buf[j] != NUL {
      assert buf[8 + (j - 8)] == s[j - 8];
    }
    StringAt(buf, 8, |s|);
    var start := Strlen(buf, 8);
    assert buf[8..8 + start] == s;
    out := PadLeft(buf, start);
    ReadBack(value, 16);
    ValueOfPadded(8 - start, s, 16);
  }

  method PadLeft(buf: array<byte>, start: nat) returns (out: seq<byte>)
    requires buf.Length == 64 && start <= 8
    modifies buf
    ensures out == Repeat(8 - start, ZERO) + old(buf[8..8 + start])
  {
    var i := start;
    while i < 8
      invariant start <= i <= 8
      invariant forall j :: start <= j < buf.Length ==> buf[j] == if j < i then ZERO else old(buf[j])
    {
      buf[i] := ZERO;
      i := i + 1;
    }
    out := buf[start..8 + start];
    assert out == Repeat(8 - start, ZERO) + old(buf[8..8 + start]);
  }

  function Power16(k: nat): nat { if k == 0 then 1 else 16 * Power16(k - 1) }

  lemma {:induction false} HexLength(v: nat, k: nat)
    requires k > 0 && (v < Power16(k) || (k == 8 && v < 0x1_0000_0000))
    ensures |Digits(v, 16)| <= k
    decreases k
  {
    assert k == 8 ==> Power16(k) == 0x1_0000_0000 by {
      assert Power16(4) == 0x1_0000;
      assert k == 8 ==> Power16(k) == 16 * (16 * (16 * (16 * Power16(4))));
    }
    if v >= 16 && k > 1 {
      HexLength(v / 16, k - 1);
    }
  }
}
