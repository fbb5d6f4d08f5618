/**
 * Command splitting and argument joining in the user library
 * (syscalls/ece391emulate.c): the tokeniser of `ece391_execute`, which cuts the
 * command in place, and the joiner of `ece391_getargs`.
 */
module Arguments {
  import opened Bytes

  predicate IsDelim(c: byte) { c == NUL || c == SPACE || c == NEWLINE }

  predicate IsWord(w: seq<byte>) { forall i :: 0 <= i < |w| ==> !IsDelim(w[i]) }

  /** The first position from i on that holds no space. */
  function SpacesFrom(s: seq<byte>, i: nat): (p: nat)
    requires i <= |s|
    ensures i <= p <= |s| && (p < |s| ==> s[p] != SPACE)
    decreases |s| - i
  {
    if i == |s| || s[i] != SPACE then i else SpacesFrom(s, i + 1)
  }

  /** The first position from i on that holds a separator. */
  function WordFrom(s: seq<byte>, i: nat): (q: nat)
    requires i <= |s|
    ensures i <= q <= |s| && (q < |s| ==> IsDelim(s[q]))
    decreases |s| - i
  {
    if i == |s| || IsDelim(s[i]) then i else WordFrom(s, i + 1)
  }

  /** Everything stepped over is a space, and everything in a word is not a separator. */
  lemma {:induction false} RunContents(s: seq<byte>, i: nat)
    requires i <= |s|
    ensures forall j :: i <= j < SpacesFrom(s, i) ==> s[j] == SPACE
    ensures forall j :: i <= j < WordFrom(s, i) ==> !IsDelim(s[j])
    decreases |s| - i
  {
    if i < |s| {
      RunContents(s, i + 1);
    }
  }

  /** The arguments the tokeniser finds from position i on: words between separators, up to the end or to a
      newline that stands where a word could start. */
  function Args(s: seq<byte>, i: nat): (r: seq<seq<byte>>)
    requires i <= |s|
    decreases |s| - i
  {
    var p := SpacesFrom(s, i);
    if p == |s| || IsDelim(s[p]) then []
    else
      var q := WordFrom(s, p);
      if q == |s| then [s[p..q]] else [s[p..q]] + Args(s, q + 1)
  }

  /** The words separated by single spaces. */
  function Join(ws: seq<seq<byte>>): seq<byte> {
    if ws == [] then [] else if |ws| == 1 then ws[0] else ws[0] + [SPACE] + Join(ws[1..])
  }

  predicate AreWords(ws: seq<seq<byte>>) { forall i :: 0 <= i < |ws| ==> ws[i] != [] && IsWord(ws[i]) }

  lemma ConsWords(w: seq<byte>, ws: seq<seq<byte>>)
    requires w != [] && IsWord(w) && AreWords(ws)
    ensures AreWords([w] + ws)
  {
  }

  lemma {:induction false} ArgsAreWords(s: seq<byte>, i: nat)
    requires i <= |s|
    ensures AreWords(Args(s, i))
    decreases |s| - i
  {
    var p := SpacesFrom(s, i);
    if p < |s| && !IsDelim(s[p]) {
      var q := WordFrom(s, p);
      RunContents(s, p);
      if q < |s| {
        ArgsAreWords(s, q + 1);
        ConsWords(s[p..q], Args(s, q + 1));
      } else {
        ConsWords(s[p..q], []);
      }
    }
  }

  lemma {:induction false} SpacesFromUnique(s: seq<byte>, i: nat, p: nat)
    requires i <= p <= |s| && (forall j :: i <= j < p ==> s[j] == SPACE) && (p < |s| ==> s[p] != SPACE)
    ensures SpacesFrom(s, i) == p
    decreases p - i
  {
    if i < p {
      SpacesFromUnique(s, i + 1, p);
    }
  }

  lemma {:induction false} WordFromUnique(s: seq<byte>, i: nat, q: nat)
    requires i <= q <= |s| && (forall j :: i <= j < q ==> !IsDelim(s[j])) && (q < |s| ==> IsDelim(s[q]))
    ensures WordFrom(s, i) == q
    decreases q - i
  {
    if i < q {
      WordFromUnique(s, i + 1, q);
    }
  }

  /** One round of the tokeniser. */
  lemma ArgsRound(s: seq<byte>, i: nat, p: nat, q: nat)
    requires i <= |s| && p == SpacesFrom(s, i) && q == WordFrom(s, p)
    ensures p == |s| || IsDelim(s[p]) ==> Args(s, i) == []
    ensures p < |s| && !IsDelim(s[p]) && q == |s| ==> Args(s, i) == [s[p..q]]
    ensures p < |s| && !IsDelim(s[p]) && q < |s| ==> Args(s, i) == [s[p..q]] + Args(s, q + 1)
  {
  }

  /** Text t stands in b from position k to the end. */
  predicate Tail(b: seq<byte>, k: nat, t: seq<byte>) {
    |b| == k + |t| && forall j {:trigger t[j]} :: 0 <= j < |t| ==> b[k + j] == t[j]
  }

  lemma {:induction false} SpacesShift(b: seq<byte>, k: nat, t: seq<byte>, i: nat)
    requires Tail(b, k, t) && i <= |t|
    ensures SpacesFrom(b, k + i) == k + SpacesFrom(t, i)
    decreases |t| - i
  {
    if i < |t| && t[i] == SPACE {
      SpacesShift(b, k, t, i + 1);
    }
  }

  lemma {:induction false} WordShift(b: seq<byte>, k: nat, t: seq<byte>, i: nat)
    requires Tail(b, k, t) && i <= |t|
    ensures WordFrom(b, k + i) == k + WordFrom(t, i)
    decreases |t| - i
  {
    if i < |t| && !IsDelim(t[i]) {
      WordShift(b, k, t, i + 1);
    }
  }

  lemma TailSlice(b: seq<byte>, k: nat, t: seq<byte>, p: nat, q: nat)
    requires Tail(b, k, t) && p <= q <= |t|
    ensures b[k + p..k + q] == t[p..q]
  {
    assert forall j :: p <= j < q ==> b[k + j] == t[j];
    assert forall j :: 0 <= j < q - p ==> b[k + p..k + q][j] == t[p..q][j] by {
      forall j | 0 <= j < q - p ensures b[k + p..k + q][j] == t[p..q][j] {
        assert t[p + j] == b[k + (p + j)];
      }
    }
  }

  /** One round of the tokeniser at two places that hold the same text. */
  lemma SameRound(b: seq<byte>, k: nat, t: seq<byte>, i: nat, p: nat, q: nat)
    requires Tail(b, k, t) && i <= |t| && p == SpacesFrom(t, i) && q == WordFrom(t, p)
    ensures k + p == SpacesFrom(b, k + i) && k + q == WordFrom(b, k + p) && b[k + p..k + q] == t[p..q]
    ensures p < |t| ==> b[k + p] == t[p]
  {
    SpacesShift(b, k, t, i);
    WordShift(b, k, t, p);
    TailSlice(b, k, t, p, q);
  }

  /** Two rounds that find the same word and go on alike. */
  lemma RoundsAgree(b: seq<byte>, i: nat, p: nat, q: nat, t: seq<byte>, j: nat, r: nat, s: nat)
    requires i <= |b| && p == SpacesFrom(b, i) && q == WordFrom(b, p)
    requires j <= |t| && r == SpacesFrom(t, j) && s == WordFrom(t, r)
    requires b[p..q] == t[r..s] && (p == |b| <==> r == |t|) && (q == |b| <==> s == |t|)
    requires p < |b| && r < |t| ==> b[p] == t[r]
    requires q < |b| && s < |t| && r < |t| && !IsDelim(t[r]) ==> Args(b, q + 1) == Args(t, s + 1)
    ensures Args(b, i) == Args(t, j)
  {
    ArgsRound(b, i, p, q);
    ArgsRound(t, j, r, s);
  }

  /** A round at both places, given that what follows agrees. */
  lemma RoundShift(b: seq<byte>, k: nat, t: seq<byte>, i: nat, p: nat, q: nat)
    requires Tail(b, k, t) && i <= |t| && p == SpacesFrom(t, i) && q == WordFrom(t, p)
    requires q < |t| ==> Args(b, k + q + 1) == Args(t, q + 1)
    ensures Args(b, k + i) == Args(t, i)
  {
    SameRound(b, k, t, i, p, q);
    RoundsAgree(b, k + i, k + p, k + q, t, i, p, q);
  }

  /** The arguments depend only on the text from the position on. */
  lemma {:induction false} ArgsShift(b: seq<byte>, k: nat, t: seq<byte>, i: nat)
    requires Tail(b, k, t) && i <= |t|
    ensures Args(b, k + i) == Args(t, i)
    decreases |t| - i
  {
    var q := WordFrom(t, SpacesFrom(t, i));
    if q < |t| {
      ArgsShift(b, k, t, q + 1);
    }
    RoundShift(b, k, t, i, SpacesFrom(t, i), q);
  }

  lemma ArgsOfLastWord(w: seq<byte>)
    requires w != [] && IsWord(w)
    ensures Args(w, 0) == [w]
  {
    SpacesFromUnique(w, 0, 0);
    WordFromUnique(w, 0, |w|);
    ArgsRound(w, 0, 0, |w|);
    assert w[0..|w|] == w;
  }

  lemma ArgsOfWord(s: seq<byte>, w: seq<byte>, rest: seq<byte>)
    requires w != [] && IsWord(w) && Tail(s, |w| + 1, rest) && s[..|w|] == w && s[|w|] == SPACE
    ensures Args(s, 0) == [w] + Args(rest, 0)
  {
    assert forall j :: 0 <= j < |w| ==> s[j] == w[j];
    SpacesFromUnique(s, 0, 0);
    WordFromUnique(s, 0, |w|);
    ArgsRound(s, 0, 0, |w|);
    assert s[0..|w|] == w;
    ArgsShift(s, |w| + 1, rest, 0);
  }

  lemma WordThenRest(w: seq<byte>, rest: seq<byte>)
    ensures var s := w + [SPACE] + rest;
            Tail(s, |w| + 1, rest) && s[..|w|] == w && s[|w|] == SPACE
  {
  }

  lemma SplitJoinCons(w: seq<byte>, ws: seq<seq<byte>>, joined: seq<byte>)
    requires w != [] && IsWord(w) && Args(joined, 0) == ws
    ensures Args(w + [SPACE] + joined, 0) == [w] + ws
  {
    WordThenRest(w, joined);
    ArgsOfWord(w + [SPACE] + joined, w, joined);
  }

  /** Splitting undoes joining. */
  lemma {:induction false} SplitJoin(ws: seq<seq<byte>>)
    requires AreWords(ws)
    ensures Args(Join(ws), 0) == ws
  {
    if |ws| == 1 {
      ArgsOfLastWord(ws[0]);
    } else if |ws| > 1 {
      SplitJoin(ws[1..]);
      SplitJoinCons(ws[0], ws[1..], Join(ws[1..]));
      assert ws == [ws[0]] + ws[1..];
    }
  }

  /** Joining what was split is a normal form: it splits into the same arguments, for any text. */
  lemma Resplit(s: seq<byte>, i: nat)
    requires i <= |s|
    ensures Args(Join(Args(s, i)), 0) == Args(s, i)
  {
    ArgsAreWords(s, i);
    SplitJoin(Args(s, i));
  }

  function Flatten(ws: seq<seq<byte>>): seq<byte> { if ws == [] then [] else ws[0] + Flatten(ws[1..]) }

  /** The text from position i on with its spaces deleted. */
  function NoSpaces(s: seq<byte>, i: nat): seq<byte>
    requires i <= |s|
    decreases |s| - i
  {
    if i == |s| then [] else (if s[i] == SPACE then [] else [s[i]]) + NoSpaces(s, i + 1)
  }

  lemma {:induction false} NoSpacesOfSpaces(s: seq<byte>, i: nat, p: nat)
    requires i <= p <= |s| && forall j :: i <= j < p ==> s[j] == SPACE
    ensures NoSpaces(s, i) == NoSpaces(s, p)
    decreases p - i
  {
    if i < p {
      NoSpacesOfSpaces(s, i + 1, p);
    }
  }

  lemma {:induction false} NoSpacesOfWord(s: seq<byte>, i: nat, p: nat)
    requires i <= p <= |s| && forall j :: i <= j < p ==> s[j] != SPACE
    ensures NoSpaces(s, i) == s[i..p] + NoSpaces(s, p)
    decreases p - i
  {
    if i < p {
      NoSpacesOfWord(s, i + 1, p);
      assert s[i..p] == [s[i]] + s[i + 1..p];
      ConsConcat(s[i], s[i + 1..p], NoSpaces(s, p));
    } else {
      assert s[i..p] == [];
    }
  }

  lemma ConsConcat<T>(x: T, a: seq<T>, b: seq<T>)
    ensures [x] + (a + b) == ([x] + a) + b
  {
  }

  lemma NoSpacesRound(s: seq<byte>, i: nat, p: nat, q: nat)
    requires i <= |s| && p == SpacesFrom(s, i) && q == WordFrom(s, p)
    ensures NoSpaces(s, i) == s[p..q] + NoSpaces(s, q)
    ensures q < |s| && s[q] == SPACE ==> NoSpaces(s, q) == NoSpaces(s, q + 1)
  {
    RunContents(s, i);
    NoSpacesOfSpaces(s, i, p);
    RunContents(s, p);
    NoSpacesOfWord(s, p, q);
  }

  /** On a command line without newlines nothing but spaces is lost. */
  lemma {:induction false} SplitConserves(s: seq<byte>, i: nat)
    requires i <= |s| && forall j :: 0 <= j < |s| ==> s[j] != NUL && s[j] != NEWLINE
    ensures Flatten(Args(s, i)) == NoSpaces(s, i)
    decreases |s| - i
  {
    var p := SpacesFrom(s, i);
    var q := WordFrom(s, p);
    ArgsRound(s, i, p, q);
    NoSpacesRound(s, i, p, q);
    if p == |s| {
      assert s[p..q] == [];
    } else if q == |s| {
      FlattenCons(s[p..q], []);
      assert [s[p..q]] + [] == [s[p..q]];
    } else {
      FlattenCons(s[p..q], Args(s, q + 1));
      SplitConserves(s, q + 1);
    }
  }

  lemma FlattenCons(w: seq<byte>, ws: seq<seq<byte>>)
    ensures Flatten([w] + ws) == w + Flatten(ws)
  {
    assert ([w] + ws)[1..] == ws;
  }

  /** Joining costs one byte for every word after the first. */
  lemma {:induction false} JoinLength(ws: seq<seq<byte>>)
    ensures |Join(ws)| == |Flatten(ws)| + (if ws == [] then 0 else |ws| - 1)
  {
    if |ws| == 1 {
      FlattenCons(ws[0], []);
      assert ws == [ws[0]] + [];
    } else if |ws| > 1 {
      JoinLength(ws[1..]);
    }
  }

  /** Words run together are the words joined exactly when there is at most one of them. */
  lemma FlattenIsJoinIff(ws: seq<seq<byte>>)
    ensures Flatten(ws) == Join(ws) <==> |ws| <= 1
  {
    JoinLength(ws);
    if |ws| == 1 {
      FlattenCons(ws[0], []);
      assert ws == [ws[0]] + [];
    }
  }

  lemma {:induction false} JoinSnoc(ws: seq<seq<byte>>, w: seq<byte>)
    ensures Join(ws + [w]) == if ws == [] then w else Join(ws) + [SPACE] + w
  {
    if |ws| > 0 {
      var all := ws + [w];
      assert all[1..] == ws[1..] + [w];
      JoinSnoc(ws[1..], w);
      assert Join(all) == ws[0] + [SPACE] + Join(all[1..]);
      if |ws| > 1 {
        assert Join(all) == (ws[0] + [SPACE] + Join(ws[1..])) + [SPACE] + w;
      }
    }
  }

  /** What stands in the buffer when word k is about to be copied: the first k words joined, and a space. */
  function Before(ws: seq<seq<byte>>, k: nat): seq<byte>
    requires k <= |ws|
  {
    if k == 0 then [] else Join(ws[..k]) + [SPACE]
  }

  lemma BeforeNext(ws: seq<seq<byte>>, k: nat)
    requires k < |ws|
    ensures Join(ws[..k + 1]) == Before(ws, k) + ws[k]
  {
    assert ws[..k + 1] == ws[..k] + [ws[k]];
    JoinSnoc(ws[..k], ws[k]);
  }

  /** Every further word makes the joined text longer. */
  lemma {:induction false} JoinGrows(ws: seq<seq<byte>>, j: nat, k: nat)
    requires 0 < j <= k <= |ws|
    ensures |Join(ws[..j])| + (k - j) <= |Join(ws[..k])|
  {
    if j < k {
      JoinGrows(ws, j, k - 1);
      BeforeNext(ws, k - 1);
    }
  }

  /** Some words from the front fill `nbytes` bytes exactly. */
  predicate Fills(ws: seq<seq<byte>>, nbytes: int) {
    exists k :: 0 < k <= |ws| && |Join(ws[..k])| == nbytes
  }

  /** Whether the words fill `nbytes` shows at the first word that reaches that far. */
  lemma FillsAt(ws: seq<seq<byte>>, k: nat, nbytes: int)
    requires 0 < k <= |ws| && |Join(ws[..k])| >= nbytes && (k > 1 ==> |Join(ws[..k - 1])| < nbytes)
    ensures Fills(ws, nbytes) <==> |Join(ws[..k])| == nbytes
    ensures |Join(ws)| >= nbytes
  {
    assert ws[..|ws|] == ws;
    JoinGrows(ws, k, |ws|);
    forall j | 0 < j <= |ws| && j != k ensures |Join(ws[..j])| != nbytes {
      if j < k {
        JoinGrows(ws, j, k - 1);
      } else {
        JoinGrows(ws, k, j);
      }
    }
  }

  /** The word that is due, behind `pos` bytes, decides once it reaches `nbytes`. */
  lemma FillsNext(ws: seq<seq<byte>>, k: nat, pos: nat, nbytes: int)
    requires k < |ws| && pos == |Before(ws, k)| && (pos <= nbytes || pos == 0)
    ensures pos + |ws[k]| >= nbytes ==> (Fills(ws, nbytes) <==> pos + |ws[k]| == nbytes) && |Join(ws)| >= nbytes
  {
    BeforeNext(ws, k);
    if pos + |ws[k]| >= nbytes {
      FillsAt(ws, k + 1, nbytes);
    }
  }

  lemma FillsNot(ws: seq<seq<byte>>, nbytes: int)
    requires |Join(ws)| < nbytes
    ensures !Fills(ws, nbytes)
  {
    assert ws[..|ws|] == ws;
    forall j | 0 < j <= |ws| ensures |Join(ws[..j])| != nbytes {
      JoinGrows(ws, j, |ws|);
    }
  }

  /** The arguments, joined, are no longer than the text they were split from. */
  lemma {:induction false} JoinedArgsShort(s: seq<byte>, i: nat)
    requires i <= |s|
    ensures |Join(Args(s, i))| <= |s| - i
    decreases |s| - i
  {
    var p := SpacesFrom(s, i);
    var q := WordFrom(s, p);
    ArgsRound(s, i, p, q);
    if p < |s| && !IsDelim(s[p]) && q < |s| {
      JoinedArgsShort(s, q + 1);
      JoinCons(s[p..q], Args(s, q + 1));
    }
  }

  lemma JoinCons(w: seq<byte>, ws: seq<seq<byte>>)
    ensures |Join([w] + ws)| <= |w| + 1 + |Join(ws)|
  {
    assert ([w] + ws)[1..] == ws;
  }

  /** Every command the tokeniser accepts has arguments that fit the callers' 1024 bytes: `GetArgs` succeeds
      and stays inside a buffer of exactly that size. */
  lemma TokenisedFit(cmd: seq<byte>)
    requires |cmd| <= 1023
    ensures |Tokens(cmd)| > 0
    ensures |Join(Tokens(cmd)[1..])| + 1 <= 1024 && !Fills(Tokens(cmd)[1..], 1024)
  {
    var n := WordFrom(cmd, 0);
    if n < |cmd| {
      JoinedArgsShort(cmd, n + 1);
      assert Tokens(cmd)[1..] == Args(cmd, n + 1);
    }
    FillsNot(Tokens(cmd)[1..], 1024);
  }

  /** `strcpy` of a NUL-free string: its bytes and a NUL. */
  method Strcpy(buf: array<byte>, pos: nat, src: seq<byte>)
    requires pos + |src| < buf.Length
    modifies buf
    ensures forall j :: 0 <= j < buf.Length ==>
              buf[j] == if pos <= j < pos + |src| then src[j - pos] else if j == pos + |src| then NUL else old(buf[j])
  {
    var i := 0;
    while i < |src|
      invariant 0 <= i <= |src|
      invariant forall j :: 0 <= j < buf.Length ==>
                  buf[j] == if pos <= j < pos + i then src[j - pos] else old(buf[j])
    {
      buf[pos + i] := src[i];
      i := i + 1;
    }
    buf[pos + i] := NUL;
  }

  method Append(buf: array<byte>, pos: nat, src: seq<byte>)
    requires pos + |src| < buf.Length
    modifies buf
    ensures buf[..pos + |src|] == old(buf[..pos]) + src && buf[pos + |src|] == NUL
    ensures forall j :: pos + |src| < j < buf.Length ==> buf[j] == old(buf[j])
  {
    Strcpy(buf, pos, src);
  }

  method PutNul(buf: array<byte>, pos: nat)
    requires pos < buf.Length
    modifies buf
    ensures buf[..pos] == old(buf[..pos]) && buf[pos] == NUL
    ensures forall j :: pos < j < buf.Length ==> buf[j] == old(buf[j])
  {
    buf[pos] := NUL;
  }

  /** One word behind those already joined. */
  method CopyWord(argv: seq<seq<byte>>, idx: nat, buf: array<byte>, pos: nat)
    requires idx < |argv| && pos + |argv[idx]| < buf.Length && buf[..pos] == Before(argv, idx)
    modifies buf
    ensures buf[..pos + |argv[idx]|] == Join(argv[..idx + 1]) && buf[pos + |argv[idx]|] == NUL
    ensures forall j :: pos + |argv[idx]| < j < buf.Length ==> buf[j] == old(buf[j])
  {
    BeforeNext(argv, idx);
    Append(buf, pos, argv[idx]);
  }

  method AddSpace(ghost argv: seq<seq<byte>>, ghost idx: nat, buf: array<byte>, pos: nat)
    requires 0 < idx <= |argv| && pos < buf.Length && buf[..pos] == Join(argv[..idx])
    modifies buf
    ensures buf[..pos + 1] == Before(argv, idx)
    ensures forall j :: pos < j < buf.Length ==> buf[j] == old(buf[j])
  {
    buf[pos] := SPACE;
  }

  /** Writes the arguments separated by single spaces; succeeds exactly when they and a NUL fit in nbytes.
      The copy of an argument writes its NUL before the remaining space is checked, so byte `nbytes`, one past
      the caller's buffer, is cleared exactly when some arguments from the front fill nbytes exactly. A buffer
      of nbytes is enough in all other cases, and nothing further behind is ever written. */
  method GetArgs(argv: seq<seq<byte>>, buf: array<byte>, nbytes: int) returns (r: int)
    requires forall i :: 0 <= i < |argv| ==> NUL !in argv[i]
    requires nbytes <= buf.Length && (Fills(argv, nbytes) ==> nbytes < buf.Length)
    modifies buf
    ensures r == if |Join(argv)| + 1 <= nbytes then 0 else -1
    ensures r == 0 ==> buf[..|Join(argv)|] == Join(argv) && buf[|Join(argv)|] == NUL
    ensures 0 <= nbytes < buf.Length ==> buf[nbytes] == if Fills(argv, nbytes) then NUL else old(buf[nbytes])
    ensures forall j :: 0 <= j < buf.Length && j > nbytes ==> buf[j] == old(buf[j])
  {
    var idx, pos, left := 0, 0, nbytes;
    assert argv[..|argv|] == argv;
    while idx < |argv|
      invariant 0 <= idx < |argv| || idx == pos == 0 == |argv|
      invariant 0 <= pos && pos + left == nbytes && (pos <= nbytes || pos == 0) && pos <= buf.Length
      invariant buf[..pos] == Before(argv, idx)
      invariant forall j :: 0 <= j < buf.Length && j >= nbytes ==> buf[j] == old(buf[j])
    {
      var len := |argv[idx]|;
      FillsNext(argv, idx, pos, nbytes);
      if len > left {
        return -1;
      }
      CopyWord(argv, idx, buf, pos);
      pos, left, idx := pos + len, left - len, idx + 1;
      if idx >= |argv| {
        break;
      }
      if left < 1 {
        return -1;
      }
      AddSpace(argv, idx, buf, pos);
      pos, left := pos + 1, left - 1;
    }
    assert buf[..pos] == Join(argv);
    if left < 1 {
      return -1;
    }
    FillsNot(argv, nbytes);
    PutNul(buf, pos);
    return 0;
  }

  /** The string w stands at address `at`. */
  predicate Placed(b: seq<byte>, at: nat, w: seq<byte>) {
    at + |w| < |b| && b[at..at + |w|] == w && NUL !in w && b[at + |w|] == NUL
  }

  lemma PlacedKept(b: seq<byte>, q: nat, at: nat, w: seq<byte>)
    requires Placed(b, at, w) && at + |w| <= q < |b|
    ensures Placed(b[q := NUL], at, w)
  {
  }

  lemma PlacedString(b: seq<byte>, at: nat, w: seq<byte>)
    requires Placed(b, at, w)
    ensures CString(b[at..]) == w
  {
    CStringUnique(b[at..], w);
  }

  /** All words placed, each ending at or before `limit`. */
  predicate AllPlaced(b: seq<byte>, starts: seq<nat>, ws: seq<seq<byte>>, limit: nat) {
    |starts| == |ws| && forall i :: 0 <= i < |ws| ==> Placed(b, starts[i], ws[i]) && starts[i] + |ws[i]| <= limit
  }

  lemma AllPlacedCut(b: seq<byte>, starts: seq<nat>, ws: seq<seq<byte>>, q: nat)
    requires AllPlaced(b, starts, ws, q) && q < |b|
    ensures AllPlaced(b[q := NUL], starts, ws, q)
  {
    forall i | 0 <= i < |ws| ensures Placed(b[q := NUL], starts[i], ws[i]) {
      PlacedKept(b, q, starts[i], ws[i]);
    }
  }

  lemma PlaceWord(b: seq<byte>, starts: seq<nat>, ws: seq<seq<byte>>, p: nat, q: nat)
    requires AllPlaced(b, starts, ws, p) && p <= q < |b| && forall j :: p <= j < q ==> b[j] != NUL
    ensures AllPlaced(b[q := NUL], starts + [p], ws + [b[p..q]], q)
  {
    forall i | 0 <= i < |ws| ensures Placed(b[q := NUL], starts[i], ws[i]) {
      PlacedKept(b, q, starts[i], ws[i]);
    }
    assert b[q := NUL][p..q] == b[p..q];
  }

  /** Moving one word from the text still to be split to the words already found. */
  lemma MoveWord<T>(ws: seq<T>, w: T, rest: seq<T>)
    ensures ws + ([w] + rest) == (ws + [w]) + rest
  {
  }

  /** The buffer from `from` on still holds the text, with a NUL behind it. */
  ghost predicate Holds(buf: array<byte>, from: nat, text: seq<byte>)
    reads buf
  {
    |text| < buf.Length && buf[|text|] == NUL && forall j :: from <= j < |text| ==> buf[j] == text[j]
  }

  /** Steps over spaces. */
  method SkipSpaces(buf: array<byte>, from: nat, ghost text: seq<byte>) returns (p: nat)
    requires from <= |text| && Holds(buf, from, text)
    ensures p == SpacesFrom(text, from)
  {
    p := from;
    while buf[p] == SPACE
      invariant from <= p <= |text| && SpacesFrom(text, from) == SpacesFrom(text, p)
      decreases |text| - p
    {
      p := p + 1;
    }
  }

  /** Steps over a word. */
  method SkipWord(buf: array<byte>, from: nat, ghost text: seq<byte>) returns (q: nat)
    requires from <= |text| && Holds(buf, from, text)
    ensures q == WordFrom(text, from)
  {
    q := from;
    while !IsDelim(buf[q])
      invariant from <= q <= |text| && WordFrom(text, from) == WordFrom(text, q)
      decreases |text| - q
    {
      q := q + 1;
    }
  }

  /** Ends the word at q, stepping over its separator if there is one. */
  method Cut(buf: array<byte>, q: nat) returns (scan: nat)
    requires q < buf.Length
    modifies buf
    ensures buf[..] == old(buf[..])[q := NUL]
    ensures scan == if old(buf[q]) == NUL then q else q + 1
  {
    scan := q;
    if buf[q] != NUL {
      buf[q] := NUL;
      scan := q + 1;
    }
  }

  /** The argument loop: the addresses it records hold the arguments as C strings. */
  method SplitArgs(buf: array<byte>, scan0: nat, ghost text: seq<byte>, starts0: seq<nat>, ghost ws0: seq<seq<byte>>)
    returns (starts: seq<nat>)
    requires scan0 <= |text| && Holds(buf, scan0, text) && (forall j :: 0 <= j < |text| ==> text[j] != NUL)
    requires AllPlaced(buf[..], starts0, ws0, scan0)
    modifies buf
    ensures AllPlaced(buf[..], starts, ws0 + Args(text, scan0), |text|)
  {
    ghost var ws, all := ws0, ws0 + Args(text, scan0);
    starts := starts0;
    var scan := scan0;
    while true
      invariant scan0 <= scan <= |text| && Holds(buf, scan, text)
      invariant AllPlaced(buf[..], starts, ws, scan) && ws + Args(text, scan) == all
      decreases |text| - scan, |all| - |ws|
    {
      ghost var b := buf[..];
      var p := SkipSpaces(buf, scan, text);
      if buf[p] == NUL || buf[p] == NEWLINE {
        AllPlacedCut(b, starts, ws, p);
        buf[p] := NUL;
        assert buf[..] == b[p := NUL];
        return;
      }
      var q := SkipWord(buf, p, text);
      RunContents(text, p);
      PlaceWord(b, starts, ws, p, q);
      assert b[p..q] == text[p..q];
      ArgsRound(text, scan, p, q);
      if q < |text| {
        MoveWord(ws, text[p..q], Args(text, q + 1));
      } else {
        assert Args(text, |text|) == [];
      }
      starts := starts + [p];
      ws := ws + [text[p..q]];
      scan := Cut(buf, q);
      assert forall j :: 0 <= j < buf.Length ==> buf[j] == buf[..][j];
    }
  }

  /** What the tokeniser finds in a command: "./" and its name, then its arguments. */
  function Tokens(cmd: seq<byte>): seq<seq<byte>> {
    var n := WordFrom(cmd, 0);
    if n == |cmd| then [DOT_SLASH + cmd] else [DOT_SLASH + cmd[..n]] + Args(cmd, n + 1)
  }

  const DOT_SLASH: seq<byte> := [46, 47]

  /** The tokens of a command put together from a name and words are "./" and the name, then the words. */
  lemma TokensOfCommand(name: seq<byte>, ws: seq<seq<byte>>)
    requires IsWord(name) && AreWords(ws) && ws != []
    ensures Tokens(name + [SPACE] + Join(ws)) == [[46, 47] + name] + ws
  {
    var cmd := name + [SPACE] + Join(ws);
    WordThenRest(name, Join(ws));
    assert forall j :: 0 <= j < |name| ==> cmd[j] == name[j];
    WordFromUnique(cmd, 0, |name|);
    ArgsShift(cmd, |name| + 1, Join(ws), 0);
    SplitJoin(ws);
  }

  /** Ends the command name; `more` tells whether a separator followed it. */
  method CutName(buf: array<byte>, ghost text: seq<byte>) returns (more: bool, scan: nat)
    requires 2 <= |text| && Holds(buf, 0, text) && (forall j :: 0 <= j < |text| ==> text[j] != NUL)
    modifies buf
    ensures var q := WordFrom(text, 2);
            && (more <==> q < |text|) && scan == (if more then q + 1 else q)
            && Holds(buf, scan, text) && AllPlaced(buf[..], [0], [text[..q]], scan)
  {
    ghost var b := buf[..];
    var q := SkipWord(buf, 2, text);
    RunContents(text, 2);
    assert AllPlaced(b, [], [], 0);
    PlaceWord(b, [], [], 0, q);
    assert b[0..q] == text[..q];
    assert [] + [b[0..q]] == [text[..q]] && [] + [0] == [0];
    more := buf[q] != NUL;
    scan := Cut(buf, q);
    assert forall j :: 0 <= j < buf.Length ==> buf[j] == buf[..][j];
  }

  /** `ece391_execute` up to the process creation: the recorded addresses hold the tokens as C strings.
      Commands over 1023 bytes are refused. */
  method Tokenise(cmd: seq<byte>) returns (ok: bool, buf: array<byte>, starts: seq<nat>)
    requires forall j :: 0 <= j < |cmd| ==> cmd[j] != NUL
    ensures ok <==> |cmd| <= 1023
    ensures ok ==> |starts| == |Tokens(cmd)| && forall i :: 0 <= i < |starts| ==>
                     starts[i] <= buf.Length && CString(buf[starts[i]..]) == Tokens(cmd)[i]
  {
    buf := new byte[1026];
    starts := [0];
    if 1023 < |cmd| {
      return false, buf, starts;
    }
    buf[0], buf[1] := 46, 47;
    Strcpy(buf, 2, cmd);
    ghost var text := buf[..2 + |cmd|];
    assert text[..2] == DOT_SLASH;
    TokensOfText(text, cmd);
    var more, scan := CutName(buf, text);
    ghost var q := WordFrom(text, 2);
    if more {
      starts := SplitArgs(buf, scan, text, [0], [text[..q]]);
    }
    PlacedTokens(buf, starts, Tokens(cmd), |text|);
    ok := true;
  }

  /** What the tokeniser finds, from a text that is "./" and the command. */
  lemma TokensOfText(text: seq<byte>, cmd: seq<byte>)
    requires Tail(text, 2, cmd) && text[..2] == DOT_SLASH
    ensures var q := WordFrom(text, 2);
            Tokens(cmd) == if q == |text| then [text] else [text[..q]] + Args(text, q + 1)
  {
    var n := WordFrom(cmd, 0);
    NameEnds(text, cmd);
    NameSlice(text, cmd, n);
    ArgsBehindName(text, cmd, n);
    TokensFrom(text, cmd, n, n + 2);
  }

  lemma NameEnds(text: seq<byte>, cmd: seq<byte>)
    requires Tail(text, 2, cmd)
    ensures WordFrom(text, 2) == WordFrom(cmd, 0) + 2
  {
    WordShift(text, 2, cmd, 0);
  }

  lemma ArgsBehindName(text: seq<byte>, cmd: seq<byte>, n: nat)
    requires Tail(text, 2, cmd)
    ensures n < |cmd| ==> Args(text, n + 3) == Args(cmd, n + 1)
  {
    if n < |cmd| {
      ArgsShift(text, 2, cmd, n + 1);
    }
  }

  lemma TokensFrom(text: seq<byte>, cmd: seq<byte>, n: nat, q: nat)
    requires n == WordFrom(cmd, 0) && q == n + 2 && |text| == |cmd| + 2 && text[..q] == DOT_SLASH + cmd[..n]
    requires n < |cmd| ==> Args(text, q + 1) == Args(cmd, n + 1)
    ensures Tokens(cmd) == if q == |text| then [text] else [text[..q]] + Args(text, q + 1)
  {
    if n == |cmd| {
      assert cmd[..n] == cmd && text[..q] == text;
    }
  }

  lemma NameSlice(text: seq<byte>, cmd: seq<byte>, n: nat)
    requires Tail(text, 2, cmd) && text[..2] == DOT_SLASH && n <= |cmd|
    ensures text[..2 + n] == DOT_SLASH + cmd[..n]
  {
    TailSlice(text, 2, cmd, 0, n);
    assert text[..2 + n] == text[..2] + text[2..2 + n];
    assert cmd[0..n] == cmd[..n];
  }

  lemma PlacedTokens(buf: array<byte>, starts: seq<nat>, ws: seq<seq<byte>>, end: nat)
    requires AllPlaced(buf[..], starts, ws, end)
    ensures forall i :: 0 <= i < |starts| ==> starts[i] <= buf.Length && CString(buf[starts[i]..]) == ws[i]
  {
    forall i | 0 <= i < |ws| ensures starts[i] <= buf.Length && CString(buf[starts[i]..]) == ws[i] {
      PlacedString(buf[..], starts[i], ws[i]);
      assert buf[..][starts[i]..] == buf[starts[i]..];
    }
  }
}
