/**
 * The blinkers in memory (fish/blink.S over mp1_malloc and mp1_free in fish/fish.c):
 * an intrusive singly linked list threaded through an array of 2000 records. Pointer 0
 * is NULL and pointer p is slot p - 1. A slot is free when its location is 0.
 */
module BlinkPool {
  import opened Bytes
  import opened Blinkers

  const NULL := 0

  datatype Rec = Rec(b: Blinker, next: nat)

  const ZERO := Rec(Blinker(0, 0, 0, 0, 0, 0, 0), NULL)

  /** The pointer to the i-th listed slot, NULL past the end. */
  function Ptr(slots: seq<int>, i: nat): int
    requires i <= |slots|
  {
    if i < |slots| then slots[i] + 1 else NULL
  }

  /** The i-th listed record points at the one after it. */
  predicate Linked(pool: seq<Rec>, slots: seq<int>, i: nat)
    requires i < |slots| && 0 <= slots[i] < |pool|
  {
    pool[slots[i]].next == Ptr(slots, i + 1)
  }

  /** A slot with a location is on the list. */
  predicate Used(pool: seq<Rec>, slots: seq<int>, k: nat)
    requires k < |pool|
  {
    pool[k].b.loc != 0 ==> k in slots
  }

  /** `slots` is the list: acyclic, reached from head by following next, and exactly the slots in use. */
  predicate Chain(pool: seq<Rec>, head: nat, slots: seq<int>) {
    && |pool| == SLOTS && head == Ptr(slots, 0)
    && (forall i :: 0 <= i < |slots| ==> 0 <= slots[i] < SLOTS)
    && (forall i {:trigger Linked(pool, slots, i)} :: 0 <= i < |slots| ==> Linked(pool, slots, i))
    && (forall i, j :: 0 <= i < j < |slots| ==> slots[i] != slots[j])
    && (forall i :: 0 <= i < |slots| ==> pool[slots[i]].b.Valid() && 0 < pool[slots[i]].b.loc < SLOTS)
    && (forall k {:trigger Used(pool, slots, k)} :: 0 <= k < SLOTS ==> Used(pool, slots, k))
  }

  function Records(pool: seq<Rec>, slots: seq<int>): (r: seq<Blinker>)
    requires forall i :: 0 <= i < |slots| ==> 0 <= slots[i] < |pool|
    ensures |r| == |slots|
  {
    seq(|slots|, i requires 0 <= i < |slots| => pool[slots[i]].b)
  }

  ghost function Elements(slots: seq<int>): (r: set<int>)
  {
    set x | x in slots
  }

  lemma {:induction false} DistinctCard(slots: seq<int>)
    requires forall i, j :: 0 <= i < j < |slots| ==> slots[i] != slots[j]
    ensures |Elements(slots)| == |slots|
  {
    if slots == [] {
      assert Elements(slots) == {};
    } else {
      var n := |slots| - 1;
      DistinctCard(slots[..n]);
      assert Elements(slots) == Elements(slots[..n]) + {slots[n]};
    }
  }

  ghost function Below(n: nat): (r: set<int>)
    ensures |r| == n && forall k :: k in r <==> 0 <= k < n
  {
    if n == 0 then {} else Below(n - 1) + {n - 1}
  }

  lemma {:induction false} SubsetCard<T>(a: set<T>, b: set<T>)
    requires a <= b
    ensures |a| <= |b| && (|a| == |b| <==> a == b)
  {
    if a != {} {
      var x :| x in a;
      SubsetCard(a - {x}, b - {x});
      assert a == (a - {x}) + {x} && b == (b - {x}) + {x};
    }
  }

  /** The pool is full exactly when 2000 records are live. */
  lemma FullIff(pool: seq<Rec>, head: nat, slots: seq<int>)
    requires Chain(pool, head, slots)
    ensures |slots| <= SLOTS
    ensures |slots| == SLOTS <==> forall k :: 0 <= k < SLOTS ==> pool[k].b.loc != 0
  {
    var used := Elements(slots);
    DistinctCard(slots);
    SubsetCard(used, Below(SLOTS));
    assert forall k :: k in used <==> k in slots;
    if used == Below(SLOTS) {
      forall k | 0 <= k < SLOTS ensures pool[k].b.loc != 0 {
        assert k in used;
      }
    } else if forall k :: 0 <= k < SLOTS ==> pool[k].b.loc != 0 {
      forall k | 0 <= k < SLOTS ensures k in used {
        assert Used(pool, slots, k);
      }
    }
  }

  /** The first free slot, or 2000. */
  function FirstFree(pool: seq<Rec>, from: nat): (k: nat)
    requires from <= |pool|
    ensures from <= k <= |pool| && (k < |pool| ==> pool[k].b.loc == 0)
    ensures forall j :: from <= j < k ==> pool[j].b.loc != 0
    decreases |pool| - from
  {
    if from == |pool| || pool[from].b.loc == 0 then from else FirstFree(pool, from + 1)
  }

  datatype Raw = Raw(pool: seq<Rec>, head: nat)

  /** `mp1_ioctl_add` on memory: it accepts location 0. */
  function AddRaw(m: Raw, b: Blinker): Raw
    requires |m.pool| == SLOTS
  {
    var k := FirstFree(m.pool, 0);
    if b.loc >= SLOTS || k == SLOTS then m
    else Raw(m.pool[k := Rec(Started(b), m.head)], k + 1)
  }

  ghost predicate WellFormed(m: Raw) { exists slots :: Chain(m.pool, m.head, slots) }

  lemma AddRawChain(m: Raw, slots: seq<int>, b: Blinker)
    requires Chain(m.pool, m.head, slots) && Started(b).Valid() && 0 < b.loc < SLOTS && |slots| < SLOTS
    ensures FirstFree(m.pool, 0) < SLOTS && FirstFree(m.pool, 0) !in slots
    ensures Chain(AddRaw(m, b).pool, AddRaw(m, b).head, [FirstFree(m.pool, 0)] + slots)
  {
    FullIff(m.pool, m.head, slots);
    var k := FirstFree(m.pool, 0);
    var now := [k] + slots;
    var n := AddRaw(m, b);
    assert k !in slots;
    assert forall i :: 0 < i < |now| ==> now[i] == slots[i - 1] && now[i] != k;
    forall i | 0 <= i < |now| ensures Linked(n.pool, now, i) {
      if i > 0 {
        assert Linked(m.pool, slots, i - 1);
      }
    }
    forall j | 0 <= j < SLOTS ensures Used(n.pool, now, j) {
      assert Used(m.pool, slots, j);
      assert j in slots ==> j in now;
    }
  }

  lemma AddRawRecords(m: Raw, slots: seq<int>, b: Blinker)
    requires Chain(m.pool, m.head, slots) && b.loc < SLOTS && FirstFree(m.pool, 0) < SLOTS
    requires FirstFree(m.pool, 0) !in slots
    ensures Records(AddRaw(m, b).pool, [FirstFree(m.pool, 0)] + slots) == [Started(b)] + Records(m.pool, slots)
  {
  }

  /** An add keeps the list well formed exactly when its location is not 0 or no slot is free, which by
      `FullIff` means 2000 live records. */
  lemma AddKeepsIff(m: Raw, b: Blinker)
    requires WellFormed(m) && Started(b).Valid()
    ensures WellFormed(AddRaw(m, b)) <==> b.loc != 0 || FirstFree(m.pool, 0) == SLOTS
  {
    var slots :| Chain(m.pool, m.head, slots);
    FullIff(m.pool, m.head, slots);
    var k := FirstFree(m.pool, 0);
    if k < SLOTS && 0 < b.loc < SLOTS {
      AddRawChain(m, slots, b);
    }
  }

  /** After one accepted add at location 0 the next accepted add, at any location, is handed the same slot,
      and the list becomes a cycle of length one. */
  lemma ZeroThenAnyCycles(m: Raw, b: Blinker, c: Blinker)
    requires |m.pool| == SLOTS && FirstFree(m.pool, 0) < SLOTS && b.loc == 0 && c.loc < SLOTS
    ensures var n := AddRaw(AddRaw(m, b), c);
            0 < n.head <= SLOTS && n.pool[n.head - 1].next == n.head
  {
    var k := FirstFree(m.pool, 0);
    var n := AddRaw(m, b);
    FirstFreeUnique(n.pool, 0, k);
  }

  lemma {:induction false} FirstFreeUnique(pool: seq<Rec>, from: nat, k: nat)
    requires from <= k < |pool| && pool[k].b.loc == 0 && forall j :: from <= j < k ==> pool[j].b.loc != 0
    ensures FirstFree(pool, from) == k
    decreases k - from
  {
    if from < k {
      FirstFreeUnique(pool, from + 1, k);
    }
  }

  /** The pool after the t-th record has been unlinked and its slot zeroed. */
  function Unlinked(m: Raw, slots: seq<int>, t: nat): Raw
    requires Chain(m.pool, m.head, slots) && t < |slots|
  {
    var next := m.pool[slots[t]].next;
    if t == 0 then Raw(m.pool[slots[0] := ZERO], next)
    else
      var q := slots[t - 1];
      Raw(m.pool[q := m.pool[q].(next := next)][slots[t] := ZERO], m.head)
  }

  lemma WithoutFacts(slots: seq<int>, t: nat)
    requires t < |slots| && forall i, j :: 0 <= i < j < |slots| ==> slots[i] != slots[j]
    ensures var now := Without(slots, t);
            && (forall i :: 0 <= i < |now| ==> now[i] == slots[if i < t then i else i + 1])
            && (forall i, j :: 0 <= i < j < |now| ==> now[i] != now[j])
            && slots[t] !in now && (forall k :: k in slots && k != slots[t] ==> k in now)
  {
    var now := Without(slots, t);
    forall k | k in slots && k != slots[t] ensures k in now {
      var i :| 0 <= i < |slots| && slots[i] == k;
      assert now[if i < t then i else i - 1] == k;
    }
  }

  lemma UnlinkedLinks(m: Raw, slots: seq<int>, t: nat, i: nat)
    requires Chain(m.pool, m.head, slots) && t < |slots| && i < |slots| - 1
    ensures var n, now := Unlinked(m, slots, t), Without(slots, t);
            |n.pool| == SLOTS && 0 <= now[i] < SLOTS && n.pool[now[i]].b == m.pool[now[i]].b && Linked(n.pool, now, i)
  {
    WithoutFacts(slots, t);
    var n, now := Unlinked(m, slots, t), Without(slots, t);
    assert Linked(m.pool, slots, t);
    assert Linked(m.pool, slots, if i < t then i else i + 1);
    assert now[i] != slots[t];
    if t > 0 && i != t - 1 {
      assert now[i] != slots[t - 1];
    }
  }

  lemma UnlinkedChain(m: Raw, slots: seq<int>, t: nat)
    requires Chain(m.pool, m.head, slots) && t < |slots|
    ensures Chain(Unlinked(m, slots, t).pool, Unlinked(m, slots, t).head, Without(slots, t))
  {
    WithoutFacts(slots, t);
    var n, now := Unlinked(m, slots, t), Without(slots, t);
    forall i | 0 <= i < |now|
      ensures 0 <= now[i] < SLOTS && n.pool[now[i]].b == m.pool[now[i]].b && Linked(n.pool, now, i)
    {
      UnlinkedLinks(m, slots, t, i);
    }
    assert n.head == Ptr(now, 0) by {
      assert Linked(m.pool, slots, 0);
    }
    forall k | 0 <= k < SLOTS ensures Used(n.pool, now, k) {
      assert Used(m.pool, slots, k);
    }
  }

  lemma UnlinkedRecords(m: Raw, slots: seq<int>, t: nat)
    requires Chain(m.pool, m.head, slots) && t < |slots|
    requires Chain(Unlinked(m, slots, t).pool, Unlinked(m, slots, t).head, Without(slots, t))
    ensures var list := Records(m.pool, slots);
            Records(Unlinked(m, slots, t).pool, Without(slots, t)) == Without(list, t)
  {
    var n, now, list := Unlinked(m, slots, t), Without(slots, t), Records(m.pool, slots);
    forall i | 0 <= i < |now| ensures Records(n.pool, now)[i] == Without(list, t)[i] {
      UnlinkedLinks(m, slots, t, i);
    }
  }

  /** Rewriting the contents of a listed record leaves the links alone. */
  lemma RewrittenChain(m: Raw, slots: seq<int>, j: nat, b: Blinker)
    requires Chain(m.pool, m.head, slots) && j < |slots| && b.Valid() && b.loc == m.pool[slots[j]].b.loc
    ensures var n := m.pool[slots[j] := m.pool[slots[j]].(b := b)];
            Chain(n, m.head, slots) && Records(n, slots) == Records(m.pool, slots)[j := b]
  {
    var n := m.pool[slots[j] := m.pool[slots[j]].(b := b)];
    forall i | 0 <= i < |slots| ensures Linked(n, slots, i) && (i != j ==> n[slots[i]] == m.pool[slots[i]]) {
      assert Linked(m.pool, slots, i);
    }
    forall k | 0 <= k < SLOTS ensures Used(n, slots, k) {
      assert Used(m.pool, slots, k);
    }
  }

  /** The state part way through a tick: the first n records have had theirs. */
  function TickTo(s: State, n: nat): (r: State)
    requires s.Valid() && n <= |s.list|
    ensures |r.list| == |s.list|
  {
    State(seq(|s.list|, i requires 0 <= i < |s.list| => if i < n then TickOne(s.list[i]) else s.list[i]),
          TickVideo(s, n))
  }

  /** One more record ticked. */
  lemma TickToStep(s: State, i: nat)
    requires s.Valid() && i < |s.list|
    ensures var m, b := TickTo(s, i), s.list[i];
            && m.list[i] == b
            && TickTo(s, i + 1) == State(m.list[i := TickOne(b)],
                                         if Expires(b) then m.video[2 * b.loc := TickOne(b).Shown()] else m.video)
  {
    assert TickTo(s, i + 1).list == TickTo(s, i).list[i := TickOne(s.list[i])];
  }

  lemma TickToEnds(s: State)
    requires s.Valid()
    ensures TickTo(s, 0) == s && TickTo(s, |s.list|) == Blinkers.Tick(s)
  {
    assert TickTo(s, 0).list == s.list;
    assert TickTo(s, |s.list|).list == Blinkers.Tick(s).list;
  }

  predicate Callable(op: Op) {
    match op
    case AddOp(b) => b.loc != 0
    case RemoveOp(loc) => loc < WORD
    case SyncOp(src, dst) => src < WORD && dst < WORD
    case _ => true
  }

  /** The sync call packs both locations into one word. */
  lemma PackedArgument(src: nat, dst: nat)
    requires src < WORD && dst < WORD
    ensures (src * WORD + dst) / WORD % WORD == src && (src * WORD + dst) % WORD == dst
  {
  }

  class Pool {
    const pool: array<Rec>
    const video: array<byte>
    var head: nat
    ghost var slots: seq<int>

    ghost predicate Valid()
      reads this, pool, video
    {
      video.Length == 2 * SLOTS && pool.Length == SLOTS && Chain(pool[..], head, slots) && |slots| <= SLOTS
    }

    ghost function S(): (s: State)
      requires Valid()
      reads this, pool, video
      ensures s.Valid()
    {
      State(Records(pool[..], slots), video[..])
    }

    constructor (video: array<byte>)
      requires video.Length == 2 * SLOTS
      ensures Valid() && this.video == video && S() == State([], video[..]) && fresh(pool)
    {
      this.video := video;
      pool := new Rec[SLOTS](_ => ZERO);
      head, slots := NULL, [];
    }

    /** Finds the first record at a location, following next pointers; NULL when there is none. */
    method FindHelper(loc: nat) returns (p: nat)
      requires Valid()
      ensures p == Ptr(slots, FirstAt(S().list, loc))
    {
      p := head;
      ghost var i, list, m := 0, S().list, pool[..];
      while p != NULL
        invariant 0 <= i <= |list| == |slots| && p == Ptr(slots, i)
        invariant forall j :: 0 <= j < i ==> list[j].loc != loc
        decreases |list| - i
      {
        assert p - 1 == slots[i] && 0 <= slots[i] < SLOTS;
        assert pool[p - 1] == m[slots[i]];
        assert Linked(m, slots, i);
        if pool[p - 1].b.loc == loc {
          FirstAtUnique(list, loc, i);
          return;
        }
        p := pool[p - 1].next;
        i := i + 1;
      }
      FirstAtUnique(list, loc, |list|);
    }

    method Malloc() returns (p: nat)
      requires pool.Length == SLOTS
      ensures var k := FirstFree(pool[..], 0); p == if k == SLOTS then NULL else k + 1
    {
      var i := 0;
      while i < SLOTS
        invariant 0 <= i <= SLOTS && FirstFree(pool[..], 0) == FirstFree(pool[..], i)
      {
        if pool[i].b.loc == 0 {
          return i + 1;
        }
        i := i + 1;
      }
      return NULL;
    }

    /** On memory the add is `AddRaw` for every location; on a location other than 0 it is a push-front,
        refused exactly for a location off the screen or when 2000 records are live. */
    method Add(b: Blinker) returns (r: int)
      requires Valid() && Started(b).Valid()
      modifies this, pool, video
      ensures Raw(pool[..], head) == AddRaw(old(Raw(pool[..], head)), b)
      ensures r == if b.loc < SLOTS && |old(slots)| < SLOTS then 0 else -1
      ensures b.loc != 0 ==> Valid() && S() == Blinkers.Add(old(S()), b)
    {
      FullIff(pool[..], head, slots);
      if b.loc >= SLOTS {
        return -1;
      }
      var p := Malloc();
      if p == NULL {
        return -1;
      }
      ghost var m := Raw(pool[..], head);
      if b.loc != 0 {
        AddRawChain(m, slots, b);
        AddRawRecords(m, slots, b);
      }
      Insert(p, b);
      r := 0;
    }

    /** Links a fresh record in front and draws it. */
    method Insert(p: nat, b: Blinker)
      requires Valid() && b.loc < SLOTS && 0 < p <= SLOTS && FirstFree(pool[..], 0) == p - 1
      modifies this, pool, video
      ensures Raw(pool[..], head) == AddRaw(old(Raw(pool[..], head)), b) && slots == [p - 1] + old(slots)
      ensures video[..] == old(video[..])[2 * b.loc := b.onCh]
    {
      pool[p - 1] := Rec(Started(b), head);
      head := p;
      video[2 * b.loc] := b.onCh;
      slots := [p - 1] + slots;
    }

    /** The link that points at record p: the head itself (0) or the next field of a record. */
    method FindPrevious(p: nat, ghost t: nat) returns (prev: nat)
      requires Valid() && t < |slots| && p == Ptr(slots, t)
      ensures prev == if t == 0 then NULL else slots[t - 1] + 1
    {
      prev := NULL;
      ghost var i, m := 0, pool[..];
      var at := head;
      while at != p
        invariant 0 <= i <= t && at == Ptr(slots, i)
        invariant prev == if i == 0 then NULL else slots[i - 1] + 1
        decreases t - i
      {
        assert i < t && at - 1 == slots[i];
        prev := at;
        at := pool[prev - 1].next;
        assert pool[prev - 1] == m[slots[i]] && Linked(m, slots, i);
        i := i + 1;
      }
    }

    method Remove(arg: nat) returns (r: int)
      requires Valid()
      modifies this, pool
      ensures Valid() && S() == Blinkers.Remove(old(S()), arg % WORD)
      ensures r == if FirstAt(old(S()).list, arg % WORD) < |old(slots)| then 0 else -1
      ensures r == 0 ==>
                var loc, s := arg % WORD, old(S());
                && |slots| == |old(slots)| - 1 && video[..] == old(video[..]) && Lookup(s.list, loc).Some?
                && multiset(S().list) == multiset(s.list) - multiset{Lookup(s.list, loc).value}
                && (Unique(s.list, loc) ==> Lookup(S().list, loc) == None)
    {
      RemoveEffect(S(), arg % WORD);
      var p := FindHelper(arg % WORD);
      ghost var t, m := FirstAt(S().list, arg % WORD), Raw(pool[..], head);
      if p == NULL {
        return -1;
      }
      var prev := FindPrevious(p, t);
      UnlinkedChain(m, slots, t);
      UnlinkedRecords(m, slots, t);
      Unlink(p, prev, t);
      slots := Without(slots, t);
      r := 0;
    }

    /** Takes record p out of the list at the link `prev` and frees its slot. */
    method Unlink(p: nat, prev: nat, ghost t: nat)
      requires Valid() && t < |slots| && p == Ptr(slots, t)
      requires prev == if t == 0 then NULL else slots[t - 1] + 1
      modifies this`head, pool
      ensures Raw(pool[..], head) == Unlinked(old(Raw(pool[..], head)), slots, t)
    {
      ghost var m := Raw(pool[..], head);
      assert Linked(m.pool, slots, t);
      var next := pool[p - 1].next;
      if prev == NULL {
        head := next;
      } else {
        pool[prev - 1] := pool[prev - 1].(next := next);
      }
      pool[p - 1] := ZERO;
    }

    method Find(loc: nat) returns (r: Option<Blinker>)
      requires Valid()
      ensures r == Lookup(S().list, loc)
    {
      var p := FindHelper(loc);
      if p == NULL {
        return None;
      }
      r := Some(pool[p - 1].b);
    }

    method Sync(arg: nat) returns (r: int)
      requires Valid()
      modifies pool, video
      ensures Valid() && S() == Blinkers.Sync(old(S()), arg / WORD % WORD, arg % WORD)
      ensures r == if Lookup(old(S()).list, arg / WORD % WORD).Some? && Lookup(old(S()).list, arg % WORD).Some?
                   then 0 else -1
    {
      var src, dst := arg / WORD % WORD, arg % WORD;
      ghost var s, m := S(), Raw(pool[..], head);
      var esi := FindHelper(src);
      if esi == NULL {
        return -1;
      }
      var edi := FindHelper(dst);
      if edi == NULL {
        return -1;
      }
      var a, b := pool[esi - 1].b, pool[edi - 1].b;
      ghost var i, j := FirstAt(s.list, src), FirstAt(s.list, dst);
      assert m.pool[slots[i]].b == s.list[i] && m.pool[slots[j]].b == s.list[j];
      assert a == s.list[i] && b == s.list[j];
      var n := b.(onLen := a.onLen, offLen := a.offLen, countdown := a.countdown, status := a.status);
      Rewrite(edi, j, n);
      video[2 * b.loc] := b.offCh;
      r := 0;
    }

    /** `mp1_rtc_tasklet`: one pass over the list. */
    method RtcTasklet()
      requires Valid()
      modifies pool, video
      ensures Valid() && S() == Blinkers.Tick(old(S()))
    {
      var p := head;
      ghost var s, i := S(), 0;
      TickToEnds(s);
      while p != NULL
        invariant 0 <= i <= |s.list| == |slots| && Valid() && p == Ptr(slots, i)
        invariant S() == TickTo(s, i)
        decreases |s.list| - i
      {
        TickToStep(s, i);
        TickRecord(p, i);
        p := pool[p - 1].next;
        i := i + 1;
      }
    }

    method TickRecord(p: nat, ghost i: nat)
      requires Valid() && i < |slots| && p == Ptr(slots, i)
      modifies pool, video
      ensures Valid() && pool[p - 1].next == Ptr(slots, i + 1)
      ensures var s, b := old(S()), old(S()).list[i];
              S() == State(s.list[i := TickOne(b)],
                           if Expires(b) then s.video[2 * b.loc := TickOne(b).Shown()] else s.video)
    {
      ghost var s, m := S(), Raw(pool[..], head);
      var b := pool[p - 1].b;
      assert m.pool[slots[i]].b == s.list[i] && b == s.list[i];
      assert Linked(m.pool, slots, i);
      var c := (b.countdown + WORD - 1) % WORD;
      var n := b.(countdown := c);
      if !(0 < c < 0x8000) {
        if b.status % 2 == 1 {
          video[2 * b.loc] := b.offCh;
          n := n.(countdown := b.offLen);
        } else {
          video[2 * b.loc] := b.onCh;
          n := n.(countdown := b.onLen);
        }
        n := n.(status := 1 - b.status);
      }
      assert n == TickOne(b);
      Rewrite(p, i, n);
    }

    /** New contents for a listed record, its link untouched. */
    method Rewrite(p: nat, ghost j: nat, b: Blinker)
      requires Valid() && j < |slots| && p == Ptr(slots, j) && b.Valid() && b.loc == S().list[j].loc
      modifies pool
      ensures Valid() && S() == State(old(S()).list[j := b], old(S()).video)
      ensures pool[p - 1].next == old(pool[p - 1].next)
    {
      ghost var m := Raw(pool[..], head);
      RewrittenChain(m, slots, j, b);
      pool[p - 1] := pool[p - 1].(b := b);
      assert pool[..] == m.pool[slots[j] := m.pool[slots[j]].(b := b)];
    }

    /** Any run of calls with 16-bit locations, none of them adding at location 0: the linked pool is the
        push-front, first-match list throughout. */
    method Serve(ops: seq<Op>)
      requires Valid() && forall op :: op in ops ==> op.Valid() && Callable(op)
      modifies this, pool, video
      ensures Valid() && S() == Run(old(S()), ops)
    {
      ghost var s := S();
      var i := 0;
      while i < |ops|
        invariant 0 <= i <= |ops| && Valid() && S() == Run(s, ops[..i])
      {
        assert ops[..i + 1][..i] == ops[..i];
        assert ops[i] in ops;
        ServeOne(ops[i]);
        i := i + 1;
      }
      assert ops[..i] == ops;
    }

    method ServeOne(op: Op)
      requires Valid() && op.Valid() && Callable(op)
      modifies this, pool, video
      ensures Valid() && S() == Step(old(S()), op)
    {
      match op
      case AddOp(b) => var _ := Add(b);
      case RemoveOp(loc) => ServeRemove(loc);
      case FindOp(loc) => var _ := Find(loc);
      case SyncOp(src, dst) => ServeSync(src, dst);
      case TickOp => RtcTasklet();
    }

    method ServeRemove(loc: nat)
      requires Valid() && loc < WORD
      modifies this, pool
      ensures Valid() && S() == Blinkers.Remove(old(S()), loc)
    {
      assert loc % WORD == loc;
      var _ := Remove(loc);
    }

    method ServeSync(src: nat, dst: nat)
      requires Valid() && src < WORD && dst < WORD
      modifies pool, video
      ensures Valid() && S() == Blinkers.Sync(old(S()), src, dst)
    {
      PackedArgument(src, dst);
      var _ := Sync(src * WORD + dst);
    }
  }
}
