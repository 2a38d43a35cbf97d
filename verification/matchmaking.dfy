/**
 The tournament queue manager. Waiting players sit in queues keyed by
 (difficulty, player limit); joining normalises the requested mode, clears any
 earlier queue slot of the connection and of the user, and appends the player;
 once a queue is long enough a quorum of distinct users is drawn from its front.

 The registry of queues is a sequence of slots in the order the queues were
 first used, matching the insertion order of the process-wide map: removal by
 connection id stops at the first queue, in that order, that holds the id.
 */
module Matchmaking {
  import opened Options

  type UserId = string
  type SocketId = string

  // ---------------------------------------------------------------------------
  // Input normalisation
  // ---------------------------------------------------------------------------

  datatype Difficulty = Easy | Medium | Hard

  function DifficultyName(d: Difficulty): string {
    match d
    case Easy => "EASY"
    case Medium => "MEDIUM"
    case Hard => "HARD"
  }

  /** Membership in the difficulty enumeration. */
  function ParseDifficulty(name: string): (d: Option<Difficulty>)
    ensures d.Some? ==> DifficultyName(d.value) == name
    ensures d.None? ==> forall e :: DifficultyName(e) != name
  {
    if name == "EASY" then Some(Easy)
    else if name == "MEDIUM" then Some(Medium)
    else if name == "HARD" then Some(Hard)
    else None
  }

  /** Upper case of one character, for every character whose upper case can be
      part of a difficulty name: ASCII letters, dotless i and long s. Other
      characters stay as they are; none of them upper-cases to an ASCII letter
      on its own. */
  function UpperChar(c: char): char {
    if 'a' <= c <= 'z' then (c as int - 32) as char
    else if c == '\U{0131}' then 'I'
    else if c == '\U{017F}' then 'S'
    else c
  }

  function ToUpper(s: string): (u: string)
    ensures |u| == |s|
    ensures forall i :: 0 <= i < |s| ==> u[i] == UpperChar(s[i])
  {
    if |s| == 0 then [] else [UpperChar(s[0])] + ToUpper(s[1..])
  }

  /** The requested difficulty. `value` is the text of a truthy payload field
      (what String() makes of it) and None for a missing or falsy one. The
      result is the difficulty the upper-cased text names, and EASY when it
      names none. */
  function NormalizeDifficulty(value: Option<string>): (d: Difficulty)
    ensures forall e :: value.Some? && ToUpper(value.value) == DifficultyName(e) ==> d == e
    ensures d == Easy || (value.Some? && ToUpper(value.value) == DifficultyName(d))
  {
    var upper := ToUpper(value.GetOr("EASY"));
    match ParseDifficulty(upper)
    case Some(d) => d
    case None => Easy
  }

  /** The two supported match sizes. */
  const AllowedPlayerLimits: seq<int> := [2, 4]

  /** The requested match size. `numeric` is the number the payload field
      converts to when that is an integer, None when it is not a number or is
      fractional. Only 2 selects two-player matches; everything else means 4. */
  function NormalizePlayerLimit(numeric: Option<int>): (n: int)
    ensures n in AllowedPlayerLimits
    ensures n == 2 <==> numeric == Some(2)
  {
    if numeric.Some? && numeric.value in AllowedPlayerLimits then numeric.value else 4
  }

  // ---------------------------------------------------------------------------
  // Queue entries and per-queue operations
  // ---------------------------------------------------------------------------

  datatype Entry = Entry(socketId: SocketId, userId: UserId, name: string)

  /** The users that appear in a queue. */
  function UsersOf(q: seq<Entry>): (users: set<UserId>)
    ensures forall i :: 0 <= i < |q| ==> q[i].userId in users
    ensures forall u :: u in users ==> exists i :: 0 <= i < |q| && q[i].userId == u
  {
    if |q| == 0 then {} else {q[0].userId} + UsersOf(q[1..])
  }

  /** No user appears twice. */
  predicate DistinctUsers(q: seq<Entry>) {
    forall i, j :: 0 <= i < j < |q| ==> q[i].userId != q[j].userId
  }

  /** Number of entries that belong to user u. */
  function Count(q: seq<Entry>, u: UserId): nat {
    if |q| == 0 then 0 else (if q[0].userId == u then 1 else 0) + Count(q[1..], u)
  }

  /** The queue with every entry of the given users taken out, the others kept
      in order. */
  function Without(q: seq<Entry>, users: set<UserId>): (r: seq<Entry>)
    ensures |r| <= |q|
    ensures forall e :: e in r <==> e in q && e.userId !in users
  {
    if |q| == 0 then []
    else if q[0].userId in users then Without(q[1..], users)
    else [q[0]] + Without(q[1..], users)
  }

  /** `a` is `b` with some entries left out, the rest kept in order. */
  predicate IsSubseq<T(==)>(a: seq<T>, b: seq<T>)
    decreases |b|
  {
    if |a| == 0 then true
    else if |b| == 0 then false
    else if a[0] == b[0] then IsSubseq(a[1..], b[1..])
    else IsSubseq(a, b[1..])
  }

  /** The first `n` elements, or all of them when there are fewer. */
  function Prefix<T>(s: seq<T>, n: nat): (p: seq<T>)
    ensures |p| == if n < |s| then n else |s|
    ensures p == s[..|p|]
  {
    if n < |s| then s[..n] else s
  }

  /** Reference definition: the first entry of each distinct user, in queue
      order. */
  function Dedup(q: seq<Entry>): seq<Entry>
    decreases |q|
  {
    if |q| == 0 then [] else [q[0]] + Dedup(Without(q[1..], {q[0].userId}))
  }

  // ---------------------------------------------------------------------------
  // Lemmas about queues
  // ---------------------------------------------------------------------------

  lemma {:induction false} SubseqOfSelf<T>(s: seq<T>)
    ensures IsSubseq(s, s)
  {
    if |s| > 0 {
      SubseqOfSelf(s[1..]);
    }
  }

  /** Dropping the first element of a subsequence keeps it a subsequence. */
  lemma {:induction false} SubseqDropHead<T>(a: seq<T>, b: seq<T>)
    requires |a| > 0 && IsSubseq(a, b)
    ensures IsSubseq(a[1..], b)
    decreases |b|, 1
  {
    if a[0] != b[0] {
      SubseqDropHead(a, b[1..]);
    }
    SubseqSkip(a[1..], b);
  }

  /** A subsequence of the tail is a subsequence of the whole. */
  lemma {:induction false} SubseqSkip<T>(a: seq<T>, b: seq<T>)
    requires |b| > 0 && IsSubseq(a, b[1..])
    ensures IsSubseq(a, b)
    decreases |b|, 0
  {
    if |a| > 0 && a[0] == b[0] {
      SubseqDropHead(a, b[1..]);
    }
  }

  lemma {:induction false} SubseqTransitive<T>(a: seq<T>, b: seq<T>, c: seq<T>)
    requires IsSubseq(a, b) && IsSubseq(b, c)
    ensures IsSubseq(a, c)
    decreases |c|
  {
    if |a| == 0 {
    } else if |c| == 0 {
    } else if b[0] == c[0] {
      if a[0] == b[0] {
        SubseqTransitive(a[1..], b[1..], c[1..]);
      } else {
        SubseqTransitive(a, b[1..], c[1..]);
      }
    } else {
      SubseqTransitive(a, b, c[1..]);
      if a[0] == c[0] {
        SubseqDropHead(a, c[1..]);
        SubseqSkip(a[1..], c);
        assert IsSubseq(a[1..], c[1..]);
      }
    }
  }

  lemma {:induction false} WithoutIsSubseq(q: seq<Entry>, users: set<UserId>)
    ensures IsSubseq(Without(q, users), q)
  {
    if |q| > 0 {
      WithoutIsSubseq(q[1..], users);
      if q[0].userId in users {
        SubseqSkip(Without(q[1..], users), q);
      }
    }
  }

  lemma {:induction false} PrefixIsSubseq<T>(s: seq<T>, n: nat)
    ensures IsSubseq(Prefix(s, n), s)
  {
    if n < |s| {
      if n > 0 {
        PrefixIsSubseq(s[1..], n - 1);
        assert Prefix(s, n)[1..] == Prefix(s[1..], n - 1);
      }
    } else {
      SubseqOfSelf(s);
    }
  }

  /** Removing one entry keeps the others in order. */
  lemma {:induction false} DeleteIsSubseq<T>(s: seq<T>, i: nat)
    requires i < |s|
    ensures IsSubseq(s[..i] + s[i + 1..], s)
  {
    var d := s[..i] + s[i + 1..];
    if i == 0 {
      assert d == s[1..];
      SubseqOfSelf(s[1..]);
      SubseqSkip(d, s);
    } else {
      DeleteIsSubseq(s[1..], i - 1);
      assert d[0] == s[0];
      assert d[1..] == s[1..][..i - 1] + s[1..][i..];
    }
  }

  /** Leaving entries out never adds entries of a user. */
  lemma {:induction false} SubseqCount(a: seq<Entry>, b: seq<Entry>, u: UserId)
    requires IsSubseq(a, b)
    ensures Count(a, u) <= Count(b, u)
    decreases |b|
  {
    if |a| > 0 && |b| > 0 {
      if a[0] == b[0] {
        SubseqCount(a[1..], b[1..], u);
      } else {
        SubseqCount(a, b[1..], u);
      }
    }
  }

  lemma {:induction false} CountConcat(a: seq<Entry>, b: seq<Entry>, u: UserId)
    ensures Count(a + b, u) == Count(a, u) + Count(b, u)
  {
    if |a| > 0 {
      assert (a + b)[0] == a[0];
      assert (a + b)[1..] == a[1..] + b;
      CountConcat(a[1..], b, u);
    } else {
      assert a + b == b;
    }
  }

  lemma {:induction false} CountWithout(q: seq<Entry>, users: set<UserId>, u: UserId)
    ensures Count(Without(q, users), u) == if u in users then 0 else Count(q, u)
  {
    if |q| > 0 {
      CountWithout(q[1..], users, u);
    }
  }

  lemma {:induction false} CountZero(q: seq<Entry>, u: UserId)
    ensures Count(q, u) == 0 <==> u !in UsersOf(q)
  {
    if |q| > 0 {
      CountZero(q[1..], u);
    }
  }

  lemma {:induction false} CountDistinct(q: seq<Entry>, u: UserId)
    requires DistinctUsers(q)
    ensures Count(q, u) == if u in UsersOf(q) then 1 else 0
  {
    if |q| > 0 {
      CountDistinct(q[1..], u);
      if q[0].userId == u {
        CountZero(q[1..], u);
      }
    }
  }

  lemma {:induction false} WithoutTwice(q: seq<Entry>, a: set<UserId>, b: set<UserId>)
    ensures Without(Without(q, a), b) == Without(q, a + b)
  {
    if |q| > 0 {
      WithoutTwice(q[1..], a, b);
    }
  }

  /** Entries of the taken-out users may be skipped at the front. */
  lemma {:induction false} WithoutSkipsPrefix(q: seq<Entry>, n: nat, users: set<UserId>)
    requires n <= |q|
    requires forall i :: 0 <= i < n ==> q[i].userId in users
    ensures Without(q, users) == Without(q[n..], users)
  {
    if n > 0 {
      WithoutSkipsPrefix(q[1..], n - 1, users);
      assert q[1..][n - 1..] == q[n..];
    }
  }

  lemma {:induction false} WithoutNothing(q: seq<Entry>, users: set<UserId>)
    requires forall i :: 0 <= i < |q| ==> q[i].userId !in users
    ensures Without(q, users) == q
  {
    if |q| > 0 {
      WithoutNothing(q[1..], users);
    }
  }

  /** The reference deduplication keeps exactly one entry of every user, in
      queue order: its users are pairwise distinct, they are the queue's
      users, and it is a subsequence of the queue. */
  lemma {:induction false} DedupSpec(q: seq<Entry>)
    ensures DistinctUsers(Dedup(q))
    ensures UsersOf(Dedup(q)) == UsersOf(q)
    ensures IsSubseq(Dedup(q), q)
    ensures |Dedup(q)| <= |q|
    decreases |q|
  {
    if |q| > 0 {
      var r := Without(q[1..], {q[0].userId});
      DedupSpec(r);
      DedupStep(q, Dedup(r));
    }
  }

  /** One step of the deduplication: the first entry followed by the
      deduplicated rest of the queue without its user. */
  lemma DedupStep(q: seq<Entry>, d: seq<Entry>)
    requires |q| > 0
    requires var r := Without(q[1..], {q[0].userId});
      && d == Dedup(r) && DistinctUsers(d) && UsersOf(d) == UsersOf(r)
      && IsSubseq(d, r) && |d| <= |r|
    ensures DistinctUsers(Dedup(q))
    ensures UsersOf(Dedup(q)) == UsersOf(q)
    ensures IsSubseq(Dedup(q), q)
    ensures |Dedup(q)| <= |q|
  {
    var r := Without(q[1..], {q[0].userId});
    assert Dedup(q) == [q[0]] + d;
    UsersOfWithout(q[1..], {q[0].userId});
    ConsDistinct(q[0], d);
    ConsUsers(q, d);
    WithoutIsSubseq(q[1..], {q[0].userId});
    ConsSubseq(q, r, d);
  }

  lemma ConsUsers(q: seq<Entry>, d: seq<Entry>)
    requires |q| > 0
    requires UsersOf(d) == UsersOf(q[1..]) - {q[0].userId}
    ensures UsersOf([q[0]] + d) == UsersOf(q)
  {
    UsersOfCons(q[0], d);
    UsersOfCons(q[0], q[1..]);
    assert q == [q[0]] + q[1..];
  }

  lemma ConsSubseq(q: seq<Entry>, r: seq<Entry>, d: seq<Entry>)
    requires |q| > 0 && IsSubseq(d, r) && IsSubseq(r, q[1..])
    ensures IsSubseq([q[0]] + d, q)
  {
    SubseqTransitive(d, r, q[1..]);
    assert ([q[0]] + d)[1..] == d;
  }

  lemma UsersOfCons(e: Entry, t: seq<Entry>)
    ensures UsersOf([e] + t) == {e.userId} + UsersOf(t)
  {
    assert ([e] + t)[1..] == t;
  }

  lemma UsersOfWithout(q: seq<Entry>, users: set<UserId>)
    ensures UsersOf(Without(q, users)) == UsersOf(q) - users
  {
    var r := Without(q, users);
    forall u | u in UsersOf(q) - users ensures u in UsersOf(r) {
      var k :| 0 <= k < |q| && q[k].userId == u;
      assert q[k] in r;
    }
    forall u | u in UsersOf(r) ensures u in UsersOf(q) - users {
      var k :| 0 <= k < |r| && r[k].userId == u;
      assert r[k] in r;
    }
  }

  lemma ConsDistinct(e: Entry, t: seq<Entry>)
    requires DistinctUsers(t) && e.userId !in UsersOf(t)
    ensures DistinctUsers([e] + t)
  {
    var d := [e] + t;
    forall i, j | 0 <= i < j < |d| ensures d[i].userId != d[j].userId {
      if i > 0 {
        assert d[i] == t[i - 1] && d[j] == t[j - 1];
      } else {
        assert d[j] == t[j - 1];
      }
    }
  }

  lemma TailSnoc<T>(q: seq<T>, e: T)
    requires |q| > 0
    ensures (q + [e])[0] == q[0] && (q + [e])[1..] == q[1..] + [e]
  {
  }

  /** Filtering commutes with appending one entry. */
  lemma {:induction false} WithoutSnoc(q: seq<Entry>, e: Entry, users: set<UserId>)
    ensures Without(q + [e], users) == Without(q, users) + (if e.userId in users then [] else [e])
  {
    if |q| == 0 {
      assert q + [e] == [e];
      assert [e][1..] == [];
    } else {
      assert (q + [e])[1..] == q[1..] + [e];
      WithoutSnoc(q[1..], e, users);
    }
  }

  /** An entry of a new user appended to a queue survives deduplication, last. */
  lemma {:induction false} DedupSnoc(q: seq<Entry>, e: Entry)
    requires e.userId !in UsersOf(q)
    ensures Dedup(q + [e]) == Dedup(q) + [e]
    decreases |q|
  {
    if |q| == 0 {
      assert q + [e] == [e];
      assert [e][1..] == [];
      assert Dedup([e]) == [e] + Dedup(Without([], {e.userId}));
    } else {
      var w := Without(q[1..], {q[0].userId});
      TailSnoc(q, e);
      WithoutSnoc(q[1..], e, {q[0].userId});
      assert e.userId !in UsersOf(w) by {
        UsersOfWithout(q[1..], {q[0].userId});
      }
      DedupSnoc(w, e);
      assert Dedup(q + [e]) == [q[0]] + Dedup(w + [e]);
      assert Dedup(q) == [q[0]] + Dedup(w);
      ConsSnoc(q[0], Dedup(w), e);
    }
  }

  lemma ConsSnoc<T>(x: T, s: seq<T>, e: T)
    ensures [x] + (s + [e]) == ([x] + s) + [e]
  {
  }

  /** A queue without repeated users is its own deduplication. */
  lemma {:induction false} DedupOfDistinct(q: seq<Entry>)
    requires DistinctUsers(q)
    ensures Dedup(q) == q
  {
    if |q| > 0 {
      WithoutNothing(q[1..], {q[0].userId});
      DedupOfDistinct(q[1..]);
    }
  }

  // ---------------------------------------------------------------------------
  // Drawing a quorum
  // ---------------------------------------------------------------------------

  /** The selection loop: shift entries off the front until `limit` distinct
      users are selected or the queue is empty, discarding entries of users
      already selected. Returns the selection and what is left of the queue. */
  function Shift(q: seq<Entry>, limit: nat, selected: seq<Entry>): (seq<Entry>, seq<Entry>)
    decreases |q|
  {
    if |q| == 0 || |selected| >= limit then (selected, q)
    else if q[0].userId in UsersOf(selected) then Shift(q[1..], limit, selected)
    else Shift(q[1..], limit, selected + [q[0]])
  }

  lemma UsersOfAppend(s: seq<Entry>, e: Entry)
    ensures UsersOf(s + [e]) == UsersOf(s) + {e.userId}
  {
    var t := s + [e];
    forall u | u in UsersOf(t) ensures u in UsersOf(s) + {e.userId} {
      var k :| 0 <= k < |t| && t[k].userId == u;
      if k < |s| {
        assert t[k] == s[k];
      }
    }
    forall u | u in UsersOf(s) ensures u in UsersOf(t) {
      var k :| 0 <= k < |s| && s[k].userId == u;
      assert t[k] == s[k];
    }
    assert t[|s|] == e;
  }

  lemma UsersOfExtends(s: seq<Entry>, t: seq<Entry>)
    ensures UsersOf(s) <= UsersOf(s + t)
  {
    forall u | u in UsersOf(s) ensures u in UsersOf(s + t) {
      var k :| 0 <= k < |s| && s[k].userId == u;
      assert (s + t)[k] == s[k];
    }
  }

  /** The selection loop draws, after what it already holds, the first distinct
      users the queue offers that it does not hold yet. */
  lemma {:induction false} ShiftSelects(q: seq<Entry>, limit: nat, selected: seq<Entry>)
    requires |selected| <= limit && DistinctUsers(selected)
    ensures Shift(q, limit, selected).0
            == selected + Prefix(Dedup(Without(q, UsersOf(selected))), limit - |selected|)
    decreases |q|
  {
    var users := UsersOf(selected);
    if |q| == 0 || |selected| >= limit {
    } else if q[0].userId in users {
      ShiftSelects(q[1..], limit, selected);
      assert Without(q, users) == Without(q[1..], users);
    } else {
      var selected' := selected + [q[0]];
      ShiftSelects(q[1..], limit, selected');
      ShiftSelectsStep(q, limit, selected);
    }
  }

  /** Selecting the head: it is the first entry of the deduplicated
      remainder, and the rest of that remainder excludes its user. */
  lemma ShiftSelectsStep(q: seq<Entry>, limit: nat, selected: seq<Entry>)
    requires |q| > 0 && |selected| < limit && q[0].userId !in UsersOf(selected)
    ensures var selected' := selected + [q[0]];
      selected' + Prefix(Dedup(Without(q[1..], UsersOf(selected'))), limit - |selected'|)
      == selected + Prefix(Dedup(Without(q, UsersOf(selected))), limit - |selected|)
  {
    var e := q[0];
    var users := UsersOf(selected);
    var selected' := selected + [e];
    var n := limit - |selected|;
    var d' := Dedup(Without(q[1..], users + {e.userId}));
    var tail := Prefix(d', n - 1);
    var left := Prefix(Dedup(Without(q[1..], UsersOf(selected'))), limit - |selected'|);
    var right := Prefix(Dedup(Without(q, users)), n);
    assert left == tail by {
      UsersOfAppend(selected, e);
    }
    assert right == [e] + tail by {
      var w1 := Without(q[1..], users);
      assert Without(q, users) == [e] + w1;
      DedupCons(e, w1);
      WithoutTwice(q[1..], users, {e.userId});
      PrefixCons(e, d', n);
    }
    AppendShift(selected, e, tail, left, right);
  }

  lemma AppendShift<T>(s: seq<T>, e: T, tail: seq<T>, left: seq<T>, right: seq<T>)
    requires left == tail && right == [e] + tail
    ensures (s + [e]) + left == s + right
  {
  }

  lemma DedupCons(e: Entry, t: seq<Entry>)
    ensures Dedup([e] + t) == [e] + Dedup(Without(t, {e.userId}))
  {
    assert ([e] + t)[1..] == t;
  }

  lemma PrefixCons<T>(x: T, s: seq<T>, n: nat)
    requires n > 0
    ensures Prefix([x] + s, n) == [x] + Prefix(s, n - 1)
  {
  }

  /** Everything the selection loop consumed belongs to a selected user, what
      it leaves is the rest of the queue, and it stops short of the limit only
      when the queue ran out. */
  lemma ShiftConsumes(q: seq<Entry>, limit: nat, selected: seq<Entry>)
    ensures var sel := Shift(q, limit, selected).0; var rest := Shift(q, limit, selected).1;
      && |rest| <= |q| && rest == q[|q| - |rest|..]
      && (forall i :: 0 <= i < |q| - |rest| ==> q[i].userId in UsersOf(sel))
      && (|sel| < limit ==> rest == [])
  {
    ShiftSuffix(q, limit, selected);
    ShiftConsumed(q, limit, selected);
    ShiftStopsShort(q, limit, selected);
  }

  lemma {:induction false} ShiftSuffix(q: seq<Entry>, limit: nat, selected: seq<Entry>)
    ensures var rest := Shift(q, limit, selected).1;
      |rest| <= |q| && rest == q[|q| - |rest|..]
    decreases |q|
  {
    if |q| > 0 && |selected| < limit {
      var selected' := if q[0].userId in UsersOf(selected) then selected else selected + [q[0]];
      ShiftSuffix(q[1..], limit, selected');
      assert Shift(q, limit, selected).1 == Shift(q[1..], limit, selected').1;
      SuffixOfTail(q, Shift(q[1..], limit, selected').1);
    }
  }

  /** A suffix of a list's tail is a suffix of the list. */
  lemma SuffixOfTail<T>(q: seq<T>, rest: seq<T>)
    requires |q| > 0
    requires |rest| <= |q| - 1 && rest == q[1..][|q| - 1 - |rest|..]
    ensures |rest| <= |q| && rest == q[|q| - |rest|..]
  {
    assert q[1..][|q| - 1 - |rest|..] == q[|q| - |rest|..];
  }

  lemma {:induction false} ShiftStopsShort(q: seq<Entry>, limit: nat, selected: seq<Entry>)
    ensures |Shift(q, limit, selected).0| < limit ==> Shift(q, limit, selected).1 == []
    decreases |q|
  {
    if |q| > 0 && |selected| < limit {
      var selected' := if q[0].userId in UsersOf(selected) then selected else selected + [q[0]];
      ShiftStopsShort(q[1..], limit, selected');
    }
  }

  lemma {:induction false} ShiftKeeps(q: seq<Entry>, limit: nat, selected: seq<Entry>)
    ensures UsersOf(selected) <= UsersOf(Shift(q, limit, selected).0)
    decreases |q|
  {
    if |q| > 0 && |selected| < limit {
      var selected' := if q[0].userId in UsersOf(selected) then selected else selected + [q[0]];
      ShiftKeeps(q[1..], limit, selected');
      UsersOfAppend(selected, q[0]);
    }
  }

  lemma {:induction false} ShiftConsumed(q: seq<Entry>, limit: nat, selected: seq<Entry>)
    ensures var sel := Shift(q, limit, selected).0; var rest := Shift(q, limit, selected).1;
      forall i :: 0 <= i < |q| - |rest| ==> q[i].userId in UsersOf(sel)
    decreases |q|
  {
    if |q| > 0 && |selected| < limit {
      var selected' := if q[0].userId in UsersOf(selected) then selected else selected + [q[0]];
      ShiftConsumed(q[1..], limit, selected');
      ShiftSuffix(q[1..], limit, selected');
      ShiftKeeps(q[1..], limit, selected');
      var sel := Shift(q[1..], limit, selected').0;
      var rest := Shift(q[1..], limit, selected').1;
      assert Shift(q, limit, selected) == (sel, rest);
      assert q[0].userId in UsersOf(selected') by {
        UsersOfAppend(selected, q[0]);
      }
      ConsumedPrefix(q, sel, |q| - |rest|);
    }
  }

  lemma ConsumedPrefix(q: seq<Entry>, sel: seq<Entry>, n: nat)
    requires 0 < n <= |q| && q[0].userId in UsersOf(sel)
    requires forall i :: 0 <= i < n - 1 ==> q[1..][i].userId in UsersOf(sel)
    ensures forall i :: 0 <= i < n ==> q[i].userId in UsersOf(sel)
  {
    forall i | 0 < i < n ensures q[i].userId in UsersOf(sel) {
      assert q[i] == q[1..][i - 1];
    }
  }

  /** Outcome of drawing a quorum: the candidates, if enough distinct users were
      found, and the queue as it is left. */
  datatype Draw = Draw(candidates: Option<seq<Entry>>, queue: seq<Entry>)

  /** Draw `limit` distinct users from the front of a queue. On success the
      candidates are the first `limit` distinct users in queue order and every
      entry of theirs leaves the queue, the rest keeping their order. On
      failure the queue keeps the first entry of each user, in order. */
  function TakeUniqueCandidates(q: seq<Entry>, limit: nat): (t: Draw)
    ensures t.candidates.Some? ==>
      && |t.candidates.value| == limit
      && |Dedup(q)| >= limit
      && t.candidates.value == Dedup(q)[..limit]
      && t.queue == Without(q, UsersOf(t.candidates.value))
    ensures t.candidates.None? ==> |Dedup(q)| < limit && t.queue == Dedup(q)
  {
    ShiftFromEmpty(q, limit);
    var (selected, rest) := Shift(q, limit, []);
    var remaining := Without(rest, UsersOf(selected));
    if |selected| < limit then
      Draw(None, selected + remaining)
    else
      Draw(Some(selected), remaining)
  }

  /** The selection loop run on a whole queue, in terms of the reference
      deduplication. */
  lemma ShiftFromEmpty(q: seq<Entry>, limit: nat)
    ensures var (sel, rest) := Shift(q, limit, []);
      && (|sel| < limit ==> sel == Dedup(q) && rest == [] && |Dedup(q)| < limit)
      && (|sel| >= limit ==>
            && |sel| == limit && |Dedup(q)| >= limit && sel == Dedup(q)[..limit]
            && Without(rest, UsersOf(sel)) == Without(q, UsersOf(sel)))
  {
    ShiftSelects(q, limit, []);
    ShiftConsumes(q, limit, []);
    WithoutNothing(q, {});
    var (sel, rest) := Shift(q, limit, []);
    WithoutSkipsPrefix(q, |q| - |rest|, UsersOf(sel));
  }

  /** What a draw promises besides its definition: the candidates are distinct
      users drawn in queue order and none of them is left behind; the queue
      left behind is a subsequence of the old one, free of repeated users when
      the draw fails. */
  lemma DrawProperties(q: seq<Entry>, limit: nat)
    ensures var t := TakeUniqueCandidates(q, limit);
      && (t.candidates.Some? ==>
           && DistinctUsers(t.candidates.value)
           && IsSubseq(t.candidates.value, q)
           && (forall e :: e in t.queue ==> e.userId !in UsersOf(t.candidates.value)))
      && (t.candidates.None? ==> DistinctUsers(t.queue))
      && IsSubseq(t.queue, q)
  {
    var t := TakeUniqueCandidates(q, limit);
    DedupSpec(q);
    if t.candidates.Some? {
      var c := t.candidates.value;
      PrefixIsSubseq(Dedup(q), limit);
      assert c == Prefix(Dedup(q), limit);
      SubseqTransitive(c, Dedup(q), q);
      WithoutIsSubseq(q, UsersOf(c));
    }
  }

  lemma {:induction false} CountTwice(q: seq<Entry>, i: nat, j: nat)
    requires i < j < |q| && q[i].userId == q[j].userId
    ensures Count(q, q[i].userId) >= 2
  {
    var u := q[i].userId;
    if i == 0 {
      assert q[1..][j - 1].userId == u;
      CountZero(q[1..], u);
    } else {
      CountTwice(q[1..], i - 1, j - 1);
    }
  }

  /** A queue in which no user has two entries has distinct users. */
  lemma CountsDistinct(q: seq<Entry>)
    requires forall u :: Count(q, u) <= 1
    ensures DistinctUsers(q)
  {
    forall i, j | 0 <= i < j < |q|
      ensures q[i].userId != q[j].userId
    {
      if q[i].userId == q[j].userId {
        CountTwice(q, i, j);
      }
    }
  }

  // ---------------------------------------------------------------------------
  // The registry of queues
  // ---------------------------------------------------------------------------

  /** The mode a queue serves. The source joins the two parts into one text
      key; equal keys mean the same queue either way. */
  datatype QueueKey = QueueKey(difficulty: Difficulty, playerLimit: int)

  datatype Slot = Slot(key: QueueKey, queue: seq<Entry>)

  /** Every queue, in the order it was first used. */
  type Registry = seq<Slot>

  predicate DistinctKeys(reg: Registry) {
    forall i, j :: 0 <= i < j < |reg| ==> reg[i].key != reg[j].key
  }

  /** Number of slots user u holds across all queues. */
  function RegistryCount(reg: Registry, u: UserId): nat {
    if |reg| == 0 then 0 else Count(reg[0].queue, u) + RegistryCount(reg[1..], u)
  }

  /** The registry invariant: every user waits in at most one slot overall. */
  ghost predicate AtMostOnce(reg: Registry) {
    forall u :: RegistryCount(reg, u) <= 1
  }

  /** `reg'` has the queues of `reg`, each with some entries left out. */
  predicate Shrinks(reg': Registry, reg: Registry) {
    && |reg'| == |reg|
    && forall i :: 0 <= i < |reg| ==> reg'[i].key == reg[i].key && IsSubseq(reg'[i].queue, reg[i].queue)
  }

  lemma {:induction false} ShrinksCount(reg': Registry, reg: Registry, u: UserId)
    requires Shrinks(reg', reg)
    ensures RegistryCount(reg', u) <= RegistryCount(reg, u)
  {
    if |reg| > 0 {
      SubseqCount(reg'[0].queue, reg[0].queue, u);
      ShrinksCount(reg'[1..], reg[1..], u);
    }
  }

  lemma ShrinksTransitive(a: Registry, b: Registry, c: Registry)
    requires Shrinks(a, b) && Shrinks(b, c)
    ensures Shrinks(a, c)
  {
    forall i | 0 <= i < |c|
      ensures IsSubseq(a[i].queue, c[i].queue)
    {
      SubseqTransitive(a[i].queue, b[i].queue, c[i].queue);
    }
  }

  lemma {:induction false} CountUpdate(reg: Registry, i: nat, slot: Slot, u: UserId)
    requires i < |reg|
    ensures RegistryCount(reg[i := slot], u)
            == RegistryCount(reg, u) - Count(reg[i].queue, u) + Count(slot.queue, u)
  {
    if i > 0 {
      assert reg[i := slot][1..] == reg[1..][i - 1 := slot];
      CountUpdate(reg[1..], i - 1, slot, u);
    } else {
      assert reg[i := slot][1..] == reg[1..];
    }
  }

  lemma {:induction false} CountAppendEmpty(reg: Registry, key: QueueKey, u: UserId)
    ensures RegistryCount(reg + [Slot(key, [])], u) == RegistryCount(reg, u)
  {
    if |reg| > 0 {
      assert (reg + [Slot(key, [])])[1..] == reg[1..] + [Slot(key, [])];
      CountAppendEmpty(reg[1..], key, u);
    } else {
      assert ([Slot(key, [])])[1..] == [];
    }
  }

  /** Position of the slot serving `key`, if there is one. */
  function SlotIndex(reg: Registry, key: QueueKey): (i: Option<nat>)
    ensures i.Some? ==> i.value < |reg| && reg[i.value].key == key
    ensures i.None? ==> forall j :: 0 <= j < |reg| ==> reg[j].key != key
  {
    if |reg| == 0 then None
    else if reg[0].key == key then Some(0)
    else match SlotIndex(reg[1..], key)
      case Some(j) => Some(j + 1)
      case None => None
  }

  /** The queue for a mode, created empty at the end of the registry the
      first time the mode is used. */
  function EnsureQueue(reg: Registry, key: QueueKey): (r: Registry)
    ensures SlotIndex(r, key).Some?
    ensures |reg| <= |r| <= |reg| + 1 && r[..|reg|] == reg
    ensures |r| > |reg| ==> r[|reg|] == Slot(key, [])
    ensures DistinctKeys(reg) ==> DistinctKeys(r)
    ensures forall u :: RegistryCount(r, u) == RegistryCount(reg, u)
  {
    if SlotIndex(reg, key).Some? then reg
    else
      var r := reg + [Slot(key, [])];
      assert forall u :: RegistryCount(r, u) == RegistryCount(reg, u) by {
        forall u ensures RegistryCount(r, u) == RegistryCount(reg, u) {
          CountAppendEmpty(reg, key, u);
        }
      }
      assert r[|reg|].key == key;
      r
  }

  /** Position of the first entry of a connection in a queue. */
  function SocketIndex(q: seq<Entry>, socketId: SocketId): (i: Option<nat>)
    ensures i.Some? ==> i.value < |q| && q[i.value].socketId == socketId
    ensures i.Some? ==> forall k :: 0 <= k < i.value ==> q[k].socketId != socketId
    ensures i.None? ==> forall j :: 0 <= j < |q| ==> q[j].socketId != socketId
  {
    if |q| == 0 then None
    else if q[0].socketId == socketId then Some(0)
    else match SocketIndex(q[1..], socketId)
      case Some(j) => Some(j + 1)
      case None => None
  }

  /** Number of entries in all queues. */
  function Size(reg: Registry): nat {
    if |reg| == 0 then 0 else |reg[0].queue| + Size(reg[1..])
  }

  /** Some queue of the registry holds an entry of the connection. */
  predicate Queued(reg: Registry, socketId: SocketId) {
    exists i, j :: 0 <= i < |reg| && 0 <= j < |reg[i].queue| && reg[i].queue[j].socketId == socketId
  }

  lemma QueuedCons(reg: Registry, socketId: SocketId)
    requires |reg| > 0
    ensures Queued(reg, socketId)
            <==> SocketIndex(reg[0].queue, socketId).Some? || Queued(reg[1..], socketId)
  {
    if Queued(reg, socketId) && SocketIndex(reg[0].queue, socketId).None? {
      var i, j :| 0 <= i < |reg| && 0 <= j < |reg[i].queue| && reg[i].queue[j].socketId == socketId;
      assert reg[1..][i - 1] == reg[i];
    }
    if Queued(reg[1..], socketId) {
      var i, j :| 0 <= i < |reg[1..]| && 0 <= j < |reg[1..][i].queue| && reg[1..][i].queue[j].socketId == socketId;
      assert reg[i + 1] == reg[1..][i];
    }
    if SocketIndex(reg[0].queue, socketId).Some? {
      var j := SocketIndex(reg[0].queue, socketId).value;
      assert reg[0].queue[j].socketId == socketId;
    }
  }

  /** Take out the first entry of a connection from the first queue, in
      registry order, that holds one. Reports whether an entry was removed:
      exactly when some queue held the connection, in which case the registry
      holds one entry fewer and every queue keeps its other entries in order. */
  function RemoveFromQueue(reg: Registry, socketId: SocketId): (r: (Registry, bool))
    ensures Shrinks(r.0, reg)
    ensures r.1 <==> Queued(reg, socketId)
    ensures !r.1 ==> r.0 == reg
    ensures r.1 ==> Size(r.0) + 1 == Size(reg)
  {
    if |reg| == 0 then (reg, false)
    else
      QueuedCons(reg, socketId);
      match SocketIndex(reg[0].queue, socketId)
      case Some(i) =>
        var q := reg[0].queue;
        var r := [reg[0].(queue := q[..i] + q[i + 1..])] + reg[1..];
        DeleteIsSubseq(q, i);
        SubseqOfSelfAll(reg[1..]);
        assert r[1..] == reg[1..];
        (r, true)
      case None =>
        var (rest, found) := RemoveFromQueue(reg[1..], socketId);
        var r := [reg[0]] + rest;
        SubseqOfSelf(reg[0].queue);
        assert r[1..] == rest;
        (r, found)
  }

  /** Entry j of queue i is the connection's first: no earlier queue holds
      the connection, and no earlier entry of queue i does. */
  predicate FirstHeldAt(reg: Registry, socketId: SocketId, i: nat, j: nat) {
    && i < |reg| && j < |reg[i].queue| && reg[i].queue[j].socketId == socketId
    && (forall k, m :: 0 <= k < i && 0 <= m < |reg[k].queue| ==> reg[k].queue[m].socketId != socketId)
    && (forall m :: 0 <= m < j ==> reg[i].queue[m].socketId != socketId)
  }

  /** The registry with entry j of queue i taken out. */
  function DeleteAt(reg: Registry, i: nat, j: nat): Registry
    requires i < |reg| && j < |reg[i].queue|
  {
    reg[i := reg[i].(queue := reg[i].queue[..j] + reg[i].queue[j + 1..])]
  }

  /** The entry removed is the connection's first entry in the first queue,
      in registry order, that holds it, and nothing else changes. */
  lemma {:induction false} RemoveFromQueueFirst(reg: Registry, socketId: SocketId)
    ensures RemoveFromQueue(reg, socketId).1 ==>
      exists i: nat, j: nat :: FirstHeldAt(reg, socketId, i, j)
                               && RemoveFromQueue(reg, socketId).0 == DeleteAt(reg, i, j)
  {
    if |reg| > 0 {
      var r := RemoveFromQueue(reg, socketId);
      match SocketIndex(reg[0].queue, socketId)
      case Some(j) =>
        RemovedFromHead(reg, socketId, j);
      case None =>
        RemoveFromQueueFirst(reg[1..], socketId);
        if r.1 {
          var i: nat, j: nat :| FirstHeldAt(reg[1..], socketId, i, j)
                                && RemoveFromQueue(reg[1..], socketId).0 == DeleteAt(reg[1..], i, j);
          RemovedFromTail(reg, socketId, i, j);
        }
    }
  }

  lemma RemovedFromHead(reg: Registry, socketId: SocketId, j: nat)
    requires |reg| > 0 && SocketIndex(reg[0].queue, socketId) == Some(j)
    ensures FirstHeldAt(reg, socketId, 0, j)
    ensures RemoveFromQueue(reg, socketId).0 == DeleteAt(reg, 0, j)
  {
    var q := reg[0].queue;
    assert RemoveFromQueue(reg, socketId).0 == [reg[0].(queue := q[..j] + q[j + 1..])] + reg[1..];
  }

  lemma RemovedFromTail(reg: Registry, socketId: SocketId, i: nat, j: nat)
    requires |reg| > 0 && SocketIndex(reg[0].queue, socketId).None?
    requires FirstHeldAt(reg[1..], socketId, i, j)
    requires RemoveFromQueue(reg[1..], socketId).0 == DeleteAt(reg[1..], i, j)
    ensures FirstHeldAt(reg, socketId, i + 1, j)
    ensures RemoveFromQueue(reg, socketId).0 == DeleteAt(reg, i + 1, j)
  {
    FirstHeldShift(reg, socketId, i, j);
    assert RemoveFromQueue(reg, socketId).0 == [reg[0]] + DeleteAt(reg[1..], i, j);
    var e := reg[i + 1].(queue := reg[i + 1].queue[..j] + reg[i + 1].queue[j + 1..]);
    assert reg[1..][i] == reg[i + 1];
    UpdateBehindHead(reg, i, e);
  }

  lemma UpdateBehindHead<T>(s: seq<T>, i: nat, e: T)
    requires i + 1 < |s|
    ensures [s[0]] + s[1..][i := e] == s[i + 1 := e]
  {
  }

  lemma FirstHeldShift(reg: Registry, socketId: SocketId, i: nat, j: nat)
    requires |reg| > 0 && SocketIndex(reg[0].queue, socketId).None?
    requires FirstHeldAt(reg[1..], socketId, i, j)
    ensures FirstHeldAt(reg, socketId, i + 1, j)
  {
    forall k, m | 0 <= k < i + 1 && 0 <= m < |reg[k].queue|
      ensures reg[k].queue[m].socketId != socketId
    {
      if k > 0 {
        assert reg[k] == reg[1..][k - 1];
      }
    }
  }

  lemma SubseqOfSelfAll(reg: Registry)
    ensures Shrinks(reg, reg)
  {
    forall i | 0 <= i < |reg| ensures IsSubseq(reg[i].queue, reg[i].queue) {
      SubseqOfSelf(reg[i].queue);
    }
  }

  /** Take out every entry of a user from every queue. Reports whether any
      entry was removed. */
  function RemoveUserFromQueues(reg: Registry, u: UserId): (r: (Registry, bool))
    ensures Shrinks(r.0, reg)
    ensures RegistryCount(r.0, u) == 0
    ensures forall v :: v != u ==> RegistryCount(r.0, v) == RegistryCount(reg, v)
    ensures r.1 <==> RegistryCount(reg, u) > 0
  {
    if |reg| == 0 then (reg, false)
    else
      var (rest, removed) := RemoveUserFromQueues(reg[1..], u);
      var q := reg[0].queue;
      var r := [reg[0].(queue := Without(q, {u}))] + rest;
      assert r[1..] == rest;
      WithoutIsSubseq(q, {u});
      CountWithout(q, {u}, u);
      CountZero(q, u);
      assert forall v :: v != u ==> RegistryCount(r, v) == RegistryCount(reg, v) by {
        forall v | v != u ensures RegistryCount(r, v) == RegistryCount(reg, v) {
          CountWithout(q, {u}, v);
        }
      }
      (r, removed || u in UsersOf(q))
  }

  /** Every entry of the connection carries user u, as every entry the join
      handler pushes carries the joining connection's user. */
  predicate Owns(reg: Registry, socketId: SocketId, u: UserId) {
    forall i, k :: 0 <= i < |reg| && 0 <= k < |reg[i].queue| && reg[i].queue[k].socketId == socketId
      ==> reg[i].queue[k].userId == u
  }

  /** Taking one entry out costs its user exactly one slot. */
  lemma DeleteAtCount(reg: Registry, i: nat, j: nat, v: UserId)
    requires i < |reg| && j < |reg[i].queue|
    ensures RegistryCount(DeleteAt(reg, i, j), v)
            == RegistryCount(reg, v) - (if reg[i].queue[j].userId == v then 1 else 0)
  {
    var q := reg[i].queue;
    CountUpdate(reg, i, reg[i].(queue := q[..j] + q[j + 1..]), v);
    assert q == q[..j] + ([q[j]] + q[j + 1..]);
    CountConcat(q[..j], [q[j]] + q[j + 1..], v);
    CountConcat([q[j]], q[j + 1..], v);
    CountConcat(q[..j], q[j + 1..], v);
    assert [q[j]][1..] == [];
  }

  /** Removing the entry of a connection that belongs to u leaves every other
      user's slots as they were. */
  lemma RemoveFromQueueOwned(reg: Registry, socketId: SocketId, u: UserId)
    ensures Owns(reg, socketId, u) ==>
      forall v :: v != u ==> RegistryCount(RemoveFromQueue(reg, socketId).0, v) == RegistryCount(reg, v)
  {
    RemoveFromQueueFirst(reg, socketId);
    if Owns(reg, socketId, u) && RemoveFromQueue(reg, socketId).1 {
      var i: nat, j: nat :| FirstHeldAt(reg, socketId, i, j)
                            && RemoveFromQueue(reg, socketId).0 == DeleteAt(reg, i, j);
      forall v | v != u
        ensures RegistryCount(RemoveFromQueue(reg, socketId).0, v) == RegistryCount(reg, v)
      {
        DeleteAtCount(reg, i, j, v);
      }
    }
  }

  /** The queue serving `key`; empty when the mode has none yet. */
  function QueueOf(reg: Registry, key: QueueKey): seq<Entry> {
    match SlotIndex(reg, key)
    case Some(i) => reg[i].queue
    case None => []
  }

  /** The queue for `key` exists and ends with entry `e`. */
  predicate LastInQueue(reg: Registry, key: QueueKey, e: Entry) {
    && SlotIndex(reg, key).Some?
    && var q := QueueOf(reg, key);
       |q| > 0 && q[|q| - 1] == e
  }

  /** Append an entry to the tail of the queue for `key`, creating the queue
      if needed. */
  function Push(reg: Registry, key: QueueKey, e: Entry): (r: Registry)
    ensures LastInQueue(r, key, e)
    ensures QueueOf(r, key) == QueueOf(reg, key) + [e]
    ensures forall v :: RegistryCount(r, v) == RegistryCount(reg, v) + (if v == e.userId then 1 else 0)
    ensures DistinctKeys(reg) ==> DistinctKeys(r)
  {
    var r3 := EnsureQueue(reg, key);
    var i := SlotIndex(r3, key).value;
    var r := r3[i := r3[i].(queue := r3[i].queue + [e])];
    PushCount(r3, i, e);
    SlotIndexKeys(r, r3, key);
    r
  }

  /** Put a player at the tail of the queue for `key`, after clearing any
      earlier slot of the connection and of the user. Afterwards the user holds
      exactly one slot, the last of that queue, and nobody else gained one. */
  function Admit(reg: Registry, key: QueueKey, e: Entry): (r: Registry)
    ensures LastInQueue(r, key, e)
    ensures RegistryCount(r, e.userId) == 1
    ensures forall v :: v != e.userId ==> RegistryCount(r, v) <= RegistryCount(reg, v)
    ensures Owns(reg, e.socketId, e.userId) ==>
      forall v :: v != e.userId ==> RegistryCount(r, v) == RegistryCount(reg, v)
    ensures DistinctKeys(reg) ==> DistinctKeys(r)
  {
    Push(LeaveQueue(reg, e.socketId, e.userId), key, e)
  }

  /** Where a mode's queue sits depends only on the keys. */
  lemma {:induction false} SlotIndexKeys(a: Registry, b: Registry, key: QueueKey)
    requires |a| == |b| && forall j :: 0 <= j < |a| ==> a[j].key == b[j].key
    ensures SlotIndex(a, key) == SlotIndex(b, key)
  {
    if |a| > 0 {
      SlotIndexKeys(a[1..], b[1..], key);
    }
  }

  lemma ShrinksCountAll(reg': Registry, reg: Registry)
    requires Shrinks(reg', reg)
    ensures forall v :: RegistryCount(reg', v) <= RegistryCount(reg, v)
  {
    forall v ensures RegistryCount(reg', v) <= RegistryCount(reg, v) {
      ShrinksCount(reg', reg, v);
    }
  }

  /** Appending an entry to one queue gives its user one more slot. */
  lemma PushCount(reg: Registry, i: nat, e: Entry)
    requires i < |reg|
    ensures forall v :: RegistryCount(reg[i := reg[i].(queue := reg[i].queue + [e])], v)
                        == RegistryCount(reg, v) + (if v == e.userId then 1 else 0)
  {
    forall v
      ensures RegistryCount(reg[i := reg[i].(queue := reg[i].queue + [e])], v)
              == RegistryCount(reg, v) + (if v == e.userId then 1 else 0)
    {
      CountUpdate(reg, i, reg[i].(queue := reg[i].queue + [e]), v);
      CountConcat(reg[i].queue, [e], v);
      assert [e][1..] == [];
    }
  }

  /** What a join reports back to the joining connection. */
  datatype QueueUpdate = QueueUpdate(
    difficulty: Difficulty,
    playerLimit: int,
    queuedPlayers: nat,
    targetPlayers: int,
    queuePosition: nat)

  /** The registry after a join, the report, and the candidates of a new match
      when a quorum was drawn. */
  datatype JoinOutcome = JoinOutcome(registry: Registry, update: QueueUpdate, candidates: Option<seq<Entry>>)

  /** A queue holds no more slots of a user than the whole registry. */
  lemma QueueCountBound(reg: Registry, i: nat, v: UserId)
    requires i < |reg|
    ensures Count(reg[i].queue, v) <= RegistryCount(reg, v)
  {
    CountUpdate(reg, i, reg[i].(queue := []), v);
  }

  /** The registry after a possible draw, and the candidates drawn. */
  datatype Drawn = Drawn(registry: Registry, candidates: Option<seq<Entry>>)

  /** Once the queue at position i holds at least `limit` entries, draw a
      quorum from it; the queue left behind replaces it. */
  function DrawIfFull(reg: Registry, i: nat, limit: nat): (d: Drawn)
    requires i < |reg|
    ensures |d.registry| == |reg|
    ensures forall k :: 0 <= k < |reg| ==> d.registry[k].key == reg[k].key
    ensures forall v :: RegistryCount(d.registry, v) <= RegistryCount(reg, v)
    ensures d.candidates.Some? ==>
      && |reg[i].queue| >= limit
      && |d.candidates.value| == limit
      && DistinctUsers(d.candidates.value)
    ensures forall v :: Count(reg[i].queue, v) == 1 ==>
      RegistryCount(d.registry, v)
      == RegistryCount(reg, v) - (if d.candidates.Some? && v in UsersOf(d.candidates.value) then 1 else 0)
    ensures (forall v :: Count(reg[i].queue, v) <= 1) ==> (d.candidates.Some? <==> |reg[i].queue| >= limit)
    ensures d.candidates.Some? <==> |reg[i].queue| >= limit && |Dedup(reg[i].queue)| >= limit
    ensures d.candidates.Some? ==>
      && d.candidates.value == Dedup(reg[i].queue)[..limit]
      && d.registry == reg[i := reg[i].(queue := Without(reg[i].queue, UsersOf(d.candidates.value)))]
    ensures d.candidates.None? ==>
      d.registry == reg[i := reg[i].(queue := if |reg[i].queue| >= limit then Dedup(reg[i].queue) else reg[i].queue)]
  {
    var q := reg[i].queue;
    if |q| >= limit then
      var t := TakeUniqueCandidates(q, limit);
      var r := reg[i := reg[i].(queue := t.queue)];
      DrawCounts(reg, i, limit);
      DrawProperties(q, limit);
      DistinctDrawSucceeds(q, limit);
      Drawn(r, t.candidates)
    else
      Drawn(reg, None)
  }

  /** A queue that holds nobody twice always yields a quorum once it is long
      enough. */
  lemma DistinctDrawSucceeds(q: seq<Entry>, limit: nat)
    ensures (forall v :: Count(q, v) <= 1) && |q| >= limit ==> TakeUniqueCandidates(q, limit).candidates.Some?
  {
    if (forall v :: Count(q, v) <= 1) && |q| >= limit {
      CountsDistinct(q);
      DedupOfDistinct(q);
    }
  }

  /** Slot counts after a draw replaced the queue at position i. */
  lemma DrawCounts(reg: Registry, i: nat, limit: nat)
    requires i < |reg|
    ensures var t := TakeUniqueCandidates(reg[i].queue, limit);
      var r := reg[i := reg[i].(queue := t.queue)];
      && (forall v :: RegistryCount(r, v) <= RegistryCount(reg, v))
      && (forall v :: Count(reg[i].queue, v) == 1 ==>
            RegistryCount(r, v)
            == RegistryCount(reg, v) - (if t.candidates.Some? && v in UsersOf(t.candidates.value) then 1 else 0))
  {
    var q := reg[i].queue;
    var t := TakeUniqueCandidates(q, limit);
    var r := reg[i := reg[i].(queue := t.queue)];
    DrawProperties(q, limit);
    forall v ensures RegistryCount(r, v) == RegistryCount(reg, v) - Count(q, v) + Count(t.queue, v) {
      CountUpdate(reg, i, reg[i].(queue := t.queue), v);
    }
    forall v ensures Count(t.queue, v) <= Count(q, v) {
      SubseqCount(t.queue, q, v);
    }
    forall v | Count(q, v) == 1
      ensures Count(t.queue, v) == if t.candidates.Some? && v in UsersOf(t.candidates.value) then 0 else 1
    {
      CountZero(q, v);
      if t.candidates.Some? {
        CountWithout(q, UsersOf(t.candidates.value), v);
      } else {
        DedupSpec(q);
        CountDistinct(Dedup(q), v);
      }
    }
  }

  /** A connection of user u asks to join a queue. */
  function Join(reg: Registry, socketId: SocketId, u: UserId, name: string,
                difficulty: Option<string>, playerLimit: Option<int>): (j: JoinOutcome)
    ensures j.update.difficulty == NormalizeDifficulty(difficulty)
    ensures j.update.playerLimit == NormalizePlayerLimit(playerLimit)
    ensures j.update.playerLimit in AllowedPlayerLimits
    ensures j.update.targetPlayers == j.update.playerLimit
    ensures 1 <= j.update.queuePosition == j.update.queuedPlayers
    ensures DistinctKeys(reg) ==> DistinctKeys(j.registry)
    ensures j.candidates.Some? ==>
      && |j.candidates.value| == j.update.playerLimit
      && DistinctUsers(j.candidates.value)
  {
    var d := NormalizeDifficulty(difficulty);
    var limit := NormalizePlayerLimit(playerLimit);
    var key := QueueKey(d, limit);
    var e := Entry(socketId, u, name);
    var admitted := Admit(reg, key, e);
    var q := QueueOf(admitted, key);
    var drawn := DrawIfFull(admitted, SlotIndex(admitted, key).value, limit);
    JoinOutcome(drawn.registry, QueueUpdate(d, limit, |q|, limit, |q|), drawn.candidates)
  }

  /** The queue a join appends to: the mode's queue once the connection and
      its user were cleared, with the joiner behind it. */
  function JoinedQueue(reg: Registry, socketId: SocketId, u: UserId, name: string, key: QueueKey): seq<Entry> {
    QueueOf(LeaveQueue(reg, socketId, u), key) + [Entry(socketId, u, name)]
  }

  /** A join reports the length of the queue it appended to, and a quorum is
      drawn exactly when that queue reached the limit and holds enough
      distinct users. */
  lemma JoinQueue(reg: Registry, socketId: SocketId, u: UserId, name: string,
                  difficulty: Option<string>, playerLimit: Option<int>)
    ensures var j := Join(reg, socketId, u, name, difficulty, playerLimit);
      var limit := NormalizePlayerLimit(playerLimit);
      var q := JoinedQueue(reg, socketId, u, name, QueueKey(NormalizeDifficulty(difficulty), limit));
      && SlotIndex(j.registry, QueueKey(NormalizeDifficulty(difficulty), limit)).Some?
      && j.update.queuedPlayers == |q|
      && (j.candidates.Some? <==> |q| >= limit && |Dedup(q)| >= limit)
  {
    var limit := NormalizePlayerLimit(playerLimit);
    var key := QueueKey(NormalizeDifficulty(difficulty), limit);
    var admitted := Admit(reg, key, Entry(socketId, u, name));
    assert QueueOf(admitted, key) == JoinedQueue(reg, socketId, u, name, key);
    var drawn := DrawIfFull(admitted, SlotIndex(admitted, key).value, limit);
    SlotIndexKeys(drawn.registry, admitted, key);
  }

  /** The quorum a join draws is the first `limit` distinct users of the
      queue it appended to, and their entries leave it; a failed draw keeps
      each user's first entry; without a draw the queue stays as appended. */
  lemma JoinDraws(reg: Registry, socketId: SocketId, u: UserId, name: string,
                  difficulty: Option<string>, playerLimit: Option<int>)
    ensures var j := Join(reg, socketId, u, name, difficulty, playerLimit);
      var limit := NormalizePlayerLimit(playerLimit);
      var key := QueueKey(NormalizeDifficulty(difficulty), limit);
      var q := JoinedQueue(reg, socketId, u, name, key);
      && (j.candidates.Some? ==>
            && j.candidates.value == Dedup(q)[..limit]
            && QueueOf(j.registry, key) == Without(q, UsersOf(j.candidates.value)))
      && (j.candidates.None? ==> QueueOf(j.registry, key) == if |q| >= limit then Dedup(q) else q)
  {
    var limit := NormalizePlayerLimit(playerLimit);
    var key := QueueKey(NormalizeDifficulty(difficulty), limit);
    var admitted := Admit(reg, key, Entry(socketId, u, name));
    assert QueueOf(admitted, key) == JoinedQueue(reg, socketId, u, name, key);
    var i := SlotIndex(admitted, key).value;
    var drawn := DrawIfFull(admitted, i, limit);
    SlotIndexKeys(drawn.registry, admitted, key);
    assert QueueOf(drawn.registry, key) == drawn.registry[i].queue;
  }

  /** Unless the joiner was drawn into the new match, it waits last in its
      mode's queue. */
  lemma JoinKeepsJoinerLast(reg: Registry, socketId: SocketId, u: UserId, name: string,
                            difficulty: Option<string>, playerLimit: Option<int>)
    ensures var j := Join(reg, socketId, u, name, difficulty, playerLimit);
      var key := QueueKey(NormalizeDifficulty(difficulty), NormalizePlayerLimit(playerLimit));
      (j.candidates.None? || u !in UsersOf(j.candidates.value)) ==>
        LastInQueue(j.registry, key, Entry(socketId, u, name))
  {
    var j := Join(reg, socketId, u, name, difficulty, playerLimit);
    var limit := NormalizePlayerLimit(playerLimit);
    var key := QueueKey(NormalizeDifficulty(difficulty), limit);
    var p := QueueOf(LeaveQueue(reg, socketId, u), key);
    JoinQueue(reg, socketId, u, name, difficulty, playerLimit);
    JoinDraws(reg, socketId, u, name, difficulty, playerLimit);
    ClearedQueueFresh(reg, socketId, u, key);
    assert JoinedQueue(reg, socketId, u, name, key) == p + [Entry(socketId, u, name)];
    LastAfterDraw(p, Entry(socketId, u, name), limit, j.candidates, QueueOf(j.registry, key));
  }

  /** Once a connection and its user are cleared, no queue holds the user. */
  lemma ClearedQueueFresh(reg: Registry, socketId: SocketId, u: UserId, key: QueueKey)
    ensures u !in UsersOf(QueueOf(LeaveQueue(reg, socketId, u), key))
  {
    var left := LeaveQueue(reg, socketId, u);
    QueueOfCount(left, key, u);
    CountZero(QueueOf(left, key), u);
  }

  /** A mode's queue holds no more slots of a user than the registry. */
  lemma QueueOfCount(reg: Registry, key: QueueKey, u: UserId)
    ensures Count(QueueOf(reg, key), u) <= RegistryCount(reg, u)
  {
    if SlotIndex(reg, key).Some? {
      QueueCountBound(reg, SlotIndex(reg, key).value, u);
    }
  }

  /** An entry of a new user appended to a queue stays last through a draw
      that does not take it. */
  lemma LastAfterDraw(p: seq<Entry>, e: Entry, limit: int, candidates: Option<seq<Entry>>, after: seq<Entry>)
    requires e.userId !in UsersOf(p)
    requires candidates.Some? ==> after == Without(p + [e], UsersOf(candidates.value))
    requires candidates.None? ==> after == if |p + [e]| >= limit then Dedup(p + [e]) else p + [e]
    ensures candidates.None? || e.userId !in UsersOf(candidates.value) ==> |after| > 0 && after[|after| - 1] == e
  {
    if candidates.Some? {
      WithoutSnoc(p, e, UsersOf(candidates.value));
    } else {
      DedupSnoc(p, e);
    }
  }

  /** After a join the user holds exactly one slot unless it was drawn into
      the new match; the registry invariant (nobody queued twice) is kept,
      and under it a quorum is drawn exactly when the queue reached the
      limit. */
  lemma JoinCountsUser(reg: Registry, socketId: SocketId, u: UserId, name: string,
                       difficulty: Option<string>, playerLimit: Option<int>)
    ensures var j := Join(reg, socketId, u, name, difficulty, playerLimit);
      && RegistryCount(j.registry, u)
         == (if j.candidates.Some? && u in UsersOf(j.candidates.value) then 0 else 1)
      && (AtMostOnce(reg) ==> AtMostOnce(j.registry))
      && (AtMostOnce(reg) ==> (j.candidates.Some? <==> j.update.queuedPlayers >= j.update.playerLimit))
  {
    var limit := NormalizePlayerLimit(playerLimit);
    var key := QueueKey(NormalizeDifficulty(difficulty), limit);
    var e := Entry(socketId, u, name);
    var admitted := Admit(reg, key, e);
    var i := SlotIndex(admitted, key).value;
    JoinCounts(reg, admitted, i, e);
  }

  /** After admission the user's queue holds the user once, and under the
      registry invariant no queue holds anybody twice. */
  lemma JoinCounts(reg: Registry, admitted: Registry, i: nat, e: Entry)
    requires i < |admitted|
    requires RegistryCount(admitted, e.userId) == 1
    requires forall v :: v != e.userId ==> RegistryCount(admitted, v) <= RegistryCount(reg, v)
    requires e in admitted[i].queue
    ensures Count(admitted[i].queue, e.userId) == 1
    ensures AtMostOnce(reg) ==> AtMostOnce(admitted) && forall v :: Count(admitted[i].queue, v) <= 1
  {
    var q := admitted[i].queue;
    forall v ensures Count(q, v) <= RegistryCount(admitted, v) {
      QueueCountBound(admitted, i, v);
    }
    CountZero(q, e.userId);
  }

  /** A connection leaves the queues (explicitly, by disconnecting, or as the
      first step of a join): its entry and every entry of its user are
      removed. When the connection's entries carry its own user, as the join
      handler makes them, no other user loses a slot. */
  function LeaveQueue(reg: Registry, socketId: SocketId, u: UserId): (r: Registry)
    ensures Shrinks(r, reg)
    ensures RegistryCount(r, u) == 0
    ensures forall v :: RegistryCount(r, v) <= RegistryCount(reg, v)
    ensures Owns(reg, socketId, u) ==>
      forall v :: v != u ==> RegistryCount(r, v) == RegistryCount(reg, v)
    ensures AtMostOnce(reg) ==> AtMostOnce(r)
    ensures DistinctKeys(reg) ==> DistinctKeys(r)
  {
    var (r1, _) := RemoveFromQueue(reg, socketId);
    var (r2, _) := RemoveUserFromQueues(r1, u);
    ShrinksTransitive(r2, r1, reg);
    ShrinksCountAll(r2, reg);
    RemoveFromQueueOwned(reg, socketId, u);
    r2
  }
}
