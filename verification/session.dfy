/**
 One tournament match from formation to settlement. A session holds the
 roster, the live progress, finish and drop records, and the `finalized` flag;
 progress, finish and drop events arrive one at a time with the current time,
 and the fallback timer is an event of its own. Room broadcasts are appended
 to an outbox, so "settlement happens exactly once" is a statement about how
 many `Results` messages the outbox holds.
 */
module MatchSession {
  import opened Options
  import Matchmaking
  import Ranking

  type UserId = string
  type SocketId = string

  /** Seconds between match formation and the start of the race. */
  const CountdownSeconds: int := 3
  /** Seconds the fallback timer waits beyond countdown and race duration. */
  const GraceSeconds: int := 5

  /** Latest live figures a player reported. */
  datatype Live = Live(progress: int, wpm: int, accuracy: int)

  /** A player's accepted finish; `finishedAt` is epoch milliseconds. */
  datatype FinishRecord = FinishRecord(progress: int, wpm: int, accuracy: int, errorCount: int,
                                       timeTaken: int, finishedAt: int)

  datatype DropReason = LeftMatch | Disconnected

  /** A player's forfeit with the figures last known when it happened. */
  datatype DropRecord = DropRecord(reason: DropReason, droppedAt: int, progress: int, wpm: int,
                                   accuracy: int, errorCount: int)

  /** One roster member's line in a progress broadcast. */
  datatype PlayerView = PlayerView(userId: UserId, name: string, progress: int, wpm: int,
                                   accuracy: int, finished: bool, dropped: bool,
                                   dropReason: Option<DropReason>)

  /** Messages broadcast to the match room. */
  datatype Outbound =
    | MatchFound(roster: seq<Matchmaking.Entry>, duration: int, playerLimit: int,
                 requestedPlayerLimit: int, raceStartAt: int)
    | ProgressUpdate(players: seq<PlayerView>)
    | PlayerStatus(userId: UserId, reason: DropReason)
    | Results(rankings: seq<Ranking.Ranked>)

  datatype Session = Session(
    id: string,
    difficulty: Matchmaking.Difficulty,
    text: string,
    duration: int,
    requestedPlayerLimit: int,
    playerLimit: int,
    raceStartAt: int,
    fallbackAt: int,
    players: seq<Matchmaking.Entry>,
    progress: map<UserId, Live>,
    finished: map<UserId, FinishRecord>,
    dropped: map<UserId, DropRecord>,
    finalized: bool,
    outbox: seq<Outbound>)

  // ---------------------------------------------------------------------------
  // Numbers as the handlers read them
  // ---------------------------------------------------------------------------

  /** A payload number that is missing, not numeric or zero reads as
      `fallback`; the model carries a numeric payload value as `Some`. */
  function OrElse(x: Option<int>, fallback: int): (v: int)
    ensures x.Some? && x.value != 0 ==> v == x.value
    ensures x.None? || x.value == 0 ==> v == fallback
  {
    if x.Some? && x.value != 0 then x.value else fallback
  }

  function Max(a: int, b: int): int { if a >= b then a else b }
  function Min(a: int, b: int): int { if a <= b then a else b }

  /** `v` forced into [lo, hi], the lower bound winning when hi < lo. */
  function Clamp(lo: int, hi: int, v: int): (c: int)
    ensures lo <= c
    ensures lo <= hi ==> c <= hi
    ensures lo <= v <= hi ==> c == v
    ensures v < lo ==> c == lo
    ensures lo <= hi < v ==> c == hi
  {
    Max(lo, Min(hi, v))
  }

  /** Milliseconds rounded to the nearest whole second, halves up. */
  function RoundSeconds(ms: nat): (s: nat)
    ensures s * 1000 - 500 <= ms < s * 1000 + 500
  {
    (ms + 500) / 1000
  }

  // ---------------------------------------------------------------------------
  // Derived views of a session
  // ---------------------------------------------------------------------------

  /** Whether the user is on the roster. */
  predicate InRoster(s: Session, u: UserId) {
    exists i :: 0 <= i < |s.players| && s.players[i].userId == u
  }

  /** Seconds of race time used by an event at instant `at`, counted from the
      race start and kept within [1, duration]. */
  function Elapsed(s: Session, at: int): (e: int)
    ensures s.raceStartAt == 0 ==> e == s.duration
    ensures s.raceStartAt != 0 ==> 1 <= e && (s.duration >= 1 ==> e <= s.duration)
    ensures s.raceStartAt != 0 && at <= s.raceStartAt ==> e == 1
    ensures s.raceStartAt != 0 && at > s.raceStartAt && s.duration >= 1 ==>
              var t := at - s.raceStartAt;
              (e - 1) * 1000 - 500 <= t || e == 1
    ensures s.raceStartAt != 0 && at > s.raceStartAt ==>
              e == Clamp(1, s.duration, RoundSeconds(at - s.raceStartAt))
  {
    if s.raceStartAt == 0 then s.duration
    else if at <= s.raceStartAt then 1
    else Max(1, Min(s.duration, RoundSeconds(at - s.raceStartAt)))
  }

  /** Later events never use less race time. */
  lemma ElapsedMonotone(s: Session, a: int, b: int)
    requires a <= b
    ensures Elapsed(s, a) <= Elapsed(s, b)
  {
    if s.raceStartAt != 0 && a > s.raceStartAt {
      assert RoundSeconds(a - s.raceStartAt) <= RoundSeconds(b - s.raceStartAt);
    }
  }

  /** Roster members who have not dropped. */
  function ActivePlayers(s: Session): (a: seq<Matchmaking.Entry>)
    ensures |a| <= |s.players|
    ensures forall p :: p in a <==> p in s.players && p.userId !in s.dropped
  {
    ActiveOf(s.players, s.dropped.Keys)
  }

  function ActiveOf(players: seq<Matchmaking.Entry>, dropped: set<UserId>): (a: seq<Matchmaking.Entry>)
    ensures |a| <= |players|
    ensures forall p :: p in a <==> p in players && p.userId !in dropped
  {
    if |players| == 0 then []
    else (if players[0].userId in dropped then [] else [players[0]]) + ActiveOf(players[1..], dropped)
  }

  /** Number of roster members who have not dropped. */
  function ActiveCount(s: Session): nat {
    |ActivePlayers(s)|
  }

  /** Every roster member who has not dropped has finished. */
  predicate AllActiveFinished(s: Session) {
    forall i :: 0 <= i < |s.players| && s.players[i].userId !in s.dropped ==>
      s.players[i].userId in s.finished
  }

  /** A roster member's broadcast line: the best-known figures, a finish
      before a drop before live progress before zero. */
  function ViewOf(s: Session, p: Matchmaking.Entry): (v: PlayerView)
    ensures v.userId == p.userId && v.name == p.name
    ensures v.finished <==> p.userId in s.finished
    ensures v.dropped <==> p.userId in s.dropped
    ensures v.dropReason == if p.userId in s.dropped then Some(s.dropped[p.userId].reason) else None
    ensures p.userId in s.finished ==>
      var f := s.finished[p.userId]; v.progress == f.progress && v.wpm == f.wpm && v.accuracy == f.accuracy
    ensures p.userId !in s.finished && p.userId in s.dropped ==>
      var d := s.dropped[p.userId]; v.progress == d.progress && v.wpm == d.wpm && v.accuracy == d.accuracy
    ensures p.userId !in s.finished && p.userId !in s.dropped && p.userId in s.progress ==>
      var l := s.progress[p.userId]; v.progress == l.progress && v.wpm == l.wpm && v.accuracy == l.accuracy
    ensures p.userId !in s.finished && p.userId !in s.dropped && p.userId !in s.progress ==>
      v.progress == 0 && v.wpm == 0 && v.accuracy == 0
  {
    var u := p.userId;
    var live := if u in s.progress then s.progress[u] else Live(0, 0, 0);
    var reason := if u in s.dropped then Some(s.dropped[u].reason) else None;
    if u in s.finished then
      var f := s.finished[u];
      PlayerView(u, p.name, f.progress, f.wpm, f.accuracy, true, u in s.dropped, reason)
    else if u in s.dropped then
      var d := s.dropped[u];
      PlayerView(u, p.name, d.progress, d.wpm, d.accuracy, false, true, reason)
    else
      PlayerView(u, p.name, live.progress, live.wpm, live.accuracy, false, false, None)
  }

  /** The progress broadcast: one line per roster member, in roster order. */
  function ProgressPayload(s: Session): (views: seq<PlayerView>)
    ensures |views| == |s.players|
    ensures forall i :: 0 <= i < |views| ==> views[i] == ViewOf(s, s.players[i])
  {
    seq(|s.players|, i requires 0 <= i < |s.players| => ViewOf(s, s.players[i]))
  }

  // ---------------------------------------------------------------------------
  // Settlement
  // ---------------------------------------------------------------------------

  /** The settlement figures of roster seat i: a finish if there is one,
      otherwise a forfeit if the player dropped, otherwise a time-out with the
      last live figures. */
  function StandingAt(s: Session, i: nat): (e: Ranking.Standing)
    requires i < |s.players|
    ensures e.seat == i && e.userId == s.players[i].userId && e.name == s.players[i].name
    ensures var u := s.players[i].userId;
      u in s.finished ==>
        var f := s.finished[u];
        && e.status == Ranking.Finished
        && e.wpm == f.wpm && e.accuracy == f.accuracy && e.errorCount == f.errorCount
        && e.progress == f.progress && e.timeTaken == f.timeTaken && e.finishedAt == Some(f.finishedAt)
    ensures var u := s.players[i].userId;
      u !in s.finished && u in s.dropped ==>
        var d := s.dropped[u];
        && e.status == Ranking.Forfeited
        && e.wpm == d.wpm && e.accuracy == d.accuracy && e.errorCount == d.errorCount
        && e.progress == d.progress && e.timeTaken == Elapsed(s, d.droppedAt) && e.finishedAt == Some(d.droppedAt)
    ensures var u := s.players[i].userId;
      u !in s.finished && u !in s.dropped ==>
        var l := if u in s.progress then s.progress[u] else Live(0, 0, 0);
        && e.status == Ranking.TimedOut
        && e.wpm == l.wpm && e.accuracy == l.accuracy && e.errorCount == 0
        && e.progress == l.progress && e.timeTaken == s.duration && e.finishedAt.None?
  {
    var p := s.players[i];
    var u := p.userId;
    if u in s.finished then
      var f := s.finished[u];
      Ranking.Standing(i, u, p.name, Ranking.Finished, f.wpm, f.accuracy, f.errorCount,
                       f.progress, f.timeTaken, Some(f.finishedAt))
    else if u in s.dropped then
      var d := s.dropped[u];
      Ranking.Standing(i, u, p.name, Ranking.Forfeited, d.wpm, d.accuracy, d.errorCount,
                       d.progress, Elapsed(s, d.droppedAt), Some(d.droppedAt))
    else
      var live := if u in s.progress then s.progress[u] else Live(0, 0, 0);
      Ranking.Standing(i, u, p.name, Ranking.TimedOut, live.wpm, live.accuracy, 0,
                       live.progress, s.duration, None)
  }

  /** Every roster member's standing, in roster order. */
  function Classify(s: Session): (c: seq<Ranking.Standing>)
    ensures |c| == |s.players|
    ensures forall i :: 0 <= i < |c| ==> c[i] == StandingAt(s, i)
  {
    seq(|s.players|, i requires 0 <= i < |s.players| => StandingAt(s, i))
  }

  /** The ranked results of the session as it stands. */
  function Settle(s: Session): seq<Ranking.Ranked> {
    Ranking.Rank(Classify(s))
  }

  /** Settle the session unless it already is: flip the flag and broadcast
      the results. */
  function Finalize(s: Session): (r: Session)
    ensures s.finalized ==> r == s
    ensures r.finalized
    ensures !s.finalized ==> r == s.(finalized := true, outbox := s.outbox + [Results(Settle(s))])
  {
    if s.finalized then s
    else s.(finalized := true, outbox := s.outbox + [Results(Settle(s))])
  }

  // ---------------------------------------------------------------------------
  // Event handlers
  // ---------------------------------------------------------------------------

  /** The conditions under which a progress report is ignored. */
  predicate ProgressIgnored(s: Session, now: int, u: UserId) {
    s.finalized || now < s.raceStartAt || !InRoster(s, u) || u in s.dropped || u in s.finished
  }

  /** A live progress report from user u. */
  function Progress(s: Session, now: int, u: UserId, progress: Option<int>, wpm: Option<int>,
                    accuracy: Option<int>): (r: Session)
    ensures r == s <==> ProgressIgnored(s, now, u)
    ensures !ProgressIgnored(s, now, u) ==>
      && u in r.progress
      && 0 <= r.progress[u].progress <= 100
      && 0 <= r.progress[u].wpm
      && 0 <= r.progress[u].accuracy <= 100
      && r.progress[u] == Live(Clamp(0, 100, OrElse(progress, 0)), Max(0, OrElse(wpm, 0)),
                               Clamp(0, 100, OrElse(accuracy, 0)))
      && (forall v :: v != u ==> (v in r.progress <==> v in s.progress))
      && (forall v :: v != u && v in s.progress ==> r.progress[v] == s.progress[v])
      && r == s.(progress := r.progress, outbox := r.outbox)
      && r.outbox == s.outbox + [ProgressUpdate(ProgressPayload(s.(progress := r.progress)))]
  {
    if ProgressIgnored(s, now, u) then s
    else
      var live := Live(Clamp(0, 100, OrElse(progress, 0)), Max(0, OrElse(wpm, 0)),
                       Clamp(0, 100, OrElse(accuracy, 0)));
      var s1 := s.(progress := s.progress[u := live]);
      s1.(outbox := s1.outbox + [ProgressUpdate(ProgressPayload(s1))])
  }

  /** The conditions under which a finish is ignored. There is no roster
      check. */
  predicate FinishIgnored(s: Session, now: int, u: UserId) {
    s.finalized || now < s.raceStartAt || u in s.finished || u in s.dropped
  }

  /** The session after recording an accepted finish and broadcasting. */
  function RecordFinish(s: Session, now: int, u: UserId, wpm: Option<int>, accuracy: Option<int>,
                        errorCount: Option<int>, timeTaken: Option<int>): (r: Session)
    ensures u in r.finished && u !in s.finished ==> r.finished.Keys == s.finished.Keys + {u}
    ensures r.dropped == s.dropped && r.players == s.players && r.finalized == s.finalized
    ensures |r.outbox| == |s.outbox| + 1 && r.outbox[..|s.outbox|] == s.outbox
    ensures r.outbox[|s.outbox|].ProgressUpdate?
    ensures u in r.finished
    ensures r.finished[u].progress == 100 && r.finished[u].finishedAt == now
    ensures 1 <= r.finished[u].timeTaken && (s.duration >= 1 ==> r.finished[u].timeTaken <= s.duration)
    ensures 0 <= r.finished[u].wpm && 0 <= r.finished[u].accuracy <= 100 && 0 <= r.finished[u].errorCount
    ensures r.finished[u].wpm == Max(0, OrElse(wpm, 0))
    ensures r.finished[u].accuracy == Clamp(0, 100, OrElse(accuracy, 0))
    ensures r.finished[u].errorCount == Max(0, OrElse(errorCount, 0))
    ensures r.finished[u].timeTaken == Clamp(1, s.duration, OrElse(timeTaken, s.duration))
    ensures r.progress == s.progress[u := Live(100, r.finished[u].wpm, r.finished[u].accuracy)]
    ensures forall v :: v != u ==> (v in r.finished <==> v in s.finished)
    ensures forall v :: v != u && v in s.finished ==> r.finished[v] == s.finished[v]
    ensures r == s.(finished := r.finished, progress := r.progress, outbox := r.outbox)
    ensures r.outbox == s.outbox + [ProgressUpdate(ProgressPayload(s.(finished := r.finished, progress := r.progress)))]
  {
    var entry := FinishRecord(
      100,
      Max(0, OrElse(wpm, 0)),
      Clamp(0, 100, OrElse(accuracy, 0)),
      Max(0, OrElse(errorCount, 0)),
      Max(1, Min(s.duration, OrElse(timeTaken, s.duration))),
      now);
    var s1 := s.(finished := s.finished[u := entry],
                 progress := s.progress[u := Live(100, entry.wpm, entry.accuracy)]);
    s1.(outbox := s1.outbox + [ProgressUpdate(ProgressPayload(s1))])
  }

  /** A finish report from user u: recorded with progress 100 and the time
      clamped to the race duration, broadcast, and the match settled when
      every roster member who has not dropped has now finished. */
  function Finish(s: Session, now: int, u: UserId, wpm: Option<int>, accuracy: Option<int>,
                  errorCount: Option<int>, timeTaken: Option<int>): (r: Session)
    ensures r == s <==> FinishIgnored(s, now, u)
    ensures !FinishIgnored(s, now, u) ==>
      var rec := RecordFinish(s, now, u, wpm, accuracy, errorCount, timeTaken);
      && (r.finalized <==> AllActiveFinished(rec))
      && r == (if AllActiveFinished(rec) then Finalize(rec) else rec)
  {
    if FinishIgnored(s, now, u) then s
    else
      var rec := RecordFinish(s, now, u, wpm, accuracy, errorCount, timeTaken);
      if AllActiveFinished(rec) then Finalize(rec) else rec
  }

  /** The conditions under which a drop is ignored. There is no roster check
      here: the leave and disconnect handlers only reach it for roster
      members. */
  predicate DropIgnored(s: Session, u: UserId) {
    s.finalized || u in s.dropped || u in s.finished
  }

  /** The session after recording an accepted drop and broadcasting. */
  function RecordDrop(s: Session, now: int, u: UserId, reason: DropReason): (r: Session)
    ensures r.finished == s.finished && r.players == s.players && r.progress == s.progress
    ensures r.finalized == s.finalized
    ensures r.dropped.Keys == s.dropped.Keys + {u}
    ensures forall v :: v != u && v in s.dropped ==> r.dropped[v] == s.dropped[v]
    ensures var live := if u in s.progress then s.progress[u] else Live(0, 0, 0);
      r.dropped[u] == DropRecord(reason, now, live.progress, live.wpm, live.accuracy, 0)
    ensures r == s.(dropped := r.dropped, outbox := r.outbox)
    ensures r.outbox == s.outbox + [PlayerStatus(u, reason), ProgressUpdate(ProgressPayload(s.(dropped := r.dropped)))]
  {
    var live := if u in s.progress then s.progress[u] else Live(0, 0, 0);
    var s1 := s.(dropped := s.dropped[u := DropRecord(reason, now, live.progress, live.wpm, live.accuracy, 0)]);
    s1.(outbox := s1.outbox + [PlayerStatus(u, reason), ProgressUpdate(ProgressPayload(s1))])
  }

  /** User u forfeits: the last known figures (zero if none) are kept, the
      forfeit and a progress snapshot are broadcast, and the match is settled
      when at most one roster member has not dropped. */
  function MarkDropped(s: Session, now: int, u: UserId, reason: DropReason): (r: Session)
    ensures r == s <==> DropIgnored(s, u)
    ensures !DropIgnored(s, u) ==>
      var rec := RecordDrop(s, now, u, reason);
      && (r.finalized <==> ActiveCount(rec) <= 1)
      && r == (if ActiveCount(rec) <= 1 then Finalize(rec) else rec)
  {
    if DropIgnored(s, u) then s
    else
      var rec := RecordDrop(s, now, u, reason);
      if ActiveCount(rec) <= 1 then Finalize(rec) else rec
  }

  /** The session after an explicit leave, and whether the leaver is sent
      its acknowledgement. */
  datatype LeaveOutcome = LeaveOutcome(session: Session, acknowledged: bool)

  /** A roster member leaves the match: it forfeits (unless already finished
      or dropped) and is acknowledged; a leave from outside the roster or
      after settlement is ignored. */
  function LeaveMatch(s: Session, now: int, u: UserId): (o: LeaveOutcome)
    ensures o.acknowledged <==> !s.finalized && InRoster(s, u)
    ensures o.acknowledged ==> o.session == MarkDropped(s, now, u, LeftMatch)
    ensures !o.acknowledged ==> o.session == s
  {
    if s.finalized || !InRoster(s, u) then LeaveOutcome(s, false)
    else LeaveOutcome(MarkDropped(s, now, u, LeftMatch), true)
  }

  /** The roster connection of user u closes during the match. Only roster
      connections are attached to the match, so any other user's disconnect
      leaves it untouched; a roster member forfeits as by `MarkDropped`. */
  function Disconnect(s: Session, now: int, u: UserId): (r: Session)
    ensures r == s <==> !InRoster(s, u) || DropIgnored(s, u)
    ensures InRoster(s, u) && !DropIgnored(s, u) ==> u in r.dropped && r.dropped[u].reason == Disconnected
    ensures InRoster(s, u) ==> r == MarkDropped(s, now, u, Disconnected)
  {
    if InRoster(s, u) then MarkDropped(s, now, u, Disconnected) else s
  }

  /** The fallback timer fires. */
  function TimerFire(s: Session): (r: Session)
    ensures r.finalized
    ensures s.finalized ==> r == s
    ensures !s.finalized ==> r.outbox == s.outbox + [Results(Settle(s))]
    ensures !s.finalized ==> r == s.(finalized := true, outbox := r.outbox)
  {
    Finalize(s)
  }

  // ---------------------------------------------------------------------------
  // Runs of events
  // ---------------------------------------------------------------------------

  datatype Event =
    | ProgressEvent(now: int, userId: UserId, progress: Option<int>, wpm: Option<int>, accuracy: Option<int>)
    | FinishEvent(now: int, userId: UserId, wpm: Option<int>, accuracy: Option<int>,
                  errorCount: Option<int>, timeTaken: Option<int>)
    | LeaveEvent(now: int, userId: UserId)
    | DisconnectEvent(now: int, userId: UserId)
    | TimerEvent

  function Step(s: Session, e: Event): Session {
    match e
    case ProgressEvent(now, u, p, w, a) => Progress(s, now, u, p, w, a)
    case FinishEvent(now, u, w, a, c, t) => Finish(s, now, u, w, a, c, t)
    case LeaveEvent(now, u) => LeaveMatch(s, now, u).session
    case DisconnectEvent(now, u) => Disconnect(s, now, u)
    case TimerEvent => TimerFire(s)
  }

  /** Events handled one after another, each atomically. */
  function Run(s: Session, events: seq<Event>): Session
    decreases |events|
  {
    if |events| == 0 then s else Run(Step(s, events[0]), events[1..])
  }

  /** Number of results broadcasts in an outbox. */
  function ResultsCount(out: seq<Outbound>): nat {
    if |out| == 0 then 0 else (if out[0].Results? then 1 else 0) + ResultsCount(out[1..])
  }

  lemma {:induction false} ResultsCountConcat(a: seq<Outbound>, b: seq<Outbound>)
    ensures ResultsCount(a + b) == ResultsCount(a) + ResultsCount(b)
  {
    if |a| > 0 {
      assert (a + b)[1..] == a[1..] + b;
      ResultsCountConcat(a[1..], b);
    } else {
      assert a + b == b;
    }
  }

  /** Appending messages other than results does not change the count. */
  lemma AppendNonResults(out: seq<Outbound>, out': seq<Outbound>)
    requires |out| <= |out'| && out'[..|out|] == out
    requires forall k :: |out| <= k < |out'| ==> !out'[k].Results?
    ensures ResultsCount(out') == ResultsCount(out)
  {
    var extra := out'[|out|..];
    assert out' == out + extra;
    ResultsCountConcat(out, extra);
    NoResults(extra);
  }

  lemma {:induction false} NoResults(out: seq<Outbound>)
    requires forall k :: 0 <= k < |out| ==> !out[k].Results?
    ensures ResultsCount(out) == 0
  {
    if |out| > 0 {
      NoResults(out[1..]);
    }
  }

  /** The session invariant: no player both finished and dropped, the roster
      has distinct users, and results were broadcast once if the session is
      settled and never otherwise. */
  predicate Valid(s: Session) {
    && s.finished.Keys !! s.dropped.Keys
    && Matchmaking.DistinctUsers(s.players)
    && ResultsCount(s.outbox) == (if s.finalized then 1 else 0)
  }

  lemma FinalizeValid(s: Session)
    requires s.finished.Keys !! s.dropped.Keys && Matchmaking.DistinctUsers(s.players)
    requires ResultsCount(s.outbox) == (if s.finalized then 1 else 0)
    ensures Valid(Finalize(s))
  {
    if !s.finalized {
      ResultsCountConcat(s.outbox, [Results(Settle(s))]);
      assert [Results(Settle(s))][1..] == [];
    }
  }

  /** Every event keeps the session invariant; the outbox only grows. */
  lemma StepValid(s: Session, e: Event)
    requires Valid(s)
    ensures Valid(Step(s, e))
    ensures |s.outbox| <= |Step(s, e).outbox| && Step(s, e).outbox[..|s.outbox|] == s.outbox
  {
    match e
    case ProgressEvent(now, u, p, w, a) =>
      AppendNonResults(s.outbox, Progress(s, now, u, p, w, a).outbox);
    case FinishEvent(now, u, w, a, c, t) =>
      FinishValid(s, now, u, w, a, c, t);
    case LeaveEvent(now, u) =>
      if !s.finalized && InRoster(s, u) {
        DropValid(s, now, u, LeftMatch);
      }
    case DisconnectEvent(now, u) =>
      if InRoster(s, u) {
        DropValid(s, now, u, Disconnected);
      }
    case TimerEvent =>
      FinalizeValid(s);
      assert TimerFire(s).outbox[..|s.outbox|] == s.outbox;
  }

  lemma FinishValid(s: Session, now: int, u: UserId, wpm: Option<int>, accuracy: Option<int>,
                    errorCount: Option<int>, timeTaken: Option<int>)
    requires Valid(s)
    ensures var r := Finish(s, now, u, wpm, accuracy, errorCount, timeTaken);
      Valid(r) && |s.outbox| <= |r.outbox| && r.outbox[..|s.outbox|] == s.outbox
  {
    if !FinishIgnored(s, now, u) {
      var rec := RecordFinish(s, now, u, wpm, accuracy, errorCount, timeTaken);
      AppendNonResults(s.outbox, rec.outbox);
      FinalizeValid(rec);
      assert Finalize(rec).outbox[..|s.outbox|] == s.outbox;
    }
  }

  lemma DropValid(s: Session, now: int, u: UserId, reason: DropReason)
    requires Valid(s)
    ensures Valid(MarkDropped(s, now, u, reason))
    ensures |s.outbox| <= |MarkDropped(s, now, u, reason).outbox|
    ensures MarkDropped(s, now, u, reason).outbox[..|s.outbox|] == s.outbox
  {
    if !DropIgnored(s, u) {
      var rec := RecordDrop(s, now, u, reason);
      AppendNonResults(s.outbox, rec.outbox);
      FinalizeValid(rec);
      assert Finalize(rec).outbox[..|s.outbox|] == s.outbox;
    }
  }

  /** Over any run of events the invariant holds, so the results are
      broadcast at most once, and exactly once when the session ends up
      settled. */
  lemma {:induction false} RunValid(s: Session, events: seq<Event>)
    requires Valid(s)
    ensures Valid(Run(s, events))
    ensures ResultsCount(Run(s, events).outbox) <= 1
    ensures ResultsCount(Run(s, events).outbox) == 1 <==> Run(s, events).finalized
    decreases |events|
  {
    if |events| > 0 {
      StepValid(s, events[0]);
      RunValid(Step(s, events[0]), events[1..]);
    }
  }

  /** A settled session ignores every later event. */
  lemma {:induction false} FinalizedIsFrozen(s: Session, events: seq<Event>)
    requires s.finalized
    ensures Run(s, events) == s
  {
    if |events| > 0 {
      assert Step(s, events[0]) == s;
      FinalizedIsFrozen(s, events[1..]);
    }
  }

  // ---------------------------------------------------------------------------
  // Properties of the handlers
  // ---------------------------------------------------------------------------

  /** After an accepted finish, a second finish by the same player, whatever
      it reports and whenever it arrives, changes nothing. */
  lemma FinishIdempotent(s: Session, now: int, u: UserId, wpm: Option<int>, accuracy: Option<int>,
                         errorCount: Option<int>, timeTaken: Option<int>,
                         later: int, wpm': Option<int>, accuracy': Option<int>,
                         errorCount': Option<int>, timeTaken': Option<int>)
    requires !FinishIgnored(s, now, u)
    ensures var r := Finish(s, now, u, wpm, accuracy, errorCount, timeTaken);
      Finish(r, later, u, wpm', accuracy', errorCount', timeTaken') == r
  {
    var r := Finish(s, now, u, wpm, accuracy, errorCount, timeTaken);
    assert u in r.finished;
  }

  /** An accepted drop snapshot carries the last live figures, zero when the
      player never reported. */
  lemma DropSnapshot(s: Session, now: int, u: UserId, reason: DropReason)
    requires !DropIgnored(s, u)
    ensures var r := MarkDropped(s, now, u, reason);
      && u in r.dropped
      && r.dropped[u].reason == reason && r.dropped[u].droppedAt == now
      && r.dropped[u].errorCount == 0
      && (u in s.progress ==>
            r.dropped[u].progress == s.progress[u].progress
            && r.dropped[u].wpm == s.progress[u].wpm
            && r.dropped[u].accuracy == s.progress[u].accuracy)
      && (u !in s.progress ==>
            r.dropped[u].progress == 0 && r.dropped[u].wpm == 0 && r.dropped[u].accuracy == 0)
  {
  }

  /** Each roster member gets exactly one status: finished if it has a
      finish, forfeited if it dropped without finishing, timed out otherwise;
      a forfeiter's time lies in [1, duration], a player who timed out is
      charged the whole duration and zeros when it never reported. */
  lemma ClassifySpec(s: Session, i: nat)
    requires i < |s.players| && s.raceStartAt != 0 && s.duration >= 1
    ensures var e := Classify(s)[i]; var u := s.players[i].userId;
      && (e.status == Ranking.Finished <==> u in s.finished)
      && (e.status == Ranking.Forfeited <==> u !in s.finished && u in s.dropped)
      && (e.status == Ranking.TimedOut <==> u !in s.finished && u !in s.dropped)
      && (e.status == Ranking.Forfeited ==> 1 <= e.timeTaken <= s.duration)
      && (e.status == Ranking.TimedOut ==> e.timeTaken == s.duration && e.errorCount == 0 && e.finishedAt.None?)
      && (e.status == Ranking.TimedOut && u !in s.progress ==> e.wpm == 0 && e.accuracy == 0 && e.progress == 0)
  {
  }

  /** The figures broadcast for each roster member are the figures it is
      settled with, and the flags agree with its settled status. */
  lemma PayloadMatchesSettlement(s: Session, i: nat)
    requires Valid(s) && i < |s.players|
    ensures var v := ProgressPayload(s)[i]; var e := Classify(s)[i];
      && v.userId == e.userId
      && v.progress == e.progress && v.wpm == e.wpm && v.accuracy == e.accuracy
      && (v.finished <==> e.status == Ranking.Finished)
      && (v.dropped <==> e.status == Ranking.Forfeited)
  {
  }

  /** Classification reads the roster only: records of users outside it do
      not affect the settlement. */
  lemma OutsiderFinishIgnoredBySettlement(s: Session, now: int, u: UserId, wpm: Option<int>,
                                          accuracy: Option<int>, errorCount: Option<int>,
                                          timeTaken: Option<int>)
    requires !InRoster(s, u) && !FinishIgnored(s, now, u)
    ensures var rec := RecordFinish(s, now, u, wpm, accuracy, errorCount, timeTaken);
      && Classify(rec) == Classify(s)
      && (AllActiveFinished(rec) <==> AllActiveFinished(s))
  {
    var rec := RecordFinish(s, now, u, wpm, accuracy, errorCount, timeTaken);
    forall i | 0 <= i < |s.players| ensures StandingAt(rec, i) == StandingAt(s, i) {
      assert s.players[i].userId != u;
    }
    assert forall i :: 0 <= i < |s.players| ==> s.players[i].userId != u;
  }

  /** Once the roster's finished players equal those not dropped, a finish
      from outside the roster settles the match, with unchanged results. */
  lemma OutsiderFinishSettles(s: Session, now: int, u: UserId)
    requires !InRoster(s, u) && !FinishIgnored(s, now, u) && AllActiveFinished(s)
    ensures var r := Finish(s, now, u, None, None, None, None);
      r.finalized && r.outbox[|r.outbox| - 1] == Results(Settle(s))
  {
    OutsiderFinishIgnoredBySettlement(s, now, u, None, None, None, None);
  }

  /** A three-player race in which two have finished and the third drops is
      not settled by the drop: two players remain who have not dropped, so
      the session waits for the fallback timer although nobody is left
      racing. */
  lemma DropLeavingOnlyFinishersWaits()
    ensures var a := Matchmaking.Entry("sa", "a", "A");
      var b := Matchmaking.Entry("sb", "b", "B");
      var c := Matchmaking.Entry("sc", "c", "C");
      var f := FinishRecord(100, 50, 90, 0, 30, 2000);
      var s := Session("m", Matchmaking.Easy, "text", 60, 4, 3, 1000, 69000, [a, b, c],
                       map[], map["a" := f, "b" := f], map[], false, []);
      var r := MarkDropped(s, 5000, "c", LeftMatch);
      !r.finalized && AllActiveFinished(r) && ActiveCount(r) == 2
  {
    var a := Matchmaking.Entry("sa", "a", "A");
    var b := Matchmaking.Entry("sb", "b", "B");
    var c := Matchmaking.Entry("sc", "c", "C");
    var f := FinishRecord(100, 50, 90, 0, 30, 2000);
    var s := Session("m", Matchmaking.Easy, "text", 60, 4, 3, 1000, 69000, [a, b, c],
                     map[], map["a" := f, "b" := f], map[], false, []);
    var rec := RecordDrop(s, 5000, "c", LeftMatch);
    assert "a" != "c" && "b" != "c" && "a" != "b";
    assert !DropIgnored(s, "c");
    assert rec.players == [a, b, c] && rec.dropped.Keys == {"c"};
    assert ActiveCount(rec) == 2 by {
      assert [a, b, c][1..] == [b, c] && [b, c][1..] == [c] && [c][1..] == [];
      assert ActiveOf([c], {"c"}) == [];
      assert ActiveOf([b, c], {"c"}) == [b];
      assert ActiveOf([a, b, c], {"c"}) == [a, b];
    }
    assert MarkDropped(s, 5000, "c", LeftMatch) == rec;
    assert AllActiveFinished(rec);
  }

  // ---------------------------------------------------------------------------
  // Match formation
  // ---------------------------------------------------------------------------

  /** The race text chosen for a match; the choice itself is outside the
      model. */
  datatype RaceText = RaceText(text: string, duration: int)

  /** Result of trying to form a match from a drawn quorum. The error
      outcomes carry the connections that are told about the failure. */
  datatype Formation =
    | NoRaceText(notified: seq<SocketId>)
    | TooFewPlayers(notified: seq<SocketId>)
    | Formed(session: Session)

  /** The candidates whose connection is still live, in order. */
  function LiveCandidates(candidates: seq<Matchmaking.Entry>, live: set<SocketId>): (r: seq<Matchmaking.Entry>)
    ensures |r| <= |candidates|
    ensures forall e :: e in r <==> e in candidates && e.socketId in live
    ensures Matchmaking.IsSubseq(r, candidates)
  {
    if |candidates| == 0 then []
    else if candidates[0].socketId in live then
      var rest := LiveCandidates(candidates[1..], live);
      assert candidates == [candidates[0]] + candidates[1..];
      [candidates[0]] + rest
    else
      var rest := LiveCandidates(candidates[1..], live);
      Matchmaking.SubseqSkip(rest, candidates);
      rest
  }

  function SocketsOf(entries: seq<Matchmaking.Entry>): (ids: seq<SocketId>)
    ensures |ids| == |entries|
    ensures forall i :: 0 <= i < |ids| ==> ids[i] == entries[i].socketId
  {
    seq(|entries|, i requires 0 <= i < |entries| => entries[i].socketId)
  }

  /** Form a match from a drawn quorum at instant `now`: without a race text
      every live candidate is told; with fewer than two live candidates those
      are told; otherwise the live candidates become the roster, the realised
      player limit is their number, the race starts after the countdown and
      the fallback timer is due after countdown, duration and grace. */
  function FormMatch(matchId: string, difficulty: Matchmaking.Difficulty,
                     candidates: seq<Matchmaking.Entry>, requestedPlayerLimit: int,
                     live: set<SocketId>, pick: Option<RaceText>, now: int): (f: Formation)
    ensures pick.None? <==> f.NoRaceText?
    ensures f.NoRaceText? ==> f.notified == SocketsOf(LiveCandidates(candidates, live))
    ensures f.TooFewPlayers? <==> pick.Some? && |LiveCandidates(candidates, live)| < 2
    ensures f.TooFewPlayers? ==> f.notified == SocketsOf(LiveCandidates(candidates, live))
    ensures f.Formed? ==>
      var s := f.session;
      && s.players == LiveCandidates(candidates, live)
      && 2 <= s.playerLimit == |s.players| <= |candidates|
      && s.requestedPlayerLimit == requestedPlayerLimit
      && s.duration == pick.value.duration && s.text == pick.value.text
      && s.raceStartAt == now + CountdownSeconds * 1000
      && s.fallbackAt == now + (CountdownSeconds + s.duration + GraceSeconds) * 1000
      && s.progress == map[] && s.finished == map[] && s.dropped == map[]
      && !s.finalized
      && s.id == matchId && s.difficulty == difficulty
      && s.outbox == [MatchFound(s.players, s.duration, s.playerLimit, requestedPlayerLimit, s.raceStartAt)]
      && (Matchmaking.DistinctUsers(candidates) ==> Valid(s))
  {
    var active := LiveCandidates(candidates, live);
    if pick.None? then
      NoRaceText(SocketsOf(active))
    else if |active| < 2 then
      TooFewPlayers(SocketsOf(active))
    else
      var raceStartAt := now + CountdownSeconds * 1000;
      var duration := pick.value.duration;
      DistinctLive(candidates, live);
      Formed(Session(matchId, difficulty, pick.value.text, duration, requestedPlayerLimit, |active|,
                     raceStartAt, now + (CountdownSeconds + duration + GraceSeconds) * 1000, active,
                     map[], map[], map[], false,
                     [MatchFound(active, duration, |active|, requestedPlayerLimit, raceStartAt)]))
  }

  /** Keeping only live candidates keeps users distinct. */
  lemma {:induction false} DistinctLive(candidates: seq<Matchmaking.Entry>, live: set<SocketId>)
    ensures Matchmaking.DistinctUsers(candidates) ==> Matchmaking.DistinctUsers(LiveCandidates(candidates, live))
  {
    if |candidates| > 0 && Matchmaking.DistinctUsers(candidates) {
      var tail := candidates[1..];
      assert Matchmaking.DistinctUsers(tail) by {
        forall i, j | 0 <= i < j < |tail| ensures tail[i].userId != tail[j].userId {
          assert tail[i] == candidates[i + 1] && tail[j] == candidates[j + 1];
        }
      }
      DistinctLive(tail, live);
      var rest := LiveCandidates(tail, live);
      forall e | e in rest ensures e.userId != candidates[0].userId {
        var k :| 0 <= k < |tail| && tail[k] == e;
        assert candidates[k + 1] == e;
      }
    }
  }

  /** A quorum of four in which one connection has gone away forms a match
      of three, below the requested limit. */
  lemma ThreePlayerMatch()
    ensures var q := [Matchmaking.Entry("s1", "u1", "A"), Matchmaking.Entry("s2", "u2", "B"),
                      Matchmaking.Entry("s3", "u3", "C"), Matchmaking.Entry("s4", "u4", "D")];
      var f := FormMatch("m", Matchmaking.Hard, q, 4, {"s1", "s2", "s4"}, Some(RaceText("t", 60)), 0);
      f.Formed? && f.session.playerLimit == 3 && f.session.requestedPlayerLimit == 4
      && f.session.fallbackAt == 68000
  {
    var q := [Matchmaking.Entry("s1", "u1", "A"), Matchmaking.Entry("s2", "u2", "B"),
              Matchmaking.Entry("s3", "u3", "C"), Matchmaking.Entry("s4", "u4", "D")];
    var live: set<SocketId> := {"s1", "s2", "s4"};
    assert "s3" !in live;
    assert q[1..][1..][1..][1..] == [];
    assert LiveCandidates(q[1..][1..][1..], live) == [q[3]];
    assert LiveCandidates(q[1..][1..], live) == [q[3]];
    assert LiveCandidates(q[1..], live) == [q[1], q[3]];
    assert LiveCandidates(q, live) == [q[0], q[1], q[3]];
  }

  /** A settled session's results rank its roster as the ranking rules say. */
  lemma SettledResults(s: Session)
    requires Valid(s)
    ensures Ranking.RosterStandings(Classify(s))
    ensures var r := Settle(s);
      && |r| == |s.players|
      && multiset(Ranking.Standings(r)) == multiset(Classify(s))
      && Ranking.Ordered(Ranking.Standings(r))
      && (forall i :: 0 <= i < |r| ==> r[i].placement == i + 1)
      && (forall i :: 0 <= i < |r| && r[i].standing.status == Ranking.Forfeited ==> r[i].points == -Ranking.ForfeitPenalty)
  {
    var c := Classify(s);
    assert Ranking.SeatsIncreasing(c);
    forall i, j | 0 <= i < j < |c| ensures c[i].userId != c[j].userId {
      assert c[i].userId == s.players[i].userId && c[j].userId == s.players[j].userId;
    }
    Ranking.RankSpec(c);
  }
}
