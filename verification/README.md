# Tournament engine of the typing-race server, in Dafny

This project models the part of the typing-race server that runs tournaments.
Players queue for a race mode, a difficulty and a match size. Once a queue
holds enough distinct players a match is formed. The match session then takes
progress, finish, leave and disconnect events and a fallback timer. It settles
exactly once, with a ranking, points and a winner, and each player's stored
point total, tier and win/loss counters absorb the result. Two further pieces
are modelled too: the tier ladder that the engine uses for point totals, and,
from the authentication side, the parser for the refresh-token lifetime
setting.

Modules, one per concern of the source:

- `Options`: optional values (`null`/`undefined` versus a present value).
- `Tier`: the tier ladder of `src/utils/tier.js`.
- `RefreshDuration`: the lifetime parser `durationToMs` of `src/controllers/auth.controller.js`.
- `Matchmaking`: the queue registry of `src/sockets/tournamentSocket.js`.
  - Input normalisation.
  - Removal by connection and by user.
  - The quorum draw.
  - The join and leave-queue handlers.
- `Ranking`: settlement.
  - The comparator and the stable sort it drives.
  - Placements, points and the winner.
  - The per-user aggregate update.
- `MatchSession`: one match as a state machine.
  - Formation from a drawn quorum.
  - The progress, finish, leave, disconnect and timer handlers.
  - The progress broadcast.
  - Classification into finished, timed-out and forfeited standings.
  - The exactly-once settlement guard.

How the model is shaped:

- **Broadcasts.** Room broadcasts go to an outbox in the session.
  "Settlement happens exactly once" is then a statement about the number of
  `Results` messages in the outbox, proved for every run of events
  (`MatchSession.RunValid`).
- **Time and choices.** Time, the live-connection set and the chosen race
  text are parameters. The fallback timer is an event of its own.
- **Sort stability.** Each standing carries its roster seat. "`a` ranks ahead
  of `b`" (`Ranking.Precedes`) means the comparator puts `a` first, or cannot
  tell the two apart and `a` sits earlier in the roster.

Two behaviours of the source a reader might not expect:

- **Finish roster check.** The finish handler (`tournamentSocket.js:567-600`)
  does not check that the sender is on the roster, unlike the progress
  handler. The model's `FinishIgnored` has no roster check either. A finish
  from outside the roster is recorded but never reaches the settlement
  figures (`MatchSession.OutsiderFinishIgnoredBySettlement`). If every
  remaining roster member has already finished, that outside finish settles
  the match (`MatchSession.OutsiderFinishSettles`).
- **Drop leaving only finishers.** A drop settles the match only when at most
  one roster member has not dropped. So a drop that leaves two finished
  players does not settle it, and the session waits for the fallback timer
  (`MatchSession.DropLeavingOnlyFinishersWaits`).

## Model

| member | source | states |
|---|---|---|
| Tier.CalculateTier | src/utils/tier.js:1-7 | the tier is the rung of the ladder BRONZE..DIAMOND indexed by how many of the thresholds 100, 250, 500, 900 the total has reached, so its weight is between 1 and 5 |
| Tier.TierBand | src/utils/tier.js:1-7 | a total is in band i exactly when it reached the threshold below that band and not the one above it (both directions) |
| Tier.TierMonotone | src/utils/tier.js:1-7 | more points never give a lower tier |
| Tier.TierWeight | src/utils/tier.js:9-19 | each ladder name weighs its 1-based rung; any other string weighs 0 (for the strings a user's stored tier can hold; see Left out) |
| RefreshDuration.MatchPattern | src/controllers/auth.controller.js:7 | the pattern matches exactly the texts made of one or more decimal digits followed by one of m, h, d, and the two groups spell the whole text |
| RefreshDuration.DurationToMs | src/controllers/auth.controller.js:6-14 | a malformed setting yields thirty days; a well-formed one yields its count times the length of a minute, hour or day |
| RefreshDuration.DecimalRoundTrip | src/controllers/auth.controller.js:9 | any count written out in decimal is read back as that count |
| RefreshDuration.SettingRoundTrip | src/controllers/auth.controller.js:9-13 | every count written with a unit letter is parsed back to count x 60000, x 3600000 or x 86400000 |
| RefreshDuration.DefaultIsFallback | src/controllers/auth.controller.js:6-17 | the default setting "30d" gives the same 2592000000 ms as the malformed fallback |
| RefreshDuration.MalformedExamples | src/controllers/auth.controller.js:7-8 | empty text, signs, blanks, other units and trailing characters all fall back |
| Matchmaking.ParseDifficulty | src/sockets/tournamentSocket.js:28 | a name is recognised exactly when it is the name of one of EASY, MEDIUM, HARD |
| Matchmaking.ToUpper | src/sockets/tournamentSocket.js:27 | upper-casing keeps the length and maps every character on its own |
| Matchmaking.NormalizeDifficulty | src/sockets/tournamentSocket.js:26-29 | the difficulty the upper-cased request names, and EASY when it names none or is missing |
| Matchmaking.NormalizePlayerLimit | src/sockets/tournamentSocket.js:31-34 | the limit is always 2 or 4, and it is 2 exactly when 2 was requested |
| Matchmaking.Without | src/sockets/tournamentSocket.js:86-90 | an entry survives exactly when it was in the queue and its user is not among the removed ones |
| Matchmaking.DedupSpec | src/sockets/tournamentSocket.js:77-84 | the reference first-entry-per-user list has distinct users, the same users as the queue, and is a subsequence of it |
| Matchmaking.DedupOfDistinct | src/sockets/tournamentSocket.js:77-84 | a queue without repeated users is its own first-entry-per-user list |
| Matchmaking.ShiftSelects | src/sockets/tournamentSocket.js:77-84 | the selection loop appends to what it holds the first new distinct users in queue order, up to the limit |
| Matchmaking.ShiftConsumes | src/sockets/tournamentSocket.js:77-84 | the loop leaves a suffix of the queue, every entry it consumed belongs to a selected user, and it stops short of the limit only when the queue ran out |
| Matchmaking.TakeUniqueCandidates | src/sockets/tournamentSocket.js:73-98 | a successful draw returns the first `limit` distinct users and strips all their entries from the queue; a failed draw leaves the first entry of each user in order |
| Matchmaking.DrawProperties | src/sockets/tournamentSocket.js:73-98 | drawn candidates are distinct users taken in queue order, none of them stays behind, the remaining queue is a subsequence of the old one, and after a failed draw it has no repeated users |
| Matchmaking.EnsureQueue | src/sockets/tournamentSocket.js:36-46 | afterwards a queue for the mode exists; the registry is unchanged or gains one empty queue at its end; keys stay distinct and nobody's slot count changes |
| Matchmaking.RemoveFromQueue | src/sockets/tournamentSocket.js:48-58 | removal reports true exactly when some queue held the connection; it then takes out exactly one entry, and otherwise changes nothing; queues only lose entries |
| Matchmaking.RemoveFromQueueFirst | src/sockets/tournamentSocket.js:48-58 | the entry taken out is the connection's first entry in the first queue, in registry order, that holds it; the registry is otherwise unchanged |
| Matchmaking.RemoveUserFromQueues | src/sockets/tournamentSocket.js:60-71 | afterwards the user holds no slot, every other user keeps every slot, and the flag says whether the user held any |
| Matchmaking.Push | src/sockets/tournamentSocket.js:491-496 | the mode's queue (created empty if missing) becomes the old queue with the entry appended; its user gains exactly one slot, nobody else any |
| Matchmaking.Admit | src/sockets/tournamentSocket.js:485-496 | after admission the user holds exactly one slot, the last of its mode's queue; nobody else gains a slot, and when the connection's entries carry its own user nobody else loses one either |
| Matchmaking.DrawIfFull | src/sockets/tournamentSocket.js:506-511 | a quorum is drawn exactly when the queue holds at least `limit` entries and `limit` distinct users; it is the queue's first `limit` distinct users in order, and their entries leave the queue; a failed draw leaves each user's first entry; the other queues are untouched |
| Matchmaking.Join | src/sockets/tournamentSocket.js:483-516 | the reported difficulty and limit are the normalised request, the limit is 2 or 4, the position equals the queue depth and is at least 1, and drawn candidates are exactly `limit` distinct users |
| Matchmaking.JoinQueue | src/sockets/tournamentSocket.js:488-507 | the reported depth is the length of the mode's queue (after clearing the connection and its user) with the joiner appended, and a quorum is drawn exactly when that queue reaches the limit and holds `limit` distinct users |
| Matchmaking.JoinDraws | src/sockets/tournamentSocket.js:491-511 | the drawn quorum is that queue's first `limit` distinct users and their entries leave it; a failed draw keeps each user's first entry; below the limit the queue stays as appended |
| Matchmaking.JoinKeepsJoinerLast | src/sockets/tournamentSocket.js:491-511 | unless drawn into the new match, the joiner waits last in the queue of its normalised mode |
| Matchmaking.JoinCountsUser | src/sockets/tournamentSocket.js:488-511 | after a join the user holds one slot unless drawn into the match; nobody waits twice if nobody did before, and then a quorum is drawn exactly when the queue reached the limit |
| Matchmaking.LeaveQueue | src/sockets/tournamentSocket.js:518-520 | leaving removes every slot of the user, queues only lose entries, nobody gains a slot, and when the connection's entries carry its own user no other user loses one; the registry invariant is kept |
| Ranking.NameCompareAntisymmetric | src/sockets/tournamentSocket.js:222 | the name order is antisymmetric and returns 0 only for equal names |
| Ranking.CompareAntisymmetric | src/sockets/tournamentSocket.js:206-223 | swapping the arguments of the comparator flips its sign |
| Ranking.CompareTransitive | src/sockets/tournamentSocket.js:206-223 | the comparator is transitive, strictly when one step is strict |
| Ranking.PrecedesTotal | src/sockets/tournamentSocket.js:206-223 | with the roster order as final tie-break, of two standings exactly one ranks ahead |
| Ranking.InsertOrdered | src/sockets/tournamentSocket.js:206 | inserting a later-seated standing into an ordered list adds it once and keeps the list ordered |
| Ranking.SortStandings | src/sockets/tournamentSocket.js:206-223 | the stable sort is a permutation, and from roster order it yields ranking order |
| Ranking.OrderedUnique | src/sockets/tournamentSocket.js:206-223 | two lists of the same standings that are both in ranking order are equal, so the sorted result is determined |
| Ranking.OrderedStatuses | src/sockets/tournamentSocket.js:207-210 | in ranking order finishers precede players who timed out, and those precede forfeiters |
| Ranking.OrderedForfeiters | src/sockets/tournamentSocket.js:212-216 | among forfeiters a later drop ranks ahead, equal drop instants keep roster order |
| Ranking.OrderedPerformers | src/sockets/tournamentSocket.js:218-222 | within one other status: wpm descending, then accuracy descending, progress descending, time ascending, name ascending |
| Ranking.FirstActive | src/sockets/tournamentSocket.js:225-226 | there is a first non-forfeiter exactly when someone did not forfeit, and it is one of the standings |
| Ranking.PlaceSpec | src/sockets/tournamentSocket.js:228-245 | entry i gets place index+i+1, the penalty if it forfeited, otherwise the row's points at the number of non-forfeiters before it, and the winner flag iff its user is the winner |
| Ranking.ActivePointsTotal | src/sockets/tournamentSocket.js:19-24 | with 1 to 4 non-forfeiters their points add up to 10, 15, 19 or 20 |
| Ranking.SortActive | src/sockets/tournamentSocket.js:225-227 | sorting does not change how many players did not forfeit, so the row is chosen by the roster's count |
| Ranking.RankEntry | src/sockets/tournamentSocket.js:225-245 | ranked entry i is the i-th sorted standing, placed i+1, with the penalty or the row's points for place i, and won iff i = 0 and it did not forfeit |
| Ranking.RankSpec | src/sockets/tournamentSocket.js:206-245 | the ranking lists every standing once in ranking order with places 1..n, the penalty for forfeiters, the row's points in order for the others, and the win flag only on a non-forfeited first entry |
| Ranking.OneWinner | src/sockets/tournamentSocket.js:226-243 | a settled match has exactly one winner when the top entry did not forfeit, and none otherwise |
| Ranking.ApplyResult | src/sockets/tournamentSocket.js:283-298 | the point total moves by the points earned but never below 0, the tier follows the new total, one more tournament is counted, as a win exactly when the result won and as a loss exactly when it did not; neither counter ever decreases |
| Ranking.SettleUsers | src/sockets/tournamentSocket.js:249-299 | settling never adds or removes stored users |
| Ranking.SettleUsersSpec | src/sockets/tournamentSocket.js:249-299 | with one result per user, each stored user with a result has exactly that result applied once, the others are unchanged, and missing users are skipped |
| MatchSession.OrElse | src/sockets/tournamentSocket.js:556-558 | a missing, non-numeric or zero payload number reads as the fallback, any other number as itself |
| MatchSession.Clamp | src/sockets/tournamentSocket.js:556-558 | the value forced into [lo, hi]: unchanged when already inside, lo when below, hi when above |
| MatchSession.RoundSeconds | src/sockets/tournamentSocket.js:126 | rounding milliseconds to seconds stays within half a second |
| MatchSession.Elapsed | src/sockets/tournamentSocket.js:117-128 | time used is the duration without a start instant, 1 up to the start, after the start exactly the seconds since the start rounded to the nearest whole second and clamped to [1, duration]; always within [1, duration] |
| MatchSession.ElapsedMonotone | src/sockets/tournamentSocket.js:117-128 | a later instant never uses less race time |
| MatchSession.ActivePlayers | src/sockets/tournamentSocket.js:130-132 | the active players are exactly the roster members who have not dropped |
| MatchSession.ViewOf | src/sockets/tournamentSocket.js:134-150 | a player's broadcast line carries its id and name, is flagged finished or dropped exactly when it has such a record, carries the drop reason, and shows the finish figures if finished, else the drop figures if dropped, else the last live report, else zeros |
| MatchSession.ProgressPayload | src/sockets/tournamentSocket.js:134-150 | one line per roster member, in roster order |
| MatchSession.StandingAt | src/sockets/tournamentSocket.js:160-204 | seat i's standing carries its roster position, id and name; a finisher gets its finish record's figures, time and instant; a dropped player is forfeited with its drop figures, the race time used up to the drop and the drop instant; anyone else timed out with the live figures or zeros, no errors, the full duration and no instant |
| MatchSession.Classify | src/sockets/tournamentSocket.js:160-204 | one standing per roster member, in roster order |
| MatchSession.ClassifySpec | src/sockets/tournamentSocket.js:160-204 | each member gets exactly one status: finished with a finish, forfeited with a drop but no finish, timed out otherwise; a forfeiter's time lies in [1, duration]; a timed-out player is charged the full duration, and zeros if it never reported |
| MatchSession.PayloadMatchesSettlement | src/sockets/tournamentSocket.js:134-204 | the broadcast figures of each member are the figures it is settled with, and its flags agree with its settled status |
| MatchSession.Finalize | src/sockets/tournamentSocket.js:152-158 | a settled session is left as it is; an unsettled one is flagged settled and broadcasts the ranking once |
| MatchSession.Progress | src/sockets/tournamentSocket.js:548-565 | a report is ignored exactly when the session is settled, the race has not started, the sender is off the roster, or has finished or dropped; otherwise the sender's live entry becomes the reported progress and accuracy clamped to [0, 100] and the wpm floored at 0 (missing values as 0), no other entry changes, and one snapshot is broadcast |
| MatchSession.RecordFinish | src/sockets/tournamentSocket.js:574-593 | the finish has progress 100 and the event time; wpm and errors are floored at 0 and accuracy clamped to [0, 100] (missing values as 0); the time taken is the reported one, or the duration when missing, clamped to [1, duration]; the live entry shows 100 with the same figures; other players' records and every other session field are untouched, and exactly the snapshot of the updated session is broadcast |
| MatchSession.Finish | src/sockets/tournamentSocket.js:567-600 | a finish is ignored exactly when the session is settled, the race has not started, or the sender has finished or dropped; an accepted one settles the session exactly when every member who has not dropped has finished |
| MatchSession.FinishIdempotent | src/sockets/tournamentSocket.js:572 | a second finish by the same player changes nothing, whatever it reports |
| MatchSession.RecordDrop | src/sockets/tournamentSocket.js:326-347 | the drop record adds the user to the dropped set, leaves other drops untouched, and broadcasts the forfeit then a snapshot |
| MatchSession.MarkDropped | src/sockets/tournamentSocket.js:317-355 | a drop is ignored exactly when the session is settled or the user has finished or dropped; an accepted one settles the session exactly when at most one member has not dropped |
| MatchSession.DropSnapshot | src/sockets/tournamentSocket.js:326-335 | the forfeit snapshot holds the last live figures, zeros when the player never reported, no errors, and the drop instant |
| MatchSession.LeaveMatch | src/sockets/tournamentSocket.js:528-546 | a leave is acknowledged exactly when the session is unsettled and the sender is on the roster, and then it is the left-match drop |
| MatchSession.Disconnect | src/sockets/tournamentSocket.js:602-617 | a disconnect from outside the roster, or one a drop would ignore, changes nothing; the roster connection's disconnect is exactly the forfeit with the disconnect reason, settling the match when at most one member has not dropped |
| MatchSession.TimerFire | src/sockets/tournamentSocket.js:443-447 | the timer always leaves the session settled; if it was not settled already it broadcasts the ranking once and changes nothing else |
| MatchSession.FinalizeValid | src/sockets/tournamentSocket.js:152-158 | settling keeps the session invariant |
| MatchSession.StepValid | src/sockets/tournamentSocket.js:152-158 | every event keeps the invariant (finished and dropped disjoint, distinct roster, results broadcast once iff settled), and the outbox only grows |
| MatchSession.RunValid | src/sockets/tournamentSocket.js:152-158 | over any run of events results are broadcast at most once, and exactly once iff the session is settled |
| MatchSession.FinalizedIsFrozen | src/sockets/tournamentSocket.js:154-155 | once settled, a session ignores every later event |
| MatchSession.OutsiderFinishIgnoredBySettlement | src/sockets/tournamentSocket.js:567-600 | a finish from outside the roster changes neither the standings nor whether every remaining member has finished |
| MatchSession.OutsiderFinishSettles | src/sockets/tournamentSocket.js:595-599 | when every remaining member has finished, an outside finish settles the match with unchanged results |
| MatchSession.DropLeavingOnlyFinishersWaits | src/sockets/tournamentSocket.js:349-352 | in a three-player race with two finishers, the third player's drop leaves the session unsettled although every active player has finished |
| MatchSession.LiveCandidates | src/sockets/tournamentSocket.js:367 | the live candidates are exactly the candidates with a live connection, in their order |
| MatchSession.DistinctLive | src/sockets/tournamentSocket.js:367 | keeping only live candidates keeps users distinct |
| MatchSession.FormMatch | src/sockets/tournamentSocket.js:357-448 | without a race text, or with fewer than two live candidates, formation fails and the live candidates are notified; otherwise the live candidates form the roster, the realised limit is their count, the race starts 3 s later, the timer is due after 3 s + duration + 5 s, and the session carries the match id and difficulty, its outbox is exactly the match found message with the roster and numbers, and a roster of distinct users yields a valid session |
| MatchSession.ThreePlayerMatch | src/sockets/tournamentSocket.js:367-379 | a quorum of four with one connection gone forms a match of three against a requested four |
| MatchSession.SettledResults | src/sockets/tournamentSocket.js:160-245 | a valid session's results rank every roster member once, in ranking order, with places 1..n and the penalty for every forfeiter |

## Left out

- Transport and persistence. The socket.io layer and the MongoDB writes are not modelled: the match, participant and result records, and `recomputeUserTypingStats`. The stored user aggregate is modelled (`Ranking.SettleUsers`); the other records are written from the same ranked results. Every storage call is taken to succeed. In the source the settled flag is set (`tournamentSocket.js:157`) before the awaited writes (`:247-301`), and the results are sent only after them (`:303`). A rejected write leaves the match settled with no results sent. On the timer path (`:444`) and the leave-match path (`:543`) the rejection is caught. On the finish path (`:598`) and the disconnect path (`:616`) it is not caught, so it surfaces as an unhandled promise rejection. `MatchSession.RunValid`'s "results sent exactly once when settled" therefore holds only when storage succeeds.
- Authentication. The connection handshake and token verification are not modelled; the handlers start from an authenticated user id.
- Clocks and timers. `Date.now()` and `new Date()` are the `now` parameter of each handler. `setTimeout` is the `TimerEvent` of a run, and `fallbackAt` records when it is due. Cancelling the timer needs no model: a settled session ignores it (`MatchSession.FinalizedIsFrozen`).
- Eviction. Removing a settled match 10 s after the results, and looking a match up by its id, are not modelled; each session is modelled on its own.
- Race text choice. Choosing the race text (`pickTournamentTest`, its database query and `Math.random`) is the `pick` parameter of `MatchSession.FormMatch`.
- Async interleaving. Each event is handled atomically. The handlers await storage calls, and other events could interleave there; the model does not cover that.
- Source files outside this model. `src/models/constants.js` is not part of this model; the difficulty names are taken from the enumeration in `src/validations/typing.validation.js:3`.
- Matchmaking.ToUpper: keeps the length, while JavaScript's `toUpperCase` can lengthen a string (German sharp s becomes SS). No lengthened string can spell EASY, MEDIUM or HARD, so the outcome of normalisation is the same.
- Matchmaking.UpperChar: covers only characters whose upper case can be part of a difficulty name (ASCII letters, dotless i, long s). Multi-character upper-case expansions such as German sharp s cannot spell EASY, MEDIUM or HARD, so they do not change the outcome.
- Tier.TierWeight: weighs every string outside the ladder 0. In the source the weight table is a plain object, so names inherited from the object prototype (`constructor`, `toString`, `valueOf`, `hasOwnProperty`, `__proto__`) would yield a non-number instead of 0. The only caller passes a user's stored tier (`src/controllers/ranking.controller.js:20`), which the user schema restricts to the ladder (`src/models/User.js:10`), so no such name reaches it.
- Matchmaking.NormalizeDifficulty: a truthy payload value of any JavaScript type is represented by the text `String()` makes of it.
- Matchmaking.NormalizePlayerLimit: the payload's `Number()` conversion is represented by an optional integer. Fractional numbers, which can never equal 2 or 4, are represented as absent.
- Matchmaking.LeaveQueue: the constant zero queue update sent back to the leaver is not modelled.
- Ranking.NameCompare: orders names by character code instead of the locale-aware `localeCompare`, whose collation tables are outside the model. It is still a total order, so every ordering property holds for the order used.
- MatchSession.OrElse: payload numbers are integers. JavaScript doubles, NaN and fractional wpm/accuracy values are not modelled.
- RefreshDuration.DurationToMs: counts are exact integers. JavaScript loses precision above 2^53.
- MatchSession.Disconnect: the disconnect event names a user, not a connection. In the source only the connection listed on the roster carries the match id, so closing a roster member's second connection leaves the match untouched; the model forfeits the member on any disconnect event for it, which allows more runs than the source.
- MatchSession.FormMatch: joining connections to the room and setting their match id are not modelled. The match found message keeps the roster and numbers, but not the race text id or countdown field.
