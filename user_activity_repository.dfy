/**
  The session aggregation of `UserActivityRepository.calculateUserTime`:
  a timestamp-ordered replay of `join`/`exit` records of many interleaved
  players into whole minutes per player.

  The state of the replay is two JavaScript dictionaries: `userTimes`
  (player to accumulated minutes) and `lastJoinActivity` (player to the
  `join` record that is still open). `Step` is one iteration of the
  `forEach` loop, `FlushOpenJoins` the loop over the joins still open at
  the end, and `UserTimes` the whole computation; the method
  `CalculateUserTime` runs the two loops and is proved equal to it.

  `JoinCredits` is an independent reference: every `join` of a player is
  credited once, up to that player's next record or up to `endDate`.
*/
module UserActivityRepository {
  import opened Wrappers
  import opened Dict

  /** Milliseconds in one minute; timestamps are milliseconds since the epoch. */
  const MillisecondsInMinute: int := 60000

  datatype Action = Join | Exit

  /** One row of the `user_activities` table. */
  datatype UserActivity = UserActivity(playerId: string, playerName: string, action: Action, timestamp: int)

  /**
    date-fns `differenceInMinutes(later, earlier)` with its default rounding:
    the elapsed milliseconds divided by a minute, truncated toward zero.
  */
  function DifferenceInMinutes(later: int, earlier: int): (r: int)
    ensures later >= earlier ==>
      0 <= r && r * MillisecondsInMinute <= later - earlier < (r + 1) * MillisecondsInMinute
    ensures later < earlier ==>
      r <= 0 && (r - 1) * MillisecondsInMinute < later - earlier <= r * MillisecondsInMinute
  {
    var elapsed := later - earlier;
    if elapsed >= 0 then elapsed / MillisecondsInMinute else -((-elapsed) / MillisecondsInMinute)
  }

  /** What `ORDER BY timestamp ASC` guarantees of the query result. */
  predicate ByTimestamp(activities: seq<UserActivity>)
  {
    forall i, j :: 0 <= i < j < |activities| ==> activities[i].timestamp <= activities[j].timestamp
  }

  /** What `WHERE timestamp >= startDate AND timestamp <= endDate` guarantees of the query result. */
  predicate WithinWindow(activities: seq<UserActivity>, startDate: int, endDate: int)
  {
    forall i :: 0 <= i < |activities| ==> startDate <= activities[i].timestamp <= endDate
  }

  /** The two dictionaries that `calculateUserTime` updates while it replays the records. */
  datatype ReplayState = ReplayState(userTimes: Dict<int>, lastJoinActivity: Dict<UserActivity>)

  const Initial: ReplayState := ReplayState([], [])

  /**
    Both dictionaries have one entry per key (so a player has at most one
    open join), and an open join of player `p` is a `join` record of `p`.
  */
  ghost predicate ValidState(s: ReplayState)
  {
    && DistinctKeys(s.userTimes)
    && DistinctKeys(s.lastJoinActivity)
    && forall p :: Get(s.lastJoinActivity, p).Some? ==>
         Get(s.lastJoinActivity, p).value.playerId == p && Get(s.lastJoinActivity, p).value.action == Join
  }

  /** `userTimes[playerId] = (userTimes[playerId] || 0) + minutes`. */
  function Credit(userTimes: Dict<int>, playerId: string, minutes: int): (r: Dict<int>)
    ensures forall p :: Get(r, p) == if p == playerId then Some(Get(userTimes, p).GetOr(0) + minutes) else Get(userTimes, p)
    ensures DistinctKeys(userTimes) ==> DistinctKeys(r)
  {
    Put(userTimes, playerId, Get(userTimes, playerId).GetOr(0) + minutes)
  }

  /**
    One iteration of the `forEach` loop. A record, join or exit, that finds
    an open join of its player credits the minutes since that join; a join
    then opens (or reopens) the player's session, an exit closes it; an exit
    that finds no open join changes nothing. Other players are untouched.
  */
  function Step(s: ReplayState, activity: UserActivity): (r: ReplayState)
    ensures ValidState(s) ==> ValidState(r)
    ensures forall p :: p != activity.playerId ==>
      Get(r.userTimes, p) == Get(s.userTimes, p) && Get(r.lastJoinActivity, p) == Get(s.lastJoinActivity, p)
    ensures Get(r.userTimes, activity.playerId) ==
      match Get(s.lastJoinActivity, activity.playerId)
      case Some(open) =>
        Some(Get(s.userTimes, activity.playerId).GetOr(0) + DifferenceInMinutes(activity.timestamp, open.timestamp))
      case None => Get(s.userTimes, activity.playerId)
    ensures activity.action == Join ==> Get(r.lastJoinActivity, activity.playerId) == Some(activity)
    ensures activity.action == Exit ==> Get(r.lastJoinActivity, activity.playerId) == None
    ensures activity.action == Exit && Get(s.lastJoinActivity, activity.playerId) == None ==> r == s
  {
    var id := activity.playerId;
    match activity.action
    case Join =>
      var userTimes := match Get(s.lastJoinActivity, id)
        case Some(open) => Credit(s.userTimes, id, DifferenceInMinutes(activity.timestamp, open.timestamp))
        case None => s.userTimes;
      ReplayState(userTimes, Put(s.lastJoinActivity, id, activity))
    case Exit =>
      match Get(s.lastJoinActivity, id)
      case Some(joinActivity) =>
        ReplayState(Credit(s.userTimes, id, DifferenceInMinutes(activity.timestamp, joinActivity.timestamp)),
                    Remove(s.lastJoinActivity, id))
      case None => s
  }

  /** The `forEach` loop over `activities`, started from state `s`. */
  function ReplayFrom(s: ReplayState, activities: seq<UserActivity>): (r: ReplayState)
    decreases |activities|
  {
    if activities == [] then s else ReplayFrom(Step(s, activities[0]), activities[1..])
  }

  /**
    The loop over `Object.entries(lastJoinActivity)`: every join still open
    is credited up to `endDate`; players without an open join keep their total.
  */
  function FlushOpenJoins(userTimes: Dict<int>, open: Dict<UserActivity>, endDate: int): (r: Dict<int>)
    ensures DistinctKeys(userTimes) ==> DistinctKeys(r)
    ensures DistinctKeys(open) ==> forall p ::
      Get(r, p) == match Get(open, p)
        case Some(joinActivity) => Some(Get(userTimes, p).GetOr(0) + DifferenceInMinutes(endDate, joinActivity.timestamp))
        case None => Get(userTimes, p)
    decreases |open|
  {
    if open == [] then userTimes
    else FlushOpenJoins(Credit(userTimes, open[0].0, DifferenceInMinutes(endDate, open[0].1.timestamp)), open[1..], endDate)
  }

  /** The result of the replay from `s` followed by the flush. */
  function Finish(s: ReplayState, endDate: int): Dict<int>
  {
    FlushOpenJoins(s.userTimes, s.lastJoinActivity, endDate)
  }

  /** What `calculateUserTime` returns for the records its query selected. */
  function UserTimes(activities: seq<UserActivity>, endDate: int): Dict<int>
  {
    Finish(ReplayFrom(Initial, activities), endDate)
  }

  // ---------------------------------------------------------------------------
  // Reference definition: each join credited once
  // ---------------------------------------------------------------------------

  /** True iff `activities` holds a `join` record of `playerId`. */
  predicate HasJoin(activities: seq<UserActivity>, playerId: string)
  {
    exists i :: 0 <= i < |activities| && activities[i].playerId == playerId && activities[i].action == Join
  }

  /** The timestamp of the first record of `playerId` in `activities`, or `endDate` if it has none. */
  function NextTimestamp(activities: seq<UserActivity>, playerId: string, endDate: int): int
  {
    if activities == [] then endDate
    else if activities[0].playerId == playerId then activities[0].timestamp
    else NextTimestamp(activities[1..], playerId, endDate)
  }

  /**
    The sum, over the `join` records of `playerId`, of the whole minutes
    (each truncated on its own) from that join to the player's next record,
    join or exit, or to `endDate` if there is none.
  */
  function JoinCredits(activities: seq<UserActivity>, playerId: string, endDate: int): int
  {
    if activities == [] then 0
    else
      var a := activities[0];
      var credit := if a.playerId == playerId && a.action == Join
                    then DifferenceInMinutes(NextTimestamp(activities[1..], playerId, endDate), a.timestamp)
                    else 0;
      credit + JoinCredits(activities[1..], playerId, endDate)
  }

  /** The records of `playerId` alone, in their order. */
  function OnlyPlayer(activities: seq<UserActivity>, playerId: string): (r: seq<UserActivity>)
    ensures forall i :: 0 <= i < |r| ==> r[i].playerId == playerId
  {
    if activities == [] then []
    else if activities[0].playerId == playerId then [activities[0]] + OnlyPlayer(activities[1..], playerId)
    else OnlyPlayer(activities[1..], playerId)
  }

  lemma HasJoinCons(activities: seq<UserActivity>, playerId: string)
    requires activities != []
    ensures HasJoin(activities, playerId) <==>
      (activities[0].playerId == playerId && activities[0].action == Join) || HasJoin(activities[1..], playerId)
  {
    if HasJoin(activities[1..], playerId) {
      var i :| 0 <= i < |activities[1..]| && activities[1..][i].playerId == playerId && activities[1..][i].action == Join;
      assert activities[i + 1] == activities[1..][i];
    }
    if HasJoin(activities, playerId) && !(activities[0].playerId == playerId && activities[0].action == Join) {
      var i :| 0 <= i < |activities| && activities[i].playerId == playerId && activities[i].action == Join;
      assert activities[1..][i - 1] == activities[i];
    }
  }

  /**
    What player `p` ends with when the replay starts from a state in which
    `p`'s total is `total` and `p`'s open join is `open`, and `rest` is
    still to be replayed.
  */
  function Expected(total: Option<int>, open: Option<UserActivity>, rest: seq<UserActivity>, p: string, endDate: int): Option<int>
  {
    if total.None? && open.None? && !HasJoin(rest, p) then None
    else
      var openCredit := match open
        case Some(joinActivity) => DifferenceInMinutes(NextTimestamp(rest, p, endDate), joinActivity.timestamp)
        case None => 0;
      Some(total.GetOr(0) + openCredit + JoinCredits(rest, p, endDate))
  }

  /** `p`'s part of the state before the flush determines `p`'s result after it. */
  lemma FinishView(s: ReplayState, p: string, endDate: int)
    requires ValidState(s)
    ensures Get(Finish(s, endDate), p) == Expected(Get(s.userTimes, p), Get(s.lastJoinActivity, p), [], p, endDate)
  {
    assert !HasJoin([], p);
  }

  /** A record of another player leaves `p`'s part of the state and `p`'s expected result alone. */
  lemma StepOtherPlayer(s: ReplayState, activities: seq<UserActivity>, p: string, endDate: int)
    requires ValidState(s) && activities != [] && activities[0].playerId != p
    ensures
      var next := Step(s, activities[0]);
      Expected(Get(next.userTimes, p), Get(next.lastJoinActivity, p), activities[1..], p, endDate) ==
      Expected(Get(s.userTimes, p), Get(s.lastJoinActivity, p), activities, p, endDate)
  {
    var rest := activities[1..];
    HasJoinCons(activities, p);
    assert NextTimestamp(activities, p, endDate) == NextTimestamp(rest, p, endDate);
    assert JoinCredits(activities, p, endDate) == JoinCredits(rest, p, endDate);
  }

  /** A join of `p` credits `p`'s open join and leaves itself open, to be credited up to `p`'s next record. */
  lemma StepJoin(s: ReplayState, activities: seq<UserActivity>, p: string, endDate: int)
    requires ValidState(s) && activities != [] && activities[0].playerId == p && activities[0].action == Join
    ensures
      var next := Step(s, activities[0]);
      Expected(Get(next.userTimes, p), Get(next.lastJoinActivity, p), activities[1..], p, endDate) ==
      Expected(Get(s.userTimes, p), Get(s.lastJoinActivity, p), activities, p, endDate)
  {
    var a, rest := activities[0], activities[1..];
    var next := Step(s, a);
    var total, open := Get(s.userTimes, p), Get(s.lastJoinActivity, p);
    var openCredit := match open
      case Some(joinActivity) => DifferenceInMinutes(a.timestamp, joinActivity.timestamp)
      case None => 0;
    assert Get(next.userTimes, p).GetOr(0) == total.GetOr(0) + openCredit;
    assert Get(next.lastJoinActivity, p) == Some(a);
    HasJoinCons(activities, p);
    assert NextTimestamp(activities, p, endDate) == a.timestamp;
    assert JoinCredits(activities, p, endDate) ==
      DifferenceInMinutes(NextTimestamp(rest, p, endDate), a.timestamp) + JoinCredits(rest, p, endDate);
    assert Expected(total, open, activities, p, endDate) ==
      Some(total.GetOr(0) + openCredit + JoinCredits(activities, p, endDate));
    assert Expected(Get(next.userTimes, p), Some(a), rest, p, endDate) ==
      Some(Get(next.userTimes, p).GetOr(0) + DifferenceInMinutes(NextTimestamp(rest, p, endDate), a.timestamp)
           + JoinCredits(rest, p, endDate));
  }

  /** An exit of `p` credits `p`'s open join, if any, and closes it; it adds no credit of its own. */
  lemma StepExit(s: ReplayState, activities: seq<UserActivity>, p: string, endDate: int)
    requires ValidState(s) && activities != [] && activities[0].playerId == p && activities[0].action == Exit
    ensures
      var next := Step(s, activities[0]);
      Expected(Get(next.userTimes, p), Get(next.lastJoinActivity, p), activities[1..], p, endDate) ==
      Expected(Get(s.userTimes, p), Get(s.lastJoinActivity, p), activities, p, endDate)
  {
    var a, rest := activities[0], activities[1..];
    var next := Step(s, a);
    HasJoinCons(activities, p);
    assert HasJoin(activities, p) == HasJoin(rest, p);
    assert JoinCredits(activities, p, endDate) == JoinCredits(rest, p, endDate);
    assert Get(next.lastJoinActivity, p) == None;
    match Get(s.lastJoinActivity, p)
    case None =>
      assert next == s;
    case Some(joinActivity) =>
      assert NextTimestamp(activities, p, endDate) == a.timestamp;
      assert Get(next.userTimes, p) ==
        Some(Get(s.userTimes, p).GetOr(0) + DifferenceInMinutes(a.timestamp, joinActivity.timestamp));
  }

  /** One step moves one record from what is still to be replayed into `p`'s part of the state. */
  lemma StepView(s: ReplayState, activities: seq<UserActivity>, p: string, endDate: int)
    requires ValidState(s) && activities != []
    ensures
      var next := Step(s, activities[0]);
      Expected(Get(next.userTimes, p), Get(next.lastJoinActivity, p), activities[1..], p, endDate) ==
      Expected(Get(s.userTimes, p), Get(s.lastJoinActivity, p), activities, p, endDate)
  {
    if activities[0].playerId != p {
      StepOtherPlayer(s, activities, p, endDate);
    } else if activities[0].action == Join {
      StepJoin(s, activities, p, endDate);
    } else {
      StepExit(s, activities, p, endDate);
    }
  }

  /** The per-player view of the replay: `p`'s result depends only on `p`'s part of the state. */
  lemma {:induction false} ReplayView(s: ReplayState, activities: seq<UserActivity>, p: string, endDate: int)
    requires ValidState(s)
    ensures Get(Finish(ReplayFrom(s, activities), endDate), p) ==
      Expected(Get(s.userTimes, p), Get(s.lastJoinActivity, p), activities, p, endDate)
    decreases |activities|
  {
    if activities == [] {
      FinishView(s, p, endDate);
    } else {
      ReplayView(Step(s, activities[0]), activities[1..], p, endDate);
      StepView(s, activities, p, endDate);
    }
  }

  /**
    Every join is credited exactly once, each credit truncated on its own:
    a player's result is `JoinCredits`, and a player has an entry iff it has
    at least one join (an entry may hold 0; orphan exits create none).
  */
  lemma UserTimesByJoins(activities: seq<UserActivity>, p: string, endDate: int)
    ensures Get(UserTimes(activities, endDate), p) ==
      if HasJoin(activities, p) then Some(JoinCredits(activities, p, endDate)) else None
    ensures p in Keys(UserTimes(activities, endDate)) <==> HasJoin(activities, p)
  {
    InitialIsValid();
    ReplayView(Initial, activities, p, endDate);
    var r := UserTimes(activities, endDate);
    assert r == Finish(ReplayFrom(Initial, activities), endDate);
    assert Get(r, p) == Expected(None, None, activities, p, endDate);
    ExpectedFromNothing(activities, p, endDate);
  }

  /** A player with no total and no open join ends with its join credits, or with nothing if it has no join. */
  lemma ExpectedFromNothing(rest: seq<UserActivity>, p: string, endDate: int)
    ensures Expected(None, None, rest, p, endDate) ==
      if HasJoin(rest, p) then Some(JoinCredits(rest, p, endDate)) else None
  {
    if HasJoin(rest, p) {
      var credits := JoinCredits(rest, p, endDate);
      assert Expected(None, None, rest, p, endDate) == Some(0 + 0 + credits);
    }
  }

  /** The replay starts from a well-formed state in which no player has a total or an open join. */
  lemma InitialIsValid()
    ensures ValidState(Initial)
    ensures forall p :: Get(Initial.userTimes, p) == None && Get(Initial.lastJoinActivity, p) == None
  {
    forall q ensures Get(Initial.lastJoinActivity, q) == None { }
  }

  /** Replaying two records is two steps. */
  lemma ReplayPair(s: ReplayState, first: UserActivity, second: UserActivity)
    ensures ReplayFrom(s, [first, second]) == Step(Step(s, first), second)
  {
    assert [first, second][1..] == [second];
    assert [second][1..] == [];
    assert ReplayFrom(Step(s, first), [second]) == ReplayFrom(Step(Step(s, first), second), []);
  }

  /** The replay keeps the state well formed: at most one open join per player at any point. */
  lemma {:induction false} ReplayKeepsValid(s: ReplayState, activities: seq<UserActivity>)
    requires ValidState(s)
    ensures ValidState(ReplayFrom(s, activities))
    decreases |activities|
  {
    if activities != [] {
      ReplayKeepsValid(Step(s, activities[0]), activities[1..]);
    }
  }

  /** The result has one entry per player. */
  lemma UserTimesDistinct(activities: seq<UserActivity>, endDate: int)
    ensures DistinctKeys(UserTimes(activities, endDate))
  {
    assert ValidState(Initial) by {
      forall q ensures Get(Initial.lastJoinActivity, q) == None { }
    }
    ReplayKeepsValid(Initial, activities);
  }

  lemma {:induction false} OnlyPlayerKeepsNext(activities: seq<UserActivity>, p: string, endDate: int)
    ensures NextTimestamp(OnlyPlayer(activities, p), p, endDate) == NextTimestamp(activities, p, endDate)
  {
    if activities != [] {
      OnlyPlayerKeepsNext(activities[1..], p, endDate);
    }
  }

  lemma {:induction false} OnlyPlayerKeepsCredits(activities: seq<UserActivity>, p: string, endDate: int)
    ensures JoinCredits(OnlyPlayer(activities, p), p, endDate) == JoinCredits(activities, p, endDate)
    ensures HasJoin(OnlyPlayer(activities, p), p) == HasJoin(activities, p)
  {
    if activities != [] {
      OnlyPlayerKeepsCredits(activities[1..], p, endDate);
      OnlyPlayerKeepsNext(activities[1..], p, endDate);
      HasJoinCons(activities, p);
      if activities[0].playerId == p {
        HasJoinCons(OnlyPlayer(activities, p), p);
      }
    }
  }

  /** Per-player independence: a player's result is the result of replaying that player's records alone. */
  lemma PlayerIndependence(activities: seq<UserActivity>, p: string, endDate: int)
    ensures Get(UserTimes(activities, endDate), p) == Get(UserTimes(OnlyPlayer(activities, p), endDate), p)
  {
    UserTimesByJoins(activities, p, endDate);
    UserTimesByJoins(OnlyPlayer(activities, p), p, endDate);
    OnlyPlayerKeepsCredits(activities, p, endDate);
  }

  lemma {:induction false} NextTimestampAtLeast(activities: seq<UserActivity>, p: string, endDate: int, t: int)
    requires forall i :: 0 <= i < |activities| ==> t <= activities[i].timestamp
    requires t <= endDate
    ensures t <= NextTimestamp(activities, p, endDate)
  {
    if activities != [] {
      NextTimestampAtLeast(activities[1..], p, endDate, t);
    }
  }

  /**
    With records in timestamp order and none after `endDate`, the credit of
    every join is at least 0, and so is every player's sum of credits.
  */
  lemma {:induction false} JoinCreditsNonNegative(activities: seq<UserActivity>, p: string, endDate: int)
    requires ByTimestamp(activities)
    requires forall i :: 0 <= i < |activities| ==> activities[i].timestamp <= endDate
    ensures forall i :: 0 <= i < |activities| && activities[i].playerId == p && activities[i].action == Join ==>
      DifferenceInMinutes(NextTimestamp(activities[i + 1..], p, endDate), activities[i].timestamp) >= 0
    ensures JoinCredits(activities, p, endDate) >= 0
  {
    forall i | 0 <= i < |activities| && activities[i].playerId == p && activities[i].action == Join
      ensures DifferenceInMinutes(NextTimestamp(activities[i + 1..], p, endDate), activities[i].timestamp) >= 0
    {
      var later := activities[i + 1..];
      assert forall k :: 0 <= k < |later| ==> later[k] == activities[i + 1 + k];
      NextTimestampAtLeast(later, p, endDate, activities[i].timestamp);
    }
    if activities != [] {
      JoinCreditsNonNegative(activities[1..], p, endDate);
      NextTimestampAtLeast(activities[1..], p, endDate, activities[0].timestamp);
    }
  }

  /** Two joins of a player in a row: the second credits the minutes since the first and becomes the open join. */
  lemma ConsecutiveJoins(s: ReplayState, first: UserActivity, second: UserActivity)
    requires first.action == Join && second.action == Join && first.playerId == second.playerId
    ensures var r := ReplayFrom(s, [first, second]);
      && Get(r.lastJoinActivity, second.playerId) == Some(second)
      && Get(r.userTimes, second.playerId) ==
         Some(Get(Step(s, first).userTimes, first.playerId).GetOr(0) + DifferenceInMinutes(second.timestamp, first.timestamp))
  {
    var afterFirst := Step(s, first);
    assert Get(afterFirst.lastJoinActivity, first.playerId) == Some(first);
    ReplayPair(s, first, second);
  }

  /** A single join followed by an exit of the same player credits exactly the truncated minutes between them. */
  lemma PairedSession(playerId: string, name: string, joinedAt: int, exitedAt: int, endDate: int)
    ensures UserTimes([UserActivity(playerId, name, Join, joinedAt), UserActivity(playerId, name, Exit, exitedAt)], endDate)
      == [(playerId, DifferenceInMinutes(exitedAt, joinedAt))]
  {
    var join, exit := UserActivity(playerId, name, Join, joinedAt), UserActivity(playerId, name, Exit, exitedAt);
    var afterJoin := Step(Initial, join);
    assert afterJoin == ReplayState([], [(playerId, join)]);
    var afterExit := Step(afterJoin, exit);
    assert afterExit == ReplayState([(playerId, DifferenceInMinutes(exitedAt, joinedAt))], []);
    ReplayPair(Initial, join, exit);
  }

  /** Minutes after midnight, as milliseconds, on the day the examples below take place. */
  function At(hours: int, minutes: int): int
  {
    (hours * 60 + minutes) * MillisecondsInMinute
  }

  /** Joined at 10:00 and left at 10:45: 45 minutes. */
  lemma ExamplePairedSession()
    ensures UserTimes([UserActivity("u1", "n", Join, At(10, 0)), UserActivity("u1", "n", Exit, At(10, 45))], At(12, 0))
      == [("u1", 45)]
  {
    PairedSession("u1", "n", At(10, 0), At(10, 45), At(12, 0));
  }

  /** Joined at 23:50 and still present at the end of the day: 10 minutes. */
  lemma ExampleOpenAtEnd()
    ensures UserTimes([UserActivity("u1", "n", Join, At(23, 50))], At(24, 0)) == [("u1", 10)]
  {
  }

  /**
    Joins at `t` and half an hour later, exit an hour after `t`: the second
    join closes the first session, so the player is credited 30 + 30 minutes.
  */
  lemma ExampleDoubleJoin(playerId: string, name: string, t: int, endDate: int)
    ensures var acts := [UserActivity(playerId, name, Join, t), UserActivity(playerId, name, Join, t + 30 * MillisecondsInMinute),
                         UserActivity(playerId, name, Exit, t + 60 * MillisecondsInMinute)];
      Get(UserTimes(acts, endDate), playerId) == Some(60)
  {
    var acts := [UserActivity(playerId, name, Join, t), UserActivity(playerId, name, Join, t + 30 * MillisecondsInMinute),
                 UserActivity(playerId, name, Exit, t + 60 * MillisecondsInMinute)];
    UserTimesByJoins(acts, playerId, endDate);
    assert acts[0].playerId == playerId && acts[0].action == Join;
    assert acts[1..][1..] == [acts[2]];
    assert JoinCredits(acts[1..][1..], playerId, endDate) == 0;
    assert JoinCredits(acts[1..], playerId, endDate) == DifferenceInMinutes(t + 60 * MillisecondsInMinute, t + 30 * MillisecondsInMinute);
    assert JoinCredits(acts, playerId, endDate) ==
      DifferenceInMinutes(t + 30 * MillisecondsInMinute, t) + DifferenceInMinutes(t + 60 * MillisecondsInMinute, t + 30 * MillisecondsInMinute);
  }

  /** An exit with no join before it: no entry at all. */
  lemma ExampleOrphanExit()
    ensures UserTimes([UserActivity("u2", "n", Exit, At(10, 0))], At(12, 0)) == []
  {
  }

  /**
    Truncation per credit: two sessions of 30 seconds each credit 0 minutes,
    so the total is 0 although together they last a minute, and the player
    still gets an entry.
  */
  lemma TruncationPerCredit(playerId: string, name: string, t: int, endDate: int)
    ensures var acts := [UserActivity(playerId, name, Join, t), UserActivity(playerId, name, Exit, t + 30000),
                         UserActivity(playerId, name, Join, t + 60000), UserActivity(playerId, name, Exit, t + 90000)];
      Get(UserTimes(acts, endDate), playerId) == Some(0)
  {
    var acts := [UserActivity(playerId, name, Join, t), UserActivity(playerId, name, Exit, t + 30000),
                 UserActivity(playerId, name, Join, t + 60000), UserActivity(playerId, name, Exit, t + 90000)];
    UserTimesByJoins(acts, playerId, endDate);
    assert acts[0].playerId == playerId && acts[0].action == Join;
    assert acts[1..][1..][1..] == [acts[3]];
    assert JoinCredits(acts[1..][1..][1..], playerId, endDate) == 0;
    assert JoinCredits(acts[1..][1..], playerId, endDate) == DifferenceInMinutes(t + 90000, t + 60000);
    assert JoinCredits(acts, playerId, endDate) == DifferenceInMinutes(t + 30000, t) + DifferenceInMinutes(t + 90000, t + 60000);
  }

  /**
    On what the query returns, the result has one entry per player who
    joined, holding that player's join credits, and no entry is negative.
  */
  lemma UserTimesOfQuery(activities: seq<UserActivity>, startDate: int, endDate: int)
    requires ByTimestamp(activities) && WithinWindow(activities, startDate, endDate)
    ensures DistinctKeys(UserTimes(activities, endDate))
    ensures forall p ::
      Get(UserTimes(activities, endDate), p) == if HasJoin(activities, p) then Some(JoinCredits(activities, p, endDate)) else None
    ensures forall p :: p in Keys(UserTimes(activities, endDate)) ==> Get(UserTimes(activities, endDate), p).value >= 0
  {
    UserTimesDistinct(activities, endDate);
    forall p ensures Get(UserTimes(activities, endDate), p) ==
      if HasJoin(activities, p) then Some(JoinCredits(activities, p, endDate)) else None
    {
      UserTimesByJoins(activities, p, endDate);
    }
    forall p | p in Keys(UserTimes(activities, endDate)) ensures Get(UserTimes(activities, endDate), p).value >= 0 {
      UserTimesByJoins(activities, p, endDate);
      JoinCreditsNonNegative(activities, p, endDate);
    }
  }

  /**
    The callback of the `forEach` loop: one record updates the two
    dictionaries as `Step` says.
  */
  method ReplayActivity(userTimes: Dict<int>, lastJoinActivity: Dict<UserActivity>, activity: UserActivity)
    returns (userTimes': Dict<int>, lastJoinActivity': Dict<UserActivity>)
    ensures ReplayState(userTimes', lastJoinActivity') == Step(ReplayState(userTimes, lastJoinActivity), activity)
  {
    userTimes', lastJoinActivity' := userTimes, lastJoinActivity;
    var activityTime := activity.timestamp;
    if activity.action == Join {
      var open := Get(lastJoinActivity, activity.playerId);
      if open.Some? {
        var duration := DifferenceInMinutes(activityTime, open.value.timestamp);
        userTimes' := Credit(userTimes, activity.playerId, duration);
      }
      lastJoinActivity' := Put(lastJoinActivity, activity.playerId, activity);
    } else {
      var joinActivity := Get(lastJoinActivity, activity.playerId);
      if joinActivity.Some? {
        var duration := DifferenceInMinutes(activityTime, joinActivity.value.timestamp);
        userTimes' := Credit(userTimes, activity.playerId, duration);
        lastJoinActivity' := Remove(lastJoinActivity, activity.playerId);
      }
    }
  }

  /**
    `calculateUserTime(startDate, endDate)` on the records its query
    returned: the replay loop, then the loop over the joins still open.
  */
  method CalculateUserTime(activities: seq<UserActivity>, startDate: int, endDate: int) returns (userTimes: Dict<int>)
    requires ByTimestamp(activities) && WithinWindow(activities, startDate, endDate)
    ensures userTimes == UserTimes(activities, endDate)
    ensures DistinctKeys(userTimes)
    ensures forall p ::
      Get(userTimes, p) == if HasJoin(activities, p) then Some(JoinCredits(activities, p, endDate)) else None
    ensures forall p :: p in Keys(userTimes) ==> Get(userTimes, p).value >= 0
  {
    userTimes := [];
    var lastJoinActivity: Dict<UserActivity> := [];
    var i := 0;
    while i < |activities|
      invariant 0 <= i <= |activities|
      invariant ReplayFrom(ReplayState(userTimes, lastJoinActivity), activities[i..]) == ReplayFrom(Initial, activities)
    {
      userTimes, lastJoinActivity := ReplayActivity(userTimes, lastJoinActivity, activities[i]);
      assert activities[i..][1..] == activities[i + 1..];
      i := i + 1;
    }
    assert activities[i..] == [];
    var k := 0;
    while k < |lastJoinActivity|
      invariant 0 <= k <= |lastJoinActivity|
      invariant FlushOpenJoins(userTimes, lastJoinActivity[k..], endDate) == UserTimes(activities, endDate)
    {
      var (playerId, joinActivity) := lastJoinActivity[k];
      var duration := DifferenceInMinutes(endDate, joinActivity.timestamp);
      userTimes := Credit(userTimes, playerId, duration);
      assert lastJoinActivity[k..][1..] == lastJoinActivity[k + 1..];
      k := k + 1;
    }
    assert lastJoinActivity[k..] == [];
    UserTimesOfQuery(activities, startDate, endDate);
  }
}
