/**
  `ReportService.formatRankingMessage`: a ranking of players by minutes,
  rendered as a text block with one line per player.

  The `sortedUsers` array is built by pure functions: for a dictionary
  argument its entries are mapped to display names and stably sorted by
  minutes, largest first (`SortByTime` is that sort, and
  `StableSortIsUnique` shows that any stable descending sort gives the
  same result); an array argument keeps its order. The message is then
  built by a loop that appends one line per user, proved equal to
  `RenderMessage`.
*/
module ReportService {
  import opened Wrappers
  import opened Dict
  import UserActivityRepository

  /** The name shown for a player whose name is not cached. */
  const UnknownPlayer: string := "不明なプレイヤー"

  /** Titles of the daily and the weekly report. */
  const DailyTitle: string := "本日の入室時間ランキング"
  const WeeklyTitle: string := "今週の入室時間ランキング"

  /** An element of the array form of the `ranking` argument. */
  datatype RankingEntry = RankingEntry(name: string, duration: int)

  /** The `ranking` argument: a dictionary from player id to minutes, or an array of named durations. */
  datatype Ranking = PlayerMinutes(times: Dict<int>) | NamedDurations(entries: seq<RankingEntry>)

  /** An element of `sortedUsers`. */
  datatype RankedUser = RankedUser(name: string, time: int)

  /**
    `playerRepository.getPlayerName(playerId) || '不明なプレイヤー'`, with the
    name cache as a map. An empty cached name is falsy, so it falls back too.
  */
  function DisplayName(names: map<string, string>, playerId: string): (r: string)
    ensures r != ""
    ensures playerId in names && names[playerId] != "" ==> r == names[playerId]
    ensures playerId !in names || names[playerId] == "" ==> r == UnknownPlayer
  {
    if playerId in names && names[playerId] != "" then names[playerId] else UnknownPlayer
  }

  /** `Object.entries(ranking).map(...)`: each entry, in entry order, with the player's display name. */
  function ResolveNames(times: Dict<int>, names: map<string, string>): (r: seq<RankedUser>)
    ensures |r| == |times|
    ensures forall i :: 0 <= i < |r| ==> r[i] == RankedUser(DisplayName(names, times[i].0), times[i].1)
  {
    if times == [] then []
    else [RankedUser(DisplayName(names, times[0].0), times[0].1)] + ResolveNames(times[1..], names)
  }

  /** `ranking.map(entry => ({ name: entry.name, time: entry.duration }))`. */
  function FromEntries(entries: seq<RankingEntry>): (r: seq<RankedUser>)
    ensures |r| == |entries|
    ensures forall i :: 0 <= i < |r| ==> r[i].name == entries[i].name && r[i].time == entries[i].duration
  {
    if entries == [] then []
    else [RankedUser(entries[0].name, entries[0].duration)] + FromEntries(entries[1..])
  }

  /** Minutes never increase along the sequence. */
  predicate Descending(us: seq<RankedUser>)
  {
    forall i, j :: 0 <= i < j < |us| ==> us[i].time >= us[j].time
  }

  /** The users with exactly `time` minutes, in their order. */
  function WithTime(us: seq<RankedUser>, time: int): seq<RankedUser>
  {
    if us == [] then []
    else (if us[0].time == time then [us[0]] else []) + WithTime(us[1..], time)
  }

  lemma ConsDescending(first: RankedUser, rest: seq<RankedUser>)
    requires Descending(rest)
    requires forall j :: 0 <= j < |rest| ==> rest[j].time <= first.time
    ensures Descending([first] + rest)
  {
    var r := [first] + rest;
    forall i, j | 0 <= i < j < |r| ensures r[i].time >= r[j].time {
      assert r[j] == rest[j - 1];
      if i > 0 {
        assert r[i] == rest[i - 1];
      }
    }
  }

  /** The tail of a descending list is descending, and no user has more minutes than the head. */
  lemma DescendingTail(us: seq<RankedUser>)
    requires Descending(us) && us != []
    ensures Descending(us[1..])
    ensures |us| > 1 ==> us[1..][0].time <= us[0].time
  {
  }

  /** `u` placed before the first user with at most its minutes. */
  function InsertByTime(u: RankedUser, us: seq<RankedUser>): (r: seq<RankedUser>)
    requires Descending(us)
    ensures Descending(r)
    ensures multiset(r) == multiset(us) + multiset{u}
    ensures forall j :: 0 <= j < |r| ==> r[j].time <= u.time || (us != [] && r[j].time <= us[0].time)
  {
    if us == [] || u.time >= us[0].time then
      ConsDescending(u, us);
      [u] + us
    else
      DescendingTail(us);
      var rest := InsertByTime(u, us[1..]);
      assert forall j :: 0 <= j < |rest| ==> rest[j].time <= us[0].time;
      ConsDescending(us[0], rest);
      assert us == [us[0]] + us[1..];
      [us[0]] + rest
  }

  /**
    `.sort((a, b) => b.time - a.time)`: JavaScript's sort is stable, so this
    is the stable sort by minutes, largest first.
  */
  function SortByTime(us: seq<RankedUser>): (r: seq<RankedUser>)
    ensures Descending(r)
    ensures multiset(r) == multiset(us)
  {
    if us == [] then []
    else
      assert us == [us[0]] + us[1..];
      InsertByTime(us[0], SortByTime(us[1..]))
  }

  lemma {:induction false} InsertKeepsWithTime(u: RankedUser, us: seq<RankedUser>, time: int)
    requires Descending(us)
    ensures WithTime(InsertByTime(u, us), time) == if u.time == time then [u] + WithTime(us, time) else WithTime(us, time)
    decreases |us|
  {
    if us == [] || u.time >= us[0].time {
      assert ([u] + us)[1..] == us;
    } else {
      InsertKeepsWithTime(u, us[1..], time);
      assert ([us[0]] + InsertByTime(u, us[1..]))[1..] == InsertByTime(u, us[1..]);
    }
  }

  /** Stability: users with equal minutes keep their input order. */
  lemma {:induction false} SortIsStable(us: seq<RankedUser>, time: int)
    ensures WithTime(SortByTime(us), time) == WithTime(us, time)
    decreases |us|
  {
    if us != [] {
      SortIsStable(us[1..], time);
      InsertKeepsWithTime(us[0], SortByTime(us[1..]), time);
    }
  }

  lemma {:induction false} WithTimeMembers(us: seq<RankedUser>, time: int, x: RankedUser)
    ensures x in WithTime(us, time) <==> x in us && x.time == time
    decreases |us|
  {
    if us != [] {
      WithTimeMembers(us[1..], time, x);
      assert us == [us[0]] + us[1..];
    }
  }

  lemma SameEmptiness(a: seq<RankedUser>, b: seq<RankedUser>)
    requires forall time :: WithTime(a, time) == WithTime(b, time)
    ensures a == [] <==> b == []
  {
    if b != [] {
      WithTimeMembers(b, b[0].time, b[0]);
      WithTimeMembers(a, b[0].time, b[0]);
    }
    if a != [] {
      WithTimeMembers(a, a[0].time, a[0]);
      WithTimeMembers(b, a[0].time, a[0]);
    }
  }

  /** Two descending sequences that agree on the users of every minute count are equal. */
  lemma {:induction false} DescendingDeterminedByTimes(a: seq<RankedUser>, b: seq<RankedUser>)
    requires Descending(a) && Descending(b)
    requires forall time :: WithTime(a, time) == WithTime(b, time)
    ensures a == b
    decreases |a|
  {
    SameEmptiness(a, b);
    if a != [] {
      var ta, tb := a[0].time, b[0].time;
      WithTimeMembers(a, ta, a[0]);
      WithTimeMembers(b, ta, a[0]);
      WithTimeMembers(b, tb, b[0]);
      WithTimeMembers(a, tb, b[0]);
      assert ta == tb;
      assert WithTime(a, ta) == [a[0]] + WithTime(a[1..], ta);
      assert WithTime(b, ta) == [b[0]] + WithTime(b[1..], ta);
      assert WithTime(a, ta)[0] == a[0] && WithTime(b, ta)[0] == b[0];
      forall time ensures WithTime(a[1..], time) == WithTime(b[1..], time) {
        assert WithTime(a, time) == WithTime(b, time);
        if time == ta {
          assert WithTime(a, time)[1..] == WithTime(a[1..], time);
          assert WithTime(b, time)[1..] == WithTime(b[1..], time);
        } else {
          assert WithTime(a, time) == WithTime(a[1..], time);
          assert WithTime(b, time) == WithTime(b[1..], time);
        }
      }
      DescendingDeterminedByTimes(a[1..], b[1..]);
      assert a == [a[0]] + a[1..] && b == [b[0]] + b[1..];
    }
  }

  /**
    Any stable sort by minutes, largest first, returns what `SortByTime`
    returns: the result does not depend on the sorting algorithm.
  */
  lemma StableSortIsUnique(us: seq<RankedUser>, r: seq<RankedUser>)
    requires Descending(r)
    requires forall time :: WithTime(r, time) == WithTime(us, time)
    ensures r == SortByTime(us)
  {
    forall time ensures WithTime(SortByTime(us), time) == WithTime(us, time) {
      SortIsStable(us, time);
    }
    DescendingDeterminedByTimes(r, SortByTime(us));
  }

  /** `sortedUsers`: sorted by minutes for a dictionary, unchanged for an array. */
  function SortedUsers(ranking: Ranking, names: map<string, string>): seq<RankedUser>
  {
    match ranking
    case NamedDurations(entries) => FromEntries(entries)
    case PlayerMinutes(times) => SortByTime(ResolveNames(times, names))
  }

  /**
    What `sortedUsers` holds: for a dictionary, its entries with display names,
    as a permutation ordered by minutes, largest first, equal minutes in entry
    order; for an array, its entries in the order given.
  */
  lemma SortedUsersSpec(ranking: Ranking, names: map<string, string>)
    ensures ranking.NamedDurations? ==>
      var r := SortedUsers(ranking, names);
      && |r| == |ranking.entries|
      && forall i :: 0 <= i < |r| ==> r[i].name == ranking.entries[i].name && r[i].time == ranking.entries[i].duration
    ensures ranking.PlayerMinutes? ==>
      var r, resolved := SortedUsers(ranking, names), ResolveNames(ranking.times, names);
      && Descending(r)
      && multiset(r) == multiset(resolved)
      && forall time :: WithTime(r, time) == WithTime(resolved, time)
  {
    if ranking.PlayerMinutes? {
      forall time ensures WithTime(SortByTime(ResolveNames(ranking.times, names)), time) == WithTime(ResolveNames(ranking.times, names), time) {
        SortIsStable(ResolveNames(ranking.times, names), time);
      }
    }
  }

  // ---------------------------------------------------------------------------
  // Rendering
  // ---------------------------------------------------------------------------

  predicate IsDigit(c: char)
  {
    '0' as int <= c as int <= '9' as int
  }

  predicate AllDigits(s: string)
  {
    forall i :: 0 <= i < |s| ==> IsDigit(s[i])
  }

  /** The decimal digits of `n`, without leading zeros. */
  function NatToString(n: nat): string
  {
    if n < 10 then ["0123456789"[n]]
    else NatToString(n / 10) + ["0123456789"[n % 10]]
  }

  /** `${n}` for an integer `n`. */
  function IntToString(n: int): string
  {
    if n < 0 then "-" + NatToString(-n) else NatToString(n)
  }

  /** The value of a string of decimal digits. */
  function DigitsValue(s: string): nat
    requires AllDigits(s)
  {
    if s == [] then 0 else 10 * DigitsValue(s[..|s| - 1]) + (s[|s| - 1] as int - '0' as int)
  }

  /** The value of a decimal numeral with an optional leading minus sign. */
  function ParseInt(s: string): Option<int>
  {
    if |s| > 1 && s[0] == '-' && AllDigits(s[1..]) then Some(-(DigitsValue(s[1..]) as int))
    else if s != [] && AllDigits(s) then Some(DigitsValue(s) as int)
    else None
  }

  /** The digit character of `k` is a digit whose value is `k`. */
  lemma DigitChar(k: nat)
    requires k < 10
    ensures IsDigit("0123456789"[k]) && "0123456789"[k] as int - '0' as int == k
  {
  }

  /** A natural number renders as a non-empty run of digits without a leading zero, which reads back as the number. */
  lemma {:induction false} NatToStringValue(n: nat)
    ensures var s := NatToString(n);
      && s != [] && AllDigits(s) && (|s| > 1 ==> s[0] != '0')
      && DigitsValue(s) == n
  {
    DigitChar(n % 10);
    if n >= 10 {
      var prefix := NatToString(n / 10);
      var last := "0123456789"[n % 10];
      NatToStringValue(n / 10);
      var s := NatToString(n);
      assert s == prefix + [last];
      assert s[..|s| - 1] == prefix;
      assert s[0] == prefix[0];
      assert AllDigits(s) by {
        forall i | 0 <= i < |s| ensures IsDigit(s[i]) {
          if i < |prefix| {
            assert s[i] == prefix[i];
          }
        }
      }
      assert DigitsValue(s) == 10 * DigitsValue(prefix) + (last as int - '0' as int);
    } else {
      assert NatToString(n) == ["0123456789"[n]];
    }
  }

  /** Rendering an integer loses nothing: it reads back as the same integer. */
  lemma IntToStringRoundTrip(n: int)
    ensures ParseInt(IntToString(n)) == Some(n)
  {
    var m: nat := if n < 0 then -n else n;
    var digits := NatToString(m);
    NatToStringValue(m);
    if n < 0 {
      var s := "-" + digits;
      assert s == IntToString(n);
      assert s[1..] == digits;
      assert |s| > 1 && s[0] == '-';
    } else {
      assert digits == IntToString(n);
      assert IsDigit(digits[0]);
      assert digits[0] != '-';
    }
  }

  /** `Math.floor(time / 60)`. */
  function Hours(time: int): (r: int)
    ensures r * 60 <= time < r * 60 + 60
  {
    time / 60
  }

  /** `time % 60` in JavaScript: the remainder takes the sign of `time`. */
  function Minutes(time: int): (r: int)
    ensures -60 < r < 60 && (time - r) % 60 == 0
    ensures time >= 0 ==> r >= 0
    ensures time <= 0 ==> r <= 0
  {
    if time >= 0 then time % 60 else -((-time) % 60)
  }

  /** For a non-negative time, hours and minutes add up to the time, with minutes below 60. */
  lemma {:induction false} HoursMinutesOfTime(time: int)
    requires time >= 0
    ensures Hours(time) >= 0 && 0 <= Minutes(time) < 60
    ensures Hours(time) * 60 + Minutes(time) == time
  {
  }

  /**
    For a negative time that is not a whole number of hours, the floored hours
    and the truncated minutes do not add up: they give an hour less.
  */
  lemma {:induction false} HoursMinutesOfNegativeTime(time: int)
    requires time < 0 && time % 60 != 0
    ensures Hours(time) * 60 + Minutes(time) == time - 60
  {
  }

  /** The heading line, without its line break. */
  function Heading(title: string): string
  {
    title + "："
  }

  /** The line for the user at rank `rank`, without its line break: `{rank}. {name}: {h}時間{m}分`. */
  function RankText(rank: int, u: RankedUser): string
  {
    IntToString(rank) + ". " + u.name + ": " + IntToString(Hours(u.time)) + "時間" + IntToString(Minutes(u.time)) + "分"
  }

  /** The message line by line: the heading, then one line per user at consecutive ranks from 1. */
  function MessageLines(title: string, us: seq<RankedUser>): (r: seq<string>)
    ensures |r| == 1 + |us|
    ensures r[0] == Heading(title)
    ensures forall i :: 0 <= i < |us| ==> r[i + 1] == RankText(i + 1, us[i])
  {
    var rankLines := seq(|us|, i requires 0 <= i < |us| => RankText(i + 1, us[i]));
    assert forall i :: 0 <= i < |us| ==> ([Heading(title)] + rankLines)[i + 1] == rankLines[i];
    [Heading(title)] + rankLines
  }

  /** Lines joined, each followed by a line break. */
  function JoinLines(lines: seq<string>): string
  {
    if lines == [] then "" else JoinLines(lines[..|lines| - 1]) + lines[|lines| - 1] + "\n"
  }

  /** The whole message for the users `us`. */
  function RenderMessage(title: string, us: seq<RankedUser>): string
  {
    JoinLines(MessageLines(title, us))
  }

  /** With no users the message is the heading line alone. */
  lemma RenderNoUsers(title: string)
    ensures RenderMessage(title, []) == title + "：\n"
  {
    assert MessageLines(title, []) == [Heading(title)];
    assert [Heading(title)][..0] == [];
    assert JoinLines([Heading(title)]) == "" + Heading(title) + "\n";
    assert Heading(title) + "\n" == title + "：\n";
  }

  /** One more user adds one line at the next rank. */
  lemma RenderOneMore(title: string, us: seq<RankedUser>, u: RankedUser)
    ensures RenderMessage(title, us + [u]) == RenderMessage(title, us) + RankText(|us| + 1, u) + "\n"
  {
    var lines := MessageLines(title, us + [u]);
    assert lines[..|lines| - 1] == MessageLines(title, us);
  }

  /** A user with 125 minutes at rank 1 renders as two hours and five minutes. */
  lemma ExampleRankLine()
    ensures RankText(1, RankedUser("n", 125)) == "1. n: 2時間5分"
  {
  }

  /** Number of line breaks in `s`. */
  function LineBreaks(s: string): nat
  {
    multiset(s)['\n']
  }

  lemma NumberHasNoLineBreak(n: int)
    ensures LineBreaks(IntToString(n)) == 0
  {
    var s := IntToString(n);
    NatToStringValue(if n < 0 then -n else n);
    assert forall i :: 0 <= i < |s| ==> s[i] != '\n';
    assert '\n' !in s;
  }

  lemma RankTextHasNoLineBreak(rank: int, u: RankedUser)
    requires LineBreaks(u.name) == 0
    ensures LineBreaks(RankText(rank, u)) == 0
  {
    NumberHasNoLineBreak(rank);
    NumberHasNoLineBreak(Hours(u.time));
    NumberHasNoLineBreak(Minutes(u.time));
    assert LineBreaks(". ") == 0 && LineBreaks(": ") == 0 && LineBreaks("時間") == 0 && LineBreaks("分") == 0;
  }

  /** Joined lines that have no line break of their own have one line break each. */
  lemma {:induction false} JoinLinesLineBreaks(lines: seq<string>)
    requires forall i :: 0 <= i < |lines| ==> LineBreaks(lines[i]) == 0
    ensures LineBreaks(JoinLines(lines)) == |lines|
    decreases |lines|
  {
    if lines != [] {
      JoinLinesLineBreaks(lines[..|lines| - 1]);
    }
  }

  /**
    When neither the title nor any name contains a line break, the message
    has exactly 1 + n line breaks for n users: one heading line and one line
    per user.
  */
  lemma MessageLineCount(title: string, us: seq<RankedUser>)
    requires LineBreaks(title) == 0
    requires forall i :: 0 <= i < |us| ==> LineBreaks(us[i].name) == 0
    ensures LineBreaks(RenderMessage(title, us)) == 1 + |us|
  {
    var lines := MessageLines(title, us);
    assert LineBreaks("：") == 0;
    forall i | 0 <= i < |lines| ensures LineBreaks(lines[i]) == 0 {
      if i > 0 {
        RankTextHasNoLineBreak(i, us[i - 1]);
      }
    }
    JoinLinesLineBreaks(lines);
  }

  /** `s.split('\n')`: the pieces between line breaks, in order, ending with the piece after the last one. */
  function SplitLines(s: string): (r: seq<string>)
    ensures |r| >= 1
    decreases |s|
  {
    if s == [] then [""]
    else
      var rest := SplitLines(s[1..]);
      if s[0] == '\n' then [""] + rest else [[s[0]] + rest[0]] + rest[1..]
  }

  /** A line without a line break, followed by one, splits off as the first piece. */
  lemma {:induction false} SplitAfterLine(line: string, rest: string)
    requires '\n' !in line
    ensures SplitLines(line + "\n" + rest) == [line] + SplitLines(rest)
    decreases |line|
  {
    var s := line + "\n" + rest;
    if line == [] {
      assert s == "\n" + rest;
      assert s[1..] == rest;
    } else {
      assert line[0] in line;
      SplitAfterLine(line[1..], rest);
      assert s[1..] == line[1..] + "\n" + rest;
      assert [line[0]] + line[1..] == line;
    }
  }

  /** Joining puts the first line first. */
  lemma {:induction false} JoinLinesCons(line: string, lines: seq<string>)
    ensures JoinLines([line] + lines) == line + "\n" + JoinLines(lines)
    decreases |lines|
  {
    var all := [line] + lines;
    if lines == [] {
      assert all[..|all| - 1] == [];
    } else {
      var init := lines[..|lines| - 1];
      assert all[..|all| - 1] == [line] + init;
      JoinLinesCons(line, init);
    }
  }

  /** Splitting joined lines that have no line break of their own gives the lines back, and an empty last piece. */
  lemma {:induction false} SplitJoinLines(lines: seq<string>)
    requires forall i :: 0 <= i < |lines| ==> '\n' !in lines[i]
    ensures SplitLines(JoinLines(lines)) == lines + [""]
    decreases |lines|
  {
    if lines != [] {
      assert lines == [lines[0]] + lines[1..];
      JoinLinesCons(lines[0], lines[1..]);
      SplitAfterLine(lines[0], JoinLines(lines[1..]));
      SplitJoinLines(lines[1..]);
    }
  }

  /**
    When neither the title nor any name contains a line break, splitting the
    message at its line breaks gives the heading line, then the line of each
    user at consecutive ranks, then the empty piece after the final break.
  */
  lemma SplitMessage(title: string, us: seq<RankedUser>)
    requires LineBreaks(title) == 0
    requires forall i :: 0 <= i < |us| ==> LineBreaks(us[i].name) == 0
    ensures SplitLines(RenderMessage(title, us)) == MessageLines(title, us) + [""]
  {
    var lines := MessageLines(title, us);
    assert LineBreaks("：") == 0;
    forall i | 0 <= i < |lines| ensures '\n' !in lines[i] {
      if i > 0 {
        RankTextHasNoLineBreak(i, us[i - 1]);
      }
      assert '\n' !in multiset(lines[i]);
    }
    SplitJoinLines(lines);
  }

  /** Appending the line of the next user extends the message for a prefix of the users by one user. */
  lemma RenderNextUser(title: string, us: seq<RankedUser>, n: nat)
    requires n < |us|
    ensures RenderMessage(title, us[..n]) + RankText(n + 1, us[n]) + "\n" == RenderMessage(title, us[..n + 1])
  {
    assert us[..n + 1] == us[..n] + [us[n]];
    RenderOneMore(title, us[..n], us[n]);
  }

  /**
    The second half of `formatRankingMessage`: the heading line, then a loop
    that appends one line per user of `sortedUsers`.
  */
  method BuildMessage(title: string, sortedUsers: seq<RankedUser>) returns (message: string)
    ensures message == JoinLines(MessageLines(title, sortedUsers))
  {
    message := title + "：\n";
    RenderNoUsers(title);
    assert sortedUsers[..0] == [];
    var index := 0;
    while index < |sortedUsers|
      invariant 0 <= index <= |sortedUsers|
      invariant message == RenderMessage(title, sortedUsers[..index])
    {
      var user := sortedUsers[index];
      RenderNextUser(title, sortedUsers, index);
      message := message + RankText(index + 1, user) + "\n";
      index := index + 1;
    }
    assert sortedUsers[..index] == sortedUsers;
  }

  /** `formatRankingMessage(title, ranking)`: `sortedUsers` from the ranking, then the message built from it. */
  method FormatRankingMessage(title: string, ranking: Ranking, names: map<string, string>) returns (message: string)
    ensures message == JoinLines(MessageLines(title, SortedUsers(ranking, names)))
  {
    var sortedUsers := SortedUsers(ranking, names);
    message := BuildMessage(title, sortedUsers);
  }

  /** A sort that keeps the multiset of users keeps every per-user fact about names. */
  lemma SortedNamesHaveNoLineBreak(us: seq<RankedUser>)
    requires forall i :: 0 <= i < |us| ==> LineBreaks(us[i].name) == 0
    ensures forall i :: 0 <= i < |SortByTime(us)| ==> LineBreaks(SortByTime(us)[i].name) == 0
  {
    var sorted := SortByTime(us);
    forall i | 0 <= i < |sorted| ensures LineBreaks(sorted[i].name) == 0 {
      assert sorted[i] in multiset(us);
      var k :| 0 <= k < |us| && us[k] == sorted[i];
    }
  }

  /** Display names contain no line break when no cached name does. */
  lemma ResolvedNamesHaveNoLineBreak(times: Dict<int>, names: map<string, string>)
    requires forall p :: p in names ==> LineBreaks(names[p]) == 0
    ensures forall i :: 0 <= i < |ResolveNames(times, names)| ==> LineBreaks(ResolveNames(times, names)[i].name) == 0
  {
    assert LineBreaks(UnknownPlayer) == 0;
  }

  /** Without line breaks in the title and the cached names, a dictionary ranking renders as 1 + n lines. */
  lemma RankingLineCount(title: string, times: Dict<int>, names: map<string, string>)
    requires LineBreaks(title) == 0
    requires forall p :: p in names ==> LineBreaks(names[p]) == 0
    ensures LineBreaks(RenderMessage(title, SortedUsers(PlayerMinutes(times), names))) == 1 + |times|
  {
    var resolved := ResolveNames(times, names);
    var users := SortByTime(resolved);
    assert SortedUsers(PlayerMinutes(times), names) == users;
    ResolvedNamesHaveNoLineBreak(times, names);
    SortedNamesHaveNoLineBreak(resolved);
    MessageLineCount(title, users);
    calc {
      |users|;
      |multiset(users)|;
      |multiset(resolved)|;
      |resolved|;
    }
  }

  /** The players that have at least one `join` record. */
  function JoinedPlayers(activities: seq<UserActivityRepository.UserActivity>): set<string>
  {
    set i | 0 <= i < |activities| && activities[i].action == UserActivityRepository.Join :: activities[i].playerId
  }

  /**
    The report on the records of a window has one line per player who joined
    in it, ordered by minutes, and none of those minutes is negative, so each
    line's hours and minutes add up to the player's total.
  */
  lemma ReportOfQuery(title: string, activities: seq<UserActivityRepository.UserActivity>, startDate: int, endDate: int,
                      names: map<string, string>)
    requires UserActivityRepository.ByTimestamp(activities)
    requires UserActivityRepository.WithinWindow(activities, startDate, endDate)
    ensures var users := SortedUsers(PlayerMinutes(UserActivityRepository.UserTimes(activities, endDate)), names);
      && Descending(users)
      && |users| == |JoinedPlayers(activities)|
      && |MessageLines(title, users)| == 1 + |JoinedPlayers(activities)|
      && forall i :: 0 <= i < |users| ==> 0 <= Minutes(users[i].time) < 60 && Hours(users[i].time) * 60 + Minutes(users[i].time) == users[i].time
  {
    var times := UserActivityRepository.UserTimes(activities, endDate);
    var resolved := ResolveNames(times, names);
    var users := SortByTime(resolved);
    UserActivityRepository.UserTimesOfQuery(activities, startDate, endDate);
    forall p ensures p in Keys(times) <==> p in JoinedPlayers(activities) {
      UserActivityRepository.UserTimesByJoins(activities, p, endDate);
      if UserActivityRepository.HasJoin(activities, p) {
        var i :| 0 <= i < |activities| && activities[i].playerId == p && activities[i].action == UserActivityRepository.Join;
        assert p in JoinedPlayers(activities);
      }
    }
    assert Keys(times) == JoinedPlayers(activities);
    KeysCount(times);
    assert |multiset(users)| == |multiset(resolved)|;
    forall i | 0 <= i < |users| ensures users[i].time >= 0 {
      assert users[i] in multiset(resolved);
      var k :| 0 <= k < |resolved| && resolved[k] == users[i];
      GetEntry(times, k);
    }
    forall i | 0 <= i < |users|
      ensures 0 <= Minutes(users[i].time) < 60 && Hours(users[i].time) * 60 + Minutes(users[i].time) == users[i].time
    {
      HoursMinutesOfTime(users[i].time);
    }
  }

  /** Neither report title contains a line break, so both reports have one line per ranked player. */
  lemma ReportTitlesHaveNoLineBreak()
    ensures LineBreaks(DailyTitle) == 0 && LineBreaks(WeeklyTitle) == 0
  {
    assert '\n' !in DailyTitle && '\n' !in WeeklyTitle;
  }

  /**
    `sendDailyReport` and `sendWeeklyReport` (with `DailyTitle` or
    `WeeklyTitle`) up to the delivery: the minutes aggregated over the
    records of the window, formatted as a ranking.
  */
  method ReportMessage(title: string, activities: seq<UserActivityRepository.UserActivity>, startDate: int, endDate: int,
                       names: map<string, string>) returns (message: string)
    requires UserActivityRepository.ByTimestamp(activities)
    requires UserActivityRepository.WithinWindow(activities, startDate, endDate)
    ensures message == RenderMessage(title, SortedUsers(PlayerMinutes(UserActivityRepository.UserTimes(activities, endDate)), names))
    ensures LineBreaks(title) == 0 && (forall p :: p in names ==> LineBreaks(names[p]) == 0) ==>
      LineBreaks(message) == 1 + |JoinedPlayers(activities)|
  {
    var userTimes := UserActivityRepository.CalculateUserTime(activities, startDate, endDate);
    message := FormatRankingMessage(title, PlayerMinutes(userTimes), names);
    ReportOfQuery(title, activities, startDate, endDate, names);
    if LineBreaks(title) == 0 && (forall p :: p in names ==> LineBreaks(names[p]) == 0) {
      RankingLineCount(title, userTimes, names);
    }
  }
}
