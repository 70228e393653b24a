/** The streak tracker of project.js:239-303. Calendar dates are integer day numbers
    (local midnights), so "today" is `today` and "yesterday" is `today - 1`. */
module Streak {
  import opened Wrappers

  /** One entry of `BADGES`: the streak length that earns it and its name. */
  datatype Badge = Badge(threshold: int, name: string)

  /** `BADGES` in the order `Object.entries` visits its integer-like keys: ascending. */
  const Badges: seq<Badge> :=
    [Badge(7, "7-Day Streak"), Badge(30, "30-Day Streak"), Badge(100, "100-Day Streak")]

  /** The minutes of activity a day needs to count towards the streak. */
  const MinMinutes: int := 5

  /** The minutes the "log activity" button reports (project.js:306). */
  const LoggedMinutes: int := 10

  /** The persisted record `{currentStreak, longestStreak, lastActivityDate, badges}`. */
  datatype StreakState = StreakState(current: int, longest: int, lastDay: Option<int>, badges: seq<string>)

  /** What `loadData` yields when nothing has been stored yet. */
  const Initial: StreakState := StreakState(0, 0, None, [])

  /** The new `currentStreak`: kept on a second log the same day, one more when the
      last log was yesterday and this one is long enough, otherwise restarted at 1 or 0. */
  function NextStreak(lastDay: Option<int>, current: int, today: int, minutes: int): (r: int)
    ensures lastDay == Some(today) ==> r == current
    ensures lastDay == Some(today - 1) && minutes >= MinMinutes ==> r == current + 1
    ensures lastDay != Some(today) && lastDay != Some(today - 1) && minutes >= MinMinutes ==> r == 1
    ensures lastDay != Some(today) && minutes < MinMinutes ==> r == 0
  {
    match lastDay
    case Some(last) =>
      if last == today then current
      else if last == today - 1 && minutes >= MinMinutes then current + 1
      else if minutes >= MinMinutes then 1 else 0
    case None => if minutes >= MinMinutes then 1 else 0
  }

  /** One iteration of the badge loop. */
  function AwardOne(badges: seq<string>, b: Badge, streak: int): seq<string>
  {
    if streak >= b.threshold && b.name !in badges then badges + [b.name] else badges
  }

  /** The badge loop run over `table` in order. */
  function Award(badges: seq<string>, table: seq<Badge>, streak: int): seq<string>
    decreases |table|
  {
    if table == [] then badges
    else AwardOne(Award(badges, table[..|table| - 1], streak), table[|table| - 1], streak)
  }

  /** `updateStreak(minutes)` on the loaded record, on day `today`. */
  function Update(s: StreakState, today: int, minutes: int): (r: StreakState)
    ensures r.longest >= r.current && r.longest >= s.longest
    ensures r.longest == s.longest || r.longest == r.current
    ensures r.lastDay == Some(today)
    ensures s.lastDay == Some(today) ==> r.current == s.current
    ensures s.lastDay == Some(today - 1) && minutes >= MinMinutes ==> r.current == s.current + 1
    ensures s.lastDay != Some(today) && s.lastDay != Some(today - 1) ==>
      r.current == if minutes >= MinMinutes then 1 else 0
    ensures s.lastDay != Some(today) && minutes < MinMinutes ==> r.current == 0
  {
    var current := NextStreak(s.lastDay, s.current, today, minutes);
    var longest := if s.longest >= current then s.longest else current;
    StreakState(current, longest, Some(today), Award(s.badges, Badges, current))
  }

  /** The state of `updateStreak` between `loadData` and `saveData`: the fields of `data`
      that it updates in place. */
  class StreakData {
    var currentStreak: int
    var longestStreak: int
    var lastActivityDay: Option<int>
    var badges: seq<string>

    function State(): StreakState
      reads this
    {
      StreakState(currentStreak, longestStreak, lastActivityDay, badges)
    }

    /** `loadData()`, with the parsing of storage abstracted to its result. */
    constructor (loaded: StreakState)
      ensures State() == loaded
    {
      currentStreak, longestStreak := loaded.current, loaded.longest;
      lastActivityDay, badges := loaded.lastDay, loaded.badges;
    }

    /** `updateStreak(activityMinutes)` on day `today`. */
    method UpdateStreak(today: int, activityMinutes: int)
      modifies this
      ensures State() == Update(old(State()), today, activityMinutes)
    {
      ghost var s := State();
      match lastActivityDay {
        case Some(last) =>
          if last == today {
          } else if last == today - 1 && activityMinutes >= MinMinutes {
            currentStreak := currentStreak + 1;
          } else {
            currentStreak := if activityMinutes >= MinMinutes then 1 else 0;
          }
        case None =>
          currentStreak := if activityMinutes >= MinMinutes then 1 else 0;
      }
      assert currentStreak == NextStreak(s.lastDay, s.current, today, activityMinutes);
      longestStreak := if longestStreak >= currentStreak then longestStreak else currentStreak;
      lastActivityDay := Some(today);
      ghost var updated := State();
      for i := 0 to |Badges|
        invariant State() == updated.(badges := Award(old(badges), Badges[..i], currentStreak))
      {
        var b := Badges[i];
        assert Badges[..i + 1][..i] == Badges[..i];
        if currentStreak >= b.threshold && b.name !in badges {
          badges := badges + [b.name];
        }
      }
      assert Badges[..|Badges|] == Badges;
    }
  }

  /** No badge name is listed twice. */
  predicate NoDuplicates(s: seq<string>)
  {
    forall i, j | 0 <= i < j < |s| :: s[i] != s[j]
  }

  /** Some entry of `table` named `name` has a threshold within `streak`. */
  predicate EarnedIn(table: seq<Badge>, name: string, streak: int)
  {
    exists i | 0 <= i < |table| :: table[i].name == name && table[i].threshold <= streak
  }

  /** Badges are only appended: the earlier list is a prefix of the later one. */
  lemma {:induction false} AwardKeepsPrefix(badges: seq<string>, table: seq<Badge>, streak: int)
    ensures |badges| <= |Award(badges, table, streak)|
    ensures Award(badges, table, streak)[..|badges|] == badges
  {
    if table != [] {
      AwardKeepsPrefix(badges, table[..|table| - 1], streak);
    }
  }

  /** After the loop the list holds exactly the badges held before and the badges whose
      threshold the streak reaches. */
  lemma {:induction false} AwardMembers(badges: seq<string>, table: seq<Badge>, streak: int, x: string)
    ensures x in Award(badges, table, streak) <==> x in badges || EarnedIn(table, x, streak)
  {
    if table != [] {
      var init := table[..|table| - 1];
      AwardMembers(badges, init, streak, x);
      if EarnedIn(table, x, streak) && !EarnedIn(init, x, streak) {
        assert table[|table| - 1].name == x;
      }
      if EarnedIn(init, x, streak) {
        var i :| 0 <= i < |init| && init[i].name == x && init[i].threshold <= streak;
        assert table[i] == init[i];
      }
    }
  }

  /** A badge already held is never appended again. */
  lemma {:induction false} AwardNoDuplicates(badges: seq<string>, table: seq<Badge>, streak: int)
    requires NoDuplicates(badges)
    ensures NoDuplicates(Award(badges, table, streak))
  {
    if table != [] {
      AwardNoDuplicates(badges, table[..|table| - 1], streak);
    }
  }

  /** When every badge the table would award is already held, the loop adds nothing. */
  lemma {:induction false} AwardNothingNew(badges: seq<string>, table: seq<Badge>, streak: int)
    requires forall i | 0 <= i < |table| :: table[i].threshold <= streak ==> table[i].name in badges
    ensures Award(badges, table, streak) == badges
  {
    if table != [] {
      AwardNothingNew(badges, table[..|table| - 1], streak);
    }
  }

  /** Running the badge loop twice with the same streak adds nothing the second time. */
  lemma AwardIdempotent(badges: seq<string>, table: seq<Badge>, streak: int)
    ensures Award(Award(badges, table, streak), table, streak) == Award(badges, table, streak)
  {
    var once := Award(badges, table, streak);
    forall i | 0 <= i < |table| && table[i].threshold <= streak
      ensures table[i].name in once
    {
      AwardMembers(badges, table, streak, table[i].name);
    }
    AwardNothingNew(once, table, streak);
  }

  /** The record as `updateStreak` keeps it: streaks never negative, the longest never
      below the current, no badge twice, and the badges held are exactly those whose
      threshold the longest streak reached. */
  ghost predicate Inv(s: StreakState)
  {
    && 0 <= s.current <= s.longest
    && NoDuplicates(s.badges)
    && (forall x | x in s.badges :: EarnedIn(Badges, x, s.longest))
    && (forall i | 0 <= i < |Badges| :: Badges[i].threshold <= s.longest ==> Badges[i].name in s.badges)
  }

  lemma InitialInv()
    ensures Inv(Initial)
  {
  }

  /** `updateStreak` keeps the invariant. */
  lemma UpdateKeepsInv(s: StreakState, today: int, minutes: int)
    requires Inv(s)
    ensures Inv(Update(s, today, minutes))
  {
    var r := Update(s, today, minutes);
    AwardNoDuplicates(s.badges, Badges, r.current);
    forall x | x in r.badges ensures EarnedIn(Badges, x, r.longest) {
      AwardMembers(s.badges, Badges, r.current, x);
    }
    forall i | 0 <= i < |Badges| && Badges[i].threshold <= r.longest
      ensures Badges[i].name in r.badges
    {
      AwardMembers(s.badges, Badges, r.current, Badges[i].name);
      AwardKeepsPrefix(s.badges, Badges, r.current);
      if Badges[i].name in s.badges {
        var k :| 0 <= k < |s.badges| && s.badges[k] == Badges[i].name;
        assert r.badges[k] == s.badges[k];
      }
    }
  }

  /** The first entry of `table` whose name is not held, as `Array.prototype.find`. */
  function FirstUnheld(table: seq<Badge>, badges: seq<string>): (r: Option<nat>)
    ensures r.Some? ==> r.value < |table| && table[r.value].name !in badges
    ensures r.Some? ==> forall j | 0 <= j < r.value :: table[j].name in badges
    ensures r.None? <==> forall j | 0 <= j < |table| :: table[j].name in badges
    decreases |table|
  {
    if table == [] then None
    else if table[0].name !in badges then Some(0)
    else match FirstUnheld(table[1..], badges)
      case None => None
      case Some(i) => Some(i + 1)
  }

  /** The "Next:" badge shown by `updateUI`, or `None` for "All badges earned!". */
  function NextBadge(badges: seq<string>): (r: Option<Badge>)
    ensures r.None? <==> forall b | b in Badges :: b.name in badges
    ensures r.Some? ==> r.value in Badges && r.value.name !in badges
    ensures r.Some? ==> forall b | b in Badges && b.threshold < r.value.threshold :: b.name in badges
  {
    match FirstUnheld(Badges, badges)
    case None => None
    case Some(i) => Some(Badges[i])
  }

  /** For a record kept by `updateStreak`, the next badge is the one with the smallest
      threshold beyond the longest streak, and there is none once 100 days were reached. */
  lemma NextBadgeBeyondLongest(s: StreakState)
    requires Inv(s)
    ensures NextBadge(s.badges).None? <==> s.longest >= 100
    ensures NextBadge(s.badges).Some? ==>
      && NextBadge(s.badges).value in Badges
      && NextBadge(s.badges).value.threshold > s.longest
      && forall b | b in Badges && b.threshold < NextBadge(s.badges).value.threshold :: b.threshold <= s.longest
  {
    if s.longest < 100 {
      assert !EarnedIn(Badges, Badges[2].name, s.longest);
    }
  }

  /** `currentStreak % 7` as JavaScript computes it (the sign follows the dividend): the
      number of sevenths the progress bar is filled. */
  function ProgressStep(current: int): (r: int)
    ensures current >= 0 ==> 0 <= r < 7
    ensures current < 0 ==> -7 < r <= 0
    ensures (current - r) % 7 == 0
  {
    if current >= 0 then current % 7 else -((-current) % 7)
  }

  /** The bar is empty exactly on multiples of seven days, where the 7-day cycle restarts. */
  lemma ProgressEmptyOnWeeks(current: int)
    ensures ProgressStep(current) == 0 <==> current % 7 == 0
  {
  }

  /** The record after the "log activity" button was pressed on each of `days`, in order. */
  function Replay(s: StreakState, days: seq<int>): StreakState
    decreases |days|
  {
    if days == [] then s else Update(Replay(s, days[..|days| - 1]), days[|days| - 1], LoggedMinutes)
  }

  /** Days `lo` to `hi - 1` of the log are consecutive calendar days. */
  predicate Consecutive(days: seq<int>, lo: int, hi: int)
    requires 0 <= lo <= hi <= |days|
  {
    forall j | lo <= j < hi - 1 :: days[j + 1] == days[j] + 1
  }

  /** Strictly increasing days: one press per day, in date order. */
  predicate Increasing(days: seq<int>)
  {
    forall j | 0 <= j < |days| - 1 :: days[j] < days[j + 1]
  }

  /** A run of consecutive days that ends at the end of the log and is followed, going
      backwards, by a gap, is the longest run ending there. */
  lemma TailRunIsMaximal(days: seq<int>, k: int, lo: int)
    requires 1 <= k <= |days| && Consecutive(days, |days| - k, |days|)
    requires k < |days| ==> days[|days| - k - 1] + 1 != days[|days| - k]
    requires 0 <= lo <= |days| && Consecutive(days, lo, |days|)
    ensures |days| - lo <= k
  {
  }

  /** One more press, on a later day than the previous one: the streak grows by one when
      that day was yesterday and restarts at 1 otherwise; the longest keeps up with it. */
  lemma ReplayStep(days: seq<int>)
    requires Increasing(days) && |days| >= 2
    ensures var p := Replay(Initial, days[..|days| - 1]);
      var r := Replay(Initial, days);
      && r.current == (if days[|days| - 2] + 1 == days[|days| - 1] then p.current + 1 else 1)
      && r.longest == (if p.longest >= r.current then p.longest else r.current)
  {
    var init := days[..|days| - 1];
    var p := Replay(Initial, init);
    assert p == Update(Replay(Initial, init[..|init| - 1]), init[|init| - 1], LoggedMinutes);
    assert p.lastDay == Some(days[|days| - 2]);
    assert Replay(Initial, days) == Update(p, days[|days| - 1], LoggedMinutes);
  }

  /** Pressing the button once a day, the current streak is the length of the run of
      consecutive days ending on the last day pressed. */
  lemma {:induction false} ReplayCurrentIsTailRun(days: seq<int>)
    requires Increasing(days) && days != []
    ensures var r := Replay(Initial, days);
      && 1 <= r.current <= |days|
      && Consecutive(days, |days| - r.current, |days|)
      && (r.current < |days| ==> days[|days| - r.current - 1] + 1 != days[|days| - r.current])
  {
    var n := |days|;
    if n > 1 {
      var init := days[..n - 1];
      assert Increasing(init);
      ReplayCurrentIsTailRun(init);
      ReplayStep(days);
    }
  }

  /** Pressing the button once a day, no run of consecutive days in the log is longer than
      the longest streak. */
  lemma {:induction false} ReplayLongestBoundsRuns(days: seq<int>, lo: int, hi: int)
    requires Increasing(days) && days != []
    requires 0 <= lo <= hi <= |days| && Consecutive(days, lo, hi)
    ensures hi - lo <= Replay(Initial, days).longest
    decreases |days|, 1
  {
    var n := |days|;
    if n > 1 {
      ReplayStep(days);
      if hi < n {
        LongestBoundsEarlierRun(days, lo, hi);
      } else {
        ReplayCurrentIsTailRun(days);
        TailRunIsMaximal(days, Replay(Initial, days).current, lo);
      }
    }
  }

  /** The step of `ReplayLongestBoundsRuns` for a run that ends before the last day. */
  lemma {:induction false} LongestBoundsEarlierRun(days: seq<int>, lo: int, hi: int)
    requires Increasing(days) && |days| > 1
    requires 0 <= lo <= hi < |days| && Consecutive(days, lo, hi)
    ensures hi - lo <= Replay(Initial, days[..|days| - 1]).longest
    decreases |days|, 0
  {
    var init := days[..|days| - 1];
    assert Increasing(init);
    assert Consecutive(init, lo, hi);
    ReplayLongestBoundsRuns(init, lo, hi);
  }

  /** Pressing the button once a day, the longest streak is the length of some run of
      consecutive days in the log. */
  lemma {:induction false} ReplayLongestIsARun(days: seq<int>)
    requires Increasing(days) && days != []
    ensures exists lo, hi | 0 <= lo <= hi <= |days| && hi - lo == Replay(Initial, days).longest ::
      Consecutive(days, lo, hi)
  {
    var n := |days|;
    var r := Replay(Initial, days);
    if n == 1 {
      assert Consecutive(days, 0, 1);
    } else {
      var init := days[..n - 1];
      assert Increasing(init);
      ReplayLongestIsARun(init);
      ReplayStep(days);
      var p := Replay(Initial, init);
      if r.longest == p.longest {
        var lo, hi :| 0 <= lo <= hi <= n - 1 && hi - lo == p.longest && Consecutive(init, lo, hi);
        assert Consecutive(days, lo, hi);
      } else {
        ReplayCurrentIsTailRun(days);
        assert Consecutive(days, n - r.current, n);
      }
    }
  }
}
