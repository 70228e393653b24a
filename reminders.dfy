/** The reminder scheduler of project.js:89-237. `localStorage`'s `reminder-<id>` records
    are a map from course id to the stored `{choice, timestamp}`; the `activeTimeouts` Map
    is a map from its key (a number or a string: a JavaScript Map tells them apart) to a
    timer handle; the armed `setTimeout` callbacks are a map from handle to what each one
    will remove when it fires. The clock is the parameter `now`, in milliseconds. */
module Reminders {
  import opened Wrappers
  import opened Strings

  /** The values of the reminder `<select>`: "none", "1hour" and "tomorrow". */
  datatype Choice = NoReminder | OneHour | Tomorrow

  /** The record stored under `reminder-<id>`. */
  datatype Reminder = Reminder(choice: Choice, timestamp: int)

  /** A key of `activeTimeouts`: `setReminder` and `clearReminder` use the numeric course
      id, `restoreReminders` the string cut out of the storage key. */
  datatype TimerKey = NumId(id: nat) | StrId(text: string)

  /** An armed timer: the course whose record its callback removes, the key its callback
      deletes from `activeTimeouts`, and the delay it was armed with. */
  datatype Timer = Timer(course: nat, key: TimerKey, delay: int)

  const MinuteMillis: int := 60 * 1000
  const HourMillis: int := 60 * 60 * 1000
  const DayMillis: int := 24 * 60 * 60 * 1000

  /** The delay `setReminder` arms for a choice other than "none". */
  function Delay(choice: Choice): (ms: int)
    requires choice != NoReminder
    ensures ms > 0
    ensures choice == OneHour ==> ms == 60 * MinuteMillis
    ensures choice == Tomorrow ==> ms == 24 * HourMillis
  {
    if choice == OneHour then HourMillis else DayMillis
  }

  // ----- storage keys: `reminder-${courseId}` and `key.split('-')[1]` -----

  const KeyPrefix: string := "reminder-"

  predicate IsDigit(c: char)
  {
    '0' <= c <= '9'
  }

  /** The decimal text of a course id, as a template literal writes a number. */
  function Digits(n: nat): (s: string)
    ensures |s| >= 1 && forall i | 0 <= i < |s| :: IsDigit(s[i])
    decreases n
  {
    if n < 10 then [('0' as int + n) as char]
    else Digits(n / 10) + [('0' as int + n % 10) as char]
  }

  /** `10^k`. */
  function Pow10(k: nat): nat
  {
    if k == 0 then 1 else 10 * Pow10(k - 1)
  }

  /** `Number(s)` on a string of decimal digits: a value below `10^|s|` whose last decimal
      digit is the last character, and which drops that digit when the character is cut. */
  function ParseDigits(s: string): (n: nat)
    requires forall i | 0 <= i < |s| :: IsDigit(s[i])
    ensures n < Pow10(|s|)
    ensures |s| >= 1 ==> n % 10 == s[|s| - 1] as int - '0' as int
    ensures |s| >= 1 && s[0] != '0' ==> Pow10(|s| - 1) <= n
    decreases |s|
  {
    if s == [] then 0
    else
      assert IsDigit(s[|s| - 1]);
      var high := ParseDigits(s[..|s| - 1]);
      var d := s[|s| - 1] as int - '0' as int;
      var low := if |s| >= 2 && s[0] != '0' then Pow10(|s| - 2) else 0;
      AppendDigit(high, d, low, Pow10(|s| - 1));
      high * 10 + d
  }

  /** Appending a decimal digit `d` to `low <= high < bound` stays within `10 * low` and
      `10 * bound`, and the digit and the rest can be read back with `% 10` and `/ 10`. */
  lemma AppendDigit(high: nat, d: int, low: nat, bound: nat)
    requires low <= high < bound && 0 <= d < 10
    ensures high * 10 + d < 10 * bound
    ensures 10 * low <= high * 10 + d
    ensures (high * 10 + d) % 10 == d && (high * 10 + d) / 10 == high
  {
  }

  /** Reading back the decimal text of an id yields the id. */
  lemma {:induction false} ParseDigitsOfDigits(n: nat)
    ensures ParseDigits(Digits(n)) == n
    decreases n
  {
    var s := Digits(n);
    if n >= 10 {
      ParseDigitsOfDigits(n / 10);
      assert s[..|s| - 1] == Digits(n / 10);
    }
  }

  /** Distinct course ids have distinct decimal texts. */
  lemma DigitsInjective(a: nat, b: nat)
    requires Digits(a) == Digits(b)
    ensures a == b
  {
    ParseDigitsOfDigits(a);
    ParseDigitsOfDigits(b);
  }

  /** The storage key `reminder-${courseId}`: the prefix, then at least one decimal digit,
      with its only dash the one closing the prefix. */
  function ReminderKey(courseId: nat): (key: string)
    ensures |key| > |KeyPrefix| && key[..|KeyPrefix|] == KeyPrefix
    ensures forall i | |KeyPrefix| <= i < |key| :: IsDigit(key[i])
    ensures forall i | 0 <= i < |key| :: key[i] == '-' <==> i == |KeyPrefix| - 1
  {
    KeyPrefix + Digits(courseId)
  }

  /** `t` holds no dash. */
  predicate DashFree(t: string)
  {
    forall i | 0 <= i < |t| :: t[i] != '-'
  }

  /** `parts.join('-')`. */
  function JoinDash(parts: seq<string>): string
    requires |parts| >= 1
    decreases |parts|
  {
    if |parts| == 1 then parts[0] else parts[0] + "-" + JoinDash(parts[1..])
  }

  lemma OccursDashAt(s: string, j: nat)
    ensures OccursAt(s, "-", j) <==> j < |s| && s[j] == '-'
  {
    if j < |s| && s[j] == '-' {
      assert s[j..j + 1] == "-";
    }
  }

  /** `indexOf('-')` finds the first dash, and there is none exactly when it finds nothing. */
  lemma FirstDash(s: string)
    ensures IndexOf(s, "-").None? <==> DashFree(s)
    ensures IndexOf(s, "-").Some? ==>
      IndexOf(s, "-").value < |s| && s[IndexOf(s, "-").value] == '-' && DashFree(s[..IndexOf(s, "-").value])
  {
    forall j: nat ensures OccursAt(s, "-", j) <==> j < |s| && s[j] == '-' {
      OccursDashAt(s, j);
    }
  }

  /** `s.split('-')`: the pieces between the dashes. There is at least one, none holds a
      dash, joining them with dashes gives `s` back, and a string without a dash is its own
      only piece. */
  function SplitOnDash(s: string): (parts: seq<string>)
    ensures |parts| >= 1
    ensures forall k | 0 <= k < |parts| :: DashFree(parts[k])
    ensures JoinDash(parts) == s
    ensures DashFree(s) ==> parts == [s]
    decreases |s|
  {
    FirstDash(s);
    match IndexOf(s, "-")
    case None => [s]
    case Some(i) =>
      var rest := SplitOnDash(s[i + 1..]);
      SplitAtDash(s, i, rest);
      [s[..i]] + rest
  }

  /** Cutting `s` at a dash `i` with no dash before it: the text before the dash followed by
      the pieces of the text after it are dash-free pieces that join back to `s`. */
  lemma SplitAtDash(s: string, i: nat, rest: seq<string>)
    requires i < |s| && s[i] == '-' && DashFree(s[..i])
    requires |rest| >= 1 && forall k | 0 <= k < |rest| :: DashFree(rest[k])
    requires JoinDash(rest) == s[i + 1..]
    ensures forall k | 0 <= k < |[s[..i]] + rest| :: DashFree(([s[..i]] + rest)[k])
    ensures JoinDash([s[..i]] + rest) == s
    ensures !DashFree(s)
  {
    assert ([s[..i]] + rest)[1..] == rest;
    assert s == s[..i] + "-" + s[i + 1..];
  }

  /** The first piece of a dash-joined text is its prefix, followed by a dash when there
      are more pieces. */
  lemma JoinDashHead(parts: seq<string>)
    requires |parts| >= 1
    ensures |JoinDash(parts)| >= |parts[0]| && JoinDash(parts)[..|parts[0]|] == parts[0]
    ensures |parts| == 1 ==> JoinDash(parts) == parts[0]
    ensures |parts| >= 2 ==> |JoinDash(parts)| > |parts[0]| && JoinDash(parts)[|parts[0]|] == '-'
  {
  }

  /** `key.split('-')[1]`, `None` standing for `undefined`: there is a second piece exactly
      when the key holds a dash, and it is the dash-free text that follows the first dash,
      up to the next dash or the end of the key. */
  function KeyCourseId(key: string): (r: Option<string>)
    ensures r.None? <==> DashFree(key)
    ensures r.Some? ==> DashFree(r.value) && IndexOf(key, "-").Some?
    ensures r.Some? ==>
      var after := key[IndexOf(key, "-").value + 1..];
      |after| >= |r.value| && after[..|r.value|] == r.value &&
      (|after| == |r.value| || after[|r.value|] == '-')
  {
    var parts := SplitOnDash(key);
    FirstDash(key);
    if |parts| >= 2 then
      JoinDashHead(parts[1..]);
      Some(parts[1])
    else
      None
  }

  /** The id cut out of a key written by `setReminder` is the id's decimal text. */
  lemma KeyRoundTrip(courseId: nat)
    ensures KeyCourseId(ReminderKey(courseId)) == Some(Digits(courseId))
  {
    var key := ReminderKey(courseId);
    var d := Digits(courseId);
    forall j: nat | j < 8 ensures !OccursAt(key, "-", j) {
      OccursDashAt(key, j);
    }
    OccursDashAt(key, 8);
    assert IndexOf(key, "-") == Some(8);
    assert key[9..] == d;
  }

  // ----- `renderReminders`: the time left shown next to a reminder -----

  /** `hours` and `minutes` of project.js:153-155: the whole hours left and the whole
      minutes left over, never negative. */
  function TimeLeft(timestamp: int, now: int): (hm: (nat, nat))
    ensures var left := if timestamp - now > 0 then timestamp - now else 0;
      && hm.1 < 60
      && hm.0 * HourMillis + hm.1 * MinuteMillis <= left < hm.0 * HourMillis + (hm.1 + 1) * MinuteMillis
  {
    var left := if timestamp - now > 0 then timestamp - now else 0;
    (left / HourMillis, (left % HourMillis) / MinuteMillis)
  }

  /** A reminder set for tomorrow shows 24h 0m left at the moment it is set. */
  lemma TimeLeftTomorrow(now: int)
    ensures TimeLeft(now + Delay(Tomorrow), now) == (24, 0)
  {
  }

  // ----- the scheduler state and its invariants -----

  /** The pending timers with handle `h` removed when `key` is registered under `h`:
      what `clearTimeout(activeTimeouts.get(key))` leaves armed. */
  function Cancelled(pending: map<nat, Timer>, active: map<TimerKey, nat>, key: TimerKey): map<nat, Timer>
  {
    if key in active then pending - {active[key]} else pending
  }

  /** The records `restoreReminders` keeps: those whose time has not yet come. */
  function Live(store: map<nat, Reminder>, now: int): (live: map<nat, Reminder>)
    ensures forall id :: id in live <==> id in store && store[id].timestamp > now
    ensures forall id | id in live :: live[id] == store[id]
  {
    map id | id in store && store[id].timestamp - now > 0 :: store[id]
  }

  /** The `activeTimeouts` key `restoreReminders` registers a restored timer under: the
      string cut out of the storage key as written, the number when `byNumber`. */
  function RestoreKey(courseId: nat, byNumber: bool): TimerKey
  {
    if byNumber then NumId(courseId) else StrId(Digits(courseId))
  }

  /** The `activeTimeouts` keys `restoreReminders` registers for the given ids. */
  function RestoredKeys(ids: set<nat>, byNumber: bool): set<TimerKey>
  {
    set id | id in ids :: RestoreKey(id, byNumber)
  }

  /** Distinct courses get distinct restored keys. */
  lemma RestoreKeyInjective(a: nat, b: nat, byNumber: bool)
    requires RestoreKey(a, byNumber) == RestoreKey(b, byNumber)
    ensures a == b
  {
    if !byNumber {
      DigitsInjective(a, b);
    }
  }

  /** The state of `restoreReminders` with the ids in `todo` still to visit: the records
      visited are kept when their time has not come and deleted otherwise, and each kept
      one has one timer, under its restored key, for the time it has left. */
  ghost predicate Restoring(saved: map<nat, Reminder>, now: int, byNumber: bool, todo: set<nat>,
                            store: map<nat, Reminder>, active: map<TimerKey, nat>, pending: map<nat, Timer>)
  {
    && todo <= saved.Keys
    && (forall id :: id in store <==> id in saved && (id in todo || saved[id].timestamp > now))
    && (forall id | id in store :: store[id] == saved[id])
    && active.Keys == RestoredKeys(store.Keys - todo, byNumber)
    && (forall h | h in pending ::
         && pending[h].course in store && pending[h].course !in todo
         && pending[h].key == RestoreKey(pending[h].course, byNumber)
         && pending[h].delay == saved[pending[h].course].timestamp - now)
  }

  /** The key a record still to visit will be restored under is not yet registered. */
  lemma RestoringKeyFresh(saved: map<nat, Reminder>, now: int, byNumber: bool, todo: set<nat>,
                          store: map<nat, Reminder>, active: map<TimerKey, nat>, pending: map<nat, Timer>, id: nat)
    requires Restoring(saved, now, byNumber, todo, store, active, pending) && id in todo
    ensures RestoreKey(id, byNumber) !in active
  {
    forall other | other in store.Keys - todo && RestoreKey(other, byNumber) == RestoreKey(id, byNumber)
      ensures false
    {
      RestoreKeyInjective(other, id, byNumber);
    }
  }

  /** Visiting one more record keeps the state of `restoreReminders` as described. */
  lemma RestoringStep(saved: map<nat, Reminder>, now: int, byNumber: bool, todo: set<nat>,
                      store: map<nat, Reminder>, active: map<TimerKey, nat>, pending: map<nat, Timer>, next: nat,
                      id: nat, store': map<nat, Reminder>, active': map<TimerKey, nat>, pending': map<nat, Timer>)
    requires Restoring(saved, now, byNumber, todo, store, active, pending)
    requires forall h | h in pending :: h < next
    requires id in todo
    requires saved[id].timestamp > now ==>
      && store' == store
      && active' == active[RestoreKey(id, byNumber) := next]
      && pending' == pending[next := Timer(id, RestoreKey(id, byNumber), saved[id].timestamp - now)]
    requires saved[id].timestamp <= now ==>
      && store' == store - {id}
      && active' == active
      && pending' == pending
    ensures Restoring(saved, now, byNumber, todo - {id}, store', active', pending')
  {
    var done, done' := store.Keys - todo, store'.Keys - (todo - {id});
    if saved[id].timestamp > now {
      assert done' == done + {id};
    } else {
      assert done' == done;
    }
  }

  /** When every record was visited, the records kept are the live ones, and each has
      one timer, under its restored key, for the time it has left. */
  lemma RestoringDone(saved: map<nat, Reminder>, now: int, byNumber: bool,
                      store: map<nat, Reminder>, active: map<TimerKey, nat>, pending: map<nat, Timer>)
    requires Restoring(saved, now, byNumber, {}, store, active, pending)
    ensures store == Live(saved, now)
    ensures active.Keys == RestoredKeys(store.Keys, byNumber)
    ensures forall h | h in pending ::
      && pending[h].course in store
      && pending[h].key == RestoreKey(pending[h].course, byNumber)
      && pending[h].delay == store[pending[h].course].timestamp - now
  {
    assert store.Keys - {} == store.Keys;
  }

  /** Every registered handle is armed under its own key, and every armed timer is
      registered: `activeTimeouts` and the armed timers are in one-to-one correspondence. */
  ghost predicate Registered(active: map<TimerKey, nat>, pending: map<nat, Timer>, next: nat)
  {
    && (forall k | k in active :: active[k] in pending && pending[active[k]].key == k)
    && (forall h | h in pending :: h < next && pending[h].key in active && active[pending[h].key] == h)
  }

  /** The invariant the scheduler is meant to keep: every armed timer is keyed by its
      course's numeric id and its course has a stored record. */
  ghost predicate KeyedByCourse(store: map<nat, Reminder>, pending: map<nat, Timer>)
  {
    forall h | h in pending :: pending[h].key == NumId(pending[h].course) && pending[h].course in store
  }

  /** No course has two armed timers. */
  ghost predicate OneTimerPerCourse(pending: map<nat, Timer>)
  {
    forall h1, h2 | h1 in pending && h2 in pending && pending[h1].course == pending[h2].course :: h1 == h2
  }

  /** Keying timers by course keeps at most one timer per course. */
  lemma OneTimerWhenKeyedByCourse(store: map<nat, Reminder>, active: map<TimerKey, nat>,
                                  pending: map<nat, Timer>, next: nat)
    requires Registered(active, pending, next) && KeyedByCourse(store, pending)
    ensures OneTimerPerCourse(pending)
  {
  }

  class Scheduler {
    /** The `reminder-<id>` records of `localStorage`, by course id. */
    var store: map<nat, Reminder>
    /** `activeTimeouts`. */
    var activeTimeouts: map<TimerKey, nat>
    /** The armed `setTimeout` callbacks, by handle. */
    var pending: map<nat, Timer>
    /** The handle the next `setTimeout` returns. */
    var nextHandle: nat

    ghost predicate Valid()
      reads this
    {
      Registered(activeTimeouts, pending, nextHandle)
    }

    ghost predicate Consistent()
      reads this
    {
      KeyedByCourse(store, pending)
    }

    /** A page load: the records survive in storage, no timer is armed yet (project.js:96). */
    constructor (persisted: map<nat, Reminder>)
      ensures Valid()
      ensures store == persisted && activeTimeouts == map[] && pending == map[] && nextHandle == 0
    {
      store, activeTimeouts, pending, nextHandle := persisted, map[], map[], 0;
    }

    /** `clearReminder(courseId)`: disarm the timer registered under the numeric id and
      remove the stored record. */
    method ClearReminder(courseId: nat)
      requires Valid()
      modifies this
      ensures Valid()
      ensures store == old(store) - {courseId}
      ensures activeTimeouts == old(activeTimeouts) - {NumId(courseId)}
      ensures pending == Cancelled(old(pending), old(activeTimeouts), NumId(courseId))
      ensures nextHandle == old(nextHandle)
      ensures old(Consistent()) ==> Consistent()
    {
      if NumId(courseId) in activeTimeouts {
        pending := pending - {activeTimeouts[NumId(courseId)]};
        activeTimeouts := activeTimeouts - {NumId(courseId)};
      }
      store := store - {courseId};
    }

    /** `cancelReminder(courseId)`: the Cancel button; a `clearReminder` and UI updates. */
    method CancelReminder(courseId: nat)
      requires Valid()
      modifies this
      ensures Valid()
      ensures store == old(store) - {courseId}
      ensures activeTimeouts == old(activeTimeouts) - {NumId(courseId)}
      ensures pending == Cancelled(old(pending), old(activeTimeouts), NumId(courseId))
      ensures nextHandle == old(nextHandle)
      ensures old(Consistent()) ==> Consistent()
    {
      ClearReminder(courseId);
    }

    /** `activeTimeouts.set(key, setTimeout(callback, delay))` for a callback that removes
      the record of `courseId` and the entry under `key`. */
    method ArmTimer(courseId: nat, key: TimerKey, delay: int)
      requires Valid() && key !in activeTimeouts
      modifies this
      ensures Valid()
      ensures store == old(store)
      ensures activeTimeouts == old(activeTimeouts)[key := old(nextHandle)]
      ensures pending == old(pending)[old(nextHandle) := Timer(courseId, key, delay)]
      ensures nextHandle == old(nextHandle) + 1
    {
      var handle := nextHandle;
      pending := pending[handle := Timer(courseId, key, delay)];
      nextHandle := nextHandle + 1;
      activeTimeouts := activeTimeouts[key := handle];
    }

    /** `setReminder(courseId)` with the selected `choice` at time `now`: clear, then for a
      choice other than "none" store `{choice, now + delay}` and arm one timer. */
    method SetReminder(courseId: nat, choice: Choice, now: int)
      requires Valid()
      modifies this
      ensures Valid()
      ensures choice == NoReminder ==>
        && store == old(store) - {courseId}
        && activeTimeouts == old(activeTimeouts) - {NumId(courseId)}
        && pending == Cancelled(old(pending), old(activeTimeouts), NumId(courseId))
        && nextHandle == old(nextHandle)
      ensures choice != NoReminder ==>
        && store == old(store)[courseId := Reminder(choice, now + Delay(choice))]
        && activeTimeouts == old(activeTimeouts)[NumId(courseId) := old(nextHandle)]
        && pending == Cancelled(old(pending), old(activeTimeouts), NumId(courseId))
                        [old(nextHandle) := Timer(courseId, NumId(courseId), Delay(choice))]
        && nextHandle == old(nextHandle) + 1
      ensures old(Consistent()) ==> Consistent()
    {
      ClearReminder(courseId);
      if choice == NoReminder {
        return;
      }
      var delay := Delay(choice);
      store := store[courseId := Reminder(choice, now + delay)];
      ArmTimer(courseId, NumId(courseId), delay);
    }

    /** The callback of the timer `handle` runs: notify if permission was granted, then
      remove the record and the `activeTimeouts` entry the callback was made for. */
    method Fire(handle: nat, permissionGranted: bool) returns (notified: bool)
      requires Valid() && handle in pending
      modifies this
      ensures Valid()
      ensures notified == permissionGranted
      ensures store == old(store) - {old(pending)[handle].course}
      ensures activeTimeouts == old(activeTimeouts) - {old(pending)[handle].key}
      ensures pending == old(pending) - {handle}
      ensures nextHandle == old(nextHandle)
      ensures old(Consistent()) ==> Consistent()
    {
      var timer := pending[handle];
      notified := permissionGranted;
      pending := pending - {handle};
      store := store - {timer.course};
      activeTimeouts := activeTimeouts - {timer.key};
    }

    /** One iteration of `restoreReminders` for the key `reminder-<courseId>`: cut the id
      out of the key, then re-arm the record under that id (as text, or as a number when
      `byNumber`) when its time has not come, and delete it otherwise. */
    method RestoreOne(courseId: nat, byNumber: bool, now: int)
      requires Valid() && courseId in store && RestoreKey(courseId, byNumber) !in activeTimeouts
      modifies this
      ensures Valid()
      ensures old(store)[courseId].timestamp > now ==>
        && store == old(store)
        && activeTimeouts == old(activeTimeouts)[RestoreKey(courseId, byNumber) := old(nextHandle)]
        && pending == old(pending)[old(nextHandle) :=
             Timer(courseId, RestoreKey(courseId, byNumber), old(store)[courseId].timestamp - now)]
      ensures old(store)[courseId].timestamp <= now ==>
        && store == old(store) - {courseId}
        && activeTimeouts == old(activeTimeouts)
        && pending == old(pending)
    {
      var storageKey := ReminderKey(courseId);
      KeyRoundTrip(courseId);
      var text := KeyCourseId(storageKey).value;
      var key := StrId(text);
      if byNumber {
        ParseDigitsOfDigits(courseId);
        key := NumId(ParseDigits(text));
      }
      var timeLeft := store[courseId].timestamp - now;
      if timeLeft > 0 {
        ArmTimer(courseId, key, timeLeft);
      } else {
        store := store - {courseId};
      }
    }

    /** `restoreReminders()` at page load, as written: re-arm every record whose time has
      not come, registered under the STRING id cut out of its key, and delete the others. */
    method RestoreReminders(now: int)
      requires Valid() && activeTimeouts == map[]
      modifies this
      ensures Valid()
      ensures store == Live(old(store), now)
      ensures activeTimeouts.Keys == RestoredKeys(store.Keys, false)
      ensures forall h | h in pending ::
        && pending[h].course in store
        && pending[h].key == RestoreKey(pending[h].course, false)
        && pending[h].delay == store[pending[h].course].timestamp - now
    {
      ghost var saved := store;
      var todo := store.Keys;
      while todo != {}
        invariant Valid()
        invariant Restoring(saved, now, false, todo, store, activeTimeouts, pending)
        decreases todo
      {
        var id :| id in todo;
        RestoringKeyFresh(saved, now, false, todo, store, activeTimeouts, pending, id);
        ghost var store0, active0, pending0, next0 := store, activeTimeouts, pending, nextHandle;
        RestoreOne(id, false, now);
        RestoringStep(saved, now, false, todo, store0, active0, pending0, next0, id, store, activeTimeouts, pending);
        todo := todo - {id};
      }
      RestoringDone(saved, now, false, store, activeTimeouts, pending);
    }

    /** `restoreReminders()` as evidently intended: the same, but registering each timer
      under `Number(key.split('-')[1])`, the numeric id the other functions use. */
    method RestoreRemindersByNumber(now: int)
      requires Valid() && activeTimeouts == map[]
      modifies this
      ensures Valid() && Consistent()
      ensures store == Live(old(store), now)
      ensures activeTimeouts.Keys == RestoredKeys(store.Keys, true)
      ensures forall h | h in pending :: pending[h].delay == store[pending[h].course].timestamp - now
    {
      ghost var saved := store;
      var todo := store.Keys;
      while todo != {}
        invariant Valid()
        invariant Restoring(saved, now, true, todo, store, activeTimeouts, pending)
        decreases todo
      {
        var id :| id in todo;
        RestoringKeyFresh(saved, now, true, todo, store, activeTimeouts, pending, id);
        ghost var store0, active0, pending0, next0 := store, activeTimeouts, pending, nextHandle;
        RestoreOne(id, true, now);
        RestoringStep(saved, now, true, todo, store0, active0, pending0, next0, id, store, activeTimeouts, pending);
        todo := todo - {id};
      }
      RestoringDone(saved, now, true, store, activeTimeouts, pending);
    }
  }

  /** Whether some armed timer belongs to `courseId`. */
  predicate TimerArmedFor(s: Scheduler, courseId: nat)
    reads s
  {
    exists h | h in s.pending :: s.pending[h].course == courseId
  }

  /** After a reload, the Cancel button removes the record but cannot disarm the restored
      timer: it is registered under the string id, `clearReminder` looks up the number. */
  method CancelAfterReload(courseId: nat, saved: Reminder, now: int) returns (stored: bool, armed: bool)
    requires saved.timestamp > now
    ensures !stored && armed
  {
    var s := new Scheduler(map[courseId := saved]);
    s.RestoreReminders(now);
    var stale := s.activeTimeouts[RestoreKey(courseId, false)];
    s.CancelReminder(courseId);
    stored := courseId in s.store;
    assert s.pending[stale].course == courseId;
    armed := TimerArmedFor(s, courseId);
  }

  /** A page load with one future record for `courseId`, followed by setting a new reminder
      for it: the restored timer (under the string id) and the new one (under the number)
      are both armed for the course. */
  method ReloadThenReset(courseId: nat, saved: Reminder, choice: Choice, now: int)
    returns (s: Scheduler, stale: nat, current: nat)
    requires saved.timestamp > now && choice != NoReminder
    ensures fresh(s) && s.Valid()
    ensures s.store.Keys == {courseId}
    ensures s.pending.Keys == {stale, current} && stale != current
    ensures s.pending[stale].course == courseId && s.pending[current].course == courseId
  {
    s := new Scheduler(map[courseId := saved]);
    s.RestoreReminders(now);
    assert s.activeTimeouts.Keys == {RestoreKey(courseId, false)};
    stale := s.activeTimeouts[RestoreKey(courseId, false)];
    assert s.pending.Keys == {stale};
    s.SetReminder(courseId, choice, now);
    current := s.activeTimeouts[NumId(courseId)];
  }

  /** After a reload, setting a new reminder leaves the restored timer armed beside the new
      one. When the restored reminder is due first, its timer fires first and deletes the NEW
      record (same storage key), and the new timer stays armed for a reminder that is no
      longer stored. */
  method ResetAfterReload(courseId: nat, saved: Reminder, choice: Choice, now: int)
    returns (stored: bool, armed: bool)
    requires choice != NoReminder && now < saved.timestamp < now + Delay(choice)
    ensures !stored && armed
  {
    var s, stale, current := ReloadThenReset(courseId, saved, choice, now);
    var _ := s.Fire(stale, true);
    stored := courseId in s.store;
    assert current in s.pending;
    armed := TimerArmedFor(s, courseId);
  }

  /** After a reload, setting a new reminder due before the restored one: the new timer
      fires first and notifies, then the restored timer fires later and notifies a second
      time for the same course. */
  method DoubleNotifyAfterReload(courseId: nat, saved: Reminder, choice: Choice, now: int)
    returns (notifications: nat, stored: bool, armed: bool)
    requires choice != NoReminder && saved.timestamp > now + Delay(choice)
    ensures notifications == 2 && !stored && !armed
  {
    var s, stale, current := ReloadThenReset(courseId, saved, choice, now);
    var first := s.Fire(current, true);
    var second := s.Fire(stale, true);
    notifications := 0;
    if first { notifications := notifications + 1; }
    if second { notifications := notifications + 1; }
    stored := courseId in s.store;
    assert s.pending == map[];
    armed := TimerArmedFor(s, courseId);
  }

  /** With timers restored under the numeric id, setting a new reminder after a reload
      leaves one timer, so the course is notified once and nothing stays armed. */
  method NotifyOnceAfterReloadByNumber(courseId: nat, saved: Reminder, choice: Choice, now: int)
    returns (notifications: nat, stored: bool, armed: bool)
    requires saved.timestamp > now && choice != NoReminder
    ensures notifications == 1 && !stored && !armed
  {
    var s := new Scheduler(map[courseId := saved]);
    s.RestoreRemindersByNumber(now);
    s.SetReminder(courseId, choice, now);
    var current := s.activeTimeouts[NumId(courseId)];
    var first := s.Fire(current, true);
    notifications := 0;
    if first { notifications := notifications + 1; }
    stored := courseId in s.store;
    assert s.pending == map[];
    armed := TimerArmedFor(s, courseId);
  }

  /** With timers restored under the numeric id, Cancel after a reload disarms the timer. */
  method CancelAfterReloadByNumber(courseId: nat, saved: Reminder, now: int) returns (stored: bool, armed: bool)
    requires saved.timestamp > now
    ensures !stored && !armed
  {
    var s := new Scheduler(map[courseId := saved]);
    s.RestoreRemindersByNumber(now);
    s.CancelReminder(courseId);
    stored := courseId in s.store;
    armed := TimerArmedFor(s, courseId);
  }

  /** With timers restored under the numeric id, setting a new reminder after a reload
      leaves exactly one armed timer for the course and its record stored. */
  method ResetAfterReloadByNumber(courseId: nat, saved: Reminder, choice: Choice, now: int)
    returns (stored: bool, timers: set<nat>)
    requires saved.timestamp > now && choice != NoReminder
    ensures stored && |timers| == 1
  {
    var s := new Scheduler(map[courseId := saved]);
    s.RestoreRemindersByNumber(now);
    s.SetReminder(courseId, choice, now);
    stored := courseId in s.store;
    timers := set h | h in s.pending && s.pending[h].course == courseId;
    assert timers == {s.nextHandle - 1};
  }
}
