/**
 * The time tracker's domain: activities, history entries, the store that holds both, and
 * the four commands that change it (create an activity, add time, delete an activity,
 * delete a history entry), each as a function from the old store to the new one, together
 * with the invariants they keep and the load-time `createdAt` migration.
 */
module Tracker {
  import opened Wrappers
  import opened JsText
  import opened TimeText

  /** An activity: hours are real numbers, `createdAt` a millisecond timestamp (None when missing). */
  datatype Activity = Activity(
    id: string, name: string, targetHours: real, spentHours: real, createdAt: Option<int>)

  /** A history entry: the time added to an activity, with a snapshot of the activity's name. */
  datatype Entry = Entry(id: string, activityId: string, activityName: string, hours: real, date: int)

  /** The persisted unit: activities in creation order, history most recent first. */
  datatype Store = Store(activities: seq<Activity>, history: seq<Entry>)

  /** The number of history entries kept. */
  const HistoryLimit: nat := 100

  // ---------------------------------------------------------------------------
  // Array helpers: find and filter

  /** The index of the first element satisfying `p`, as `find` locates it. */
  function FirstWhere<T>(s: seq<T>, p: T -> bool): (r: Option<nat>)
    ensures r.Some? ==> r.value < |s| && p(s[r.value]) && forall k | 0 <= k < r.value :: !p(s[k])
    ensures r.None? ==> forall k | 0 <= k < |s| :: !p(s[k])
  {
    if s == [] then None
    else if p(s[0]) then Some(0)
    else
      match FirstWhere(s[1..], p)
      case None => None
      case Some(i) => Some(i + 1)
  }

  /** `activities.find(a => a.id === id)`, as an index. */
  function FindActivity(activities: seq<Activity>, id: string): Option<nat>
  {
    FirstWhere(activities, (a: Activity) => a.id == id)
  }

  /** `history.find(h => h.id === id)`, as an index. */
  function FindEntry(history: seq<Entry>, id: string): Option<nat>
  {
    FirstWhere(history, (e: Entry) => e.id == id)
  }

  /** `s.filter(keep)`: the elements that satisfy `keep`, in their order. */
  function Filter<T(==)>(s: seq<T>, keep: T -> bool): (r: seq<T>)
    ensures |r| <= |s|
    ensures forall k | 0 <= k < |r| :: r[k] in s && keep(r[k])
    ensures forall k | 0 <= k < |s| && keep(s[k]) :: s[k] in r
  {
    if s == [] then []
    else (if keep(s[0]) then [s[0]] else []) + Filter(s[1..], keep)
  }

  /** Filtering keeps relative order: a split of the input is a split of the output. */
  lemma {:induction false} FilterConcat<T>(a: seq<T>, b: seq<T>, keep: T -> bool)
    ensures Filter(a + b, keep) == Filter(a, keep) + Filter(b, keep)
  {
    if a == [] {
      assert a + b == b;
    } else {
      assert (a + b)[0] == a[0] && (a + b)[1..] == a[1..] + b;
      FilterConcat(a[1..], b, keep);
    }
  }

  /** Filtering with a test every element passes changes nothing. */
  lemma {:induction false} FilterKeepsAll<T>(s: seq<T>, keep: T -> bool)
    requires forall k | 0 <= k < |s| :: keep(s[k])
    ensures Filter(s, keep) == s
  {
    if s != [] {
      FilterKeepsAll(s[1..], keep);
    }
  }

  // ---------------------------------------------------------------------------
  // Invariants

  /** No activity has negative spent hours. */
  predicate NonNegative(activities: seq<Activity>)
  {
    forall k | 0 <= k < |activities| :: activities[k].spentHours >= 0.0
  }

  /** The history holds at most `HistoryLimit` entries. */
  predicate Bounded(history: seq<Entry>)
  {
    |history| <= HistoryLimit
  }

  /** Every history entry added time, a positive amount. */
  predicate PositiveEntries(history: seq<Entry>)
  {
    forall k | 0 <= k < |history| :: history[k].hours > 0.0
  }

  /** The ids of the activities. */
  function Ids(activities: seq<Activity>): (r: set<string>)
    ensures forall k | 0 <= k < |activities| :: activities[k].id in r
    ensures forall id | id in r :: exists k | 0 <= k < |activities| :: activities[k].id == id
  {
    set a | a in activities :: a.id
  }

  /** Every history entry refers to an activity of the store. */
  predicate NoOrphans(s: Store)
  {
    forall k | 0 <= k < |s.history| :: s.history[k].activityId in Ids(s.activities)
  }

  /** All four invariants. */
  predicate Valid(s: Store)
  {
    NonNegative(s.activities) && Bounded(s.history) && PositiveEntries(s.history) && NoOrphans(s)
  }

  /** The spent hours of all activities together. */
  function TotalSpent(activities: seq<Activity>): real
  {
    if activities == [] then 0.0 else activities[0].spentHours + TotalSpent(activities[1..])
  }

  /** Replacing one activity changes the total by the change of its spent hours. */
  lemma {:induction false} TotalSpentUpdate(activities: seq<Activity>, i: nat, a: Activity)
    requires i < |activities|
    ensures TotalSpent(activities[i := a])
      == TotalSpent(activities) - activities[i].spentHours + a.spentHours
  {
    if i > 0 {
      assert activities[i := a][1..] == activities[1..][i - 1 := a];
      TotalSpentUpdate(activities[1..], i - 1, a);
    }
  }

  // ---------------------------------------------------------------------------
  // Create activity

  /** `handleCreateActivity` once the form is read: `name` trimmed, `initialHours` parsed.
      An empty name or a negative target leaves the store as it is. */
  function CreateActivity(s: Store, name: string, target: real, initialHours: real, id: string, now: int): Store
  {
    if name == [] || target < 0.0 then s
    else s.(activities := s.activities + [Activity(id, name, target, initialHours, Some(now))])
  }

  /** Creating appends exactly one activity, at the end, and touches nothing else; or does nothing. */
  lemma CreateActivityEffect(s: Store, name: string, target: real, initialHours: real, id: string, now: int)
    ensures var r := CreateActivity(s, name, target, initialHours, id, now);
      && r.history == s.history
      && (if name == [] || target < 0.0 then r == s
          else && |r.activities| == |s.activities| + 1
               && r.activities[..|s.activities|] == s.activities
               && r.activities[|s.activities|] == Activity(id, name, target, initialHours, Some(now)))
  {
    var r := CreateActivity(s, name, target, initialHours, id, now);
    if !(name == [] || target < 0.0) {
      assert r.activities[..|s.activities|] == s.activities;
    }
  }

  /** Creating keeps the invariants, spent hours included when the initial time is not negative. */
  lemma CreateActivityKeeps(s: Store, name: string, target: real, initialHours: real, id: string, now: int)
    ensures var r := CreateActivity(s, name, target, initialHours, id, now);
      && (Bounded(s.history) ==> Bounded(r.history))
      && (PositiveEntries(s.history) ==> PositiveEntries(r.history))
      && (NoOrphans(s) ==> NoOrphans(r))
      && (NonNegative(s.activities) && initialHours >= 0.0 ==> NonNegative(r.activities))
  {
    var r := CreateActivity(s, name, target, initialHours, id, now);
    if NoOrphans(s) && r != s {
      forall k | 0 <= k < |r.history| ensures r.history[k].activityId in Ids(r.activities) {
        assert s.history[k].activityId in Ids(s.activities);
        var j :| 0 <= j < |s.activities| && s.activities[j].id == s.history[k].activityId;
        assert r.activities[j] == s.activities[j];
      }
    }
  }

  /** An initial time of "-1" creates an activity with negative spent hours. */
  lemma CreateActivityNegative()
    ensures !NonNegative(CreateActivity(Store([], []), "Reading", 10.0, ParseTimeInput("-1"), "1", 0).activities)
  {
    ExampleNegative();
    CreateNegativeWith(ParseTimeInput("-1"));
  }

  lemma CreateNegativeWith(initialHours: real)
    requires initialHours < 0.0
    ensures !NonNegative(CreateActivity(Store([], []), "Reading", 10.0, initialHours, "1", 0).activities)
  {
    var r := CreateActivity(Store([], []), "Reading", 10.0, initialHours, "1", 0);
    assert r.activities[0].spentHours == initialHours;
  }

  /** `handleCreateActivity` with the initial time held to the same check as the target:
      a negative initial time leaves the store as it is. */
  function CreateActivityChecked(s: Store, name: string, target: real, initialHours: real, id: string, now: int): Store
  {
    if initialHours < 0.0 then s else CreateActivity(s, name, target, initialHours, id, now)
  }

  /** The checked creation keeps every invariant. */
  lemma CreateActivityCheckedKeeps(s: Store, name: string, target: real, initialHours: real, id: string, now: int)
    requires Valid(s)
    ensures Valid(CreateActivityChecked(s, name, target, initialHours, id, now))
  {
    if initialHours >= 0.0 {
      CreateActivityKeeps(s, name, target, initialHours, id, now);
    }
  }

  // ---------------------------------------------------------------------------
  // Add time

  /** The first `HistoryLimit` entries. */
  function Truncate(history: seq<Entry>): (r: seq<Entry>)
    ensures Bounded(r)
    ensures |history| <= HistoryLimit ==> r == history
    ensures |history| > HistoryLimit ==> r == history[..HistoryLimit]
  {
    if |history| > HistoryLimit then history[..HistoryLimit] else history
  }

  /** Whether adding `hours` to the activity `current` ("" for none) does anything. */
  predicate AddTimeApplies(s: Store, hours: real, current: string)
  {
    hours > 0.0 && current != "" && FindActivity(s.activities, current).Some?
  }

  /** `handleAddTime` once the input is parsed: the selected activity's spent hours grow by
      `hours`, an entry is put in front of the history, and the history is cut to its limit. */
  function AddTime(s: Store, hours: real, current: string, entryId: string, now: int): Store
  {
    if hours <= 0.0 || current == "" then s
    else
      match FindActivity(s.activities, current)
      case None => s
      case Some(i) =>
        var a := s.activities[i];
        var entry := Entry(entryId, current, a.name, hours, now);
        Store(s.activities[i := a.(spentHours := a.spentHours + hours)], Truncate([entry] + s.history))
  }

  /** What adding time does: only the selected activity changes, by exactly `hours`, and one
      entry naming it is put in front of the history. Nothing changes when it does not apply. */
  lemma AddTimeEffect(s: Store, hours: real, current: string, entryId: string, now: int)
    ensures var r := AddTime(s, hours, current, entryId, now);
      if !AddTimeApplies(s, hours, current) then r == s
      else
        var i := FindActivity(s.activities, current).value;
        var a := s.activities[i];
        && |r.activities| == |s.activities|
        && r.activities[i] == a.(spentHours := a.spentHours + hours)
        && (forall k | 0 <= k < |s.activities| && k != i :: r.activities[k] == s.activities[k])
        && r.history == Truncate([Entry(entryId, current, a.name, hours, now)] + s.history)
        && r.history[0] == Entry(entryId, current, a.name, hours, now)
        && TotalSpent(r.activities) == TotalSpent(s.activities) + hours
        && r != s
  {
    if AddTimeApplies(s, hours, current) {
      var i := FindActivity(s.activities, current).value;
      var a := s.activities[i];
      TotalSpentUpdate(s.activities, i, a.(spentHours := a.spentHours + hours));
      var r := AddTime(s, hours, current, entryId, now);
      assert r.activities[i].spentHours != s.activities[i].spentHours;
    }
  }

  /** With the history full, adding time drops the oldest entry and keeps exactly 100. */
  lemma AddTimeAtLimit(s: Store, hours: real, current: string, entryId: string, now: int)
    requires |s.history| == HistoryLimit && AddTimeApplies(s, hours, current)
    ensures var r := AddTime(s, hours, current, entryId, now);
      && |r.history| == HistoryLimit
      && r.history[1..] == s.history[..HistoryLimit - 1]
  {
    var r := AddTime(s, hours, current, entryId, now);
    AddTimeEffect(s, hours, current, entryId, now);
    assert r.history[1..] == ([r.history[0]] + s.history)[1..HistoryLimit];
  }

  /** Adding time keeps every invariant. */
  lemma AddTimeKeeps(s: Store, hours: real, current: string, entryId: string, now: int)
    requires Valid(s)
    ensures Valid(AddTime(s, hours, current, entryId, now))
  {
    if AddTimeApplies(s, hours, current) {
      var i := FindActivity(s.activities, current).value;
      var a := s.activities[i];
      UpdateKeepsIds(s.activities, i, a.(spentHours := a.spentHours + hours));
      PrependKeepsEntries(Entry(entryId, current, a.name, hours, now), s.history, Ids(s.activities));
    }
  }

  /** Putting a positive entry that points at an activity in front of the history, and cutting
      it to its limit, keeps the entries positive and pointing at the activities. */
  lemma PrependKeepsEntries(entry: Entry, history: seq<Entry>, ids: set<string>)
    requires entry.hours > 0.0 && entry.activityId in ids && PositiveEntries(history)
    requires forall k | 0 <= k < |history| :: history[k].activityId in ids
    ensures var h := Truncate([entry] + history);
      PositiveEntries(h) && forall k | 0 <= k < |h| :: h[k].activityId in ids
  {
    var h := [entry] + history;
    assert forall k | 1 <= k < |h| :: h[k] == history[k - 1];
  }

  // ---------------------------------------------------------------------------
  // Delete activity

  /** `activities.filter(a => a.id !== id)`. */
  function WithoutActivity(activities: seq<Activity>, id: string): seq<Activity>
  {
    Filter(activities, (a: Activity) => a.id != id)
  }

  /** `history.filter(h => h.activityId !== id)`. */
  function WithoutEntriesOf(history: seq<Entry>, id: string): seq<Entry>
  {
    Filter(history, (e: Entry) => e.activityId != id)
  }

  /** `history.filter(h => h.id !== id)`. */
  function WithoutEntry(history: seq<Entry>, id: string): seq<Entry>
  {
    Filter(history, (e: Entry) => e.id != id)
  }

  /** `handleDeleteActivity` with the pending id `id` ("" for none): removes every activity
      with that id and every history entry that refers to it. */
  function DeleteActivity(s: Store, id: string): Store
  {
    if id == "" then s
    else Store(WithoutActivity(s.activities, id), WithoutEntriesOf(s.history, id))
  }

  /** After deleting, neither an activity with the id nor an entry referring to it remains, and
      every other activity and entry is still there (`FilterConcat` gives their order). */
  lemma DeleteActivityEffect(s: Store, id: string)
    ensures id == "" ==> DeleteActivity(s, id) == s
    ensures id != "" ==> var r := DeleteActivity(s, id);
      && (forall a | a in r.activities :: a.id != id)
      && (forall e | e in r.history :: e.activityId != id)
      && (forall a | a in s.activities && a.id != id :: a in r.activities)
      && (forall e | e in s.history && e.activityId != id :: e in r.history)
      && (forall a | a in r.activities :: a in s.activities)
      && (forall e | e in r.history :: e in s.history)
  {
  }

  /** Deleting an activity that no entry refers to leaves the history exactly as it was. */
  lemma DeleteUnreferencedActivity(s: Store, id: string)
    requires forall k | 0 <= k < |s.history| :: s.history[k].activityId != id
    ensures DeleteActivity(s, id).history == s.history
  {
    if id != "" {
      FilterKeepsAll(s.history, (e: Entry) => e.activityId != id);
      assert WithoutEntriesOf(s.history, id) == Filter(s.history, (e: Entry) => e.activityId != id);
    }
  }

  /** Deleting keeps the invariants: no entry is left pointing at a removed activity. */
  lemma DeleteActivityKeeps(s: Store, id: string)
    requires Valid(s)
    ensures Valid(DeleteActivity(s, id))
  {
    var r := DeleteActivity(s, id);
    if id != "" {
      forall k | 0 <= k < |r.history| ensures r.history[k].activityId in Ids(r.activities) {
        var e := r.history[k];
        assert e in s.history && e.activityId != id;
        var m :| 0 <= m < |s.history| && s.history[m] == e;
        var j :| 0 <= j < |s.activities| && s.activities[j].id == e.activityId;
        assert s.activities[j] in r.activities;
      }
      assert forall k | 0 <= k < |r.activities| :: r.activities[k] in s.activities;
      assert forall k | 0 <= k < |r.history| :: r.history[k] in s.history;
    }
  }

  // ---------------------------------------------------------------------------
  // Delete history entry

  function Max(a: real, b: real): (m: real)
    ensures m >= a && m >= b && (m == a || m == b)
  {
    if a >= b then a else b
  }

  /** `handleDeleteHistory` with the pending id `id` ("" for none): when an entry has that id,
      every entry with it is removed and the first activity the entry refers to loses the
      entry's hours, floored at 0; otherwise the store is unchanged. */
  function DeleteHistory(s: Store, id: string): Store
  {
    if id == "" then s
    else
      match FindEntry(s.history, id)
      case None => s
      case Some(j) =>
        var entry := s.history[j];
        var history := WithoutEntry(s.history, id);
        match FindActivity(s.activities, entry.activityId)
        case None => Store(s.activities, history)
        case Some(i) =>
          var a := s.activities[i];
          Store(s.activities[i := a.(spentHours := Max(0.0, a.spentHours - entry.hours))], history)
  }

  /** What deleting an entry does: nothing without a matching entry; otherwise no entry with
      the id is left, the others stay, and of the activities only the owning one's spent hours change. */
  lemma DeleteHistoryEffect(s: Store, id: string)
    ensures var r := DeleteHistory(s, id);
      if id == "" || FindEntry(s.history, id).None? then r == s
      else
        var entry := s.history[FindEntry(s.history, id).value];
        && (forall e | e in r.history :: e.id != id && e in s.history)
        && (forall e | e in s.history && e.id != id :: e in r.history)
        && |r.activities| == |s.activities|
        && (match FindActivity(s.activities, entry.activityId)
            case None => r.activities == s.activities
            case Some(i) =>
              && r.activities[i] == s.activities[i].(spentHours := Max(0.0, s.activities[i].spentHours - entry.hours))
              && (forall k | 0 <= k < |s.activities| && k != i :: r.activities[k] == s.activities[k])
              && TotalSpent(s.activities) - entry.hours <= TotalSpent(r.activities))
  {
    if id != "" && FindEntry(s.history, id).Some? {
      var entry := s.history[FindEntry(s.history, id).value];
      match FindActivity(s.activities, entry.activityId)
      case None =>
      case Some(i) =>
        var a := s.activities[i];
        TotalSpentUpdate(s.activities, i, a.(spentHours := Max(0.0, a.spentHours - entry.hours)));
    }
  }

  /** Replacing an activity by one with the same id keeps the set of ids. */
  lemma UpdateKeepsIds(activities: seq<Activity>, i: nat, a: Activity)
    requires i < |activities| && a.id == activities[i].id
    ensures Ids(activities[i := a]) == Ids(activities)
  {
    assert forall k | 0 <= k < |activities| :: activities[i := a][k].id == activities[k].id;
  }

  /** Removing entries keeps the remaining ones positive and pointing at the activities. */
  lemma FilterKeepsEntries(history: seq<Entry>, keep: Entry -> bool, ids: set<string>)
    requires PositiveEntries(history)
    requires forall k | 0 <= k < |history| :: history[k].activityId in ids
    ensures var h := Filter(history, keep);
      PositiveEntries(h) && forall k | 0 <= k < |h| :: h[k].activityId in ids
  {
    var h := Filter(history, keep);
    forall k | 0 <= k < |h| ensures h[k].hours > 0.0 && h[k].activityId in ids {
      var m :| 0 <= m < |history| && history[m] == h[k];
    }
  }

  /** Deleting an entry keeps every invariant; spent hours stay non-negative. */
  lemma DeleteHistoryKeeps(s: Store, id: string)
    requires Valid(s)
    ensures Valid(DeleteHistory(s, id))
  {
    if id != "" && FindEntry(s.history, id).Some? {
      var entry := s.history[FindEntry(s.history, id).value];
      FilterKeepsEntries(s.history, (e: Entry) => e.id != id, Ids(s.activities));
      assert WithoutEntry(s.history, id) == Filter(s.history, (e: Entry) => e.id != id);
      match FindActivity(s.activities, entry.activityId)
      case None =>
      case Some(i) =>
        var a := s.activities[i];
        UpdateKeepsIds(s.activities, i, a.(spentHours := Max(0.0, a.spentHours - entry.hours)));
    }
  }

  // ---------------------------------------------------------------------------
  // Sessions of commands

  /** A user command, with the values the handlers read from the form, the clock and the
      pending ids. */
  datatype Command =
    | NewActivity(name: string, target: real, initialHours: real, id: string, now: int)
    | LogTime(hours: real, current: string, entryId: string, now: int)
    | RemoveActivity(activityId: string)
    | RemoveEntry(entryId: string)

  function Apply(s: Store, c: Command): Store
  {
    match c
    case NewActivity(name, target, initialHours, id, now) => CreateActivity(s, name, target, initialHours, id, now)
    case LogTime(hours, current, entryId, now) => AddTime(s, hours, current, entryId, now)
    case RemoveActivity(id) => DeleteActivity(s, id)
    case RemoveEntry(id) => DeleteHistory(s, id)
  }

  /** The store after running the commands in order. */
  function Run(s: Store, cs: seq<Command>): Store
    decreases |cs|
  {
    if cs == [] then s else Run(Apply(s, cs[0]), cs[1..])
  }

  /** No command creates an activity with negative initial hours. */
  predicate NoNegativeStart(cs: seq<Command>)
  {
    forall k | 0 <= k < |cs| :: cs[k].NewActivity? ==> cs[k].initialHours >= 0.0
  }

  /** Any session of commands keeps the invariants, provided no activity starts negative:
      spent hours never go negative, the history stays within 100 entries of positive hours,
      and no entry is orphaned. */
  lemma {:induction false} RunKeeps(s: Store, cs: seq<Command>)
    requires Valid(s) && NoNegativeStart(cs)
    ensures Valid(Run(s, cs))
    decreases |cs|
  {
    if cs != [] {
      match cs[0] {
        case NewActivity(name, target, initialHours, id, now) =>
          CreateActivityKeeps(s, name, target, initialHours, id, now);
        case LogTime(hours, current, entryId, now) => AddTimeKeeps(s, hours, current, entryId, now);
        case RemoveActivity(id) => DeleteActivityKeeps(s, id);
        case RemoveEntry(id) => DeleteHistoryKeeps(s, id);
      }
      assert NoNegativeStart(cs[1..]) by {
        assert forall k | 0 <= k < |cs| - 1 :: cs[1..][k] == cs[k + 1];
      }
      RunKeeps(Apply(s, cs[0]), cs[1..]);
    }
  }

  /** Every activity has a name: creation refuses an empty one. */
  predicate Named(activities: seq<Activity>)
  {
    forall k | 0 <= k < |activities| :: activities[k].name != ""
  }

  /** No command takes away the name of an activity or adds one without a name. */
  lemma ApplyKeepsNames(s: Store, c: Command)
    requires Named(s.activities)
    ensures Named(Apply(s, c).activities)
  {
    var r := Apply(s, c);
    match c {
      case NewActivity(name, target, initialHours, id, now) =>
      case LogTime(hours, current, entryId, now) =>
      case RemoveActivity(id) =>
        if id != "" {
          var keep := (a: Activity) => a.id != id;
          assert r.activities == Filter(s.activities, keep);
          assert forall k | 0 <= k < |r.activities| :: r.activities[k] in s.activities;
        }
      case RemoveEntry(id) =>
    }
  }

  /** Any session of commands keeps every activity named. */
  lemma {:induction false} RunKeepsNames(s: Store, cs: seq<Command>)
    requires Named(s.activities)
    ensures Named(Run(s, cs).activities)
    decreases |cs|
  {
    if cs != [] {
      ApplyKeepsNames(s, cs[0]);
      RunKeepsNames(Apply(s, cs[0]), cs[1..]);
    }
  }

  /** Create "Reading" with target 10 and no initial time, add "1:30", delete that entry:
      the spent hours go 0, 1.5 and back to 0. */
  lemma ReadingScenario()
    ensures var s1 := CreateActivity(Store([], []), "Reading", 10.0, ParseTimeInput(""), "a", 0);
      var s2 := AddTime(s1, ParseTimeInput("1:30"), "a", "h", 1);
      var s3 := DeleteHistory(s2, "h");
      && s1 == Store([Activity("a", "Reading", 10.0, 0.0, Some(0))], [])
      && s2 == Store([Activity("a", "Reading", 10.0, 1.5, Some(0))], [Entry("h", "a", "Reading", 1.5, 1)])
      && s3 == Store([Activity("a", "Reading", 10.0, 0.0, Some(0))], [])
  {
    ParseTimeInputBlank("");
    ExampleClock();
    ReadingScenarioWith(ParseTimeInput(""), ParseTimeInput("1:30"));
  }

  lemma ReadingScenarioWith(none: real, clock: real)
    requires none == 0.0 && clock == 1.5
    ensures var s1 := CreateActivity(Store([], []), "Reading", 10.0, none, "a", 0);
      var s2 := AddTime(s1, clock, "a", "h", 1);
      var s3 := DeleteHistory(s2, "h");
      && s1 == Store([Activity("a", "Reading", 10.0, 0.0, Some(0))], [])
      && s2 == Store([Activity("a", "Reading", 10.0, 1.5, Some(0))], [Entry("h", "a", "Reading", 1.5, 1)])
      && s3 == Store([Activity("a", "Reading", 10.0, 0.0, Some(0))], [])
  {
    var reading := Activity("a", "Reading", 10.0, none, Some(0));
    var s1 := CreateActivity(Store([], []), "Reading", 10.0, none, "a", 0);
    assert s1 == Store([reading], []);
    assert FindActivity(s1.activities, "a") == Some(0);
    var entry := Entry("h", "a", "Reading", clock, 1);
    var s2 := AddTime(s1, clock, "a", "h", 1);
    assert s2 == Store([reading.(spentHours := 1.5)], [entry]);
    assert FindEntry(s2.history, "h") == Some(0);
    assert WithoutEntry(s2.history, "h") == [];
  }

  // ---------------------------------------------------------------------------
  // The createdAt migration of loadData

  /** An activity with a missing `createdAt` given `now`. */
  function Stamp(a: Activity, now: int): Activity
  {
    if a.createdAt.None? then a.(createdAt := Some(now)) else a
  }

  /** The activities after the migration loop. */
  function Migrated(activities: seq<Activity>, now: int): (r: seq<Activity>)
    ensures |r| == |activities|
  {
    seq(|activities|, k requires 0 <= k < |activities| => Stamp(activities[k], now))
  }

  /** Some activity lacks `createdAt`. */
  predicate NeedsMigration(activities: seq<Activity>)
  {
    exists k | 0 <= k < |activities| :: activities[k].createdAt.None?
  }

  /** After the migration every activity has a `createdAt`; an existing one is kept, and
      nothing else about an activity changes. */
  lemma MigratedEffect(activities: seq<Activity>, now: int)
    ensures var r := Migrated(activities, now);
      && !NeedsMigration(r)
      && forall k | 0 <= k < |r| ::
           && r[k].(createdAt := None) == activities[k].(createdAt := None)
           && (activities[k].createdAt.Some? ==> r[k] == activities[k])
           && (activities[k].createdAt.None? ==> r[k].createdAt == Some(now))
  {
  }

  /** The migration changes the activities exactly when some lack `createdAt`; so loading
      and saving a migrated store gives back the same store. */
  lemma MigratedChangesIff(activities: seq<Activity>, now: int)
    ensures Migrated(activities, now) == activities <==> !NeedsMigration(activities)
  {
    var r := Migrated(activities, now);
    if NeedsMigration(activities) {
      var k :| 0 <= k < |activities| && activities[k].createdAt.None?;
      assert r[k] != activities[k];
    }
  }

  /** Migrating twice is migrating once, whatever the clock says the second time. */
  lemma MigratedIdempotent(activities: seq<Activity>, now: int, later: int)
    ensures Migrated(Migrated(activities, now), later) == Migrated(activities, now)
  {
    MigratedEffect(activities, now);
    MigratedChangesIff(Migrated(activities, now), later);
  }
}
