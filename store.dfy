/**
 * The time tracker's mutable state, as the page script keeps it in module-level variables:
 * the `activities` and `history` arrays and the three pending ids of the open dialogs, with
 * the handlers that read the form, change the arrays in place and say whether they save.
 * Each handler is proved against the matching command of the Tracker module.
 */
module App {
  import opened Wrappers
  import opened JsText
  import opened TimeText
  import opened Tracker
  import opened Render

  /** What the key-value storage gave back: nothing (an error or no data), text that is not
      JSON, or a parsed object whose `activities` and `history` may be missing. */
  datatype Loaded =
    | Unavailable
    | Malformed
    | Parsed(activities: Option<seq<Activity>>, history: Option<seq<Entry>>)

  class TimeTracker {
    var activities: seq<Activity>
    var history: seq<Entry>
    /** The activity whose time dialog is open; "" for none. */
    var currentActivityId: string
    /** The activity whose delete dialog is open; "" for none. */
    var deleteActivityId: string
    /** The history entry whose delete dialog is open; "" for none. */
    var deleteHistoryId: string

    /** The persisted part of the state. */
    function State(): Store
      reads this
    {
      Store(activities, history)
    }

    /** The state at page load, before the storage answers. */
    constructor ()
      ensures State() == Store([], [])
      ensures currentActivityId == "" && deleteActivityId == "" && deleteHistoryId == ""
    {
      activities, history := [], [];
      currentActivityId, deleteActivityId, deleteHistoryId := "", "", "";
    }

    /** `loadData` once the storage has answered: take the parsed arrays (empty when missing)
        and give every activity without `createdAt` the time `now`; report whether any was
        missing, which is when the data is saved back. Anything unreadable gives an empty store. */
    method LoadData(loaded: Loaded, now: int) returns (needsSave: bool)
      modifies this
      ensures loaded.Parsed? ==>
        && activities == Migrated(loaded.activities.GetOr([]), now)
        && history == loaded.history.GetOr([])
        && needsSave == NeedsMigration(loaded.activities.GetOr([]))
      ensures !loaded.Parsed? ==> State() == Store([], []) && !needsSave
      ensures currentActivityId == old(currentActivityId)
      ensures deleteActivityId == old(deleteActivityId) && deleteHistoryId == old(deleteHistoryId)
    {
      needsSave := false;
      if !loaded.Parsed? {
        activities, history := [], [];
        return;
      }
      var parsed := loaded.activities.GetOr([]);
      activities := parsed;
      history := loaded.history.GetOr([]);
      var i := 0;
      while i < |activities|
        invariant 0 <= i <= |activities| == |parsed|
        invariant forall k | 0 <= k < i :: activities[k] == Stamp(parsed[k], now)
        invariant forall k | i <= k < |activities| :: activities[k] == parsed[k]
        invariant needsSave <==> exists k | 0 <= k < i :: parsed[k].createdAt.None?
        invariant history == loaded.history.GetOr([])
        invariant currentActivityId == old(currentActivityId)
        invariant deleteActivityId == old(deleteActivityId) && deleteHistoryId == old(deleteHistoryId)
      {
        if activities[i].createdAt.None? {
          activities := activities[i := activities[i].(createdAt := Some(now))];
          needsSave := true;
        }
        i := i + 1;
      }
    }

    /** `openTimeModal`: select an existing activity for adding time; the dialog's title
        names it. An unknown id opens nothing. */
    method OpenTimeModal(activityId: string) returns (title: Option<string>)
      modifies this
      ensures title.Some? <==> FindActivity(activities, activityId).Some?
      ensures title.Some? ==>
        && currentActivityId == activityId
        && title.value == "Добавить время: " + activities[FindActivity(activities, activityId).value].name
      ensures title.None? ==> currentActivityId == old(currentActivityId)
      ensures State() == old(State())
      ensures deleteActivityId == old(deleteActivityId) && deleteHistoryId == old(deleteHistoryId)
    {
      match FindActivity(activities, activityId) {
        case None =>
          title := None;
        case Some(i) =>
          currentActivityId := activityId;
          title := Some("Добавить время: " + activities[i].name);
      }
    }

    /** `openDeleteModal`: mark an existing activity for deletion; the prompt names it. */
    method OpenDeleteModal(activityId: string) returns (prompt: Option<string>)
      modifies this
      ensures prompt.Some? <==> FindActivity(activities, activityId).Some?
      ensures prompt.Some? ==>
        && deleteActivityId == activityId
        && prompt.value == "Удалить активность \"" + activities[FindActivity(activities, activityId).value].name + "\"?"
      ensures prompt.None? ==> deleteActivityId == old(deleteActivityId)
      ensures State() == old(State())
      ensures currentActivityId == old(currentActivityId) && deleteHistoryId == old(deleteHistoryId)
    {
      match FindActivity(activities, activityId) {
        case None =>
          prompt := None;
        case Some(i) =>
          deleteActivityId := activityId;
          prompt := Some("Удалить активность \"" + activities[i].name + "\"?");
      }
    }

    /** `openDeleteHistoryModal`: mark an existing entry for deletion; the prompt names its
        activity, or a placeholder when that is gone, and shows the entry's hours. */
    method OpenDeleteHistoryModal(historyId: string) returns (prompt: Option<string>)
      modifies this
      ensures prompt.Some? <==> FindEntry(history, historyId).Some?
      ensures prompt.Some? ==>
        var e := history[FindEntry(history, historyId).value];
        && deleteHistoryId == historyId
        && prompt.value == "Удалить запись \"" + EntryOwnerName(activities, e) + " - " + FormatHours(e.hours) + "\"?"
      ensures prompt.None? ==> deleteHistoryId == old(deleteHistoryId)
      ensures State() == old(State())
      ensures currentActivityId == old(currentActivityId) && deleteActivityId == old(deleteActivityId)
    {
      match FindEntry(history, historyId) {
        case None =>
          prompt := None;
        case Some(j) =>
          deleteHistoryId := historyId;
          var e := history[j];
          prompt := Some("Удалить запись \"" + EntryOwnerName(activities, e) + " - " + FormatHours(e.hours) + "\"?");
      }
    }

    /** The cancel button of the time dialog forgets the selected activity. */
    method CancelTime()
      modifies this
      ensures currentActivityId == ""
      ensures State() == old(State())
      ensures deleteActivityId == old(deleteActivityId) && deleteHistoryId == old(deleteHistoryId)
    {
      currentActivityId := "";
    }

    /** The cancel button of the activity delete dialog forgets the pending activity. */
    method CancelDelete()
      modifies this
      ensures deleteActivityId == ""
      ensures State() == old(State())
      ensures currentActivityId == old(currentActivityId) && deleteHistoryId == old(deleteHistoryId)
    {
      deleteActivityId := "";
    }

    /** The cancel button of the entry delete dialog forgets the pending entry. */
    method CancelDeleteHistory()
      modifies this
      ensures deleteHistoryId == ""
      ensures State() == old(State())
      ensures currentActivityId == old(currentActivityId) && deleteActivityId == old(deleteActivityId)
    {
      deleteHistoryId := "";
    }

    /** `handleCreateActivity`: the name and initial time are trimmed, the initial time read as
        hours; with a name and a target that is not negative a new activity, stamped `now`,
        is pushed. */
    method CreateActivity(nameInput: string, target: real, initialInput: string, id: string, now: int)
      returns (saved: bool)
      modifies this
      ensures State()
        == Tracker.CreateActivity(old(State()), Trim(nameInput), target, ParseTimeInput(Trim(initialInput)), id, now)
      ensures saved <==> Trim(nameInput) != [] && target >= 0.0
      ensures currentActivityId == old(currentActivityId)
      ensures deleteActivityId == old(deleteActivityId) && deleteHistoryId == old(deleteHistoryId)
    {
      var initialHours := ParseTimeInput(Trim(initialInput));
      saved := PushActivity(Trim(nameInput), target, initialHours, id, now);
    }

    /** The part of `handleCreateActivity` after the form is read. */
    method PushActivity(name: string, target: real, initialHours: real, id: string, now: int)
      returns (saved: bool)
      modifies this
      ensures State() == Tracker.CreateActivity(old(State()), name, target, initialHours, id, now)
      ensures saved <==> name != [] && target >= 0.0
      ensures Valid(old(State())) && initialHours >= 0.0 ==> Valid(State())
      ensures currentActivityId == old(currentActivityId)
      ensures deleteActivityId == old(deleteActivityId) && deleteHistoryId == old(deleteHistoryId)
    {
      CreateActivityKeeps(State(), name, target, initialHours, id, now);
      if name == [] || target < 0.0 {
        return false;
      }
      activities := activities + [Activity(id, name, target, initialHours, Some(now))];
      saved := true;
    }

    /** `handleAddTime`: the input is trimmed and read as hours; when they are positive and the
        selected activity exists, its spent hours grow in place, an entry is put in front of
        the history, the history is cut to its limit and the selection is cleared. */
    method AddTime(timeInput: string, entryId: string, now: int) returns (saved: bool)
      modifies this
      ensures var hours := ParseTimeInput(Trim(timeInput));
        && State() == Tracker.AddTime(old(State()), hours, old(currentActivityId), entryId, now)
        && (saved <==> AddTimeApplies(old(State()), hours, old(currentActivityId)))
      ensures currentActivityId == if saved then "" else old(currentActivityId)
      ensures deleteActivityId == old(deleteActivityId) && deleteHistoryId == old(deleteHistoryId)
    {
      var hours := ParseTimeInput(Trim(timeInput));
      saved := AddHours(hours, entryId, now);
    }

    /** The part of `handleAddTime` after the input is read. */
    method AddHours(hours: real, entryId: string, now: int) returns (saved: bool)
      modifies this
      ensures State() == Tracker.AddTime(old(State()), hours, old(currentActivityId), entryId, now)
      ensures saved <==> AddTimeApplies(old(State()), hours, old(currentActivityId))
      ensures Valid(old(State())) ==> Valid(State())
      ensures currentActivityId == if saved then "" else old(currentActivityId)
      ensures deleteActivityId == old(deleteActivityId) && deleteHistoryId == old(deleteHistoryId)
    {
      if Valid(State()) {
        AddTimeKeeps(State(), hours, currentActivityId, entryId, now);
      }
      if hours <= 0.0 || currentActivityId == "" {
        return false;
      }
      var found := FindActivity(activities, currentActivityId);
      if found.None? {
        return false;
      }
      var i := found.value;
      var a := activities[i];
      activities := activities[i := a.(spentHours := a.spentHours + hours)];
      history := [Entry(entryId, currentActivityId, a.name, hours, now)] + history;
      if |history| > HistoryLimit {
        history := history[..HistoryLimit];
      }
      currentActivityId := "";
      saved := true;
    }

    /** `handleDeleteActivity`: with an activity pending, remove it and its entries and
        clear the pending id. */
    method DeleteActivity() returns (saved: bool)
      modifies this
      ensures State() == Tracker.DeleteActivity(old(State()), old(deleteActivityId))
      ensures saved <==> old(deleteActivityId) != ""
      ensures Valid(old(State())) ==> Valid(State())
      ensures deleteActivityId == ""
      ensures currentActivityId == old(currentActivityId) && deleteHistoryId == old(deleteHistoryId)
    {
      if Valid(State()) {
        DeleteActivityKeeps(State(), deleteActivityId);
      }
      if deleteActivityId == "" {
        return false;
      }
      var id := deleteActivityId;
      activities := WithoutActivity(activities, id);
      history := WithoutEntriesOf(history, id);
      deleteActivityId := "";
      saved := true;
    }

    /** `handleDeleteHistory`: with an entry pending that exists, remove it and take its hours
        off its activity, floored at 0; the pending id is cleared in any case. */
    method DeleteHistory() returns (saved: bool)
      modifies this
      ensures State() == Tracker.DeleteHistory(old(State()), old(deleteHistoryId))
      ensures saved <==> old(deleteHistoryId) != "" && FindEntry(old(history), old(deleteHistoryId)).Some?
      ensures Valid(old(State())) ==> Valid(State())
      ensures deleteHistoryId == ""
      ensures currentActivityId == old(currentActivityId) && deleteActivityId == old(deleteActivityId)
    {
      if Valid(State()) {
        DeleteHistoryKeeps(State(), deleteHistoryId);
      }
      if deleteHistoryId == "" {
        return false;
      }
      var id := deleteHistoryId;
      saved := false;
      var found := FindEntry(history, id);
      if found.Some? {
        var entry := history[found.value];
        history := WithoutEntry(history, id);
        var owner := FindActivity(activities, entry.activityId);
        if owner.Some? {
          var i := owner.value;
          var a := activities[i];
          activities := activities[i := a.(spentHours := Max(0.0, a.spentHours - entry.hours))];
        }
        saved := true;
      }
      deleteHistoryId := "";
    }
  }
}
