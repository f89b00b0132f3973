/**
 * What the activity cards and history rows show, without their markup: the progress
 * percentage with its "low" mark, bar width and label, and the name a history row or a
 * delete prompt gives the activity of an entry.
 */
module Render {
  import opened Wrappers
  import opened JsText
  import opened TimeText
  import opened Tracker

  // ---------------------------------------------------------------------------
  // Progress of an activity card

  /** `Math.min`. */
  function Min(a: real, b: real): (m: real)
    ensures m <= a && m <= b && (m == a || m == b)
  {
    if a <= b then a else b
  }

  /** The progress percentage: spent hours as a share of the target, capped at 100; 0 when
      there is no positive target. */
  function Percentage(spent: real, target: real): (p: real)
    ensures p <= 100.0
    ensures target <= 0.0 ==> p == 0.0
    ensures target > 0.0 ==> (p == 100.0 <==> spent >= target)
    ensures target > 0.0 && spent < target ==> p * target == spent * 100.0
    ensures target > 0.0 ==> (p >= 0.0 <==> spent >= 0.0)
  {
    if target > 0.0 then
      var q := spent / target;
      assert q * target == spent;
      assert spent >= target <==> q >= 1.0;
      assert spent >= 0.0 <==> q >= 0.0;
      Min(q * 100.0, 100.0)
    else 0.0
  }

  /** The bar is marked low below 10 percent. */
  predicate IsLow(percentage: real)
  {
    percentage < 10.0
  }

  /** The bar's CSS width in percent, `Math.max(percentage, 0)`. */
  function BarWidth(percentage: real): (w: real)
    ensures w >= 0.0 && w >= percentage && (w == 0.0 || w == percentage)
  {
    Max(0.0, percentage)
  }

  /** `x.toFixed(0)`: the sign, then the magnitude rounded to the nearest integer, halves up.
      A negative amount that rounds to zero keeps its sign, "-0". */
  function ToFixed0(x: real): (r: string)
    ensures r != []
  {
    if x < 0.0 then "-" + NatToString(Round(-x)) else NatToString(Round(x))
  }

  /** The percentage label of the bar. */
  function PercentLabel(percentage: real): string
  {
    ToFixed0(percentage) + "%"
  }

  /** More spent hours never show less progress. */
  lemma PercentageMonotone(spent: real, more: real, target: real)
    requires spent <= more
    ensures Percentage(spent, target) <= Percentage(more, target)
  {
    if target > 0.0 {
      var q, r := spent / target, more / target;
      assert q * target == spent && r * target == more;
      assert (r - q) * target == more - spent;
      assert q <= r;
    }
  }

  /** A card is marked low exactly when less than a tenth of a positive target is spent;
      an activity without a positive target is always marked low. */
  lemma LowIff(spent: real, target: real)
    ensures target > 0.0 ==> (IsLow(Percentage(spent, target)) <==> spent * 10.0 < target)
    ensures target <= 0.0 ==> IsLow(Percentage(spent, target))
  {
    if target > 0.0 {
      var q := spent / target;
      assert q * target == spent;
      assert spent * 10.0 < target <==> q < 0.1;
    }
  }

  /** The bar of an activity with non-negative spent hours is exactly its percentage wide, at most 100. */
  lemma BarWidthOfActivity(spent: real, target: real)
    requires spent >= 0.0
    ensures var p := Percentage(spent, target);
      BarWidth(p) == p && 0.0 <= BarWidth(p) <= 100.0
  {
  }

  /** The label of a non-negative percentage reads back as the percentage rounded, followed by "%". */
  lemma PercentLabelReadBack(percentage: real)
    requires percentage >= 0.0
    ensures ReadNat(PercentLabel(percentage)) == Some((Round(percentage), "%"))
    ensures Round(percentage) as real - 0.5 <= percentage < Round(percentage) as real + 0.5
  {
    ReadNatRendered(Round(percentage), "%");
  }

  /** An activity with non-negative spent hours shows a label between 0% and 100%. */
  lemma PercentLabelOfActivity(spent: real, target: real)
    requires spent >= 0.0
    ensures var p := Percentage(spent, target);
      ReadNat(PercentLabel(p)).Some? && ReadNat(PercentLabel(p)).value.0 <= 100
  {
    var p := Percentage(spent, target);
    PercentLabelReadBack(p);
  }

  /** An activity created with "-1" hours against a 10-hour target: a bar of no width and the label "-10%". */
  lemma NegativeSpentCard()
    ensures Percentage(-1.0, 10.0) == -10.0
    ensures BarWidth(Percentage(-1.0, 10.0)) == 0.0
    ensures PercentLabel(Percentage(-1.0, 10.0)) == "-10%"
  {
    assert Round(10.0) == 10;
    assert NatToString(10) == "10";
  }

  /** A small negative percentage is labelled "-0%". */
  lemma NegativeZeroLabel()
    ensures PercentLabel(-0.3) == "-0%"
  {
    assert Round(0.3) == 0;
    assert NatToString(0) == "0";
  }

  // ---------------------------------------------------------------------------
  // Names of the activity of an entry

  /** The placeholder of a history row whose activity is gone and whose entry has no stored name. */
  const DeletedActivity: string := "Удаленная активность"

  /** The placeholder of a delete prompt whose entry's activity is gone. */
  const UnknownActivity: string := "Неизвестная активность"

  /** The name a history row shows: the live activity's name, else the name stored in the
      entry when it is not empty, else the placeholder. */
  function HistoryName(activities: seq<Activity>, entry: Entry): string
  {
    match FindActivity(activities, entry.activityId)
    case Some(i) => activities[i].name
    case None => if entry.activityName != "" then entry.activityName else DeletedActivity
  }

  /** The name the prompt for deleting an entry shows: the live activity's name, else the placeholder. */
  function EntryOwnerName(activities: seq<Activity>, entry: Entry): string
  {
    match FindActivity(activities, entry.activityId)
    case Some(i) => activities[i].name
    case None => UnknownActivity
  }

  /** The first activity with an id that is among the ids is found. */
  lemma FindKnownActivity(activities: seq<Activity>, id: string)
    requires id in Ids(activities)
    ensures FindActivity(activities, id).Some?
  {
    var k :| 0 <= k < |activities| && activities[k].id == id;
  }

  /** The names shown for one entry, whatever the rest of the store holds: with its activity
      live, the row and the prompt both show that activity's name; with it gone, the row shows
      the stored name when it is not empty and the placeholder otherwise, and the prompt its own placeholder. */
  lemma ShownNames(activities: seq<Activity>, e: Entry)
    ensures e.activityId in Ids(activities) ==>
      && FindActivity(activities, e.activityId).Some?
      && activities[FindActivity(activities, e.activityId).value].id == e.activityId
      && HistoryName(activities, e) == activities[FindActivity(activities, e.activityId).value].name
      && EntryOwnerName(activities, e) == HistoryName(activities, e)
    ensures e.activityId !in Ids(activities) ==>
      && HistoryName(activities, e) == (if e.activityName != "" then e.activityName else DeletedActivity)
      && EntryOwnerName(activities, e) == UnknownActivity
  {
    if e.activityId in Ids(activities) {
      FindKnownActivity(activities, e.activityId);
    }
  }

  /** In a store without orphans, every history row and its delete prompt show the same
      name, that of the first activity with the entry's id; no placeholder or stored name is shown. */
  lemma LiveNameShown(s: Store, k: nat)
    requires NoOrphans(s) && k < |s.history|
    ensures var e := s.history[k];
      && FindActivity(s.activities, e.activityId).Some?
      && HistoryName(s.activities, e) == EntryOwnerName(s.activities, e)
      && HistoryName(s.activities, e) == s.activities[FindActivity(s.activities, e.activityId).value].name
      && s.activities[FindActivity(s.activities, e.activityId).value].id == e.activityId
  {
    ShownNames(s.activities, s.history[k]);
  }

  /** The stored name is shown only when the entry's activity is gone. */
  lemma StoredNameOnlyForOrphans(activities: seq<Activity>, entry: Entry)
    requires HistoryName(activities, entry) != EntryOwnerName(activities, entry)
    ensures entry.activityId !in Ids(activities)
    ensures HistoryName(activities, entry) == (if entry.activityName != "" then entry.activityName else DeletedActivity)
  {
    if entry.activityId in Ids(activities) {
      FindKnownActivity(activities, entry.activityId);
    }
  }

  /** When every activity has a name, every history row shows a name. */
  lemma HistoryNameNotEmpty(activities: seq<Activity>, entry: Entry)
    requires Named(activities)
    ensures HistoryName(activities, entry) != ""
    ensures EntryOwnerName(activities, entry) != ""
  {
  }
}
