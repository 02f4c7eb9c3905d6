/** The state of the time-jar component as a value, and the pure parts of the
    component: the two history folds, the transfer and edit steps the
    component's handlers perform, the history list it displays, the
    hours/minutes split, the fill percentage and the save guard.

    Amounts are exact rationals (`real`), in hours; history values are whole
    minutes. */
module Jars {
  import opened JsParse

  /** The capacity of Jar 1, its starting amount and the baseline every edit
      replays the history from: 365 hours. */
  const Capacity: real := 365.0

  /** A locale-formatted clock reading; only stored and shown. */
  type Timestamp = string

  /** One history record: the minutes moved (or the value an edit put in their
      place) and when it was recorded or last edited. */
  datatype Entry = Entry(value: int, date: Timestamp)

  /** The component's four pieces of state. */
  datatype Snapshot = Snapshot(
    jar1Hours: real,
    jar2Hours: real,
    inputMinutes: string,
    history: seq<Entry>)  // oldest first

  /** The state the component mounts with. */
  function Initial(): (s: Snapshot)
    ensures s.jar1Hours == Capacity && s.jar2Hours == 0.0
    ensures s.inputMinutes == "" && s.history == []
  {
    Snapshot(Capacity, 0.0, "", [])
  }

  /** `minutes / 60`. */
  function Hours(minutes: int): (h: real)
    ensures h * 60.0 == minutes as real
  {
    minutes as real / 60.0
  }

  // ---------------------------------------------------------------------------
  // Sums and the two history folds

  /** The sum of the history's values, in minutes. */
  function TotalMinutes(h: seq<Entry>): (total: int)
    ensures (forall i :: 0 <= i < |h| ==> h[i].value >= 0) ==> total >= 0
  {
    if h == [] then 0 else TotalMinutes(h[..|h| - 1]) + h[|h| - 1].value
  }

  lemma TotalMinutesAppend(h: seq<Entry>, e: Entry)
    ensures TotalMinutes(h + [e]) == TotalMinutes(h) + e.value
  {
    assert (h + [e])[..|h|] == h;
  }

  lemma {:induction false} TotalMinutesFront(h: seq<Entry>)
    requires h != []
    ensures TotalMinutes(h) == h[0].value + TotalMinutes(h[1..])
  {
    if |h| > 1 {
      TotalMinutesFront(h[..|h| - 1]);
      assert h[..|h| - 1][1..] == h[1..][..|h| - 2];
    }
  }

  /** Replacing one record changes the sum by the difference of the two values. */
  lemma {:induction false} TotalMinutesUpdate(h: seq<Entry>, i: int, e: Entry)
    requires 0 <= i < |h|
    ensures TotalMinutes(h[i := e]) == TotalMinutes(h) - h[i].value + e.value
  {
    var last := |h| - 1;
    assert h[i := e][..last] == if i == last then h[..last] else h[..last][i := e];
    if i < last {
      TotalMinutesUpdate(h[..last], i, e);
    }
  }

  /** `history.reduce((total, item) => total - item.value / 60, start)`:
      Jar 1's replay takes the history's total away from its start value. */
  function DrainFold(h: seq<Entry>, start: real): (r: real)
    ensures r == start - Hours(TotalMinutes(h))
  {
    if h == [] then start
    else
      TotalMinutesFront(h);
      DrainFold(h[1..], start - Hours(h[0].value))
  }

  /** `history.reduce((total, item) => total + item.value / 60, start)`:
      Jar 2's replay adds the history's total to its start value. */
  function FillFold(h: seq<Entry>, start: real): (r: real)
    ensures r == start + Hours(TotalMinutes(h))
  {
    if h == [] then start
    else
      TotalMinutesFront(h);
      FillFold(h[1..], start + Hours(h[0].value))
  }

  /** The totals agree with a replay of the history from 365 and 0. */
  ghost predicate Consistent(s: Snapshot)
  {
    s.jar1Hours == Capacity - Hours(TotalMinutes(s.history)) &&
    s.jar2Hours == Hours(TotalMinutes(s.history))
  }

  // ---------------------------------------------------------------------------
  // Transfer

  /** The guard of the transfer handler: a number was read, it is positive and
      Jar 1 holds at least that many minutes. */
  predicate Accepts(minutes: Option<int>, jar1Hours: real)
    ensures Accepts(minutes, jar1Hours) <==>
      minutes.Some? && 0 < minutes.value && Hours(minutes.value) <= jar1Hours
    ensures Accepts(minutes, jar1Hours) ==> jar1Hours >= Hours(1)
  {
    !(minutes.None? || minutes.value <= 0 || minutes.value as real > jar1Hours * 60.0)
  }

  /** What pressing Transfer does to the state. */
  function TransferStep(s: Snapshot, now: Timestamp): (r: Snapshot)
    ensures r == s <==> !Accepts(ParseInt(s.inputMinutes), s.jar1Hours)
    ensures r.jar1Hours + r.jar2Hours == s.jar1Hours + s.jar2Hours
    ensures s.jar1Hours >= 0.0 ==> r.jar1Hours >= 0.0
    ensures s.jar2Hours >= 0.0 ==> r.jar2Hours >= 0.0
    ensures |s.history| <= |r.history| <= |s.history| + 1
    ensures r.history[..|s.history|] == s.history
  {
    var minutes := ParseInt(s.inputMinutes);
    if !Accepts(minutes, s.jar1Hours) then s
    else
      var m := minutes.value;
      Moved(s, m, now);
      Snapshot(s.jar1Hours - Hours(m), s.jar2Hours + Hours(m), "", s.history + [Entry(m, now)])
  }

  /** Moving `m` minutes out of a jar that holds them: the state changes, the
      sum is kept, no jar goes below zero, and one record is appended. */
  lemma Moved(s: Snapshot, m: int, now: Timestamp)
    requires 0 < m && Hours(m) <= s.jar1Hours
    ensures var r := Snapshot(s.jar1Hours - Hours(m), s.jar2Hours + Hours(m), "", s.history + [Entry(m, now)]);
      r != s &&
      r.jar1Hours + r.jar2Hours == s.jar1Hours + s.jar2Hours &&
      r.jar1Hours >= 0.0 && (s.jar2Hours >= 0.0 ==> r.jar2Hours >= 0.0) &&
      |r.history| == |s.history| + 1 && r.history[..|s.history|] == s.history
  {
    var r := Snapshot(s.jar1Hours - Hours(m), s.jar2Hours + Hours(m), "", s.history + [Entry(m, now)]);
    assert |r.history| != |s.history|;
    assert r.history[..|s.history|] == s.history;
  }

  /** An accepted transfer of `m` minutes moves `m / 60` hours, clears the
      field and records `m` with the time. */
  lemma TransferAccepted(s: Snapshot, now: Timestamp, m: int)
    requires ParseInt(s.inputMinutes) == Some(m)
    requires 0 < m && m as real <= s.jar1Hours * 60.0
    ensures TransferStep(s, now) ==
      Snapshot(s.jar1Hours - Hours(m), s.jar2Hours + Hours(m), "", s.history + [Entry(m, now)])
  {
  }

  lemma TransferKeepsConsistent(s: Snapshot, now: Timestamp)
    requires Consistent(s)
    ensures Consistent(TransferStep(s, now))
  {
    var minutes := ParseInt(s.inputMinutes);
    if Accepts(minutes, s.jar1Hours) {
      TotalMinutesAppend(s.history, Entry(minutes.value, now));
    }
  }

  // ---------------------------------------------------------------------------
  // Edit

  /** What the edit handler does with an index into the oldest-first history:
      the record there becomes `{newValue, now}` and both totals are replayed
      from 365 and 0 over the updated history. */
  function EditStep(s: Snapshot, index: int, newValue: int, now: Timestamp): (r: Snapshot)
    requires 0 <= index < |s.history|
    ensures |r.history| == |s.history| && r.history[index] == Entry(newValue, now)
    ensures forall j :: 0 <= j < |s.history| && j != index ==> r.history[j] == s.history[j]
    ensures r.inputMinutes == s.inputMinutes
    ensures Consistent(r)
    ensures r.jar1Hours + r.jar2Hours == Capacity
  {
    var updated := s.history[index := Entry(newValue, now)];
    Snapshot(DrainFold(updated, Capacity), FillFold(updated, 0.0), s.inputMinutes, updated)
  }

  /** The replay gives the same totals as patching the old ones by the change
      in that one record, when the old totals were consistent. */
  lemma EditIsDelta(s: Snapshot, index: int, newValue: int, now: Timestamp)
    requires Consistent(s) && 0 <= index < |s.history|
    ensures var delta := Hours(newValue) - Hours(s.history[index].value);
      EditStep(s, index, newValue, now).jar1Hours == s.jar1Hours - delta &&
      EditStep(s, index, newValue, now).jar2Hours == s.jar2Hours + delta
  {
    TotalMinutesUpdate(s.history, index, Entry(newValue, now));
  }

  /** The totals after an edit do not depend on the totals before it. */
  lemma EditForgetsTotals(s: Snapshot, t: Snapshot, index: int, newValue: int, now: Timestamp)
    requires s.history == t.history && 0 <= index < |s.history|
    ensures EditStep(s, index, newValue, now).jar1Hours == EditStep(t, index, newValue, now).jar1Hours
    ensures EditStep(s, index, newValue, now).jar2Hours == EditStep(t, index, newValue, now).jar2Hours
  {
  }

  // ---------------------------------------------------------------------------
  // The history list

  function Reverse(h: seq<Entry>): (r: seq<Entry>)
    ensures |r| == |h|
    ensures forall i :: 0 <= i < |h| ==> r[i] == h[|h| - 1 - i]
  {
    if h == [] then [] else Reverse(h[1..]) + [h[0]]
  }

  /** How many records the list shows at most. */
  const ViewSize: nat := 5

  /** `history.slice().reverse().slice(0, 5)`: the newest five, newest first. */
  function HistoryView(h: seq<Entry>): (v: seq<Entry>)
    ensures |v| == if |h| < ViewSize then |h| else ViewSize
    ensures forall i :: 0 <= i < |v| ==> v[i] == h[|h| - 1 - i]
  {
    var r := Reverse(h);
    if |r| < ViewSize then r else r[..ViewSize]
  }

  /** The Edit button on row `i` of the list hands `i` to the edit handler,
      which uses it as an index into the oldest-first history.  The index is
      always in range, and the record it changes is the one on that row only
      when the row is the middle of the history; every other row's record,
      the one the user clicked among them, is left as it was. */
  lemma EditButtonTarget(s: Snapshot, i: int, newValue: int, now: Timestamp)
    requires 0 <= i < |HistoryView(s.history)|
    ensures i < |s.history|
    ensures var n := |s.history|;
      var r := EditStep(s, i, newValue, now);
      (n - 1 - i != i ==> r.history[n - 1 - i] == s.history[n - 1 - i]) &&
      (n - 1 - i == i ==> HistoryView(r.history)[i] == Entry(newValue, now))
  {
  }

  // ---------------------------------------------------------------------------
  // Display

  /** JavaScript's `x % 1`: the fraction with the sign of `x` (truncation). */
  function JsFraction(x: real): (f: real)
    ensures x >= 0.0 ==> 0.0 <= f < 1.0 && f == x - x.Floor as real
    ensures x < 0.0 ==> -1.0 < f <= 0.0
  {
    if x >= 0.0 then x - x.Floor as real else x + (-x).Floor as real
  }

  /** `Math.floor(amount)`: the hours shown for a jar. */
  function WholeHours(amount: real): (hours: int)
    ensures hours as real <= amount < hours as real + 1.0
  {
    amount.Floor
  }

  /** `Math.floor((amount % 1) * 60)`: the minutes shown after the hours. */
  function ExtraMinutes(amount: real): (minutes: int)
    ensures amount >= 0.0 ==> 0 <= minutes < 60
    ensures amount < 0.0 ==> -60 <= minutes <= 0
  {
    (JsFraction(amount) * 60.0).Floor
  }

  /** For a non-negative amount the display is the amount in whole minutes,
      rounded down, split into hours and minutes under 60. */
  lemma DisplaySplit(amount: real)
    requires amount >= 0.0
    ensures 0 <= ExtraMinutes(amount) < 60 && WholeHours(amount) >= 0
    ensures WholeHours(amount) * 60 + ExtraMinutes(amount) == (amount * 60.0).Floor
  {
    var h := amount.Floor;
    var k := ExtraMinutes(amount);
    var f := amount - h as real;
    assert k as real <= f * 60.0 < k as real + 1.0;
    assert amount * 60.0 == (h * 60) as real + f * 60.0;
    assert (h * 60 + k) as real <= amount * 60.0 < (h * 60 + k) as real + 1.0;
  }

  /** An amount of whole minutes shows as `m / 60` hours and `m % 60` minutes. */
  lemma DisplayOfMinutes(m: nat)
    ensures WholeHours(Hours(m)) == m / 60 && ExtraMinutes(Hours(m)) == m % 60
  {
    DisplaySplit(Hours(m));
    assert Hours(m) * 60.0 == m as real;
    assert (m / 60) as real <= Hours(m) < (m / 60 + 1) as real;
  }

  /** `amount / 365 * 100`, not clamped. */
  function FillPercentage(amount: real): (p: real)
    ensures 0.0 <= amount <= Capacity ==> 0.0 <= p <= 100.0
    ensures p == 100.0 <==> amount == Capacity
    ensures p == 0.0 <==> amount == 0.0
    ensures amount > Capacity ==> p > 100.0
    ensures amount < 0.0 ==> p < 0.0
  {
    amount / Capacity * 100.0
  }

  /** When the totals are consistent the two fill levels add up to a full jar. */
  lemma FillsAddUp(s: Snapshot)
    requires Consistent(s)
    ensures FillPercentage(s.jar1Hours) + FillPercentage(s.jar2Hours) == 100.0
  {
    assert s.jar1Hours + s.jar2Hours == Capacity;
  }

  // ---------------------------------------------------------------------------
  // Saving

  /** The save effect writes only when `jar1Hours && jar2Hours && history` is
      truthy.  A number is falsy only at zero; an array, even an empty one, is
      always truthy, so the history never blocks a save. */
  predicate ShouldSave(s: Snapshot)
    ensures ShouldSave(s) <==>
      FillPercentage(s.jar1Hours) != 0.0 && FillPercentage(s.jar2Hours) != 0.0
    ensures Consistent(s) ==>
      (ShouldSave(s) <==> TotalMinutes(s.history) != 0 && TotalMinutes(s.history) != 365 * 60)
  {
    s.jar1Hours != 0.0 && s.jar2Hours != 0.0
  }

  /** The mount state is never written: Jar 2 holds 0. */
  lemma InitialNotSaved()
    ensures !ShouldSave(Initial())
  {
  }

  /** From a consistent state, an accepted transfer is saved unless it empties
      Jar 1 or brings the history's total back to zero. */
  lemma SavedAfterTransfer(s: Snapshot, now: Timestamp)
    requires Consistent(s) && Accepts(ParseInt(s.inputMinutes), s.jar1Hours)
    ensures var r := TransferStep(s, now);
      ShouldSave(r) <==> r.jar1Hours != 0.0 && TotalMinutes(r.history) != 0
  {
    TransferKeepsConsistent(s, now);
  }

  // ---------------------------------------------------------------------------
  // Runs of user actions

  /** What a user can do: type into the field, press Transfer, or press the
      Edit button on a row of the history list and enter a number. */
  datatype Action =
    | Type(text: string)
    | Transfer(now: Timestamp)
    | EditRow(row: int, newValue: int, now: Timestamp)

  /** One action.  A row the list does not show has no button, so pressing it
      is not possible and changes nothing. */
  function Apply(s: Snapshot, a: Action): (r: Snapshot)
    ensures |r.history| == |s.history| || (a.Transfer? && |r.history| == |s.history| + 1)
  {
    match a
    case Type(text) => s.(inputMinutes := text)
    case Transfer(now) => TransferStep(s, now)
    case EditRow(row, newValue, now) =>
      if 0 <= row < |HistoryView(s.history)| then EditStep(s, row, newValue, now) else s
  }

  function Run(s: Snapshot, actions: seq<Action>): (r: Snapshot)
    ensures |s.history| <= |r.history| <= |s.history| + |actions|
    decreases actions
  {
    if actions == [] then s else Run(Apply(s, actions[0]), actions[1..])
  }

  /** From any consistent state, and so from the mount state, every run of
      actions keeps Jar 1 at 365 hours less the history's minutes and Jar 2 at
      the history's minutes, in hours. */
  lemma {:induction false} RunKeepsConsistent(s: Snapshot, actions: seq<Action>)
    requires Consistent(s)
    ensures Consistent(Run(s, actions))
    ensures Run(s, actions).jar1Hours + Run(s, actions).jar2Hours == Capacity
    decreases actions
  {
    if actions != [] {
      if actions[0].Transfer? {
        TransferKeepsConsistent(s, actions[0].now);
      }
      RunKeepsConsistent(Apply(s, actions[0]), actions[1..]);
    }
  }

  lemma ReachableConsistent(actions: seq<Action>)
    ensures var r := Run(Initial(), actions);
      r.jar1Hours == Capacity - Hours(TotalMinutes(r.history)) &&
      r.jar2Hours == Hours(TotalMinutes(r.history))
  {
    RunKeepsConsistent(Initial(), actions);
  }
}
