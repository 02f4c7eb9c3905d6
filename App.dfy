/** The `App` component: its four state hooks as fields, the input field's
    change handler, the Transfer handler, the edit handler and the Edit
    button that calls it.  Each handler is proved to perform the step that
    `Jars` defines on the state as a value. */
module TimeJarApp {
  import opened JsParse
  import opened Jars

  class App {
    var jar1Hours: real
    var jar2Hours: real
    var inputMinutes: string
    var history: seq<Entry>

    /** The four fields as one value. */
    function State(): Snapshot
      reads this
    {
      Snapshot(jar1Hours, jar2Hours, inputMinutes, history)
    }

    /** The totals agree with a replay of the history. */
    ghost predicate Valid()
      reads this
    {
      Consistent(State())
    }

    /** The state hooks' initial values: 365, 0, "" and []. */
    constructor ()
      ensures State() == Initial()
      ensures Valid()
    {
      jar1Hours := Capacity;
      jar2Hours := 0.0;
      inputMinutes := "";
      history := [];
    }

    /** The input field's `onChange`: the typed text replaces the field. */
    method SetInputMinutes(text: string)
      modifies this
      ensures State() == Apply(old(State()), Type(text))
      ensures old(Valid()) ==> Valid()
    {
      inputMinutes := text;
    }

    /** `handleTransfer`: read the field; unless the guard rejects the number,
        move its minutes from Jar 1 to Jar 2, clear the field and append a
        record with the time. */
    method HandleTransfer(now: Timestamp)
      modifies this
      ensures State() == TransferStep(old(State()), now)
      ensures old(Valid()) ==> Valid()
    {
      ghost var before := State();
      var minutes := ParseInt(inputMinutes);
      if minutes.None? || minutes.value <= 0 || minutes.value as real > jar1Hours * 60.0 {
        assert !Accepts(minutes, before.jar1Hours);
        return;
      }
      assert Accepts(minutes, before.jar1Hours);
      jar1Hours := jar1Hours - Hours(minutes.value);
      jar2Hours := jar2Hours + Hours(minutes.value);
      inputMinutes := "";
      history := history + [Entry(minutes.value, now)];
      if Consistent(before) {
        TransferKeepsConsistent(before, now);
      }
    }

    /** `handleEditHistory`: copy the history, overwrite the record at `index`
        in the copy, replay both totals over the copy from 365 and 0, and
        store the copy. */
    method HandleEditHistory(index: int, newValue: int, now: Timestamp)
      requires 0 <= index < |history|
      modifies this
      ensures State() == EditStep(old(State()), index, newValue, now)
      ensures Valid()
    {
      var h := history;
      var updated := new Entry[|h|](i => if 0 <= i < |h| then h[i] else Entry(0, ""));
      updated[index] := Entry(newValue, now);
      var replayed := updated[..];
      assert replayed == h[index := Entry(newValue, now)];
      jar1Hours := DrainFold(replayed, Capacity);
      jar2Hours := FillFold(replayed, 0.0);
      history := replayed;
    }

    /** The Edit button on row `row` of the displayed list: it passes the row
        number, counted newest first, straight to the edit handler, which
        reads it as a position in the oldest-first history. */
    method ClickEdit(row: int, newValue: int, now: Timestamp)
      requires 0 <= row < |HistoryView(history)|
      modifies this
      ensures State() == Apply(old(State()), EditRow(row, newValue, now))
      ensures history[row] == Entry(newValue, now)
      ensures var n := |history|;
        n - 1 - row != row ==> history[n - 1 - row] == old(history)[n - 1 - row]
    {
      EditButtonTarget(State(), row, newValue, now);
      HandleEditHistory(row, newValue, now);
    }
  }
}
