/** Worked runs of the component from its mount state, with the numbers a user
    would see.  Each run is stated for any field text that reads as the
    number, and the literal texts are shown to read as those numbers. */
module Scenarios {
  import opened JsParse
  import opened Jars
  import TimeJarApp

  /** Unfolds the first action of a run. */
  lemma RunStep(s: Snapshot, a: Action, rest: seq<Action>)
    ensures Run(s, [a] + rest) == Run(Apply(s, a), rest)
  {
    assert ([a] + rest)[1..] == rest;
  }

  /** The digits of a number, typed into the field, read back as that number. */
  lemma ReadsBack(n: nat)
    ensures ParseInt(Decimal(n)) == Some(n)
  {
    ParseDecimal(n, "");
    assert Decimal(n) + "" == Decimal(n);
  }

  /** Typing 60 and pressing Transfer leaves 364 and 1 hours and one record. */
  lemma TransferSixty(text: string, t1: Timestamp)
    requires ParseInt(text) == Some(60)
    ensures Run(Initial(), [Type(text), Transfer(t1)]) == Snapshot(364.0, 1.0, "", [Entry(60, t1)])
  {
    var s1 := Initial().(inputMinutes := text);
    TransferAccepted(s1, t1, 60);
    RunStep(Initial(), Type(text), [Transfer(t1)]);
    RunStep(s1, Transfer(t1), []);
  }

  /** 600000 minutes is more than the 21900 Jar 1 holds: Transfer changes
      nothing, and the text stays in the field. */
  lemma TransferTooMuch(text: string, t1: Timestamp)
    requires ParseInt(text) == Some(600000)
    ensures Run(Initial(), [Type(text), Transfer(t1)]) == Initial().(inputMinutes := text)
  {
    var s1 := Initial().(inputMinutes := text);
    RunStep(Initial(), Type(text), [Transfer(t1)]);
    RunStep(s1, Transfer(t1), []);
  }

  /** Transferring 30 minutes and then editing that record to 90 leaves 363.5
      and 1.5 hours. */
  lemma EditThirtyToNinety(text: string, t1: Timestamp, t2: Timestamp)
    requires ParseInt(text) == Some(30)
    ensures var r := Run(Initial(), [Type(text), Transfer(t1), EditRow(0, 90, t2)]);
      r.jar1Hours == 363.5 && r.jar2Hours == 1.5 && r.history == [Entry(90, t2)]
  {
    var s1 := Initial().(inputMinutes := text);
    TransferAccepted(s1, t1, 30);
    var s2 := TransferStep(s1, t1);
    var r := EditStep(s2, 0, 90, t2);
    assert r.history == [Entry(90, t2)];
    assert TotalMinutes(r.history) == 90 by {
      assert r.history[..0] == [];
    }
    RunStep(Initial(), Type(text), [Transfer(t1), EditRow(0, 90, t2)]);
    RunStep(s1, Transfer(t1), [EditRow(0, 90, t2)]);
    RunStep(s2, EditRow(0, 90, t2), []);
  }

  /** Two transfers, of 10 and then 20 minutes, are recorded oldest first. */
  lemma TwoTransfers(ten: string, twenty: string, t1: Timestamp, t2: Timestamp)
    requires ParseInt(ten) == Some(10) && ParseInt(twenty) == Some(20)
    ensures Run(Initial(), [Type(ten), Transfer(t1), Type(twenty), Transfer(t2)]).history
      == [Entry(10, t1), Entry(20, t2)]
  {
    var s1 := Initial().(inputMinutes := ten);
    TransferAccepted(s1, t1, 10);
    var s2 := TransferStep(s1, t1);
    var s3 := s2.(inputMinutes := twenty);
    TransferAccepted(s3, t2, 20);
    var s4 := TransferStep(s3, t2);
    assert s4.history == [Entry(10, t1), Entry(20, t2)];
    RunStep(Initial(), Type(ten), [Transfer(t1), Type(twenty), Transfer(t2)]);
    RunStep(s1, Transfer(t1), [Type(twenty), Transfer(t2)]);
    RunStep(s2, Type(twenty), [Transfer(t2)]);
    RunStep(s3, Transfer(t2), []);
  }

  /** With that history the list shows the 20-minute record on top, yet the
      top row's Edit button overwrites the 10-minute record. */
  lemma EditTopRowChangesOldest(s: Snapshot, t1: Timestamp, t2: Timestamp, t3: Timestamp)
    requires s.history == [Entry(10, t1), Entry(20, t2)]
    ensures HistoryView(s.history) == [Entry(20, t2), Entry(10, t1)]
    ensures Apply(s, EditRow(0, 99, t3)).history == [Entry(99, t3), Entry(20, t2)]
  {
    var v := HistoryView(s.history);
    assert |v| == 2 && v[0] == Entry(20, t2) && v[1] == Entry(10, t1);
    var r := EditStep(s, 0, 99, t3);
    assert |r.history| == 2 && r.history[0] == Entry(99, t3) && r.history[1] == Entry(20, t2);
  }

  /** With six records the list shows the five newest, newest first. */
  lemma SixRecordsShowFive(h: seq<Entry>)
    requires |h| == 6
    ensures HistoryView(h) == [h[5], h[4], h[3], h[2], h[1]]
  {
    var v := HistoryView(h);
    assert |v| == 5 && v[0] == h[5] && v[4] == h[1];
  }

  /** The first two runs, driven through the component object. */
  method TransferThenEditOnApp(text: string, t1: Timestamp, t2: Timestamp)
    requires ParseInt(text) == Some(60)
  {
    var app := new TimeJarApp.App();
    app.SetInputMinutes(text);
    app.HandleTransfer(t1);
    assert app.jar1Hours == 364.0 && app.jar2Hours == 1.0;
    assert app.inputMinutes == "" && app.history == [Entry(60, t1)];
    app.ClickEdit(0, 90, t2);
    assert app.history == [Entry(90, t2)];
    assert TotalMinutes(app.history) == 90 by {
      assert app.history[..0] == [];
    }
    assert app.jar1Hours == 363.5 && app.jar2Hours == 1.5;
  }
}
