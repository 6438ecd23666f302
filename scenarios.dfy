/**
 * Concrete passes over small snapshots, showing the behaviour the loop is
 * written for on the cases its comments and its guard single out.
 */
module Scenarios {
  import opened Fields
  import opened Naming
  import opened Store
  import opened Reconcile

  const Reliable: Transport := (n: nat, to: string) => true
  const Failing: Transport := (n: nat, to: string) => false
  const Annotated: Annotator := (n: nat) => true
  const Unreachable: Annotator := (n: nat) => false

  const Ada := Record("rec1", map["First Name" := Text("Ada"), "Email" := Text("ada@x.io"), "Company" := Text("Acme")])

  /** A pass over a one-record snapshot is one step from the start. */
  lemma SingleRecord(rows: Table, r: Record, send: Transport, annotate: Annotator)
    ensures Cycle(rows, [r], send, annotate) == Step(Start(rows), r, send, annotate)
  {
    CycleSnoc(rows, [], r, send, annotate);
    assert [] + [r] == [r];
  }

  /** The row Ada's record is inserted as. */
  lemma AdaRow()
    ensures NewRow(Ada) == Row("Ada", Text("ada@x.io"), true, false)
  {
    assert Get(Ada.fields, "First Name") == Text("Ada");
    assert Get(Ada.fields, "Last Name") == Null;
    assert Strip("Ada" + " " + "") == "Ada" by {
      assert "Ada" + " " + "" == "Ada ";
      assert TrimStart("Ada ") == "Ada ";
      assert "Ada "[..3] == "Ada";
      assert TrimEnd("Ada") == "Ada";
    }
    assert Get(Ada.fields, "Email") == Text("ada@x.io");
    assert Get(Ada.fields, "Company") == Text("Acme");
  }

  /** A new qualified lead with an address is inserted, emailed once and marked. */
  lemma NewQualifiedLeadIsEmailed()
    ensures var t := Cycle(map[], [Ada], Reliable, Annotated);
      && t.rows == map["rec1" := Row("Ada", Text("ada@x.io"), true, true)]
      && t.newCount == 1 && t.emailCount == 1 && !t.aborted
      && t.attempts == [Attempt("rec1", "ada@x.io", true)]
  {
    SingleRecord(map[], Ada, Reliable, Annotated);
    AdaRow();
    var a := Admit(Start(map[]), Ada);
    assert a == Tally(map["rec1" := Row("Ada", Text("ada@x.io"), true, false)], 1, 0, [], false);
    assert Reliable(0, "ada@x.io") && Annotated(0);
  }

  /** The same snapshot on the next poll finds the row emailed and does nothing. */
  lemma SecondPollIsQuiet()
    ensures var rows := map["rec1" := Row("Ada", Text("ada@x.io"), true, true)];
      Cycle(rows, [Ada], Reliable, Annotated) == Start(rows)
  {
    var rows := map["rec1" := Row("Ada", Text("ada@x.io"), true, true)];
    SingleRecord(rows, Ada, Reliable, Annotated);
    assert Admit(Start(rows), Ada) == Start(rows);
  }

  /** A lead without an address is stored unqualified, under the placeholder name, and never emailed. */
  lemma NoEmailNoSend()
    ensures var r := Record("rec2", map["Company" := Text("Acme"), "Email" := Null]);
      var t := Cycle(map[], [r], Reliable, Annotated);
      && t.rows == map["rec2" := Row(Placeholder, Null, false, false)]
      && t.newCount == 1 && t.emailCount == 0 && t.attempts == []
  {
    var r := Record("rec2", map["Company" := Text("Acme"), "Email" := Null]);
    SingleRecord(map[], r, Reliable, Annotated);
    assert DerivedName(r.fields) == Placeholder by {
      assert "" + " " + "" == " ";
      assert TrimStart(" ") == TrimStart(" "[1..]);
      assert " "[1..] == [];
    }
    assert Get(r.fields, "Email") == Null;
    assert NewRow(r) == Row(Placeholder, Null, false, false);
    var a := Admit(Start(map[]), r);
    assert a == Tally(map["rec2" := Row(Placeholder, Null, false, false)], 1, 0, [], false);
  }

  /**
   * Qualification is fixed when the row is first inserted: a lead first seen
   * without a company stays unqualified after the company is filled in.
   */
  lemma QualificationIsFrozen()
    ensures var rows := map["rec1" := Row("Ada", Text("ada@x.io"), false, false)];
      Cycle(rows, [Ada], Reliable, Annotated) == Start(rows)
  {
    var rows := map["rec1" := Row("Ada", Text("ada@x.io"), false, false)];
    SingleRecord(rows, Ada, Reliable, Annotated);
    assert Admit(Start(rows), Ada) == Start(rows);
  }

  /** The address used is the one in the snapshot, not the one stored at insert time. */
  lemma SnapshotAddressIsUsed()
    ensures var rows := map["rec1" := Row("Ada", Text("old@x.io"), true, false)];
      var t := Cycle(rows, [Ada], Reliable, Annotated);
      && t.attempts == [Attempt("rec1", "ada@x.io", true)]
      && t.rows == map["rec1" := Row("Ada", Text("old@x.io"), true, true)]
  {
    var rows := map["rec1" := Row("Ada", Text("old@x.io"), true, false)];
    SingleRecord(rows, Ada, Reliable, Annotated);
    assert Admit(Start(rows), Ada) == Start(rows);
    assert Get(Ada.fields, "Email") == Text("ada@x.io");
    assert Reliable(0, "ada@x.io") && Annotated(0);
  }

  /** A failed send leaves the row unmarked, so the next poll tries again. */
  lemma FailedSendIsRetried()
    ensures var t := Cycle(map[], [Ada], Failing, Annotated);
      && t.rows == map["rec1" := Row("Ada", Text("ada@x.io"), true, false)]
      && t.emailCount == 0 && t.attempts == [Attempt("rec1", "ada@x.io", false)]
      && Cycle(t.rows, [Ada], Reliable, Annotated).emailCount == 1
  {
    SingleRecord(map[], Ada, Failing, Annotated);
    AdaRow();
    var rows := map["rec1" := Row("Ada", Text("ada@x.io"), true, false)];
    var a := Admit(Start(map[]), Ada);
    assert a == Start(rows).(newCount := 1);
    assert !Failing(0, "ada@x.io");
    SingleRecord(rows, Ada, Reliable, Annotated);
    assert Admit(Start(rows), Ada) == Start(rows);
    assert Reliable(0, "ada@x.io") && Annotated(0);
  }

  /**
   * When `airtable.update` raises after a successful send, the pass ends:
   * the row stays marked, the later records are not looked at.
   */
  lemma UpdateFailureEndsPass()
    ensures var bob := Record("rec3", map["Email" := Text("bob@x.io"), "Company" := Text("Bee")]);
      var t := Cycle(map[], [Ada, bob], Reliable, Unreachable);
      && t.aborted && t.emailCount == 1
      && t.rows == map["rec1" := Row("Ada", Text("ada@x.io"), true, true)]
  {
    var bob := Record("rec3", map["Email" := Text("bob@x.io"), "Company" := Text("Bee")]);
    SingleRecord(map[], Ada, Reliable, Unreachable);
    AdaRow();
    var a := Admit(Start(map[]), Ada);
    assert a == Tally(map["rec1" := Row("Ada", Text("ada@x.io"), true, false)], 1, 0, [], false);
    assert Reliable(0, "ada@x.io") && !Unreachable(0);
    CycleSnoc(map[], [Ada], bob, Reliable, Unreachable);
    assert [Ada] + [bob] == [Ada, bob];
  }
}
