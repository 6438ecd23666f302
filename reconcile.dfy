/**
 * One pass of the main loop: every record of a fetched snapshot is
 * inserted if new, read back, and emailed when its stored row is qualified
 * and not yet emailed and the snapshot gives an address.
 *
 * The transport and Airtable's write-back are oracles. `send(n, to)` is the
 * result of the n-th `send_email` call of the pass; `annotate(n)` is false
 * when the n-th `airtable.update` raises, which ends the pass early with
 * the table changes made so far kept.
 */
module Reconcile {
  import opened Fields
  import opened Naming
  import opened Store

  /** One element of `airtable.get_all()`. */
  datatype Record = Record(id: LeadId, fields: FieldMap)

  /** One `send_email` call: for which lead, to which address, and whether it succeeded. */
  datatype Attempt = Attempt(id: LeadId, recipient: string, ok: bool)

  type Transport = (nat, string) -> bool
  type Annotator = nat -> bool

  /**
   * The state of a pass: the table, the two counters of the loop, the
   * `send_email` calls made so far and whether an exception ended the pass.
   */
  datatype Tally = Tally(rows: Table, newCount: nat, emailCount: nat, attempts: seq<Attempt>, aborted: bool)

  function Start(rows: Table): Tally
  {
    Tally(rows, 0, 0, [], false)
  }

  /** The loop body for one record: insert if new, then email if due. */
  function Step(t: Tally, r: Record, send: Transport, annotate: Annotator): Tally
  {
    Contact(Admit(t, r), r, send, annotate)
  }

  /** `INSERT OR IGNORE` of the record's derived row, counting it when it was new. */
  function Admit(t: Tally, r: Record): Tally
  {
    var ins := Inserted(t.rows, r.id, NewRow(r));
    t.(rows := ins.0, newCount := if ins.1 then t.newCount + 1 else t.newCount)
  }

  /** The row a record would be inserted as: derived name, snapshot email, qualification, not emailed. */
  function NewRow(r: Record): Row
  {
    Row(DerivedName(r.fields), Get(r.fields, "Email"), IsQualified(r.fields), false)
  }

  /**
   * Reads the stored flags back and, when the row is qualified and not yet
   * emailed and the snapshot has an address, calls `send_email`; on success
   * marks the row, counts the email and calls `airtable.update`.
   */
  function Contact(t: Tally, r: Record, send: Transport, annotate: Annotator): Tally
  {
    var email := Get(r.fields, "Email");
    var flags := Flags(t.rows, r.id);
    if flags.Some? && flags.value.0 && !flags.value.1 && Truthy(email) then
      var ok := send(|t.attempts|, email.s);
      var attempts := t.attempts + [Attempt(r.id, email.s, ok)];
      if ok then
        t.(rows := MarkedEmailed(t.rows, r.id), emailCount := t.emailCount + 1, attempts := attempts,
           aborted := !annotate(t.emailCount))
      else
        t.(attempts := attempts)
    else
      t
  }

  /** The records processed in snapshot order, stopping at the first exception. */
  function Run(t0: Tally, rs: seq<Record>, send: Transport, annotate: Annotator): Tally
    decreases |rs|
  {
    if rs == [] then t0
    else
      var t := Run(t0, rs[..|rs| - 1], send, annotate);
      if t.aborted then t else Step(t, rs[|rs| - 1], send, annotate)
  }

  /** A whole pass over a snapshot, starting from the table and zero counters. */
  function Cycle(rows: Table, rs: seq<Record>, send: Transport, annotate: Annotator): Tally
  {
    Run(Start(rows), rs, send, annotate)
  }

  /** The ids a snapshot mentions. */
  function Ids(rs: seq<Record>): set<LeadId>
    decreases |rs|
  {
    if rs == [] then {} else Ids(rs[..|rs| - 1]) + {rs[|rs| - 1].id}
  }

  /** The leads of the successful `send_email` calls, in order. */
  function Sent(attempts: seq<Attempt>): seq<LeadId>
    decreases |attempts|
  {
    if attempts == [] then []
    else
      var last := attempts[|attempts| - 1];
      Sent(attempts[..|attempts| - 1]) + if last.ok then [last.id] else []
  }

  predicate NoDuplicates(s: seq<LeadId>)
  {
    forall i, j :: 0 <= i < j < |s| ==> s[i] != s[j]
  }

  /** The stored row had already been emailed before the pass. */
  predicate WasEmailed(rows: Table, id: LeadId)
  {
    id in rows && rows[id].emailed
  }

  /** The call went to the email the snapshot gives for that lead. */
  ghost predicate FromSnapshot(a: Attempt, rs: seq<Record>)
  {
    exists k :: 0 <= k < |rs| && rs[k].id == a.id && Get(rs[k].fields, "Email") == Text(a.recipient)
  }

  /** A stored row together with the snapshot's email passes the guard of the send. */
  predicate Eligible(row: Row, email: FieldValue)
  {
    row.qualified && !row.emailed && Truthy(email)
  }

  // ---------------------------------------------------------------------
  // The loop as the program runs it
  // ---------------------------------------------------------------------

  /**
   * The body of `while True`, from the fetched snapshot to the commit. It
   * returns the counters the status line prints and whether an exception
   * ended the pass.
   */
  method RunCycle(table: LeadTable, records: seq<Record>, send: Transport, annotate: Annotator)
    returns (newCount: nat, emailCount: nat, aborted: bool)
    modifies table
    ensures table.rows == Cycle(old(table.rows), records, send, annotate).rows
    ensures newCount == Cycle(old(table.rows), records, send, annotate).newCount
    ensures emailCount == Cycle(old(table.rows), records, send, annotate).emailCount
    ensures aborted == Cycle(old(table.rows), records, send, annotate).aborted
  {
    ghost var rows0 := table.rows;
    ghost var attempts: seq<Attempt> := [];
    newCount, emailCount, aborted := 0, 0, false;
    var calls: nat := 0;
    var i := 0;
    while i < |records| && !aborted
      invariant 0 <= i <= |records|
      invariant calls == |attempts|
      invariant Cycle(rows0, records[..i], send, annotate) == Tally(table.rows, newCount, emailCount, attempts, aborted)
    {
      CycleSnoc(rows0, records[..i], records[i], send, annotate);
      assert records[..i + 1] == records[..i] + [records[i]];
      newCount, emailCount, aborted, calls, attempts :=
        ProcessRecord(table, records[i], send, annotate, newCount, emailCount, calls, attempts);
      i := i + 1;
    }
    if aborted {
      AbortedIsFinal(rows0, records, i, send, annotate);
    } else {
      assert records[..i] == records;
    }
  }

  /** One iteration of `for record in records`: the specification's Step. */
  method ProcessRecord(table: LeadTable, record: Record, send: Transport, annotate: Annotator,
                       newCount0: nat, emailCount0: nat, calls0: nat, ghost attempts0: seq<Attempt>)
    returns (newCount: nat, emailCount: nat, aborted: bool, calls: nat, ghost attempts: seq<Attempt>)
    requires calls0 == |attempts0|
    modifies table
    ensures calls == |attempts|
    ensures Tally(table.rows, newCount, emailCount, attempts, aborted)
         == Step(Tally(old(table.rows), newCount0, emailCount0, attempts0, false), record, send, annotate)
  {
    ghost var before := Tally(table.rows, newCount0, emailCount0, attempts0, false);
    newCount, emailCount, aborted, calls, attempts := newCount0, emailCount0, false, calls0, attempts0;
    var email := Get(record.fields, "Email");
    var name := DerivedName(record.fields);
    var qualified := IsQualified(record.fields);
    var inserted := table.InsertOrIgnore(record.id, Row(name, email, qualified, false));
    if inserted {
      newCount := newCount + 1;
    }
    ghost var admitted := Tally(table.rows, newCount, emailCount, attempts, aborted);
    assert admitted == Admit(before, record);
    var flags := table.SelectFlags(record.id);
    if flags.Some? && flags.value.0 && !flags.value.1 && Truthy(email) {
      var success := send(calls, email.s);
      attempts := attempts + [Attempt(record.id, email.s, success)];
      calls := calls + 1;
      if success {
        table.MarkEmailed(record.id);
        var annotated := annotate(emailCount);
        emailCount := emailCount + 1;
        aborted := !annotated;
      }
    }
  }

  /** A pass over one more record is one more step, unless the pass has already ended. */
  lemma CycleSnoc(rows: Table, p: seq<Record>, r: Record, send: Transport, annotate: Annotator)
    ensures var t := Cycle(rows, p, send, annotate);
      Cycle(rows, p + [r], send, annotate) == if t.aborted then t else Step(t, r, send, annotate)
  {
    assert (p + [r])[..|p|] == p;
  }

  /** Once an exception has ended the pass, the later records change nothing. */
  lemma {:induction false} AbortedIsFinal(rows: Table, rs: seq<Record>, n: nat, send: Transport, annotate: Annotator)
    requires n <= |rs| && Cycle(rows, rs[..n], send, annotate).aborted
    ensures Cycle(rows, rs, send, annotate) == Cycle(rows, rs[..n], send, annotate)
    decreases |rs| - n
  {
    if n < |rs| {
      var p := rs[..|rs| - 1];
      assert p[..n] == rs[..n];
      AbortedIsFinal(rows, p, n, send, annotate);
      assert rs[..|rs|] == rs;
    } else {
      assert rs[..n] == rs;
    }
  }
}
