/**
 * What one pass guarantees about the table, the counters and the
 * `send_email` calls, proved about the specification of the pass.
 */
module CycleFacts {
  import opened Fields
  import opened Store
  import opened Reconcile

  /**
   * A record is sent to exactly when its row, as stored before the record
   * is processed (or the row about to be inserted), is qualified and not
   * yet emailed and the snapshot gives it an address; the call goes to the
   * snapshot's address. An existing row keeps the qualification it was
   * inserted with.
   */
  lemma StepSendsIff(t: Tally, r: Record, send: Transport, annotate: Annotator)
    ensures var u := Step(t, r, send, annotate);
      var email := Get(r.fields, "Email");
      var before := if r.id in t.rows then t.rows[r.id].qualified && !t.rows[r.id].emailed
                    else IsQualified(r.fields);
      && (|u.attempts| == |t.attempts| + 1 <==> before && Truthy(email))
      && (before && Truthy(email)
          ==> u.attempts == t.attempts + [Attempt(r.id, email.s, send(|t.attempts|, email.s))])
      && (!(before && Truthy(email)) ==> u.attempts == t.attempts && u.emailCount == t.emailCount)
  {
  }

  // ---------------------------------------------------------------------
  // One step
  // ---------------------------------------------------------------------

  lemma SentSnoc(attempts: seq<Attempt>, a: Attempt)
    ensures Sent(attempts + [a]) == Sent(attempts) + if a.ok then [a.id] else []
  {
    assert (attempts + [a])[..|attempts|] == attempts;
  }

  /** How one step may change the table and the count of new leads. */
  ghost predicate TableStep(t: Tally, r: Record, u: Tally)
  {
    && Evolves(t.rows, u.rows)
    && u.rows.Keys == t.rows.Keys + {r.id}
    && (forall id :: id in t.rows && id != r.id ==> u.rows[id] == t.rows[id])
    && u.newCount == (if r.id in t.rows then t.newCount else t.newCount + 1)
  }

  /**
   * How one step may change the calls made and the email count: at most one
   * call, for this record's lead, to the snapshot's non-empty address, and
   * only when the stored row was not yet emailed; the email count grows
   * exactly when that call succeeded.
   */
  ghost predicate AttemptStep(t: Tally, r: Record, u: Tally)
  {
    var n := |t.attempts|;
    && n <= |u.attempts| <= n + 1 && u.attempts[..n] == t.attempts
    && (|u.attempts| == n + 1 ==>
          var a := u.attempts[n];
          && a.id == r.id && Get(r.fields, "Email") == Text(a.recipient) && a.recipient != []
          && !WasEmailed(t.rows, r.id))
    && (u.emailCount == t.emailCount || (u.emailCount == t.emailCount + 1 && |u.attempts| == n + 1))
    && Sent(u.attempts) == Sent(t.attempts) + (if u.emailCount == t.emailCount then [] else [r.id])
  }

  /** How one step may change the emailed flags: only this lead's, only when its email was counted. */
  ghost predicate EmailedStep(t: Tally, r: Record, u: Tally)
  {
    forall id :: id in u.rows ==>
      (u.rows[id].emailed <==> WasEmailed(t.rows, id) || (id == r.id && u.emailCount != t.emailCount))
  }

  lemma AdmitTable(t: Tally, r: Record)
    ensures Evolves(t.rows, Admit(t, r).rows)
    ensures Admit(t, r).rows.Keys == t.rows.Keys + {r.id}
    ensures forall id :: id in t.rows ==> Admit(t, r).rows[id] == t.rows[id]
    ensures Admit(t, r).newCount == if r.id in t.rows then t.newCount else t.newCount + 1
    ensures Admit(t, r).attempts == t.attempts && Admit(t, r).emailCount == t.emailCount
  {
    InsertedSpec(t.rows, r.id, NewRow(r));
  }

  lemma ContactTable(t: Tally, r: Record, send: Transport, annotate: Annotator)
    ensures var u := Contact(t, r, send, annotate);
      && Evolves(t.rows, u.rows)
      && u.rows.Keys == t.rows.Keys
      && (forall id :: id in t.rows && id != r.id ==> u.rows[id] == t.rows[id])
      && u.newCount == t.newCount
  {
    MarkedEmailedSpec(t.rows, r.id);
  }

  lemma ContactSend(t: Tally, r: Record, send: Transport, annotate: Annotator)
    requires r.id in t.rows
    ensures AttemptStep(t, r, Contact(t, r, send, annotate))
    ensures EmailedStep(t, r, Contact(t, r, send, annotate))
  {
    var u := Contact(t, r, send, annotate);
    MarkedEmailedSpec(t.rows, r.id);
    if |u.attempts| == |t.attempts| + 1 {
      SentSnoc(t.attempts, u.attempts[|t.attempts|]);
      assert u.attempts == t.attempts + [u.attempts[|t.attempts|]];
    } else {
      assert u.attempts == t.attempts;
    }
  }

  lemma StepFacts(t: Tally, r: Record, send: Transport, annotate: Annotator)
    ensures TableStep(t, r, Step(t, r, send, annotate))
    ensures AttemptStep(t, r, Step(t, r, send, annotate))
    ensures EmailedStep(t, r, Step(t, r, send, annotate))
  {
    var a := Admit(t, r);
    var u := Contact(a, r, send, annotate);
    AdmitTable(t, r);
    ContactTable(a, r, send, annotate);
    ContactSend(a, r, send, annotate);
    EvolvesTransitive(t.rows, a.rows, u.rows);
    assert forall id :: WasEmailed(a.rows, id) <==> WasEmailed(t.rows, id);
  }

  /**
   * A pass over one more record: the pass so far, and either that same
   * state (an exception already ended it) or one more step.
   */
  lemma CycleNext(rows: Table, p: seq<Record>, r: Record, send: Transport, annotate: Annotator)
    returns (t: Tally, u: Tally)
    ensures t == Cycle(rows, p, send, annotate) && u == Cycle(rows, p + [r], send, annotate)
    ensures t.aborted ==> u == t
    ensures !t.aborted ==> TableStep(t, r, u) && AttemptStep(t, r, u) && EmailedStep(t, r, u)
  {
    t := Cycle(rows, p, send, annotate);
    CycleSnoc(rows, p, r, send, annotate);
    u := Cycle(rows, p + [r], send, annotate);
    if !t.aborted {
      StepFacts(t, r, send, annotate);
    }
  }

  // ---------------------------------------------------------------------
  // The table over a whole pass
  // ---------------------------------------------------------------------

  /**
   * INSERT OR IGNORE never overwrites and nothing resets `emailed`: every
   * row there before the pass is still there with the same name, email and
   * qualification, and emailed only if it was or has become so.
   */
  lemma {:induction false} CycleEvolves(rows: Table, rs: seq<Record>, send: Transport, annotate: Annotator)
    ensures Evolves(rows, Cycle(rows, rs, send, annotate).rows)
    decreases |rs|
  {
    if rs != [] {
      var p, r := rs[..|rs| - 1], rs[|rs| - 1];
      assert rs == p + [r];
      CycleEvolves(rows, p, send, annotate);
      var t, u := CycleNext(rows, p, r, send, annotate);
      if !t.aborted {
        EvolvesTransitive(rows, t.rows, u.rows);
      }
    }
  }

  /**
   * No row is deleted, only snapshot ids are added, and a pass that runs to
   * the end leaves a row for every id of the snapshot.
   */
  lemma {:induction false} CycleKeys(rows: Table, rs: seq<Record>, send: Transport, annotate: Annotator)
    ensures var t := Cycle(rows, rs, send, annotate);
      && rows.Keys <= t.rows.Keys <= rows.Keys + Ids(rs)
      && (!t.aborted ==> t.rows.Keys == rows.Keys + Ids(rs))
    decreases |rs|
  {
    if rs != [] {
      var p, r := rs[..|rs| - 1], rs[|rs| - 1];
      assert rs == p + [r];
      CycleKeys(rows, p, send, annotate);
      var t, u := CycleNext(rows, p, r, send, annotate);
      assert (p + [r])[..|p|] == p;
    }
  }

  /** Rows of leads the snapshot does not mention are left exactly as they were. */
  lemma {:induction false} CycleUntouched(rows: Table, rs: seq<Record>, send: Transport, annotate: Annotator)
    ensures var t := Cycle(rows, rs, send, annotate);
      forall id :: id in rows && id !in Ids(rs) ==> id in t.rows && t.rows[id] == rows[id]
    decreases |rs|
  {
    if rs != [] {
      var p, r := rs[..|rs| - 1], rs[|rs| - 1];
      assert rs == p + [r];
      CycleUntouched(rows, p, send, annotate);
      var t, u := CycleNext(rows, p, r, send, annotate);
      assert (p + [r])[..|p|] == p;
    }
  }

  /** `new_count` is the number of rows the pass inserted. */
  lemma {:induction false} CycleNewCount(rows: Table, rs: seq<Record>, send: Transport, annotate: Annotator)
    ensures var t := Cycle(rows, rs, send, annotate);
      t.newCount == |t.rows.Keys - rows.Keys|
    decreases |rs|
  {
    if rs != [] {
      var p, r := rs[..|rs| - 1], rs[|rs| - 1];
      assert rs == p + [r];
      CycleNewCount(rows, p, send, annotate);
      CycleKeys(rows, p, send, annotate);
      var t, u := CycleNext(rows, p, r, send, annotate);
      if !t.aborted {
        NewKeys(rows.Keys, t.rows.Keys, r.id, t.newCount);
      }
    }
  }

  lemma NewKeys(old0: set<LeadId>, before: set<LeadId>, id: LeadId, n: nat)
    requires old0 <= before && n == |before - old0|
    ensures |(before + {id}) - old0| == if id in before then n else n + 1
  {
    if id !in before {
      assert (before + {id}) - old0 == (before - old0) + {id};
    } else {
      assert (before + {id}) - old0 == before - old0;
    }
  }

  /** When the pass runs to the end, `new_count` counts the snapshot's ids that had no row. */
  lemma CycleCountsNewLeads(rows: Table, rs: seq<Record>, send: Transport, annotate: Annotator)
    ensures var t := Cycle(rows, rs, send, annotate);
      !t.aborted ==> t.newCount == |Ids(rs) - rows.Keys|
  {
    CycleNewCount(rows, rs, send, annotate);
    CycleKeys(rows, rs, send, annotate);
    var t := Cycle(rows, rs, send, annotate);
    if !t.aborted {
      assert t.rows.Keys - rows.Keys == Ids(rs) - rows.Keys;
    }
  }

  // ---------------------------------------------------------------------
  // The sends over a whole pass
  // ---------------------------------------------------------------------

  /** `email_count` is the number of successful `send_email` calls. */
  lemma {:induction false} CycleEmailCount(rows: Table, rs: seq<Record>, send: Transport, annotate: Annotator)
    ensures var t := Cycle(rows, rs, send, annotate);
      t.emailCount == |Sent(t.attempts)|
    decreases |rs|
  {
    if rs != [] {
      var p, r := rs[..|rs| - 1], rs[|rs| - 1];
      assert rs == p + [r];
      CycleEmailCount(rows, p, send, annotate);
      var t, u := CycleNext(rows, p, r, send, annotate);
    }
  }

  /**
   * Every `send_email` call goes to a non-empty address that the snapshot
   * itself gives for that lead, never to the stored one.
   */
  lemma {:induction false} CycleSendsToSnapshotEmail(rows: Table, rs: seq<Record>, send: Transport, annotate: Annotator)
    ensures var t := Cycle(rows, rs, send, annotate);
      forall k :: 0 <= k < |t.attempts| ==> t.attempts[k].recipient != [] && FromSnapshot(t.attempts[k], rs)
    decreases |rs|
  {
    if rs != [] {
      var p, r := rs[..|rs| - 1], rs[|rs| - 1];
      assert rs == p + [r];
      CycleSendsToSnapshotEmail(rows, p, send, annotate);
      var t, u := CycleNext(rows, p, r, send, annotate);
      forall k | 0 <= k < |u.attempts|
        ensures u.attempts[k].recipient != [] && FromSnapshot(u.attempts[k], p + [r])
      {
        if k < |t.attempts| {
          if !t.aborted {
            assert u.attempts[k] == u.attempts[..|t.attempts|][k];
          }
          FromSnapshotGrows(u.attempts[k], p, r);
        } else {
          assert (p + [r])[|p|] == r;
        }
      }
    }
  }

  lemma FromSnapshotGrows(a: Attempt, p: seq<Record>, r: Record)
    requires FromSnapshot(a, p)
    ensures FromSnapshot(a, p + [r])
  {
    var k :| 0 <= k < |p| && p[k].id == a.id && Get(p[k].fields, "Email") == Text(a.recipient);
    assert (p + [r])[k] == p[k];
  }

  /** A row becomes emailed during a pass only through a successful `send_email` call for it. */
  lemma {:induction false} CycleEmailedOnlyBySend(rows: Table, rs: seq<Record>, send: Transport, annotate: Annotator)
    ensures var t := Cycle(rows, rs, send, annotate);
      forall id :: WasEmailed(t.rows, id) && !WasEmailed(rows, id) ==> id in Sent(t.attempts)
    decreases |rs|
  {
    if rs != [] {
      var p, r := rs[..|rs| - 1], rs[|rs| - 1];
      assert rs == p + [r];
      CycleEmailedOnlyBySend(rows, p, send, annotate);
      var t, u := CycleNext(rows, p, r, send, annotate);
    }
  }

  /**
   * At most one successful send per lead in a pass, even when its id occurs
   * several times in the snapshot: every lead in the log of successful
   * sends occurs once, was not emailed before the pass, is emailed after it,
   * and is in the snapshot.
   */
  lemma {:induction false} CycleSendsOncePerLead(rows: Table, rs: seq<Record>, send: Transport, annotate: Annotator)
    ensures var t := Cycle(rows, rs, send, annotate);
      && NoDuplicates(Sent(t.attempts))
      && forall k :: 0 <= k < |Sent(t.attempts)| ==>
           var id := Sent(t.attempts)[k];
           !WasEmailed(rows, id) && WasEmailed(t.rows, id) && id in Ids(rs)
    decreases |rs|
  {
    if rs != [] {
      var p, r := rs[..|rs| - 1], rs[|rs| - 1];
      assert rs == p + [r];
      CycleSendsOncePerLead(rows, p, send, annotate);
      CycleEvolves(rows, p, send, annotate);
      var t, u := CycleNext(rows, p, r, send, annotate);
      assert (p + [r])[..|p|] == p;
      if !t.aborted {
        SentOnceStep(rows, p, r, t, u);
      }
    }
  }

  lemma SentOnceStep(rows: Table, p: seq<Record>, r: Record, t: Tally, u: Tally)
    requires Evolves(rows, t.rows) && AttemptStep(t, r, u) && EmailedStep(t, r, u) && TableStep(t, r, u)
    requires NoDuplicates(Sent(t.attempts))
    requires forall k :: 0 <= k < |Sent(t.attempts)| ==>
      var id := Sent(t.attempts)[k];
      !WasEmailed(rows, id) && WasEmailed(t.rows, id) && id in Ids(p)
    ensures NoDuplicates(Sent(u.attempts))
    ensures forall k :: 0 <= k < |Sent(u.attempts)| ==>
      var id := Sent(u.attempts)[k];
      !WasEmailed(rows, id) && WasEmailed(u.rows, id) && id in Ids(p + [r])
  {
    assert (p + [r])[..|p|] == p;
    var st, su := Sent(t.attempts), Sent(u.attempts);
    forall k | 0 <= k < |su|
      ensures !WasEmailed(rows, su[k]) && WasEmailed(u.rows, su[k]) && su[k] in Ids(p + [r])
    {
      if k < |st| {
        assert su[k] == st[k];
      } else {
        assert su[k] == r.id;
      }
    }
    if u.emailCount != t.emailCount {
      assert r.id !in st;
    }
  }

  /** Distinct leads drawn from a set are no more than the set holds. */
  lemma {:induction false} DistinctWithin(s: seq<LeadId>, ids: set<LeadId>)
    requires NoDuplicates(s) && forall k :: 0 <= k < |s| ==> s[k] in ids
    ensures |s| <= |ids|
    decreases |s|
  {
    if s != [] {
      var last := s[|s| - 1];
      var p := s[..|s| - 1];
      assert forall k :: 0 <= k < |p| ==> p[k] == s[k];
      assert last !in p by {
        forall k | 0 <= k < |p| ensures p[k] != last {
          assert s[k] != s[|s| - 1];
        }
      }
      DistinctWithin(p, ids - {last});
    }
  }

  /** A pass sends at most one email per lead its snapshot mentions. */
  lemma CycleEmailBound(rows: Table, rs: seq<Record>, send: Transport, annotate: Annotator)
    ensures Cycle(rows, rs, send, annotate).emailCount <= |Ids(rs)|
  {
    CycleEmailCount(rows, rs, send, annotate);
    CycleSendsOncePerLead(rows, rs, send, annotate);
    DistinctWithin(Sent(Cycle(rows, rs, send, annotate).attempts), Ids(rs));
  }

  // ---------------------------------------------------------------------
  // Passes that have nothing left to do
  // ---------------------------------------------------------------------

  /**
   * Every record of the snapshot has its row, and none passes the guard of
   * the send with the email the snapshot gives it.
   */
  ghost predicate Settled(rows: Table, rs: seq<Record>)
  {
    forall k :: 0 <= k < |rs| ==> rs[k].id in rows && !Eligible(rows[rs[k].id], Get(rs[k].fields, "Email"))
  }

  /** A settled snapshot stays settled as the table evolves. */
  lemma SettledEvolves(t: Table, u: Table, rs: seq<Record>)
    requires Settled(t, rs) && Evolves(t, u)
    ensures Settled(u, rs)
  {
    forall k | 0 <= k < |rs|
      ensures rs[k].id in u && !Eligible(u[rs[k].id], Get(rs[k].fields, "Email"))
    {
      assert Succeeds(t[rs[k].id], u[rs[k].id]);
    }
  }

  /**
   * A snapshot with nothing left to do changes nothing: no row is written,
   * no email is sent, both counters stay 0 and the pass ends normally.
   */
  lemma {:induction false} SettledPassIsQuiet(rows: Table, rs: seq<Record>, send: Transport, annotate: Annotator)
    requires Settled(rows, rs)
    ensures Cycle(rows, rs, send, annotate) == Start(rows)
    decreases |rs|
  {
    if rs != [] {
      var p, r := rs[..|rs| - 1], rs[|rs| - 1];
      assert rs == p + [r];
      assert Settled(rows, p) by {
        forall k | 0 <= k < |p| ensures p[k] == rs[k] { }
      }
      SettledPassIsQuiet(rows, p, send, annotate);
      CycleSnoc(rows, p, r, send, annotate);
      assert rs[|rs| - 1] == r;
      InsertedSpec(rows, r.id, NewRow(r));
    }
  }

  /**
   * When every `send_email` and every `airtable.update` succeeds, a pass
   * leaves its own snapshot settled and ends normally.
   */
  lemma {:induction false} ReliablePassSettles(rows: Table, rs: seq<Record>, send: Transport, annotate: Annotator)
    requires forall n, to :: send(n, to)
    requires forall n :: annotate(n)
    ensures !Cycle(rows, rs, send, annotate).aborted
    ensures Settled(Cycle(rows, rs, send, annotate).rows, rs)
    decreases |rs|
  {
    if rs != [] {
      var p, r := rs[..|rs| - 1], rs[|rs| - 1];
      assert rs == p + [r];
      ReliablePassSettles(rows, p, send, annotate);
      var t, u := CycleNext(rows, p, r, send, annotate);
      ReliableStep(t, r, send, annotate);
      SettledEvolves(t.rows, u.rows, p);
      forall k | 0 <= k < |rs|
        ensures rs[k].id in u.rows && !Eligible(u.rows[rs[k].id], Get(rs[k].fields, "Email"))
      {
        if k < |p| {
          assert rs[k] == p[k];
        }
      }
    }
  }

  /** With reliable oracles one step settles its own record and does not end the pass. */
  lemma ReliableStep(t: Tally, r: Record, send: Transport, annotate: Annotator)
    requires !t.aborted
    requires forall n, to :: send(n, to)
    requires forall n :: annotate(n)
    ensures var u := Step(t, r, send, annotate);
      !u.aborted && r.id in u.rows && !Eligible(u.rows[r.id], Get(r.fields, "Email"))
  {
    var a := Admit(t, r);
    var email := Get(r.fields, "Email");
    AdmitTable(t, r);
    if Eligible(a.rows[r.id], email) {
      assert send(|a.attempts|, email.s) && annotate(a.emailCount);
      MarkedEmailedSpec(a.rows, r.id);
      assert Step(t, r, send, annotate).rows == MarkedEmailed(a.rows, r.id);
    } else {
      assert Step(t, r, send, annotate) == a;
    }
  }

  /**
   * Re-polling an unchanged snapshot after a pass in which every call
   * succeeded sends nothing and writes nothing, whatever happens to the
   * calls of the second pass.
   */
  lemma SecondPassIsQuiet(rows: Table, rs: seq<Record>, send: Transport, annotate: Annotator,
                          send2: Transport, annotate2: Annotator)
    requires forall n, to :: send(n, to)
    requires forall n :: annotate(n)
    ensures var t := Cycle(rows, rs, send, annotate);
      Cycle(t.rows, rs, send2, annotate2) == Start(t.rows)
  {
    ReliablePassSettles(rows, rs, send, annotate);
    SettledPassIsQuiet(Cycle(rows, rs, send, annotate).rows, rs, send2, annotate2);
  }
}
