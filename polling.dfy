/**
 * The `while True` loop around the passes: each round either fails to
 * fetch the snapshot (the `except` branch prints an error and nothing else
 * happens) or runs one pass over what was fetched. The same connection,
 * and so the same table, is used by every round.
 */
module Polling {
  import opened Store
  import opened Reconcile
  import opened CycleFacts

  /** One round of the loop, with the oracles of its own calls. */
  datatype Poll = FetchFailed | Fetched(records: seq<Record>, send: Transport, annotate: Annotator)

  /** What a round prints: the status line of a completed pass, or `Error: ...`. */
  datatype Report = Synced(newLeads: nat, emailsSent: nat) | Error

  /** The table after a number of rounds, what each round printed, and every lead emailed successfully. */
  datatype History = History(rows: Table, reports: seq<Report>, sent: seq<LeadId>)

  /** The rounds in order. */
  function Rounds(rows: Table, polls: seq<Poll>): History
    decreases |polls|
  {
    if polls == [] then History(rows, [], [])
    else
      var h := Rounds(rows, polls[..|polls| - 1]);
      Round(h, polls[|polls| - 1])
  }

  /** One round on top of a history. */
  function Round(h: History, poll: Poll): History
  {
    match poll
    case FetchFailed => h.(reports := h.reports + [Error])
    case Fetched(rs, send, annotate) =>
      var t := Cycle(h.rows, rs, send, annotate);
      History(t.rows, h.reports + [if t.aborted then Error else Synced(t.newCount, t.emailCount)],
              h.sent + Sent(t.attempts))
  }

  /** The loop run for as many rounds as there are polls. */
  method Serve(table: LeadTable, polls: seq<Poll>) returns (reports: seq<Report>)
    modifies table
    ensures table.rows == Rounds(old(table.rows), polls).rows
    ensures reports == Rounds(old(table.rows), polls).reports
  {
    ghost var rows0 := table.rows;
    ghost var sent: seq<LeadId> := [];
    reports := [];
    var i := 0;
    while i < |polls|
      invariant 0 <= i <= |polls|
      invariant Rounds(rows0, polls[..i]) == History(table.rows, reports, sent)
    {
      assert polls[..i + 1][..i] == polls[..i];
      match polls[i] {
        case FetchFailed =>
          reports := reports + [Error];
        case Fetched(rs, send, annotate) =>
          ghost var t := Cycle(table.rows, rs, send, annotate);
          var newCount, emailCount, aborted := RunCycle(table, rs, send, annotate);
          reports := reports + [if aborted then Error else Synced(newCount, emailCount)];
          sent := sent + Sent(t.attempts);
      }
      i := i + 1;
    }
    assert polls[..i] == polls;
  }

  /**
   * No lead is emailed twice over any number of rounds, whatever fails and
   * however often a snapshot repeats: every lead in the log of successful
   * sends occurs once, was not emailed when the loop started, and is
   * emailed now; and no row is ever overwritten.
   */
  lemma {:induction false} AtMostOnceAcrossRounds(rows: Table, polls: seq<Poll>)
    ensures var h := Rounds(rows, polls);
      && Evolves(rows, h.rows)
      && NoDuplicates(h.sent)
      && forall k :: 0 <= k < |h.sent| ==> !WasEmailed(rows, h.sent[k]) && WasEmailed(h.rows, h.sent[k])
    decreases |polls|
  {
    if polls != [] {
      var p := polls[..|polls| - 1];
      AtMostOnceAcrossRounds(rows, p);
      var h := Rounds(rows, p);
      match polls[|polls| - 1]
      case FetchFailed =>
      case Fetched(rs, send, annotate) =>
        var t := Cycle(h.rows, rs, send, annotate);
        CycleEvolves(h.rows, rs, send, annotate);
        CycleSendsOncePerLead(h.rows, rs, send, annotate);
        EvolvesTransitive(rows, h.rows, t.rows);
        AppendSends(rows, h, t);
    }
  }

  /** The log grows by one pass's sends, which are disjoint from the earlier ones. */
  lemma AppendSends(rows: Table, h: History, t: Tally)
    requires Evolves(rows, h.rows) && Evolves(h.rows, t.rows)
    requires NoDuplicates(h.sent)
    requires forall k :: 0 <= k < |h.sent| ==> !WasEmailed(rows, h.sent[k]) && WasEmailed(h.rows, h.sent[k])
    requires NoDuplicates(Sent(t.attempts))
    requires forall k :: 0 <= k < |Sent(t.attempts)| ==>
      !WasEmailed(h.rows, Sent(t.attempts)[k]) && WasEmailed(t.rows, Sent(t.attempts)[k])
    ensures var all := h.sent + Sent(t.attempts);
      && NoDuplicates(all)
      && forall k :: 0 <= k < |all| ==> !WasEmailed(rows, all[k]) && WasEmailed(t.rows, all[k])
  {
    var a, b := h.sent, Sent(t.attempts);
    var all := a + b;
    forall k | 0 <= k < |all|
      ensures !WasEmailed(rows, all[k]) && WasEmailed(t.rows, all[k])
    {
      if k < |a| {
        assert all[k] == a[k];
        assert Succeeds(h.rows[a[k]], t.rows[a[k]]);
      } else {
        assert all[k] == b[k - |a|];
        if all[k] in rows {
          assert Succeeds(rows[all[k]], h.rows[all[k]]);
        }
      }
    }
    forall i, j | 0 <= i < j < |all| ensures all[i] != all[j] {
      if j < |a| {
        assert all[i] == a[i] && all[j] == a[j];
      } else if |a| <= i {
        assert all[i] == b[i - |a|] && all[j] == b[j - |a|];
      } else {
        assert all[i] == a[i] && all[j] == b[j - |a|];
      }
    }
  }
}
