/**
 * The local `leads` table: one row per Airtable record id, holding the
 * name and email seen when the row was inserted and the two flags
 * `qualified` and `emailed` (INTEGER 0/1 columns, booleans here).
 */
module Store {
  import opened Wrappers
  import opened Fields

  /** An Airtable record id, the table's primary key. */
  type LeadId = string

  datatype Row = Row(name: string, email: FieldValue, qualified: bool, emailed: bool)

  /** The logical content of the table. */
  type Table = map<LeadId, Row>

  /**
   * Row b is a later state of row a: the columns written by the insert are
   * untouched and `emailed` has not gone back to false.
   */
  predicate Succeeds(a: Row, b: Row)
  {
    a.name == b.name && a.email == b.email && a.qualified == b.qualified && (a.emailed ==> b.emailed)
  }

  /** Table u is a later state of table t: no row deleted, every row a later state of itself. */
  predicate Evolves(t: Table, u: Table)
  {
    t.Keys <= u.Keys && forall id :: id in t ==> Succeeds(t[id], u[id])
  }

  lemma EvolvesTransitive(t: Table, u: Table, v: Table)
    requires Evolves(t, u) && Evolves(u, v)
    ensures Evolves(t, v)
  {
    forall id | id in t ensures Succeeds(t[id], v[id]) {
      assert Succeeds(t[id], u[id]) && Succeeds(u[id], v[id]);
    }
  }

  /**
   * `INSERT OR IGNORE INTO leads ...`: the table afterwards, and whether a
   * row was written (`cursor.rowcount > 0`).
   */
  function Inserted(t: Table, id: LeadId, row: Row): (Table, bool)
  {
    if id in t then (t, false) else (t[id := row], true)
  }

  /**
   * A row is written exactly when the id is absent; an existing row is never
   * overwritten, and the table only gains that one key.
   */
  lemma InsertedSpec(t: Table, id: LeadId, row: Row)
    ensures var (u, inserted) := Inserted(t, id, row);
      && (inserted <==> id !in t)
      && u.Keys == t.Keys + {id}
      && u[id] == (if id in t then t[id] else row)
      && (forall k :: k in t ==> u[k] == t[k])
      && Evolves(t, u)
  {
    var u := Inserted(t, id, row).0;
    forall k | k in t ensures u[k] == t[k] && Succeeds(t[k], u[k]) {
      assert u[k] == t[k];
    }
  }

  /** `SELECT qualified, emailed FROM leads WHERE id = ?`. */
  function Flags(t: Table, id: LeadId): Option<(bool, bool)>
  {
    if id in t then Some((t[id].qualified, t[id].emailed)) else None
  }

  /**
   * Reading the flags back right after `INSERT OR IGNORE` always finds a
   * row, and it holds the flags of the row that was there before, or else
   * of the row just inserted: the qualification frozen at first insert.
   */
  lemma FlagsAfterInsert(t: Table, id: LeadId, row: Row)
    ensures Flags(Inserted(t, id, row).0, id)
         == Some(if id in t then (t[id].qualified, t[id].emailed) else (row.qualified, row.emailed))
  {
  }

  /** `UPDATE leads SET emailed = 1 WHERE id = ?`. */
  function MarkedEmailed(t: Table, id: LeadId): Table
  {
    if id in t then t[id := t[id].(emailed := true)] else t
  }

  /**
   * Only the emailed flag of that one row changes, and only to true; an
   * absent id changes nothing; marking twice is marking once.
   */
  lemma MarkedEmailedSpec(t: Table, id: LeadId)
    ensures var u := MarkedEmailed(t, id);
      && u.Keys == t.Keys
      && (forall k :: k in t ==> u[k] == t[k].(emailed := t[k].emailed || k == id))
      && Evolves(t, u)
      && MarkedEmailed(u, id) == u
  {
    var u := MarkedEmailed(t, id);
    forall k | k in t ensures u[k] == t[k].(emailed := t[k].emailed || k == id) && Succeeds(t[k], u[k]) {
    }
  }

  /** The `leads` table behind the SQLite connection. */
  class LeadTable {
    var rows: Table

    /** Opens the table with whatever rows the durable file already holds. */
    constructor (existing: Table)
      ensures rows == existing
    {
      rows := existing;
    }

    method InsertOrIgnore(id: LeadId, row: Row) returns (inserted: bool)
      modifies this
      ensures (rows, inserted) == Inserted(old(rows), id, row)
    {
      inserted := id !in rows;
      if inserted {
        rows := rows[id := row];
      }
    }

    method SelectFlags(id: LeadId) returns (flags: Option<(bool, bool)>)
      ensures flags == Flags(rows, id)
    {
      if id in rows {
        flags := Some((rows[id].qualified, rows[id].emailed));
      } else {
        flags := None;
      }
    }

    method MarkEmailed(id: LeadId)
      modifies this
      ensures rows == MarkedEmailed(old(rows), id)
    {
      if id in rows {
        rows := rows[id := rows[id].(emailed := true)];
      }
    }
  }
}
