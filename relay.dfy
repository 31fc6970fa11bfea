/**
 * The command relay over the command table (app.py:66-80, app.py:99-117):
 * the dashboard upserts the one command row of a device, and the device
 * polls it. Polling never clears the row (the clearing at app.py:74-77 is
 * commented out), so a command is delivered again on every poll until it is
 * overwritten.
 */
module CommandRelay {
  import opened Wrappers
  import opened Records

  /**
   * What a poll for device `d` returns (app.py:71-80): the stored command when
   * the device has a row whose command is a non-empty string, and `None`
   * (JSON null) otherwise.
   */
  function Poll(table: CommandTable, d: string): (r: Option<string>)
    ensures r.Some? <==> d in table && table[d].command.Some? && table[d].command.value != ""
    ensures r.Some? ==> r == table[d].command
  {
    if d in table && Truthy(table[d].command) then table[d].command else None
  }

  /**
   * The upsert of app.py:108-114: the row of `d` keeps its id and gets the
   * new command, or a row with id `freshId` is created; afterwards `d` has
   * exactly one row, holding `c`, and every other device's row is untouched.
   */
  function Upsert(table: CommandTable, d: string, c: string, freshId: nat): (t: CommandTable)
    ensures t.Keys == table.Keys + {d}
    ensures t[d].command == Some(c)
    ensures d in table ==> t[d].id == table[d].id
    ensures d !in table ==> t[d].id == freshId
    ensures forall e :: e in table && e != d ==> t[e] == table[e]
  {
    if d in table then
      table[d := table[d].(command := Some(c))]
    else
      table[d := CommandEntry(freshId, Some(c))]
  }

  /**
   * The state the handlers keep the table in: keys and commands are
   * non-empty strings, and row ids are distinct and below `nextId`.
   */
  ghost predicate WellFormed(table: CommandTable, nextId: nat) {
    && (forall d :: d in table ==> d != "" && Truthy(table[d].command) && table[d].id < nextId)
    && (forall d, e :: d in table && e in table && d != e ==> table[d].id != table[e].id)
  }

  /** In a well-formed table, a device receives a command exactly when it has a row, and then the row's command. */
  lemma PollWellFormed(table: CommandTable, nextId: nat, d: string)
    requires WellFormed(table, nextId)
    ensures Poll(table, d).Some? <==> d in table
    ensures d in table ==> Poll(table, d) == table[d].command
  {
  }

  /**
   * Upserting a non-empty command for a non-empty device with the next id
   * keeps the table well-formed; the next id is used up only when a row is created.
   */
  lemma UpsertWellFormed(table: CommandTable, nextId: nat, d: string, c: string)
    requires WellFormed(table, nextId)
    requires d != "" && c != ""
    ensures WellFormed(Upsert(table, d, c, nextId), if d in table then nextId else nextId + 1)
  {
    var t := Upsert(table, d, c, nextId);
    forall e, f | e in t && f in t && e != f ensures t[e].id != t[f].id {
      if e != d && f != d {
        assert t[e] == table[e] && t[f] == table[f];
      } else if e == d {
        assert t[f] == table[f];
      } else {
        assert t[e] == table[e];
      }
    }
  }

  /** After a non-empty command is set, polling that device returns it, and polling is unaffected elsewhere. */
  lemma PollAfterUpsert(table: CommandTable, d: string, c: string, freshId: nat, e: string)
    requires c != ""
    ensures Poll(Upsert(table, d, c, freshId), d) == Some(c)
    ensures e != d ==> Poll(Upsert(table, d, c, freshId), e) == Poll(table, e)
  {
    var t := Upsert(table, d, c, freshId);
    if e != d && e in table {
      assert t[e] == table[e];
    }
  }

  /**
   * Last write wins: two upserts for one device leave the row the first
   * created or found, holding the second command, as if only the second had
   * been made with the first one's fresh id.
   */
  lemma LastWriteWins(table: CommandTable, d: string, c1: string, c2: string, id1: nat, id2: nat)
    ensures Upsert(Upsert(table, d, c1, id1), d, c2, id2) == Upsert(table, d, c2, id1)
  {
    var twice, once := Upsert(Upsert(table, d, c1, id1), d, c2, id2), Upsert(table, d, c2, id1);
    assert twice.Keys == once.Keys;
    forall e | e in once ensures twice[e] == once[e] {
      if e != d {
        assert twice[e] == table[e];
      }
    }
  }
}
