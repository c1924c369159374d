/**
 * `ProfileOverrides`: a scheduling override for a profile, mapped to the
 * `profile_overrides` table. The table is an `OverridesTable` object holding
 * its rows by primary key; each SQL statement is a method on it with the
 * statement's effect on that map. A `ProfileOverrides` object is the Rust
 * struct: a copy of one row that `claim` and `update_run_date` write back to
 * the table and then to itself.
 */
module Overrides {
  import opened Types
  import opened Database

  /** One row of `profile_overrides`. */
  datatype OverrideRow = OverrideRow(id: int, profileId: int, runsAt: Timestamp, claimed: bool)

  /** The ids of the claimed rows. */
  function ClaimedIds(rows: map<int, OverrideRow>): set<int> {
    set k | k in rows && rows[k].claimed
  }

  /** Effect of `UPDATE profile_overrides SET claimed = true WHERE id = $1`. */
  function SetClaimed(rows: map<int, OverrideRow>, id: int): (r: map<int, OverrideRow>)
    ensures r.Keys == rows.Keys
    ensures id in r ==> r[id].claimed
    ensures forall k :: k in r ==>
      r[k].id == rows[k].id && r[k].profileId == rows[k].profileId && r[k].runsAt == rows[k].runsAt
    ensures forall k :: k in r && k != id ==> r[k] == rows[k]
  {
    if id in rows then rows[id := rows[id].(claimed := true)] else rows
  }

  /** Effect of `UPDATE profile_overrides SET runs_at = $2 WHERE id = $1`. */
  function SetRunsAt(rows: map<int, OverrideRow>, id: int, date: Timestamp): (r: map<int, OverrideRow>)
    ensures r.Keys == rows.Keys
    ensures id in r ==> r[id].runsAt == date
    ensures forall k :: k in r ==>
      r[k].id == rows[k].id && r[k].profileId == rows[k].profileId && r[k].claimed == rows[k].claimed
    ensures forall k :: k in r && k != id ==> r[k] == rows[k]
  {
    if id in rows then rows[id := rows[id].(runsAt := date)] else rows
  }

  /** Claiming is monotone and rescheduling leaves claims alone: no statement of this module unclaims a row. */
  lemma ClaimedIdsMonotone(rows: map<int, OverrideRow>, id: int, date: Timestamp)
    ensures ClaimedIds(rows) + (if id in rows then {id} else {}) == ClaimedIds(SetClaimed(rows, id))
    ensures ClaimedIds(SetRunsAt(rows, id, date)) == ClaimedIds(rows)
  {
  }

  /** Claiming twice is claiming once. */
  lemma SetClaimedIdempotent(rows: map<int, OverrideRow>, id: int)
    ensures SetClaimed(SetClaimed(rows, id), id) == SetClaimed(rows, id)
  {
  }

  /** As written, `delete` reports `None` when a row was removed and `Some(())` when none matched. */
  function DeleteReportAsWritten(rowsAffected: nat): (r: Option<()>)
    ensures r.None? <==> rowsAffected > 0
  {
    if rowsAffected > 0 then None else Some(())
  }

  /** The report `delete` gives is the opposite of its documented one for every affected-row count. */
  lemma DeleteReportInverted(rowsAffected: nat)
    ensures DeleteReportAsWritten(rowsAffected) != DeleteReport(rowsAffected)
    ensures DeleteReportAsWritten(1) == None && DeleteReport(1) == Some(())
  {
  }

  /** The `profile_overrides` relation. */
  class OverridesTable {
    /** The rows, by primary key. */
    var rows: map<int, OverrideRow>
    /** The serial sequence behind `id`. */
    var nextId: int

    ghost predicate Valid()
      reads this
    {
      forall k :: k in rows ==> rows[k].id == k && k < nextId
    }

    constructor ()
      ensures Valid() && rows == map[]
    {
      rows := map[];
      nextId := 1;
    }

    /**
     * `INSERT INTO profile_overrides (profile_id, runs_at, claimed) VALUES ($1, $2, false)`,
     * followed by `RETURNING *` when `returning` holds; yields the rows the statement returns.
     */
    method Insert(profileId: int, runsAt: Timestamp, returning: bool, fault: bool)
      returns (r: Result<seq<OverrideRow>, QueryError>)
      requires Valid()
      modifies this
      ensures Valid()
      ensures r.Err? <==> fault
      ensures fault ==> rows == old(rows) && nextId == old(nextId)
      ensures r.Err? ==> r.error == StatementFailed
      ensures !fault ==> old(nextId) !in old(rows)
      ensures !fault ==> rows == old(rows)[old(nextId) := OverrideRow(old(nextId), profileId, runsAt, false)]
      ensures r.Ok? ==> r.value == if returning then [rows[old(nextId)]] else []
    {
      if fault {
        return Err(StatementFailed);
      }
      var row := OverrideRow(nextId, profileId, runsAt, false);
      rows := rows[nextId := row];
      nextId := nextId + 1;
      r := Ok(if returning then [row] else []);
    }

    /** `UPDATE profile_overrides SET claimed = true WHERE id = $1`; yields the number of rows affected. */
    method UpdateClaimed(id: int, fault: bool) returns (r: Result<nat, QueryError>)
      requires Valid()
      modifies this`rows
      ensures Valid()
      ensures r.Err? <==> fault
      ensures rows == if fault then old(rows) else SetClaimed(old(rows), id)
      ensures r.Ok? ==> r.value == if id in old(rows) then 1 else 0
    {
      if fault {
        return Err(StatementFailed);
      }
      r := Ok(if id in rows then 1 else 0);
      rows := SetClaimed(rows, id);
    }

    /** `UPDATE profile_overrides SET runs_at = $2 WHERE id = $1`; yields the number of rows affected. */
    method UpdateRunsAt(id: int, date: Timestamp, fault: bool) returns (r: Result<nat, QueryError>)
      requires Valid()
      modifies this`rows
      ensures Valid()
      ensures r.Err? <==> fault
      ensures rows == if fault then old(rows) else SetRunsAt(old(rows), id, date)
      ensures r.Ok? ==> r.value == if id in old(rows) then 1 else 0
    {
      if fault {
        return Err(StatementFailed);
      }
      r := Ok(if id in rows then 1 else 0);
      rows := SetRunsAt(rows, id, date);
    }

    /** `DELETE FROM profile_overrides WHERE id = $1`; yields the number of rows affected. */
    method DeleteRow(id: int, fault: bool) returns (r: Result<nat, QueryError>)
      requires Valid()
      modifies this`rows
      ensures Valid()
      ensures r.Err? <==> fault
      ensures rows == if fault then old(rows) else old(rows) - {id}
      ensures r.Ok? ==> r.value == if id in old(rows) then 1 else 0
    {
      if fault {
        return Err(StatementFailed);
      }
      r := Ok(if id in rows then 1 else 0);
      rows := rows - {id};
    }
  }

  /** The Rust struct `ProfileOverrides`: the copy of one row that the program holds. */
  class ProfileOverrides {
    const id: int
    const profileId: int
    var runsAt: Timestamp
    var claimed: bool

    /** What `FromRow` builds from a fetched row. */
    constructor FromRow(row: OverrideRow)
      ensures Snapshot() == row
    {
      id := row.id;
      profileId := row.profileId;
      runsAt := row.runsAt;
      claimed := row.claimed;
    }

    /** The row this instance holds. */
    function Snapshot(): OverrideRow
      reads this
    {
      OverrideRow(id, profileId, runsAt, claimed)
    }

    /** The table holds exactly this instance's row under its id. */
    predicate Mirrors(table: OverridesTable)
      reads this, table
    {
      id in table.rows && table.rows[id] == Snapshot()
    }

    /**
     * `create`, as written: the INSERT has no `RETURNING` clause, so it returns
     * no row and `fetch_one` fails with `RowNotFound`, after the row was stored.
     */
    static method Create(table: OverridesTable, profileId: int, runsAt: Timestamp, fault: bool)
      returns (r: Result<ProfileOverrides, QueryError>)
      requires table.Valid()
      modifies table
      ensures table.Valid()
      ensures r.Err? && r.error == if fault then StatementFailed else RowNotFound
      ensures fault ==> table.rows == old(table.rows)
      ensures !fault ==> old(table.nextId) !in old(table.rows)
      ensures !fault ==> table.rows == old(table.rows)[old(table.nextId) := OverrideRow(old(table.nextId), profileId, runsAt, false)]
    {
      var inserted := table.Insert(profileId, runsAt, false, fault);
      if inserted.Err? {
        return Err(inserted.error);
      }
      var fetched := FetchOne(inserted.value);
      // no row came back, so `?` hands on the error of `fetch_one`
      r := Err(fetched.error);
    }

    /** `create` with `RETURNING *`: inserts an unclaimed row and returns it. */
    static method CreateReturning(table: OverridesTable, profileId: int, runsAt: Timestamp, fault: bool)
      returns (r: Result<ProfileOverrides, QueryError>)
      requires table.Valid()
      modifies table
      ensures table.Valid()
      ensures r.Err? <==> fault
      ensures fault ==> table.rows == old(table.rows)
      ensures r.Ok? ==> fresh(r.value) && r.value.Mirrors(table)
      ensures r.Ok? ==> r.value.profileId == profileId && r.value.runsAt == runsAt && !r.value.claimed
      ensures r.Ok? ==> r.value.id !in old(table.rows) && table.rows == old(table.rows)[r.value.id := r.value.Snapshot()]
    {
      var inserted := table.Insert(profileId, runsAt, true, fault);
      if inserted.Err? {
        return Err(inserted.error);
      }
      var fetched := FetchOne(inserted.value);
      var o := new ProfileOverrides.FromRow(fetched.value);
      r := Ok(o);
    }

    /** `get`: the row with primary key `id`, if any. */
    static function Get(table: OverridesTable, id: int, fault: bool): (r: Result<Option<OverrideRow>, QueryError>)
      reads table
      requires table.Valid()
      ensures r.Err? <==> fault
      ensures r.Ok? ==> (r.value.Some? <==> id in table.rows)
      ensures r.Ok? && r.value.Some? ==> r.value.value == table.rows[id] && r.value.value.id == id
    {
      if fault then Err(StatementFailed)
      else if id in table.rows then Ok(Some(table.rows[id]))
      else Ok(None)
    }

    /** `get_all`: the rows of profile `profileId` (as a set: the query has no ORDER BY). */
    static function GetAll(table: OverridesTable, profileId: int, fault: bool): (r: Result<set<OverrideRow>, QueryError>)
      reads table
      requires table.Valid()
      ensures r.Err? <==> fault
      ensures r.Ok? ==> forall row :: row in r.value <==>
        row.id in table.rows && table.rows[row.id] == row && row.profileId == profileId
    {
      if fault then Err(StatementFailed)
      else Ok(set k | k in table.rows && table.rows[k].profileId == profileId :: table.rows[k])
    }

    /** `get_all` lists exactly the rows that `get` finds and that belong to the profile. */
    static lemma GetAllAgreesWithGet(table: OverridesTable, profileId: int, row: OverrideRow)
      requires table.Valid()
      ensures row in GetAll(table, profileId, false).value <==>
        Get(table, row.id, false) == Ok(Some(row)) && row.profileId == profileId
    {
    }

    /**
     * `delete`, as written: removes the row with this id, then reports
     * `None` when a row was removed and `Some(())` when none matched.
     */
    method Delete(table: OverridesTable, fault: bool) returns (r: Result<Option<()>, QueryError>)
      requires table.Valid()
      modifies table
      ensures table.Valid() && table.nextId == old(table.nextId)
      ensures r.Err? <==> fault
      ensures table.rows == if fault then old(table.rows) else old(table.rows) - {id}
      ensures r.Ok? ==> (r.value.None? <==> id in old(table.rows))
    {
      var deleted := table.DeleteRow(id, fault);
      if deleted.Err? {
        return Err(deleted.error);
      }
      r := Ok(DeleteReportAsWritten(deleted.value));
    }

    /** `delete` as its documentation describes it: `Some(())` when the row was removed. */
    method DeleteAsDocumented(table: OverridesTable, fault: bool) returns (r: Result<Option<()>, QueryError>)
      requires table.Valid()
      modifies table
      ensures table.Valid() && table.nextId == old(table.nextId)
      ensures r.Err? <==> fault
      ensures table.rows == if fault then old(table.rows) else old(table.rows) - {id}
      ensures r.Ok? ==> (r.value.Some? <==> id in old(table.rows))
    {
      var deleted := table.DeleteRow(id, fault);
      if deleted.Err? {
        return Err(deleted.error);
      }
      r := Ok(DeleteReport(deleted.value));
    }

    /**
     * `update_run_date`: nothing is written when the date is already
     * `runsAt`; otherwise the row is updated first and the instance only
     * once the statement succeeded.
     */
    method UpdateRunDate(table: OverridesTable, newDate: Timestamp, fault: bool) returns (r: Result<(), QueryError>)
      requires table.Valid()
      modifies this, table
      ensures table.Valid() && table.nextId == old(table.nextId)
      ensures claimed == old(claimed)
      ensures old(runsAt) == newDate ==> r.Ok? && runsAt == newDate && table.rows == old(table.rows)
      ensures old(runsAt) != newDate ==> (r.Err? <==> fault)
      ensures r.Err? ==> runsAt == old(runsAt) && table.rows == old(table.rows)
      ensures r.Ok? ==> runsAt == newDate
      ensures old(runsAt) != newDate && r.Ok? ==> table.rows == SetRunsAt(old(table.rows), id, newDate)
      ensures old(Mirrors(table)) ==> Mirrors(table)
    {
      if runsAt == newDate {
        return Ok(());
      }
      var updated := table.UpdateRunsAt(id, newDate, fault);
      if updated.Err? {
        return Err(updated.error);
      }
      runsAt := newDate;
      r := Ok(());
    }

    /**
     * `claim`: nothing is written when already claimed; otherwise the row is
     * marked claimed first and the instance only once the statement succeeded.
     */
    method Claim(table: OverridesTable, fault: bool) returns (r: Result<(), QueryError>)
      requires table.Valid()
      modifies this, table
      ensures table.Valid() && table.nextId == old(table.nextId)
      ensures runsAt == old(runsAt)
      ensures old(claimed) ==> r.Ok? && claimed && table.rows == old(table.rows)
      ensures !old(claimed) ==> (r.Err? <==> fault)
      ensures r.Err? ==> !claimed && table.rows == old(table.rows)
      ensures r.Ok? ==> claimed
      ensures !old(claimed) && r.Ok? ==> table.rows == SetClaimed(old(table.rows), id)
      ensures old(ClaimedIds(table.rows)) <= ClaimedIds(table.rows)
      ensures old(Mirrors(table)) ==> Mirrors(table)
    {
      if claimed {
        return Ok(());
      }
      var updated := table.UpdateClaimed(id, fault);
      if updated.Err? {
        return Err(updated.error);
      }
      ClaimedIdsMonotone(old(table.rows), id, 0);
      claimed := true;
      r := Ok(());
    }

    /** `id()`. */
    function Id(): (r: int)
      reads this
      ensures r == Snapshot().id
    {
      id
    }

    /** `profile_id()`. */
    function ProfileId(): (r: int)
      reads this
      ensures r == Snapshot().profileId
    {
      profileId
    }

    /** `runs_at()`. */
    function RunsAt(): (r: Timestamp)
      reads this
      ensures r == Snapshot().runsAt
    {
      runsAt
    }

    /** `claimed()`. */
    function Claimed(): (r: bool)
      reads this
      ensures r == Snapshot().claimed
    {
      claimed
    }
  }
}
