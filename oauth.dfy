/**
 * `ProfileOAuth`: the OAuth token set of one profile for one platform, mapped
 * to the `profile_oauth` table. As for the overrides, the table is an object
 * holding its rows by primary key with one method per SQL statement, and a
 * `ProfileOAuth` object is the Rust struct: a copy of one row whose token
 * columns the update methods write to the table and then to the copy.
 */
module OAuth {
  import opened Types
  import opened Database

  /** The platforms an OAuth token set can belong to. */
  datatype OAuthType = Youtube

  /** One row of `profile_oauth`; a `None` token is a NULL column. */
  datatype OAuthRow = OAuthRow(
    id: int,
    profileId: int,
    oauthType: OAuthType,
    refreshToken: Option<string>,
    authToken: Option<string>)

  /** Effect of `UPDATE profile_oauth SET refresh_token = $2 WHERE id = $1`. */
  function SetRefreshToken(rows: map<int, OAuthRow>, id: int, token: Option<string>): (r: map<int, OAuthRow>)
    ensures r.Keys == rows.Keys
    ensures id in r ==> r[id].refreshToken == token
    ensures forall k :: k in r ==>
      r[k].id == rows[k].id && r[k].profileId == rows[k].profileId &&
      r[k].oauthType == rows[k].oauthType && r[k].authToken == rows[k].authToken
    ensures forall k :: k in r && k != id ==> r[k] == rows[k]
  {
    if id in rows then rows[id := rows[id].(refreshToken := token)] else rows
  }

  /** Effect of `UPDATE profile_oauth SET auth_token = $2 WHERE id = $1`. */
  function SetAuthToken(rows: map<int, OAuthRow>, id: int, token: Option<string>): (r: map<int, OAuthRow>)
    ensures r.Keys == rows.Keys
    ensures id in r ==> r[id].authToken == token
    ensures forall k :: k in r ==>
      r[k].id == rows[k].id && r[k].profileId == rows[k].profileId &&
      r[k].oauthType == rows[k].oauthType && r[k].refreshToken == rows[k].refreshToken
    ensures forall k :: k in r && k != id ==> r[k] == rows[k]
  {
    if id in rows then rows[id := rows[id].(authToken := token)] else rows
  }

  /** The two token updates touch different columns, so their order does not matter, and the later of two writes to one column wins. */
  lemma TokenUpdatesIndependent(rows: map<int, OAuthRow>, id: int, id': int, refresh: Option<string>, auth: Option<string>, refresh': Option<string>)
    ensures SetAuthToken(SetRefreshToken(rows, id, refresh), id', auth) == SetRefreshToken(SetAuthToken(rows, id', auth), id, refresh)
    ensures SetRefreshToken(SetRefreshToken(rows, id, refresh), id, refresh') == SetRefreshToken(rows, id, refresh')
  {
  }

  /** The `profile_oauth` relation. */
  class OAuthTable {
    /** The rows, by primary key. */
    var rows: map<int, OAuthRow>
    /** The serial sequence behind `id`. */
    var nextId: int

    ghost predicate Valid()
      reads this
    {
      forall k :: k in rows ==> rows[k].id == k && k < nextId
    }

    constructor ()
      ensures Valid() && rows == map[]
    {
      rows := map[];
      nextId := 1;
    }

    /**
     * `INSERT INTO profile_oauth (profile_id, oauth_type, refresh_token, auth_token) VALUES ($1, $2, $3, $4)`,
     * followed by `RETURNING *` when `returning` holds; yields the rows the statement returns.
     */
    method Insert(profileId: int, oauthType: OAuthType, refreshToken: Option<string>, authToken: Option<string>,
                  returning: bool, fault: bool)
      returns (r: Result<seq<OAuthRow>, QueryError>)
      requires Valid()
      modifies this
      ensures Valid()
      ensures r.Err? <==> fault
      ensures r.Err? ==> r.error == StatementFailed
      ensures fault ==> rows == old(rows) && nextId == old(nextId)
      ensures !fault ==> old(nextId) !in old(rows)
      ensures !fault ==> rows == old(rows)[old(nextId) := OAuthRow(old(nextId), profileId, oauthType, refreshToken, authToken)]
      ensures r.Ok? ==> r.value == if returning then [rows[old(nextId)]] else []
    {
      if fault {
        return Err(StatementFailed);
      }
      var row := OAuthRow(nextId, profileId, oauthType, refreshToken, authToken);
      rows := rows[nextId := row];
      nextId := nextId + 1;
      r := Ok(if returning then [row] else []);
    }

    /** `UPDATE profile_oauth SET refresh_token = $2 WHERE id = $1`; yields the number of rows affected. */
    method UpdateRefreshToken(id: int, token: Option<string>, fault: bool) returns (r: Result<nat, QueryError>)
      requires Valid()
      modifies this`rows
      ensures Valid()
      ensures r.Err? <==> fault
      ensures rows == if fault then old(rows) else SetRefreshToken(old(rows), id, token)
      ensures r.Ok? ==> r.value == if id in old(rows) then 1 else 0
    {
      if fault {
        return Err(StatementFailed);
      }
      r := Ok(if id in rows then 1 else 0);
      rows := SetRefreshToken(rows, id, token);
    }

    /** `UPDATE profile_oauth SET auth_token = $2 WHERE id = $1`; yields the number of rows affected. */
    method UpdateAuthToken(id: int, token: Option<string>, fault: bool) returns (r: Result<nat, QueryError>)
      requires Valid()
      modifies this`rows
      ensures Valid()
      ensures r.Err? <==> fault
      ensures rows == if fault then old(rows) else SetAuthToken(old(rows), id, token)
      ensures r.Ok? ==> r.value == if id in old(rows) then 1 else 0
    {
      if fault {
        return Err(StatementFailed);
      }
      r := Ok(if id in rows then 1 else 0);
      rows := SetAuthToken(rows, id, token);
    }

    /** `DELETE FROM profile_oauth WHERE id = $1`; yields the number of rows affected. */
    method DeleteRow(id: int, fault: bool) returns (r: Result<nat, QueryError>)
      requires Valid()
      modifies this`rows
      ensures Valid()
      ensures r.Err? <==> fault
      ensures rows == if fault then old(rows) else old(rows) - {id}
      ensures r.Ok? ==> r.value == if id in old(rows) then 1 else 0
    {
      if fault {
        return Err(StatementFailed);
      }
      r := Ok(if id in rows then 1 else 0);
      rows := rows - {id};
    }
  }

  /** The Rust struct `ProfileOAuth`: the copy of one row that the program holds. */
  class ProfileOAuth {
    const id: int
    const profileId: int
    const oauthType: OAuthType
    var refreshToken: Option<string>
    var authToken: Option<string>

    /** What `FromRow` builds from a fetched row. */
    constructor FromRow(row: OAuthRow)
      ensures Snapshot() == row
    {
      id := row.id;
      profileId := row.profileId;
      oauthType := row.oauthType;
      refreshToken := row.refreshToken;
      authToken := row.authToken;
    }

    /** The row this instance holds. */
    function Snapshot(): OAuthRow
      reads this
    {
      OAuthRow(id, profileId, oauthType, refreshToken, authToken)
    }

    /** The table holds exactly this instance's row under its id. */
    predicate Mirrors(table: OAuthTable)
      reads this, table
    {
      id in table.rows && table.rows[id] == Snapshot()
    }

    /**
     * `create`, as written: the INSERT has no `RETURNING` clause, so it returns
     * no row and `fetch_one` fails with `RowNotFound`, after the row was stored.
     */
    static method Create(table: OAuthTable, profileId: int, oauthType: OAuthType,
                         refreshToken: Option<string>, authToken: Option<string>, fault: bool)
      returns (r: Result<ProfileOAuth, QueryError>)
      requires table.Valid()
      modifies table
      ensures table.Valid()
      ensures r.Err? && r.error == if fault then StatementFailed else RowNotFound
      ensures fault ==> table.rows == old(table.rows)
      ensures !fault ==> old(table.nextId) !in old(table.rows)
      ensures !fault ==>
        table.rows == old(table.rows)[old(table.nextId) := OAuthRow(old(table.nextId), profileId, oauthType, refreshToken, authToken)]
    {
      var inserted := table.Insert(profileId, oauthType, refreshToken, authToken, false, fault);
      if inserted.Err? {
        return Err(inserted.error);
      }
      var fetched := FetchOne(inserted.value);
      // no row came back, so `?` hands on the error of `fetch_one`
      r := Err(fetched.error);
    }

    /** `create` with `RETURNING *`: inserts a row with the given columns and returns it. */
    static method CreateReturning(table: OAuthTable, profileId: int, oauthType: OAuthType,
                                  refreshToken: Option<string>, authToken: Option<string>, fault: bool)
      returns (r: Result<ProfileOAuth, QueryError>)
      requires table.Valid()
      modifies table
      ensures table.Valid()
      ensures r.Err? <==> fault
      ensures fault ==> table.rows == old(table.rows)
      ensures r.Ok? ==> fresh(r.value) && r.value.Mirrors(table)
      ensures r.Ok? ==> r.value.profileId == profileId && r.value.oauthType == oauthType
      ensures r.Ok? ==> r.value.refreshToken == refreshToken && r.value.authToken == authToken
      ensures r.Ok? ==> r.value.id !in old(table.rows) && table.rows == old(table.rows)[r.value.id := r.value.Snapshot()]
    {
      var inserted := table.Insert(profileId, oauthType, refreshToken, authToken, true, fault);
      if inserted.Err? {
        return Err(inserted.error);
      }
      var fetched := FetchOne(inserted.value);
      var o := new ProfileOAuth.FromRow(fetched.value);
      r := Ok(o);
    }

    /** `get_all`: the token sets of profile `profileId` (as a set: the query has no ORDER BY). */
    static function GetAll(table: OAuthTable, profileId: int, fault: bool): (r: Result<set<OAuthRow>, QueryError>)
      reads table
      requires table.Valid()
      ensures r.Err? <==> fault
      ensures r.Ok? ==> forall row :: row in r.value <==>
        row.id in table.rows && table.rows[row.id] == row && row.profileId == profileId
    {
      if fault then Err(StatementFailed)
      else Ok(set k | k in table.rows && table.rows[k].profileId == profileId :: table.rows[k])
    }

    /**
     * `get`: a token set of profile `profileId` for platform `oauthType`,
     * `None` when there is none. Should several rows match, the database
     * returns one of them; which one is left open.
     */
    static method Get(table: OAuthTable, profileId: int, oauthType: OAuthType, fault: bool)
      returns (r: Result<Option<OAuthRow>, QueryError>)
      requires table.Valid()
      ensures r.Err? <==> fault
      ensures r.Ok? && r.value.None? ==>
        forall k :: k in table.rows ==> table.rows[k].profileId != profileId || table.rows[k].oauthType != oauthType
      ensures r.Ok? && r.value.Some? ==>
        r.value.value.profileId == profileId && r.value.value.oauthType == oauthType &&
        r.value.value in GetAll(table, profileId, false).value
    {
      if fault {
        return Err(StatementFailed);
      }
      if k :| k in table.rows && table.rows[k].profileId == profileId && table.rows[k].oauthType == oauthType {
        r := Ok(Some(table.rows[k]));
      } else {
        r := Ok(None);
      }
    }

    /** `delete`: removes the row with this id; `Some(())` when a row was removed, `None` when none matched. */
    method Delete(table: OAuthTable, fault: bool) returns (r: Result<Option<()>, QueryError>)
      requires table.Valid()
      modifies table
      ensures table.Valid() && table.nextId == old(table.nextId)
      ensures r.Err? <==> fault
      ensures table.rows == if fault then old(table.rows) else old(table.rows) - {id}
      ensures r.Ok? ==> id !in table.rows && (r.value.None? <==> id !in old(table.rows))
    {
      var deleted := table.DeleteRow(id, fault);
      if deleted.Err? {
        return Err(deleted.error);
      }
      r := Ok(DeleteReport(deleted.value));
    }

    /** `update_refresh_token`: the row first, the instance only once the statement succeeded. */
    method UpdateRefreshToken(table: OAuthTable, newToken: Option<string>, fault: bool) returns (r: Result<(), QueryError>)
      requires table.Valid()
      modifies this, table
      ensures table.Valid() && table.nextId == old(table.nextId)
      ensures r.Err? <==> fault
      ensures authToken == old(authToken)
      ensures refreshToken == if fault then old(refreshToken) else newToken
      ensures table.rows == if fault then old(table.rows) else SetRefreshToken(old(table.rows), id, newToken)
      ensures old(Mirrors(table)) ==> Mirrors(table)
    {
      var updated := table.UpdateRefreshToken(id, newToken, fault);
      if updated.Err? {
        return Err(updated.error);
      }
      refreshToken := newToken;
      r := Ok(());
    }

    /** `update_auth_token`: the row first, the instance only once the statement succeeded. */
    method UpdateAuthToken(table: OAuthTable, newToken: Option<string>, fault: bool) returns (r: Result<(), QueryError>)
      requires table.Valid()
      modifies this, table
      ensures table.Valid() && table.nextId == old(table.nextId)
      ensures r.Err? <==> fault
      ensures refreshToken == old(refreshToken)
      ensures authToken == if fault then old(authToken) else newToken
      ensures table.rows == if fault then old(table.rows) else SetAuthToken(old(table.rows), id, newToken)
      ensures old(Mirrors(table)) ==> Mirrors(table)
    {
      var updated := table.UpdateAuthToken(id, newToken, fault);
      if updated.Err? {
        return Err(updated.error);
      }
      authToken := newToken;
      r := Ok(());
    }

    /** `id()`. */
    function Id(): (r: int)
      reads this
      ensures r == Snapshot().id
    {
      id
    }

    /** `profile_id()`. */
    function ProfileId(): (r: int)
      reads this
      ensures r == Snapshot().profileId
    {
      profileId
    }

    /** `oauth_type()`. */
    function Type(): (r: OAuthType)
      reads this
      ensures r == Snapshot().oauthType
    {
      oauthType
    }

    /** `refresh_token()`. */
    function RefreshToken(): (r: Option<string>)
      reads this
      ensures r == Snapshot().refreshToken
    {
      refreshToken
    }

    /** `auth_token()`. */
    function AuthToken(): (r: Option<string>)
      reads this
      ensures r == Snapshot().authToken
    {
      authToken
    }
  }
}
