# reddyt backend core, modelled in Dafny

This project models three parts of the reddyt backend:

- **`OptionalAuth`**, the Actix Web extractor that checks an optional HTTP
  Basic `Authorization` header against an administrator user name and
  password taken from the environment
  (`core/backend/src/utils/extractors/authentication.rs`). Its pipeline is
  modelled stage by stage:
  - `strip_prefix("Basic ")`;
  - `BASE64_STANDARD.decode`: the standard alphabet with canonical padding
    and zero trailing bits, as in section 4 of RFC 4648 (module `Base64`);
  - `String::from_utf8`: strict UTF-8 as in section 3 of RFC 3629 (module
    `Utf8`);
  - `split_once(':')`, then exact comparison with the configured pair.

  Both decoders are proved to accept exactly the encodings of their results.
  Together with the split, this gives the main theorem,
  `FromRequestAuthenticatesExactly`. A request is authenticated if and only
  if all of these hold:
  - both credentials are configured;
  - the configured user name contains no colon;
  - the header is exactly `"Basic " + base64(utf8(user ":" password))`.
- **`ProfileOverrides`** (`core/backend/src/models/profile_overrides.rs`)
  and **`ProfileOAuth`** (`core/backend/src/models/oauth.rs`): records
  mapped to the `profile_overrides` and `profile_oauth` Postgres tables.
  - Each table is a class (`OverridesTable`, `OAuthTable`). It holds a map
    from primary key to row and the serial counter behind `id`.
  - Each INSERT, UPDATE and DELETE is a method on its table. Its contract
    gives the new map. The UPDATE and DELETE methods also give the
    affected-row count. The INSERT methods give the rows the statement
    returns: the new row with `RETURNING`, none without.
  - The SELECTs of `get` and `get_all` are members of the record classes.
    They read the table's map and change nothing.
  - A record struct is a class whose fields are a copy of one row. Its
    methods run the statement first. They change their own fields only when
    the statement succeeded, exactly as the Rust code does after `?`.
  - A database failure is a `fault` flag on each statement. A failing
    statement changes nothing and yields `Err`.

The modules are `Types` (Option, Result, byte), `Base64`, `Utf8`,
`Authentication`, `Database` (error kinds, `fetch_one`, the DELETE report),
`Overrides` and `OAuth`.

## Model

| member | source | states |
|---|---|---|
| `Authentication.OptionalAuth.Authenticated` | core/backend/src/utils/extractors/authentication.rs:41-43 | true exactly for the authenticated value |
| `Authentication.New` | core/backend/src/utils/extractors/authentication.rs:32-36 | the value built answers `authenticated()` with the flag it was given |
| `Authentication.StripPrefix` | core/backend/src/utils/extractors/authentication.rs:64 | a result means the header is the prefix followed by the result; no result means the header does not start with the prefix |
| `Authentication.StripPrefixOf` | core/backend/src/utils/extractors/authentication.rs:64 | stripping `"Basic "` from `"Basic " + t` gives back `t` |
| `Authentication.SplitOnce` | core/backend/src/utils/extractors/authentication.rs:68-69 | no split exactly when there is no separator; otherwise the text is `before + ":" + after` with no separator in `before` (the split is at the first one) |
| `Authentication.SplitOnceOf` | core/backend/src/utils/extractors/authentication.rs:68-69 | `before + ":" + after` splits back into `(before, after)` whenever `before` has no colon |
| `Base64.Symbol` | core/backend/src/utils/extractors/authentication.rs:65 | every 6-bit value maps to a symbol of the standard alphabet |
| `Base64.Value` | core/backend/src/utils/extractors/authentication.rs:65 | the value of an alphabet symbol maps back to that symbol |
| `Base64.ValueOfSymbol` | core/backend/src/utils/extractors/authentication.rs:65 | the value of the symbol of `v` is `v` |
| `Base64.EncodeLength` | core/backend/src/utils/extractors/authentication.rs:65 | padded encoding of `n` bytes has `4 * ceil(n / 3)` symbols |
| `Base64.DecodeEncode` | core/backend/src/utils/extractors/authentication.rs:65 | decoding the padded encoding of any bytes gives those bytes |
| `Base64.EncodeDecode` | core/backend/src/utils/extractors/authentication.rs:65 | any text the decoder accepts is the encoding of what it decodes to (padding and trailing bits are canonical) |
| `Base64.Decode` | core/backend/src/utils/extractors/authentication.rs:65 | an accepted text has a multiple of four symbols, and each group gives three octets except the last, which gives one to three; which texts it accepts and what they give is `Base64.DecodeIsCanonical` |
| `Base64.DecodeIsCanonical` | core/backend/src/utils/extractors/authentication.rs:65 | the decoder maps `s` to `data` if and only if `s` is the encoding of `data` |
| `Base64.DecodeEncodeGroup` | core/backend/src/utils/extractors/authentication.rs:65 | a full four-symbol group decodes to the three bytes it encodes |
| `Base64.EncodeDecodeLast` | core/backend/src/utils/extractors/authentication.rs:65 | an accepted last group, padded or not, is the encoding of what it decodes to |
| `Utf8.DecodeFirst` | core/backend/src/utils/extractors/authentication.rs:66 | a decoded first character consumes between one and four bytes, and no more than the input |
| `Utf8.DecodeFirstEncodeChar` | core/backend/src/utils/extractors/authentication.rs:66 | the first character of `encode(c) + rest` is `c`, read from exactly its own bytes |
| `Utf8.EncodeDecodeFirst` | core/backend/src/utils/extractors/authentication.rs:66 | the bytes a decoded first character consumed are its encoding (no overlong forms, no surrogates, nothing above U+10FFFF) |
| `Utf8.DecodeEncode` | core/backend/src/utils/extractors/authentication.rs:66 | decoding the UTF-8 encoding of any string gives that string |
| `Utf8.EncodeDecode` | core/backend/src/utils/extractors/authentication.rs:66 | any byte string the decoder accepts is the encoding of what it decodes to |
| `Utf8.Decode` | core/backend/src/utils/extractors/authentication.rs:66 | an accepted byte string spells at least a quarter as many characters as it has bytes, and no more; which byte strings it accepts and what they give is `Utf8.DecodeIsCanonical` |
| `Utf8.DecodeIsCanonical` | core/backend/src/utils/extractors/authentication.rs:66 | bytes decode to `s` if and only if they are the encoding of `s` |
| `Authentication.Credentials` | core/backend/src/utils/extractors/authentication.rs:63-70 | a pair comes out only when its user part has no colon and the header is the Basic header for it; the converse is `Authentication.CredentialsCharacterization` |
| `Authentication.IsAuthorized` | core/backend/src/utils/extractors/authentication.rs:60-72 | true if and only if the configured user name has no colon and the header is exactly the Basic header for the configured pair |
| `Authentication.CredentialsCharacterization` | core/backend/src/utils/extractors/authentication.rs:60-70 | a header yields the pair `(user, pass)` if and only if `user` has no colon and the header is the Basic header for the pair |
| `Authentication.FromRequest` | core/backend/src/utils/extractors/authentication.rs:51-75 | extraction never fails, and a missing `PORTFOLIO_USER` or `PORTFOLIO_PASSWORD` means not authenticated |
| `Authentication.FromRequestAuthenticatesExactly` | core/backend/src/utils/extractors/authentication.rs:51-75 | authenticated if and only if both credentials are set, the user name has no colon and the header is exactly the Basic header for the configured pair |
| `Authentication.BasicHeaderRoundTrip` | core/backend/src/utils/extractors/authentication.rs:60-72 | the Basic header a client builds for `(user, pass)` authenticates if and only if both equal the configured values |
| `Authentication.ColonInUserNeverAuthenticates` | core/backend/src/utils/extractors/authentication.rs:67-71 | a configured user name containing `:` never authenticates, whatever the header |
| `Authentication.SchemeIsCaseSensitive` | core/backend/src/utils/extractors/authentication.rs:64 | a header starting `basic ` in lower case never authenticates |
| `Authentication.MalformedCredentialsRejected` | core/backend/src/utils/extractors/authentication.rs:64-72 | invalid Base64, invalid UTF-8 or a missing colon each leave the request unauthenticated |
| `Database.FetchOne` | core/backend/src/models/oauth.rs:82 | a row exactly when the statement returned one, and then the first; `RowNotFound` otherwise |
| `Database.DeleteReport` | core/backend/src/models/oauth.rs:168-172 | `Some(())` exactly when the DELETE affected a row |
| `Overrides.SetClaimed` | core/backend/src/models/profile_overrides.rs:237-248 | the UPDATE keeps the key set, sets `claimed` on row `id` and changes no other column and no other row |
| `Overrides.SetRunsAt` | core/backend/src/models/profile_overrides.rs:200-212 | the UPDATE keeps the key set, sets `runs_at` on row `id` and changes no other column and no other row |
| `Overrides.ClaimedIdsMonotone` | core/backend/src/models/profile_overrides.rs:229-253 | claiming adds exactly the targeted existing row to the claimed set; rescheduling leaves the claimed set as it was |
| `Overrides.SetClaimedIdempotent` | core/backend/src/models/profile_overrides.rs:233-250 | claiming a row twice leaves the table as claiming it once |
| `Overrides.DeleteReportAsWritten` | core/backend/src/models/profile_overrides.rs:173-177 | as written, `delete` reports `None` exactly when a row was affected |
| `Overrides.DeleteReportInverted` | core/backend/src/models/profile_overrides.rs:154-177 | the report as written differs from the documented report for every affected-row count |
| `Overrides.OverridesTable.Insert` | core/backend/src/models/profile_overrides.rs:67-84 | a fresh id from the serial gets the row `(id, profile_id, runs_at, false)`; the statement returns that row only with `RETURNING`; a failure changes nothing |
| `Overrides.OverridesTable.UpdateClaimed` | core/backend/src/models/profile_overrides.rs:237-248 | the table becomes `SetClaimed` of the old one, reporting 1 or 0 affected rows; a failure changes nothing |
| `Overrides.OverridesTable.UpdateRunsAt` | core/backend/src/models/profile_overrides.rs:200-212 | the table becomes `SetRunsAt` of the old one, reporting 1 or 0 affected rows; a failure changes nothing |
| `Overrides.OverridesTable.DeleteRow` | core/backend/src/models/profile_overrides.rs:162-171 | the row `id` is gone and no other row changes, reporting 1 or 0 affected rows; a failure changes nothing |
| `Overrides.ProfileOverrides.FromRow` | core/backend/src/models/profile_overrides.rs:32-47 | the struct built from a row holds exactly that row |
| `Overrides.ProfileOverrides.Create` | core/backend/src/models/profile_overrides.rs:62-87 | as written: the unclaimed row is stored, yet the call returns `Err(RowNotFound)` (and `Err` with nothing stored on a failure) |
| `Overrides.ProfileOverrides.CreateReturning` | core/backend/src/models/profile_overrides.rs:62-87 | with `RETURNING *`: a new struct for a fresh id, holding `profile_id`, `runs_at`, `claimed = false`, which is the only row added |
| `Overrides.ProfileOverrides.Get` | core/backend/src/models/profile_overrides.rs:101-117 | `Some` exactly when a row with that primary key exists, and then the row stored under it; `Err` exactly on a failure |
| `Overrides.ProfileOverrides.GetAll` | core/backend/src/models/profile_overrides.rs:130-146 | a row is listed if and only if it is in the table and belongs to the profile; `Err` exactly on a failure |
| `Overrides.ProfileOverrides.GetAllAgreesWithGet` | core/backend/src/models/profile_overrides.rs:101-146 | a row is listed by `get_all(p)` if and only if `get` of its id finds it and it belongs to `p` |
| `Overrides.ProfileOverrides.Delete` | core/backend/src/models/profile_overrides.rs:158-178 | as written: the row is removed, and the report is `None` exactly when a row was removed |
| `Overrides.ProfileOverrides.DeleteAsDocumented` | core/backend/src/models/profile_overrides.rs:149-178 | the row is removed, and the report is `Some(())` exactly when a row was removed |
| `Overrides.ProfileOverrides.UpdateRunDate` | core/backend/src/models/profile_overrides.rs:191-217 | an unchanged date writes nothing; otherwise the row is updated and then the field; on `Err` neither changes; `claimed` is untouched and a struct mirroring its row keeps mirroring it |
| `Overrides.ProfileOverrides.Claim` | core/backend/src/models/profile_overrides.rs:229-253 | an already claimed struct writes nothing; otherwise the row is marked and then the field; on `Err` neither changes; `runs_at` is untouched, no claim is lost, and mirroring is kept |
| `Overrides.ProfileOverrides.Id` | core/backend/src/models/profile_overrides.rs:258-260 | the id of the row held |
| `Overrides.ProfileOverrides.ProfileId` | core/backend/src/models/profile_overrides.rs:264-266 | the profile id of the row held |
| `Overrides.ProfileOverrides.RunsAt` | core/backend/src/models/profile_overrides.rs:270-272 | the `runs_at` of the row held |
| `Overrides.ProfileOverrides.Claimed` | core/backend/src/models/profile_overrides.rs:276-278 | the `claimed` flag of the row held |
| `OAuth.SetRefreshToken` | core/backend/src/models/oauth.rs:188-200 | the UPDATE keeps the key set, sets `refresh_token` (NULL for `None`) on row `id` and changes no other column and no other row |
| `OAuth.SetAuthToken` | core/backend/src/models/oauth.rs:220-232 | the UPDATE keeps the key set, sets `auth_token` (NULL for `None`) on row `id` and changes no other column and no other row |
| `OAuth.TokenUpdatesIndependent` | core/backend/src/models/oauth.rs:175-237 | the two token updates commute, and of two writes to the refresh token the later wins |
| `OAuth.OAuthTable.Insert` | core/backend/src/models/oauth.rs:62-83 | a fresh id from the serial gets the row with the four given columns; the statement returns that row only with `RETURNING`; a failure changes nothing |
| `OAuth.OAuthTable.UpdateRefreshToken` | core/backend/src/models/oauth.rs:188-200 | the table becomes `SetRefreshToken` of the old one, reporting 1 or 0 affected rows; a failure changes nothing |
| `OAuth.OAuthTable.UpdateAuthToken` | core/backend/src/models/oauth.rs:220-232 | the table becomes `SetAuthToken` of the old one, reporting 1 or 0 affected rows; a failure changes nothing |
| `OAuth.OAuthTable.DeleteRow` | core/backend/src/models/oauth.rs:157-166 | the row `id` is gone and no other row changes, reporting 1 or 0 affected rows; a failure changes nothing |
| `OAuth.ProfileOAuth.FromRow` | core/backend/src/models/oauth.rs:35-44 | the struct built from a row holds exactly that row |
| `OAuth.ProfileOAuth.Create` | core/backend/src/models/oauth.rs:55-86 | as written: the row is stored, yet the call returns `Err(RowNotFound)` (and `Err` with nothing stored on a failure) |
| `OAuth.ProfileOAuth.CreateReturning` | core/backend/src/models/oauth.rs:55-86 | with `RETURNING *`: a new struct for a fresh id holding the four given columns, which is the only row added |
| `OAuth.ProfileOAuth.GetAll` | core/backend/src/models/oauth.rs:126-139 | a row is listed if and only if it is in the table and belongs to the profile; `Err` exactly on a failure |
| `OAuth.ProfileOAuth.Get` | core/backend/src/models/oauth.rs:98-118 | `None` only when no row has that profile and platform; a `Some` row has both and is among `get_all` of the profile; `Err` exactly on a failure |
| `OAuth.ProfileOAuth.Delete` | core/backend/src/models/oauth.rs:141-173 | the row is removed, and the report is `None` exactly when no row had the id |
| `OAuth.ProfileOAuth.UpdateRefreshToken` | core/backend/src/models/oauth.rs:175-205 | the row is updated and then the field; on `Err` neither changes; the auth token is untouched and mirroring is kept |
| `OAuth.ProfileOAuth.UpdateAuthToken` | core/backend/src/models/oauth.rs:207-237 | the row is updated and then the field; on `Err` neither changes; the refresh token is untouched and mirroring is kept |
| `OAuth.ProfileOAuth.Id` | core/backend/src/models/oauth.rs:245-247 | the id of the row held |
| `OAuth.ProfileOAuth.ProfileId` | core/backend/src/models/oauth.rs:252-254 | the profile id of the row held |
| `OAuth.ProfileOAuth.Type` | core/backend/src/models/oauth.rs:259-261 | the platform of the row held |
| `OAuth.ProfileOAuth.RefreshToken` | core/backend/src/models/oauth.rs:268-270 | the refresh token of the row held |
| `OAuth.ProfileOAuth.AuthToken` | core/backend/src/models/oauth.rs:277-279 | the auth token of the row held |

## Left out

- HTTP plumbing: the request, the `Payload`, `ready(...)` futures and the
  Actix extractor trait. The extractor is a function of its three inputs.
- `HeaderValue::to_str`: the header enters as the text it produced, or as
  `None` when the header is absent or not visible ASCII. The ASCII check
  itself is not modelled.
- `std::env::var`: the two variables enter as `Option<string>`. `None`
  stands for both an unset variable and one that is not valid Unicode.
- The unused constants `EMAIL_KEY` and `PASSOWRD_KEY` in
  `core/backend/src/utils/extractors/authentication.rs:9-10`.
- The Postgres connection pool, async execution, concurrency and
  transactions. Statements act one at a time on the table map. The absence
  of atomicity that the `delete` documentation warns about is not modelled.
- Which `sqlx::Error` occurred. Only `RowNotFound` is told apart from a
  generic statement failure, and a failing statement changes nothing.
- Column types. `i32` ids are unbounded integers, `DateTime<Utc>` is an
  integer (the code only compares dates for equality), and the `oauth_type`
  Postgres enum is a datatype with its one variant.
- `Overrides.ProfileOverrides.GetAll` and `OAuth.ProfileOAuth.GetAll` give
  a set, not a `Vec`, because the queries have no `ORDER BY`, so row order
  is unspecified.
- `OAuth.ProfileOAuth.Get`: when several rows match, Postgres returns one
  of them and `fetch_optional` keeps the first. Which one is not modelled,
  only that it matches.
- `delete` consumes `self` in Rust, so no method can be called on a
  deleted record. The model does not capture this move. After `Delete`
  the caller still holds the object, and `Claim`, `UpdateRunDate` or the
  token updates on it return `Ok` while affecting no row.
- `core/backend/src/models/profiles.rs`, `accounts.rs`, `runs.rs` and the
  other models, the routes, configuration and server bootstrap are not part
  of this model.
- These source files contain no bearer-token, cookie or run-stage logic,
  so none is modelled.

## Findings

| source | as written | input that shows it | evidently intended | confidence | as-written member | corrected member |
|---|---|---|---|---|---|---|
| core/backend/src/models/profile_overrides.rs:173-177 | `delete` returns `Ok(None)` when `rows_affected() > 0` and `Ok(Some(()))` otherwise | deleting an existing override (1 row affected) reports `None`, which its documentation at lines 155-156 says means "no rows were affected" | `Ok(Some(()))` when a row was removed, `Ok(None)` when none matched, as `oauth.rs:168-172` does | high, not executed | `Overrides.ProfileOverrides.Delete`, `Overrides.DeleteReportInverted` | `Overrides.ProfileOverrides.DeleteAsDocumented` |
| core/backend/src/models/profile_overrides.rs:67-84 | the INSERT has no `RETURNING` clause but is read with `fetch_one` | any successful `create`: Postgres returns no row for a plain INSERT, so `fetch_one` fails with `RowNotFound` after the row is stored | `RETURNING *`, as `profiles.rs:90` and `accounts.rs:82` do, so the stored row comes back | medium (depends on sqlx and Postgres behaviour), not executed | `Overrides.ProfileOverrides.Create` | `Overrides.ProfileOverrides.CreateReturning` |
| core/backend/src/models/oauth.rs:62-82 | the INSERT has no `RETURNING` clause but is read with `fetch_one` | any successful `create`: Postgres returns no row for a plain INSERT, so `fetch_one` fails with `RowNotFound` after the row is stored | `RETURNING *`, as `profiles.rs:90` and `accounts.rs:82` do, so the stored row comes back | medium (depends on sqlx and Postgres behaviour), not executed | `OAuth.ProfileOAuth.Create` | `OAuth.ProfileOAuth.CreateReturning` |
