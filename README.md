# Bulletin and accessLevel entities, modelled in Dafny

The repository is a small bulletin-board API written in PHP. Its core is two
entity classes, each a record with validated fields and a lifecycle against a
relational table:

- **Bulletin** (`php/bulletin.php`). It has four private fields: `bulletinId`, `userId`, `category` and `message`. Its setters validate with PHP's filters and throw `InvalidArgumentException` or `RangeException`. `insert`, `delete` and `update` act on the `bulletin` table. Two static lookups return the first matching row as a Bulletin.
- **accessLevel** (`php/accessLevel.php`). It is an enumeration: Viewer = 1, Admin = 2, PowerUser = 3, default Viewer. It carries a description, and `insert`, `delete` and `update` act on the `accessLevel` table.

The model follows the code as written, defects included:
- `setMessage` stores into `category`, and `message` is never assigned.
- `setDescription` validates and stores nothing.
- `update` has no guard.
- `getAllBulletins` yields at most one row.
- accessLevel's id mutator is named `setUserId`.

## Layout

- `php.dfy`, module `Php`. PHP strings are byte sequences, and the setters receive `PhpValue`s (null, bool, int or string). `ToText` is PHP's string conversion. `ParseInt` and `ValidateInt` model `FILTER_VALIDATE_INT`. `ValidateNonEmptyInt` is the setters' idiom "validate as integer, then reject if `empty()`", and `IsEmptyText` is `empty()` on a string.
  - `FILTER_SANITIZE_STRING` is a parameter of type `Sanitizer`. The general properties hold for every sanitiser. The concrete witnesses (`Bulletins.ConstructedCategoryMayExceedBound`, `Bulletins.InsertThenDeleteTwice`, `AccessLevels.AsWrittenRejectsValidInput`) use the identity sanitiser. `Bulletins.NullMessageRowsNeverLoad` assumes the sanitiser maps "" to empty text.
  - The exception classes are `ErrorKind`s. An `Error` holds a kind and a message.
- `store.dfy`, module `Store`. The class `Table<R>` stands for one table behind the PDO connection.
  - Its state is a map from primary key to row, an auto-increment counter `nextId`, and `lastInsertId`.
  - `InsertRow`, `DeleteByKey` and `UpdateByKey` are the prepared statements executed, and `FirstKeyWhere` is a `SELECT` read in key order.
- `bulletin.dfy`, module `Bulletins`, and `access_level.dfy`, module `AccessLevels`. Each entity is a class whose fields are the PHP class's fields.
  - Setters and table operations are methods, framed to the fields and the table they change.
  - The setters are proved against the pure `Check…` validators, and `New` against the pure `Construct`. The table operations `Insert`, `Delete` and `Update` state their effect as an update of the table's row map.
  - `JsonSerialize` returns the field snapshot, a `Fields` value.
  - A PHP constructor that throws yields no object. It is modelled by the static method `New`, which returns either the new object or the error, and whose contract ties the result to `Construct`.
  - The two static lookups read the table and return the snapshot of the Bulletin they would build. They are functions over the table's state.

## Behaviour the method names do not suggest

- A Bulletin has exactly four fields: `bulletinId`, `userId`, `category` and `message`.
- `setMessage` has no length bound. It rejects only an empty sanitised value, and it writes `category`.
- `update` has no null-id guard. A null or unknown id updates no row and raises nothing.
- `delete` does not clear `bulletinId`, so a second `delete` passes the guard and removes nothing. It does not fail. See `Bulletins.InsertThenDeleteTwice`.
- `getBulletinByCategory` refuses only the value `false` itself. Other falsy values, such as `null`, `""` and `0`, go to the query.
- accessLevel's `insert` does not assign the generated key to `accessLevelId`.
- A description of more than 32 bytes is rejected with RangeException, but an accepted description is never stored.

## Model

| member | source | states |
|---|---|---|
| `Php.ParseInt` | php/bulletin.php:87 | the integer filter yields only values within PHP's 64-bit integer range |
| `Php.ValidateInt` | php/bulletin.php:87 | `filter_var(v, FILTER_VALIDATE_INT)` returns a PHP integer unchanged, rejects null and false, gives 1 for true, and never yields a value outside the 64-bit range |
| `Php.IsEmptyText` | php/bulletin.php:137 | `empty()` on a string holds exactly for the string forms of `false` and of the integer 0, that is "" and "0" |
| `Php.DecimalParses` | php/bulletin.php:87 | the decimal text of an integer passes the filter as that integer when it is within the 64-bit range, and is rejected otherwise |
| `Php.ValidateNonEmptyInt` | php/bulletin.php:87-90 | a value passes "filter as integer, then not `empty()`" only as a non-zero integer the filter returns; it fails exactly when the filter returns false or 0 |
| `Php.ValidateIntRoundTrip` | php/bulletin.php:111 | every PHP integer, given as a value or as its decimal text, passes the integer filter unchanged |
| `Php.AcceptedTextIsDecimal` | php/bulletin.php:111-112 | a text accepted as a non-zero integer is, after trimming, that integer's decimal form, optionally with a leading `+` |
| `Php.NonZeroIntegersAccepted` | php/bulletin.php:87-91 | every non-zero integer, negative ones included, passes the setters' integer check |
| `Store.FirstKeyFrom` | php/bulletin.php:263-269 | the result is the smallest key in the range whose row satisfies the condition; none is returned exactly when no row in range does |
| `Store.Table.FirstKeyWhere` | php/bulletin.php:266-268 | the first fetched row is the matching row with the smallest key; none is returned exactly when no row matches |
| `Store.Table.FirstKeyWhereIs` | php/bulletin.php:266-268 | any matching key with no smaller matching key is the row fetched first |
| `Store.Table.InsertRow` | php/bulletin.php:190-200 | an insert adds exactly one row, under a key no row had, and that key becomes the last insert id; the counter invariant is kept |
| `Store.Table.DeleteByKey` | php/bulletin.php:216-221 | a delete by key removes only the row with that key; a NULL key removes nothing |
| `Store.Table.UpdateByKey` | php/bulletin.php:233-239 | an update by key replaces only the row with that key; a NULL or absent key changes nothing |
| `Php.CheckOptionalId` | php/bulletin.php:78-92 | the id mutators of both classes (here and php/accessLevel.php:67-79): null is accepted as "no id"; any other value is accepted exactly when it is a non-zero integer, else InvalidArgument with the class's message ("bulletinId invalid", "accessLevelId invalid") |
| `Bulletins.CheckUserId` | php/bulletin.php:109-116 | accepted exactly when it is a non-zero integer (no null case), else InvalidArgument "User Id Invalid" |
| `Bulletins.CheckCategory` | php/bulletin.php:133-144 | the sanitised text is accepted exactly when it is not `""` or `"0"` and has at most 32 bytes; emptiness is tested first, so a raw value of any length that sanitises to `""` or `"0"` gets InvalidArgument; a non-empty text longer than 32 bytes gets RangeError |
| `Bulletins.CheckMessage` | php/bulletin.php:161-169 | the sanitised text is accepted exactly when it is not empty, with no length bound, else InvalidArgument "message invalid" |
| `Bulletins.Rethrow` | php/bulletin.php:50-59 | the catch clauses keep kind and message of InvalidArgument and Range errors, turn other Exceptions into a plain Exception with the same message, and do not catch an Error |
| `Bulletins.Construct` | php/bulletin.php:43-60 | the setters run in the order id, userId, category, message; the first failure is the constructor's, with the same kind and message; on success `category` holds the sanitised message, `message` is null, and the invariant holds |
| `Bulletins.ConstructAcceptance` | php/bulletin.php:45-49 | construction succeeds exactly when all four setters accept; a failure is always InvalidArgument or RangeError |
| `Bulletins.ConstructedCategoryMayExceedBound` | php/bulletin.php:161-168 | after construction `category` can exceed 32 bytes, because setMessage overwrites it with an unbounded message |
| `Bulletins.Bulletin.SetBulletinId` | php/bulletin.php:78-92 | on success `bulletinId` is the validated value (null for null); on failure it is unchanged; no other field changes |
| `Bulletins.Bulletin.SetUserId` | php/bulletin.php:109-116 | on success `userId` is the validated integer; on failure it is unchanged; no other field changes |
| `Bulletins.Bulletin.SetCategory` | php/bulletin.php:133-144 | on success `category` is the sanitised text; on failure it is unchanged; no other field changes |
| `Bulletins.Bulletin.SetMessage` | php/bulletin.php:161-169 | on success the sanitised message is stored into `category`; `message` is never written |
| `Bulletins.Bulletin.JsonSerialize` | php/bulletin.php:171-175 | the snapshot holds the four private fields as they currently are, `message` included |
| `Bulletins.BoundText` | php/bulletin.php:257-259 | null binds SQL NULL; any other value binds its PHP string form (`true` as "1", an integer as its decimal text) |
| `Bulletins.Bulletin.New` | php/bulletin.php:43-60 | `new Bulletin(...)` either fails with `Construct`'s error or yields a fresh object whose field snapshot (JsonSerialize) is `Construct`'s result |
| `Bulletins.Bulletin.Insert` | php/bulletin.php:183-201 | with a non-null id it raises "existing bulletin" and changes neither the table nor the id; otherwise it adds exactly one row with the current userId/category/message under a fresh key, and that key becomes `bulletinId` and the last insert id, while the counter advances by one; the row's message is null |
| `Bulletins.Bulletin.Delete` | php/bulletin.php:209-222 | with a null id it raises and the table is unchanged; otherwise it removes only the row with that id and leaves `bulletinId` set |
| `Bulletins.Bulletin.Update` | php/bulletin.php:230-240 | with no guard it replaces the row whose key is `bulletinId` with the current fields; a null or unknown id leaves the table unchanged; the counter is kept, and the row written has a null message |
| `Bulletins.InsertThenDeleteTwice` | php/bulletin.php:209-222 | construct, insert, delete and delete again all succeed, and the rows end as they began (the counter has advanced) |
| `Bulletins.LoadRow` | php/bulletin.php:263-273 | a fetched row yields a Bulletin exactly when `new Bulletin` over its columns succeeds, and then that Bulletin; a constructor failure is re-raised as a PDOException with the same message |
| `Bulletins.LoadRowAcceptance` | php/bulletin.php:266-272 | a row loads exactly when its userId is a non-zero PHP integer, its sanitised category is non-empty and at most 32 bytes, and its sanitised message is non-empty; the Bulletin then carries the row's key and userId and the sanitised message as category; a failure carries one of the setters' messages |
| `Bulletins.GetBulletinByCategory` | php/bulletin.php:249-275 | the argument `false` is refused with a PDOException before any query; otherwise null is returned exactly when no row has the bound category; every failure is a PDOException |
| `Bulletins.LoadedByCategoryIsFirstMatch` | php/bulletin.php:254-269 | a returned Bulletin comes from the matching row with the smallest key, and carries that key and that row's sanitised message |
| `Bulletins.GetAllBulletins` | php/bulletin.php:283-302 | at most one Bulletin; null exactly when the table is empty; every failure is a PDOException |
| `Bulletins.ByCategoryReturnsFirstMatch` | php/bulletin.php:263-273 | when the first row with the bound category loads, that Bulletin is returned; the lookup fails only when that row does not load, and then with exactly that row's load error: a PDOException with the rejecting setter's message |
| `Bulletins.AllBulletinsReturnsFirstRow` | php/bulletin.php:290-300 | when the row with the smallest key loads, that Bulletin is returned; the lookup fails only when that row does not load, and then with exactly that row's load error: a PDOException with the rejecting setter's message |
| `Bulletins.AllBulletinsIsFirstRow` | php/bulletin.php:286-296 | the one Bulletin returned comes from the row with the smallest key |
| `Bulletins.NullMessageRowsNeverLoad` | php/bulletin.php:164-168 | rows written through Bulletin have a NULL message; when the sanitiser keeps the empty text empty, neither lookup can build a Bulletin from such rows |
| `AccessLevels.TagOf` | php/accessLevel.php:10-14 | the constants are Viewer = 1, Admin = 2, PowerUser = 3; an integer names a constant exactly when it is 1, 2 or 3 |
| `AccessLevels.AnyNonZeroIdAccepted` | php/accessLevel.php:73-78 | every non-zero integer is accepted as an id, including values that name no constant |
| `AccessLevels.CheckDescription` | php/accessLevel.php:95-104 | the sanitised text passes exactly when it is not empty and has at most 32 bytes; empty gets InvalidArgument first, then over 32 bytes gets RangeError |
| `AccessLevels.Caught` | php/accessLevel.php:41-49 | InvalidArgument and Range errors are re-raised with the same message; any other Exception is swallowed and construction completes; an Error escapes |
| `AccessLevels.ConstructAsWritten` | php/accessLevel.php:35-50 | as written, construction always fails: the call to the undefined `setAccessLevelId` throws an Error that no catch clause catches |
| `AccessLevels.Construct` | php/accessLevel.php:35-50 | with the id mutator called, construction succeeds exactly when the id and the description are both accepted; the first failure keeps its kind and message; `description` stays null |
| `AccessLevels.AsWrittenRejectsValidInput` | php/accessLevel.php:39 | a null id and the description "x" construct under the intended call but fail as written |
| `AccessLevels.AccessLevel.SetUserId` | php/accessLevel.php:67-79 | on success `accessLevelId` is the validated value (null for null); on failure it is unchanged; `description` does not change |
| `AccessLevels.AccessLevel.SetDescription` | php/accessLevel.php:95-104 | it passes exactly when the sanitised text is not empty and has at most 32 bytes; it modifies nothing, so `description` is unchanged in every case |
| `AccessLevels.AccessLevel.JsonSerialize` | php/accessLevel.php:106-109 | the snapshot holds the two private fields as they currently are |
| `AccessLevels.AccessLevel.New` | php/accessLevel.php:35-50 | the corrected `new accessLevel(...)` either fails with `Construct`'s error or yields a fresh object whose snapshot is `Construct`'s result |
| `AccessLevels.AccessLevel.Insert` | php/accessLevel.php:117-129 | with no guard it adds exactly one row, under a fresh key, holding only the description, which is always null; the key becomes the last insert id and the counter advances by one; `accessLevelId` is not updated |
| `AccessLevels.AccessLevel.Delete` | php/accessLevel.php:136-144 | with no null check it removes only the row whose key is `accessLevelId`; a null id removes nothing |
| `AccessLevels.AccessLevel.Update` | php/accessLevel.php:152-161 | it changes only the description of the row whose key is `accessLevelId`; all other rows are unchanged |

## Findings

| source | as written | input that shows it | evidently intended | confidence | as-written member | corrected member |
|---|---|---|---|---|---|---|
| php/accessLevel.php:39 | the constructor calls `$this->setAccessLevelId`, which the class does not define. The id mutator is named `setUserId` (line 67). PHP throws an `Error`, which is not an `Exception`, so no catch clause catches it and every construction fails | `new accessLevel(null, "x")` | call the id mutator, then `setDescription` | not executed | `AccessLevels.ConstructAsWritten` (shown by `AccessLevels.AsWrittenRejectsValidInput`) | `AccessLevels.Construct`, used by `AccessLevels.AccessLevel.New` |

## Left out

- `api/bulletin/index.php` is not part of this model. That covers the HTTP verb dispatch, sessions, the XSRF cookie and JSON request/response handling.
- SQL text, `prepare` and `setFetchMode`, and the connection itself are left out. A write that the database itself rejects (connection loss, constraint violation) is not modelled: every executed statement succeeds.
- Column types and constraints of the two tables are left out. Columns are nullable and keys are unbounded integers. The lookup lemmas assume every key is a PHP integer.
- Fetched integer columns reach the constructor as PHP integers (`Bulletins.FetchedInt`). A MySQL driver may return them as decimal strings instead; for values in the 64-bit range both forms pass the integer filter alike, by `Php.ValidateIntRoundTrip`.
- Row order: the model assumes a `SELECT` without `ORDER BY` reads rows in ascending key order.
- `getAllBulletins` never calls `execute` before `fetch`. The model ignores this and reads the first row. When there is no row the PHP function returns the undefined `$bulletin`, which is null; the model returns null.
- The database collation is left out. `WHERE category = :category` is byte equality, not the case- and trailing-space-insensitive comparison of a default MySQL collation.
- `FILTER_SANITIZE_STRING` is a foreign library routine. It is a `Sanitizer` parameter, not a definition.
- Floats, arrays and objects as setter arguments are left out by choice of scope: `PhpValue` holds only null, booleans, integers and strings. The JSON API can pass `json_decode` output, floats included, to the constructor; what the integer filter and the sanitiser make of such values is not modelled.
- The getters (`getBulletinId` and the others) return a field and are not modelled apart from the fields.
- `get_object_vars` and the JSON encoding are reduced to a `Fields` snapshot of the current values.
- `SplEnum` internals are left out. The enumeration is its three constants and its default.
- Exception codes and the `$previous` chain are left out: an error is a kind and a message.
- The lookups return the snapshot of the Bulletin they would build, not an object, because they are functions over the table.
- Two PHP syntax slips are read as intended: `private userId;` (php/bulletin.php:23) as the field `$userId`, and `this->userId` (php/bulletin.php:196) as `$this->userId`.
