# QuickSlim middleware and record services, modelled in Dafny

QuickSlim adds a few PSR-15 middleware components and a record-access service to Slim applications. This project models the parts of it that make decisions:

- **Error-message replacement** (`QuickErrorHandlerMiddleware`). When the wrapped handler throws, the middleware is meant to answer 500 with a JSON body. The body's `message` is the exception text after the configured (error text, replacement text) rules have been applied (`ErrorHandler`). As written, the replacement step reads each rule both as an array and as an object. For any non-empty list of `QuickErrorHandlerConfig` rules, and for array rules unless the first rule's text is a substring, the catch block itself throws and no 500 body is built (see Findings). `ErrorHandler.ProcessAsWritten` models that behaviour; `ErrorHandler.Process` models the intended middleware over the corrected `ReplaceError`.
- **Windows-authentication gate** (`QuickIISAuthMiddleware`, `QuickIISAuthConfig`). It admits a request only when IIS reports Negotiate or NTLM authentication and a non-empty user that the optional domain restriction accepts (`IISAuthConfig`, `IISAuthMiddleware`).
- **Record services** (`DatabaseService` and its later revision `QuickDatabaseService`). These cover how a record becomes an insert or an update, how fetched values map to null, and the transaction calls around every write and in the destructor (`DatabaseServices`, `QuickDatabaseServices`). Code the two services share line for line is in `ServiceCommon`.

The shared modules are:

- `Php` writes out the PHP built-ins the code relies on: `trim` and its whitespace set, truthiness, loose `== null`, the `(string)` cast and `str_contains`.
- `Dbal` models the Doctrine connection as a class. Its fields are the connected flag, the transaction nesting level and a log of operations (begin, execute, commit, rollback, close).
- `Wrappers` holds `Option` and `Result`.

Inputs come from outside the model:

- Server variables (`AUTH_TYPE`, `AUTH_USER`) are parameters. `None` means an unset variable.
- PCRE matching of an error pattern against a message is the parameter `matches`.
- Values that come from the database are parameters: fetched rows and values, affected-row counts, table columns and the id `NEWID()` generates.

The rule scan is modelled in the code's per-rule order, with each rule read as one record. Each rule gets a substring test and then a pattern test before the next rule is tried. The first rule that fires returns its replacement text verbatim. A pattern match whose replacement holds a `$<digit>` marker only rewrites the loop's local copy of the rule, so scanning goes on. The code performs no back-reference substitution and never runs a separate all-substrings pass.

## Model

| member | source | states |
|---|---|---|
| `Php.TrimLeft` | src/Services/DatabaseService.php:78 | the left half of `trim`: the result is a suffix that does not start with a trim character, and every dropped character is one |
| `Php.TrimRight` | src/Services/DatabaseService.php:78 | the right half of `trim`: the result is a prefix that does not end with a trim character, and every dropped character is one |
| `Php.BlankIffAllTrimSpace` | src/Services/DatabaseService.php:185 | `trim($s) === ''` holds exactly when every character is space, tab, LF, CR, NUL or vertical tab |
| `Php.LooseEqualsNull` | src/Services/DatabaseService.php:78 | `$v == null` implies `$v` is falsy; the only falsy value not loosely equal to null is the string "0", which is not |
| `Php.ContainsIffOccurs` | src/Middleware/QuickErrorHandlerMiddleware.php:43 | `str_contains` holds exactly when the needle occurs at some offset (so always for an empty needle) |
| `Php.NatToString` | src/Services/QuickDatabaseService.php:183 | the string form of an integer compared by `array_diff_assoc` is non-empty decimal digits without leading zeros, and those digits denote the integer |
| `ErrorHandler.HasBackRefIffMarker` | src/Middleware/QuickErrorHandlerMiddleware.php:46 | the replacement-text test `(\$(\d+))` holds exactly when some `$` is directly followed by a digit |
| `ErrorHandler.ReplaceError` | src/Middleware/QuickErrorHandlerMiddleware.php:40-51 | the result is always the original message or the replacement text of one of the rules |
| `ErrorHandler.FirstFiringRuleDecides` | src/Middleware/QuickErrorHandlerMiddleware.php:42-47 | rules are tried in list order; the first rule whose text is a substring, or whose pattern matches with a marker-free replacement, returns its replacement verbatim |
| `ErrorHandler.NoFiringRuleKeepsMessage` | src/Middleware/QuickErrorHandlerMiddleware.php:42-50 | when no rule fires, including with an empty rule list, the message comes back unchanged |
| `ErrorHandler.NonFiringRuleIsTransparent` | src/Middleware/QuickErrorHandlerMiddleware.php:42-49 | deleting a rule that does not fire from any position leaves the result unchanged |
| `ErrorHandler.BackRefRuleIsSkipped` | src/Middleware/QuickErrorHandlerMiddleware.php:46 | a rule whose text is not a substring and whose replacement has a `$<digits>` marker never decides the result, whatever its pattern does |
| `ErrorHandler.EarlierPatternBeatsLaterSubstring` | src/Middleware/QuickErrorHandlerMiddleware.php:42-47 | an earlier rule's qualifying pattern match wins over a later rule's substring match |
| `ErrorHandler.ReplaceErrorStable` | src/Middleware/QuickErrorHandlerMiddleware.php:42-50 | replacing again an output on which no rule fires returns it unchanged |
| `ErrorHandler.ReplaceErrorAsWritten` | src/Middleware/QuickErrorHandlerMiddleware.php:43-46 | the code as written, with the rule read as an array at line 43 and as an object at line 46; it succeeds exactly for an empty list or an array-shaped first rule whose text is a substring, and whenever it does not throw it agrees with `ReplaceError` |
| `ErrorHandler.AsWrittenThrows` | src/Middleware/QuickErrorHandlerMiddleware.php:43-46 | as written, a non-empty rule list throws for object-shaped rules, and for array-shaped rules whenever the first rule's text is not a substring |
| `ErrorHandler.ConnectionRefusedExample` | src/Middleware/QuickErrorHandlerMiddleware.php:42-47 | with one configured rule ("Connection refused" to "Service unavailable"), the message "Connection refused by host db1" becomes "Service unavailable"; the code as written throws on it |
| `ErrorHandler.Process` | src/Middleware/QuickErrorHandlerMiddleware.php:30-38 | a normal handler response passes through untouched; a throw gives status 500 with `message` = ReplaceError of the exception text, alone when showErrors is false, and with exception, file, line, code and trace when it is true (the intended middleware, over the corrected scan) |
| `ErrorHandler.ProcessAsWritten` | src/Middleware/QuickErrorHandlerMiddleware.php:30-46 | as written: a normal response passes through; on a throw, the middleware itself fails exactly when the as-written scan throws (always for a non-empty list of config objects); otherwise it answers as `Process` does |
| `IISAuthConfig.BeforeBackslash` | src/Config/QuickIISAuthConfig.php:18 | `explode('\\', $s)[0]` is a prefix of `$s` without backslash, ending at the first backslash or at the end |
| `IISAuthConfig.HasValidDomain` | src/Config/QuickIISAuthConfig.php:14-21 | no domain accepts everyone; a string domain accepts the identical user; a list accepts its entries; the backslash clause accepts; nothing else is accepted |
| `IISAuthConfig.BackslashClauseDeadForServerUser` | src/Config/QuickIISAuthConfig.php:18 | when the argument is the server's AUTH_USER, the backslash clause never holds |
| `IISAuthConfig.HasValidDomainForServerUser` | src/Config/QuickIISAuthConfig.php:14-21 | called with the server's AUTH_USER, the test accepts exactly: any user with no domain, the identical user for a string domain, or an entry of a list domain |
| `IISAuthMiddleware.Process` | src/Middleware/QuickIISAuthMiddleware.php:23-32 | the handler's response comes back unchanged exactly when AUTH_TYPE is set to Negotiate or NTLM, AUTH_USER is set and non-empty, and hasValidDomain accepts it; otherwise 401 with body "401 - Not Authorized" |
| `IISAuthMiddleware.ProcessAdmitsExactly` | src/Middleware/QuickIISAuthMiddleware.php:26-28 | the gate admits exactly the integrated-auth requests whose non-empty user the configured domain names (any user when no domain is set) |
| `IISAuthMiddleware.DefaultConfigAdmitsAuthenticatedUsers` | src/Middleware/QuickIISAuthMiddleware.php:18-28 | with no config (`null`), every non-empty user under Negotiate or NTLM reaches the handler |
| `Dbal.Connection.constructor` | src/Services/DatabaseService.php:17-21 | the connection handed to a service, connected or not, with its current nesting level and an empty operation log |
| `Dbal.Connection.BeginTransaction` | src/Services/DatabaseService.php:48 | beginTransaction connects if needed, raises the nesting level by one and logs a begin |
| `Dbal.Connection.Query` | src/Services/DatabaseService.php:148 | executeQuery connects if needed; the nesting level and the log of writes are unchanged |
| `Dbal.Connection.ExecuteStatement` | src/Services/DatabaseService.php:49 | a write connects if needed, keeps the nesting level and logs the statement |
| `Dbal.Connection.Commit` | src/Services/DatabaseService.php:50 | commit needs an active transaction, lowers the nesting level by one and logs a commit |
| `Dbal.Connection.RollBack` | src/Services/DatabaseService.php:34 | rollBack needs an active transaction, lowers the nesting level by one and logs a rollback |
| `Dbal.Connection.Close` | src/Services/DatabaseService.php:35 | close disconnects, resets the nesting level to zero and logs a close |
| `ServiceCommon.NonBlankIsKept` | src/Services/QuickDatabaseService.php:78 | a non-blank string passes the insert loop's skip test |
| `ServiceCommon.NullIfBlank` | src/Services/DatabaseService.php:185 | the result is never a blank string; only a blank string is changed, and it becomes null |
| `ServiceCommon.InsertValues` | src/Services/DatabaseService.php:76-81 | the inserted values are the record's own values for table columns only; each is truthy or the string "0", and no string among them is blank; every table-column value the skip test keeps is inserted |
| `ServiceCommon.CollectInsertValues` | src/Services/QuickDatabaseService.php:76-81 | the insert loop sets exactly the `InsertValues` of the record |
| `ServiceCommon.SelectSingleValue` | src/Services/DatabaseService.php:122-128 | null exactly when there is no row or the fetched value is falsy; otherwise the fetched value itself |
| `ServiceCommon.LoopRollBacksFrom` | src/Services/DatabaseService.php:34 | the rollback loop, starting at counter t against a level it re-reads, rolls back (level - t + 1) div 2 times, or not at all when t >= level |
| `ServiceCommon.DestructorRollsBackHalf` | src/Services/QuickDatabaseService.php:34 | from nesting level L the destructor's loop rolls back L div 2 times |
| `ServiceCommon.CloseConnection` | src/Services/DatabaseService.php:31-37 | on a connected connection at level L: exactly L div 2 rollbacks, then close; a disconnected connection is left untouched |
| `DatabaseServices.ChangeSet` | src/Services/DatabaseService.php:181-189 | the change set holds only columns of the current row, and none of its values is a blank string |
| `DatabaseServices.ChangeSetColumns` | src/Services/DatabaseService.php:182-189 | a column is changed exactly when it is in the current row and some input key `col` or `_col` targets it; all other keys are ignored |
| `DatabaseServices.ChangeSetLaterWins` | src/Services/DatabaseService.php:182-186 | the last input entry that targets a column sets its value, with a blank string turned into null |
| `DatabaseServices.ApplyEntry` | src/Services/DatabaseService.php:183-188 | the inner loop adds, for every column the entry's key targets, the entry's value with blanks made null |
| `DatabaseServices.CollectChanges` | src/Services/DatabaseService.php:181-189 | the nested loop computes exactly the `ChangeSet` of the input record in input order |
| `DatabaseServices.SelectRecord` | src/Services/DatabaseService.php:142-150 | a fetched row comes back; a missing row is an error, because the declared return type is array |
| `DatabaseServices.DefaultId` | src/Services/DatabaseService.php:75 | the supplied id is kept when present and not null; otherwise the generated one is used |
| `DatabaseServices.ReadBack` | src/Services/DatabaseService.php:87 | the inserted row is read back only for a string id and an existing row; anything else is a TypeError |
| `DatabaseServices.SuppliedIdMayBeLeftOut` | src/Services/DatabaseService.php:75-81 | a supplied id that is not null but is skipped by the filter (blank string, false, 0) is still used as the id, yet is not sent with the insert |
| `DatabaseServices.BlankIdExample` | src/Services/DatabaseService.php:75-81 | the id " " is kept as the id and is missing from the inserted values |
| `DatabaseServices.DatabaseService.constructor` | src/Services/DatabaseService.php:17-21 | the service holds the given connection and id key |
| `DatabaseServices.DatabaseService.Destruct` | src/Services/DatabaseService.php:31-37 | L div 2 rollbacks and then close on a connected connection; nothing otherwise |
| `DatabaseServices.DatabaseService.DeleteRecord` | src/Services/DatabaseService.php:42-53 | exactly one begin, delete and commit, in that order; the nesting level is restored; returns the affected-row count |
| `DatabaseServices.DatabaseService.ExecuteStatement` | src/Services/DatabaseService.php:58-64 | the statement runs bracketed by one begin and one commit, or alone when transactional is false; returns the affected-row count |
| `DatabaseServices.DatabaseService.InsertRecord` | src/Services/DatabaseService.php:69-88 | one bracketed insert of `InsertValues` of the record with its id defaulted; the result is the row read back by that id |
| `DatabaseServices.DatabaseService.UpdateRecord` | src/Services/DatabaseService.php:177-207 | the SELECT of the current row connects the connection; a missing row is an error and an empty change set returns false, both with no write or transaction; otherwise one bracketed update of the change set, true exactly when the affected-row count is positive |
| `QuickDatabaseServices.SelectRecord` | src/Services/QuickDatabaseService.php:142-151 | null when no row is fetched (or the row is empty); otherwise the fetched row |
| `QuickDatabaseServices.SuppliedOrNewId` | src/Services/QuickDatabaseService.php:75 | the id is always a string: the supplied id when it is a non-blank string, otherwise the generated one |
| `QuickDatabaseServices.IdIsAlwaysInserted` | src/Services/QuickDatabaseService.php:75-81 | with a non-blank generated id and an id column, the id used to read the row back is always among the inserted values |
| `QuickDatabaseServices.ReadBack` | src/Services/QuickDatabaseService.php:87 | the row read back after an insert; null from SelectRecord is a TypeError, because InsertRecord's declared return type is array |
| `QuickDatabaseServices.NullBlanks` | src/Services/QuickDatabaseService.php:182 | every blank string value of the record becomes null and nothing else changes |
| `QuickDatabaseServices.ChangesAreUnfilteredDifferences` | src/Services/QuickDatabaseService.php:182-183 | a key is written exactly when it is missing from the row or differs from it as a string after blank-to-null; there is no `_col` mapping and no column filter |
| `QuickDatabaseServices.UpdateIsIdempotent` | src/Services/QuickDatabaseService.php:182-185 | once the row holds the written values, the same update finds nothing to change |
| `QuickDatabaseServices.BlankCannotReplaceEmptyString` | src/Services/QuickDatabaseService.php:182-183 | a blank string or null sent for a column holding "" is dropped by the string comparison, so "" cannot be cleared to null |
| `QuickDatabaseServices.QuickDatabaseService.constructor` | src/Services/QuickDatabaseService.php:17-21 | the service holds the given connection and id key |
| `QuickDatabaseServices.QuickDatabaseService.Destruct` | src/Services/QuickDatabaseService.php:31-37 | L div 2 rollbacks and then close on a connected connection; nothing otherwise |
| `QuickDatabaseServices.QuickDatabaseService.DeleteRecord` | src/Services/QuickDatabaseService.php:42-53 | exactly one begin, delete and commit; returns true |
| `QuickDatabaseServices.QuickDatabaseService.ExecuteStatement` | src/Services/QuickDatabaseService.php:58-64 | the statement runs bracketed by one begin and one commit, or alone when transactional is false; returns true |
| `QuickDatabaseServices.QuickDatabaseService.InsertRecord` | src/Services/QuickDatabaseService.php:69-88 | one bracketed insert of `InsertValues` of the record with the id fixed by `SuppliedOrNewId`; the result is the row read back |
| `QuickDatabaseServices.QuickDatabaseService.UpdateRecord` | src/Services/QuickDatabaseService.php:178-200 | the SELECT of the current row connects the connection; false with no write or transaction when the row is missing or nothing differs; otherwise one bracketed update of the differing values, and true |

## Left out

- PCRE semantics are not modelled. This covers the `/…/` wrapping of the error text, capture groups, and the back-reference substitution loop whose result is discarded. Whether a pattern matches is the parameter `matches`; a malformed pattern is a non-match there, as `preg_match` returns false for it.
- PSR-7 requests and responses, and the JSON encoding of `QuickJsonResponse`, are not modelled. A response is a value: the handler's own response, or a status with a body. "The handler is invoked" is modelled as returning the handler's response.
- `ErrorHandler.Process`: `getCode` is modelled as an integer (some exceptions carry a string code). Trace frames are opaque strings.
- `IISAuthConfig.HasValidDomain`: list membership uses exact string equality. PHP's `in_array` compares loosely, so two distinct numeric strings ("10" and "1e1") would also match. Domain entries are modelled as strings only.
- `ServiceCommon.InsertValues`: the column test uses exact string equality. PHP's `in_array` compares loosely, and numeric-string array keys become integers; column names of that form are not modelled.
- `ServiceCommon.SelectSingleValue`: a truthy fetched value that is not a string is returned as is. Under the file's strict types, PHP would raise a TypeError against the declared `string|null` result. Likewise, the case where `GetUniqueId` receives a falsy NEWID() and throws is not modelled; the generated id is an input string.
- `DatabaseServices.DatabaseService.UpdateRecord`, `QuickDatabaseServices.QuickDatabaseService.UpdateRecord`: `$table` and `$id` are modelled as strings. The source's `UpdateRecord` leaves them untyped, and under strict types a non-string table or id raises a TypeError when it is passed on to `SelectRecord(string $table, string $id)` (src/Services/DatabaseService.php:179, src/Services/QuickDatabaseService.php:180). That error path is not modelled.
- Values are null, booleans, integers and strings. Floats and nested arrays in records are not modelled.
- Records given to InsertRecord and to QuickDatabaseService's UpdateRecord are maps. Their key order only affects the SQL text.
- SQL text, query builders, bracket quoting and named parameters are not modelled. A read leaves no entry in the connection log; its only modelled effect is that it connects a lazy connection (`Dbal.Connection.Query`), as UpdateRecord's SELECT does before any write. InsertRecord reads back only after its write has connected. A write is recorded by what it writes (table, values, id column and id).
- Schema and query helpers that only forward to Doctrine are not modelled: `GetColumns`, `GetColumnNames`, `GetTables`, `GetTableNames`, `ExecuteQuery`, `GetPermissionsForObject` and `GetConnection`. Column lists come in as inputs.
- Exceptions raised by Doctrine itself (connection failures, SQL errors) are not modelled. Nor is DBAL's savepoint and rollback-only handling, beyond the nesting level going down by one per commit or rollback.
- src/Middleware/QuickCorsMiddleware.php, src/Middleware/QuickFirewallMiddleware.php, src/Responses/ and the config getters are not part of this model. They are header plumbing, an unconditional "Not Implemented" throw, and response wrappers.

## Findings

| source | as written | input that shows it | evidently intended | confidence | as-written member | corrected member |
|---|---|---|---|---|---|---|
| src/Middleware/QuickErrorHandlerMiddleware.php:43-46 | line 43 reads each rule as an array (`$replacement['error']`); line 46 calls the getters of a QuickErrorHandlerConfig object on the same rule, so either rule shape raises an Error inside the catch block | rules `[new QuickErrorHandlerConfig("Connection refused", "Service unavailable")]` (the documented type) and message "Connection refused by host db1": line 43 throws "Cannot use object ... as array" instead of answering "Service unavailable" | one rule shape read consistently: substring test, then pattern test, first firing rule's replacement | high (not executed) | `ErrorHandler.ReplaceErrorAsWritten`, `ErrorHandler.AsWrittenThrows`, `ErrorHandler.ConnectionRefusedExample`, `ErrorHandler.ProcessAsWritten` | `ErrorHandler.ReplaceError`, `ErrorHandler.FirstFiringRuleDecides` |
