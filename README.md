# Xlent.Lever.Libraries2.Storage.SqlServer: a verified model of its core

This project is a Dafny model of the core of a small data-access library for SQL Server. It comprises:

- **The statement composer** (`Helper`). It derives INSERT, SELECT, UPDATE and DELETE text from a record type's metadata.
- **The single-table handler** (`SingleTableHandler`). It provides CRUD with optimistic concurrency on an ETag, plus paged search with a page envelope.
- **The ordered many-to-many relation handler** (`ManyToManyTableHandler`). It keeps a rank, or sort order, on each side of every link.
- **The two record base classes** (`DatabaseItem`, `TableItem`).

## Module layout

| file | module | what it holds |
|---|---|---|
| `wrappers.dfy` | `Wrappers` | `Option` stands for a .NET null. `Result` and `Outcome` carry the exceptions the core raises, as `Error` values. |
| `text.dfy` | `Text` | `string.Join`, with a splitter proved to invert it; `string.IsNullOrWhiteSpace`; decimal rendering of an `int`. |
| `guids.dfy` | `Guids` | `Guid` as a 128-bit number, and its "D" text form, proved injective. |
| `items.dfy` | `Items` | Record metadata, the stored row, and the classes `DatabaseItem` and `TableItem`. |
| `helper.dfy` | `Helper` | The statement texts, and lemmas about their shape. |
| `single_table.dfy` | `SingleTable` | The table and its query semantics; the class `SingleTableHandler`; paging and concurrency lemmas. |
| `many_to_many.dfy` | `ManyToMany` | Rank scopes, the range shift, and contiguity of ranks; the class `ManyToManyTableHandler`. |

## How the system is modelled

- **The database is an in-memory table.**
  - A handler object holds it as a field `rows`, a sequence in physical order.
  - The table's primary key is an invariant: `Valid()`, meaning no Id occurs twice.
  - `SingleTableHandler` also records in `sent` the write statements it issues, in order.
  - The table is a sequence, not a map, in insertion order. For one fixed `ties` that gives two rows the same value, the sorted result keeps their table order. What does not depend on the table order is the set of results the database may return: `EveryOrderReachable` shows that every sorted arrangement is the result under some `ties`.
- **Caller-supplied SQL fragments are opaque.**
  - A `where` fragment is a `Condition`: its text plus the predicate it denotes. Its parameters are taken as already bound.
  - An `orderBy` fragment is an `Ordering`: its text plus its integer sort key.
  - A SELECT is a `Select`, a paged query a `Query`, a COUNT a `CountQuery`. Each carries both the statement text the code builds and its meaning.
  - A `Select` also carries the sort key of the first column it lists. Without an ordering the code sends `ORDER BY 1`, and SQL Server reads `1` as the first column of the select list. For `SELECT *` that is the table's first column, a function `firstColumn` the handler is built with.
  - SQL Server promises no order among rows of equal key. Each query therefore takes a parameter `ties`, the order the database picks among ties for that one execution (`Precedes`: by the key, then by `ties`).
  - The database answers a `Query` by filtering, then sorting under `Precedes`, then the OFFSET/FETCH window (`Run`). It answers a `CountQuery` with the length of the filtered rows (`RunCount`).
  - SQL Server refuses `FETCH NEXT 0 ROWS` (the FETCH count must be positive). The code lets a zero limit through its checks, so `Run` fails with `ExecutionFailed` on it.
- **Exceptions become `Failure` values.** Each exception the code throws, or lets the database throw, maps to an `Error`:
  - an InternalContract requirement on an argument (not null, not white space, at least 0, a non-empty Guid) → `InvalidArgument`;
  - `InternalContract.RequireValidatedAndNotNull`, which fails when the record's own `Validate` reports an error → `ValidationFailed`. In the code both are the same contract exception; the model keeps them apart because this one is caused by the record, not by an argument's value;
  - FulcrumNotFoundException → `NotFound`;
  - FulcrumConflictException → `Conflict`;
  - any exception the database raises while executing a statement (a primary-key violation, `FETCH NEXT 0`, a statement it cannot parse) → `ExecutionFailed`;
  - AssertionFailedException → `AssertionFailed`;
  - InvalidOperationException → `InvalidOperation`.
- **Fresh values are parameters.**
  - `Guid.NewGuid()` becomes a caller-supplied `newId` or `newTag`.
  - On Update, a precondition requires that the new ETag differs from the old one.
  - The ETag that `NEWID()` gives a shifted relation row is `stamp(id)`, for a caller-supplied function `stamp`.
- **A Guid is its 128-bit value.** `Guid.ToString()` is the value's 32 hexadecimal digits in the 8-4-4-4-12 grouping. `Guid.Empty` is 0.
- **`ITimeStamped`** is a flag in the record metadata.
- **Scopes in the relation table.**
  - A scope is one side of a link, that side's Id and the handler's TypeId.
  - FirstSortOrder ranks the links that share a FirstId. SecondSortOrder ranks those that share a SecondId.
  - This follows the WHERE clauses at ManyToManyTableHandler.cs lines 59 and 210.
  - The non-null ranks of a scope form a multiset (`Ranks`). "Contiguous" means that multiset is exactly {1..n} (`Interval(n)`).
- **The relation handler's code is commented out** in the source (ManyToManyTableHandler.cs lines 47-310), except `FirstOrSecond`. It is modelled as it is written.
  - The base-class calls `Create`, `Update`, `Read` and `SearchWhereTheOnlyOne` are synchronous members that are not part of this model. They are modelled after `CreateAsync`, `UpdateAsync` and `ReadAsync` of `SingleTableHandler`.
  - `SearchWhereTheOnlyOne` is taken as "the first row that matches".
- **The other handlers that `MaybeUpdatePrimaryId` talks to are `Endpoint` values.** An `Endpoint` holds the set of item Ids in that table and the answer of `NameOfPrimaryIdColumn(typeId)`. The `UpdatePrimaryId` calls are returned as a list of `PrimaryUpdate` notices.

### Where the code differs from its documentation

The model follows the code in each of these cases.

- **`Validate` checks only that the ETag is not null.** An empty ETag string passes, because the test is "not the default value".
- **`SearchWhereSingle` does not throw when several rows match**, although ISearch.cs:78 says it does. It fetches one row at offset 0, which `SingleOrDefault` then accepts (`SearchAdvancedSingle`).
- **A requested rank beyond the end of a scope is not clamped** to the last place, although ManyToManyTableHandler.cs lines 75-76 say it is. Nothing is shifted, and the scope is left with a gap (`InsertBeyondEndLeavesGap`).
- **A move to a null rank goes to the last place, the current maximum.** An insertion at a null rank goes one past it (`Target`).

## Model

| member | source | states |
|---|---|---|
| `Helper.NonCustomColumnNames` | src/Libraries2.Storage.SqlServer/Logic/Helper.cs:27-34 | The system columns are exactly Id, ETag without the time-stamp marker. With it they are Id, ETag, CreatedAt, UpdatedAt. |
| `Helper.AllColumnNames` | src/Libraries2.Storage.SqlServer/Logic/Helper.cs:36-41 | The column names are the system columns followed by the custom columns in their order. There are at least two, and they start with Id, ETag. |
| `Helper.ColumnList` | src/Libraries2.Storage.SqlServer/Logic/Helper.cs:21 | The column list starts with `[Id], [ETag]`. `ColumnListsAlign` gives the rest: one bracketed entry per column, in column order. |
| `Helper.ArgumentList` | src/Libraries2.Storage.SqlServer/Logic/Helper.cs:23 | The argument list starts with `@Id, @ETag`, and has one parameter entry per column (see `ColumnListsAlign`). |
| `Helper.UpdateList` | src/Libraries2.Storage.SqlServer/Logic/Helper.cs:25 | The update list starts with `[Id]=@Id, [ETag]=@ETag`, and has one assignment entry per column (see `ColumnListsAlign`). |
| `Helper.ColumnListsAlign` | src/Libraries2.Storage.SqlServer/Logic/Helper.cs:21-25 | Splitting each list at ", " gives one entry per column, in column order. Entry i is `[n]`, `@n` and `[n]=@n` for column n, and the update entry is the column entry, `=`, and the argument entry. |
| `Helper.Create` | src/Libraries2.Storage.SqlServer/Logic/Helper.cs:10 | The INSERT text starts with `INSERT INTO dbo.[` and ends with `)`. `CreateBindsEveryColumn` states what lies between. |
| `Helper.Read` | src/Libraries2.Storage.SqlServer/Logic/Helper.cs:12 | The SELECT text starts with `SELECT ` and ends with ` WHERE ` followed by the filter, verbatim. |
| `Helper.ReadOrdered` | src/Libraries2.Storage.SqlServer/Logic/Helper.cs:14 | The ordered SELECT text starts with `SELECT ` and ends with ` ORDER BY ` followed by the ordering, verbatim. |
| `Helper.CreateBindsEveryColumn` | src/Libraries2.Storage.SqlServer/Logic/Helper.cs:10 | The INSERT text is `INSERT INTO dbo.[T] (` + column list + `) values (` + argument list + `)`. Both parenthesised parts split into the per-column entries, so every column is named and bound. |
| `Helper.ReadOrderedExtendsRead` | src/Libraries2.Storage.SqlServer/Logic/Helper.cs:12-14 | The ordered SELECT is the plain SELECT followed by ` ORDER BY ` and the ordering. |
| `Helper.Update` | src/Libraries2.Storage.SqlServer/Logic/Helper.cs:17 | As written, the UPDATE compares the ETag with `==`. Its text is the UPDATE head ending in `ETag == '`, then the old ETag, then a closing quote (see Findings). |
| `Helper.UpdateCorrected` | src/Libraries2.Storage.SqlServer/Logic/Helper.cs:17 | The UPDATE as evidently intended: the same text with the ETag compared by `=`. |
| `Helper.UpdateEmbedsOldETag` | src/Libraries2.Storage.SqlServer/Logic/Helper.cs:17 | Whichever operator compares the ETag, the UPDATE text is the head followed by the old ETag between single quotes, and the old ETag can be read back from the end. Two old ETags give the same text exactly when they are equal. |
| `Helper.Delete` | src/Libraries2.Storage.SqlServer/Logic/Helper.cs:19 | The DELETE text starts with `DELETE FROM [` and ends with ` WHERE Id = @Id`. |
| `Helper.DeleteFiltersOnIdOnly` | src/Libraries2.Storage.SqlServer/Logic/Helper.cs:19 | The DELETE text ends in ` WHERE Id = @Id`. Two record types give the same DELETE text exactly when they have the same table name. |
| `Text.SplitJoin` | src/Libraries2.Storage.SqlServer/Logic/Helper.cs:21 | `string.Join(", ", xs)` is inverted by splitting at ", " whenever no entry contains a comma. |
| `Text.Join` | src/Libraries2.Storage.SqlServer/Logic/Helper.cs:21-25 | A join of at least one element starts with the first element. `SplitJoin` is its inverse. |
| `Text.IsNullOrWhiteSpace` | src/Libraries2.Storage.SqlServer/Logic/SingleTableHandler.cs:268 | Null and the empty string are null or white space. A string that is neither holds a character that is not white space. |
| `Text.DecimalText` | src/Libraries2.Storage.SqlServer/Logic/SingleTableHandler.cs:274 | The rendering of a non-negative offset or limit is non-empty, all digits, and has no leading zero. |
| `Text.DecimalTextInjective` | src/Libraries2.Storage.SqlServer/Logic/SingleTableHandler.cs:274 | Two offsets, or two limits, render the same only if they are equal. |
| `Guids.GuidText` | src/Libraries2.Storage.SqlServer/Model/DatabaseItem.cs:40 | The text form of a Guid has 36 characters. |
| `Guids.GuidTextRoundTrip` | src/Libraries2.Storage.SqlServer/Model/DatabaseItem.cs:40 | The text form of a Guid parses back to that Guid. |
| `Guids.GuidTextInjective` | src/Libraries2.Storage.SqlServer/Logic/SingleTableHandler.cs:43 | Two Guids have the same text form if and only if they are equal, so a fresh ETag text differs from the text of any other Guid. |
| `Items.DatabaseItem.constructor` | src/Libraries2.Storage.SqlServer/Model/DatabaseItem.cs:16-19 | A new object has the default Id (`Guid.Empty`) and a null ETag. |
| `Items.DatabaseItem.Validate` | src/Libraries2.Storage.SqlServer/Model/DatabaseItem.cs:31-35 | Validation fails on Id exactly when the Id is the empty Guid. It fails on ETag exactly when the Id is set and the ETag is null. It passes exactly when the row is persistable. |
| `Items.DatabaseItem.ToString` | src/Libraries2.Storage.SqlServer/Model/DatabaseItem.cs:38-41 | The text form has 36 characters and parses back to the Id. |
| `Items.DatabaseItemEquality` | src/Libraries2.Storage.SqlServer/Model/DatabaseItem.cs:44-48 | Equals holds exactly when the other object is not null and has the same Id. It is reflexive, symmetric and transitive, and false for null. |
| `Items.DatabaseItemHashConsistent` | src/Libraries2.Storage.SqlServer/Model/DatabaseItem.cs:51-55 | Objects that are equal have the same hash code, whatever their ETags and other values. |
| `Items.DatabaseItemTextIdentifies` | src/Libraries2.Storage.SqlServer/Model/DatabaseItem.cs:38-48 | Two objects have the same text form if and only if they are equal. |
| `Items.TableItem.constructor` | src/Libraries2.Storage.SqlServer/Model/TableItem.cs:16-19 | A new object has the default Id and a null ETag. |
| `Items.TableItem.Validate` | src/Libraries2.Storage.SqlServer/Model/TableItem.cs:31-35 | The same three if-and-only-if outcomes as `DatabaseItem.Validate`. |
| `Items.TableItem.ToString` | src/Libraries2.Storage.SqlServer/Model/TableItem.cs:38-41 | The text form has 36 characters and parses back to the Id. |
| `Items.TableItemEquality` | src/Libraries2.Storage.SqlServer/Model/TableItem.cs:44-48 | Equals holds exactly when the other object is not null and has the same Id. It is an equivalence, and false for null. |
| `Items.TableItemHashConsistent` | src/Libraries2.Storage.SqlServer/Model/TableItem.cs:51-55 | Objects that are equal have the same hash code. |
| `Items.TableItemTextIdentifies` | src/Libraries2.Storage.SqlServer/Model/TableItem.cs:38-48 | Two objects have the same text form if and only if they are equal. |
| `SingleTable.FindById` | src/Libraries2.Storage.SqlServer/Logic/SingleTableHandler.cs:74 | The lookup by Id finds nothing exactly when no row has the Id. Otherwise it finds a row of the table with that Id. |
| `SingleTable.Filter` | src/Libraries2.Storage.SqlServer/Logic/SingleTableHandler.cs:250 | `WHERE (where)` keeps exactly the rows of the table that satisfy the condition, and never more rows than the table has. |
| `SingleTable.FilterByIdAtMostOne` | src/Libraries2.Storage.SqlServer/Logic/SingleTableHandler.cs:74 | On a table with distinct Ids, a condition that implies one Id selects at most one row. |
| `SingleTable.SortByKey` | src/Libraries2.Storage.SqlServer/Logic/SingleTableHandler.cs:273 | ORDER BY returns a permutation of its input. |
| `SingleTable.SortByKeySorted` | src/Libraries2.Storage.SqlServer/Logic/SingleTableHandler.cs:273 | ORDER BY returns its input sorted by the key, and rows of equal key in the order the database picks for that query. |
| `SingleTable.SortedUnique` | src/Libraries2.Storage.SqlServer/Logic/SingleTableHandler.cs:273 | Two arrangements of the same rows, both sorted under an order that tells every two rows apart, are the same arrangement. |
| `SingleTable.TiesIrrelevant` | src/Libraries2.Storage.SqlServer/Logic/SingleTableHandler.cs:273 | When the key tells the matching rows apart, the order the database picks among ties does not change the result. |
| `SingleTable.EveryOrderReachable` | src/Libraries2.Storage.SqlServer/Logic/SingleTableHandler.cs:269-273 | Every arrangement of distinct rows that is sorted by the key is the result under some order among ties. ORDER BY promises sortedness and nothing more. |
| `SingleTable.TiesCanRepeatARow` | src/Libraries2.Storage.SqlServer/Logic/SingleTableHandler.cs:269-274 | With two rows of equal key, the first page of one execution and the second page of another can return the same row, so the other row is never returned. |
| `SingleTable.SortShort` | src/Libraries2.Storage.SqlServer/Logic/SingleTableHandler.cs:67-75 | Sorting zero rows or one row leaves them as they are. |
| `SingleTable.FirstIsLeast` | src/Libraries2.Storage.SqlServer/Logic/SingleTableHandler.cs:205-209 | The first row after sorting is one of the rows, and no row has a smaller key. |
| `SingleTable.Window` | src/Libraries2.Storage.SqlServer/Logic/SingleTableHandler.cs:274 | OFFSET/FETCH returns at most `limit` rows, and row i of the page is row offset + i of the input. Past the end it returns none. Otherwise it returns `limit` rows or the rest of the input, whichever is shorter. |
| `SingleTable.Run` | src/Libraries2.Storage.SqlServer/Logic/SingleTableHandler.cs:272-276 | The paged query fails with ExecutionFailed exactly when the limit is 0. Otherwise it returns at most `limit` rows, sorted by the query's key, each a row of the table that satisfies the statement's condition. |
| `SingleTable.RunCount` | src/Libraries2.Storage.SqlServer/Logic/SingleTableHandler.cs:229-230 | The count is at most the size of the table. It is 0 exactly when no row satisfies the condition. |
| `SingleTable.PagesTile` | src/Libraries2.Storage.SqlServer/Logic/SingleTableHandler.cs:274 | The window at o of length l1, followed by the window at o + l1 of length l2, is the window at o of length l1 + l2. |
| `SingleTable.SingleOrDefault` | src/Libraries2.Storage.SqlServer/Logic/SingleTableHandler.cs:209 | On zero rows the result is null, on one row it is that row, and on more it fails with InvalidOperation. |
| `SingleTable.WhereSelect` | src/Libraries2.Storage.SqlServer/Logic/SingleTableHandler.cs:248-250 | The statement selects exactly the condition's rows (every row when there is none). Its text starts with `SELECT * FROM [` and is not blank, and its first column is the table's first column. |
| `SingleTable.PagedQuery` | src/Libraries2.Storage.SqlServer/Logic/SingleTableHandler.cs:263-274 | The query is built exactly when offset ≥ 0, limit ≥ 0, and the statement is neither null nor white space; otherwise it fails with InvalidArgument. A zero limit passes. The query keeps the statement's rows, the offset and the limit. It sorts by the ordering's key, or, without an ordering (`ORDER BY 1`), by the statement's first column. |
| `SingleTable.UnorderedPagedQuery` | src/Libraries2.Storage.SqlServer/Logic/SingleTableHandler.cs:269-274 | Without an ordering, the text is `<statement>  ORDER BY 1 OFFSET o ROWS FETCH NEXT l ROWS ONLY` (two spaces), and the sort key is the statement's first column. |
| `SingleTable.DefaultWhereSelect` | src/Libraries2.Storage.SqlServer/Logic/SingleTableHandler.cs:248-250 | Without a condition, the statement is `SELECT * FROM [T] WHERE (1=1)`. It selects every row and is not white space. |
| `SingleTable.CountAdvancedQuery` | src/Libraries2.Storage.SqlServer/Logic/SingleTableHandler.cs:221-226 | The count is built exactly when neither part is null or white space; otherwise it fails with InvalidArgument. It counts the rows of the rest fragment. |
| `SingleTable.CountWhereQuery` | src/Libraries2.Storage.SqlServer/Logic/SingleTableHandler.cs:213-218 | The count of a condition always builds, and counts the rows of the condition (all rows when there is none). |
| `SingleTable.DefaultCountQuery` | src/Libraries2.Storage.SqlServer/Logic/SingleTableHandler.cs:215-217 | Without a condition, the count is `SELECT COUNT(*) FROM [T] WHERE (1=1)` and counts every row. |
| `SingleTable.AppendNewRow` | src/Libraries2.Storage.SqlServer/Logic/SingleTableHandler.cs:47 | Inserting a persistable row with a new Id keeps the Ids distinct and every row persistable, and the row is then found by its Id. |
| `SingleTable.WithoutId` | src/Libraries2.Storage.SqlServer/Logic/SingleTableHandler.cs:62 | After the DELETE, no row has the Id, and exactly the rows with other Ids remain. |
| `SingleTable.ReplaceById` | src/Libraries2.Storage.SqlServer/Logic/SingleTableHandler.cs:95 | The written table has the same length. Each row with the record's Id is replaced by the record, and every other row is unchanged. |
| `SingleTable.GuardedWrite` | src/Libraries2.Storage.SqlServer/Logic/SingleTableHandler.cs:95-96 | The guarded UPDATE keeps the table's length and writes nothing but the record. It reports at most as many rows as the table has, and when it reports none, the table is unchanged. |
| `SingleTable.GuardedWriteHits` | src/Libraries2.Storage.SqlServer/Logic/SingleTableHandler.cs:95-96 | When the stored row still has the old ETag, the guarded UPDATE replaces exactly that row and reports one row affected. |
| `SingleTable.GuardedWriteMisses` | src/Libraries2.Storage.SqlServer/Logic/SingleTableHandler.cs:95-96 | When the stored row has another ETag, the guarded UPDATE changes nothing and reports zero rows affected. |
| `SingleTable.ReplacedIsFound` | src/Libraries2.Storage.SqlServer/Logic/SingleTableHandler.cs:82 | After the write, reading the Id back returns the written record. |
| `SingleTable.SingleTableHandler.constructor` | src/Libraries2.Storage.SqlServer/Logic/SingleTableHandler.cs:25-28 | A new handler has an empty, valid table, has sent nothing, and knows the key of the table's first column. |
| `SingleTable.SingleTableHandler.CountItemsAdvanced` | src/Libraries2.Storage.SqlServer/Logic/SingleTableHandler.cs:221-232 | The call succeeds exactly when neither part is null or white space, and then returns the number of rows the fragment selects. Otherwise it fails with InvalidArgument. |
| `SingleTable.SingleTableHandler.CountItemsWhere` | src/Libraries2.Storage.SqlServer/Logic/SingleTableHandler.cs:213-218 | Returns the number of rows the condition selects, and the size of the table when there is no condition. |
| `SingleTable.SingleTableHandler.SearchInternal` | src/Libraries2.Storage.SqlServer/Logic/SingleTableHandler.cs:263-278 | The call succeeds exactly when offset ≥ 0, limit > 0 and the statement is not null or white space. A negative offset or limit or a blank statement fails with InvalidArgument, and a zero limit with ExecutionFailed. It returns at most `limit` rows: the window of the statement's rows sorted by the ordering, or by the statement's first column without one. |
| `SingleTable.SingleTableHandler.SearchInternalWhere` | src/Libraries2.Storage.SqlServer/Logic/SingleTableHandler.cs:243-251 | The call succeeds exactly when offset ≥ 0 and limit > 0. A negative offset or limit fails with InvalidArgument, and a zero limit with ExecutionFailed. It returns the window of the condition's rows (all rows without one), sorted by the ordering or by the table's first column. |
| `SingleTable.SingleTableHandler.Envelope` | src/Libraries2.Storage.SqlServer/Logic/SingleTableHandler.cs:168-179 | The envelope holds the data. Returned is the data's length, and Offset, Limit and Total are echoed. |
| `SingleTable.SingleTableHandler.SearchWhere` | src/Libraries2.Storage.SqlServer/Logic/SingleTableHandler.cs:151-180 | This covers both overloads. The call succeeds exactly when offset ≥ 0 and limit > 0, with the failures of `SearchInternalWhere`. The data are the window of the sorted matching rows. PageInfo is (offset, limit, length of data, number of matching rows), and Returned ≤ limit. |
| `SingleTable.SingleTableHandler.SearchAll` | src/Libraries2.Storage.SqlServer/Logic/SingleTableHandler.cs:118-124 | The call succeeds exactly when offset ≥ 0 and limit > 0, with the failures of `SearchWhere`. It returns the window of the whole sorted table, and Total is the table's size. |
| `SingleTable.SingleTableHandler.SearchAdvanced` | src/Libraries2.Storage.SqlServer/Logic/SingleTableHandler.cs:127-148 | The call succeeds exactly when offset ≥ 0, limit > 0, the count text and the rest fragment are not blank, and `selectFirst` is not blank. A negative offset or limit or a blank count text or rest fragment fails with InvalidArgument. A zero limit, or a null or blank `selectFirst` (which the code does not check, leaving a statement that starts with FROM), fails at the database with ExecutionFailed. The data are sorted by the ordering, or by the first column `selectFirst` lists. Data and Total are taken over the same rest fragment, with PageInfo as for `SearchWhere`. |
| `SingleTable.SingleTableHandler.SearchFirstAdvanced` | src/Libraries2.Storage.SqlServer/Logic/SingleTableHandler.cs:205-210 | The call succeeds exactly when the statement is not blank; otherwise it fails with InvalidArgument. It returns null exactly when no row matches. Otherwise it returns a matching row whose key is the least among the matching rows, namely the first sorted row. |
| `SingleTable.SingleTableHandler.SearchFirstWhere` | src/Libraries2.Storage.SqlServer/Logic/SingleTableHandler.cs:198-202 | Always succeeds. It returns null exactly when no row satisfies the condition. Otherwise it returns a matching row with the least key, namely the first sorted row. |
| `SingleTable.SingleTableHandler.SearchAdvancedSingle` | src/Libraries2.Storage.SqlServer/Logic/SingleTableHandler.cs:191-195 | The call succeeds exactly when the statement is not blank. It returns null exactly when no row matches. Otherwise it returns a matching row whose first column is the least among the matching rows. Several matches are not an error. |
| `SingleTable.SingleTableHandler.SearchWhereSingle` | src/Libraries2.Storage.SqlServer/Logic/SingleTableHandler.cs:183-188 | Always succeeds. It returns null exactly when no row satisfies the condition. Otherwise it returns a matching row whose first column is the least among the matching rows. |
| `SingleTable.SingleTableHandler.Read` | src/Libraries2.Storage.SqlServer/Logic/SingleTableHandler.cs:67-75 | The empty Guid fails with InvalidArgument. Any other Id returns the row with that Id, or null. At most one row matches, so the order among ties plays no part. |
| `SingleTable.SingleTableHandler.Create` | src/Libraries2.Storage.SqlServer/Logic/SingleTableHandler.cs:33-50 | An empty Id is replaced by the fresh one, and a set Id is kept. The ETag becomes the fresh tag's text, after which the object validates. The INSERT is sent. A taken Id fails and leaves the table unchanged. Otherwise the row is appended and read back. |
| `SingleTable.SingleTableHandler.InternalUpdate` | src/Libraries2.Storage.SqlServer/Logic/SingleTableHandler.cs:86-98 | An invalid object fails with ValidationFailed, a missing row with NotFound, and a stored ETag that differs with Conflict. Each of these leaves the table, the statements and the object's ETag unchanged. Otherwise the object gets the fresh ETag, and the UPDATE guarded by the old ETag and written with the given comparison is sent. With `=` the row is replaced; with any other operator the database refuses the statement (ExecutionFailed) and the table is unchanged. |
| `SingleTable.SingleTableHandler.Update` | src/Libraries2.Storage.SqlServer/Logic/SingleTableHandler.cs:78-98 | This is the corrected Update, comparing the ETag with `=` (see Findings). The refusals are those of `InternalUpdate`, each leaving the table, the statements and the object's ETag unchanged. Otherwise the object gets the fresh ETag, the guarded UPDATE is sent, the row is replaced, and the result is the row read back. |
| `SingleTable.SingleTableHandler.UpdateAsWritten` | src/Libraries2.Storage.SqlServer/Logic/SingleTableHandler.cs:78-98 | As written, no update ever changes the table. The refusals are those of `InternalUpdate`; on them nothing is sent and the object keeps its ETag. An object that passes them gets the fresh ETag, the `==` UPDATE is sent, and the call fails with ExecutionFailed. |
| `SingleTable.SingleTableHandler.Delete` | src/Libraries2.Storage.SqlServer/Logic/SingleTableHandler.cs:53-64 | The empty Guid fails with InvalidArgument before anything is sent. Any other Id sends the DELETE and removes exactly the rows with that Id; an absent Id is no error. |
| `SingleTable.ConsecutivePages` | src/Libraries2.Storage.SqlServer/Logic/SingleTableHandler.cs:165-179 | Take a key that tells the matching rows apart. Each page succeeds exactly when its limit is positive. Two consecutive pages then concatenate to the combined page, even when each of the three queries orders ties differently, and all of them report the same Total. |
| `SingleTable.FullPage` | src/Libraries2.Storage.SqlServer/Logic/SingleTableHandler.cs:165-179 | A limit of 0 fails with ExecutionFailed. A positive limit of at least Total, from offset 0, returns every matching row exactly once, and Returned equals Total. |
| `SingleTable.PageMatchesAndIsOrdered` | src/Libraries2.Storage.SqlServer/Logic/SingleTableHandler.cs:272-274 | The page succeeds exactly when the limit is positive. Every row of the page is then a table row that satisfies the condition, and the page is sorted by the ordering, or by the first column without one. |
| `SingleTable.LostUpdateRefused` | src/Libraries2.Storage.SqlServer/Logic/SingleTableHandler.cs:89-96 | Two objects are read with the same ETag. The first (corrected) update succeeds. The second fails with Conflict and leaves the first one's row in the table. |
| `ManyToMany.FirstOrSecondDistinct` | src/Libraries2.Storage.SqlServer/ToDo/Logic/ManyToManyTableHandler.cs:41-44 | The two sides have different column prefixes, and so different SortOrder columns. |
| `ManyToMany.FirstOrSecond` | src/Libraries2.Storage.SqlServer/ToDo/Logic/ManyToManyTableHandler.cs:41-44 | The prefix is "First" exactly for the First side, and "Second" exactly for the other. |
| `ManyToMany.MaxRank` | src/Libraries2.Storage.SqlServer/ToDo/Logic/ManyToManyTableHandler.cs:59 | `MAX(...)` is NULL exactly when the scope has no non-null rank. Otherwise it is a rank of the scope, and it is at least every rank of the scope. |
| `ManyToMany.ContiguousMax` | src/Libraries2.Storage.SqlServer/ToDo/Logic/ManyToManyTableHandler.cs:59-60 | On a scope holding 1..n, the maximum read back is n, with NULL read as 0. |
| `ManyToMany.WithRank` | src/Libraries2.Storage.SqlServer/ToDo/Logic/ManyToManyTableHandler.cs:158 | Writing one side's rank changes that rank alone. |
| `ManyToMany.ShiftOne` | src/Libraries2.Storage.SqlServer/ToDo/Logic/ManyToManyTableHandler.cs:209-210 | A row outside the scope is untouched. Every row keeps its Ids, its type and its other side's rank. |
| `ManyToMany.ShiftRows` | src/Libraries2.Storage.SqlServer/ToDo/Logic/ManyToManyTableHandler.cs:209-210 | The shift is applied to each row in place, and the table length is kept. |
| `ManyToMany.ShiftCount` | src/Libraries2.Storage.SqlServer/ToDo/Logic/ManyToManyTableHandler.cs:209-210 | After shifting lo..hi by delta, the scope holds rank k once for each row that held k outside the range, plus once for each row that held k − delta inside it. |
| `ManyToMany.ShiftOtherScope` | src/Libraries2.Storage.SqlServer/ToDo/Logic/ManyToManyTableHandler.cs:210 | A shift leaves unchanged the ranks of every other scope: another side, another Id or another type. |
| `ManyToMany.ShiftNoneAbove` | src/Libraries2.Storage.SqlServer/ToDo/Logic/ManyToManyTableHandler.cs:200 | When every rank of the scope is below lo, the open-ended shift from lo changes no row. |
| `ManyToMany.ShiftKeepsLinks` | src/Libraries2.Storage.SqlServer/ToDo/Logic/ManyToManyTableHandler.cs:209 | A shift keeps the set of link Ids and the primary key. |
| `ManyToMany.ShiftedLink` | src/Libraries2.Storage.SqlServer/ToDo/Logic/ManyToManyTableHandler.cs:209 | A link in the shifted range is found afterwards with its rank moved by delta and the ETag that NEWID() gave it. |
| `ManyToMany.FindLink` | src/Libraries2.Storage.SqlServer/Logic/SingleTableHandler.cs:89 | The lookup by link Id finds nothing exactly when the Id is absent. Otherwise it finds a row of the table with that Id. |
| `ManyToMany.SetRank` | src/Libraries2.Storage.SqlServer/ToDo/Logic/ManyToManyTableHandler.cs:158 | Only the link with the Id gets the new rank, on the given side. The length and the set of link Ids are kept. |
| `ManyToMany.SetRankCount` | src/Libraries2.Storage.SqlServer/ToDo/Logic/ManyToManyTableHandler.cs:158 | Writing v over the rank r of a link in the scope trades one r for one v among the scope's ranks. |
| `ManyToMany.SetRankKeepsLinks` | src/Libraries2.Storage.SqlServer/ToDo/Logic/ManyToManyTableHandler.cs:158 | Writing a rank keeps the primary key, and the link is found again with its new rank. |
| `ManyToMany.InsertKeepsContiguity` | src/Libraries2.Storage.SqlServer/ToDo/Logic/ManyToManyTableHandler.cs:199-201 | Take a scope holding 1..n and a rank r with 1 ≤ r ≤ n + 1. After shifting r and up by one, adding r gives exactly 1..n + 1. |
| `ManyToMany.InsertBeyondEndLeavesGap` | src/Libraries2.Storage.SqlServer/ToDo/Logic/ManyToManyTableHandler.cs:75-76 | A rank beyond n + 1 is not clamped. Nothing shifts, and the scope does not hold 1..n + 1 afterwards. |
| `ManyToMany.MoveRightKeepsContiguity` | src/Libraries2.Storage.SqlServer/ToDo/Logic/ManyToManyTableHandler.cs:189-192 | A move from c to a larger t in a scope holding 1..n shifts c..t down by one and writes t, and the scope then holds exactly 1..n. |
| `ManyToMany.MoveLeftKeepsContiguity` | src/Libraries2.Storage.SqlServer/ToDo/Logic/ManyToManyTableHandler.cs:193-196 | A move from c to a smaller t shifts t..c up by one and writes t, and the scope then holds exactly 1..n. |
| `ManyToMany.Target` | src/Libraries2.Storage.SqlServer/ToDo/Logic/ManyToManyTableHandler.cs:182-188 | The rank returned is the requested rank. For a null request it is max + 1 when inserting and max when moving, with NULL read as 0. |
| `ManyToMany.Room` | src/Libraries2.Storage.SqlServer/ToDo/Logic/ManyToManyTableHandler.cs:180-202 | Making room keeps the link Ids and the primary key. Rows outside the scope are untouched, and every row's Ids and other rank are kept. A null insertion and a move to the current rank change nothing. |
| `ManyToMany.InsertRoomKeepsContiguity` | src/Libraries2.Storage.SqlServer/ToDo/Logic/ManyToManyTableHandler.cs:180-202 | Take a scope holding 1..n and a requested rank that is null or in 1..n + 1. The rank returned is that rank, with null read as n + 1. That rank plus the scope's ranks after the shift is exactly 1..n + 1. |
| `ManyToMany.MoveKeepsContiguity` | src/Libraries2.Storage.SqlServer/ToDo/Logic/ManyToManyTableHandler.cs:184-198 | Take a scope holding 1..n and a requested rank that is null or in 1..n. The target lies in 1..n, and is n for null. After the room is made and the link's rank written, the scope holds exactly 1..n. |
| `ManyToMany.MoveTargetInRange` | src/Libraries2.Storage.SqlServer/ToDo/Logic/ManyToManyTableHandler.cs:187 | In a scope holding 1..n, the current rank of a link and its move target both lie in 1..n. |
| `ManyToMany.Restamp` | src/Libraries2.Storage.SqlServer/Logic/SingleTableHandler.cs:92 | The rows with the Id get the new ETag, and nothing else changes. The link Ids and the primary key are kept. |
| `ManyToMany.RestampKeepsRanks` | src/Libraries2.Storage.SqlServer/Logic/SingleTableHandler.cs:92 | A new ETag changes no scope's ranks. |
| `ManyToMany.ReplaceLink` | src/Libraries2.Storage.SqlServer/Logic/SingleTableHandler.cs:95 | The rows with the link's Id are replaced by the link, and the others are unchanged. |
| `ManyToMany.UpdateLink` | src/Libraries2.Storage.SqlServer/Logic/SingleTableHandler.cs:89-96 | The update fails exactly when the link's Id is absent (NotFound) or the stored ETag differs (Conflict). Otherwise it writes the link with the new ETag, and the link is then found with it. |
| `ManyToMany.MoveAsWritten` | src/Libraries2.Storage.SqlServer/ToDo/Logic/ManyToManyTableHandler.cs:174 | A move as written fails only with NotFound or Conflict. When it succeeds, the link is found with the new ETag. `MoveAsWrittenConflicts` shows that it fails whenever the move shifts anything. |
| `ManyToMany.MoveAsWrittenConflicts` | src/Libraries2.Storage.SqlServer/ToDo/Logic/ManyToManyTableHandler.cs:174 | Take a move that shifts anything, of a link whose ETag is not the one the shift gives. The Update of the link as read is refused with Conflict. |
| `ManyToMany.Stored` | src/Libraries2.Storage.SqlServer/Logic/SingleTableHandler.cs:42-43 | The stored link has a set Id (its own when it had one) and the fresh ETag, and is otherwise the given link. |
| `ManyToMany.LinkIdsAppend` | src/Libraries2.Storage.SqlServer/Logic/SingleTableHandler.cs:47 | Appending a link adds its Id to the link Ids. A new Id keeps the primary key. |
| `ManyToMany.Persist` | src/Libraries2.Storage.SqlServer/Logic/SingleTableHandler.cs:40-50 | The insert fails with ExecutionFailed, changing nothing, exactly when the stored Id is taken. Otherwise the stored link is appended and returned. The primary key is kept. |
| `ManyToMany.Placed` | src/Libraries2.Storage.SqlServer/ToDo/Logic/ManyToManyTableHandler.cs:79-80 | Placing a new link keeps the link Ids and the primary key. It changes only the new link's two ranks, and the first of them is the First side's target. |
| `ManyToMany.CreateKeepsContiguity` | src/Libraries2.Storage.SqlServer/ToDo/Logic/ManyToManyTableHandler.cs:77-84 | With the second room made on the Second side, take First and Second scopes holding 1..n1 and 1..n2, and requested ranks that are null or at most one past the end. The new link gets the requested ranks (null reads as last), and the scopes afterwards hold exactly 1..n1 + 1 and 1..n2 + 1. |
| `ManyToMany.CreateAsWrittenRepeatsRank` | src/Libraries2.Storage.SqlServer/ToDo/Logic/ManyToManyTableHandler.cs:80 | As written, on the example, the new link is ranked 1 among the links to item 2, and that scope holds rank 1 twice. |
| `ManyToMany.CreateIntendedOnExample` | src/Libraries2.Storage.SqlServer/ToDo/Logic/ManyToManyTableHandler.cs:79-80 | The intended Create on the same example ranks the new link 2, and that scope holds exactly 1..2. |
| `ManyToMany.FindPair` | src/Libraries2.Storage.SqlServer/ToDo/Logic/ManyToManyTableHandler.cs:63-67 | The search finds nothing exactly when no row links the pair under the type. Otherwise it finds such a row, and it is the row with that link Id. |
| `ManyToMany.MaybeUpdatePrimaryId` | src/Libraries2.Storage.SqlServer/ToDo/Logic/ManyToManyTableHandler.cs:86-115 | Rank 1 on the First side notifies the Second table (Second item gets FirstId), if that table has a primary-id column. Rank 1 on the Second side notifies the First table symmetrically, and only when the first check did not fail. A missing item is an AssertionFailed that ends the operation. At most the two notices are sent. |
| `ManyToMany.Unrelated` | src/Libraries2.Storage.SqlServer/ToDo/Logic/ManyToManyTableHandler.cs:222-229 | A link remains exactly when it was in the table and is not a link of the type with the Id on either side. The primary key is kept. |
| `ManyToMany.UnrelatedKeepsOtherTypes` | src/Libraries2.Storage.SqlServer/ToDo/Logic/ManyToManyTableHandler.cs:226 | The cascade leaves the ranks of every scope of another relation type unchanged. |
| `ManyToMany.ExecuteCascade` | src/Libraries2.Storage.SqlServer/ToDo/Logic/ManyToManyTableHandler.cs:226 | With the type's Guid unquoted, the DELETE fails with ExecutionFailed. Quoted, it keeps exactly the links that do not refer to the Id under the type. |
| `ManyToMany.SortOrderUpdate` | src/Libraries2.Storage.SqlServer/ToDo/Logic/ManyToManyTableHandler.cs:129-178 | The whole update keeps the primary key of the relation table. |
| `ManyToMany.StoredKeepsRanks` | src/Libraries2.Storage.SqlServer/Logic/SingleTableHandler.cs:42-43 | A fresh Id and ETag change no scope's ranks. |
| `ManyToMany.RestampFinds` | src/Libraries2.Storage.SqlServer/Logic/SingleTableHandler.cs:92 | After a restamp, the link is found with its new ETag. |
| `ManyToMany.MoveWritesLink` | src/Libraries2.Storage.SqlServer/ToDo/Logic/ManyToManyTableHandler.cs:174 | The link a move returns is exactly the row the move leaves in the table. |
| `ManyToMany.UpdateSortOrderMoveKeepsContiguity` | src/Libraries2.Storage.SqlServer/ToDo/Logic/ManyToManyTableHandler.cs:150-174 | Take a pair that has a link, a scope holding 1..n, and a requested rank that is null or in 1..n. The scope holds exactly 1..n after UpdateSortOrder. |
| `ManyToMany.UpdateSortOrderCreateKeepsContiguity` | src/Libraries2.Storage.SqlServer/ToDo/Logic/ManyToManyTableHandler.cs:134-149 | Take a pair without a link, scopes holding 1..n1 and 1..n2, and a requested rank at most one past the end. After a successful insert, the scopes hold exactly 1..n1 + 1 and 1..n2 + 1. |
| `ManyToMany.Finish` | src/Libraries2.Storage.SqlServer/ToDo/Logic/ManyToManyTableHandler.cs:174-177 | A failed write ends the operation with no notice. A written link goes through MaybeUpdatePrimaryId, whose AssertionFailed replaces the result. |
| `ManyToMany.ManyToManyTableHandler.constructor` | src/Libraries2.Storage.SqlServer/ToDo/Logic/ManyToManyTableHandler.cs:33-39 | A new handler has its table name and type and an empty, valid table. |
| `ManyToMany.ManyToManyTableHandler.ReadMaxSortOrder` | src/Libraries2.Storage.SqlServer/ToDo/Logic/ManyToManyTableHandler.cs:51-61 | Returns 0 when the scope has no non-null rank. Otherwise it returns a rank of the scope that is at least all its ranks. |
| `ManyToMany.ManyToManyTableHandler.ReadByFirstIdAndSecondId` | src/Libraries2.Storage.SqlServer/ToDo/Logic/ManyToManyTableHandler.cs:63-67 | Returns null exactly when no row links the pair under the handler's type. Otherwise it returns such a row. |
| `ManyToMany.ManyToManyTableHandler.ShiftSortOrder` | src/Libraries2.Storage.SqlServer/ToDo/Logic/ManyToManyTableHandler.cs:204-216 | The table becomes the shift of the range by −1 when shifting left and +1 otherwise. The primary key is kept. |
| `ManyToMany.ManyToManyTableHandler.MakeRoomForSortOrder` | src/Libraries2.Storage.SqlServer/ToDo/Logic/ManyToManyTableHandler.cs:180-202 | Returns `Target` and leaves the table as `Room`. |
| `ManyToMany.ManyToManyTableHandler.Insert` | src/Libraries2.Storage.SqlServer/ToDo/Logic/ManyToManyTableHandler.cs:175 | The table and the result are those of `Persist`. |
| `ManyToMany.ManyToManyTableHandler.Create` | src/Libraries2.Storage.SqlServer/ToDo/Logic/ManyToManyTableHandler.cs:77-84 | This is the corrected Create (see Findings). The table is the insert after both rooms are made, and the result and notices are those of `Finish`. |
| `ManyToMany.ManyToManyTableHandler.UpdateSortOrder` | src/Libraries2.Storage.SqlServer/ToDo/Logic/ManyToManyTableHandler.cs:129-178 | The table, the result and the notices are those of `SortOrderUpdate` and `Finish`. Without a link, the pair's link is placed and inserted. An unchanged rank changes nothing. A null current rank fails with InvalidOperation. Otherwise the move is made. |
| `ManyToMany.ManyToManyTableHandler.DeleteRelationshipsForDeletedId` | src/Libraries2.Storage.SqlServer/ToDo/Logic/ManyToManyTableHandler.cs:222-229 | This is the corrected delete, with the type's Guid quoted (see Findings). The table becomes `Unrelated`: exactly the links of other types, or of the type but not touching the Id, remain. |
| `ManyToMany.ManyToManyTableHandler.DeleteRelationshipsForDeletedIdAsWritten` | src/Libraries2.Storage.SqlServer/ToDo/Logic/ManyToManyTableHandler.cs:222-229 | As written, the statement always fails with ExecutionFailed, and the table is unchanged. |

## Left out

- **Database access, connections, Dapper, `async`.** These are I/O. The database is the in-memory table, and the statements run as the functions `Run` and `RunCount`.
- **SQL parsing, and evaluation of caller-supplied `where` and `orderBy` text.** These are foreign to the library. Each fragment carries its meaning as a predicate or a key.
- **Parameter binding** (`param`). It is folded into the predicate of a `Condition`.
- **`Guid.NewGuid()`, `NEWID()`, `GETUTCDATE()`.** These are randomness or a clock. The first two become parameters, and `[RowUpdatedAt]` is not modelled.
- **`ReadAllAsync` and `DeleteAllAsync`.** These are unfinished stubs: an empty body and `NotImplementedException`.
- **The relation handler's search methods** (ManyToManyTableHandler.cs lines 234-308). They are join-query string assembly against other tables, which this model does not hold.
- **`UpdatePrimaryId` and `NameOfPrimaryIdColumn`** of the other handlers. They are calls into code that is not part of this model. Only the decision of which table is notified is modelled.
- **The interfaces, the `PageEnvelope` holder, `SingleManyToMany` and its handler.** They are declarations only, with no behaviour.
- **Concurrency between writers.** A sequential model cannot observe it. Optimistic concurrency is the single guarded UPDATE (`GuardedWrite`), and `LostUpdateRefused` shows its effect on two objects.
- **Statement texts of the relation handler** (MAX, the range UPDATE and the cascading DELETE). Only the rows they select and what they write are modelled.
- **Atomicity.** The rooms made before an insert stay made when the insert then fails, as in the code. No transaction is modelled.
- **Renumbering.** No scope is renumbered after `DeleteRelationshipsForDeletedId`, as in the code, so a delete can leave gaps.
- **How the database rejects a malformed statement.** Only the outcome is modelled: a failure with ExecutionFailed that changes nothing. Which parse or conversion error it reports is left out.
- SingleTable.SingleTableHandler.Update: is the corrected update, comparing the ETag with `=`. As written, every update that passes the guards fails at the database; `UpdateAsWritten` models that (see Findings).
- SingleTable.GuardedWriteHits: is about the guarded UPDATE written with `=`, which is what `Update` sends. The as-written `==` statement never reaches `GuardedWrite`.
- SingleTable.GuardedWriteMisses: is about the guarded UPDATE written with `=`, as for `GuardedWriteHits`.
- ManyToMany.UpdateLink: is the base class's update with the corrected `=` comparison. As written, it too would fail at the database (see Findings).
- ManyToMany.ManyToManyTableHandler.DeleteRelationshipsForDeletedId: is the corrected delete with the Guid quoted. `DeleteRelationshipsForDeletedIdAsWritten` models the statement at line 226 as written (see Findings).
- Window: its contract says nothing about a zero limit, because `Run` refuses such a query before any window is taken.
- **The `int` width of offset and limit.** They are unbounded integers; the code's negative values are refused by the argument contracts.
- ManyToMany.ManyToManyTableHandler.UpdateSortOrder: for a move, the model writes the shifted row directly with its new rank and a fresh ETag. It does not go through the optimistic `Update` of the link as read, which always conflicts (see Findings).
- ManyToMany.SortOrderUpdate: a link whose rank on the moved side is null fails with InvalidOperation, as `.Value` throws in a Release build. The `Debug.Assert` at ManyToManyTableHandler.cs lines 156 and 166, which stops a Debug build first, is not modelled.
- ManyToMany.MaybeUpdatePrimaryId: covers only the decision and the order of the notices. A failing `Read` or `UpdatePrimaryId` in the other handler is not modelled.
- Items.DatabaseItem.Validate: reports the first failing property rather than throwing. The error location and property path only label the message, and are left out.
- **An `int` rank that overflows**, in the source's 32-bit `int`. Ranks are unbounded integers. A scope would need about 2^31 links to reach the limit.

## Findings

| source | as written | input that shows it | evidently intended | confidence | as-written member | corrected member |
|---|---|---|---|---|---|---|
| src/Libraries2.Storage.SqlServer/ToDo/Logic/ManyToManyTableHandler.cs:80 | Create makes room for the SecondSortOrder with `first = true`. It therefore ranks the new link among the links whose **FirstId** is the new link's SecondId. | Table: one link (Id 10, type 7) from item 1 to item 2, ranked 1 on both sides. New link (Id 11) from item 3 to item 2, both ranks null. As written it gets SecondSortOrder 1, and item 2's Second scope holds rank 1 twice. | `false`, as UpdateSortOrder passes at line 146. The new link is then ranked 2, and the scope holds 1..2 (in general 1..n + 1). | not executed | `ManyToMany.CreateAsWrittenRepeatsRank` | `ManyToMany.CreateKeepsContiguity` |
| src/Libraries2.Storage.SqlServer/Logic/Helper.cs:17 | The UPDATE compares the ETag with `ETag == '<old>'`. `==` is not a T-SQL operator, so the statement does not parse. UpdateAsync (SingleTableHandler.cs:95) executes it after every guard has passed. | Any valid object whose row exists and still carries its ETag. The UPDATE fails with a syntax error, the row is not written, and the object has already been given a new ETag (line 92). | `ETag = '<old>'`: the row is replaced when it still carries the old ETag, and the result is the row read back. | not executed | `SingleTable.SingleTableHandler.UpdateAsWritten` | `SingleTable.SingleTableHandler.Update` |
| src/Libraries2.Storage.SqlServer/ToDo/Logic/ManyToManyTableHandler.cs:226 | The cascade DELETE splices the TypeId Guid into the text without quotes: `WHERE TypeId = 1c4f...-... AND ...`. A bare Guid is no T-SQL literal. Its groups read as column names, or as a subtraction of numbers that cannot be compared with a uniqueidentifier. | Any handler and any Id. The statement fails, and no link is removed. | `TypeId = '<typeId>'`, or a bound parameter: every link of the type to or from the Id is removed. | not executed | `ManyToMany.ManyToManyTableHandler.DeleteRelationshipsForDeletedIdAsWritten` | `ManyToMany.ManyToManyTableHandler.DeleteRelationshipsForDeletedId` |
| src/Libraries2.Storage.SqlServer/ToDo/Logic/ManyToManyTableHandler.cs:174 | After a move, `Update(item)` sends the link as it was read. The range shift (line 209) has already given the link's own row a new ETag, so the ETag check at SingleTableHandler.cs:91 fails. | A scope with links ranked 1 and 2; move the rank-1 link to rank 2 (`UpdateSortOrder` with `newSortOrder = 2`). The shift covers ranks 1..2, including the moved link, so its stored ETag no longer matches and the result is Conflict after the shift has been written. | The move writes the new rank over the row as the shift left it. The scope then holds exactly 1..n again. | not executed | `ManyToMany.MoveAsWrittenConflicts` | `ManyToMany.UpdateSortOrderMoveKeepsContiguity` |
