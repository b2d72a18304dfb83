# Azunt.TechnicianManagement — data access and schema reconciliation

This project models the core of Azunt.TechnicianManagement: the `Technician` entity, the two
repository implementations over the `Technicians` table, and the `TechniciansTableBuilder`
that prepares each tenant database. SQL Server is replaced by in-memory state.

- `Store.TechniciansDb` is one database. It holds whether the Technicians table exists, its
  column names, its rows in insertion order, and the next value of the `IDENTITY(1,1)` key.
  Both repositories and the table builder work on objects of this class.
- `EfCore.TechnicianRepository` is the Entity Framework Core repository.
  - `Add` stores a row after every live row (`DisplayOrder = max + 1`); `AddDefault` keeps the caller's `DisplayOrder`.
  - `GetAll` lists live rows in ascending `DisplayOrder`; `GetById` returns `new Technician()` when nothing is found.
  - `Update` overwrites the whole entity, and `Delete` is a soft delete.
  - `GetPage` filters, sorts, counts and then pages.
  - `MoveUp` and `MoveDown` swap `DisplayOrder` with the nearest live neighbour.
- `Dapper.TechnicianRepositoryDapper` is the hand-written SQL repository.
  - Its reads select only five columns and list rows by key descending.
  - Its update writes only `Active` and `Name`, and only on a live row.
  - Its search ignores `sortOrder` and filters in memory.
  - Its reorder operations throw.
- `Backends` compares the two implementations on the same table.
- `Initializers.TechniciansTableBuilder` is the reconciler.
  - A run is described by the list of SQL commands it issues (`Script`).
  - A failure is the position of the command that throws. The commands before it stay applied.
  - Proved: create-if-absent, add-if-missing, columns are only ever added, seed only an empty table, a second run is quiet.
  - The tenant loop carries on past a failing tenant.

Behaviour of the code worth knowing, because the repository interface suggests two interchangeable implementations:
- The EF Core `UpdateAsync` attaches the whole entity as Modified. So it writes every column, `IsDeleted` and `DisplayOrder` included, and it also writes a deleted row (which can undelete it). Only the Dapper update is restricted to `Active` and `Name` on live rows.
- The EF Core search filters only when the query is non-empty. The Dapper search skips filtering for any blank query. A query of spaces therefore behaves differently (`Backends.BlankQueryDiverges`).
- The Dapper repository does not return `DisplayOrder` or `IsDeleted` from its reads, and does not order by `DisplayOrder`. So the two implementations are not behaviourally equivalent.
- `Active` is `BIT NOT NULL` in the created table (TechniciansTableBuilder.cs:96), while the entity's `Active` is nullable. Every add or update that writes a null `Active` into a row fails in SQL Server; the model returns that failure and keeps the table unchanged.
- Nothing in the code wraps `AddAsync`'s read-max-then-insert or the two-row swap in a transaction.

## Model

| member | source | states |
|---|---|---|
| `Technicians.Default` | src/Azunt.TechnicianManagement/Azunt.TechnicianManagement/01_Models/Technician.cs:11-51 | `new Technician()` (the "not found" value) fails the entity's validation: it has no name |
| `Technicians.ValidNameBounds` | src/Azunt.TechnicianManagement/Azunt.TechnicianManagement/01_Models/Technician.cs:43-45 | a valid name has 1 to 100 characters and at least one that is not white space |
| `Store.TechniciansDb.constructor` | src/Azunt.TechnicianManagement/Azunt.TechnicianManagement/05_Initializers/TechniciansTableBuilder.cs:94-95 | a new database has no table, no columns, no rows, and its identity counter starts at 1 |
| `Store.TechniciansDb.InsertRow` | src/Azunt.TechnicianManagement/Azunt.TechnicianManagement/05_Initializers/TechniciansTableBuilder.cs:95 | an INSERT of a row with a non-null `Active` (NOT NULL) appends it with the next identity value as its key, advances the counter by one and keeps the table well formed (keys positive and increasing, `Active` set) |
| `Store.Live` | src/Azunt.TechnicianManagement/Azunt.TechnicianManagement/03_Repositories/EfCore/TechnicianRepository.cs:77 | the result holds exactly the rows that are not soft-deleted, and is no longer than the table |
| `Store.LiveKeepsIdsIncreasing` | src/Azunt.TechnicianManagement/Azunt.TechnicianManagement/03_Repositories/Dapper/TechnicianRepositoryDapper.cs:38-41 | dropping deleted rows keeps keys increasing |
| `Store.Matching` | src/Azunt.TechnicianManagement/Azunt.TechnicianManagement/03_Repositories/EfCore/TechnicianRepository.cs:126 | the result holds exactly the rows whose non-null name contains the query |
| `Store.FindById` | src/Azunt.TechnicianManagement/Azunt.TechnicianManagement/03_Repositories/EfCore/TechnicianRepository.cs:103 | `Find` by key: a found index holds the key; None means no row, deleted or not, has it |
| `Store.FindLive` | src/Azunt.TechnicianManagement/Azunt.TechnicianManagement/03_Repositories/EfCore/TechnicianRepository.cs:87 | a found index holds the key on a live row; None means no live row has the key |
| `Store.LookupByKeyAgrees` | src/Azunt.TechnicianManagement/Azunt.TechnicianManagement/03_Repositories/EfCore/TechnicianRepository.cs:103-104 | with unique keys, finding by key and then testing `IsDeleted` is the same as finding among live rows |
| `Store.FindByIdAt` | src/Azunt.TechnicianManagement/Azunt.TechnicianManagement/03_Repositories/EfCore/TechnicianRepository.cs:103 | with unique keys, the lookup by a row's key finds that row |
| `Store.SoftDeleteOnlySetsFlag` | src/Azunt.TechnicianManagement/Azunt.TechnicianManagement/03_Repositories/EfCore/TechnicianRepository.cs:100-109 | a soft delete keeps the length and every row except that `IsDeleted` is set on the live row with the key; it changes nothing exactly when no live row has the key |
| `Store.SoftDeleteHidesRow` | src/Azunt.TechnicianManagement/Azunt.TechnicianManagement/03_Repositories/EfCore/TechnicianRepository.cs:100-109 | after a delete no live row has the key, and a second delete changes nothing |
| `Store.SoftDeleteKeepsOtherLiveRows` | src/Azunt.TechnicianManagement/Azunt.TechnicianManagement/03_Repositories/EfCore/TechnicianRepository.cs:100-109 | a delete removes exactly the rows with that key from the live rows and keeps every other live row |
| `Store.SameIdsKeepWellFormed` | src/Azunt.TechnicianManagement/Azunt.TechnicianManagement/03_Repositories/Dapper/TechnicianRepositoryDapper.cs:58-80 | rewriting rows in place without touching keys keeps the table well formed |
| `Store.SoftDeleteKeepsWellFormed` | src/Azunt.TechnicianManagement/Azunt.TechnicianManagement/03_Repositories/Dapper/TechnicianRepositoryDapper.cs:71-80 | a soft delete keeps the table well formed |
| `Primitives.Wrap32` | src/Azunt.TechnicianManagement/Azunt.TechnicianManagement/03_Repositories/EfCore/TechnicianRepository.cs:139 | unchecked `int` arithmetic: the result is an `int` congruent to the exact value modulo 2^32, and equal to it when it fits |
| `Text.ContainsIff` | src/Azunt.TechnicianManagement/Azunt.TechnicianManagement/03_Repositories/EfCore/TechnicianRepository.cs:126 | `Contains` holds exactly when the query occurs at some position of the name |
| `Text.ContainsEmpty` | src/Azunt.TechnicianManagement/Azunt.TechnicianManagement/03_Repositories/EfCore/TechnicianRepository.cs:124-127 | every name contains the empty query |
| `Text.LexLeqTotal` | src/Azunt.TechnicianManagement/Azunt.TechnicianManagement/03_Repositories/EfCore/TechnicianRepository.cs:131-132 | the name order is total |
| `Text.LexLeqTransitive` | src/Azunt.TechnicianManagement/Azunt.TechnicianManagement/03_Repositories/EfCore/TechnicianRepository.cs:131-132 | the name order is transitive |
| `Text.LexLeqAntisymmetric` | src/Azunt.TechnicianManagement/Azunt.TechnicianManagement/03_Repositories/EfCore/TechnicianRepository.cs:131-132 | the name order is antisymmetric |
| `Ordering.BeforeTotal` | src/Azunt.TechnicianManagement/Azunt.TechnicianManagement/03_Repositories/EfCore/TechnicianRepository.cs:129-135 | each of the three sort orders relates every pair of rows |
| `Ordering.BeforeTransitive` | src/Azunt.TechnicianManagement/Azunt.TechnicianManagement/03_Repositories/EfCore/TechnicianRepository.cs:129-135 | each of the three sort orders is transitive |
| `Ordering.Insert` | src/Azunt.TechnicianManagement/Azunt.TechnicianManagement/03_Repositories/EfCore/TechnicianRepository.cs:129-135 | inserting into a sorted sequence keeps it sorted and adds exactly the one element |
| `Ordering.SortRows` | src/Azunt.TechnicianManagement/Azunt.TechnicianManagement/03_Repositories/EfCore/TechnicianRepository.cs:129-135 | `OrderBy`: the result is sorted under the key and is a permutation of the input |
| `Paging.Skip` | src/Azunt.TechnicianManagement/Azunt.TechnicianManagement/03_Repositories/Dapper/TechnicianRepositoryDapper.cs:91 | LINQ `Skip`: a suffix; all of it for a count of zero or less; otherwise that many fewer items |
| `Paging.Take` | src/Azunt.TechnicianManagement/Azunt.TechnicianManagement/03_Repositories/Dapper/TechnicianRepositoryDapper.cs:92 | LINQ `Take`: a prefix of at most the count, none for a count of zero or less |
| `Paging.Page` | src/Azunt.TechnicianManagement/Azunt.TechnicianManagement/03_Repositories/EfCore/TechnicianRepository.cs:138-141 | a page has at most `pageSize` items (none for `pageSize <= 0`), all consecutive items of the input from the page start |
| `Paging.PageStart` | src/Azunt.TechnicianManagement/Azunt.TechnicianManagement/03_Repositories/EfCore/TechnicianRepository.cs:139 | the page start lies within the sequence |
| `Paging.PageIsSkipThenTake` | src/Azunt.TechnicianManagement/Azunt.TechnicianManagement/03_Repositories/Dapper/TechnicianRepositoryDapper.cs:90-93 | a page is exactly `Skip(offset).Take(size)` |
| `Paging.PageHoldsItem` | src/Azunt.TechnicianManagement/Azunt.TechnicianManagement/03_Repositories/EfCore/TechnicianRepository.cs:138-141 | pages tile the sequence: item `q` of page `p` is item `p * size + q` while the offset fits in an `int` |
| `EfCore.GreatestBelow` | src/Azunt.TechnicianManagement/Azunt.TechnicianManagement/03_Repositories/EfCore/TechnicianRepository.cs:152-155 | finds a live row with the greatest `DisplayOrder` below the bound; None exactly when no live row is below it |
| `EfCore.LeastAbove` | src/Azunt.TechnicianManagement/Azunt.TechnicianManagement/03_Repositories/EfCore/TechnicianRepository.cs:178-181 | finds a live row with the least `DisplayOrder` above the bound; None exactly when no live row is above it |
| `EfCore.NextDisplayOrderAppends` | src/Azunt.TechnicianManagement/Azunt.TechnicianManagement/03_Repositories/EfCore/TechnicianRepository.cs:62-66 | a new row's `DisplayOrder` exceeds every live one and is the live maximum plus one, or 1 when no row is live (below `int.MaxValue`) |
| `EfCore.NextDisplayOrderWraps` | src/Azunt.TechnicianManagement/Azunt.TechnicianManagement/03_Repositories/EfCore/TechnicianRepository.cs:66 | at a live `DisplayOrder` of `int.MaxValue` the addition wraps to `int.MinValue`, so the new row sorts first |
| `EfCore.AddKeepsOrdersIncreasing` | src/Azunt.TechnicianManagement/Azunt.TechnicianManagement/03_Repositories/EfCore/TechnicianRepository.cs:55-71 | a run of adds keeps live `DisplayOrder`s strictly increasing in insertion order |
| `EfCore.MoveUpRefusal` | src/Azunt.TechnicianManagement/Azunt.TechnicianManagement/03_Repositories/EfCore/TechnicianRepository.cs:146-157 | `MoveUpAsync` refuses exactly when the row is missing or deleted or no live row has a smaller `DisplayOrder`, and then nothing changes |
| `EfCore.MoveDownRefusal` | src/Azunt.TechnicianManagement/Azunt.TechnicianManagement/03_Repositories/EfCore/TechnicianRepository.cs:172-183 | `MoveDownAsync` refuses exactly when the row is missing or deleted or no live row has a larger `DisplayOrder`, and then nothing changes |
| `EfCore.MoveUpTradesWithPredecessor` | src/Azunt.TechnicianManagement/Azunt.TechnicianManagement/03_Repositories/EfCore/TechnicianRepository.cs:146-170 | a successful move up swaps `DisplayOrder` with the live row holding the greatest smaller value; no other row or field changes |
| `EfCore.MoveDownTradesWithSuccessor` | src/Azunt.TechnicianManagement/Azunt.TechnicianManagement/03_Repositories/EfCore/TechnicianRepository.cs:172-196 | a successful move down swaps `DisplayOrder` with the live row holding the least larger value; no other row or field changes |
| `EfCore.SwapKeepsMultiset` | src/Azunt.TechnicianManagement/Azunt.TechnicianManagement/03_Repositories/EfCore/TechnicianRepository.cs:160-162 | exchanging two entries keeps the multiset |
| `EfCore.SwapPermutesOrders` | src/Azunt.TechnicianManagement/Azunt.TechnicianManagement/03_Repositories/EfCore/TechnicianRepository.cs:159-166 | the swap changes only `DisplayOrder`s and keeps their multiset |
| `EfCore.MovesPermuteOrders` | src/Azunt.TechnicianManagement/Azunt.TechnicianManagement/03_Repositories/EfCore/TechnicianRepository.cs:146-196 | moving up or down changes no key, flag or other field, and keeps the multiset of `DisplayOrder` values |
| `EfCore.FindLiveIgnoresOrders` | src/Azunt.TechnicianManagement/Azunt.TechnicianManagement/03_Repositories/EfCore/TechnicianRepository.cs:149 | the row lookup by key is unaffected by reordering |
| `EfCore.MoveUpThenDownRestores` | src/Azunt.TechnicianManagement/Azunt.TechnicianManagement/03_Repositories/EfCore/TechnicianRepository.cs:146-196 | with distinct live `DisplayOrder`s, a successful move up followed by a move down restores the table exactly |
| `EfCore.MoveDownThenUpRestores` | src/Azunt.TechnicianManagement/Azunt.TechnicianManagement/03_Repositories/EfCore/TechnicianRepository.cs:146-196 | with distinct live `DisplayOrder`s, a successful move down followed by a move up restores the table exactly |
| `EfCore.SearchMatchesMembers` | src/Azunt.TechnicianManagement/Azunt.TechnicianManagement/03_Repositories/EfCore/TechnicianRepository.cs:120-127 | the search keeps exactly the live rows, narrowed to names containing the query unless it is null or empty |
| `EfCore.PageOfSorted` | src/Azunt.TechnicianManagement/Azunt.TechnicianManagement/03_Repositories/EfCore/TechnicianRepository.cs:138-141 | a page of a sorted sequence is sorted |
| `EfCore.SearchPage` | src/Azunt.TechnicianManagement/Azunt.TechnicianManagement/03_Repositories/EfCore/TechnicianRepository.cs:111-144 | throws exactly on a negative offset or a page size below 1; otherwise the total is the match count before paging, and the page is the slice at the offset, of at most `pageSize` items, of some ordering of exactly the matching live rows sorted by the key; it is sorted and holds only matching live rows |
| `EfCore.TechnicianRepository.constructor` | src/Azunt.TechnicianManagement/Azunt.TechnicianManagement/03_Repositories/EfCore/TechnicianRepository.cs:22-38 | the repository works on the given database |
| `EfCore.TechnicianRepository.Add` | src/Azunt.TechnicianManagement/Azunt.TechnicianManagement/03_Repositories/EfCore/TechnicianRepository.cs:55-71 | appends the row with a fresh key, the timestamp, `IsDeleted = false` and `DisplayOrder` = live maximum + 1; it throws exactly on a caller-chosen key (identity insert refused) or a null `Active` (NOT NULL), and then changes nothing |
| `EfCore.TechnicianRepository.AddDefault` | src/Azunt.TechnicianManagement/Azunt.TechnicianManagement/03_Repositories/EfCore/TechnicianRepository.cs:45-53 | appends the row with a fresh key, the timestamp and `IsDeleted = false`, keeping the caller's `DisplayOrder`; it throws exactly on a caller-chosen key or a null `Active`, and then changes nothing |
| `EfCore.TechnicianRepository.GetAll` | src/Azunt.TechnicianManagement/Azunt.TechnicianManagement/03_Repositories/EfCore/TechnicianRepository.cs:73-81 | exactly the live rows (as a multiset), in ascending `DisplayOrder` |
| `EfCore.TechnicianRepository.GetById` | src/Azunt.TechnicianManagement/Azunt.TechnicianManagement/03_Repositories/EfCore/TechnicianRepository.cs:83-90 | the stored live row with that key when there is one, otherwise `new Technician()` |
| `EfCore.TechnicianRepository.Update` | src/Azunt.TechnicianManagement/Azunt.TechnicianManagement/03_Repositories/EfCore/TechnicianRepository.cs:92-98 | replaces the whole row with that key, deleted or not, and returns true; an unset key (0) throws EF Core's temporary-key error, a key with no row throws a concurrency error, a null `Active` throws the NOT NULL error; each refusal changes nothing |
| `EfCore.TechnicianRepository.Delete` | src/Azunt.TechnicianManagement/Azunt.TechnicianManagement/03_Repositories/EfCore/TechnicianRepository.cs:100-109 | true exactly when a live row has the key; the table becomes its soft-deleted form |
| `EfCore.TechnicianRepository.GetPage` | src/Azunt.TechnicianManagement/Azunt.TechnicianManagement/03_Repositories/EfCore/TechnicianRepository.cs:111-144 | the search with `pageIndex * pageSize` in unchecked `int` arithmetic and the sort chosen by `sortOrder`: the total before paging, and the page is the slice at that offset of the matches sorted by that key, as in `SearchPage` |
| `EfCore.TechnicianRepository.MoveUp` | src/Azunt.TechnicianManagement/Azunt.TechnicianManagement/03_Repositories/EfCore/TechnicianRepository.cs:146-170 | true exactly when a predecessor exists; the table becomes `MovedUp` of the old table |
| `EfCore.TechnicianRepository.MoveDown` | src/Azunt.TechnicianManagement/Azunt.TechnicianManagement/03_Repositories/EfCore/TechnicianRepository.cs:172-196 | true exactly when a successor exists; the table becomes `MovedDown` of the old table |
| `EfCore.NotFoundHasKeyZero` | src/Azunt.TechnicianManagement/Azunt.TechnicianManagement/03_Repositories/EfCore/TechnicianRepository.cs:83-90 | the lookup returns key 0 exactly when no live row has the key, so "not found" is distinguishable |
| `EfCore.FirstPageOfEverythingIsGetAll` | src/Azunt.TechnicianManagement/Azunt.TechnicianManagement/03_Repositories/EfCore/TechnicianRepository.cs:111-144 | with an empty query and the default sort, a first page large enough for every live row equals `GetAllAsync()` and the total is its length |
| `Dapper.NewestFirst` | src/Azunt.TechnicianManagement/Azunt.TechnicianManagement/03_Repositories/Dapper/TechnicianRepositoryDapper.cs:38-41 | the rows in reverse, each with only the selected columns |
| `Dapper.LiveByIdDesc` | src/Azunt.TechnicianManagement/Azunt.TechnicianManagement/03_Repositories/Dapper/TechnicianRepositoryDapper.cs:37-41 | as many rows as are live, exactly the projections of live rows, keys strictly decreasing |
| `Dapper.LiveByIdDescMembers` | src/Azunt.TechnicianManagement/Azunt.TechnicianManagement/03_Repositories/Dapper/TechnicianRepositoryDapper.cs:37-41 | the listing holds the projection of every live row and nothing else |
| `Dapper.NewestFirstDecreasing` | src/Azunt.TechnicianManagement/Azunt.TechnicianManagement/03_Repositories/Dapper/TechnicianRepositoryDapper.cs:41 | listing increasing keys in reverse gives decreasing keys |
| `Dapper.Filtered` | src/Azunt.TechnicianManagement/Azunt.TechnicianManagement/03_Repositories/Dapper/TechnicianRepositoryDapper.cs:86-88 | keeps every row for a blank query, otherwise exactly the rows whose name contains it, keeping the key order |
| `Dapper.MatchingKeepsIdsDecreasing` | src/Azunt.TechnicianManagement/Azunt.TechnicianManagement/03_Repositories/Dapper/TechnicianRepositoryDapper.cs:88 | filtering by name keeps keys decreasing |
| `Dapper.SearchPage` | src/Azunt.TechnicianManagement/Azunt.TechnicianManagement/03_Repositories/Dapper/TechnicianRepositoryDapper.cs:85-95 | the total is the filtered count before paging; the page is exactly the filtered rows from the page start, `min(pageSize, remaining)` of them (none for `pageSize <= 0`), in key-descending order |
| `Dapper.PageOfDecreasing` | src/Azunt.TechnicianManagement/Azunt.TechnicianManagement/03_Repositories/Dapper/TechnicianRepositoryDapper.cs:90-93 | a page of a key-descending sequence is key-descending |
| `Dapper.TechnicianRepositoryDapper.constructor` | src/Azunt.TechnicianManagement/Azunt.TechnicianManagement/03_Repositories/Dapper/TechnicianRepositoryDapper.cs:13-17 | the repository works on the given database |
| `Dapper.TechnicianRepositoryDapper.Add` | src/Azunt.TechnicianManagement/Azunt.TechnicianManagement/03_Repositories/Dapper/TechnicianRepositoryDapper.cs:21-33 | appends a live row with a fresh key, the caller's Active, CreatedBy and Name, and `DisplayOrder` 0 from the column default; returns the caller's object with the new key and timestamp; a null `Active` throws the NOT NULL error and inserts nothing |
| `Dapper.TechnicianRepositoryDapper.GetAll` | src/Azunt.TechnicianManagement/Azunt.TechnicianManagement/03_Repositories/Dapper/TechnicianRepositoryDapper.cs:35-45 | exactly the live rows with the selected columns, keys strictly decreasing |
| `Dapper.TechnicianRepositoryDapper.GetById` | src/Azunt.TechnicianManagement/Azunt.TechnicianManagement/03_Repositories/Dapper/TechnicianRepositoryDapper.cs:47-56 | the projection of the live row with that key, otherwise `new Technician()` |
| `Dapper.TechnicianRepositoryDapper.Update` | src/Azunt.TechnicianManagement/Azunt.TechnicianManagement/03_Repositories/Dapper/TechnicianRepositoryDapper.cs:58-69 | on a live row, writes only Active and Name and returns true, or throws the NOT NULL error for a null `Active` and changes nothing; for a missing or deleted row returns false and changes nothing |
| `Dapper.TechnicianRepositoryDapper.Delete` | src/Azunt.TechnicianManagement/Azunt.TechnicianManagement/03_Repositories/Dapper/TechnicianRepositoryDapper.cs:71-80 | true exactly when a live row has the key; the table becomes its soft-deleted form |
| `Dapper.TechnicianRepositoryDapper.GetPage` | src/Azunt.TechnicianManagement/Azunt.TechnicianManagement/03_Repositories/Dapper/TechnicianRepositoryDapper.cs:82-96 | ignores `sortOrder`: the filtered count before paging, and the page is exactly the filtered listing's rows from `pageIndex * pageSize` (unchecked `int`), `min(pageSize, remaining)` of them, key-descending |
| `Dapper.TechnicianRepositoryDapper.MoveUp` | src/Azunt.TechnicianManagement/Azunt.TechnicianManagement/03_Repositories/Dapper/TechnicianRepositoryDapper.cs:98-101 | always throws "not implemented" |
| `Dapper.TechnicianRepositoryDapper.MoveDown` | src/Azunt.TechnicianManagement/Azunt.TechnicianManagement/03_Repositories/Dapper/TechnicianRepositoryDapper.cs:103-106 | always throws "not implemented" |
| `Backends.ListingsAgree` | src/Azunt.TechnicianManagement/Azunt.TechnicianManagement/02_Contracts/ITechnicianRepository.cs:8-24 | on one table both listings have the same length and the same technicians, the Dapper rows being the EF Core rows with the unselected columns reset |
| `Backends.LookupsAgree` | src/Azunt.TechnicianManagement/Azunt.TechnicianManagement/02_Contracts/ITechnicianRepository.cs:8-24 | both lookups agree up to the selected columns, and both give `new Technician()` when no live row has the key |
| `Backends.UpdatesAgreeOnLiveRows` | src/Azunt.TechnicianManagement/Azunt.TechnicianManagement/02_Contracts/ITechnicianRepository.cs:8-24 | on a live row, when the model carries the stored values of the other columns, both updates find the same row and leave the same table |
| `Backends.UpdateOfDeletedRowDiverges` | src/Azunt.TechnicianManagement/Azunt.TechnicianManagement/03_Repositories/EfCore/TechnicianRepository.cs:92-98 | on a deleted row the Dapper update finds nothing, while the EF Core update with `IsDeleted = false` brings the row back into the live rows |
| `Backends.BlankQueryDiverges` | src/Azunt.TechnicianManagement/Azunt.TechnicianManagement/03_Repositories/Dapper/TechnicianRepositoryDapper.cs:86-88 | a query of white space: Dapper keeps every listed row, EF Core keeps only names containing it |
| `Initializers.Names` | src/Azunt.TechnicianManagement/Azunt.TechnicianManagement/05_Initializers/TechniciansTableBuilder.cs:109-199 | the set holds every catalog entry's name and nothing else |
| `Initializers.SeedRowsAreValid` | src/Azunt.TechnicianManagement/Azunt.TechnicianManagement/05_Initializers/TechniciansTableBuilder.cs:227-231 | the seed inserts two live, active, valid rows created by 'System', named 'Initial Technician 1' and 'Initial Technician 2', with `DisplayOrder` 1 and 2 |
| `Initializers.ReconciledPersists` | src/Azunt.TechnicianManagement/Azunt.TechnicianManagement/05_Initializers/TechniciansTableBuilder.cs:77-237 | a reconciled database stays reconciled while it only grows |
| `Initializers.ActionOnlyAdds` | src/Azunt.TechnicianManagement/Azunt.TechnicianManagement/05_Initializers/TechniciansTableBuilder.cs:93-231 | each CREATE, ALTER or INSERT keeps the table well formed and removes nothing |
| `Initializers.ApplyOnlyAdds` | src/Azunt.TechnicianManagement/Azunt.TechnicianManagement/05_Initializers/TechniciansTableBuilder.cs:77-237 | any sequence of statements keeps the table well formed, keeps every column and leaves existing rows untouched |
| `Initializers.ColumnScriptOnlyAlters` | src/Azunt.TechnicianManagement/Azunt.TechnicianManagement/05_Initializers/TechniciansTableBuilder.cs:201-219 | the column phase issues only ALTERs |
| `Initializers.ColumnPhaseAddsAll` | src/Azunt.TechnicianManagement/Azunt.TechnicianManagement/05_Initializers/TechniciansTableBuilder.cs:201-219 | after the column phase every catalog name is a column, exactly the missing names were added, and rows are untouched |
| `Initializers.ColumnScriptQuiet` | src/Azunt.TechnicianManagement/Azunt.TechnicianManagement/05_Initializers/TechniciansTableBuilder.cs:208-210 | when every catalog name is present the column phase issues no ALTER |
| `Initializers.ColumnScriptLength` | src/Azunt.TechnicianManagement/Azunt.TechnicianManagement/05_Initializers/TechniciansTableBuilder.cs:201-219 | one check per catalog entry and at most one ALTER after each |
| `Initializers.ScriptLength` | src/Azunt.TechnicianManagement/Azunt.TechnicianManagement/05_Initializers/TechniciansTableBuilder.cs:77-237 | a run issues between `|catalog| + 3` and `2 * |catalog| + 5` commands |
| `Initializers.ScriptActions` | src/Azunt.TechnicianManagement/Azunt.TechnicianManagement/05_Initializers/TechniciansTableBuilder.cs:77-237 | the statements of a run: CREATE when absent, the column phase's ALTERs, and the INSERT when the table is empty |
| `Initializers.ScriptResult` | src/Azunt.TechnicianManagement/Azunt.TechnicianManagement/05_Initializers/TechniciansTableBuilder.cs:83-235 | a fresh table has exactly the seven primary columns; after a run the columns are the old ones plus the catalog, and the two seed rows are present exactly when the table was empty |
| `Initializers.ScriptReconciles` | src/Azunt.TechnicianManagement/Azunt.TechnicianManagement/05_Initializers/TechniciansTableBuilder.cs:77-237 | a complete run leaves the table existing, with every catalog column and at least one row, having only added |
| `Initializers.ReconciledScriptIsQuiet` | src/Azunt.TechnicianManagement/Azunt.TechnicianManagement/05_Initializers/TechniciansTableBuilder.cs:90-225 | on a reconciled database a run issues no CREATE, ALTER or INSERT and changes nothing |
| `Initializers.RunTwiceIdempotent` | src/Azunt.TechnicianManagement/Azunt.TechnicianManagement/05_Initializers/TechniciansTableBuilder.cs:90-225 | the second of two runs issues no CREATE, ALTER or INSERT and leaves the state identical |
| `Initializers.CreateOnlyIfAbsent` | src/Azunt.TechnicianManagement/Azunt.TechnicianManagement/05_Initializers/TechniciansTableBuilder.cs:88-106 | CREATE TABLE is issued exactly when the table does not exist |
| `Initializers.SeedOnlyWhenEmpty` | src/Azunt.TechnicianManagement/Azunt.TechnicianManagement/05_Initializers/TechniciansTableBuilder.cs:221-235 | the seed INSERT is issued exactly when the table has no rows |
| `Initializers.PartialRunOnlyAdds` | src/Azunt.TechnicianManagement/Azunt.TechnicianManagement/05_Initializers/TechniciansTableBuilder.cs:27-35 | a run cut short after any command has only added: columns already added by a failing run stay |
| `Initializers.KeepNonEmpty` | src/Azunt.TechnicianManagement/Azunt.TechnicianManagement/05_Initializers/TechniciansTableBuilder.cs:63-70 | exactly the registry's non-null, non-empty strings, and no more of them than registry rows |
| `Initializers.KeepNonEmptyConcat` | src/Azunt.TechnicianManagement/Azunt.TechnicianManagement/05_Initializers/TechniciansTableBuilder.cs:63-70 | reading more rows appends what they keep, so strings come out in read order with repeats kept |
| `Initializers.KeepNonEmptyOne` | src/Azunt.TechnicianManagement/Azunt.TechnicianManagement/05_Initializers/TechniciansTableBuilder.cs:65-69 | one row's string is kept exactly when it is neither null nor empty |
| `Initializers.TechniciansTableBuilder.constructor` | src/Azunt.TechnicianManagement/Azunt.TechnicianManagement/05_Initializers/TechniciansTableBuilder.cs:15-19 | the builder targets the given master database and works through the fixed column catalog |
| `Initializers.TechniciansTableBuilder.EnsureTechniciansTable` | src/Azunt.TechnicianManagement/Azunt.TechnicianManagement/05_Initializers/TechniciansTableBuilder.cs:77-237 | issues the run's script up to the failing command; the state is the effect of the issued statements, only grew, and is the reconciled `Run` when nothing failed |
| `Initializers.TechniciansTableBuilder.CreatePhase` | src/Azunt.TechnicianManagement/Azunt.TechnicianManagement/05_Initializers/TechniciansTableBuilder.cs:79-106 | opens, checks the table, and creates it only when absent |
| `Initializers.TechniciansTableBuilder.ColumnPhase` | src/Azunt.TechnicianManagement/Azunt.TechnicianManagement/05_Initializers/TechniciansTableBuilder.cs:201-219 | the `foreach` over the catalog issues the column phase's commands up to the failing one and changes no row |
| `Initializers.TechniciansTableBuilder.EnsureColumn` | src/Azunt.TechnicianManagement/Azunt.TechnicianManagement/05_Initializers/TechniciansTableBuilder.cs:203-218 | checks one column and adds it only when missing |
| `Initializers.TechniciansTableBuilder.SeedPhase` | src/Azunt.TechnicianManagement/Azunt.TechnicianManagement/05_Initializers/TechniciansTableBuilder.cs:221-235 | counts rows and inserts the seed rows only into an empty table |
| `Initializers.TechniciansTableBuilder.GetTenantConnectionStrings` | src/Azunt.TechnicianManagement/Azunt.TechnicianManagement/05_Initializers/TechniciansTableBuilder.cs:52-75 | the registry's non-null, non-empty connection strings in read order (`KeepNonEmpty`, with `KeepNonEmptyConcat` and `KeepNonEmptyOne`); a failing registry query throws |
| `Initializers.TechniciansTableBuilder.BuildTenantDatabases` | src/Azunt.TechnicianManagement/Azunt.TechnicianManagement/05_Initializers/TechniciansTableBuilder.cs:21-37 | every listed tenant is attempted in order and reported; a tenant's failure does not stop the rest; every processed tenant is reconciled; databases only grow |
| `Initializers.TechniciansTableBuilder.BuildMasterDatabase` | src/Azunt.TechnicianManagement/Azunt.TechnicianManagement/05_Initializers/TechniciansTableBuilder.cs:39-50 | a failure is caught; the master is reconciled exactly when no command failed, and otherwise keeps what was applied before the failure |
| `Initializers.TechniciansTableBuilder.BuildTenant` | src/Azunt.TechnicianManagement/Azunt.TechnicianManagement/05_Initializers/TechniciansTableBuilder.cs:25-36 | one loop iteration: an unreachable string is not processed; a processed tenant is reconciled; other tenants are untouched |

## Left out

- SQL Server, ADO.NET, Dapper and EF Core change tracking are replaced by the in-memory `TechniciansDb`. `TechnicianAppDbContext` and `TechnicianAppDbContextFactory` are not part of this model; they only pick a connection string.
- Dependency-injection wiring (`TechnicianServicesRegistrationExtensions`) is not part of this model. It only registers classes.
- `TechniciansTableBuilder.Run` is left out. It only reads configuration and logs around the builder.
- async/await and concurrency are left out. Every call is sequential, so the race between `AddAsync`'s read of the maximum and its insert, and between the two writes of a swap, is not modelled.
- Logging is side output only and is not modelled.
- Clocks (`DateTime.UtcNow`, `SYSDATETIMEOFFSET()`) become an opaque `Timestamp` parameter. `DateTime`-to-`DateTimeOffset` conversion is not modelled.
- Column type and default strings in the catalog are uninterpreted. Column defaults are modelled only where a repository depends on them (`DisplayOrder` 0 on a Dapper insert).
- String comparison is ordinal: plain substring search and code-point ordering. SQL Server collations (case-insensitive `LIKE` and `ORDER BY`) are not modelled.
- The order among rows with equal sort keys is not constrained. Only sortedness and permutation are stated.
- The `FilterOptions` overload of the repository interface has no implementation, so it is not modelled. `ArticleSet` is modelled as an `(items, totalCount)` pair.
- Keys are unbounded integers; the 64-bit `BIGINT` overflow of the identity column is not modelled.
- Of the table's constraints only `NOT NULL` on `Active` and the identity key are modelled. `IsDeleted` and `Created` are `NOT NULL` too, but both repositories always write them.
- Both repositories require the Technicians table to exist. A call on a database without it fails in SQL Server with an invalid-object-name error; that path is not modelled.
- EfCore.TechnicianRepository.Add: on a refused insert the source has already set `Created`, `IsDeleted` and `DisplayOrder` on the caller's object. The model returns only the error and does not show those changes to the caller's object. `AddDefault` has the same gap for `Created` and `IsDeleted`.
- Dapper.TechnicianRepositoryDapper.Add: on a refused insert the source has already set `Created` on the caller's object. The model returns only the error.
- Connection failures in the repositories are not modelled. Only the reconciler's failures are modelled: a failing command at a chosen position, and a failing registry query.
- `Initializers.TechniciansTableBuilder.BuildTenantDatabases`: what happens inside a failing tenant is stated by `EnsureTechniciansTable` and `PartialRunOnlyAdds`. The loop itself reports only processed or not for each tenant.
- `Technicians.Default`: its contract states only that the value is invalid. The zero key that makes "not found" recognisable is stated by `EfCore.NotFoundHasKeyZero`.
