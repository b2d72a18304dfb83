/**
 * `TechnicianRepositoryDapper`, the Dapper implementation of the Technician
 * repository: hand-written SQL over the same table. Its reads select only some
 * columns, its update touches only Active and Name of a live row, its search
 * filters in memory, and it has no reordering.
 */
module Dapper {
  import opened Primitives
  import opened Text
  import opened Technicians
  import opened Store
  import opened Paging

  /**
   * A row as `SELECT Id, Active, Created, CreatedBy, Name` materialises it: the
   * columns not selected keep the values of `new Technician()`.
   */
  function Projected(t: Technician): Technician {
    Technician(t.id, t.active, false, t.created, t.createdBy, t.name, 0)
  }

  /** Keys strictly decrease along the sequence. */
  predicate IdsDecreasing(rows: seq<Technician>) {
    forall i, j :: 0 <= i < j < |rows| ==> rows[i].id > rows[j].id
  }

  /** The rows as the SELECT materialises them, last row first. */
  function NewestFirst(s: seq<Technician>): (r: seq<Technician>)
    ensures |r| == |s| && forall i :: 0 <= i < |s| ==> r[i] == Projected(s[|s| - 1 - i])
  {
    if s == [] then [] else [Projected(s[|s| - 1])] + NewestFirst(s[..|s| - 1])
  }

  /** `SELECT Id, Active, Created, CreatedBy, Name FROM Technicians WHERE IsDeleted = 0 ORDER BY Id DESC`. */
  function LiveByIdDesc(rows: seq<Technician>): (r: seq<Technician>)
    ensures |r| == |Live(rows)|
    ensures forall t :: t in r <==> exists u :: u in rows && !u.isDeleted && t == Projected(u)
    ensures IdsIncreasing(rows) ==> IdsDecreasing(r)
  {
    var r := NewestFirst(Live(rows));
    LiveByIdDescMembers(rows, r);
    assert IdsIncreasing(rows) ==> IdsDecreasing(r) by {
      if IdsIncreasing(rows) {
        LiveKeepsIdsIncreasing(rows);
        NewestFirstDecreasing(Live(rows));
      }
    }
    r
  }

  /** The newest-first listing holds the projection of every live row and nothing else. */
  lemma LiveByIdDescMembers(rows: seq<Technician>, r: seq<Technician>)
    requires r == NewestFirst(Live(rows))
    ensures forall t :: t in r <==> exists u :: u in rows && !u.isDeleted && t == Projected(u)
  {
    var live := Live(rows);
    forall t | t in r ensures exists u :: u in rows && !u.isDeleted && t == Projected(u) {
      var i :| 0 <= i < |r| && r[i] == t;
      var k := |live| - 1 - i;
      assert live[k] in live;
    }
    forall u | u in rows && !u.isDeleted ensures Projected(u) in r {
      var k :| 0 <= k < |live| && live[k] == u;
      var i := |live| - 1 - k;
      assert r[i] == Projected(u);
    }
  }

  /** Listing rows with increasing keys last row first gives decreasing keys. */
  lemma NewestFirstDecreasing(s: seq<Technician>)
    requires IdsIncreasing(s)
    ensures IdsDecreasing(NewestFirst(s))
  {
    var r := NewestFirst(s);
    forall i, j | 0 <= i < j < |r| ensures r[i].id > r[j].id {
      var a, b := |s| - 1 - j, |s| - 1 - i;
      assert r[i].id == s[b].id && r[j].id == s[a].id;
      assert s[a].id < s[b].id;
    }
  }

  /** `string.IsNullOrWhiteSpace(searchQuery) ? all : all.Where(m => m.Name != null && m.Name.Contains(searchQuery))`. */
  function Filtered(rows: seq<Technician>, searchQuery: string): (r: seq<Technician>)
    ensures forall t :: t in r <==> t in rows && (IsBlank(searchQuery) || NameMatches(t, searchQuery))
    ensures IdsDecreasing(rows) ==> IdsDecreasing(r)
  {
    if IsBlank(searchQuery) then rows
    else
      assert IdsDecreasing(rows) ==> IdsDecreasing(Matching(rows, searchQuery)) by {
        if IdsDecreasing(rows) {
          MatchingKeepsIdsDecreasing(rows, searchQuery);
        }
      }
      Matching(rows, searchQuery)
  }

  /** Filtering by name keeps keys decreasing. */
  lemma {:induction false} MatchingKeepsIdsDecreasing(rows: seq<Technician>, query: string)
    requires IdsDecreasing(rows)
    ensures IdsDecreasing(Matching(rows, query))
  {
    if rows != [] {
      MatchingKeepsIdsDecreasing(rows[1..], query);
      var rest := Matching(rows[1..], query);
      var head := if NameMatches(rows[0], query) then [rows[0]] else [];
      forall j | 0 <= j < |rest| ensures rows[0].id > rest[j].id {
        assert rest[j] in rows[1..];
      }
      assert Matching(rows, query) == head + rest;
    }
  }

  /** Filter the listing, count, then `Skip(offset).Take(size)` in memory. */
  function SearchPage(all: seq<Technician>, searchQuery: string, offset: int, size: int): (r: ArticleSet<Technician>)
    requires IdsDecreasing(all)
    ensures r.totalCount == |Filtered(all, searchQuery)|
    ensures var f := Filtered(all, searchQuery);
            var start := PageStart(offset, |f|);
            && |r.items| == (if size <= 0 then 0 else if size < |f| - start then size else |f| - start)
            && forall i :: 0 <= i < |r.items| ==> r.items[i] == f[start + i]
    ensures |r.items| <= r.totalCount && (size <= 0 ==> r.items == []) && (size > 0 ==> |r.items| <= size)
    ensures IdsDecreasing(r.items)
    ensures forall t :: t in r.items ==> t in all && (IsBlank(searchQuery) || NameMatches(t, searchQuery))
  {
    var filtered := Filtered(all, searchQuery);
    PageOfDecreasing(filtered, offset, size);
    ArticleSet(Page(filtered, offset, size), |filtered|)
  }

  class TechnicianRepositoryDapper {
    const db: TechniciansDb

    constructor (db: TechniciansDb)
      ensures this.db == db
    {
      this.db := db;
    }

    /** The repository works on a well-formed database whose Technicians table exists. */
    ghost predicate Valid()
      reads db
    {
      db.Valid() && db.tableExists
    }

    /**
     * `AddAsync`: inserts Active, Created, CreatedBy and Name with IsDeleted 0; the
     * key comes from the identity column and DisplayOrder from its column default.
     * The caller's object comes back with the new key and Created and is otherwise
     * as passed in. A null Active is refused by the NOT NULL column and nothing is
     * inserted.
     */
    method Add(model: Technician, now: Timestamp) returns (r: Outcome<Technician>)
      requires Valid()
      modifies db
      ensures Valid()
      ensures db.tableExists == old(db.tableExists) && db.columns == old(db.columns)
      ensures model.active.None? ==>
                r == Threw(NotNullViolation) && db.rows == old(db.rows) && db.nextId == old(db.nextId)
      ensures model.active.Some? ==>
                && r == Returned(model.(id := old(db.nextId), created := now))
                && db.rows == old(db.rows) + [Technician(old(db.nextId), model.active, false, now, model.createdBy, model.name, 0)]
                && db.nextId == old(db.nextId) + 1
    {
      var m := model.(created := now);
      if m.active.None? {
        return Threw(NotNullViolation);
      }
      var stored := db.InsertRow(Technician(0, m.active, false, m.created, m.createdBy, m.name, 0));
      r := Returned(m.(id := stored.id));
    }

    /** `GetAllAsync()`: the live rows, newest key first, with the selected columns only. */
    function GetAll(): (r: seq<Technician>)
      reads db
      requires Valid()
      ensures |r| == |Live(db.rows)|
      ensures forall t :: t in r <==> exists u :: u in db.rows && !u.isDeleted && t == Projected(u)
      ensures IdsDecreasing(r)
    {
      LiveByIdDesc(db.rows)
    }

    /** `GetByIdAsync(id)`: the live row with key `id`, with the selected columns only, or `new Technician()`. */
    function GetById(id: int): (r: Technician)
      reads db
      ensures (exists k :: 0 <= k < |db.rows| && db.rows[k].id == id && !db.rows[k].isDeleted) ==>
                r.id == id && exists u :: u in db.rows && !u.isDeleted && r == Projected(u)
      ensures (forall k :: 0 <= k < |db.rows| ==> db.rows[k].id != id || db.rows[k].isDeleted) ==>
                r == Default()
    {
      match FindLive(db.rows, id)
      case None => Default()
      case Some(k) => Projected(db.rows[k])
    }

    /**
     * `UpdateAsync(model)`: `UPDATE ... SET Active, Name WHERE Id = @Id AND IsDeleted = 0`.
     * True exactly when a row was affected; a missing or deleted row is left alone.
     * Writing a null Active into the matching row is refused by the NOT NULL column.
     */
    method Update(model: Technician) returns (r: Outcome<bool>)
      requires Valid()
      modifies db
      ensures Valid()
      ensures db.tableExists == old(db.tableExists) && db.columns == old(db.columns) && db.nextId == old(db.nextId)
      ensures match FindLive(old(db.rows), model.id)
              case Some(k) =>
                if model.active.None? then r == Threw(NotNullViolation) && db.rows == old(db.rows)
                else r == Returned(true) &&
                     db.rows == old(db.rows)[k := old(db.rows)[k].(active := model.active, name := model.name)]
              case None => r == Returned(false) && db.rows == old(db.rows)
    {
      var k := FindLive(db.rows, model.id);
      if k.None? {
        return Returned(false);
      }
      if model.active.None? {
        return Threw(NotNullViolation);
      }
      var row := db.rows[k.value].(active := model.active, name := model.name);
      SameIdsKeepWellFormed(db.State(), db.rows[k.value := row]);
      db.rows := db.rows[k.value := row];
      r := Returned(true);
    }

    /** `DeleteAsync(id)`: `UPDATE ... SET IsDeleted = 1 WHERE Id = @Id AND IsDeleted = 0`. */
    method Delete(id: int) returns (deleted: bool)
      requires Valid()
      modifies db
      ensures Valid()
      ensures db.tableExists == old(db.tableExists) && db.columns == old(db.columns) && db.nextId == old(db.nextId)
      ensures deleted <==> FindLive(old(db.rows), id).Some?
      ensures db.rows == SoftDeleted(old(db.rows), id)
    {
      SoftDeleteKeepsWellFormed(db.State(), id);
      var k := FindLive(db.rows, id);
      if k.None? {
        return false;
      }
      db.rows := db.rows[k.value := db.rows[k.value].(isDeleted := true)];
      deleted := true;
    }

    /**
     * The paged search: `GetAllAsync()` filtered in memory by name unless the query is
     * blank, then `Skip(pageIndex * pageSize).Take(pageSize)`. `searchField`,
     * `sortOrder` and the parent identifier are not used, so the page keeps the
     * newest-first order; the total is the filtered count.
     */
    function GetPage(pageIndex: Int32, pageSize: Int32, searchField: string, searchQuery: string,
                     sortOrder: string): (r: ArticleSet<Technician>)
      reads db
      requires Valid()
      ensures r.totalCount == |Filtered(GetAll(), searchQuery)|
      ensures var f := Filtered(GetAll(), searchQuery);
              var start := PageStart(Offset(pageIndex, pageSize), |f|);
              && |r.items| == (if pageSize <= 0 then 0 else if pageSize < |f| - start then pageSize else |f| - start)
              && forall i :: 0 <= i < |r.items| ==> r.items[i] == f[start + i]
      ensures |r.items| <= r.totalCount && (pageSize <= 0 ==> r.items == []) && (pageSize > 0 ==> |r.items| <= pageSize)
      ensures IdsDecreasing(r.items)
      ensures forall t :: t in r.items ==>
                t in GetAll() && (IsBlank(searchQuery) || NameMatches(t, searchQuery))
    {
      SearchPage(GetAll(), searchQuery, Offset(pageIndex, pageSize), pageSize)
    }

    /** `MoveUpAsync(id)`: not implemented; every call throws. */
    method MoveUp(id: int) returns (r: Outcome<bool>)
      ensures r == Threw(NotImplemented)
    {
      r := Threw(NotImplemented);
    }

    /** `MoveDownAsync(id)`: not implemented; every call throws. */
    method MoveDown(id: int) returns (r: Outcome<bool>)
      ensures r == Threw(NotImplemented)
    {
      r := Threw(NotImplemented);
    }
  }

  /** A page of a sequence with decreasing keys has decreasing keys and holds only its items. */
  lemma PageOfDecreasing(s: seq<Technician>, offset: int, size: int)
    requires IdsDecreasing(s)
    ensures IdsDecreasing(Page(s, offset, size))
  {
    var items := Page(s, offset, size);
    var start := PageStart(offset, |s|);
    forall i, j | 0 <= i < j < |items| ensures items[i].id > items[j].id {
      assert items[i] == s[start + i] && items[j] == s[start + j];
    }
  }
}
