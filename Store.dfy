/**
 * The database the repositories and the table builder talk to, as in-memory state:
 * whether the Technicians table exists, its column names, its rows in insertion
 * order, and the next value of its `IDENTITY(1,1)` key. Row-level queries shared
 * by both repositories live here too.
 */
module Store {
  import opened Primitives
  import opened Text
  import opened Technicians

  /** A snapshot of one database's Technicians table. */
  datatype DbState = DbState(tableExists: bool, columns: set<string>, rows: seq<Technician>, nextId: int)

  /** Keys are positive and strictly increasing in insertion order. */
  predicate IdsIncreasing(rows: seq<Technician>) {
    forall i, j :: 0 <= i < j < |rows| ==> rows[i].id < rows[j].id
  }

  /** `[Active] BIT NOT NULL`: every stored row has a value for Active. */
  predicate ActiveSet(rows: seq<Technician>) {
    forall i :: 0 <= i < |rows| ==> rows[i].active.Some?
  }

  /**
   * What SQL Server guarantees of the table: a missing table has no columns and no
   * rows, every key is positive, below the next identity value, and larger than
   * the keys inserted before it, and no row has a null Active.
   */
  ghost predicate WellFormed(s: DbState) {
    && s.nextId >= 1
    && (!s.tableExists ==> s.columns == {} && s.rows == [])
    && (forall i :: 0 <= i < |s.rows| ==> 1 <= s.rows[i].id < s.nextId)
    && IdsIncreasing(s.rows)
    && ActiveSet(s.rows)
  }

  class TechniciansDb {
    var tableExists: bool
    var columns: set<string>
    var rows: seq<Technician>
    var nextId: int

    /** A database in which the Technicians table has not been created yet. */
    constructor ()
      ensures Valid()
      ensures State() == DbState(false, {}, [], 1)
    {
      tableExists, columns, rows, nextId := false, {}, [], 1;
    }

    function State(): DbState
      reads this
    {
      DbState(tableExists, columns, rows, nextId)
    }

    ghost predicate Valid()
      reads this
    {
      WellFormed(State())
    }

    /**
     * A successful INSERT of one row (its Active is not null): the store assigns the
     * next identity value as its key.
     */
    method InsertRow(row: Technician) returns (stored: Technician)
      requires Valid() && tableExists && row.active.Some?
      modifies this
      ensures Valid()
      ensures stored == row.(id := old(nextId))
      ensures rows == old(rows) + [stored] && nextId == old(nextId) + 1
      ensures tableExists == old(tableExists) && columns == old(columns)
    {
      stored := row.(id := nextId);
      rows := rows + [stored];
      nextId := nextId + 1;
    }
  }

  /** The rows that are not soft-deleted, in table order (`Where(m => !m.IsDeleted)`). */
  function Live(rows: seq<Technician>): (r: seq<Technician>)
    ensures |r| <= |rows|
    ensures forall t :: t in r <==> t in rows && !t.isDeleted
  {
    if rows == [] then []
    else (if rows[0].isDeleted then [] else [rows[0]]) + Live(rows[1..])
  }

  /** Dropping deleted rows keeps keys increasing. */
  lemma {:induction false} LiveKeepsIdsIncreasing(rows: seq<Technician>)
    requires IdsIncreasing(rows)
    ensures IdsIncreasing(Live(rows))
  {
    if rows != [] {
      LiveKeepsIdsIncreasing(rows[1..]);
      var rest := Live(rows[1..]);
      var head := if rows[0].isDeleted then [] else [rows[0]];
      forall j | 0 <= j < |rest| ensures rows[0].id < rest[j].id {
        assert rest[j] in rows[1..];
      }
      assert Live(rows) == head + rest;
    }
  }

  /** The non-null names that contain `query` (`m.Name != null && m.Name.Contains(query)`). */
  predicate NameMatches(t: Technician, query: string) {
    t.name.Some? && Contains(t.name.value, query)
  }

  /** The rows whose name matches `query`, in their original order. */
  function Matching(rows: seq<Technician>, query: string): (r: seq<Technician>)
    ensures |r| <= |rows|
    ensures forall t :: t in r <==> t in rows && NameMatches(t, query)
  {
    if rows == [] then []
    else (if NameMatches(rows[0], query) then [rows[0]] else []) + Matching(rows[1..], query)
  }

  /** The first row with key `id`, deleted or not (EF Core's `Find`). */
  function FindById(rows: seq<Technician>, id: int): (r: Option<nat>)
    ensures r.Some? ==> r.value < |rows| && rows[r.value].id == id
    ensures r.None? ==> forall i :: 0 <= i < |rows| ==> rows[i].id != id
  {
    if rows == [] then None
    else
      match FindById(rows[..|rows| - 1], id)
      case Some(i) => Some(i)
      case None => if rows[|rows| - 1].id == id then Some(|rows| - 1) else None
  }

  /** The first non-deleted row with key `id` (`Where(m => m.Id == id && !m.IsDeleted)`). */
  function FindLive(rows: seq<Technician>, id: int): (r: Option<nat>)
    ensures r.Some? ==> r.value < |rows| && rows[r.value].id == id && !rows[r.value].isDeleted
    ensures r.None? ==> forall i :: 0 <= i < |rows| ==> rows[i].id != id || rows[i].isDeleted
  {
    if rows == [] then None
    else
      match FindLive(rows[..|rows| - 1], id)
      case Some(i) => Some(i)
      case None =>
        var last := rows[|rows| - 1];
        if last.id == id && !last.isDeleted then Some(|rows| - 1) else None
  }

  /** With unique keys, a lookup by key followed by the IsDeleted test finds the same row as a lookup among live rows. */
  lemma LookupByKeyAgrees(rows: seq<Technician>, id: int)
    requires IdsIncreasing(rows)
    ensures FindLive(rows, id) ==
      match FindById(rows, id)
      case Some(i) => if rows[i].isDeleted then None else Some(i)
      case None => None
  {
    var f := FindById(rows, id);
    var l := FindLive(rows, id);
    if f.Some? && l.Some? {
      assert !(f.value < l.value) && !(l.value < f.value);
    }
  }

  /** With unique keys, the lookup by a row's key finds that row. */
  lemma FindByIdAt(rows: seq<Technician>, k: nat)
    requires IdsIncreasing(rows) && k < |rows|
    ensures FindById(rows, rows[k].id) == Some(k)
  {
  }

  /** Soft delete: the live row with key `id`, if any, gets `IsDeleted = true`. */
  function SoftDeleted(rows: seq<Technician>, id: int): seq<Technician> {
    match FindLive(rows, id)
    case None => rows
    case Some(i) => rows[i := rows[i].(isDeleted := true)]
  }

  /**
   * Soft delete changes nothing but one flag: the table keeps its length and keys,
   * and a row differs from before only by `IsDeleted` being set on the row with key `id`.
   */
  lemma SoftDeleteOnlySetsFlag(rows: seq<Technician>, id: int)
    ensures |SoftDeleted(rows, id)| == |rows|
    ensures forall i :: 0 <= i < |rows| ==>
      SoftDeleted(rows, id)[i] == rows[i] ||
      (rows[i].id == id && !rows[i].isDeleted && SoftDeleted(rows, id)[i] == rows[i].(isDeleted := true))
    ensures FindLive(rows, id).None? <==> SoftDeleted(rows, id) == rows
  {
    match FindLive(rows, id)
    case None =>
    case Some(i) =>
      assert SoftDeleted(rows, id)[i] != rows[i];
  }

  /**
   * After a soft delete no live row has key `id`, so a second delete finds nothing
   * and changes nothing.
   */
  lemma SoftDeleteHidesRow(rows: seq<Technician>, id: int)
    requires IdsIncreasing(rows)
    ensures FindLive(SoftDeleted(rows, id), id).None?
    ensures SoftDeleted(SoftDeleted(rows, id), id) == SoftDeleted(rows, id)
  {
    var r := SoftDeleted(rows, id);
    if FindLive(rows, id).Some? {
      var i := FindLive(rows, id).value;
      forall k | 0 <= k < |r| ensures r[k].id != id || r[k].isDeleted {
        if k < i {
          assert rows[k].id < rows[i].id;
        } else if i < k {
          assert rows[i].id < rows[k].id;
        }
      }
    }
  }

  /** A soft delete removes exactly the live rows with key `id` from the live rows. */
  lemma SoftDeleteKeepsOtherLiveRows(rows: seq<Technician>, id: int)
    requires IdsIncreasing(rows)
    ensures forall t :: t in Live(SoftDeleted(rows, id)) <==> t in Live(rows) && t.id != id
  {
    var r := SoftDeleted(rows, id);
    SoftDeleteHidesRow(rows, id);
    forall t | t in Live(r) ensures t in Live(rows) && t.id != id {
      var k :| 0 <= k < |r| && r[k] == t;
      SoftDeleteOnlySetsFlag(rows, id);
    }
    forall t | t in Live(rows) && t.id != id ensures t in Live(r) {
      var k :| 0 <= k < |rows| && rows[k] == t;
      SoftDeleteOnlySetsFlag(rows, id);
      assert r[k] == t;
    }
  }

  /** `b` holds the same keys as `a`, position by position. */
  predicate SameIds(a: seq<Technician>, b: seq<Technician>) {
    |a| == |b| && forall k :: 0 <= k < |a| ==> a[k].id == b[k].id
  }

  /** Rewriting rows in place without touching their keys or nulling Active keeps the table well formed. */
  lemma SameIdsKeepWellFormed(s: DbState, rows: seq<Technician>)
    requires WellFormed(s) && s.tableExists && SameIds(s.rows, rows) && ActiveSet(rows)
    ensures WellFormed(s.(rows := rows))
  {
  }

  /** Soft delete keeps the table well formed. */
  lemma SoftDeleteKeepsWellFormed(s: DbState, id: int)
    requires WellFormed(s) && s.tableExists
    ensures WellFormed(s.(rows := SoftDeleted(s.rows, id)))
  {
    SameIdsKeepWellFormed(s, SoftDeleted(s.rows, id));
  }
}
