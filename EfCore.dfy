/**
 * `TechnicianRepository`, the Entity Framework Core implementation of the
 * Technician repository. Every call opens its own context on the same database,
 * so the repository is modelled as a handle on one `TechniciansDb`; each query
 * is a function of the table and each write a method on it.
 */
module EfCore {
  import opened Primitives
  import opened Text
  import opened Technicians
  import opened Store
  import opened Ordering
  import opened Paging

  // ---------------------------------------------------------------------------
  // Neighbours in DisplayOrder

  /**
   * A live row holding the greatest DisplayOrder below `bound`
   * (`Where(x => x.DisplayOrder < bound && !x.IsDeleted).OrderByDescending(x => x.DisplayOrder).FirstOrDefault()`).
   */
  function GreatestBelow(rows: seq<Technician>, bound: int): (r: Option<nat>)
    ensures r.Some? ==> r.value < |rows| && !rows[r.value].isDeleted && rows[r.value].displayOrder < bound
    ensures r.Some? ==> forall k :: 0 <= k < |rows| && !rows[k].isDeleted && rows[k].displayOrder < bound ==>
                          rows[k].displayOrder <= rows[r.value].displayOrder
    ensures r.None? ==> forall k :: 0 <= k < |rows| && !rows[k].isDeleted ==> rows[k].displayOrder >= bound
  {
    if rows == [] then None
    else
      var n := |rows| - 1;
      var best := GreatestBelow(rows[..n], bound);
      if rows[n].isDeleted || rows[n].displayOrder >= bound then best
      else if best.None? || rows[best.value].displayOrder < rows[n].displayOrder then Some(n)
      else best
  }

  /**
   * A live row holding the least DisplayOrder above `bound`
   * (`Where(x => x.DisplayOrder > bound && !x.IsDeleted).OrderBy(x => x.DisplayOrder).FirstOrDefault()`).
   */
  function LeastAbove(rows: seq<Technician>, bound: int): (r: Option<nat>)
    ensures r.Some? ==> r.value < |rows| && !rows[r.value].isDeleted && rows[r.value].displayOrder > bound
    ensures r.Some? ==> forall k :: 0 <= k < |rows| && !rows[k].isDeleted && rows[k].displayOrder > bound ==>
                          rows[k].displayOrder >= rows[r.value].displayOrder
    ensures r.None? ==> forall k :: 0 <= k < |rows| && !rows[k].isDeleted ==> rows[k].displayOrder <= bound
  {
    if rows == [] then None
    else
      var n := |rows| - 1;
      var best := LeastAbove(rows[..n], bound);
      if rows[n].isDeleted || rows[n].displayOrder <= bound then best
      else if best.None? || rows[best.value].displayOrder > rows[n].displayOrder then Some(n)
      else best
  }

  // ---------------------------------------------------------------------------
  // Append-at-end ordering

  /** `MaxAsync(m => (int?)m.DisplayOrder)` over the live rows: null when there is none. */
  function MaxLiveOrder(rows: seq<Technician>): Option<Int32> {
    match GreatestBelow(rows, Int32Max + 1)
    case None => None
    case Some(i) => Some(rows[i].displayOrder)
  }

  /** `(max ?? 0) + 1`, computed in unchecked `int` arithmetic. */
  function NextDisplayOrder(rows: seq<Technician>): Int32 {
    Wrap32((match MaxLiveOrder(rows) case None => 0 case Some(m) => m) + 1)
  }

  /**
   * A new row goes after every live row: its DisplayOrder is one more than the
   * largest live DisplayOrder, or 1 when no row is live; this holds as long as the
   * largest live DisplayOrder is below `int.MaxValue`.
   */
  lemma NextDisplayOrderAppends(rows: seq<Technician>)
    requires forall k :: 0 <= k < |rows| && !rows[k].isDeleted ==> rows[k].displayOrder < Int32Max
    ensures forall k :: 0 <= k < |rows| && !rows[k].isDeleted ==> rows[k].displayOrder < NextDisplayOrder(rows)
    ensures (forall k :: 0 <= k < |rows| ==> rows[k].isDeleted) ==> NextDisplayOrder(rows) == 1
    ensures (exists k :: 0 <= k < |rows| && !rows[k].isDeleted) ==>
              exists k :: 0 <= k < |rows| && !rows[k].isDeleted && NextDisplayOrder(rows) == rows[k].displayOrder + 1
  {
    match GreatestBelow(rows, Int32Max + 1)
    case None =>
    case Some(i) =>
      assert NextDisplayOrder(rows) == rows[i].displayOrder + 1;
  }

  /**
   * At `int.MaxValue` the addition wraps: a row added after a live row with
   * DisplayOrder `int.MaxValue` gets `int.MinValue` and so sorts before every row.
   */
  lemma NextDisplayOrderWraps(rows: seq<Technician>, k: nat)
    requires k < |rows| && !rows[k].isDeleted && rows[k].displayOrder == Int32Max
    ensures NextDisplayOrder(rows) == Int32Min
    ensures forall j :: 0 <= j < |rows| ==> NextDisplayOrder(rows) <= rows[j].displayOrder
  {
  }

  /** Live DisplayOrders strictly increase in insertion order. */
  predicate LiveOrdersIncreasing(rows: seq<Technician>) {
    forall i, j :: 0 <= i < j < |rows| && !rows[i].isDeleted && !rows[j].isDeleted ==>
      rows[i].displayOrder < rows[j].displayOrder
  }

  /**
   * A run of `AddAsync` calls keeps live DisplayOrders strictly increasing in
   * insertion order (below `int.MaxValue`).
   */
  lemma AddKeepsOrdersIncreasing(rows: seq<Technician>, row: Technician)
    requires LiveOrdersIncreasing(rows)
    requires forall k :: 0 <= k < |rows| && !rows[k].isDeleted ==> rows[k].displayOrder < Int32Max
    ensures LiveOrdersIncreasing(rows + [row.(isDeleted := false, displayOrder := NextDisplayOrder(rows))])
  {
    NextDisplayOrderAppends(rows);
  }

  // ---------------------------------------------------------------------------
  // Reordering

  /** Exchanges the DisplayOrders of rows `i` and `j` and nothing else. */
  function SwapOrders(rows: seq<Technician>, i: nat, j: nat): (r: seq<Technician>)
    requires i < |rows| && j < |rows|
  {
    rows[i := rows[i].(displayOrder := rows[j].displayOrder)][j := rows[j].(displayOrder := rows[i].displayOrder)]
  }

  /** The row `MoveUpAsync(id)` moves and the row it trades DisplayOrder with, or None when it returns false. */
  function MoveUpPair(rows: seq<Technician>, id: int): Option<(nat, nat)> {
    match FindLive(rows, id)
    case None => None
    case Some(c) =>
      match GreatestBelow(rows, rows[c].displayOrder)
      case None => None
      case Some(u) => Some((c, u))
  }

  /** The row `MoveDownAsync(id)` moves and the row it trades DisplayOrder with, or None when it returns false. */
  function MoveDownPair(rows: seq<Technician>, id: int): Option<(nat, nat)> {
    match FindLive(rows, id)
    case None => None
    case Some(c) =>
      match LeastAbove(rows, rows[c].displayOrder)
      case None => None
      case Some(l) => Some((c, l))
  }

  /** The table after `MoveUpAsync(id)`. */
  function MovedUp(rows: seq<Technician>, id: int): seq<Technician> {
    match MoveUpPair(rows, id)
    case None => rows
    case Some((c, u)) => SwapOrders(rows, c, u)
  }

  /** The table after `MoveDownAsync(id)`. */
  function MovedDown(rows: seq<Technician>, id: int): seq<Technician> {
    match MoveDownPair(rows, id)
    case None => rows
    case Some((c, l)) => SwapOrders(rows, c, l)
  }

  /**
   * `MoveUpAsync(id)` refuses exactly when the row is missing or deleted, or when no
   * live row has a smaller DisplayOrder (it is already first); then nothing changes.
   */
  lemma MoveUpRefusal(rows: seq<Technician>, id: int)
    ensures MoveUpPair(rows, id).None? <==>
      FindLive(rows, id).None? ||
      (forall k :: 0 <= k < |rows| && !rows[k].isDeleted ==>
         rows[k].displayOrder >= rows[FindLive(rows, id).value].displayOrder)
    ensures MoveUpPair(rows, id).None? ==> MovedUp(rows, id) == rows
  {
  }

  /** The mirror image for `MoveDownAsync(id)`: it refuses on a missing, deleted or last row. */
  lemma MoveDownRefusal(rows: seq<Technician>, id: int)
    ensures MoveDownPair(rows, id).None? <==>
      FindLive(rows, id).None? ||
      (forall k :: 0 <= k < |rows| && !rows[k].isDeleted ==>
         rows[k].displayOrder <= rows[FindLive(rows, id).value].displayOrder)
    ensures MoveDownPair(rows, id).None? ==> MovedDown(rows, id) == rows
  {
  }

  /**
   * A successful `MoveUpAsync(id)` trades DisplayOrder between the live row with key
   * `id` and its nearest live predecessor (the greatest smaller DisplayOrder); no
   * other row and no other field changes.
   */
  lemma MoveUpTradesWithPredecessor(rows: seq<Technician>, id: int)
    requires MoveUpPair(rows, id).Some?
    ensures var (c, u) := MoveUpPair(rows, id).value;
            var r := MovedUp(rows, id);
            && |r| == |rows| && c != u
            && rows[c].id == id && !rows[c].isDeleted && !rows[u].isDeleted
            && rows[u].displayOrder < rows[c].displayOrder
            && (forall k :: 0 <= k < |rows| && !rows[k].isDeleted && rows[k].displayOrder < rows[c].displayOrder ==>
                  rows[k].displayOrder <= rows[u].displayOrder)
            && r[c] == rows[c].(displayOrder := rows[u].displayOrder)
            && r[u] == rows[u].(displayOrder := rows[c].displayOrder)
            && (forall k :: 0 <= k < |rows| && k != c && k != u ==> r[k] == rows[k])
  {
  }

  /** The mirror image: a successful `MoveDownAsync(id)` trades with the nearest live successor. */
  lemma MoveDownTradesWithSuccessor(rows: seq<Technician>, id: int)
    requires MoveDownPair(rows, id).Some?
    ensures var (c, l) := MoveDownPair(rows, id).value;
            var r := MovedDown(rows, id);
            && |r| == |rows| && c != l
            && rows[c].id == id && !rows[c].isDeleted && !rows[l].isDeleted
            && rows[l].displayOrder > rows[c].displayOrder
            && (forall k :: 0 <= k < |rows| && !rows[k].isDeleted && rows[k].displayOrder > rows[c].displayOrder ==>
                  rows[k].displayOrder >= rows[l].displayOrder)
            && r[c] == rows[c].(displayOrder := rows[l].displayOrder)
            && r[l] == rows[l].(displayOrder := rows[c].displayOrder)
            && (forall k :: 0 <= k < |rows| && k != c && k != l ==> r[k] == rows[k])
  {
  }

  /** The DisplayOrder column, row by row. */
  function Orders(rows: seq<Technician>): (r: seq<Int32>)
    ensures |r| == |rows| && forall k :: 0 <= k < |rows| ==> r[k] == rows[k].displayOrder
  {
    seq(|rows|, k requires 0 <= k < |rows| => rows[k].displayOrder)
  }

  /** `b` differs from `a` at most in DisplayOrders. */
  predicate OnlyOrdersDiffer(a: seq<Technician>, b: seq<Technician>) {
    |a| == |b| && forall k :: 0 <= k < |a| ==> b[k] == a[k].(displayOrder := b[k].displayOrder)
  }

  /** Exchanging two entries of a sequence keeps its multiset. */
  lemma SwapKeepsMultiset<T>(o: seq<T>, i: nat, j: nat)
    requires i < |o| && j < |o|
    ensures multiset(o[i := o[j]][j := o[i]]) == multiset(o)
  {
    var o1 := o[i := o[j]];
    assert multiset(o1) == multiset(o) - multiset{o[i]} + multiset{o[j]};
    assert o1[j] == o[j];
    assert multiset(o1[j := o[i]]) == multiset(o1) - multiset{o[j]} + multiset{o[i]};
  }

  /** A swap permutes the DisplayOrder column and leaves every other column alone. */
  lemma SwapPermutesOrders(rows: seq<Technician>, i: nat, j: nat)
    requires i < |rows| && j < |rows|
    ensures OnlyOrdersDiffer(rows, SwapOrders(rows, i, j))
    ensures multiset(Orders(SwapOrders(rows, i, j))) == multiset(Orders(rows))
  {
    var o := Orders(rows);
    var r := SwapOrders(rows, i, j);
    assert Orders(r) == o[i := o[j]][j := o[i]] by {
      forall k | 0 <= k < |r| ensures Orders(r)[k] == o[i := o[j]][j := o[i]][k] {
      }
    }
    SwapKeepsMultiset(o, i, j);
  }

  /**
   * Moving up or down never changes keys, deletion flags or any other field, and
   * preserves the multiset of DisplayOrder values.
   */
  lemma MovesPermuteOrders(rows: seq<Technician>, id: int)
    ensures OnlyOrdersDiffer(rows, MovedUp(rows, id))
    ensures multiset(Orders(MovedUp(rows, id))) == multiset(Orders(rows))
    ensures OnlyOrdersDiffer(rows, MovedDown(rows, id))
    ensures multiset(Orders(MovedDown(rows, id))) == multiset(Orders(rows))
  {
    if MoveUpPair(rows, id).Some? {
      var (c, u) := MoveUpPair(rows, id).value;
      SwapPermutesOrders(rows, c, u);
    }
    if MoveDownPair(rows, id).Some? {
      var (c, l) := MoveDownPair(rows, id).value;
      SwapPermutesOrders(rows, c, l);
    }
  }

  /** A live-row lookup only looks at keys and deletion flags. */
  lemma {:induction false} FindLiveIgnoresOrders(a: seq<Technician>, b: seq<Technician>, id: int)
    requires OnlyOrdersDiffer(a, b)
    ensures FindLive(b, id) == FindLive(a, id)
  {
    if a != [] {
      var n := |a| - 1;
      assert OnlyOrdersDiffer(a[..n], b[..n]);
      FindLiveIgnoresOrders(a[..n], b[..n], id);
    }
  }

  /** No two live rows share a DisplayOrder. */
  predicate DistinctLiveOrders(rows: seq<Technician>) {
    forall i, j :: 0 <= i < |rows| && 0 <= j < |rows| && i != j && !rows[i].isDeleted && !rows[j].isDeleted ==>
      rows[i].displayOrder != rows[j].displayOrder
  }

  /**
   * When live DisplayOrders are distinct, `MoveUpAsync(id)` followed by
   * `MoveDownAsync(id)` restores the table exactly.
   */
  lemma MoveUpThenDownRestores(rows: seq<Technician>, id: int)
    requires DistinctLiveOrders(rows)
    requires MoveUpPair(rows, id).Some?
    ensures MovedDown(MovedUp(rows, id), id) == rows
  {
    var (c, u) := MoveUpPair(rows, id).value;
    var r := MovedUp(rows, id);
    SwapPermutesOrders(rows, c, u);
    FindLiveIgnoresOrders(rows, r, id);
    assert r[c].displayOrder == rows[u].displayOrder && r[u].displayOrder == rows[c].displayOrder;
    var l := LeastAbove(r, r[c].displayOrder);
    assert l.Some? by {
      assert !r[u].isDeleted && r[u].displayOrder > r[c].displayOrder;
    }
    forall k | 0 <= k < |r| && k != u && k != c && !r[k].isDeleted && r[k].displayOrder > r[c].displayOrder
      ensures r[k].displayOrder > r[u].displayOrder
    {
      assert r[k] == rows[k];
    }
    assert l.value == u;
    assert MoveDownPair(r, id) == Some((c, u));
    assert SwapOrders(r, c, u) == rows;
  }

  /**
   * When live DisplayOrders are distinct, `MoveDownAsync(id)` followed by
   * `MoveUpAsync(id)` restores the table exactly.
   */
  lemma MoveDownThenUpRestores(rows: seq<Technician>, id: int)
    requires DistinctLiveOrders(rows)
    requires MoveDownPair(rows, id).Some?
    ensures MovedUp(MovedDown(rows, id), id) == rows
  {
    var (c, l) := MoveDownPair(rows, id).value;
    var r := MovedDown(rows, id);
    SwapPermutesOrders(rows, c, l);
    FindLiveIgnoresOrders(rows, r, id);
    assert r[c].displayOrder == rows[l].displayOrder && r[l].displayOrder == rows[c].displayOrder;
    var u := GreatestBelow(r, r[c].displayOrder);
    assert u.Some? by {
      assert !r[l].isDeleted && r[l].displayOrder < r[c].displayOrder;
    }
    forall k | 0 <= k < |r| && k != l && k != c && !r[k].isDeleted && r[k].displayOrder < r[c].displayOrder
      ensures r[k].displayOrder < r[l].displayOrder
    {
      assert r[k] == rows[k];
    }
    assert u.value == l;
    assert MoveUpPair(r, id) == Some((c, l));
    assert SwapOrders(r, c, l) == rows;
  }

  // ---------------------------------------------------------------------------
  // Search

  /** The `sortOrder` switch: "Name", "NameDesc", and DisplayOrder for anything else. */
  function SortKeyOf(sortOrder: string): SortKey {
    if sortOrder == "Name" then ByName
    else if sortOrder == "NameDesc" then ByNameDesc
    else ByDisplayOrder
  }

  /** The rows the search keeps: live rows, narrowed by name unless the query is null or empty. */
  function SearchMatches(rows: seq<Technician>, searchQuery: string): seq<Technician> {
    if searchQuery == "" then Live(rows) else Matching(Live(rows), searchQuery)
  }

  /** Every row the search keeps is live and, for a non-empty query, matches it by name. */
  lemma SearchMatchesMembers(rows: seq<Technician>, searchQuery: string)
    ensures forall t :: t in SearchMatches(rows, searchQuery) <==>
              t in rows && !t.isDeleted && (searchQuery == "" || NameMatches(t, searchQuery))
  {
  }

  /** A page of a sorted sequence is sorted. */
  lemma PageOfSorted(key: SortKey, s: seq<Technician>, offset: int, size: int)
    requires IsSorted(key, s)
    ensures IsSorted(key, Page(s, offset, size))
  {
    var items := Page(s, offset, size);
    var start := PageStart(offset, |s|);
    forall i, j | 0 <= i < j < |items| ensures Before(key, items[i], items[j]) {
      assert items[i] == s[start + i] && items[j] == s[start + j];
    }
  }

  /**
   * `items` is the page at `offset` of size `size` cut from some ordering of the
   * search matches sorted under `key` (SQL Server may order equal keys either way).
   */
  ghost predicate IsPageOfSortedMatches(items: seq<Technician>, rows: seq<Technician>, searchQuery: string,
                                        key: SortKey, offset: int, size: int) {
    exists s :: IsSorted(key, s) && multiset(s) == multiset(SearchMatches(rows, searchQuery))
                && items == Page(s, offset, size)
  }

  /**
   * The search at an already computed offset: filter, sort, count, then skip and
   * take; SQL Server refuses a negative OFFSET or a FETCH of fewer than one row.
   */
  function SearchPage(rows: seq<Technician>, searchQuery: string, key: SortKey, offset: int, size: int)
    : (r: Outcome<ArticleSet<Technician>>)
    ensures r.Threw? <==> offset < 0 || size <= 0
    ensures r.Threw? ==> r.fault == OffsetFetchRejected
    ensures r.Returned? ==>
              && r.value.totalCount == |SearchMatches(rows, searchQuery)|
              && |r.value.items| <= size
              && |r.value.items| <= r.value.totalCount
              && IsSorted(key, r.value.items)
              && (forall t :: t in r.value.items ==>
                    t in rows && !t.isDeleted && (searchQuery == "" || NameMatches(t, searchQuery)))
    ensures r.Returned? ==> IsPageOfSortedMatches(r.value.items, rows, searchQuery, key, offset, size)
  {
    if offset < 0 || size <= 0 then Threw(OffsetFetchRejected)
    else
      var matches := SearchMatches(rows, searchQuery);
      var sorted := SortRows(key, matches);
      var items := Page(sorted, offset, size);
      PageOfSorted(key, sorted, offset, size);
      assert forall t :: t in items ==> t in matches by {
        forall t | t in items ensures t in matches {
          assert t in multiset(sorted);
        }
      }
      SearchMatchesMembers(rows, searchQuery);
      assert IsPageOfSortedMatches(items, rows, searchQuery, key, offset, size) by {
        assert IsSorted(key, sorted) && multiset(sorted) == multiset(matches) && items == Page(sorted, offset, size);
      }
      Returned(ArticleSet(items, |sorted|))
  }

  // ---------------------------------------------------------------------------
  // The repository

  class TechnicianRepository {
    const db: TechniciansDb

    constructor (db: TechniciansDb)
      ensures this.db == db
    {
      this.db := db;
    }

    /** The repository works on a well-formed database whose Technicians table exists. */
    ghost predicate Valid()
      reads db
    {
      db.Valid() && db.tableExists
    }

    /**
     * `AddAsync`: stamps Created, clears IsDeleted and appends the row after the
     * live rows. SQL Server refuses a caller-chosen key (`Id` is an identity column)
     * and a null Active (the column is NOT NULL); a refused INSERT changes nothing.
     */
    method Add(model: Technician, now: Timestamp) returns (r: Outcome<Technician>)
      requires Valid()
      modifies db
      ensures Valid()
      ensures db.tableExists == old(db.tableExists) && db.columns == old(db.columns)
      ensures r.Threw? <==> model.id != 0 || model.active.None?
      ensures r.Threw? ==>
                && r.fault == (if model.id != 0 then IdentityInsertRejected else NotNullViolation)
                && db.rows == old(db.rows) && db.nextId == old(db.nextId)
      ensures r.Returned? ==>
                var stored := model.(id := old(db.nextId), created := now, isDeleted := false,
                                     displayOrder := NextDisplayOrder(old(db.rows)));
                r == Returned(stored) && db.rows == old(db.rows) + [stored] && db.nextId == old(db.nextId) + 1
    {
      var m := model.(created := now, isDeleted := false);
      var maxDisplayOrder := match MaxLiveOrder(db.rows) case None => 0 case Some(x) => x;
      m := m.(displayOrder := Wrap32(maxDisplayOrder + 1));
      if m.id != 0 {
        return Threw(IdentityInsertRejected);
      }
      if m.active.None? {
        return Threw(NotNullViolation);
      }
      var stored := db.InsertRow(m);
      r := Returned(stored);
    }

    /** `AddAsyncDefault`: like `Add`, but the caller's DisplayOrder is stored as given. */
    method AddDefault(model: Technician, now: Timestamp) returns (r: Outcome<Technician>)
      requires Valid()
      modifies db
      ensures Valid()
      ensures db.tableExists == old(db.tableExists) && db.columns == old(db.columns)
      ensures r.Threw? <==> model.id != 0 || model.active.None?
      ensures r.Threw? ==>
                && r.fault == (if model.id != 0 then IdentityInsertRejected else NotNullViolation)
                && db.rows == old(db.rows) && db.nextId == old(db.nextId)
      ensures r.Returned? ==>
                var stored := model.(id := old(db.nextId), created := now, isDeleted := false);
                r == Returned(stored) && db.rows == old(db.rows) + [stored] && db.nextId == old(db.nextId) + 1
    {
      var m := model.(created := now, isDeleted := false);
      if m.id != 0 {
        return Threw(IdentityInsertRejected);
      }
      if m.active.None? {
        return Threw(NotNullViolation);
      }
      var stored := db.InsertRow(m);
      r := Returned(stored);
    }

    /** `GetAllAsync()`: exactly the live rows, in ascending DisplayOrder. */
    function GetAll(): (r: seq<Technician>)
      reads db
      ensures IsSorted(ByDisplayOrder, r)
      ensures multiset(r) == multiset(Live(db.rows))
    {
      SortRows(ByDisplayOrder, Live(db.rows))
    }

    /** `GetByIdAsync(id)`: the live row with key `id`, or `new Technician()` when there is none. */
    function GetById(id: int): (r: Technician)
      reads db
      ensures (exists k :: 0 <= k < |db.rows| && db.rows[k].id == id && !db.rows[k].isDeleted) ==>
                r in db.rows && r.id == id && !r.isDeleted
      ensures (forall k :: 0 <= k < |db.rows| ==> db.rows[k].id != id || db.rows[k].isDeleted) ==>
                r == Default()
    {
      match FindLive(db.rows, id)
      case None => Default()
      case Some(k) => db.rows[k]
    }

    /**
     * `UpdateAsync(model)`: the whole entity is attached as Modified, so every
     * column of the row with key `model.Id` is overwritten, IsDeleted and
     * DisplayOrder included, whether or not the row is deleted. An unset key (0)
     * is a temporary value EF Core refuses to mark Modified; when no row has the
     * key the UPDATE matches nothing and EF Core throws; a null Active is refused
     * by the NOT NULL column. Every refusal leaves the table as it was.
     */
    method Update(model: Technician) returns (r: Outcome<bool>)
      requires Valid()
      modifies db
      ensures Valid()
      ensures db.tableExists == old(db.tableExists) && db.columns == old(db.columns) && db.nextId == old(db.nextId)
      ensures model.id == 0 ==> r == Threw(TemporaryKeyValue) && db.rows == old(db.rows)
      ensures model.id != 0 ==>
                match FindById(old(db.rows), model.id)
                case Some(k) =>
                  if model.active.None? then r == Threw(NotNullViolation) && db.rows == old(db.rows)
                  else r == Returned(true) && db.rows == old(db.rows)[k := model]
                case None => r == Threw(ConcurrencyConflict) && db.rows == old(db.rows)
    {
      if model.id == 0 {
        return Threw(TemporaryKeyValue);
      }
      var k := FindById(db.rows, model.id);
      if k.None? {
        return Threw(ConcurrencyConflict);
      }
      if model.active.None? {
        return Threw(NotNullViolation);
      }
      SameIdsKeepWellFormed(db.State(), db.rows[k.value := model]);
      db.rows := db.rows[k.value := model];
      r := Returned(true);
    }

    /**
     * `DeleteAsync(id)`: finds the row by key; a missing or already deleted row
     * gives false, otherwise IsDeleted is set and the result is true.
     */
    method Delete(id: int) returns (deleted: bool)
      requires Valid()
      modifies db
      ensures Valid()
      ensures db.tableExists == old(db.tableExists) && db.columns == old(db.columns) && db.nextId == old(db.nextId)
      ensures deleted <==> FindLive(old(db.rows), id).Some?
      ensures db.rows == SoftDeleted(old(db.rows), id)
    {
      LookupByKeyAgrees(db.rows, id);
      SoftDeleteKeepsWellFormed(db.State(), id);
      var k := FindById(db.rows, id);
      if k.None? || db.rows[k.value].isDeleted {
        return false;
      }
      var entity := db.rows[k.value].(isDeleted := true);
      db.rows := db.rows[k.value := entity];
      deleted := true;
    }

    /**
     * The paged search (`GetAllAsync<T>(pageIndex, pageSize, searchField, searchQuery,
     * sortOrder, parentIdentifier)`; `searchField` and the parent identifier are not
     * used). The total is counted before paging; SQL Server refuses a negative
     * OFFSET or a FETCH of fewer than one row.
     */
    function GetPage(pageIndex: Int32, pageSize: Int32, searchField: string, searchQuery: string,
                     sortOrder: string): (r: Outcome<ArticleSet<Technician>>)
      reads db
      ensures r.Threw? <==> Offset(pageIndex, pageSize) < 0 || pageSize <= 0
      ensures r.Threw? ==> r.fault == OffsetFetchRejected
      ensures r.Returned? ==>
                && r.value.totalCount == |SearchMatches(db.rows, searchQuery)|
                && |r.value.items| <= pageSize
                && |r.value.items| <= r.value.totalCount
                && IsSorted(SortKeyOf(sortOrder), r.value.items)
                && (forall t :: t in r.value.items ==>
                      t in db.rows && !t.isDeleted && (searchQuery == "" || NameMatches(t, searchQuery)))
      ensures r.Returned? ==>
                IsPageOfSortedMatches(r.value.items, db.rows, searchQuery, SortKeyOf(sortOrder),
                                      Offset(pageIndex, pageSize), pageSize)
    {
      SearchPage(db.rows, searchQuery, SortKeyOf(sortOrder), Offset(pageIndex, pageSize), pageSize)
    }

    /**
     * `MoveUpAsync(id)`: swaps DisplayOrder with the nearest live row above
     * (the greatest smaller DisplayOrder) and writes both rows back.
     */
    method MoveUp(id: int) returns (moved: bool)
      requires Valid()
      modifies db
      ensures Valid()
      ensures db.tableExists == old(db.tableExists) && db.columns == old(db.columns) && db.nextId == old(db.nextId)
      ensures moved <==> MoveUpPair(old(db.rows), id).Some?
      ensures db.rows == MovedUp(old(db.rows), id)
    {
      var current := FindLive(db.rows, id);
      if current.None? {
        return false;
      }
      var c := current.value;
      var upper := GreatestBelow(db.rows, db.rows[c].displayOrder);
      if upper.None? {
        return false;
      }
      var u := upper.value;
      var temp := db.rows[c].displayOrder;
      var currentRow := db.rows[c].(displayOrder := db.rows[u].displayOrder);
      var upperRow := db.rows[u].(displayOrder := temp);
      SameIdsKeepWellFormed(db.State(), db.rows[c := currentRow][u := upperRow]);
      db.rows := db.rows[c := currentRow][u := upperRow];
      moved := true;
    }

    /**
     * `MoveDownAsync(id)`: swaps DisplayOrder with the nearest live row below
     * (the least larger DisplayOrder) and writes both rows back.
     */
    method MoveDown(id: int) returns (moved: bool)
      requires Valid()
      modifies db
      ensures Valid()
      ensures db.tableExists == old(db.tableExists) && db.columns == old(db.columns) && db.nextId == old(db.nextId)
      ensures moved <==> MoveDownPair(old(db.rows), id).Some?
      ensures db.rows == MovedDown(old(db.rows), id)
    {
      var current := FindLive(db.rows, id);
      if current.None? {
        return false;
      }
      var c := current.value;
      var lower := LeastAbove(db.rows, db.rows[c].displayOrder);
      if lower.None? {
        return false;
      }
      var l := lower.value;
      var temp := db.rows[c].displayOrder;
      var currentRow := db.rows[c].(displayOrder := db.rows[l].displayOrder);
      var lowerRow := db.rows[l].(displayOrder := temp);
      SameIdsKeepWellFormed(db.State(), db.rows[c := currentRow][l := lowerRow]);
      db.rows := db.rows[c := currentRow][l := lowerRow];
      moved := true;
    }
  }

  // ---------------------------------------------------------------------------
  // Facts about the repository's reads

  /**
   * The "not found" value cannot be mistaken for a stored row: every stored key is
   * at least 1, while `new Technician()` has key 0.
   */
  lemma NotFoundHasKeyZero(repo: TechnicianRepository, id: int)
    requires repo.Valid()
    ensures repo.GetById(id).id == 0 <==> FindLive(repo.db.rows, id).None?
  {
  }

  /**
   * With an empty query and the DisplayOrder sort, a first page large enough to hold
   * every live row is exactly `GetAllAsync()`, and the total is its length.
   */
  lemma FirstPageOfEverythingIsGetAll(repo: TechnicianRepository, pageSize: Int32, searchField: string, sortOrder: string)
    requires SortKeyOf(sortOrder) == ByDisplayOrder
    requires 0 < pageSize && |Live(repo.db.rows)| <= pageSize
    ensures repo.GetPage(0, pageSize, searchField, "", sortOrder) == Returned(ArticleSet(repo.GetAll(), |repo.GetAll()|))
  {
    var all := repo.GetAll();
    assert |all| == |Live(repo.db.rows)| by {
      assert |multiset(all)| == |multiset(Live(repo.db.rows))|;
    }
    assert Offset(0, pageSize) == 0;
    assert Page(all, 0, pageSize) == all;
  }
}
