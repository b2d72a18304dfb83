/**
 * The three orders the EF Core search can apply (`OrderBy(m => m.DisplayOrder)`,
 * `OrderBy(m => m.Name)`, `OrderByDescending(m => m.Name)`) and a sort that realises
 * them. SQL Server does not promise any order among equal keys, so only
 * sortedness and the permutation property are claimed of the result.
 */
module Ordering {
  import opened Primitives
  import opened Text
  import opened Technicians

  datatype SortKey = ByDisplayOrder | ByName | ByNameDesc

  /** SQL Server's ascending order on the nullable Name column: NULL first, then ordinal order. */
  predicate NameLeq(a: Option<string>, b: Option<string>) {
    a.None? || (b.Some? && LexLeq(a.value, b.value))
  }

  /** `a` may be listed before `b` under `key` (descending by name puts NULL last). */
  predicate Before(key: SortKey, a: Technician, b: Technician) {
    match key
    case ByDisplayOrder => a.displayOrder <= b.displayOrder
    case ByName => NameLeq(a.name, b.name)
    case ByNameDesc => NameLeq(b.name, a.name)
  }

  lemma BeforeTotal(key: SortKey, a: Technician, b: Technician)
    ensures Before(key, a, b) || Before(key, b, a)
  {
    if a.name.Some? && b.name.Some? {
      LexLeqTotal(a.name.value, b.name.value);
    }
  }

  lemma BeforeTransitive(key: SortKey, a: Technician, b: Technician, c: Technician)
    requires Before(key, a, b) && Before(key, b, c)
    ensures Before(key, a, c)
  {
    match key
    case ByDisplayOrder =>
    case ByName =>
      if a.name.Some? {
        LexLeqTransitive(a.name.value, b.name.value, c.name.value);
      }
    case ByNameDesc =>
      if c.name.Some? {
        LexLeqTransitive(c.name.value, b.name.value, a.name.value);
      }
  }

  predicate IsSorted(key: SortKey, s: seq<Technician>) {
    forall i, j :: 0 <= i < j < |s| ==> Before(key, s[i], s[j])
  }

  /** A head that may precede every element of a sorted tail gives a sorted sequence. */
  lemma ConsSorted(key: SortKey, h: Technician, tail: seq<Technician>)
    requires IsSorted(key, tail)
    requires forall j :: 0 <= j < |tail| ==> Before(key, h, tail[j])
    ensures IsSorted(key, [h] + tail)
  {
    var r := [h] + tail;
    forall i, j | 0 <= i < j < |r| ensures Before(key, r[i], r[j]) {
      if i == 0 {
        assert r[j] == tail[j - 1];
      } else {
        assert r[i] == tail[i - 1] && r[j] == tail[j - 1];
      }
    }
  }

  /** `x` may go in front of a sorted `s` whose first element it may precede. */
  lemma InsertInFront(key: SortKey, x: Technician, s: seq<Technician>)
    requires IsSorted(key, s) && s != [] && Before(key, x, s[0])
    ensures IsSorted(key, [x] + s)
  {
    forall j | 0 <= j < |s| ensures Before(key, x, s[j]) {
      if j > 0 {
        BeforeTransitive(key, x, s[0], s[j]);
      }
    }
    ConsSorted(key, x, s);
  }

  /** When `x` does not go first, the head of `s` stays in front of `x` inserted into the rest. */
  lemma InsertBehindHead(key: SortKey, x: Technician, s: seq<Technician>, rest: seq<Technician>)
    requires IsSorted(key, s) && s != [] && !Before(key, x, s[0])
    requires IsSorted(key, rest) && multiset(rest) == multiset(s[1..]) + multiset{x}
    ensures IsSorted(key, [s[0]] + rest)
    ensures multiset([s[0]] + rest) == multiset(s) + multiset{x}
  {
    assert s == [s[0]] + s[1..];
    forall j | 0 <= j < |rest| ensures Before(key, s[0], rest[j]) {
      assert rest[j] in multiset(rest);
      if rest[j] == x {
        BeforeTotal(key, x, s[0]);
      } else {
        assert rest[j] in multiset(s[1..]);
        var k :| 0 <= k < |s[1..]| && s[1..][k] == rest[j];
        assert s[k + 1] == rest[j];
      }
    }
    ConsSorted(key, s[0], rest);
  }

  /** Inserts `x` into the sorted `s` in front of the first element it may precede. */
  function Insert(key: SortKey, x: Technician, s: seq<Technician>): (r: seq<Technician>)
    requires IsSorted(key, s)
    ensures IsSorted(key, r)
    ensures multiset(r) == multiset(s) + multiset{x}
  {
    if s == [] then [x]
    else if Before(key, x, s[0]) then
      InsertInFront(key, x, s);
      [x] + s
    else
      var rest := Insert(key, x, s[1..]);
      InsertBehindHead(key, x, s, rest);
      [s[0]] + rest
  }

  /** Insertion sort: the result is sorted under `key` and is a permutation of `s`. */
  function SortRows(key: SortKey, s: seq<Technician>): (r: seq<Technician>)
    ensures IsSorted(key, r)
    ensures multiset(r) == multiset(s)
  {
    if s == [] then []
    else
      assert s == [s[0]] + s[1..];
      Insert(key, s[0], SortRows(key, s[1..]))
  }
}
