/**
 * Paging as both repositories write it: `Skip(pageIndex * pageSize).Take(pageSize)`
 * with the product computed in C#'s unchecked 32-bit arithmetic, and the result
 * returned with the number of matches counted before paging.
 */
module Paging {
  import opened Primitives

  /** `ArticleSet<T, int>`: one page of items and the number of matching items before paging. */
  datatype ArticleSet<T> = ArticleSet(items: seq<T>, totalCount: int)

  /** `pageIndex * pageSize` as an unchecked C# `int` product. */
  function Offset(pageIndex: Int32, pageSize: Int32): Int32 {
    Wrap32(pageIndex * pageSize)
  }

  /** LINQ's `Skip(n)`: a suffix of `s`, all of it when `n` is not positive. */
  function Skip<T>(s: seq<T>, n: int): (r: seq<T>)
    ensures |r| <= |s| && r == s[|s| - |r|..]
    ensures forall t :: t in r ==> t in s
    ensures n <= 0 ==> r == s
    ensures n > 0 ==> |r| == if n < |s| then |s| - n else 0
  {
    if n <= 0 then s else if n < |s| then s[n..] else []
  }

  /** LINQ's `Take(n)`: a prefix of `s` of at most `n` items, none when `n` is not positive. */
  function Take<T>(s: seq<T>, n: int): (r: seq<T>)
    ensures r <= s
    ensures forall t :: t in r ==> t in s
    ensures |r| == if n <= 0 then 0 else if n < |s| then n else |s|
  {
    if n <= 0 then [] else if n < |s| then s[..n] else s
  }

  /**
   * One page: at most `size` consecutive items of `s`, starting at `offset`
   * (at the start when `offset` is negative).
   */
  function Page<T>(s: seq<T>, offset: int, size: int): (r: seq<T>)
    ensures |r| <= |s| && (size <= 0 ==> r == []) && (size > 0 ==> |r| <= size)
    ensures PageStart(offset, |s|) + |r| <= |s|
    ensures forall i :: 0 <= i < |r| ==> r[i] == s[PageStart(offset, |s|) + i]
    ensures forall t :: t in r ==> t in s
  {
    var start := PageStart(offset, |s|);
    var count := if size <= 0 then 0 else if size < |s| - start then size else |s| - start;
    s[start..start + count]
  }

  /** Where a page cut at `offset` starts in a sequence of length `n`. */
  function PageStart(offset: int, n: nat): (k: nat)
    ensures k <= n
  {
    if offset <= 0 then 0 else if offset < n then offset else n
  }

  /** A page is what `Skip(offset).Take(size)` yields. */
  lemma PageIsSkipThenTake<T>(s: seq<T>, offset: int, size: int)
    ensures Page(s, offset, size) == Take(Skip(s, offset), size)
  {
  }

  /**
   * Pages tile the sequence: item `q` of page `pageIndex` is item
   * `pageIndex * size + q` of `s`, as long as that page's offset fits in an `int`.
   */
  lemma PageHoldsItem<T>(s: seq<T>, pageIndex: Int32, size: Int32, q: int)
    requires 0 <= pageIndex && 0 <= q < size
    requires pageIndex * size <= Int32Max && pageIndex * size + q < |s|
    ensures var page := Page(s, Offset(pageIndex, size), size);
            q < |page| && page[q] == s[pageIndex * size + q]
  {
    var offset := pageIndex * size;
    assert offset >= 0 by { ProductOfNaturals(pageIndex, size); }
    assert Offset(pageIndex, size) == offset;
  }

  lemma ProductOfNaturals(a: nat, b: nat)
    ensures a * b >= 0
  {
  }
}
