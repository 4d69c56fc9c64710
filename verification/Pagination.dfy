/** Pages of a list, numbered from 1; page arithmetic on mathematical integers. */
module Pagination {
  function Clamp(n: int, total: nat): nat {
    if n < 0 then 0 else if n > total then total else n
  }

  /** The slice the list pages show; a page number below 1 means page 1. */
  function Page<T>(s: seq<T>, page: int, size: nat): (p: seq<T>)
    requires size > 0
    ensures |p| <= size
  {
    var n := if page < 1 then 1 else page;
    PageBounds(|s|, n, size);
    s[Clamp((n - 1) * size, |s|)..Clamp((n - 1) * size + size, |s|)]
  }

  lemma PageBounds(total: nat, n: int, size: nat)
    requires n >= 1 && size > 0
    ensures (n - 1) * size >= 0
    ensures Clamp((n - 1) * size, total) <= Clamp((n - 1) * size + size, total) <= total
    ensures Clamp((n - 1) * size + size, total) - Clamp((n - 1) * size, total) <= size
  {
    assert (n - 1) * size >= 0;
  }

  /** ceil(total / size). */
  function TotalPages(total: nat, size: nat): nat
    requires size > 0
  {
    (total + size - 1) / size
  }

  function Pages<T>(s: seq<T>, n: nat, size: nat): seq<T>
    requires size > 0
  {
    if n == 0 then [] else Pages(s, n - 1, size) + Page(s, n, size)
  }

  lemma {:induction false} PagesArePrefix<T>(s: seq<T>, n: nat, size: nat)
    requires size > 0
    ensures n * size >= 0 && Pages(s, n, size) == s[..Clamp(n * size, |s|)]
  {
    if n > 0 {
      PagesArePrefix(s, n - 1, size);
      PageBounds(|s|, n, size);
      assert n * size == (n - 1) * size + size;
    }
  }

  lemma CeilCovers(total: nat, size: nat)
    requires size > 0
    ensures TotalPages(total, size) * size >= total
    ensures total > 0 ==> (TotalPages(total, size) - 1) * size < total
  {
    var t := TotalPages(total, size);
    var r := (total + size - 1) % size;
    assert total + size - 1 == t * size + r;
    assert (t - 1) * size == t * size - size;
  }

  lemma PastTheEnd<T>(s: seq<T>, page: int, size: nat)
    requires size > 0 && page > TotalPages(|s|, size) && page >= 1
    ensures Page(s, page, size) == []
  {
    var t := TotalPages(|s|, size);
    CeilCovers(|s|, size);
    hide TotalPages;
    MulMonotone(t, page - 1, size);
    PageBounds(|s|, page, size);
  }

  lemma UpToTheEnd<T>(s: seq<T>, page: int, size: nat)
    requires size > 0 && 1 <= page <= TotalPages(|s|, size)
    ensures Page(s, page, size) != []
  {
    var t := TotalPages(|s|, size);
    CeilCovers(|s|, size);
    hide TotalPages;
    MulMonotone(page - 1, t - 1, size);
    PageBounds(|s|, page, size);
  }

  /** The pages put end to end are the list, every later page is empty, and no earlier page is. */
  lemma PagesCoverList<T>(s: seq<T>, size: nat)
    requires size > 0
    ensures Pages(s, TotalPages(|s|, size), size) == s
    ensures forall page :: page > TotalPages(|s|, size) && page >= 1 ==> Page(s, page, size) == []
    ensures forall page :: 1 <= page <= TotalPages(|s|, size) ==> Page(s, page, size) != []
    ensures forall page :: page < 1 ==> Page(s, page, size) == Page(s, 1, size)
  {
    PagesArePrefix(s, TotalPages(|s|, size), size);
    CeilCovers(|s|, size);
    hide TotalPages, Page;
    forall page | page > TotalPages(|s|, size) && page >= 1 ensures Page(s, page, size) == [] {
      PastTheEnd(s, page, size);
    }
    forall page | 1 <= page <= TotalPages(|s|, size) ensures Page(s, page, size) != [] { UpToTheEnd(s, page, size); }
  }

  lemma MulMonotone(a: int, b: int, size: nat)
    requires a <= b
    ensures a * size <= b * size
  {
  }

  function Map<T, U>(f: T -> U, s: seq<T>): (r: seq<U>)
    ensures |r| == |s| && forall i :: 0 <= i < |s| ==> r[i] == f(s[i])
  {
    if s == [] then [] else [f(s[0])] + Map(f, s[1..])
  }

  /** Slicing then mapping is mapping then slicing. */
  lemma PageOfMap<T, U>(f: T -> U, s: seq<T>, page: int, size: nat)
    requires size > 0
    ensures Page(Map(f, s), page, size) == Map(f, Page(s, page, size))
  {
    var n := if page < 1 then 1 else page;
    PageBounds(|s|, n, size);
  }

  lemma {:induction false} MapAppend<T, U>(f: T -> U, a: seq<T>, b: seq<T>)
    ensures Map(f, a + b) == Map(f, a) + Map(f, b)
  {
    assert forall i :: 0 <= i < |a + b| ==> Map(f, a + b)[i] == (Map(f, a) + Map(f, b))[i];
  }

  // ----- lists put together from parts -----

  function Total<T>(parts: seq<seq<T>>): nat {
    if parts == [] then 0 else Total(parts[..|parts| - 1]) + |parts[|parts| - 1]|
  }

  /** The list holds the parts one after the other: item k of part i stands behind everything in the parts before. */
  ghost predicate InOrder<T>(parts: seq<seq<T>>, list: seq<T>) {
    && |list| == Total(parts)
    && forall i, k :: 0 <= i < |parts| && 0 <= k < |parts[i]| ==> StandsAt(parts, list, i, k)
  }

  ghost predicate StandsAt<T>(parts: seq<seq<T>>, list: seq<T>, i: nat, k: nat)
    requires i < |parts| && k < |parts[i]|
  {
    Total(parts[..i]) + k < |list| && list[Total(parts[..i]) + k] == parts[i][k]
  }

  lemma {:induction false} TotalGrows<T>(parts: seq<seq<T>>, i: nat)
    requires i < |parts|
    ensures Total(parts[..i]) + |parts[i]| <= Total(parts)
  {
    var init := parts[..|parts| - 1];
    if i < |init| {
      TotalGrows(init, i);
      assert init[..i] == parts[..i];
    }
  }

  lemma InOrderSnoc<T>(parts: seq<seq<T>>, list: seq<T>, last: seq<T>)
    requires InOrder(parts, list)
    ensures InOrder(parts + [last], list + last)
  {
    var all := parts + [last];
    assert all[..|all| - 1] == parts;
    forall i, k | 0 <= i < |all| && 0 <= k < |all[i]|
      ensures StandsAt(all, list + last, i, k)
    {
      if i < |parts| {
        TotalGrows(parts, i);
        assert all[..i] == parts[..i] && all[i][k] == parts[i][k];
        assert StandsAt(parts, list, i, k);
      } else {
        assert all[..i] == parts && all[i] == last;
        assert (list + last)[|list| + k] == last[k];
      }
    }
    assert |list + last| == Total(all);
  }
}
