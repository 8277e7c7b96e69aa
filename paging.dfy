/**
 * Keyset pagination as the repositories' SQL does it: filter the table, order by
 * (created_at, id), keep the first LIMIT rows. The "next" filter compares both
 * columns separately (created_at > $c AND id > $id), the "prev" filter compares the
 * pair lexicographically. A mode other than "next" and "prev" selects no query text.
 */
module Paging {
  import opened Model

  /** The ordering key of a row: (created_at, id). */
  datatype Cursor = Cursor(createdAt: int, id: int)

  /** Strict lexicographic order on (created_at, id): the "prev" condition. */
  predicate Below(a: Cursor, b: Cursor)
  {
    a.createdAt < b.createdAt || (a.createdAt == b.createdAt && a.id < b.id)
  }

  /** The "next" condition as written: both columns strictly greater than the cursor's. */
  predicate Beyond(a: Cursor, cursor: Cursor)
  {
    a.createdAt > cursor.createdAt && a.id > cursor.id
  }

  /** a may precede b in an ORDER BY created_at, id (ASC or DESC). */
  predicate Ordered(a: Cursor, b: Cursor, ascending: bool)
  {
    if ascending then !Below(b, a) else !Below(a, b)
  }

  ghost predicate Sorted<T(!new)>(s: seq<T>, key: T -> Cursor, ascending: bool)
  {
    forall i, j :: 0 <= i < j < |s| ==> Ordered(key(s[i]), key(s[j]), ascending)
  }

  function Min(a: int, b: int): int
  {
    if a < b then a else b
  }

  /** The rows of s satisfying p, in table order (a WHERE clause). */
  function Filter<T(!new)>(s: seq<T>, p: T -> bool): (r: seq<T>)
    ensures |r| <= |s|
    ensures forall x :: x in r <==> x in s && p(x)
  {
    if s == [] then []
    else
      var init, last := s[..|s| - 1], s[|s| - 1];
      assert s == init + [last];
      Filter(init, p) + (if p(last) then [last] else [])
  }

  /**
   * The record a single-row scan fills: the first row of the result set, or the zero
   * record when the result set is empty.
   */
  function FirstOr<T(!new)>(s: seq<T>, p: T -> bool, zero: T): (r: T)
    ensures (forall x :: x in s ==> !p(x)) ==> r == zero
  {
    if s == [] then zero
    else if p(s[0]) then s[0]
    else FirstOr(s[1..], p, zero)
  }

  /** The scan takes the FIRST matching row: the one at the lowest position that matches. */
  lemma {:induction false} FirstOrIsFirst<T(!new)>(s: seq<T>, p: T -> bool, zero: T, k: int)
    requires 0 <= k < |s| && p(s[k])
    requires forall j :: 0 <= j < k ==> !p(s[j])
    ensures FirstOr(s, p, zero) == s[k]
  {
    if k > 0 {
      assert !p(s[0]);
      forall j | 0 <= j < k - 1 ensures !p(s[1..][j]) {
        assert s[1..][j] == s[j + 1];
      }
      FirstOrIsFirst(s[1..], p, zero, k - 1);
    }
  }

  /** The first matching row is a matching row of the table. */
  lemma {:induction false} FirstOrMatches<T(!new)>(s: seq<T>, p: T -> bool, zero: T)
    requires exists x :: x in s && p(x)
    ensures FirstOr(s, p, zero) in s && p(FirstOr(s, p, zero))
  {
    if !p(s[0]) {
      var x :| x in s && p(x);
      assert x in s[1..];
      FirstOrMatches(s[1..], p, zero);
    }
  }

  /** Inserts x into a sequence, after every leading element that may precede it. */
  function Insert<T(!new)>(x: T, s: seq<T>, key: T -> Cursor, ascending: bool): (r: seq<T>)
    ensures multiset(r) == multiset(s) + multiset{x}
  {
    if s == [] || Ordered(key(x), key(s[0]), ascending) then
      [x] + s
    else
      assert s == [s[0]] + s[1..];
      [s[0]] + Insert(x, s[1..], key, ascending)
  }

  lemma OrderedTransitive(a: Cursor, b: Cursor, c: Cursor, ascending: bool)
    requires Ordered(a, b, ascending) && Ordered(b, c, ascending)
    ensures Ordered(a, c, ascending)
  {
  }

  /** Prepending an element that may precede the head keeps a sequence sorted. */
  lemma PrependKeepsSorted<T(!new)>(x: T, s: seq<T>, key: T -> Cursor, ascending: bool)
    requires Sorted(s, key, ascending)
    requires forall k :: 0 <= k < |s| ==> Ordered(key(x), key(s[k]), ascending)
    ensures Sorted([x] + s, key, ascending)
  {
    var r := [x] + s;
    forall i, j | 0 <= i < j < |r| ensures Ordered(key(r[i]), key(r[j]), ascending) {
      if i == 0 {
        assert r[j] == s[j - 1];
      } else {
        assert r[i] == s[i - 1] && r[j] == s[j - 1];
      }
    }
  }

  lemma {:induction false} InsertKeepsSorted<T(!new)>(x: T, s: seq<T>, key: T -> Cursor, ascending: bool)
    requires Sorted(s, key, ascending)
    ensures Sorted(Insert(x, s, key, ascending), key, ascending)
  {
    if s == [] || Ordered(key(x), key(s[0]), ascending) {
      forall k | 0 <= k < |s| ensures Ordered(key(x), key(s[k]), ascending) {
        if k > 0 {
          OrderedTransitive(key(x), key(s[0]), key(s[k]), ascending);
        }
      }
      PrependKeepsSorted(x, s, key, ascending);
    } else {
      var tail := s[1..];
      assert s == [s[0]] + tail;
      var rest := Insert(x, tail, key, ascending);
      assert Sorted(tail, key, ascending);
      InsertKeepsSorted(x, tail, key, ascending);
      forall k | 0 <= k < |rest| ensures Ordered(key(s[0]), key(rest[k]), ascending) {
        assert rest[k] in multiset(rest);
        if rest[k] != x {
          assert rest[k] in multiset(tail);
          var m :| 0 <= m < |tail| && tail[m] == rest[k];
          assert s[m + 1] == rest[k];
        }
      }
      PrependKeepsSorted(s[0], rest, key, ascending);
    }
  }

  /** ORDER BY created_at, id in the given direction (an insertion sort). */
  function Sort<T(!new)>(s: seq<T>, key: T -> Cursor, ascending: bool): (r: seq<T>)
    ensures multiset(r) == multiset(s)
    ensures Sorted(r, key, ascending)
  {
    if s == [] then []
    else
      assert s == [s[0]] + s[1..];
      var sortedTail := Sort(s[1..], key, ascending);
      InsertKeepsSorted(s[0], sortedTail, key, ascending);
      Insert(s[0], sortedTail, key, ascending)
  }

  /** WHERE p ORDER BY key LIMIT limit. */
  function Page<T(!new)>(rows: seq<T>, p: T -> bool, key: T -> Cursor, ascending: bool, limit: nat): (r: seq<T>)
    ensures |r| == Min(limit, |Filter(rows, p)|)
    ensures forall x :: x in r ==> x in rows && p(x)
    ensures Sorted(r, key, ascending)
  {
    var sorted := Sort(Filter(rows, p), key, ascending);
    assert |sorted| == |multiset(sorted)|;
    var r := sorted[..Min(limit, |sorted|)];
    assert forall x :: x in r ==> x in multiset(sorted);
    r
  }

  /** A page holds the FIRST matching rows: every matching row left out comes after every row kept. */
  lemma {:induction false} PageHoldsFirstMatches<T(!new)>(rows: seq<T>, p: T -> bool, key: T -> Cursor, ascending: bool, limit: nat)
    ensures forall x, y ::
              (x in Page(rows, p, key, ascending, limit) && y in rows && p(y) && y !in Page(rows, p, key, ascending, limit))
              ==> Ordered(key(x), key(y), ascending)
  {
    var sorted := Sort(Filter(rows, p), key, ascending);
    var page := Page(rows, p, key, ascending, limit);
    assert |sorted| == |multiset(sorted)|;
    assert page == sorted[..Min(limit, |sorted|)];
    forall x, y | x in page && y in rows && p(y) && y !in page
      ensures Ordered(key(x), key(y), ascending)
    {
      var i :| 0 <= i < |page| && page[i] == x;
      assert y in Filter(rows, p);
      assert y in multiset(sorted);
      var j :| 0 <= j < |sorted| && sorted[j] == y;
      assert sorted[i] == x;
    }
  }

  /** The scan loop of a listing: reads the result set row by row, in order. */
  method ScanRows<T>(rows: seq<T>) returns (out: seq<T>)
    ensures out == rows
  {
    out := [];
    var i := 0;
    while i < |rows|
      invariant 0 <= i <= |rows|
      invariant out == rows[..i]
    {
      out := out + [rows[i]];
      i := i + 1;
    }
    assert rows[..i] == rows;
  }

  /** The query text a mode selects (getQueryFromMode and the switch in GetListEvents/GetListUsers). */
  datatype Query = NextQuery | PrevQuery | EmptyQuery

  function QueryFromMode(mode: string): (q: Query)
    ensures q == NextQuery <==> mode == "next"
    ensures q == PrevQuery <==> mode == "prev"
    ensures q == EmptyQuery <==> mode != "next" && mode != "prev"
  {
    match mode
    case "next" => NextQuery
    case "prev" => PrevQuery
    case _ => EmptyQuery
  }

  /** PostgreSQL's refusal of a negative LIMIT. */
  const NegativeLimitMessage: string := "LIMIT must not be negative"

  /** The WHERE clause of the "next" query, on top of the table-specific scope. */
  function NextScope<T(!new)>(inScope: T -> bool, key: T -> Cursor, cursor: Cursor): T -> bool
  {
    x => inScope(x) && Beyond(key(x), cursor)
  }

  /** The WHERE clause of the "prev" query, on top of the table-specific scope. */
  function PrevScope<T(!new)>(inScope: T -> bool, key: T -> Cursor, cursor: Cursor): T -> bool
  {
    x => inScope(x) && Below(key(x), cursor)
  }

  /**
   * The rows a keyset query returns. The empty query text selects nothing (whether the
   * driver rejects it is left to the caller's statement fault).
   */
  function Select<T(!new)>(rows: seq<T>, inScope: T -> bool, key: T -> Cursor, q: Query, cursor: Cursor, limit: int): (r: Result<seq<T>>)
    ensures q == EmptyQuery ==> r == Ok([])
    ensures q != EmptyQuery ==> (r.Err? <==> limit < 0)
    ensures r.Ok? && q == NextQuery ==>
              |r.value| == Min(limit, |Filter(rows, NextScope(inScope, key, cursor))|)
              && Sorted(r.value, key, true)
              && forall x :: x in r.value ==> x in rows && inScope(x) && Beyond(key(x), cursor)
    ensures r.Ok? && q == PrevQuery ==>
              |r.value| == Min(limit, |Filter(rows, PrevScope(inScope, key, cursor))|)
              && Sorted(r.value, key, false)
              && forall x :: x in r.value ==> x in rows && inScope(x) && Below(key(x), cursor)
  {
    match q
    case EmptyQuery => Ok([])
    case NextQuery =>
      if limit < 0 then Err(Db(NegativeLimitMessage))
      else Ok(Page(rows, NextScope(inScope, key, cursor), key, true, limit))
    case PrevQuery =>
      if limit < 0 then Err(Db(NegativeLimitMessage))
      else Ok(Page(rows, PrevScope(inScope, key, cursor), key, false, limit))
  }

  /**
   * The "next" condition is not the lexicographic successor relation: a row that sorts
   * after the cursor but has a smaller id is never returned by "next".
   */
  lemma NextSkipsLaterRowWithSmallerId<T(!new)>(row: T, key: T -> Cursor, inScope: T -> bool)
    requires inScope(row) && key(row) == Cursor(11, 3)
    ensures Below(Cursor(10, 5), key(row))
    ensures Select([row], inScope, key, NextQuery, Cursor(10, 5), 10) == Ok([])
  {
    assert Filter([row], NextScope(inScope, key, Cursor(10, 5))) == [];
  }

  /**
   * As written, a row created at the cursor's instant with a larger id is on neither
   * side of the cursor: neither "next" nor "prev" ever returns it from there.
   */
  lemma TiedRowOnNeitherPage<T(!new)>(row: T, key: T -> Cursor, inScope: T -> bool)
    requires inScope(row) && key(row) == Cursor(10, 6)
    ensures Below(Cursor(10, 5), key(row))
    ensures Select([row], inScope, key, NextQuery, Cursor(10, 5), 10) == Ok([])
    ensures Select([row], inScope, key, PrevQuery, Cursor(10, 5), 10) == Ok([])
  {
    assert Filter([row], NextScope(inScope, key, Cursor(10, 5))) == [];
    assert Filter([row], PrevScope(inScope, key, Cursor(10, 5))) == [];
  }

  /** The "next" condition as the ordering calls for: the pair strictly after the cursor. */
  function NextScopeLexicographic<T(!new)>(inScope: T -> bool, key: T -> Cursor, cursor: Cursor): T -> bool
  {
    x => inScope(x) && Below(cursor, key(x))
  }

  /**
   * With the lexicographic "next", the two modes split the table: a row in scope whose key
   * is not the cursor's is on exactly one side, so paging either way reaches it.
   */
  lemma LexicographicModesPartition<T(!new)>(rows: seq<T>, inScope: T -> bool, key: T -> Cursor, cursor: Cursor)
    ensures forall x :: x in rows && inScope(x) && key(x) != cursor ==>
              (x in Filter(rows, NextScopeLexicographic(inScope, key, cursor))
               <==> x !in Filter(rows, PrevScope(inScope, key, cursor)))
  {
  }
}
