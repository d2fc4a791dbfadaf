/**
 * The pure part of `renderApps`: the rows shown for a search text and a
 * sort selection. The filter keeps, in order, the records whose lowercased
 * name or package contains the trimmed, lowercased query; the sort is the
 * stable sort of those rows under the page's comparator.
 */
module Pipeline {
  import opened Text
  import opened Catalog

  // =============================================================== filter

  /** The query as the page uses it: trimmed, then lowercased. */
  function NormaliseQuery(raw: string): (q: string)
    ensures q == [] <==> AllWhitespace(raw)
  {
    TrimEmptyIffBlank(raw);
    Lower(Trim(raw))
  }

  /** The filter's test for a normalised query `q`. */
  predicate Matches(q: string, app: Record)
    ensures Matches(q, app) <==>
      (q == [] || (exists i :: OccursAt(Lower(app.name), q, i)) || (exists i :: OccursAt(Lower(app.package), q, i)))
  {
    ContainsIffOccurs(Lower(app.name), q);
    ContainsIffOccurs(Lower(app.package), q);
    q == [] || Contains(Lower(app.name), q) || Contains(Lower(app.package), q)
  }

  /** The records of `apps` that match `q`, in their order. */
  function Keep(apps: seq<Record>, q: string): (r: seq<Record>)
    ensures |r| <= |apps|
    ensures forall x :: x in r <==> x in apps && Matches(q, x)
  {
    if apps == [] then []
    else (if Matches(q, apps[0]) then [apps[0]] else []) + Keep(apps[1..], q)
  }

  /** `state.apps.filter(...)` for the search text `raw`. */
  function FilterRows(apps: seq<Record>, raw: string): (r: seq<Record>)
    ensures |r| <= |apps|
    ensures forall x :: x in r <==> x in apps && Matches(NormaliseQuery(raw), x)
  {
    Keep(apps, NormaliseQuery(raw))
  }

  /** `a` is `b` with some elements left out and the rest in their order. */
  predicate IsSubsequence<T(==)>(a: seq<T>, b: seq<T>) {
    a == [] || (b != [] && ((a[0] == b[0] && IsSubsequence(a[1..], b[1..])) || IsSubsequence(a, b[1..])))
  }

  lemma {:induction false} KeepIsSubsequence(apps: seq<Record>, q: string)
    ensures IsSubsequence(Keep(apps, q), apps)
  {
    if apps != [] {
      KeepIsSubsequence(apps[1..], q);
      if Matches(q, apps[0]) {
        assert Keep(apps, q)[1..] == Keep(apps[1..], q);
      } else {
        assert Keep(apps, q) == Keep(apps[1..], q);
      }
    }
  }

  /** The filter output is the catalogue with some records left out and the
      others in their original order. */
  lemma FilterIsSubsequence(apps: seq<Record>, raw: string)
    ensures IsSubsequence(FilterRows(apps, raw), apps)
  {
    KeepIsSubsequence(apps, NormaliseQuery(raw));
  }

  lemma {:induction false} KeepMultiplicity(apps: seq<Record>, q: string, r: Record)
    ensures multiset(Keep(apps, q))[r] == if Matches(q, r) then multiset(apps)[r] else 0
  {
    if apps != [] {
      KeepMultiplicity(apps[1..], q, r);
      assert apps == [apps[0]] + apps[1..];
    }
  }

  /** Every copy of a matching record is kept, and nothing else is. */
  lemma FilterKeepsExactlyMatches(apps: seq<Record>, raw: string, r: Record)
    ensures multiset(FilterRows(apps, raw))[r] ==
      if Matches(NormaliseQuery(raw), r) then multiset(apps)[r] else 0
    ensures r in FilterRows(apps, raw) <==> r in apps && Matches(NormaliseQuery(raw), r)
  {
    KeepMultiplicity(apps, NormaliseQuery(raw), r);
  }

  lemma {:induction false} KeepEmptyQuery(apps: seq<Record>)
    ensures Keep(apps, []) == apps
  {
    if apps != [] {
      KeepEmptyQuery(apps[1..]);
      assert apps == [apps[0]] + apps[1..];
    }
  }

  /** A query that is blank after trimming shows the whole catalogue, in order. */
  lemma BlankQueryKeepsAll(apps: seq<Record>, raw: string)
    requires AllWhitespace(raw)
    ensures FilterRows(apps, raw) == apps
  {
    TrimEmptyIffBlank(raw);
    KeepEmptyQuery(apps);
  }

  /** The search is case-insensitive: lowercasing the typed text first
      changes nothing. */
  lemma FilterIgnoresQueryCase(apps: seq<Record>, raw: string)
    ensures FilterRows(apps, Lower(raw)) == FilterRows(apps, raw)
  {
    TrimLowerCommute(raw);
    LowerIdempotent(Trim(raw));
  }

  // ================================================================= sort

  /** The value of the sort selector. */
  datatype SortKey = ByName | BySize | ByUpdated | Unordered

  function ParseSortKey(value: string): (k: SortKey)
    ensures k == ByName <==> value == "name"
    ensures k == BySize <==> value == "size"
    ensures k == ByUpdated <==> value == "updated"
  {
    if value == "name" then ByName
    else if value == "size" then BySize
    else if value == "updated" then ByUpdated
    else Unordered
  }

  /** `a.size_bytes || 0` */
  function SizeOrZero(r: Record): nat {
    if r.sizeBytes.Some? then r.sizeBytes.value else 0
  }

  /** The comparator handed to `rows.sort`. A missing date makes the source's
      difference NaN, which the sort reads as 0. */
  function Cmp(key: SortKey, a: Record, b: Record): (r: int)
    ensures key == ByName ==> (r == 0 <==> a.name == b.name)
    ensures key == BySize ==> (r <= 0 <==> SizeOrZero(a) <= SizeOrZero(b))
    ensures key == ByUpdated ==>
      (r < 0 <==> a.updated.Some? && b.updated.Some? && a.updated.value > b.updated.value)
    ensures key == ByUpdated && (a.updated.None? || b.updated.None?) ==> r == 0
    ensures key == Unordered ==> r == 0
  {
    match key
    case ByName => CompareZeroIffEqual(a.name, b.name); Compare(a.name, b.name)
    case BySize => SizeOrZero(a) - SizeOrZero(b)
    case ByUpdated =>
      if a.updated.Some? && b.updated.Some? then b.updated.value - a.updated.value else 0
    case Unordered => 0
  }

  /** The comparator is consistent on a record: always, except that sorting
      by date needs the date. */
  predicate Comparable(key: SortKey, r: Record) {
    key == ByUpdated ==> r.updated.Some?
  }

  predicate AllComparable(key: SortKey, rows: seq<Record>) {
    forall r | r in rows :: Comparable(key, r)
  }

  predicate Sorted(key: SortKey, rows: seq<Record>) {
    forall i, j :: 0 <= i < j < |rows| ==> Cmp(key, rows[i], rows[j]) <= 0
  }

  lemma CmpAntisymmetric(key: SortKey, a: Record, b: Record)
    ensures Cmp(key, b, a) == -Cmp(key, a, b)
  {
    if key == ByName { CompareAntisymmetric(a.name, b.name); }
  }

  lemma CmpTransitive(key: SortKey, a: Record, b: Record, c: Record)
    requires Comparable(key, a) && Comparable(key, b) && Comparable(key, c)
    requires Cmp(key, a, b) <= 0 && Cmp(key, b, c) <= 0
    ensures Cmp(key, a, c) <= 0
  {
    if key == ByName { CompareTransitive(a.name, b.name, c.name); }
  }

  /** `x` goes before the first element it does not follow strictly. */
  function Insert(key: SortKey, x: Record, s: seq<Record>): (r: seq<Record>)
    ensures |r| == |s| + 1
    ensures multiset(r) == multiset(s) + multiset{x}
  {
    if s == [] || Cmp(key, x, s[0]) <= 0 then [x] + s
    else
      assert s == [s[0]] + s[1..];
      [s[0]] + Insert(key, x, s[1..])
  }

  /** `rows.sort(comparator)`: a stable sort, here by insertion. For a
      consistent comparator every stable sort gives this same order. */
  function SortRows(key: SortKey, rows: seq<Record>): (r: seq<Record>)
    ensures |r| == |rows|
    ensures forall x :: x in r <==> x in rows
  {
    if rows == [] then []
    else
      var sorted := SortRows(key, rows[1..]);
      assert forall x :: x in Insert(key, rows[0], sorted) <==> x in multiset(sorted) + multiset{rows[0]};
      assert rows == [rows[0]] + rows[1..];
      Insert(key, rows[0], sorted)
  }

  /** The sorted rows are a permutation of the filtered rows. */
  lemma {:induction false} SortPermutation(key: SortKey, rows: seq<Record>)
    ensures multiset(SortRows(key, rows)) == multiset(rows)
  {
    if rows != [] {
      SortPermutation(key, rows[1..]);
      assert rows == [rows[0]] + rows[1..];
    }
  }

  lemma SortKeepsComparable(key: SortKey, rows: seq<Record>)
    requires AllComparable(key, rows)
    ensures AllComparable(key, SortRows(key, rows))
  {
    SortPermutation(key, rows);
    forall r | r in SortRows(key, rows) ensures Comparable(key, r) {
      assert r in multiset(SortRows(key, rows));
    }
  }

  lemma PrependSorted(key: SortKey, y: Record, u: seq<Record>)
    requires Sorted(key, u)
    requires forall j :: 0 <= j < |u| ==> Cmp(key, y, u[j]) <= 0
    ensures Sorted(key, [y] + u)
  {
    var t := [y] + u;
    forall i, j | 0 <= i < j < |t| ensures Cmp(key, t[i], t[j]) <= 0 {
      if i == 0 { assert t[j] == u[j - 1]; } else { assert t[i] == u[i - 1] && t[j] == u[j - 1]; }
    }
  }

  lemma {:induction false} InsertSorted(key: SortKey, x: Record, s: seq<Record>)
    requires Comparable(key, x) && AllComparable(key, s) && Sorted(key, s)
    ensures Sorted(key, Insert(key, x, s))
  {
    if s == [] || Cmp(key, x, s[0]) <= 0 {
      forall j | 0 <= j < |s| ensures Cmp(key, x, s[j]) <= 0 {
        if j > 0 {
          assert s[0] in s && s[j] in s;
          CmpTransitive(key, x, s[0], s[j]);
        }
      }
      PrependSorted(key, x, s);
    } else {
      CmpAntisymmetric(key, x, s[0]);
      InsertSorted(key, x, s[1..]);
      var u := Insert(key, x, s[1..]);
      forall j | 0 <= j < |u| ensures Cmp(key, s[0], u[j]) <= 0 {
        assert u[j] in multiset(u);
        if u[j] != x {
          assert u[j] in s[1..];
          var k :| 0 <= k < |s[1..]| && s[1..][k] == u[j];
          assert s[k + 1] == u[j];
        }
      }
      PrependSorted(key, s[0], u);
    }
  }

  /** Sorting by a consistent key puts the rows in key order. */
  lemma {:induction false} SortSorted(key: SortKey, rows: seq<Record>)
    requires AllComparable(key, rows)
    ensures Sorted(key, SortRows(key, rows))
  {
    if rows != [] {
      SortSorted(key, rows[1..]);
      SortKeepsComparable(key, rows[1..]);
      InsertSorted(key, rows[0], SortRows(key, rows[1..]));
    }
  }

  /** Both records are dated and `a` is at least as recent as `b`. */
  predicate NotOlder(a: Record, b: Record) {
    a.updated.Some? && b.updated.Some? && a.updated.value >= b.updated.value
  }

  /** What each sort selection promises: names ascending, sizes ascending
      (missing as 0), dates descending (most recent first). */
  lemma SortOrdersByKey(key: SortKey, rows: seq<Record>)
    requires AllComparable(key, rows)
    ensures key == ByName ==> forall i, j :: 0 <= i < j < |SortRows(key, rows)| ==>
      Compare(SortRows(key, rows)[i].name, SortRows(key, rows)[j].name) <= 0
    ensures key == BySize ==> forall i, j :: 0 <= i < j < |SortRows(key, rows)| ==>
      SizeOrZero(SortRows(key, rows)[i]) <= SizeOrZero(SortRows(key, rows)[j])
    ensures key == ByUpdated ==> forall i, j :: 0 <= i < j < |SortRows(key, rows)| ==>
      NotOlder(SortRows(key, rows)[i], SortRows(key, rows)[j])
  {
    SortSorted(key, rows);
    SortKeepsComparable(key, rows);
    var s := SortRows(key, rows);
    if key == ByUpdated {
      forall i, j | 0 <= i < j < |s| ensures NotOlder(s[i], s[j]) {
        assert s[i] in s && s[j] in s;
        assert Cmp(key, s[i], s[j]) <= 0;
      }
    }
  }

  /** Rows already in key order are left as they are. */
  lemma {:induction false} SortedIsFixpoint(key: SortKey, rows: seq<Record>)
    requires Sorted(key, rows)
    ensures SortRows(key, rows) == rows
  {
    if rows != [] {
      SortedIsFixpoint(key, rows[1..]);
      assert rows == [rows[0]] + rows[1..];
    }
  }

  /** An unknown sort value leaves the filter order unchanged: the
      comparator answers 0 and the sort is stable. */
  lemma UnorderedKeepsOrder(rows: seq<Record>)
    ensures SortRows(Unordered, rows) == rows
  {
    SortedIsFixpoint(Unordered, rows);
  }

  /** Sorting twice is sorting once. */
  lemma SortIdempotent(key: SortKey, rows: seq<Record>)
    requires AllComparable(key, rows)
    ensures SortRows(key, SortRows(key, rows)) == SortRows(key, rows)
  {
    SortSorted(key, rows);
    SortedIsFixpoint(key, SortRows(key, rows));
  }

  /** The rows whose key equals that of `e`, in their order. */
  function SameKey(key: SortKey, e: Record, rows: seq<Record>): seq<Record> {
    if rows == [] then []
    else (if Cmp(key, rows[0], e) == 0 then [rows[0]] else []) + SameKey(key, e, rows[1..])
  }

  lemma SameKeyCons(key: SortKey, e: Record, y: Record, t: seq<Record>)
    ensures Cmp(key, y, e) == 0 ==> SameKey(key, e, [y] + t) == [y] + SameKey(key, e, t)
    ensures Cmp(key, y, e) != 0 ==> SameKey(key, e, [y] + t) == SameKey(key, e, t)
  {
    assert ([y] + t)[1..] == t;
  }

  /** Inserting a row adds it to the rows of its key, in front of them. */
  lemma {:induction false} InsertSameKey(key: SortKey, e: Record, x: Record, s: seq<Record>)
    requires Comparable(key, e) && Comparable(key, x) && AllComparable(key, s)
    ensures Cmp(key, x, e) == 0 ==> SameKey(key, e, Insert(key, x, s)) == [x] + SameKey(key, e, s)
    ensures Cmp(key, x, e) != 0 ==> SameKey(key, e, Insert(key, x, s)) == SameKey(key, e, s)
  {
    if s == [] || Cmp(key, x, s[0]) <= 0 {
      SameKeyCons(key, e, x, s);
    } else {
      var y, t := s[0], s[1..];
      assert s == [y] + t;
      assert Insert(key, x, s) == [y] + Insert(key, x, t);
      InsertSameKey(key, e, x, t);
      SameKeyCons(key, e, y, Insert(key, x, t));
      SameKeyCons(key, e, y, t);
      NotBothSameKey(key, e, x, y);
    }
  }

  /** Of two rows in strict key order, at most one has the key of `e`. */
  lemma NotBothSameKey(key: SortKey, e: Record, x: Record, y: Record)
    requires Comparable(key, e) && Comparable(key, x) && Comparable(key, y)
    requires Cmp(key, x, y) > 0
    ensures Cmp(key, x, e) != 0 || Cmp(key, y, e) != 0
  {
    if Cmp(key, y, e) == 0 && Cmp(key, x, e) == 0 {
      CmpAntisymmetric(key, y, e);
      CmpTransitive(key, x, e, y);
    }
  }

  /** The sort is stable: rows with equal keys keep their relative order. */
  lemma {:induction false} SortIsStable(key: SortKey, e: Record, rows: seq<Record>)
    requires Comparable(key, e) && AllComparable(key, rows)
    ensures SameKey(key, e, SortRows(key, rows)) == SameKey(key, e, rows)
  {
    if rows != [] {
      SortIsStable(key, e, rows[1..]);
      SortKeepsComparable(key, rows[1..]);
      InsertSameKey(key, e, rows[0], SortRows(key, rows[1..]));
    }
  }

  // ============================================================ pipeline

  /** The rows `renderApps` shows, in order. */
  function Rows(apps: seq<Record>, raw: string, sortValue: string): (r: seq<Record>)
    ensures forall x :: x in r <==> x in apps && Matches(NormaliseQuery(raw), x)
  {
    SortRows(ParseSortKey(sortValue), FilterRows(apps, raw))
  }

  /** The rows shown are the matching records, each as often as it is in the
      catalogue, in the order the sort selection asks for. */
  lemma RowsAreSortedMatches(apps: seq<Record>, raw: string, sortValue: string, r: Record)
    ensures multiset(Rows(apps, raw, sortValue))[r] ==
      if Matches(NormaliseQuery(raw), r) then multiset(apps)[r] else 0
    ensures AllComparable(ParseSortKey(sortValue), apps) ==>
      Sorted(ParseSortKey(sortValue), Rows(apps, raw, sortValue))
  {
    var key := ParseSortKey(sortValue);
    var kept := FilterRows(apps, raw);
    SortPermutation(key, kept);
    FilterKeepsExactlyMatches(apps, raw, r);
    if AllComparable(key, apps) {
      forall x | x in kept ensures Comparable(key, x) {
        FilterKeepsExactlyMatches(apps, raw, x);
      }
      SortSorted(key, kept);
    }
  }

  /** Sorting by name puts "A" before "B". */
  lemma NameSortExample(b: Record, a: Record)
    requires b.name == "B" && a.name == "A"
    ensures Rows([b, a], "", "name") == [a, b]
  {
    assert NormaliseQuery("") == [];
    KeepEmptyQuery([b, a]);
    assert Compare("B", "A") == 1;
    assert [b, a][1..] == [a];
    assert SortRows(ByName, [a]) == [a];
    assert Insert(ByName, b, [a]) == [a] + Insert(ByName, b, []);
  }
}
