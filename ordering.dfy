/** The `ORDER BY` of the store, made deterministic: rows are sorted by an
    integer key, ties are broken by table order (the row's index). A query
    result is a sequence of `(key, row index)` pairs in ascending order. */
module Ordering {

  type Keyed = (int, int)

  /** Strict lexicographic order on (key, row index). */
  predicate Before(a: Keyed, b: Keyed)
  {
    a.0 < b.0 || (a.0 == b.0 && a.1 < b.1)
  }

  predicate Ascending(s: seq<Keyed>)
  {
    forall i, j :: 0 <= i < j < |s| ==> Before(s[i], s[j])
  }

  predicate Distinct(s: seq<Keyed>)
  {
    forall i, j :: 0 <= i < j < |s| ==> s[i] != s[j]
  }

  function Insert(x: Keyed, s: seq<Keyed>): (r: seq<Keyed>)
    ensures multiset(r) == multiset(s) + multiset{x}
    ensures |r| == |s| + 1
  {
    if s == [] then [x]
    else if Before(x, s[0]) then [x] + s
    else
      assert s == [s[0]] + s[1..];
      [s[0]] + Insert(x, s[1..])
  }

  /** Insertion sort. */
  function Sort(s: seq<Keyed>): (r: seq<Keyed>)
    ensures multiset(r) == multiset(s)
    ensures |r| == |s|
  {
    if s == [] then []
    else
      assert s == [s[0]] + s[1..];
      Insert(s[0], Sort(s[1..]))
  }

  /** In an ascending sequence the first element comes before every later
      one. */
  lemma HeadBefore(s: seq<Keyed>, y: Keyed)
    requires Ascending(s) && s != [] && y in s[1..]
    ensures Before(s[0], y)
  {
    var m :| 0 <= m < |s[1..]| && s[1..][m] == y;
    assert s[m + 1] == y;
  }

  lemma {:induction false} InsertAscending(x: Keyed, s: seq<Keyed>)
    requires Ascending(s) && x !in s
    ensures Ascending(Insert(x, s))
  {
    if s != [] && !Before(x, s[0]) {
      assert s == [s[0]] + s[1..];
      InsertAscending(x, s[1..]);
      var t := Insert(x, s[1..]);
      forall k | 0 <= k < |t| ensures Before(s[0], t[k]) {
        assert t[k] in multiset(t);
        if t[k] != x {
          assert t[k] in multiset(s[1..]);
          HeadBefore(s, t[k]);
        }
      }
    }
  }

  /** The index of an element of a sequence. */
  function IndexOf(s: seq<Keyed>, x: Keyed): (m: nat)
    requires x in s
    ensures m < |s| && s[m] == x
  {
    if s[0] == x then 0 else 1 + IndexOf(s[1..], x)
  }

  /** In an ascending sequence, an element that comes before another sits
      at a smaller index. */
  lemma AscendingIndex(s: seq<Keyed>, a: int, b: int)
    requires Ascending(s) && 0 <= a < |s| && 0 <= b < |s|
    requires Before(s[a], s[b])
    ensures a < b
  {
  }

  /** Sorting distinct pairs yields a strictly ascending sequence. */
  lemma {:induction false} SortAscending(s: seq<Keyed>)
    requires Distinct(s)
    ensures Ascending(Sort(s))
  {
    if s != [] {
      assert s == [s[0]] + s[1..];
      SortAscending(s[1..]);
      assert s[0] !in s[1..];
      assert s[0] !in multiset(Sort(s[1..]));
      InsertAscending(s[0], Sort(s[1..]));
    }
  }
}
