/** Finalisation of the sheet's order: `sort_values(by=['순서', '품목'])` followed by
    `df['순서'] = range(1, len(df) + 1)`. */
module Ordering {
  import opened Rows

  /** Python's `<=` on two strings: code point by code point, a proper prefix first. */
  predicate NameLe(a: string, b: string)
    decreases |a|
  {
    a == [] || (b != [] && (a[0] < b[0] || (a[0] == b[0] && NameLe(a[1..], b[1..]))))
  }

  lemma {:induction false} NameLeTotal(a: string, b: string)
    ensures NameLe(a, b) || NameLe(b, a)
    decreases |a|
  {
    if a != [] && b != [] && a[0] == b[0] {
      NameLeTotal(a[1..], b[1..]);
    }
  }

  lemma {:induction false} NameLeTransitive(a: string, b: string, c: string)
    requires NameLe(a, b) && NameLe(b, c)
    ensures NameLe(a, c)
    decreases |a|
  {
    if a != [] && a[0] == b[0] && b[0] == c[0] {
      NameLeTransitive(a[1..], b[1..], c[1..]);
    }
  }

  /** The sort key: 순서 first, then 품목. */
  predicate KeyLe(x: Row, y: Row) {
    x.order < y.order || (x.order == y.order && NameLe(x.item, y.item))
  }

  lemma KeyLeTotal(x: Row, y: Row)
    ensures KeyLe(x, y) || KeyLe(y, x)
  {
    NameLeTotal(x.item, y.item);
  }

  lemma KeyLeTransitive(x: Row, y: Row, z: Row)
    requires KeyLe(x, y) && KeyLe(y, z)
    ensures KeyLe(x, z)
  {
    if x.order == y.order == z.order {
      NameLeTransitive(x.item, y.item, z.item);
    }
  }

  predicate SortedByKey(s: seq<Row>) {
    forall i, j :: 0 <= i < j < |s| ==> KeyLe(s[i], s[j])
  }

  /** Puts `x` in front of the first row it does not sort after. */
  function Insert(x: Row, s: seq<Row>): (r: seq<Row>)
    ensures |r| == |s| + 1
    ensures multiset(r) == multiset(s) + multiset{x}
  {
    if s == [] || KeyLe(x, s[0]) then [x] + s
    else
      assert s == [s[0]] + s[1..];
      [s[0]] + Insert(x, s[1..])
  }

  /** The rows sorted by (순서, 품목), by insertion. */
  function SortByKey(s: seq<Row>): (r: seq<Row>)
    ensures |r| == |s|
    ensures multiset(r) == multiset(s)
  {
    if s == [] then []
    else
      assert s == [s[0]] + s[1..];
      Insert(s[0], SortByKey(s[1..]))
  }

  lemma {:induction false} InsertSorted(x: Row, s: seq<Row>)
    requires SortedByKey(s)
    ensures SortedByKey(Insert(x, s))
    decreases |s|
  {
    if s == [] || KeyLe(x, s[0]) {
      var r := [x] + s;
      forall i, j | 0 <= i < j < |r| ensures KeyLe(r[i], r[j]) {
        if i == 0 && j > 1 {
          KeyLeTransitive(x, s[0], s[j - 1]);
        }
      }
    } else {
      var rest := Insert(x, s[1..]);
      InsertSorted(x, s[1..]);
      var r := [s[0]] + rest;
      forall j | 0 <= j < |rest| ensures KeyLe(s[0], rest[j]) {
        assert rest[j] in multiset(rest);
        if rest[j] == x {
          KeyLeTotal(x, s[0]);
        } else {
          assert rest[j] in multiset(s[1..]);
          var k :| 0 <= k < |s[1..]| && s[1..][k] == rest[j];
          assert s[k + 1] == rest[j];
        }
      }
      forall i, j | 0 <= i < j < |r| ensures KeyLe(r[i], r[j]) {
        if i == 0 {
          assert r[j] == rest[j - 1];
        } else {
          assert r[i] == rest[i - 1] && r[j] == rest[j - 1];
        }
      }
    }
  }

  /** The sort leaves rows ascending by (순서, 품목); with `SortByKey`'s own contract, the
      result is a sorted permutation of its input. */
  lemma {:induction false} SortByKeySorted(s: seq<Row>)
    ensures SortedByKey(SortByKey(s))
  {
    if s != [] {
      SortByKeySorted(s[1..]);
      InsertSorted(s[0], SortByKey(s[1..]));
    }
  }

  /** The sort of three rows, spelled out. */
  lemma SortThree(x: Row, y: Row, z: Row)
    ensures SortByKey([x, y, z]) == Insert(x, Insert(y, [z]))
  {
    SortOne(z);
    SortTwo(y, z);
    assert SortByKey([x, y, z]) == Insert(x, SortByKey([y, z])) by {
      assert [x, y, z][1..] == [y, z];
    }
  }

  lemma InsertBefore(x: Row, s: seq<Row>)
    requires s == [] || KeyLe(x, s[0])
    ensures Insert(x, s) == [x] + s
  {
  }

  lemma InsertAfter(x: Row, s: seq<Row>)
    requires s != [] && !KeyLe(x, s[0])
    ensures Insert(x, s) == [s[0]] + Insert(x, s[1..])
  {
  }

  lemma SortOne(z: Row)
    ensures SortByKey([z]) == [z]
  {
    assert [z][1..] == [];
  }

  lemma SortTwo(y: Row, z: Row)
    ensures SortByKey([y, z]) == Insert(y, SortByKey([z]))
  {
    assert [y, z][1..] == [z];
  }

  /** `df['순서'] = range(1, len(df) + 1)`: the order column becomes 1..N, nothing else changes. */
  function Renumber(s: seq<Row>): (r: seq<Row>)
    ensures |r| == |s|
    ensures forall i :: 0 <= i < |r| ==> r[i].order == i + 1 && r[i] == s[i].(order := i + 1)
  {
    seq(|s|, i requires 0 <= i < |s| => s[i].(order := i + 1))
  }
}
