/** Frequency tables, as pandas' `Series.value_counts()` builds them: one row
    per distinct value of a column with the number of times it occurs,
    ordered by that number, largest first. `value_counts` is modelled as a
    group-by (`Tally`, one row per value in order of first appearance)
    followed by a stable sort on the count (`SortByCount`), which also
    models `sort_values(by='Contagem')` on such a table. */
module Counts {

  /** One row of a `value_counts()` result: a value of the column and the
      number of rows holding it (`Contagem`). */
  datatype Entry = Entry(category: string, count: nat)

  /** The categories that label some row of `t`. */
  function Categories(t: seq<Entry>): set<string>
  {
    set e | e in t :: e.category
  }

  /** No category labels two rows of `t`. */
  predicate DistinctCategories(t: seq<Entry>)
    decreases |t|
  {
    t == [] || (t[0].category !in Categories(t[1..]) && DistinctCategories(t[1..]))
  }

  /** The total of the counts of `t`. */
  function Sum(t: seq<Entry>): nat
  {
    if t == [] then 0 else t[0].count + Sum(t[1..])
  }

  /** The distinct values of a sequence, as a set. */
  function Values(vals: seq<string>): set<string>
  {
    set v | v in vals
  }

  /** `t` is a frequency table of `vals`: one row per distinct value of
      `vals`, and for each the number of times it occurs. Order is not
      constrained. */
  ghost predicate IsFrequencyTable(t: seq<Entry>, vals: seq<string>)
  {
    && DistinctCategories(t)
    && Categories(t) == Values(vals)
    && forall e :: e in t ==> e.count == multiset(vals)[e.category]
  }

  /** Every row of a frequency table counts at least one occurrence. */
  lemma FrequencyTableCountsPositive(t: seq<Entry>, vals: seq<string>)
    requires IsFrequencyTable(t, vals)
    ensures forall e :: e in t ==> 1 <= e.count <= |vals|
  {
    forall e | e in t
      ensures 1 <= e.count <= |vals|
    {
      assert e.category in Categories(t);
      assert e.category in vals;
      assert |multiset(vals)| == |vals|;
      assert multiset(vals)[e.category] <= |multiset(vals)| by {
        MultiplicityAtMostSize(multiset(vals), e.category);
      }
    }
  }

  /** No value occurs more often than the multiset has elements. */
  lemma {:induction false} MultiplicityAtMostSize(m: multiset<string>, c: string)
    ensures m[c] <= |m|
    decreases |m|
  {
    if m != multiset{} {
      var y :| y in m;
      MultiplicityAtMostSize(m - multiset{y}, c);
    }
  }

  // ---------------------------------------------------------------------
  // Group-by

  /** Count one more occurrence of `x`: bump its row, or append a new row
      with count 1 when `x` has none yet. */
  function Bump(t: seq<Entry>, x: string): seq<Entry>
  {
    if t == [] then [Entry(x, 1)]
    else if t[0].category == x then [Entry(x, t[0].count + 1)] + t[1..]
    else [t[0]] + Bump(t[1..], x)
  }

  /** Group `vals` by value and count each group; rows appear in the order
      in which their value first occurs. */
  function Tally(vals: seq<string>): seq<Entry>
    decreases |vals|
  {
    if vals == [] then [] else Bump(Tally(vals[..|vals| - 1]), vals[|vals| - 1])
  }

  /** Bumping adds `x` to the categories. */
  lemma {:induction false} BumpCategories(t: seq<Entry>, x: string)
    ensures Categories(Bump(t, x)) == Categories(t) + {x}
  {
    if t != [] {
      assert Categories(t) == {t[0].category} + Categories(t[1..]);
      if t[0].category == x {
        assert Categories(Bump(t, x)) == {x} + Categories(t[1..]);
      } else {
        BumpCategories(t[1..], x);
        assert Categories(Bump(t, x)) == {t[0].category} + Categories(Bump(t[1..], x));
      }
    }
  }

  /** Bumping never creates a second row for a category. */
  lemma {:induction false} BumpKeepsDistinct(t: seq<Entry>, x: string)
    requires DistinctCategories(t)
    ensures DistinctCategories(Bump(t, x))
  {
    if t != [] {
      assert Categories(t) == {t[0].category} + Categories(t[1..]);
      if t[0].category == x {
        assert Bump(t, x)[1..] == t[1..];
      } else {
        BumpKeepsDistinct(t[1..], x);
        BumpCategories(t[1..], x);
      }
    }
  }

  /** Bumping counts one more `x` and leaves the other counts alone. */
  lemma {:induction false} BumpCounts(t: seq<Entry>, x: string, m: multiset<string>)
    requires DistinctCategories(t)
    requires forall e :: e in t ==> e.count == m[e.category]
    requires x !in Categories(t) ==> m[x] == 0
    ensures forall e :: e in Bump(t, x) ==> e.count == (m + multiset{x})[e.category]
  {
    if t != [] {
      if t[0].category == x {
        forall e | e in t[1..]
          ensures e.category != x
        {
          assert e.category in Categories(t[1..]);
        }
      } else {
        assert x in Categories(t[1..]) ==> x in Categories(t);
        BumpCounts(t[1..], x, m);
      }
    }
  }

  /** The group-by is a frequency table of its input. */
  lemma {:induction false} TallyIsFrequencyTable(vals: seq<string>)
    ensures IsFrequencyTable(Tally(vals), vals)
    decreases |vals|
  {
    if vals != [] {
      var init, x := vals[..|vals| - 1], vals[|vals| - 1];
      assert vals == init + [x];
      var t := Tally(init);
      TallyIsFrequencyTable(init);
      BumpCategories(t, x);
      BumpKeepsDistinct(t, x);
      BumpCounts(t, x, multiset(init));
      assert Values(vals) == Values(init) + {x};
    }
  }

  // ---------------------------------------------------------------------
  // Count conservation

  /** `vals` with every occurrence of `c` removed. */
  function Without(vals: seq<string>, c: string): (r: seq<string>)
    ensures multiset(r) == multiset(vals)[c := 0]
    ensures |r| + multiset(vals)[c] == |vals|
    ensures Values(r) == Values(vals) - {c}
  {
    if vals == [] then []
    else
      assert vals == [vals[0]] + vals[1..];
      var rest := Without(vals[1..], c);
      assert Values(vals) == {vals[0]} + Values(vals[1..]);
      assert Values([vals[0]] + rest) == {vals[0]} + Values(rest);
      if vals[0] == c then rest else [vals[0]] + rest
  }

  /** A list of values is empty exactly when it has no values. */
  lemma NoValuesMeansEmpty(vals: seq<string>)
    ensures Values(vals) == {} <==> vals == []
  {
    if vals != [] {
      assert vals[0] in Values(vals);
    }
  }

  /** A table with distinct categories has as many rows as categories. */
  lemma {:induction false} DistinctCategoriesSize(t: seq<Entry>)
    requires DistinctCategories(t)
    ensures |Categories(t)| == |t|
  {
    if t != [] {
      assert Categories(t) == {t[0].category} + Categories(t[1..]);
      DistinctCategoriesSize(t[1..]);
    }
  }

  /** A table with distinct categories, all equal to `c`, has at most one
      row. */
  lemma {:induction false} AtMostOneCategory(t: seq<Entry>, c: string)
    requires DistinctCategories(t)
    requires forall e :: e in t ==> e.category == c
    ensures |t| <= 1
  {
    if |t| >= 2 {
      assert false;
    }
  }

  /** A table is empty exactly when it has no categories. */
  lemma NoCategoriesMeansEmpty(t: seq<Entry>)
    ensures Categories(t) == {} <==> t == []
  {
    if t != [] {
      assert t[0].category in Categories(t);
    }
  }

  /** The counts of any frequency table of `vals` add up to `|vals|`,
      whatever the order of its rows. */
  lemma {:induction false} FrequencyTableSum(t: seq<Entry>, vals: seq<string>)
    requires IsFrequencyTable(t, vals)
    ensures Sum(t) == |vals|
    decreases |t|
  {
    if t == [] {
      NoValuesMeansEmpty(vals);
    } else {
      var c := t[0].category;
      var rest := Without(vals, c);
      assert Categories(t) == {c} + Categories(t[1..]);
      forall e | e in t[1..]
        ensures e.count == multiset(rest)[e.category]
      {
        assert e.category in Categories(t[1..]);
      }
      FrequencyTableSum(t[1..], rest);
    }
  }

  // ---------------------------------------------------------------------
  // Restriction to a set of categories

  /** The values of `vals` that lie in `keys`, in order. */
  function Among(vals: seq<string>, keys: set<string>): (r: seq<string>)
    ensures forall c :: multiset(r)[c] == if c in keys then multiset(vals)[c] else 0
    ensures Values(r) == Values(vals) * keys
  {
    if vals == [] then []
    else
      assert vals == [vals[0]] + vals[1..];
      var rest := Among(vals[1..], keys);
      assert Values(vals) == {vals[0]} + Values(vals[1..]);
      assert Values([vals[0]] + rest) == {vals[0]} + Values(rest);
      if vals[0] in keys then [vals[0]] + rest else rest
  }

  /** Restricting never lengthens, and keeps every value exactly when all
      values lie in `keys`. */
  lemma {:induction false} AmongSize(vals: seq<string>, keys: set<string>)
    ensures |Among(vals, keys)| <= |vals|
    ensures |Among(vals, keys)| == |vals| <==> forall v :: v in vals ==> v in keys
  {
    if vals != [] {
      var tail := vals[1..];
      assert vals == [vals[0]] + tail;
      AmongSize(tail, keys);
      assert (forall v :: v in vals ==> v in keys)
             <==> vals[0] in keys && forall v :: v in tail ==> v in keys;
    }
  }

  /** The rows of `t` whose category lies in `keys`, in order. */
  function RestrictTo(t: seq<Entry>, keys: set<string>): (r: seq<Entry>)
    ensures forall e :: e in r <==> e in t && e.category in keys
    ensures Categories(r) == Categories(t) * keys
    ensures DistinctCategories(t) ==> DistinctCategories(r)
  {
    if t == [] then []
    else
      var rest := RestrictTo(t[1..], keys);
      assert Categories(t) == {t[0].category} + Categories(t[1..]);
      if t[0].category in keys then
        assert Categories([t[0]] + rest) == {t[0].category} + Categories(rest);
        [t[0]] + rest
      else rest
  }

  /** Restricting keeps the order. */
  lemma {:induction false} RestrictToKeepsSorted(t: seq<Entry>, keys: set<string>, ascending: bool)
    requires Sorted(t, ascending)
    ensures Sorted(RestrictTo(t, keys), ascending)
  {
    if t != [] {
      RestrictToKeepsSorted(t[1..], keys, ascending);
      var rest := RestrictTo(t[1..], keys);
      if t[0].category in keys {
        var r := [t[0]] + rest;
        forall i, j | 0 <= i < j < |r|
          ensures InOrder(r[i], r[j], ascending)
        {
          if i == 0 {
            assert r[j] in rest;
            assert r[j] in t[1..];
          } else {
            assert r[i] == rest[i - 1] && r[j] == rest[j - 1];
          }
        }
      }
    }
  }

  /** Restricting a frequency table of `vals` to `keys` gives a frequency
      table of the values of `vals` in `keys`. */
  lemma RestrictToFrequencyTable(t: seq<Entry>, vals: seq<string>, keys: set<string>)
    requires IsFrequencyTable(t, vals)
    ensures IsFrequencyTable(RestrictTo(t, keys), Among(vals, keys))
  {
  }

  // ---------------------------------------------------------------------
  // Ordering by count

  /** `a` may stand before `b`: by count, non-decreasing when `ascending`,
      non-increasing otherwise. */
  predicate InOrder(a: Entry, b: Entry, ascending: bool)
  {
    if ascending then a.count <= b.count else a.count >= b.count
  }

  /** Every row may stand before every later row. */
  predicate Sorted(t: seq<Entry>, ascending: bool)
  {
    forall i, j :: 0 <= i < j < |t| ==> InOrder(t[i], t[j], ascending)
  }

  /** Insert `x` in front of the first row it may stand before. */
  function Insert(x: Entry, t: seq<Entry>, ascending: bool): (r: seq<Entry>)
    ensures multiset(r) == multiset(t) + multiset{x}
  {
    if t == [] || InOrder(x, t[0], ascending) then
      [x] + t
    else
      assert t == [t[0]] + t[1..];
      [t[0]] + Insert(x, t[1..], ascending)
  }

  /** Two orderings of the same rows have the same categories. */
  lemma PermutationHasSameCategories(s: seq<Entry>, t: seq<Entry>)
    requires multiset(s) == multiset(t)
    ensures Categories(s) == Categories(t)
  {
    forall c | c in Categories(s)
      ensures c in Categories(t)
    {
      var e :| e in s && e.category == c;
      assert e in multiset(t);
    }
    forall c | c in Categories(t)
      ensures c in Categories(s)
    {
      var e :| e in t && e.category == c;
      assert e in multiset(s);
    }
  }

  /** Inserting into a sorted sequence keeps it sorted. */
  lemma {:induction false} InsertKeepsSorted(x: Entry, t: seq<Entry>, ascending: bool)
    requires Sorted(t, ascending)
    ensures Sorted(Insert(x, t, ascending), ascending)
  {
    if !(t == [] || InOrder(x, t[0], ascending)) {
      var rest := Insert(x, t[1..], ascending);
      InsertKeepsSorted(x, t[1..], ascending);
      forall y | y in rest
        ensures InOrder(t[0], y, ascending)
      {
        assert y in multiset(rest);
        if y != x {
          assert y in t[1..];
        }
      }
      var r := [t[0]] + rest;
      forall i, j | 0 <= i < j < |r|
        ensures InOrder(r[i], r[j], ascending)
      {
        if i == 0 {
          assert r[j] in rest;
        } else {
          assert r[i] == rest[i - 1] && r[j] == rest[j - 1];
        }
      }
    }
  }

  /** Inserting a row with a new category keeps the categories distinct. */
  lemma {:induction false} InsertKeepsDistinct(x: Entry, t: seq<Entry>, ascending: bool)
    requires DistinctCategories(t) && x.category !in Categories(t)
    ensures DistinctCategories(Insert(x, t, ascending))
  {
    if t == [] || InOrder(x, t[0], ascending) {
      assert ([x] + t)[1..] == t;
    } else {
      var rest := Insert(x, t[1..], ascending);
      assert Categories(t) == {t[0].category} + Categories(t[1..]);
      InsertKeepsDistinct(x, t[1..], ascending);
      PermutationHasSameCategories(rest, t[1..] + [x]);
      assert Categories(t[1..] + [x]) == Categories(t[1..]) + {x.category};
      assert ([t[0]] + rest)[1..] == rest;
    }
  }

  /** Stable insertion sort of `t` by count. */
  function SortByCount(t: seq<Entry>, ascending: bool): (r: seq<Entry>)
    ensures multiset(r) == multiset(t)
    ensures Sorted(r, ascending)
    ensures DistinctCategories(t) ==> DistinctCategories(r)
  {
    if t == [] then []
    else
      assert t == [t[0]] + t[1..];
      var rest := SortByCount(t[1..], ascending);
      InsertKeepsSorted(t[0], rest, ascending);
      if DistinctCategories(t) then
        PermutationHasSameCategories(rest, t[1..]);
        InsertKeepsDistinct(t[0], rest, ascending);
        Insert(t[0], rest, ascending)
      else
        Insert(t[0], rest, ascending)
  }

  /** Re-ordering a frequency table by count leaves it a frequency table of
      the same values. */
  lemma SortKeepsFrequencyTable(t: seq<Entry>, vals: seq<string>, ascending: bool)
    requires IsFrequencyTable(t, vals)
    ensures IsFrequencyTable(SortByCount(t, ascending), vals)
  {
    var r := SortByCount(t, ascending);
    PermutationHasSameCategories(r, t);
    forall e | e in r
      ensures e.count == multiset(vals)[e.category]
    {
      assert e in multiset(t);
    }
  }

  /** `Series.value_counts()`: a frequency table of `vals`, largest count
      first, whose counts add up to `|vals|`. */
  function ValueCounts(vals: seq<string>): (r: seq<Entry>)
    ensures IsFrequencyTable(r, vals)
    ensures Sorted(r, false)
    ensures Sum(r) == |vals|
  {
    TallyIsFrequencyTable(vals);
    SortKeepsFrequencyTable(Tally(vals), vals, false);
    var r := SortByCount(Tally(vals), false);
    FrequencyTableSum(r, vals);
    r
  }

  /** The value counts of `vals` restricted to `keys`: a frequency table of
      the values in `keys`, still largest first, whose counts add up to the
      number of values in `keys`. */
  lemma RestrictedValueCounts(vals: seq<string>, keys: set<string>)
    ensures IsFrequencyTable(RestrictTo(ValueCounts(vals), keys), Among(vals, keys))
    ensures Sorted(RestrictTo(ValueCounts(vals), keys), false)
    ensures Sum(RestrictTo(ValueCounts(vals), keys)) == |Among(vals, keys)|
  {
    RestrictToFrequencyTable(ValueCounts(vals), vals, keys);
    RestrictToKeepsSorted(ValueCounts(vals), keys, false);
    FrequencyTableSum(RestrictTo(ValueCounts(vals), keys), Among(vals, keys));
  }

  /** When no value is a key, the restricted counts are empty. */
  lemma RestrictedValueCountsNone(vals: seq<string>, keys: set<string>)
    requires forall i :: 0 <= i < |vals| ==> vals[i] !in keys
    ensures RestrictTo(ValueCounts(vals), keys) == []
  {
    var r := RestrictTo(ValueCounts(vals), keys);
    assert Categories(r) == {} by {
      forall v | v in Values(vals)
        ensures v !in keys
      {
        assert v in vals;
      }
    }
    NoCategoriesMeansEmpty(r);
  }

  /** A table with distinct categories whose only category is `c` is the
      one row for `c`. */
  lemma {:induction false} OnlyCategory(t: seq<Entry>, c: string)
    requires DistinctCategories(t)
    requires Categories(t) == {c}
    ensures |t| == 1 && t[0].category == c
  {
    forall e | e in t
      ensures e.category == c
    {
      assert e.category in Categories(t);
    }
    AtMostOneCategory(t, c);
    assert c in Categories(t);
    assert t[0] in t;
  }

  /** When `c` occurs and is the only value that is a key, the restricted
      counts are the one row for `c`. */
  lemma RestrictedValueCountsSingle(vals: seq<string>, keys: set<string>, c: string)
    requires c in keys && c in vals
    requires forall i :: 0 <= i < |vals| ==> vals[i] == c || vals[i] !in keys
    ensures RestrictTo(ValueCounts(vals), keys) == [Entry(c, multiset(vals)[c])]
  {
    var t := ValueCounts(vals);
    var r := RestrictTo(t, keys);
    assert Categories(r) == {c} by {
      forall v | v in Values(vals) * keys
        ensures v == c
      {
        assert v in vals;
      }
      assert c in Values(vals);
    }
    OnlyCategory(r, c);
    assert r[0] in t;
  }

  /** Three rows with strictly increasing counts, each present, sort
      ascending in one way only. */
  lemma SortedThree(r: seq<Entry>, a: Entry, b: Entry, c: Entry)
    requires |r| == 3
    requires forall e :: e in r ==> e == a || e == b || e == c
    requires a in r && b in r && c in r
    requires a.count < b.count < c.count
    requires Sorted(r, true)
    ensures r == [a, b, c]
  {
    assert InOrder(r[0], r[1], true) && InOrder(r[1], r[2], true);
    assert r[0] in r && r[1] in r && r[2] in r;
  }

  /** A table with distinct categories `a`, `b` and `c`, all different, has
      three rows. */
  lemma ThreeCategories(t: seq<Entry>, a: string, b: string, c: string)
    requires a != b && b != c && a != c
    requires DistinctCategories(t)
    requires Categories(t) == {a, b, c}
    ensures |t| == 3
  {
    DistinctCategoriesSize(t);
  }

  /** An ascending frequency table of values `a`, `b` and `c` that occur
      `na`, `nb` and `nc` times, with `nb < nc < na`, is (b, nb), (c, nc),
      (a, na). */
  lemma AscendingTableOfThree(t: seq<Entry>, vals: seq<string>, a: string, b: string, c: string,
                              na: nat, nb: nat, nc: nat)
    requires a != b && b != c && a != c
    requires Values(vals) == {a, b, c}
    requires multiset(vals)[a] == na && multiset(vals)[b] == nb && multiset(vals)[c] == nc
    requires nb < nc < na
    requires IsFrequencyTable(t, vals)
    requires Sorted(t, true)
    ensures t == [Entry(b, nb), Entry(c, nc), Entry(a, na)]
  {
    assert forall e :: e in t ==> e == Entry(a, na) || e == Entry(b, nb) || e == Entry(c, nc) by {
      forall e | e in t
        ensures e == Entry(a, na) || e == Entry(b, nb) || e == Entry(c, nc)
      {
        assert e.category in Categories(t);
      }
    }
    assert Entry(a, na) in t && Entry(b, nb) in t && Entry(c, nc) in t by {
      assert a in Categories(t) && b in Categories(t) && c in Categories(t);
    }
    ThreeCategories(t, a, b, c);
    SortedThree(t, Entry(b, nb), Entry(c, nc), Entry(a, na));
  }

  /** The values and multiplicities of five `a`, one `b` and three `c`. */
  lemma FiveOneThree(vals: seq<string>, a: string, b: string, c: string)
    requires a != b && b != c && a != c
    requires multiset(vals) == multiset{a, a, a, a, a, b, c, c, c}
    ensures Values(vals) == {a, b, c}
    ensures multiset(vals)[a] == 5 && multiset(vals)[b] == 1 && multiset(vals)[c] == 3
  {
    forall v
      ensures v in Values(vals) <==> v in {a, b, c}
    {
      assert v in vals <==> v in multiset(vals);
    }
  }
}
