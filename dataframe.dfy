/** An in-memory table as the profiling helpers see it: an ordered sequence of
    named columns over a common number of rows, each cell either a value or a
    missing entry (a null or a NaN). The column-wise counts that the helpers
    read from the table, the number of missing cells and the number of
    distinct present values, are defined here with their properties. */
module DataFrame {

  /** A cell: `None` is a null or NaN entry, `Some(v)` a present value. */
  datatype Option<+T> = None | Some(value: T)

  /** One named column. `dtype` is the column's declared element type,
      an opaque tag that the model only carries along. */
  datatype Column<V> = Column(name: string, dtype: string, cells: seq<Option<V>>)

  /** A table: `rows` is the row count (the length of the table) and
      `columns` the columns in table order. */
  datatype Table<V> = Table(rows: nat, columns: seq<Column<V>>)

  /** Every column holds exactly `rows` cells and column names are unique,
      so that selecting a column by name selects exactly one column. */
  predicate WellFormed<V>(t: Table<V>) {
    (forall i :: 0 <= i < |t.columns| ==> |t.columns[i].cells| == t.rows) &&
    (forall i, j :: 0 <= i < j < |t.columns| ==> t.columns[i].name != t.columns[j].name)
  }

  /** The number of missing cells of a column (the sum of its null mask). */
  function NullCount<V>(c: seq<Option<V>>): (r: nat)
    ensures r == multiset(c)[None]
    ensures r <= |c|
    ensures r == 0 <==> forall i :: 0 <= i < |c| ==> c[i].Some?
    ensures r == |c| <==> forall i :: 0 <= i < |c| ==> c[i].None?
  {
    if |c| == 0 then 0
    else
      var rest := NullCount(c[1..]);
      assert forall i :: 1 <= i < |c| ==> c[i] == c[1..][i - 1];
      assert c == [c[0]] + c[1..];
      assert multiset(c) == multiset([c[0]]) + multiset(c[1..]);
      (if c[0].None? then 1 else 0) + rest
  }

  /** The set of present values of a column: nulls are dropped. */
  function NonNullValues<V>(c: seq<Option<V>>): (r: set<V>)
    ensures forall v | v in r :: exists i :: 0 <= i < |c| && c[i] == Some(v)
    ensures forall i :: 0 <= i < |c| && c[i].Some? ==> c[i].value in r
  {
    if |c| == 0 then {}
    else
      var rest := NonNullValues(c[1..]);
      assert forall i :: 1 <= i < |c| ==> c[i] == c[1..][i - 1];
      assert forall i :: 0 <= i < |c| - 1 ==> c[1..][i] == c[i + 1];
      (if c[0].Some? then {c[0].value} else {}) + rest
  }

  /** Distinct present values and missing cells together never outnumber
      the cells. */
  lemma {:induction false} NonNullValuesBound<V>(c: seq<Option<V>>)
    ensures |NonNullValues(c)| + NullCount(c) <= |c|
  {
    if |c| > 0 {
      NonNullValuesBound(c[1..]);
      var head: set<V> := if c[0].Some? then {c[0].value} else {};
      assert NonNullValues(c) == head + NonNullValues(c[1..]);
      assert |head + NonNullValues(c[1..])| <= |head| + |NonNullValues(c[1..])|;
    }
  }

  /** The number of distinct present values of a column. Nulls are not
      counted, so it is at most the number of present cells, and a column
      has none exactly when it holds only nulls. Two values count as one
      exactly when they are equal. */
  function Nunique<V(==)>(c: seq<Option<V>>): (r: nat)
    ensures r + NullCount(c) <= |c|
    ensures r <= |c|
    ensures r == 0 <==> forall i :: 0 <= i < |c| ==> c[i].None?
  {
    NonNullValuesBound(c);
    assert |NonNullValues(c)| != 0 ==> exists i :: 0 <= i < |c| && c[i].Some? by {
      if |NonNullValues(c)| != 0 {
        var v :| v in NonNullValues(c);
        var i :| 0 <= i < |c| && c[i] == Some(v);
        assert c[i].Some?;
      }
    }
    |NonNullValues(c)|
  }

  /** No missing cells and no repeated value: every cell counts as a distinct value. */
  predicate AllPresentAndDistinct<V(==)>(c: seq<Option<V>>) {
    (forall i :: 0 <= i < |c| ==> c[i].Some?) &&
    (forall i, j :: 0 <= i < j < |c| ==> c[i] != c[j])
  }

  lemma {:induction false} NuniqueAllDistinct<V>(c: seq<Option<V>>)
    requires AllPresentAndDistinct(c)
    ensures Nunique(c) == |c|
  {
    if |c| > 0 {
      var rest := c[1..];
      assert AllPresentAndDistinct(rest) by {
        forall i, j | 0 <= i < j < |rest| ensures rest[i] != rest[j] {
          assert rest[i] == c[i + 1] && rest[j] == c[j + 1];
        }
      }
      NuniqueAllDistinct(rest);
      assert NonNullValues(c) == {c[0].value} + NonNullValues(rest);
    }
  }

  /** Recode the present values of a column through `f`; nulls stay nulls. */
  function MapCells<V, W>(c: seq<Option<V>>, f: V -> W): (r: seq<Option<W>>)
    ensures |r| == |c|
    ensures forall i :: 0 <= i < |c| ==> r[i].None? == c[i].None?
    ensures forall i :: 0 <= i < |c| && c[i].Some? ==> r[i] == Some(f(c[i].value))
  {
    if |c| == 0 then []
    else
      [if c[0].Some? then Some(f(c[0].value)) else None] + MapCells(c[1..], f)
  }

  ghost predicate Injective<V(!new), W>(f: V -> W) {
    forall a, b :: f(a) == f(b) ==> a == b
  }

  /** The image of a set under an injective map has the size of the set. */
  lemma {:induction false} InjectiveImageSize<V(!new), W>(s: set<V>, f: V -> W)
    requires Injective(f)
    ensures |set v | v in s :: f(v)| == |s|
    decreases |s|
  {
    if s != {} {
      var x :| x in s;
      var s' := s - {x};
      InjectiveImageSize(s', f);
      var img := set v | v in s :: f(v);
      var img' := set v | v in s' :: f(v);
      assert img == img' + {f(x)};
      assert f(x) !in img';
    }
  }

  /** The number of distinct values does not depend on what the values are:
      recoding a column injectively keeps its distinct count and its null count. */
  lemma NuniqueInjectiveRecode<V(!new), W>(c: seq<Option<V>>, f: V -> W)
    requires Injective(f)
    ensures Nunique(MapCells(c, f)) == Nunique(c)
    ensures NullCount(MapCells(c, f)) == NullCount(c)
  {
    var m := MapCells(c, f);
    var img := set v | v in NonNullValues(c) :: f(v);
    assert NonNullValues(m) == img by {
      forall w | w in NonNullValues(m) ensures w in img {
        var i :| 0 <= i < |m| && m[i] == Some(w);
        assert c[i].value in NonNullValues(c);
      }
      forall w | w in img ensures w in NonNullValues(m) {
        var v :| v in NonNullValues(c) && f(v) == w;
        var i :| 0 <= i < |c| && c[i] == Some(v);
        assert m[i] == Some(w);
      }
    }
    InjectiveImageSize(NonNullValues(c), f);
    NullCountRecode(c, f);
  }

  lemma {:induction false} NullCountRecode<V, W>(c: seq<Option<V>>, f: V -> W)
    ensures NullCount(MapCells(c, f)) == NullCount(c)
  {
    if |c| > 0 {
      NullCountRecode(c[1..], f);
      assert MapCells(c, f)[1..] == MapCells(c[1..], f);
    }
  }
}
