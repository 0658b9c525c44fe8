/** The two column-profiling helpers of the toolbox: `DescribeDf`, which
    gives one profile record per column, and `TipificaVariables`, which
    suggests a statistical type for each column from its cardinality. */
module ToolboxML {
  import opened DataFrame

  /** Dividing by a row count of zero raises. */
  datatype Error = ZeroDivisionError

  datatype Result<+T> = Ok(value: T) | Err(error: Error)

  /** `x` as a percentage of `n`, in exact arithmetic. */
  function Percentage(x: nat, n: nat): (p: real)
    requires n > 0
    ensures x <= n ==> 0.0 <= p <= 100.0
    ensures p == 0.0 <==> x == 0
    ensures p == 100.0 <==> x == n
  {
    var q := x as real / n as real;
    assert q * n as real == x as real;
    assert x <= n ==> q <= 1.0;
    q * 100.0
  }

  // ---------------------------------------------------------------------
  // describe_df

  /** One row of the description: column name, declared type, percentage of
      missing cells, number of distinct present values and that number as a
      percentage of the row count. */
  datatype ColumnProfile = ColumnProfile(
    columnName: string,
    dataType: string,
    nullPercentage: real,
    uniqueValues: nat,
    cardinality: real)

  /** What a profile record says about its column in a table of `n` rows. */
  predicate ProfileOf<V(==)>(p: ColumnProfile, c: Column<V>, n: nat)
    requires n > 0
  {
    p.columnName == c.name &&
    p.dataType == c.dtype &&
    p.nullPercentage == Percentage(NullCount(c.cells), n) &&
    p.uniqueValues == Nunique(c.cells) &&
    p.cardinality == Percentage(p.uniqueValues, n)
  }

  /** The profile of one column of a table of `n` rows. */
  function Profile<V(==)>(c: Column<V>, n: nat): (p: ColumnProfile)
    requires n > 0 && |c.cells| == n
    ensures ProfileOf(p, c, n)
    ensures 0.0 <= p.nullPercentage <= 100.0
    ensures p.nullPercentage == 0.0 <==> forall i :: 0 <= i < n ==> c.cells[i].Some?
    ensures p.nullPercentage == 100.0 <==> forall i :: 0 <= i < n ==> c.cells[i].None?
    ensures p.uniqueValues <= n
    ensures 0.0 <= p.cardinality <= 100.0
    ensures AllPresentAndDistinct(c.cells) ==> p.cardinality == 100.0
  {
    assert AllPresentAndDistinct(c.cells) ==> Nunique(c.cells) == n by {
      if AllPresentAndDistinct(c.cells) {
        NuniqueAllDistinct(c.cells);
      }
    }
    var u := Nunique(c.cells);
    ColumnProfile(c.name, c.dtype, Percentage(NullCount(c.cells), n), u, Percentage(u, n))
  }

  /** `describe_df`: one profile per column, in column order. A table with
      columns but no rows makes the cardinality division raise; a table with
      no columns gives an empty description whatever its row count. */
  function DescribeDf<V(==)>(t: Table<V>): (r: Result<seq<ColumnProfile>>)
    requires WellFormed(t)
    ensures r.Err? <==> |t.columns| > 0 && t.rows == 0
    ensures r.Ok? ==> |r.value| == |t.columns|
    ensures r.Ok? ==> forall i :: 0 <= i < |t.columns| ==>
      ProfileOf(r.value[i], t.columns[i], t.rows)
  {
    if |t.columns| > 0 && t.rows == 0 then Err(ZeroDivisionError)
    else Ok(seq(|t.columns|, i requires 0 <= i < |t.columns| => Profile(t.columns[i], t.rows)))
  }

  /** Every record of a description keeps the bounds the profile promises:
      percentages in [0, 100], zero or full null percentage exactly for a
      column without or only with nulls, at most `rows` distinct values,
      cardinality equal to the distinct count over the row count, and full
      cardinality for a column of distinct present values. */
  lemma DescribeDfBounds<V>(t: Table<V>, i: nat)
    requires WellFormed(t)
    requires i < |t.columns|
    requires DescribeDf(t).Ok?
    ensures var p, c := DescribeDf(t).value[i], t.columns[i].cells;
      && p.columnName == t.columns[i].name
      && 0.0 <= p.nullPercentage <= 100.0
      && (p.nullPercentage == 0.0 <==> forall k :: 0 <= k < |c| ==> c[k].Some?)
      && (p.nullPercentage == 100.0 <==> forall k :: 0 <= k < |c| ==> c[k].None?)
      && p.uniqueValues <= t.rows
      && p.cardinality == p.uniqueValues as real / t.rows as real * 100.0
      && 0.0 <= p.cardinality <= 100.0
      && (AllPresentAndDistinct(c) ==> p.cardinality == 100.0)
  {
    var p := Profile(t.columns[i], t.rows);
    assert DescribeDf(t).value[i] == p;
  }

  // ---------------------------------------------------------------------
  // tipifica_variables

  datatype VarType = Binaria | Categorica | NumericaContinua | NumericaDiscreta

  /** The label the toolbox writes for each suggested type; each label
      belongs to exactly one type. */
  function TypeName(v: VarType): (s: string)
    ensures s == "Binaria" <==> v == Binaria
    ensures s == "Categórica" <==> v == Categorica
    ensures s == "Numérica Continua" <==> v == NumericaContinua
    ensures s == "Numérica Discreta" <==> v == NumericaDiscreta
  {
    match v
    case Binaria => "Binaria"
    case Categorica => "Categórica"
    case NumericaContinua => "Numérica Continua"
    case NumericaDiscreta => "Numérica Discreta"
  }

  /** The suggested type of a column with `card` distinct values in a table
      of `n` rows. The tests are tried in order and the first that succeeds
      decides; each label is characterised by its own condition below. */
  function Classify(card: nat, n: nat, umbralCategoria: int, umbralContinua: real): (v: VarType)
    requires n > 0
    ensures v == Binaria <==> card == 2
    ensures v == Categorica <==> card != 2 && card < umbralCategoria
    ensures v == NumericaContinua <==>
      card != 2 && card >= umbralCategoria && card as real / n as real >= umbralContinua
    ensures v == NumericaDiscreta <==>
      card != 2 && card >= umbralCategoria && card as real / n as real < umbralContinua
  {
    var porcentajeCardinalidad := card as real / n as real;
    if card == 2 then Binaria
    else if card < umbralCategoria then Categorica
    else if porcentajeCardinalidad >= umbralContinua then NumericaContinua
    else NumericaDiscreta
  }

  /** A row of the classification: the column's name and the label of its
      suggested type, as the toolbox writes it. */
  datatype Suggestion = Suggestion(nombreVariable: string, tipoSugerido: string)

  /** The row for column `i` of `t`: its name, and the label of the first
      test its distinct count passes. */
  function SuggestionFor<V(==)>(t: Table<V>, i: nat, umbralCategoria: int, umbralContinua: real): (r: Suggestion)
    requires i < |t.columns| && t.rows > 0
    ensures r.nombreVariable == t.columns[i].name
    ensures var card := Nunique(t.columns[i].cells);
      var ratio := card as real / t.rows as real;
      && (r.tipoSugerido == "Binaria" <==> card == 2)
      && (r.tipoSugerido == "Categórica" <==> card != 2 && card < umbralCategoria)
      && (r.tipoSugerido == "Numérica Continua" <==>
            card != 2 && card >= umbralCategoria && ratio >= umbralContinua)
      && (r.tipoSugerido == "Numérica Discreta" <==>
            card != 2 && card >= umbralCategoria && ratio < umbralContinua)
  {
    Suggestion(t.columns[i].name,
               TypeName(Classify(Nunique(t.columns[i].cells), t.rows, umbralCategoria, umbralContinua)))
  }

  /** `tipifica_variables`: walks the columns in order and appends one
      suggestion per column. The first column of a table without rows makes
      the ratio division raise. */
  method TipificaVariables<V(==)>(t: Table<V>, umbralCategoria: int, umbralContinua: real)
    returns (r: Result<seq<Suggestion>>)
    requires WellFormed(t)
    ensures r.Err? <==> |t.columns| > 0 && t.rows == 0
    ensures r.Ok? ==> |r.value| == |t.columns|
    ensures r.Ok? ==> forall i :: 0 <= i < |t.columns| ==>
      r.value[i] == SuggestionFor(t, i, umbralCategoria, umbralContinua)
  {
    var resultado: seq<Suggestion> := [];
    var k := 0;
    while k < |t.columns|
      invariant 0 <= k <= |t.columns|
      invariant k > 0 ==> t.rows > 0
      invariant |resultado| == k
      invariant forall i :: 0 <= i < k ==>
        resultado[i] == SuggestionFor(t, i, umbralCategoria, umbralContinua)
    {
      var col := t.columns[k];
      var cardinalidad := Nunique(col.cells);
      if t.rows == 0 {
        return Err(ZeroDivisionError);
      }
      var tipo := Classify(cardinalidad, t.rows, umbralCategoria, umbralContinua);
      resultado := resultado + [Suggestion(col.name, TypeName(tipo))];
      k := k + 1;
    }
    return Ok(resultado);
  }

  /** A column with exactly two distinct present values is binary whatever
      the two thresholds are. */
  lemma BinaryWhateverThresholds<V>(t: Table<V>, i: nat, uc1: int, ucont1: real, uc2: int, ucont2: real)
    requires i < |t.columns| && t.rows > 0
    requires Nunique(t.columns[i].cells) == 2
    ensures SuggestionFor(t, i, uc1, ucont1) == SuggestionFor(t, i, uc2, ucont2)
    ensures SuggestionFor(t, i, uc1, ucont1).tipoSugerido == "Binaria"
  {
  }

  /** The suggestion reads nothing of a column but its distinct count: two
      columns of one table with equal cardinality get the same type. */
  lemma SameCardinalitySameType<V>(t: Table<V>, i: nat, j: nat, umbralCategoria: int, umbralContinua: real)
    requires i < |t.columns| && j < |t.columns| && t.rows > 0
    requires Nunique(t.columns[i].cells) == Nunique(t.columns[j].cells)
    ensures SuggestionFor(t, i, umbralCategoria, umbralContinua).tipoSugerido ==
            SuggestionFor(t, j, umbralCategoria, umbralContinua).tipoSugerido
  {
  }

  /** Recoding the values of a column by any injective map leaves its
      suggested type unchanged: the type depends on how many distinct values
      there are, not on what they are. */
  lemma RecodeKeepsType<V(!new), W>(c: seq<Option<V>>, f: V -> W, n: nat, umbralCategoria: int, umbralContinua: real)
    requires n > 0 && Injective(f)
    ensures Classify(Nunique(MapCells(c, f)), n, umbralCategoria, umbralContinua) ==
            Classify(Nunique(c), n, umbralCategoria, umbralContinua)
  {
    NuniqueInjectiveRecode(c, f);
  }

  /** Raising the category threshold can only turn more columns categorical,
      and a categorical column stays categorical. */
  lemma CategoricalMonotone(card: nat, n: nat, uc: int, uc': int, umbralContinua: real)
    requires n > 0 && uc <= uc'
    requires Classify(card, n, uc, umbralContinua) == Categorica
    ensures Classify(card, n, uc', umbralContinua) == Categorica
  {
  }

  /** Lowering the continuity threshold keeps a continuous column continuous. */
  lemma ContinuousMonotone(card: nat, n: nat, umbralCategoria: int, ucont: real, ucont': real)
    requires n > 0 && ucont' <= ucont
    requires Classify(card, n, umbralCategoria, ucont) == NumericaContinua
    ensures Classify(card, n, umbralCategoria, ucont') == NumericaContinua
  {
  }
}
