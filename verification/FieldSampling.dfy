/**
  What the sampled rows make of one field: its shape, data type, greatest identifier and, for
  key-value data, its width.  Parsing a cell is a classification made beforehand.
 */
module FieldSampling {
  import opened Wrappers

  datatype DType = IntType | FloatType | StringType

  datatype Format = Plain | Csv | KeyValue

  datatype ColumnType = IntColumn | FloatColumn | StringColumn | OtherColumn

  // A trimmed, non-empty piece of a cell: an integer of 64 bits, another number, or neither.
  datatype Word = IntWord(n: int) | FloatWord | TextWord

  // A whole cell that is not a list: an integer of 32 bits, another number, or neither.
  datatype Scalar = IntScalar | FloatScalar | TextScalar(text: string)

  // The readings of one cell: the format its text looks like, its pieces at the commas, the index of
  // each of its key-value pairs if there is one, and the cell as a whole.
  datatype Cell = Cell(looks: Format, words: seq<Word>, indices: seq<Option<int>>, whole: Scalar)

  datatype Desc = Desc(
    isSparse: bool,
    shape: Option<seq<int>>,
    dtype: DType,
    delimiter: string,
    delimiterKV: string,
    format: Format,
    vocabulary: set<string>,
    maxID: int)

  const Default := Desc(false, None, IntType, "", "", Plain, {}, 0)

  function Product(s: seq<int>): int {
    if s == [] then 1 else Product(s[..|s| - 1]) * s[|s| - 1]
  }

  function Size(shape: Option<seq<int>>): int {
    if shape.None? then 1 else Product(shape.value)
  }

  // ---- one row

  function MaxWord(m: int, words: seq<Word>): (r: int)
    ensures r >= m
  {
    if words == [] then m
    else
      var rest := MaxWord(m, words[..|words| - 1]);
      match words[|words| - 1]
      case IntWord(n) => if n > rest then n else rest
      case _ => rest
  }

  function TypeOf(t: DType, words: seq<Word>): DType {
    if FloatWord in words then FloatType else t
  }

  function FillCsv(d: Desc, words: seq<Word>): Result<Desc> {
    var size := Size(d.shape);
    if !d.isSparse && size != |words| && size > 1 then Error
    else
      Ok(d.(shape := if !d.isSparse && (d.shape.None? || size != |words|) then Some([|words|]) else d.shape,
            dtype := TypeOf(if d.isSparse then IntType else d.dtype, words),
            delimiter := ",",
            maxID := MaxWord(d.maxID, words)))
  }

  function MaxIndex(indices: seq<Option<int>>): (r: Result<nat>)
    ensures r.Ok? <==> None !in indices
  {
    if indices == [] then Ok(0)
    else
      var last := indices[|indices| - 1];
      var rest := MaxIndex(indices[..|indices| - 1]);
      assert indices == indices[..|indices| - 1] + [last];
      if rest.Error? || last.None? then Error
      else Ok(if last.value > rest.value then last.value else rest.value)
  }

  // Key-value data of a sparse field; the width is inferred only if the field does not give one.  A
  // later row widens the shape that the first one has set; there always is one (see Started).
  function FillKeyValue(d: Desc, indices: seq<Option<int>>, first: bool, infer: bool): Result<Desc> {
    if !d.isSparse then Error
    else if d.delimiterKV != "" then Ok(d)
    else if !infer then Ok(d.(dtype := FloatType))
    else if !first && (d.shape.None? || d.shape.value == []) then Error
    else
      var shape := if first then [1] else d.shape.value;
      var max := MaxIndex(indices);
      if max.Error? then Error
      else Ok(d.(dtype := FloatType, shape := Some(if max.value + 1 > shape[0] then shape[0 := max.value + 1] else shape)))
  }

  function FillPlain(d: Desc, whole: Scalar): Desc {
    match whole
    case IntScalar => d.(shape := if d.shape.None? then Some([1]) else d.shape)
    case FloatScalar => d.(shape := if d.shape.None? then Some([1]) else d.shape, dtype := FloatType)
    case TextScalar(text) => d.(shape := Some([1]), dtype := StringType, vocabulary := d.vocabulary + {text})
  }

  // Rows after the first one need the width that the first one has set.
  predicate Started(d: Desc, column: ColumnType, first: bool, infer: bool) {
    first || (column.StringColumn? && d.format.KeyValue? && infer && d.isSparse && d.delimiterKV == "" ==>
                d.shape.Some? && d.shape.value != [])
  }

  function Fill(d: Desc, column: ColumnType, cell: Cell, first: bool, infer: bool): Result<Desc> {
    match column
    case IntColumn => Ok(d.(dtype := IntType, shape := Some([1])))
    case FloatColumn => Ok(d.(dtype := FloatType, shape := Some([1])))
    case OtherColumn => Error
    case StringColumn =>
      var e := if first then d.(format := cell.looks) else d;
      match e.format
      case Csv => FillCsv(e, cell.words)
      case KeyValue => FillKeyValue(e, cell.indices, first, infer)
      case Plain => Ok(FillPlain(e, cell.whole))
  }

  // ---- all rows

  function FillAll(d: Desc, column: ColumnType, cells: seq<Cell>, infer: bool): (r: Result<Desc>)
    ensures cells != [] && r.Ok? ==> Started(r.value, column, false, infer)
  {
    if cells == [] then Ok(d)
    else
      var before := FillAll(d, column, cells[..|cells| - 1], infer);
      if before.Error? then Error else Fill(before.value, column, cells[|cells| - 1], |cells| == 1, infer)
  }

  // ---- columns of numbers

  // A column of the database's own numbers makes the field one number of its type, whatever the
  // cells are, and a column of another type is an error.
  lemma {:induction false} NumberColumn(d: Desc, cells: seq<Cell>, infer: bool)
    requires cells != []
    ensures FillAll(d, IntColumn, cells, infer) == Ok(d.(dtype := IntType, shape := Some([1])))
    ensures FillAll(d, FloatColumn, cells, infer) == Ok(d.(dtype := FloatType, shape := Some([1])))
    ensures FillAll(d, OtherColumn, cells, infer).Error?
    decreases |cells|
  {
    var init := cells[..|cells| - 1];
    if init != [] {
      NumberColumn(d, init, infer);
    } else {
      assert FillAll(d, IntColumn, [], infer) == Ok(d) && FillAll(d, FloatColumn, [], infer) == Ok(d);
    }
  }

  // ---- lists of numbers

  function Rows(cells: seq<Cell>): seq<seq<Word>> {
    seq(|cells|, i requires 0 <= i < |cells| => cells[i].words)
  }

  function FillCsvAll(d: Desc, rows: seq<seq<Word>>): Result<Desc> {
    if rows == [] then Ok(d)
    else
      var before := FillCsvAll(d, rows[..|rows| - 1]);
      if before.Error? then Error else FillCsv(before.value, rows[|rows| - 1])
  }

  // A column whose first cell looks like a list is read as lists throughout.
  lemma {:induction false} CsvColumn(d: Desc, cells: seq<Cell>, infer: bool)
    requires cells != [] && cells[0].looks == Csv
    ensures FillAll(d, StringColumn, cells, infer) == FillCsvAll(d.(format := Csv), Rows(cells))
    ensures FillAll(d, StringColumn, cells, infer).Ok? ==> FillAll(d, StringColumn, cells, infer).value.format == Csv
    decreases |cells|
  {
    var init := cells[..|cells| - 1];
    assert Rows(cells)[..|cells| - 1] == Rows(init);
    if |cells| > 1 {
      CsvColumn(d, init, infer);
    } else {
      assert FillCsvAll(d.(format := Csv), []) == Ok(d.(format := Csv));
    }
  }

  // The row in front of the last decides whether the last one is accepted.
  ghost predicate Accepts(size: int, rows: seq<seq<Word>>)
    decreases |rows|
  {
    rows == []
    || (Accepts(size, rows[..|rows| - 1]) && (SizeBefore(size, rows) == |rows[|rows| - 1]| || SizeBefore(size, rows) <= 1))
  }

  function SizeBefore(size: int, rows: seq<seq<Word>>): int
    requires rows != []
  {
    if |rows| == 1 then size else |rows[|rows| - 2]|
  }

  function ShapeAfter(shape: Option<seq<int>>, rows: seq<seq<Word>>): Option<seq<int>> {
    if rows == [] then shape
    else
      var before := ShapeAfter(shape, rows[..|rows| - 1]);
      var n := |rows[|rows| - 1]|;
      if before.None? || Size(before) != n then Some([n]) else before
  }

  lemma SizeAfter(shape: Option<seq<int>>, rows: seq<seq<Word>>)
    requires rows != []
    ensures Size(ShapeAfter(shape, rows)) == |rows[|rows| - 1]|
  {
    var n := |rows[|rows| - 1]|;
    assert [n][..0] == [];
    assert Product([]) == 1;
    assert Product([n]) == n;
  }

  // The shape given in advance stays if all rows fit it; otherwise it is the length of the last row.
  lemma {:induction false} ShapeIs(shape: Option<seq<int>>, rows: seq<seq<Word>>)
    requires rows != []
    ensures ShapeAfter(shape, rows)
            == if shape.Some? && forall i :: 0 <= i < |rows| ==> |rows[i]| == Size(shape) then shape else Some([|rows[|rows| - 1]|])
    decreases |rows|
  {
    var n := |rows| - 1;
    var init := rows[..n];
    if n > 0 {
      ShapeIs(shape, init);
      SizeAfter(shape, init);
      assert (forall i :: 0 <= i < |rows| ==> |rows[i]| == Size(shape))
        <==> |rows[n]| == Size(shape) && forall i :: 0 <= i < n ==> |init[i]| == Size(shape);
    } else {
      assert ShapeAfter(shape, init) == shape;
    }
  }

  ghost predicate HasFloat(rows: seq<seq<Word>>) { exists i :: 0 <= i < |rows| && FloatWord in rows[i] }

  ghost predicate Sampled(rows: seq<seq<Word>>, n: int) { exists i :: 0 <= i < |rows| && IntWord(n) in rows[i] }

  function MaxAll(m: int, rows: seq<seq<Word>>): int {
    if rows == [] then m else MaxWord(MaxAll(m, rows[..|rows| - 1]), rows[|rows| - 1])
  }

  // What a dense column of lists comes to.
  lemma {:induction false} CsvOutcome(d: Desc, rows: seq<seq<Word>>)
    requires !d.isSparse && rows != []
    ensures FillCsvAll(d, rows) ==
            if Accepts(Size(d.shape), rows)
            then Ok(d.(shape := ShapeAfter(d.shape, rows), dtype := if HasFloat(rows) then FloatType else d.dtype,
                       delimiter := ",", maxID := MaxAll(d.maxID, rows)))
            else Error
    decreases |rows|
  {
    var n := |rows| - 1;
    var init := rows[..n];
    assert rows == init + [rows[n]];
    assert HasFloat(rows) <==> HasFloat(init) || FloatWord in rows[n] by {
      if HasFloat(init) {
        var i :| 0 <= i < |init| && FloatWord in init[i];
        assert FloatWord in rows[i];
      }
    }
    if n > 0 {
      CsvOutcome(d, init);
      SizeAfter(d.shape, init);
    } else {
      assert FillCsvAll(d, init) == Ok(d) && ShapeAfter(d.shape, init) == d.shape && !HasFloat(init);
    }
  }

  lemma {:induction false} MaxWordIs(m: int, words: seq<Word>)
    ensures forall n :: IntWord(n) in words ==> n <= MaxWord(m, words)
    ensures MaxWord(m, words) == m || IntWord(MaxWord(m, words)) in words
  {
    if words != [] {
      MaxWordIs(m, words[..|words| - 1]);
      assert words == words[..|words| - 1] + [words[|words| - 1]];
    }
  }

  // The greatest identifier is the least bound of the integers sampled.
  lemma {:induction false} MaxAllIs(m: int, rows: seq<seq<Word>>)
    ensures m <= MaxAll(m, rows) && forall n :: Sampled(rows, n) ==> n <= MaxAll(m, rows)
    ensures MaxAll(m, rows) == m || Sampled(rows, MaxAll(m, rows))
  {
    if rows != [] {
      var k := |rows| - 1;
      var init := rows[..k];
      MaxAllIs(m, init);
      MaxWordIs(MaxAll(m, init), rows[k]);
      forall n | Sampled(rows, n)
        ensures n <= MaxAll(m, rows)
      {
        var i :| 0 <= i < |rows| && IntWord(n) in rows[i];
        if i < k {
          assert IntWord(n) in init[i];
          assert Sampled(init, n);
        }
      }
      var r := MaxAll(m, init);
      if Sampled(init, r) {
        var i :| 0 <= i < |init| && IntWord(r) in init[i];
        assert IntWord(r) in rows[i];
      }
    }
  }

  lemma SameElements<T>(a: seq<T>, b: seq<T>, i: nat) returns (j: nat)
    requires multiset(a) == multiset(b) && i < |a|
    ensures j < |b| && b[j] == a[i]
  {
    assert a[i] in multiset(a);
    assert a[i] in b;
    j :| j < |b| && b[j] == a[i];
  }

  // The data type and the greatest identifier do not depend on the order of the rows.
  lemma OrderFreeParts(m: int, rows: seq<seq<Word>>, rows': seq<seq<Word>>)
    requires multiset(rows) == multiset(rows')
    ensures MaxAll(m, rows) == MaxAll(m, rows') && (HasFloat(rows) <==> HasFloat(rows'))
  {
    MaxAllIs(m, rows);
    MaxAllIs(m, rows');
    SampledAgain(rows, rows');
    SampledAgain(rows', rows);
  }

  lemma SampledAgain(rows: seq<seq<Word>>, rows': seq<seq<Word>>)
    requires multiset(rows) == multiset(rows')
    ensures forall n :: Sampled(rows, n) ==> Sampled(rows', n)
    ensures HasFloat(rows) ==> HasFloat(rows')
  {
    forall n | Sampled(rows, n)
      ensures Sampled(rows', n)
    {
      var i :| 0 <= i < |rows| && IntWord(n) in rows[i];
      var j := SameElements(rows, rows', i);
    }
    if HasFloat(rows) {
      var i :| 0 <= i < |rows| && FloatWord in rows[i];
      var j := SameElements(rows, rows', i);
    }
  }

  // ---- scalars

  // The last cell that is no integer, if there is one.
  function LastOther(cells: seq<Cell>): Option<Scalar> {
    if cells == [] then None
    else
      var last := cells[|cells| - 1].whole;
      if last.IntScalar? then LastOther(cells[..|cells| - 1]) else Some(last)
  }

  function Texts(cells: seq<Cell>): set<string> {
    set i | 0 <= i < |cells| && cells[i].whole.TextScalar? :: cells[i].whole.text
  }

  function TypeFrom(t: DType, other: Option<Scalar>): DType {
    if other.None? then t else if other.value.FloatScalar? then FloatType else StringType
  }

  lemma TextsMore(cells: seq<Cell>)
    requires cells != []
    ensures var init, last := cells[..|cells| - 1], cells[|cells| - 1].whole;
      Texts(cells) == if last.TextScalar? then Texts(init) + {last.text} else Texts(init)
  {
    var k := |cells| - 1;
    forall i: nat | i < k && cells[i].whole.TextScalar?
      ensures cells[i].whole.text in Texts(cells[..k]) && cells[i].whole.text in Texts(cells)
    {
      assert cells[..k][i] == cells[i];
    }
    assert cells[k].whole.TextScalar? ==> cells[k].whole.text in Texts(cells);
  }

  // All texts are collected, a text makes the shape one, and the data type is that of the last cell
  // that is no integer.
  function FromScalars(d: Desc, cells: seq<Cell>): Desc {
    d.(shape := if cells == [] then d.shape else if Texts(cells) != {} || d.shape.None? then Some([1]) else d.shape,
       dtype := TypeFrom(d.dtype, LastOther(cells)),
       vocabulary := d.vocabulary + Texts(cells))
  }

  lemma ScalarNext(d: Desc, cells: seq<Cell>)
    requires cells != []
    ensures FillPlain(FromScalars(d, cells[..|cells| - 1]), cells[|cells| - 1].whole) == FromScalars(d, cells)
  {
    var init, last := cells[..|cells| - 1], cells[|cells| - 1].whole;
    TextsMore(cells);
    if last.TextScalar? {
      assert d.vocabulary + Texts(init) + {last.text} == d.vocabulary + Texts(cells);
      assert last.text in Texts(cells);
    }
    assert Texts([]) == {};
  }

  // What a column comes to whose first cell looks like neither a list nor pairs, whatever the other
  // cells are.
  lemma {:induction false} PlainOutcome(d: Desc, cells: seq<Cell>, infer: bool)
    requires cells != [] && cells[0].looks == Plain
    ensures FillAll(d, StringColumn, cells, infer) == Ok(FromScalars(d.(format := Plain), cells))
    decreases |cells|
  {
    var init := cells[..|cells| - 1];
    ScalarNext(d.(format := Plain), cells);
    if |cells| > 1 {
      PlainOutcome(d, init, infer);
    } else {
      assert FillAll(d, StringColumn, init, infer) == Ok(d);
      assert d.vocabulary + Texts([]) == d.vocabulary;
    }
  }

  ghost predicate HasText(cells: seq<Cell>, t: string) {
    exists i :: 0 <= i < |cells| && cells[i].whole == TextScalar(t)
  }

  // The cell at k is the last one that is no integer.
  ghost predicate LastAt(cells: seq<Cell>, k: nat) {
    k < |cells| && !cells[k].whole.IntScalar? && forall i :: k < i < |cells| ==> cells[i].whole.IntScalar?
  }

  lemma {:induction false} LastOtherAt(cells: seq<Cell>, k: nat)
    requires LastAt(cells, k)
    ensures LastOther(cells) == Some(cells[k].whole)
    decreases |cells|
  {
    if k < |cells| - 1 {
      assert LastAt(cells[..|cells| - 1], k);
      LastOtherAt(cells[..|cells| - 1], k);
    }
  }

  lemma {:induction false} NoOther(cells: seq<Cell>)
    requires forall i :: 0 <= i < |cells| ==> cells[i].whole.IntScalar?
    ensures LastOther(cells) == None
    decreases |cells|
  {
    if cells != [] {
      NoOther(cells[..|cells| - 1]);
    }
  }

  // Cell by cell: the data type is Float or String by the last cell that is no integer, and the old one
  // if all are; the vocabulary gets exactly the texts; a text makes the shape one.
  lemma ScalarsCome(d: Desc, cells: seq<Cell>, infer: bool)
    requires cells != [] && cells[0].looks == Plain
    ensures FillAll(d, StringColumn, cells, infer).Ok?
    ensures
      var e := FillAll(d, StringColumn, cells, infer).value;
      && (forall k: nat :: LastAt(cells, k) ==> e.dtype == if cells[k].whole.FloatScalar? then FloatType else StringType)
      && ((forall i :: 0 <= i < |cells| ==> cells[i].whole.IntScalar?) ==> e.dtype == d.dtype)
      && (forall t :: t in e.vocabulary <==> t in d.vocabulary || HasText(cells, t))
      && (e.shape == if d.shape.Some? && forall t :: !HasText(cells, t) then d.shape else Some([1]))
  {
    PlainOutcome(d, cells, infer);
    forall k: nat | LastAt(cells, k) ensures LastOther(cells) == Some(cells[k].whole) {
      LastOtherAt(cells, k);
    }
    if forall i :: 0 <= i < |cells| ==> cells[i].whole.IntScalar? {
      NoOther(cells);
    }
    forall t ensures t in Texts(cells) <==> HasText(cells, t) {
      if t in Texts(cells) {
        var i :| 0 <= i < |cells| && cells[i].whole.TextScalar? && cells[i].whole.text == t;
        assert cells[i].whole == TextScalar(t);
      }
    }
    assert Texts(cells) == {} <==> forall t :: !HasText(cells, t) by {
      assert forall t :: t in Texts(cells) <==> HasText(cells, t);
    }
  }

  // ---- key-value data

  ghost predicate Broken(cells: seq<Cell>) { exists i :: 0 <= i < |cells| && None in cells[i].indices }

  ghost predicate Indexed(cells: seq<Cell>, n: int) { exists i :: 0 <= i < |cells| && Some(n) in cells[i].indices }

  // One more than the greatest index, and at least one.
  function Width(cells: seq<Cell>): nat {
    if cells == [] then 1
    else
      var before := Width(cells[..|cells| - 1]);
      var max := MaxIndex(cells[|cells| - 1].indices);
      if max.Ok? && max.value + 1 > before then max.value + 1 else before
  }

  lemma {:induction false} MaxIndexIs(indices: seq<Option<int>>)
    requires MaxIndex(indices).Ok?
    ensures forall n :: Some(n) in indices ==> n <= MaxIndex(indices).value
    ensures MaxIndex(indices).value == 0 || Some(MaxIndex(indices).value as int) in indices
  {
    if indices != [] {
      var k := |indices| - 1;
      assert indices == indices[..k] + [indices[k]];
      MaxIndexIs(indices[..k]);
    }
  }

  lemma BrokenMore(cells: seq<Cell>, k: nat)
    requires k <= |cells|
    ensures Broken(cells[..k]) ==> Broken(cells)
  {
    if Broken(cells[..k]) {
      var i :| 0 <= i < k && None in cells[..k][i].indices;
      assert None in cells[i].indices;
    }
  }

  lemma {:induction false} WidthIs(cells: seq<Cell>)
    requires !Broken(cells)
    ensures Width(cells) >= 1 && forall n :: Indexed(cells, n) ==> n < Width(cells)
    ensures Width(cells) == 1 || Indexed(cells, Width(cells) - 1)
  {
    if cells != [] {
      var k := |cells| - 1;
      var init := cells[..k];
      BrokenMore(cells, k);
      WidthIs(init);
      MaxIndexIs(cells[k].indices);
      forall n | Indexed(cells, n)
        ensures n < Width(cells)
      {
        var i :| 0 <= i < |cells| && Some(n) in cells[i].indices;
        if i < k {
          assert Some(n) in init[i].indices;
          assert Indexed(init, n);
        }
      }
      var w := Width(init);
      if Indexed(init, w - 1) {
        var i :| 0 <= i < |init| && Some(w - 1) in init[i].indices;
        assert Some(w - 1) in cells[i].indices;
      }
    }
  }

  // One more row of key-value data.
  lemma KeyValueNext(d: Desc, w: nat, indices: seq<Option<int>>, first: bool)
    requires d.isSparse && d.delimiterKV == "" && (first ==> w == 1) && (!first ==> d.shape == Some([w]))
    ensures
      var max := MaxIndex(indices);
      FillKeyValue(d, indices, first, true) ==
      if max.Error? then Error
      else Ok(d.(dtype := FloatType, shape := Some([if max.value + 1 > w then max.value + 1 else w])))
  {
    if MaxIndex(indices).Ok? {
      assert [w as int][0 := MaxIndex(indices).value + 1] == [MaxIndex(indices).value + 1];
    }
  }

  // What a sparse column of key-value data comes to when its width is inferred.
  lemma {:induction false} KeyValueColumn(d: Desc, cells: seq<Cell>)
    requires cells != [] && cells[0].looks == KeyValue && d.isSparse && d.delimiterKV == ""
    ensures FillAll(d, StringColumn, cells, true) ==
            if Broken(cells) then Error
            else Ok(d.(format := KeyValue, dtype := FloatType, shape := Some([Width(cells)])))
    decreases |cells|
  {
    var k := |cells| - 1;
    var init := cells[..k];
    BrokenIff(cells);
    if k > 0 {
      KeyValueColumn(d, init);
      var before := d.(format := KeyValue, dtype := FloatType, shape := Some([Width(init)]));
      KeyValueNext(before, Width(init), cells[k].indices, false);
    } else {
      assert init == [];
      KeyValueNext(d.(format := KeyValue), 1, cells[0].indices, true);
    }
  }

  lemma BrokenIff(cells: seq<Cell>)
    requires cells != []
    ensures Broken(cells) <==> Broken(cells[..|cells| - 1]) || None in cells[|cells| - 1].indices
  {
    var k := |cells| - 1;
    assert cells == cells[..k] + [cells[k]];
    BrokenMore(cells, k);
  }

  // Every sampled index lies within the inferred width, in whatever order the rows come.
  lemma KeyValueOrderFree(d: Desc, cells: seq<Cell>, cells': seq<Cell>)
    requires cells != [] && cells' != [] && multiset(cells) == multiset(cells')
    requires cells[0].looks == KeyValue && cells'[0].looks == KeyValue && d.isSparse && d.delimiterKV == ""
    ensures FillAll(d, StringColumn, cells, true) == FillAll(d, StringColumn, cells', true)
  {
    KeyValueColumn(d, cells);
    KeyValueColumn(d, cells');
    IndexedAgain(cells, cells');
    IndexedAgain(cells', cells);
    if !Broken(cells) {
      WidthIs(cells);
      WidthIs(cells');
    }
  }

  lemma IndexedAgain(cells: seq<Cell>, cells': seq<Cell>)
    requires multiset(cells) == multiset(cells')
    ensures forall n :: Indexed(cells, n) ==> Indexed(cells', n)
    ensures Broken(cells) ==> Broken(cells')
  {
    forall n | Indexed(cells, n)
      ensures Indexed(cells', n)
    {
      var i :| 0 <= i < |cells| && Some(n) in cells[i].indices;
      var j := SameElements(cells, cells', i);
    }
    if Broken(cells) {
      var i :| 0 <= i < |cells| && None in cells[i].indices;
      var j := SameElements(cells, cells', i);
    }
  }

  // Pairs whose delimiters or width are given leave the field alone, apart from its format and data type.
  lemma {:induction false} PairsKept(d: Desc, cells: seq<Cell>, infer: bool)
    requires d.isSparse && cells != [] && cells[0].looks == KeyValue && (d.delimiterKV != "" || !infer)
    ensures FillAll(d, StringColumn, cells, infer)
      == Ok(d.(format := KeyValue, dtype := if d.delimiterKV != "" then d.dtype else FloatType))
    decreases |cells|
  {
    var init := cells[..|cells| - 1];
    if |cells| > 1 {
      PairsKept(d, init, infer);
    } else {
      assert FillAll(d, StringColumn, init, infer) == Ok(d);
    }
  }

  // ---- bucket sizes

  datatype Use = Embedding | Indicator

  // The bucket size of the category column that a feature column leaves out.
  function Bucket(use: Use, d: Desc): Result<int>
    requires d.isSparse && use == Embedding ==> d.shape.Some? && d.shape.value != []
  {
    if d.isSparse then if use == Embedding then Ok(d.shape.value[0]) else Error
    else if d.maxID == 0 then Error
    else Ok(d.maxID + 1)
  }

  // Every integer sampled in a dense column of lists is below the bucket size.  For a field that starts
  // without identifiers the size is no greater than needed, and there is none only if no positive
  // integer was sampled.
  lemma BucketHoldsSamples(use: Use, d: Desc, cells: seq<Cell>, infer: bool)
    requires cells != [] && cells[0].looks == Csv && !d.isSparse
    requires FillAll(d, StringColumn, cells, infer).Ok?
    ensures
      var e := FillAll(d, StringColumn, cells, infer).value;
      && !e.isSparse
      && (Bucket(use, e).Ok? ==> forall n :: Sampled(Rows(cells), n) ==> n < Bucket(use, e).value)
      && (d.maxID == 0 ==> (Bucket(use, e).Error? <==> forall n :: Sampled(Rows(cells), n) ==> n <= 0))
      && (d.maxID == 0 && Bucket(use, e).Ok? ==> Sampled(Rows(cells), Bucket(use, e).value - 1))
  {
    CsvColumn(d, cells, infer);
    CsvOutcome(d.(format := Csv), Rows(cells));
    MaxAllIs(d.maxID, Rows(cells));
  }

  // Every sampled index of key-value data is below the bucket size, which is no greater than needed.
  lemma BucketHoldsIndices(d: Desc, cells: seq<Cell>)
    requires cells != [] && cells[0].looks == KeyValue && d.isSparse && d.delimiterKV == ""
    requires FillAll(d, StringColumn, cells, true).Ok?
    ensures
      var e := FillAll(d, StringColumn, cells, true).value;
      && e.isSparse && e.shape.Some? && e.shape.value != []
      && Bucket(Embedding, e).Ok? && Bucket(Indicator, e).Error?
      && (forall n :: Indexed(cells, n) ==> n < Bucket(Embedding, e).value)
      && (Bucket(Embedding, e).value == 1 || Indexed(cells, Bucket(Embedding, e).value - 1))
  {
    KeyValueColumn(d, cells);
    WidthIs(cells);
  }

  lemma WithoutOne<T>(a: seq<T>, j: nat)
    requires j < |a|
    ensures multiset(a) == multiset(a[..j] + a[j + 1..]) + multiset{a[j]}
  {
    assert a == a[..j] + [a[j]] + a[j + 1..];
  }

  lemma Cancel<T>(a: multiset<T>, b: multiset<T>, x: T)
    requires a + multiset{x} == b + multiset{x}
    ensures a == b
  {
    assert a == a + multiset{x} - multiset{x};
  }

  lemma RestAgain<T>(a: seq<T>, i: nat, b: seq<T>, j: nat)
    requires multiset(a) == multiset(b) && i < |a| && j < |b| && a[i] == b[j]
    ensures multiset(a[..i] + a[i + 1..]) == multiset(b[..j] + b[j + 1..])
  {
    WithoutOne(a, i);
    WithoutOne(b, j);
    Cancel(multiset(a[..i] + a[i + 1..]), multiset(b[..j] + b[j + 1..]), a[i]);
  }

  // Images of the same elements, in any order, are the same images.
  lemma {:induction false} ImageAgain<S, T>(a: seq<S>, fa: seq<T>, b: seq<S>, fb: seq<T>)
    requires multiset(a) == multiset(b) && |fa| == |a| && |fb| == |b|
    requires forall i, j :: 0 <= i < |a| && 0 <= j < |b| && a[i] == b[j] ==> fa[i] == fb[j]
    ensures multiset(fa) == multiset(fb)
    decreases |a|
  {
    if a == [] {
      assert |b| == |multiset(b)| == 0;
    } else {
      var j := SameElements(a, b, 0);
      RestAgain(a, 0, b, j);
      ImageAgain(a[..0] + a[1..], fa[..0] + fa[1..], b[..j] + b[j + 1..], fb[..j] + fb[j + 1..]);
      WithoutOne(fa, 0);
      WithoutOne(fb, j);
    }
  }
}
