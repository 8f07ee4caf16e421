/**
  When the description of a field depends on the order in which the rows were sampled.
 */
module RowOrder {
  import opened FieldDerivation
  import opened FieldSampling
  import opened Wrappers

  // ---- the same cells in another order

  lemma MoveFirst<T>(a: seq<T>, i: nat) returns (b: seq<T>)
    requires i < |a|
    ensures multiset(b) == multiset(a) && b != [] && b[0] == a[i]
  {
    WithoutOne(a, i);
    b := [a[i]] + (a[..i] + a[i + 1..]);
  }

  lemma MoveLast<T>(a: seq<T>, i: nat) returns (b: seq<T>)
    requires i < |a|
    ensures multiset(b) == multiset(a) && b != [] && b[|b| - 1] == a[i]
  {
    WithoutOne(a, i);
    b := a[..i] + a[i + 1..] + [a[i]];
  }

  // ---- lists

  // All rows have the same length, and the one that the field gives if it gives one.
  ghost predicate Fits(size: int, rows: seq<seq<Word>>) {
    && (forall i, j :: 0 <= i < |rows| && 0 <= j < |rows| ==> |rows[i]| == |rows[j]|)
    && (size > 1 ==> forall i :: 0 <= i < |rows| ==> |rows[i]| == size)
  }

  // After a row of at least two values all rows are as long.
  lemma {:induction false} StaysLong(size: int, rows: seq<seq<Word>>, i: nat, j: nat)
    requires Accepts(size, rows) && i <= j < |rows| && |rows[i]| > 1
    ensures |rows[j]| == |rows[i]|
    decreases |rows|
  {
    var init := rows[..|rows| - 1];
    if j < |init| {
      StaysLong(size, init, i, j);
    } else if i < j {
      StaysLong(size, init, i, j - 1);
    }
  }

  lemma {:induction false} FirstAccepted(size: int, rows: seq<seq<Word>>)
    requires rows != [] && Accepts(size, rows)
    ensures size <= 1 || |rows[0]| == size
    decreases |rows|
  {
    if |rows| > 1 {
      FirstAccepted(size, rows[..|rows| - 1]);
    }
  }

  lemma {:induction false} FitsAccepted(size: int, rows: seq<seq<Word>>)
    requires Fits(size, rows)
    ensures Accepts(size, rows)
    decreases |rows|
  {
    if rows != [] {
      var init := rows[..|rows| - 1];
      assert forall i :: 0 <= i < |init| ==> init[i] == rows[i];
      FitsAccepted(size, init);
    }
  }

  // A column of lists whose first row has at least two values, as a list has, is accepted exactly if
  // the rows fit.
  lemma AcceptsIff(size: int, rows: seq<seq<Word>>)
    requires rows != [] && |rows[0]| >= 2
    ensures Accepts(size, rows) <==> Fits(size, rows)
  {
    if Accepts(size, rows) {
      FirstAccepted(size, rows);
      forall i: nat | i < |rows| ensures |rows[i]| == |rows[0]| {
        StaysLong(size, rows, 0, i);
      }
    }
    if Fits(size, rows) {
      FitsAccepted(size, rows);
    }
  }

  lemma FitsAgain(size: int, rows: seq<seq<Word>>, rows': seq<seq<Word>>)
    requires multiset(rows) == multiset(rows') && Fits(size, rows)
    ensures Fits(size, rows')
  {
    forall i: nat, j: nat | i < |rows'| && j < |rows'|
      ensures |rows'[i]| == |rows'[j]| && (size > 1 ==> |rows'[i]| == size)
    {
      var i' := SameElements(rows', rows, i);
      var j' := SameElements(rows', rows, j);
    }
  }

  // Rows of one length come to the same shape.
  lemma {:induction false} SameShape(shape: Option<seq<int>>, rows: seq<seq<Word>>, rows': seq<seq<Word>>, n: nat)
    requires |rows| == |rows'|
    requires forall i :: 0 <= i < |rows| ==> |rows[i]| == |rows'[i]| == n
    ensures ShapeAfter(shape, rows) == ShapeAfter(shape, rows')
    decreases |rows|
  {
    if rows != [] {
      SameShape(shape, rows[..|rows| - 1], rows'[..|rows| - 1], n);
    }
  }

  // A dense column read as lists comes to the same in any two orders that begin with a list, even with
  // rows among the others that are none.
  lemma ListsAnyOrder(d: Desc, rows: seq<seq<Word>>, rows': seq<seq<Word>>)
    requires !d.isSparse && multiset(rows) == multiset(rows') && rows != [] && rows' != []
    requires |rows[0]| >= 2 && |rows'[0]| >= 2
    ensures FillCsvAll(d, rows) == FillCsvAll(d, rows')
  {
    var size := Size(d.shape);
    CsvOutcome(d, rows);
    CsvOutcome(d, rows');
    AcceptsIff(size, rows);
    AcceptsIff(size, rows');
    OrderFreeParts(d.maxID, rows, rows');
    if Fits(size, rows) {
      FitsAgain(size, rows, rows');
      assert |rows| == |multiset(rows)| == |multiset(rows')| == |rows'|;
      var j := SameElements(rows', rows, 0);
      SameShape(d.shape, rows, rows', |rows[0]|);
    } else if Fits(size, rows') {
      FitsAgain(size, rows', rows);
    }
  }

  // ---- scalars

  ghost predicate AnyFloat(cells: seq<Cell>) { exists i :: 0 <= i < |cells| && cells[i].whole.FloatScalar? }

  ghost predicate AnyText(cells: seq<Cell>) { exists i :: 0 <= i < |cells| && cells[i].whole.TextScalar? }

  lemma {:induction false} LastOtherIs(cells: seq<Cell>)
    ensures LastOther(cells).None? <==> !AnyFloat(cells) && !AnyText(cells)
    ensures LastOther(cells).Some? ==> !LastOther(cells).value.IntScalar?
    ensures LastOther(cells).Some? && LastOther(cells).value.FloatScalar? ==> AnyFloat(cells)
    ensures LastOther(cells).Some? && LastOther(cells).value.TextScalar? ==> AnyText(cells)
  {
    if cells != [] {
      var init := cells[..|cells| - 1];
      LastOtherIs(init);
      assert cells == init + [cells[|cells| - 1]];
      assert forall i :: 0 <= i < |init| ==> init[i] == cells[i];
    }
  }

  lemma KindsAgain(cells: seq<Cell>, cells': seq<Cell>)
    requires multiset(cells) == multiset(cells')
    ensures AnyFloat(cells) ==> AnyFloat(cells')
    ensures AnyText(cells) ==> AnyText(cells')
    ensures Texts(cells) <= Texts(cells')
  {
    forall i: nat | i < |cells|
      ensures exists j :: 0 <= j < |cells'| && cells'[j] == cells[i]
    {
      var j := SameElements(cells, cells', i);
    }
  }

  // Cells that are read as scalars come to the same in every order, unless there are both floats and texts.
  lemma ScalarsAnyOrder(d: Desc, cells: seq<Cell>, cells': seq<Cell>)
    requires multiset(cells) == multiset(cells') && !(AnyFloat(cells) && AnyText(cells))
    ensures FromScalars(d, cells) == FromScalars(d, cells')
  {
    assert |cells| == |multiset(cells)| == |multiset(cells')| == |cells'|;
    KindsAgain(cells, cells');
    KindsAgain(cells', cells);
    LastOtherIs(cells);
    LastOtherIs(cells');
  }

  // ---- all cells of a dense column

  // What looks like a list has at least two values.
  ghost predicate ListsAreLong(cells: seq<Cell>) {
    forall i :: 0 <= i < |cells| && cells[i].looks == Csv ==> |cells[i].words| >= 2
  }

  ghost predicate All(cells: seq<Cell>, f: Format) { forall i :: 0 <= i < |cells| ==> cells[i].looks == f }

  ghost predicate HasFormat(cells: seq<Cell>, f: Format) { exists i :: 0 <= i < |cells| && cells[i].looks == f }

  // The order cannot matter in a dense column: with a cell that is neither a list nor pairs, all are like
  // that, and no two of them are a float and a text; otherwise all look like lists, or the lists fail in
  // every order.
  ghost predicate DenseSettled(d: Desc, cells: seq<Cell>) {
    if HasFormat(cells, Plain) then All(cells, Plain) && !(AnyFloat(cells) && AnyText(cells))
    else All(cells, Csv) || All(cells, KeyValue) || !Fits(Size(d.shape), Rows(cells))
  }

  ghost predicate OrderFree(d: Desc, cells: seq<Cell>, infer: bool) {
    forall cells' :: multiset(cells') == multiset(cells) ==>
      FillAll(d, StringColumn, cells', infer) == FillAll(d, StringColumn, cells, infer)
  }

  // A dense column that begins with pairs is refused.
  lemma {:induction false} PairsRefused(d: Desc, cells: seq<Cell>, infer: bool)
    requires !d.isSparse && cells != [] && cells[0].looks == KeyValue
    ensures FillAll(d, StringColumn, cells, infer).Error?
    decreases |cells|
  {
    var init := cells[..|cells| - 1];
    if |cells| > 1 {
      PairsRefused(d, init, infer);
    } else {
      assert FillAll(d, StringColumn, init, infer) == Ok(d);
    }
  }

  // One that begins with a list is accepted exactly if all cells fit.
  lemma ListsAcceptedIff(d: Desc, cells: seq<Cell>, infer: bool)
    requires !d.isSparse && cells != [] && cells[0].looks == Csv && ListsAreLong(cells)
    ensures FillAll(d, StringColumn, cells, infer).Ok? <==> Fits(Size(d.shape), Rows(cells))
    ensures FillAll(d, StringColumn, cells, infer).Ok? ==> FillAll(d, StringColumn, cells, infer).value.format == Csv
  {
    CsvColumn(d, cells, infer);
    CsvOutcome(d.(format := Csv), Rows(cells));
    AcceptsIff(Size(d.shape), Rows(cells));
  }

  lemma SameCells(cells: seq<Cell>, cells': seq<Cell>, size: int)
    requires multiset(cells) == multiset(cells')
    ensures |cells| == |cells'|
    ensures forall i :: 0 <= i < |cells'| ==> cells'[i] in cells
    ensures ListsAreLong(cells) ==> ListsAreLong(cells')
    ensures multiset(Rows(cells)) == multiset(Rows(cells'))
    ensures Fits(size, Rows(cells)) ==> Fits(size, Rows(cells'))
  {
    assert |cells| == |multiset(cells)| == |multiset(cells')| == |cells'|;
    forall i: nat | i < |cells'| ensures cells'[i] in cells {
      var j := SameElements(cells', cells, i);
    }
    ImageAgain(cells, Rows(cells), cells', Rows(cells'));
    if Fits(size, Rows(cells)) {
      FitsAgain(size, Rows(cells), Rows(cells'));
    }
  }

  // Any two orders that begin with a list come to the same, whatever the other cells are.
  lemma ListFirstAnyOrder(d: Desc, cells: seq<Cell>, cells': seq<Cell>, infer: bool)
    requires !d.isSparse && ListsAreLong(cells) && multiset(cells) == multiset(cells')
    requires cells != [] && cells' != [] && cells[0].looks == Csv && cells'[0].looks == Csv
    ensures FillAll(d, StringColumn, cells, infer) == FillAll(d, StringColumn, cells', infer)
  {
    SameCells(cells, cells', 1);
    CsvColumn(d, cells, infer);
    CsvColumn(d, cells', infer);
    ListsAnyOrder(d.(format := Csv), Rows(cells), Rows(cells'));
  }

  // Without scalars, a column fails if it begins with pairs, and if it begins with lists that do not fit.
  lemma Refused(d: Desc, cells: seq<Cell>, infer: bool)
    requires !d.isSparse && ListsAreLong(cells) && cells != [] && !HasFormat(cells, Plain)
    requires cells[0].looks == Csv ==> !Fits(Size(d.shape), Rows(cells))
    ensures FillAll(d, StringColumn, cells, infer).Error?
  {
    assert cells[0].looks != Plain;
    if cells[0].looks == Csv {
      ListsAcceptedIff(d, cells, infer);
    } else {
      PairsRefused(d, cells, infer);
    }
  }

  lemma DenseAnyOrder(d: Desc, cells: seq<Cell>, cells': seq<Cell>, infer: bool)
    requires !d.isSparse && ListsAreLong(cells) && DenseSettled(d, cells) && multiset(cells) == multiset(cells')
    ensures FillAll(d, StringColumn, cells, infer) == FillAll(d, StringColumn, cells', infer)
  {
    var size := Size(d.shape);
    SameCells(cells, cells', size);
    SameCells(cells', cells, size);
    if cells == [] {
    } else if HasFormat(cells, Plain) {
      PlainOutcome(d, cells, infer);
      PlainOutcome(d, cells', infer);
      ScalarsAnyOrder(d.(format := Plain), cells, cells');
    } else if cells[0].looks == Csv && cells'[0].looks == Csv {
      ListFirstAnyOrder(d, cells, cells', infer);
    } else {
      Refused(d, cells, infer);
      Refused(d, cells', infer);
    }
  }

  // ---- orders that differ

  ghost predicate Differ(d: Desc, cells: seq<Cell>, infer: bool, a: seq<Cell>, b: seq<Cell>) {
    && multiset(a) == multiset(b) == multiset(cells)
    && FillAll(d, StringColumn, a, infer) != FillAll(d, StringColumn, b, infer)
  }

  // The first cell decides the format.
  lemma ScalarFirstDiffers(d: Desc, cells: seq<Cell>, infer: bool, i: nat, j: nat) returns (a: seq<Cell>, b: seq<Cell>)
    requires !d.isSparse && ListsAreLong(cells) && i < |cells| && j < |cells|
    requires cells[i].looks == Plain && cells[j].looks != Plain
    ensures Differ(d, cells, infer, a, b)
  {
    a := MoveFirst(cells, i);
    b := MoveFirst(cells, j);
    SameCells(cells, b, 1);
    PlainOutcome(d, a, infer);
    if cells[j].looks == Csv {
      ListsAcceptedIff(d, b, infer);
    } else {
      PairsRefused(d, b, infer);
    }
  }

  // The last cell decides between a float and a text.
  lemma ScalarLastDiffers(d: Desc, cells: seq<Cell>, infer: bool, i: nat, j: nat) returns (a: seq<Cell>, b: seq<Cell>)
    requires All(cells, Plain) && i < |cells| && j < |cells|
    requires cells[i].whole.FloatScalar? && cells[j].whole.TextScalar?
    ensures Differ(d, cells, infer, a, b)
  {
    a := MoveLast(cells, i);
    b := MoveLast(cells, j);
    SameCells(cells, a, 1);
    SameCells(cells, b, 1);
    PlainOutcome(d, a, infer);
    PlainOutcome(d, b, infer);
  }

  // Lists that fit are accepted unless pairs come first.
  lemma PairsFirstDiffers(d: Desc, cells: seq<Cell>, infer: bool, i: nat, j: nat) returns (a: seq<Cell>, b: seq<Cell>)
    requires !d.isSparse && ListsAreLong(cells) && i < |cells| && j < |cells|
    requires cells[i].looks == Csv && cells[j].looks == KeyValue && Fits(Size(d.shape), Rows(cells))
    ensures Differ(d, cells, infer, a, b)
  {
    a := MoveFirst(cells, i);
    b := MoveFirst(cells, j);
    SameCells(cells, a, Size(d.shape));
    ListsAcceptedIff(d, a, infer);
    PairsRefused(d, b, infer);
  }

  lemma DenseDiffers(d: Desc, cells: seq<Cell>, infer: bool) returns (a: seq<Cell>, b: seq<Cell>)
    requires !d.isSparse && ListsAreLong(cells) && !DenseSettled(d, cells)
    ensures Differ(d, cells, infer, a, b)
  {
    if HasFormat(cells, Plain) {
      if All(cells, Plain) {
        var i :| 0 <= i < |cells| && cells[i].whole.FloatScalar?;
        var j :| 0 <= j < |cells| && cells[j].whole.TextScalar?;
        a, b := ScalarLastDiffers(d, cells, infer, i, j);
      } else {
        var i :| 0 <= i < |cells| && cells[i].looks == Plain;
        var j :| 0 <= j < |cells| && cells[j].looks != Plain;
        a, b := ScalarFirstDiffers(d, cells, infer, i, j);
      }
    } else {
      var i :| 0 <= i < |cells| && cells[i].looks != KeyValue;
      var j :| 0 <= j < |cells| && cells[j].looks != Csv;
      a, b := PairsFirstDiffers(d, cells, infer, i, j);
    }
  }

  // A dense column comes to the same in every order of its rows if and only if all cells are scalars
  // without both a float and a text, or all are lists, or all are pairs, or there are only lists and
  // pairs that do not fit together, so that every order is an error.
  lemma DenseOrderFreeIff(d: Desc, cells: seq<Cell>, infer: bool)
    requires !d.isSparse && ListsAreLong(cells)
    ensures OrderFree(d, cells, infer) <==> DenseSettled(d, cells)
  {
    if DenseSettled(d, cells) {
      forall cells' | multiset(cells') == multiset(cells)
        ensures FillAll(d, StringColumn, cells', infer) == FillAll(d, StringColumn, cells, infer)
      {
        DenseAnyOrder(d, cells, cells', infer);
      }
    } else {
      var a, b := DenseDiffers(d, cells, infer);
    }
  }

  // The column 1.5, abc is one of texts, and the column abc, 1.5 one of floats.
  lemma FloatAndText(infer: bool)
    ensures
      var number := Cell(Plain, [FloatWord], [None], FloatScalar);
      var text := Cell(Plain, [TextWord], [None], TextScalar("abc"));
      var a, b := FillAll(Default, StringColumn, [number, text], infer), FillAll(Default, StringColumn, [text, number], infer);
      a.Ok? && a.value.dtype == StringType && b.Ok? && b.value.dtype == FloatType
  {
    var number := Cell(Plain, [FloatWord], [None], FloatScalar);
    var text := Cell(Plain, [TextWord], [None], TextScalar("abc"));
    PlainOutcome(Default, [number, text], infer);
    PlainOutcome(Default, [text, number], infer);
  }

  // ---- sparse columns of lists

  // In a sparse column of lists the last row decides the data type.
  lemma {:induction false} SparseLists(d: Desc, rows: seq<seq<Word>>)
    requires d.isSparse && rows != []
    ensures FillCsvAll(d, rows) ==
      Ok(d.(dtype := if FloatWord in rows[|rows| - 1] then FloatType else IntType, delimiter := ",",
            maxID := MaxAll(d.maxID, rows)))
    decreases |rows|
  {
    var init := rows[..|rows| - 1];
    if |rows| > 1 {
      SparseLists(d, init);
    } else {
      assert FillCsvAll(d, init) == Ok(d);
    }
  }

  ghost predicate FloatsAlike(rows: seq<seq<Word>>) {
    forall i, j :: 0 <= i < |rows| && 0 <= j < |rows| ==> (FloatWord in rows[i] <==> FloatWord in rows[j])
  }

  lemma SparseListsAnyOrder(d: Desc, rows: seq<seq<Word>>, rows': seq<seq<Word>>)
    requires d.isSparse && FloatsAlike(rows) && multiset(rows') == multiset(rows)
    ensures FillCsvAll(d, rows') == FillCsvAll(d, rows)
  {
    assert |rows| == |multiset(rows)| == |multiset(rows')| == |rows'|;
    if rows != [] {
      SparseLists(d, rows);
      SparseLists(d, rows');
      OrderFreeParts(d.maxID, rows, rows');
      var j := SameElements(rows', rows, |rows'| - 1);
    }
  }

  // ---- all cells of a sparse column

  // A column that is accepted has the format of its first cell.
  lemma {:induction false} FormatOfFirst(d: Desc, cells: seq<Cell>, infer: bool)
    requires cells != [] && FillAll(d, StringColumn, cells, infer).Ok?
    ensures FillAll(d, StringColumn, cells, infer).value.format == cells[0].looks
    decreases |cells|
  {
    if |cells| > 1 {
      FormatOfFirst(d, cells[..|cells| - 1], infer);
    }
  }

  // Only pairs are ever refused in a sparse column.
  lemma SparseAccepted(d: Desc, cells: seq<Cell>, infer: bool)
    requires d.isSparse && cells != [] && cells[0].looks != KeyValue
    ensures FillAll(d, StringColumn, cells, infer).Ok?
  {
    if cells[0].looks == Plain {
      PlainOutcome(d, cells, infer);
    } else {
      CsvColumn(d, cells, infer);
      SparseLists(d.(format := Csv), Rows(cells));
    }
  }

  // The order cannot matter in a sparse column: all cells look alike, and there are not both floats and
  // texts among scalars, nor lists with and without floats.
  ghost predicate SparseSettled(cells: seq<Cell>) {
    || (All(cells, Plain) && !(AnyFloat(cells) && AnyText(cells)))
    || (All(cells, Csv) && FloatsAlike(Rows(cells)))
    || All(cells, KeyValue)
  }

  lemma SparseAnyOrder(d: Desc, cells: seq<Cell>, cells': seq<Cell>, infer: bool)
    requires d.isSparse && SparseSettled(cells) && multiset(cells) == multiset(cells')
    ensures FillAll(d, StringColumn, cells, infer) == FillAll(d, StringColumn, cells', infer)
  {
    SameCells(cells, cells', 1);
    if cells == [] {
    } else if All(cells, Plain) && !(AnyFloat(cells) && AnyText(cells)) {
      PlainOutcome(d, cells, infer);
      PlainOutcome(d, cells', infer);
      ScalarsAnyOrder(d.(format := Plain), cells, cells');
    } else if All(cells, KeyValue) {
      if d.delimiterKV == "" && infer {
        KeyValueOrderFree(d, cells, cells');
      } else {
        PairsKept(d, cells, infer);
        PairsKept(d, cells', infer);
      }
    } else {
      CsvColumn(d, cells, infer);
      CsvColumn(d, cells', infer);
      SparseListsAnyOrder(d.(format := Csv), Rows(cells), Rows(cells'));
    }
  }

  // Cells that look different: the first cell decides the format.
  lemma SparseFirstDiffers(d: Desc, cells: seq<Cell>, infer: bool, i: nat, j: nat) returns (a: seq<Cell>, b: seq<Cell>)
    requires d.isSparse && i < |cells| && j < |cells|
    requires cells[i].looks != KeyValue && cells[i].looks != cells[j].looks
    ensures Differ(d, cells, infer, a, b)
  {
    a := MoveFirst(cells, i);
    b := MoveFirst(cells, j);
    SparseAccepted(d, a, infer);
    FormatOfFirst(d, a, infer);
    if FillAll(d, StringColumn, b, infer).Ok? {
      FormatOfFirst(d, b, infer);
    }
  }

  // Lists: the last one decides the data type.
  lemma SparseLastDiffers(d: Desc, cells: seq<Cell>, infer: bool, i: nat, j: nat) returns (a: seq<Cell>, b: seq<Cell>)
    requires d.isSparse && All(cells, Csv) && i < |cells| && j < |cells|
    requires FloatWord in cells[i].words && FloatWord !in cells[j].words
    ensures Differ(d, cells, infer, a, b)
  {
    a := MoveLast(cells, i);
    b := MoveLast(cells, j);
    SameCells(cells, a, 1);
    SameCells(cells, b, 1);
    CsvColumn(d, a, infer);
    CsvColumn(d, b, infer);
    SparseLists(d.(format := Csv), Rows(a));
    SparseLists(d.(format := Csv), Rows(b));
  }

  lemma SparseDiffers(d: Desc, cells: seq<Cell>, infer: bool) returns (a: seq<Cell>, b: seq<Cell>)
    requires d.isSparse && !SparseSettled(cells)
    ensures Differ(d, cells, infer, a, b)
  {
    if All(cells, Plain) {
      var i :| 0 <= i < |cells| && cells[i].whole.FloatScalar?;
      var j :| 0 <= j < |cells| && cells[j].whole.TextScalar?;
      a, b := ScalarLastDiffers(d, cells, infer, i, j);
    } else if All(cells, Csv) {
      var rows := Rows(cells);
      var i, j :| 0 <= i < |rows| && 0 <= j < |rows| && FloatWord in rows[i] && FloatWord !in rows[j];
      a, b := SparseLastDiffers(d, cells, infer, i, j);
    } else {
      var i :| 0 <= i < |cells| && cells[i].looks != KeyValue;
      var j :| 0 <= j < |cells| && cells[j].looks != cells[i].looks;
      a, b := SparseFirstDiffers(d, cells, infer, i, j);
    }
  }

  // A sparse column comes to the same in every order of its rows if and only if all cells are scalars
  // without both a float and a text, or all are lists of which all or none have floats, or all are pairs.
  lemma SparseOrderFreeIff(d: Desc, cells: seq<Cell>, infer: bool)
    requires d.isSparse
    ensures OrderFree(d, cells, infer) <==> SparseSettled(cells)
  {
    if SparseSettled(cells) {
      forall cells' | multiset(cells') == multiset(cells)
        ensures FillAll(d, StringColumn, cells', infer) == FillAll(d, StringColumn, cells, infer)
      {
        SparseAnyOrder(d, cells, cells', infer);
      }
    } else {
      var a, b := SparseDiffers(d, cells, infer);
    }
  }

  // A sparse column of the single index 3 and the list 3,5 depends on which comes first.
  lemma SingleIndexAndList(d: Desc, infer: bool)
    requires d.isSparse
    ensures
      var one := Cell(Plain, [IntWord(3)], [None], IntScalar);
      var list := Cell(Csv, [IntWord(3), IntWord(5)], [None], TextScalar("3,5"));
      var a, b := FillAll(d, StringColumn, [one, list], infer), FillAll(d, StringColumn, [list, one], infer);
      a.Ok? && a.value.format == Plain && b.Ok? && b.value.format == Csv
  {
    var one := Cell(Plain, [IntWord(3)], [None], IntScalar);
    var list := Cell(Csv, [IntWord(3), IntWord(5)], [None], TextScalar("3,5"));
    SparseAccepted(d, [one, list], infer);
    SparseAccepted(d, [list, one], infer);
    FormatOfFirst(d, [one, list], infer);
    FormatOfFirst(d, [list, one], infer);
  }

  // ---- the sampled rows of a table

  // The order of the rows cannot matter for the field of a column.
  ghost predicate Settled(d: Desc, column: ColumnType, cells: seq<Cell>) {
    column == StringColumn ==> if d.isSparse then SparseSettled(cells) else DenseSettled(d, cells)
  }

  // What a column of another type comes to does not depend on its cells.
  lemma {:induction false} TypedColumn(d: Desc, column: ColumnType, cells: seq<Cell>, cells': seq<Cell>, infer: bool)
    requires column != StringColumn && |cells| == |cells'|
    ensures FillAll(d, column, cells, infer) == FillAll(d, column, cells', infer)
    decreases |cells|
  {
    if cells != [] {
      TypedColumn(d, column, cells[..|cells| - 1], cells'[..|cells| - 1], infer);
    }
  }

  // Rows can be ordered so that the cells of one column come in any given order.
  lemma {:induction false} OrderRows(columns: seq<Column>, rows: seq<seq<Cell>>, j: nat, cells: seq<Cell>)
    returns (rows': seq<seq<Cell>>)
    requires Table(columns, rows) && j < |columns| && multiset(cells) == multiset(Cells(columns, rows, j))
    ensures multiset(rows') == multiset(rows) && Table(columns, rows') && Cells(columns, rows', j) == cells
    decreases |rows|
  {
    var all := Cells(columns, rows, j);
    assert |cells| == |multiset(cells)| == |multiset(all)| == |all|;
    if rows == [] {
      rows' := [];
    } else {
      var n := |cells| - 1;
      var i := SameElements(cells, all, n);
      var rest := rows[..i] + rows[i + 1..];
      assert Cells(columns, rest, j) == all[..i] + all[i + 1..];
      RestAgain(cells, n, all, i);
      assert cells[..n] + cells[n + 1..] == cells[..n];
      var front := OrderRows(columns, rest, j, cells[..n]);
      WithoutOne(rows, i);
      rows' := front + [rows[i]];
      assert cells == cells[..n] + [cells[n]];
      assert Cells(columns, rows', j) == Cells(columns, front, j) + [rows[i][j]];
    }
  }

  lemma SettledAnyOrder(d: Desc, columns: seq<Column>, rows: seq<seq<Cell>>, rows': seq<seq<Cell>>, j: nat, infer: bool)
    requires Table(columns, rows) && Table(columns, rows') && multiset(rows) == multiset(rows') && j < |columns|
    requires !d.isSparse ==> ListsAreLong(Cells(columns, rows, j))
    requires Settled(d, columns[j].ctype, Cells(columns, rows, j))
    ensures FillAll(d, columns[j].ctype, Cells(columns, rows, j), infer)
         == FillAll(d, columns[j].ctype, Cells(columns, rows', j), infer)
  {
    var cells, cells' := Cells(columns, rows, j), Cells(columns, rows', j);
    assert |rows| == |multiset(rows)| == |multiset(rows')| == |rows'|;
    if columns[j].ctype != StringColumn {
      TypedColumn(d, columns[j].ctype, cells, cells', infer);
    } else {
      ImageAgain(rows, cells, rows', cells');
      if d.isSparse {
        SparseAnyOrder(d, cells, cells', infer);
      } else {
        DenseAnyOrder(d, cells, cells', infer);
      }
    }
  }

  lemma Unsettled(d: Desc, cells: seq<Cell>, infer: bool) returns (a: seq<Cell>, b: seq<Cell>)
    requires !Settled(d, StringColumn, cells) && (!d.isSparse ==> ListsAreLong(cells))
    ensures Differ(d, cells, infer, a, b)
  {
    if d.isSparse {
      a, b := SparseDiffers(d, cells, infer);
    } else {
      a, b := DenseDiffers(d, cells, infer);
    }
  }

  ghost predicate SampledOrderFree(m: map<string, Desc>, columns: seq<Column>, rows: seq<seq<Cell>>, sizes: map<string, int>,
                                   j: nat)
    requires Table(columns, rows) && j < |columns|
  {
    forall rows' :: multiset(rows') == multiset(rows) && Table(columns, rows') ==>
      FillColumn(m, columns, rows', sizes, j) == FillColumn(m, columns, rows, sizes, j)
  }

  // The field of a column is the same for every order of the sampled rows if and only if it is settled.
  lemma SampledColumnOrderFree(m: map<string, Desc>, columns: seq<Column>, rows: seq<seq<Cell>>, sizes: map<string, int>,
                               j: nat)
    requires Table(columns, rows) && j < |columns|
    requires !Get(m, columns[j].name).isSparse ==> ListsAreLong(Cells(columns, rows, j))
    ensures SampledOrderFree(m, columns, rows, sizes, j)
      <==> Settled(Get(m, columns[j].name), columns[j].ctype, Cells(columns, rows, j))
  {
    var d, column, cells := Get(m, columns[j].name), columns[j].ctype, Cells(columns, rows, j);
    var infer := Infer(sizes, columns[j].name);
    if Settled(d, column, cells) {
      forall rows' | multiset(rows') == multiset(rows) && Table(columns, rows')
        ensures FillColumn(m, columns, rows', sizes, j) == FillColumn(m, columns, rows, sizes, j)
      {
        SettledAnyOrder(d, columns, rows, rows', j, infer);
      }
    } else {
      var a, b := Unsettled(d, cells, infer);
      var rows1 := OrderRows(columns, rows, j, a);
      var rows2 := OrderRows(columns, rows, j, b);
      assert FillColumn(m, columns, rows1, sizes, j) != FillColumn(m, columns, rows2, sizes, j);
    }
  }
}
