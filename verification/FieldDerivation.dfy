/**
  Feature derivation: the sampled rows update the field descriptions in place, and the bucket sizes
  and the list of feature columns are taken from them.
 */
module FieldDerivation {
  import opened FieldSampling
  import opened Wrappers

  class FieldDesc {
    const name: string
    var isSparse: bool
    var shape: Option<seq<int>>
    var dtype: DType
    var delimiter: string
    var delimiterKV: string
    var format: Format
    var vocabulary: set<string>
    var maxID: int

    ghost function Value(): Desc
      reads this
    {
      Desc(isSparse, shape, dtype, delimiter, delimiterKV, format, vocabulary, maxID)
    }

    constructor NewDefault(name: string)
      ensures this.name == name && Value() == Default
    {
      this.name := name;
      isSparse, shape, dtype, delimiter, delimiterKV, format, vocabulary, maxID :=
        false, None, IntType, "", "", Plain, {}, 0;
    }

    method ShapeSize() returns (size: int)
      ensures size == Size(shape)
    {
      size := 1;
      if shape.Some? {
        var s := shape.value;
        for i := 0 to |s|
          invariant size == Product(s[..i])
        {
          assert s[..i + 1][..i] == s[..i];
          size := size * s[i];
        }
        assert s[..|s|] == s;
      }
    }

    // A list of numbers; the field is left alone if its length does not fit.
    method FillCsv(values: seq<Word>) returns (err: bool)
      modifies this
      ensures err <==> FieldSampling.FillCsv(old(Value()), values).Error?
      ensures Value() == if err then old(Value()) else FieldSampling.FillCsv(old(Value()), values).value
    {
      var size := ShapeSize();
      if !isSparse && shape.None? {
        shape := Some([|values|]);
      }
      if !isSparse && size != |values| {
        if size > 1 {
          return true;
        }
        shape := Some([|values|]);
      }
      if isSparse {
        dtype := IntType;
      }
      delimiter := ",";
      ghost var start := Value();
      for i := 0 to |values|
        invariant Value() == start.(dtype := TypeOf(start.dtype, values[..i]), maxID := MaxWord(start.maxID, values[..i]))
      {
        assert values[..i + 1][..i] == values[..i];
        assert values[..i + 1] == values[..i] + [values[i]];
        match values[i]
        case FloatWord => dtype := FloatType;
        case IntWord(n) =>
          if n > maxID {
            maxID := n;
          }
        case TextWord =>
      }
      assert values[..|values|] == values;
      return false;
    }

    // A cell that is not a list.
    method FillByDataType(whole: Scalar)
      modifies this
      ensures Value() == FillPlain(old(Value()), whole)
    {
      match whole
      case FloatScalar =>
        if shape.None? {
          shape := Some([1]);
        }
        dtype := FloatType;
      case TextScalar(text) =>
        dtype := StringType;
        shape := Some([1]);
        if text !in vocabulary {
          vocabulary := vocabulary + {text};
        }
      case IntScalar =>
        if shape.None? {
          shape := Some([1]);
        }
    }

    // One cell of a column.
    method FillCell(column: ColumnType, cell: Cell, rowCount: nat, infer: bool) returns (err: bool)
      requires Started(Value(), column, rowCount == 0, infer)
      modifies this
      ensures err <==> Fill(old(Value()), column, cell, rowCount == 0, infer).Error?
      ensures !err ==> Value() == Fill(old(Value()), column, cell, rowCount == 0, infer).value
    {
      err := false;
      match column
      case IntColumn => dtype, shape := IntType, Some([1]);
      case FloatColumn => dtype, shape := FloatType, Some([1]);
      case OtherColumn => err := true;
      case StringColumn =>
        if rowCount == 0 {
          format := cell.looks;
        }
        match format
        case Csv => err := FillCsv(cell.words);
        case Plain => FillByDataType(cell.whole);
        case KeyValue =>
          if !isSparse {
            return true;
          }
          if delimiterKV == "" {
            dtype := FloatType;
            if infer {
              if rowCount == 0 {
                shape := Some([1]);
              }
              var max := GetMaxIndexOfKeyValueData(cell.indices);
              if max.Error? {
                return true;
              }
              if max.value + 1 > shape.value[0] {
                shape := Some(shape.value[0 := max.value + 1]);
              }
            }
          }
    }
  }

  method GetMaxIndexOfKeyValueData(indices: seq<Option<int>>) returns (r: Result<nat>)
    ensures r == MaxIndex(indices)
  {
    var maxIndex := 0;
    for i := 0 to |indices|
      invariant MaxIndex(indices[..i]) == Ok(maxIndex)
    {
      assert indices[..i + 1][..i] == indices[..i];
      if indices[i].None? {
        assert None in indices;
        return Error;
      }
      var index := indices[i].value;
      if index > maxIndex {
        maxIndex := index;
      }
    }
    assert indices[..|indices|] == indices;
    return Ok(maxIndex);
  }

  // ---- all columns of the sampled rows

  datatype Column = Column(name: string, ctype: ColumnType)

  // The fields of a map are different objects, and say what they are.
  ghost predicate Separate(fields: map<string, FieldDesc>) {
    forall a, b :: a in fields && b in fields && a != b ==> fields[a] != fields[b]
  }

  ghost function Values(fields: map<string, FieldDesc>): map<string, Desc>
    reads fields.Values
  {
    map n | n in fields :: fields[n].Value()
  }

  function Get(m: map<string, Desc>, n: string): Desc {
    if n in m then m[n] else Default
  }

  // The width of key-value data is inferred for a field that gives no size of its own.
  function Infer(sizes: map<string, int>, n: string): bool {
    n !in sizes || sizes[n] == 1
  }

  // Two selected columns of one name are refused before the rows are read.
  ghost predicate Distinct(columns: seq<Column>) {
    forall i, j :: 0 <= i < j < |columns| ==> columns[i].name != columns[j].name
  }

  // One row over the first k columns.
  function FillColumns(m: map<string, Desc>, columns: seq<Column>, row: seq<Cell>, first: bool, sizes: map<string, int>,
                       k: nat): Result<map<string, Desc>>
    requires k <= |columns| == |row|
  {
    if k == 0 then Ok(m)
    else
      var before := FillColumns(m, columns, row, first, sizes, k - 1);
      if before.Error? then Error
      else
        var d := FillAt(before.value, columns, row, first, sizes, k - 1);
        if d.Error? then Error else Ok(before.value[columns[k - 1].name := d.value])
  }

  ghost predicate Table(columns: seq<Column>, rows: seq<seq<Cell>>) {
    forall i :: 0 <= i < |rows| ==> |rows[i]| == |columns|
  }

  function FillTable(m: map<string, Desc>, columns: seq<Column>, rows: seq<seq<Cell>>, sizes: map<string, int>)
    : Result<map<string, Desc>>
    requires Table(columns, rows)
  {
    if rows == [] then Ok(m)
    else
      var k := |rows| - 1;
      var before := FillTable(m, columns, rows[..k], sizes);
      if before.Error? then Error else FillColumns(before.value, columns, rows[k], k == 0, sizes, |columns|)
  }

  function Cells(columns: seq<Column>, rows: seq<seq<Cell>>, j: nat): seq<Cell>
    requires Table(columns, rows) && j < |columns|
  {
    seq(|rows|, i requires 0 <= i < |rows| => rows[i][j])
  }

  // What one row makes of the field of column j.
  function FillAt(m: map<string, Desc>, columns: seq<Column>, row: seq<Cell>, first: bool, sizes: map<string, int>, j: nat)
    : Result<Desc>
    requires j < |columns| == |row|
  {
    Fill(Get(m, columns[j].name), columns[j].ctype, row[j], first, Infer(sizes, columns[j].name))
  }

  // A row changes no field but those of its columns.
  lemma {:induction false} FillColumnsElse(m: map<string, Desc>, columns: seq<Column>, row: seq<Cell>, first: bool,
                                          sizes: map<string, int>, k: nat, n: string)
    requires k <= |columns| == |row| && FillColumns(m, columns, row, first, sizes, k).Ok?
    requires forall i :: 0 <= i < k ==> columns[i].name != n
    ensures Get(FillColumns(m, columns, row, first, sizes, k).value, n) == Get(m, n)
  {
    if k > 0 {
      FillColumnsElse(m, columns, row, first, sizes, k - 1, n);
    }
  }

  // The columns do not get in each other's way.
  lemma {:induction false} FillColumnsEach(m: map<string, Desc>, columns: seq<Column>, row: seq<Cell>, first: bool,
                                          sizes: map<string, int>, k: nat)
    requires k <= |columns| == |row| && Distinct(columns)
    ensures FillColumns(m, columns, row, first, sizes, k).Ok?
       <==> forall j: nat :: j < k ==> FillAt(m, columns, row, first, sizes, j).Ok?
    ensures FillColumns(m, columns, row, first, sizes, k).Ok? ==> forall j: nat :: j < k ==>
              FillAt(m, columns, row, first, sizes, j) ==
              Ok(Get(FillColumns(m, columns, row, first, sizes, k).value, columns[j].name))
  {
    if k > 0 {
      FillColumnsEach(m, columns, row, first, sizes, k - 1);
      if FillColumns(m, columns, row, first, sizes, k - 1).Ok? {
        FillColumnsElse(m, columns, row, first, sizes, k - 1, columns[k - 1].name);
        assert FillColumns(m, columns, row, first, sizes, k).Ok? <==> FillAt(m, columns, row, first, sizes, k - 1).Ok?;
      }
    }
  }

  function FillColumn(m: map<string, Desc>, columns: seq<Column>, rows: seq<seq<Cell>>, sizes: map<string, int>, j: nat)
    : Result<Desc>
    requires Table(columns, rows) && j < |columns|
  {
    FillAll(Get(m, columns[j].name), columns[j].ctype, Cells(columns, rows, j), Infer(sizes, columns[j].name))
  }

  // The sampled rows come to what each column comes to by itself, and fail if one of them fails.
  lemma {:induction false} FillTableEach(m: map<string, Desc>, columns: seq<Column>, rows: seq<seq<Cell>>, sizes: map<string, int>)
    requires Table(columns, rows) && Distinct(columns)
    ensures FillTable(m, columns, rows, sizes).Ok? <==> forall j: nat :: j < |columns| ==> FillColumn(m, columns, rows, sizes, j).Ok?
    ensures FillTable(m, columns, rows, sizes).Ok? ==> forall j: nat :: j < |columns| ==>
              FillColumn(m, columns, rows, sizes, j) == Ok(Get(FillTable(m, columns, rows, sizes).value, columns[j].name))
    decreases |rows|
  {
    if rows != [] {
      var k := |rows| - 1;
      var init := rows[..k];
      FillTableEach(m, columns, init, sizes);
      var before := FillTable(m, columns, init, sizes);
      forall j: nat | j < |columns|
        ensures FillColumn(m, columns, rows, sizes, j).Ok? ==> FillColumn(m, columns, init, sizes, j).Ok?
        ensures before.Ok? ==> FillColumn(m, columns, rows, sizes, j) == FillAt(before.value, columns, rows[k], k == 0, sizes, j)
      {
        assert Cells(columns, rows, j)[..k] == Cells(columns, init, j);
      }
      if before.Ok? {
        FillColumnsEach(before.value, columns, rows[k], k == 0, sizes, |columns|);
      }
    }
  }

  // What the rows make of the fields of number columns; a column of an unsupported type is an error.
  lemma NumberFields(m: map<string, Desc>, columns: seq<Column>, rows: seq<seq<Cell>>, sizes: map<string, int>, j: nat)
    requires Table(columns, rows) && Distinct(columns) && rows != [] && j < |columns|
    ensures columns[j].ctype == OtherColumn ==> FillTable(m, columns, rows, sizes).Error?
    ensures FillTable(m, columns, rows, sizes).Ok? ==>
      var d, e := Get(m, columns[j].name), Get(FillTable(m, columns, rows, sizes).value, columns[j].name);
      && (columns[j].ctype == IntColumn ==> e == d.(dtype := IntType, shape := Some([1])))
      && (columns[j].ctype == FloatColumn ==> e == d.(dtype := FloatType, shape := Some([1])))
  {
    FillTableEach(m, columns, rows, sizes);
    NumberColumn(Get(m, columns[j].name), Cells(columns, rows, j), Infer(sizes, columns[j].name));
    assert columns[j].ctype == OtherColumn ==> FillColumn(m, columns, rows, sizes, j).Error?;
  }

  // Of a column that has no field yet, the field of a number column says nothing else.
  lemma NewNumberField(m: map<string, Desc>, columns: seq<Column>, rows: seq<seq<Cell>>, sizes: map<string, int>, j: nat)
    requires Table(columns, rows) && Distinct(columns) && rows != [] && j < |columns| && columns[j].name !in m
    requires FillTable(m, columns, rows, sizes).Ok?
    ensures
      var e := Get(FillTable(m, columns, rows, sizes).value, columns[j].name);
      && (columns[j].ctype == IntColumn ==> e == Desc(false, Some([1]), IntType, "", "", Plain, {}, 0))
      && (columns[j].ctype == FloatColumn ==> e == Desc(false, Some([1]), FloatType, "", "", Plain, {}, 0))
  {
    NumberFields(m, columns, rows, sizes, j);
  }

  // A sparse column of key-value data without given delimiters gets the width of its indices if the
  // field has no size of its own or the size one, and otherwise keeps its shape.
  lemma KeyValueField(m: map<string, Desc>, columns: seq<Column>, rows: seq<seq<Cell>>, sizes: map<string, int>, j: nat)
    requires Table(columns, rows) && Distinct(columns) && rows != [] && j < |columns|
    requires columns[j].ctype == StringColumn && rows[0][j].looks == KeyValue && columns[j].name in m
    requires m[columns[j].name].isSparse && m[columns[j].name].delimiterKV == ""
    requires FillTable(m, columns, rows, sizes).Ok?
    ensures
      var n, cells := columns[j].name, Cells(columns, rows, j);
      var d, e := m[n], Get(FillTable(m, columns, rows, sizes).value, n);
      if n !in sizes || sizes[n] == 1
      then !Broken(cells) && e == d.(format := KeyValue, dtype := FloatType, shape := Some([Width(cells)]))
      else e == d.(format := KeyValue, dtype := FloatType)
  {
    var n, cells := columns[j].name, Cells(columns, rows, j);
    FillTableEach(m, columns, rows, sizes);
    assert FillColumn(m, columns, rows, sizes, j).Ok?;
    if Infer(sizes, n) {
      KeyValueColumn(m[n], cells);
    } else {
      PairsKept(m[n], cells, false);
    }
  }

  lemma ValuesChange(fields: map<string, FieldDesc>, was: map<string, Desc>, n: string)
    requires n in fields && fields.Keys == was.Keys + {n}
    requires forall x :: x in fields && x != n ==> fields[x].Value() == was[x]
    ensures Values(fields) == was[n := fields[n].Value()]
  {
  }

  // Every field is one of these or was not there before.
  twostate predicate Extends(new result: map<string, FieldDesc>, fields: map<string, FieldDesc>) {
    && (forall n :: n in fields ==> n in result && result[n] == fields[n])
    && (forall n :: n in result && n !in fields ==> fresh(result[n]))
  }

  // The columns are ready for the next row.
  ghost predicate Ready(m: map<string, Desc>, columns: seq<Column>, first: bool, sizes: map<string, int>) {
    forall j: nat :: StartedAt(m, columns, first, sizes, j)
  }

  ghost predicate StartedAt(m: map<string, Desc>, columns: seq<Column>, first: bool, sizes: map<string, int>, j: nat) {
    j < |columns| ==> Started(Get(m, columns[j].name), columns[j].ctype, first, Infer(sizes, columns[j].name))
  }

  // The next column of a row.
  lemma FillColumnsNext(m: map<string, Desc>, columns: seq<Column>, row: seq<Cell>, first: bool, sizes: map<string, int>,
                        k: nat, was: map<string, Desc>)
    requires k < |columns| == |row| && Distinct(columns)
    requires FillColumns(m, columns, row, first, sizes, k) == Ok(was) && Ready(m, columns, first, sizes)
    ensures Started(Get(was, columns[k].name), columns[k].ctype, first, Infer(sizes, columns[k].name))
    ensures
      var d := FillAt(was, columns, row, first, sizes, k);
      && (d.Error? ==> FillColumns(m, columns, row, first, sizes, |columns|).Error?)
      && (d.Ok? ==> FillColumns(m, columns, row, first, sizes, k + 1) == Ok(was[columns[k].name := d.value]))
  {
    assert StartedAt(m, columns, first, sizes, k);
    FillColumnsElse(m, columns, row, first, sizes, k, columns[k].name);
    if FillAt(was, columns, row, first, sizes, k).Error? {
      FillColumnsEach(m, columns, row, first, sizes, |columns|);
    }
  }

  // A default field for a column that has none.
  method AddField(fields: map<string, FieldDesc>, name: string) returns (result: map<string, FieldDesc>)
    requires Separate(fields)
    ensures Extends(result, fields) && Separate(result) && name in result
    ensures result.Keys == fields.Keys + {name}
    ensures Values(result) == Values(fields)[name := Get(Values(fields), name)]
  {
    result := fields;
    if name !in fields {
      var added := new FieldDesc.NewDefault(name);
      result := result[name := added];
    }
  }

  // One cell: adds the field if it is not known yet, and updates it in place.
  method FillColumnField(column: Column, cell: Cell, fields: map<string, FieldDesc>, rowCount: nat, sizes: map<string, int>)
    returns (result: map<string, FieldDesc>, err: bool)
    requires Separate(fields)
    requires Started(Get(Values(fields), column.name), column.ctype, rowCount == 0, Infer(sizes, column.name))
    modifies fields.Values
    ensures Extends(result, fields) && Separate(result)
    ensures
      var was := old(Values(fields));
      var d := Fill(Get(was, column.name), column.ctype, cell, rowCount == 0, Infer(sizes, column.name));
      if err then d.Error? else d.Ok? && Values(result) == was[column.name := d.value]
  {
    ghost var was := Values(fields);
    result := AddField(fields, column.name);
    assert result[column.name].Value() == Values(result)[column.name];
    assert forall x :: x in result && x != column.name ==> result[x].Value() == Values(result)[x] == was[x];
    err := result[column.name].FillCell(column.ctype, cell, rowCount, column.name !in sizes || sizes[column.name] == 1);
    ValuesChange(result, was, column.name);
  }

  // One row.
  method FillFieldDesc(columns: seq<Column>, row: seq<Cell>, fields: map<string, FieldDesc>, rowCount: nat,
                       sizes: map<string, int>)
    returns (result: map<string, FieldDesc>, err: bool)
    requires |columns| == |row| && Distinct(columns) && Separate(fields)
    requires Ready(Values(fields), columns, rowCount == 0, sizes)
    modifies fields.Values
    ensures Extends(result, fields) && Separate(result)
    ensures err <==> FillColumns(old(Values(fields)), columns, row, rowCount == 0, sizes, |columns|).Error?
    ensures !err ==> Values(result) == FillColumns(old(Values(fields)), columns, row, rowCount == 0, sizes, |columns|).value
  {
    result, err := fields, false;
    ghost var m := Values(fields);
    for idx := 0 to |columns|
      invariant Extends(result, fields) && Separate(result)
      invariant FillColumns(m, columns, row, rowCount == 0, sizes, idx) == Ok(Values(result)) && !err
    {
      FillColumnsNext(m, columns, row, rowCount == 0, sizes, idx, Values(result));
      result, err := FillColumnField(columns[idx], row[idx], result, rowCount, sizes);
      if err {
        return;
      }
    }
  }

  // After a row the columns are ready for the next one.
  lemma TableReady(m: map<string, Desc>, columns: seq<Column>, rows: seq<seq<Cell>>, sizes: map<string, int>)
    requires Table(columns, rows) && Distinct(columns) && FillTable(m, columns, rows, sizes).Ok?
    ensures Ready(FillTable(m, columns, rows, sizes).value, columns, rows == [], sizes)
  {
    FillTableEach(m, columns, rows, sizes);
    var result, first := FillTable(m, columns, rows, sizes).value, rows == [];
    forall j: nat
      ensures StartedAt(result, columns, first, sizes, j)
    {
      if j < |columns| && !first {
        assert Cells(columns, rows, j) != [];
        assert FillColumn(m, columns, rows, sizes, j).Ok?;
      }
    }
  }

  // An error in a row is an error of the table.
  lemma {:induction false} TableErrorStays(m: map<string, Desc>, columns: seq<Column>, rows: seq<seq<Cell>>,
                                          sizes: map<string, int>, k: nat)
    requires Table(columns, rows) && k <= |rows| && FillTable(m, columns, rows[..k], sizes).Error?
    ensures FillTable(m, columns, rows, sizes).Error?
    decreases |rows|
  {
    if k < |rows| {
      var init := rows[..|rows| - 1];
      assert init[..k] == rows[..k];
      TableErrorStays(m, columns, init, sizes, k);
    } else {
      assert rows[..k] == rows;
    }
  }

  // The next row of a table.
  lemma TableNext(m: map<string, Desc>, columns: seq<Column>, rows: seq<seq<Cell>>, sizes: map<string, int>, k: nat,
                  was: map<string, Desc>)
    requires Table(columns, rows) && Distinct(columns) && k < |rows|
    requires FillTable(m, columns, rows[..k], sizes) == Ok(was)
    ensures Ready(was, columns, k == 0, sizes)
    ensures FillTable(m, columns, rows[..k + 1], sizes) == FillColumns(was, columns, rows[k], k == 0, sizes, |columns|)
    ensures FillColumns(was, columns, rows[k], k == 0, sizes, |columns|).Error? ==> FillTable(m, columns, rows, sizes).Error?
  {
    TableReady(m, columns, rows[..k], sizes);
    assert rows[..k + 1][..k] == rows[..k];
    if FillTable(m, columns, rows[..k + 1], sizes).Error? {
      TableErrorStays(m, columns, rows, sizes, k + 1);
    }
  }

  // The rows, up to the first error.
  method FillRows(rows: seq<seq<Cell>>, columns: seq<Column>, fields: map<string, FieldDesc>, sizes: map<string, int>)
    returns (result: map<string, FieldDesc>, err: bool)
    requires Table(columns, rows) && Distinct(columns) && Separate(fields)
    modifies fields.Values
    ensures Extends(result, fields) && Separate(result)
    ensures
      var all := FillTable(old(Values(fields)), columns, rows, sizes);
      if err then all.Error? else all == Ok(Values(result))
  {
    result, err := fields, false;
    ghost var m := Values(fields);
    for rowCount := 0 to |rows|
      invariant Extends(result, fields) && Separate(result)
      invariant FillTable(m, columns, rows[..rowCount], sizes) == Ok(Values(result)) && !err
    {
      TableNext(m, columns, rows, sizes, rowCount, Values(result));
      result, err := FillFieldDesc(columns, rows[rowCount], result, rowCount, sizes);
      if err {
        return;
      }
    }
    assert rows[..|rows|] == rows;
  }

  // The field of a number column, as the map has it.
  ghost predicate NumberFieldIs(fields: map<string, FieldDesc>, column: Column)
    reads fields.Values
  {
    && column.name in fields
    && (column.ctype == IntColumn ==> fields[column.name].dtype == IntType && fields[column.name].shape == Some([1]))
    && (column.ctype == FloatColumn ==> fields[column.name].dtype == FloatType && fields[column.name].shape == Some([1]))
  }

  // Every column has a field after the first row.
  lemma FilledFields(m: map<string, Desc>, columns: seq<Column>, rows: seq<seq<Cell>>, sizes: map<string, int>)
    requires Table(columns, rows) && rows != [] && FillTable(m, columns, rows, sizes).Ok?
    ensures forall j :: 0 <= j < |columns| ==> columns[j].name in FillTable(m, columns, rows, sizes).value
  {
    var k := |rows| - 1;
    FilledColumns(FillTable(m, columns, rows[..k], sizes).value, columns, rows[k], k == 0, sizes, |columns|);
  }

  lemma {:induction false} FilledColumns(m: map<string, Desc>, columns: seq<Column>, row: seq<Cell>, first: bool,
                                        sizes: map<string, int>, k: nat)
    requires k <= |columns| == |row| && FillColumns(m, columns, row, first, sizes, k).Ok?
    ensures forall j :: 0 <= j < k ==> columns[j].name in FillColumns(m, columns, row, first, sizes, k).value
  {
    if k > 0 {
      FilledColumns(m, columns, row, first, sizes, k - 1);
    }
  }

  // All sampled rows; rowsErr says that fetching them broke off.
  method FillFieldDescs(rows: seq<seq<Cell>>, rowsErr: bool, columns: seq<Column>, fields: map<string, FieldDesc>,
                        sizes: map<string, int>)
    returns (result: map<string, FieldDesc>, err: bool)
    requires Table(columns, rows) && Distinct(columns) && Separate(fields)
    modifies fields.Values
    ensures Extends(result, fields) && Separate(result)
    ensures err <==> rows == [] || rowsErr || FillTable(old(Values(fields)), columns, rows, sizes).Error?
    ensures !err ==> Values(result) == FillTable(old(Values(fields)), columns, rows, sizes).value
    // number columns have their own type and one number, and other types are refused
    ensures rows != [] && (exists j :: 0 <= j < |columns| && columns[j].ctype == OtherColumn) ==> err
    ensures !err ==> forall j :: 0 <= j < |columns| ==> NumberFieldIs(result, columns[j])
  {
    ghost var m := Values(fields);
    result, err := FillRows(rows, columns, fields, sizes);
    if |rows| > 0 {
      forall j: nat | j < |columns|
        ensures columns[j].ctype == OtherColumn ==> err
        ensures !err ==> NumberFieldIs(result, columns[j])
      {
        NumberFields(m, columns, rows, sizes, j);
        if !err {
          FilledFields(m, columns, rows, sizes);
          assert Get(Values(result), columns[j].name) == result[columns[j].name].Value();
        }
      }
    }
    if err {
      return;
    }
    if |rows| == 0 && !rowsErr {
      return result, true;
    }
    return result, rowsErr;
  }
}
