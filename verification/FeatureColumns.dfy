/**
  The feature columns take their bucket sizes from the derived fields, and are listed in the order of
  the selected fields, columns of one field first.
 */
module FeatureColumns {
  import opened FieldSampling
  import opened FieldDerivation
  import opened Wrappers

  datatype Kind = OfUse(use: Use) | Other

  datatype Category = Category(field: FieldDesc, bucketSize: int)

  class Feature {
    const kind: Kind
    const name: string
    const fieldCount: nat
    var category: Option<Category>

    constructor (kind: Kind, name: string, fieldCount: nat)
      ensures this.kind == kind && this.name == name && this.fieldCount == fieldCount && category == None
    {
      this.kind, this.name, this.fieldCount, category := kind, name, fieldCount, None;
    }
  }

  // ---- bucket sizes

  predicate Opened(f: Feature, was: Option<Category>) { f.kind.OfUse? && was.None? }

  // A column that leaves its category column out.
  predicate Open(f: Feature)
    reads f
  {
    Opened(f, f.category)
  }

  // The first size of the shape is there.
  predicate HasWidth(d: Desc) {
    d.shape.Some? && d.shape.value != []
  }

  // An open embedding indexes the shape of its field, sparse or not.
  ghost predicate Wide(f: Feature, fields: map<string, FieldDesc>)
    reads f, fields.Values
  {
    Open(f) && f.name in fields && f.kind == OfUse(Embedding) ==> HasWidth(fields[f.name].Value())
  }

  predicate NoBucket(use: Use, d: Desc) {
    if d.isSparse then use == Indicator else d.maxID == 0
  }

  ghost predicate Refused(f: Feature, fields: map<string, FieldDesc>)
    reads fields.Values
  {
    f.kind.Other? || f.name !in fields || NoBucket(f.kind.use, fields[f.name].Value())
  }

  // A category column that was left out is the one of the field of its name now, with the field's bucket
  // size; any other one is as it was.
  ghost predicate Updated(f: Feature, fields: map<string, FieldDesc>, was: Option<Category>)
    reads f, fields.Values
  {
    if !Opened(f, was) then f.category == was
    else
      && f.name in fields && f.category.Some? && f.category.value.field == fields[f.name]
      && var d := fields[f.name].Value();
      && (d.isSparse && f.kind.use == Embedding ==> HasWidth(d))
      && Bucket(f.kind.use, d) == Ok(f.category.value.bucketSize)
  }

  method UpdateOne(c: Feature, fields: map<string, FieldDesc>) returns (err: bool)
    requires Wide(c, fields)
    modifies c`category
    ensures err <==> old(Open(c)) && Refused(c, fields)
    ensures if err then c.category == old(c.category) else Updated(c, fields, old(c.category))
  {
    if c.kind.OfUse? && c.category.None? {
      if c.name !in fields {
        return true;
      }
      var cs := fields[c.name];
      var bucketSize;
      match c.kind.use {
        case Embedding =>
          bucketSize := cs.shape.value[0];
          if !cs.isSparse {
            if cs.maxID == 0 {
              return true;
            }
            bucketSize := cs.maxID + 1;
          }
        case Indicator =>
          if cs.isSparse || cs.maxID == 0 {
            return true;
          }
          bucketSize := cs.maxID + 1;
      }
      c.category := Some(Category(cs, bucketSize));
    }
    return false;
  }

  // Fails at the first column that is refused; all columns before it are updated.
  method UpdateFeatureColumn(fcList: seq<Feature>, fields: map<string, FieldDesc>) returns (err: bool)
    requires forall f :: f in fcList ==> Wide(f, fields)
    modifies fcList
    ensures !err ==> forall f :: f in fcList ==> Updated(f, fields, old(f.category))
    ensures err <==> exists f :: f in fcList && old(Open(f)) && Refused(f, fields)
    ensures forall f :: f in fcList ==> f.category == old(f.category) || Updated(f, fields, old(f.category))
  {
    ghost var was := map f | f in fcList :: f.category;
    for i := 0 to |fcList|
      invariant forall f :: f in fcList[..i] ==> Updated(f, fields, was[f]) && !(Opened(f, was[f]) && Refused(f, fields))
      invariant forall f :: f in fcList && f !in fcList[..i] ==> f.category == was[f]
      invariant forall f :: f in fcList ==> Wide(f, fields)
    {
      var c := fcList[i];
      assert fcList[..i + 1] == fcList[..i] + [c];
      err := UpdateOne(c, fields);
      if err {
        return;
      }
    }
    assert fcList[..|fcList|] == fcList;
    return false;
  }

  // ---- buckets and samples

  // A sparse field has a width, and no field has an empty shape.
  predicate Shaped(d: Desc) {
    (d.isSparse ==> HasWidth(d)) && d.shape != Some([])
  }

  ghost predicate ShapedAll(m: map<string, Desc>) {
    forall n :: n in m ==> Shaped(m[n])
  }

  // Sampling gives every field a width.
  lemma {:induction false} SampledHasWidth(d: Desc, column: ColumnType, cells: seq<Cell>, infer: bool)
    requires Shaped(d) && FillAll(d, column, cells, infer).Ok?
    ensures Shaped(FillAll(d, column, cells, infer).value)
    ensures cells != [] ==> HasWidth(FillAll(d, column, cells, infer).value)
    decreases |cells|
  {
    if cells != [] {
      SampledHasWidth(d, column, cells[..|cells| - 1], infer);
    }
  }

  // A field of which no column is sampled is left alone.
  lemma {:induction false} UnsampledColumns(m: map<string, Desc>, columns: seq<Column>, row: seq<Cell>, first: bool,
                                           sizes: map<string, int>, k: nat, n: string)
    requires k <= |columns| == |row| && FillColumns(m, columns, row, first, sizes, k).Ok?
    requires forall j :: 0 <= j < k ==> columns[j].name != n
    ensures var r := FillColumns(m, columns, row, first, sizes, k).value;
      (n in r <==> n in m) && (n in m ==> r[n] == m[n])
  {
    if k > 0 {
      UnsampledColumns(m, columns, row, first, sizes, k - 1, n);
    }
  }

  lemma {:induction false} Unsampled(m: map<string, Desc>, columns: seq<Column>, rows: seq<seq<Cell>>, sizes: map<string, int>,
                                    n: string)
    requires Table(columns, rows) && FillTable(m, columns, rows, sizes).Ok?
    requires forall j :: 0 <= j < |columns| ==> columns[j].name != n
    ensures var r := FillTable(m, columns, rows, sizes).value;
      (n in r <==> n in m) && (n in m ==> r[n] == m[n])
    decreases |rows|
  {
    if rows != [] {
      var k := |rows| - 1;
      Unsampled(m, columns, rows[..k], sizes, n);
      UnsampledColumns(FillTable(m, columns, rows[..k], sizes).value, columns, rows[k], k == 0, sizes, |columns|, n);
    }
  }

  ghost predicate IsSampled(columns: seq<Column>, n: string) { exists j :: 0 <= j < |columns| && columns[j].name == n }

  // After sampling, a field that is sampled or had a width has one.
  lemma FieldHasWidth(m: map<string, Desc>, columns: seq<Column>, rows: seq<seq<Cell>>, sizes: map<string, int>, n: string)
    requires Table(columns, rows) && Distinct(columns) && rows != [] && FillTable(m, columns, rows, sizes).Ok?
    requires ShapedAll(m) && (n in m ==> IsSampled(columns, n) || HasWidth(m[n]))
    ensures n in FillTable(m, columns, rows, sizes).value ==> HasWidth(FillTable(m, columns, rows, sizes).value[n])
  {
    if IsSampled(columns, n) {
      var j :| 0 <= j < |columns| && columns[j].name == n;
      FillTableEach(m, columns, rows, sizes);
      assert FillColumn(m, columns, rows, sizes, j).Ok?;
      assert Shaped(Get(m, n));
      SampledHasWidth(Get(m, n), columns[j].ctype, Cells(columns, rows, j), Infer(sizes, n));
    } else {
      Unsampled(m, columns, rows, sizes, n);
    }
  }

  // The integers that a dense column of lists holds, or the indices of key-value data of inferred width.
  ghost predicate Drawn(m: map<string, Desc>, columns: seq<Column>, rows: seq<seq<Cell>>, sizes: map<string, int>, j: nat, n: int)
    requires Table(columns, rows)
  {
    && rows != [] && j < |columns| && columns[j].ctype == StringColumn
    && var d := Get(m, columns[j].name);
    || (!d.isSparse && rows[0][j].looks == Csv && Sampled(Rows(Cells(columns, rows, j)), n))
    || (d.isSparse && d.delimiterKV == "" && Infer(sizes, columns[j].name) && rows[0][j].looks == KeyValue
        && Indexed(Cells(columns, rows, j), n))
  }

  lemma BucketHoldsDrawn(m: map<string, Desc>, columns: seq<Column>, rows: seq<seq<Cell>>, sizes: map<string, int>, j: nat,
                         n: int, use: Use)
    requires Table(columns, rows) && Distinct(columns) && Drawn(m, columns, rows, sizes, j, n)
    requires FillTable(m, columns, rows, sizes).Ok?
    ensures
      var e := Get(FillTable(m, columns, rows, sizes).value, columns[j].name);
      && (e.isSparse && use == Embedding ==> HasWidth(e))
      && (Bucket(use, e).Ok? ==> n < Bucket(use, e).value)
  {
    FillTableEach(m, columns, rows, sizes);
    assert FillColumn(m, columns, rows, sizes, j).Ok?;
    var d, cells := Get(m, columns[j].name), Cells(columns, rows, j);
    if d.isSparse {
      BucketHoldsIndices(d, cells);
    } else {
      BucketHoldsSamples(use, d, cells, Infer(sizes, columns[j].name));
    }
  }

  // Sampling and then updating the feature columns: whatever a column has drawn from the samples is below
  // the bucket size of the feature columns over it.
  method InferBuckets(rows: seq<seq<Cell>>, rowsErr: bool, columns: seq<Column>, fields: map<string, FieldDesc>,
                      sizes: map<string, int>, fcList: seq<Feature>)
    returns (result: map<string, FieldDesc>, err: bool)
    requires Table(columns, rows) && Distinct(columns) && Separate(fields) && ShapedAll(Values(fields))
    requires forall f :: f in fcList && Open(f) && f.kind == OfUse(Embedding) && f.name in fields ==>
               IsSampled(columns, f.name) || HasWidth(fields[f.name].Value())
    modifies fields.Values, fcList
    ensures !err ==> forall f, j: nat, n ::
              f in fcList && old(Open(f)) && j < |columns| && columns[j].name == f.name
              && Drawn(old(Values(fields)), columns, rows, sizes, j, n) ==>
                f.category.Some? && n < f.category.value.bucketSize
  {
    ghost var m := Values(fields);
    result, err := FillFieldDescs(rows, rowsErr, columns, fields, sizes);
    if err {
      return;
    }
    forall f | f in fcList
      ensures Wide(f, result)
    {
      if Open(f) && f.kind == OfUse(Embedding) {
        FieldHasWidth(m, columns, rows, sizes, f.name);
        assert f.name in result ==> Values(result)[f.name] == result[f.name].Value();
      }
    }
    err := UpdateFeatureColumn(fcList, result);
    if err {
      return;
    }
    forall f, j: nat, n | f in fcList && old(Open(f)) && j < |columns| && columns[j].name == f.name
      && Drawn(m, columns, rows, sizes, j, n)
      ensures f.category.Some? && n < f.category.value.bucketSize
    {
      assert Updated(f, result, old(f.category));
      BucketHoldsDrawn(m, columns, rows, sizes, j, n, f.kind.use);
      assert Get(Values(result), f.name) == result[f.name].Value();
    }
  }

  // ---- the list of feature columns

  // The columns of the selected fields in order, without the label's.
  function Listed(byField: map<string, seq<Feature>>, selected: seq<string>, labelName: string): seq<Feature> {
    if selected == [] then []
    else
      var k := |selected| - 1;
      var before := Listed(byField, selected[..k], labelName);
      if selected[k] == labelName || selected[k] !in byField then before else before + byField[selected[k]]
  }

  // Every element where it first occurs.
  function Unique(list: seq<Feature>): seq<Feature> {
    if list == [] then []
    else
      var k := |list| - 1;
      if list[k] in list[..k] then Unique(list[..k]) else Unique(list[..k]) + [list[k]]
  }

  // Columns of one field, or the others.
  function Only(list: seq<Feature>, single: bool): seq<Feature> {
    if list == [] then []
    else
      var k := |list| - 1;
      if (list[k].fieldCount == 1) == single then Only(list[..k], single) + [list[k]] else Only(list[..k], single)
  }

  lemma {:induction false} OnlyHas(list: seq<Feature>, single: bool, f: Feature)
    ensures f in Only(list, single) <==> f in list && (f.fieldCount == 1) == single
  {
    if list != [] {
      var k := |list| - 1;
      assert list == list[..k] + [list[k]];
      OnlyHas(list[..k], single, f);
    }
  }

  lemma {:induction false} UniqueOnce(list: seq<Feature>, f: Feature)
    ensures multiset(Unique(list))[f] == if f in list then 1 else 0
  {
    if list != [] {
      var k := |list| - 1;
      assert list == list[..k] + [list[k]];
      UniqueOnce(list[..k], f);
    }
  }

  lemma {:induction false} OnlySplits(list: seq<Feature>)
    ensures multiset(Only(list, true)) + multiset(Only(list, false)) == multiset(list)
    ensures Only(list, false) == [] ==> Only(list, true) == list
  {
    if list != [] {
      var k := |list| - 1;
      assert list == list[..k] + [list[k]];
      OnlySplits(list[..k]);
    }
  }

  // Lists of fields are listed one after the other; the label and a field without columns add nothing.
  lemma {:induction false} ListedJoin(byField: map<string, seq<Feature>>, a: seq<string>, b: seq<string>, labelName: string)
    ensures Listed(byField, a + b, labelName) == Listed(byField, a, labelName) + Listed(byField, b, labelName)
    ensures |b| == 1 ==>
      Listed(byField, b, labelName) == if b[0] == labelName || b[0] !in byField then [] else byField[b[0]]
    decreases |b|
  {
    if b == [] {
      assert a + b == a;
    } else {
      var k := |b| - 1;
      ListedJoin(byField, a, b[..k], labelName);
      assert (a + b)[..|a + b| - 1] == a + b[..k];
      assert k == 0 ==> Listed(byField, b[..k], labelName) == [];
    }
  }

  // x is the first place of f in the list.
  ghost predicate FirstPlace(list: seq<Feature>, f: Feature, x: nat) {
    x < |list| && list[x] == f && forall y :: 0 <= y < x ==> list[y] != f
  }

  ghost predicate Earlier(list: seq<Feature>, f: Feature, g: Feature) {
    exists x, y :: x < y && FirstPlace(list, f, x) && FirstPlace(list, g, y)
  }

  // The columns stand in the order of their first places in the list.
  ghost predicate FirstsInOrder(list: seq<Feature>, s: seq<Feature>) {
    && (forall i :: 0 <= i < |s| ==> s[i] in list)
    && forall i, j :: 0 <= i < j < |s| ==> Earlier(list, s[i], s[j])
  }

  lemma {:induction false} PlaceOf(list: seq<Feature>, f: Feature) returns (x: nat)
    requires f in list
    ensures FirstPlace(list, f, x)
    decreases |list|
  {
    var k := |list| - 1;
    assert list == list[..k] + [list[k]];
    if f in list[..k] {
      x := PlaceOf(list[..k], f);
    } else {
      x := k;
    }
  }

  lemma EarlierStays(list: seq<Feature>, f: Feature, g: Feature, k: nat)
    requires k <= |list| && Earlier(list[..k], f, g)
    ensures Earlier(list, f, g)
  {
    var x, y :| x < y && FirstPlace(list[..k], f, x) && FirstPlace(list[..k], g, y);
    assert FirstPlace(list, f, x) && FirstPlace(list, g, y);
  }

  lemma {:induction false} UniqueInOrder(list: seq<Feature>)
    ensures FirstsInOrder(list, Unique(list))
    decreases |list|
  {
    if list != [] {
      var k := |list| - 1;
      var before := Unique(list[..k]);
      UniqueInOrder(list[..k]);
      assert list == list[..k] + [list[k]];
      forall i, j | 0 <= i < j < |Unique(list)| ensures Earlier(list, Unique(list)[i], Unique(list)[j]) {
        if j < |before| {
          EarlierStays(list, before[i], before[j], k);
        } else {
          var x := PlaceOf(list[..k], before[i]);
          assert FirstPlace(list, before[i], x) && FirstPlace(list, list[k], k);
        }
      }
    }
  }

  lemma {:induction false} OnlyInOrder(list: seq<Feature>, s: seq<Feature>, single: bool)
    requires FirstsInOrder(list, s)
    ensures FirstsInOrder(list, Only(s, single))
    decreases |s|
  {
    if s != [] {
      var k := |s| - 1;
      var before := Only(s[..k], single);
      OnlyInOrder(list, s[..k], single);
      forall i | 0 <= i < |before| ensures Earlier(list, before[i], s[k]) {
        OnlyHas(s[..k], single, before[i]);
        var j :| 0 <= j < k && s[..k][j] == before[i];
        assert Earlier(list, s[j], s[k]);
      }
    }
  }

  // Sorting only ever swaps two elements; which ones is up to the comparison.
  method SortSlice(list: seq<Feature>, swaps: seq<(nat, nat)>) returns (r: seq<Feature>)
    ensures multiset(r) == multiset(list) && |r| == |list|
  {
    r := list;
    for i := 0 to |swaps|
      invariant multiset(r) == multiset(list) && |r| == |list|
    {
      var (a, b) := swaps[i];
      if a < |r| && b < |r| {
        r := r[a := r[b]][b := r[a]];
      }
    }
  }

  lemma UniqueMore(list: seq<Feature>, f: Feature)
    ensures Unique(list + [f]) == if f in list then Unique(list) else Unique(list) + [f]
  {
    assert (list + [f])[..|list|] == list;
  }

  lemma OnlyMore(list: seq<Feature>, f: Feature, single: bool)
    ensures Only(list + [f], single) == if (f.fieldCount == 1) == single then Only(list, single) + [f] else Only(list, single)
  {
    assert (list + [f])[..|list|] == list;
  }

  // The lists after these columns have been seen.
  ghost predicate Collected(seen: seq<Feature>, all: seq<Feature>, singles: seq<Feature>, multis: seq<Feature>) {
    all == Unique(seen) && singles == Only(all, true) && multis == Only(all, false)
  }

  lemma CollectMore(seen: seq<Feature>, fc: Feature)
    ensures
      var all := Unique(seen);
      if fc in all then Collected(seen + [fc], all, Only(all, true), Only(all, false))
      else if fc.fieldCount == 1 then Collected(seen + [fc], all + [fc], Only(all, true) + [fc], Only(all, false))
      else Collected(seen + [fc], all + [fc], Only(all, true), Only(all, false) + [fc])
  {
    UniqueOnce(seen, fc);
    UniqueMore(seen, fc);
    OnlyMore(Unique(seen), fc, true);
    OnlyMore(Unique(seen), fc, false);
  }

  method Contains(list: seq<Feature>, fc: Feature) returns (found: bool)
    ensures found <==> fc in list
  {
    for k := 0 to |list|
      invariant fc !in list[..k]
    {
      if fc == list[k] {
        return true;
      }
    }
    return false;
  }

  // A column joins the lists unless it is there.
  method CollectOne(fc: Feature, ghost seen: seq<Feature>, all0: seq<Feature>, singles0: seq<Feature>, multis0: seq<Feature>)
    returns (all: seq<Feature>, singles: seq<Feature>, multis: seq<Feature>)
    requires Collected(seen, all0, singles0, multis0)
    ensures Collected(seen + [fc], all, singles, multis)
  {
    all, singles, multis := all0, singles0, multis0;
    CollectMore(seen, fc);
    var exist := Contains(all, fc);
    if !exist {
      all := all + [fc];
      if fc.fieldCount == 1 {
        singles := singles + [fc];
      } else {
        multis := multis + [fc];
      }
    }
  }

  // The columns of one field.
  method Collect(list: seq<Feature>, ghost seen: seq<Feature>, all0: seq<Feature>, singles0: seq<Feature>, multis0: seq<Feature>)
    returns (all: seq<Feature>, singles: seq<Feature>, multis: seq<Feature>)
    requires Collected(seen, all0, singles0, multis0)
    ensures Collected(seen + list, all, singles, multis)
  {
    all, singles, multis := all0, singles0, multis0;
    assert seen + list[..0] == seen;
    for j := 0 to |list|
      invariant Collected(seen + list[..j], all, singles, multis)
    {
      all, singles, multis := CollectOne(list[j], seen + list[..j], all, singles, multis);
      assert seen + list[..j] + [list[j]] == seen + list[..j + 1];
    }
    assert list[..|list|] == list;
  }

  // The columns of one target: each once, those of one field first and in the order of the selected fields.
  method SetDerivedFeatureColumn(byField: map<string, seq<Feature>>, selected: seq<string>, labelName: string,
                                 swaps: seq<(nat, nat)>)
    returns (result: seq<Feature>)
    ensures forall f :: multiset(result)[f] == if f in Listed(byField, selected, labelName) then 1 else 0
    ensures
      var singles := Only(Unique(Listed(byField, selected, labelName)), true);
      && singles <= result && (forall i :: |singles| <= i < |result| ==> result[i].fieldCount != 1)
      // by the first places of the columns in the lists of the fields
      && FirstsInOrder(Listed(byField, selected, labelName), singles)
  {
    var singleColumnFC, multiColumnFC, allColumnFCs := [], [], [];
    for i := 0 to |selected|
      invariant Collected(Listed(byField, selected[..i], labelName), allColumnFCs, singleColumnFC, multiColumnFC)
    {
      assert selected[..i + 1][..i] == selected[..i];
      if selected[i] != labelName && selected[i] in byField {
        allColumnFCs, singleColumnFC, multiColumnFC :=
          Collect(byField[selected[i]], Listed(byField, selected[..i], labelName), allColumnFCs, singleColumnFC, multiColumnFC);
      }
    }
    assert selected[..|selected|] == selected;
    result := allColumnFCs;
    if |multiColumnFC| > 0 {
      multiColumnFC := SortSlice(multiColumnFC, swaps);
      result := singleColumnFC + multiColumnFC;
    }
    Ordered(Unique(Listed(byField, selected, labelName)), multiColumnFC, result);
    UniqueInOrder(Listed(byField, selected, labelName));
    OnlyInOrder(Listed(byField, selected, labelName), Unique(Listed(byField, selected, labelName)), true);
    forall f
      ensures multiset(result)[f] == if f in Listed(byField, selected, labelName) then 1 else 0
    {
      UniqueOnce(Listed(byField, selected, labelName), f);
    }
  }

  // Columns of one field and then the others in any order are the same columns.
  lemma Ordered(all: seq<Feature>, multis: seq<Feature>, result: seq<Feature>)
    requires multiset(multis) == multiset(Only(all, false))
    requires result == if multis == [] then all else Only(all, true) + multis
    ensures multiset(result) == multiset(all) && Only(all, true) <= result
    ensures forall i :: |Only(all, true)| <= i < |result| ==> result[i].fieldCount != 1
  {
    OnlySplits(all);
    var singles := Only(all, true);
    if multis == [] {
      assert |Only(all, false)| == |multiset(Only(all, false))| == 0;
    } else {
      forall i | |singles| <= i < |result|
        ensures result[i].fieldCount != 1
      {
        assert result[i] == multis[i - |singles|];
        assert result[i] in multiset(multis);
        OnlyHas(all, false, result[i]);
      }
    }
  }
}
