/** `OutputFormatter.format_to_csv`: parsed records become a table whose
    columns are the sorted union of the records' keys, a nested dictionary
    under key `k` contributing one column `k_s` per sub-key `s`, and whose
    rows hold each record's values under those columns, blank where the
    record has none. Rendering cells as text and CSV quoting are not modelled:
    the table keeps the values themselves. */
module CsvFormatter {
  import opened Wrappers

  /** A JSON value as `json.loads` gives it; an object keeps its keys in order. */
  datatype Value =
    | Null
    | Bool(b: bool)
    | Number(x: real)
    | Str(s: string)
    | List(items: seq<Value>)
    | Object(fields: seq<(string, Value)>)

  /** One parsed record, a dictionary, as its (key, value) pairs in order. */
  type Record = seq<(string, Value)>

  /** A cell of a data row: `restval` (the empty field) or a value. */
  datatype Cell = Blank | Filled(v: Value)

  /** What `format_to_csv` returns without an output file: the empty string
      for no records, otherwise a header row and one data row per record. */
  datatype Csv = NoText | Table(header: seq<string>, rows: seq<seq<Cell>>)

  // ---------------------------------------------------------------------------
  // Python's ordering of strings
  // ---------------------------------------------------------------------------

  /** `a < b` on Python strings: lexicographic by code point, a proper prefix
      coming first. */
  predicate Less(a: string, b: string) {
    b != [] && (a == [] || a[0] < b[0] || (a[0] == b[0] && Less(a[1..], b[1..])))
  }

  lemma {:induction false} LessIrreflexive(a: string)
    ensures !Less(a, a)
  {
    if a != [] {
      LessIrreflexive(a[1..]);
    }
  }

  lemma {:induction false} LessTransitive(a: string, b: string, c: string)
    requires Less(a, b) && Less(b, c)
    ensures Less(a, c)
  {
    if a != [] && a[0] == b[0] && b[0] == c[0] {
      LessTransitive(a[1..], b[1..], c[1..]);
    }
  }

  lemma {:induction false} LessTotal(a: string, b: string)
    requires a != b
    ensures Less(a, b) || Less(b, a)
  {
    if a != [] && b != [] && a[0] == b[0] {
      assert a == [a[0]] + a[1..] && b == [b[0]] + b[1..];
      LessTotal(a[1..], b[1..]);
    }
  }

  predicate StrictlySorted(s: seq<string>) {
    forall i, j :: 0 <= i < j < |s| ==> Less(s[i], s[j])
  }

  function Elems(s: seq<string>): set<string> {
    set i | 0 <= i < |s| :: s[i]
  }

  /** A strictly sorted sequence holds no element twice. */
  lemma {:induction false} SortedDistinct(s: seq<string>)
    requires StrictlySorted(s)
    ensures |Elems(s)| == |s|
  {
    if s != [] {
      var t := s[1..];
      SortedDistinct(t);
      assert Elems(s) == Elems(t) + {s[0]};
      if s[0] in Elems(t) {
        var k :| 0 <= k < |t| && t[k] == s[0];
        assert Less(s[0], s[k + 1]);
        LessIrreflexive(s[0]);
      }
    }
  }

  /** There is one strictly sorted arrangement of a set: `sorted()` of a set
      of strings does not depend on the set's iteration order. */
  lemma {:induction false} SortedUnique(s: seq<string>, t: seq<string>)
    requires StrictlySorted(s) && StrictlySorted(t) && Elems(s) == Elems(t)
    ensures s == t
  {
    if t != [] {
      assert t[0] in Elems(t);
    }
    if s != [] {
      assert s[0] in Elems(t);
      assert t != [] && t[0] in Elems(s);
      if s[0] != t[0] {
        var k :| 0 <= k < |t| && t[k] == s[0];
        var m :| 0 <= m < |s| && s[m] == t[0];
        assert Less(t[0], s[0]);
        assert Less(s[0], t[0]);
        LessTransitive(s[0], t[0], s[0]);
        LessIrreflexive(s[0]);
      }
      forall x ensures x in Elems(s[1..]) <==> x in Elems(t[1..]) {
        if x in Elems(s[1..]) {
          var k :| 0 <= k < |s| - 1 && s[1..][k] == x;
          assert Less(s[0], s[k + 1]);
          LessIrreflexive(x);
          assert x in Elems(t) && x != t[0];
          var j :| 0 <= j < |t| && t[j] == x;
          assert t[1..][j - 1] == x;
        }
        if x in Elems(t[1..]) {
          var k :| 0 <= k < |t| - 1 && t[1..][k] == x;
          assert Less(t[0], t[k + 1]);
          LessIrreflexive(x);
          assert x in Elems(s) && x != s[0];
          var j :| 0 <= j < |s| && s[j] == x;
          assert s[1..][j - 1] == x;
        }
      }
      SortedUnique(s[1..], t[1..]);
      assert s == [s[0]] + s[1..] && t == [t[0]] + t[1..];
    }
  }

  /** Putting `x` at index `i` keeps the sequence sorted when everything
      before `i` is below `x` and `s[i]` is above it. */
  lemma InsertAt(s: seq<string>, x: string, i: nat)
    requires StrictlySorted(s) && i <= |s|
    requires forall k :: 0 <= k < i ==> Less(s[k], x)
    requires i < |s| ==> Less(x, s[i])
    ensures StrictlySorted(s[..i] + [x] + s[i..])
  {
    var r := s[..i] + [x] + s[i..];
    forall a, b | 0 <= a < b < |r| ensures Less(r[a], r[b]) {
      if b < i {
        assert r[a] == s[a] && r[b] == s[b];
      } else if b == i {
        assert r[a] == s[a] && r[b] == x;
      } else if a == i {
        assert r[b] == s[b - 1];
        if b - 1 > i {
          LessTransitive(x, s[i], s[b - 1]);
        }
      } else if a < i {
        assert r[a] == s[a] && r[b] == s[b - 1];
      } else {
        assert r[a] == s[a - 1] && r[b] == s[b - 1];
      }
    }
  }

  lemma ElemsInsert(s: seq<string>, x: string, i: nat)
    requires i <= |s|
    ensures Elems(s[..i] + [x] + s[i..]) == Elems(s) + {x}
  {
    var r := s[..i] + [x] + s[i..];
    assert r[i] == x;
    forall y ensures y in Elems(r) <==> y in Elems(s) + {x} {
      if y in Elems(s) {
        var k :| 0 <= k < |s| && s[k] == y;
        if k < i {
          assert r[k] == y;
        } else {
          assert r[k + 1] == y;
        }
      }
      if y in Elems(r) {
        var k :| 0 <= k < |r| && r[k] == y;
        if k < i {
          assert s[k] == y;
        } else if k > i {
          assert s[k - 1] == y;
        }
      }
    }
  }

  /** Inserts a new string into a strictly sorted sequence. */
  method InsertSorted(s: seq<string>, x: string) returns (r: seq<string>)
    requires StrictlySorted(s) && x !in Elems(s)
    ensures StrictlySorted(r) && Elems(r) == Elems(s) + {x} && |r| == |s| + 1
  {
    var i := 0;
    while i < |s| && Less(s[i], x)
      invariant i <= |s|
      invariant forall k :: 0 <= k < i ==> Less(s[k], x)
    {
      i := i + 1;
    }
    if i < |s| {
      assert s[i] in Elems(s);
      LessTotal(x, s[i]);
    }
    InsertAt(s, x, i);
    ElemsInsert(s, x, i);
    r := s[..i] + [x] + s[i..];
  }

  /** `sorted(list(all_keys))`: the set's strings, strictly ascending. */
  method SortColumns(keys: set<string>) returns (s: seq<string>)
    ensures StrictlySorted(s) && Elems(s) == keys && |s| == |keys|
  {
    s := [];
    var rest := keys;
    while rest != {}
      invariant rest <= keys && StrictlySorted(s) && Elems(s) == keys - rest
      decreases |rest|
    {
      var x :| x in rest;
      s := InsertSorted(s, x);
      rest := rest - {x};
    }
    SortedDistinct(s);
  }

  // ---------------------------------------------------------------------------
  // Columns (the first pass)
  // ---------------------------------------------------------------------------

  /** The column that holds sub-key `sub` of the dictionary under `key`. */
  function Flat(key: string, sub: string): string {
    key + "_" + sub
  }

  function SubColumns(key: string, fields: seq<(string, Value)>): set<string> {
    if fields == [] then {} else SubColumns(key, fields[..|fields| - 1]) + {Flat(key, fields[|fields| - 1].0)}
  }

  /** The columns one (key, value) pair asks for: one per sub-key of a
      dictionary, or the key itself. */
  function EntryColumns(entry: (string, Value)): set<string> {
    if entry.1.Object? then SubColumns(entry.0, entry.1.fields) else {entry.0}
  }

  function RecordColumns(r: Record): set<string> {
    if r == [] then {} else RecordColumns(r[..|r| - 1]) + EntryColumns(r[|r| - 1])
  }

  /** The set `all_keys` after the first pass. */
  function AllColumns(records: seq<Record>): set<string> {
    if records == [] then {} else AllColumns(records[..|records| - 1]) + RecordColumns(records[|records| - 1])
  }

  /** The pair `entry` gives rise to column `c`. */
  predicate ProducesColumn(entry: (string, Value), c: string) {
    if entry.1.Object? then exists s :: 0 <= s < |entry.1.fields| && c == Flat(entry.0, entry.1.fields[s].0)
    else c == entry.0
  }

  lemma {:induction false} SubColumnsAre(key: string, fields: seq<(string, Value)>, c: string)
    ensures c in SubColumns(key, fields) <==> exists s :: 0 <= s < |fields| && c == Flat(key, fields[s].0)
  {
    if fields != [] {
      var n := |fields| - 1;
      SubColumnsAre(key, fields[..n], c);
      if c in SubColumns(key, fields[..n]) {
        var s :| 0 <= s < n && c == Flat(key, fields[..n][s].0);
        assert fields[s] == fields[..n][s];
      }
      if exists s :: 0 <= s < |fields| && c == Flat(key, fields[s].0) {
        var s :| 0 <= s < |fields| && c == Flat(key, fields[s].0);
        if s < n {
          assert fields[s] == fields[..n][s];
        }
      }
    }
  }

  lemma {:induction false} RecordColumnsAre(r: Record, c: string)
    ensures c in RecordColumns(r) <==> exists j :: 0 <= j < |r| && ProducesColumn(r[j], c)
  {
    if r != [] {
      var n := |r| - 1;
      RecordColumnsAre(r[..n], c);
      if r[n].1.Object? {
        SubColumnsAre(r[n].0, r[n].1.fields, c);
      }
      if exists j :: 0 <= j < n && ProducesColumn(r[..n][j], c) {
        var j :| 0 <= j < n && ProducesColumn(r[..n][j], c);
        assert r[j] == r[..n][j];
      }
      if exists j :: 0 <= j < |r| && ProducesColumn(r[j], c) {
        var j :| 0 <= j < |r| && ProducesColumn(r[j], c);
        if j < n {
          assert r[j] == r[..n][j];
        }
      }
    }
  }

  /** A column is in the header exactly when some pair of some record gives
      rise to it: no field of any record is dropped, and nothing else appears. */
  lemma {:induction false} AllColumnsAre(records: seq<Record>, c: string)
    ensures c in AllColumns(records) <==>
      exists i, j :: 0 <= i < |records| && 0 <= j < |records[i]| && ProducesColumn(records[i][j], c)
  {
    if records != [] {
      var n := |records| - 1;
      AllColumnsAre(records[..n], c);
      RecordColumnsAre(records[n], c);
      if exists i, j :: 0 <= i < n && 0 <= j < |records[..n][i]| && ProducesColumn(records[..n][i][j], c) {
        var i, j :| 0 <= i < n && 0 <= j < |records[..n][i]| && ProducesColumn(records[..n][i][j], c);
        assert records[i] == records[..n][i];
      }
      if exists i, j :: 0 <= i < |records| && 0 <= j < |records[i]| && ProducesColumn(records[i][j], c) {
        var i, j :| 0 <= i < |records| && 0 <= j < |records[i]| && ProducesColumn(records[i][j], c);
        if i < n {
          assert records[i] == records[..n][i];
        }
      }
    }
  }

  /** The first pass: every key, or `key_subkey` for a dictionary value, of
      every record goes into `all_keys`. */
  method CollectColumns(records: seq<Record>) returns (allKeys: set<string>)
    ensures allKeys == AllColumns(records)
  {
    allKeys := {};
    for i := 0 to |records|
      invariant allKeys == AllColumns(records[..i])
    {
      var item := records[i];
      assert records[..i + 1][..i] == records[..i];
      for j := 0 to |item|
        invariant allKeys == AllColumns(records[..i]) + RecordColumns(item[..j])
      {
        var (key, value) := item[j];
        assert item[..j + 1][..j] == item[..j];
        if value.Object? {
          for s := 0 to |value.fields|
            invariant allKeys == AllColumns(records[..i]) + RecordColumns(item[..j]) + SubColumns(key, value.fields[..s])
          {
            assert value.fields[..s + 1][..s] == value.fields[..s];
            allKeys := allKeys + {Flat(key, value.fields[s].0)};
          }
          assert value.fields[..|value.fields|] == value.fields;
        } else {
          allKeys := allKeys + {key};
        }
      }
      assert item[..|item|] == item;
    }
    assert records[..|records|] == records;
  }

  // ---------------------------------------------------------------------------
  // Rows (the second pass)
  // ---------------------------------------------------------------------------

  /** The assignments `row[key_sub] = value` for the pairs of a dictionary. */
  function SubWrites(key: string, fields: seq<(string, Value)>): (w: seq<(string, Value)>)
    ensures |w| == |fields|
    ensures forall s :: 0 <= s < |fields| ==> w[s] == (Flat(key, fields[s].0), fields[s].1)
  {
    if fields == [] then []
    else
      var n := |fields| - 1;
      SubWrites(key, fields[..n]) + [(Flat(key, fields[n].0), fields[n].1)]
  }

  /** The assignments `row[...] = ...` one pair makes, in order. */
  function EntryWrites(entry: (string, Value)): seq<(string, Value)> {
    if entry.1.Object? then SubWrites(entry.0, entry.1.fields) else [entry]
  }

  /** The assignments a record's row dictionary receives, in order. */
  function Writes(r: Record): seq<(string, Value)> {
    if r == [] then [] else Writes(r[..|r| - 1]) + EntryWrites(r[|r| - 1])
  }

  /** A dictionary built by assignments in order: a later one to the same key
      replaces an earlier one. */
  function MapOf(w: seq<(string, Value)>): map<string, Value> {
    if w == [] then map[] else MapOf(w[..|w| - 1])[w[|w| - 1].0 := w[|w| - 1].1]
  }

  /** The `row` dictionary the second pass builds for a record. */
  function RowOf(r: Record): map<string, Value> {
    MapOf(Writes(r))
  }

  function KeysOf(w: seq<(string, Value)>): set<string> {
    set i | 0 <= i < |w| :: w[i].0
  }

  lemma MapOfSnoc(w: seq<(string, Value)>, p: (string, Value))
    ensures MapOf(w + [p]) == MapOf(w)[p.0 := p.1]
  {
    assert (w + [p])[..|w|] == w;
  }

  lemma KeysOfConcat(a: seq<(string, Value)>, b: seq<(string, Value)>)
    ensures KeysOf(a + b) == KeysOf(a) + KeysOf(b)
  {
    forall c ensures c in KeysOf(a + b) <==> c in KeysOf(a) || c in KeysOf(b) {
      if c in KeysOf(a + b) {
        var i :| 0 <= i < |a + b| && (a + b)[i].0 == c;
        if i >= |a| {
          assert b[i - |a|].0 == c;
        }
      }
      if c in KeysOf(a) {
        var i :| 0 <= i < |a| && a[i].0 == c;
        assert (a + b)[i].0 == c;
      }
      if c in KeysOf(b) {
        var i :| 0 <= i < |b| && b[i].0 == c;
        assert (a + b)[|a| + i].0 == c;
      }
    }
  }

  /** The row holds a key exactly when some assignment wrote it. */
  lemma {:induction false} MapOfKeys(w: seq<(string, Value)>)
    ensures MapOf(w).Keys == KeysOf(w)
  {
    if w != [] {
      var n := |w| - 1;
      MapOfKeys(w[..n]);
      assert w == w[..n] + [w[n]];
      KeysOfConcat(w[..n], [w[n]]);
      assert KeysOf([w[n]]) == {w[n].0};
    }
  }

  /** The row holds, under a key, the value of the last assignment to it. */
  lemma {:induction false} MapOfLastAt(w: seq<(string, Value)>, i: nat)
    requires i < |w| && forall j :: i < j < |w| ==> w[j].0 != w[i].0
    ensures w[i].0 in MapOf(w) && MapOf(w)[w[i].0] == w[i].1
  {
    var n := |w| - 1;
    if i < n {
      var prefix := w[..n];
      assert prefix[i] == w[i];
      assert forall j :: i < j < n ==> prefix[j] == w[j];
      MapOfLastAt(prefix, i);
    }
  }

  lemma MapOfLast(w: seq<(string, Value)>)
    ensures MapOf(w).Keys == KeysOf(w)
    ensures forall i :: 0 <= i < |w| && (forall j :: i < j < |w| ==> w[j].0 != w[i].0) ==> MapOf(w)[w[i].0] == w[i].1
  {
    MapOfKeys(w);
    forall i | 0 <= i < |w| && (forall j :: i < j < |w| ==> w[j].0 != w[i].0)
      ensures MapOf(w)[w[i].0] == w[i].1
    {
      MapOfLastAt(w, i);
    }
  }

  lemma EntryWritesKeys(entry: (string, Value))
    ensures KeysOf(EntryWrites(entry)) == EntryColumns(entry)
  {
    var w := EntryWrites(entry);
    if entry.1.Object? {
      forall c ensures c in KeysOf(w) <==> c in EntryColumns(entry) {
        SubColumnsAre(entry.0, entry.1.fields, c);
        if c in EntryColumns(entry) {
          var s :| 0 <= s < |entry.1.fields| && c == Flat(entry.0, entry.1.fields[s].0);
          assert w[s].0 == c;
        }
      }
    } else {
      assert w[0].0 == entry.0;
    }
  }

  lemma {:induction false} WritesKeys(r: Record)
    ensures KeysOf(Writes(r)) == RecordColumns(r)
  {
    if r != [] {
      var n := |r| - 1;
      WritesKeys(r[..n]);
      EntryWritesKeys(r[n]);
      KeysOfConcat(Writes(r[..n]), EntryWrites(r[n]));
    }
  }

  /** A record's row has exactly the record's columns. */
  lemma RowKeys(r: Record)
    ensures RowOf(r).Keys == RecordColumns(r)
  {
    MapOfLast(Writes(r));
    WritesKeys(r);
  }

  /** The second pass for one record: the `row` dictionary. */
  method BuildRow(item: Record) returns (row: map<string, Value>)
    ensures row == RowOf(item)
  {
    row := map[];
    for j := 0 to |item|
      invariant row == MapOf(Writes(item[..j]))
    {
      var (key, value) := item[j];
      WritesStep(item, j);
      ghost var before := Writes(item[..j]);
      if value.Object? {
        assert before + SubWrites(key, value.fields)[..0] == before;
        for s := 0 to |value.fields|
          invariant row == MapOf(before + SubWrites(key, value.fields)[..s])
        {
          var (subKey, subValue) := value.fields[s];
          SubWritesStep(before, key, value.fields, s);
          row := row[Flat(key, subKey) := subValue];
        }
        assert SubWrites(key, value.fields)[..|value.fields|] == SubWrites(key, value.fields);
      } else {
        MapOfSnoc(before, (key, value));
        row := row[key := value];
      }
    }
    assert item[..|item|] == item;
  }

  lemma WritesStep(r: Record, j: nat)
    requires j < |r|
    ensures Writes(r[..j + 1]) == Writes(r[..j]) + EntryWrites(r[j])
  {
    assert r[..j + 1][..j] == r[..j];
  }

  /** One assignment of the inner loop over a dictionary value. */
  lemma SubWritesStep(before: seq<(string, Value)>, key: string, fields: seq<(string, Value)>, s: nat)
    requires s < |fields|
    ensures MapOf(before + SubWrites(key, fields)[..s + 1])
         == MapOf(before + SubWrites(key, fields)[..s])[Flat(key, fields[s].0) := fields[s].1]
  {
    var w := SubWrites(key, fields);
    assert before + w[..s + 1] == (before + w[..s]) + [w[s]];
    MapOfSnoc(before + w[..s], w[s]);
  }

  // ---------------------------------------------------------------------------
  // Writing rows
  // ---------------------------------------------------------------------------

  /** The field of a row under one column: `restval` when the row has no
      value for it. */
  function CellOf(column: string, row: map<string, Value>): Cell {
    if column in row then Filled(row[column]) else Blank
  }

  /** The fields of a row in header order. */
  function Cells(header: seq<string>, row: map<string, Value>): (r: seq<Cell>)
    ensures |r| == |header|
    ensures forall c :: 0 <= c < |header| ==> r[c] == CellOf(header[c], row)
  {
    if header == [] then []
    else
      var n := |header| - 1;
      Cells(header[..n], row) + [CellOf(header[n], row)]
  }

  /** `DictWriter.writerow`: a row with a key outside the header is refused
      (`extrasaction="raise"` raises `ValueError`); otherwise its cells. */
  function DictRow(header: seq<string>, row: map<string, Value>): Option<seq<Cell>> {
    if row.Keys <= Elems(header) then Some(Cells(header, row)) else None
  }

  /** The output for a list of records: nothing for no records; otherwise the
      header is the union of the columns, strictly ascending, and there is one
      row per record, in order, as the writer writes it. */
  predicate IsCsvOf(records: seq<Record>, out: Csv) {
    if records == [] then out == NoText
    else
      && out.Table?
      && StrictlySorted(out.header)
      && Elems(out.header) == AllColumns(records)
      && |out.rows| == |records|
      && forall i :: 0 <= i < |records| ==> DictRow(out.header, RowOf(records[i])) == Some(out.rows[i])
  }

  lemma {:induction false} RecordColumnsIncluded(records: seq<Record>, i: nat)
    requires i < |records|
    ensures RecordColumns(records[i]) <= AllColumns(records)
  {
    var n := |records| - 1;
    if i < n {
      RecordColumnsIncluded(records[..n], i);
      assert records[..n][i] == records[i];
    }
  }

  /** The writer never refuses a row: every key of a row is a column. */
  lemma RowFitsHeader(records: seq<Record>, i: nat, header: seq<string>)
    requires i < |records| && Elems(header) == AllColumns(records)
    ensures DictRow(header, RowOf(records[i])) == Some(Cells(header, RowOf(records[i])))
  {
    RowKeys(records[i]);
    RecordColumnsIncluded(records, i);
  }

  /** The second pass: each record's row, written under the header. */
  method WriteRows(records: seq<Record>, fieldnames: seq<string>) returns (rows: seq<seq<Cell>>)
    requires Elems(fieldnames) == AllColumns(records)
    ensures |rows| == |records|
    ensures forall i :: 0 <= i < |records| ==> DictRow(fieldnames, RowOf(records[i])) == Some(rows[i])
  {
    rows := [];
    for i := 0 to |records|
      invariant |rows| == i
      invariant forall k :: 0 <= k < i ==> DictRow(fieldnames, RowOf(records[k])) == Some(rows[k])
    {
      var row := BuildRow(records[i]);
      var cells := WriteRow(records, i, fieldnames, row);
      RowsSnoc(records, fieldnames, rows, cells);
      rows := rows + [cells];
    }
  }

  lemma RowsSnoc(records: seq<Record>, fieldnames: seq<string>, rows: seq<seq<Cell>>, cells: seq<Cell>)
    requires |rows| < |records|
    requires forall k :: 0 <= k < |rows| ==> DictRow(fieldnames, RowOf(records[k])) == Some(rows[k])
    requires DictRow(fieldnames, RowOf(records[|rows|])) == Some(cells)
    ensures forall k :: 0 <= k <= |rows| ==> DictRow(fieldnames, RowOf(records[k])) == Some((rows + [cells])[k])
  {
  }

  /** `writer.writerow(row)` for record `i`: never refused. */
  method WriteRow(records: seq<Record>, i: nat, fieldnames: seq<string>, row: map<string, Value>) returns (cells: seq<Cell>)
    requires i < |records| && Elems(fieldnames) == AllColumns(records) && row == RowOf(records[i])
    ensures DictRow(fieldnames, row) == Some(cells)
  {
    RowFitsHeader(records, i, fieldnames);
    cells := DictRow(fieldnames, row).value;
  }

  /** `format_to_csv(data_list)` without an output file. */
  method FormatToCsv(records: seq<Record>) returns (out: Csv)
    ensures IsCsvOf(records, out)
  {
    if |records| == 0 {
      return NoText;
    }
    var allKeys := CollectColumns(records);
    var fieldnames := SortColumns(allKeys);
    var rows := WriteRows(records, fieldnames);
    return Table(fieldnames, rows);
  }

  // ---------------------------------------------------------------------------
  // What the table says
  // ---------------------------------------------------------------------------

  /** The output is determined by the records. */
  lemma CsvUnique(records: seq<Record>, a: Csv, b: Csv)
    requires IsCsvOf(records, a) && IsCsvOf(records, b)
    ensures a == b
  {
    if records != [] {
      SortedUnique(a.header, b.header);
      forall i | 0 <= i < |records| ensures a.rows[i] == b.rows[i] {
      }
    }
  }

  /** A cell is blank exactly when no pair of the record gives rise to its
      column; otherwise it holds the last value the record's pairs write to
      that column. */
  lemma CellMeaning(records: seq<Record>, out: Csv, i: nat, c: nat)
    requires IsCsvOf(records, out) && i < |records| && c < |out.header|
    ensures out.rows[i][c] == Blank <==> !exists j :: 0 <= j < |records[i]| && ProducesColumn(records[i][j], out.header[c])
    ensures var w := Writes(records[i]);
      forall k :: 0 <= k < |w| && w[k].0 == out.header[c] && (forall k' :: k < k' < |w| ==> w[k'].0 != w[k].0) ==>
        out.rows[i][c] == Filled(w[k].1)
  {
    RowKeys(records[i]);
    RecordColumnsAre(records[i], out.header[c]);
    MapOfLast(Writes(records[i]));
    assert DictRow(out.header, RowOf(records[i])) == Some(out.rows[i]);
  }

  lemma {:induction false} FlatWrites(r: Record)
    requires forall j :: 0 <= j < |r| ==> !r[j].1.Object?
    ensures Writes(r) == r
  {
    if r != [] {
      FlatWrites(r[..|r| - 1]);
      assert r == r[..|r| - 1] + [r[|r| - 1]];
    }
  }

  /** The row of a record of plain values with distinct keys is the record. */
  lemma FlatRow(r: Record)
    requires forall j :: 0 <= j < |r| ==> !r[j].1.Object?
    requires forall j, k :: 0 <= j < k < |r| ==> r[j].0 != r[k].0
    ensures forall j :: 0 <= j < |r| ==> r[j].0 in RowOf(r) && RowOf(r)[r[j].0] == r[j].1
    ensures forall key :: key in RowOf(r) ==> exists j :: 0 <= j < |r| && r[j].0 == key
  {
    FlatWrites(r);
    MapOfLast(r);
    forall j | 0 <= j < |r| ensures r[j].0 in RowOf(r) {
      assert r[j].0 in KeysOf(r);
    }
  }

  /** Row `i` of the table is record `i`'s row dictionary written under the
      header, and the header has every key of that dictionary. */
  lemma RowInTable(records: seq<Record>, out: Csv, i: nat)
    requires IsCsvOf(records, out) && i < |records|
    ensures RowOf(records[i]).Keys <= Elems(out.header)
    ensures out.rows[i] == Cells(out.header, RowOf(records[i]))
  {
    RecordColumnsIncluded(records, i);
    RowKeys(records[i]);
    assert DictRow(out.header, RowOf(records[i])) == Some(out.rows[i]);
  }

  /** Each filled cell of a row made of a record's pairs is one of them. */
  lemma CellsInPairs(r: Record, row: map<string, Value>, header: seq<string>, cells: seq<Cell>)
    requires forall j :: 0 <= j < |r| ==> r[j].0 in row && row[r[j].0] == r[j].1
    requires forall key :: key in row ==> exists j :: 0 <= j < |r| && r[j].0 == key
    requires cells == Cells(header, row)
    ensures forall c :: 0 <= c < |header| && cells[c].Filled? ==>
      exists j :: 0 <= j < |r| && r[j] == (header[c], cells[c].v)
  {
    forall c | 0 <= c < |header| && cells[c].Filled?
      ensures exists j :: 0 <= j < |r| && r[j] == (header[c], cells[c].v)
    {
      assert cells[c] == CellOf(header[c], row);
      var j :| 0 <= j < |r| && r[j].0 == header[c];
      assert r[j] == (header[c], cells[c].v);
    }
  }

  /** A record of plain (non-dictionary) values comes back from its row:
      re-keying the row by the header gives each of its pairs, and every
      filled cell is one of them. */
  lemma FlatRecordRoundTrip(records: seq<Record>, out: Csv, i: nat)
    requires IsCsvOf(records, out) && i < |records|
    requires forall j :: 0 <= j < |records[i]| ==> !records[i][j].1.Object?
    requires forall j, k :: 0 <= j < k < |records[i]| ==> records[i][j].0 != records[i][k].0
    ensures forall j :: 0 <= j < |records[i]| ==>
      exists c :: 0 <= c < |out.header| && out.header[c] == records[i][j].0 && out.rows[i][c] == Filled(records[i][j].1)
    ensures forall c :: 0 <= c < |out.header| && out.rows[i][c].Filled? ==>
      exists j :: 0 <= j < |records[i]| && records[i][j] == (out.header[c], out.rows[i][c].v)
  {
    RowInTable(records, out, i);
    FlatPairsInCells(records[i], out.header, out.rows[i]);
    FlatCellsInPairs(records[i], out.header, out.rows[i]);
  }

  lemma FlatPairsInCells(r: Record, header: seq<string>, cells: seq<Cell>)
    requires forall j :: 0 <= j < |r| ==> !r[j].1.Object?
    requires forall j, k :: 0 <= j < k < |r| ==> r[j].0 != r[k].0
    requires RowOf(r).Keys <= Elems(header) && cells == Cells(header, RowOf(r))
    ensures forall j :: 0 <= j < |r| ==>
      exists c :: 0 <= c < |header| && header[c] == r[j].0 && cells[c] == Filled(r[j].1)
  {
    forall j | 0 <= j < |r|
      ensures exists c :: 0 <= c < |header| && header[c] == r[j].0 && cells[c] == Filled(r[j].1)
    {
      FlatPairInCells(r, header, cells, j);
    }
  }

  /** Pair `j` of a record of plain values with distinct keys is found under
      its own column. */
  lemma FlatPairInCells(r: Record, header: seq<string>, cells: seq<Cell>, j: nat)
    requires j < |r| && forall k :: 0 <= k < |r| ==> !r[k].1.Object?
    requires forall k :: j < k < |r| ==> r[k].0 != r[j].0
    requires RowOf(r).Keys <= Elems(header) && cells == Cells(header, RowOf(r))
    ensures exists c :: 0 <= c < |header| && header[c] == r[j].0 && cells[c] == Filled(r[j].1)
  {
    FlatWrites(r);
    MapOfLastAt(r, j);
    assert r[j].0 in Elems(header);
    var c :| 0 <= c < |header| && header[c] == r[j].0;
    assert cells[c] == CellOf(header[c], RowOf(r));
  }

  lemma FlatCellsInPairs(r: Record, header: seq<string>, cells: seq<Cell>)
    requires forall j :: 0 <= j < |r| ==> !r[j].1.Object?
    requires forall j, k :: 0 <= j < k < |r| ==> r[j].0 != r[k].0
    requires cells == Cells(header, RowOf(r))
    ensures forall c :: 0 <= c < |header| && cells[c].Filled? ==>
      exists j :: 0 <= j < |r| && r[j] == (header[c], cells[c].v)
  {
    FlatRow(r);
    CellsInPairs(r, RowOf(r), header, cells);
  }

  // ---------------------------------------------------------------------------
  // Examples
  // ---------------------------------------------------------------------------

  lemma OnePair(e: (string, Value))
    ensures Writes([e]) == EntryWrites(e) && RecordColumns([e]) == EntryColumns(e)
  {
    assert [e][..0] == [];
  }

  lemma TwoPairs(e0: (string, Value), e1: (string, Value))
    ensures Writes([e0, e1]) == EntryWrites(e0) + EntryWrites(e1)
    ensures RecordColumns([e0, e1]) == EntryColumns(e0) + EntryColumns(e1)
  {
    assert [e0, e1][..1] == [e0];
    OnePair(e0);
  }

  lemma OneField(key: string, f: (string, Value))
    ensures SubWrites(key, [f]) == [(Flat(key, f.0), f.1)]
    ensures SubColumns(key, [f]) == {Flat(key, f.0)}
  {
    assert [f][..0] == [];
  }

  lemma TwoFields(key: string, f0: (string, Value), f1: (string, Value))
    ensures SubWrites(key, [f0, f1]) == [(Flat(key, f0.0), f0.1), (Flat(key, f1.0), f1.1)]
    ensures SubColumns(key, [f0, f1]) == {Flat(key, f0.0), Flat(key, f1.0)}
  {
    assert [f0, f1][..1] == [f0];
    OneField(key, f0);
  }

  lemma MapOfOne(p: (string, Value))
    ensures MapOf([p]) == map[p.0 := p.1]
  {
    assert [p][..0] == [];
  }

  lemma MapOfTwo(p: (string, Value), q: (string, Value))
    ensures MapOf([p, q]) == map[p.0 := p.1][q.0 := q.1]
  {
    assert [p, q][..1] == [p];
    MapOfOne(p);
  }

  lemma MapOfThree(p: (string, Value), q: (string, Value), t: (string, Value))
    ensures MapOf([p, q, t]) == map[p.0 := p.1][q.0 := q.1][t.0 := t.1]
  {
    assert [p, q, t][..2] == [p, q];
    MapOfTwo(p, q);
  }

  /** The first record of the example below, `{"a": 1, "b": {"x": 2, "y": 3}}`. */
  lemma FirstExampleRow()
    ensures var r := [("a", Number(1.0)), ("b", Object([("x", Number(2.0)), ("y", Number(3.0))]))];
      RecordColumns(r) == {"a", "b_x", "b_y"}
      && RowOf(r) == map["a" := Number(1.0)]["b_x" := Number(2.0)]["b_y" := Number(3.0)]
  {
    var e0, e1 := ("a", Number(1.0)), ("b", Object([("x", Number(2.0)), ("y", Number(3.0))]));
    assert Flat("b", "x") == "b_x" && Flat("b", "y") == "b_y";
    TwoFields("b", ("x", Number(2.0)), ("y", Number(3.0)));
    assert RecordColumns([e0, e1]) == {"a", "b_x", "b_y"} by {
      TwoPairs(e0, e1);
    }
    assert RowOf([e0, e1]) == map["a" := Number(1.0)]["b_x" := Number(2.0)]["b_y" := Number(3.0)] by {
      TwoPairs(e0, e1);
      assert Writes([e0, e1]) == [("a", Number(1.0)), ("b_x", Number(2.0)), ("b_y", Number(3.0))];
      MapOfThree(("a", Number(1.0)), ("b_x", Number(2.0)), ("b_y", Number(3.0)));
    }
  }

  /** The second record of the example below, `{"a": 4, "b": {"x": 5}}`. */
  lemma SecondExampleRow()
    ensures var r := [("a", Number(4.0)), ("b", Object([("x", Number(5.0))]))];
      RecordColumns(r) == {"a", "b_x"}
      && RowOf(r) == map["a" := Number(4.0)]["b_x" := Number(5.0)]
  {
    var e0, e1 := ("a", Number(4.0)), ("b", Object([("x", Number(5.0))]));
    assert Flat("b", "x") == "b_x";
    OneField("b", ("x", Number(5.0)));
    assert RecordColumns([e0, e1]) == {"a", "b_x"} by {
      TwoPairs(e0, e1);
    }
    assert RowOf([e0, e1]) == map["a" := Number(4.0)]["b_x" := Number(5.0)] by {
      TwoPairs(e0, e1);
      assert Writes([e0, e1]) == [("a", Number(4.0)), ("b_x", Number(5.0))];
      MapOfTwo(("a", Number(4.0)), ("b_x", Number(5.0)));
    }
  }

  /** The header of the example below is the only strictly sorted listing of
      its columns. */
  lemma ExampleHeader(h: seq<string>)
    requires StrictlySorted(h) && Elems(h) == {"a", "b_x", "b_y"}
    ensures h == ["a", "b_x", "b_y"]
  {
    var header := ["a", "b_x", "b_y"];
    assert Elems(header) == {"a", "b_x", "b_y"} by {
      assert header[0] == "a" && header[1] == "b_x" && header[2] == "b_y";
    }
    assert StrictlySorted(header) by {
      assert Less("a", "b_x") && Less("b_x", "b_y");
      LessTransitive("a", "b_x", "b_y");
    }
    SortedUnique(h, header);
  }

  /** `[{"a": 1, "b": {"x": 2, "y": 3}}, {"a": 4, "b": {"x": 5}}]`. */
  const ExampleRecords: seq<Record> :=
    [[("a", Number(1.0)), ("b", Object([("x", Number(2.0)), ("y", Number(3.0))]))],
     [("a", Number(4.0)), ("b", Object([("x", Number(5.0))]))]]

  lemma ExampleTableHeader(out: Csv)
    requires IsCsvOf(ExampleRecords, out)
    ensures out.Table? && out.header == ["a", "b_x", "b_y"] && |out.rows| == 2
  {
    ExampleColumns();
    ExampleHeader(out.header);
  }

  lemma ExampleColumns()
    ensures AllColumns(ExampleRecords) == {"a", "b_x", "b_y"}
  {
    FirstExampleRow();
    SecondExampleRow();
    assert ExampleRecords[..1] == [ExampleRecords[0]] && [ExampleRecords[0]][..0] == [];
  }

  lemma ExampleTableRows(out: Csv)
    requires IsCsvOf(ExampleRecords, out)
    ensures out.rows[0] == [Filled(Number(1.0)), Filled(Number(2.0)), Filled(Number(3.0))]
    ensures out.rows[1] == [Filled(Number(4.0)), Filled(Number(5.0)), Blank]
  {
    ExampleTableHeader(out);
    RowInTable(ExampleRecords, out, 0);
    RowInTable(ExampleRecords, out, 1);
    FirstExampleRow();
    SecondExampleRow();
    ExampleCells();
  }

  /** The two example rows written under the example header. */
  lemma ExampleCells()
    ensures Cells(["a", "b_x", "b_y"], map["a" := Number(1.0)]["b_x" := Number(2.0)]["b_y" := Number(3.0)])
         == [Filled(Number(1.0)), Filled(Number(2.0)), Filled(Number(3.0))]
    ensures Cells(["a", "b_x", "b_y"], map["a" := Number(4.0)]["b_x" := Number(5.0)])
         == [Filled(Number(4.0)), Filled(Number(5.0)), Blank]
  {
    var h := ["a", "b_x", "b_y"];
    assert h[0] == "a" && h[1] == "b_x" && h[2] == "b_y";
    assert "b_y" != "a" && "b_y" != "b_x";
  }

  /** The example gives the columns `a`, `b_x`, `b_y` and the rows `1,2,3`
      and `4,5,` (the second record has no `b_y`). */
  lemma TwoRecordsExample(out: Csv)
    requires IsCsvOf(ExampleRecords, out)
    ensures out.Table? && out.header == ["a", "b_x", "b_y"]
    ensures out.rows == [[Filled(Number(1.0)), Filled(Number(2.0)), Filled(Number(3.0))],
                         [Filled(Number(4.0)), Filled(Number(5.0)), Blank]]
  {
    ExampleTableHeader(out);
    ExampleTableRows(out);
  }

  /** A flattened column and a plain key can coincide: `{"a_b": 1, "a":
      {"b": 2}}` has the single column `a_b`, and the later assignment wins. */
  lemma CollidingColumnsExample()
    ensures RecordColumns([("a_b", Number(1.0)), ("a", Object([("b", Number(2.0))]))]) == {"a_b"}
    ensures RowOf([("a_b", Number(1.0)), ("a", Object([("b", Number(2.0))]))]) == map["a_b" := Number(2.0)]
    ensures RowOf([("a", Object([("b", Number(2.0))])), ("a_b", Number(1.0))]) == map["a_b" := Number(1.0)]
  {
    var plain, nested := ("a_b", Number(1.0)), ("a", Object([("b", Number(2.0))]));
    assert Flat("a", "b") == "a_b";
    OneField("a", ("b", Number(2.0)));
    assert EntryWrites(nested) == [("a_b", Number(2.0))];
    assert RecordColumns([plain, nested]) == {"a_b"} by {
      TwoPairs(plain, nested);
    }
    assert RowOf([plain, nested]) == map["a_b" := Number(2.0)] by {
      TwoPairs(plain, nested);
      assert Writes([plain, nested]) == [("a_b", Number(1.0)), ("a_b", Number(2.0))];
      MapOfTwo(("a_b", Number(1.0)), ("a_b", Number(2.0)));
    }
    assert RowOf([nested, plain]) == map["a_b" := Number(1.0)] by {
      TwoPairs(nested, plain);
      assert Writes([nested, plain]) == [("a_b", Number(2.0)), ("a_b", Number(1.0))];
      MapOfTwo(("a_b", Number(2.0)), ("a_b", Number(1.0)));
    }
  }

  /** An empty dictionary value contributes no column and no cell, and a
      dictionary nested two levels down is kept whole as one cell's value. */
  lemma NestingExamples()
    ensures RecordColumns([("k", Object([]))]) == {} && RowOf([("k", Object([]))]) == map[]
    ensures var deep := Object([("c", Number(1.0))]);
      RecordColumns([("a", Object([("b", deep)]))]) == {"a_b"}
      && RowOf([("a", Object([("b", deep)]))]) == map["a_b" := deep]
  {
    var deep := Object([("c", Number(1.0))]);
    OnePair(("k", Object([])));
    OnePair(("a", Object([("b", deep)])));
    OneField("a", ("b", deep));
    assert Flat("a", "b") == "a_b";
    MapOfOne(("a_b", deep));
  }
}
