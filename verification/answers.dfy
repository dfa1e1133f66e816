/**
  The answer recorder: how a submitted answer map becomes one CSV data row
  (and, for the first answer, a header row) of the form's answer file.

  The answer file is a sequence of rows; encoding/csv quoting is not
  modelled. Its byte size is zero exactly when it has no rows, because every
  row written ends with a line break.
 */
module Answers {
  import opened Strings

  type Row = seq<string>

  /** Keys of the submitted body that are consumed by the handler, not recorded. */
  const ReservedKeys: set<string> := {"formID", "clientXToken", "referrer"}

  /** Go's `m[k]` on a `map[string]string`: the empty string when `k` is absent. */
  function Get(m: map<string, string>, k: string): string
  {
    if k in m then m[k] else ""
  }

  /** The three `delete` calls: every key except the reserved ones, with its value. */
  function StripReserved(body: map<string, string>): (record: map<string, string>)
    ensures forall k :: k in record <==> k in body && k !in ReservedKeys
    ensures forall k :: k in record ==> record[k] == body[k]
  {
    map k | k in body && k !in ReservedKeys :: body[k]
  }

  /** The stripped record's key set, as a set difference. */
  lemma StrippedKeys(body: map<string, string>)
    ensures StripReserved(body).Keys == body.Keys - ReservedKeys
  {
  }

  /** The column order of a record: its keys, ascending. */
  function Columns(record: map<string, string>): (header: Row)
    ensures StrictlySorted(header)
    ensures forall k :: k in header <==> k in record
    ensures |header| == |record|
  {
    SortedKeys(record.Keys)
  }

  /** The values of `record`, read in the order of `header`. */
  function ValuesIn(record: map<string, string>, header: Row): (row: Row)
    requires forall k :: k in header ==> k in record
    ensures |row| == |header|
    ensures forall i :: 0 <= i < |row| ==> row[i] == record[header[i]]
  {
    seq(|header|, i requires 0 <= i < |header| => record[header[i]])
  }

  /** The data row of a record, in its own column order. */
  function DataRow(record: map<string, string>): Row
  {
    ValuesIn(record, Columns(record))
  }

  /** What one answer contributes to the file: the header it would start, and its data row. */
  datatype Entry = Entry(header: Row, data: Row)

  function ToEntry(record: map<string, string>): (e: Entry)
    ensures StrictlySorted(e.header)
    ensures forall k :: k in e.header <==> k in record
    ensures |e.header| == |e.data| == |record|
    ensures forall i :: 0 <= i < |e.data| ==> e.data[i] == record[e.header[i]]
  {
    Entry(Columns(record), DataRow(record))
  }

  /** What a submitted body contributes, once its reserved keys are stripped. */
  function EntryOf(body: map<string, string>): Entry
  {
    ToEntry(StripReserved(body))
  }

  /**
    The append step on the answer file: `header` goes in first only when the
    file is empty; `data` is appended every time. Nothing already in the file
    changes.
   */
  function AppendRows(csv: seq<Row>, header: Row, data: Row): (csv': seq<Row>)
    ensures |csv| <= |csv'| && csv'[..|csv|] == csv
    ensures |csv'| == |csv| + 2 <==> csv == []
    ensures |csv'| == |csv| + 1 <==> csv != []
    ensures csv'[|csv'| - 1] == data
    ensures csv == [] ==> csv'[0] == header
  {
    if |csv| == 0 then csv + [header, data] else csv + [data]
  }

  /** Record one answer in the answer file. */
  function AppendEntry(csv: seq<Row>, e: Entry): seq<Row>
  {
    AppendRows(csv, e.header, e.data)
  }

  /**
    `sortByKey` as it is meant to work: collect the keys, sort them, and
    rebuild the map from the sorted keys. It returns the sorted keys next to
    the rebuilt map, which holds exactly the input's pairs.
   */
  method SortByKey(m: map<string, string>) returns (keys: seq<string>, out: map<string, string>)
    ensures keys == SortedKeys(m.Keys)
    ensures out == m
  {
    keys := SortKeySet(m.Keys);
    out := Rebuild(m, keys);
  }

  /** The key-collecting loop and `sort.Strings`, as one insertion sort. */
  method SortKeySet(s: set<string>) returns (keys: seq<string>)
    ensures keys == SortedKeys(s)
  {
    var pending := s;
    keys := [];
    while pending != {}
      invariant StrictlySorted(keys)
      invariant forall k :: k in keys <==> k in s && k !in pending
      invariant pending <= s
      decreases pending
    {
      var k :| k in pending;
      keys := Insert(k, keys);
      pending := pending - {k};
    }
    SortedUnique(keys, SortedKeys(s));
  }

  /** The loop that copies `m` key by key, in the order of `keys`. */
  method Rebuild(m: map<string, string>, keys: seq<string>) returns (out: map<string, string>)
    requires forall k :: k in keys <==> k in m
    ensures out == m
  {
    out := map[];
    var i := 0;
    while i < |keys|
      invariant 0 <= i <= |keys|
      invariant forall k :: k in out <==> k in keys[..i]
      invariant forall k :: k in out ==> out[k] == m[k]
    {
      assert keys[..i + 1] == keys[..i] + [keys[i]];
      out := out[keys[i] := m[keys[i]]];
      i := i + 1;
    }
    assert keys[..i] == keys;
  }

  /** Both rows of a recording have one entry per non-reserved key. */
  lemma RowWidths(body: map<string, string>)
    ensures |ToEntry(StripReserved(body)).header| == |body.Keys - ReservedKeys|
    ensures |ToEntry(StripReserved(body)).data| == |body.Keys - ReservedKeys|
  {
    StrippedKeys(body);
  }

  /**
    A later answer with the same key set as the first lines up with the
    header already in the file.
   */
  lemma LaterRowMatchesHeader(first: map<string, string>, later: map<string, string>,
                              csv: seq<Row>)
    requires csv != [] && csv[0] == Columns(first)
    requires later.Keys == first.Keys
    ensures var csv' := AppendEntry(csv, ToEntry(later));
            forall i :: 0 <= i < |csv'[0]| ==> csv'[|csv'| - 1][i] == later[csv'[0][i]]
  {
    var csv' := AppendEntry(csv, ToEntry(later));
    assert Columns(later) == Columns(first);
    assert csv'[0] == csv[0];
  }

  /** Record several answers, one after the other, in the same file. */
  function AppendAll(csv: seq<Row>, entries: seq<Entry>): seq<Row>
    decreases |entries|
  {
    if |entries| == 0 then csv
    else AppendAll(AppendEntry(csv, entries[0]), entries[1..])
  }

  lemma AppendAllCons(csv: seq<Row>, e: Entry, rest: seq<Entry>)
    ensures AppendAll(csv, [e] + rest) == AppendAll(AppendEntry(csv, e), rest)
  {
    assert ([e] + rest)[1..] == rest;
  }

  /** The data rows of several answers, in order. */
  function DataRows(entries: seq<Entry>): (rows: seq<Row>)
    ensures |rows| == |entries|
    decreases |entries|
  {
    if |entries| == 0 then [] else [entries[0].data] + DataRows(entries[1..])
  }

  /** The i-th data row is the i-th answer's. */
  lemma {:induction false} DataRowsAt(entries: seq<Entry>, i: nat)
    requires i < |entries|
    ensures DataRows(entries)[i] == entries[i].data
    decreases i
  {
    if i > 0 {
      DataRowsAt(entries[1..], i - 1);
    }
  }

  lemma {:induction false} AppendAllToStartedFile(csv: seq<Row>, entries: seq<Entry>)
    requires csv != []
    ensures AppendAll(csv, entries) == csv + DataRows(entries)
    decreases |entries|
  {
    if |entries| > 0 {
      var next := AppendEntry(csv, entries[0]);
      assert next == csv + [entries[0].data];
      AppendAllToStartedFile(next, entries[1..]);
      var d := entries[0].data;
      var rest := DataRows(entries[1..]);
      assert DataRows(entries) == [d] + rest;
      assert (csv + [d]) + rest == csv + ([d] + rest);
    }
  }

  /**
    From an empty file, n recordings give one header row, taken from the
    first answer, followed by the n data rows in order.
   */
  lemma FromEmptyFile(entries: seq<Entry>)
    requires |entries| > 0
    ensures AppendAll([], entries) == [entries[0].header] + DataRows(entries)
    ensures |AppendAll([], entries)| == |entries| + 1
  {
    var h, d := entries[0].header, entries[0].data;
    var rest := DataRows(entries[1..]);
    assert AppendAll([], entries) == AppendAll([h, d], entries[1..]);
    AppendAllToStartedFile([h, d], entries[1..]);
    assert DataRows(entries) == [d] + rest;
    assert [h, d] + rest == [h] + ([d] + rest);
  }

  // ---------------------------------------------------------------------
  // The header and record loops as written: each ranges over a Go map,
  // whose iteration order is unspecified and may differ between the two
  // loops and from the order the keys were inserted in.
  // ---------------------------------------------------------------------

  /** `order` lists every key of `m` exactly once: one possible map iteration. */
  ghost predicate IsIteration(order: seq<string>, m: map<string, string>)
  {
    && |order| == |m|
    && (forall k :: k in order <==> k in m)
    && (forall i, j :: 0 <= i < j < |order| ==> order[i] != order[j])
  }

  /**
    The two rows the code writes when the header loop visits the keys in
    `headerOrder` and the record loop visits them in `recordOrder`.
   */
  function RowsAsWritten(record: map<string, string>, headerOrder: seq<string>,
                         recordOrder: seq<string>): (rows: (Row, Row))
    requires IsIteration(headerOrder, record) && IsIteration(recordOrder, record)
    ensures |rows.0| == |rows.1| == |record|
    ensures forall k :: k in rows.0 <==> k in record
    ensures forall i, j :: 0 <= i < j < |rows.0| ==> rows.0[i] != rows.0[j]
    ensures forall i :: 0 <= i < |rows.1| ==> exists k :: k in record && rows.1[i] == record[k]
  {
    var r := ValuesIn(record, recordOrder);
    assert forall i :: 0 <= i < |r| ==> recordOrder[i] in record && r[i] == record[recordOrder[i]];
    (headerOrder, r)
  }

  /**
    The rows as written can put a value under the wrong column and the
    header out of sorted order: two iterations of the same two-key answer.
   */
  lemma RowsAsWrittenMisaligned()
    ensures var record := map["email" := "a@b.com", "name" := "Alice"];
            var rows := RowsAsWritten(record, ["name", "email"], ["email", "name"]);
            && !StrictlySorted(rows.0)
            && rows.1[0] != record[rows.0[0]]
  {
    var record := map["email" := "a@b.com", "name" := "Alice"];
    var headerOrder := ["name", "email"];
    var recordOrder := ["email", "name"];
    assert IsIteration(headerOrder, record);
    assert IsIteration(recordOrder, record);
    var rows := RowsAsWritten(record, headerOrder, recordOrder);
    assert Less("email", "name");
    LessAsymmetric("email", "name");
    assert !StrictlySorted(rows.0) by {
      assert rows.0[0] == "name" && rows.0[1] == "email";
    }
    assert rows.1[0] == "a@b.com";
    assert record[rows.0[0]] == "Alice";
  }

  /** Two keys are laid out smaller first. */
  lemma TwoColumns(record: map<string, string>, a: string, b: string)
    requires record.Keys == {a, b} && Less(a, b)
    ensures Columns(record) == [a, b]
  {
    var header := Columns(record);
    assert StrictlySorted([a, b]);
    assert forall k :: k in [a, b] <==> k in header;
    SortedUnique([a, b], header);
  }

  /** A worked answer: reserved keys dropped, columns sorted, values under their keys. */
  lemma ExampleSubmission()
    ensures EntryOf(map["formID" := "123", "clientXToken" := "x", "referrer" := "http://x",
                        "name" := "Alice", "email" := "a@b.com"])
            == Entry(["email", "name"], ["a@b.com", "Alice"])
  {
    ExampleRecord();
    ExampleEntry();
  }

  /** The example's two answers, laid out. */
  lemma ExampleEntry()
    ensures ToEntry(map["email" := "a@b.com", "name" := "Alice"]) == Entry(["email", "name"], ["a@b.com", "Alice"])
  {
    var record := map["email" := "a@b.com", "name" := "Alice"];
    EmailBeforeName();
    TwoColumns(record, "email", "name");
    var e := ToEntry(record);
    assert e.data[0] == "a@b.com" && e.data[1] == "Alice";
    assert e.data == ["a@b.com", "Alice"];
  }

  /** Stripping the example's reserved keys leaves its two answers. */
  lemma ExampleRecord()
    ensures StripReserved(map["formID" := "123", "clientXToken" := "x", "referrer" := "http://x",
                              "name" := "Alice", "email" := "a@b.com"])
            == map["email" := "a@b.com", "name" := "Alice"]
  {
    var body := map["formID" := "123", "clientXToken" := "x", "referrer" := "http://x",
                    "name" := "Alice", "email" := "a@b.com"];
    assert body.Keys == ReservedKeys + {"email", "name"};
  }

  lemma EmailBeforeName()
    ensures Less("email", "name")
  {
    assert "email"[0] == 'e' && "name"[0] == 'n';
  }
}
