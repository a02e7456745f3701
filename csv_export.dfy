/** `write_csv` of `scripts/generate_validators_json.py`: the table projected
    onto `(secp_key, name)` rows. Rows are kept as values; the quoting done by
    Python's `csv` module is not modelled. */
module CsvExport {
  import opened Json
  import opened PyText
  import opened PyDict
  import opened Validator

  /** One CSV row: the secp key column and the name column. */
  datatype Row = Row(key: string, name: Value)

  const Header: Row := Row("secp_key", Str("name"))

  /** `validator_data.get("name", secp)` */
  function NameColumn(key: string, r: Record): Value {
    if "name" in r then r["name"] else Str(key)
  }

  /** The data row written for the entry `key -> r`. */
  function DataRow(key: string, r: Record): Row {
    Row(key, NameColumn(key, r))
  }

  /** The data rows `write_csv` emits after the header: one per entry, in
      the table's iteration order. */
  function DataRows(t: Table): (rows: seq<Row>)
    requires Valid(t)
    ensures |rows| == |t.order| == |t.entries|
    ensures forall i :: 0 <= i < |rows| ==>
      t.order[i] in t.entries && rows[i] == DataRow(t.order[i], t.entries[t.order[i]])
  {
    LenIsOrderLength(t);
    seq(|t.order|, i requires 0 <= i < |t.order| => DataRow(t.order[i], t.entries[t.order[i]]))
  }

  /** `write_csv`: writes the header, then loops over the table's items. The
      file holds one line more than the table has entries. */
  method WriteCsv(validators: Table) returns (rows: seq<Row>)
    requires Valid(validators)
    ensures rows == [Header] + DataRows(validators)
    ensures |rows| == |validators.entries| + 1
  {
    rows := [Header];
    ghost var expected := DataRows(validators);
    for i := 0 to |validators.order|
      invariant rows == [Header] + expected[..i]
    {
      var secp := validators.order[i];
      var data := validators.entries[secp];
      var name := if "name" in data then data["name"] else Str(secp);
      rows := rows + [Row(secp, name)];
      assert expected[..i + 1] == expected[..i] + [expected[i]];
    }
    assert expected[..|validators.order|] == expected;
  }

  /** The first column of `rows`. */
  function KeyColumn(rows: seq<Row>): (keys: seq<string>)
    ensures |keys| == |rows|
    ensures forall i :: 0 <= i < |rows| ==> keys[i] == rows[i].key
  {
    seq(|rows|, i requires 0 <= i < |rows| => rows[i].key)
  }

  /** The key column of the data rows is the table's iteration order: every
      key of the table has exactly one row, and no row has any other key. */
  lemma DataRowKeys(t: Table)
    requires Valid(t)
    ensures KeyColumn(DataRows(t)) == t.order
    ensures Distinct(KeyColumn(DataRows(t)))
    ensures forall k :: k in t.entries <==> k in KeyColumn(DataRows(t))
  {
    var keys := KeyColumn(DataRows(t));
    forall i | 0 <= i < |keys| ensures keys[i] == t.order[i] {
      assert keys[i] == DataRows(t)[i].key;
    }
  }

  /** On a table whose entries are stored under their own secp with a usable
      name, as `read_validators` builds them (`StoredUnderOwnSecp`), the name
      column is exactly the stored name, a string that is non-blank or equal to
      the key. */
  lemma DataRowNamesAreStored(t: Table)
    requires Valid(t) && StoredInvariant(t)
    ensures forall i :: 0 <= i < |DataRows(t)| ==>
      && DataRows(t)[i].key in t.entries
      && DataRows(t)[i].name == t.entries[DataRows(t)[i].key]["name"]
      && (DataRows(t)[i].name == Str(DataRows(t)[i].key)
          || (DataRows(t)[i].name.Str? && !AllSpace(DataRows(t)[i].name.s)))
  {
    var rows := DataRows(t);
    forall i | 0 <= i < |rows|
      ensures rows[i].key in t.entries
      ensures rows[i].name == t.entries[rows[i].key]["name"]
      ensures rows[i].name == Str(rows[i].key) || (rows[i].name.Str? && !AllSpace(rows[i].name.s))
    {
      var k := t.order[i];
      assert rows[i].key == k && k in t.entries;
      assert StoredUnder(k, t.entries[k]);
    }
  }
}
