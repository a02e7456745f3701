/** A directory holding `a.json` (validator S1, named "Alice"), `b.json`
    (validator S2, no name) and `c.json` (not valid JSON), with its result
    under both operations proved. */
module WorkedExample {
  import opened Json
  import opened PyText
  import opened PyDict
  import opened Validator
  import opened Aggregate
  import opened CsvExport

  const ExampleA: Record := map["secp" := Str("S1"), "name" := Str("Alice")]
  const ExampleB: Record := map["secp" := Str("S2")]
  const ExampleFiles: seq<ParseResult> := [Some(ExampleA), Some(ExampleB), None]
  const ExampleTable: Table :=
    Dict(["S1", "S2"], map["S1" := ExampleA, "S2" := ExampleB["name" := Str("S2")]])

  /** Alice's name is kept; S2's missing name falls back to its secp. */
  lemma ExampleFallback()
    ensures WithNameFallback(ExampleA) == ExampleA
    ensures WithNameFallback(ExampleB) == ExampleB["name" := Str("S2")]
  {
    assert !AllSpace("Alice") by {
      assert !IsSpace("Alice"[0]);
    }
    assert NameIsBlank(ExampleB);
  }

  /** After `a.json` the table holds Alice alone. */
  lemma ExampleCollectOne()
    ensures Collect([Some(ExampleA)]) == Dict(["S1"], map["S1" := ExampleA])
  {
    ExampleFallback();
    assert [Some(ExampleA)] == [] + [Some(ExampleA)];
    CollectSnoc([], Some(ExampleA));
  }

  /** Storing a second key in a one-entry table appends it. */
  lemma PutSecond<V>(a: V, b: V)
    ensures Put(Dict(["S1"], map["S1" := a]), "S2", b) == Dict(["S1", "S2"], map["S1" := a, "S2" := b])
  {
    var put := Put(Dict(["S1"], map["S1" := a]), "S2", b);
    assert put.entries == map["S1" := a, "S2" := b];
  }

  /** After `b.json` the table holds both validators, in listing order. */
  lemma ExampleCollectTwo()
    ensures Collect([Some(ExampleA), Some(ExampleB)]) == ExampleTable
  {
    var one: Table := Dict(["S1"], map["S1" := ExampleA]);
    var named := ExampleB["name" := Str("S2")];
    ExampleFallback();
    ExampleCollectOne();
    assert [Some(ExampleA), Some(ExampleB)] == [Some(ExampleA)] + [Some(ExampleB)];
    CollectSnoc([Some(ExampleA)], Some(ExampleB));
    StoreParsed(one, ExampleB, "S2", named);
    PutSecond(ExampleA, named);
  }

  /** The table holds both validators, in listing order, and the unparsable
      file leaves no trace. */
  lemma ExampleCollect()
    ensures Collect(ExampleFiles) == ExampleTable
  {
    var two := [Some(ExampleA), Some(ExampleB)];
    assert ExampleFiles == two + [None];
    TrailingFailure(two);
    ExampleCollectTwo();
  }

  /** The CSV is the header, then `S1,Alice`, then `S2,S2`. */
  lemma ExampleCsv()
    ensures [Header] + DataRows(ExampleTable) == [Header, Row("S1", Str("Alice")), Row("S2", Str("S2"))]
  {
  }
}
