/** `read_validators` of `scripts/generate_validators_json.py`: the parsed
    `*.json` files of one directory are folded into a table keyed by each
    validator's `secp` public key.

    The directory listing is an arbitrary sequence of parse results, one per
    file, in whatever order the file system lists them: `None` for a file whose
    reading or JSON decoding failed, `Some(record)` otherwise. */
module Aggregate {
  import opened Json
  import opened PyText
  import opened PyDict
  import opened Validator

  predicate AllWellFormed(files: seq<ParseResult>) {
    forall i :: 0 <= i < |files| && files[i].Some? ==> WellFormed(files[i].value)
  }

  lemma PrefixWellFormed(files: seq<ParseResult>, n: nat)
    requires AllWellFormed(files) && n <= |files|
    ensures AllWellFormed(files[..n])
  {
    assert forall i :: 0 <= i < n ==> files[..n][i] == files[i];
  }

  /** The table after processing `files` in order: the specification of
      `read_validators`, as a fold over the listing. */
  function Collect(files: seq<ParseResult>): (t: Table)
    requires AllWellFormed(files)
    ensures Valid(t)
    decreases |files|
  {
    if files == [] then Empty()
    else
      PrefixWellFormed(files, |files| - 1);
      Step(Collect(files[..|files| - 1]), files[|files| - 1])
  }

  /** One iteration of the loop: skip a failed file, otherwise store the
      record, with its name fallback applied, under its secp. */
  function Step(t: Table, f: ParseResult): (u: Table)
    requires Valid(t) && (f.Some? ==> WellFormed(f.value))
    ensures Valid(u)
    ensures f.None? ==> u == t
    ensures f.Some? ==> u.entries.Keys == t.entries.Keys + {Secp(f.value)}
    ensures f.Some? ==> u.entries[Secp(f.value)] == WithNameFallback(f.value)
    ensures f.Some? ==> forall k :: k in t.entries && k != Secp(f.value) ==> u.entries[k] == t.entries[k]
    ensures f.Some? && Secp(f.value) in t.entries ==> u.order == t.order
    ensures f.Some? && Secp(f.value) !in t.entries ==> u.order == t.order + [Secp(f.value)]
  {
    match f
    case None => t
    case Some(data) => Put(t, Secp(data), WithNameFallback(data))
  }

  /** Processing one more file is one more `Step`. */
  lemma CollectSnoc(files: seq<ParseResult>, f: ParseResult)
    requires AllWellFormed(files + [f])
    ensures AllWellFormed(files)
    ensures Collect(files + [f]) == Step(Collect(files), f)
  {
    PrefixWellFormed(files + [f], |files|);
    assert (files + [f])[..|files|] == files;
  }

  /** The loop's view of `CollectSnoc`: the first `i + 1` files are the first
      `i` and one more. */
  lemma CollectTake(files: seq<ParseResult>, i: nat)
    requires AllWellFormed(files) && i < |files|
    ensures AllWellFormed(files[..i]) && AllWellFormed(files[..i + 1])
    ensures Collect(files[..i + 1]) == Step(Collect(files[..i]), files[i])
  {
    PrefixWellFormed(files, i + 1);
    assert files[..i + 1] == files[..i] + [files[i]];
    CollectSnoc(files[..i], files[i]);
  }

  /** Every stored record has its key as its own secp and a string name that
      is non-blank or equal to that key. */
  lemma {:induction false} StoredUnderOwnSecp(files: seq<ParseResult>)
    requires AllWellFormed(files)
    ensures StoredInvariant(Collect(files))
    decreases |files|
  {
    if files != [] {
      var prefix := files[..|files| - 1];
      PrefixWellFormed(files, |files| - 1);
      StoredUnderOwnSecp(prefix);
    }
  }

  /** `read_validators`: the loop over the listing, updating the table in place. */
  method ReadValidators(files: seq<ParseResult>) returns (validators: Table)
    requires AllWellFormed(files)
    ensures validators == Collect(files)
  {
    validators := Empty();
    for i := 0 to |files|
      invariant AllWellFormed(files[..i])
      invariant validators == Collect(files[..i])
    {
      CollectTake(files, i);
      match files[i] {
        case None =>
          // a warning is printed and the file is skipped
        case Some(parsed) =>
          var data := parsed;
          var secp := if "secp" in data then data["secp"].s else "";
          var name := if "name" in data then data["name"].s else "";
          NameIsBlankIffStripEmpty(data);
          if Strip(name) == [] {
            data := data["name" := Str(secp)];
          }
          StoreParsed(validators, parsed, secp, data);
          validators := Put(validators, secp, data);
      }
    }
    assert files[..|files|] == files;
  }

  /** The loop body's store of a parsed record is one step of the fold. */
  lemma StoreParsed(t: Table, parsed: Record, secp: string, data: Record)
    requires Valid(t) && WellFormed(parsed)
    requires secp == Secp(parsed) && data == WithNameFallback(parsed)
    ensures Put(t, secp, data) == Step(t, Some(parsed))
  {
  }

  /** The position of the first file that parsed with secp `k`, or `|files|`
      when there is none. */
  function FirstIndex(files: seq<ParseResult>, k: string): (r: nat)
    ensures r <= |files|
    ensures r < |files| ==> ParsedAs(files[r], k)
    ensures forall j :: 0 <= j < r && j < |files| ==> !ParsedAs(files[j], k)
    decreases |files|
  {
    if files == [] then 0
    else
      var prefix := files[..|files| - 1];
      var r := FirstIndex(prefix, k);
      assert forall j :: 0 <= j < |prefix| ==> prefix[j] == files[j];
      if r < |prefix| then r
      else if ParsedAs(files[|files| - 1], k) then |prefix|
      else |files|
  }

  /** A key is in the table exactly when some file parsed with that secp. */
  lemma {:induction false} KeysHaveFirstIndex(files: seq<ParseResult>)
    requires AllWellFormed(files)
    ensures forall k :: k in Collect(files).entries <==> FirstIndex(files, k) < |files|
    decreases |files|
  {
    if files != [] {
      var prefix := files[..|files| - 1];
      PrefixWellFormed(files, |files| - 1);
      KeysHaveFirstIndex(prefix);
    }
  }

  /** The table's keys are exactly the secp values of the records that parsed. */
  lemma KeysAreParsedSecps(files: seq<ParseResult>)
    requires AllWellFormed(files)
    ensures forall k :: k in Collect(files).entries <==>
      exists j :: 0 <= j < |files| && ParsedAs(files[j], k)
  {
    KeysHaveFirstIndex(files);
    forall k ensures k in Collect(files).entries <==>
      exists j :: 0 <= j < |files| && ParsedAs(files[j], k)
    {
      var r := FirstIndex(files, k);
      if r < |files| {
        assert ParsedAs(files[r], k);
      }
    }
  }

  /** Last write wins: a record that no later parsed file shares its secp
      with is what the table holds under that secp. */
  lemma {:induction false} LastWriteWins(files: seq<ParseResult>, j: nat)
    requires AllWellFormed(files)
    requires j < |files| && files[j].Some?
    requires forall i :: j < i < |files| ==> !ParsedAs(files[i], Secp(files[j].value))
    ensures Secp(files[j].value) in Collect(files).entries
    ensures Collect(files).entries[Secp(files[j].value)] == WithNameFallback(files[j].value)
    decreases |files|
  {
    var prefix := files[..|files| - 1];
    PrefixWellFormed(files, |files| - 1);
    if j < |files| - 1 {
      assert prefix[j] == files[j];
      assert forall i :: j < i < |prefix| ==> prefix[i] == files[i];
      LastWriteWins(prefix, j);
    }
  }

  /** Appending a file moves no key's first index, and gives a key seen for
      the first time the index of the new file. */
  lemma FirstIndexSnoc(files: seq<ParseResult>, f: ParseResult, k: string)
    ensures FirstIndex(files + [f], k) ==
      if FirstIndex(files, k) < |files| then FirstIndex(files, k)
      else if ParsedAs(f, k) then |files|
      else |files| + 1
  {
    assert (files + [f])[..|files|] == files;
  }

  /** `order` lists keys by strictly increasing first index in `files`. */
  ghost predicate InFirstSeenOrder(files: seq<ParseResult>, order: seq<string>) {
    && (forall a :: 0 <= a < |order| ==> FirstIndex(files, order[a]) < |files|)
    && (forall a, b :: 0 <= a < b < |order| ==> FirstIndex(files, order[a]) < FirstIndex(files, order[b]))
  }

  /** The table iterates in order of first appearance: each key's first
      parsed file precedes the first parsed file of every key after it. */
  lemma {:induction false} OrderIsFirstSeen(files: seq<ParseResult>)
    requires AllWellFormed(files)
    ensures InFirstSeenOrder(files, Collect(files).order)
    decreases |files|
  {
    if files != [] {
      var prefix, last := files[..|files| - 1], files[|files| - 1];
      assert files == prefix + [last];
      PrefixWellFormed(files, |files| - 1);
      OrderIsFirstSeen(prefix);
      CollectSnoc(prefix, last);
      OrderStep(prefix, last);
    }
  }

  /** Keys already in the table keep their first index when a file is added. */
  lemma FirstIndexKept(prefix: seq<ParseResult>, last: ParseResult)
    requires AllWellFormed(prefix)
    ensures forall k :: k in Collect(prefix).entries ==>
      FirstIndex(prefix + [last], k) == FirstIndex(prefix, k) < |prefix|
  {
    KeysHaveFirstIndex(prefix);
    forall k | k in Collect(prefix).entries
      ensures FirstIndex(prefix + [last], k) == FirstIndex(prefix, k) < |prefix|
    {
      FirstIndexSnoc(prefix, last, k);
    }
  }

  /** Adding a file keeps a first-seen order of the earlier table valid. */
  lemma OrderKept(prefix: seq<ParseResult>, last: ParseResult)
    requires AllWellFormed(prefix)
    requires InFirstSeenOrder(prefix, Collect(prefix).order)
    ensures InFirstSeenOrder(prefix + [last], Collect(prefix).order)
  {
    var files := prefix + [last];
    var before := Collect(prefix).order;
    FirstIndexKept(prefix, last);
    forall a | 0 <= a < |before|
      ensures FirstIndex(files, before[a]) == FirstIndex(prefix, before[a]) < |prefix|
    {
      assert before[a] in Collect(prefix).entries;
    }
  }

  /** A key first parsed in the new file goes after every earlier key. */
  lemma OrderAppended(prefix: seq<ParseResult>, last: ParseResult, k: string)
    requires AllWellFormed(prefix)
    requires InFirstSeenOrder(prefix, Collect(prefix).order)
    requires k !in Collect(prefix).entries && ParsedAs(last, k)
    ensures InFirstSeenOrder(prefix + [last], Collect(prefix).order + [k])
  {
    var files := prefix + [last];
    var before := Collect(prefix).order;
    var now := before + [k];
    OrderKept(prefix, last);
    assert FirstIndex(files, k) == |prefix| by {
      KeysHaveFirstIndex(prefix);
      FirstIndexSnoc(prefix, last, k);
    }
    forall a, b | 0 <= a < b < |now|
      ensures FirstIndex(files, now[a]) < FirstIndex(files, now[b])
    {
      assert now[a] == before[a];
    }
  }

  /** One step of the fold keeps the table in first-seen order. */
  lemma OrderStep(prefix: seq<ParseResult>, last: ParseResult)
    requires AllWellFormed(prefix) && (last.Some? ==> WellFormed(last.value))
    requires InFirstSeenOrder(prefix, Collect(prefix).order)
    ensures InFirstSeenOrder(prefix + [last], Step(Collect(prefix), last).order)
  {
    match last {
      case None =>
        OrderKept(prefix, last);
      case Some(data) =>
        if Secp(data) in Collect(prefix).entries {
          OrderKept(prefix, last);
        } else {
          OrderAppended(prefix, last, Secp(data));
        }
    }
  }

  /** A file that fails to parse changes nothing: the table is the one built
      from the listing without it, wherever in the listing it stands. */
  lemma {:induction false} FailureIsSkipped(before: seq<ParseResult>, after: seq<ParseResult>)
    requires AllWellFormed(before + after)
    ensures AllWellFormed(before + [None] + after)
    ensures Collect(before + [None] + after) == Collect(before + after)
    decreases |after|
  {
    WellFormedWithFailure(before, after);
    if after == [] {
      assert before + [None] + after == before + [None];
      assert before + after == before;
      CollectSnoc(before, None);
    } else {
      var shorter, last := after[..|after| - 1], after[|after| - 1];
      assert after == shorter + [last];
      assert before + [None] + after == (before + [None] + shorter) + [last];
      assert before + after == (before + shorter) + [last];
      CollectSnoc(before + shorter, last);
      CollectSnoc(before + [None] + shorter, last);
      FailureIsSkipped(before, shorter);
    }
  }

  /** A failed last file leaves the table as it was. */
  lemma TrailingFailure(files: seq<ParseResult>)
    requires AllWellFormed(files)
    ensures AllWellFormed(files + [None])
    ensures Collect(files + [None]) == Collect(files)
  {
    CollectSnoc(files, None);
  }

  lemma WellFormedWithFailure(before: seq<ParseResult>, after: seq<ParseResult>)
    requires AllWellFormed(before + after)
    ensures AllWellFormed(before + [None] + after)
  {
    var withFailure := before + [None] + after;
    var without := before + after;
    forall i | 0 <= i < |withFailure| && withFailure[i].Some?
      ensures WellFormed(withFailure[i].value)
    {
      if i < |before| {
        assert withFailure[i] == without[i];
      } else {
        assert withFailure[i] == without[i - 1];
      }
    }
  }
}
