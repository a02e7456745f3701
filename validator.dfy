/** One validator's metadata as `scripts/generate_validators_json.py` reads
    it, and the name fallback `read_validators` applies before storing it. */
module Validator {
  import opened Json
  import opened PyText
  import opened PyDict

  datatype Option<T> = None | Some(value: T)

  /** What one file contributes: `None` when `open` or `json.load` raised. */
  type ParseResult = Option<Record>

  /** The table `read_validators` returns: secp key -> validator record. */
  type Table = Dict<Record>

  /** The records `read_validators` handles without raising: `secp` and
      `name`, where present, are strings. (A non-string `name` makes
      `.strip()` raise; a non-string `secp` is not a string key.) */
  predicate WellFormed(r: Record) {
    && ("secp" in r ==> r["secp"].Str?)
    && ("name" in r ==> r["name"].Str?)
  }

  /** `data.get("secp", "")` */
  function Secp(r: Record): string
    requires WellFormed(r)
  {
    if "secp" in r then r["secp"].s else ""
  }

  /** `data.get("name", "")` */
  function NameText(r: Record): string
    requires WellFormed(r)
  {
    if "name" in r then r["name"].s else ""
  }

  /** The name is absent or consists of white space only. */
  predicate NameIsBlank(r: Record)
    requires WellFormed(r)
  {
    AllSpace(NameText(r))
  }

  /** The source's test `not data.get("name", "").strip()` is `NameIsBlank`. */
  lemma NameIsBlankIffStripEmpty(r: Record)
    requires WellFormed(r)
    ensures NameIsBlank(r) <==> Strip(if "name" in r then r["name"].s else "") == []
  {
    StripEmptyIffAllSpace(NameText(r));
  }

  /** The record as it is stored: it keeps its secp and has a string name
      that is non-blank or equal to that secp. */
  function WithNameFallback(r: Record): (out: Record)
    requires WellFormed(r)
    ensures StoredUnder(Secp(r), out)
  {
    if NameIsBlank(r) then r["name" := Str(Secp(r))] else r
  }

  /** Only the name can change: a blank or missing `name` becomes the secp
      value, a non-blank one is kept verbatim (unstripped), and every other
      field passes through unmodified. */
  lemma FallbackChangesOnlyName(r: Record)
    requires WellFormed(r)
    ensures WithNameFallback(r).Keys == r.Keys + {"name"}
    ensures forall f :: f in r && f != "name" ==> WithNameFallback(r)[f] == r[f]
    ensures NameIsBlank(r) ==> WithNameFallback(r)["name"] == Str(Secp(r))
    ensures !NameIsBlank(r) ==> WithNameFallback(r)["name"] == r["name"]
  {
  }

  /** What every stored entry satisfies: the record's own `secp` is its key,
      and it has a string `name` that is non-blank or equal to the key. */
  predicate StoredUnder(k: string, r: Record) {
    && WellFormed(r)
    && Secp(r) == k
    && "name" in r
    && (r["name"] == Str(k) || !NameIsBlank(r))
  }

  predicate StoredInvariant(t: Table) {
    forall k :: k in t.entries ==> StoredUnder(k, t.entries[k])
  }

  /** File `f` parsed, and its record's secp is `k`. */
  predicate ParsedAs(f: ParseResult, k: string) {
    f.Some? && WellFormed(f.value) && Secp(f.value) == k
  }
}
