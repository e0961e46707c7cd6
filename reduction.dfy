/** What `reduce_value` (main.py:56-93) and `reduce_map` (main.py:96-122)
    compute, as functions on the parsed input. The loops of the source are
    folds over prefixes here; `Reducer` runs them step by step. */
module Reduction {
  import opened Text
  import opened Values
  import opened Primitive
  import opened Dict

  /** A (stripped) key that `reduce_value` acts on: a primitive type, a map or
      a list. Every other key is passed over. */
  predicate IsTag(k: string) {
    k in PrimitiveTypes || k == "M" || k == "L"
  }

  /** The fields of a dict that `reduce_map` is building: unique keys, each
      non-empty and stripped, holding well-formed values. */
  ghost predicate GoodFields(d: seq<Field>) {
    && UniqueKeys(d)
    && forall f :: f in d ==> f.key != "" && Trim(f.key) == f.key && WellFormed(f.value)
  }

  /** `reduce_value(raw)`: a JSON object is reduced by its first member whose
      stripped key is a tag; a JSON array fails on `.items()`; anything else
      is a `ValueError`. */
  function ReduceValue(ts: TimestampParser, raw: Json): (r: Outcome)
    ensures raw.JArr? ==> r == Crash
    ensures !raw.JObj? && !raw.JArr? ==> r == Fail
    ensures r.Ok? ==> WellFormed(r.value)
    decreases raw, 0
  {
    match raw
    case JObj(ms) => FirstTag(ts, ms, 0)
    case JArr(_) => Crash
    case _ => Fail
  }

  /** The loop at main.py:69-92 from member `i` on. */
  function FirstTag(ts: TimestampParser, ms: seq<Member>, i: nat): (r: Outcome)
    requires i <= |ms|
    ensures r.Ok? ==> WellFormed(r.value)
    decreases ms, |ms| - i
  {
    if i == |ms| then Fail
    else if IsTag(Trim(ms[i].key)) then ByTag(ts, Trim(ms[i].key), ms[i].value)
    else FirstTag(ts, ms, i + 1)
  }

  /** An object's members are scanned from the first. */
  lemma FirstTagStarts(ts: TimestampParser, raw: Json)
    requires raw.JObj?
    ensures ReduceValue(ts, raw) == FirstTag(ts, raw.members, 0)
  {
  }

  /** A member whose stripped key is empty or not a tag is passed over. */
  lemma FirstTagSkips(ts: TimestampParser, ms: seq<Member>, i: nat)
    requires i < |ms| && (Trim(ms[i].key) == "" || !IsTag(Trim(ms[i].key)))
    ensures FirstTag(ts, ms, i) == FirstTag(ts, ms, i + 1)
  {
    assert !IsTag("");
  }

  /** A member whose stripped key is a tag ends the scan. */
  lemma FirstTagStops(ts: TimestampParser, ms: seq<Member>, i: nat)
    requires i < |ms| && IsTag(Trim(ms[i].key))
    ensures FirstTag(ts, ms, i) == ByTag(ts, Trim(ms[i].key), ms[i].value)
  {
  }

  /** What a tagged member reduces to (main.py:73-92). */
  function ByTag(ts: TimestampParser, tag: string, v: Json): (r: Outcome)
    requires IsTag(tag)
    ensures r.Ok? ==> WellFormed(r.value)
    decreases v, 1
  {
    if tag in PrimitiveTypes then TransformPrimitiveType(ts, tag, v)
    else if tag == "M" then ReduceMap(ts, v)
    else ReduceList(ts, v)
  }

  /** The `"L"` branch (main.py:78-92): the scalar results of the items, in
      order; `ValueError` when there are none or the payload is not a list. */
  function ReduceList(ts: TimestampParser, v: Json): (r: Outcome)
    ensures !v.JArr? ==> r == Fail
    ensures r.Ok? ==> WellFormed(r.value)
    decreases v, 0
  {
    match v
    case JArr(items) =>
      (match Survivors(ts, items, |items|)
       case None => Crash
       case Some(ls) => if ls == [] then Fail else Ok(PList(ls)))
    case _ => Fail
  }

  /** The list built from the first `n` items (main.py:81-89); `None` once an
      item has raised what the loop does not catch. */
  function Survivors(ts: TimestampParser, items: seq<Json>, n: nat): (r: Option<seq<Plain>>)
    requires n <= |items|
    ensures r.Some? ==> forall i :: 0 <= i < |r.value| ==> IsScalar(r.value[i])
    decreases items, n
  {
    if n == 0 then Some([])
    else
      match Survivors(ts, items, n - 1)
      case None => None
      case Some(ls) =>
        match ReduceValue(ts, items[n - 1])
        case Crash => None
        case Fail => Some(ls)
        case Ok(p) => if IsScalar(p) then Some(ls + [p]) else Some(ls)
  }

  /** `reduce_map(raw)`: the reduced entries of a JSON object, sorted by key;
      `ValueError` when none survives or the payload is not an object. */
  function ReduceMap(ts: TimestampParser, v: Json): (r: Outcome)
    ensures !v.JObj? ==> r == Fail
    ensures r.Ok? ==> WellFormed(r.value)
    decreases v, 0
  {
    match v
    case JObj(ms) =>
      (match Collect(ts, ms, |ms|)
       case None => Crash
       case Some(d) =>
         if d == [] then Fail
         else
           var s := SortByKey(d);
           SortByKeyAscending(d);
           SortedFieldsGood(d, s);
           Ok(PMap(s)))
    case _ => Fail
  }

  /** The dict built from the first `n` members (main.py:109-118); `None`
      once a value has raised what the loop does not catch. */
  function Collect(ts: TimestampParser, ms: seq<Member>, n: nat): (r: Option<seq<Field>>)
    requires n <= |ms|
    ensures r.Some? ==> GoodFields(r.value)
    decreases ms, n
  {
    if n == 0 then Some([])
    else
      match Collect(ts, ms, n - 1)
      case None => None
      case Some(d) => Enter(ts, d, ms[n - 1])
  }

  /** One pass of the loop body at main.py:111-118: `d[key.strip()] =
      reduce_value(raw_val)`, unless the key strips to "" or the value raises
      `ValueError`. */
  function Enter(ts: TimestampParser, d: seq<Field>, m: Member): (r: Option<seq<Field>>)
    requires GoodFields(d)
    ensures r.Some? ==> GoodFields(r.value)
    decreases m, 0
  {
    var k := Trim(m.key);
    if k == "" then Some(d)
    else
      match ReduceValue(ts, m.value)
      case Crash => None
      case Fail => Some(d)
      case Ok(p) =>
        TrimIdempotent(m.key);
        PutGood(d, k, p);
        Some(Put(d, k, p))
  }

  /** Storing a well-formed value under a non-empty stripped key keeps the
      dict good. */
  lemma PutGood(d: seq<Field>, k: string, p: Plain)
    requires GoodFields(d) && k != "" && Trim(k) == k && WellFormed(p)
    ensures GoodFields(Put(d, k, p))
  {
    PutUnique(d, k, p);
    forall f | f in Put(d, k, p) ensures f.key != "" && Trim(f.key) == f.key && WellFormed(f.value) {
      PutFields(d, k, p, f);
    }
  }

  /** The sorted copy of a good, non-empty dict is a well-formed map. */
  lemma SortedFieldsGood(d: seq<Field>, s: seq<Field>)
    requires GoodFields(d) && d != [] && multiset(s) == multiset(d) && Ascending(s)
    ensures WellFormed(PMap(s))
  {
    assert |s| == |d|;
    forall i | 0 <= i < |s| ensures s[i].key != "" && Trim(s[i].key) == s[i].key && WellFormed(s[i].value) {
      assert s[i] in multiset(d);
    }
  }
}
