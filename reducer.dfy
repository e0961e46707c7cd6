/** `reduce_value` and `reduce_map` as the source runs them: loops over the
    members of an object and the items of a list, a list and a dict that
    grow as they go, and an early return on the first tag. Each method
    computes exactly what its `Reduction` function specifies. */
module Reducer {
  import opened Text
  import opened Values
  import opened Primitive
  import opened Dict
  import Reduction

  /** `reduce_value(raw_value)` (main.py:56-93). */
  method ReduceValue(ts: TimestampParser, raw: Json) returns (r: Outcome)
    ensures r == Reduction.ReduceValue(ts, raw)
    decreases raw, 2
  {
    if raw.JArr? {
      return Crash;
    }
    if !raw.JObj? {
      return Fail;
    }
    var ms := raw.members;
    Reduction.FirstTagStarts(ts, raw);
    var i := 0;
    while i < |ms|
      invariant 0 <= i <= |ms|
      invariant Reduction.FirstTag(ts, ms, i) == Reduction.ReduceValue(ts, raw)
    {
      var key := Trim(ms[i].key);
      if key != "" && Reduction.IsTag(key) {
        r := ByTag(ts, key, ms[i].value, raw);
        return;
      }
      Reduction.FirstTagSkips(ts, ms, i);
      i := i + 1;
    }
    return Fail;
  }

  /** What the member under a recognised tag reduces to (main.py:73-92);
      `outer` is the object the member sits in. */
  method ByTag(ts: TimestampParser, tag: string, v: Json, ghost outer: Json) returns (r: Outcome)
    requires Reduction.IsTag(tag) && v < outer
    ensures r == Reduction.ByTag(ts, tag, v)
    decreases outer, 1
  {
    if tag in PrimitiveTypes {
      return TransformPrimitiveType(ts, tag, v);
    }
    if tag == "M" {
      r := ReduceMap(ts, v);
      return;
    }
    r := ReduceList(ts, v, outer);
  }

  /** The `"L"` branch of `reduce_value` (main.py:78-92); `outer` is the
      object the list sits in. */
  method ReduceList(ts: TimestampParser, v: Json, ghost outer: Json) returns (r: Outcome)
    requires v < outer
    ensures r == Reduction.ReduceList(ts, v)
    decreases outer, 0
  {
    if !v.JArr? {
      return Fail;
    }
    var items := v.items;
    var ls: seq<Plain> := [];
    var k := 0;
    while k < |items|
      invariant 0 <= k <= |items|
      invariant Reduction.Survivors(ts, items, k) == Some(ls)
    {
      var item := ReduceValue(ts, items[k]);
      if item.Crash? {
        ListCrashes(ts, items, k, ls);
        return Crash;
      }
      SurvivorsStep(ts, items, k, ls);
      if item.Ok? && IsScalar(item.value) {
        ls := ls + [item.value];
      }
      k := k + 1;
    }
    if ls == [] {
      return Fail;
    }
    return Ok(PList(ls));
  }

  /** `reduce_map(raw_map)` (main.py:96-122). */
  method ReduceMap(ts: TimestampParser, raw: Json) returns (r: Outcome)
    ensures r == Reduction.ReduceMap(ts, raw)
    decreases raw, 2
  {
    if !raw.JObj? {
      return Fail;
    }
    var ms := raw.members;
    var result: seq<Field> := [];
    var n := 0;
    while n < |ms|
      invariant 0 <= n <= |ms|
      invariant Reduction.Collect(ts, ms, n) == Some(result)
    {
      var next := Store(ts, result, ms[n], raw);
      if next.None? {
        MapCrashes(ts, ms, n, result);
        return Crash;
      }
      result := next.value;
      n := n + 1;
    }
    if result == [] {
      return Fail;
    }
    return Ok(PMap(SortByKey(result)));
  }

  /** One pass of the loop at main.py:110-118: the member's value, reduced,
      goes into `result` under the stripped key, unless the key strips to ""
      or the value raises `ValueError`; `None` when it raises anything
      else. */
  method Store(ts: TimestampParser, result: seq<Field>, m: Member, ghost outer: Json)
    returns (next: Option<seq<Field>>)
    requires Reduction.GoodFields(result) && m.value < outer
    ensures next == Reduction.Enter(ts, result, m)
    decreases outer, 1
  {
    var key := Trim(m.key);
    if key == "" {
      return Some(result);
    }
    var value := ReduceValue(ts, m.value);
    match value
    case Crash => return None;
    case Fail => return Some(result);
    case Ok(p) => return Some(Put(result, key, p));
  }

  /** An item that does not crash the list loop is kept when it reduces to
      a scalar and passed over otherwise. */
  lemma SurvivorsStep(ts: TimestampParser, items: seq<Json>, k: nat, ls: seq<Plain>)
    requires k < |items| && Reduction.Survivors(ts, items, k) == Some(ls)
    requires !Reduction.ReduceValue(ts, items[k]).Crash?
    ensures var item := Reduction.ReduceValue(ts, items[k]);
      Reduction.Survivors(ts, items, k + 1) == Some(if item.Ok? && IsScalar(item.value) then ls + [item.value] else ls)
  {
  }

  /** An item that crashes the list loop crashes the `"L"` branch. */
  lemma ListCrashes(ts: TimestampParser, items: seq<Json>, k: nat, ls: seq<Plain>)
    requires k < |items| && Reduction.Survivors(ts, items, k) == Some(ls)
    requires Reduction.ReduceValue(ts, items[k]).Crash?
    ensures Reduction.ReduceList(ts, JArr(items)) == Crash
  {
    assert Reduction.Survivors(ts, items, k + 1) == None;
    SurvivorsStayCrashed(ts, items, k + 1, |items|);
  }

  /** Once an item has crashed the list loop, the crash reaches the end. */
  lemma {:induction false} SurvivorsStayCrashed(ts: TimestampParser, items: seq<Json>, k: nat, n: nat)
    requires k <= n <= |items| && Reduction.Survivors(ts, items, k) == None
    ensures Reduction.Survivors(ts, items, n) == None
    decreases n - k
  {
    if k < n {
      SurvivorsStayCrashed(ts, items, k + 1, n);
    }
  }

  /** A member whose value crashes the map loop crashes `reduce_map`. */
  lemma MapCrashes(ts: TimestampParser, ms: seq<Member>, n: nat, d: seq<Field>)
    requires n < |ms| && Reduction.Collect(ts, ms, n) == Some(d)
    requires Reduction.Enter(ts, d, ms[n]) == None
    ensures Reduction.ReduceMap(ts, JObj(ms)) == Crash
  {
    CollectCrashes(ts, ms, n, d);
    CollectStaysCrashed(ts, ms, n + 1, |ms|);
    CollectedCrash(ts, ms);
  }

  lemma CollectCrashes(ts: TimestampParser, ms: seq<Member>, n: nat, d: seq<Field>)
    requires n < |ms| && Reduction.Collect(ts, ms, n) == Some(d)
    requires Reduction.Enter(ts, d, ms[n]) == None
    ensures Reduction.Collect(ts, ms, n + 1) == None
  {
  }

  lemma CollectedCrash(ts: TimestampParser, ms: seq<Member>)
    requires Reduction.Collect(ts, ms, |ms|) == None
    ensures Reduction.ReduceMap(ts, JObj(ms)) == Crash
  {
  }

  /** Once a value has crashed the map loop, the crash reaches the end. */
  lemma {:induction false} CollectStaysCrashed(ts: TimestampParser, ms: seq<Member>, k: nat, n: nat)
    requires k <= n <= |ms| && Reduction.Collect(ts, ms, k) == None
    ensures Reduction.Collect(ts, ms, n) == None
    decreases n - k
  {
    if k < n {
      CollectStaysCrashed(ts, ms, k + 1, n);
    }
  }
}
