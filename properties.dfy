/** What `reduce_value` and `reduce_map` promise, stated over all inputs:
    which member decides an object, which items a list keeps and in what
    order, which entries a map keeps and under which value, and when each
    one fails or crashes. */
module Properties {
  import opened Text
  import opened Values
  import opened Primitive
  import opened Dict
  import opened Reduction

  // ---------------------------------------------------------------------
  // reduce_value: the first tagged member decides (main.py:69-93)
  // ---------------------------------------------------------------------

  lemma {:induction false} FirstTagFrom(ts: TimestampParser, ms: seq<Member>, s: nat, i: nat)
    requires s <= i < |ms|
    requires forall j :: s <= j < i ==> !IsTag(Trim(ms[j].key))
    ensures FirstTag(ts, ms, s) == FirstTag(ts, ms, i)
    decreases i - s
  {
    if s < i {
      FirstTagSkips(ts, ms, s);
      FirstTagFrom(ts, ms, s + 1, i);
    }
  }

  /** An object is reduced by its first member whose stripped key is a tag;
      the members after it are never looked at. */
  lemma FirstTagDecides(ts: TimestampParser, ms: seq<Member>, i: nat)
    requires i < |ms| && IsTag(Trim(ms[i].key))
    requires forall j :: 0 <= j < i ==> !IsTag(Trim(ms[j].key))
    ensures ReduceValue(ts, JObj(ms)) == ByTag(ts, Trim(ms[i].key), ms[i].value)
  {
    FirstTagFrom(ts, ms, 0, i);
    FirstTagStops(ts, ms, i);
  }

  lemma {:induction false} NoTagFrom(ts: TimestampParser, ms: seq<Member>, s: nat)
    requires s <= |ms|
    requires forall j :: s <= j < |ms| ==> !IsTag(Trim(ms[j].key))
    ensures FirstTag(ts, ms, s) == Fail
    decreases |ms| - s
  {
    if s < |ms| {
      FirstTagSkips(ts, ms, s);
      NoTagFrom(ts, ms, s + 1);
    }
  }

  /** An object without a tagged member is a `ValueError`. */
  lemma NoTagFails(ts: TimestampParser, ms: seq<Member>)
    requires forall j :: 0 <= j < |ms| ==> !IsTag(Trim(ms[j].key))
    ensures ReduceValue(ts, JObj(ms)) == Fail
  {
    NoTagFrom(ts, ms, 0);
  }

  // ---------------------------------------------------------------------
  // The "L" branch: which items survive (main.py:81-92)
  // ---------------------------------------------------------------------

  /** An item the list keeps: it reduces to a scalar. */
  ghost predicate Kept(o: Outcome) {
    o.Ok? && IsScalar(o.value)
  }

  /** The list loop crashes exactly when one of its items does. */
  lemma {:induction false} SurvivorsCrash(ts: TimestampParser, items: seq<Json>, n: nat)
    requires n <= |items|
    ensures Survivors(ts, items, n) == None <==> exists k :: 0 <= k < n && ReduceValue(ts, items[k]).Crash?
  {
    if n > 0 {
      SurvivorsCrash(ts, items, n - 1);
      if ReduceValue(ts, items[n - 1]).Crash? {
        assert Survivors(ts, items, n) == None;
      } else if Survivors(ts, items, n) == None {
        assert Survivors(ts, items, n - 1) == None;
      } else {
        forall k | 0 <= k < n ensures !ReduceValue(ts, items[k]).Crash? {
          if k < n - 1 {
            assert Survivors(ts, items, n - 1).Some?;
          }
        }
      }
    }
  }

  /** A value is in the list exactly when some item reduced to it and it is
      a scalar. */
  lemma {:induction false} SurvivorsMember(ts: TimestampParser, items: seq<Json>, n: nat, ls: seq<Plain>, p: Plain)
    requires n <= |items| && Survivors(ts, items, n) == Some(ls)
    ensures p in ls <==> exists k :: 0 <= k < n && ReduceValue(ts, items[k]) == Ok(p) && IsScalar(p)
  {
    if n > 0 {
      var prev := Survivors(ts, items, n - 1).value;
      SurvivorsMember(ts, items, n - 1, prev, p);
      var o := ReduceValue(ts, items[n - 1]);
      if Kept(o) {
        assert ls == prev + [o.value];
      } else {
        assert ls == prev;
      }
      if p in ls && p !in prev {
        assert o == Ok(p);
      }
    }
  }

  /** The list keeps the order of the items: what the first `m` items give
      is a prefix of what the first `n` give. */
  lemma {:induction false} SurvivorsPrefix(ts: TimestampParser, items: seq<Json>, m: nat, n: nat)
    requires m <= n <= |items| && Survivors(ts, items, n).Some?
    ensures Survivors(ts, items, m).Some?
    ensures Survivors(ts, items, m).value <= Survivors(ts, items, n).value
    decreases n - m
  {
    if m < n {
      assert Survivors(ts, items, n - 1).Some?;
      SurvivorsPrefix(ts, items, m, n - 1);
    }
  }

  /** The scalar results of `items`, front to back: what the `"L"` branch
      promises to return, defined without the loop. */
  ghost function KeptValues(ts: TimestampParser, items: seq<Json>): (ls: seq<Plain>)
    decreases |items|
  {
    if items == [] then []
    else
      var o := ReduceValue(ts, items[0]);
      (if Kept(o) then [o.value] else []) + KeptValues(ts, items[1..])
  }

  lemma {:induction false} KeptValuesAppend(ts: TimestampParser, items: seq<Json>, x: Json)
    ensures var o := ReduceValue(ts, x);
      KeptValues(ts, items + [x]) == KeptValues(ts, items) + (if Kept(o) then [o.value] else [])
    decreases |items|
  {
    if items != [] {
      assert (items + [x])[1..] == items[1..] + [x];
      KeptValuesAppend(ts, items[1..], x);
    }
  }

  /** While no item has crashed, the loop has collected exactly the scalar
      results of the items so far, in order. */
  lemma {:induction false} SurvivorsAreKept(ts: TimestampParser, items: seq<Json>, n: nat)
    requires n <= |items| && Survivors(ts, items, n).Some?
    ensures Survivors(ts, items, n).value == KeptValues(ts, items[..n])
  {
    if n > 0 {
      assert Survivors(ts, items, n - 1).Some?;
      SurvivorsAreKept(ts, items, n - 1);
      assert items[..n] == items[..n - 1] + [items[n - 1]];
      KeptValuesAppend(ts, items[..n - 1], items[n - 1]);
    }
  }

  /** A list the `"L"` branch returns is the scalar results of its items, in
      their order. */
  lemma ListIsKeptValues(ts: TimestampParser, items: seq<Json>, ls: seq<Plain>)
    requires ReduceList(ts, JArr(items)) == Ok(PList(ls))
    ensures ls == KeptValues(ts, items)
  {
    SurvivorsAreKept(ts, items, |items|);
    assert items[..|items|] == items;
  }

  /** The `"L"` branch crashes exactly when one of its items crashes. */
  lemma ListCrash(ts: TimestampParser, items: seq<Json>)
    ensures ReduceList(ts, JArr(items)) == Crash <==> exists k :: 0 <= k < |items| && ReduceValue(ts, items[k]).Crash?
  {
    SurvivorsCrash(ts, items, |items|);
  }

  /** The `"L"` branch fails exactly when no item crashes and none reduces to
      a scalar: an empty list, or one of failures, `None`s, lists and
      dicts. */
  lemma ListFail(ts: TimestampParser, items: seq<Json>)
    ensures ReduceList(ts, JArr(items)) == Fail <==>
      forall k :: 0 <= k < |items| ==> !ReduceValue(ts, items[k]).Crash? && !Kept(ReduceValue(ts, items[k]))
  {
    SurvivorsCrash(ts, items, |items|);
    match Survivors(ts, items, |items|)
    case None =>
    case Some(ls) =>
      if ls != [] {
        SurvivorsMember(ts, items, |items|, ls, ls[0]);
      } else {
        forall k | 0 <= k < |items| ensures !Kept(ReduceValue(ts, items[k])) {
          var o := ReduceValue(ts, items[k]);
          if Kept(o) {
            SurvivorsMember(ts, items, |items|, ls, o.value);
          }
        }
      }
  }

  /** A list the `"L"` branch returns holds exactly the scalar results of
      its items. */
  lemma ListElements(ts: TimestampParser, items: seq<Json>, ls: seq<Plain>, p: Plain)
    requires ReduceList(ts, JArr(items)) == Ok(PList(ls))
    ensures p in ls <==> exists k :: 0 <= k < |items| && ReduceValue(ts, items[k]) == Ok(p) && IsScalar(p)
  {
    SurvivorsMember(ts, items, |items|, ls, p);
  }

  // ---------------------------------------------------------------------
  // reduce_map: which entries survive, under which value (main.py:109-122)
  // ---------------------------------------------------------------------

  /** What the member `m` stores into the dict: its stripped key and its
      reduced value, or nothing when the key strips to "" or the value does
      not reduce. */
  function Stored(ts: TimestampParser, m: Member): (r: Option<Field>)
    ensures r.Some? <==> Trim(m.key) != "" && ReduceValue(ts, m.value).Ok?
    ensures r.Some? ==> r.value == Field(Trim(m.key), ReduceValue(ts, m.value).value)
  {
    var k := Trim(m.key);
    if k == "" then None
    else
      match ReduceValue(ts, m.value)
      case Ok(p) => Some(Field(k, p))
      case _ => None
  }

  /** The member `m` crashes the map loop: its key is non-empty once
      stripped and its value crashes. */
  ghost predicate Crashes(ts: TimestampParser, m: Member) {
    Trim(m.key) != "" && ReduceValue(ts, m.value).Crash?
  }

  /** One pass of the map loop: it crashes when the member does, and
      otherwise stores what `Stored` says. */
  lemma EnterStores(ts: TimestampParser, d: seq<Field>, m: Member)
    requires GoodFields(d)
    ensures Enter(ts, d, m) == None <==> Crashes(ts, m)
    ensures Enter(ts, d, m).Some? ==>
      Enter(ts, d, m).value == match Stored(ts, m) case None => d case Some(g) => Put(d, g.key, g.value)
  {
  }

  /** What the first `n` members store, in order. */
  ghost function StoredUpTo(ts: TimestampParser, ms: seq<Member>, n: nat): (ss: seq<Option<Field>>)
    requires n <= |ms|
    ensures |ss| == n && forall k :: 0 <= k < n ==> ss[k] == Stored(ts, ms[k])
  {
    if n == 0 then [] else StoredUpTo(ts, ms, n - 1) + [Stored(ts, ms[n - 1])]
  }

  /** `f` is the last pair stored under its key: Python's `d[key] = ...` keeps
      the last assignment. */
  ghost predicate LastIn(ss: seq<Option<Field>>, f: Field) {
    exists i :: 0 <= i < |ss| && ss[i] == Some(f) && forall j :: i < j < |ss| && ss[j].Some? ==> ss[j].value.key != f.key
  }

  /** A store under another key, or none, leaves what is last under `f.key`
      as it was. */
  lemma LastInSkip(ss: seq<Option<Field>>, x: Option<Field>, f: Field)
    requires x.None? || x.value.key != f.key
    ensures LastIn(ss + [x], f) <==> LastIn(ss, f)
  {
    var tt := ss + [x];
    if LastIn(tt, f) {
      var i :| 0 <= i < |tt| && tt[i] == Some(f) && forall j :: i < j < |tt| && tt[j].Some? ==> tt[j].value.key != f.key;
      assert i < |ss| && ss[i] == tt[i];
      assert forall j :: i < j < |ss| ==> ss[j] == tt[j];
    }
    if LastIn(ss, f) {
      var i :| 0 <= i < |ss| && ss[i] == Some(f) && forall j :: i < j < |ss| && ss[j].Some? ==> ss[j].value.key != f.key;
      assert tt[i] == ss[i];
      assert forall j :: i < j < |ss| ==> ss[j] == tt[j];
    }
  }

  /** A store of `g` makes `g` the last pair under its key. */
  lemma LastInHere(ss: seq<Option<Field>>, g: Field, f: Field)
    requires f.key == g.key
    ensures LastIn(ss + [Some(g)], f) <==> f == g
  {
    var tt := ss + [Some(g)];
    if LastIn(tt, f) {
      var i :| 0 <= i < |tt| && tt[i] == Some(f) && forall j :: i < j < |tt| && tt[j].Some? ==> tt[j].value.key != f.key;
      assert tt[|ss|] == Some(g);
    }
    if f == g {
      assert tt[|ss|] == Some(f);
    }
  }

  /** The dict built from the first `n` members holds `f` exactly when `f`
      is the last pair they stored under its key. */
  lemma {:induction false} CollectFields(ts: TimestampParser, ms: seq<Member>, n: nat, d: seq<Field>, f: Field)
    requires n <= |ms| && Collect(ts, ms, n) == Some(d)
    ensures f in d <==> LastIn(StoredUpTo(ts, ms, n), f)
  {
    if n > 0 {
      var prev := Collect(ts, ms, n - 1).value;
      CollectFields(ts, ms, n - 1, prev, f);
      var ss := StoredUpTo(ts, ms, n - 1);
      var x := Stored(ts, ms[n - 1]);
      assert StoredUpTo(ts, ms, n) == ss + [x];
      EnterStores(ts, prev, ms[n - 1]);
      if x.None? {
        LastInSkip(ss, x, f);
      } else {
        var g := x.value;
        PutFields(prev, g.key, g.value, f);
        if f.key == g.key {
          LastInHere(ss, g, f);
        } else {
          LastInSkip(ss, x, f);
        }
      }
    }
  }

  /** The map loop crashes exactly when a member with a non-empty stripped
      key crashes. */
  lemma {:induction false} CollectCrash(ts: TimestampParser, ms: seq<Member>, n: nat)
    requires n <= |ms|
    ensures Collect(ts, ms, n) == None <==> exists k :: 0 <= k < n && Crashes(ts, ms[k])
  {
    if n > 0 {
      CollectCrash(ts, ms, n - 1);
      CollectStep(ts, ms, n);
      if !Crashes(ts, ms[n - 1]) && Collect(ts, ms, n - 1).Some? {
        forall k | 0 <= k < n ensures !Crashes(ts, ms[k]) {
        }
      }
    }
  }

  /** One more member crashes the map loop exactly when the loop has
      crashed already or the member crashes. */
  lemma CollectStep(ts: TimestampParser, ms: seq<Member>, n: nat)
    requires 0 < n <= |ms|
    ensures Collect(ts, ms, n) == None <==> Collect(ts, ms, n - 1) == None || Crashes(ts, ms[n - 1])
  {
    var c := Collect(ts, ms, n - 1);
    if c.Some? {
      EnterStores(ts, c.value, ms[n - 1]);
    }
  }

  /** The dict built from the first `n` members is empty exactly when none
      of them has a non-empty stripped key and a value that reduces. */
  lemma {:induction false} CollectEmpty(ts: TimestampParser, ms: seq<Member>, n: nat, d: seq<Field>)
    requires n <= |ms| && Collect(ts, ms, n) == Some(d)
    ensures d == [] <==> forall k :: 0 <= k < n ==> Stored(ts, ms[k]).None?
  {
    if n > 0 {
      var prev := Collect(ts, ms, n - 1).value;
      CollectEmpty(ts, ms, n - 1, prev);
      EnterStores(ts, prev, ms[n - 1]);
      assert d == Enter(ts, prev, ms[n - 1]).value;
      var x := Stored(ts, ms[n - 1]);
      if x.Some? {
        assert |Keys(d)| > 0;
      }
    }
  }

  /** `reduce_map` crashes exactly when a member with a non-empty stripped
      key crashes. */
  lemma MapCrash(ts: TimestampParser, ms: seq<Member>)
    ensures ReduceMap(ts, JObj(ms)) == Crash <==>
      exists k :: 0 <= k < |ms| && Trim(ms[k].key) != "" && ReduceValue(ts, ms[k].value).Crash?
  {
    CollectCrash(ts, ms, |ms|);
  }

  /** `reduce_map` raises `ValueError` on an object exactly when every member
      has a key that strips to "" or a value that raises `ValueError`. */
  lemma MapFail(ts: TimestampParser, ms: seq<Member>)
    ensures ReduceMap(ts, JObj(ms)) == Fail <==>
      forall k :: 0 <= k < |ms| ==> Trim(ms[k].key) == "" || ReduceValue(ts, ms[k].value).Fail?
  {
    CollectCrash(ts, ms, |ms|);
    match Collect(ts, ms, |ms|)
    case None =>
    case Some(d) => CollectEmpty(ts, ms, |ms|, d);
  }

  /** A dict `reduce_map` returns has its keys in ascending order and holds
      `f` exactly when `f` is the last pair its members stored under
      `f.key`. */
  lemma MapFields(ts: TimestampParser, ms: seq<Member>, s: seq<Field>, f: Field)
    requires ReduceMap(ts, JObj(ms)) == Ok(PMap(s))
    ensures Ascending(s)
    ensures f in s <==> LastIn(StoredUpTo(ts, ms, |ms|), f)
  {
    MapSortsCollected(ts, ms, s);
    var d := Collect(ts, ms, |ms|).value;
    SortByKeyAscending(d);
    assert f in s <==> f in multiset(d);
    CollectFields(ts, ms, |ms|, d, f);
  }

  /** A pair stored at some point leaves a last pair under its key. */
  lemma {:induction false} LastInExists(ss: seq<Option<Field>>, i: nat, g: Field)
    requires i < |ss| && ss[i] == Some(g)
    ensures exists f :: LastIn(ss, f) && f.key == g.key
    decreases |ss|
  {
    var last := |ss| - 1;
    var init := ss[..last];
    assert ss == init + [ss[last]];
    if ss[last].Some? && ss[last].value.key == g.key {
      assert LastIn(ss, ss[last].value);
    } else {
      LastInExists(init, i, g);
      var f :| LastIn(init, f) && f.key == g.key;
      LastInSkip(init, ss[last], f);
    }
  }

  /** The keys of a dict `reduce_map` returns are exactly the non-empty
      stripped keys of the members whose values reduce. */
  lemma MapKeys(ts: TimestampParser, ms: seq<Member>, s: seq<Field>, key: string)
    requires ReduceMap(ts, JObj(ms)) == Ok(PMap(s))
    ensures (exists f :: f in s && f.key == key) <==>
      key != "" && exists k :: 0 <= k < |ms| && Trim(ms[k].key) == key && ReduceValue(ts, ms[k].value).Ok?
  {
    var ss := StoredUpTo(ts, ms, |ms|);
    if f :| f in s && f.key == key {
      MapFields(ts, ms, s, f);
      var i :| 0 <= i < |ss| && ss[i] == Some(f) && forall j :: i < j < |ss| && ss[j].Some? ==> ss[j].value.key != f.key;
      assert Stored(ts, ms[i]) == Some(f);
    }
    if key != "" && exists k :: 0 <= k < |ms| && Trim(ms[k].key) == key && ReduceValue(ts, ms[k].value).Ok? {
      var k :| 0 <= k < |ms| && Trim(ms[k].key) == key && ReduceValue(ts, ms[k].value).Ok?;
      LastInExists(ss, k, Stored(ts, ms[k]).value);
      var f :| LastIn(ss, f) && f.key == key;
      MapFields(ts, ms, s, f);
    }
  }

  /** A dict `reduce_map` returns is the dict its loop built, sorted. */
  lemma MapSortsCollected(ts: TimestampParser, ms: seq<Member>, s: seq<Field>)
    requires ReduceMap(ts, JObj(ms)) == Ok(PMap(s))
    ensures Collect(ts, ms, |ms|).Some? && s == SortByKey(Collect(ts, ms, |ms|).value)
  {
    var c := Collect(ts, ms, |ms|);
    if c.None? || c.value == [] {
      assert false;
    } else {
      assert ReduceMap(ts, JObj(ms)) == Ok(PMap(SortByKey(c.value)));
    }
  }

  // ---------------------------------------------------------------------
  // None in a map and in a list (main.py:87-88 against main.py:116)
  // ---------------------------------------------------------------------

  /** `{"NULL": s}` with a truthy `s` reduces to `None`: a map keeps it under
      its stripped key, while a list drops it, so a list of only such items
      is a `ValueError`. */
  lemma NullKeptInMapDroppedFromList(ts: TimestampParser, key: string, s: string)
    requires Trim(key) != "" && Trim(s) in BoolTruthValues
    ensures ReduceMap(ts, JObj([Member(key, JObj([Member("NULL", JStr(s))]))])) == Ok(PMap([Field(Trim(key), PNull)]))
    ensures ReduceList(ts, JArr([JObj([Member("NULL", JStr(s))])])) == Fail
  {
    var v := JObj([Member("NULL", JStr(s))]);
    assert Trim("NULL") == "NULL" by {
      assert TrimLeft("NULL") == "NULL";
      assert TrimRight("NULL") == "NULL";
    }
    NullRule(ts, s);
    FirstTagStops(ts, v.members, 0);
    assert ReduceValue(ts, v) == Ok(PNull);
    var ms := [Member(key, v)];
    assert Collect(ts, ms, 1) == Some([Field(Trim(key), PNull)]);
    assert Survivors(ts, [v], 1) == Some([]);
  }
}
