/** The Python `dict` that `reduce_map` fills (main.py:109-118) and the sorted
    copy it returns (main.py:122). A dict is its fields in insertion order
    with pairwise different keys. */
module Dict {
  import opened Text
  import opened Values

  /** The keys of `d`, in order. */
  function Keys(d: seq<Field>): (ks: seq<string>)
    ensures |ks| == |d| && forall i :: 0 <= i < |d| ==> ks[i] == d[i].key
  {
    if d == [] then [] else [d[0].key] + Keys(d[1..])
  }

  /** `d[key] = v`: the field of `key` gets the new value in place, or a new
      field is appended at the end. */
  function Put(d: seq<Field>, key: string, v: Plain): (r: seq<Field>)
    ensures Keys(r) == if key in Keys(d) then Keys(d) else Keys(d) + [key]
  {
    if d == [] then [Field(key, v)]
    else if d[0].key == key then [Field(key, v)] + d[1..]
    else
      var r := [d[0]] + Put(d[1..], key, v);
      assert Keys(d) == [d[0].key] + Keys(d[1..]);
      assert Keys(r) == [d[0].key] + Keys(Put(d[1..], key, v));
      r
  }

  /** Assigning into a dict keeps its keys unique. */
  lemma PutUnique(d: seq<Field>, key: string, v: Plain)
    requires UniqueKeys(d)
    ensures UniqueKeys(Put(d, key, v))
  {
    var r := Put(d, key, v);
    var ks := Keys(r);
    assert forall i :: 0 <= i < |r| ==> r[i].key == ks[i];
    assert forall i :: 0 <= i < |d| ==> d[i].key == Keys(d)[i];
    if key in Keys(d) {
      assert ks == Keys(d);
    } else {
      forall i, j | 0 <= i < j < |r| ensures r[i].key != r[j].key {
        if j == |r| - 1 {
          assert ks[i] == Keys(d)[i];
          assert ks[i] in Keys(d);
        }
      }
    }
  }

  /** After `d[key] = v`, `key` holds `v` and every other field of `d` is
      still there. */
  lemma {:induction false} PutFields(d: seq<Field>, key: string, v: Plain, f: Field)
    requires UniqueKeys(d)
    ensures f in Put(d, key, v) <==> f == Field(key, v) || (f in d && f.key != key)
  {
    if d != [] && d[0].key != key {
      assert UniqueKeys(d[1..]);
      PutFields(d[1..], key, v, f);
      assert d == [d[0]] + d[1..];
    } else if d != [] {
      assert d == [d[0]] + d[1..];
      assert forall g :: g in d[1..] ==> g.key != key by {
        forall g | g in d[1..] ensures g.key != key {
          var k :| 0 <= k < |d[1..]| && d[1..][k] == g;
          assert d[k + 1] == g;
        }
      }
    }
  }

  /** Inserts `f` into the ascending `s` before the first key above its own. */
  function Insert(s: seq<Field>, f: Field): (r: seq<Field>)
    ensures multiset(r) == multiset(s) + multiset{f}
  {
    if s == [] then [f]
    else if LexLess(f.key, s[0].key) then [f] + s
    else
      assert s == [s[0]] + s[1..];
      [s[0]] + Insert(s[1..], f)
  }

  /** Inserting a new key into an ascending dict keeps it ascending. */
  lemma {:induction false} InsertAscending(s: seq<Field>, f: Field)
    requires Ascending(s)
    requires forall g :: g in s ==> g.key != f.key
    ensures Ascending(Insert(s, f))
  {
    if s == [] {
    } else if LexLess(f.key, s[0].key) {
      var r := [f] + s;
      forall j | 1 <= j < |r| ensures LexLess(f.key, r[j].key) {
        if j > 1 {
          LexLessTransitive(f.key, s[0].key, s[j - 1].key);
        }
      }
    } else {
      var rest := Insert(s[1..], f);
      var r := [s[0]] + rest;
      assert s[1..] == s[1..];
      InsertAscending(s[1..], f);
      LexLessTotal(f.key, s[0].key);
      forall j | 1 <= j < |r| ensures LexLess(s[0].key, r[j].key) {
        assert r[j] in multiset(rest);
        if r[j] != f {
          assert r[j] in multiset(s[1..]);
          var k :| 0 <= k < |s[1..]| && s[1..][k] == r[j];
          assert s[k + 1] == r[j];
        }
      }
    }
  }

  /** `sorted` on the keys, carrying the values along. */
  function SortByKey(d: seq<Field>): (r: seq<Field>)
    ensures multiset(r) == multiset(d)
  {
    if d == [] then []
    else
      assert d == [d[0]] + d[1..];
      Insert(SortByKey(d[1..]), d[0])
  }

  /** Sorting a dict with unique keys gives strictly ascending keys. */
  lemma {:induction false} SortByKeyAscending(d: seq<Field>)
    requires UniqueKeys(d)
    ensures Ascending(SortByKey(d))
  {
    if d != [] {
      var rest := SortByKey(d[1..]);
      assert d == [d[0]] + d[1..];
      SortByKeyAscending(d[1..]);
      forall g | g in rest ensures g.key != d[0].key {
        assert g in multiset(d[1..]);
        var k :| 0 <= k < |d[1..]| && d[1..][k] == g;
        assert d[k + 1] == g;
      }
      InsertAscending(rest, d[0]);
    }
  }
}
