/** Text helpers standing in for the Python `str` methods the reducer calls:
    `strip`, `isdigit`/`isnumeric`, `replace(c, "", 1)`, `int(...)` on a digit
    string, and the code-point ordering `sorted` uses on keys.
    Whitespace and digits are the ASCII ones. */
module Text {

  /** Python's `str.isspace` restricted to ASCII: space, \t \n \v \f \r and
      the four separators \x1c-\x1f. */
  predicate IsSpace(c: char) {
    var n := c as int;
    n == 32 || 9 <= n <= 13 || 28 <= n <= 31
  }

  ghost predicate AllSpace(s: string) {
    forall i :: 0 <= i < |s| ==> IsSpace(s[i])
  }

  /** `s.lstrip()` */
  function TrimLeft(s: string): (r: string)
    ensures |r| <= |s|
    ensures r == [] || !IsSpace(r[0])
  {
    if |s| > 0 && IsSpace(s[0]) then TrimLeft(s[1..]) else s
  }

  /** `s.rstrip()` */
  function TrimRight(s: string): (r: string)
    ensures |r| <= |s|
    ensures r == [] || !IsSpace(r[|r| - 1])
  {
    if |s| > 0 && IsSpace(s[|s| - 1]) then TrimRight(s[..|s| - 1]) else s
  }

  /** `lstrip` removes a prefix of whitespace and nothing else. */
  lemma {:induction false} TrimLeftIsSuffix(s: string)
    ensures s[|s| - |TrimLeft(s)|..] == TrimLeft(s)
    ensures AllSpace(s[..|s| - |TrimLeft(s)|])
  {
    if |s| > 0 && IsSpace(s[0]) {
      TrimLeftIsSuffix(s[1..]);
    }
  }

  /** `rstrip` removes a suffix of whitespace and nothing else. */
  lemma {:induction false} TrimRightIsPrefix(s: string)
    ensures s[..|TrimRight(s)|] == TrimRight(s)
    ensures AllSpace(s[|TrimRight(s)|..])
  {
    if |s| > 0 && IsSpace(s[|s| - 1]) {
      var t := s[..|s| - 1];
      TrimRightIsPrefix(t);
      var r := TrimRight(t);
      assert s[|r|..] == t[|r|..] + [s[|s| - 1]];
    }
  }

  /** Where `s.strip()` starts: the number of leading whitespace
      characters. */
  function TrimStart(s: string): (i: nat)
    ensures i <= |s|
  {
    |s| - |TrimLeft(s)|
  }

  /** `s.strip()` */
  function Trim(s: string): (r: string)
    ensures |r| <= |s|
    ensures r == [] || (!IsSpace(r[0]) && !IsSpace(r[|r| - 1]))
  {
    var r := TrimRight(TrimLeft(s));
    assert r != [] ==> r[0] == TrimLeft(s)[0] by {
      TrimRightIsPrefix(TrimLeft(s));
    }
    r
  }

  /** `s.strip()` is the infix of `s` left once the whitespace on both sides
      is removed. */
  lemma TrimIsInfix(s: string)
    ensures TrimStart(s) + |Trim(s)| <= |s|
    ensures s[TrimStart(s)..TrimStart(s) + |Trim(s)|] == Trim(s)
    ensures AllSpace(s[..TrimStart(s)]) && AllSpace(s[TrimStart(s) + |Trim(s)|..])
  {
    var l := TrimLeft(s);
    var r := Trim(s);
    var i := TrimStart(s);
    TrimLeftIsSuffix(s);
    TrimRightIsPrefix(l);
    assert l == s[i..];
    assert s[i + |r|..] == l[|r|..];
  }

  /** Stripping twice is stripping once. */
  lemma TrimIdempotent(s: string)
    ensures Trim(Trim(s)) == Trim(s)
  {
    var t := Trim(s);
    assert TrimLeft(t) == t;
    assert TrimRight(t) == t;
  }

  const Digits: set<char> := set c: char | '0' <= c <= '9'

  /** Every character of `s` is in `chars`. */
  predicate AllIn(s: string, chars: set<char>) {
    forall i :: 0 <= i < |s| ==> s[i] in chars
  }

  lemma AllInAppend(a: string, b: string, chars: set<char>)
    ensures AllIn(a + b, chars) <==> AllIn(a, chars) && AllIn(b, chars)
  {
    if AllIn(a, chars) && AllIn(b, chars) {
      forall i | 0 <= i < |a + b| ensures (a + b)[i] in chars {
        if i >= |a| {
          assert (a + b)[i] == b[i - |a|];
        }
      }
    }
    if AllIn(a + b, chars) {
      forall i | 0 <= i < |a| ensures a[i] in chars {
        assert (a + b)[i] == a[i];
      }
      forall i | 0 <= i < |b| ensures b[i] in chars {
        assert (a + b)[|a| + i] == b[i];
      }
    }
  }

  /** A character that does not occur need not be allowed. */
  lemma AllInNarrow(s: string, chars: set<char>, c: char)
    requires AllIn(s, chars + {c}) && c !in s
    ensures AllIn(s, chars)
  {
    forall i | 0 <= i < |s| ensures s[i] in chars {
      assert s[i] in s;
    }
  }

  /** `s.isdigit()` (and `s.isnumeric()`) for ASCII text: false on "". */
  predicate IsDigitString(s: string) {
    |s| > 0 && AllIn(s, Digits)
  }

  /** The number of occurrences of `c` in `s`. */
  function Count(s: string, c: char): (n: nat)
    ensures n <= |s|
    ensures n == 0 <==> c !in s
  {
    if s == [] then 0 else (if s[0] == c then 1 else 0) + Count(s[1..], c)
  }

  lemma {:induction false} CountAppend(a: string, b: string, c: char)
    ensures Count(a + b, c) == Count(a, c) + Count(b, c)
  {
    if a != [] {
      assert (a + b)[1..] == a[1..] + b;
      CountAppend(a[1..], b, c);
    } else {
      assert a + b == b;
    }
  }

  /** `s.replace(c, "", 1)`: `s` without its first occurrence of `c`. */
  function RemoveFirst(s: string, c: char): (r: string)
  {
    if s == [] then []
    else if s[0] == c then s[1..]
    else [s[0]] + RemoveFirst(s[1..], c)
  }

  lemma RemoveFirstAbsent(s: string, c: char)
    requires c !in s
    ensures RemoveFirst(s, c) == s
  {
    if s != [] {
      assert s[1..] == s[1..];
      RemoveFirstAbsent(s[1..], c);
    }
  }

  /** Removing the first `c` takes exactly one `c` away, if there is one, and
      no other character. */
  lemma {:induction false} RemoveFirstCounts(s: string, c: char, d: char)
    ensures |RemoveFirst(s, c)| == |s| - (if c in s then 1 else 0)
    ensures Count(RemoveFirst(s, c), d) == Count(s, d) - (if c == d && c in s then 1 else 0)
  {
    if s != [] && s[0] != c {
      RemoveFirstCounts(s[1..], c, d);
      assert ([s[0]] + RemoveFirst(s[1..], c))[1..] == RemoveFirst(s[1..], c);
    }
  }

  /** After removing the first `c` (not itself allowed), only allowed
      characters remain exactly when `s` held allowed characters and at most
      one `c`. */
  lemma {:induction false} RemoveFirstAllIn(s: string, c: char, chars: set<char>)
    requires c !in chars
    ensures AllIn(RemoveFirst(s, c), chars) <==> AllIn(s, chars + {c}) && Count(s, c) <= 1
  {
    if s != [] {
      RemoveFirstAllIn(s[1..], c, chars);
      if s[0] == c {
        assert s[1..] == RemoveFirst(s, c);
        if AllIn(s[1..], chars) {
          assert c !in s[1..];
        }
        if AllIn(s, chars + {c}) && Count(s, c) <= 1 {
          assert c !in s[1..];
          forall i | 0 <= i < |s[1..]| ensures s[1..][i] in chars {
            assert s[1..][i] == s[i + 1];
            assert s[1..][i] in s[1..];
          }
        }
      } else {
        var r := RemoveFirst(s, c);
        assert r == [s[0]] + RemoveFirst(s[1..], c);
        assert r[1..] == RemoveFirst(s[1..], c);
        if AllIn(r, chars) {
          assert r[0] in chars;
          forall i | 0 <= i < |s| ensures s[i] in chars + {c} {
            if i > 0 {
              assert s[i] == s[1..][i - 1];
            }
          }
        }
        if AllIn(s, chars + {c}) && Count(s, c) <= 1 {
          assert s[0] in chars;
          forall i | 0 <= i < |s[1..]| ensures s[1..][i] in chars + {c} {
            assert s[1..][i] == s[i + 1];
          }
          forall i | 0 <= i < |r| ensures r[i] in chars {
            if i > 0 {
              assert r[i] == r[1..][i - 1];
            }
          }
        }
      }
    }
  }

  /** The position of the first `c` in `s`, or `|s|` when there is none. */
  function IndexOf(s: string, c: char): (k: nat)
    ensures k <= |s|
    ensures c !in s[..k]
    ensures k < |s| ==> s[k] == c
    ensures k == |s| <==> c !in s
  {
    if s == [] then 0
    else if s[0] == c then 0
    else
      var k := 1 + IndexOf(s[1..], c);
      assert s[..k] == [s[0]] + s[1..][..k - 1];
      k
  }

  function DigitValue(c: char): (v: nat)
    requires c in Digits
    ensures v < 10
  {
    c as int - '0' as int
  }

  /** The decimal number a digit string denotes (0 for ""), as `int(s)`
      computes it; leading zeros add nothing. */
  function DigitsValue(s: string): (v: nat)
    requires AllIn(s, Digits)
  {
    if s == [] then 0 else DigitsValue(s[..|s| - 1]) * 10 + DigitValue(s[|s| - 1])
  }

  function DigitChar(d: nat): (c: char)
    requires d < 10
    ensures c in Digits && DigitValue(c) == d
  {
    ('0' as int + d) as char
  }

  /** `str(n)` for a natural number: its shortest decimal digit string. */
  function ShowNat(n: nat): (s: string)
    ensures IsDigitString(s)
    ensures s[0] == '0' ==> n == 0
  {
    if n < 10 then [DigitChar(n)] else ShowNat(n / 10) + [DigitChar(n % 10)]
  }

  /** Reading back a printed natural number gives the number. */
  lemma {:induction false} DigitsValueShowNat(n: nat)
    ensures DigitsValue(ShowNat(n)) == n
  {
    if n >= 10 {
      var s := ShowNat(n);
      assert s[..|s| - 1] == ShowNat(n / 10);
      DigitsValueShowNat(n / 10);
    }
  }

  /** A leading zero does not change the value of a digit string. */
  lemma {:induction false} DigitsValueLeadingZero(s: string)
    requires AllIn(s, Digits)
    ensures DigitsValue("0" + s) == DigitsValue(s)
  {
    if s != [] {
      var z := "0" + s;
      assert z[..|z| - 1] == "0" + s[..|s| - 1];
      DigitsValueLeadingZero(s[..|s| - 1]);
    }
  }

  /** Python's `<` on `str`: lexicographic by code point, a proper prefix
      first. */
  predicate LexLess(a: string, b: string)
    decreases |a|
  {
    if a == [] then b != []
    else if b == [] then false
    else if a[0] != b[0] then a[0] < b[0]
    else LexLess(a[1..], b[1..])
  }

  lemma {:induction false} LexLessIrreflexive(a: string)
    ensures !LexLess(a, a)
  {
    if a != [] {
      LexLessIrreflexive(a[1..]);
    }
  }

  lemma {:induction false} LexLessTransitive(a: string, b: string, c: string)
    requires LexLess(a, b) && LexLess(b, c)
    ensures LexLess(a, c)
  {
    if a != [] && b != [] && c != [] && a[0] == b[0] == c[0] {
      LexLessTransitive(a[1..], b[1..], c[1..]);
    }
  }

  /** Any two different strings are ordered one way or the other. */
  lemma {:induction false} LexLessTotal(a: string, b: string)
    requires a != b
    ensures LexLess(a, b) || LexLess(b, a)
  {
    if a != [] && b != [] && a[0] == b[0] {
      assert a == [a[0]] + a[1..] && b == [b[0]] + b[1..];
      LexLessTotal(a[1..], b[1..]);
    }
  }
}
