/** String helpers with the semantics of the Python string operations the
    engines use: code-point ordering and `sorted`, `str.join`, `str.split`
    on one separator character, `str.strip`, `str.lower` and decimal
    numerals. */
module Text {

  /** Python's `<` on strings: lexicographic by code point. */
  predicate LexLess(a: string, b: string)
    decreases |a|
  {
    if |a| == 0 then |b| > 0
    else if |b| == 0 then false
    else if a[0] != b[0] then a[0] < b[0]
    else LexLess(a[1..], b[1..])
  }

  lemma LexIrreflexive(a: string)
    ensures !LexLess(a, a)
  {
  }

  lemma {:induction false} LexTransitive(a: string, b: string, c: string)
    requires LexLess(a, b) && LexLess(b, c)
    ensures LexLess(a, c)
    decreases |a|
  {
    if |a| > 0 && |b| > 0 && |c| > 0 && a[0] == b[0] && b[0] == c[0] {
      LexTransitive(a[1..], b[1..], c[1..]);
    }
  }

  lemma {:induction false} LexTotal(a: string, b: string)
    ensures a == b || LexLess(a, b) || LexLess(b, a)
    decreases |a|
  {
    if |a| > 0 && |b| > 0 && a[0] == b[0] {
      LexTotal(a[1..], b[1..]);
      if a[1..] == b[1..] {
        assert a == [a[0]] + a[1..] && b == [b[0]] + b[1..];
      }
    }
  }

  lemma {:induction false} LexAsymmetric(a: string, b: string)
    requires LexLess(a, b)
    ensures !LexLess(b, a)
    decreases |a|
  {
    if |a| > 0 && |b| > 0 && a[0] == b[0] {
      LexAsymmetric(a[1..], b[1..]);
    }
  }

  predicate StrictlySorted(xs: seq<string>) {
    forall i, j :: 0 <= i < j < |xs| ==> LexLess(xs[i], xs[j])
  }

  predicate IsLeast(m: string, s: set<string>) {
    m in s && forall x :: x in s ==> x == m || LexLess(m, x)
  }

  lemma {:induction false} LeastExists(s: set<string>)
    requires s != {}
    ensures exists m :: IsLeast(m, s)
    decreases s
  {
    var y :| y in s;
    if s == {y} {
      assert IsLeast(y, s);
    } else {
      LeastExists(s - {y});
      var m :| IsLeast(m, s - {y});
      LexTotal(m, y);
      if LexLess(m, y) {
        assert IsLeast(m, s);
      } else {
        forall x | x in s
          ensures x == y || LexLess(y, x)
        {
          if x != y && x != m {
            LexTransitive(y, m, x);
          }
        }
        assert IsLeast(y, s);
      }
    }
  }

  lemma LeastUnique(s: set<string>)
    ensures forall a, b :: IsLeast(a, s) && IsLeast(b, s) ==> a == b
  {
    forall a, b | IsLeast(a, s) && IsLeast(b, s)
      ensures a == b
    {
      if a != b {
        LexAsymmetric(a, b);
      }
    }
  }

  /** `sorted(s)` for a set of strings: its elements, ascending. */
  function SortSet(s: set<string>): (r: seq<string>)
    ensures StrictlySorted(r)
    ensures forall x :: x in r <==> x in s
    ensures |r| == |s|
    decreases |s|
  {
    if s == {} then []
    else
      LeastExists(s);
      LeastUnique(s);
      var m :| IsLeast(m, s);
      var rest := SortSet(s - {m});
      assert forall k :: 0 <= k < |rest| ==> rest[k] in s - {m};
      [m] + rest
  }

  lemma SortedHead(a: seq<string>)
    requires StrictlySorted(a) && |a| > 0
    ensures forall x :: x in a ==> x == a[0] || LexLess(a[0], x)
    ensures forall x :: x in a[1..] ==> x != a[0]
  {
    forall x | x in a[1..]
      ensures x != a[0]
    {
      var k :| 0 <= k < |a[1..]| && a[1..][k] == x;
      assert LexLess(a[0], a[k + 1]);
      LexIrreflexive(a[0]);
    }
  }

  /** Two strictly sorted sequences with the same elements are equal. */
  lemma {:induction false} SortedUnique(a: seq<string>, b: seq<string>)
    requires StrictlySorted(a) && StrictlySorted(b)
    requires forall x :: x in a <==> x in b
    ensures a == b
    decreases |a|
  {
    if a != [] && b != [] {
      SortedHead(a);
      SortedHead(b);
      assert a[0] in b && b[0] in a;
      if a[0] != b[0] {
        LexAsymmetric(a[0], b[0]);
      }
      forall x
        ensures x in a[1..] <==> x in b[1..]
      {
        assert x in a <==> x in a[1..] || x == a[0];
        assert x in b <==> x in b[1..] || x == b[0];
      }
      SortedUnique(a[1..], b[1..]);
      assert a == [a[0]] + a[1..] && b == [b[0]] + b[1..];
    } else {
      SameElementsEmpty(a, b);
    }
  }

  lemma SameElementsEmpty(a: seq<string>, b: seq<string>)
    requires forall x :: x in a <==> x in b
    ensures a == [] <==> b == []
  {
    if a != [] {
      assert a[0] in b;
    }
    if b != [] {
      assert b[0] in a;
    }
  }

  /** `sep.join(xs)`. */
  function Join(xs: seq<string>, sep: string): string {
    if |xs| == 0 then ""
    else if |xs| == 1 then xs[0]
    else xs[0] + sep + Join(xs[1..], sep)
  }

  /** Index of the first occurrence of `d` in `s`. */
  function FirstIndex(s: string, d: char): (k: nat)
    requires d in s
    ensures k < |s| && s[k] == d && d !in s[..k]
  {
    if s[0] == d then 0 else 1 + FirstIndex(s[1..], d)
  }

  lemma {:induction false} FirstIndexIs(s: string, d: char, k: nat)
    requires k < |s| && s[k] == d && d !in s[..k]
    ensures FirstIndex(s, d) == k
  {
    if k > 0 {
      assert s[0] in s[..k];
      assert s[1..][..k - 1] == s[1..k];
      assert s[1..k] == s[..k][1..];
      FirstIndexIs(s[1..], d, k - 1);
    }
  }

  /** `s.split(d)` for a one-character separator: always at least one
      piece, and empty pieces between adjacent separators. */
  function Split(s: string, d: char): (r: seq<string>)
    ensures |r| >= 1
    ensures forall k :: 0 <= k < |r| ==> d !in r[k]
    decreases |s|
  {
    if d !in s then [s]
    else
      var k := FirstIndex(s, d);
      [s[..k]] + Split(s[k + 1..], d)
  }

  /** Splitting undoes joining, provided no piece contains the separator. */
  lemma {:induction false} SplitJoin(xs: seq<string>, d: char)
    requires |xs| >= 1
    requires forall k :: 0 <= k < |xs| ==> d !in xs[k]
    ensures Split(Join(xs, [d]), d) == xs
    decreases |xs|
  {
    if |xs| > 1 {
      var s := Join(xs, [d]);
      var tail := Join(xs[1..], [d]);
      assert s == xs[0] + [d] + tail;
      assert s[|xs[0]|] == d;
      assert s[..|xs[0]|] == xs[0];
      assert d in s;
      assert d !in s[..|xs[0]|];
      FirstIndexIs(s, d, |xs[0]|);
      var k := FirstIndex(s, d);
      assert s[k + 1..] == tail;
      SplitJoin(xs[1..], d);
    }
  }

  /** Joining undoes splitting. */
  lemma {:induction false} JoinSplit(s: string, d: char)
    ensures Join(Split(s, d), [d]) == s
    decreases |s|
  {
    if d in s {
      var k := FirstIndex(s, d);
      var pieces := Split(s, d);
      var rest := Split(s[k + 1..], d);
      JoinSplit(s[k + 1..], d);
      assert pieces == [s[..k]] + rest;
      assert pieces[1..] == rest;
      assert Join(pieces, [d]) == s[..k] + [d] + s[k + 1..];
      assert s == s[..k] + [d] + s[k + 1..];
    }
  }

  /** Characters `str.strip()` removes: those `str.isspace` accepts. */
  predicate IsSpace(c: char) {
    var k := c as int;
    || (9 <= k <= 13) || (28 <= k <= 32) || k == 0x85 || k == 0xA0 || k == 0x1680
    || (0x2000 <= k <= 0x200A) || k == 0x2028 || k == 0x2029 || k == 0x202F
    || k == 0x205F || k == 0x3000
  }

  function StripLeft(s: string): (r: string)
    ensures |r| <= |s|
    ensures |r| > 0 ==> !IsSpace(r[0])
  {
    if |s| > 0 && IsSpace(s[0]) then StripLeft(s[1..]) else s
  }

  function StripRight(s: string): (r: string)
    ensures |r| <= |s|
    ensures |r| > 0 ==> !IsSpace(r[|r| - 1])
  {
    if |s| > 0 && IsSpace(s[|s| - 1]) then StripRight(s[..|s| - 1]) else s
  }

  /** `s.strip()`. */
  function Strip(s: string): string {
    StripRight(StripLeft(s))
  }

  /** Right-stripping keeps a prefix. */
  lemma {:induction false} StripRightPrefix(s: string)
    ensures StripRight(s) == s[..|StripRight(s)|]
    decreases |s|
  {
    if |s| > 0 && IsSpace(s[|s| - 1]) {
      StripRightPrefix(s[..|s| - 1]);
    }
  }

  /** Stripping twice strips nothing more. */
  lemma StripIdempotent(s: string)
    ensures Strip(Strip(s)) == Strip(s)
  {
    var u := StripLeft(s);
    var v := StripRight(u);
    StripRightPrefix(u);
    if |v| > 0 {
      assert v[0] == u[0];
    }
    assert StripLeft(v) == v;
  }

  /** `c.lower()` on the capitals of ASCII, Latin-1, Latin Extended-A and
      Latin Extended Additional, and on the Vietnamese 'Ơ' and 'Ư'. In the
      extended blocks a capital and its small letter are neighbours. */
  function ToLower(c: char): (r: char) {
    var k := c as int;
    if 'A' <= c <= 'Z' then (k + 32) as char
    else if 'À' <= c <= 'Þ' && c != '×' then (k + 32) as char
    else if (0x100 <= k <= 0x12F || 0x132 <= k <= 0x137 || 0x14A <= k <= 0x177) && k % 2 == 0 then (k + 1) as char
    else if (0x139 <= k <= 0x148 || 0x179 <= k <= 0x17E) && k % 2 == 1 then (k + 1) as char
    else if k == 0x178 then 0xFF as char
    else if k == 0x1A0 || k == 0x1AF then (k + 1) as char
    else if (0x1E00 <= k <= 0x1E95 || 0x1EA0 <= k <= 0x1EFF) && k % 2 == 0 then (k + 1) as char
    else if k == 0x1E9E then 0xDF as char
    else c
  }

  predicate IsDigit(c: char) {
    '0' <= c <= '9'
  }

  predicate AllDigits(s: string) {
    forall k :: 0 <= k < |s| ==> IsDigit(s[k])
  }

  /** A concatenation is all digits exactly when both parts are. */
  lemma AllDigitsConcat(a: string, b: string)
    ensures AllDigits(a + b) <==> AllDigits(a) && AllDigits(b)
  {
    assert forall i :: 0 <= i < |a| ==> (a + b)[i] == a[i];
    assert forall i :: 0 <= i < |b| ==> (a + b)[|a| + i] == b[i];
    if AllDigits(a) && AllDigits(b) {
      forall i | |a| <= i < |a + b|
        ensures IsDigit((a + b)[i])
      {
        assert (a + b)[i] == b[i - |a|];
      }
    }
  }

  function DigitValue(c: char): nat
    requires IsDigit(c)
  {
    (c as int) - ('0' as int)
  }

  /** The value of a string of decimal digits (0 for the empty string). */
  function DigitsValue(s: string): nat
    requires AllDigits(s)
  {
    if s == [] then 0 else 10 * DigitsValue(s[..|s| - 1]) + DigitValue(s[|s| - 1])
  }

  function DigitChar(d: nat): (c: char)
    requires d < 10
    ensures IsDigit(c) && DigitValue(c) == d
  {
    ((d + '0' as int) as char)
  }

  /** `str(n)` for a natural number: decimal, no leading zeros. */
  function NatToString(n: nat): (r: string)
    ensures |r| > 0 && AllDigits(r)
    ensures DigitsValue(r) == n
  {
    if n < 10 then [DigitChar(n)]
    else
      var r := NatToString(n / 10) + [DigitChar(n % 10)];
      assert r[..|r| - 1] == NatToString(n / 10);
      r
  }

  /** Distinct numbers print differently. */
  lemma NatToStringInjective(m: nat, n: nat)
    requires NatToString(m) == NatToString(n)
    ensures m == n
  {
  }

  /** `s.replace(d, "", 1)`: drop the first occurrence of `d`, if any. */
  function RemoveFirst(s: string, d: char): (r: string)
    ensures d !in s ==> r == s
    ensures d in s ==> |r| == |s| - 1
  {
    if d !in s then s
    else
      var k := FirstIndex(s, d);
      s[..k] + s[k + 1..]
  }

  /** Removing the first `d`, when it stands at `k`. */
  lemma RemoveFirstAt(s: string, d: char, k: nat)
    requires k < |s| && s[k] == d && d !in s[..k]
    ensures RemoveFirst(s, d) == s[..k] + s[k + 1..]
  {
    FirstIndexIs(s, d, k);
  }
}
