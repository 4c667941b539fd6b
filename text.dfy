/**
 * String helpers used by the renderer: the default ordering of
 * `Array.prototype.sort` on strings (plain lexicographic order on
 * characters), the sorted key list of an object, the decimal form of
 * integers, and the anchored prefix replacement `replace(/^json-/, ...)`.
 */
module Text {

  /** Lexicographic "at most" on strings: the order the default `sort()` uses. */
  predicate LexLe(a: string, b: string) {
    if a == [] then true
    else if b == [] then false
    else if a[0] != b[0] then a[0] < b[0]
    else LexLe(a[1..], b[1..])
  }

  /** Strict lexicographic order. */
  predicate LexLt(a: string, b: string) {
    LexLe(a, b) && a != b
  }

  lemma {:induction false} LexLeRefl(a: string)
    ensures LexLe(a, a)
  {
    if a != [] { LexLeRefl(a[1..]); }
  }

  lemma {:induction false} LexLeAntisym(a: string, b: string)
    requires LexLe(a, b) && LexLe(b, a)
    ensures a == b
  {
    if a != [] && b != [] {
      LexLeAntisym(a[1..], b[1..]);
    }
  }

  lemma {:induction false} LexLeTrans(a: string, b: string, c: string)
    requires LexLe(a, b) && LexLe(b, c)
    ensures LexLe(a, c)
  {
    if a != [] && b != [] && c != [] && a[0] == b[0] && b[0] == c[0] {
      LexLeTrans(a[1..], b[1..], c[1..]);
    }
  }

  lemma {:induction false} LexLeTotal(a: string, b: string)
    ensures LexLe(a, b) || LexLe(b, a)
  {
    if a != [] && b != [] && a[0] == b[0] {
      LexLeTotal(a[1..], b[1..]);
    }
  }

  /** The order compares text, not numeric value: "10" sorts before "2". */
  lemma TenBeforeTwo()
    ensures LexLt("10", "2") && !LexLe("2", "10")
  {
  }

  predicate IsLeast(k: string, s: set<string>) {
    k in s && forall j :: j in s ==> LexLe(k, j)
  }

  lemma {:induction false} LeastExists(s: set<string>)
    requires s != {}
    ensures exists k :: IsLeast(k, s)
  {
    var x :| x in s;
    if s == {x} {
      LexLeRefl(x);
      assert IsLeast(x, s);
    } else {
      LeastExists(s - {x});
      var k :| IsLeast(k, s - {x});
      LexLeTotal(k, x);
      if LexLe(k, x) {
        assert IsLeast(k, s);
      } else {
        forall j | j in s ensures LexLe(x, j) {
          if j == x { LexLeRefl(x); } else { LexLeTrans(x, k, j); }
        }
        assert IsLeast(x, s);
      }
    }
  }

  lemma LeastUnique(s: set<string>)
    ensures forall k, k' :: IsLeast(k, s) && IsLeast(k', s) ==> k == k'
  {
    forall k, k' | IsLeast(k, s) && IsLeast(k', s) ensures k == k' {
      LexLeAntisym(k, k');
    }
  }

  /** The least element of a non-empty set of strings. */
  function Least(s: set<string>): (k: string)
    requires s != {}
    ensures k in s && forall j :: j in s ==> LexLe(k, j)
  {
    LeastExists(s);
    LeastUnique(s);
    var k :| IsLeast(k, s);
    k
  }

  predicate StrictlySorted(ks: seq<string>) {
    forall i, j :: 0 <= i < j < |ks| ==> LexLt(ks[i], ks[j])
  }

  /**
   * `Object.keys(o).sort()`: the keys of an object in ascending string
   * order. Whatever order the keys were enumerated in, the result is the
   * same (see SortedIsCanonical).
   */
  function SortedKeys(s: set<string>): (r: seq<string>)
    ensures |r| == |s|
    ensures forall k :: k in r <==> k in s
    ensures StrictlySorted(r)
    decreases |s|
  {
    if s == {} then []
    else
      var k := Least(s);
      var rest := SortedKeys(s - {k});
      assert forall i :: 0 <= i < |rest| ==> LexLt(k, rest[i]) by {
        forall i | 0 <= i < |rest| ensures LexLt(k, rest[i]) {
          assert rest[i] in s - {k};
        }
      }
      [k] + rest
  }

  /**
   * Any strictly sorted enumeration of a key set is the sorted key list:
   * the produced order does not depend on the order the keys came in.
   */
  lemma {:induction false} SortedUnique(a: seq<string>, b: seq<string>)
    requires StrictlySorted(a) && StrictlySorted(b)
    requires forall k :: k in a <==> k in b
    ensures a == b
  {
    assert a == [] <==> b == [] by {
      if a != [] { assert a[0] in b; }
      if b != [] { assert b[0] in a; }
    }
    if a != [] {
      assert a[0] in b;
      var j :| 0 <= j < |b| && b[j] == a[0];
      assert b[0] in a;
      var i :| 0 <= i < |a| && a[i] == b[0];
      assert LexLe(b[0], a[0]) by {
        if j > 0 { assert LexLt(b[0], b[j]); } else { LexLeRefl(a[0]); }
      }
      assert LexLe(a[0], b[0]) by {
        if i > 0 { assert LexLt(a[0], a[i]); } else { LexLeRefl(a[0]); }
      }
      LexLeAntisym(a[0], b[0]);
      forall k ensures k in a[1..] <==> k in b[1..] {
        if k in a[1..] {
          var x :| 1 <= x < |a| && a[x] == k;
          assert LexLt(a[0], a[x]);
          assert k in b;
          var y :| 0 <= y < |b| && b[y] == k;
          assert y != 0;
          assert b[1..][y - 1] == k;
        }
        if k in b[1..] {
          var y :| 1 <= y < |b| && b[y] == k;
          assert LexLt(b[0], b[y]);
          assert k in a;
          var x :| 0 <= x < |a| && a[x] == k;
          assert x != 0;
          assert a[1..][x - 1] == k;
        }
      }
      SortedUnique(a[1..], b[1..]);
      assert a == [a[0]] + a[1..];
      assert b == [b[0]] + b[1..];
    }
  }

  lemma SortedIsCanonical(ks: seq<string>, s: set<string>)
    requires StrictlySorted(ks)
    requires forall k :: k in ks <==> k in s
    ensures ks == SortedKeys(s)
  {
    SortedUnique(ks, SortedKeys(s));
  }

  function DigitChar(d: nat): (c: char)
    requires d < 10
    ensures '0' <= c <= '9'
  {
    "0123456789"[d]
  }

  function DigitValue(c: char): nat
    requires '0' <= c <= '9'
  {
    c as nat - '0' as nat
  }

  /** The JavaScript string form of a non-negative integer: its decimal digits. */
  function NatToString(n: nat): (r: string)
    ensures |r| > 0
    ensures forall i :: 0 <= i < |r| ==> '0' <= r[i] <= '9'
    decreases n
  {
    if n < 10 then [DigitChar(n)] else NatToString(n / 10) + [DigitChar(n % 10)]
  }

  /** The number a string of decimal digits denotes. */
  function DecimalValue(s: string): nat
    requires forall i :: 0 <= i < |s| ==> '0' <= s[i] <= '9'
  {
    if s == [] then 0 else 10 * DecimalValue(s[..|s| - 1]) + DigitValue(s[|s| - 1])
  }

  /** The decimal text of n reads back as n, and has no leading zero. */
  lemma {:induction false} NatToStringRoundTrip(n: nat)
    ensures DecimalValue(NatToString(n)) == n
    ensures NatToString(n)[0] == '0' ==> n == 0
  {
    var r := NatToString(n);
    if n >= 10 {
      NatToStringRoundTrip(n / 10);
      assert r[..|r| - 1] == NatToString(n / 10);
      assert r[0] == NatToString(n / 10)[0];
    } else {
      assert r == [DigitChar(n)];
    }
  }

  lemma NatToStringInjective(m: nat, n: nat)
    requires NatToString(m) == NatToString(n)
    ensures m == n
  {
    NatToStringRoundTrip(m);
    NatToStringRoundTrip(n);
  }

  /** `String(i)` for an integer: an optional minus sign and the digits of |i|. */
  function IntToString(i: int): (r: string)
    ensures i < 0 <==> (|r| > 0 && r[0] == '-')
  {
    if i < 0 then "-" + NatToString(-i) else NatToString(i)
  }

  /** The string form of an integer reads back as the integer: the digits give |i|, after the sign if any. */
  lemma IntToStringRoundTrip(i: int)
    ensures i >= 0 ==> DecimalValue(IntToString(i)) == i
    ensures i < 0 ==> DecimalValue(IntToString(i)[1..]) == -i
  {
    if i < 0 {
      NegativeRoundTrip(i);
    } else {
      NatToStringRoundTrip(i);
    }
  }

  lemma NegativeRoundTrip(i: int)
    requires i < 0
    ensures DecimalValue(IntToString(i)[1..]) == -i
  {
    var digits := NatToString(-i);
    NatToStringRoundTrip(-i);
    assert IntToString(i)[1..] == digits;
  }

  /**
   * `s.replace(/^pre/, rep)` for a literal `pre`: the prefix is replaced
   * only when `s` starts with it.
   */
  function ReplaceLeading(s: string, pre: string, rep: string): (r: string)
    ensures pre <= s ==> r == rep + s[|pre|..]
    ensures !(pre <= s) ==> r == s
  {
    if |pre| <= |s| && s[..|pre|] == pre then rep + s[|pre|..] else s
  }

  lemma ReplaceLeadingPrefix(pre: string, rest: string, rep: string)
    ensures ReplaceLeading(pre + rest, pre, rep) == rep + rest
  {
    assert (pre + rest)[..|pre|] == pre;
    assert (pre + rest)[|pre|..] == rest;
  }
}
