/** String operations with the meaning JavaScript gives them in app.js:
    String.prototype.trim, split on a one-character separator, Array.prototype.join,
    toLowerCase (ASCII letters only) and the decimal rendering of an integer. */
module Strings {

  /** The characters `trim` removes: ECMAScript WhiteSpace and LineTerminator code points. */
  predicate IsSpace(c: char) {
    var n := c as int;
    n == 0x09 || n == 0x0A || n == 0x0B || n == 0x0C || n == 0x0D || n == 0x20 ||
    n == 0xA0 || n == 0x1680 || (0x2000 <= n <= 0x200A) || n == 0x2028 || n == 0x2029 ||
    n == 0x202F || n == 0x205F || n == 0x3000 || n == 0xFEFF
  }

  /** `s` neither starts nor ends with a space character. */
  predicate Trimmed(s: string) {
    s == [] || (!IsSpace(s[0]) && !IsSpace(s[|s| - 1]))
  }

  /** The first position at or after `i` that does not hold a space (`|s|` if none does). */
  function SkipSpaces(s: string, i: nat): (k: nat)
    requires i <= |s|
    ensures i <= k <= |s|
    ensures forall j :: i <= j < k ==> IsSpace(s[j])
    ensures k == |s| || !IsSpace(s[k])
    decreases |s| - i
  {
    if i < |s| && IsSpace(s[i]) then SkipSpaces(s, i + 1) else i
  }

  /** The end of `s[lo..hi]` once its trailing spaces are dropped. */
  function DropTrailingSpaces(s: string, lo: nat, hi: nat): (k: nat)
    requires lo <= hi <= |s|
    ensures lo <= k <= hi
    ensures forall j :: k <= j < hi ==> IsSpace(s[j])
    ensures k == lo || !IsSpace(s[k - 1])
    decreases hi
  {
    if lo < hi && IsSpace(s[hi - 1]) then DropTrailingSpaces(s, lo, hi - 1) else hi
  }

  /** `s.trim()`: the slice of `s` left after removing every leading and trailing space. */
  function Trim(s: string): (r: string)
    ensures Trimmed(r)
    ensures exists k :: SliceBetweenSpaces(r, s, k)
    ensures forall c :: c in r ==> c in s
  {
    var a := SkipSpaces(s, 0);
    var b := DropTrailingSpaces(s, a, |s|);
    assert SliceBetweenSpaces(s[a..b], s, a);
    s[a..b]
  }

  /** `r` is the slice of `s` at offset `k`, and everything around it in `s` is space. */
  predicate SliceBetweenSpaces(r: string, s: string, k: nat) {
    k + |r| <= |s| && r == s[k..k + |r|] &&
    (forall i :: 0 <= i < k ==> IsSpace(s[i])) &&
    (forall i :: k + |r| <= i < |s| ==> IsSpace(s[i]))
  }

  /** A string without leading or trailing spaces is its own trim. */
  lemma TrimOfTrimmed(s: string)
    requires Trimmed(s)
    ensures Trim(s) == s
  {
  }

  /** The trim is the only slice of `s` that has no spaces at its ends and only spaces around it. */
  lemma TrimUnique(r: string, s: string, k: nat)
    requires Trimmed(r) && SliceBetweenSpaces(r, s, k)
    ensures Trim(s) == r
  {
    var a := SkipSpaces(s, 0);
    var b := DropTrailingSpaces(s, a, |s|);
    if r == [] {
      assert forall i :: 0 <= i < |s| ==> IsSpace(s[i]);
      assert a == |s|;
    } else {
      assert s[k] == r[0] && s[k + |r| - 1] == r[|r| - 1];
      assert a == k;
      assert b == k + |r|;
    }
  }

  /** A string is its trim with a run of spaces on either side. */
  lemma TrimSurround(s: string) returns (w1: string, w2: string)
    ensures s == w1 + (Trim(s) + w2)
    ensures forall i :: 0 <= i < |w1| ==> IsSpace(w1[i])
    ensures forall i :: 0 <= i < |w2| ==> IsSpace(w2[i])
  {
    var a := SkipSpaces(s, 0);
    var b := DropTrailingSpaces(s, a, |s|);
    w1, w2 := s[..a], s[b..];
    assert Trim(s) == s[a..b];
    assert s == s[..a] + (s[a..b] + s[b..]);
    forall i | 0 <= i < |w1| ensures IsSpace(w1[i]) { assert w1[i] == s[i]; }
    forall i | 0 <= i < |w2| ensures IsSpace(w2[i]) { assert w2[i] == s[b + i]; }
  }

  /** Spaces around a string do not change its trim. */
  lemma TrimPadded(w1: string, x: string, w2: string)
    requires forall i :: 0 <= i < |w1| ==> IsSpace(w1[i])
    requires forall i :: 0 <= i < |w2| ==> IsSpace(w2[i])
    ensures Trim(w1 + x + w2) == Trim(x)
  {
    var r := Trim(x);
    var k: nat :| SliceBetweenSpaces(r, x, k);
    assert k + |r| <= |x| && r == x[k..k + |r|];
    var u := w1 + x + w2;
    assert u[|w1| + k..|w1| + k + |r|] == x[k..k + |r|];
    forall i | 0 <= i < |w1| + k ensures IsSpace(u[i]) {
      if i >= |w1| { assert u[i] == x[i - |w1|]; }
    }
    forall i | |w1| + k + |r| <= i < |u| ensures IsSpace(u[i]) {
      if i < |w1| + |x| { assert u[i] == x[i - |w1|]; } else { assert u[i] == w2[i - |w1| - |x|]; }
    }
    TrimUnique(r, u, |w1| + k);
  }

  /** `trim` is idempotent. */
  lemma TrimIdempotent(s: string)
    ensures Trim(Trim(s)) == Trim(s)
  {
    TrimOfTrimmed(Trim(s));
  }

  /** `s.split(sep)` for a one-character separator: the maximal runs between separators. */
  function Split(s: string, sep: char): (r: seq<string>)
    ensures |r| >= 1
    ensures forall i :: 0 <= i < |r| ==> sep !in r[i]
  {
    if s == [] then [[]]
    else
      var rest := Split(s[1..], sep);
      if s[0] == sep then [[]] + rest
      else [[s[0]] + rest[0]] + rest[1..]
  }

  /** `parts.join(sep)`: the first part, then the separator and the next part for each
      further part; the join of no parts is the empty string. */
  function Join(parts: seq<string>, sep: char): (r: string)
    ensures parts == [] ==> r == []
    ensures |parts| >= 1 ==> parts[0] <= r
    ensures |parts| >= 2 ==> |r| > |parts[0]| && r[|parts[0]|] == sep
  {
    if |parts| == 0 then []
    else if |parts| == 1 then parts[0]
    else parts[0] + [sep] + Join(parts[1..], sep)
  }

  /** Joining the pieces of a split restores the string. */
  lemma {:induction false} JoinSplit(s: string, sep: char)
    ensures Join(Split(s, sep), sep) == s
  {
    if s != [] {
      var rest := Split(s[1..], sep);
      JoinSplit(s[1..], sep);
      if s[0] == sep {
        assert Split(s, sep) == [[]] + rest;
        assert s == [sep] + s[1..];
      } else if |rest| == 1 {
        assert Split(s, sep) == [[s[0]] + rest[0]];
        assert s == [s[0]] + s[1..];
      } else {
        assert Split(s, sep) == [[s[0]] + rest[0]] + rest[1..];
        assert ([[s[0]] + rest[0]] + rest[1..])[1..] == rest[1..];
        assert s == [s[0]] + s[1..];
      }
    }
  }

  /** Splitting a string that starts with a separator-free prefix `a` glues `a` to the first piece. */
  lemma {:induction false} SplitPrefix(a: string, t: string, sep: char)
    requires sep !in a
    ensures Split(a + t, sep) == [a + Split(t, sep)[0]] + Split(t, sep)[1..]
  {
    if a != [] {
      var u := a + t;
      var st := Split(t, sep);
      assert u[0] == a[0] && u[0] != sep;
      assert u[1..] == a[1..] + t;
      SplitPrefix(a[1..], t, sep);
      var rest := Split(u[1..], sep);
      assert rest == [a[1..] + st[0]] + st[1..];
      assert Split(u, sep) == [[u[0]] + rest[0]] + rest[1..];
      assert [u[0]] + rest[0] == a + st[0];
      assert rest[1..] == st[1..];
    } else {
      var r := Split(t, sep);
      assert a + t == t;
      assert a + r[0] == r[0];
      assert r == [r[0]] + r[1..];
    }
  }

  /** Appending a separator-free suffix `w` glues `w` to the last piece. */
  lemma {:induction false} SplitSuffix(t: string, w: string, sep: char)
    requires sep !in w
    ensures var st := Split(t, sep);
            Split(t + w, sep) == st[..|st| - 1] + [st[|st| - 1] + w]
  {
    if t == [] {
      SplitPrefix(w, [], sep);
      assert w + [] == w && t + w == w;
      assert Split([], sep) == [[]];
    } else {
      var u := t + w;
      assert u[0] == t[0] && u[1..] == t[1..] + w;
      SplitSuffix(t[1..], w, sep);
      var rt := Split(t[1..], sep);
      var k := |rt|;
      var ru := Split(u[1..], sep);
      assert ru == rt[..k - 1] + [rt[k - 1] + w];
      if t[0] == sep {
        SplitSuffixSepStep(rt, ru, w, Split(t, sep), Split(u, sep));
      } else if k == 1 {
        assert Split(t, sep) == [[t[0]] + rt[0]];
        assert Split(u, sep) == [[u[0]] + ru[0]];
        assert [u[0]] + ru[0] == ([t[0]] + rt[0]) + w;
      } else {
        SplitSuffixCharStep([t[0]], rt, ru, w, Split(t, sep), Split(u, sep));
      }
    }
  }

  /** The step of SplitSuffix for a text that starts with the separator. */
  lemma SplitSuffixSepStep(rt: seq<string>, ru: seq<string>, w: string, st: seq<string>, su: seq<string>)
    requires |rt| >= 1 && ru == rt[..|rt| - 1] + [rt[|rt| - 1] + w]
    requires st == [[]] + rt && su == [[]] + ru
    ensures su == st[..|st| - 1] + [st[|st| - 1] + w]
  {
    assert st[..|st| - 1] == [[]] + rt[..|rt| - 1];
    assert st[|st| - 1] == rt[|rt| - 1];
  }

  /** The step of SplitSuffix for a text that starts with another character `c`, when the
      rest has at least two pieces. */
  lemma SplitSuffixCharStep(c: string, rt: seq<string>, ru: seq<string>, w: string, st: seq<string>, su: seq<string>)
    requires |rt| >= 2 && ru == rt[..|rt| - 1] + [rt[|rt| - 1] + w]
    requires st == [c + rt[0]] + rt[1..] && su == [c + ru[0]] + ru[1..]
    ensures su == st[..|st| - 1] + [st[|st| - 1] + w]
  {
    var k := |rt|;
    assert ru[0] == rt[0];
    assert ru[1..] == rt[1..k - 1] + [rt[k - 1] + w];
    assert st[..|st| - 1] == [c + rt[0]] + rt[1..k - 1];
    assert st[|st| - 1] == rt[k - 1];
  }

  /** Splitting the join of separator-free parts gives the parts back. */
  lemma {:induction false} SplitJoin(parts: seq<string>, sep: char)
    requires |parts| >= 1
    requires forall i :: 0 <= i < |parts| ==> sep !in parts[i]
    ensures Split(Join(parts, sep), sep) == parts
  {
    if |parts| == 1 {
      var p := parts[0];
      SplitPrefix(p, [], sep);
      assert p + [] == p;
      assert Split([], sep) == [[]];
      assert Split([], sep)[1..] == [];
      assert Split(p, sep) == [p + []] + [];
      assert parts == [p];
    } else {
      var rest := Join(parts[1..], sep);
      var u := [sep] + rest;
      SplitJoin(parts[1..], sep);
      assert Join(parts, sep) == parts[0] + u;
      SplitPrefix(parts[0], u, sep);
      assert u[0] == sep && u[1..] == rest;
      var su := Split(u, sep);
      assert su == [[]] + parts[1..];
      assert su[0] == [] && su[1..] == parts[1..];
      assert parts[0] + su[0] == parts[0];
      assert parts == [parts[0]] + parts[1..];
    }
  }

  /** The first character of a join whose first part is not empty. */
  lemma {:induction false} JoinFirst(parts: seq<string>, sep: char)
    requires |parts| >= 1 && parts[0] != []
    ensures Join(parts, sep) != [] && Join(parts, sep)[0] == parts[0][0]
  {
  }

  /** The last character of a join whose last part is not empty. */
  lemma {:induction false} JoinLast(parts: seq<string>, sep: char)
    requires |parts| >= 1 && parts[|parts| - 1] != []
    ensures var j := Join(parts, sep); j != [] && j[|j| - 1] == parts[|parts| - 1][|parts[|parts| - 1]| - 1]
  {
    if |parts| > 1 {
      JoinLast(parts[1..], sep);
    }
  }

  /** A join contains the separator only where it was inserted or where a part already had it. */
  lemma {:induction false} JoinFree(parts: seq<string>, sep: char, c: char)
    requires c != sep
    requires forall i :: 0 <= i < |parts| ==> c !in parts[i]
    ensures c !in Join(parts, sep)
  {
    if |parts| > 1 {
      JoinFree(parts[1..], sep, c);
    }
  }

  /** ASCII lower-casing of one character. */
  function LowerChar(c: char): char {
    if 'A' <= c <= 'Z' then (c as int - 'A' as int + 'a' as int) as char else c
  }

  /** `s.toLowerCase()` restricted to the ASCII letters. */
  function Lower(s: string): (r: string)
    ensures |r| == |s|
    ensures forall i :: 0 <= i < |s| ==> !('A' <= r[i] <= 'Z')
    ensures forall i :: 0 <= i < |s| && 'A' <= s[i] <= 'Z' ==> 'a' <= r[i] <= 'z' && r[i] as int == s[i] as int + 32
    ensures forall i :: 0 <= i < |s| && !('A' <= s[i] <= 'Z') ==> r[i] == s[i]
    ensures Trimmed(s) ==> Trimmed(r)
  {
    seq(|s|, i requires 0 <= i < |s| => LowerChar(s[i]))
  }

  /** Lower-casing leaves a string without upper-case ASCII letters unchanged. */
  lemma LowerOfLower(s: string)
    requires forall i :: 0 <= i < |s| ==> !('A' <= s[i] <= 'Z')
    ensures Lower(s) == s
  {
  }

  predicate IsDigit(c: char) {
    '0' <= c <= '9'
  }

  /** Decimal digits of a natural number, without leading zeros. */
  function NatToDecimal(n: nat): (r: string)
    ensures r != [] && (forall i :: 0 <= i < |r| ==> IsDigit(r[i]))
    ensures r[0] == '0' ==> n == 0 && |r| == 1
  {
    var d := ((n % 10) + '0' as int) as char;
    if n < 10 then [d] else NatToDecimal(n / 10) + [d]
  }

  /** `String(n)` for an integer `n`: its digits without leading zeros, after a minus sign
      when it is negative. */
  function IntToDecimal(n: int): (r: string)
    ensures r != []
    ensures r[0] == '-' <==> n < 0
    ensures n >= 0 ==> (forall i :: 0 <= i < |r| ==> IsDigit(r[i])) && DecimalValue(r) == n
    ensures n < 0 ==> (forall i :: 1 <= i < |r| ==> IsDigit(r[i])) && DecimalValue(r[1..]) == -n
    ensures n >= 0 && r[0] == '0' ==> r == "0"
    ensures n < 0 ==> |r| >= 2 && r[1] != '0'
  {
    if n < 0 then
      DecimalRoundTrip(-n);
      var d := NatToDecimal(-n);
      assert ("-" + d)[1..] == d;
      "-" + d
    else
      DecimalRoundTrip(n);
      NatToDecimal(n)
  }

  /** Reading the digits back gives the number: the rendering loses nothing. */
  function DecimalValue(s: string): int
    requires forall i :: 0 <= i < |s| ==> IsDigit(s[i])
  {
    if s == [] then 0 else DecimalValue(s[..|s| - 1]) * 10 + (s[|s| - 1] as int - '0' as int)
  }

  lemma {:induction false} DecimalRoundTrip(n: nat)
    ensures DecimalValue(NatToDecimal(n)) == n
  {
    var d := ((n % 10) + '0' as int) as char;
    if n >= 10 {
      DecimalRoundTrip(n / 10);
      var s := NatToDecimal(n / 10) + [d];
      assert s[..|s| - 1] == NatToDecimal(n / 10);
    }
  }
}
