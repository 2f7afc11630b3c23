/** String helpers that stand for the Python str operations the engine uses:
    substring tests, `split(sep)[-1]`, character deletion (`translate`,
    `replace(c, '')`), decimal formatting (`'%s' % n`, `'%06d' % n`) and the
    digit parsing that shows those formats can be read back. */
module Text {

  datatype Option<+T> = None | Some(value: T)

  /** t occurs in s starting at index i. */
  predicate MatchAt(s: string, t: string, i: int) {
    0 <= i && i + |t| <= |s| && s[i..i + |t|] == t
  }

  /** Python's `t in s` on two strings: a substring test. */
  predicate Contains(s: string, t: string) {
    exists i | 0 <= i <= |s| - |t| :: MatchAt(s, t, i)
  }

  predicate StartsWith(s: string, t: string) {
    |t| <= |s| && s[..|t|] == t
  }

  predicate EndsWith(s: string, t: string) {
    |t| <= |s| && s[|s| - |t|..] == t
  }

  /** The first index at or after k where t occurs in s. */
  function FindFrom(s: string, t: string, k: nat): (r: Option<nat>)
    decreases |s| - k
    ensures r.Some? ==> k <= r.value && MatchAt(s, t, r.value)
    ensures r.Some? ==> forall j :: k <= j < r.value ==> !MatchAt(s, t, j)
    ensures r.None? ==> forall j :: k <= j ==> !MatchAt(s, t, j)
  {
    if k + |t| > |s| then None
    else if s[k..k + |t|] == t then Some(k)
    else FindFrom(s, t, k + 1)
  }

  /** FindFrom finds nothing exactly when t does not occur. */
  lemma FindFromContains(s: string, t: string)
    ensures FindFrom(s, t, 0).None? <==> !Contains(s, t)
  {
    if FindFrom(s, t, 0).Some? {
      assert MatchAt(s, t, FindFrom(s, t, 0).value);
    }
  }

  /** Where the last piece of `s.split(sep)` starts, scanning from k: after
      each separator found left to right, until none is left. */
  function LastStart(s: string, sep: string, k: nat): (n: nat)
    requires sep != [] && k <= |s|
    decreases |s| - k
    ensures k <= n <= |s|
    ensures FindFrom(s, sep, n).None?
    ensures FindFrom(s, sep, k).None? ==> n == k
    ensures FindFrom(s, sep, k).Some? ==> n >= k + |sep| && MatchAt(s, sep, n - |sep|)
  {
    match FindFrom(s, sep, k)
    case None => k
    case Some(i) => LastStart(s, sep, i + |sep|)
  }

  /** The last piece of Python's `s.split(sep)`. */
  function AfterLast(s: string, sep: string): string
    requires sep != []
  {
    s[LastStart(s, sep, 0)..]
  }

  /** What `s.split(sep)[-1]` is: a suffix of s free of sep, preceded by sep
      whenever sep occurs in s at all, and s itself otherwise. */
  lemma AfterLastSpec(s: string, sep: string)
    requires sep != []
    ensures var r := AfterLast(s, sep);
      && r == s[|s| - |r|..]
      && !Contains(r, sep)
      && (!Contains(s, sep) ==> r == s)
      && (Contains(s, sep) ==> EndsWith(s[..|s| - |r|], sep))
  {
    var n := LastStart(s, sep, 0);
    var r := AfterLast(s, sep);
    assert r == s[n..] && |s| - |r| == n;
    NoMatchAfter(s, sep, n);
    FindFromContains(s, sep);
    if FindFrom(s, sep, 0).Some? {
      MatchBefore(s, sep, n);
    } else {
      assert n == 0;
    }
  }

  /** No match at or after n means the suffix from n holds none. */
  lemma NoMatchAfter(s: string, sep: string, n: nat)
    requires n <= |s| && FindFrom(s, sep, n).None?
    ensures !Contains(s[n..], sep)
  {
    var r := s[n..];
    forall j | 0 <= j <= |r| - |sep| ensures !MatchAt(r, sep, j) {
      assert r[j..j + |sep|] == s[n + j..n + j + |sep|];
      assert !MatchAt(s, sep, n + j);
    }
  }

  lemma MatchBefore(s: string, sep: string, n: nat)
    requires |sep| <= n <= |s| && MatchAt(s, sep, n - |sep|)
    ensures EndsWith(s[..n], sep)
  {
    assert s[..n][n - |sep|..] == s[n - |sep|..n];
  }

  /** Python's `s.translate(table)` with a table that deletes the characters
      of D (and `s.replace(c, '')` when D is a single character): every
      character of D disappears, every other character is kept. */
  function DeleteChars(s: string, D: set<char>): (r: string)
    ensures |r| <= |s|
    ensures forall i :: 0 <= i < |r| ==> r[i] !in D
    ensures (forall i :: 0 <= i < |s| ==> s[i] !in D) ==> r == s
  {
    if s == [] then []
    else
      var rest := DeleteChars(s[1..], D);
      if s[0] in D then rest else [s[0]] + rest
  }

  /** Every character outside D is kept as often as it occurs. */
  lemma {:induction false} DeleteCharsKeeps(s: string, D: set<char>)
    ensures forall c :: c !in D ==> multiset(DeleteChars(s, D))[c] == multiset(s)[c]
  {
    if s != [] {
      DeleteCharsKeeps(s[1..], D);
      assert s == [s[0]] + s[1..];
    }
  }

  /** No character of s is in D. */
  predicate Free(s: string, D: set<char>) {
    forall i :: 0 <= i < |s| ==> s[i] !in D
  }

  lemma FreeConcat(a: string, b: string, D: set<char>)
    requires Free(a, D) && Free(b, D)
    ensures Free(a + b, D)
  {
    forall i | 0 <= i < |a + b| ensures (a + b)[i] !in D {
      if i < |a| {
        assert (a + b)[i] == a[i];
      } else {
        assert (a + b)[i] == b[i - |a|];
      }
    }
  }

  /** r occurs in s in order, possibly with gaps (greedy matching). */
  predicate IsSubsequence(r: string, s: string)
    decreases |s|
  {
    r == [] ||
    (s != [] &&
     if r[0] == s[0] then IsSubsequence(r[1..], s[1..]) else IsSubsequence(r, s[1..]))
  }

  /** Deleting characters keeps the survivors in their original order. */
  lemma {:induction false} DeleteCharsInOrder(s: string, D: set<char>)
    ensures IsSubsequence(DeleteChars(s, D), s)
  {
    if s != [] {
      DeleteCharsInOrder(s[1..], D);
      var rest := DeleteChars(s[1..], D);
      if s[0] in D && rest != [] {
        assert rest[0] != s[0];
      }
    }
  }

  predicate IsDigit(c: char) {
    '0' <= c <= '9'
  }

  predicate AllDigits(s: string) {
    forall i :: 0 <= i < |s| ==> IsDigit(s[i])
  }

  function DigitChar(d: nat): (c: char)
    requires d < 10
    ensures IsDigit(c) && c as int - '0' as int == d
  {
    ('0' as int + d) as char
  }

  /** Python's `'%s' % n` for a non-negative integer: decimal digits, no
      leading zeros. */
  function NatToString(n: nat): (r: string)
    ensures r != [] && AllDigits(r)
    ensures |r| > 1 ==> r[0] != '0'
  {
    if n < 10 then [DigitChar(n)] else NatToString(n / 10) + [DigitChar(n % 10)]
  }

  /** k zero digits. */
  function Zeros(k: nat): (r: string)
    ensures |r| == k && AllDigits(r)
  {
    if k == 0 then [] else ['0'] + Zeros(k - 1)
  }

  /** Python's `'%0Nd' % n` with N == width: left-padded with zeros, never
      truncated. */
  function ZeroPad(n: nat, width: nat): (r: string)
    ensures AllDigits(r)
    ensures |r| == if |NatToString(n)| < width then width else |NatToString(n)|
  {
    var digits := NatToString(n);
    if |digits| < width then Zeros(width - |digits|) + digits else digits
  }

  /** The value of a string of decimal digits. */
  function DigitsValue(ds: string): nat
    requires AllDigits(ds)
  {
    if ds == [] then 0
    else DigitsValue(ds[..|ds| - 1]) * 10 + (ds[|ds| - 1] as int - '0' as int)
  }

  lemma {:induction false} NatToStringValue(n: nat)
    ensures DigitsValue(NatToString(n)) == n
  {
    if n >= 10 {
      var ds := NatToString(n);
      assert ds[..|ds| - 1] == NatToString(n / 10);
      NatToStringValue(n / 10);
    }
  }

  /** A leading zero does not change the value. */
  lemma {:induction false} LeadingZeroValue(ds: string)
    requires AllDigits(ds)
    ensures DigitsValue(['0'] + ds) == DigitsValue(ds)
  {
    if ds != [] {
      var x := ['0'] + ds;
      assert x[..|x| - 1] == ['0'] + ds[..|ds| - 1];
      LeadingZeroValue(ds[..|ds| - 1]);
    }
  }

  lemma {:induction false} LeadingZerosValue(k: nat, ds: string)
    requires AllDigits(ds)
    ensures AllDigits(Zeros(k) + ds)
    ensures DigitsValue(Zeros(k) + ds) == DigitsValue(ds)
  {
    if k > 0 {
      LeadingZerosValue(k - 1, ds);
      var rest := Zeros(k - 1) + ds;
      assert Zeros(k) + ds == ['0'] + rest;
      LeadingZeroValue(rest);
    } else {
      assert Zeros(k) + ds == ds;
    }
  }

  /** The padded digits still denote n. */
  lemma ZeroPadValue(n: nat, width: nat)
    ensures DigitsValue(ZeroPad(n, width)) == n
  {
    var ds := NatToString(n);
    NatToStringValue(n);
    if |ds| < width {
      var padded := Zeros(width - |ds|) + ds;
      assert ZeroPad(n, width) == padded;
      LeadingZerosValue(width - |ds|, ds);
      assert DigitsValue(padded) == n;
    } else {
      assert ZeroPad(n, width) == ds;
    }
  }

  /** Zero padding is injective: `'%06d' % a == '%06d' % b` only when a == b. */
  lemma ZeroPadInjective(a: nat, b: nat, width: nat)
    requires ZeroPad(a, width) == ZeroPad(b, width)
    ensures a == b
  {
    ZeroPadValue(a, width);
    ZeroPadValue(b, width);
  }

  /** The number of leading digits of s. */
  function DigitRun(s: string): (k: nat)
    ensures k <= |s| && AllDigits(s[..k])
    ensures k < |s| ==> !IsDigit(s[k])
  {
    if s == [] || !IsDigit(s[0]) then 0
    else
      var k := 1 + DigitRun(s[1..]);
      assert s[..k] == [s[0]] + s[1..][..k - 1];
      k
  }

  /** Reads a decimal number off the front of s. */
  function ParseNat(s: string): Option<(nat, string)> {
    var k := DigitRun(s);
    if k == 0 then None else Some((DigitsValue(s[..k]), s[k..]))
  }

  lemma {:induction false} DigitRunOfDigits(ds: string, rest: string)
    requires AllDigits(ds)
    requires rest == [] || !IsDigit(rest[0])
    ensures DigitRun(ds + rest) == |ds|
  {
    if ds != [] {
      assert (ds + rest)[1..] == ds[1..] + rest;
      DigitRunOfDigits(ds[1..], rest);
    }
  }

  /** Formatting a number and reading it back gives the number, provided
      what follows does not start with a digit. */
  lemma ParseNatToString(n: nat, rest: string)
    requires rest == [] || !IsDigit(rest[0])
    ensures ParseNat(NatToString(n) + rest) == Some((n, rest))
  {
    var ds := NatToString(n);
    DigitRunOfDigits(ds, rest);
    assert (ds + rest)[..|ds|] == ds;
    assert (ds + rest)[|ds|..] == rest;
    NatToStringValue(n);
  }
}
