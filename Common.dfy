/**
  Character classes, Python's `str.strip()`, `str(int)` / `int(str)` and the
  first-seen key order of a Python dict, shared by the four lab modules.

  Python's notions of whitespace, digit and alphanumeric cover all of Unicode;
  here they are restricted to ASCII.
 */
module Common {

  datatype Option<+T> = None | Some(value: T)

  /** `str.isspace()` restricted to ASCII: space, \t, \n, \v, \f, \r and \x1c-\x1f. */
  predicate IsSpace(c: char) {
    c == ' ' || c == '\t' || c == '\n' || c == '\r' || c == '\U{000B}' || c == '\U{000C}'
    || ('\U{001C}' <= c <= '\U{001F}')
  }

  predicate IsDigit(c: char) {
    '0' <= c <= '9'
  }

  /** `str.isalnum()` restricted to ASCII. */
  predicate IsAlnum(c: char) {
    IsDigit(c) || 'a' <= c <= 'z' || 'A' <= c <= 'Z'
  }

  predicate AllSpace(s: string) {
    forall i :: 0 <= i < |s| ==> IsSpace(s[i])
  }

  predicate AllDigits(s: string) {
    forall i :: 0 <= i < |s| ==> IsDigit(s[i])
  }

  /** Number of whitespace characters at the front of `s`. */
  function LeadingSpaces(s: string): (k: nat)
    ensures k <= |s|
    ensures forall i :: 0 <= i < k ==> IsSpace(s[i])
    ensures k < |s| ==> !IsSpace(s[k])
  {
    if s == [] || !IsSpace(s[0]) then 0 else 1 + LeadingSpaces(s[1..])
  }

  /** Number of whitespace characters at the end of `s`. */
  function TrailingSpaces(s: string): (k: nat)
    ensures k <= |s|
    ensures forall i :: |s| - k <= i < |s| ==> IsSpace(s[i])
    ensures k < |s| ==> !IsSpace(s[|s| - 1 - k])
  {
    if s == [] || !IsSpace(s[|s| - 1]) then 0 else 1 + TrailingSpaces(s[..|s| - 1])
  }

  /** Python's `s.strip()`: `s` without its leading and trailing whitespace. */
  function Strip(s: string): (r: string)
    ensures |r| <= |s|
    ensures r == [] || (!IsSpace(r[0]) && !IsSpace(r[|r| - 1]))
  {
    var k := LeadingSpaces(s);
    var t := s[k..];
    var j := TrailingSpaces(t);
    assert j < |t| ==> t[0] == s[k];
    t[..|t| - j]
  }

  /**
    `s.strip()` is the middle of `s`: only whitespace comes before and after it,
    and it neither starts nor ends with whitespace.
   */
  lemma StripSpec(s: string)
    ensures var k, r := LeadingSpaces(s), Strip(s);
      && k + |r| <= |s| && r == s[k..k + |r|]
      && (forall i :: 0 <= i < k ==> IsSpace(s[i]))
      && (forall i :: k + |r| <= i < |s| ==> IsSpace(s[i]))
      && (r == [] || (!IsSpace(r[0]) && !IsSpace(r[|r| - 1])))
  {
    StripMiddle(s);
  }

  lemma StripMiddle(s: string)
    ensures var k, r := LeadingSpaces(s), Strip(s);
      && k + |r| <= |s| && r == s[k..k + |r|]
      && (forall i :: k + |r| <= i < |s| ==> IsSpace(s[i]))
  {
    var k := LeadingSpaces(s);
    var t := s[k..];
    var j := TrailingSpaces(t);
    var r := t[..|t| - j];
    assert r == s[k..k + |r|];
    forall i | k + |r| <= i < |s|
      ensures IsSpace(s[i])
    {
      assert s[i] == t[i - k];
    }
  }

  /** A string that neither starts nor ends with whitespace is its own strip. */
  lemma StripUnpadded(s: string)
    requires s == [] || (!IsSpace(s[0]) && !IsSpace(s[|s| - 1]))
    ensures Strip(s) == s
  {
    assert LeadingSpaces(s) == 0;
    assert s[0..] == s;
    assert TrailingSpaces(s) == 0;
  }

  function DigitChar(d: nat): (c: char)
    requires d < 10
    ensures IsDigit(c) && c as int - '0' as int == d
  {
    ('0' as int + d) as char
  }

  function DigitValue(c: char): (d: nat)
    requires IsDigit(c)
    ensures d < 10 && DigitChar(d) == c
  {
    c as int - '0' as int
  }

  /** `str(n)` for a natural number: its decimal digits, without leading zeros. */
  function ShowNat(n: nat): (s: string)
    ensures |s| > 0 && AllDigits(s)
    ensures s[0] == '0' ==> n == 0
  {
    if n < 10 then [DigitChar(n)] else ShowNat(n / 10) + [DigitChar(n % 10)]
  }

  /** The value of a string of decimal digits (empty is 0). */
  function DigitsValue(s: string): nat
    requires AllDigits(s)
  {
    if s == [] then 0 else DigitsValue(s[..|s| - 1]) * 10 + DigitValue(s[|s| - 1])
  }

  lemma {:induction false} DigitsValueOfShowNat(n: nat)
    ensures DigitsValue(ShowNat(n)) == n
  {
    if n >= 10 {
      var s := ShowNat(n);
      assert s[..|s| - 1] == ShowNat(n / 10);
      DigitsValueOfShowNat(n / 10);
    }
  }

  /** `str(n)` for an integer: a minus sign before a negative number's digits. */
  function ShowInt(n: int): (s: string)
    ensures |s| > 0 && !IsSpace(s[0]) && !IsSpace(s[|s| - 1])
    ensures s[0] == '-' <==> n < 0
  {
    if n < 0 then "-" + ShowNat(-n) else ShowNat(n)
  }

  /**
    Python's `int(s)` on a decimal string: surrounding whitespace is ignored,
    then an optional sign and at least one digit; anything else is a
    ValueError (None).
   */
  function ParseInt(s: string): (r: Option<int>)
    ensures r.Some? ==> Strip(s) != [] && (IsDigit(Strip(s)[0]) || Strip(s)[0] == '-' || Strip(s)[0] == '+')
    ensures r.Some? ==> forall i :: 1 <= i < |Strip(s)| ==> IsDigit(Strip(s)[i])
    ensures r.Some? && r.value < 0 ==> Strip(s)[0] == '-'
    ensures Strip(s) != [] && AllDigits(Strip(s)) ==> r.Some? && r.value >= 0
    ensures r.Some? <==> var t := Strip(s);
      |t| > 0 && (AllDigits(t) || ((t[0] == '-' || t[0] == '+') && |t| > 1 && AllDigits(t[1..])))
    ensures r.Some? ==> var t := Strip(s);
      r.value == if t[0] == '-' then -(DigitsValue(t[1..]) as int) else if t[0] == '+' then DigitsValue(t[1..]) else DigitsValue(t)
  {
    var t := Strip(s);
    if |t| > 0 && (t[0] == '-' || t[0] == '+') then
      var ds := t[1..];
      if |ds| > 0 && AllDigits(ds) then
        Some(if t[0] == '-' then 0 - DigitsValue(ds) else DigitsValue(ds) as int)
      else None
    else if |t| > 0 && AllDigits(t) then Some(DigitsValue(t))
    else None
  }

  /** Reading back what `str` wrote gives the same integer. */
  lemma IntRoundTrip(n: int)
    ensures ParseInt(ShowInt(n)) == Some(n)
  {
    var s := ShowInt(n);
    StripUnpadded(s);
    if n < 0 {
      assert s[1..] == ShowNat(-n);
      DigitsValueOfShowNat(-n);
    } else {
      DigitsValueOfShowNat(n);
    }
  }

  predicate Distinct<T(==)>(s: seq<T>) {
    forall i, j :: 0 <= i < j < |s| ==> s[i] != s[j]
  }

  /**
    The keys of a Python dict filled by inserting the elements of `s` in turn:
    each element once, at the position of its first occurrence.
   */
  function Dedup<T(==)>(s: seq<T>): (r: seq<T>)
    ensures Distinct(r)
    ensures |r| <= |s|
  {
    if s == [] then []
    else
      var d := Dedup(s[..|s| - 1]);
      if s[|s| - 1] in d then d else d + [s[|s| - 1]]
  }

  /** Inserting one more key appends it unless it is already a key. */
  lemma DedupSnoc<T>(s: seq<T>, x: T)
    ensures Dedup(s + [x]) == if x in Dedup(s) then Dedup(s) else Dedup(s) + [x]
  {
    assert (s + [x])[..|s|] == s;
  }

  /** The keys are exactly the inserted elements. */
  lemma {:induction false} DedupHas<T>(s: seq<T>, x: T)
    ensures x in Dedup(s) <==> x in s
  {
    if s != [] {
      var init := s[..|s| - 1];
      DedupHas(init, x);
      assert s == init + [s[|s| - 1]];
    }
  }

  /** Sum of the occurrence counts, in `s`, of the distinct elements of `ks`. */
  function SumCounts<T(==)>(ks: seq<T>, s: seq<T>): nat {
    if ks == [] then 0 else SumCounts(ks[..|ks| - 1], s) + multiset(s)[ks[|ks| - 1]]
  }

  lemma {:induction false} SumCountsNotIn<T>(ks: seq<T>, s: seq<T>, x: T)
    requires x !in ks
    ensures SumCounts(ks, s + [x]) == SumCounts(ks, s)
  {
    if ks != [] {
      SumCountsNotIn(ks[..|ks| - 1], s, x);
      assert multiset(s + [x]) == multiset(s) + multiset{x};
    }
  }

  lemma {:induction false} SumCountsIn<T>(ks: seq<T>, s: seq<T>, x: T)
    requires Distinct(ks) && x in ks
    ensures SumCounts(ks, s + [x]) == SumCounts(ks, s) + 1
  {
    var last := ks[|ks| - 1];
    assert multiset(s + [x]) == multiset(s) + multiset{x};
    if last == x {
      assert x !in ks[..|ks| - 1];
      SumCountsNotIn(ks[..|ks| - 1], s, x);
    } else {
      assert x in ks[..|ks| - 1];
      SumCountsIn(ks[..|ks| - 1], s, x);
    }
  }

  /** Every element of `s` is counted exactly once among its distinct values. */
  lemma {:induction false} SumCountsDedup<T>(s: seq<T>)
    ensures SumCounts(Dedup(s), s) == |s|
  {
    if s != [] {
      var init, x := s[..|s| - 1], s[|s| - 1];
      assert s == init + [x];
      var d := Dedup(init);
      SumCountsDedup(init);
      if x in d {
        SumCountsIn(d, init, x);
      } else {
        SumCountsNotIn(d, init, x);
        DedupHas(init, x);
        assert multiset(s)[x] == 1;
        assert (d + [x])[..|d + [x]| - 1] == d;
      }
    }
  }
}
