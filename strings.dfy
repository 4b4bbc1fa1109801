/**
 * Character classes of the C locale, decimal text for integers (std::to_string on
 * integral types), std::stoi, and the lexicographic order std::string uses.
 */
module Strings {

  /** std::isalpha in the C locale. */
  predicate IsAlpha(c: char) {
    ('A' <= c <= 'Z') || ('a' <= c <= 'z')
  }

  /** std::isdigit. */
  predicate IsDigit(c: char) {
    '0' <= c <= '9'
  }

  /** std::isspace in the C locale: space, \t, \n, \v, \f, \r. */
  predicate IsSpace(c: char) {
    c == ' ' || c == '\t' || c == '\n' || c as int == 11 || c as int == 12 || c == '\r'
  }

  /** std::toupper in the C locale. */
  function ToUpper(c: char): (u: char)
    ensures IsAlpha(c) ==> 'A' <= u <= 'Z'
    ensures !('a' <= c <= 'z') ==> u == c
  {
    if 'a' <= c <= 'z' then (c as int - 32) as char else c
  }

  /** Letter value of an alphabetic character: 'A' and 'a' are 1, 'Z' and 'z' are 26. */
  function LetterValue(c: char): (v: nat)
    requires IsAlpha(c)
    ensures 1 <= v <= 26
  {
    ToUpper(c) as int - 'A' as int + 1
  }

  /** Upper-case letter whose letter value is d + 1. */
  function LetterOf(d: nat): (c: char)
    requires d < 26
    ensures IsAlpha(c) && 'A' <= c <= 'Z' && LetterValue(c) == d + 1
  {
    ('A' as int + d) as char
  }

  function DigitValue(c: char): (v: nat)
    requires IsDigit(c)
    ensures v < 10
  {
    c as int - '0' as int
  }

  function DigitChar(d: nat): (c: char)
    requires d < 10
    ensures IsDigit(c) && DigitValue(c) == d
  {
    ('0' as int + d) as char
  }

  predicate AllDigits(s: string) {
    forall i :: 0 <= i < |s| ==> IsDigit(s[i])
  }

  predicate AllAlpha(s: string) {
    forall i :: 0 <= i < |s| ==> IsAlpha(s[i])
  }

  predicate AllSpace(s: string) {
    forall i :: 0 <= i < |s| ==> IsSpace(s[i])
  }

  /** Decimal value of a string of digits, most significant first. */
  function DigitsValue(s: string): nat
    requires AllDigits(s)
  {
    if s == [] then 0 else DigitsValue(s[..|s| - 1]) * 10 + DigitValue(s[|s| - 1])
  }

  /** std::to_string of an unsigned integer: shortest decimal text. */
  function NatToString(n: nat): (s: string)
    ensures |s| >= 1 && AllDigits(s)
    ensures DigitsValue(s) == n
    ensures n > 0 ==> s[0] != '0'
  {
    if n < 10 then [DigitChar(n)]
    else
      var p := NatToString(n / 10);
      var s := p + [DigitChar(n % 10)];
      assert s[..|s| - 1] == p;
      s
  }

  /** std::to_string of a signed integer. */
  function IntToString(i: int): (s: string)
    ensures |s| >= 1
  {
    if i < 0 then "-" + NatToString(-i) else NatToString(i)
  }

  const IntMin: int := -0x8000_0000
  const IntMax: int := 0x7fff_ffff

  /** Number of leading white-space characters of s. */
  function SpaceRun(s: string): (n: nat)
    ensures n <= |s|
    ensures AllSpace(s[..n])
    ensures n < |s| ==> !IsSpace(s[n])
  {
    if s == [] || !IsSpace(s[0]) then 0
    else
      var k := SpaceRun(s[1..]);
      assert s[..1 + k] == [s[0]] + s[1..][..k];
      1 + k
  }

  /** Number of leading digits of s. */
  function DigitRun(s: string): (n: nat)
    ensures n <= |s|
    ensures AllDigits(s[..n])
    ensures n < |s| ==> !IsDigit(s[n])
  {
    if s == [] || !IsDigit(s[0]) then 0
    else
      var k := DigitRun(s[1..]);
      assert s[..1 + k] == [s[0]] + s[1..][..k];
      1 + k
  }

  /** Number of leading letters of s. */
  function AlphaRun(s: string): (n: nat)
    ensures n <= |s|
    ensures AllAlpha(s[..n])
    ensures n < |s| ==> !IsAlpha(s[n])
  {
    if s == [] || !IsAlpha(s[0]) then 0
    else
      var k := AlphaRun(s[1..]);
      assert s[..1 + k] == [s[0]] + s[1..][..k];
      1 + k
  }

  /** The index where the run of letters starting at i ends. */
  function AlphaEnd(f: string, i: nat): (k: nat)
    requires i <= |f|
    ensures i <= k <= |f|
    ensures k < |f| ==> !IsAlpha(f[k])
    decreases |f| - i
  {
    if i < |f| && IsAlpha(f[i]) then AlphaEnd(f, i + 1) else i
  }

  /** The index where the run of digits starting at i ends. */
  function DigitEnd(f: string, i: nat): (k: nat)
    requires i <= |f|
    ensures i <= k <= |f|
    ensures k < |f| ==> !IsDigit(f[k])
    decreases |f| - i
  {
    if i < |f| && IsDigit(f[i]) then DigitEnd(f, i + 1) else i
  }

  /** Everything a run of letters covers is a letter. */
  lemma {:induction false} AlphaEndAll(f: string, i: nat)
    requires i <= |f|
    ensures forall t :: i <= t < AlphaEnd(f, i) ==> IsAlpha(f[t])
    decreases |f| - i
  {
    if i < |f| && IsAlpha(f[i]) {
      AlphaEndAll(f, i + 1);
    }
  }

  /** The run of letters from i on, as a string of its own. */
  lemma AlphaEndRun(f: string, i: nat)
    requires i <= |f|
    ensures AllAlpha(f[i..AlphaEnd(f, i)])
  {
    AlphaEndAll(f, i);
    var s := f[i..AlphaEnd(f, i)];
    forall t | 0 <= t < |s| ensures IsAlpha(s[t]) {
      assert s[t] == f[i + t];
    }
  }

  /** Everything a run of digits covers is a digit. */
  lemma {:induction false} DigitEndAll(f: string, i: nat)
    requires i <= |f|
    ensures forall t :: i <= t < DigitEnd(f, i) ==> IsDigit(f[t])
    decreases |f| - i
  {
    if i < |f| && IsDigit(f[i]) {
      DigitEndAll(f, i + 1);
    }
  }

  /** The run of digits from i on, as a string of its own. */
  lemma DigitEndRun(f: string, i: nat)
    requires i <= |f|
    ensures AllDigits(f[i..DigitEnd(f, i)])
  {
    DigitEndAll(f, i);
    var s := f[i..DigitEnd(f, i)];
    forall t | 0 <= t < |s| ensures IsDigit(s[t]) {
      assert s[t] == f[i + t];
    }
  }

  /** A run of letters ends no later than the first non-letter. */
  lemma {:induction false} AlphaEndBelow(f: string, i: nat, t: nat)
    requires i <= t < |f| && !IsAlpha(f[t])
    ensures AlphaEnd(f, i) <= t
    decreases t - i
  {
    if i < t && IsAlpha(f[i]) {
      AlphaEndBelow(f, i + 1, t);
    }
  }

  /** A run of digits ends no later than the first non-digit. */
  lemma {:induction false} DigitEndBelow(f: string, i: nat, t: nat)
    requires i <= t < |f| && !IsDigit(f[t])
    ensures DigitEnd(f, i) <= t
    decreases t - i
  {
    if i < t && IsDigit(f[i]) {
      DigitEndBelow(f, i + 1, t);
    }
  }

  /** Where a run of letters stops is where AlphaEnd says it ends. */
  lemma {:induction false} AlphaEndIs(f: string, i: nat, k: nat)
    requires i <= k <= |f|
    requires forall t :: i <= t < k ==> IsAlpha(f[t])
    requires k < |f| ==> !IsAlpha(f[k])
    ensures AlphaEnd(f, i) == k
    decreases k - i
  {
    if i < k {
      AlphaEndIs(f, i + 1, k);
    }
  }

  /** Where a run of digits stops is where DigitEnd says it ends. */
  lemma {:induction false} DigitEndIs(f: string, i: nat, k: nat)
    requires i <= k <= |f|
    requires forall t :: i <= t < k ==> IsDigit(f[t])
    requires k < |f| ==> !IsDigit(f[k])
    ensures DigitEnd(f, i) == k
    decreases k - i
  {
    if i < k {
      DigitEndIs(f, i + 1, k);
    }
  }

  /** A letter run is determined by where it stops. */
  lemma AlphaRunIs(s: string, n: nat)
    requires n <= |s| && AllAlpha(s[..n]) && (n < |s| ==> !IsAlpha(s[n]))
    ensures AlphaRun(s) == n
  {
    var r := AlphaRun(s);
    forall i | 0 <= i < n ensures IsAlpha(s[i]) {
      assert s[..n][i] == s[i];
    }
    forall i | 0 <= i < r ensures IsAlpha(s[i]) {
      assert s[..r][i] == s[i];
    }
  }

  /** A digit run is determined by where it stops. */
  lemma DigitRunIs(s: string, n: nat)
    requires n <= |s| && AllDigits(s[..n]) && (n < |s| ==> !IsDigit(s[n]))
    ensures DigitRun(s) == n
  {
    var r := DigitRun(s);
    forall i | 0 <= i < n ensures IsDigit(s[i]) {
      assert s[..n][i] == s[i];
    }
    forall i | 0 <= i < r ensures IsDigit(s[i]) {
      assert s[..r][i] == s[i];
    }
  }

  /** A letter run stops at or before the first non-letter. */
  lemma AlphaRunBelow(s: string, i: nat)
    requires i < |s| && !IsAlpha(s[i])
    ensures AlphaRun(s) <= i
  {
    var r := AlphaRun(s);
    forall t | 0 <= t < r ensures IsAlpha(s[t]) {
      assert s[..r][t] == s[t];
    }
  }

  /** A digit run stops at or before the first non-digit. */
  lemma DigitRunBelow(s: string, i: nat)
    requires i < |s| && !IsDigit(s[i])
    ensures DigitRun(s) <= i
  {
    var r := DigitRun(s);
    forall t | 0 <= t < r ensures IsDigit(s[t]) {
      assert s[..r][t] == s[t];
    }
  }

  datatype StoiResult = Parsed(value: int, consumed: nat) | NoConversion | OutOfIntRange

  /** The same result with k more characters counted as consumed. */
  function Consumed(r: StoiResult, k: nat): StoiResult {
    match r
    case Parsed(v, c) => Parsed(v, c + k)
    case _ => r
  }

  /**
   * std::stoi: optional leading white space, an optional sign and at least one digit;
   * invalid_argument when there is no digit, out_of_range when the value does not fit an int.
   */
  function Stoi(s: string): (r: StoiResult)
    ensures r.Parsed? ==> IntMin <= r.value <= IntMax && 0 < r.consumed <= |s| && IsDigit(s[r.consumed - 1])
  {
    var w := SpaceRun(s);
    var r := StoiSign(s[w..]);
    assert r.Parsed? ==> s[w + r.consumed - 1] == s[w..][r.consumed - 1];
    Consumed(r, w)
  }

  /** std::stoi after the white space: an optional sign, then the digits. */
  function StoiSign(t: string): (r: StoiResult)
    ensures r.Parsed? ==> IntMin <= r.value <= IntMax && 0 < r.consumed <= |t| && IsDigit(t[r.consumed - 1])
  {
    var sg := if |t| > 0 && (t[0] == '+' || t[0] == '-') then 1 else 0;
    var r := StoiDigits(t[sg..], sg == 1 && t[0] == '-');
    assert r.Parsed? ==> t[sg + r.consumed - 1] == t[sg..][r.consumed - 1];
    Consumed(r, sg)
  }

  /** std::stoi on the digits: their value, negated after a minus sign, if it fits an int. */
  function StoiDigits(u: string, negative: bool): (r: StoiResult)
    ensures r.Parsed? ==> IntMin <= r.value <= IntMax && 0 < r.consumed <= |u| && IsDigit(u[r.consumed - 1])
  {
    var d := DigitRun(u);
    if d == 0 then NoConversion
    else
      var mag: int := DigitsValue(u[..d]);
      var v := Negated(negative, mag);
      if v < IntMin || v > IntMax then OutOfIntRange
      else
        assert u[d - 1] == u[..d][d - 1];
        Parsed(v, d)
  }

  /** The magnitude m, negated when a minus sign came before it. */
  function Negated(negative: bool, m: int): int {
    if negative then -m else m
  }

  lemma StoiDigitsOf(n: nat, negative: bool)
    requires if negative then n <= -IntMin else n <= IntMax
    ensures StoiDigits(NatToString(n), negative) == Parsed(Negated(negative, n), |NatToString(n)|)
  {
    var digits := NatToString(n);
    DigitRunAll(digits);
    assert digits[..|digits|] == digits;
  }

  /** Decimal text of n reads back with std::stoi, all of it consumed, as long as n fits an int. */
  lemma StoiNatToString(n: nat)
    requires n <= IntMax
    ensures Stoi(NatToString(n)) == Parsed(n, |NatToString(n)|)
  {
    var s := NatToString(n);
    assert IsDigit(s[0]);
    assert SpaceRun(s) == 0;
    assert s[0..] == s;
    StoiDigitsOf(n, false);
  }

  /** std::stoi on a non-empty run of digits reads all of them, unless the value is too large. */
  lemma StoiAllDigits(u: string)
    requires u != [] && AllDigits(u)
    ensures Stoi(u) == StoiDigits(u, false)
    ensures Stoi(u).Parsed? ==> Stoi(u) == Parsed(DigitsValue(u), |u|)
    ensures !Stoi(u).NoConversion?
  {
    assert IsDigit(u[0]);
    StoiUnspaced(u);
    StoiUnsigned(u);
    DigitRunAll(u);
    assert u[..|u|] == u;
  }

  lemma StoiUnspaced(s: string)
    requires s != [] && !IsSpace(s[0])
    ensures Stoi(s) == StoiSign(s)
  {
    assert SpaceRun(s) == 0;
    assert s[0..] == s;
  }

  lemma StoiUnsigned(t: string)
    requires t != [] && IsDigit(t[0])
    ensures StoiSign(t) == StoiDigits(t, false)
  {
    assert t[0..] == t;
  }

  lemma {:induction false} DigitRunAll(s: string)
    requires AllDigits(s)
    ensures DigitRun(s) == |s|
  {
    if s != [] {
      DigitRunAll(s[1..]);
    }
  }

  /** A sign before the decimal text of n: "+" or nothing reads n, "-" reads -n. */
  lemma StoiSignOf(sign: string, n: nat)
    requires sign == "" || sign == "+" || sign == "-"
    requires if sign == "-" then n <= -IntMin else n <= IntMax
    ensures StoiSign(sign + NatToString(n)) == Parsed(Negated(sign == "-", n), |sign + NatToString(n)|)
  {
    var digits := NatToString(n);
    var t := sign + digits;
    assert IsDigit(digits[0]);
    assert t[|sign|..] == digits;
    assert sign != "" ==> t[0] == sign[0];
    StoiDigitsOf(n, sign == "-");
  }

  /** White space before the text std::stoi reads is consumed and otherwise changes nothing. */
  lemma StoiSkipsSpace(ws: string, x: string)
    requires AllSpace(ws)
    requires x != [] ==> !IsSpace(x[0])
    ensures Stoi(ws + x) == Consumed(StoiSign(x), |ws|)
  {
    SpaceRunPrefix(ws, x);
    assert (ws + x)[|ws|..] == x;
  }

  /**
   * std::stoi accepts leading white space and a sign: white space, then "+", "-" or nothing,
   * then the decimal text of n reads as n (negated after "-"), all of it consumed.
   */
  lemma StoiSpacedSigned(ws: string, sign: string, n: nat)
    requires AllSpace(ws)
    requires sign == "" || sign == "+" || sign == "-"
    requires if sign == "-" then n <= -IntMin else n <= IntMax
    ensures Stoi(ws + (sign + NatToString(n))) == Parsed(Negated(sign == "-", n), |ws + (sign + NatToString(n))|)
  {
    var t := sign + NatToString(n);
    assert IsDigit(NatToString(n)[0]);
    assert t[0] == if sign == "" then NatToString(n)[0] else sign[0];
    StoiSignOf(sign, n);
    StoiSkipsSpace(ws, t);
  }

  lemma {:induction false} SpaceRunPrefix(ws: string, rest: string)
    requires AllSpace(ws)
    requires rest != [] ==> !IsSpace(rest[0])
    ensures SpaceRun(ws + rest) == |ws|
  {
    if ws != [] {
      assert (ws + rest)[1..] == ws[1..] + rest;
      SpaceRunPrefix(ws[1..], rest);
    } else {
      assert ws + rest == rest;
    }
  }

  /** The lexicographic order of std::string (characters compared as unsigned). */
  predicate StrLess(a: string, b: string)
    decreases |a|
  {
    if a == [] then b != []
    else if b == [] then false
    else if a[0] < b[0] then true
    else if a[0] == b[0] then StrLess(a[1..], b[1..])
    else false
  }

  lemma {:induction false} StrLessIrreflexive(a: string)
    ensures !StrLess(a, a)
  {
    if a != [] {
      StrLessIrreflexive(a[1..]);
    }
  }

  lemma {:induction false} StrLessTransitive(a: string, b: string, c: string)
    requires StrLess(a, b) && StrLess(b, c)
    ensures StrLess(a, c)
    decreases |a|
  {
    if a != [] && b != [] && c != [] && a[0] == b[0] && b[0] == c[0] {
      StrLessTransitive(a[1..], b[1..], c[1..]);
    }
  }

  lemma {:induction false} StrLessTotal(a: string, b: string)
    requires a != b
    ensures StrLess(a, b) || StrLess(b, a)
    decreases |a|
  {
    if a != [] && b != [] && a[0] == b[0] {
      assert a == [a[0]] + a[1..] && b == [b[0]] + b[1..];
      StrLessTotal(a[1..], b[1..]);
    }
  }

  lemma {:induction false} StrLessAsymmetric(a: string, b: string)
    requires StrLess(a, b)
    ensures !StrLess(b, a)
    decreases |a|
  {
    if a != [] && b != [] && a[0] == b[0] {
      StrLessAsymmetric(a[1..], b[1..]);
    }
  }

  /** A std::set<std::string> in iteration order: strictly increasing. */
  predicate Sorted(s: seq<string>) {
    forall i, j :: 0 <= i < j < |s| ==> StrLess(s[i], s[j])
  }

  /** std::set<std::string>::insert on the set's iteration sequence. */
  function InsertSorted(s: seq<string>, x: string): (r: seq<string>)
    requires Sorted(s)
    ensures Sorted(r)
    ensures forall y :: y in r <==> y in s || y == x
    ensures |r| >= |s|
  {
    if s == [] then [x]
    else if x == s[0] then s
    else if StrLess(x, s[0]) then
      forall j | 0 <= j < |s| ensures StrLess(x, s[j]) {
        if j > 0 { StrLessTransitive(x, s[0], s[j]); }
      }
      [x] + s
    else
      StrLessTotal(x, s[0]);
      var t := InsertSorted(s[1..], x);
      assert forall y :: y in t ==> StrLess(s[0], y) by {
        forall y | y in t ensures StrLess(s[0], y) {
          if y != x {
            var j :| 0 <= j < |s[1..]| && s[1..][j] == y;
            assert s[1 + j] == y;
          }
        }
      }
      var r := [s[0]] + t;
      assert forall i, j :: 0 <= i < j < |r| ==> StrLess(r[i], r[j]) by {
        forall i, j | 0 <= i < j < |r| ensures StrLess(r[i], r[j]) {
          if i == 0 { assert r[j] in t; } else { assert r[i] == t[i - 1] && r[j] == t[j - 1]; }
        }
      }
      assert forall y :: y in s <==> y == s[0] || y in s[1..] by {
        assert s == [s[0]] + s[1..];
      }
      r
  }
}
