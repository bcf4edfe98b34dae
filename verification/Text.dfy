/** Strings as the protocols use them: one unit per character. */
module Text {

  datatype Option<+T> = None | Some(value: T)

  lemma Associate(a: string, b: string, c: string)
    ensures a + (b + c) == a + b + c && a + "" == a && "" + a == a
  {
  }

  // ---------- white space ----------

  /** The characters that Unicode calls white space. */
  predicate IsSpace(c: char) {
    || '\t' <= c <= '\r' || c == ' ' || c == '\U{85}' || c == '\U{A0}' || c == '\U{1680}'
    || '\U{2000}' <= c <= '\U{200A}' || c == '\U{2028}' || c == '\U{2029}' || c == '\U{202F}'
    || c == '\U{205F}' || c == '\U{3000}'
  }

  ghost predicate NoSpaces(s: string) {
    forall i :: 0 <= i < |s| ==> !IsSpace(s[i])
  }

  function TrimStart(s: string): string {
    if s != [] && IsSpace(s[0]) then TrimStart(s[1..]) else s
  }

  function TrimEnd(s: string): string {
    if s != [] && IsSpace(s[|s| - 1]) then TrimEnd(s[..|s| - 1]) else s
  }

  function Trim(s: string): string {
    TrimEnd(TrimStart(s))
  }

  lemma TrimNothing(s: string)
    requires s == [] || (!IsSpace(s[0]) && !IsSpace(s[|s| - 1]))
    ensures Trim(s) == s && TrimStart(s) == s && TrimEnd(s) == s
  {
  }

  /** A line ending after a word without white space is trimmed off. */
  lemma TrimLineEnd(s: string)
    requires NoSpaces(s)
    ensures Trim(s + "\r\n") == s
  {
    var line := s + "\r\n";
    assert line[..|line| - 1] == s + "\r";
    assert (s + "\r")[..|s + "\r"| - 1] == s;
    if s == [] {
      assert line[1..][1..] == [];
      assert TrimStart(line) == TrimStart(line[1..]) == TrimStart(line[1..][1..]);
    } else {
      assert line[0] == s[0] && TrimStart(line) == line;
      assert TrimEnd(line) == TrimEnd(s + "\r") == TrimEnd(s);
      TrimNothing(s);
    }
  }

  lemma {:induction false} TrimEndConcat(x: string, y: string)
    ensures TrimEnd(x + y) == if TrimEnd(y) == [] then TrimEnd(x) else x + TrimEnd(y)
    decreases |y|
  {
    if y == [] {
      assert x + y == x;
    } else {
      var w := y[..|y| - 1];
      assert (x + y)[..|x + y| - 1] == x + w;
      TrimEndConcat(x, w);
    }
  }

  /** Trimming the two ends commutes. */
  lemma {:induction false} TrimEndsCommute(s: string)
    ensures TrimStart(TrimEnd(s)) == TrimEnd(TrimStart(s))
  {
    if s != [] {
      assert s == s[..1] + s[1..];
      TrimEndConcat(s[..1], s[1..]);
      assert s[..1][..0] == [];
      if IsSpace(s[0]) {
        TrimEndsCommute(s[1..]);
        if TrimEnd(s[1..]) != [] { assert TrimEnd(s)[1..] == TrimEnd(s[1..]); }
      }
    }
  }

  /** A value after its separator: trimming the whole line first changes nothing. */
  lemma TrimTwice(s: string)
    ensures Trim(TrimEnd(" " + s)) == Trim(s)
  {
    TrimEndsCommute(" " + s);
    TrimEndTwice(TrimStart(" " + s));
    assert (" " + s)[1..] == s;
  }

  lemma {:induction false} TrimEndTwice(s: string)
    ensures TrimEnd(TrimEnd(s)) == TrimEnd(s)
  {
    if s != [] && IsSpace(s[|s| - 1]) { TrimEndTwice(s[..|s| - 1]); }
  }

  /** The code points that count as white space. */
  lemma SpacesAre(c: char)
    ensures IsSpace(c) <==>
            || 9 <= c as int <= 13 || 0x2000 <= c as int <= 0x200A
            || c as int in {32, 0x85, 0xA0, 0x1680, 0x2028, 0x2029, 0x202F, 0x205F, 0x3000}
  {
  }

  lemma {:induction false} TrimStartDrops(s: string) returns (i: nat)
    ensures i <= |s| && TrimStart(s) == s[i..] && (forall k :: 0 <= k < i ==> IsSpace(s[k]))
    ensures i < |s| ==> !IsSpace(s[i])
  {
    i := 0;
    if s != [] && IsSpace(s[0]) {
      i := TrimStartDrops(s[1..]);
      i := i + 1;
    }
  }

  lemma {:induction false} TrimEndDrops(s: string) returns (j: nat)
    ensures j <= |s| && TrimEnd(s) == s[..j] && (forall k :: j <= k < |s| ==> IsSpace(s[k]))
    ensures j > 0 ==> !IsSpace(s[j - 1])
  {
    j := |s|;
    if s != [] && IsSpace(s[|s| - 1]) { j := TrimEndDrops(s[..|s| - 1]); }
  }

  /** Trimming takes off the white space at both ends and nothing else. */
  lemma TrimIsMiddle(s: string) returns (i: nat, j: nat)
    ensures i <= j <= |s| && Trim(s) == s[i..j]
    ensures (forall k :: 0 <= k < i || j <= k < |s| ==> IsSpace(s[k]))
    ensures i < j ==> !IsSpace(s[i]) && !IsSpace(s[j - 1])
  {
    i := TrimStartDrops(s);
    j := TrimEndDrops(s[i..]);
    assert s[i..][..j] == s[i..i + j];
    j := i + j;
  }

  // ---------- letter case ----------

  function LowerChar(c: char): char {
    if 'A' <= c <= 'Z' then c - 'A' + 'a' else c
  }

  function Lower(s: string): string {
    seq(|s|, i requires 0 <= i < |s| => LowerChar(s[i]))
  }

  const UPPER := "ABCDEFGHIJKLMNOPQRSTUVWXYZ"
  const LOWER := "abcdefghijklmnopqrstuvwxyz"

  /** The 26 capital letters become small ones, and nothing else changes. */
  lemma LowerCharIs(c: char)
    ensures forall k :: 0 <= k < 26 ==> LowerChar(UPPER[k]) == LOWER[k]
    ensures c !in UPPER ==> LowerChar(c) == c
  {
    forall k | 0 <= k < 26 ensures UPPER[k] as int == 65 + k && LOWER[k] as int == 97 + k {}
    if 'A' <= c <= 'Z' { assert UPPER[c as int - 65] == c; }
  }

  // ---------- searching ----------

  predicate MatchesAt(s: string, pat: string, i: nat) {
    i + |pat| <= |s| && s[i..i + |pat|] == pat
  }

  /** The first place at or after `from` where `pat` occurs. */
  function FindFrom(s: string, pat: string, from: nat): (r: Option<nat>)
    ensures r.Some? ==> from <= r.value && MatchesAt(s, pat, r.value)
    ensures forall j: nat :: from <= j && (r.Some? ==> j < r.value) ==> !MatchesAt(s, pat, j)
    decreases |s| - from
  {
    if MatchesAt(s, pat, from) then Some(from)
    else if from + |pat| >= |s| then None
    else FindFrom(s, pat, from + 1)
  }

  function Find(s: string, pat: string): (r: Option<nat>)
    ensures r.Some? ==> MatchesAt(s, pat, r.value)
    ensures forall j: nat :: (r.Some? ==> j < r.value) ==> !MatchesAt(s, pat, j)
  {
    FindFrom(s, pat, 0)
  }

  lemma FindIsFirst(s: string, pat: string, k: nat)
    requires MatchesAt(s, pat, k) && forall j: nat :: j < k ==> !MatchesAt(s, pat, j)
    ensures Find(s, pat) == Some(k)
  {
  }

  lemma MatchShifts(a: string, b: string, pat: string, j: nat)
    ensures MatchesAt(a + b, pat, |a| + j) <==> MatchesAt(b, pat, j)
  {
    if j + |pat| <= |b| { assert (a + b)[|a| + j..|a| + j + |pat|] == b[j..j + |pat|]; }
  }

  /** Where nothing matches inside the first part, the first match is the second part's. */
  lemma FindSkips(a: string, b: string, pat: string)
    requires Find(b, pat).Some?
    requires forall j: nat :: j < |a| ==> !MatchesAt(a + b, pat, j)
    ensures Find(a + b, pat) == Some(|a| + Find(b, pat).value)
  {
    var k := Find(b, pat).value;
    MatchShifts(a, b, pat, k);
    forall j: nat | j < |a| + k ensures !MatchesAt(a + b, pat, j) {
      if j >= |a| { MatchShifts(a, b, pat, j - |a|); }
    }
  }

  lemma LineFeedIsFirst(head: string, rest: string)
    requires forall i :: 0 <= i < |head| ==> head[i] != '\n'
    ensures Find(head + "\n" + rest, "\n") == Some(|head|)
  {
    var s := head + "\n" + rest;
    assert s[|head|..|head| + 1] == "\n";
    forall j: nat | j < |head| ensures !MatchesAt(s, "\n", j) { assert s[j..j + 1][0] == head[j]; }
    FindIsFirst(s, "\n", |head|);
  }

  // ---------- decimal numbers ----------

  predicate IsDigit(c: char) {
    '0' <= c <= '9'
  }

  function DigitChar(d: nat): char
    requires d < 10
  {
    '0' + d as char
  }

  function Decimal(n: nat): (s: string)
    ensures s != [] && forall i :: 0 <= i < |s| ==> IsDigit(s[i])
  {
    if n < 10 then [DigitChar(n)] else Decimal(n / 10) + [DigitChar(n % 10)]
  }

  function DigitsValue(s: string): Option<nat> {
    if s == [] then Some(0)
    else if !IsDigit(s[|s| - 1]) then None
    else
      var v := DigitsValue(s[..|s| - 1]);
      if v.None? then None else Some(10 * v.value + (s[|s| - 1] as int - '0' as int))
  }

  /** Rust's parse of an unsigned integer: an optional plus sign, at least one digit,
      nothing else, no overflow. */
  function ParseUnsigned(s: string, max: nat): Option<nat> {
    var digits := if s != [] && s[0] == '+' then s[1..] else s;
    if digits == [] then None
    else
      var v := DigitsValue(digits);
      if v.Some? && v.value <= max then v else None
  }

  lemma {:induction false} DecimalValue(n: nat)
    ensures DigitsValue(Decimal(n)) == Some(n)
  {
    var s := Decimal(n);
    if n < 10 {
      assert s[..|s| - 1] == [];
    } else {
      DecimalValue(n / 10);
      assert s[..|s| - 1] == Decimal(n / 10);
    }
  }

  /** Printing a number and parsing it again. */
  lemma ParsePrinted(n: nat, max: nat)
    requires n <= max
    ensures ParseUnsigned(Decimal(n), max) == Some(n)
  {
    DecimalValue(n);
    assert IsDigit(Decimal(n)[0]);
  }

  function Power10(k: nat): (p: nat)
    ensures p > 0
  {
    if k == 0 then 1 else 10 * Power10(k - 1)
  }

  lemma Positive(p: nat, d: nat)
    requires p > 0 && d > 0
    ensures p * d >= p
  {
  }

  lemma QuotientIs(n: nat, p: nat, q: nat, r: nat)
    requires p > 0 && n == p * q + r && r < p
    ensures n / p == q
  {
    var m, rest := n / p, n % p;
    assert n == p * m + rest;
    if m > q {
      assert p * (m - q) == p * m - p * q;
      Positive(p, m - q);
      assert false;
    }
    if q > m {
      assert p * (q - m) == p * q - p * m;
      Positive(p, q - m);
      assert false;
    }
  }

  lemma DivideTwice(n: nat, p: nat)
    requires p > 0
    ensures n / 10 / p == n / (10 * p)
  {
    var q, r := n / 10 / p, n / 10 % p;
    assert n / 10 == p * q + r;
    assert n == (10 * p) * q + (10 * r + n % 10);
    QuotientIs(n, 10 * p, q, 10 * r + n % 10);
  }

  /** The decimal digit of a number for a power of ten. */
  function DigitOf(n: nat, k: nat): nat {
    n / Power10(k) % 10
  }

  lemma DigitsShift(n: nat, k: nat)
    ensures DigitOf(n, 0) == n % 10 && DigitOf(n, k + 1) == DigitOf(n / 10, k)
  {
    DivideTwice(n, Power10(k));
  }

  /** The digits of a printed number are its decimal digits, the last one for the ones, and the
      first is no superfluous zero. */
  lemma {:induction false} DecimalDigits(n: nat, k: nat)
    requires k < |Decimal(n)|
    ensures Decimal(n)[|Decimal(n)| - 1 - k] as int == 48 + DigitOf(n, k)
    ensures n > 0 ==> Decimal(n)[0] != '0'
    decreases n, k
  {
    DigitsShift(n, if k > 0 then k - 1 else 0);
    if n >= 10 { DecimalDigits(n / 10, if k > 0 then k - 1 else 0); }
  }

  function ZeroDigits(z: nat): string {
    seq(z, _ => '0')
  }

  lemma LastDigitCounts(s: string, d: nat, v: nat)
    requires d < 10 && DigitsValue(s) == Some(v)
    ensures DigitsValue(s + [DigitChar(d)]) == Some(10 * v + d)
  {
    assert (s + [DigitChar(d)])[..|s|] == s;
  }

  lemma {:induction false} ZerosAreNothing(z: nat)
    ensures DigitsValue(ZeroDigits(z)) == Some(0)
  {
    if z > 0 {
      ZerosAreNothing(z - 1);
      LastDigitCounts(ZeroDigits(z - 1), 0, 0);
      assert ZeroDigits(z) == ZeroDigits(z - 1) + [DigitChar(0)];
    }
  }

  lemma {:induction false} PaddedValue(z: nat, n: nat)
    ensures DigitsValue(ZeroDigits(z) + Decimal(n)) == Some(n)
    decreases n
  {
    var zeros := ZeroDigits(z);
    if n < 10 {
      ZerosAreNothing(z);
      LastDigitCounts(zeros, n, 0);
    } else {
      PaddedValue(z, n / 10);
      LastDigitCounts(zeros + Decimal(n / 10), n % 10, n / 10);
      Associate(zeros, Decimal(n / 10), [DigitChar(n % 10)]);
    }
  }

  lemma {:induction false} ValueIsPadded(s: string) returns (z: nat)
    requires s != [] && DigitsValue(s).Some?
    ensures s == ZeroDigits(z) + Decimal(DigitsValue(s).value)
  {
    var w, d := s[..|s| - 1], s[|s| - 1];
    assert s == w + [d];
    var last := d as int - '0' as int;
    assert [d] == Decimal(last);
    if w == [] {
      z := 0;
    } else {
      z := ValueIsPadded(w);
      if DigitsValue(w).value == 0 {
        assert w == ZeroDigits(z) + ['0'] == ZeroDigits(z + 1);
        z := z + 1;
      }
    }
  }

  /** A number as a header may write it: with any zeros and at most one plus sign in front. */
  ghost predicate ReadsAs(s: string, n: nat) {
    exists z: nat :: s == ZeroDigits(z) + Decimal(n) || s == "+" + (ZeroDigits(z) + Decimal(n))
  }

  /** A text is read as a number exactly when it writes that number, and it is not too large. */
  lemma ParseUnsignedIff(s: string, max: nat, n: nat)
    ensures ParseUnsigned(s, max) == Some(n) <==>
            n <= max && ReadsAs(s, n)
  {
    if ParseUnsigned(s, max) == Some(n) {
      if s[0] == '+' {
        assert s == "+" + s[1..];
        var z := ValueIsPadded(s[1..]);
      } else {
        var z := ValueIsPadded(s);
      }
    }
    forall z: nat | s == ZeroDigits(z) + Decimal(n) || s == "+" + (ZeroDigits(z) + Decimal(n))
      ensures n <= max ==> ParseUnsigned(s, max) == Some(n)
    {
      var padded := ZeroDigits(z) + Decimal(n);
      PaddedValue(z, n);
      assert ("+" + padded)[1..] == padded;
      assert padded[0] == '0' || padded[0] == Decimal(n)[0];
    }
  }

  lemma DecimalHasNoSpaces(n: nat)
    ensures NoSpaces(Decimal(n)) && Trim(Decimal(n)) == Decimal(n)
  {
    var s := Decimal(n);
    forall i | 0 <= i < |s| ensures !IsSpace(s[i]) { assert IsDigit(s[i]); }
    TrimNothing(s);
  }

  lemma DecimalHasNoHyphen(n: nat)
    ensures '-' !in Decimal(n)
  {
    assert forall i :: 0 <= i < |Decimal(n)| ==> IsDigit(Decimal(n)[i]);
  }

  lemma DecimalInjective(m: nat, n: nat)
    requires Decimal(m) == Decimal(n)
    ensures m == n
  {
    DecimalValue(m);
    DecimalValue(n);
  }
}
