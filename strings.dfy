/** ASCII strings with the behaviour of the PHP built-ins the HTTP client
    relies on: strtolower, strtoupper, strpos, implode and trim, plus the
    decimal digit strings used for status codes and error codes. */
module Strings {
  import opened Wrappers

  predicate IsAsciiUpper(c: char) { 'A' <= c <= 'Z' }

  predicate IsAsciiLower(c: char) { 'a' <= c <= 'z' }

  /** strtolower on one character: only the 26 ASCII capitals change. */
  function LowerChar(c: char): char
  {
    if IsAsciiUpper(c) then (c as int + 32) as char else c
  }

  /** strtoupper on one character: only the 26 ASCII small letters change. */
  function UpperChar(c: char): char
  {
    if IsAsciiLower(c) then (c as int - 32) as char else c
  }

  predicate IsLowerCase(s: string) { forall i :: 0 <= i < |s| ==> !IsAsciiUpper(s[i]) }

  predicate IsUpperCase(s: string) { forall i :: 0 <= i < |s| ==> !IsAsciiLower(s[i]) }

  /** strtolower */
  function Lower(s: string): (r: string)
    ensures |r| == |s|
    ensures forall i :: 0 <= i < |s| ==> r[i] == LowerChar(s[i])
    ensures IsLowerCase(r)
  {
    seq(|s|, i requires 0 <= i < |s| => LowerChar(s[i]))
  }

  /** strtoupper */
  function Upper(s: string): (r: string)
    ensures |r| == |s|
    ensures forall i :: 0 <= i < |s| ==> r[i] == UpperChar(s[i])
    ensures IsUpperCase(r)
  {
    seq(|s|, i requires 0 <= i < |s| => UpperChar(s[i]))
  }

  lemma LowerConcat(a: string, b: string)
    ensures Lower(a + b) == Lower(a) + Lower(b)
  {
    assert forall i :: 0 <= i < |a + b| ==> Lower(a + b)[i] == (Lower(a) + Lower(b))[i];
  }

  // ---------------------------------------------------------------------
  // Substrings and strpos

  /** `n` occurs in `h` starting at index `i`. */
  predicate OccursAt(h: string, n: string, i: nat)
  {
    i + |n| <= |h| && h[i..i + |n|] == n
  }

  ghost predicate Contains(h: string, n: string)
  {
    exists i: nat :: OccursAt(h, n, i)
  }

  /** strpos($h, $n, $from): the first occurrence at or after `from`, or false. */
  function StrPosFrom(h: string, n: string, from: nat): (r: Option<nat>)
    requires from <= |h|
    ensures r.Some? ==> from <= r.value && OccursAt(h, n, r.value)
    ensures r.Some? ==> forall j: nat :: from <= j < r.value ==> !OccursAt(h, n, j)
    ensures r.None? ==> forall j: nat :: from <= j ==> !OccursAt(h, n, j)
    decreases |h| - from
  {
    if from + |n| > |h| then None
    else if h[from..from + |n|] == n then Some(from)
    else StrPosFrom(h, n, from + 1)
  }

  /** strpos($h, $n): the index of the first occurrence of `n` in `h`, or false. */
  function StrPos(h: string, n: string): (r: Option<nat>)
    ensures r.Some? <==> Contains(h, n)
    ensures r.Some? ==> OccursAt(h, n, r.value) && forall j: nat :: j < r.value ==> !OccursAt(h, n, j)
  {
    StrPosFrom(h, n, 0)
  }

  lemma OccursInPrefix(a: string, b: string, n: string, i: nat)
    requires OccursAt(a, n, i)
    ensures OccursAt(a + b, n, i)
  {
    assert (a + b)[i..i + |n|] == a[i..i + |n|];
  }

  lemma OccursInSuffix(a: string, b: string, n: string, i: nat)
    requires OccursAt(b, n, i)
    ensures OccursAt(a + b, n, |a| + i)
  {
    assert (a + b)[|a| + i..|a| + i + |n|] == b[i..i + |n|];
  }

  /** A one-character needle is found exactly when the character is in the haystack. */
  lemma ContainsChar(h: string, c: char)
    ensures Contains(h, [c]) <==> c in h
  {
    if c in h {
      var i :| 0 <= i < |h| && h[i] == c;
      assert OccursAt(h, [c], i);
    }
    if Contains(h, [c]) {
      var i: nat :| OccursAt(h, [c], i);
      assert h[i] == h[i..i + 1][0];
    }
  }

  /** strpos($s, $c) === 0 exactly when `s` starts with `c`. */
  lemma StrPosZeroIsFirstChar(s: string, c: char)
    ensures StrPos(s, [c]) == Some(0) <==> |s| > 0 && s[0] == c
  {
    if |s| > 0 && s[0] == c {
      assert s[0..1] == [c];
      assert OccursAt(s, [c], 0);
    }
    if StrPos(s, [c]) == Some(0) {
      assert s[0..1][0] == s[0];
    }
  }

  // ---------------------------------------------------------------------
  // implode

  /** implode($sep, $parts) */
  function Join(sep: string, parts: seq<string>): string
  {
    if |parts| == 0 then ""
    else if |parts| == 1 then parts[0]
    else parts[0] + sep + Join(sep, parts[1..])
  }

  function LowerAll(parts: seq<string>): (r: seq<string>)
    ensures |r| == |parts| && forall i :: 0 <= i < |parts| ==> r[i] == Lower(parts[i])
  {
    seq(|parts|, i requires 0 <= i < |parts| => Lower(parts[i]))
  }

  /** Lower-casing an imploded list is imploding the lower-cased list, when
      the separator has no capitals. */
  lemma {:induction false} LowerJoin(sep: string, parts: seq<string>)
    requires IsLowerCase(sep)
    ensures Lower(Join(sep, parts)) == Join(sep, LowerAll(parts))
  {
    if |parts| == 0 {
    } else if |parts| == 1 {
    } else {
      LowerJoin(sep, parts[1..]);
      assert LowerAll(parts)[1..] == LowerAll(parts[1..]);
      assert Lower(sep) == sep;
      LowerConcat(parts[0] + sep, Join(sep, parts[1..]));
      LowerConcat(parts[0], sep);
    }
  }

  lemma JoinStartsWithFirst(sep: string, parts: seq<string>)
    requires |parts| > 0
    ensures parts[0] <= Join(sep, parts)
  {
  }

  /** Every part occurs in the imploded string. */
  lemma {:induction false} PartInJoin(sep: string, parts: seq<string>, k: nat)
    requires k < |parts|
    ensures Contains(Join(sep, parts), parts[k])
  {
    if |parts| == 1 || k == 0 {
      assert OccursAt(parts[0], parts[0], 0);
      if |parts| > 1 {
        OccursInPrefix(parts[0], sep + Join(sep, parts[1..]), parts[0], 0);
        assert parts[0] + sep + Join(sep, parts[1..]) == parts[0] + (sep + Join(sep, parts[1..]));
      }
    } else {
      PartInJoin(sep, parts[1..], k - 1);
      var i: nat :| OccursAt(Join(sep, parts[1..]), parts[k], i);
      OccursInSuffix(parts[0] + sep, Join(sep, parts[1..]), parts[k], i);
    }
  }

  lemma OccursInPrefixConverse(a: string, b: string, n: string, i: nat)
    requires OccursAt(a + b, n, i) && i + |n| <= |a|
    ensures OccursAt(a, n, i)
  {
    assert a[i..i + |n|] == (a + b)[i..i + |n|];
  }

  lemma OccursInSuffixConverse(a: string, b: string, n: string, i: nat)
    requires OccursAt(a + b, n, i) && i >= |a|
    ensures OccursAt(b, n, i - |a|)
  {
    assert b[i - |a|..i - |a| + |n|] == (a + b)[i..i + |n|];
  }

  /** An occurrence that overlaps the separator shares a character with it. */
  lemma StraddleMeetsSeparator(a: string, sep: string, b: string, n: string, i: nat)
    requires |n| > 0 && |sep| > 0
    requires OccursAt(a + sep + b, n, i)
    requires |a| < i + |n| && i < |a| + |sep|
    ensures exists c :: c in n && c in sep
  {
    var s := a + sep + b;
    var k := if i < |a| then |a| else i;
    assert s[k] == s[i..i + |n|][k - i] == n[k - i];
    assert s[k] == sep[k - |a|];
    assert n[k - i] in n && n[k - i] in sep;
  }

  /** A needle none of whose characters is in `sep` occurs in `a + sep + b`
      exactly when it occurs in `a` or in `b`: no occurrence can straddle
      the separator. */
  lemma ContainsAroundSeparator(a: string, sep: string, b: string, n: string)
    requires |n| > 0 && |sep| > 0
    requires forall c :: c in n ==> c !in sep
    ensures Contains(a + sep + b, n) <==> Contains(a, n) || Contains(b, n)
  {
    var s := a + sep + b;
    if Contains(a, n) {
      var i: nat :| OccursAt(a, n, i);
      OccursInPrefix(a, sep + b, n, i);
      assert a + (sep + b) == s;
    }
    if Contains(b, n) {
      var i: nat :| OccursAt(b, n, i);
      OccursInSuffix(a + sep, b, n, i);
    }
    if Contains(s, n) {
      var i: nat :| OccursAt(s, n, i);
      if i + |n| <= |a| {
        assert a + (sep + b) == s;
        OccursInPrefixConverse(a, sep + b, n, i);
      } else if i >= |a| + |sep| {
        OccursInSuffixConverse(a + sep, b, n, i);
      } else {
        StraddleMeetsSeparator(a, sep, b, n, i);
        assert false;
      }
    }
  }

  /** Such a needle occurs in an imploded list exactly when it occurs in one of its parts. */
  lemma {:induction false} ContainsInJoin(sep: string, parts: seq<string>, n: string)
    requires |n| > 0 && |sep| > 0
    requires forall c :: c in n ==> c !in sep
    ensures Contains(Join(sep, parts), n) <==> exists k :: 0 <= k < |parts| && Contains(parts[k], n)
  {
    if |parts| == 0 {
      assert forall i: nat :: !OccursAt("", n, i);
    } else if |parts| == 1 {
    } else {
      var rest := parts[1..];
      ContainsInJoin(sep, rest, n);
      ContainsAroundSeparator(parts[0], sep, Join(sep, rest), n);
      if exists k :: 1 <= k < |parts| && Contains(parts[k], n) {
        var k :| 1 <= k < |parts| && Contains(parts[k], n);
        assert rest[k - 1] == parts[k];
      }
      if exists k :: 0 <= k < |rest| && Contains(rest[k], n) {
        var k :| 0 <= k < |rest| && Contains(rest[k], n);
        assert parts[k + 1] == rest[k];
      }
    }
  }

  // ---------------------------------------------------------------------
  // trim

  /** The characters PHP's trim() strips by default: space, tab, line feed,
      carriage return, NUL and vertical tab. */
  predicate IsTrimChar(c: char)
  {
    c == ' ' || c == '\t' || c == '\n' || c == '\r' || c == '\0' || c == '\U{000B}'
  }

  function TrimStart(s: string): (r: string)
    ensures |r| <= |s| && r == s[|s| - |r|..]
    ensures forall k :: 0 <= k < |s| - |r| ==> IsTrimChar(s[k])
    ensures r == [] || !IsTrimChar(r[0])
  {
    if |s| > 0 && IsTrimChar(s[0]) then TrimStart(s[1..]) else s
  }

  function TrimEnd(s: string): (r: string)
    ensures |r| <= |s| && r == s[..|r|]
    ensures forall k :: |r| <= k < |s| ==> IsTrimChar(s[k])
    ensures r == [] || !IsTrimChar(r[|r| - 1])
  {
    if |s| > 0 && IsTrimChar(s[|s| - 1]) then TrimEnd(s[..|s| - 1]) else s
  }

  /** `r` sits at position `i` of `s`, and everything before and after it
      is a character trim strips. */
  predicate StrippedAt(s: string, r: string, i: nat)
  {
    && OccursAt(s, r, i)
    && (forall k :: 0 <= k < i ==> IsTrimChar(s[k]))
    && (forall k :: i + |r| <= k < |s| ==> IsTrimChar(s[k]))
  }

  lemma StripBothEnds(s: string, t: string, r: string)
    requires |t| <= |s| && t == s[|s| - |t|..]
    requires forall k :: 0 <= k < |s| - |t| ==> IsTrimChar(s[k])
    requires |r| <= |t| && r == t[..|r|]
    requires forall k :: |r| <= k < |t| ==> IsTrimChar(t[k])
    ensures StrippedAt(s, r, |s| - |t|)
  {
    var i := |s| - |t|;
    assert s[i..i + |r|] == r by {
      assert s[i..][..|r|] == s[i..i + |r|];
    }
    forall k | i + |r| <= k < |s|
      ensures IsTrimChar(s[k])
    {
      assert s[k] == t[k - i];
    }
  }

  /** trim($s): `s` without its leading and trailing whitespace. */
  function Trim(s: string): (r: string)
    ensures r == [] || (!IsTrimChar(r[0]) && !IsTrimChar(r[|r| - 1]))
    ensures exists i: nat :: StrippedAt(s, r, i)
    ensures Contains(s, r)
    ensures forall k :: 0 <= k < |s| && !IsTrimChar(s[k]) ==> |r| > 0
  {
    var t := TrimStart(s);
    var r := TrimEnd(t);
    StripBothEnds(s, t, r);
    r
  }

  // ---------------------------------------------------------------------
  // Decimal digits

  predicate IsDigit(c: char) { '0' <= c <= '9' }

  predicate AllDigits(s: string) { forall i :: 0 <= i < |s| ==> IsDigit(s[i]) }

  function DigitValue(c: char): nat
    requires IsDigit(c)
  {
    c as int - '0' as int
  }

  function DigitChar(d: nat): char
    requires d < 10
  {
    ('0' as int + d) as char
  }

  /** The number a string of decimal digits denotes (PHP's numeric-string to int conversion). */
  function DigitsValue(s: string): nat
    requires AllDigits(s)
  {
    if s == [] then 0 else 10 * DigitsValue(s[..|s| - 1]) + DigitValue(s[|s| - 1])
  }

  /** The decimal form of a natural number, as PHP's string interpolation writes it. */
  function NatToString(n: nat): (r: string)
    ensures |r| > 0 && AllDigits(r)
    ensures DigitsValue(r) == n
    ensures r[0] == '0' ==> n == 0
    ensures |r| == 1 || r[0] != '0'
  {
    if n < 10 then [DigitChar(n)]
    else
      var p := NatToString(n / 10);
      var r := p + [DigitChar(n % 10)];
      assert r[..|r| - 1] == p;
      r
  }

  lemma ThreeDigitValue(s: string)
    requires |s| == 3 && AllDigits(s)
    ensures DigitsValue(s) == 100 * DigitValue(s[0]) + 10 * DigitValue(s[1]) + DigitValue(s[2])
  {
    assert s[..2][..1] == s[..1];
    assert s[..1][..0] == [];
    assert DigitsValue(s[..1]) == DigitValue(s[0]);
    assert DigitsValue(s[..2]) == 10 * DigitValue(s[0]) + DigitValue(s[1]);
  }
}
