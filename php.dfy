/** PHP values and ordered arrays as the HTTP client handles them, and the
    library calls it makes whose internals are outside the model. */
module Php {
  import opened Wrappers
  import opened Strings

  /** A PHP value as produced by json_decode(..., true) or passed as a request body. */
  datatype Value = Null | Bool(b: bool) | Int(i: int) | Str(s: string) | Arr(entries: seq<(string, Value)>)

  /** An ordered PHP array with string keys, such as a request body. */
  type PhpArray = seq<(string, Value)>

  /** An ordered PHP array of header names to header values. */
  type Headers = seq<(string, string)>

  /** A thrown \Exception: its message and its code. */
  datatype Exception = Exception(message: string, code: int)

  /** The library calls the client makes, left uninterpreted: every property
      of the model holds whatever these functions compute.
      - jsonEncode: json_encode, None standing for its `false` on failure;
      - buildQuery: http_build_query;
      - urlDecode: urldecode;
      - jsonDecode: json_decode($s, true) followed by json_last_error(), Err
        carrying the error code. */
  datatype Library = Library(
    jsonEncode: PhpArray -> Option<string>,
    buildQuery: PhpArray -> string,
    urlDecode: string -> string,
    jsonDecode: string -> Result<Value, nat>)

  /** empty() on a string value. */
  predicate IsEmptyString(s: string) { s == "" || s == "0" }

  // ---------------------------------------------------------------------
  // Header arrays

  /** PHP arrays never hold a key twice. */
  predicate DistinctKeys(m: Headers)
  {
    forall i, j :: 0 <= i < j < |m| ==> m[i].0 != m[j].0
  }

  predicate HasKey(m: Headers, k: string)
  {
    exists i :: 0 <= i < |m| && m[i].0 == k
  }

  /** $m[$k], None when the key is absent. */
  function Get(m: Headers, k: string): (r: Option<string>)
    ensures r.Some? <==> HasKey(m, k)
  {
    if m == [] then None
    else if m[0].0 == k then Some(m[0].1)
    else
      assert forall i :: 1 <= i < |m| ==> m[1..][i - 1] == m[i];
      Get(m[1..], k)
  }

  /** In an array, the value stored under the key of entry `i` is that entry's value. */
  lemma {:induction false} GetAt(m: Headers, i: nat)
    requires DistinctKeys(m) && i < |m|
    ensures Get(m, m[i].0) == Some(m[i].1)
  {
    if i > 0 {
      assert m[0].0 != m[i].0;
      GetAt(m[1..], i - 1);
    }
  }

  /** $m[$k] = $v: an existing key keeps its position and gets the new
      value; a new key is appended. */
  function Put(m: Headers, k: string, v: string): (r: Headers)
    requires DistinctKeys(m)
    ensures DistinctKeys(r)
    ensures HasKey(m, k) ==> |r| == |m| && forall i :: 0 <= i < |m| ==> r[i] == (if m[i].0 == k then (k, v) else m[i])
    ensures !HasKey(m, k) ==> r == m + [(k, v)]
    ensures forall k' :: Get(r, k') == if k' == k then Some(v) else Get(m, k')
  {
    if m == [] then [(k, v)]
    else if m[0].0 == k then
      var r := [(k, v)] + m[1..];
      assert r[1..] == m[1..];
      r
    else
      var r' := Put(m[1..], k, v);
      var r := [m[0]] + r';
      assert r[1..] == r';
      assert HasKey(m, k) ==> HasKey(m[1..], k);
      r
  }

  // ---------------------------------------------------------------------
  // array_change_key_case($headers, CASE_LOWER)

  /** Some header name lower-cases to `k`. */
  ghost predicate NamedLower(hs: Headers, k: string)
  {
    exists i :: 0 <= i < |hs| && Lower(hs[i].0) == k
  }

  /** The value of the last header whose lower-cased name is `k`. */
  function LastValue(hs: Headers, k: string): (r: Option<string>)
    ensures r.Some? <==> NamedLower(hs, k)
  {
    if hs == [] then None
    else if Lower(hs[|hs| - 1].0) == k then Some(hs[|hs| - 1].1)
    else LastValue(hs[..|hs| - 1], k)
  }

  /** The position of the first header whose lower-cased name is `k` (|hs| if none). */
  function FirstIndex(hs: Headers, k: string): (n: nat)
    ensures n <= |hs|
    ensures n < |hs| ==> Lower(hs[n].0) == k
    ensures forall i :: 0 <= i < n ==> Lower(hs[i].0) != k
  {
    if hs == [] then 0
    else if Lower(hs[0].0) == k then 0
    else 1 + FirstIndex(hs[1..], k)
  }

  /** array_change_key_case($hs, CASE_LOWER): names are lower-cased; names
      that then coincide collapse into one entry, at the first one's
      position, holding the last one's value. */
  function ChangeKeyCaseLower(hs: Headers): (r: Headers)
    ensures DistinctKeys(r)
    ensures forall i :: 0 <= i < |r| ==> IsLowerCase(r[i].0)
    ensures forall k :: Get(r, k) == LastValue(hs, k)
    ensures |r| == 0 <==> |hs| == 0
  {
    if hs == [] then []
    else
      var last := hs[|hs| - 1];
      Put(ChangeKeyCaseLower(hs[..|hs| - 1]), Lower(last.0), last.1)
  }

  lemma FirstIndexInPrefix(p: Headers, e: (string, string), k: string)
    requires NamedLower(p, k)
    ensures FirstIndex(p + [e], k) == FirstIndex(p, k) < |p|
  {
    var hs := p + [e];
    var w :| 0 <= w < |p| && Lower(p[w].0) == k;
    var n := FirstIndex(p, k);
    assert n <= w by {
      assert Lower(p[w].0) == k;
    }
    assert Lower(hs[n].0) == k by {
      assert hs[n] == p[n];
    }
    var m := FirstIndex(hs, k);
    if m < |p| {
      assert Lower(p[m].0) == k by {
        assert hs[m] == p[m];
      }
    }
  }

  lemma FirstIndexAtEnd(p: Headers, e: (string, string))
    requires !NamedLower(p, Lower(e.0))
    ensures FirstIndex(p + [e], Lower(e.0)) == |p|
  {
    var hs := p + [e];
    assert Lower(hs[|p|].0) == Lower(e.0);
    forall i | 0 <= i < |p|
      ensures Lower(hs[i].0) != Lower(e.0)
    {
      assert hs[i] == p[i];
    }
  }

  /** Every name in the lower-cased array first occurs in the given headers. */
  lemma NamesComeFromHeaders(hs: Headers, i: nat)
    requires i < |ChangeKeyCaseLower(hs)|
    ensures NamedLower(hs, ChangeKeyCaseLower(hs)[i].0)
  {
    GetAt(ChangeKeyCaseLower(hs), i);
  }

  /** Entries of `r` come in the order in which their names first occur in `hs`. */
  ghost predicate InFirstOccurrenceOrder(hs: Headers, r: Headers)
  {
    forall i, j :: 0 <= i < j < |r| ==> FirstIndex(hs, r[i].0) < FirstIndex(hs, r[j].0)
  }

  /** Putting the last header's name into an array ordered by first
      occurrence keeps it ordered by first occurrence. */
  lemma OrderAfterPut(hs: Headers, p: Headers, e: (string, string), r': Headers, r: Headers)
    requires hs == p + [e]
    requires InFirstOccurrenceOrder(p, r')
    requires forall i :: 0 <= i < |r'| ==> FirstIndex(hs, r'[i].0) == FirstIndex(p, r'[i].0) < |p|
    requires || (|r| == |r'| && forall i :: 0 <= i < |r| ==> r[i].0 == r'[i].0)
             || (r == r' + [(Lower(e.0), e.1)] && FirstIndex(hs, Lower(e.0)) == |p|)
    ensures InFirstOccurrenceOrder(hs, r)
  {
    forall i, j | 0 <= i < j < |r|
      ensures FirstIndex(hs, r[i].0) < FirstIndex(hs, r[j].0)
    {
      assert r[i].0 == r'[i].0;
      if j < |r'| {
        assert r[j].0 == r'[j].0;
        assert FirstIndex(p, r'[i].0) < FirstIndex(p, r'[j].0);
      }
    }
  }

  /** Entries of the lower-cased array come in the order in which their
      names first occur among the given headers. */
  lemma {:induction false} ChangeKeyCaseKeepsFirstOccurrenceOrder(hs: Headers)
    ensures InFirstOccurrenceOrder(hs, ChangeKeyCaseLower(hs))
  {
    if hs != [] {
      var p := hs[..|hs| - 1];
      var e := hs[|hs| - 1];
      var key := Lower(e.0);
      assert hs == p + [e];
      var r' := ChangeKeyCaseLower(p);
      var r := ChangeKeyCaseLower(hs);
      assert r == Put(r', key, e.1);
      ChangeKeyCaseKeepsFirstOccurrenceOrder(p);
      forall i | 0 <= i < |r'|
        ensures FirstIndex(hs, r'[i].0) == FirstIndex(p, r'[i].0) < |p|
      {
        NamesComeFromHeaders(p, i);
        FirstIndexInPrefix(p, e, r'[i].0);
      }
      if !HasKey(r', key) {
        assert Get(r', key) == LastValue(p, key);
        FirstIndexAtEnd(p, e);
      }
      OrderAfterPut(hs, p, e, r', r);
    }
  }

  /** Two header lists that differ at most in the case of their names. */
  predicate SameUpToNameCase(h1: Headers, h2: Headers)
  {
    && |h1| == |h2|
    && forall i :: 0 <= i < |h1| ==> Lower(h1[i].0) == Lower(h2[i].0) && h1[i].1 == h2[i].1
  }

  /** array_change_key_case only sees the lower-cased names: headers that
      differ only in the case of their names give the same array. */
  lemma {:induction false} ChangeKeyCaseIgnoresNameCase(h1: Headers, h2: Headers)
    requires SameUpToNameCase(h1, h2)
    ensures ChangeKeyCaseLower(h1) == ChangeKeyCaseLower(h2)
  {
    if h1 != [] {
      var n := |h1|;
      var p1, p2 := h1[..n - 1], h2[..n - 1];
      assert SameUpToNameCase(p1, p2) by {
        forall i | 0 <= i < n - 1
          ensures Lower(p1[i].0) == Lower(p2[i].0) && p1[i].1 == p2[i].1
        {
          assert p1[i] == h1[i] && p2[i] == h2[i];
        }
      }
      ChangeKeyCaseIgnoresNameCase(p1, p2);
      var e1, e2 := h1[n - 1], h2[n - 1];
      assert Lower(e1.0) == Lower(e2.0) && e1.1 == e2.1;
    }
  }
}
