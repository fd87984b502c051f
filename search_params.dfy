/** Query validation of the search component (`validateSearchParams`). */
module SearchParams {

  /** The parameters object that accompanies a query. The stricter checks on it are
      switched off in the source, so validation never looks at it. */
  datatype SearchParameters = SearchParameters(kind: string, tags: seq<string>)

  /** The code points that ECMAScript's `String.prototype.trim` strips: the WhiteSpace
      set (tab, vertical tab, form feed, space, no-break space, the byte order mark and
      the other space separators of category Zs) and the LineTerminator set. */
  predicate IsJsWhitespace(c: char)
  {
    var n := c as int;
    || n == 0x09 || n == 0x0A || n == 0x0B || n == 0x0C || n == 0x0D
    || n == 0x20 || n == 0xA0 || n == 0x1680
    || (0x2000 <= n <= 0x200A)
    || n == 0x2028 || n == 0x2029 || n == 0x202F || n == 0x205F
    || n == 0x3000 || n == 0xFEFF
  }

  /** True when every character of `s` is whitespace (vacuously true of ""). */
  predicate AllWhitespace(s: string)
  {
    forall i :: 0 <= i < |s| ==> IsJsWhitespace(s[i])
  }

  /** The number of whitespace characters at the start of `s`. */
  function LeadingWhitespace(s: string): (n: nat)
    ensures n <= |s|
    ensures forall i :: 0 <= i < n ==> IsJsWhitespace(s[i])
    ensures n < |s| ==> !IsJsWhitespace(s[n])
  {
    if s == [] || !IsJsWhitespace(s[0]) then 0 else 1 + LeadingWhitespace(s[1..])
  }

  /** The number of whitespace characters at the end of `s`. */
  function TrailingWhitespace(s: string): (n: nat)
    ensures n <= |s|
    ensures forall i :: |s| - n <= i < |s| ==> IsJsWhitespace(s[i])
    ensures n < |s| ==> !IsJsWhitespace(s[|s| - n - 1])
  {
    if s == [] || !IsJsWhitespace(s[|s| - 1]) then 0 else 1 + TrailingWhitespace(s[..|s| - 1])
  }

  /** `String.prototype.trim`: whitespace removed at both ends. The result is a slice of
      the input with only whitespace before and after it; it is empty exactly when the
      input is all whitespace, and otherwise starts and ends with a character that is not
      whitespace. */
  function Trim(s: string): (r: string)
    ensures |r| <= |s|
    ensures exists k :: 0 <= k <= |s| - |r| && s[k..k + |r|] == r
                        && AllWhitespace(s[..k]) && AllWhitespace(s[k + |r|..])
    ensures r == [] <==> AllWhitespace(s)
    ensures r != [] ==> !IsJsWhitespace(r[0]) && !IsJsWhitespace(r[|r| - 1])
  {
    var k := LeadingWhitespace(s);
    var front := s[k..];
    var r := front[..|front| - TrailingWhitespace(front)];
    TrimFacts(s, k, r);
    r
  }

  /** What Trim's slice is: `r` sits at `k` in `s` with only whitespace on both sides, is
      empty exactly when `s` is all whitespace, and has non-whitespace ends. */
  lemma TrimFacts(s: string, k: nat, r: string)
    requires k == LeadingWhitespace(s)
    requires r == s[k..][..|s[k..]| - TrailingWhitespace(s[k..])]
    ensures k + |r| <= |s| && s[k..k + |r|] == r
    ensures AllWhitespace(s[..k]) && AllWhitespace(s[k + |r|..])
    ensures r == [] <==> AllWhitespace(s)
    ensures r != [] ==> !IsJsWhitespace(r[0]) && !IsJsWhitespace(r[|r| - 1])
  {
    var front := s[k..];
    var n := TrailingWhitespace(front);
    var tail := s[k + |r|..];
    forall i | 0 <= i < |tail| ensures IsJsWhitespace(tail[i]) {
      assert tail[i] == front[|front| - n + i];
    }
  }

  /** `validateSearchParams`: a query is accepted exactly when it has a character that is
      not whitespace. The parameters object does not influence the answer. */
  function ValidateSearchParams(query: string, parameters: SearchParameters): (ok: bool)
    ensures ok <==> exists i :: 0 <= i < |query| && !IsJsWhitespace(query[i])
  {
    !(query == [] || Trim(query) == [])
  }

}
