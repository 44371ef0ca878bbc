/** JavaScript's String.prototype.trim, the one string operation both the page and
    the create endpoint rely on to tell a real title from a blank one. */
module JsString {

  /** The WhiteSpace and LineTerminator code points of ECMA-262 (sections 12.2 and
      12.3): exactly the set String.prototype.trim strips from both ends. Tab,
      line feed, vertical tab, form feed and carriage return are the range
      U+0009..U+000D; the space separators (category Zs) are listed as of
      Unicode 15. */
  predicate IsWhitespace(c: char) {
    || ('\t' <= c <= '\r') || c == ' ' || c == '\U{00A0}' || c == '\U{1680}'
    || ('\U{2000}' <= c <= '\U{200A}') || c == '\U{2028}' || c == '\U{2029}'
    || c == '\U{202F}' || c == '\U{205F}' || c == '\U{3000}' || c == '\U{FEFF}'
  }

  predicate AllWhitespace(s: string) {
    forall i :: 0 <= i < |s| ==> IsWhitespace(s[i])
  }

  /** Neither the first nor the last character is whitespace (true of ""). */
  predicate NoEdgeWhitespace(s: string) {
    s == [] || (!IsWhitespace(s[0]) && !IsWhitespace(s[|s| - 1]))
  }

  /** The number of whitespace characters `s` starts with. */
  function LeadingWhitespace(s: string): (n: nat)
    ensures n <= |s|
    ensures forall i :: 0 <= i < n ==> IsWhitespace(s[i])
    ensures n < |s| ==> !IsWhitespace(s[n])
  {
    if |s| > 0 && IsWhitespace(s[0]) then 1 + LeadingWhitespace(s[1..]) else 0
  }

  /** The number of whitespace characters `s` ends with. */
  function TrailingWhitespace(s: string): (n: nat)
    ensures n <= |s|
    ensures forall i :: |s| - n <= i < |s| ==> IsWhitespace(s[i])
    ensures n < |s| ==> !IsWhitespace(s[|s| - 1 - n])
  {
    if |s| > 0 && IsWhitespace(s[|s| - 1]) then 1 + TrailingWhitespace(s[..|s| - 1]) else 0
  }

  /** `s.trim()`: the text between the leading and the trailing whitespace. */
  function Trim(s: string): (r: string)
    ensures NoEdgeWhitespace(r)
    ensures |r| <= |s|
  {
    var lead := LeadingWhitespace(s);
    if lead == |s| then [] else s[lead..|s| - TrailingWhitespace(s)]
  }

  /** Trimming only removes whitespace, and only at the two ends: the result is
      a contiguous slice of `s` framed by whitespace on both sides. */
  lemma TrimKeepsMiddle(s: string)
    ensures exists i, j :: 0 <= i <= j <= |s| && Trim(s) == s[i..j]
                           && AllWhitespace(s[..i]) && AllWhitespace(s[j..])
  {
    var lead := LeadingWhitespace(s);
    if lead == |s| {
      assert Trim(s) == s[lead..lead];
      assert AllWhitespace(s[..lead]);
    } else {
      var j := |s| - TrailingWhitespace(s);
      assert Trim(s) == s[lead..j];
      assert AllWhitespace(s[..lead]);
      assert AllWhitespace(s[j..]);
    }
  }

  /** Leading whitespace in front of a string that does not start with
      whitespace is exactly what gets counted. */
  lemma LeadingWhitespaceOf(pre: string, rest: string)
    requires AllWhitespace(pre)
    requires rest != [] && !IsWhitespace(rest[0])
    ensures LeadingWhitespace(pre + rest) == |pre|
  {
    var s := pre + rest;
    assert s[|pre|] == rest[0];
    assert forall i :: 0 <= i < |pre| ==> s[i] == pre[i];
  }

  /** Trailing whitespace behind a string that does not end with whitespace is
      exactly what gets counted. */
  lemma TrailingWhitespaceOf(rest: string, post: string)
    requires AllWhitespace(post)
    requires rest != [] && !IsWhitespace(rest[|rest| - 1])
    ensures TrailingWhitespace(rest + post) == |post|
  {
    var s := rest + post;
    assert s[|rest| - 1] == rest[|rest| - 1];
    assert forall i :: |rest| <= i < |s| ==> s[i] == post[i - |rest|];
  }

  /** Uniqueness: whatever way `s` splits into whitespace, a middle without edge
      whitespace, and whitespace, trimming yields that middle. Together with
      TrimKeepsMiddle and Trim's own contract this pins `Trim` down completely. */
  lemma TrimOfFramed(pre: string, mid: string, post: string)
    requires AllWhitespace(pre) && AllWhitespace(post)
    requires NoEdgeWhitespace(mid)
    ensures Trim(pre + mid + post) == mid
  {
    var s := pre + mid + post;
    if mid == [] {
      assert s == pre + post;
      assert AllWhitespace(s);
      assert LeadingWhitespace(s) == |s|;
    } else {
      assert s == pre + (mid + post);
      LeadingWhitespaceOf(pre, mid + post);
      TrailingWhitespaceOf(pre + mid, post);
      assert s[|pre|..|pre| + |mid|] == mid;
    }
  }

  /** Trimming twice is trimming once. */
  lemma TrimIdempotent(s: string)
    ensures Trim(Trim(s)) == Trim(s)
  {
    TrimOfFramed([], Trim(s), []);
    assert [] + Trim(s) + [] == Trim(s);
  }

  /** A string is its own trim exactly when it has no whitespace at either end. */
  lemma TrimFixedPoints(s: string)
    ensures Trim(s) == s <==> NoEdgeWhitespace(s)
  {
    if NoEdgeWhitespace(s) {
      TrimOfFramed([], s, []);
      assert [] + s + [] == s;
    }
  }

  /** A string trims to "" exactly when it is whitespace only (or empty). */
  lemma TrimEmptyIffBlank(s: string)
    ensures Trim(s) == "" <==> AllWhitespace(s)
  {
    if AllWhitespace(s) {
      TrimOfFramed(s, [], []);
      assert s + [] + [] == s;
    }
    if Trim(s) == "" {
      assert LeadingWhitespace(s) == |s|;
    }
  }
}
