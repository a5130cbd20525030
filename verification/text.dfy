/** Whitespace trimming as done by `String.prototype.trim`. */
module Text {

  /** The characters `trim` removes: ECMAScript WhiteSpace and LineTerminator code points. */
  const Whitespace: set<char> := {
    '\t', '\n', '\U{000B}', '\U{000C}', '\r', ' ', '\U{00A0}', '\U{1680}',
    '\U{2000}', '\U{2001}', '\U{2002}', '\U{2003}', '\U{2004}', '\U{2005}',
    '\U{2006}', '\U{2007}', '\U{2008}', '\U{2009}', '\U{200A}',
    '\U{2028}', '\U{2029}', '\U{202F}', '\U{205F}', '\U{3000}', '\U{FEFF}'
  }

  predicate IsSpace(c: char)
  {
    c in Whitespace
  }

  predicate AllSpace(s: string)
  {
    forall i :: 0 <= i < |s| ==> IsSpace(s[i])
  }

  /** The first index at or after `i` that holds a non-space character, or `|s|` if there is none. */
  function SkipLeading(s: string, i: nat): (k: nat)
    requires i <= |s|
    ensures i <= k <= |s|
    ensures forall j :: i <= j < k ==> IsSpace(s[j])
    ensures k == |s| || !IsSpace(s[k])
    decreases |s| - i
  {
    if i < |s| && IsSpace(s[i]) then SkipLeading(s, i + 1) else i
  }

  /** Moving `end` left from `hi` over spaces, but not past `lo`: the end of the trimmed text. */
  function SkipTrailing(s: string, lo: nat, hi: nat): (e: nat)
    requires lo <= hi <= |s|
    ensures lo <= e <= hi
    ensures forall j :: e <= j < hi ==> IsSpace(s[j])
    ensures e == lo || !IsSpace(s[e - 1])
  {
    if lo < hi && IsSpace(s[hi - 1]) then SkipTrailing(s, lo, hi - 1) else hi
  }

  /** Number of leading whitespace characters of `s`. */
  function LeadingSpaces(s: string): (k: nat)
    ensures k <= |s|
  {
    SkipLeading(s, 0)
  }

  /**
   * `s.trim()`: the infix of `s` starting after its leading whitespace, such that only
   * whitespace lies on either side and the infix is empty or starts and ends with a
   * non-whitespace character.
   */
  function Trim(s: string): (r: string)
    ensures LeadingSpaces(s) + |r| <= |s|
    ensures r == s[LeadingSpaces(s)..LeadingSpaces(s) + |r|]
    ensures forall i :: 0 <= i < LeadingSpaces(s) ==> IsSpace(s[i])
    ensures forall i :: LeadingSpaces(s) + |r| <= i < |s| ==> IsSpace(s[i])
    ensures r != [] ==> !IsSpace(r[0]) && !IsSpace(r[|r| - 1])
  {
    var start := SkipLeading(s, 0);
    s[start..SkipTrailing(s, start, |s|)]
  }

  /** The trimmed label is empty exactly when the label is all whitespace. */
  lemma TrimEmptyIff(s: string)
    ensures Trim(s) == [] <==> AllSpace(s)
  {
    var r, k := Trim(s), LeadingSpaces(s);
    if r != [] {
      assert s[k] == r[0];
    }
  }

  /** The scan for the first non-space character is determined by what it promises. */
  lemma SkipLeadingAt(s: string, i: nat, k: nat)
    requires i <= k <= |s|
    requires forall j :: i <= j < k ==> IsSpace(s[j])
    requires k == |s| || !IsSpace(s[k])
    ensures SkipLeading(s, i) == k
  {
  }

  /** The scan for the end of the trimmed text is determined by what it promises. */
  lemma SkipTrailingAt(s: string, lo: nat, hi: nat, e: nat)
    requires lo <= e <= hi <= |s|
    requires forall j :: e <= j < hi ==> IsSpace(s[j])
    requires e == lo || !IsSpace(s[e - 1])
    ensures SkipTrailing(s, lo, hi) == e
  {
  }

  /**
   * Independent characterisation of trim: whenever `s` splits as whitespace, then a
   * middle part that neither starts nor ends with a space, then whitespace, `Trim(s)`
   * is that middle part.
   */
  lemma TrimIsMiddle(a: string, m: string, b: string)
    requires AllSpace(a) && AllSpace(b)
    requires m == [] || (!IsSpace(m[0]) && !IsSpace(m[|m| - 1]))
    ensures Trim(a + m + b) == m
  {
    var s := a + m + b;
    forall j | 0 <= j < |a| ensures IsSpace(s[j]) {
      assert s[j] == a[j];
    }
    forall j | |a| + |m| <= j < |s| ensures IsSpace(s[j]) {
      assert s[j] == b[j - |a| - |m|];
    }
    if m == [] {
      SkipLeadingAt(s, 0, |s|);
      SkipTrailingAt(s, |s|, |s|, |s|);
    } else {
      assert s[|a|] == m[0];
      assert s[|a| + |m| - 1] == m[|m| - 1];
      SkipLeadingAt(s, 0, |a|);
      SkipTrailingAt(s, |a|, |s|, |a| + |m|);
      assert s[|a|..|a| + |m|] == m;
    }
  }

  /** Trimming twice is trimming once. */
  lemma TrimIdempotent(s: string)
    ensures Trim(Trim(s)) == Trim(s)
  {
    var r := Trim(s);
    var none: string := [];
    TrimIsMiddle(none, r, none);
    assert none + r + none == r;
  }
}
