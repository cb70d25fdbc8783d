/** String primitives the storefront relies on: prefixes, substring search,
    JavaScript's notion of a blank string, PHP's trim() with a character list,
    PHP's falsy strings and PHP's conversion of an integer to a string. */
module Strings {

  /** s begins with p (JavaScript startsWith, PHP strpos(s, p) === 0). */
  predicate StartsWith(s: string, p: string) {
    |p| <= |s| && s[..|p|] == p
  }

  /** A prefix fixes the characters it covers. */
  lemma PrefixChar(s: string, p: string, k: nat)
    requires StartsWith(s, p) && k < |p|
    ensures s[k] == p[k]
  {
    assert s[..|p|][k] == s[k];
  }

  /** One mismatching character rules a prefix out. */
  lemma NotPrefixAt(s: string, p: string, k: nat)
    requires k < |p| && (k >= |s| || s[k] != p[k])
    ensures !StartsWith(s, p)
  {
    if k < |s| && |p| <= |s| {
      assert s[..|p|][k] == s[k];
    }
  }

  /** t occurs in s at offset i. */
  predicate OccursAt(s: string, t: string, i: nat) {
    i + |t| <= |s| && s[i..i + |t|] == t
  }

  /** Substring search, as SQL `LIKE '%t%'` matches when t holds no wildcard. */
  function Contains(s: string, t: string): (b: bool)
    ensures b <==> exists i: nat :: OccursAt(s, t, i)
    decreases |s|
  {
    if |t| > |s| then
      assert forall i: nat :: !OccursAt(s, t, i);
      false
    else if StartsWith(s, t) then
      assert OccursAt(s, t, 0);
      true
    else
      OccursShift(s, t);
      Contains(s[1..], t)
  }

  /** When t is not a prefix of s, t occurs in s exactly when it occurs in s[1..]. */
  lemma OccursShift(s: string, t: string)
    requires |s| >= 1 && !StartsWith(s, t)
    ensures (exists i: nat :: OccursAt(s, t, i)) <==> (exists j: nat :: OccursAt(s[1..], t, j))
  {
    if exists j: nat :: OccursAt(s[1..], t, j) {
      var j: nat :| OccursAt(s[1..], t, j);
      assert s[1..][j..j + |t|] == s[j + 1..j + 1 + |t|];
      assert OccursAt(s, t, j + 1);
    }
    if exists i: nat :: OccursAt(s, t, i) {
      var i: nat :| OccursAt(s, t, i);
      if i == 0 {
        assert false;
      }
      assert s[1..][i - 1..i - 1 + |t|] == s[i..i + |t|];
      assert OccursAt(s[1..], t, i - 1);
    }
  }

  /** The characters JavaScript's String.prototype.trim removes: the
      WhiteSpace and LineTerminator code points of ECMAScript. */
  predicate IsJsWhitespace(c: char) {
    c == '\t' || c == '\n' || c == '\U{000B}' || c == '\U{000C}' || c == '\r' || c == ' '
    || c == '\U{00A0}' || c == '\U{1680}' || ('\U{2000}' <= c <= '\U{200A}')
    || c == '\U{2028}' || c == '\U{2029}' || c == '\U{202F}' || c == '\U{205F}'
    || c == '\U{3000}' || c == '\U{FEFF}'
  }

  /** s.trim() === "" in JavaScript. */
  predicate IsBlank(s: string) {
    forall i :: 0 <= i < |s| ==> IsJsWhitespace(s[i])
  }

  /** The characters PHP's trim() removes when no list is given; Laravel's
      `required` rule rejects a string made only of these. */
  const PhpDefaultTrim: set<char> := {' ', '\t', '\n', '\r', '\0', '\U{000B}'}

  /** A string that passes Laravel's `required` rule: present and not blank. */
  predicate Filled(s: string) {
    exists k :: 0 <= k < |s| && s[k] !in PhpDefaultTrim
  }

  /** PHP's string falsiness: "" and "0" are the only falsy strings. */
  predicate PhpFalsyString(s: string) {
    s == "" || s == "0"
  }

  /** Number of leading characters of s that belong to cut. */
  function LeadingRun(s: string, cut: set<char>): (n: nat)
    ensures n <= |s|
    ensures forall k :: 0 <= k < n ==> s[k] in cut
    ensures n < |s| ==> s[n] !in cut
  {
    if s == [] || s[0] !in cut then 0
    else
      var n := LeadingRun(s[1..], cut);
      assert forall k :: 1 <= k < n + 1 ==> s[k] == s[1..][k - 1];
      n + 1
  }

  /** Number of trailing characters of s that belong to cut. */
  function TrailingRun(s: string, cut: set<char>): (n: nat)
    ensures n <= |s|
    ensures forall k :: |s| - n <= k < |s| ==> s[k] in cut
    ensures n < |s| ==> s[|s| - n - 1] !in cut
  {
    if s == [] || s[|s| - 1] !in cut then 0
    else
      var init := s[..|s| - 1];
      var n := TrailingRun(init, cut);
      assert forall k :: |s| - 1 - n <= k < |s| - 1 ==> s[k] == init[k];
      n + 1
  }

  /** PHP's trim(s, characters): strips every leading and trailing character
      that belongs to cut, and nothing else. The result is a contiguous slice of
      s whose ends are outside cut; everything cut away is in cut. */
  function PhpTrim(s: string, cut: set<char>): (r: string)
    ensures exists i, j :: 0 <= i <= j <= |s| && r == s[i..j]
              && (forall k :: 0 <= k < i ==> s[k] in cut)
              && (forall k :: j <= k < |s| ==> s[k] in cut)
    ensures r != [] ==> r[0] !in cut && r[|r| - 1] !in cut
  {
    var i := LeadingRun(s, cut);
    var n := TrailingRun(s[i..], cut);
    TrimBounds(s, cut, i, n);
    s[i..|s| - n]
  }

  /** The cut points PhpTrim uses: the leading run ends at i, the trailing
      run of the rest starts at |s| - n, and the characters at the new ends stay. */
  lemma TrimBounds(s: string, cut: set<char>, i: nat, n: nat)
    requires i == LeadingRun(s, cut) && n == TrailingRun(s[i..], cut)
    ensures i <= |s| - n
    ensures forall k :: |s| - n <= k < |s| ==> s[k] in cut
    ensures i < |s| - n ==> s[i] !in cut && s[|s| - n - 1] !in cut
  {
    var rest := s[i..];
    assert forall k :: |rest| - n <= k < |rest| ==> rest[k] == s[i + k];
  }

  /** A slice of s with both ends outside cut and only cut characters removed
      is unique: it is what PhpTrim returns. */
  lemma PhpTrimUnique(s: string, cut: set<char>, i: nat, j: nat)
    requires i <= j <= |s|
    requires forall k :: 0 <= k < i ==> s[k] in cut
    requires forall k :: j <= k < |s| ==> s[k] in cut
    requires i < j ==> s[i] !in cut && s[j - 1] !in cut
    requires i == j ==> forall k :: 0 <= k < |s| ==> s[k] in cut
    ensures PhpTrim(s, cut) == s[i..j]
  {
    var i0 := LeadingRun(s, cut);
    var rest := s[i0..];
    var n := TrailingRun(rest, cut);
    if i < j {
      assert i0 == i;
      assert |rest| - n == j - i;
    } else {
      assert i0 == |s|;
    }
  }

  /** Trimming twice with the same characters changes nothing more. */
  lemma PhpTrimIdempotent(s: string, cut: set<char>)
    ensures PhpTrim(PhpTrim(s, cut), cut) == PhpTrim(s, cut)
  {
    var r := PhpTrim(s, cut);
    if r == [] {
    } else {
      PhpTrimUnique(r, cut, 0, |r|);
    }
  }

  /** A decimal digit. */
  function DigitChar(d: nat): (c: char)
    requires d < 10
    ensures '0' <= c <= '9'
  {
    ['0', '1', '2', '3', '4', '5', '6', '7', '8', '9'][d]
  }

  /** Decimal representation of a natural number, most significant digit first. */
  function NatToDecimal(n: nat): (r: string)
    ensures |r| >= 1
    ensures n >= 10 ==> |r| >= 2
    ensures forall k :: 0 <= k < |r| ==> '0' <= r[k] <= '9'
  {
    if n < 10 then [DigitChar(n)] else NatToDecimal(n / 10) + [DigitChar(n % 10)]
  }

  /** PHP's string conversion of an integer. */
  function IntToDecimal(n: int): (r: string)
    ensures r != ""
    ensures r == "0" <==> n == 0
  {
    if n < 0 then "-" + NatToDecimal(-n) else NatToDecimal(n)
  }
}
