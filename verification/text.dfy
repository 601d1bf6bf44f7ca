/**
 * Whitespace trimming as JavaScript's `String.prototype.trim` performs it:
 * leading and trailing WhiteSpace and LineTerminator characters are removed.
 */
module Text {

  /** The WhiteSpace and LineTerminator code points of ECMA-262 (sections 12.2
      and 12.3): tab, line feed, vertical tab, form feed, carriage return, the
      byte order mark, the line and paragraph separators, and the code points
      of Unicode category Zs (the space, U+00A0, U+1680, U+2000 to U+200A,
      U+202F, U+205F and U+3000). */
  predicate IsSpace(c: char) {
    if c < '\U{A0}' then
      c == ' ' || ('\t' <= c <= '\r')
    else
      c == '\U{A0}' || c == '\U{1680}' || ('\U{2000}' <= c <= '\U{200A}')
      || c == '\U{2028}' || c == '\U{2029}' || c == '\U{202F}' || c == '\U{205F}'
      || c == '\U{3000}' || c == '\U{FEFF}'
  }

  /** No printable ASCII character other than the space is whitespace. */
  lemma PrintableIsNotSpace(c: char)
    requires '!' <= c <= '~'
    ensures !IsSpace(c)
  {
  }

  /** The em dash of the author line is not whitespace. */
  lemma EmDashIsNotSpace()
    ensures !IsSpace('—')
  {
  }

  /** The space character is whitespace. */
  lemma SpaceIsSpace()
    ensures IsSpace(' ')
  {
  }

  /** Every character of `s` is whitespace (this includes the empty string). */
  predicate IsBlank(s: string) {
    forall k :: 0 <= k < |s| ==> IsSpace(s[k])
  }

  /** The number of whitespace characters `s` starts with. */
  function LeadingSpaces(s: string): (n: nat)
    ensures n <= |s| && IsBlank(s[..n])
    ensures n < |s| ==> !IsSpace(s[n])
  {
    if s == [] || !IsSpace(s[0]) then 0
    else
      var m := LeadingSpaces(s[1..]);
      assert s[..1 + m] == [s[0]] + s[1..][..m];
      1 + m
  }

  /** The number of whitespace characters `s` ends with. */
  function TrailingSpaces(s: string): (n: nat)
    ensures n <= |s| && IsBlank(s[|s| - n..])
    ensures n < |s| ==> !IsSpace(s[|s| - n - 1])
  {
    if s == [] || !IsSpace(s[|s| - 1]) then 0
    else
      var m := TrailingSpaces(s[..|s| - 1]);
      BlankSuffixGrows(s, m);
      assert 1 + m < |s| ==> s[|s| - 2 - m] == s[..|s| - 1][|s| - 2 - m];
      1 + m
  }

  /** A blank suffix of all but the last character, followed by a whitespace
      last character, is a blank suffix of the whole. */
  lemma BlankSuffixGrows(s: string, m: nat)
    requires 0 < |s| && m < |s| && IsSpace(s[|s| - 1])
    requires IsBlank(s[..|s| - 1][|s| - 1 - m..])
    ensures IsBlank(s[|s| - 1 - m..])
  {
    var whole, init := s[|s| - 1 - m..], s[..|s| - 1][|s| - 1 - m..];
    forall k | 0 <= k < |whole| ensures IsSpace(whole[k]) {
      if k < m {
        assert whole[k] == init[k];
      }
    }
  }

  /** `s.trim()`: the slice of `s` left once the whitespace at both ends is
      removed. It is empty exactly when `s` is blank, and otherwise starts and
      ends with a non-whitespace character. */
  function Trim(s: string): (r: string)
    ensures var i := LeadingSpaces(s);
      i + |r| <= |s| && r == s[i..i + |r|] && IsBlank(s[..i]) && IsBlank(s[i + |r|..])
    ensures r == [] <==> IsBlank(s)
    ensures r == [] || (!IsSpace(r[0]) && !IsSpace(r[|r| - 1]))
  {
    var i := LeadingSpaces(s);
    var t := s[i..];
    var r := t[..|t| - TrailingSpaces(t)];
    assert s[i + |r|..] == t[|r|..];
    assert r == [] ==> IsBlank(s) by {
      if r == [] {
        assert i == |s|;
        forall k | 0 <= k < |s| ensures IsSpace(s[k]) {
          assert s[k] == s[..i][k];
        }
      }
    }
    r
  }

  /** Trim is fully determined by its contract: any slice of `s` that is
      surrounded by whitespace only and does not itself start or end with
      whitespace is `Trim(s)`. */
  lemma TrimUnique(s: string, i: nat, j: nat)
    requires i <= j <= |s|
    requires IsBlank(s[..i]) && IsBlank(s[j..])
    requires i < j ==> !IsSpace(s[i]) && !IsSpace(s[j - 1])
    ensures Trim(s) == s[i..j]
  {
    if i == j {
      forall k | 0 <= k < |s| ensures IsSpace(s[k]) {
        if k < i { assert s[k] == s[..i][k]; } else { assert s[k] == s[j..][k - j]; }
      }
    } else {
      var a := LeadingSpaces(s);
      var r := Trim(s);
      assert a == i;
      assert a + |r| == j;
    }
  }

  /** A string with no whitespace at either end is its own trim. */
  lemma TrimOfTrimmed(s: string)
    requires s == [] || (!IsSpace(s[0]) && !IsSpace(s[|s| - 1]))
    ensures Trim(s) == s
  {
    assert s[..0] == [] && s[|s|..] == [];
    TrimUnique(s, 0, |s|);
  }

  /** Trimming twice is trimming once. */
  lemma TrimIdempotent(s: string)
    ensures Trim(Trim(s)) == Trim(s)
  {
    TrimOfTrimmed(Trim(s));
  }
}
