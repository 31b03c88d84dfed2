/**
 * The string primitives the catalog script relies on: HTML escaping
 * (escapeHtml), and the models of the JavaScript built-ins it calls on
 * user text (toLowerCase, trim and includes).
 */
module Strings {

  // ---------------------------------------------------------------------
  // HTML escaping
  // ---------------------------------------------------------------------

  /** The five characters the escaper replaces: & < > " ' */
  predicate IsSpecial(c: char) {
    c == '&' || c == '<' || c == '>' || c == '"' || c == '\''
  }

  /** The characters that would open or close markup or an attribute value. */
  predicate IsMarkup(c: char) {
    c == '<' || c == '>' || c == '"' || c == '\''
  }

  /** No character of t can open a tag or end a quoted attribute. */
  predicate NoMarkup(t: string) {
    forall i :: 0 <= i < |t| ==> !IsMarkup(t[i])
  }

  /** The replacement for one character: its entity, or the character itself. */
  function EscapeChar(c: char): string {
    match c
    case '&' => "&amp;"
    case '<' => "&lt;"
    case '>' => "&gt;"
    case '"' => "&quot;"
    case '\'' => "&#39;"
    case _ => [c]
  }

  /**
   * escapeHtml: every special character is replaced by its entity, every other
   * character is copied. The output holds no markup character and is never
   * shorter than the input; the empty string escapes to the empty string.
   */
  function EscapeHtml(s: string): (r: string)
    ensures NoMarkup(r)
    ensures |r| >= |s|
    ensures s == [] ==> r == []
  {
    if s == [] then [] else EscapeChar(s[0]) + EscapeHtml(s[1..])
  }

  /** Each special character becomes exactly its entity; any other character is copied. */
  lemma EscapeEntities(c: char)
    ensures EscapeHtml("&") == "&amp;" && EscapeHtml("<") == "&lt;" && EscapeHtml(">") == "&gt;"
    ensures EscapeHtml("\"") == "&quot;" && EscapeHtml("'") == "&#39;"
    ensures !IsSpecial(c) ==> EscapeHtml([c]) == [c]
  {
  }

  /**
   * The decoder of the five entities EscapeHtml produces: the reference
   * inverse against which escaping is proved lossless.
   */
  function Unescape(t: string): string
    decreases |t|
  {
    if t == [] then []
    else if "&amp;" <= t then "&" + Unescape(t[5..])
    else if "&lt;" <= t then "<" + Unescape(t[4..])
    else if "&gt;" <= t then ">" + Unescape(t[4..])
    else if "&quot;" <= t then "\"" + Unescape(t[6..])
    else if "&#39;" <= t then "'" + Unescape(t[5..])
    else [t[0]] + Unescape(t[1..])
  }

  /** Decoding the escape of one character followed by anything yields that character first. */
  lemma UnescapeEscapeChar(c: char, rest: string)
    ensures Unescape(EscapeChar(c) + rest) == [c] + Unescape(rest)
  {
    var t := EscapeChar(c) + rest;
    if c == '&' {
      assert "&amp;" <= t && t[5..] == rest;
    } else if c == '<' {
      assert "&lt;" <= t && t[4..] == rest;
      assert !("&amp;" <= t) by { assert t[1] == 'l'; }
    } else if c == '>' {
      assert "&gt;" <= t && t[4..] == rest;
      assert !("&amp;" <= t) by { assert t[1] == 'g'; }
      assert !("&lt;" <= t) by { assert t[1] == 'g'; }
    } else if c == '"' {
      assert "&quot;" <= t && t[6..] == rest;
      assert !("&amp;" <= t) && !("&lt;" <= t) && !("&gt;" <= t) by { assert t[1] == 'q'; }
    } else if c == '\'' {
      assert "&#39;" <= t && t[5..] == rest;
      assert !("&amp;" <= t) && !("&lt;" <= t) && !("&gt;" <= t) && !("&quot;" <= t) by { assert t[1] == '#'; }
    } else {
      assert t == [c] + rest;
      assert t[0] == c && c != '&';
      assert t[1..] == rest;
    }
  }

  /** Escaping loses nothing: decoding the output gives back the input. */
  lemma {:induction false} EscapeRoundTrip(s: string)
    ensures Unescape(EscapeHtml(s)) == s
  {
    if s != [] {
      UnescapeEscapeChar(s[0], EscapeHtml(s[1..]));
      EscapeRoundTrip(s[1..]);
    }
  }

  /** Escaping works character by character, so it distributes over concatenation. */
  lemma {:induction false} EscapeConcat(a: string, b: string)
    ensures EscapeHtml(a + b) == EscapeHtml(a) + EscapeHtml(b)
  {
    if a == [] {
      assert a + b == b;
    } else {
      assert (a + b)[0] == a[0];
      assert (a + b)[1..] == a[1..] + b;
      EscapeConcat(a[1..], b);
    }
  }

  /**
   * The output has exactly the input's length if and only if the input holds
   * no special character, and in that case it is the input itself.
   */
  lemma {:induction false} EscapeIdentity(s: string)
    ensures |EscapeHtml(s)| == |s| <==> forall i :: 0 <= i < |s| ==> !IsSpecial(s[i])
    ensures (forall i :: 0 <= i < |s| ==> !IsSpecial(s[i])) ==> EscapeHtml(s) == s
  {
    if s != [] {
      EscapeIdentity(s[1..]);
      assert forall i :: 1 <= i < |s| ==> s[i] == s[1..][i - 1];
      if IsSpecial(s[0]) {
        assert |EscapeHtml(s)| > |s|;
      } else {
        assert s == [s[0]] + s[1..];
      }
    }
  }

  /**
   * A tag in the text is rendered as inert text: both of its angle brackets
   * become entities, whatever the tag's name.
   */
  lemma EscapeTag(name: string)
    ensures EscapeHtml("<" + name + ">") == "&lt;" + EscapeHtml(name) + "&gt;"
  {
    EscapeConcat("<" + name, ">");
    EscapeConcat("<", name);
  }

  // ---------------------------------------------------------------------
  // toLowerCase (ASCII letters only)
  // ---------------------------------------------------------------------

  function LowerChar(c: char): char {
    if 'A' <= c <= 'Z' then (c as int + 32) as char else c
  }

  /**
   * toLowerCase restricted to the ASCII letters: the result has the input's
   * length and no capital letter, and every character that is not a capital
   * letter is kept in place.
   */
  function Lower(s: string): (r: string)
    ensures |r| == |s|
    ensures forall i :: 0 <= i < |r| ==> !('A' <= r[i] <= 'Z')
    ensures forall i :: 0 <= i < |s| && !('A' <= s[i] <= 'Z') ==> r[i] == s[i]
    ensures forall i :: 0 <= i < |s| && 'A' <= s[i] <= 'Z' ==> r[i] as int == s[i] as int + 32
  {
    seq(|s|, i requires 0 <= i < |s| => LowerChar(s[i]))
  }

  /** Lower-casing a text keeps it free of white space at either end. */
  lemma LowerEnds(s: string)
    requires s == [] || (!IsWhite(s[0]) && !IsWhite(s[|s| - 1]))
    ensures Lower(s) == [] || (!IsWhite(Lower(s)[0]) && !IsWhite(Lower(s)[|s| - 1]))
  {
    if s != [] {
      var r := Lower(s);
      assert r[0] == LowerChar(s[0]) && r[|s| - 1] == LowerChar(s[|s| - 1]);
    }
  }

  /** Lower-casing a slice is slicing the lower-cased string. */
  lemma LowerSlice(s: string, i: nat, j: nat)
    requires i <= j <= |s|
    ensures Lower(s)[i..j] == Lower(s[i..j])
  {
  }

  // ---------------------------------------------------------------------
  // trim
  // ---------------------------------------------------------------------

  /**
   * The characters String.prototype.trim removes: the ECMAScript WhiteSpace
   * (TAB, VT, FF, SP, NBSP, ZWNBSP and the Unicode space separators U+1680,
   * U+2000 to U+200A, U+202F, U+205F and U+3000) and LineTerminator (LF, CR,
   * LS, PS) code points.
   */
  predicate IsWhite(c: char) {
    || '\t' <= c <= '\r'
    || c == ' ' || c == '\U{00A0}' || c == '\U{1680}'
    || '\U{2000}' <= c <= '\U{200A}'
    || c == '\U{2028}' || c == '\U{2029}' || c == '\U{202F}' || c == '\U{205F}'
    || c == '\U{3000}' || c == '\U{FEFF}'
  }

  /**
   * Drops the leading white space: the result is s after its longest white
   * prefix, so it does not start with white space.
   */
  function TrimStart(s: string): (r: string)
    ensures r == s[LeadingWhite(s)..]
    ensures r == [] || !IsWhite(r[0])
  {
    if s != [] && IsWhite(s[0]) then
      assert s[1..][LeadingWhite(s[1..])..] == s[LeadingWhite(s)..];
      TrimStart(s[1..])
    else
      s
  }

  /** Drops the trailing white space: the result is the longest prefix that does not end with white space. */
  function TrimEnd(s: string): (r: string)
    ensures |r| <= |s| && r == s[..|r|]
    ensures forall k :: |r| <= k < |s| ==> IsWhite(s[k])
    ensures r == [] || !IsWhite(r[|r| - 1])
  {
    if s != [] && IsWhite(s[|s| - 1]) then TrimEnd(s[..|s| - 1]) else s
  }

  /** Every character of u is white space. */
  predicate AllWhite(u: string) {
    forall k :: 0 <= k < |u| ==> IsWhite(u[k])
  }

  /** r is the slice of s from i, and everything of s before and after that slice is white space. */
  predicate TrimmedAt(s: string, r: string, i: nat) {
    && i + |r| <= |s|
    && r == s[i..][..|r|]
    && (forall k :: 0 <= k < i ==> IsWhite(s[k]))
    && (forall k :: i + |r| <= k < |s| ==> IsWhite(s[k]))
  }

  /** The length of the longest prefix of s made of white space. */
  function LeadingWhite(s: string): (n: nat)
    ensures n <= |s| && AllWhite(s[..n])
    ensures n < |s| ==> !IsWhite(s[n])
  {
    if s != [] && IsWhite(s[0]) then
      var m := LeadingWhite(s[1..]);
      assert AllWhite(s[..m + 1]) by {
        var p, q := s[..m + 1], s[1..][..m];
        forall k | 0 <= k < |p| ensures IsWhite(p[k]) {
          if k > 0 {
            assert p[k] == q[k - 1];
          }
        }
      }
      assert m + 1 < |s| ==> s[m + 1] == s[1..][m];
      m + 1
    else
      0
  }

  /**
   * trim: the result is the slice of s that starts after its leading white
   * space and leaves only white space after it; it neither starts nor ends
   * with white space, and a string that already does not is returned unchanged.
   */
  function Trim(s: string): (r: string)
    ensures TrimmedAt(s, r, LeadingWhite(s))
    ensures r == [] || (!IsWhite(r[0]) && !IsWhite(r[|r| - 1]))
    ensures (s == [] || (!IsWhite(s[0]) && !IsWhite(s[|s| - 1]))) ==> r == s
  {
    TrimBothEnds(s);
    TrimEnd(TrimStart(s))
  }

  /** What TrimEnd drops is white space. */
  lemma TrimEndDrops(t: string)
    ensures AllWhite(t[|TrimEnd(t)|..])
  {
    var m := |TrimEnd(t)|;
    forall k | 0 <= k < |t| - m ensures IsWhite(t[m..][k]) {
      assert t[m..][k] == t[m + k];
    }
  }

  /** Trimming the start and then the end keeps a slice of s with only white space around it. */
  lemma TrimBothEnds(s: string)
    ensures TrimmedAt(s, TrimEnd(TrimStart(s)), LeadingWhite(s))
  {
    var t, n := TrimStart(s), LeadingWhite(s);
    var r := TrimEnd(t);
    TrimEndDrops(t);
    TrimmedFromParts(s, n, t, r);
  }

  /**
   * A prefix r of the suffix t of s from n, with only white space before n
   * in s and after r in t, is s trimmed at n.
   */
  lemma TrimmedFromParts(s: string, n: nat, t: string, r: string)
    requires n <= |s| && t == s[n..] && AllWhite(s[..n])
    requires |r| <= |t| && r == t[..|r|] && AllWhite(t[|r|..])
    ensures TrimmedAt(s, r, n)
  {
    forall k | 0 <= k < n ensures IsWhite(s[k]) {
      assert s[..n][k] == s[k];
    }
    forall k | n + |r| <= k < |s| ensures IsWhite(s[k]) {
      assert t[|r|..][k - n - |r|] == s[k];
    }
  }

  // ---------------------------------------------------------------------
  // includes
  // ---------------------------------------------------------------------

  /**
   * String.prototype.includes: needle occurs in hay at some position. The
   * empty needle occurs in every text, and the text occurs in itself.
   */
  predicate Contains(hay: string, needle: string): (found: bool)
    ensures needle == [] ==> found
    ensures hay == needle ==> found
  {
    assert OccursAt(hay, [], 0);
    assert OccursAt(hay, hay, 0) by { assert hay[0..|hay|] == hay; }
    exists i :: 0 <= i <= |hay| && OccursAt(hay, needle, i)
  }

  /** needle occurs in hay starting at position i. */
  predicate OccursAt(hay: string, needle: string, i: nat) {
    i + |needle| <= |hay| && hay[i..i + |needle|] == needle
  }

  /** A needle longer than the haystack never occurs in it. */
  lemma ContainsTooLong(hay: string, needle: string)
    requires |hay| < |needle|
    ensures !Contains(hay, needle)
  {
  }
}
