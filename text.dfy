/**
 * The ASCII character and string operations the core relies on: Python's
 * `str.strip`, `str.lower` and `str.upper`, JavaScript's `trim` and
 * `toLowerCase`, slicing to a maximum length, and the regex word class.
 */
module Text {

  predicate IsUpper(c: char) {
    'A' <= c <= 'Z'
  }

  predicate IsLower(c: char) {
    'a' <= c <= 'z'
  }

  predicate IsDigit(c: char) {
    '0' <= c <= '9'
  }

  /** The regex class `\w` restricted to ASCII: letters, digits and `_`. */
  predicate IsWordChar(c: char) {
    IsUpper(c) || IsLower(c) || IsDigit(c) || c == '_'
  }

  /** Python's `str.isspace` on ASCII: tab to carriage return, the four separators 0x1C..0x1F, and space. */
  predicate IsPySpace(c: char) {
    9 <= c as int <= 13 || 28 <= c as int <= 31 || c == ' '
  }

  /**
   * What JavaScript's `trim` removes: the white space and line terminators
   * of ECMAScript (tab to carriage return, space, no-break space, the Unicode
   * space separators, the line and paragraph separators and the byte order mark).
   */
  predicate IsJsSpace(c: char) {
    var n := c as int;
    || 9 <= n <= 13 || n == 0x20 || n == 0xA0 || n == 0x1680
    || 0x2000 <= n <= 0x200A || n == 0x2028 || n == 0x2029 || n == 0x202F
    || n == 0x205F || n == 0x3000 || n == 0xFEFF
  }

  function LowerChar(c: char): (r: char)
    ensures IsUpper(c) ==> IsLower(r) && r as int == c as int + 32
    ensures !IsUpper(c) ==> r == c
  {
    if IsUpper(c) then (c as int + 32) as char else c
  }

  function UpperChar(c: char): (r: char)
    ensures IsLower(c) ==> IsUpper(r) && r as int == c as int - 32
    ensures !IsLower(c) ==> r == c
  {
    if IsLower(c) then (c as int - 32) as char else c
  }

  /** `str.lower()` / `toLowerCase()` on ASCII text. */
  function Lower(s: string): (r: string)
    ensures |r| == |s| && forall i :: 0 <= i < |s| ==> r[i] == LowerChar(s[i])
  {
    seq(|s|, i requires 0 <= i < |s| => LowerChar(s[i]))
  }

  /** `str.upper()` on ASCII text. */
  function Upper(s: string): (r: string)
    ensures |r| == |s| && forall i :: 0 <= i < |s| ==> r[i] == UpperChar(s[i])
  {
    seq(|s|, i requires 0 <= i < |s| => UpperChar(s[i]))
  }

  /** Lower-casing keeps a character in the word class or out of it. */
  lemma LowerWordChar(c: char)
    ensures IsWordChar(LowerChar(c)) <==> IsWordChar(c)
  {
  }

  /** Lower-casing is idempotent. */
  lemma LowerIdempotent(s: string)
    ensures Lower(Lower(s)) == Lower(s)
  {
  }

  /** Lower-casing commutes with slicing. */
  lemma LowerSlice(s: string, i: nat, j: nat)
    requires i <= j <= |s|
    ensures Lower(s[i..j]) == Lower(s)[i..j]
  {
  }

  /** `s[:n]`: the first `n` characters, or all of a shorter string. */
  function Prefix(s: string, n: nat): (r: string)
    ensures |r| == if |s| < n then |s| else n
    ensures r == s[..|r|]
  {
    if |s| <= n then s else s[..n]
  }

  /** The index of the first character of `s` that is not `space`, or `|s|`. */
  function SpanStart(s: string, space: char -> bool): (i: nat)
    ensures i <= |s|
    ensures forall k :: 0 <= k < i ==> space(s[k])
    ensures i < |s| ==> !space(s[i])
  {
    if s == [] || !space(s[0]) then 0 else 1 + SpanStart(s[1..], space)
  }

  /** One past the index of the last character of `s` that is not `space`, or 0. */
  function SpanEnd(s: string, space: char -> bool): (j: nat)
    ensures j <= |s|
    ensures forall k :: j <= k < |s| ==> space(s[k])
    ensures j > 0 ==> !space(s[j - 1])
  {
    if s == [] || !space(s[|s| - 1]) then |s| else SpanEnd(s[..|s| - 1], space)
  }

  /** `str.strip` / `trim` with the white space `space` accepts. */
  function Strip(s: string, space: char -> bool): string {
    var i, j := SpanStart(s, space), SpanEnd(s, space);
    if i < j then s[i..j] else []
  }

  /**
   * Stripping gives the piece of `s` between its first and its last
   * character that is not white space, and nothing when every character is.
   */
  lemma StripFacts(s: string, space: char -> bool)
    ensures Strip(s, space) == [] <==> forall k :: 0 <= k < |s| ==> space(s[k])
    ensures Strip(s, space) != [] ==>
      && SpanStart(s, space) < SpanEnd(s, space)
      && Strip(s, space) == s[SpanStart(s, space)..SpanEnd(s, space)]
    ensures Strip(s, space) != [] ==> !space(Strip(s, space)[0]) && !space(Strip(s, space)[|Strip(s, space)| - 1])
  {
    StripEmpty(s, space);
    StripSlice(s, space);
  }

  lemma StripEmpty(s: string, space: char -> bool)
    ensures Strip(s, space) == [] <==> forall k :: 0 <= k < |s| ==> space(s[k])
  {
    var i := SpanStart(s, space);
    SpanOrder(s, space);
    if i < |s| {
      assert !space(s[i]);
    }
  }

  lemma StripSlice(s: string, space: char -> bool)
    ensures Strip(s, space) != [] ==>
      && SpanStart(s, space) < SpanEnd(s, space)
      && Strip(s, space) == s[SpanStart(s, space)..SpanEnd(s, space)]
    ensures Strip(s, space) != [] ==> !space(Strip(s, space)[0]) && !space(Strip(s, space)[|Strip(s, space)| - 1])
  {
    var i, j := SpanStart(s, space), SpanEnd(s, space);
    if i < j {
      SliceEnds(s, i, j, space);
    }
  }

  lemma SliceEnds(s: string, i: nat, j: nat, space: char -> bool)
    requires i < j <= |s| && !space(s[i]) && !space(s[j - 1])
    ensures !space(s[i..j][0]) && !space(s[i..j][j - i - 1])
  {
    assert s[i..j][0] == s[i];
    assert s[i..j][j - i - 1] == s[j - 1];
  }

  /** When some character is not white space, the first such comes no later than the last. */
  lemma SpanOrder(s: string, space: char -> bool)
    ensures SpanStart(s, space) < |s| ==> SpanStart(s, space) < SpanEnd(s, space)
  {
    var i := SpanStart(s, space);
    if i < |s| {
      assert !space(s[i]);
    }
  }

  /** Stripping twice strips nothing more. */
  lemma StripIdempotent(s: string, space: char -> bool)
    ensures Strip(Strip(s, space), space) == Strip(s, space)
  {
    var r := Strip(s, space);
    StripFacts(s, space);
    if r != [] {
      assert SpanStart(r, space) == 0;
      assert SpanEnd(r, space) == |r|;
    }
  }
}
