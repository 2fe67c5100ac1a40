/**
 * The front end's `normalizeCategory`: a custom category typed by the user
 * becomes a key of lower-case letters, digits and single underscores, at
 * most 50 characters long.
 */
module Normalize {
  import opened Text

  const MaxLength: nat := 50

  /** The regex class `[a-z0-9]`. */
  predicate IsAlnum(c: char) {
    IsLower(c) || IsDigit(c)
  }

  predicate IsUnderscore(c: char) {
    c == '_'
  }

  /** A character that leaves a letter or digit in the key: an ASCII letter, a digit, or `&` (which becomes "and"). */
  predicate IsKeyChar(c: char) {
    IsUpper(c) || IsLower(c) || IsDigit(c) || c == '&'
  }

  predicate HasAlnum(s: string) {
    exists k :: 0 <= k < |s| && IsAlnum(s[k])
  }

  predicate HasAlnumOrAmp(s: string) {
    exists k :: 0 <= k < |s| && (IsAlnum(s[k]) || s[k] == '&')
  }

  predicate HasKeyChar(s: string) {
    exists k :: 0 <= k < |s| && IsKeyChar(s[k])
  }

  /** Only `[a-z0-9_]`. */
  predicate KeyChars(s: string) {
    forall i :: 0 <= i < |s| ==> IsAlnum(s[i]) || s[i] == '_'
  }

  /** No two underscores in a row. */
  predicate SingleUnderscores(s: string) {
    forall i :: 0 <= i < |s| - 1 ==> !(s[i] == '_' && s[i + 1] == '_')
  }

  /** `.replace(/&/g, " and ")`. */
  function ExpandAmpersands(s: string): (r: string)
    ensures |r| >= |s|
  {
    if s == [] then []
    else
      var c := s[|s| - 1];
      ExpandAmpersands(s[..|s| - 1]) + (if c == '&' then " and " else [c])
  }

  /**
   * The expansion is four characters longer per `&`, keeps every other
   * character, and adds only the characters of " and ".
   */
  lemma {:induction false} ExpandContents(s: string)
    ensures |ExpandAmpersands(s)| == |s| + 4 * multiset(s)['&']
    ensures forall c :: c in ExpandAmpersands(s) <==> (c in s && c != '&') || ('&' in s && c in " and ")
  {
    if s != [] {
      var init, c := s[..|s| - 1], s[|s| - 1];
      ExpandContents(init);
      assert s == init + [c];
      assert multiset(s) == multiset(init) + multiset{c};
      assert ExpandAmpersands(s) == ExpandAmpersands(init) + (if c == '&' then " and " else [c]);
    }
  }

  /** `.replace(/[^a-z0-9]+/g, "_")`: every maximal run of other characters becomes one underscore. */
  function Collapse(s: string): (r: string)
    ensures r == [] <==> s == []
    ensures r != [] ==> (r[|r| - 1] == '_' <==> !IsAlnum(s[|s| - 1]))
    ensures KeyChars(r)
    ensures SingleUnderscores(r)
  {
    if s == [] then []
    else
      var init, c := s[..|s| - 1], s[|s| - 1];
      var r := Collapse(init);
      if IsAlnum(c) then r + [c]
      else if init != [] && !IsAlnum(init[|init| - 1]) then r
      else r + ['_']
  }

  /** `normalizeCategory`: trim, lower-case, `&` to " and ", runs of other characters to `_`, no `_` at either end, at most 50 characters. */
  function NormalizeCategory(input: string): string {
    var trimmed := Strip(input, IsJsSpace);
    var collapsed := Collapse(ExpandAmpersands(Lower(trimmed)));
    Prefix(Strip(collapsed, IsUnderscore), MaxLength)
  }

  /** The key before the 50-character cut. */
  function Uncut(input: string): string {
    Strip(Collapse(ExpandAmpersands(Lower(Strip(input, IsJsSpace)))), IsUnderscore)
  }

  lemma UncutIsCut(input: string)
    ensures NormalizeCategory(input) == Prefix(Uncut(input), MaxLength)
  {
  }

  /** A slice keeps the character class and the single underscores. */
  lemma SliceShape(s: string, i: nat, j: nat)
    requires i <= j <= |s| && KeyChars(s) && SingleUnderscores(s)
    ensures KeyChars(s[i..j]) && SingleUnderscores(s[i..j])
  {
    var t := s[i..j];
    assert forall k :: 0 <= k < |t| ==> t[k] == s[i + k];
  }

  /** The uncut key has only `[a-z0-9_]`, no `__`, and no `_` at either end. */
  lemma UncutShape(input: string)
    ensures KeyChars(Uncut(input)) && SingleUnderscores(Uncut(input))
    ensures Uncut(input) != [] ==> Uncut(input)[0] != '_' && Uncut(input)[|Uncut(input)| - 1] != '_'
  {
    var c := Collapse(ExpandAmpersands(Lower(Strip(input, IsJsSpace))));
    var u := Strip(c, IsUnderscore);
    if u != [] {
      SliceShape(c, SpanStart(c, IsUnderscore), SpanEnd(c, IsUnderscore));
    }
  }

  /**
   * The key is at most 50 characters of `[a-z0-9_]` with no `__` and no
   * leading `_`; it ends in `_` only when the cut at 50 falls right after an
   * underscore of a longer key.
   */
  lemma NormalizeShape(input: string)
    ensures |NormalizeCategory(input)| <= MaxLength
    ensures KeyChars(NormalizeCategory(input))
    ensures SingleUnderscores(NormalizeCategory(input))
    ensures NormalizeCategory(input) != [] ==> NormalizeCategory(input)[0] != '_'
    ensures NormalizeCategory(input) != [] && NormalizeCategory(input)[|NormalizeCategory(input)| - 1] == '_' ==>
      |Uncut(input)| > MaxLength && Uncut(input)[MaxLength - 1] == '_'
  {
    var u := Uncut(input);
    UncutShape(input);
    UncutIsCut(input);
    if |u| > MaxLength {
      SliceShape(u, 0, MaxLength);
    } else {
      assert NormalizeCategory(input) == u;
    }
  }

  /** Trimming keeps every character that can leave a letter or digit. */
  lemma TrimKeeps(s: string)
    ensures HasKeyChar(Strip(s, IsJsSpace)) <==> HasKeyChar(s)
  {
    var t := Strip(s, IsJsSpace);
    var i, j := SpanStart(s, IsJsSpace), SpanEnd(s, IsJsSpace);
    if HasKeyChar(s) {
      var k :| 0 <= k < |s| && IsKeyChar(s[k]);
      assert !IsJsSpace(s[k]);
      assert i <= k < j;
      assert t[k - i] == s[k];
    }
    if HasKeyChar(t) {
      var k :| 0 <= k < |t| && IsKeyChar(t[k]);
      assert t[k] == s[i + k];
    }
  }

  /** Lower-casing turns the letters into `[a-z]` and keeps digits and `&`. */
  lemma LowerKeeps(s: string)
    ensures HasAlnumOrAmp(Lower(s)) <==> HasKeyChar(s)
  {
    var l := Lower(s);
    if HasKeyChar(s) {
      var k :| 0 <= k < |s| && IsKeyChar(s[k]);
      assert IsAlnum(l[k]) || l[k] == '&';
    }
    if HasAlnumOrAmp(l) {
      var k :| 0 <= k < |l| && (IsAlnum(l[k]) || l[k] == '&');
      assert IsKeyChar(s[k]);
    }
  }

  /** The expansion has a letter or digit iff the text had one or had an `&`. */
  lemma {:induction false} ExpandKeeps(s: string)
    ensures HasAlnum(ExpandAmpersands(s)) <==> HasAlnumOrAmp(s)
  {
    if s != [] {
      var init, c := s[..|s| - 1], s[|s| - 1];
      var e, tail := ExpandAmpersands(init), if c == '&' then " and " else [c];
      ExpandKeeps(init);
      assert ExpandAmpersands(s) == e + tail;
      HasAlnumAppend(e, tail);
      if c == '&' {
        assert IsAlnum(tail[1]);
      } else {
        assert HasAlnum(tail) <==> IsAlnum(c) by {
          assert tail[0] == c;
        }
      }
      assert HasAlnumOrAmp(s) <==> HasAlnumOrAmp(init) || IsAlnum(c) || c == '&' by {
        if HasAlnumOrAmp(s) {
          var k :| 0 <= k < |s| && (IsAlnum(s[k]) || s[k] == '&');
          if k < |init| {
            assert init[k] == s[k];
          }
        }
        if HasAlnumOrAmp(init) {
          var k :| 0 <= k < |init| && (IsAlnum(init[k]) || init[k] == '&');
          assert s[k] == init[k];
        }
      }
    }
  }

  lemma HasAlnumAppend(a: string, b: string)
    ensures HasAlnum(a + b) <==> HasAlnum(a) || HasAlnum(b)
  {
    var s := a + b;
    if HasAlnum(s) {
      var k :| 0 <= k < |s| && IsAlnum(s[k]);
      if k < |a| {
        assert a[k] == s[k];
      } else {
        assert b[k - |a|] == s[k];
      }
    }
    if HasAlnum(a) {
      var k :| 0 <= k < |a| && IsAlnum(a[k]);
      assert s[k] == a[k];
    }
    if HasAlnum(b) {
      var k :| 0 <= k < |b| && IsAlnum(b[k]);
      assert s[|a| + k] == b[k];
    }
  }

  /** Collapsing keeps the letters and digits: the result has one iff the input has. */
  lemma {:induction false} CollapseKeeps(s: string)
    ensures HasAlnum(Collapse(s)) <==> HasAlnum(s)
  {
    if s != [] {
      var init, c := s[..|s| - 1], s[|s| - 1];
      CollapseKeeps(init);
      var r := Collapse(init);
      HasAlnumAppend(r, [c]);
      HasAlnumAppend(r, ['_']);
      HasAlnumAppend(init, [c]);
      assert s == init + [c];
      assert IsAlnum([c][0]) <==> IsAlnum(c);
    }
  }

  /** Stripping underscores from `[a-z0-9_]` text leaves nothing iff it had no letter or digit. */
  lemma StripUnderscoresEmpty(s: string)
    requires KeyChars(s)
    ensures Strip(s, IsUnderscore) == [] <==> !HasAlnum(s)
  {
    if HasAlnum(s) {
      var k :| 0 <= k < |s| && IsAlnum(s[k]);
      assert !IsUnderscore(s[k]);
    }
  }

  /**
   * The key is empty iff the input has no ASCII letter, no digit and no `&`:
   * input of only symbols and white space is rejected by the caller.
   */
  lemma NormalizeEmpty(input: string)
    ensures NormalizeCategory(input) == [] <==> !HasKeyChar(input)
  {
    var t := Strip(input, IsJsSpace);
    var e := ExpandAmpersands(Lower(t));
    var c := Collapse(e);
    TrimKeeps(input);
    LowerKeeps(t);
    ExpandKeeps(Lower(t));
    CollapseKeeps(e);
    StripUnderscoresEmpty(c);
    UncutIsCut(input);
  }

  /** The letters and digits of `s`, in order. */
  function Letters(s: string): string {
    if s == [] then []
    else Letters(s[..|s| - 1]) + (if IsAlnum(s[|s| - 1]) then [s[|s| - 1]] else [])
  }

  lemma {:induction false} LettersAppend(a: string, b: string)
    ensures Letters(a + b) == Letters(a) + Letters(b)
  {
    if b != [] {
      LettersAppend(a, b[..|b| - 1]);
      assert (a + b)[..|a + b| - 1] == a + b[..|b| - 1];
    } else {
      assert a + b == a;
    }
  }

  /** Collapsing keeps every letter and digit, in order, and only replaces the other characters. */
  lemma {:induction false} CollapseLetters(s: string)
    ensures Letters(Collapse(s)) == Letters(s)
  {
    if s != [] {
      var init, c := s[..|s| - 1], s[|s| - 1];
      CollapseLetters(init);
      var r := Collapse(init);
      LettersAppend(r, [c]);
      LettersAppend(r, ['_']);
      assert Letters([c]) == (if IsAlnum(c) then [c] else []) by {
        assert [c][..0] == [];
      }
      assert Letters(['_']) == [] by {
        assert ['_'][..0] == [];
      }
    }
  }

  /** Text already made of `[a-z0-9_]` with single underscores collapses to itself. */
  lemma {:induction false} CollapseFixed(s: string)
    requires KeyChars(s) && SingleUnderscores(s)
    ensures Collapse(s) == s
  {
    if s != [] {
      var init := s[..|s| - 1];
      SliceShape(s, 0, |s| - 1);
      CollapseFixed(init);
      if !IsAlnum(s[|s| - 1]) && init != [] {
        assert s[|s| - 2] == init[|init| - 1];
      }
    }
  }

  /** Text without `&` is left as it is by the expansion. */
  lemma {:induction false} ExpandWithoutAmpersand(s: string)
    requires forall i :: 0 <= i < |s| ==> s[i] != '&'
    ensures ExpandAmpersands(s) == s
  {
    if s != [] {
      var init, c := s[..|s| - 1], s[|s| - 1];
      ExpandWithoutAmpersand(init);
    }
  }

  /** A key of `[a-z0-9_]` that starts with a letter or digit: each stage before the cut leaves it alone. */
  lemma KeyIsFixed(r: string)
    requires r != [] && KeyChars(r) && SingleUnderscores(r) && r[0] != '_'
    ensures Collapse(ExpandAmpersands(Lower(Strip(r, IsJsSpace)))) == r
  {
    KeyIsTrimmed(r);
    KeyIsLower(r);
    ExpandWithoutAmpersand(r);
    CollapseFixed(r);
  }

  lemma KeyIsLower(r: string)
    requires KeyChars(r)
    ensures Lower(r) == r
  {
    forall i | 0 <= i < |r| ensures Lower(r)[i] == r[i] {
      assert IsAlnum(r[i]) || r[i] == '_';
    }
  }

  lemma KeyIsTrimmed(r: string)
    requires r != [] && KeyChars(r)
    ensures Strip(r, IsJsSpace) == r
  {
    assert !IsJsSpace(r[0]) && !IsJsSpace(r[|r| - 1]);
    assert SpanStart(r, IsJsSpace) == 0;
    assert SpanEnd(r, IsJsSpace) == |r|;
  }

  /** Normalising a key that does not end in `_` gives it back. */
  lemma NormalizeIdempotent(input: string)
    requires NormalizeCategory(input) == [] || NormalizeCategory(input)[|NormalizeCategory(input)| - 1] != '_'
    ensures NormalizeCategory(NormalizeCategory(input)) == NormalizeCategory(input)
  {
    var r := NormalizeCategory(input);
    NormalizeShape(input);
    if r != [] {
      KeyIsFixed(r);
      assert SpanStart(r, IsUnderscore) == 0;
      assert SpanEnd(r, IsUnderscore) == |r|;
    } else {
      assert Strip(r, IsJsSpace) == [];
    }
  }

  /** A key cut right after an underscore loses that underscore when it is normalised again. */
  lemma NormalizeTwiceDrops(input: string)
    requires NormalizeCategory(input) != [] && NormalizeCategory(input)[|NormalizeCategory(input)| - 1] == '_'
    ensures NormalizeCategory(NormalizeCategory(input)) == NormalizeCategory(input)[..|NormalizeCategory(input)| - 1]
  {
    var r := NormalizeCategory(input);
    NormalizeShape(input);
    KeyIsFixed(r);
    var m := |r| - 1;
    assert m > 0 && r[m - 1] != '_';
    assert SpanStart(r, IsUnderscore) == 0;
    assert SpanEnd(r[..m], IsUnderscore) == m;
    assert SpanEnd(r, IsUnderscore) == m;
  }

  /** "a&b" becomes "a_and_b". */
  lemma AmpersandExample()
    ensures NormalizeCategory("a&b") == "a_and_b"
  {
    AmpersandStages();
    var k := "a_and_b";
    assert Strip(k, IsUnderscore) == k by {
      assert SpanStart(k, IsUnderscore) == 0;
      assert SpanEnd(k, IsUnderscore) == 7;
    }
  }

  lemma AmpersandStages()
    ensures Collapse(ExpandAmpersands(Lower(Strip("a&b", IsJsSpace)))) == "a_and_b"
  {
    var s := "a&b";
    assert Strip(s, IsJsSpace) == s by {
      assert SpanStart(s, IsJsSpace) == 0;
      assert SpanEnd(s, IsJsSpace) == 3;
    }
    assert Lower(s) == s;
    AmpersandExpands();
    AmpersandCollapses();
  }

  lemma AmpersandExpands()
    ensures ExpandAmpersands("a&b") == "a and b"
  {
    assert "a&b"[..2] == "a&" && "a&"[..1] == "a" && "a"[..0] == [];
  }

  lemma AmpersandCollapses()
    ensures Collapse("a and b") == "a_and_b"
  {
    var k := "a_and_b";
    assert KeyChars(k) && SingleUnderscores(k);
    CollapseEquals("a and b", k);
  }

  /** Collapsing text whose alphanumeric positions agree with a key, and whose other characters sit where its single underscores are. */
  lemma {:induction false} CollapseEquals(s: string, k: string)
    requires |s| == |k| && KeyChars(k) && SingleUnderscores(k)
    requires forall i :: 0 <= i < |s| ==> (IsAlnum(s[i]) ==> k[i] == s[i]) && (!IsAlnum(s[i]) ==> k[i] == '_')
    ensures Collapse(s) == k
  {
    assert SingleUnderscores(k);
    CollapseFixed(k);
    CollapseSameClasses(s, k);
  }

  /** Two texts with the same letters and digits at the same places and other characters elsewhere collapse alike. */
  lemma {:induction false} CollapseSameClasses(s: string, t: string)
    requires |s| == |t|
    requires forall i :: 0 <= i < |s| ==> (IsAlnum(s[i]) <==> IsAlnum(t[i])) && (IsAlnum(s[i]) ==> s[i] == t[i])
    ensures Collapse(s) == Collapse(t)
  {
    if s != [] {
      CollapseSameClasses(s[..|s| - 1], t[..|t| - 1]);
    }
  }
}
