/**
 * The bucket classifier of `services/bucket_classifier.py`: a transaction's
 * category decides its bucket when the category is known; otherwise the first
 * keyword rule with a whole word in the note decides; otherwise there is none.
 */
module BucketClassifier {
  import opened Wrappers
  import opened Text

  /** The three buckets; every answer is one of them or none. */
  datatype Bucket = Necessary | Controllable | Unnecessary

  function BucketLabel(b: Bucket): string {
    match b
    case Necessary => "necessary"
    case Controllable => "controllable"
    case Unnecessary => "unnecessary"
  }

  /** The label read back: the stored text names exactly one bucket. */
  function ParseBucket(s: string): (r: Option<Bucket>)
    ensures r.Some? ==> BucketLabel(r.value) == s
    ensures forall b :: BucketLabel(b) == s ==> r == Some(b)
  {
    if s == "necessary" then Some(Necessary)
    else if s == "controllable" then Some(Controllable)
    else if s == "unnecessary" then Some(Unnecessary)
    else None
  }

  /** `CATEGORY_BUCKET_MAP`. */
  const CategoryBuckets: map<string, Bucket> := map[
    "rent" := Necessary,
    "utilities" := Necessary,
    "health_insurance" := Necessary,
    "groceries" := Necessary,
    "transport" := Necessary,
    "phone_internet" := Necessary,
    "education" := Necessary,
    "medical" := Necessary,
    "dining_out" := Controllable,
    "shopping" := Controllable,
    "subscriptions" := Controllable,
    "gym" := Controllable,
    "travel" := Controllable,
    "entertainment" := Unnecessary
  ]

  /**
   * A keyword rule: the alternatives of `\b(...)\b` written out, the optional
   * groups expanded (`grocer(?:y|ies)?` is three words), and the bucket.
   */
  datatype Rule = Rule(words: seq<string>, bucket: Bucket)

  /** `KEYWORD_BUCKET_RULES`, tried in this order. */
  const KeywordRules: seq<Rule> := [
    Rule(["rent", "insurance", "grocer", "grocery", "groceries", "electric", "electricity", "water", "internet", "phone"], Necessary),
    Rule(["restaurant", "dinner", "lunch", "coffee", "uber", "taxi", "shopping", "amazon", "subscr"], Controllable),
    Rule(["movie", "cinema", "netflix", "spotify", "game", "gaming", "club", "bar"], Unnecessary)
  ]

  /** An alternative the regex can match as it is written: non-empty, lower-case word characters. */
  predicate IsKeyword(w: string) {
    |w| > 0 && forall k :: 0 <= k < |w| ==> IsWordChar(w[k]) && !IsUpper(w[k])
  }

  predicate Keywords(words: seq<string>) {
    forall k :: 0 <= k < |words| ==> IsKeyword(words[k])
  }

  /* ---------------------------------------------------------------------- */
  /* The regex search                                                         */
  /* ---------------------------------------------------------------------- */

  predicate WordBefore(s: string, k: int) {
    0 < k <= |s| && IsWordChar(s[k - 1])
  }

  predicate WordAfter(s: string, k: int) {
    0 <= k < |s| && IsWordChar(s[k])
  }

  /** `\b` at position `k`: a word character on exactly one side. */
  predicate Boundary(s: string, k: int) {
    WordBefore(s, k) != WordAfter(s, k)
  }

  /** `\b` + `w` under `re.I` + `\b`, starting at `pos`. */
  predicate MatchAt(s: string, pos: nat, w: string) {
    pos + |w| <= |s| && Boundary(s, pos) && Lower(s[pos..pos + |w|]) == w && Boundary(s, pos + |w|)
  }

  /** Some alternative, in order, matches at `pos`. */
  predicate AnyAt(s: string, pos: nat, words: seq<string>) {
    |words| > 0 && (MatchAt(s, pos, words[0]) || AnyAt(s, pos, words[1..]))
  }

  /** `pattern.search(s)` from position `pos` on: the leftmost start is tried first. */
  predicate SearchFrom(s: string, words: seq<string>, pos: nat)
    decreases |s| - pos
  {
    pos <= |s| && (AnyAt(s, pos, words) || (pos < |s| && SearchFrom(s, words, pos + 1)))
  }

  predicate Search(s: string, words: seq<string>) {
    SearchFrom(s, words, 0)
  }

  /* ---------------------------------------------------------------------- */
  /* The reference: whole words                                              */
  /* ---------------------------------------------------------------------- */

  /** `s[i..j]` is a whole word: word characters with none on either side. */
  predicate WholeWord(s: string, i: int, j: int) {
    && 0 <= i < j <= |s|
    && (forall k :: i <= k < j ==> IsWordChar(s[k]))
    && !WordBefore(s, i)
    && !WordAfter(s, j)
  }

  /** Some whole word of `s`, lower-cased, is one of `words`. */
  ghost predicate HasKeyword(s: string, words: seq<string>) {
    exists i, j :: WholeWord(s, i, j) && Lower(s[i..j]) in words
  }

  lemma {:induction false} AnyAtMember(s: string, pos: nat, words: seq<string>)
    ensures AnyAt(s, pos, words) <==> exists w :: w in words && MatchAt(s, pos, w)
  {
    if words != [] {
      AnyAtMember(s, pos, words[1..]);
      assert forall w :: w in words <==> w == words[0] || w in words[1..];
    }
  }

  lemma {:induction false} SearchFromAt(s: string, words: seq<string>, pos: nat)
    ensures SearchFrom(s, words, pos) ==> exists p :: pos <= p <= |s| && AnyAt(s, p, words)
    ensures forall p :: pos <= p <= |s| && AnyAt(s, p, words) ==> SearchFrom(s, words, pos)
    decreases |s| - pos
  {
    if pos < |s| {
      SearchFromAt(s, words, pos + 1);
      if SearchFrom(s, words, pos) && !AnyAt(s, pos, words) {
        var p :| pos + 1 <= p <= |s| && AnyAt(s, p, words);
      }
    }
  }

  /** A match of a keyword is a whole word, because keywords are made of word characters. */
  lemma MatchIsWholeWord(s: string, pos: nat, w: string)
    requires |w| > 0 && forall k :: 0 <= k < |w| ==> IsWordChar(w[k])
    requires MatchAt(s, pos, w)
    ensures WholeWord(s, pos, pos + |w|) && Lower(s[pos..pos + |w|]) == w
  {
    forall k | pos <= k < pos + |w| ensures IsWordChar(s[k]) {
      assert Lower(s[pos..pos + |w|])[k - pos] == w[k - pos];
      LowerWordChar(s[k]);
    }
  }

  /** A whole word that is a keyword is where the regex matches. */
  lemma WholeWordMatches(s: string, i: int, j: int)
    requires WholeWord(s, i, j)
    ensures i >= 0 && MatchAt(s, i, Lower(s[i..j]))
  {
  }

  /**
   * The regex and the reference agree: the pattern finds a match exactly when
   * some whole word of the text is, ignoring case, one of its alternatives.
   */
  lemma SearchIffKeyword(s: string, words: seq<string>)
    requires Keywords(words)
    ensures Search(s, words) <==> HasKeyword(s, words)
  {
    SearchFromAt(s, words, 0);
    if Search(s, words) {
      var p :| 0 <= p <= |s| && AnyAt(s, p, words);
      AnyAtMember(s, p, words);
      var w :| w in words && MatchAt(s, p, w);
      var x :| 0 <= x < |words| && words[x] == w;
      assert IsKeyword(words[x]);
      MatchIsWholeWord(s, p, w);
      assert WholeWord(s, p, p + |w|) && Lower(s[p..p + |w|]) in words;
    }
    if HasKeyword(s, words) {
      var i, j :| WholeWord(s, i, j) && Lower(s[i..j]) in words;
      WholeWordMatches(s, i, j);
      AnyAtMember(s, i, words);
    }
  }

  /** Every rule's alternatives are keywords. */
  lemma RulesAreKeywords()
    ensures forall k :: 0 <= k < |KeywordRules| ==> Keywords(KeywordRules[k].words)
  {
    forall k | 0 <= k < |KeywordRules| ensures Keywords(KeywordRules[k].words) {
      var words := KeywordRules[k].words;
      forall x | 0 <= x < |words| ensures IsKeyword(words[x]) {
        var w := words[x];
        assert |w| > 0;
        forall c | 0 <= c < |w| ensures IsWordChar(w[c]) && !IsUpper(w[c]) {
          assert IsLower(w[c]);
        }
      }
    }
  }

  /* ---------------------------------------------------------------------- */
  /* infer_bucket                                                             */
  /* ---------------------------------------------------------------------- */

  /** The loop over the rules: the bucket of the first rule whose pattern finds a match. */
  function FirstMatch(n: string, rules: seq<Rule>): (r: Option<Bucket>)
    ensures r.None? <==> forall k :: 0 <= k < |rules| ==> !Search(n, rules[k].words)
  {
    if rules == [] then None
    else if Search(n, rules[0].words) then Some(rules[0].bucket)
    else
      var r := FirstMatch(n, rules[1..]);
      assert forall k :: 1 <= k < |rules| ==> rules[k] == rules[1..][k - 1];
      r
  }

  /** The winner is the first rule that matches: every earlier one finds nothing. */
  lemma {:induction false} FirstMatchIsFirst(n: string, rules: seq<Rule>)
    requires FirstMatch(n, rules).Some?
    ensures exists k ::
      && 0 <= k < |rules|
      && Search(n, rules[k].words)
      && rules[k].bucket == FirstMatch(n, rules).value
      && forall k' :: 0 <= k' < k ==> !Search(n, rules[k'].words)
  {
    if !Search(n, rules[0].words) {
      FirstMatchIsFirst(n, rules[1..]);
      var k :| 0 <= k < |rules[1..]| && Search(n, rules[1..][k].words) && rules[1..][k].bucket == FirstMatch(n, rules).value
        && forall k' :: 0 <= k' < k ==> !Search(n, rules[1..][k'].words);
      assert rules[k + 1] == rules[1..][k];
      assert forall k' :: 1 <= k' < k + 1 ==> rules[k'] == rules[1..][k' - 1];
    } else {
      assert Search(n, rules[0].words) && rules[0].bucket == FirstMatch(n, rules).value;
    }
  }

  /** The normalised category, when it is non-empty (`if category:` skips None and ""). */
  function CategoryKey(category: Option<string>): Option<string> {
    if category.Some? && category.value != "" then Some(Lower(Strip(category.value, IsPySpace))) else None
  }

  /** The note with surrounding white space stripped, when it is non-empty. */
  function NoteText(note: Option<string>): Option<string> {
    if note.Some? && note.value != "" then Some(Strip(note.value, IsPySpace)) else None
  }

  /** The table's bucket for the normalised category, if the table has it. */
  function CategoryBucket(category: Option<string>): (r: Option<Bucket>)
    ensures r.Some? <==> CategoryKey(category).Some? && CategoryKey(category).value in CategoryBuckets
    ensures r.Some? ==> r.value == CategoryBuckets[CategoryKey(category).value]
  {
    var key := CategoryKey(category);
    if key.Some? && key.value in CategoryBuckets then Some(CategoryBuckets[key.value]) else None
  }

  /** The bucket of the first keyword rule the stripped note matches; none for a missing or empty note. */
  function NoteBucket(note: Option<string>): (r: Option<Bucket>)
    ensures r.None? <==> NoteText(note).None? || forall k :: 0 <= k < |KeywordRules| ==> !HasKeyword(NoteText(note).value, KeywordRules[k].words)
  {
    var n := NoteText(note);
    if n.None? then None
    else
      RulesAreKeywords();
      forall k | 0 <= k < |KeywordRules| ensures Search(n.value, KeywordRules[k].words) <==> HasKeyword(n.value, KeywordRules[k].words) {
        SearchIffKeyword(n.value, KeywordRules[k].words);
      }
      FirstMatch(n.value, KeywordRules)
  }

  /**
   * `infer_bucket`: a category found in the table decides, whatever the note;
   * any other category (none, empty, unknown) leaves it to the note's rules.
   */
  function InferBucket(category: Option<string>, note: Option<string>): (r: Option<Bucket>)
    ensures CategoryKey(category).Some? && CategoryKey(category).value in CategoryBuckets ==>
      r == Some(CategoryBuckets[CategoryKey(category).value])
    ensures !(CategoryKey(category).Some? && CategoryKey(category).value in CategoryBuckets) ==>
      (r.None? <==> NoteText(note).None? || forall k :: 0 <= k < |KeywordRules| ==> !HasKeyword(NoteText(note).value, KeywordRules[k].words))
  {
    var c := CategoryBucket(category);
    if c.Some? then c else NoteBucket(note)
  }

  /**
   * When the note decides, the answer is the bucket of the first rule (in
   * the order necessary, controllable, unnecessary) with a whole word of the
   * note among its alternatives.
   */
  lemma InferByNote(category: Option<string>, note: Option<string>)
    requires !(CategoryKey(category).Some? && CategoryKey(category).value in CategoryBuckets)
    requires InferBucket(category, note).Some?
    ensures NoteText(note).Some?
    ensures exists k ::
      && 0 <= k < |KeywordRules|
      && HasKeyword(NoteText(note).value, KeywordRules[k].words)
      && KeywordRules[k].bucket == InferBucket(category, note).value
      && forall k' :: 0 <= k' < k ==> !HasKeyword(NoteText(note).value, KeywordRules[k'].words)
  {
    var n := NoteText(note).value;
    RulesAreKeywords();
    FirstMatchIsFirst(n, KeywordRules);
    var k :| 0 <= k < |KeywordRules| && Search(n, KeywordRules[k].words) && KeywordRules[k].bucket == InferBucket(category, note).value
      && forall k' :: 0 <= k' < k ==> !Search(n, KeywordRules[k'].words);
    SearchIffKeyword(n, KeywordRules[k].words);
    forall k' | 0 <= k' < k ensures !HasKeyword(n, KeywordRules[k'].words) {
      SearchIffKeyword(n, KeywordRules[k'].words);
    }
  }

  /** A category in the table decides, whatever the note. */
  lemma InferFromCategory(category: Option<string>, note: Option<string>)
    requires CategoryBucket(category).Some?
    ensures InferBucket(category, note) == CategoryBucket(category)
  {
  }

  /** Without a category the note's rules decide. */
  lemma InferWithoutCategory(n: string)
    requires |n| > 0 && Strip(n, IsPySpace) == n
    ensures InferBucket(None, Some(n)) == FirstMatch(n, KeywordRules)
  {
    assert InferBucket(None, Some(n)) == NoteBucket(Some(n));
    NoteOfStripped(n);
  }

  /** A note that strips to itself is matched as it is. */
  lemma NoteOfStripped(n: string)
    requires |n| > 0 && Strip(n, IsPySpace) == n
    ensures NoteBucket(Some(n)) == FirstMatch(n, KeywordRules)
  {
    assert NoteText(Some(n)) == Some(n);
  }

  /** A string without leading or trailing white space strips to itself. */
  lemma StripUnchanged(s: string)
    requires |s| > 0 && !IsPySpace(s[0]) && !IsPySpace(s[|s| - 1])
    ensures Strip(s, IsPySpace) == s
  {
  }

  /** One white-space character on each side of a word is stripped. */
  lemma StripPadded(s: string)
    requires |s| >= 3 && IsPySpace(s[0]) && IsPySpace(s[|s| - 1])
    requires !IsPySpace(s[1]) && !IsPySpace(s[|s| - 2])
    ensures Strip(s, IsPySpace) == s[1..|s| - 1]
  {
    assert SpanStart(s[1..], IsPySpace) == 0;
    assert SpanStart(s, IsPySpace) == 1;
    assert s[..|s| - 1][|s| - 2] == s[|s| - 2];
    assert SpanEnd(s[..|s| - 1], IsPySpace) == |s| - 1;
  }

  /** A category found in the table decides. */
  lemma RentExample()
    ensures InferBucket(Some("rent"), None) == Some(Necessary)
  {
    StripUnchanged("rent");
    assert Lower("rent") == "rent";
    assert CategoryKey(Some("rent")) == Some("rent");
    InferFromCategory(Some("rent"), None);
  }

  /** A category of the third bucket decides as well. */
  lemma EntertainmentExample()
    ensures InferBucket(Some("entertainment"), None) == Some(Unnecessary)
  {
    StripUnchanged("entertainment");
    assert Lower("entertainment") == "entertainment";
    assert CategoryKey(Some("entertainment")) == Some("entertainment");
    InferFromCategory(Some("entertainment"), None);
  }

  /** The category is stripped and lower-cased before the lookup. */
  lemma DiningOutKey()
    ensures CategoryKey(Some(" Dining_Out ")) == Some("dining_out")
  {
    var c := " Dining_Out ";
    StripPadded(c);
    assert c[1..|c| - 1] == "Dining_Out";
    assert Lower("Dining_Out") == "dining_out";
  }

  /**
   * The category `dining_out` is controllable with no note; padded and
   * capitalised, it still wins over a note with keywords of another bucket.
   */
  lemma DiningOutExample()
    ensures InferBucket(Some("dining_out"), None) == Some(Controllable)
    ensures InferBucket(Some(" Dining_Out "), Some("Netflix monthly")) == Some(Controllable)
  {
    StripUnchanged("dining_out");
    assert Lower("dining_out") == "dining_out";
    assert CategoryKey(Some("dining_out")) == Some("dining_out");
    InferFromCategory(Some("dining_out"), None);
    DiningOutKey();
    assert CategoryBucket(Some(" Dining_Out ")) == Some(Controllable);
    InferFromCategory(Some(" Dining_Out "), Some("Netflix monthly"));
  }

  predicate AllWordChars(a: string) {
    forall k :: 0 <= k < |a| ==> IsWordChar(a[k])
  }

  /** A run of word characters has one whole word: itself. */
  lemma SingleWord(a: string, i: int, j: int)
    requires AllWordChars(a)
    requires WholeWord(a, i, j)
    ensures i == 0 && j == |a|
  {
  }

  /** The whole words of `a + " " + rest`, for a word `a`: `a` itself, then those of `rest`. */
  lemma FirstWord(a: string, rest: string, i: int, j: int)
    requires |a| > 0 && AllWordChars(a)
    requires WholeWord(a + " " + rest, i, j)
    ensures (i == 0 && j == |a|) || (i > |a| && WholeWord(rest, i - |a| - 1, j - |a| - 1))
  {
    var s := a + " " + rest;
    assert s[|a|] == ' ';
    if i > |a| {
      var i', j' := i - |a| - 1, j - |a| - 1;
      assert forall k :: 0 <= k < |rest| ==> rest[k] == s[k + |a| + 1];
      assert WordBefore(rest, i') == WordBefore(s, i);
      assert forall k :: i' <= k < j' ==> IsWordChar(rest[k]) by {
        forall k | i' <= k < j' ensures IsWordChar(rest[k]) {
          assert rest[k] == s[k + |a| + 1];
        }
      }
    } else {
      assert forall k :: 0 <= k < |a| ==> s[k] == a[k];
    }
  }

  /** The whole words of two words joined by a space: the two words. */
  lemma TwoWords(a: string, b: string, i: int, j: int)
    requires |a| > 0 && |b| > 0 && AllWordChars(a) && AllWordChars(b)
    requires WholeWord(a + " " + b, i, j)
    ensures (a + " " + b)[i..j] in [a, b]
  {
    var s := a + " " + b;
    FirstWord(a, b, i, j);
    if i > |a| {
      SingleWord(b, i - |a| - 1, j - |a| - 1);
      assert s[i..j] == b;
    } else {
      assert s[i..j] == a;
    }
  }

  /** The whole words of three words joined by spaces: the three words. */
  lemma ThreeWords(a: string, b: string, c: string, i: int, j: int)
    requires |a| > 0 && |b| > 0 && |c| > 0 && AllWordChars(a) && AllWordChars(b) && AllWordChars(c)
    requires WholeWord(a + " " + (b + " " + c), i, j)
    ensures (a + " " + (b + " " + c))[i..j] in [a, b, c]
  {
    var s, rest := a + " " + (b + " " + c), b + " " + c;
    FirstWord(a, rest, i, j);
    if i > |a| {
      TwoWords(b, c, i - |a| - 1, j - |a| - 1);
      assert s[i..j] == rest[i - |a| - 1..j - |a| - 1];
    } else {
      assert s[i..j] == a;
    }
  }

  /** The whole words of "Netflix monthly". */
  lemma NetflixWords(i: int, j: int)
    requires WholeWord("Netflix monthly", i, j)
    ensures "Netflix monthly"[i..j] in ["Netflix", "monthly"]
  {
    var a, b := "Netflix", "monthly";
    assert "Netflix monthly" == a + " " + b;
    TwoWords(a, b, i, j);
  }

  /** The rules on "Netflix monthly": only the third has one of its words. */
  lemma NetflixRules()
    ensures FirstMatch("Netflix monthly", KeywordRules) == Some(Unnecessary)
  {
    var n := "Netflix monthly";
    NetflixMisses(0);
    NetflixMisses(1);
    assert WholeWord(n, 0, 7) by {
      assert n[7] == ' ';
    }
    assert n[0..7] == "Netflix";
    assert Lower("Netflix") == "netflix";
    NoteRules(n, 2);
  }

  /** Neither of the first two rules has a word of "Netflix monthly". */
  lemma NetflixMisses(k: nat)
    requires k < 2
    ensures !HasKeyword("Netflix monthly", KeywordRules[k].words)
  {
    var words := ["Netflix", "monthly"];
    assert Lower("Netflix") == "netflix" && Lower("monthly") == "monthly";
    forall i, j | WholeWord("Netflix monthly", i, j) ensures "Netflix monthly"[i..j] in words {
      NetflixWords(i, j);
    }
    NoWordOf("Netflix monthly", words, KeywordRules[k].words);
  }

  /** "Netflix monthly" without a category: unnecessary. */
  lemma NetflixExample()
    ensures InferBucket(None, Some("Netflix monthly")) == Some(Unnecessary)
  {
    StripUnchanged("Netflix monthly");
    NetflixRules();
    InferWithoutCategory("Netflix monthly");
  }

  /** The rules on "Electricity bill": the first has "electricity". */
  lemma ElectricityRules()
    ensures FirstMatch("Electricity bill", KeywordRules) == Some(Necessary)
  {
    var n := "Electricity bill";
    assert WholeWord(n, 0, 11) by {
      assert n[11] == ' ';
    }
    assert n[0..11] == "Electricity";
    assert Lower("Electricity") == "electricity";
    NoteRules(n, 0);
  }

  /** "Electricity bill" without a category: necessary. */
  lemma ElectricityExample()
    ensures InferBucket(None, Some("Electricity bill")) == Some(Necessary)
  {
    StripUnchanged("Electricity bill");
    ElectricityRules();
    InferWithoutCategory("Electricity bill");
  }

  /** The whole words of "Coffee with friends". */
  lemma CoffeeWords(i: int, j: int)
    requires WholeWord("Coffee with friends", i, j)
    ensures "Coffee with friends"[i..j] in ["Coffee", "with", "friends"]
  {
    var a, b, c := "Coffee", "with", "friends";
    assert "Coffee with friends" == a + " " + (b + " " + c);
    ThreeWords(a, b, c, i, j);
  }

  /** The rules on "Coffee with friends": the second has "coffee"; the first has none of its words. */
  lemma CoffeeRules()
    ensures FirstMatch("Coffee with friends", KeywordRules) == Some(Controllable)
  {
    var n := "Coffee with friends";
    CoffeeMisses();
    assert WholeWord(n, 0, 6) by {
      assert n[6] == ' ';
    }
    assert n[0..6] == "Coffee";
    assert Lower("Coffee") == "coffee";
    NoteRules(n, 1);
  }

  /** The first rule has no word of "Coffee with friends". */
  lemma CoffeeMisses()
    ensures !HasKeyword("Coffee with friends", KeywordRules[0].words)
  {
    var words := ["Coffee", "with", "friends"];
    assert Lower("Coffee") == "coffee" && Lower("with") == "with" && Lower("friends") == "friends";
    forall i, j | WholeWord("Coffee with friends", i, j) ensures "Coffee with friends"[i..j] in words {
      CoffeeWords(i, j);
    }
    NoWordOf("Coffee with friends", words, KeywordRules[0].words);
  }

  /** A text none of whose whole words is, lower-cased, among `keys` has no keyword of them. */
  lemma NoWordOf(n: string, words: seq<string>, keys: seq<string>)
    requires forall i, j :: WholeWord(n, i, j) ==> n[i..j] in words
    requires forall w :: w in words ==> Lower(w) !in keys
    ensures !HasKeyword(n, keys)
  {
  }

  /** "Coffee with friends" without a category: controllable. */
  lemma CoffeeExample()
    ensures InferBucket(None, Some("Coffee with friends")) == Some(Controllable)
  {
    StripUnchanged("Coffee with friends");
    CoffeeRules();
    InferWithoutCategory("Coffee with friends");
  }

  /**
   * The note decides with rule `k` when that rule has a whole word of `n`
   * and no earlier rule has any.
   */
  lemma NoteRules(n: string, k: nat)
    requires k < |KeywordRules|
    requires HasKeyword(n, KeywordRules[k].words)
    requires forall k' :: 0 <= k' < k ==> !HasKeyword(n, KeywordRules[k'].words)
    ensures FirstMatch(n, KeywordRules) == Some(KeywordRules[k].bucket)
  {
    RulesAreKeywords();
    SearchIffKeyword(n, KeywordRules[k].words);
    forall k' | 0 <= k' < k ensures !Search(n, KeywordRules[k'].words) {
      SearchIffKeyword(n, KeywordRules[k'].words);
    }
    FirstMatchAt(n, KeywordRules, k);
  }

  /** The rule at `k` wins when it matches and no earlier one does. */
  lemma {:induction false} FirstMatchAt(n: string, rules: seq<Rule>, k: nat)
    requires k < |rules| && Search(n, rules[k].words)
    requires forall k' :: 0 <= k' < k ==> !Search(n, rules[k'].words)
    ensures FirstMatch(n, rules) == Some(rules[k].bucket)
  {
    if k > 0 {
      assert !Search(n, rules[0].words);
      FirstMatchAt(n, rules[1..], k - 1);
    }
  }

  /** "random" has no keyword of any rule. */
  lemma RandomHasNoKeyword()
    ensures forall k :: 0 <= k < |KeywordRules| ==> !HasKeyword("random", KeywordRules[k].words)
  {
    var n := "random";
    forall k | 0 <= k < |KeywordRules| ensures !HasKeyword(n, KeywordRules[k].words) {
      forall i, j | WholeWord(n, i, j) ensures Lower(n[i..j]) !in KeywordRules[k].words {
        SingleWord(n, i, j);
        assert Lower(n[i..j]) == "random";
      }
    }
  }

  /** An unknown category and a note without keywords give no bucket. */
  lemma UnknownExample()
    ensures InferBucket(Some("some_new_category"), Some("random")) == None
  {
    var c, n := "some_new_category", "random";
    StripUnchanged(c);
    StripUnchanged(n);
    assert Lower(c) == c;
    assert CategoryBucket(Some(c)) == None;
    RandomHasNoKeyword();
    assert NoteBucket(Some(n)) == None;
  }
}
