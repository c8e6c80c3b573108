/**
 * The description parser: it normalises a listing's text once, keeps a
 * case-preserving copy and a lowercased, punctuation-free copy with its word
 * set, and answers three questions about it: is a blacklisted place named,
 * is a rent hidden in the text, and which street is mentioned.
 */
module Parsers {
  import opened Wrappers
  import opened Text
  import opened Localization
  import Config

  /** The words announcing the additional rent fee, in the order they are tried. */
  const RentKeywords: seq<string> := ["czynsz", "czynszem", "czynszu"]

  /** Candidate rents at or above this bound are rejected as something else (a year, a phone number). */
  const RentBound: nat := 2000

  /** The city every street lookup is scoped to. */
  const City: string := "Warszawa"

  // ---------------------------------------------------------------------------
  // Normalisation
  // ---------------------------------------------------------------------------

  /** The stored `description`: newlines to spaces, whitespace runs collapsed, then transliterated. */
  function CanonicalForm(table: char -> string, text: string): (d: string)
    requires AsciiTable(table)
    ensures AllAscii(d)
  {
    Transliterate(table, CollapseWhitespace(ReplaceChar(text, '\n', ' ')))
  }

  /** The stored `descriptionParser`: the description lowercased, with every `,`, `.` and `!` deleted. */
  function ParserForm(description: string): (p: string)
    ensures forall i :: 0 <= i < |p| ==> !IsStrippedPunctuation(p[i]) && !IsUpper(p[i])
  {
    var lowered := Lower(description);
    assert forall c :: c in lowered ==> !IsUpper(c);
    StripPunctuation(lowered)
  }

  /** The stored `wordsSet`: the pieces of the parser form split on a single space. */
  function Words(parserForm: string): (ws: set<string>)
    ensures ws != {}
  {
    var ws := set w | w in Split(parserForm, " ");
    assert Split(parserForm, " ")[0] in ws;
    ws
  }

  /**
   * For ASCII input the stored description has no newline, never two
   * whitespace characters in a row, and keeps every non-whitespace character
   * of the input in order.
   */
  lemma CanonicalFormOfAscii(table: char -> string, text: string)
    requires AsciiTable(table) && AllAscii(text)
    ensures var d := CanonicalForm(table, text);
      (forall i :: 0 <= i < |d| ==> d[i] != '\n') && NoDoubleSpace(d) && NonSpace(d) == NonSpace(text)
  {
    var replaced := ReplaceChar(text, '\n', ' ');
    var collapsed := CollapseWhitespace(replaced);
    CollapseKeepsAscii(replaced);
    TransliterateAscii(table, collapsed);
    CollapseKeepsText(replaced);
    ReplaceSpaceKeepsText(text, '\n', ' ');
    forall i | 0 <= i < |collapsed| ensures collapsed[i] != '\n' {
      if collapsed[i] == '\n' {
        assert IsSpace(collapsed[i]);
      }
    }
  }

  /**
   * The parser form has none of `,` `.` `!` and no upper-case letter, so
   * normalising it again changes nothing.
   */
  lemma ParserFormIdempotent(description: string)
    ensures ParserForm(ParserForm(description)) == ParserForm(description)
  {
    var p := ParserForm(description);
    assert Lower(p) == p;
    StripPunctuationClean(p);
  }

  /**
   * Lowercasing and deleting punctuation keep text ASCII, so the texts the
   * rent search reads are ASCII whenever the description is.
   */
  lemma ParserFormOfAsciiIsAscii(description: string)
    requires AllAscii(description)
    ensures AllAscii(Lower(description)) && AllAscii(ParserForm(description))
  {
    var lowered := Lower(description);
    assert forall c :: c in lowered ==> IsAscii(c);
  }

  /** Words never contain a space; the empty word is one of them when spaces are adjacent. */
  lemma WordsHaveNoSpace(parserForm: string, w: string)
    requires w in Words(parserForm)
    ensures forall i :: 0 <= i < |w| ==> w[i] != ' '
  {
    var k :| 0 <= k < |Split(parserForm, " ")| && Split(parserForm, " ")[k] == w;
    SplitPiecesAvoidSeparator(parserForm, " ", k);
    forall i | 0 <= i < |w| ensures w[i] != ' ' {
      assert !OccursAt(w, " ", i);
    }
  }

  /**
   * Deleting punctuation can leave two spaces side by side ("Tanio ! Bemowo"
   * becomes "tanio  bemowo"), and then the empty string is one of the words.
   */
  lemma EmptyWordFromAdjacentSpaces(parserForm: string, i: nat)
    requires i + 1 < |parserForm| && parserForm[i] == ' ' && parserForm[i + 1] == ' '
    ensures "" in Words(parserForm)
  {
    AdjacentSeparatorsGiveEmptyPiece(parserForm, ' ', i);
  }

  /**
   * A space left at either end ("zapraszam !" becomes "zapraszam ") also puts
   * the empty string among the words.
   */
  lemma EmptyWordFromEdgeSpace(parserForm: string)
    requires parserForm != [] && (parserForm[0] == ' ' || parserForm[|parserForm| - 1] == ' ')
    ensures "" in Words(parserForm)
  {
    EdgeSeparatorGivesEmptyPiece(parserForm, ' ');
  }

  // ---------------------------------------------------------------------------
  // Blacklist
  // ---------------------------------------------------------------------------

  /** Whether some term of `terms` is one of `words`, checking the terms in order. */
  function AnyListed(terms: seq<string>, words: set<string>): (r: bool)
    ensures r <==> exists k :: 0 <= k < |terms| && terms[k] in words
  {
    if terms == [] then false
    else if terms[0] in words then true
    else
      assert forall k :: 1 <= k < |terms| ==> terms[k] == terms[1..][k - 1];
      AnyListed(terms[1..], words)
  }

  /** A term hidden inside a longer word is not a match: only whole words count. */
  lemma BlacklistIsWholeWord()
    ensures !AnyListed(["bemowo"], Words("bemowowo"))
  {
    assert Find("bemowowo", " ").None? by {
      assert ' ' in " " && ' ' !in "bemowowo";
      forall j: nat ensures !OccursAt("bemowowo", " ", j) {
        AbsentCharBlocksOccurrence("bemowowo", " ", ' ', j);
      }
    }
    assert Split("bemowowo", " ") == ["bemowowo"];
    assert "bemowo" != "bemowowo";
    assert "bemowo" !in Words("bemowowo");
  }

  // ---------------------------------------------------------------------------
  // Hidden rent
  // ---------------------------------------------------------------------------

  /**
   * `descriptionParser.split(keyword)[1]`. The index is safe because
   * `keyword` is one of the words.
   */
  function RentWindow(parserForm: string, keyword: string): (w: string)
    requires keyword != [] && keyword in Words(parserForm)
    ensures Find(w, keyword).None?
  {
    WordSplitsText(parserForm, keyword);
    SplitPiecesAvoidSeparator(parserForm, keyword, 1);
    Split(parserForm, keyword)[1]
  }

  /**
   * The window is the text after the first occurrence of `keyword` up to its
   * next occurrence or the end; `after` is where it starts.
   */
  lemma RentWindowBetweenOccurrences(parserForm: string, keyword: string) returns (after: nat)
    requires keyword != [] && keyword in Words(parserForm)
    ensures Find(parserForm, keyword).Some? && after == Find(parserForm, keyword).value + |keyword|
    ensures PieceAt(parserForm, keyword, after, RentWindow(parserForm, keyword))
  {
    WordSplitsText(parserForm, keyword);
    var w;
    after, w := SplitSecond(parserForm, keyword);
  }

  /** What the branch for `keyword` returns: the first number of its window, when below the bound. */
  function KeywordCandidate(parserForm: string, words: set<string>, keyword: string): (c: Option<nat>)
    requires keyword != [] && words == Words(parserForm)
    ensures c.Some? ==> c.value < RentBound
  {
    if keyword in words then
      var n := FirstNumber(RentWindow(parserForm, keyword));
      if n.Some? && n.value < RentBound then n else None
    else None
  }

  /** The first present value of `xs`, scanning left to right, as a loop with early return does. */
  function FirstSome<T>(xs: seq<Option<T>>): (r: Option<T>)
    ensures r.Some? ==> r in xs
    ensures r.None? ==> forall k :: 0 <= k < |xs| ==> xs[k].None?
  {
    if xs == [] then None
    else if xs[0].Some? then xs[0]
    else
      var r := FirstSome(xs[1..]);
      assert r.Some? ==> r in xs by {
        if r.Some? {
          assert r in xs[1..];
        }
      }
      assert r.None? ==> forall k :: 0 <= k < |xs| ==> xs[k].None? by {
        if r.None? {
          forall k | 0 < k < |xs| ensures xs[k].None? {
            assert xs[k] == xs[1..][k - 1];
          }
        }
      }
      r
  }

  /** A present result of `FirstSome` sits at the returned index, with nothing present before it. */
  lemma {:induction false} FirstSomeIndex<T>(xs: seq<Option<T>>) returns (k: nat)
    requires FirstSome(xs).Some?
    ensures k < |xs| && xs[k] == FirstSome(xs)
    ensures forall j :: 0 <= j < k ==> xs[j].None?
  {
    if xs[0].Some? {
      k := 0;
    } else {
      var inner := FirstSomeIndex(xs[1..]);
      k := inner + 1;
      assert xs[k] == xs[1..][inner];
      forall j | 0 < j < k ensures xs[j].None? {
        assert xs[j] == xs[1..][j - 1];
      }
    }
  }

  /** The branch results for `keywords`, in order. */
  function Candidates(parserForm: string, words: set<string>, keywords: seq<string>): (c: seq<Option<nat>>)
    requires words == Words(parserForm)
    requires forall k :: 0 <= k < |keywords| ==> keywords[k] != []
    ensures |c| == |keywords|
    ensures forall k :: 0 <= k < |keywords| ==> c[k] == KeywordCandidate(parserForm, words, keywords[k])
  {
    seq(|keywords|, k requires 0 <= k < |keywords| => KeywordCandidate(parserForm, words, keywords[k]))
  }

  /**
   * The keyword phase: the keywords are tried in order and the first one whose
   * branch yields a number is taken.
   */
  function KeywordRent(parserForm: string, words: set<string>, keywords: seq<string>): (r: Option<nat>)
    requires words == Words(parserForm)
    requires forall k :: 0 <= k < |keywords| ==> keywords[k] != []
    ensures r.Some? ==> r.value < RentBound
    ensures r.None? ==> forall k :: 0 <= k < |keywords| ==> KeywordCandidate(parserForm, words, keywords[k]).None?
  {
    FirstSome(Candidates(parserForm, words, keywords))
  }

  /**
   * A number from the keyword phase comes from the keyword at the returned
   * index, and every keyword before it yielded nothing.
   */
  lemma KeywordRentPicksFirst(parserForm: string, words: set<string>, keywords: seq<string>) returns (k: nat)
    requires words == Words(parserForm)
    requires forall i :: 0 <= i < |keywords| ==> keywords[i] != []
    requires KeywordRent(parserForm, words, keywords).Some?
    ensures k < |keywords| && KeywordCandidate(parserForm, words, keywords[k]) == KeywordRent(parserForm, words, keywords)
    ensures forall j :: 0 <= j < k ==> KeywordCandidate(parserForm, words, keywords[j]).None?
  {
    var c := Candidates(parserForm, words, keywords);
    assert KeywordRent(parserForm, words, keywords) == FirstSome(c);
    k := FirstSomeIndex(c);
    assert c[k] == KeywordCandidate(parserForm, words, keywords[k]);
  }

  /** The pattern `plus\s*(\d+)` matches at `i`. */
  predicate PlusMatchAt(s: string, i: nat)
    ensures PlusMatchAt(s, i) ==> i + 5 <= |s|
  {
    OccursAt(s, "plus", i) && var rest := SkipSpaces(s[i + 4..]); rest != [] && IsDigit(rest[0])
  }

  /** `i` is where `re.search` finds `plus\s*(\d+)`: a match with none before it. */
  predicate FirstPlusMatch(s: string, i: nat) {
    PlusMatchAt(s, i) && forall j :: 0 <= j < i ==> !PlusMatchAt(s, j)
  }

  /** Group 1 of the match at `i`: the digits after `plus` and any whitespace. */
  function PlusNumber(s: string, i: nat): (n: nat)
    requires PlusMatchAt(s, i)
    ensures FirstNumber(SkipSpaces(s[i + 4..])) == Some(n)
  {
    ParseNat(TakeDigits(SkipSpaces(s[i + 4..])))
  }

  /**
   * The fallback phase: the number after the first `plus`, if it is below the
   * bound. A later `plus` is not tried when the first one's number is too big.
   */
  function PlusRent(s: string): (r: Option<nat>)
    ensures r.Some? ==> r.value < RentBound && exists i :: FirstPlusMatch(s, i) && PlusNumber(s, i) == r.value
    ensures r.None? ==> forall i :: FirstPlusMatch(s, i) ==> PlusNumber(s, i) >= RentBound
  {
    var test := (i: nat) => PlusMatchAt(s, i);
    assert forall i: nat :: test(i) == PlusMatchAt(s, i);
    match FirstWhere(test, 0, |s| + 1)
    case None =>
      assert forall i: nat :: !PlusMatchAt(s, i) by {
        forall i: nat ensures !PlusMatchAt(s, i) {
          if i > |s| {
            assert !OccursAt(s, "plus", i);
          }
        }
      }
      None
    case Some(i) =>
      assert forall j: nat :: FirstPlusMatch(s, j) ==> j == i by {
        forall j: nat | FirstPlusMatch(s, j) ensures j == i {

        }
      }
      var n := PlusNumber(s, i);
      if n < RentBound then Some(n) else None
  }

  // ---------------------------------------------------------------------------
  // Street name
  // ---------------------------------------------------------------------------

  /** `t` starts with `[A-Z][a-z]`, the shortest text a repetition of the street-name group can match. */
  predicate StartsWord(t: string) {
    |t| >= 2 && IsUpper(t[0]) && IsLower(t[1])
  }

  /** `w` is one repetition of `([A-Z][a-z]+\s*)`: a capital, lower-case letters, then whitespace. */
  ghost predicate IsStreetWord(w: string) {
    exists k :: StreetWordSplit(w, k)
  }

  /** `w[..k]` is `[A-Z][a-z]+` and `w[k..]` is whitespace. */
  predicate StreetWordSplit(w: string, k: int) {
    2 <= k <= |w| && IsUpper(w[0])
    && (forall i :: 1 <= i < k ==> IsLower(w[i]))
    && (forall i :: k <= i < |w| ==> IsSpace(w[i]))
  }

  /** The length of the greedy repetition `[A-Z][a-z]+\s*` at the head of `t`. */
  function WordLength(t: string): (n: nat)
    requires StartsWord(t)
    ensures 2 <= n <= |t|
  {
    var letters := 1 + LeadingCount(t[1..], IsLower);
    letters + LeadingCount(t[letters..], IsSpace)
  }

  /** What `WordLength` measures is one repetition of the group. */
  lemma WordLengthIsWord(t: string)
    requires StartsWord(t)
    ensures IsStreetWord(t[..WordLength(t)])
  {
    var letters := 1 + LeadingCount(t[1..], IsLower);
    var n := WordLength(t);
    LeadingCountPasses(t[1..], IsLower);
    LeadingCountPasses(t[letters..], IsSpace);
    assert StreetWordSplit(t[..n], letters) by {
      forall i | 1 <= i < letters ensures IsLower(t[..n][i]) {
        assert t[..n][i] == t[1..][i - 1];
      }
      forall i | letters <= i < n ensures IsSpace(t[..n][i]) {
        assert t[..n][i] == t[letters..][i - letters];
      }
    }
  }

  /**
   * Group 2 after `(([A-Z][a-z]+\s*))+` has matched greedily at the head of
   * `t`: Python keeps only the last repetition, so this is the last word of
   * the street name together with its trailing whitespace.
   */
  function LastRepetition(t: string): (w: string)
    requires StartsWord(t)
    ensures 2 <= |w| <= |t|
    decreases |t|
  {
    var n := WordLength(t);
    if StartsWord(t[n..]) then LastRepetition(t[n..]) else t[..n]
  }

  /** The last repetition is itself one repetition of the group. */
  lemma {:induction false} LastRepetitionIsWord(t: string)
    requires StartsWord(t)
    ensures IsStreetWord(LastRepetition(t))
    decreases |t|
  {
    var n := WordLength(t);
    if StartsWord(t[n..]) {
      LastRepetitionIsWord(t[n..]);
    } else {
      WordLengthIsWord(t);
    }
  }

  /** The last repetition, returned as `w`, occurs in `t` at `i` and no further repetition follows it. */
  lemma {:induction false} LastRepetitionIsLast(t: string) returns (i: nat, w: string)
    requires StartsWord(t)
    ensures w == LastRepetition(t) && OccursAt(t, w, i) && !StartsWord(t[i + |w|..])
    decreases |t|, 1
  {
    var n := WordLength(t);
    if StartsWord(t[n..]) {
      i, w := LastRepetitionInTail(t, n);
    } else {
      i, w := 0, t[..n];
      assert t[0..n] == t[..n];
    }
  }

  /** When another repetition follows the first, the last one lies in the rest of `t`. */
  lemma {:induction false} LastRepetitionInTail(t: string, n: nat) returns (i: nat, w: string)
    requires 0 < n <= |t| && StartsWord(t[n..])
    ensures w == LastRepetition(t[n..]) && OccursAt(t, w, i) && !StartsWord(t[i + |w|..])
    decreases |t|, 0
  {
    var inner;
    inner, w := LastRepetitionIsLast(t[n..]);
    i := LastOccurrenceInSuffix(t, n, w, inner);
  }

  /** A word occurring in a suffix, and not followed there by another, occurs so in the whole text. */
  lemma LastOccurrenceInSuffix(t: string, n: nat, w: string, inner: nat) returns (i: nat)
    requires n <= |t| && OccursAt(t[n..], w, inner) && !StartsWord(t[n..][inner + |w|..])
    ensures i == n + inner && OccursAt(t, w, i) && !StartsWord(t[i + |w|..])
  {
    i := OccursInSuffix(t, n, w, inner);
    SuffixOfSuffix(t, n, inner + |w|);
  }

  /** Group 2 of the pattern when its first group ends at `j`, or None if the rest does not match there. */
  function MatchAfterPrefix(s: string, j: nat): (r: Option<string>)
    requires j <= |s|
    ensures r.Some? <==> StartsWord(SkipSpaces(s[j..]))
  {
    var t := SkipSpaces(s[j..]);
    if StartsWord(t) then Some(LastRepetition(t)) else None
  }

  /** Group 2 of a match starting at `i`, the alternatives of the first group tried in order. */
  function MatchAt(s: string, i: nat, prefixes: seq<string>): (r: Option<string>)
    ensures r.Some? ==> prefixes != []
  {
    if prefixes == [] then None
    else if OccursAt(s, prefixes[0], i) && MatchAfterPrefix(s, i + |prefixes[0]|).Some? then
      MatchAfterPrefix(s, i + |prefixes[0]|)
    else
      MatchAt(s, i, prefixes[1..])
  }

  /**
   * A match starts with one of the alternatives, returned as `p`, and the
   * street word follows it from `j` on.
   */
  lemma {:induction false} MatchAtHasPrefix(s: string, i: nat, prefixes: seq<string>) returns (p: string, j: nat)
    requires MatchAt(s, i, prefixes).Some?
    ensures p in prefixes && OccursAt(s, p, i) && j == i + |p| && j <= |s|
    ensures MatchAt(s, i, prefixes) == MatchAfterPrefix(s, j)
  {
    if OccursAt(s, prefixes[0], i) && MatchAfterPrefix(s, i + |prefixes[0]|).Some? {
      p := prefixes[0];
      j := i + |p|;
    } else {
      p, j := MatchAtHasPrefix(s, i, prefixes[1..]);
    }
  }

  /** Whatever a match yields is one repetition of the street-name group. */
  lemma {:induction false} MatchAtIsWord(s: string, i: nat, prefixes: seq<string>)
    requires MatchAt(s, i, prefixes).Some?
    ensures IsStreetWord(MatchAt(s, i, prefixes).value)
  {
    if OccursAt(s, prefixes[0], i) && MatchAfterPrefix(s, i + |prefixes[0]|).Some? {
      LastRepetitionIsWord(SkipSpaces(s[i + |prefixes[0]|..]));
    } else {
      MatchAtIsWord(s, i, prefixes[1..]);
    }
  }

  /** The street word, returned as `w`, found after a prefix ending at `j` occurs in the text. */
  lemma MatchAfterPrefixOccurs(s: string, j: nat) returns (k: nat, w: string)
    requires j <= |s| && MatchAfterPrefix(s, j).Some?
    ensures MatchAfterPrefix(s, j) == Some(w) && OccursAt(s, w, k)
  {
    var skipped := LeadingCount(s[j..], IsSpace);
    SuffixOfSuffix(s, j, skipped);
    var inner;
    inner, w := LastRepetitionIsLast(s[j + skipped..]);
    k := OccursInSuffix(s, j + skipped, w, inner);
  }

  /** The street word of a match, returned as `w`, occurs in the searched text. */
  lemma MatchAtOccurs(s: string, i: nat, prefixes: seq<string>) returns (k: nat, w: string)
    requires MatchAt(s, i, prefixes).Some?
    ensures MatchAt(s, i, prefixes) == Some(w) && OccursAt(s, w, k)
  {
    var p, j := MatchAtHasPrefix(s, i, prefixes);
    k, w := MatchAfterPrefixOccurs(s, j);
  }

  /**
   * `re.search(STREET_REGEX, s).group(2)`: the street word of the leftmost
   * match, or None when the pattern matches nowhere.
   */
  function StreetName(s: string): (r: Option<string>)
    ensures r.Some? ==> exists i :: 0 <= i <= |s| && MatchAt(s, i, Config.StreetPrefixes) == r
                                  && forall j :: 0 <= j < i ==> MatchAt(s, j, Config.StreetPrefixes).None?
    ensures r.None? ==> forall i :: 0 <= i <= |s| ==> MatchAt(s, i, Config.StreetPrefixes).None?
  {
    var test := (i: nat) => MatchAt(s, i, Config.StreetPrefixes).Some?;
    assert forall i: nat :: test(i) == MatchAt(s, i, Config.StreetPrefixes).Some?;
    match FirstWhere(test, 0, |s| + 1)
    case None => None
    case Some(i) => MatchAt(s, i, Config.StreetPrefixes)
  }

  /** The street name handed to the geocoder is a capitalised word followed only by whitespace. */
  lemma StreetNameIsWord(s: string)
    requires StreetName(s).Some?
    ensures IsStreetWord(StreetName(s).value)
  {
    var i :| 0 <= i <= |s| && MatchAt(s, i, Config.StreetPrefixes) == StreetName(s)
             && forall j :: 0 <= j < i ==> MatchAt(s, j, Config.StreetPrefixes).None?;
    MatchAtIsWord(s, i, Config.StreetPrefixes);
  }

  /** `WordLength` is the run of lower-case letters after the capital plus the run of whitespace after them. */
  lemma WordLengthIs(t: string, letters: nat, spaces: nat)
    requires StartsWord(t) && 2 <= letters && letters + spaces <= |t|
    requires forall i :: 1 <= i < letters ==> IsLower(t[i])
    requires letters == |t| || !IsLower(t[letters])
    requires forall i :: letters <= i < letters + spaces ==> IsSpace(t[i])
    requires letters + spaces == |t| || !IsSpace(t[letters + spaces])
    ensures WordLength(t) == letters + spaces
  {
    forall i | 0 <= i < letters - 1 ensures IsLower(t[1..][i]) {
      assert t[1..][i] == t[i + 1];
    }
    assert letters - 1 == |t[1..]| || t[1..][letters - 1] == t[letters];
    LeadingCountIs(t[1..], IsLower, letters - 1);
    forall i | 0 <= i < spaces ensures IsSpace(t[letters..][i]) {
      assert t[letters..][i] == t[letters + i];
    }
    assert spaces == |t[letters..]| || t[letters..][spaces] == t[letters + spaces];
    LeadingCountIs(t[letters..], IsSpace, spaces);
  }

  /** "Nowy Swiat" opens with the repetition "Nowy ". */
  lemma FirstWordOfNowySwiat()
    ensures StartsWord("Nowy Swiat") && WordLength("Nowy Swiat") == 5 && "Nowy Swiat"[5..] == "Swiat"
  {
    WordLengthIs("Nowy Swiat", 4, 1);
  }

  /** "Swiat" is a single repetition with no whitespace after it. */
  lemma SwiatIsOneWord()
    ensures StartsWord("Swiat") && WordLength("Swiat") == 5 && "Swiat"[..5] == "Swiat" && !StartsWord("Swiat"[5..])
  {
    WordLengthIs("Swiat", 5, 0);
  }

  /** Of the street "Nowy Swiat" only the last word is kept. */
  lemma LastRepetitionExample(t: string)
    requires t == "Nowy Swiat"
    ensures StartsWord(t) && LastRepetition(t) == "Swiat"
  {
    FirstWordOfNowySwiat();
    SwiatIsOneWord();
  }

  /** A multi-word street yields only its last word: "ul. Nowy Swiat" gives "Swiat". */
  lemma StreetNameIsLastWord(s: string)
    requires s == "ul. Nowy Swiat"
    ensures StreetName(s) == Some("Swiat")
  {
    assert OccursAt(s, "ul.", 0);
    LeadingCountIs(s[3..], IsSpace, 1);
    LastRepetitionExample(s[4..]);
    assert SkipSpaces(s[3..]) == s[4..];
    assert MatchAfterPrefix(s, 3) == Some("Swiat");
    assert MatchAt(s, 0, Config.StreetPrefixes) == Some("Swiat");
  }

  // ---------------------------------------------------------------------------
  // The parser
  // ---------------------------------------------------------------------------

  class DescriptionParser {
    /** The text and transliteration table the parser was built from. */
    ghost const raw: string
    ghost const table: char -> string

    /** Normalised text, case preserved (searched for street names and `plus`). */
    const description: string
    /** Lowercased description without `,` `.` `!` (searched for rent keywords). */
    const descriptionParser: string
    /** The words of `descriptionParser`. */
    const wordsSet: set<string>

    ghost predicate Valid() {
      AsciiTable(table)
      && description == CanonicalForm(table, raw)
      && descriptionParser == ParserForm(description)
      && wordsSet == Words(descriptionParser)
    }

    constructor (text: string, table: char -> string)
      requires AsciiTable(table)
      ensures raw == text && this.table == table && Valid()
      ensures AllAscii(description)
    {
      var d := ReplaceChar(text, '\n', ' ');
      d := CollapseWhitespace(d);
      d := Transliterate(table, d);
      description := d;
      d := Lower(d);
      d := StripPunctuation(d);
      descriptionParser := d;
      wordsSet := set w | w in Split(d, " ");
      raw := text;
      this.table := table;
    }

    /** Whether a blacklisted place is one of the words (whole-word match, not substring). */
    function DoesContainBlacklisted(): (r: bool)
      ensures r <==> exists t :: t in Config.BLACKLIST && t in wordsSet
    {
      AnyListed(Config.BLACKLIST, wordsSet)
    }

    /**
     * The rent mentioned in the text, below 2000: the keyword phase first, and
     * the `plus N` fallback on the lowercased description only when that
     * phase finds nothing.
     */
    function FindHiddenRent(): (r: Option<nat>)
      requires Valid()
      ensures r.Some? ==> r.value < RentBound
      ensures KeywordRent(descriptionParser, wordsSet, RentKeywords).Some? ==>
                r == KeywordRent(descriptionParser, wordsSet, RentKeywords)
      ensures KeywordRent(descriptionParser, wordsSet, RentKeywords).None? ==> r == PlusRent(Lower(description))
    {
      var fromKeyword := KeywordRent(descriptionParser, wordsSet, RentKeywords);
      if fromKeyword.Some? then fromKeyword else PlusRent(Lower(description))
    }

    /**
     * The location of the street the description mentions: without a street
     * the geocoder is not contacted; otherwise it is asked exactly once, for
     * the street word in the configured city, and its answer is returned.
     */
    method FindPossibleLocation(finder: GeocodeService) returns (loc: Option<Location>)
      modifies finder
      ensures StreetName(description).None? ==> loc.None? && finder.requests == old(finder.requests)
      ensures StreetName(description).Some? ==>
                finder.requests == old(finder.requests) + [(StreetName(description).value, City)]
                && loc == finder.answer(StreetName(description).value, City)
    {
      var street := StreetName(description);
      if street.None? {
        return None;
      }
      loc := finder.FindAverageLocation(street.value, City);
    }
  }

  /** The first word of a parser form that starts with a non-empty word followed by a space. */
  lemma FirstWord(parserForm: string, n: nat)
    requires 0 < n < |parserForm| && parserForm[n] == ' '
    requires forall j :: 0 <= j < n ==> parserForm[j] != ' '
    ensures parserForm[..n] in Words(parserForm)
  {
    assert OccursAt(parserForm, " ", n);
    forall j | 0 <= j < n ensures !OccursAt(parserForm, " ", j) {
      assert parserForm[j..j + 1][0] == parserForm[j];
    }
    assert Split(parserForm, " ")[0] == parserForm[..n];
  }

  /** A term holding a character the parser form lacks is none of its words. */
  lemma AbsentCharExcludesWord(parserForm: string, w: string, c: char)
    requires c in w && c !in parserForm
    ensures w !in Words(parserForm)
  {
    forall k: nat ensures !OccursAt(parserForm, w, k) {
      AbsentCharBlocksOccurrence(parserForm, w, c, k);
    }
    forall i | 0 <= i < |Split(parserForm, " ")| ensures Split(parserForm, " ")[i] != w {
      var at := SplitPieceOccurs(parserForm, " ", i);
    }
  }

  /** The keyword's first letter does not recur in "czynsz ". */
  lemma KeywordStartsOnce(k: nat)
    requires 1 <= k < 7
    ensures "czynsz "[k] != 'c'
  {
  }

  /** In "czynsz <digits> zl" the keyword is the first word and its window is the rest. */
  lemma KeywordWindowOfExample(pf: string, digits: string)
    requires pf == "czynsz " + digits + " zl" && AllDigits(digits)
    ensures "czynsz" in Words(pf) && RentWindow(pf, "czynsz") == " " + digits + " zl"
  {
    FirstWord(pf, 6);
    assert pf[..6] == "czynsz";
    assert OccursAt(pf, "czynsz", 0);
    forall j | 1 <= j <= |pf| ensures !OccursAt(pf, "czynsz", j) {
      if j + 6 <= |pf| {
        assert pf[j..j + 6][0] == pf[j];
        if j < 7 {
          assert pf[j] == "czynsz "[j];
          KeywordStartsOnce(j);
        } else {
          assert pf[j] == digits[j - 7];
        }
      }
    }
    var after := RentWindowBetweenOccurrences(pf, "czynsz");
    var w := RentWindow(pf, "czynsz");
    assert after == 6 && 6 + |w| == |pf|;
    assert w == pf[6..];
  }

  /** The first number of " <digits> zl" is the value of the digits. */
  lemma FirstNumberOfWindow(w: string, digits: string)
    requires w == " " + digits + " zl" && AllDigits(digits) && digits != []
    ensures FirstNumber(w) == Some(ParseNat(digits))
  {
    LeadingCountIs(w[1..], IsDigit, |digits|);
    assert TakeDigits(w[1..]) == digits;
  }

  /** Lowercasing "Czynsz " character by character gives "czynsz ". */
  lemma KeywordCharLowered(k: nat)
    requires k < 7
    ensures LowerChar("Czynsz "[k]) == "czynsz "[k]
  {
  }

  /** " zl" has no capital, so lowercasing keeps each of its characters. */
  lemma CurrencyCharLowered(k: nat)
    requires k < 3
    ensures LowerChar(" zl"[k]) == " zl"[k]
  {
  }

  /** Lowercasing the keyword's capital is all the normalisation "Czynsz <digits> zl" needs. */
  lemma ParserFormOfExample(description: string, digits: string)
    requires description == "Czynsz " + digits + " zl" && AllDigits(digits)
    ensures Lower(description) == "czynsz " + digits + " zl"
    ensures ParserForm(description) == "czynsz " + digits + " zl"
  {
    var lowered := "czynsz " + digits + " zl";
    forall i | 0 <= i < |description| ensures Lower(description)[i] == lowered[i] {
      if i < 7 {
        assert description[i] == "Czynsz "[i] && lowered[i] == "czynsz "[i];
        KeywordCharLowered(i);
      } else if i < 7 + |digits| {
        assert description[i] == digits[i - 7] == lowered[i];
      } else {
        var k := i - 7 - |digits|;
        assert description[i] == " zl"[k] == lowered[i];
        CurrencyCharLowered(k);
      }
    }
    StripPunctuationClean(lowered);
  }

  /** Neither `czynszem` nor `czynszu` occurs in "czynsz <digits> zl", and no `plus` does. */
  lemma NoOtherKeyword(pf: string, digits: string)
    requires pf == "czynsz " + digits + " zl" && AllDigits(digits)
    ensures "czynszem" !in Words(pf) && "czynszu" !in Words(pf)
    ensures forall i: nat :: !PlusMatchAt(pf, i)
  {
    assert 'e' !in pf && 'u' !in pf && 'p' !in pf;
    AbsentCharExcludesWord(pf, "czynszem", 'e');
    AbsentCharExcludesWord(pf, "czynszu", 'u');
    forall i: nat ensures !PlusMatchAt(pf, i) {
      AbsentCharBlocksOccurrence(pf, "plus", 'p', i);
    }
  }

  /** When only the first keyword can yield a number, the keyword phase is that keyword's branch. */
  lemma KeywordRentIsFirstCandidate(pf: string, words: set<string>, first: string, second: string, third: string)
    requires words == Words(pf) && first != [] && second != [] && third != []
    requires KeywordCandidate(pf, words, second).None? && KeywordCandidate(pf, words, third).None?
    ensures KeywordRent(pf, words, [first, second, third]) == KeywordCandidate(pf, words, first)
  {
    var keywords := [first, second, third];
    if KeywordRent(pf, words, keywords).Some? {
      var k := KeywordRentPicksFirst(pf, words, keywords);
      assert keywords[0] == first && keywords[1] == second && keywords[2] == third;
    }
  }

  /** The keyword phase on "czynsz <digits> zl": the number, when it is below the bound. */
  lemma KeywordRentOfExample(pf: string, digits: string)
    requires pf == "czynsz " + digits + " zl" && AllDigits(digits) && digits != []
    ensures KeywordRent(pf, Words(pf), RentKeywords)
              == if ParseNat(digits) < RentBound then Some(ParseNat(digits)) else None
  {
    KeywordWindowOfExample(pf, digits);
    FirstNumberOfWindow(RentWindow(pf, "czynsz"), digits);
    NoOtherKeyword(pf, digits);
    KeywordRentIsFirstCandidate(pf, Words(pf), "czynsz", "czynszem", "czynszu");
  }

  /** Without any `plus` the fallback finds nothing. */
  lemma PlusRentWithoutPlus(s: string)
    requires forall i: nat :: !PlusMatchAt(s, i)
    ensures PlusRent(s).None?
  {
  }

  /**
   * For "Czynsz <digits> zl" the hidden rent is the number when it is below
   * 2000 and nothing otherwise: the keyword phase reads it, and the fallback
   * finds no `plus`.
   */
  lemma HiddenRentOfKeywordAndNumber(p: DescriptionParser, digits: string)
    requires p.Valid() && AllDigits(digits) && digits != []
    requires p.description == "Czynsz " + digits + " zl"
    ensures p.FindHiddenRent() == if ParseNat(digits) < RentBound then Some(ParseNat(digits)) else None
  {
    ParserFormOfExample(p.description, digits);
    var pf := p.descriptionParser;
    KeywordRentOfExample(pf, digits);
    NoOtherKeyword(pf, digits);
    PlusRentWithoutPlus(Lower(p.description));
  }

  /** "Czynsz 450 zl" is the keyword, the digits "450" and the currency, and those digits read 450. */
  lemma SmallRentText()
    ensures "Czynsz 450 zl" == "Czynsz " + "450" + " zl" && AllDigits("450") && ParseNat("450") == 450
  {
    var digits := "450";
    assert digits[..2] == "45" && "45"[..1] == "4" && "4"[..0] == "";
  }

  /** "Czynsz 5000 zl" is the keyword, the digits "5000" and the currency, and those digits read 5000. */
  lemma LargeRentText()
    ensures "Czynsz 5000 zl" == "Czynsz " + "5000" + " zl" && AllDigits("5000") && ParseNat("5000") == 5000
  {
    var digits := "5000";
    assert digits[..3] == "500" && "500"[..2] == "50" && "50"[..1] == "5" && "5"[..0] == "";
  }

  /** "Czynsz 450 zl" yields 450: the number is below the bound. */
  lemma HiddenRentAcceptsSmallNumber(p: DescriptionParser)
    requires p.Valid() && p.description == "Czynsz 450 zl"
    ensures p.FindHiddenRent() == Some(450)
  {
    SmallRentText();
    HiddenRentOfKeywordAndNumber(p, "450");
  }

  /** "Czynsz 5000 zl" yields nothing: the number is too big to be a rent. */
  lemma HiddenRentRejectsLargeNumber(q: DescriptionParser)
    requires q.Valid() && q.description == "Czynsz 5000 zl"
    ensures q.FindHiddenRent().None?
  {
    LargeRentText();
    HiddenRentOfKeywordAndNumber(q, "5000");
  }
}
