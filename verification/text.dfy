/**
 * The string primitives the description parser relies on, written out with the
 * semantics of Python's `str` methods and of the `re` patterns it uses.
 */
module Text {
  import opened Wrappers

  // ---------------------------------------------------------------------------
  // Character classes
  // ---------------------------------------------------------------------------

  /** Python's `\s` on `str` patterns: the characters `str.isspace()` accepts. */
  predicate IsSpace(c: char) {
    c == ' ' || c == '\t' || c == '\n' || c == '\r' || c == '\U{B}' || c == '\U{C}'
    || ('\U{1C}' <= c <= '\U{1F}') || c == '\U{85}' || c == '\U{A0}' || c == '\U{1680}'
    || ('\U{2000}' <= c <= '\U{200A}') || c == '\U{2028}' || c == '\U{2029}'
    || c == '\U{202F}' || c == '\U{205F}' || c == '\U{3000}'
  }

  /** `\d`, restricted to the ASCII digits. */
  predicate IsDigit(c: char) { '0' <= c <= '9' }

  /** `[A-Z]` */
  predicate IsUpper(c: char) { 'A' <= c <= 'Z' }

  /** `[a-z]` */
  predicate IsLower(c: char) { 'a' <= c <= 'z' }

  predicate IsAscii(c: char) { c as int < 128 }

  predicate AllAscii(s: string) { forall i :: 0 <= i < |s| ==> IsAscii(s[i]) }

  /** The characters that the pattern `[,\.\!]+` deletes. */
  predicate IsStrippedPunctuation(c: char) { c == ',' || c == '.' || c == '!' }

  /** No character of `s` is whitespace immediately followed by whitespace. */
  predicate NoDoubleSpace(s: string) {
    forall i :: 0 <= i < |s| - 1 ==> !(IsSpace(s[i]) && IsSpace(s[i + 1]))
  }

  // ---------------------------------------------------------------------------
  // Leftmost search
  // ---------------------------------------------------------------------------

  /** The least position `j` in `[from, n)` that passes `test`: how `re.search` and `str.find` pick a match. */
  function FirstWhere(test: nat -> bool, from: nat, n: nat): (r: Option<nat>)
    decreases n - from
    ensures r.Some? ==> from <= r.value < n && test(r.value)
    ensures r.Some? ==> forall j :: from <= j < r.value ==> !test(j)
    ensures r.None? ==> forall j :: from <= j < n ==> !test(j)
  {
    if from >= n then None
    else if test(from) then Some(from)
    else FirstWhere(test, from + 1, n)
  }

  /** Length of the longest prefix of `s` whose characters all pass `p`. */
  function LeadingCount(s: string, p: char -> bool): (k: nat)
    ensures k <= |s|
    ensures k == |s| || !p(s[k])
  {
    if s != [] && p(s[0]) then 1 + LeadingCount(s[1..], p) else 0
  }

  /** Every character the count covers passes `p`. */
  lemma {:induction false} LeadingCountPasses(s: string, p: char -> bool)
    ensures forall i :: 0 <= i < LeadingCount(s, p) ==> p(s[i])
  {
    if s != [] && p(s[0]) {
      LeadingCountPasses(s[1..], p);
      forall i | 0 < i < LeadingCount(s, p) ensures p(s[i]) {
        assert s[i] == s[1..][i - 1];
      }
    }
  }

  /** The count is determined by where the first failing character is. */
  lemma {:induction false} LeadingCountIs(s: string, p: char -> bool, k: nat)
    requires k <= |s| && (forall i :: 0 <= i < k ==> p(s[i])) && (k == |s| || !p(s[k]))
    ensures LeadingCount(s, p) == k
    decreases k
  {
    if k > 0 {
      assert p(s[0]);
      forall i | 0 <= i < k - 1 ensures p(s[1..][i]) {
        assert s[1..][i] == s[i + 1];
      }
      assert k - 1 == |s[1..]| || s[1..][k - 1] == s[k];
      LeadingCountIs(s[1..], p, k - 1);
    }
  }

  /** `s` with leading whitespace removed: what `\s*` consumes greedily. */
  function SkipSpaces(s: string): string {
    s[LeadingCount(s, IsSpace)..]
  }

  // ---------------------------------------------------------------------------
  // Substring search and str.split
  // ---------------------------------------------------------------------------

  /** `pat` occurs in `s` starting at `i`. */
  predicate OccursAt(s: string, pat: string, i: nat) {
    i + |pat| <= |s| && s[i..i + |pat|] == pat
  }

  /** A text lacking one of the pattern's characters has no occurrence of it. */
  lemma AbsentCharBlocksOccurrence(s: string, pat: string, c: char, k: nat)
    requires c in pat && c !in s
    ensures !OccursAt(s, pat, k)
  {
  }

  /** The first occurrence of `pat` in `s` at or after `from`. */
  function FindFrom(s: string, pat: string, from: nat): (r: Option<nat>)
    ensures r.Some? ==> from <= r.value && OccursAt(s, pat, r.value)
    ensures r.Some? ==> forall j :: from <= j < r.value ==> !OccursAt(s, pat, j)
    ensures r.None? ==> forall j :: from <= j <= |s| ==> !OccursAt(s, pat, j)
    decreases |s| + 1 - from
  {
    if from > |s| then None
    else if OccursAt(s, pat, from) then Some(from)
    else FindFrom(s, pat, from + 1)
  }

  /** Index of the first occurrence of `pat` in `s` (Python's `str.find`, None for -1). */
  function Find(s: string, pat: string): (r: Option<nat>)
    ensures r.Some? ==> OccursAt(s, pat, r.value)
    ensures r.Some? ==> forall j :: 0 <= j < r.value ==> !OccursAt(s, pat, j)
    ensures r.None? ==> forall j :: 0 <= j <= |s| ==> !OccursAt(s, pat, j)
  {
    FindFrom(s, pat, 0)
  }

  /**
   * Python's `s.split(sep)` for a non-empty separator: the pieces between
   * non-overlapping occurrences of `sep`, found left to right.
   */
  function Split(s: string, sep: string): (pieces: seq<string>)
    requires sep != []
    ensures |pieces| >= 1
    decreases |s|
  {
    var f := Find(s, sep);
    if f.None? then [s] else [s[..f.value]] + Split(s[f.value + |sep|..], sep)
  }

  /** Python's `sep.join(pieces)`. */
  function Join(pieces: seq<string>, sep: string): string {
    if pieces == [] then []
    else if |pieces| == 1 then pieces[0]
    else pieces[0] + sep + Join(pieces[1..], sep)
  }

  /** At the first separator the text falls apart into the first piece, the separator and the rest. */
  lemma SplitAtFirst(s: string, sep: string) returns (i: nat)
    requires sep != [] && Find(s, sep).Some?
    ensures Find(s, sep) == Some(i) && OccursAt(s, sep, i)
    ensures Split(s, sep) == [s[..i]] + Split(s[i + |sep|..], sep)
  {
    i := Find(s, sep).value;
  }

  /** An occurrence of `pat` at `i` cuts `s` into what comes before, `pat` and what comes after. */
  lemma OccurrenceSplitsText(s: string, pat: string, i: nat)
    requires OccursAt(s, pat, i)
    ensures s == s[..i] + pat + s[i + |pat|..]
  {
    assert s == s[..i] + s[i..i + |pat|] + s[i + |pat|..];
  }

  /** One step of `Join`: the head, the separator, then the rest joined. */
  lemma JoinCons(head: string, rest: seq<string>, sep: string)
    requires |rest| >= 1
    ensures Join([head] + rest, sep) == head + sep + Join(rest, sep)
  {
    assert ([head] + rest)[1..] == rest;
  }

  /** Joining the pieces of a split with the same separator gives back the text. */
  lemma {:induction false} JoinSplit(s: string, sep: string)
    requires sep != []
    ensures Join(Split(s, sep), sep) == s
    decreases |s|
  {
    if Find(s, sep).Some? {
      var i := SplitAtFirst(s, sep);
      OccurrenceSplitsText(s, sep, i);
      var rest := s[i + |sep|..];
      JoinSplit(rest, sep);
      JoinCons(s[..i], Split(rest, sep), sep);
    }
  }

  /**
   * `w` occurs in `s` at `at` as a whole piece of a split on `sep`: it holds no
   * separator and is followed by one or by the end of `s`.
   */
  predicate PieceAt(s: string, sep: string, at: nat, w: string) {
    at + |w| <= |s| && s[at..at + |w|] == w && Find(w, sep).None?
    && (at + |w| == |s| || OccursAt(s, sep, at + |w|))
  }

  /** The first piece of a split, returned as `h`, is the text up to the first separator, or all of it. */
  lemma SplitHead(s: string, sep: string) returns (h: string)
    requires sep != []
    ensures h == Split(s, sep)[0] && PieceAt(s, sep, 0, h)
  {
    h := Split(s, sep)[0];
    SplitPiecesAvoidSeparator(s, sep, 0);
    assert s[0..|h|] == h;
  }

  /**
   * The second piece of a split, returned as `w`, is the text from `after`,
   * just past the first separator, up to the next separator or the end.
   */
  lemma SplitSecond(s: string, sep: string) returns (after: nat, w: string)
    requires sep != [] && |Split(s, sep)| >= 2
    ensures Find(s, sep).Some? && after == Find(s, sep).value + |sep| && w == Split(s, sep)[1]
    ensures PieceAt(s, sep, after, w)
  {
    var i := SplitAtFirst(s, sep);
    after := i + |sep|;
    w := SplitHead(s[after..], sep);
    HeadInSuffix(s, after, sep, w);
  }

  /** Lifts a piece of a suffix of `s` to a piece of `s` itself. */
  lemma HeadInSuffix(s: string, start: nat, sep: string, w: string)
    requires start <= |s| && PieceAt(s[start..], sep, 0, w)
    ensures PieceAt(s, sep, start, w)
  {
    if |w| < |s[start..]| {
      var at := OccursInSuffix(s, start, sep, |w|);
    }
    var at := OccursInSuffix(s, start, w, 0);
  }

  /** Two adjacent separators leave an empty piece between them. */
  lemma {:induction false} AdjacentSeparatorsGiveEmptyPiece(s: string, sep: char, i: nat)
    requires i + 1 < |s| && s[i] == sep && s[i + 1] == sep
    ensures [] in Split(s, [sep])
    decreases |s|
  {
    var f := Find(s, [sep]);
    assert OccursAt(s, [sep], i);
    var j := f.value;
    var rest := s[j + 1..];
    assert Split(s, [sep]) == [s[..j]] + Split(rest, [sep]);
    if j == i {
      assert OccursAt(rest, [sep], 0);
      assert Find(rest, [sep]) == Some(0);
      assert Split(rest, [sep])[0] == [];
    } else {
      AdjacentSeparatorsGiveEmptyPiece(rest, sep, i - j - 1);
    }
  }

  /** A separator at the start or at the end of the text leaves an empty piece there. */
  lemma {:induction false} EdgeSeparatorGivesEmptyPiece(s: string, sep: char)
    requires s != [] && (s[0] == sep || s[|s| - 1] == sep)
    ensures [] in Split(s, [sep])
    decreases |s|
  {
    assert OccursAt(s, [sep], if s[0] == sep then 0 else |s| - 1);
    var j := Find(s, [sep]).value;
    var rest := s[j + 1..];
    assert Split(s, [sep]) == [s[..j]] + Split(rest, [sep]);
    if s[0] == sep {
      assert OccursAt(s, [sep], 0);
      assert s[..j] == [];
    } else if j == |s| - 1 {
      assert Split(rest, [sep]) == [[]];
    } else {
      assert rest[|rest| - 1] == sep;
      EdgeSeparatorGivesEmptyPiece(rest, sep);
    }
  }

  /** No piece of a split contains the separator. */
  lemma {:induction false} SplitPiecesAvoidSeparator(s: string, sep: string, k: nat)
    requires sep != [] && k < |Split(s, sep)|
    ensures Find(Split(s, sep)[k], sep).None?
    decreases |s|
  {
    match Find(s, sep)
    case None =>
    case Some(i) =>
      if k == 0 {
        var piece := s[..i];
        forall j | 0 <= j <= |piece| ensures !OccursAt(piece, sep, j) {
          if j + |sep| <= |piece| {
            PrefixSlice(s, i, j, j + |sep|);
            assert !OccursAt(s, sep, j);
          }
        }
      } else {
        SplitPiecesAvoidSeparator(s[i + |sep|..], sep, k - 1);
      }
  }

  /** A slice of a prefix of `s` is the same slice of `s`. */
  lemma PrefixSlice(s: string, n: nat, a: nat, b: nat)
    requires a <= b <= n <= |s|
    ensures s[..n][a..b] == s[a..b]
  {
  }

  /** Every piece of a split occurs in the text, at the index this lemma returns. */
  lemma SplitPieceOccurs(s: string, sep: string, k: nat) returns (at: nat)
    requires sep != [] && k < |Split(s, sep)|
    ensures OccursAt(s, Split(s, sep)[k], at)
  {
    JoinSplit(s, sep);
    at := JoinPieceOccurs(Split(s, sep), sep, k);
  }

  /** Every piece occurs in the joined text, at the index this lemma returns. */
  lemma {:induction false} JoinPieceOccurs(pieces: seq<string>, sep: string, k: nat) returns (at: nat)
    requires k < |pieces|
    ensures OccursAt(Join(pieces, sep), pieces[k], at)
    decreases |pieces|
  {
    at := 0;
    if |pieces| == 1 {
      assert Join(pieces, sep)[0..|pieces[0]|] == pieces[0];
    } else {
      var rest := Join(pieces[1..], sep);
      var joined := pieces[0] + sep + rest;
      assert Join(pieces, sep) == joined;
      if k == 0 {
        assert joined[0..|pieces[0]|] == pieces[0];
      } else {
        var start := |pieces[0]| + |sep|;
        assert joined[start..] == rest;
        assert pieces[1..][k - 1] == pieces[k];
        var inner := JoinPieceOccurs(pieces[1..], sep, k - 1);
        at := OccursInSuffix(joined, start, pieces[k], inner);
      }
    }
  }

  /** Dropping `start` and then `more` characters drops `start + more`. */
  lemma SuffixOfSuffix(s: string, start: nat, more: nat)
    requires start + more <= |s|
    ensures s[start..][more..] == s[start + more..]
  {
  }

  /** An occurrence in a suffix of `s` is an occurrence in `s`, shifted by the suffix's start. */
  lemma OccursInSuffix(s: string, start: nat, pat: string, inner: nat) returns (at: nat)
    requires start <= |s| && OccursAt(s[start..], pat, inner)
    ensures at == start + inner && OccursAt(s, pat, at)
  {
    at := start + inner;
    assert s[at..at + |pat|] == s[start..][inner..inner + |pat|];
  }

  /**
   * A non-empty word of a text split on a single space occurs in that text, so
   * splitting the text on that word gives at least two pieces.
   */
  lemma WordSplitsText(s: string, w: string)
    requires w != [] && w in Split(s, " ")
    ensures |Split(s, w)| >= 2
  {
    var k :| 0 <= k < |Split(s, " ")| && Split(s, " ")[k] == w;
    var at := SplitPieceOccurs(s, " ", k);
    assert at <= |s|;
    assert Find(s, w).Some?;
  }

  // ---------------------------------------------------------------------------
  // Character-wise rewrites
  // ---------------------------------------------------------------------------

  /** Python's `s.replace(from, to)` for one-character arguments. */
  function ReplaceChar(s: string, from: char, to: char): (r: string)
    ensures |r| == |s|
    ensures forall i :: 0 <= i < |s| ==> r[i] == (if s[i] == from then to else s[i])
  {
    if s == [] then [] else [if s[0] == from then to else s[0]] + ReplaceChar(s[1..], from, to)
  }

  /** Python's `re.sub(r"\s+", " ", s)`: every maximal run of whitespace becomes one space. */
  function CollapseWhitespace(s: string): (r: string)
    ensures r == [] <==> s == []
    ensures r != [] ==> (IsSpace(r[0]) <==> IsSpace(s[0]))
    ensures r != [] ==> (IsSpace(r[|r| - 1]) <==> IsSpace(s[|s| - 1]))
    ensures forall i :: 0 <= i < |r| && IsSpace(r[i]) ==> r[i] == ' '
    ensures NoDoubleSpace(r)
    decreases |s|
  {
    if s == [] then []
    else if IsSpace(s[0]) then
      var rest := SkipSpaces(s[1..]);
      var tail := CollapseWhitespace(rest);
      assert tail != [] ==> !IsSpace(tail[0]);
      assert rest == [] ==> IsSpace(s[|s| - 1]) by {
        LeadingCountPasses(s[1..], IsSpace);
        if rest == [] && |s| > 1 {
          assert s[|s| - 1] == s[1..][|s| - 2];
        }
      }
      assert rest != [] ==> rest[|rest| - 1] == s[|s| - 1];
      " " + tail
    else
      var tail := CollapseWhitespace(s[1..]);
      [s[0]] + tail
  }

  /** The non-whitespace characters of `s`, in order. */
  function NonSpace(s: string): string {
    if s == [] then [] else (if IsSpace(s[0]) then [] else [s[0]]) + NonSpace(s[1..])
  }

  lemma {:induction false} NonSpaceSkipSpaces(s: string)
    ensures NonSpace(SkipSpaces(s)) == NonSpace(s)
  {
    if s != [] && IsSpace(s[0]) {
      NonSpaceSkipSpaces(s[1..]);
      assert SkipSpaces(s) == SkipSpaces(s[1..]);
    }
  }

  /**
   * The maximal runs of non-whitespace characters of `s`, in order: a
   * non-whitespace character starts a new run unless the one after it
   * continues it.
   */
  function Tokens(s: string): (ts: seq<string>)
    ensures s != [] && !IsSpace(s[0]) ==> ts != []
    decreases |s|
  {
    if s == [] then []
    else if IsSpace(s[0]) then Tokens(s[1..])
    else
      var rest := Tokens(s[1..]);
      if |s| > 1 && !IsSpace(s[1]) then [[s[0]] + rest[0]] + rest[1..] else [[s[0]]] + rest
  }

  lemma {:induction false} TokensSkipSpaces(s: string)
    ensures Tokens(SkipSpaces(s)) == Tokens(s)
  {
    if s != [] && IsSpace(s[0]) {
      TokensSkipSpaces(s[1..]);
      assert SkipSpaces(s) == SkipSpaces(s[1..]);
    }
  }

  /** Collapsing whitespace keeps the runs between whitespace exactly: no word is split or merged. */
  lemma {:induction false} CollapseKeepsTokens(s: string)
    ensures Tokens(CollapseWhitespace(s)) == Tokens(s)
    decreases |s|
  {
    if s == [] {
    } else if IsSpace(s[0]) {
      var rest := SkipSpaces(s[1..]);
      CollapseKeepsTokens(rest);
      TokensSkipSpaces(s[1..]);
      assert (" " + CollapseWhitespace(rest))[1..] == CollapseWhitespace(rest);
    } else {
      CollapseKeepsTokens(s[1..]);
      assert ([s[0]] + CollapseWhitespace(s[1..]))[1..] == CollapseWhitespace(s[1..]);
    }
  }

  /** Collapsing whitespace keeps every other character, in order. */
  lemma {:induction false} CollapseKeepsText(s: string)
    ensures NonSpace(CollapseWhitespace(s)) == NonSpace(s)
    decreases |s|
  {
    if s == [] {
    } else if IsSpace(s[0]) {
      var rest := SkipSpaces(s[1..]);
      CollapseKeepsText(rest);
      NonSpaceSkipSpaces(s[1..]);
      assert NonSpace(" " + CollapseWhitespace(rest)) == NonSpace(CollapseWhitespace(rest));
    } else {
      CollapseKeepsText(s[1..]);
      assert ([s[0]] + CollapseWhitespace(s[1..]))[1..] == CollapseWhitespace(s[1..]);
    }
  }

  /** Replacing one whitespace character by another keeps the other characters. */
  lemma {:induction false} ReplaceSpaceKeepsText(s: string, from: char, to: char)
    requires IsSpace(from) && IsSpace(to)
    ensures NonSpace(ReplaceChar(s, from, to)) == NonSpace(s)
  {
    if s != [] {
      ReplaceSpaceKeepsText(s[1..], from, to);
      assert ReplaceChar(s, from, to)[1..] == ReplaceChar(s[1..], from, to);
    }
  }

  /** Collapsing ASCII text gives ASCII text. */
  lemma {:induction false} CollapseKeepsAscii(s: string)
    requires AllAscii(s)
    ensures AllAscii(CollapseWhitespace(s))
    decreases |s|
  {
    if s == [] {
    } else if IsSpace(s[0]) {
      var k := LeadingCount(s[1..], IsSpace);
      assert AllAscii(s[1..][k..]);
      CollapseKeepsAscii(SkipSpaces(s[1..]));
    } else {
      assert AllAscii(s[1..]);
      CollapseKeepsAscii(s[1..]);
    }
  }

  /** A transliteration table in unidecode's manner: every entry is ASCII text. */
  predicate AsciiTable(table: char -> string) {
    forall c :: AllAscii(table(c))
  }

  /**
   * unidecode, character by character: an ASCII character stands for itself and
   * any other character is replaced by its entry in `table`.
   */
  function Transliterate(table: char -> string, s: string): (r: string)
    requires AsciiTable(table)
    ensures AllAscii(r)
  {
    if s == [] then [] else (if IsAscii(s[0]) then [s[0]] else table(s[0])) + Transliterate(table, s[1..])
  }

  /** Transliteration leaves ASCII text unchanged. */
  lemma {:induction false} TransliterateAscii(table: char -> string, s: string)
    requires AsciiTable(table) && AllAscii(s)
    ensures Transliterate(table, s) == s
  {
    if s != [] {
      assert AllAscii(s[1..]);
      TransliterateAscii(table, s[1..]);
    }
  }

  /** Python's `str.lower()` on one character, for ASCII letters. */
  function LowerChar(c: char): char {
    if IsUpper(c) then (c as int + 32) as char else c
  }

  /** Python's `str.lower()`, folding the ASCII letters. */
  function Lower(s: string): (r: string)
    ensures |r| == |s|
    ensures forall i :: 0 <= i < |s| ==> r[i] == LowerChar(s[i])
  {
    if s == [] then [] else [LowerChar(s[0])] + Lower(s[1..])
  }

  /** Python's `re.sub(r"[,\.\!]+", "", s)`: every `,`, `.` and `!` is deleted. */
  function StripPunctuation(s: string): (r: string)
    ensures |r| <= |s|
    ensures forall i :: 0 <= i < |r| ==> !IsStrippedPunctuation(r[i]) && r[i] in s
  {
    if s == [] then []
    else (if IsStrippedPunctuation(s[0]) then [] else [s[0]]) + StripPunctuation(s[1..])
  }

  /** Deleting the punctuation of a concatenation deletes it from each part. */
  lemma {:induction false} StripPunctuationAppend(a: string, b: string)
    ensures StripPunctuation(a + b) == StripPunctuation(a) + StripPunctuation(b)
  {
    if a == [] {
      assert a + b == b;
    } else {
      var head := if IsStrippedPunctuation(a[0]) then [] else [a[0]];
      calc {
        StripPunctuation(a + b);
        head + StripPunctuation((a + b)[1..]);
        { assert (a + b)[1..] == a[1..] + b; }
        head + StripPunctuation(a[1..] + b);
        { StripPunctuationAppend(a[1..], b); }
        head + (StripPunctuation(a[1..]) + StripPunctuation(b));
      }
    }
  }

  /** Text with none of the three characters is left as it is; hence stripping twice strips once. */
  lemma {:induction false} StripPunctuationClean(s: string)
    requires forall i :: 0 <= i < |s| ==> !IsStrippedPunctuation(s[i])
    ensures StripPunctuation(s) == s
  {
    if s != [] {
      StripPunctuationClean(s[1..]);
    }
  }

  // ---------------------------------------------------------------------------
  // Numbers
  // ---------------------------------------------------------------------------

  predicate AllDigits(s: string) { forall i :: 0 <= i < |s| ==> IsDigit(s[i]) }

  function DigitValue(c: char): nat
    requires IsDigit(c)
  {
    c as int - '0' as int
  }

  function DigitChar(d: nat): (c: char)
    requires d < 10
    ensures IsDigit(c) && DigitValue(c) == d
  {
    ('0' as int + d) as char
  }

  /** The value of a decimal digit string (Python's `int`/`float` of `\d+`; leading zeros allowed). */
  function ParseNat(s: string): nat
    requires AllDigits(s)
  {
    if s == [] then 0 else 10 * ParseNat(s[..|s| - 1]) + DigitValue(s[|s| - 1])
  }

  /** Python's `str(n)` for `n >= 0`. */
  function NatToString(n: nat): (s: string)
    ensures |s| >= 1 && AllDigits(s)
    ensures s[0] == '0' ==> n == 0
  {
    if n < 10 then [DigitChar(n)] else NatToString(n / 10) + [DigitChar(n % 10)]
  }

  /** Python's `str(n)` for any integer. */
  function IntToString(n: int): (s: string)
    ensures |s| >= 1 && (s[0] == '-' <==> n < 0)
    ensures n < 0 ==> s[1..] == NatToString(-n)
    ensures n >= 0 ==> s == NatToString(n)
  {
    if n < 0 then "-" + NatToString(-n) else NatToString(n)
  }

  /** Reading back what `str` printed gives the number. */
  lemma {:induction false} ParseNatToString(n: nat)
    ensures ParseNat(NatToString(n)) == n
  {
    if n >= 10 {
      ParseNatToString(n / 10);
      var s := NatToString(n);
      assert s[..|s| - 1] == NatToString(n / 10);
    }
  }

  /** Different natural numbers print differently. */
  lemma NatToStringInjective(a: nat, b: nat)
    requires a != b
    ensures NatToString(a) != NatToString(b)
  {
    ParseNatToString(a);
    ParseNatToString(b);
  }

  /** Different integers print differently. */
  lemma IntToStringInjective(a: int, b: int)
    requires a != b
    ensures IntToString(a) != IntToString(b)
  {
    var sa, sb := IntToString(a), IntToString(b);
    if a < 0 && b < 0 {
      assert sa[1..] == NatToString(-a) && sb[1..] == NatToString(-b);
      NatToStringInjective(-a, -b);
    } else if a >= 0 && b >= 0 {
      NatToStringInjective(a, b);
    }
  }

  /** The leading run of digits of `s` (what `\d+` matches at its start, when non-empty). */
  function TakeDigits(s: string): (d: string)
    ensures AllDigits(d) && |d| <= |s| && d == s[..|d|]
    ensures |d| == |s| || !IsDigit(s[|d|])
  {
    LeadingCountPasses(s, IsDigit);
    s[..LeadingCount(s, IsDigit)]
  }

  /**
   * `re.search(r"\d+", s)` followed by `float(match.group())`: the value of the
   * first maximal run of digits in `s`, or None when `s` has no digit.
   */
  function FirstNumber(s: string): (r: Option<nat>)
    ensures r.None? <==> forall i :: 0 <= i < |s| ==> !IsDigit(s[i])
    ensures r.Some? ==> exists i :: 0 <= i < |s| && IsDigit(s[i])
                                 && (forall j :: 0 <= j < i ==> !IsDigit(s[j]))
                                 && r.value == ParseNat(TakeDigits(s[i..]))
  {
    var test := (i: nat) => i < |s| && IsDigit(s[i]);
    assert forall i: nat :: test(i) == (i < |s| && IsDigit(s[i]));
    match FirstWhere(test, 0, |s|)
    case None => None
    case Some(i) => Some(ParseNat(TakeDigits(s[i..])))
  }
}
