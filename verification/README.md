# FlatFinder listing evaluation, modelled in Dafny

FlatFinder scrapes flat-rental listings and decides which ones to report. For
each listing it normalises the description text. From that text it works out
whether a blacklisted district is named, whether a rent is mentioned that the
page's rent field does not show, and which street the flat is on. The street is
turned into a distance from a fixed centre point by a geocoding service. The
results are collected by an `OfferBuilder` into an `Offer`, which has a total
cost and a "too far" verdict.

The model covers that evaluation core:

- `wrappers.dfy`: `Option`.
- `text.dfy`: the string operations the parser uses, with Python's meaning:
  - `str.replace` and `str.split`, with the leftmost search for a separator that `str.split` performs;
  - `re.sub(r"\s+", " ")` and the deletion of `,` `.` `!` runs;
  - `str.lower`, a first digit run, and `str(int)`.
- `localization.dfy`: the `Location` point. The street geocoder is a class whose answers are fixed by a function and which logs every request.
- `config.dfy`: the blacklist, the centre point, the maximum distance and the alternatives of the street pattern.
- `parsers.dfy`: `DescriptionParser`. It is a class with constant fields built by its constructor. Its queries are functions of those fields, and the geocoder lookup is a method.
- `offers.dfy`:
  - the `Offer` record, with its total cost and distance verdict;
  - the id derivation;
  - the rent reconciliation;
  - the `OfferBuilder` class, whose `Add` methods each update one field in place.

Outside effects are parameters:
- the transliteration table (`char -> string`). ASCII characters map to themselves and every entry is ASCII text, as in unidecode's tables;
- the geocoder's answers;
- the distance function;
- the runtime's string hash;
- the creation time.

Where the documented behaviour and the code differ, the model follows the code:

- A displayed rent of 0 with no rent in the text is documented as "no rent". The code stores a rent of 0 (`Offers.DisplayedZeroIsKept`).
- The rent keyword search is documented as looking at all the text after the keyword. The code looks only at the text before the keyword's next occurrence (`Parsers.RentWindowBetweenOccurrences`).
- The word set is documented as leaving out the empty string. The code keeps `""` whenever the lowercased text has two adjacent spaces or a space at either end, for example after deleting a lone `!` (`Parsers.EmptyWordFromAdjacentSpaces`, `Parsers.EmptyWordFromEdgeSpace`).
- The street pattern's group 2 is only the last capitalised word of the street name (`Parsers.StreetNameIsLastWord`).
- `CENTER_LOCATION` is built positionally, so 52.222188 lands in the `longitude` field. It is kept that way (`Config.CenterLocation`).

## Model

| member | source | states |
|---|---|---|
| Text.ReplaceChar | parsers.py:13 | every newline becomes a space and every other character is kept, position by position |
| Text.CollapseWhitespace | parsers.py:14 | result empty iff input empty; it starts with whitespace iff the input does, and ends with whitespace iff the input does; every remaining whitespace character is a single `' '`; no two whitespace characters are adjacent |
| Text.CollapseKeepsText | parsers.py:14 | collapsing whitespace keeps every non-whitespace character, in order |
| Text.CollapseKeepsTokens | parsers.py:14 | collapsing whitespace keeps the maximal non-whitespace runs exactly, so no word is split or merged; with the ensures of `CollapseWhitespace` this fixes the result |
| Text.Transliterate | parsers.py:15 | with a table whose entries are ASCII, the result is ASCII |
| Text.TransliterateAscii | parsers.py:15 | transliteration is the identity on ASCII text |
| Text.Lower | parsers.py:17 | same length; each character is lowercased (ASCII letters folded) |
| Text.StripPunctuation | parsers.py:18 | no `,` `.` `!` is left; every remaining character comes from the input |
| Text.StripPunctuationAppend | parsers.py:18 | deleting punctuation distributes over concatenation |
| Text.StripPunctuationClean | parsers.py:18 | text without `,` `.` `!` is unchanged |
| Text.Find | parsers.py:20 | the leftmost search `str.split` makes for its separator: an occurrence of the pattern with none before it, or None when it occurs nowhere |
| Text.Split | parsers.py:20 | `str.split(sep)`: at least one piece |
| Text.JoinSplit | parsers.py:20 | joining the pieces with the separator gives back the text |
| Text.SplitPiecesAvoidSeparator | parsers.py:20 | no piece contains the separator |
| Text.SplitPieceOccurs | parsers.py:20 | every piece occurs in the text |
| Text.AdjacentSeparatorsGiveEmptyPiece | parsers.py:18-20 | two adjacent separators put the empty string among the pieces |
| Text.EdgeSeparatorGivesEmptyPiece | parsers.py:18-20 | a separator at the start or the end of the text puts the empty string among the pieces |
| Text.WordSplitsText | parsers.py:30-31 | a word of the text splits it into at least two pieces, so index 1 exists |
| Text.SplitHead | parsers.py:20 | piece 0 is the text up to the first separator, holds no separator, and is followed by one or by the end |
| Text.SplitSecond | parsers.py:31 | piece 1 starts just past the first separator, holds no separator, and is followed by the next one or by the end |
| Text.FirstNumber | parsers.py:32-34 | None iff there is no digit; otherwise the value of the digit run at the first digit |
| Text.NatToString | offers.py:28 | `str` of a natural number: non-empty decimal digits, with no leading zero unless the number is 0 |
| Text.IntToString | offers.py:28 | non-empty; starts with `-` iff the number is negative; a negative number prints as `-` and the digits of its magnitude, any other as its digits |
| Text.ParseNatToString | offers.py:28 | reading back the decimal digits gives the number |
| Text.NatToStringInjective | offers.py:28 | different natural numbers print differently |
| Text.IntToStringInjective | offers.py:28 | different integers print differently |
| Localization.GeocodeService.FindAverageLocation | localization.py:46-51 | one request for the street in the city is logged and the service's answer returned |
| Parsers.CanonicalForm | parsers.py:13-16 | the stored description is ASCII text |
| Parsers.ParserForm | parsers.py:17-19 | the parser form has no `,` `.` `!` and no capital letter |
| Parsers.Words | parsers.py:20 | the word set is never empty, since `str.split` always gives at least one piece |
| Parsers.CanonicalFormOfAscii | parsers.py:13-16 | for ASCII input the stored description has no newline, no two adjacent whitespace characters, and the input's non-whitespace characters in order |
| Parsers.ParserFormOfAsciiIsAscii | parsers.py:17-18 | lowercasing and deleting punctuation keep ASCII text ASCII |
| Parsers.ParserFormIdempotent | parsers.py:17-19 | lowercasing and deleting punctuation again changes nothing |
| Parsers.WordsHaveNoSpace | parsers.py:20 | no word contains a space |
| Parsers.EmptyWordFromAdjacentSpaces | parsers.py:18-20 | the word set holds `""` when two spaces are adjacent |
| Parsers.EmptyWordFromEdgeSpace | parsers.py:18-20 | the word set holds `""` when the text starts or ends with a space |
| Parsers.DescriptionParser.constructor | parsers.py:11-20 | description, parser form and word set are the normal forms of the given text; the description is ASCII |
| Parsers.AnyListed | parsers.py:23-26 | true iff some term is in the word set |
| Parsers.DescriptionParser.DoesContainBlacklisted | parsers.py:22-26 | true iff some blacklist term is one of the words |
| Parsers.BlacklistIsWholeWord | parsers.py:22-26 | a term inside a longer word (`bemowo` in `bemowowo`) is not a match |
| Parsers.RentWindow | parsers.py:31 | `split(keyword)[1]`, defined because the keyword is a word; it holds no occurrence of the keyword |
| Parsers.RentWindowBetweenOccurrences | parsers.py:30-31 | the keyword occurs; its window starts just past the first occurrence, contains no further occurrence, and ends at the next occurrence or at the end of the text |
| Parsers.KeywordCandidate | parsers.py:30-37 | one keyword's branch yields a number only when it is below 2000 |
| Parsers.FirstSome | parsers.py:29-37 | the loop with early return yields one of the branch results, and yields None only when every branch yields None |
| Parsers.FirstSomeIndex | parsers.py:29-37 | a result comes from a branch before which every branch yielded None |
| Parsers.KeywordRent | parsers.py:29-37 | below 2000; None only when no keyword's branch yields a number |
| Parsers.KeywordRentPicksFirst | parsers.py:29-37 | a number comes from the branch of some keyword, and every earlier keyword's branch yielded none |
| Parsers.PlusMatchAt | parsers.py:39 | `plus\s*(\d+)` matches at a position; a match takes `plus` and at least one digit |
| Parsers.PlusNumber | parsers.py:41 | group 1 of a match is the number the first `\d+` search finds after `plus` and the whitespace |
| Parsers.PlusRent | parsers.py:39-45 | below 2000 and the number of the leftmost `plus` match; None when there is no match or that match's number is at least 2000 |
| Parsers.DescriptionParser.FindHiddenRent | parsers.py:28-45 | below 2000; the keyword phase's result when it has one, otherwise the `plus` fallback on the lowercased description |
| Parsers.KeywordRentIsFirstCandidate | parsers.py:29-37 | when the later keywords yield nothing, the phase is the first keyword's branch |
| Parsers.KeywordWindowOfExample | parsers.py:30-31 | in `czynsz <digits> zl` the window of `czynsz` is ` <digits> zl` |
| Parsers.ParserFormOfExample | parsers.py:17-18 | `Czynsz <digits> zl` normalises to `czynsz <digits> zl` |
| Parsers.NoOtherKeyword | parsers.py:29-39 | `czynszem` and `czynszu` are not words of `czynsz <digits> zl`, and `plus` matches nowhere in it |
| Parsers.KeywordRentOfExample | parsers.py:29-37 | on `czynsz <digits> zl` the keyword phase yields the number iff it is below 2000 |
| Parsers.PlusRentWithoutPlus | parsers.py:39-45 | without a `plus` match the fallback yields None |
| Parsers.HiddenRentOfKeywordAndNumber | parsers.py:28-45 | for `Czynsz <digits> zl` the hidden rent is the number if below 2000, otherwise None |
| Parsers.HiddenRentAcceptsSmallNumber | parsers.py:29-37 | `Czynsz 450 zl` gives 450 |
| Parsers.HiddenRentRejectsLargeNumber | parsers.py:29-37 | `Czynsz 5000 zl` gives None |
| Parsers.WordLength | config.py:48 | the greedy repetition `[A-Z][a-z]+\s*` at the head of a text takes at least two characters and no more than the text |
| Parsers.WordLengthIsWord | config.py:48 | the greedy `[A-Z][a-z]+\s*` at the head is one street word: a capital, lower-case letters, then only whitespace |
| Parsers.WordLengthIs | config.py:48 | the greedy repetition's length is the run of lower-case letters after the capital plus the run of whitespace after them |
| Parsers.LastRepetition | parsers.py:50 | group 2 after the greedy `+`: at least two characters, within the text |
| Parsers.LastRepetitionIsWord | parsers.py:50 | group 2 under `+` is a single street word |
| Parsers.LastRepetitionIsLast | parsers.py:50 | that word occurs in the text and no further repetition follows it |
| Parsers.MatchAfterPrefix | config.py:48 | after the first group the rest of the pattern matches iff the text past the whitespace starts with a capital and a lower-case letter |
| Parsers.MatchAt | config.py:47-49 | group 2 of a match at a position, the alternatives tried in order; a match needs some alternative |
| Parsers.MatchAtHasPrefix | config.py:47-49 | a match at a position starts with one of the alternatives of the first group, and its street word follows that alternative |
| Parsers.MatchAtIsWord | config.py:47-49 | the group 2 of a match is one street word |
| Parsers.MatchAfterPrefixOccurs | config.py:48 | the street word after the first group occurs in the text |
| Parsers.MatchAtOccurs | parsers.py:48-50 | the street word of a match occurs in the text |
| Parsers.StreetName | parsers.py:48-50 | the result of the leftmost matching position, none matching before it; None iff no position matches |
| Parsers.StreetNameIsWord | parsers.py:48-50 | the street handed to the geocoder is a capitalised word followed only by whitespace |
| Parsers.LastRepetitionExample | config.py:48 | the repetitions of `Nowy Swiat` leave `Swiat` as group 2 |
| Parsers.StreetNameIsLastWord | parsers.py:48-50 | `ul. Nowy Swiat` gives only `Swiat` |
| Parsers.DescriptionParser.FindPossibleLocation | parsers.py:47-52 | without a street no request is made and None is returned; otherwise exactly one request, for the street in `Warszawa`, and its answer is returned |
| Offers.IdKey | offers.py:28 | the title, then a space, a vertical bar and a space, then the price in decimal |
| Offers.NewOffer | offers.py:27-28 | the id is the hash of the id key; every other field is as given |
| Offers.IdDependsOnTitleAndPrice | offers.py:27-28 | offers with equal title and price get equal ids, whatever their other fields |
| Offers.IdKeySeparatesPrices | offers.py:28 | the hashed string differs for different prices under one title |
| Offers.Offer.TotalCost | offers.py:30-33 | at least the price; equal to the price iff rent is None or 0; price plus rent otherwise |
| Offers.Offer.IsTooFarAsWritten | offers.py:35-40 | blacklisted gives true; unknown distance gives false; otherwise true iff the distance is at most the maximum |
| Offers.Offer.IsTooFar | offers.py:35-40 | true iff blacklisted, or the distance is known and exceeds the maximum |
| Offers.NearOfferCalledTooFar | offers.py:40 | an offer 2.5 km away, not blacklisted, is too far as written and not too far as intended |
| Offers.AsWrittenIsInverted | offers.py:38-40 | away from the blacklist, with a known distance, the code's verdict is the negation of the intended one |
| Offers.IsTooFarMonotone | offers.py:40 | moving a too-far offer farther keeps it too far |
| Offers.AsWrittenNotMonotone | offers.py:40 | as written, moving from 20 km to 5 km turns "not too far" into "too far" |
| Offers.ReconciledRent | offers.py:69-76 | unchanged when neither rent is known; otherwise at least each known rent and equal to one of them |
| Offers.ReconciledRentIdempotent | offers.py:67-76 | reconciling again with the same inputs changes nothing |
| Offers.DisplayedZeroIsKept | offers.py:71-76 | a displayed 0 with no rent in the text gives a rent of 0 |
| Offers.OfferBuilder.constructor | offers.py:53-65 | the parser is built from the title and the description joined by a space, a vertical bar and a space; distance, blacklisted and rent start as None |
| Offers.OfferBuilder.AddRent | offers.py:67-76 | rent becomes the reconciled rent of the displayed and hidden rents; the other fields are unchanged |
| Offers.OfferBuilder.AddBlacklisted | offers.py:78-80 | blacklisted becomes Some of the parser's verdict, true iff a blacklist term is a word; nothing else changes |
| Offers.OfferBuilder.AddDistance | offers.py:82-88 | if blacklisted, nothing changes and no request is made; otherwise distance becomes the distance from the located street to the centre when the geocoder finds it, and is unchanged otherwise |
| Offers.OfferBuilder.Build | offers.py:90-101 | the offer carries the listing's title, link and price and the builder's fields unchanged; its id is the hash of title and price |

## Left out

- Fetching and scraping of listing pages (listings.py) is not part of this model. The builder receives the description and displayed rent as a `Listing` value. A listing without a description, which raises an exception in the source, cannot be represented.
- The geocoder's HTTP request, the averaging of the points it returns, and the haversine distance with rounding to 2 decimals (localization.py) are given as functions: the service's `answer` and `distanceTo`.
- Mail delivery, the database of seen offers, the scraping loop and the prototype scripts are not part of this model.
- Logging calls are left out.
- `Offers.NewOffer`: the runtime string hash is a parameter. Only determinism is stated, because the real hash is seeded per process and may collide.
- `Text.Transliterate`: the real transliteration tables are a parameter. Only two facts about them are used: ASCII characters map to themselves, and every entry is ASCII text.
- `Text.Lower`: folds only ASCII letters. Non-ASCII letters are left as they are, whereas Python also lowercases them. The parser only lowercases its description, which is ASCII after transliteration, so there the two agree.
- `Text.FirstNumber`: `\d` is read as the ASCII digits only. Python also accepts other Unicode decimal digits. The texts searched come from the ASCII description (`Parsers.ParserFormOfAsciiIsAscii`), so there the two agree.
- `Parsers.DescriptionParser.FindHiddenRent`: the value is a natural number, not the float the source returns. Every value it can produce is a whole number below 2000.
- `Offers.Offer.TotalCost`: the price is an integer, not the float the page may carry.
- The creation time is an integer given by the caller, not a clock reading.

## Findings

| source | as written | input that shows it | evidently intended | confidence | as-written member | corrected member |
|---|---|---|---|---|---|---|
| offers.py:40 | `isTooFar` returns `distance <= MAXIMUX_DISTANCE`, which is true for offers within range | an offer 2.5 km away, not blacklisted, is reported too far; one 20 km away is not | too far when the distance exceeds the maximum | high; not executed | Offers.Offer.IsTooFarAsWritten (with Offers.NearOfferCalledTooFar, Offers.AsWrittenNotMonotone) | Offers.Offer.IsTooFar (with Offers.IsTooFarMonotone, Offers.AsWrittenIsInverted) |
