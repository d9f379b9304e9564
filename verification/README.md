# Kirchenblatt extractor, modelled in Dafny

`scripts/fetch_today_kirchenblatt.py` downloads the Solothurn parish bulletin
(the *Kirchenblatt*), pulls the text out of the PDF and writes today's masses
to `public/api/today.json`. This project models the part of the script that
turns bulletin text into records:

- `_norm`, the text normaliser (soft hyphens, hyphenated line breaks, runs of
  spaces and tabs), and the assembly of the bulletin text from the documents;
- `str.splitlines()` and `str.strip()` as the loop uses them;
- the schedule-line pattern `LINE_RE`, built from `WEEKDAYS`, `DATE_RE` and
  `TIME_RE`, as a hand-written matcher proved sound and complete against a
  declarative reading of the pattern, and `search` as its leftmost match;
- `_year_hint`, the first standalone `20xx` token of the text;
- `_parse_date`, with a German month-name table and a Gregorian validity
  check in place of the `dateparser` library;
- `_split_title_place`, the split of a line's body at the first venue
  indicator;
- `MESSE_KEYWORDS` and its `search`;
- `PLACE_NORMALIZE` as an ordered list of rewrite rules, a backtracking
  matcher for its five patterns, `re.sub`, and `_normalize_place` as a loop
  over the table;
- the loop of `main`: each line is stripped, matched, dated, tested against
  today's window, split, tested for a keyword, and turned into a record; the
  records are then sorted by their ISO start string with Python's stable sort.

Files and modules:

| file | modules | what |
|---|---|---|
| `chars.dfy` | `Wrappers`, `Seqs`, `Chars` | `Option`; two sequence facts; Python's character classes, scanning and stripping, zero padding |
| `normalizer.dfy` | `Normalizer` | `_norm` and the bulletin text |
| `line_grammar.dfy` | `LineGrammar` | `LINE_RE` and its groups |
| `year_hint.dfy` | `YearHint` | `_year_hint` |
| `dates.dfy` | `Dates` | `_parse_date` |
| `title_place.dfy` | `TitlePlace` | `_split_title_place` |
| `keywords.dfy` | `Keywords` | `MESSE_KEYWORDS` |
| `places.dfy` | `Places`, `PlaceTable` | `re.sub` for the place patterns, `PLACE_NORMALIZE`, `_normalize_place` |
| `ordering.dfy` | `Ordering` | Python string order, `isoformat`, chronological order |
| `events.dfy` | `Events` | the records and `items.sort(key=...)` |
| `collector.dfy` | `Lines`, `Collector` | `splitlines`, the loop of `main` |

The pure parts of the script (`_norm`, `_year_hint`, `_parse_date`,
`_split_title_place`, the patterns) are functions with lemmas. The loops are
methods over sequence accumulators, each proved equal to a specification
function whose properties are lemmas: `Places.ApplyAll` and
`PlaceTable.NormalizePlace` for the loop of `_normalize_place`,
`Collector.ScanLines` for the loop of `main`, and `Events.SortByStart` (an
insertion sort) for `items.sort`.

A line whose time has an hour of 24 or more, or a minute of 60 or more, is
matched by `TIME_RE`, and `datetime(...)` then raises `ValueError`, which
nothing catches: the whole script ends without writing a file. The model
keeps this: such a line is judged `Crash`, and the run is `Aborted`.

Other behaviour of the code that the model keeps:

- One line can end the whole run: the out-of-range hour or minute above
  raises, and the records of the other lines are not written
  (`Collector.CollectAbortsIffCrash`).
- A line such as `Sa 13.09. 18.00 Vorabendmesse Kathedrale St. Urs, Solothurn`
  yields no record: `\bMesse\b` needs a word boundary before `Messe`, and
  `Vorabendmesse` has none. Its place would also come out as
  `Kathedrale St. Ursen, Solothurn, Solothurn`, because the rule replaces
  only `Kathedrale St. Urs` and keeps the `, Solothurn` that follows.
- `_norm` removes the newline of every hyphen-newline pair, so the text can
  have fewer lines afterwards (`Normalizer.NormKeepsNewlines` counts them).
- The title is stripped of ` -–,` at both ends, not only at its end, and
  the place of ` )` at both ends; the `[^,]*` after the indicator does not
  stop the place at a comma, since the place runs to the end of the body.
- The year hint must stand alone: `\b(20\d{2})\b` needs a word boundary on
  both sides, so `12025` or `2025a` gives no hint.
- `13. Sep 2025` (dot and space before a month name) does not match
  `DATE_RE`, whatever the comment in `_parse_date` says: `[.\s]` takes one
  character.
- A body that begins with a venue indicator gets the title `Messe`, and the
  keyword test also looks at the title, so the line passes it whatever it
  announces: `So 14.09. 17.00 Kirche Grenchen Orgelkonzert` is written out
  as a mass titled `Messe` (`Collector.VenueFirstIsMass`).
- The `start` string has no UTC offset (see Left out).

## Model

| member | source | states |
|---|---|---|
| Normalizer.DeleteSoftHyphens | scripts/fetch_today_kirchenblatt.py:36 | the result is the input's characters other than the soft hyphen, in their order (the reference filter `Without`); so its multiset is the input's without soft hyphens, and it is never longer |
| Normalizer.JoinHyphenBreaks | scripts/fetch_today_kirchenblatt.py:37 | no character is added; the result is two characters shorter and has one newline less for each hyphen-newline pair of the input |
| Normalizer.JoinHyphenBreaksUnpaired | scripts/fetch_today_kirchenblatt.py:37 | the left-to-right pass keeps exactly the characters that are neither the hyphen nor the newline of a hyphen-newline pair, in their order |
| Normalizer.CollapseBlanks | scripts/fetch_today_kirchenblatt.py:38 | the result has no tab and no two adjacent spaces, is never longer, keeps every non-blank character in order, adds only spaces, and starts with a space exactly where the input starts with a blank |
| Normalizer.CollapseBlanksRuns | scripts/fetch_today_kirchenblatt.py:38 | the result is the input with the first blank of each maximal run of spaces and tabs written as one space, the rest of the run dropped, and every other character kept in order |
| Normalizer.Norm | scripts/fetch_today_kirchenblatt.py:35-39 | after `_norm` the text has no soft hyphen, no tab and no two adjacent spaces, and is never longer than before |
| Normalizer.NormKeepsNewlines | scripts/fetch_today_kirchenblatt.py:35-39 | `_norm` keeps every newline except those of the hyphen-newline pairs it removes |
| Normalizer.NormWithoutHyphensKeepsNewlines | scripts/fetch_today_kirchenblatt.py:35-39 | a text without hyphens keeps all of its newlines |
| Normalizer.BulletinText | scripts/fetch_today_kirchenblatt.py:77-84 | the concatenated text has no soft hyphen and no tab, and at least one newline per document |
| Normalizer.BulletinTextInOrder | scripts/fetch_today_kirchenblatt.py:77-84 | the bulletin text is, for each document in order, a newline followed by the document's normalised text |
| Lines.SplitLines | scripts/fetch_today_kirchenblatt.py:93 | no line holds a line-break character (`\n`, `\r`, `\r\n` as one break, `\v`, `\f`, `\x1c` to `\x1e`, `\x85`, U+2028, U+2029); there are no lines exactly when the text is empty |
| Chars.Strip | scripts/fetch_today_kirchenblatt.py:94 | `strip` drops the longest prefix and the longest suffix of characters in the set and keeps the slice between them, which neither starts nor ends with such a character; the result is empty exactly when every character is in the set (also used for the strips of lines 61, 62 and 64) |
| Lines.SplitLinesRoundTrip | scripts/fetch_today_kirchenblatt.py:93 | the lines joined with `\n` give back the text with every line break (`\r\n` as one) written as `\n`, without a final break |
| Lines.SplitLinesKeepsText | scripts/fetch_today_kirchenblatt.py:93 | the lines, joined, are the text without its line breaks: nothing else is lost, added or reordered |
| LineGrammar.GroupsOf | scripts/fetch_today_kirchenblatt.py:101 | the groups of a match are a weekday of the table, one or two day digits, a month of the right shape, an optional four-digit year, the hour and minute digits and a non-empty body |
| LineGrammar.TimeAtComplete | scripts/fetch_today_kirchenblatt.py:19 | every `h[.:]mm` at a position is found there, with the same cut points |
| LineGrammar.DateAtComplete | scripts/fetch_today_kirchenblatt.py:20 | every date fragment followed by a gap and a time is found, with the same day, month, dot and year |
| LineGrammar.MatchAt | scripts/fetch_today_kirchenblatt.py:17-21 | what the matcher reports at a position is a match of `LINE_RE` starting there |
| LineGrammar.MatchAtComplete | scripts/fetch_today_kirchenblatt.py:17-21 | every match of `LINE_RE` at a position is found by the matcher, with the same weekday, date and time; of the ways to split the rest, the matcher's ends the optional `Uhr` latest and, for that unit end, starts `after` latest, which is the order in which the backtracking tries them (unit first, greedy gap) |
| LineGrammar.Search | scripts/fetch_today_kirchenblatt.py:97 | what `search` reports is a match of the pattern |
| LineGrammar.SearchLeftmost | scripts/fetch_today_kirchenblatt.py:97 | whenever the line holds a match, `search` finds one, starting no later than it |
| LineGrammar.RecognizedSplit | scripts/fetch_today_kirchenblatt.py:97-101 | the `after` group of a recognised line is the text from the preferred split: `Uhr` after the time is taken as the unit whenever a body still follows, and the gap before the body is as long as it can be |
| LineGrammar.Recognize | scripts/fetch_today_kirchenblatt.py:97-101 | the groups of a recognised line are well formed; the matcher reads one line, whose body runs to its end, which equals Python's `.+` and `$` because no line from `splitlines` holds a break |
| YearHint.TokenValue | scripts/fetch_today_kirchenblatt.py:47 | `int()` of a `20dd` token is 2000 plus its last two digits, in 2000..2099 |
| YearHint.YearHint | scripts/fetch_today_kirchenblatt.py:45-47 | with a token in the text the hint is in 2000..2099; with none it is the current year |
| YearHint.YearHintIsFirstToken | scripts/fetch_today_kirchenblatt.py:46-47 | the hint is the value of the leftmost token |
| Dates.DaysInMonth | scripts/fetch_today_kirchenblatt.py:55 | the Gregorian month lengths: 31 for January, March, May, July, August, October and December, 30 for April, June, September and November, and for February 29 in a leap year and 28 otherwise |
| Dates.LookupFrom | scripts/fetch_today_kirchenblatt.py:55 | a name found in the month table gives the month of an entry with that name; a name not found has no entry |
| Dates.MonthOfName | scripts/fetch_today_kirchenblatt.py:51-52 | a month name, compared without case, gives a table month in 1..12, or nothing when the table lacks it |
| Dates.ParseDate | scripts/fetch_today_kirchenblatt.py:49-55 | the date has the line's year or else the hint, the month of the name or else the number, and the day; it is a valid date; no date only for an unknown name or a day that does not exist |
| Dates.ParseNumericRoundTrip | scripts/fetch_today_kirchenblatt.py:54-55 | writing a valid date as `dd.mm.yyyy` groups and parsing it gives it back, whatever the hint |
| TitlePlace.FirstIndicator | scripts/fetch_today_kirchenblatt.py:59 | the leftmost indicator position, or none when no position holds one |
| TitlePlace.SplitTitlePlace | scripts/fetch_today_kirchenblatt.py:57-64 | no place exactly when the body has no indicator, and then the title is the body stripped of whitespace; with a place, the title is non-empty and the place starts with the indicator |
| TitlePlace.SplitAtFirstIndicator | scripts/fetch_today_kirchenblatt.py:59-63 | at the leftmost indicator, the place is the rest stripped of ` )` and the title the text before it stripped of ` -–,`, or `Messe` when that is empty |
| TitlePlace.PlaceKeepsIndicator | scripts/fetch_today_kirchenblatt.py:61 | stripping ` )` leaves the place non-empty, starting at the indicator |
| Keywords.KeywordEnd | scripts/fetch_today_kirchenblatt.py:24 | what the alternatives match at a position is a keyword match |
| Keywords.KeywordEndComplete | scripts/fetch_today_kirchenblatt.py:24 | every keyword match at a position is found by trying the alternatives in order |
| Keywords.HasKeyword | scripts/fetch_today_kirchenblatt.py:24 | `search` succeeds exactly when `Messe`, `Hl. Messe` (any whitespace) or `Eucharistiefeier` stands between word boundaries, ignoring case |
| Places.MatchFrom | scripts/fetch_today_kirchenblatt.py:27-33 | a match consumes at least the pattern's literals and ends within the text |
| Places.MatchFromSound | scripts/fetch_today_kirchenblatt.py:27-33 | what the backtracking matcher reports is a match of the pattern |
| Places.MatchFromComplete | scripts/fetch_today_kirchenblatt.py:27-33 | whenever the pattern matches at a position, the matcher finds a match there |
| Places.SubFrom | scripts/fetch_today_kirchenblatt.py:70 | with no match from a position on, `re.sub` keeps the rest of the text |
| Places.Sub | scripts/fetch_today_kirchenblatt.py:70 | a text the pattern matches nowhere is returned unchanged |
| Places.SubFromFirstMatch | scripts/fetch_today_kirchenblatt.py:70 | the text before the first match is kept, the match becomes the replacement, and substitution resumes after it |
| Places.ApplyRulesConcat | scripts/fetch_today_kirchenblatt.py:69-70 | running two tables one after the other is running their concatenation: each rule applies to the previous rule's output |
| Places.ApplyRulesNoMatch | scripts/fetch_today_kirchenblatt.py:66-71 | a string no rule matches anywhere is returned unchanged |
| Places.ApplyAll | scripts/fetch_today_kirchenblatt.py:68-71 | the loop applies the rules in table order |
| PlaceTable.NormalizePlace | scripts/fetch_today_kirchenblatt.py:66-71 | None and the empty string come back unchanged; any other venue is rewritten by the five rules of `PLACE_NORMALIZE` in their order |
| Ordering.StrLessIrreflexive | scripts/fetch_today_kirchenblatt.py:126 | no string sorts before itself |
| Ordering.StrLessTransitive | scripts/fetch_today_kirchenblatt.py:126 | string order is transitive |
| Ordering.StrLessTotal | scripts/fetch_today_kirchenblatt.py:126 | any two different strings are ordered |
| Ordering.PadLess | scripts/fetch_today_kirchenblatt.py:120 | zero-padded numbers of one width compare as strings as the numbers compare |
| Ordering.Iso | scripts/fetch_today_kirchenblatt.py:120 | `isoformat()` without the offset is a 19-character string (order and injectivity in the next rows) |
| Ordering.IsoOrder | scripts/fetch_today_kirchenblatt.py:120 | one `isoformat` string sorts before another exactly when its time is earlier |
| Ordering.IsoInjective | scripts/fetch_today_kirchenblatt.py:120 | different times have different `isoformat` strings |
| Events.InsertSorted | scripts/fetch_today_kirchenblatt.py:126 | inserting into a sorted list keeps it sorted |
| Events.InsertStable | scripts/fetch_today_kirchenblatt.py:126 | inserting keeps the records of each start in order and puts the new one after its equals |
| Events.StableSortSorted | scripts/fetch_today_kirchenblatt.py:126 | the sorted records are in non-decreasing order of start |
| Events.StableSortPermutes | scripts/fetch_today_kirchenblatt.py:126 | the sort loses and adds no record |
| Events.StableSortStable | scripts/fetch_today_kirchenblatt.py:126 | records with equal starts keep their order |
| Events.InsertByStart | scripts/fetch_today_kirchenblatt.py:126 | the scan from the front inserts before the first strictly greater start |
| Events.SortByStart | scripts/fetch_today_kirchenblatt.py:126 | the result is sorted by start, a permutation of the input, and keeps the order of equal starts |
| Collector.WindowIsToday | scripts/fetch_today_kirchenblatt.py:88-90 | a wall-clock time is between `start` and `end` exactly when it falls on today's date |
| Collector.Examine | scripts/fetch_today_kirchenblatt.py:94-99 | a blank or non-matching line is skipped; a non-blank line that matches is judged on its groups; an accepted line has a mass keyword, a valid time and lies in today's window |
| Collector.ExamineMatch | scripts/fetch_today_kirchenblatt.py:102-114 | an unparsable date skips the line; the line crashes exactly when the date parses and hour or minute is out of range; it is accepted exactly when the date parses, hour and minute are in range, the time lies in today's window and the title or the body has a keyword, and then it carries the parsed date, the line's hour and minute, second zero, and the title and place `_split_title_place` gives |
| Collector.VenueFirstIsMass | scripts/fetch_today_kirchenblatt.py:59-63 | a body beginning with a venue indicator gets the title `Messe`, which passes the keyword test |
| Collector.EventOf | scripts/fetch_today_kirchenblatt.py:118-124 | the record has the title, or `Messe` when it is empty, the normalised place as location, kanton `SO`, source `kirchenblatt` and the ISO string of the time as its start |
| Collector.SkippedLineIsInert | scripts/fetch_today_kirchenblatt.py:95-99 | a skipped line changes nothing in the run, before or after it |
| Collector.ScanFromLines | scripts/fetch_today_kirchenblatt.py:118-124 | every record comes from a line the loop accepted |
| Collector.AcceptedLineRecorded | scripts/fetch_today_kirchenblatt.py:118-124 | when the loop completes, every line it accepted has its record among the records |
| Collector.AbortedIffCrash | scripts/fetch_today_kirchenblatt.py:105-106 | the loop aborts exactly when some line crashes |
| Collector.AcceptedLineWritten | scripts/fetch_today_kirchenblatt.py:92-126 | every accepted line of the bulletin is among the written records |
| Collector.CollectAbortsIffCrash | scripts/fetch_today_kirchenblatt.py:86-126 | the script ends without records exactly when some line of the bulletin crashes |
| Collector.RecordsOfToday | scripts/fetch_today_kirchenblatt.py:106-123 | every written record has a non-empty title, kanton `SO`, source `kirchenblatt` and a start in today's window, on today's date |
| Collector.RecordsHaveKeyword | scripts/fetch_today_kirchenblatt.py:111-114 | every written record comes from a line the loop accepted as that record, and that line has a mass keyword in its title or body |
| Collector.AcceptedHasKeyword | scripts/fetch_today_kirchenblatt.py:111-114 | a line the loop accepts has a mass keyword in its title or body |
| Collector.CollectSorted | scripts/fetch_today_kirchenblatt.py:126 | the written records are sorted by start and are exactly the records the loop collected |
| Collector.ScanLines | scripts/fetch_today_kirchenblatt.py:92-124 | the loop yields the records of the accepted lines in line order, or aborts at the first crashing line |
| Collector.CollectToday | scripts/fetch_today_kirchenblatt.py:86-126 | text, hint, lines, loop and sort together give the collected run |

## Left out

- Downloading the bulletins with `requests`, the URL list and the printing of fetch errors: network I/O. A bulletin that fails to download is simply absent from the documents passed in.
- `_text_from_pdf` and `pdfplumber`: a foreign library on a binary format. A document enters the model as its page texts already joined with newlines; the model applies `_norm` to it.
- `os.makedirs`, writing `today.json` and the final print: file I/O.
- `datetime.now(TZ)`: today's date and the current year are parameters.
- `ZoneInfo` and the UTC offset that `isoformat()` appends: the model's `start` is `YYYY-MM-DDTHH:MM:SS`. All times of one run carry the same zone, so `start <= when <= end` compares wall-clock times, as modelled. The offset comes after the first 19 characters, and two records with the same wall-clock time get the same offset (`fold` is 0), so the offset never changes the order of the sort.
- `dateparser`: replaced by a table of German month names (full names, the usual abbreviations, `Jänner`, `Feber`), lower-cased ASCII letters and umlauts, day-first reading and the Gregorian calendar of years 1 to 9999. The library's fuzzier inputs (other languages, misspellings it tolerates, relative dates) are not modelled.
- Unicode in the patterns: `\d` is ASCII digits only; `\w` and `\b` use ASCII letters, digits, `_`, the Latin-1 letters and digits, and the four characters below. Case-insensitive matching folds ASCII letters, and also matches `İ` (U+0130) and `ı` (U+0131) with `i`, `ſ` (U+017F) with `s` and the Kelvin sign (U+212A) with `k`, as Python's `re` does; no other non-ASCII character is folded. Lines with other scripts may be judged differently.
- Events.SortByStart: sorts a sequence and returns it, where `items.sort` sorts the list in place.
- Serialising the records to JSON and reading them back: not part of the code's logic.
