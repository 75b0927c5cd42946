# job_board ingestion, search and theme toggle in Dafny

This project models the decision logic of the job_board web application.

- **Ingestion route.** `GET /api/pull-jobs` reads remote-job RSS feeds. For each item it:
  1. drops items older than the cutoff;
  2. keeps only items relevant to a fixed vocabulary of full-stack, AI/ML, data-science and tool terms;
  3. skips guids already in the `jobs` table;
  4. works out a company name;
  5. stores a record whose description starts with a `DD-Mon-YYYY` publication line.
- **Search.** The job list page filters the stored jobs case-insensitively by title and description.
- **Theme toggle.** A button cycles the theme light → dark → system.

The modules follow the program's structure:

| module | file | models |
|---|---|---|
| `Wrappers` | wrappers.dfy | `Option` |
| `Seqs` | seqs.dfy | subsequences: what a list filter returns |
| `Text` | text.dfy | `toLowerCase`, `includes`, JavaScript white space, `trim`, `split(':')[0]` |
| `Keywords` | keywords.dfy | the `keywords` list and `getMatchedKeywords`, with the regular-expression word boundary `\b` written out |
| `Relevance` | relevance.dfy | `isJobRelevant` |
| `Company` | company.dfy | `getCompanyName`, with a hand-written matcher for `/<b>Company:<\/b>\s*(.*?)<br>/` |
| `DisplayDate` | display_date.dfy | `formatDate`, and a parser that reads its output back |
| `Feed` | feed.dfy | RSS items and `jobs` rows |
| `Ingest` | ingest.dfy | the per-item loop and the feed loop of `GET`, over a store that maps guid to row |
| `Search` | search.dfy | the filter effect of the job list page |
| `ThemeToggle` | theme.dfy | `toggleTheme`, `getThemeIcon`, `getThemeLabel` and the display before mount |

Outside effects are parameters:

- **Database.** The store is a `map<string, Record>`. The answer to each insert is an explicit oracle: one boolean per item, saying whether the insert succeeded.
- **Clock.** The age cutoff and the "now" used for undated items are parameters.
- **RSS parser.** Each feed is given as already-parsed items, or as a failure.

## Model

| member | source | states |
|---|---|---|
| Keywords.MatchedKeywords | src/app/api/pull-jobs/route.ts:80-86 | the matched keywords are a subsequence of the list, in list order, no longer than the list; an entry is reported exactly when it is in the list and occurs as a whole word in the lower-cased text |
| Keywords.FindWholeWord | src/app/api/pull-jobs/route.ts:83-84 | the regular-expression test succeeds exactly when some position from the start holds the keyword with a `\b` boundary before and after it |
| Keywords.WholeWordEdges | src/app/api/pull-jobs/route.ts:83 | for a keyword that starts and ends with a word character, a `\b` match means: the keyword occurs, and the characters next to it are string edges or non-word characters |
| Keywords.VocabularyWordEdged | src/app/api/pull-jobs/route.ts:18-78 | every one of the 52 entries of `Vocabulary`, the `keywords` list in source order, begins and ends with a word character |
| Keywords.VocabularyMentionDelimited | src/app/api/pull-jobs/route.ts:18-86 | for every vocabulary entry, being matched means occurring in the lower-cased text with a non-word character or a string edge on both sides |
| Keywords.MentionDelimited | src/app/api/pull-jobs/route.ts:81-84 | the same equivalence, for any keyword whose lower-cased form is word-edged |
| Keywords.Mentions | src/app/api/pull-jobs/route.ts:83-84 | the filter callback `regex.test(lowerText)`; its meaning is stated by `FindWholeWord`, `MentionDelimited` and `VocabularyMentionDelimited` |
| Keywords.MatchedNonEmpty | src/app/api/pull-jobs/route.ts:80-86 | the match list is non-empty exactly when some list entry is mentioned |
| Keywords.MatchedAtLeastTwo | src/app/api/pull-jobs/route.ts:80-86 | the match list has two or more elements exactly when two different list positions are mentioned |
| Keywords.AiIsVocabulary | src/app/api/pull-jobs/route.ts:32 | `ai` is entry 10 of the vocabulary |
| Keywords.AiNotInAir | src/app/api/pull-jobs/route.ts:81-84 | `ai` is not reported for "AIR" |
| Keywords.AiNotInSaid | src/app/api/pull-jobs/route.ts:81-84 | `ai` is not reported for "said" |
| Keywords.AiInAiSlashMl | src/app/api/pull-jobs/route.ts:81-84 | `ai` is reported for "AI/ML", because `/` is not a word character |
| Relevance.IsJobRelevant | src/app/api/pull-jobs/route.ts:88-111 | `isJobRelevant`; its contract is `RelevantIff`, `TitleHitSuffices` and `ContentNeedsTwo` below |
| Relevance.RelevantIff | src/app/api/pull-jobs/route.ts:88-111 | an item is relevant exactly when some vocabulary entry is mentioned in its title, or two different entries are mentioned in its content |
| Relevance.TitleHitSuffices | src/app/api/pull-jobs/route.ts:93-99 | with a title hit the item is relevant, whatever its content |
| Relevance.ContentNeedsTwo | src/app/api/pull-jobs/route.ts:101-110 | with no title match, relevance means at least two content matches, and exactly one gives false |
| Relevance.MissingIsEmpty | src/app/api/pull-jobs/route.ts:89-90 | a missing title or content behaves as the empty string |
| Relevance.TitleText | src/app/api/pull-jobs/route.ts:89 | the lower-cased title, with the empty string for a missing one; what it means for relevance is stated by `MissingIsEmpty` and `RelevantIff` |
| Relevance.ContentText | src/app/api/pull-jobs/route.ts:90 | the lower-cased content, with the empty string for a missing one; stated by `MissingIsEmpty` and `RelevantIff` |
| Relevance.MlEngineerExample | src/app/api/pull-jobs/route.ts:102-105 | content "ml engineer" alone makes an item relevant: `ml` and `ml engineer` count as two entries |
| Company.FirstSome | src/app/api/pull-jobs/route.ts:113-129 | the chain yields nothing exactly when every strategy fails, and otherwise the value of the first strategy that succeeds |
| Company.CompanyName | src/app/api/pull-jobs/route.ts:113-130 | `getCompanyName`; its contract is `CompanyNameFirstSuccess` and the four lemmas after it |
| Company.FromCompanyField | src/app/api/pull-jobs/route.ts:114-116 | strategy 1; what it yields is stated by `CompanyFieldFirst` |
| Company.FromCreator | src/app/api/pull-jobs/route.ts:117-119 | strategy 2; stated by `CreatorSecond` |
| Company.FromTitle | src/app/api/pull-jobs/route.ts:120-122 | strategy 3; stated by `TitleThird` |
| Company.FromContent | src/app/api/pull-jobs/route.ts:123-128 | strategy 4; stated by `ContentLast` |
| Company.LabelCapture | src/app/api/pull-jobs/route.ts:124-125 | `match[1]` of the first match, or nothing; its contract is `FindLabel` |
| Company.CompanyNameFirstSuccess | src/app/api/pull-jobs/route.ts:113-129 | the name is the value of the first successful strategy, or `N/A` when all four fail |
| Company.CompanyFieldFirst | src/app/api/pull-jobs/route.ts:114-116 | a non-empty `company` field wins |
| Company.CreatorSecond | src/app/api/pull-jobs/route.ts:117-119 | otherwise a non-empty `dc:creator` wins |
| Company.TitleThird | src/app/api/pull-jobs/route.ts:120-122 | otherwise a title with a colon gives the trimmed text before its first colon, even when that text is empty |
| Company.ContentLast | src/app/api/pull-jobs/route.ts:123-129 | otherwise the trimmed capture of the labelled line, with `N/A` for missing content, for no match and for an empty capture |
| Company.LazyBreak | src/app/api/pull-jobs/route.ts:124 | the lazy `(.*?)<br>` part finds the first `<br>` reachable without crossing a line terminator, and reports failure only when none is reachable |
| Company.GreedySpaceSuffices | src/app/api/pull-jobs/route.ts:124 | if the pattern matches at a label at all, it matches once `\s*` has taken the whole white-space run, so backtracking into `\s*` never changes the result |
| Company.FindLabel | src/app/api/pull-jobs/route.ts:124 | the reported match starts at the leftmost position where the pattern can match; its capture starts after all the white space and contains no earlier `<br>`; it reports no match exactly when no position can match |
| Company.AcmeExample | src/app/api/pull-jobs/route.ts:114-116 | the `company` field beats a title with a colon |
| Company.InitechCapture | src/app/api/pull-jobs/route.ts:124 | `<b>Company:</b> Initech<br>` captures `Initech` |
| Company.InitechExample | src/app/api/pull-jobs/route.ts:113-129 | with no field, no creator and no colon in the title, the content line gives `Initech` |
| DisplayDate.FormatDate | src/app/api/pull-jobs/route.ts:132-138 | the text is a two-digit day, `-`, the month's name from the table, `-`, then the year |
| DisplayDate.DayText | src/app/api/pull-jobs/route.ts:133 | the zero-padded day is two digits whose value is the day |
| DisplayDate.PadStart2 | src/app/api/pull-jobs/route.ts:133 | `padStart(2, '0')`; its effect on a day is stated by `DayText` |
| DisplayDate.Decimal | src/app/api/pull-jobs/route.ts:133-134 | `String(n)` of a natural number is all digits, with no leading zero unless `n` is 0 and the text is just `0` |
| DisplayDate.DecimalUnique | src/app/api/pull-jobs/route.ts:133-134 | every digit string without a leading zero is `String` of the number it denotes, so with `DecimalRoundTrip` the decimal text is fixed by its value |
| DisplayDate.DecimalRoundTrip | src/app/api/pull-jobs/route.ts:133-134 | reading the digits of `String(n)` gives back `n` |
| DisplayDate.YearRoundTrip | src/app/api/pull-jobs/route.ts:134 | the year text, with a minus sign for negative years, reads back to the year |
| DisplayDate.YearText | src/app/api/pull-jobs/route.ts:132-134 | `String(date.getFullYear())`; its value is stated by `YearRoundTrip` and its form (no leading zero) by `YearCanonical` |
| DisplayDate.YearCanonical | src/app/api/pull-jobs/route.ts:132-134 | the year text starts with a minus sign exactly for negative years, and its digits have no leading zero unless the year is 0 |
| DisplayDate.MonthPrefixesDistinct | src/app/api/pull-jobs/route.ts:135 | the first three letters tell the twelve month names apart |
| DisplayDate.MonthAtFinds | src/app/api/pull-jobs/route.ts:135-137 | the month scan finds the month whose name is printed before the dash |
| DisplayDate.FormatRoundTrip | src/app/api/pull-jobs/route.ts:132-138 | parsing the formatted date gives back the calendar date |
| DisplayDate.FormatInjective | src/app/api/pull-jobs/route.ts:132-138 | different dates never print alike |
| DisplayDate.FormatExamples | src/app/api/pull-jobs/route.ts:132-138 | 2024-03-05 prints as `05-Mar-2024`, and month index 8 prints as `Sept` |
| Ingest.Describe | src/app/api/pull-jobs/route.ts:184 | `descriptionWithDate`; its contract is `DescribeRoundTrip` |
| Ingest.DescribeRoundTrip | src/app/api/pull-jobs/route.ts:182-184 | the stored description gives back both the publication date and the content, or `""` when content is missing |
| Ingest.BuildRecord | src/app/api/pull-jobs/route.ts:180-195 | the inserted row; its contract is `RecordFromItem` |
| Ingest.TooOld | src/app/api/pull-jobs/route.ts:149-157 | the age filter: an item is too old exactly when it has a date strictly before the cutoff; `Step` states the skip it causes |
| Ingest.RecordFromItem | src/app/api/pull-jobs/route.ts:166-195 | the row keeps the item's guid, title and link and the company name; it is dated by the item, or by "now" when undated; its description holds that date and the content |
| Ingest.PublicationDate | src/app/api/pull-jobs/route.ts:182 | `pubDate ? new Date(pubDate) : new Date()`; stated by `RecordFromItem` |
| Ingest.Step | src/app/api/pull-jobs/route.ts:148-201 | an item is skipped as old exactly when it is dated before the cutoff; as irrelevant exactly when it is recent but not relevant; as duplicate exactly when it passes both and its guid is stored; an insert fails exactly when it passes all three and the store refuses; only an insert changes the store, by adding its row under a new guid |
| Ingest.Pass | src/app/api/pull-jobs/route.ts:148-202 | one fate per item, and the store only grows |
| Ingest.PassAppend | src/app/api/pull-jobs/route.ts:148-202 | a pass over two lists is the pass over the first, then the second from the resulting store |
| Ingest.PassFateAt | src/app/api/pull-jobs/route.ts:148-202 | each item's fate is the step's verdict against the store built by the items before it |
| Ingest.StoreBeforeGrows | src/app/api/pull-jobs/route.ts:186-195 | rows are never changed or removed during a pass |
| Ingest.InsertedPassedChecks | src/app/api/pull-jobs/route.ts:149-178 | an inserted item passed the age and relevance checks, its guid was new, and its insert succeeded |
| Ingest.InsertedGuidsUnique | src/app/api/pull-jobs/route.ts:169-178 | two items inserted in the same pass have different guids |
| Ingest.NewRowsFromInserts | src/app/api/pull-jobs/route.ts:186-195 | every row that is new after the pass was inserted for some item and is that item's row |
| Ingest.InsertedRowsKept | src/app/api/pull-jobs/route.ts:186-201 | every inserted item's row is still in the store at the end |
| Ingest.FailedInsertSkipsItem | src/app/api/pull-jobs/route.ts:197-199 | a failed insert leaves the store as it was and the pass goes on |
| Ingest.NothingNew | src/app/api/pull-jobs/route.ts:149-178 | when every admissible item's guid is already stored, the pass inserts nothing |
| Ingest.AdmissibleStored | src/app/api/pull-jobs/route.ts:149-201 | after a pass with no failed insert, every admissible item's guid is stored |
| Ingest.PassIdempotent | src/app/api/pull-jobs/route.ts:148-202 | a second pass over the same items, at the same or a later cutoff, inserts nothing and leaves the store as it was, when no insert of the first pass failed |
| Ingest.Run | src/app/api/pull-jobs/route.ts:140-214 | the success response is returned exactly when every feed loads, and the store only grows |
| Ingest.PullJobs | src/app/api/pull-jobs/route.ts:140-214 | the route: `Run` with `isJobRelevant` and the route's row builder; its properties are those of `Run` and the lemmas about it |
| Ingest.RunAllFetched | src/app/api/pull-jobs/route.ts:143-203 | when every feed loads, the run is one pass over all items in feed order, so an item whose guid an earlier feed's item inserted is skipped as a duplicate once it passes the age and relevance filters |
| Ingest.RunStopsAtFailure | src/app/api/pull-jobs/route.ts:143-212 | a feed that fails to load gives the error response; rows inserted from earlier feeds stay, and later feeds are not read |
| Ingest.FlatItemsAppend | src/app/api/pull-jobs/route.ts:143-148 | the items of consecutive feeds are consecutive |
| Ingest.RunBeforeFailure | src/app/api/pull-jobs/route.ts:143-212 | a run that stops at its first failed feed made one pass over the items before it, which are the first items of the whole run |
| Ingest.RunInsertsGuidOnce | src/app/api/pull-jobs/route.ts:143-212 | within any run, also across feeds and also when a feed fails to load, a guid is inserted at most once |
| Ingest.RunIdempotent | src/app/api/pull-jobs/route.ts:140-214 | rerunning over the same feeds at the same or a later cutoff inserts nothing, leaves the store as it was and gives the same response, when no insert of the first run failed |
| Ingest.AllFetchedIdempotent | src/app/api/pull-jobs/route.ts:140-206 | when every feed loads, such a rerun also succeeds |
| Search.FilterJobs | src/app/page.tsx:47-56 | the visible list is a subsequence of the jobs; a job is in it exactly when it is in the list and matches the filter |
| Search.Shows | src/app/page.tsx:50-53 | the `jobs.filter` callback: lower-cased title includes the lower-cased filter, or a truthy description does; its consequences are stated by `FilterJobs`, `ShowsNarrows` and `DescriptionExample` |
| Search.FilterCounts | src/app/page.tsx:49-54 | every matching job appears as often as in the full list, and every other job not at all |
| Search.EmptyFilterShowsAll | src/app/page.tsx:38-56 | the empty filter shows the whole list |
| Search.FilterIgnoresCase | src/app/page.tsx:48-52 | filters that differ only in ASCII letter case show the same list |
| Search.ShowsNarrows | src/app/page.tsx:50-53 | a job that matches a filter also matches every substring of it |
| Search.NarrowingFilter | src/app/page.tsx:47-56 | extending the filter text gives a subsequence of the previous list |
| Search.DescriptionExample | src/app/page.tsx:50-53 | a match in the description alone keeps a job; with no description the same job is dropped |
| ThemeToggle.ToggleTheme | src/components/theme-toggle.tsx:15-23 | a click stores the name of the next mode in the light → dark → system → light cycle, where any unrecognised name counts as system; the result never equals the input |
| ThemeToggle.ThreeClicks | src/components/theme-toggle.tsx:15-23 | three clicks bring any theme back to its own look, and bring `light`, `dark` and `system` back to themselves |
| ThemeToggle.ThemeIcon | src/components/theme-toggle.tsx:25-33 | ☀️ exactly for light, 🌙 exactly for dark, 💻 exactly for every other name |
| ThemeToggle.ThemeLabel | src/components/theme-toggle.tsx:35-43 | `Light` exactly for light, `Dark` exactly for dark, `System` exactly for every other name |
| ThemeToggle.IconMatchesLabel | src/components/theme-toggle.tsx:25-43 | two themes get the same icon exactly when they get the same label |
| ThemeToggle.ButtonDisplay | src/components/theme-toggle.tsx:52-62 | after mount the button shows the theme's icon and label; before mount it shows 💻 and `System` whatever the theme |
| ThemeToggle.ClickChangesDisplay | src/components/theme-toggle.tsx:15-55 | once mounted, every click changes what the button shows |
| ThemeToggle.UnmountedLooksSystem | src/components/theme-toggle.tsx:52-62 | before mount the button looks as it does after mount for `system` |
| Text.Lower | src/app/api/pull-jobs/route.ts:81 | the lower-cased text has the same length, and each character is the ASCII lower case of the original |
| Text.LowerIdempotent | src/app/page.tsx:48-52 | lower-casing twice is the same as lower-casing once |
| Text.Includes | src/app/page.tsx:51-52 | `String.prototype.includes`; its contract is `IncludesFrom` from position 0 |
| Text.IncludesFrom | src/app/page.tsx:51-52 | `includes` holds exactly when the pattern occurs at some position |
| Text.IncludesTransitive | src/app/page.tsx:51-52 | containment is transitive |
| Text.LowerKeepsIncludes | src/app/page.tsx:48-52 | lower-casing keeps containment |
| Text.Trim | src/app/api/pull-jobs/route.ts:121 | `trim`; its contract is `TrimSpec` and `TrimIsTrimmed` |
| Text.TrimSpec | src/app/api/pull-jobs/route.ts:121 | `trim` removes exactly the white space at both ends |
| Text.TrimIsTrimmed | src/app/api/pull-jobs/route.ts:126 | every trim result is such a slice |
| Text.Before | src/app/api/pull-jobs/route.ts:121 | `split(':')[0]` is the prefix up to the first colon: it holds no colon and is followed by one, unless it is the whole text |

## Left out

- Fetching and parsing of RSS (`parser.parseURL`, and the two feed URLs): each feed is given as parsed items, or as a failure.
- The Supabase client: the table is a map from guid to row.
  - The outcome of each insert is a parameter.
  - Query quirks of `.single()` are not modelled: it gives no data when several rows match, and its errors are ignored.
  - A query with an undefined guid is not modelled; the guid is always a string.
- Date handling:
  - parsing `pubDate` strings, and Invalid Date/NaN behaviour;
  - the local time zone behind `getDate`, `getMonth` and `getFullYear`;
  - the calendar and daylight-saving arithmetic of `setDate(getDate() - 30)`.

  An item's date is an instant plus a local calendar date. The cutoff instant is a parameter.
- Ingest.Pass: the route reads the clock once per item, both for the cutoff and for "now" when an item has no date. The model uses one cutoff and one "now" for the whole pass.
- Text.Lower: only ASCII letters are lower-cased. Unicode case mapping of `toLowerCase` is not modelled. For the keyword matcher, whose vocabulary is ASCII, the two differ only on texts holding non-ASCII letters whose lower case is ASCII or has another length, such as U+212A KELVIN SIGN, which lower-cases to `k`, or U+0130, which lower-cases to two characters.
- Search.Shows: the page search compares lower-cased strings directly, so with ASCII-only lower-casing a non-ASCII capital and its lower case count as different characters; "café" does not find "CAFÉ", although JavaScript's `toLowerCase` would make the page keep that job.
- Keywords.MatchedKeywords: the keyword is used as a literal string, not as a regular expression. Every vocabulary entry consists only of lower-case letters, spaces and hyphens, so the two readings agree for the vocabulary.
- Console logging is not modelled. HTTP bodies and status codes are reduced to the two `Response` values.
- Concurrent runs of the route are not modelled, and neither is the race between the duplicate check and the insert.
- React rendering and hooks are not modelled. Neither are the provider's persistence of the theme, `toLocaleDateString` on the job list page, or the ordering of rows by `pubDate` in the page's query.
- The page's title is assumed present. A null title would make `toLowerCase` throw.

## Notes on the source

- Overlapping entries. The content rule asks for at least two keyword matches (src/app/api/pull-jobs/route.ts:104). Entries that overlap are separate matches of one phrase: the content "ml engineer" matches both `ml` and `ml engineer`, so that phrase alone makes an item relevant (`MlEngineerExample`).
- White space. The model uses the full set of JavaScript white-space and line-terminator characters for `\s` and `trim`, as the language defines them. For `.` in the company pattern, the model excludes line terminators.
