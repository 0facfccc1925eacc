# video_demo media manager — a Dafny model

This project models the part of `main.py` that turns a video file's name into structured
metadata and reconciles it with an anime catalogue. It covers:

- `clean_filename` (main.py:31-35): the name sanitiser.
- `MediaManager.parse_filename` (main.py:69-138): five stages run in order on a working copy of the
  file's stem.
  1. A `[<title> Season <n>]` bracket gives the title and the season.
  2. Every remaining bracket is offered to the user's technical rules (resolution, source, video
     codec, audio codec, subtitle, group) in that order.
  3. The season-episode rule or the episode rule reads the episode from what is left.
  4. The title falls back to the bracket-free, separator-collapsed residue, or `Unknown Title`.
  5. Defaults fill in the rest.

  Each stage cuts out of the working copy the text it claimed.
- `_get_bangumi_details` (main.py:140-152): the catalogue lookup and its query cache.
- `cn_num_map` (main.py:46): the Chinese numerals one to ten.
- The reconciliation in `process_directory` (main.py:214-236).
  - It looks up an eligible title.
  - It corrects a default season from a `第X季` marker in the catalogue title.
  - It replaces the title with the catalogue title, cleaned of markers.
  - It records the catalogue's episode count.

The modules follow the program:

- `Text` and `Numbers` hold the Python string and integer primitives the code relies on:
  `strip`, `str.replace(x, '', 1)`, `', '.join`, `int()`, `str()` and `f"{n:02d}"`.
- `CleanName` is `clean_filename`.
- `Patterns` holds the user's rule set.
  - Each rule is an abstract search function returning group 0 and the numbered groups.
  - It also holds the exceptions that reading a match can raise.
- `FixedPatterns` models concretely the regular expressions written into `parse_filename`: the
  bracket finder, the bracket remover, the title-and-season pattern and the separator collapse.
- `Decomposition` states `parse_filename` as a function, stage by stage.
- `DecomposeFacts` proves what the decomposition promises about that function.
- `Reconcile` holds the query, the numerals, the season correction and the title cleaning.
- `Manager` holds two classes.
  - `CatalogueClient`: the service is a fixed function from query to answer, and every request sent is recorded.
  - `MediaManager`: it has the query cache as a field. `ParseFilename` is written step by step as in the
    program and proved equal to `Decomposition.Decompose`. `GetBangumiDetails` is the cached lookup. `ProcessFile`
    is the body of the per-file loop.

Where the program can raise (an `IndexError`, `TypeError` or `ValueError` while reading a
match), the model returns `Failure` with the corresponding `ParseError`.

## Model

| member | source | states |
|---|---|---|
| Text.Strip | main.py:34 | `strip()` yields a slice of its input that is trimmed at both ends, and only whitespace lies after the slice |
| Text.StripFixedPoint | main.py:86-87 | stripping leaves a string unchanged exactly when neither end is whitespace |
| Text.RemoveFirstSpec | main.py:89 | `replace(x, '', 1)` with an empty `x` changes nothing; otherwise it changes the text exactly when `x` occurs, and then shortens it by the length of `x` |
| Text.RemoveFirst | main.py:89 | `str.replace(x, '', 1)` (also at main.py:112, 121 and 126): the first occurrence of `x` is cut out; characterised by `RemoveFirstSpec`, and for the title-and-season match by `FixedPatterns.SearchTitleSeasonFirstOccurrence` |
| Text.Join | main.py:136 | `', '.join(...)`: the items with `, ` between them; characterised by `JoinEmpty` |
| Text.JoinEmpty | main.py:136 | `', '.join(...)` is empty exactly for no remark or a single empty one, which is when the remarks become `None` |
| Numbers.ParseInt | main.py:119-126 | `int()` on a string: surrounding whitespace is ignored, an optional sign and ASCII digits are read, anything else is the `ValueError` case (`None`); `ShowRoundTrip` and `DigitsParse` show that it reads `str(n)` back as `n` and a digit run as its value |
| Numbers.Show | main.py:119 | `str(n)` of an integer; `ShowRoundTrip` shows that `int()` reads it back as `n` |
| Numbers.ShowRoundTrip | main.py:119 | `int(str(n)) == n` for every integer |
| Numbers.DigitsParse | main.py:84 | a non-empty run of ASCII digits is already stripped and reads as its decimal value |
| Numbers.Pad2Spec | main.py:120 | `f"{n:02d}"` reads back as `n`; for `n >= 0` it is at least two digits with no superfluous leading zero; a negative `n` is written as `str(n)` |
| Numbers.Pad2 | main.py:120 | `f"{n:02d}"`: the decimal rendering padded with zeros to two digits; its properties are `Pad2Spec` and `Pad2Examples` |
| Numbers.Pad2Examples | main.py:120 | 5 renders as "05", 12 as "12", 123 as "123" and -5 as "-5" |
| CleanName.CollapseSpaces | main.py:34 | `re.sub(r'\s{2,}', ' ', s)` leaves no two neighbouring whitespace characters, keeps emptiness and whether the text starts with whitespace, and never lengthens |
| CleanName.CollapseSpacesFixed | main.py:34 | a text with no two neighbouring whitespace characters is left unchanged by the collapse |
| CleanName.CollapseSpacesAll | main.py:34 | the collapse writes only spaces, so any property of every character that a space also has survives it |
| CleanName.CollapseSpacesKeeps | main.py:34 | the whitespace collapse keeps every non-whitespace character, in order |
| CleanName.CollapseSpacesSplit | main.py:34 | text that ends in a non-whitespace character collapses on its own: the collapse of it followed by anything is its collapse followed by the collapse of the rest |
| CleanName.CollapseSpacesRun | main.py:34 | a maximal whitespace run of two or more characters at the front becomes exactly one space, and a lone whitespace character is kept as it is |
| CleanName.CollapseSpacesRunToSpace | main.py:34 | between text not ending and text not starting with whitespace, a run of two or more whitespace characters is replaced by exactly one space and both sides collapse on their own |
| CleanName.ReplaceIllegal | main.py:33 | the illegal-character substitution keeps the length, leaves no illegal character, and keeps every other character in its place |
| CleanName.CleanFilename | main.py:31-35 | the sanitiser: each illegal character becomes `_`, whitespace runs of two or more become one space, and the ends are stripped; its properties are `CleanFilenameSpec`, `CleanFilenameKeeps`, `CleanFilenameIdempotent`, and for the collapse `CollapseSpacesRunToSpace` and `CollapseSpacesRun` |
| CleanName.CleanFilenameSpec | main.py:31-35 | the cleaned name has none of `\ / * ? : " < >` nor the vertical bar, no whitespace run of two or more, no whitespace at either end, and is never longer than the input |
| CleanName.CleanFilenameKeeps | main.py:31-35 | apart from whitespace, the cleaned name is the input with each illegal character replaced by `_`: every other character is kept, in order |
| CleanName.CleanFilenameIdempotent | main.py:31-35 | cleaning an already cleaned name changes nothing |
| Patterns.SearchOrEmpty | main.py:117 | an absent rule searches with the empty pattern, which always matches |
| Patterns.GroupOf | main.py:104 | `m.group(k)` raises exactly when the pattern has fewer than `k` groups |
| Patterns.GroupIntSpec | main.py:119-125 | `int(m.group(k))` fails with `IndexError` exactly for a missing group and with `TypeError` exactly for a group that did not take part; it succeeds exactly when the group reads as an integer, and then yields that integer |
| Patterns.GroupInt | main.py:119-125 | `int(m.group(k))` as a value or the error the program raises; characterised by `GroupIntSpec` |
| Patterns.TagValue | main.py:104 | `(m.group(1) or m.group(0)).strip()`, or `IndexError` when the rule has no group 1; its body is that expression over `GroupOf` and `Strip`, and `TagValueSpec` states the value |
| Patterns.TagValueSpec | main.py:104 | the tag value fails exactly when the rule has no group 1; otherwise it is trimmed and keeps, in order, the non-whitespace characters of group 1 when that took part and is not empty, else of the whole match |
| FixedPatterns.CloserIndex | main.py:95 | the lazy body `.*?` ends at the first closer, with no closer or newline before it; without an answer every closer has a newline before it |
| FixedPatterns.BracketAtStart | main.py:95 | an opener followed by its closing position forms a well-formed bracket match |
| FixedPatterns.FindBrackets | main.py:95 | every match of `[\[【](.*?)[\]】]` is an opener, a body with no closer and no newline, and a closer, with group 1 the body |
| FixedPatterns.FindBracketsNone | main.py:95 | the finder reports nothing exactly when no opener is followed, without a newline or closer in between, by a closer; the removal then changes nothing |
| FixedPatterns.SpanFound | main.py:95 | any opener followed, without a newline or closer in between, by a closer makes the finder report a bracket |
| FixedPatterns.NoSpanNoBrackets | main.py:95 | text holding no such opener-closer span yields no bracket and is left as it is by the removal |
| FixedPatterns.SkipPrefix | main.py:95 | when no span starts before an index, the finder reports nothing before it and the removal keeps the text before it unchanged |
| FixedPatterns.FindBracketsFirst | main.py:95 | the first bracket reported is the leftmost span, from its opener to the first closer after it, with group 1 the text between; the search then resumes after that closer |
| FixedPatterns.CloserIndexAt | main.py:95 | for a span starting at the first character, the closing position found is the span's closer |
| FixedPatterns.RemoveBrackets | main.py:130 | the bracket removal never lengthens the text |
| FixedPatterns.RemoveBracketsKeepsUnclosed | main.py:130 | text with no closing position keeps none after the removal |
| FixedPatterns.RemoveBracketsLeavesNone | main.py:130 | after the removal the bracket finder matches nothing |
| FixedPatterns.RemoveBracketsAll | main.py:130 | the removal only deletes characters: a property of every character survives |
| FixedPatterns.RemoveBracketsFirst | main.py:130 | the removal keeps the text before the leftmost span, cuts the span out, and carries on after it |
| FixedPatterns.RemoveBracketsShrinks | main.py:130 | the removal changes the text exactly when the finder reports a bracket, and then shortens it |
| FixedPatterns.NoOpenerNoBrackets | main.py:95 | text without an opener holds no bracket |
| FixedPatterns.BracketFreeStrip | main.py:130 | stripping a bracket-free text leaves it bracket-free |
| FixedPatterns.CollapseSeps | main.py:131 | `re.sub(r'[\s._-]+', ' ', s)` leaves no two neighbouring separators, keeps emptiness and whether the text starts with a separator, and never lengthens |
| FixedPatterns.CollapseSepsAll | main.py:131 | the separator collapse writes only spaces: every separator left is a space, and any property a space also has survives |
| FixedPatterns.CollapseSepsKeeps | main.py:131 | the separator collapse keeps every character that is not a separator, in order |
| FixedPatterns.CollapseSepsSplit | main.py:131 | text that ends in a non-separator collapses on its own: the collapse of it followed by anything is its collapse followed by the collapse of the rest |
| FixedPatterns.CollapseSepsRun | main.py:131 | a maximal separator run at the front, of any length, becomes exactly one space |
| FixedPatterns.CollapseSepsRunToSpace | main.py:131 | between text not ending and text not starting with a separator, a separator run of any length is replaced by exactly one space and both sides collapse on their own |
| FixedPatterns.CollapseSepsBracketFree | main.py:131 | without newlines, the separator collapse cannot create a bracket |
| FixedPatterns.SeasonTailAt | main.py:84 | when `\s*[Ss]eason\s*(\d+)\]` matches from an index, it reports where the digit group starts and where the closing `]` stands, with only ASCII digits between them |
| FixedPatterns.SpacesFrom | main.py:84 | `\s*` from an index takes the whole whitespace run there and stops at the first non-whitespace character |
| FixedPatterns.DigitsFrom | main.py:84 | `\d+` from an index takes the whole ASCII digit run there and stops at the first non-digit |
| FixedPatterns.SeasonTailAtSpec | main.py:84 | the tail matches exactly the layouts the pattern describes (whitespace, the word `season` in either case per letter, whitespace, digits, `]`), and then reports that layout's digits and `]` |
| FixedPatterns.TitleLengthFrom | main.py:84 | the lazy title group `[^\]]*?` tries lengths upward from the given one and never runs past the text |
| FixedPatterns.TitleLengthFromSpec | main.py:84 | the lazy title group finds nothing exactly when no title length from the given one on, free of `]`, lets the tail match; otherwise it finds the shortest such length |
| FixedPatterns.MatchOf | main.py:84 | a match's groups: the whole match runs from `[` to the closing `]`, group 1 is the title text right after `[`, and group 2 is the digit run right before `]` |
| FixedPatterns.MatchFrom | main.py:84 | the scan for a match start never reports an index before where it started or past the text |
| FixedPatterns.MatchFromSpec | main.py:84 | the scan from an index finds nothing exactly when no match starts at or after it; otherwise it finds the leftmost start and the shortest title there |
| FixedPatterns.SearchTitleSeason | main.py:84 | the search returns a match that occurs at the index it reports, opens with `[`, closes with `]` and has a non-empty digit season |
| FixedPatterns.SearchTitleSeasonSpec | main.py:84 | `re.search` of the title-and-season pattern finds nothing exactly when no start and title length match; otherwise it finds the leftmost match with the shortest title, and its groups are that match's slices |
| FixedPatterns.OccurrenceIsMatch | main.py:84 | wherever the text of a match occurs again, a match with the same title length starts there too |
| FixedPatterns.SearchTitleSeasonFirstOccurrence | main.py:84-85 | the text of the reported match first occurs where the match starts, so `str.replace(..., 1)` cuts out exactly the matched span |
| DecomposeFacts.ClassifyFirstMatch | main.py:98-110 | the first category (in the order of main.py:92) whose rule matches the bracket body claims it, with the value of its first group (or of the whole match when that is empty) |
| DecomposeFacts.ClassifyNone | main.py:98-111 | a bracket stays unclaimed exactly when no configured rule matches its body |
| DecomposeFacts.ApplyClaimTag | main.py:105-107 | a claim fills a tag field only when that field is still empty |
| DecomposeFacts.ApplyClaimEffect | main.py:105-107 | a claim appends to the remarks only for a source tag and never touches the title, the season or the episode |
| DecomposeFacts.ClaimBracketsFailure | main.py:95-113 | stage 2 raises exactly when reading some bracket's match raises, with that error |
| DecomposeFacts.ClaimBracketsSpec | main.py:95-113 | after stage 2 the remarks are the source values in bracket order, each tag field is kept if set or else takes the first value claimed for it, title, season and episode are untouched, and the claimed brackets are cut out once each |
| DecomposeFacts.EpisodeStageSeason | main.py:116-126 | stage 3 changes only the season and the episode; it keeps a season already set, and sets none when the season-episode search finds nothing |
| DecomposeFacts.EpisodeStageSeasonReads | main.py:119 | a season that stage 3 sets reads back as an integer; set from the season-episode match, it is `str(int(group(1)))` and reads back as exactly that integer |
| DecomposeFacts.EpisodeStageEpisode | main.py:116-126 | the episode comes from group 2 of the season-episode match, else from group 1 of the episode match, rendered as `f"{n:02d}"`; stage 3 fails exactly when the group it reads is not an integer; after a match the working text is the first occurrence of the matched text cut out, and the episode rule leaves the season as it was |
| DecomposeFacts.UnknownTitleShape | main.py:132 | the sentinel has the shape of a fallback title: trimmed, no separator run, only spaces as separators, no bracket |
| DecomposeFacts.FallbackTitleSpec | main.py:129-132 | the fallback title is never empty, is trimmed at both ends, has no run of separators, and its only separators are spaces |
| DecomposeFacts.FallbackTitleKeeps | main.py:129-132 | the fallback title keeps every non-separator character of the bracket-free residue, in order; with none left it is the sentinel `Unknown Title` |
| DecomposeFacts.FallbackTitleBracketFree | main.py:130-132 | when the residue has no newline, the fallback title holds no bracket |
| DecomposeFacts.TitleSeasonStageSpec | main.py:84-89 | with a title-and-season bracket found at index `i`, stage 1 sets the stripped title and the season digits, and the working text becomes the stem before `i` followed by the stem after the matched span; without one it changes nothing |
| DecomposeFacts.TitleSeasonStageBlank | main.py:76-89 | stage 1 sets nothing but the title and the season |
| DecomposeFacts.StageTwo | main.py:92-113 | in a decomposition that succeeds, stage 2 leaves the state its claims describe |
| DecomposeFacts.AfterStageThree | main.py:116-135 | stage 3 does not touch the title and keeps a stage-1 season; the result's title is the stage-1 title or the fallback title, and its season is the one found or `'1'` |
| DecomposeFacts.SeasonBracketWins | main.py:84-89 | when any `[<title> Season <n>]` bracket matches, the leftmost match with the shortest title decides the result: its stripped title text and its season digits |
| DecomposeFacts.DecomposeTitle | main.py:84-132 | the title is empty only when a season bracket had a blank title; without a season bracket it is a well-formed fallback title |
| DecomposeFacts.StageThreeSeasonReads | main.py:116-121 | after stage 3 the season, when set, reads as an integer |
| DecomposeFacts.DecomposeSeason | main.py:84-135 | the result's season always reads as an integer, and there is no episode-count hint before reconciliation |
| DecomposeFacts.TagsAfterStageTwo | main.py:113-136 | the result's tag fields and remarks are those stage 2 left |
| DecomposeFacts.DecomposeRemarks | main.py:105-136 | the remarks are the source tags in bracket order joined by ", ", absent exactly when there is none or a single empty one |
| DecomposeFacts.DecomposeTags | main.py:106-107 | every single-valued tag is the value of the first bracket its category claimed; later ones never overwrite it |
| DecomposeFacts.MissingSeasonEpisodeRuleFails | main.py:117-119 | without a `season_episode` rule every decomposition raises, because the empty pattern always matches and has no group 1 or 2 |
| Decomposition.TitleSeasonStage | main.py:84-89 | stage 1 as a function; characterised by `DecomposeFacts.TitleSeasonStageSpec`: title and season from the leftmost match, and the stem with exactly that span cut out |
| Decomposition.Classify | main.py:98-110 | the category loop for one bracket as a function; characterised by `DecomposeFacts.ClassifyFirstMatch` and `ClassifyNone` |
| Decomposition.ApplyClaim | main.py:105-107 | one claimed tag applied to the fields; characterised by `DecomposeFacts.ApplyClaimEffect` and `ApplyClaimTag` |
| Decomposition.ClaimBrackets | main.py:95-113 | stage 2 as a function; characterised by `DecomposeFacts.ClaimBracketsSpec` and `ClaimBracketsFailure` |
| Decomposition.SeasonFromMatch | main.py:119 | `str(int(group(1)))`: succeeds exactly when group 1 reads as an integer, and the season then reads back as that integer |
| Decomposition.EpisodeStage | main.py:116-126 | stage 3 as a function; characterised by `DecomposeFacts.EpisodeStageSeason`, `EpisodeStageSeasonReads` (the season value) and `EpisodeStageEpisode` (the episode and the working text left) |
| Decomposition.FallbackTitle | main.py:129-132 | stage 4 as a function; characterised by `DecomposeFacts.FallbackTitleSpec`, `FallbackTitleKeeps` and `FallbackTitleBracketFree`, and for the collapse by `FixedPatterns.CollapseSepsRunToSpace` (every separator run becomes one space) |
| Decomposition.Finish | main.py:135-136 | stage 5: the default season `'1'` and the joined remarks; characterised by `DecomposeFacts.DecomposeSeason` and `DecomposeRemarks` |
| Decomposition.Decompose | main.py:69-138 | `parse_filename` as a function; characterised by the `DecomposeFacts` lemmas above |
| Reconcile.QuerySpec | main.py:146 | the query is the bare title exactly when the season is absent, empty or `'1'`; otherwise it is the title followed by ` Season ` and the season |
| Reconcile.Query | main.py:146 | the lookup query; characterised by `QuerySpec` |
| Reconcile.CnValue | main.py:46 | each of the ten numerals maps to a value between 1 and 10, at its own place in the numeral order |
| Reconcile.CnValueInverse | main.py:46 | the numerals one to ten, in order, map to 1 through 10 |
| Reconcile.FindMarker | main.py:226 | the search finds the leftmost `第X季` marker, and none before it |
| Reconcile.CorrectedSeasonSpec | main.py:225-230 | the season changes only from `'1'` and only when the catalogue title has a marker; then it becomes `str` of the value (1 to 10) of the leftmost marker's numeral: plain digits without a leading zero that `int` reads back as that value |
| Reconcile.CorrectedSeason | main.py:225-230 | the season correction; characterised by `CorrectedSeasonSpec`: `str` of the leftmost marker's value when the season is `'1'`, the season itself otherwise |
| Reconcile.StripSeasonMarkers | main.py:234 | the marker substitution never lengthens the title; `StripSeasonMarkersLeftmost` gives its cut and `StripSeasonMarkersKeepsText` what it keeps |
| Reconcile.StripSeasonMarkersNone | main.py:234 | a title without a marker is left as it is |
| Reconcile.StripSeasonMarkersShrinks | main.py:234 | a title with a marker always loses text |
| Reconcile.StripSeasonMarkersIdentity | main.py:234 | the substitution leaves the title unchanged exactly when the marker search finds nothing |
| Reconcile.StripSeasonMarkersSinglePass | main.py:234 | the substitution is a single pass: cutting the inner marker of "第第一季二季" leaves the new marker "第二季" |
| Reconcile.StripSeasonMarkersKeepsText | main.py:234 | the substitution removes only whitespace and marker characters: every other character is kept, in order |
| Reconcile.RunStart | main.py:234 | the start of the whitespace run that ends at an index: everything from it to the index is whitespace and the character before it is not |
| Reconcile.StripSeasonMarkersLeftmost | main.py:234 | the leftmost marker is cut out together with the whole whitespace run before it; the text before that run is kept unchanged and the scan goes on after the marker |
| Reconcile.StripSeasonMarkersCutAt | main.py:234 | a marker with no marker before it, and the maximal whitespace run before it, are cut out and the text before the run is kept |
| Reconcile.NormalizedTitle | main.py:234 | the cleaned catalogue title, markers cut out and then stripped; characterised by `NormalizedTitleSpec`: the leftmost marker and the whitespace before it are removed |
| Reconcile.NormalizedTitleSpec | main.py:234 | the cleaned catalogue title is trimmed, no longer than the original, just the stripped original when that has no marker, keeps every character that is neither whitespace nor part of a marker, in order, and with a marker is the stripped text before the leftmost marker's whitespace run followed by the cleaned text after the marker |
| Reconcile.SecondSeasonExample | main.py:221-234 | a default season with the catalogue title "某番 第二季" becomes "2", and the title becomes "某番" |
| Reconcile.ResolveSpec | main.py:220-236 | reconciliation changes only the title, the season and the episode-count hint, and only for a non-empty record; it then sets the hint to the record's `total_episodes` or `'??'`, the title to the cleaned `name_cn` (or the parsed title when absent), and the corrected season |
| Reconcile.Truthy | main.py:220 | `if bangumi_details:`: a record is truthy when it has at least one key; `ResolveSpec` shows that only a truthy record changes the decomposition |
| Reconcile.Resolve | main.py:220-236 | the reconciliation of one decomposition with the catalogue's answer; characterised by `ResolveSpec` |
| Reconcile.Eligible | main.py:216 | a decomposition is looked up exactly when its title is neither empty nor `Unknown Title` |
| Reconcile.EpisodeHintOf | main.py:236 | the hint is `total_episodes` exactly when the record has it, and `'??'` exactly when it does not |
| Manager.CatalogueClient.constructor | main.py:43 | a new client has sent no request |
| Manager.CatalogueClient.GetDetailsForScraping | main.py:150 | a request returns the service's answer to the query and is recorded |
| Manager.MediaManager.constructor | main.py:39-46 | a new manager has the given rules and an empty cache, and its invariant holds |
| Manager.MediaManager.ParseFilename | main.py:69-138 | the step-by-step decomposition equals `Decomposition.Decompose` on every stem |
| Manager.MediaManager.ClaimTags | main.py:94-113 | the bracket loop yields the state `Decomposition.ClaimBrackets` describes |
| Manager.MediaManager.ClassifyBracket | main.py:98-110 | the category loop yields the first matching category's claim, as `Decomposition.Classify` does |
| Manager.MediaManager.ReadEpisode | main.py:116-126 | the season-episode step yields what `Decomposition.EpisodeStage` describes |
| Manager.MediaManager.GetBangumiDetails | main.py:140-152 | the answer is the service's answer to the query; a cached query is served from the cache without a request; otherwise exactly one request is sent and its answer, `None` included, is cached; the cache holds exactly the queries sent, each once |
| Manager.MediaManager.ProcessFile | main.py:214-236 | a file's outcome is the decomposition of its stem, reconciled with the catalogue's answer when the title is eligible; no earlier request is lost; nothing changes when the decomposition fails, the title is not eligible or the query is cached; otherwise exactly that query is sent and its answer cached |
| Manager.Processed | main.py:214-236 | what processing one file yields; `ProcessFile` is proved to compute it |

Proof helpers without a row of their own: `FixedPatterns.BracketFreeCons`, `NoCloserAfterOpener`,
`CloserIndexPrefix`, `NoCloserNoIndex`, `BracketFreePrefix`, `BracketFreeSuffix`, and
`DecomposeFacts.TagKeptCons`, `DescribedCons`, `RemarksCons`, `LettersAroundSpace`, `UnknownTitleLetters`.

## Left out

- Configuration and rule loading (main.py:49-66). The rule set is a parameter of the model.
- `create_hard_link` (main.py:154-193), the directory walk, the supported-format filter, the file
  count and logging (main.py:196-213, 238-242). `ProcessFile` models the body of the per-file loop, not the loop.
  A `Failure` from `ProcessFile` stands for an exception that in the program ends the whole scan: the
  per-file loop at main.py:214 has no `try`, and only the top-level `except Exception` at main.py:244-248
  catches it.
- `format_file_size` (main.py:19-29): it uses floating point and is not part of the decomposition.
- The `bracket_content` list (main.py:80) is computed and never used.
- The regex engine for the user's rules, including `re.IGNORECASE`. Each rule is an abstract function from
  text to its leftmost match.
- The fixed title-and-season pattern folds only ASCII case, so the Unicode case folds that `re.IGNORECASE` also applies
  (such as `ſ` for `s`) are not modelled.
- `int()` accepts only ASCII digits here: non-ASCII decimal digits and `_` separators are not modelled.
- In `\d+` (main.py:84), non-ASCII decimal digits are not modelled.
- The catalogue service (`bangumi_api.BangumiAPIClient`) is a fixed function from query to answer.
  - Network errors, retries and how a record is fetched are not modelled.
  - A record is reduced to `name_cn`, `total_episodes` and how many other keys it has.
  - A `name_cn` key holding `None` and a non-integer `total_episodes` are not modelled.
- Concurrency: the program is single-threaded.
- Manager.MediaManager.ProcessFile: the service is assumed to give a fixed answer per query. In the
  program a caught network error also comes back as `None`, which is cached and reused like any other
  answer; that error path belongs to the catalogue client, which is not part of this model.
- A rule whose configured pattern is JSON `null`, `false` or `0` is skipped in stage 2 (`if not pattern`)
  but makes `re.search` raise `TypeError` in stage 3 (main.py:117). Only absent rules and empty-string
  patterns are modelled.

The program behaves as follows, which a reader might not expect:

- A missing rule is not "a rule that never matches" in stage 3. `self.patterns.get('season_episode', '')`
  searches with the empty pattern, which always matches and has no groups, so `group(1)` raises
  `IndexError`. `DecomposeFacts.MissingSeasonEpisodeRuleFails` shows that every stem then fails.
- The decomposition can fail.
  - A technical rule without a capture group raises `IndexError` at `match.group(1)` (main.py:104).
    So a resolution rule such as `\d{3,4}p` with no group makes the stem raise instead of yielding `1080p`.
  - A season-episode or episode group that is not an integer raises `ValueError`.
- The title is not always non-empty. A season bracket with a blank title (`[Season 3]`) yields the
  title `""`. `DecomposeFacts.DecomposeTitle` proves that this is the only way.
- The season is an integer's text but need not be positive. `[X Season 0]` gives `"0"`, and a
  season-episode group `-1` gives `"-1"`.
- The stage-3 test `info['集数'] is None` is always true: stages 1 and 2 never set the episode.
- The marker substitution (main.py:234) is a single pass, so a cleaned title can still hold a
  marker (`Reconcile.StripSeasonMarkersSinglePass`).
- The fallback title is bracket-free only when the residue holds no newline. The bracket remover's `.` stops
  at a newline, but the separator collapse turns a newline into a space.
