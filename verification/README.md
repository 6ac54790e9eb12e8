# The Waratah: crossword builder, article format and embedded data

A Dafny model of the logic behind "The Waratah", a small Rust web newspaper. It covers four parts of the code:

- **The crossword builder** (`src/crossword.rs`, module `Crossword`).
  - The (answer, clue) pairs are sorted longest answer first.
  - The first answer is laid Across at the origin.
  - Each later answer is tried against every word already laid. For each laid word, the builder lists the candidate positions where a letter of the new answer equals a letter of the laid word. It shuffles that list and takes the first candidate that `intersect_words` finds clear of every other laid word.
  - The candidate from the last pass is the one used.
  - The shuffle is a parameter: any permutation, chosen per (word, laid word).
- **The article text format** (`src/article.rs`, module `Articles`).
  - Line 1 is the id and title, split at the first space. Line 2 is the image URL.
  - The remaining lines form fragments separated by blank lines. Each fragment is a `text` or `image` tag line followed by its content line.
  - `text_len` is the total length of the text fragments. `reading_time` rounds it up to whole minutes at 200 characters a minute.
- **The build script** (`build.rs`, module `Build`).
  - Each article becomes the record `topic-length topic file-name trimmed-text`.
  - Each record is framed as `length record`, and the frames are joined with `"\n"`.
  - The ad file names are joined with `"\n"` as well.
- **The loader** (`get_articles` in `src/main.rs`, module `Loader`).
  - It walks the frames back: the text up to the first space is a length, that many characters are handed to `Article::from_str`, and one character after them is skipped.
  - It is modelled as a loop method proved equal to the recursive function `Decode`.

Modules `Wrappers` (Option, Result, `collect` over results) and `Strings` (the Rust string operations the code uses) support the four parts. The Rust string operations modelled are `split_once`, `split`, `join`, `lines`, `trim`, `parse::<usize>` and `format!` of a length.

Panics in the source are modelled as error values:

- `BuildError.NoWords` and `BuildError.Unplaceable` for the builder's two `unwrap`s;
- `ArticleError.UnknownTag` for `unreachable!()` and `ArticleError.MissingContent` for `fragment[1]` on a one-line fragment;
- `LoadError.RecordOutOfRange` for `&rest[..length]`.

The model follows what the code does:

- **A word that cannot be placed is not dropped.** If some laid word has no clear candidate for it, `find(...).unwrap()` panics (`Unplaceable`). The closing `if let Some(word)` never sees `None`.
- **Only the last pass of the inner loop counts.** Every pass overwrites `place_word`, so the pushed word's placement is the one found against the last laid word.
- **Every word after the first runs Down.** Both arms of the candidate `match` produce `Down` (`LaterWordsAreDown`). Against a Down word, the new word runs parallel and only touches the matched letter when that letter is its first (`DownCandidateRunsParallel`).
- **`intersect_words` is not symmetric for parallel words, and its bounds are inclusive.** The cell just past a word's end counts as a hit.
- **The sort is unstable.** Only the order by length is specified.
- **The loader hands each whole build record to `from_str`.** That includes the topic length, the topic and the file name. So the id read back is the topic's length, and the title begins with the topic and file name.

## Model

| member | source | states |
|---|---|---|
| Wrappers.Collect | src/article.rs:34-49 | collecting results succeeds iff every element does, with the values in order; otherwise it fails with the error of the first failing element |
| Strings.SplitOnce | src/article.rs:31 | None exactly when the separator is absent; otherwise the two halves around its first occurrence |
| Strings.SplitOnceAt | src/main.rs:15-17 | splitting `before + [c] + after` with no `c` in `before` gives back `before` and `after` |
| Strings.Split | src/article.rs:35 | at least one part, no part holds the separator, a non-empty input never yields a single empty part, and the last part is empty iff a non-empty input ends with the separator |
| Strings.JoinWith | build.rs:38 | `join` with one separator between neighbours; `SplitJoin` and `JoinSplit` make it the inverse of `Split` |
| Strings.SplitJoin | src/article.rs:35 | splitting the join of separator-free parts gives the parts back |
| Strings.JoinSplit | src/article.rs:35 | joining the parts of a split gives the input back |
| Strings.SplitPartsNonEmpty | src/article.rs:35-41 | every part is non-empty iff the input is non-empty, does not start or end with the separator, and never holds two separators in a row |
| Strings.Lines | src/article.rs:30 | no line holds a line break, and there are no lines exactly when the text is empty (the trailing-`'\n'` rule is `LinesRejoin`) |
| Strings.LinesRejoin | src/article.rs:30 | joining the lines with `'\n'` gives the text less its final `'\n'` when it ends in one, and the whole text otherwise |
| Strings.LinesOfJoin | src/ad.rs:7 | the lines of a `'\n'`-join of break-free strings, the last not empty, are those strings |
| Strings.LeadingWhitespace | build.rs:23 | the count is the length of the whitespace run the text starts with: every character before it is whitespace and the one at it, if any, is not |
| Strings.TrailingWhitespace | build.rs:23 | the count is the length of the whitespace run the text ends with: every character after the cut is whitespace and the one before it, if any, is not |
| Strings.Trim | build.rs:23 | the result is a slice of the input with only whitespace cut from both sides, and neither of its ends is whitespace |
| Strings.Decimal | build.rs:33 | the decimal text of a length is non-empty and all digits |
| Strings.ParseUsize | src/main.rs:18 | None iff the text is empty, is just `+`, or holds a character other than a digit apart from one leading `+`; otherwise the value whose decimal text is the digits less their leading zeros |
| Strings.CanonicalDigits | src/main.rs:18 | a digit string less its leading zeros is the decimal text of its value |
| Strings.ParseDecimal | src/main.rs:18 | parsing the decimal text of `n` gives `n` |
| Crossword.IntersectWords | src/crossword.rs:103-130 | the four direction cases of `intersect_words` with inclusive bounds; what it detects is stated by `IntersectMeaning` |
| Crossword.IntersectMeaning | src/crossword.rs:103-130 | for one direction: `b` starts on one of the `length + 1` cells from `a`'s start; for perpendicular words: the two runs of `length + 1` cells share a cell |
| Crossword.IntersectPerpendicularSymmetric | src/crossword.rs:107-118 | for perpendicular words the test does not depend on argument order |
| Crossword.IntersectParallelAsymmetric | src/crossword.rs:119-128 | for words in one direction it does: a concrete pair detected one way round and not the other |
| Crossword.IntersectPastEnd | src/crossword.rs:103-130 | a word starting on the cell just past `a`'s end is a hit, whatever its direction |
| Crossword.CandidatePosition | src/crossword.rs:45-61 | the position computed from a pair of equal letters, per direction of the laid word; `AcrossCandidateCrosses` and `DownCandidateRunsParallel` state where the letters land |
| Crossword.MatchesFrom | src/crossword.rs:44-63 | the candidates from one letter of the laid word are exactly the Down placements at each equal letter of the answer |
| Crossword.CandidatesFrom | src/crossword.rs:39-65 | the candidates from the laid word's letters from a given index on are exactly one per equal-letter pair |
| Crossword.Candidates | src/crossword.rs:39-65 | every candidate is Down, and a placement is a candidate iff it is computed from a pair of equal letters |
| Crossword.AcrossCandidateCrosses | src/crossword.rs:46-53 | against an Across word, the candidate places the matched letter on the laid word's matched cell |
| Crossword.DownCandidateRunsParallel | src/crossword.rs:54-61 | against a Down word, the matched letters share a cell iff the answer's matched letter is its first |
| Crossword.Clear | src/crossword.rs:69-80 | the `find` condition: no collision with any laid word that differs from the one placed against |
| Crossword.FirstClear | src/crossword.rs:67-81 | `find` returns the first index whose placement is clear of every other laid word, or None when none is |
| Crossword.PlaceAgainst | src/crossword.rs:66-88 | one pass of the inner loop: the first clear placement in the shuffled candidates, or None where `unwrap` panics; its meaning is `PlaceAgainstMeaning` |
| Crossword.PlaceAgainstMeaning | src/crossword.rs:66-81 | for any shuffle, a placement found is a candidate clear of all laid words except the one placed against, and none is found iff no candidate is clear |
| Crossword.NoSharedLetterPanics | src/crossword.rs:39-81 | an answer sharing no letter with a laid word cannot be placed against it |
| Crossword.SortByLengthDescending | src/crossword.rs:25-26 | the array ends sorted by non-increasing answer length and is a permutation of its old contents |
| Crossword.SinkLeft | src/crossword.rs:26 | one insertion step extends the sorted prefix by one, permutes the array and leaves everything after the new element untouched |
| Crossword.PlaceWord | src/crossword.rs:37-91 | the inner loop succeeds iff every pass finds a placement, keeping the one against the last laid word; otherwise it names the first laid word whose `unwrap` panics |
| Crossword.FromWordsAndClues | src/crossword.rs:24-94 | NoWords iff no pairs; on success one word per pair (a permutation), longest first, first answer longest, each word placed as the loop places it; on a panic, the state at which no candidate was clear, with the pair being placed next in sorted order (no waiting pair is longer) |
| Crossword.LaterWordsAreDown | src/crossword.rs:45-61 | every word after the first runs Down |
| Crossword.ClearOfEarlierWords | src/crossword.rs:67-81 | each word collides with no earlier word other than copies of the one before it |
| Crossword.SecondWordCrossesFirst | src/crossword.rs:36-65 | the second word shares a letter with the first, and those letters lie on one cell |
| Crossword.Deterministic | src/crossword.rs:24-94 | the placements are determined by the sorted pairs and the shuffle |
| Crossword.CatThenCar | src/crossword.rs:24-94 | when the build succeeds, `CAR` after `CAT` goes Down through its C or its A, whatever the shuffle |
| Crossword.OneLaidWordPlaces | src/crossword.rs:39-81 | against a single laid word, an answer sharing a letter with it is always placed |
| Crossword.SharedLetterPairBuilds | src/crossword.rs:24-94 | two answers sharing a letter never leave the builder stuck, whatever the shuffle |
| Articles.Article.TextLen | src/article.rs:59-64 | the summed length of the text fragments; `TextLenAppend` and `TextLenCounts` state how it adds up |
| Articles.FragmentsTextLen | src/article.rs:59-64 | the text length over a sequence of fragments, through `AsText` |
| Articles.Article.ReadingTime | src/article.rs:66-68 | the least number of whole minutes covering the text at 200 characters a minute, and zero only for no text |
| Articles.AsText | src/article.rs:19-25 | Some exactly for a text fragment, holding its text |
| Articles.TextLenAppend | src/article.rs:59-64 | the text length adds up over consecutive runs of fragments |
| Articles.TextLenCounts | src/article.rs:59-64 | each fragment adds its text's length, or nothing for an image |
| Articles.ParseFragment | src/article.rs:36-47 | an empty group has no fragment data; an unknown tag is the unreachable panic; a known tag alone is the `fragment[1]` panic; success iff a known tag and a content line, read from the group's first two lines |
| Articles.FragmentReadsBack | src/article.rs:36-47 | the two lines a fragment is written as parse back as that fragment |
| Articles.FromStr | src/article.rs:29-57 | NoData iff empty input; NoTitle iff the first line has no space; NoImage iff there is only one line; past the header, success iff every blank-line-separated group parses, otherwise the error of the first group that does not; on success the header split, the image line and one fragment per group |
| Articles.ParsedHasNoEmptyFragment | src/article.rs:34-48 | a successful parse saw fragment lines that neither start nor end with a blank line nor hold two blank lines in a row |
| Articles.FromStrRender | src/article.rs:29-57 | an article written in the text format reads back as itself |
| Build.ArticlePayload | build.rs:26-32 | the record for one article; `SplitTopicOfPayload` recovers its parts |
| Build.Frame | build.rs:33 | the length-prefixed frame; `FrameLayout` states its layout |
| Build.ArticlesData | build.rs:38 | the frames joined by line breaks; `DecodeEncode` reads it back |
| Build.AdsData | build.rs:50 | the ad names joined by line breaks; `AdsRoundTrip` reads it back |
| Build.FrameLayout | build.rs:33 | a frame's text before its first space is the decimal length of the payload, which follows it |
| Build.ArticlesDataShape | build.rs:38 | the layout `DecodeEncode` reads back: frames separated by single line breaks with nothing after the last; none gives the empty text |
| Build.SplitTopicOfPayload | build.rs:23-32 | the length prefix recovers the topic, whatever spaces it holds, and the rest is the file name and the trimmed article |
| Build.AdsRoundTrip | build.rs:50 | reading the ads data line by line gives the file names back |
| Loader.Decode | src/main.rs:14-25 | the records read from the data, with the error the loop stops on; its behaviour is stated by `DecodeFrame`, `DecodeBadLength`, `DecodeNoSpace` and `DecodeEncode` |
| Loader.GetArticles | src/main.rs:11-27 | the loop returns exactly what `Decode` gives for the data with `from_str` as the parser |
| Loader.DecodeFrame | src/main.rs:14-25 | a frame followed by any one character is parsed and reading resumes after that character; a frame at the very end finishes the data |
| Loader.DecodeBadLength | src/main.rs:18-19 | a length that does not parse, or one past the end of the data, stops the load with that error |
| Loader.DecodeRejects | src/main.rs:19 | a record whose parser fails stops the load with that parser's error |
| Loader.DecodePaddedLength | src/main.rs:18 | a length with a `+` sign and a leading zero (`+02`) is read as the plain number |
| Loader.DecodeNoSpace | src/main.rs:15-17 | non-empty data without a space is invalid |
| Loader.DecodeEncode | src/main.rs:11-27 | decoding what the build writes parses every payload in order, or stops with the first payload's parse error |
| Loader.DecodeEncodeRaw | src/main.rs:14-25 | with a parser that accepts everything, the payloads come back exactly |

## Left out

- The user interface is not modelled: `src/components.rs`, the `main` function that mounts it, and the reading of `ARTICLES` and `ADS` into pages. It is rendering only.
- `lazy_static` and `include_str!` are not modelled. The loader and the line split take the embedded text as a parameter.
- The file system in `build.rs` is not modelled: `read_dir`, `read_to_string`, `File::create` and the `unwrap`s on them. The article and ad inputs are parameters, in the order the directory walk would yield them.
- `to_string_lossy` is not modelled: file names are taken to be valid text already.
- `thread_rng` is not modelled. The shuffle is a parameter, and the lemmas require only that it permutes each list.
- Lengths are counted in characters, not UTF-8 bytes. So the byte-boundary panic of `&rest[..length]` on a multi-byte character is not modelled.
- Crossword.Position: coordinates are unbounded integers, so the `i32` overflow and the `i32::try_from(..).unwrap()` panics are not modelled.
- Strings.ParseUsize: does not reject numbers above `usize::MAX`, which the source reports as a parse error.
- Articles.Article.ReadingTime: the `usize` sum in `text_len` is unbounded, so its overflow is not modelled.
- Strings.Lines: does not strip a `'\r'` before a line break, which `str::lines` does. Inputs are taken to use `'\n'` only.
- Strings.Trim: whitespace is the Unicode White_Space list written out as characters, with no other Unicode handling.
- Crossword.SortByLengthDescending: states the order by length and the permutation only. The order `sort_unstable_by_key` gives to answers of equal length is left unspecified, because the source does not fix it.
- No shown file renders or uses the built crossword, so there is no grid code to model.
