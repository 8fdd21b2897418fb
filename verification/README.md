# Video route model

A Dafny model of the video route of a small Next.js news-to-video app,
`app/api/generate-video/route.ts`. A request names either a news URL or a
custom text. The route takes the text and cuts it into sentence frames of
three seconds each. It then renders a looping HTML animation, with one
fade animation and one block of wrapped display lines per frame.

The model follows the route's own structure, one module per piece:

- `Text`: the JavaScript string primitives the route relies on. These are
  ECMAScript whitespace, `trim`, `split(' ')`, the UTF-16 `length` and
  `substring(0, n)`, and the global regex replacement of character runs by
  one space. Two reference definitions sit beside them; the route calls
  neither. `Join` joins with single spaces and is the inverse of
  `split(' ')`, so round trips are stated with it. `Words`, the maximal runs
  of non-whitespace, is what whitespace handling is stated against.
- `Wrap`: `wrapText`, the greedy word wrapper.
- `Frames`: the sentence matcher for `/[^.!?]+[.!?]+/g` and `createFrames`.
- `Timing`: the running prefix sum of `generateVideoHTML` that gives every
  frame its window of the loop, and the percentages derived from it.
- `Render`: `generateVideoHTML`, reduced to the per-frame animations and
  display blocks it emits.
- `Extract`: the text post-processing of `fetchNewsContent`, over an
  abstract page (heading, paragraph texts, body text).
- `Handler`: `POST`, with the download passed in as a function from URL to
  outcome.

Two facts about the code worth knowing:

- `createFrames("")` gives one empty three-second frame. The regex finds no
  match, so `[text]` is used. The five-second fallback (route.ts:191-193)
  never runs (`Frames.EmptyTextFrame`, `Frames.CreateFrames`).
- The placeholder message ends with a full stop. It is therefore one
  sentence and becomes one frame holding the whole message
  (`Extract.PlaceholderOneFrame`).

## Model

| member | source | states |
|---|---|---|
| Text.Trim | app/api/generate-video/route.ts:155 | Trimming never lengthens a string, and what is left is empty or starts and ends with a non-whitespace character. |
| Text.TrimParts | app/api/generate-video/route.ts:174 | A string is its leading whitespace, then its trimmed form, then its trailing whitespace. |
| Text.TrimKeepsWords | app/api/generate-video/route.ts:174 | Trimming removes no word. |
| Text.TrimOfTrimmed | app/api/generate-video/route.ts:187 | A string with no whitespace at either end is its own trim. |
| Text.WordsAppend | app/api/generate-video/route.ts:157-164 | When two strings meet at whitespace, the words of the whole are those of the first part followed by those of the second. |
| Text.WordsJoin | app/api/generate-video/route.ts:171-174 | Joining non-empty words without whitespace by single spaces, then splitting at whitespace, gives the same words back. |
| Text.NormalJoin | app/api/generate-video/route.ts:171-174 | A single-spaced, trimmed string is exactly its words joined by single spaces. |
| Text.NoWordsAllWhitespace | app/api/generate-video/route.ts:177 | A string has no words exactly when it is all whitespace, which is when the placeholder is chosen. |
| Text.ReplaceRuns | app/api/generate-video/route.ts:172-173 | Every class character left after replacing the runs of a class is a space. A string without class characters is unchanged. After the whitespace replacement, no two whitespace characters are neighbours. |
| Text.ReplaceRunsFrom | app/api/generate-video/route.ts:172 | The scan that replaces each run of a class by one space. Every class character left is a space. A string without class characters is unchanged. After the whitespace scan, no two whitespace characters are neighbours, and a scan that starts inside a run does not start with whitespace. |
| Text.ReplaceRunsKeepsWords | app/api/generate-video/route.ts:172 | Collapsing whitespace runs keeps the words in order. |
| Text.Utf16Bound | app/api/generate-video/route.ts:18 | The JavaScript length of a string is between its number of characters and twice that. |
| Text.UnitPrefix | app/api/generate-video/route.ts:175 | The cut is a prefix within the limit of code units. It is the whole string, or one more character would exceed the limit. |
| Text.UnitPrefixLength | app/api/generate-video/route.ts:175 | A string within the limit is not cut. Otherwise the cut falls short of the limit by at most one unit, which is the split surrogate pair. |
| Text.SplitJoin | app/api/generate-video/route.ts:12 | Splitting at single spaces undoes joining with single spaces, for parts that contain no space. |
| Text.Split | app/api/generate-video/route.ts:12 | Splitting gives at least one part, no part contains a space, and joining the parts gives the string back. |
| Text.SingleSpacedWords | app/api/generate-video/route.ts:12 | A text with no leading, trailing or doubled space splits into non-empty words. |
| Wrap.WrapFrom | app/api/generate-video/route.ts:16-30 | The loop over the words, with the pushed lines and the line being built. It only appends to the pushed lines, and every line is non-empty and within the width unless it is one unbroken word. |
| Wrap.WrapText | app/api/generate-video/route.ts:11-33 | Every line is non-empty. A line wider than the width is a single unbroken word. An empty text gives no lines. |
| Wrap.WrapFromJoin | app/api/generate-video/route.ts:16-30 | The lines pushed so far, the line being built and the remaining words come back in order when the final lines are joined. |
| Wrap.WrapRoundTrip | app/api/generate-video/route.ts:12-32 | For a single-spaced text, the lines joined with single spaces are the text: no word is lost, reordered or split. |
| Wrap.WrapFromGreedy | app/api/generate-video/route.ts:16-30 | Each step of the wrapping loop keeps the lines greedy. |
| Wrap.WrapIsGreedy | app/api/generate-video/route.ts:16-30 | For a single-spaced text, no line could have taken the first word of the next line without exceeding the width. |
| Wrap.OneWordOneLine | app/api/generate-video/route.ts:17-22 | A non-empty text without spaces is one line, however long it is. |
| Wrap.ShortTextOneLine | app/api/generate-video/route.ts:16-30 | A single-spaced text within the width is one line. |
| Wrap.GreedyLinesOverflow | app/api/generate-video/route.ts:18 | Two or more greedy lines, joined, are wider than the width. |
| Frames.RunFrom | app/api/generate-video/route.ts:184 | The greedy run of `[^.!?]+` or `[.!?]+` from a position stays inside the text. |
| Frames.RunFromSpan | app/api/generate-video/route.ts:184 | A run holds only characters of its kind. It ends at the end of the text or at a character of the other kind. |
| Frames.MatchesAreSentences | app/api/generate-video/route.ts:184 | Every match is at least two characters long. It starts with a non-terminator, ends with a terminator, and has no non-terminator after a terminator. |
| Frames.SentenceMatches | app/api/generate-video/route.ts:184 | Every match of the sentence pattern has the shape of a sentence. |
| Frames.MatchesTileText | app/api/generate-video/route.ts:184 | After the leading terminators, the matches follow one another without gaps. What follows the last match has no terminator, so the matches come in input order and only an unterminated tail is dropped. |
| Frames.MatchesConsumeSentence | app/api/generate-video/route.ts:184 | A sentence that starts where matching resumes, and cannot be extended, is the next match. |
| Frames.SentencesOf | app/api/generate-video/route.ts:184 | The list of sentences is never empty: it is the matches, or the whole text. |
| Frames.SentenceFrames | app/api/generate-video/route.ts:186-189 | There is one frame per sentence, in order, holding the trimmed sentence for three seconds. |
| Frames.CreateFrames | app/api/generate-video/route.ts:183-196 | There are always between one and ten frames, each of three seconds, so the five-second fallback never runs. |
| Frames.FrameTexts | app/api/generate-video/route.ts:184-189 | With matches, the frames are the first ten trimmed matches in order. Without a match, the trimmed text is the one frame. |
| Frames.SentenceFramesEndWithTerminator | app/api/generate-video/route.ts:184-189 | When the text has a match, every frame text is non-empty and ends with `.`, `!` or `?`. |
| Frames.TrimKeepsTerminator | app/api/generate-video/route.ts:187 | Trimming a match keeps its final terminator. |
| Frames.OneSentenceOneFrame | app/api/generate-video/route.ts:184-189 | A text that is one sentence and does not start with whitespace is one frame holding the whole text. |
| Frames.EmptyTextFrame | app/api/generate-video/route.ts:184-193 | The empty text becomes one empty frame of three seconds. |
| Frames.ThreeSentences | app/api/generate-video/route.ts:183-196 | "One. Two! Three?" becomes the frames "One.", "Two!" and "Three?" of three seconds each. |
| Frames.CleanTextFrames | app/api/generate-video/route.ts:184-189 | A text with words, whose whitespace is single plain spaces, yields only single-spaced frame texts. |
| Timing.Total | app/api/generate-video/route.ts:36 | The loop lasts at least one second per frame. |
| Timing.TotalAppend | app/api/generate-video/route.ts:36 | The loop length of two lists of frames together is the sum of their loop lengths. |
| Timing.UniformTotal | app/api/generate-video/route.ts:36 | Frames all lasting `d` seconds make a loop of `d` seconds per frame. |
| Timing.WindowsFrom | app/api/generate-video/route.ts:39-43 | The running clock of the loop gives exactly one window per frame. |
| Timing.FrameWindows | app/api/generate-video/route.ts:39-43 | There is one window per frame. The first opens at 0 and the last closes at the loop length. Each lasts as long as its frame and closes where the next opens. |
| Timing.WindowAt | app/api/generate-video/route.ts:39-70 | Frame `k` is shown from the summed durations of the frames before it, for its own duration. |
| Timing.PercentEnds | app/api/generate-video/route.ts:42-43 | The start of the loop is 0% and its end is 100%. |
| Render.AnimationsFrom | app/api/generate-video/route.ts:41-68 | One animation per window, numbered consecutively, each looping over the given loop length and showing its frame during its window. |
| Render.BlocksFrom | app/api/generate-video/route.ts:73-80 | One block per frame, numbered consecutively, holding the frame's text wrapped to 50 code units. |
| Render.GenerateVideo | app/api/generate-video/route.ts:36-80 | Frame `k` gets animation `k` and block `k`. Every animation loops over the summed durations. The windows open at 0, close at the loop length, and hand over from one frame to the next. Block `k` shows exactly the frame's text wrapped to 50 code units. Every displayed line is non-empty and fits `LineWidth` unless it is one unbroken word. |
| Render.KeyframesSpanLoop | app/api/generate-video/route.ts:42-43 | The first frame's keyframes start at 0% of the loop and the last frame's end at 100%. |
| Render.FrameShownInItsShare | app/api/generate-video/route.ts:41-70 | Frame `k` is visible from the end of the durations before it, as a percentage of the loop, for its own duration. |
| Render.FrameShare | app/api/generate-video/route.ts:42-43 | Frame `k`'s end percentage minus its start percentage is its duration's share of the loop. |
| Render.HandOver | app/api/generate-video/route.ts:41-71 | For animations that hand over from one to the next, the shown percentages add up to the last end minus the first start. |
| Render.SharesFillLoop | app/api/generate-video/route.ts:41-71 | Together, the frames' shown percentages add up to exactly 100%. |
| Render.EvenSlots | app/api/generate-video/route.ts:41-70 | With equal durations, frame `k` of `n` is shown from `k/n` to `(k+1)/n` of a loop of `n` durations. |
| Render.DisplayedLinesRoundTrip | app/api/generate-video/route.ts:73-80 | A single-spaced frame text is shown as lines that join back to the text. |
| Render.ShortFrameOneLine | app/api/generate-video/route.ts:73-80 | A single-spaced frame text of at most 50 code units is shown on one line. |
| Extract.TitlePart | app/api/generate-video/route.ts:155-158 | The heading part is empty exactly when the heading has no words. Otherwise its words are the heading's words with a full stop on the last, and it ends in whitespace. |
| Extract.Kept | app/api/generate-video/route.ts:161-164 | One paragraph's contribution, trimmed and followed by a space, or nothing. It is empty or ends in whitespace, so the next paragraph starts a new word. |
| Extract.KeptWordsOf | app/api/generate-video/route.ts:161-164 | A paragraph adds its words when it is longer than 30 code units once trimmed, and nothing otherwise. |
| Extract.Paragraphs | app/api/generate-video/route.ts:160-165 | The kept paragraphs in order. The part is empty or ends in whitespace, so nothing after it joins its last word. |
| Extract.ParagraphsWords | app/api/generate-video/route.ts:160-165 | The paragraph part holds exactly the words of the kept paragraphs, in order, and is empty exactly when none are kept. |
| Extract.ParagraphsAppend | app/api/generate-video/route.ts:160-165 | Paragraphs are taken one at a time, in order. |
| Extract.Collected | app/api/generate-video/route.ts:153-169 | The collected content has the expected words: heading and kept paragraphs, or the body's words when those give none. |
| Extract.Normalize | app/api/generate-video/route.ts:171-174 | After both replacements and the trim, the content is its words joined by single spaces. |
| Extract.Collapse | app/api/generate-video/route.ts:172-173 | After the whitespace replacement, no two whitespace characters are neighbours, all whitespace is plain spaces, the words are kept, and the newline replacement changes nothing. |
| Extract.Finish | app/api/generate-video/route.ts:171-177 | The result is never empty and fits 1000 code units. It does not start with whitespace, and its whitespace is single plain spaces. Without words it is the placeholder; otherwise it is the cut of the words joined by single spaces. |
| Extract.NonEmptyCut | app/api/generate-video/route.ts:175-177 | The cut content is empty, so the placeholder is used, exactly when there are no words, that is exactly when the collected content is all whitespace. |
| Extract.ExtractContent | app/api/generate-video/route.ts:153-177 | Same as Extract.Finish, stated in terms of the page's heading, paragraphs and body. |
| Extract.ContentWhole | app/api/generate-video/route.ts:171-177 | When the expected words fit, the content is exactly those words joined by single spaces, and splitting it gives them back. |
| Extract.ShortParagraphIgnored | app/api/generate-video/route.ts:161-164 | Inserting a paragraph of at most 30 code units, anywhere, does not change the content. |
| Extract.HeadingLeads | app/api/generate-video/route.ts:155-158 | A heading with words opens the content as its own sentence. |
| Extract.BodyFallback | app/api/generate-video/route.ts:167-169 | Without a heading or a kept paragraph, the content comes from the trimmed body text. |
| Extract.ExtractedFramesSingleSpaced | app/api/generate-video/route.ts:171-177 | Every frame cut from extracted content is single-spaced. |
| Extract.PlaceholderShape | app/api/generate-video/route.ts:177 | The placeholder fits the limit, starts with a letter and is spaced by single plain spaces. |
| Extract.PlaceholderOneFrame | app/api/generate-video/route.ts:177 | The placeholder becomes one frame holding the whole message. |
| Handler.SelectSource | app/api/generate-video/route.ts:205-214 | A truthy URL is used. Otherwise a truthy custom text is used. Otherwise there is no source. |
| Handler.FetchErrorMessage | app/api/generate-video/route.ts:179 | The rethrown message starts with "Failed to fetch news content: ". |
| Handler.VideoOf | app/api/generate-video/route.ts:216-217 | The video of a text has one to ten frames, and each loops over three seconds per frame. |
| Handler.Handle | app/api/generate-video/route.ts:198-230 | Failures are 400 or 500. A 400 comes exactly when a parsed body has neither a truthy URL nor a truthy custom text. A video has one to ten frames. |
| Handler.UrlWins | app/api/generate-video/route.ts:205-206 | With a truthy URL, the custom text makes no difference. |
| Handler.NoFetchWithoutUrl | app/api/generate-video/route.ts:205-214 | Without a truthy URL, the answer does not depend on the downloader. |
| Handler.EmptyIsMissing | app/api/generate-video/route.ts:205-209 | An empty string counts as a missing member. |
| Handler.MissingInput | app/api/generate-video/route.ts:209-213 | With neither member truthy, the answer is 400 with the fixed message. |
| Handler.FetchFailure | app/api/generate-video/route.ts:223-228 | A failed download is a 500 carrying the download error's message, or "Unknown error". |
| Handler.CustomHandled | app/api/generate-video/route.ts:207-217 | A custom text alone becomes the video of its frames. |
| Handler.ArticleHandled | app/api/generate-video/route.ts:205-217 | A downloaded article becomes the video of the frames of its extracted content. |
| Handler.CustomTextVideo | app/api/generate-video/route.ts:207-217 | For a custom text, frame `k` of `n` is shown from second `3k` to `3k + 3` of a loop of `3n` seconds, that is from `k/n` to `(k+1)/n`, with its text wrapped to 50 code units. |
| Handler.ArticleLinesRoundTrip | app/api/generate-video/route.ts:205-217 | For an article, each frame's display lines join back to that frame's text. |
| Handler.EmptyArticleVideo | app/api/generate-video/route.ts:205-217 | An article with no words becomes a one-frame video of the placeholder message. |

## Left out

- Downloading the page is not modelled: the axios request, its headers and timeout. The handler takes the download as a function parameter instead.
- Parsing the page and its selectors are not modelled: the cheerio load, the removal of scripts, styles, navigation, headers, footers, frames and adverts, and the selector queries. A page is given as its first heading's text, its paragraph texts in document order, and its body text.
- The CSS and HTML template text is not modelled. This includes the `- 0.1` keyframe stops, the base64 data URL, and the JSON response plumbing. The page is modelled as its per-frame animations and display blocks, and the response as a datatype.
- Percentages are exact `real`s, not IEEE doubles. For the small integer durations the route produces, only rounding in the last digits differs.
- Frame durations are positive whole seconds. The route only produces 3 (and 5 in the dead fallback). A zero or fractional duration, and the `NaN` of a zero-length loop, are not modelled.
- Only string values, or absent members, are modelled for `newsUrl` and `customText`. A truthy non-string value is not modelled, such as a number or an object. Neither is a body that parses to `null` or to a non-object. `Malformed` stands for any error raised before the handler picks its text. Its message becomes the 500 message.
- The `console.error` logging is not modelled.
- Text.UnitPrefix: when the 1000-unit cut would fall between the two halves of a surrogate pair, JavaScript keeps the lone high surrogate. The model stops before the pair, because a Dafny `char` cannot hold a lone surrogate. For the same reason, input strings containing lone surrogates are not modelled.
- Extract.Finish: inherits the surrogate-pair cut of Text.UnitPrefix.
- Extract.ExtractContent: inherits the surrogate-pair cut of Text.UnitPrefix.
- Frames.CreateFrames: the dead five-second fallback cuts to 200 code units with Text.UnitPrefix, so it has the same surrogate-pair caveat.
