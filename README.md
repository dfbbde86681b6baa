# Myongji University notice crawler and chat-page escaping, in Dafny

This project models the two pieces of logic in a small chatbot for Myongji
University (명지대학교):

- **`get_mju_notices(category_code, limit)`** (`crawler.py`). A language
  model calls it as a tool. It takes a free-text or numeric board hint and
  returns one reply string. To build it, the function does five things:
  - It strips the hint. Then it walks an ordered keyword → board-code table
    and takes the first keyword that occurs in the hint (default `"255"`).
  - It builds the board's name and URL.
  - It fetches the page and walks the rows of its table. Rows with fewer
    than two cells are skipped. The title anchor is taken from the second
    cell, falling back to the third. The title's whitespace is collapsed.
    Site-relative links get the site root. The date is the first later cell
    that looks like one. After each row with two or more cells, the loop
    stops once it holds `limit` notices.
  - It formats either a "not found" message or a header followed by one
    two-line entry per notice.
  - It turns any exception into a reply starting with `"에러 발생: "`.
- **`escapeHtml(text)`** (`static/script.js`). It is a chain of five
  global replacements: `&` first, then `<`, `>`, `"` and `'`.

Modules:

- `Wrappers`: `Option` and `Result`.
- `PyText`: the Python string built-ins the crawler relies on, with their
  own proved properties:
  - `str.isspace`, `strip()`, `split()` and `" ".join`;
  - substring `in`, `str(n)` for a count, `split('\n')`.
- `Crawler`: the data model and the operations. The source's loops become
  methods, each proved equal to a specification function:
  - the resolver loop: `ResolveCategory` against `Resolve`;
  - the date scan: `FindDate` against `DateOf`;
  - the row loop: `CollectNotices` against `Extract`, and its body
    `ReadRow` against `Classify`;
  - the whole call: `GetMjuNotices` against `Reply`.
- `CrawlerProperties`: what the crawler promises, proved about those
  specification functions:
  - first-match resolution;
  - the date rule;
  - which rows contribute;
  - extraction as "the first `limit` notices of the page, in row order", cut
    short by the first anchor without an `href` the loop reaches;
  - the bounds;
  - the error cases;
  - the reply's line structure.
- `CrawlerExamples`: the behaviours listed below, proved on small pages.
- `HtmlEscape`: `escapeHtml` as written, together with:
  - a character-by-character reference encoding, which its contract says it
    equals;
  - the safety properties;
  - the length formula;
  - a decoder proved to invert it.

The page is an input. The model does not fetch anything. A `Page` is either
`Fetched(rows)` or `FetchFailed(reason)`:

- each row is a sequence of cells;
- each cell has its text and the first anchor inside it, if any;
- an anchor has its text and an optional `href`.

### Behaviours of the code worth knowing

- **Resolution is first match.** An input containing a keyword does not
  always resolve to that keyword's code. The first keyword in declaration
  order that occurs anywhere in the stripped hint wins. So `"학사 공지"`
  resolves to `"255"`, because `"공지"` comes before `"학사"`.
  (`AcademicNoticeResolvesToGeneral`)
- **A limit of 0 or below does not stop the loop before the first row.**
  The `len(notices) >= limit` check (`crawler.py:85`) runs only after a row
  with at least two cells has been processed. That first row decides the
  result: its notice alone, no notice when it has no anchor, or the
  `'href'` error when its anchor has no `href`. Short rows before it are
  passed over. (`ExtractNonPositiveLimit`, `LimitZeroStillEmitsOne`,
  `LimitZeroAnchorlessFirstRow`)
- **The HTTP status is never checked.** Any response body is parsed, and
  its `tbody tr` rows are read as notice rows whatever the status. Only
  exceptions become error replies.
- **The date sentinel is `"날짜없음"`**, not an English word.
- **A missing `href` fails the whole call.** `link_tag['href']` raises
  `KeyError`. The catch-all turns it into `"에러 발생: 'href'"` even when
  notices were already collected. `str(KeyError('href'))` is `'href'` with
  the quotes. A row after the one where the limit was reached is never
  read, so an anchor without `href` there does no harm.
  (`ExtractUpToFirstMissingHref`, `MissingHrefAborts`,
  `LimitReachedBeforeMissingHref`)

## Model

| member | source | states |
|---|---|---|
| Crawler.ResolveCategory | crawler.py:26-36 | The strip-then-scan loop with its early `break` leaves exactly the first-match code `Resolve(Strip(hint))`, and that code is always a key of the board-name table. |
| Crawler.ResolveIsBoard | crawler.py:12-42 | Every resolved code is one of `"255"`, `"257"`, `"259"`, `"260"`, so the `"일반공지"` fallback of `board_names.get` is never used. |
| Crawler.FirstMatchIsValueOrDefault | crawler.py:31-36 | The scan yields the default `"255"` or one of the table's values. |
| CrawlerProperties.FirstMatchPicksFirstKey | crawler.py:33-36 | If key `i` occurs in the hint and no earlier key does, the result is key `i`'s code. |
| CrawlerProperties.FirstMatchDefault | crawler.py:31-36 | If no key occurs in the hint, the result is `"255"`. |
| CrawlerProperties.FirstMatchNoLaterThan | crawler.py:33-36 | If key `i` occurs, the result is the code of some key at or before `i` that occurs. |
| CrawlerProperties.AcademicNoticeResolvesToGeneral | crawler.py:12-36 | `"학사 공지"` resolves to `"255"`, because `"공지"` is declared before `"학사"`. |
| CrawlerProperties.NumericHintResolvesBySubstring | crawler.py:12-36 | `"2570"` resolves to `"257"` by substring match. |
| CrawlerExamples.ScholarshipHintResolves | crawler.py:20-36 | `"장학"` matches none of the nine earlier keys and resolves to `"259"`. |
| CrawlerExamples.ScholarshipBoard | crawler.py:41-46 | Board `"259"` is named `"장학공지"`, and its URL is `https://www.mju.ac.kr/mjukr/259/subview.do`. |
| PyText.StripSpec | crawler.py:27 | `strip()` removes exactly the leading and trailing Python whitespace and keeps the middle as a contiguous slice. |
| PyText.TrimStartSpec | crawler.py:27 | The left part of `strip()` drops exactly the leading whitespace run. |
| PyText.TrimEndSpec | crawler.py:78 | The right part of `strip()` drops exactly the trailing whitespace run and leaves a prefix. |
| PyText.Contains | crawler.py:34 | `key in clean` holds if and only if `key` occurs at some index of `clean`. |
| Crawler.AbsoluteLink | crawler.py:72-74 | The resulting link never starts with `"/"`. |
| CrawlerProperties.AbsoluteLinkIdempotent | crawler.py:73-74 | Making a link absolute twice is the same as once. |
| CrawlerExamples.LinksMadeAbsolute | crawler.py:72-74 | `"/bbs/…"` gets the `https://www.mju.ac.kr` prefix; an `https://` link is kept. |
| PyText.Split | crawler.py:70 | `split()` yields non-empty, space-free words whose concatenation is the text's non-whitespace characters in order. |
| PyText.NormalizeWhitespace | crawler.py:69-70 | `" ".join(s.split())` has no whitespace at either end, no whitespace other than single spaces, and the same words as `s`. |
| PyText.SplitJoinWords | crawler.py:70 | `split()` undoes `" ".join(words)` for any list of words. |
| PyText.NormalizeFixesNormalized | crawler.py:70 | A normalized title is a fixed point of the normalization. |
| PyText.NormalizeUnique | crawler.py:70 | The normalization of `s` is the only normalized string with the same words as `s`. |
| PyText.NormalizeIdempotent | crawler.py:70 | Normalizing twice is normalizing once. |
| CrawlerExamples.TitleLinesJoined | crawler.py:69-70 | Two words indented and broken over lines (`"  a\n  b "`) normalize to `"a b"`. |
| Crawler.DateFrom | crawler.py:76-81 | A date is either `"날짜없음"` or a ten-character text containing `'.'`. |
| Crawler.FindDate | crawler.py:76-81 | The scanning loop with `break` computes `DateOf`, so it returns the sentinel or a date-like text. |
| CrawlerProperties.DateFromFirst | crawler.py:77-81 | The scan returns the stripped text of the first cell from the start index on that looks like a date. |
| CrawlerProperties.DateFromNone | crawler.py:76-81 | With no date-like cell from the start index on, the scan returns `"날짜없음"`. |
| CrawlerProperties.DateOfIsFirstDateCell | crawler.py:76-81 | The date is the stripped text of the first date-like cell at index 2 or later. |
| CrawlerProperties.DateOfNoDateCell | crawler.py:76-81 | With no date-like cell at index 2 or later, the date is `"날짜없음"`. |
| CrawlerExamples.DateCells | crawler.py:76-81 | `"2024.03.15"` is taken as the date, and `"2024-03-15"` is not. |
| Crawler.Classify | crawler.py:58-83 | Every notice a row yields has a normalized title, a link not starting with `"/"`, and a date or the sentinel. |
| CrawlerProperties.ShortRowSkipped | crawler.py:58 | A row with fewer than two cells is skipped. |
| CrawlerProperties.AnchorlessRowSkipped | crawler.py:61-67 | A row with no anchor in its second cell, and no third cell or no anchor there, adds no notice. |
| Crawler.PickAnchor | crawler.py:61-65 | The anchor is the second cell's whenever it has one or the row has only two cells; any other anchor found is the third cell's. |
| CrawlerProperties.SecondCellAnchorFirst | crawler.py:61-83 | An anchor in the second cell is used even when the third cell has one. The notice is its normalized text, absolute link and the row's date. |
| CrawlerProperties.ThirdCellAnchorFallback | crawler.py:61-83 | With no anchor in the second cell, the third cell's anchor gives the notice: its normalized text, absolute link and the row's date. |
| CrawlerExamples.ClassifyNoticeRow | crawler.py:58-83 | A board-shaped row (number, linked title, date) yields its date, title and absolute link. |
| Crawler.Outcomes | crawler.py:56-57 | There is one classification per row, in row order. |
| Crawler.ReadRow | crawler.py:60-83 | The loop body for a row with two or more cells (fallback, normalization, `href` lookup, date scan) computes `Classify(row)`. |
| Crawler.CollectNotices | crawler.py:55-86 | The row loop, with its `continue`, `KeyError` exit and limit `break`, computes `Extract(rows, limit)`. |
| Crawler.ExtractFrom | crawler.py:55-86 | The loop from a given row on, with notices already collected, fails only with the `'href'` message. |
| Crawler.Extract | crawler.py:55-86 | The row loop fails only with the `'href'` message. |
| CrawlerProperties.HarvestWellFormed | crawler.py:67-83 | Every notice the page holds is well formed. |
| CrawlerProperties.ExtractFromTakes | crawler.py:55-86 | Below the limit and with no missing href ahead, the loop ends with the first notices of the remaining rows, up to the limit. |
| CrawlerProperties.ExtractFromCutOff | crawler.py:55-86 | When the rows before `j` hold enough notices to reach the limit, the loop ends among them with the first `limit` notices. Rows from `j` on are never read, so an href-less anchor there does not matter. |
| CrawlerProperties.ExtractFromUpToFirstMissingHref | crawler.py:55-86 | From any point below the limit, with `j` the first href-less row or the end: the key error exactly when fewer than `limit` notices come before `j`, otherwise the first `limit` of them. |
| CrawlerProperties.ExtractUpToFirstMissingHref | crawler.py:55-86 | For `limit >= 1` and `j` the first row whose anchor lacks an href (or the end), the call fails if and only if fewer than `limit` notices come before row `j`. Otherwise it returns the first `limit` notices of the rows before `j`, in row order. |
| CrawlerProperties.ExtractFromAtLimit | crawler.py:58-86 | Once the count has reached the limit, the next row with two or more cells decides the result and ends the loop. |
| CrawlerProperties.ExtractNonPositiveLimit | crawler.py:58-86 | For `limit <= 0` the first row with two or more cells decides: its notice alone, the key error if its anchor lacks an href, or no notice if it has no anchor. No such row gives no notice. |
| CrawlerProperties.ExtractTakesFirst | crawler.py:55-86 | With `limit >= 1` and no href-less anchor anywhere, the result is exactly the first `limit` notices of the page, in row order. This is the case of `ExtractUpToFirstMissingHref` with no href-less row. |
| CrawlerProperties.ExtractIsPrefix | crawler.py:55-86 | Any successful result is a prefix of the page's notices in row order. |
| CrawlerProperties.ExtractBound | crawler.py:85-86 | A successful result has at most `limit` notices, or at most one when `limit <= 0`. |
| CrawlerProperties.ExtractErrOnlyOnMissingHref | crawler.py:72 | The row loop fails only with the `'href'` key error, and only when some row's anchor lacks an href. |
| CrawlerProperties.ExtractErrWhenReached | crawler.py:72 | A row whose anchor lacks an href fails the call if the loop reaches it: no earlier failure and fewer than `limit` notices before it. |
| CrawlerProperties.ExtractWellFormed | crawler.py:55-86 | Every returned notice is well formed. |
| CrawlerExamples.LimitTwo | crawler.py:55-86 | With a header row and three notice rows, limit 2 returns the first two notices in page order. |
| CrawlerExamples.LimitZeroStillEmitsOne | crawler.py:83-86 | With limit 0, a first row carrying a notice still has it returned. |
| CrawlerExamples.LimitZeroAnchorlessFirstRow | crawler.py:63-86 | With limit 0, a first row without an anchor ends the loop with no notice, even though a notice row follows. |
| CrawlerExamples.LimitReachedBeforeMissingHref | crawler.py:72-86 | With limit 1, a notice row followed by an href-less anchor returns the one notice: the later row is never read. |
| CrawlerExamples.MissingHrefAborts | crawler.py:72 | An href-less anchor after a collected notice makes the whole result the `'href'` error. |
| Crawler.Entries | crawler.py:83 | There is one entry per notice, in order, each `Entry(notice)`. |
| CrawlerProperties.EntryIsTwoLines | crawler.py:83 | An entry is its date-and-title line, a newline, and its link line. |
| CrawlerProperties.JoinEntriesAsLines | crawler.py:83-91 | Joining the entries with newlines equals joining their lines with newlines. |
| CrawlerProperties.RenderAsJoin | crawler.py:91-92 | A listing is the header, an empty line and the entry lines, joined with newlines. |
| CrawlerProperties.ListingLines | crawler.py:88-92 | Split at newlines, a listing is the header, an empty line, then two lines per notice. The header's count reads back as the number of notices. |
| PyText.DecimalRoundTrip | crawler.py:92 | `str(n)` for a count reads back as `n`. |
| PyText.Decimal | crawler.py:92 | `str(n)` is non-empty decimal digits with no leading zero. |
| PyText.SplitOnJoin | crawler.py:91 | `split('\n')` undoes `"\n".join(parts)` when no part contains a newline. |
| CrawlerProperties.ReplyListing | crawler.py:83-92 | For a non-empty extraction the reply, split at newlines, is the header for the resolved board, an empty line and the entry lines. |
| Crawler.NotFoundMessage | crawler.py:88-89 | The "not found" message names both the board and the URL tried. |
| Crawler.Header | crawler.py:92 | The listing header names the board, and it is one line whenever the board name is. |
| Crawler.Render | crawler.py:88-92 | A successful extraction gives the "not found" message exactly when it holds no notice. Either way the text names the board. |
| Crawler.Reply | crawler.py:4-96 | When the page was fetched and the row loop succeeded, the reply names the board the hint resolved to. |
| CrawlerProperties.ExtractFromNothing | crawler.py:55-86 | Rows holding no notice and no href-less anchor leave the collected notices unchanged. |
| CrawlerProperties.NoNoticesNotFound | crawler.py:88-89 | A page with no notices (and no href-less anchor) gives the "not found" message naming the resolved board and URL. |
| CrawlerExamples.EmptyPageNotFound | crawler.py:88-89 | An empty page with hint `"장학"` gives the "not found" message for board `"259"`. |
| CrawlerProperties.ReplyErrorIff | crawler.py:94-96 | The reply starts with `"에러 발생: "` if and only if the fetch failed or the row loop raised. |
| Crawler.GetMjuNotices | crawler.py:4-96 | The whole function (resolve, name, URL, extract, format, catch) returns `Reply(hint, limit, page)`. |
| HtmlEscape.EscapeHtml | static/script.js:56-58 | The five-replacement chain equals replacing each of `& < > " '` by its entity, one character at a time (`Encoded(AllSteps, text)`). |
| HtmlEscape.ReplaceAll | static/script.js:57 | A global replacement whose replacement is no shorter than its pattern never shortens the text. |
| HtmlEscape.ReplaceAllSkips | static/script.js:57 | Text without the pattern's first character passes through a global replacement unchanged. |
| HtmlEscape.ReplaceAllMatch | static/script.js:57 | A match at the front is replaced and scanning resumes after it. |
| HtmlEscape.ReplaceAllNearMiss | static/script.js:57 | A piece that begins with the pattern's first character but differs at the second, and holds that character nowhere else, is kept as it is. |
| HtmlEscape.ReplaceStep | static/script.js:57 | Each replacement in the chain turns the text encoded so far into the text with that character also encoded. It relies on `&` being replaced first. |
| HtmlEscape.UndoStep | static/script.js:57 | Replacing one entity back by its character undoes that step, as long as `&amp;` is still encoded. |
| HtmlEscape.UnescapeEscape | static/script.js:57 | Turning each entity back into its character, `&amp;` last, recovers the input. |
| HtmlEscape.EncodedHasNoMarkup | static/script.js:57 | No `<`, `>`, `"` or `'` remains in the escaped text. |
| HtmlEscape.EncodedAmpersandsStartEntities | static/script.js:57 | Every `&` in the escaped text starts one of the five entities. |
| HtmlEscape.EscapeHtmlSafe | static/script.js:56-58 | `escapeHtml`'s output has no markup character and every `&` starts an entity, and it decodes back to the input. |
| HtmlEscape.EncodedPlain | static/script.js:57 | Text with none of the five characters is unchanged. |
| HtmlEscape.EscapeHtmlPlainAndAppend | static/script.js:56-58 | Plain text is returned unchanged. Escaping a concatenation is concatenating the escapes, so other characters keep their order. |
| HtmlEscape.EscapeHtmlLength | static/script.js:56-58 | The output is longer than the input by 4 per `&`, 3 per `<` or `>`, and 5 per `"` or `'`. |
| HtmlEscape.EscapeHtmlExamples | static/script.js:57 | `"<"` becomes `"&lt;"`, not `"&amp;lt;"`. Already-escaped `"&lt;"` is escaped again, to `"&amp;lt;"`. |

## Left out

- `app.py` as a whole: the web routes, the session, the OpenID login and the
  language-model chat. These are I/O over external services.
- The HTTP request (`crawler.py:49`): its outcome is the `Page` parameter.
  Any exception from fetching or parsing is `FetchFailed(reason)`, with
  `str(e)` given as `reason`.
- HTML parsing and the CSS selectors (`crawler.py:50-51, 57, 62, 65`): rows,
  cells, cell text and each cell's first anchor are given as data.
  `tag.text` is an opaque string.
- The debug `print` calls (`crawler.py:44, 53, 95`): they do not affect the
  reply.
- `str(category_code)` on non-string arguments, and non-integer `limit`
  values: the model takes a string and an integer.
- `sendMessage` and `scrollToBottom` in `static/script.js`: DOM updates, an
  asynchronous request and an external Markdown renderer.
- HtmlEscape.EscapeHtml: characters are Unicode scalar values rather than
  UTF-16 code units. The five replaced characters are single code units,
  so the result is the same. A non-string argument, which throws in
  JavaScript, is not modelled.
- CrawlerProperties.ReplyListing: the line structure is stated only when no
  date or link contains a newline. A ten-character date cell or an href
  could hold one, and it would split an entry into more lines.
- HtmlEscape.UnescapeHtml: `escapeHtml` has no inverse in the source. This
  decoder is the reference used to state that no information is lost.
