/**
 * The notice-board crawler `get_mju_notices` of crawler.py: it resolves a
 * category hint to a board code, builds the board's URL, walks the rows of
 * the fetched listing table, extracts (date, title, link) records up to a
 * limit and renders them as one reply string.
 *
 * The HTTP request and the HTML parsing are not modelled: the fetched page
 * arrives as a `Page`, either the table rows already split into cells or the
 * message of the exception the fetch raised.
 */
module Crawler {
  import opened Wrappers
  import opened PyText

  // ---------------------------------------------------------------
  // Inputs as the parser hands them over
  // ---------------------------------------------------------------

  /** An `<a>` element: its text and its `href` attribute, which may be absent. */
  datatype Anchor = Anchor(text: string, href: Option<string>)

  /** A `<td>` cell: its text and the first `<a>` inside it, if any. */
  datatype Cell = Cell(text: string, anchor: Option<Anchor>)

  /** A `<tr>` of the table body, as the list of its `<td>` cells. */
  type Row = seq<Cell>

  /** What the fetch produced: the parsed table rows, or the text of the exception it raised. */
  datatype Page = Fetched(rows: seq<Row>) | FetchFailed(reason: string)

  /** One extracted notice record. */
  datatype Notice = Notice(date: string, title: string, link: string)

  /** The default arguments of `get_mju_notices`. */
  const DefaultCategory: string := "255"
  const DefaultLimit: int := 8

  // ---------------------------------------------------------------
  // Category resolution
  // ---------------------------------------------------------------

  /** The keyword table, in declaration order (a Python dict keeps insertion order). */
  const Mapping: seq<(string, string)> := [
    ("일반", "255"), ("공지", "255"), ("255", "255"),
    ("학사", "257"), ("수강", "257"), ("졸업", "257"), ("휴학", "257"), ("복학", "257"), ("257", "257"),
    ("장학", "259"), ("학자금", "259"), ("대출", "259"), ("259", "259"),
    ("취업", "260"), ("진로", "260"), ("창업", "260"), ("인턴", "260"), ("현장", "260"), ("260", "260")
  ]

  /** The code used when no key of the table occurs in the hint. */
  const DefaultCode: string := "255"

  /** Board codes and their display names. */
  const BoardNames: map<string, string> :=
    map["255" := "일반공지", "257" := "학사공지", "259" := "장학공지", "260" := "취창업공지"]

  /** The first value of `table` whose key occurs in `clean`; `DefaultCode` when none does. */
  function FirstMatch(table: seq<(string, string)>, clean: string): string
  {
    if table == [] then DefaultCode
    else if Contains(clean, table[0].0) then table[0].1
    else FirstMatch(table[1..], clean)
  }

  /** The board code the (already stripped) hint resolves to. */
  function Resolve(clean: string): string
  {
    FirstMatch(Mapping, clean)
  }

  /** `board_names.get(code, "일반공지")`. */
  function BoardName(code: string): string
  {
    if code in BoardNames then BoardNames[code] else "일반공지"
  }

  const UrlPrefix: string := "https://www.mju.ac.kr/mjukr/"
  const UrlSuffix: string := "/subview.do"

  /** The listing page of a board. */
  function Url(code: string): string
  {
    UrlPrefix + code + UrlSuffix
  }

  /**
   * Strips the hint, then walks the table in order and takes the value of
   * the first key that occurs in it, or `DefaultCode` when none does.
   */
  method ResolveCategory(categoryCode: string) returns (code: string)
    ensures code == Resolve(Strip(categoryCode))
    ensures code in BoardNames
  {
    var clean := Strip(categoryCode);
    code := DefaultCode;
    var i := 0;
    while i < |Mapping|
      invariant 0 <= i <= |Mapping|
      invariant code == DefaultCode
      invariant FirstMatch(Mapping[i..], clean) == Resolve(clean)
    {
      assert Mapping[i..][0] == Mapping[i];
      if Contains(clean, Mapping[i].0) {
        code := Mapping[i].1;
        MappingValuesAreBoards(i);
        break;
      }
      assert Mapping[i..][1..] == Mapping[i + 1..];
      i := i + 1;
    }
  }

  /** Every code the table can produce names a board, so the name lookup never falls back. */
  lemma ResolveIsBoard(clean: string)
    ensures Resolve(clean) in BoardNames
  {
    FirstMatchIsValueOrDefault(Mapping, clean);
    forall i | 0 <= i < |Mapping| ensures Mapping[i].1 in BoardNames {
      MappingValuesAreBoards(i);
    }
  }

  lemma MappingValuesAreBoards(i: nat)
    requires i < |Mapping|
    ensures Mapping[i].1 in BoardNames
  {
    if i < 3 {
    } else if i < 9 {
    } else if i < 13 {
    } else {
    }
  }

  /** `FirstMatch` returns the default or one of the table's values. */
  lemma {:induction false} FirstMatchIsValueOrDefault(table: seq<(string, string)>, clean: string)
    ensures FirstMatch(table, clean) == DefaultCode
            || exists i :: 0 <= i < |table| && FirstMatch(table, clean) == table[i].1
  {
    if table != [] && !Contains(clean, table[0].0) {
      FirstMatchIsValueOrDefault(table[1..], clean);
      if FirstMatch(table[1..], clean) != DefaultCode {
        var i :| 0 <= i < |table[1..]| && FirstMatch(table[1..], clean) == table[1..][i].1;
        assert table[1..][i] == table[i + 1];
      }
    }
  }

  // ---------------------------------------------------------------
  // Title, link and date of one row
  // ---------------------------------------------------------------

  const SiteRoot: string := "https://www.mju.ac.kr"

  /** A link starting with "/" is made absolute by prefixing the site root; any other is kept. */
  function AbsoluteLink(href: string): (link: string)
    ensures link == [] || link[0] != '/'
  {
    if "/" <= href then SiteRoot + href else href
  }

  /** The date used when no cell looks like one. */
  const NoDate: string := "날짜없음"

  /** A stripped cell text that is taken as a date: ten characters, at least one of them a '.'. */
  predicate IsDateText(t: string)
  {
    |t| == 10 && '.' in t
  }

  /** The first cell from index `j` on whose stripped text looks like a date, or `NoDate`. */
  function DateFrom(columns: Row, j: nat): (date: string)
    ensures date == NoDate || IsDateText(date)
    decreases |columns| - j
  {
    if j >= |columns| then NoDate
    else if IsDateText(Strip(columns[j].text)) then Strip(columns[j].text)
    else DateFrom(columns, j + 1)
  }

  /** The date of a row: searched among `columns[2:]`. */
  function DateOf(columns: Row): string
  {
    DateFrom(columns, 2)
  }

  /** Scans `columns[2:]` for the first stripped text that looks like a date. */
  method FindDate(columns: Row) returns (date: string)
    ensures date == DateOf(columns)
    ensures date == NoDate || IsDateText(date)
  {
    date := NoDate;
    var j := 2;
    while j < |columns|
      invariant 2 <= j
      invariant date == NoDate
      invariant DateFrom(columns, j) == DateOf(columns)
    {
      var text := Strip(columns[j].text);
      if IsDateText(text) {
        date := text;
        break;
      }
      j := j + 1;
    }
  }

  // ---------------------------------------------------------------
  // Rows
  // ---------------------------------------------------------------

  /** The message `str(e)` of the `KeyError` raised by `link_tag['href']` when the anchor has no href. */
  const HrefError: string := "'href'"

  /**
   * The anchor of a row with at least two cells: the second cell's; the
   * third cell is looked at only when the second has none and it exists.
   */
  function PickAnchor(columns: Row): (a: Option<Anchor>)
    requires |columns| >= 2
    ensures columns[1].anchor.Some? || |columns| == 2 ==> a == columns[1].anchor
    ensures a.Some? ==> a == columns[1].anchor || (|columns| > 2 && a == columns[2].anchor)
  {
    if columns[1].anchor.None? && |columns| > 2 then columns[2].anchor else columns[1].anchor
  }

  /** What one row does in the extraction loop. */
  datatype RowOutcome =
    | Short              // fewer than two cells: skipped before the limit check
    | NoAnchor           // no anchor in the title cell(s): nothing appended
    | MissingHref        // the anchor has no href: the KeyError ends the whole call
    | Emitted(notice: Notice)

  /** A notice as extraction builds it: normalized title, absolute-or-foreign link, date or sentinel. */
  predicate WellFormedNotice(n: Notice)
  {
    && Normalized(n.title)
    && (n.link == [] || n.link[0] != '/')
    && (n.date == NoDate || IsDateText(n.date))
  }

  function Classify(columns: Row): (outcome: RowOutcome)
    ensures outcome.Emitted? ==> WellFormedNotice(outcome.notice)
  {
    if |columns| < 2 then Short
    else match PickAnchor(columns)
      case None => NoAnchor
      case Some(a) =>
        match a.href
        case None => MissingHref
        case Some(href) =>
          var title := NormalizeWhitespace(a.text);
          assert Normalized(title);
          Emitted(Notice(DateOf(columns), title, AbsoluteLink(href)))
  }

  /** What each row does, in row order. */
  function Outcomes(rows: seq<Row>): (outcomes: seq<RowOutcome>)
    ensures |outcomes| == |rows|
    ensures forall k :: 0 <= k < |rows| ==> outcomes[k] == Classify(rows[k])
  {
    if rows == [] then [] else [Classify(rows[0])] + Outcomes(rows[1..])
  }

  /**
   * The extraction loop over the row outcomes from some row on, with `acc`
   * already collected: a short row is passed over without a limit check; any
   * other row is processed and then the loop stops once the count reaches
   * `limit`.
   */
  function ExtractFrom(outcomes: seq<RowOutcome>, limit: int, acc: seq<Notice>): (r: Result<seq<Notice>, string>)
    ensures r.Err? ==> r.error == HrefError
    decreases |outcomes|
  {
    if outcomes == [] then Ok(acc)
    else
      match outcomes[0]
      case Short => ExtractFrom(outcomes[1..], limit, acc)
      case MissingHref => Err(HrefError)
      case NoAnchor =>
        if |acc| >= limit then Ok(acc) else ExtractFrom(outcomes[1..], limit, acc)
      case Emitted(n) =>
        if |acc| + 1 >= limit then Ok(acc + [n]) else ExtractFrom(outcomes[1..], limit, acc + [n])
  }

  /** The notices of the rows, or the message of the error that ended the loop. */
  function Extract(rows: seq<Row>, limit: int): (r: Result<seq<Notice>, string>)
    ensures r.Err? ==> r.error == HrefError
  {
    ExtractFrom(Outcomes(rows), limit, [])
  }

  /**
   * The body of the row loop for a row with at least two cells: find the
   * anchor in the second cell, else the third; read its text, then its
   * href, then the date.
   */
  method ReadRow(columns: Row) returns (outcome: RowOutcome)
    requires |columns| >= 2
    ensures outcome == Classify(columns)
  {
    var titleCol := columns[1];
    var linkTag := titleCol.anchor;
    if linkTag.None? && |columns| > 2 {
      titleCol := columns[2];
      linkTag := titleCol.anchor;
    }
    if linkTag.None? {
      return NoAnchor;
    }
    var title := NormalizeWhitespace(linkTag.value.text);
    if linkTag.value.href.None? {
      return MissingHref;
    }
    var link := AbsoluteLink(linkTag.value.href.value);
    var date := FindDate(columns);
    return Emitted(Notice(date, title, link));
  }

  /** The row loop of `get_mju_notices`. */
  method CollectNotices(rows: seq<Row>, limit: int) returns (result: Result<seq<Notice>, string>)
    ensures result == Extract(rows, limit)
  {
    var notices: seq<Notice> := [];
    var i := 0;
    while i < |rows|
      invariant 0 <= i <= |rows|
      invariant ExtractFrom(Outcomes(rows[i..]), limit, notices) == Extract(rows, limit)
    {
      assert rows[i..][0] == rows[i] && rows[i..][1..] == rows[i + 1..];
      var columns := rows[i];
      if |columns| < 2 {
        i := i + 1;
        continue;
      }
      var outcome := ReadRow(columns);
      if outcome.MissingHref? {
        return Err(HrefError);
      }
      if outcome.Emitted? {
        notices := notices + [outcome.notice];
      }
      if |notices| >= limit {
        break;
      }
      i := i + 1;
    }
    return Ok(notices);
  }

  // ---------------------------------------------------------------
  // The reply
  // ---------------------------------------------------------------

  const ErrorPrefix: string := "에러 발생: "

  /** One entry: a "- [date] title" line and an indented link line. */
  function Entry(n: Notice): string
  {
    "- [" + n.date + "] " + n.title + "\n  (링크: " + n.link + ")"
  }

  function Entries(notices: seq<Notice>): (entries: seq<string>)
    ensures |entries| == |notices|
    ensures forall k :: 0 <= k < |notices| ==> entries[k] == Entry(notices[k])
  {
    if notices == [] then [] else [Entry(notices[0])] + Entries(notices[1..])
  }

  /** The reply when no notice was extracted: it names the board and the URL tried. */
  function NotFoundMessage(boardName: string, url: string): (m: string)
    ensures |m| > 0 && m[0] == '\''
    ensures Contains(m, boardName) && Contains(m, url)
  {
    var m := "'" + boardName + "'에서 공지사항을 찾지 못했습니다. (URL: " + url + ")";
    assert OccursAt(m, boardName, 1);
    assert OccursAt(m, url, |m| - |url| - 1);
    m
  }

  /** The first line of a listing: the board and the count in decimal. */
  function Header(boardName: string, count: nat): (h: string)
    ensures |h| > 0 && h[0] == '명' && Contains(h, boardName)
    ensures '\n' !in boardName ==> '\n' !in h
  {
    var h := "명지대학교 " + boardName + " 최신 목록입니다 (" + Decimal(count) + "개):";
    assert OccursAt(h, boardName, 6);
    assert '\n' !in Decimal(count);
    h
  }

  /** The reply for a successful extraction: the "not found" message exactly when there is no notice. */
  function Render(boardName: string, url: string, notices: seq<Notice>): (r: string)
    ensures r == NotFoundMessage(boardName, url) <==> notices == []
    ensures Contains(r, boardName)
  {
    if notices == [] then NotFoundMessage(boardName, url)
    else
      var h := Header(boardName, |notices|);
      var body := Join("\n", Entries(notices));
      ContainsAppend(h, "\n\n" + body, boardName);
      assert h + "\n\n" + body == h + ("\n\n" + body);
      h + "\n\n" + body
  }

  /**
   * The whole reply of `get_mju_notices(categoryCode, limit)` for the page
   * its fetch produced: an error message, or a text naming the board the
   * hint resolved to.
   */
  function Reply(categoryCode: string, limit: int, page: Page): (r: string)
    ensures page.Fetched? && Extract(page.rows, limit).Ok?
            ==> Contains(r, BoardName(Resolve(Strip(categoryCode))))
  {
    var code := Resolve(Strip(categoryCode));
    match page
    case FetchFailed(reason) => ErrorPrefix + reason
    case Fetched(rows) =>
      match Extract(rows, limit)
      case Err(e) => ErrorPrefix + e
      case Ok(notices) => Render(BoardName(code), Url(code), notices)
  }

  /** `get_mju_notices`: resolve, fetch (given), extract, format; every failure becomes a reply. */
  method GetMjuNotices(categoryCode: string, limit: int, page: Page) returns (reply: string)
    ensures reply == Reply(categoryCode, limit, page)
  {
    var code := ResolveCategory(categoryCode);
    var boardName := BoardName(code);
    var url := Url(code);
    match page {
      case FetchFailed(reason) =>
        reply := ErrorPrefix + reason;
      case Fetched(rows) =>
        var extracted := CollectNotices(rows, limit);
        match extracted {
          case Err(e) =>
            reply := ErrorPrefix + e;
          case Ok(notices) =>
            if notices == [] {
              reply := NotFoundMessage(boardName, url);
            } else {
              var resultText := Join("\n", Entries(notices));
              reply := Header(boardName, |notices|) + "\n\n" + resultText;
            }
        }
    }
  }
}
