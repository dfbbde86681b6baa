/**
 * Worked instances of the crawler's behaviour on small pages.
 */
module CrawlerExamples {
  import opened Wrappers
  import opened PyText
  import opened Crawler
  import opened CrawlerProperties

  lemma SplitSpaceFirst(c: char, s: string)
    requires IsSpace(c)
    ensures Split([c] + s) == Split(s)
  {
    assert ([c] + s)[1..] == s;
  }

  lemma SplitWordThen(w: string, c: char, s: string)
    requires w != [] && NoSpace(w) && IsSpace(c)
    ensures Split(w + [c] + s) == [w] + Split(s)
  {
    var t := w + [c] + s;
    WordOfPrefix(w, [c] + s);
    assert t == w + ([c] + s);
    assert t[|w|..] == [c] + s;
    SplitSpaceFirst(c, s);
  }

  lemma SplitOneWord(w: string)
    requires w != [] && NoSpace(w)
    ensures Split(w) == [w]
  {
    WordOfPrefix(w, []);
    assert w + [] == w;
    assert w[|w|..] == [];
  }

  lemma TitleLayout(a: string, b: string)
    ensures "  " + a + "\n  " + b + " " == [' '] + ([' '] + (a + ['\n'] + ([' '] + ([' '] + (b + [' '] + [])))))
  {
  }

  lemma TitleLinesSplit(a: string, b: string)
    requires a != [] && NoSpace(a) && b != [] && NoSpace(b)
    ensures Split("  " + a + "\n  " + b + " ") == [a, b]
  {
    var s := "  " + a + "\n  " + b + " ";
    var t4 := b + [' '] + [];
    var t3 := [' '] + t4;
    var t2 := [' '] + t3;
    var t1 := a + ['\n'] + t2;
    TitleLayout(a, b);
    SplitSpaceFirst(' ', [' '] + t1);
    SplitSpaceFirst(' ', t1);
    assert Split(s) == Split(t1);
    SplitWordThen(a, '\n', t2);
    SplitSpaceFirst(' ', t3);
    SplitSpaceFirst(' ', t4);
    assert Split(t2) == Split(t4);
    SplitWordThen(b, ' ', []);
    assert Split(t4) == [b];
    assert Split(s) == [a] + [b];
  }

  /**
   * A title the page's markup indents and breaks over two lines reads as
   * its two words joined by one space.
   */
  lemma TitleLinesJoined(a: string, b: string)
    requires a != [] && NoSpace(a) && b != [] && NoSpace(b)
    ensures NormalizeWhitespace("  " + a + "\n  " + b + " ") == a + " " + b
  {
    TitleLinesSplit(a, b);
    var r := a + " " + b;
    assert r == a + [' '] + b;
    SplitWordThen(a, ' ', b);
    SplitOneWord(b);
    JoinWordsShape([a, b]);
    assert Join(" ", [a, b]) == r;
    NormalizeUnique("  " + a + "\n  " + b + " ", r);
  }

  /** A site-relative link gets the site root; an absolute one is kept. */
  lemma LinksMadeAbsolute()
    ensures AbsoluteLink("/bbs/mjukr/141/1.do") == "https://www.mju.ac.kr/bbs/mjukr/141/1.do"
    ensures AbsoluteLink("https://example.org/a") == "https://example.org/a"
  {
    assert "https://example.org/a"[0] == 'h';
  }

  function TextCell(text: string): Cell
  {
    Cell(text, None)
  }

  /** A row as the notice board lays it out: number, linked title, date. */
  function NoticeRow(title: string, href: string, date: string): Row
  {
    [TextCell("1"), Cell(title, Some(Anchor(title, Some(href)))), TextCell(date)]
  }

  lemma StripKeeps(s: string)
    requires s != [] && !IsSpace(s[0]) && !IsSpace(s[|s| - 1])
    ensures Strip(s) == s
  {
  }

  /** A dotted date in the third cell is taken; a dashed one is not a date. */
  lemma DateCells(dotted: string, dashed: string)
    requires dotted == "2024.03.15" && dashed == "2024-03-15"
    ensures DateOf([TextCell("1"), TextCell("t"), TextCell(dotted)]) == dotted
    ensures DateOf([TextCell("1"), TextCell("t"), TextCell(dashed)]) == NoDate
  {
    StripKeeps(dotted);
    StripKeeps(dashed);
    assert dotted[4] == '.';
    assert '.' !in dashed;
    var cells := [TextCell("1"), TextCell("t"), TextCell(dashed)];
    assert DateFrom(cells, 3) == NoDate;
  }

  /** A row whose title is already normalized and whose date cell is a bare date. */
  lemma ClassifyNoticeRow(title: string, href: string, date: string)
    requires Normalized(title) && IsDateText(date) && !IsSpace(date[0]) && !IsSpace(date[9])
    ensures Classify(NoticeRow(title, href, date)) == Emitted(Notice(date, title, AbsoluteLink(href)))
  {
    NormalizeFixesNormalized(title);
    StripKeeps(date);
  }

  predicate Listed(title: string, date: string)
  {
    Normalized(title) && IsDateText(date) && !IsSpace(date[0]) && !IsSpace(date[9])
  }

  /**
   * Three notice rows after a header row: limit 2 takes the first two in
   * page order and skips the header row.
   */
  lemma LimitTwo(t1: string, t2: string, t3: string, d1: string, d2: string, d3: string, h1: string, h2: string, h3: string)
    requires Listed(t1, d1) && Listed(t2, d2) && Listed(t3, d3)
    ensures var rows := [[TextCell("번호")], NoticeRow(t1, h1, d1), NoticeRow(t2, h2, d2), NoticeRow(t3, h3, d3)];
            Extract(rows, 2)
            == Ok([Notice(d1, t1, AbsoluteLink(h1)), Notice(d2, t2, AbsoluteLink(h2))])
  {
    var rows := [[TextCell("번호")], NoticeRow(t1, h1, d1), NoticeRow(t2, h2, d2), NoticeRow(t3, h3, d3)];
    ClassifyNoticeRow(t1, h1, d1);
    ClassifyNoticeRow(t2, h2, d2);
    ClassifyNoticeRow(t3, h3, d3);
    var o := Outcomes(rows);
    var n1, n2 := Notice(d1, t1, AbsoluteLink(h1)), Notice(d2, t2, AbsoluteLink(h2));
    assert o[0] == Short && o[1] == Emitted(n1) && o[2] == Emitted(n2);
    assert o[1..][0] == o[1] && o[1..][1..] == o[2..] && o[2..][0] == o[2];
    assert ExtractFrom(o, 2, []) == ExtractFrom(o[1..], 2, []);
    assert [] + [n1] == [n1];
    assert ExtractFrom(o[1..], 2, []) == ExtractFrom(o[2..], 2, [n1]);
    assert ExtractFrom(o[2..], 2, [n1]) == Ok([n1] + [n2]);
    assert [n1] + [n2] == [n1, n2];
    assert Extract(rows, 2) == ExtractFrom(o, 2, []);
  }

  /** A limit of 0 still lets the first row's notice through: the limit check follows the append. */
  lemma LimitZeroStillEmitsOne(t1: string, t2: string, d1: string, d2: string, h1: string, h2: string)
    requires Listed(t1, d1) && Listed(t2, d2)
    ensures Extract([NoticeRow(t1, h1, d1), NoticeRow(t2, h2, d2)], 0)
            == Ok([Notice(d1, t1, AbsoluteLink(h1))])
  {
    var rows := [NoticeRow(t1, h1, d1), NoticeRow(t2, h2, d2)];
    ClassifyNoticeRow(t1, h1, d1);
    var o := Outcomes(rows);
    var n1 := Notice(d1, t1, AbsoluteLink(h1));
    assert o[0] == Emitted(n1);
    assert ExtractFrom(o, 0, []) == Ok([] + [n1]);
    assert [] + [n1] == [n1];
  }

  /** With a limit of 0, a first row without an anchor stops the loop before any notice is appended. */
  lemma LimitZeroAnchorlessFirstRow(t: string, d: string, h: string)
    ensures Extract([[TextCell("공지"), TextCell("고정")], NoticeRow(t, h, d)], 0) == Ok([])
  {
    var rows := [[TextCell("공지"), TextCell("고정")], NoticeRow(t, h, d)];
    var o := Outcomes(rows);
    assert o[0] == NoAnchor;
  }

  /** A listing cut off at the limit never reaches a later anchor without an href. */
  lemma LimitReachedBeforeMissingHref(t1: string, d1: string, h1: string)
    requires Listed(t1, d1)
    ensures Extract([NoticeRow(t1, h1, d1), [TextCell("9"), Cell("x", Some(Anchor("x", None)))]], 1)
            == Ok([Notice(d1, t1, AbsoluteLink(h1))])
  {
    var rows := [NoticeRow(t1, h1, d1), [TextCell("9"), Cell("x", Some(Anchor("x", None)))]];
    ClassifyNoticeRow(t1, h1, d1);
    var o := Outcomes(rows);
    var n1 := Notice(d1, t1, AbsoluteLink(h1));
    assert o[0] == Emitted(n1);
    assert ExtractFrom(o, 1, []) == Ok([] + [n1]);
    assert [] + [n1] == [n1];
  }

  /** An anchor without an href ends the whole call with the key error, even after a notice was found. */
  lemma MissingHrefAborts(t1: string, d1: string, h1: string)
    requires Listed(t1, d1)
    ensures Extract([NoticeRow(t1, h1, d1), [TextCell("9"), Cell("x", Some(Anchor("x", None)))]], 8)
            == Err(HrefError)
  {
    var rows := [NoticeRow(t1, h1, d1), [TextCell("9"), Cell("x", Some(Anchor("x", None)))]];
    ClassifyNoticeRow(t1, h1, d1);
    var o := Outcomes(rows);
    var n1 := Notice(d1, t1, AbsoluteLink(h1));
    assert o[0] == Emitted(n1) && o[1] == MissingHref;
    assert o[1..][0] == o[1];
    assert ExtractFrom(o, 8, []) == ExtractFrom(o[1..], 8, [n1]);
  }

  /** A key at least as long as the text occurs in it only when it is the text. */
  lemma LongKeyAbsent(clean: string, key: string)
    requires |key| >= |clean| && key != clean
    ensures !Contains(clean, key)
  {
    forall i ensures !OccursAt(clean, key, i) {
      if 0 <= i && i + |key| <= |clean| {
        assert i == 0 && |key| == |clean|;
        assert clean[0..|clean|] == clean;
      }
    }
  }

  /** "장학" matches no earlier key and resolves to the scholarship board. */
  lemma ScholarshipHintResolves()
    ensures Resolve(Strip("장학")) == "259"
  {
    var clean := "장학";
    assert Strip(clean) == clean by {
      assert TrimStart(clean) == clean;
      assert TrimEnd(clean) == clean;
    }
    forall j | 0 <= j < 9 ensures !Contains(clean, Mapping[j].0) {
      LongKeyAbsent(clean, Mapping[j].0);
    }
    assert OccursAt(clean, "장학", 0);
    FirstMatchPicksFirstKey(Mapping, clean, 9);
  }

  /** The scholarship board's name and address. */
  lemma ScholarshipBoard()
    ensures BoardName("259") == "장학공지"
    ensures Url("259") == "https://www.mju.ac.kr/mjukr/259/subview.do"
  {
  }

  /** An empty page gives the "not found" reply naming the board and the URL the hint resolved to. */
  lemma EmptyPageNotFound()
    ensures Reply("장학", 8, Fetched([])) == NotFoundMessage(BoardName("259"), Url("259"))
  {
    ScholarshipHintResolves();
    assert Extract([], 8) == Ok([]);
  }
}
