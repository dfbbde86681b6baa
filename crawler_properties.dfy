/**
 * What `get_mju_notices` guarantees, stated over the model in `Crawler`:
 * first-match resolution, the date heuristic, the bound and the order of the
 * extracted notices, the error path of an anchor without href, and the shape
 * of the reply text.
 */
module CrawlerProperties {
  import opened Wrappers
  import opened PyText
  import opened Crawler

  // ---------------------------------------------------------------
  // Resolution
  // ---------------------------------------------------------------

  /** The value of the first key, in table order, that occurs in the hint wins. */
  lemma {:induction false} FirstMatchPicksFirstKey(table: seq<(string, string)>, clean: string, i: nat)
    requires i < |table| && Contains(clean, table[i].0)
    requires forall j :: 0 <= j < i ==> !Contains(clean, table[j].0)
    ensures FirstMatch(table, clean) == table[i].1
  {
    if i > 0 {
      assert !Contains(clean, table[0].0);
      forall j | 0 <= j < i - 1 ensures !Contains(clean, table[1..][j].0) {
        assert table[1..][j] == table[j + 1];
      }
      FirstMatchPicksFirstKey(table[1..], clean, i - 1);
    }
  }

  /** With no key occurring in the hint, the default code is used. */
  lemma {:induction false} FirstMatchDefault(table: seq<(string, string)>, clean: string)
    requires forall j :: 0 <= j < |table| ==> !Contains(clean, table[j].0)
    ensures FirstMatch(table, clean) == DefaultCode
  {
    if table != [] {
      assert !Contains(clean, table[0].0);
      forall j | 0 <= j < |table| - 1 ensures !Contains(clean, table[1..][j].0) {
        assert table[1..][j] == table[j + 1];
      }
      FirstMatchDefault(table[1..], clean);
    }
  }

  /**
   * A hint containing key `i` resolves to the value of key `i` or of a key
   * declared before it that the hint also contains, never to a later one.
   */
  lemma {:induction false} FirstMatchNoLaterThan(table: seq<(string, string)>, clean: string, i: nat)
    requires i < |table| && Contains(clean, table[i].0)
    ensures exists j :: 0 <= j <= i && Contains(clean, table[j].0) && FirstMatch(table, clean) == table[j].1
  {
    if Contains(clean, table[0].0) {
      assert FirstMatch(table, clean) == table[0].1;
    } else {
      assert i > 0;
      assert table[1..][i - 1] == table[i];
      FirstMatchNoLaterThan(table[1..], clean, i - 1);
      var j :| 0 <= j <= i - 1 && Contains(clean, table[1..][j].0) && FirstMatch(table[1..], clean) == table[1..][j].1;
      assert table[1..][j] == table[j + 1];
    }
  }

  /** A key whose first character does not occur in the hint does not occur in it. */
  lemma FirstCharAbsent(clean: string, key: string)
    requires key != [] && key[0] !in clean
    ensures !Contains(clean, key)
  {
    forall i | 0 <= i && i + |key| <= |clean| ensures !OccursAt(clean, key, i) {
      assert clean[i..i + |key|][0] == clean[i];
    }
  }

  /** "학사 공지" names both the academic and the general board; "공지" is declared first. */
  lemma AcademicNoticeResolvesToGeneral()
    ensures Resolve(Strip("학사 공지")) == "255"
  {
    var clean := "학사 공지";
    assert Strip(clean) == clean by {
      assert TrimStart(clean) == clean;
      assert TrimEnd(clean) == clean;
    }
    assert forall k :: 0 <= k < |clean| ==> clean[k] != '일';
    FirstCharAbsent(clean, Mapping[0].0);
    assert OccursAt(clean, "공지", 3);
    FirstMatchPicksFirstKey(Mapping, clean, 1);
  }

  /** A numeric hint resolves by substring: "2570" contains "257" but not "255". */
  lemma NumericHintResolvesBySubstring()
    ensures Resolve(Strip("2570")) == "257"
  {
    var clean := "2570";
    assert Strip(clean) == clean by {
      assert TrimStart(clean) == clean;
      assert TrimEnd(clean) == clean;
    }
    forall j | 0 <= j < 8 ensures !Contains(clean, Mapping[j].0) {
      forall i ensures !OccursAt(clean, Mapping[j].0, i) {
        if 0 <= i && i + |Mapping[j].0| <= |clean| {
          assert clean[i] != Mapping[j].0[0] || clean[i + 1] != Mapping[j].0[1]
                 || (|Mapping[j].0| > 2 && clean[i + 2] != Mapping[j].0[2]);
        }
      }
    }
    assert OccursAt(clean, "257", 0);
    FirstMatchPicksFirstKey(Mapping, clean, 8);
  }

  // ---------------------------------------------------------------
  // Dates
  // ---------------------------------------------------------------

  /** The date is the stripped text of the first cell at index 2 or later that looks like a date. */
  lemma {:induction false} DateFromFirst(columns: Row, from: nat, j: nat)
    requires from <= j < |columns| && IsDateText(Strip(columns[j].text))
    requires forall k :: from <= k < j ==> !IsDateText(Strip(columns[k].text))
    ensures DateFrom(columns, from) == Strip(columns[j].text)
    decreases j - from
  {
    if from < j {
      DateFromFirst(columns, from + 1, j);
    }
  }

  /** With no cell at index 2 or later looking like a date, the date is the sentinel. */
  lemma {:induction false} DateFromNone(columns: Row, from: nat)
    requires forall k :: from <= k < |columns| ==> !IsDateText(Strip(columns[k].text))
    ensures DateFrom(columns, from) == NoDate
    decreases |columns| - from
  {
    if from < |columns| {
      DateFromNone(columns, from + 1);
    }
  }

  lemma DateOfIsFirstDateCell(columns: Row, j: nat)
    requires 2 <= j < |columns| && IsDateText(Strip(columns[j].text))
    requires forall k :: 2 <= k < j ==> !IsDateText(Strip(columns[k].text))
    ensures DateOf(columns) == Strip(columns[j].text)
  {
    DateFromFirst(columns, 2, j);
  }

  lemma DateOfNoDateCell(columns: Row)
    requires forall k :: 2 <= k < |columns| ==> !IsDateText(Strip(columns[k].text))
    ensures DateOf(columns) == NoDate
  {
    DateFromNone(columns, 2);
  }

  // ---------------------------------------------------------------
  // Rows that contribute nothing
  // ---------------------------------------------------------------

  /** A row with fewer than two cells is passed over, before the limit check. */
  lemma ShortRowSkipped(row: Row)
    requires |row| < 2
    ensures Classify(row) == Short
  {
  }

  /** A row with no anchor in its second cell, nor in a third cell if there is one, contributes nothing. */
  lemma AnchorlessRowSkipped(row: Row)
    requires |row| >= 2 && row[1].anchor.None? && (|row| == 2 || row[2].anchor.None?)
    ensures Classify(row) == NoAnchor
  {
  }

  /** An anchor found in the second cell wins over one in the third. */
  lemma SecondCellAnchorFirst(row: Row, a: Anchor, href: string)
    requires |row| >= 2 && row[1].anchor == Some(a) && a.href == Some(href)
    ensures Classify(row) == Emitted(Notice(DateOf(row), NormalizeWhitespace(a.text), AbsoluteLink(href)))
  {
  }

  /** With no anchor in the second cell, the third cell's anchor is used. */
  lemma ThirdCellAnchorFallback(row: Row, a: Anchor, href: string)
    requires |row| >= 3 && row[1].anchor.None? && row[2].anchor == Some(a) && a.href == Some(href)
    ensures Classify(row) == Emitted(Notice(DateOf(row), NormalizeWhitespace(a.text), AbsoluteLink(href)))
  {
  }

  // ---------------------------------------------------------------
  // Extraction: the reference definition without a limit
  // ---------------------------------------------------------------

  /** The notices the row outcomes carry, in row order, ignoring the limit. */
  function Harvest(outcomes: seq<RowOutcome>): seq<Notice>
  {
    if outcomes == [] then []
    else (if outcomes[0].Emitted? then [outcomes[0].notice] else []) + Harvest(outcomes[1..])
  }

  /** No row has an anchor without an href. */
  predicate NoMissingHref(outcomes: seq<RowOutcome>)
  {
    forall k :: 0 <= k < |outcomes| ==> !outcomes[k].MissingHref?
  }

  /** The first `n` elements of `s`, or all of them when there are fewer (Python's `s[:n]`). */
  function Take(s: seq<Notice>, n: nat): (t: seq<Notice>)
    ensures t <= s && |t| == if |s| <= n then |s| else n
  {
    if |s| <= n then s else s[..n]
  }

  lemma {:induction false} HarvestAppend(a: seq<RowOutcome>, b: seq<RowOutcome>)
    ensures Harvest(a + b) == Harvest(a) + Harvest(b)
  {
    if a == [] {
      assert a + b == b;
    } else {
      assert (a + b)[0] == a[0] && (a + b)[1..] == a[1..] + b;
      HarvestAppend(a[1..], b);
    }
  }

  /** Every notice the rows carry is well formed. */
  lemma {:induction false} HarvestWellFormed(rows: seq<Row>)
    ensures forall k :: 0 <= k < |Harvest(Outcomes(rows))| ==> WellFormedNotice(Harvest(Outcomes(rows))[k])
  {
    if rows != [] {
      HarvestWellFormed(rows[1..]);
      assert Outcomes(rows)[1..] == Outcomes(rows[1..]);
    }
  }

  lemma NothingHarvested(outcomes: seq<RowOutcome>)
    requires outcomes != [] && !outcomes[0].Emitted?
    ensures Harvest(outcomes) == Harvest(outcomes[1..])
  {
    assert [] + Harvest(outcomes[1..]) == Harvest(outcomes[1..]);
  }

  lemma {:induction false} ExtractFromTakes(outcomes: seq<RowOutcome>, limit: int, acc: seq<Notice>)
    requires |acc| < limit
    requires NoMissingHref(outcomes)
    ensures ExtractFrom(outcomes, limit, acc) == Ok(Take(acc + Harvest(outcomes), limit))
    decreases |outcomes|
  {
    if outcomes == [] {
      assert acc + [] == acc;
    } else {
      assert !outcomes[0].MissingHref?;
      assert NoMissingHref(outcomes[1..]) by {
        forall k | 0 <= k < |outcomes| - 1 ensures !outcomes[1..][k].MissingHref? {
          assert outcomes[1..][k] == outcomes[k + 1];
        }
      }
      match outcomes[0]
      case Emitted(n) =>
        assert acc + Harvest(outcomes) == (acc + [n]) + Harvest(outcomes[1..]);
        if |acc| + 1 < limit {
          ExtractFromTakes(outcomes[1..], limit, acc + [n]);
        } else {
          var s := (acc + [n]) + Harvest(outcomes[1..]);
          assert s[..limit] == acc + [n];
          assert |s| <= limit ==> s == s[..limit];
        }
      case NoAnchor =>
        NothingHarvested(outcomes);
        ExtractFromTakes(outcomes[1..], limit, acc);
      case Short =>
        NothingHarvested(outcomes);
        ExtractFromTakes(outcomes[1..], limit, acc);
    }
  }

  /**
   * When the rows before `j` carry at least `limit` notices in all, the loop
   * stops among them: rows from `j` on, an href-less anchor among them
   * included, are never looked at.
   */
  lemma {:induction false} ExtractFromCutOff(outcomes: seq<RowOutcome>, limit: int, acc: seq<Notice>, j: nat)
    requires j <= |outcomes| && |acc| < limit
    requires NoMissingHref(outcomes[..j])
    requires |acc| + |Harvest(outcomes[..j])| >= limit
    ensures ExtractFrom(outcomes, limit, acc) == Ok(Take(acc + Harvest(outcomes[..j]), limit))
    decreases j
  {
    if j > 0 {
      var tail := outcomes[1..];
      var before := tail[..j - 1];
      assert outcomes[..j] == [outcomes[0]] + before;
      HarvestAppend([outcomes[0]], before);
      assert [outcomes[0]][1..] == [];
      assert !outcomes[..j][0].MissingHref?;
      assert NoMissingHref(before) by {
        forall k | 0 <= k < j - 1 ensures !before[k].MissingHref? {
          assert before[k] == outcomes[..j][k + 1];
        }
      }
      if outcomes[0].Emitted? {
        var n := outcomes[0].notice;
        assert acc + Harvest(outcomes[..j]) == (acc + [n]) + Harvest(before);
        if |acc| + 1 < limit {
          ExtractFromCutOff(tail, limit, acc + [n], j - 1);
        } else {
          var s := (acc + [n]) + Harvest(before);
          assert s[..limit] == acc + [n];
          assert |s| <= limit ==> s == s[..limit];
        }
      } else {
        assert acc + Harvest(outcomes[..j]) == acc + Harvest(before);
        ExtractFromCutOff(tail, limit, acc, j - 1);
      }
    }
  }

  /**
   * The whole loop for a limit not yet reached, with `j` the first row whose
   * anchor has no href (or the end): the KeyError is raised exactly when
   * fewer than `limit` notices come before row `j`; otherwise the first
   * `limit` notices of the rows before `j` are kept.
   */
  lemma ExtractFromUpToFirstMissingHref(outcomes: seq<RowOutcome>, limit: int, acc: seq<Notice>, j: nat)
    requires |acc| < limit
    requires j <= |outcomes| && NoMissingHref(outcomes[..j])
    requires j == |outcomes| || outcomes[j].MissingHref?
    ensures ExtractFrom(outcomes, limit, acc)
            == if j < |outcomes| && |acc| + |Harvest(outcomes[..j])| < limit then Err(HrefError)
               else Ok(Take(acc + Harvest(outcomes[..j]), limit))
  {
    if j < |outcomes| && |acc| + |Harvest(outcomes[..j])| < limit {
      ExtractFromErrWhenReached(outcomes, limit, acc, j);
    } else if |acc| + |Harvest(outcomes[..j])| >= limit {
      ExtractFromCutOff(outcomes, limit, acc, j);
    } else {
      assert outcomes[..j] == outcomes;
      ExtractFromTakes(outcomes, limit, acc);
    }
  }

  /**
   * Extraction with a limit of at least one, with `j` the first row whose
   * anchor has no href (or the number of rows): it fails if and only if
   * fewer than `limit` notices come before row `j`, and otherwise keeps the
   * first `limit` notices of the rows before `j`, in row order.
   */
  lemma ExtractUpToFirstMissingHref(rows: seq<Row>, limit: int, j: nat)
    requires limit >= 1
    requires j <= |rows| && NoMissingHref(Outcomes(rows)[..j])
    requires j == |rows| || Classify(rows[j]).MissingHref?
    ensures Extract(rows, limit).Err? <==> j < |rows| && |Harvest(Outcomes(rows)[..j])| < limit
    ensures Extract(rows, limit).Ok? ==> Extract(rows, limit).value == Take(Harvest(Outcomes(rows)[..j]), limit)
  {
    ExtractFromUpToFirstMissingHref(Outcomes(rows), limit, [], j);
    assert [] + Harvest(Outcomes(rows)[..j]) == Harvest(Outcomes(rows)[..j]);
  }

  /**
   * Once the count has reached the limit, the next row with two or more
   * cells decides: its notice is appended (or the KeyError raised) and the
   * loop stops there.
   */
  lemma {:induction false} ExtractFromAtLimit(outcomes: seq<RowOutcome>, limit: int, acc: seq<Notice>, j: nat)
    requires |acc| >= limit
    requires j <= |outcomes| && forall k :: 0 <= k < j ==> outcomes[k].Short?
    requires j == |outcomes| || !outcomes[j].Short?
    ensures ExtractFrom(outcomes, limit, acc)
            == if j == |outcomes| then Ok(acc)
               else match outcomes[j]
                 case Emitted(n) => Ok(acc + [n])
                 case MissingHref => Err(HrefError)
                 case _ => Ok(acc)
    decreases j
  {
    if j > 0 {
      assert outcomes[0].Short?;
      forall k | 0 <= k < j - 1 ensures outcomes[1..][k].Short? {
        assert outcomes[1..][k] == outcomes[k + 1];
      }
      assert outcomes[1..][j - 1..] == outcomes[j..];
      ExtractFromAtLimit(outcomes[1..], limit, acc, j - 1);
      assert j - 1 < |outcomes[1..]| ==> outcomes[1..][j - 1] == outcomes[j];
    }
  }

  /**
   * With a limit of zero or below, the first row with two or more cells
   * decides the whole result: its notice alone, the KeyError, or no notice
   * when it has no anchor; short rows before it are passed over.
   */
  lemma ExtractNonPositiveLimit(rows: seq<Row>, limit: int, j: nat)
    requires limit <= 0
    requires j <= |rows| && forall k :: 0 <= k < j ==> |rows[k]| < 2
    requires j == |rows| || |rows[j]| >= 2
    ensures Extract(rows, limit)
            == if j == |rows| then Ok([])
               else match Classify(rows[j])
                 case Emitted(n) => Ok([n])
                 case MissingHref => Err(HrefError)
                 case _ => Ok([])
  {
    var outcomes := Outcomes(rows);
    ExtractFromAtLimit(outcomes, limit, [], j);
    if j < |rows| && outcomes[j].Emitted? {
      assert [] + [outcomes[j].notice] == [outcomes[j].notice];
    }
  }

  /**
   * With a limit of at least one and every processed anchor carrying an href,
   * extraction yields the first `limit` notices the rows carry, in row order.
   */
  lemma ExtractTakesFirst(rows: seq<Row>, limit: int)
    requires limit >= 1 && NoMissingHref(Outcomes(rows))
    ensures Extract(rows, limit) == Ok(Take(Harvest(Outcomes(rows)), limit))
  {
    ExtractFromTakes(Outcomes(rows), limit, []);
    assert [] + Harvest(Outcomes(rows)) == Harvest(Outcomes(rows));
  }

  /** Whatever the limit, the notices extracted are a prefix of the rows' notices in row order. */
  lemma {:induction false} ExtractFromIsPrefix(outcomes: seq<RowOutcome>, limit: int, acc: seq<Notice>)
    requires ExtractFrom(outcomes, limit, acc).Ok?
    ensures ExtractFrom(outcomes, limit, acc).value <= acc + Harvest(outcomes)
    decreases |outcomes|
  {
    if outcomes != [] {
      match outcomes[0]
      case Emitted(n) =>
        assert acc + Harvest(outcomes) == (acc + [n]) + Harvest(outcomes[1..]);
        if |acc| + 1 < limit {
          ExtractFromIsPrefix(outcomes[1..], limit, acc + [n]);
        }
      case NoAnchor =>
        NothingHarvested(outcomes);
        if |acc| < limit {
          ExtractFromIsPrefix(outcomes[1..], limit, acc);
        }
      case Short =>
        NothingHarvested(outcomes);
        ExtractFromIsPrefix(outcomes[1..], limit, acc);
      case MissingHref =>
    }
  }

  lemma ExtractIsPrefix(rows: seq<Row>, limit: int)
    requires Extract(rows, limit).Ok?
    ensures Extract(rows, limit).value <= Harvest(Outcomes(rows))
  {
    ExtractFromIsPrefix(Outcomes(rows), limit, []);
    assert [] + Harvest(Outcomes(rows)) == Harvest(Outcomes(rows));
  }

  /**
   * The count bound: at most `limit` notices for a limit of at least one, and
   * at most one for a limit of zero or below, because the first row with two
   * or more cells is processed before the limit is checked.
   */
  lemma {:induction false} ExtractFromBound(outcomes: seq<RowOutcome>, limit: int, acc: seq<Notice>)
    requires |acc| < limit || acc == []
    requires ExtractFrom(outcomes, limit, acc).Ok?
    ensures |ExtractFrom(outcomes, limit, acc).value| <= if limit >= 1 then limit else 1
    decreases |outcomes|
  {
    if outcomes != [] {
      match outcomes[0]
      case Emitted(n) =>
        if |acc| + 1 < limit {
          ExtractFromBound(outcomes[1..], limit, acc + [n]);
        }
      case NoAnchor =>
        if |acc| < limit {
          ExtractFromBound(outcomes[1..], limit, acc);
        }
      case Short =>
        ExtractFromBound(outcomes[1..], limit, acc);
      case MissingHref =>
    }
  }

  lemma ExtractBound(rows: seq<Row>, limit: int)
    requires Extract(rows, limit).Ok?
    ensures |Extract(rows, limit).value| <= if limit >= 1 then limit else 1
  {
    ExtractFromBound(Outcomes(rows), limit, []);
  }

  /** Extraction fails only on an anchor without href, and then with the KeyError's message. */
  lemma {:induction false} ExtractFromErr(outcomes: seq<RowOutcome>, limit: int, acc: seq<Notice>)
    requires ExtractFrom(outcomes, limit, acc).Err?
    ensures ExtractFrom(outcomes, limit, acc).error == HrefError
    ensures !NoMissingHref(outcomes)
    decreases |outcomes|
  {
    assert outcomes != [];
    if !outcomes[0].MissingHref? {
      if outcomes[0].Emitted? {
        ExtractFromErr(outcomes[1..], limit, acc + [outcomes[0].notice]);
      } else {
        ExtractFromErr(outcomes[1..], limit, acc);
      }
      var k :| 0 <= k < |outcomes[1..]| && outcomes[1..][k].MissingHref?;
      assert outcomes[1..][k] == outcomes[k + 1];
    }
  }

  lemma ExtractErrOnlyOnMissingHref(rows: seq<Row>, limit: int)
    requires Extract(rows, limit).Err?
    ensures Extract(rows, limit).error == HrefError && !NoMissingHref(Outcomes(rows))
  {
    ExtractFromErr(Outcomes(rows), limit, []);
  }

  /**
   * Conversely, an anchor without href in row `j` makes the whole extraction
   * fail when the loop reaches it: no earlier row failed and fewer than
   * `limit` notices came before it.
   */
  lemma {:induction false} ExtractFromErrWhenReached(outcomes: seq<RowOutcome>, limit: int, acc: seq<Notice>, j: nat)
    requires j < |outcomes| && outcomes[j].MissingHref?
    requires NoMissingHref(outcomes[..j])
    requires |acc| + |Harvest(outcomes[..j])| < limit
    ensures ExtractFrom(outcomes, limit, acc) == Err(HrefError)
    decreases j
  {
    if j > 0 {
      var tail := outcomes[1..];
      assert outcomes[..j] == [outcomes[0]] + tail[..j - 1];
      HarvestAppend([outcomes[0]], tail[..j - 1]);
      assert !outcomes[..j][0].MissingHref?;
      var before := tail[..j - 1];
      assert NoMissingHref(before) by {
        forall k | 0 <= k < j - 1 ensures !before[k].MissingHref? {
          assert before[k] == outcomes[..j][k + 1];
        }
      }
      assert tail[j - 1] == outcomes[j];
      if outcomes[0].Emitted? {
        ExtractFromErrWhenReached(tail, limit, acc + [outcomes[0].notice], j - 1);
      } else {
        ExtractFromErrWhenReached(tail, limit, acc, j - 1);
      }
    }
  }

  lemma ExtractErrWhenReached(rows: seq<Row>, limit: int, j: nat)
    requires j < |rows| && Classify(rows[j]).MissingHref?
    requires NoMissingHref(Outcomes(rows)[..j])
    requires |Harvest(Outcomes(rows)[..j])| < limit
    ensures Extract(rows, limit) == Err(HrefError)
  {
    ExtractFromErrWhenReached(Outcomes(rows), limit, [], j);
  }

  /** Every notice extracted is well formed. */
  lemma ExtractWellFormed(rows: seq<Row>, limit: int)
    requires Extract(rows, limit).Ok?
    ensures forall k :: 0 <= k < |Extract(rows, limit).value| ==> WellFormedNotice(Extract(rows, limit).value[k])
  {
    ExtractIsPrefix(rows, limit);
    HarvestWellFormed(rows);
    var ns := Extract(rows, limit).value;
    forall k | 0 <= k < |ns| ensures WellFormedNotice(ns[k]) {
      assert ns[k] == Harvest(Outcomes(rows))[k];
    }
  }

  // ---------------------------------------------------------------
  // The reply
  // ---------------------------------------------------------------

  /** The first line of an entry: date and title. */
  function TitleLine(n: Notice): string
  {
    "- [" + n.date + "] " + n.title
  }

  /** The second line of an entry: the link. */
  function LinkLine(n: Notice): string
  {
    "  (링크: " + n.link + ")"
  }

  lemma EntryIsTwoLines(n: Notice)
    ensures Entry(n) == TitleLine(n) + "\n" + LinkLine(n)
  {
  }

  /** The lines of the entries, two per notice. */
  function EntryLines(notices: seq<Notice>): (lines: seq<string>)
    ensures |lines| == 2 * |notices|
  {
    if notices == [] then []
    else [TitleLine(notices[0]), LinkLine(notices[0])] + EntryLines(notices[1..])
  }

  lemma JoinCons(sep: string, x: string, xs: seq<string>)
    requires xs != []
    ensures Join(sep, [x] + xs) == x + sep + Join(sep, xs)
  {
    assert ([x] + xs)[1..] == xs;
  }

  /** Joining the entries with newlines is joining their lines with newlines. */
  lemma {:induction false} JoinEntriesAsLines(notices: seq<Notice>)
    requires notices != []
    ensures Join("\n", Entries(notices)) == Join("\n", EntryLines(notices))
  {
    var n, rest := notices[0], notices[1..];
    var l1, l2 := TitleLine(n), LinkLine(n);
    EntryIsTwoLines(n);
    assert Entries(notices) == [Entry(n)] + Entries(rest);
    assert EntryLines(notices) == [l1] + ([l2] + EntryLines(rest));
    if rest == [] {
      assert Entries(notices) == [Entry(n)];
      assert EntryLines(notices) == [l1] + [l2];
      JoinCons("\n", l1, [l2]);
    } else {
      JoinEntriesAsLines(rest);
      JoinCons("\n", Entry(n), Entries(rest));
      JoinCons("\n", l2, EntryLines(rest));
      JoinCons("\n", l1, [l2] + EntryLines(rest));
    }
  }

  /** A notice whose date and link are single lines; its title always is. */
  predicate SingleLineNotice(n: Notice)
  {
    '\n' !in n.date && '\n' !in n.link
  }

  lemma NormalizedIsSingleLine(s: string)
    requires Normalized(s)
    ensures '\n' !in s
  {
    if '\n' in s {
      var i :| 0 <= i < |s| && s[i] == '\n';
      assert IsSpace(s[i]);
    }
  }

  lemma {:induction false} EntryLinesSingle(notices: seq<Notice>)
    requires forall k :: 0 <= k < |notices| ==> WellFormedNotice(notices[k]) && SingleLineNotice(notices[k])
    ensures forall k :: 0 <= k < |EntryLines(notices)| ==> '\n' !in EntryLines(notices)[k]
  {
    if notices != [] {
      NormalizedIsSingleLine(notices[0].title);
      EntryLinesSingle(notices[1..]);
      var rest := EntryLines(notices[1..]);
      var lines := EntryLines(notices);
      forall k | 0 <= k < |lines| ensures '\n' !in lines[k] {
        if k >= 2 {
          assert lines[k] == rest[k - 2];
        }
      }
    }
  }

  lemma JoinAfterBlankLine(first: string, lines: seq<string>)
    requires lines != []
    ensures Join("\n", [first, ""] + lines) == first + "\n\n" + Join("\n", lines)
  {
    JoinCons("\n", "", lines);
    JoinCons("\n", first, [""] + lines);
    assert [first, ""] + lines == [first] + ([""] + lines);
    assert first + "\n" + ("" + "\n" + Join("\n", lines)) == first + "\n\n" + Join("\n", lines);
  }

  /** A listing is its header, an empty line and the entry lines, joined by newlines. */
  lemma RenderAsJoin(boardName: string, url: string, notices: seq<Notice>)
    requires notices != []
    ensures Render(boardName, url, notices)
            == Join("\n", [Header(boardName, |notices|), ""] + EntryLines(notices))
  {
    JoinEntriesAsLines(notices);
    JoinAfterBlankLine(Header(boardName, |notices|), EntryLines(notices));
  }

  lemma SingleLinesAfterHeader(first: string, lines: seq<string>)
    requires '\n' !in first
    requires forall k :: 0 <= k < |lines| ==> '\n' !in lines[k]
    ensures forall k :: 0 <= k < |[first, ""] + lines| ==> '\n' !in ([first, ""] + lines)[k]
  {
    var parts := [first, ""] + lines;
    forall k | 0 <= k < |parts| ensures '\n' !in parts[k] {
      if k >= 2 {
        assert parts[k] == lines[k - 2];
      }
    }
  }

  /**
   * A listing reads line by line as: the header naming the board and the
   * count, an empty line, then two lines per notice in extraction order.
   */
  lemma ListingLines(boardName: string, url: string, notices: seq<Notice>)
    requires notices != [] && '\n' !in boardName
    requires forall k :: 0 <= k < |notices| ==> WellFormedNotice(notices[k]) && SingleLineNotice(notices[k])
    ensures SplitOn('\n', Render(boardName, url, notices)) == [Header(boardName, |notices|), ""] + EntryLines(notices)
    ensures DecimalValue(Decimal(|notices|)) == |notices|
  {
    var header := Header(boardName, |notices|);
    var lines := EntryLines(notices);
    RenderAsJoin(boardName, url, notices);
    EntryLinesSingle(notices);
    SingleLinesAfterHeader(header, lines);
    SplitOnJoin('\n', [header, ""] + lines);
    DecimalRoundTrip(|notices|);
  }

  /** An error reply, and only an error reply, starts with the error prefix. */
  lemma ReplyErrorIff(categoryCode: string, limit: int, page: Page)
    ensures ErrorPrefix <= Reply(categoryCode, limit, page)
            <==> page.FetchFailed? || Extract(page.rows, limit).Err?
  {
    var reply := Reply(categoryCode, limit, page);
    if page.Fetched? && Extract(page.rows, limit).Ok? {
      var code := Resolve(Strip(categoryCode));
      var notices := Extract(page.rows, limit).value;
      assert reply == Render(BoardName(code), Url(code), notices);
      if notices == [] {
        assert reply[0] == '\'';
      } else {
        assert reply[0] == Header(BoardName(code), |notices|)[0];
      }
      assert ErrorPrefix[0] == '에';
    }
  }

  /** Rows that carry no notice and no href-less anchor leave the collected notices as they are. */
  lemma {:induction false} ExtractFromNothing(outcomes: seq<RowOutcome>, limit: int, acc: seq<Notice>)
    requires Harvest(outcomes) == [] && NoMissingHref(outcomes)
    ensures ExtractFrom(outcomes, limit, acc) == Ok(acc)
    decreases |outcomes|
  {
    if outcomes != [] {
      assert !outcomes[0].Emitted?;
      assert !outcomes[0].MissingHref?;
      NothingHarvested(outcomes);
      assert NoMissingHref(outcomes[1..]) by {
        forall k | 0 <= k < |outcomes| - 1 ensures !outcomes[1..][k].MissingHref? {
          assert outcomes[1..][k] == outcomes[k + 1];
        }
      }
      ExtractFromNothing(outcomes[1..], limit, acc);
    }
  }

  /** A page with no notice in it gives the "not found" reply, which names the URL tried. */
  lemma NoNoticesNotFound(categoryCode: string, limit: int, rows: seq<Row>)
    requires Harvest(Outcomes(rows)) == [] && NoMissingHref(Outcomes(rows))
    ensures var code := Resolve(Strip(categoryCode));
            Reply(categoryCode, limit, Fetched(rows)) == NotFoundMessage(BoardName(code), Url(code))
  {
    ExtractFromNothing(Outcomes(rows), limit, []);
  }

  /**
   * A successful, non-empty extraction gives a reply whose lines are the
   * header for the resolved board, an empty line and the entry lines.
   */
  lemma ReplyListing(categoryCode: string, limit: int, rows: seq<Row>)
    requires Extract(rows, limit).Ok? && Extract(rows, limit).value != []
    requires forall k :: 0 <= k < |Extract(rows, limit).value| ==> SingleLineNotice(Extract(rows, limit).value[k])
    ensures var code := Resolve(Strip(categoryCode));
            var notices := Extract(rows, limit).value;
            SplitOn('\n', Reply(categoryCode, limit, Fetched(rows)))
            == [Header(BoardName(code), |notices|), ""] + EntryLines(notices)
  {
    var code := Resolve(Strip(categoryCode));
    var notices := Extract(rows, limit).value;
    assert Reply(categoryCode, limit, Fetched(rows)) == Render(BoardName(code), Url(code), notices);
    ResolveIsBoard(Strip(categoryCode));
    BoardNameSingleLine(code);
    ExtractWellFormed(rows, limit);
    ListingLines(BoardName(code), Url(code), notices);
  }

  lemma BoardNameSingleLine(code: string)
    requires code in BoardNames
    ensures '\n' !in BoardName(code)
  {
  }

  /** Making a link absolute twice changes nothing more. */
  lemma AbsoluteLinkIdempotent(href: string)
    ensures AbsoluteLink(AbsoluteLink(href)) == AbsoluteLink(href)
  {
    if "/" <= href {
      assert SiteRoot[0] == 'h';
    }
  }
}
