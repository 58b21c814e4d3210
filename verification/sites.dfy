/** The per-site parsers of the list maker, from the texts the page
    extraction yields to the site lists. Downloading and searching the HTML
    are not modelled: each parser receives the texts of the elements it
    would have found, in page order. */
module Sites {
  import opened PyStrings
  import opened Capitalization
  import opened Titles

  /** A parse that can fail: `None` is a failure, `Some` carries the result. */
  datatype Option<T> = None | Some(value: T)

  /** The title text and the year text of one IMDb or Hollywood Reporter item. */
  datatype TitleCells = TitleCells(title: string, year: string)

  /** One row of the highest-grossing table: the text of its header cell and
      the texts of its data cells. */
  datatype GrossRow = GrossRow(header: string, cells: seq<string>)

  /** The per-site title lists, in place of the module-level list globals. */
  datatype SiteLists = SiteLists(
    imdb: seq<string>,
    hollywoodReporter: seq<string>,
    empire: seq<string>,
    tomatoes: seq<string>,
    wikiGross: seq<string>)

  /** The lists in the order `main` walks them. The AFI list is not among them. */
  function SiteOrder(s: SiteLists): (lists: seq<seq<string>>)
    ensures |lists| == 5
    ensures lists[0] == s.imdb && lists[1] == s.hollywoodReporter && lists[2] == s.empire
    ensures lists[3] == s.tomatoes && lists[4] == s.wikiGross
  {
    [s.imdb, s.hollywoodReporter, s.empire, s.tomatoes, s.wikiGross]
  }

  // ---------------------------------------------------------------------
  // IMDb and Hollywood Reporter

  /** `d` is the stripped title, one space and the stripped year of `c`,
      and its last token gives the year back whenever that year has no
      inner space. */
  predicate KeepsTitleAndYear(c: TitleCells, d: string)
  {
    && d == StripWs(c.title) + " " + StripWs(c.year)
    && (' ' !in StripWs(c.year) ==> YearToken(d) == StripWs(c.year))
  }

  /** The IMDb and Hollywood Reporter loops: one entry per item, in page
      order, each keeping the item's title and year. */
  function TitleYearList(items: seq<TitleCells>): (r: seq<string>)
    ensures |r| == |items|
    ensures forall i :: 0 <= i < |items| ==> KeepsTitleAndYear(items[i], r[i])
  {
    var r := seq(|items|, i requires 0 <= i < |items| => TitleYearEntry(items[i].title, items[i].year));
    assert forall i :: 0 <= i < |items| ==> KeepsTitleAndYear(items[i], r[i]) by {
      forall i | 0 <= i < |items| {
        TitleYearEntryKeeps(items[i]);
      }
    }
    r
  }

  /** The IMDb and Hollywood Reporter entry keeps its title and year. */
  lemma TitleYearEntryKeeps(c: TitleCells)
    ensures KeepsTitleAndYear(c, TitleYearEntry(c.title, c.year))
  {
    AssembleIsConcat(StripWs(c.title), StripWs(c.year));
    if ' ' !in StripWs(c.year) {
      TitleYearEntryRoundTrip(c.title, c.year);
    }
  }

  // ---------------------------------------------------------------------
  // Empire

  /** The Empire loop as written, one entry per heading. Each entry keeps
      the last token of the heading's text after the rank as its own last
      token; the title before it is cut with `strip(year)`. */
  function EmpireList(headings: seq<string>): (r: seq<string>)
    ensures |r| == |headings|
    ensures forall i :: 0 <= i < |headings| ==> KeepsYear(headings[i], r[i])
  {
    EmpireYearsKept(headings);
    seq(|headings|, i requires 0 <= i < |headings| => EmpireEntry(headings[i]))
  }

  /** Every as-written Empire entry keeps its heading's year token. */
  lemma EmpireYearsKept(headings: seq<string>)
    ensures forall i :: 0 <= i < |headings| ==> KeepsYear(headings[i], EmpireEntry(headings[i]))
  {
    forall i | 0 <= i < |headings| {
      EmpireYearKept(headings[i]);
    }
  }

  /** The last token of `d` is the last token of the heading's text after the rank. */
  predicate KeepsYear(heading: string, d: string)
  {
    YearToken(d) == YearToken(StripWs(SplitRank(heading).rest))
  }

  /** The Empire entry ends with the year token of the heading's title text. */
  lemma EmpireYearKept(heading: string)
    ensures KeepsYear(heading, EmpireEntry(heading))
  {
    var ty := SplitYear(StripWs(SplitRank(heading).rest));
    AssembleRoundTrip(StripWs(ty.title), ty.year);
  }

  /** Headings of the form `index + ". " + title + " " + year` give exactly
      `title + " " + year` when no title starts with a character of its
      year; otherwise `strip(year)` also eats the title's first characters
      (see `Titles.SplitYearKeepsTitleIff`). */
  lemma EmpireListRoundTrip(indexes: seq<string>, titles: seq<string>, years: seq<string>)
    requires |indexes| == |titles| == |years|
    requires forall i :: 0 <= i < |indexes| ==> '.' !in indexes[i]
    requires forall i :: 0 <= i < |titles| ==> |titles[i]| > 0 && Trimmed(titles[i])
    requires forall i :: 0 <= i < |years| ==> IsWord(years[i])
    requires forall i :: 0 <= i < |titles| ==> titles[i][0] !in CharsOf(years[i])
    ensures var headings := seq(|indexes|, i requires 0 <= i < |indexes| => indexes[i] + ". " + titles[i] + " " + years[i]);
      EmpireList(headings) == seq(|titles|, i requires 0 <= i < |titles| => titles[i] + " " + years[i])
  {
    var headings := seq(|indexes|, i requires 0 <= i < |indexes| => indexes[i] + ". " + titles[i] + " " + years[i]);
    var entries := seq(|titles|, i requires 0 <= i < |titles| => titles[i] + " " + years[i]);
    var r := EmpireList(headings);
    forall i | 0 <= i < |indexes|
      ensures r[i] == entries[i]
    {
      var index, t, y := indexes[i], titles[i], years[i];
      assert index + ". " + "" + t + " " + y == index + ". " + t + " " + y;
      EmpireEntryOverStrips(index, "", t, y);
    }
  }

  /** The Empire loop with the year removed as the token after the last
      space, the evidently intended behaviour. */
  function EmpireListFixed(headings: seq<string>): (r: seq<string>)
    ensures |r| == |headings|
    ensures forall i :: 0 <= i < |headings| ==> KeepsYear(headings[i], r[i])
  {
    FixedYearsKept(headings);
    seq(|headings|, i requires 0 <= i < |headings| => EmpireEntryFixed(headings[i]))
  }

  /** Every corrected Empire entry keeps its heading's year token. */
  lemma FixedYearsKept(headings: seq<string>)
    ensures forall i :: 0 <= i < |headings| ==> KeepsYear(headings[i], EmpireEntryFixed(headings[i]))
  {
    forall i | 0 <= i < |headings|
      ensures KeepsYear(headings[i], EmpireEntryFixed(headings[i]))
    {
      var ty := SplitYearAtLastSpace(StripWs(SplitRank(headings[i]).rest));
      AssembleRoundTrip(ty.title, ty.year);
    }
  }

  /** With the corrected year removal, every heading `index + ". " + title
      + " " + year` gives exactly `title + " " + year`. */
  lemma EmpireListFixedRoundTrip(indexes: seq<string>, titles: seq<string>, years: seq<string>)
    requires |indexes| == |titles| == |years|
    requires forall i :: 0 <= i < |indexes| ==> '.' !in indexes[i]
    requires forall i :: 0 <= i < |titles| ==> |titles[i]| > 0 && Trimmed(titles[i])
    requires forall i :: 0 <= i < |years| ==> IsWord(years[i])
    ensures var headings := seq(|indexes|, i requires 0 <= i < |indexes| => indexes[i] + ". " + titles[i] + " " + years[i]);
      EmpireListFixed(headings) == seq(|titles|, i requires 0 <= i < |titles| => titles[i] + " " + years[i])
  {
    var headings := seq(|indexes|, i requires 0 <= i < |indexes| => indexes[i] + ". " + titles[i] + " " + years[i]);
    var entries := seq(|titles|, i requires 0 <= i < |titles| => titles[i] + " " + years[i]);
    var r := EmpireListFixed(headings);
    forall i | 0 <= i < |indexes|
      ensures r[i] == entries[i]
    {
      EmpireEntryFixedRoundTrip(indexes[i], titles[i], years[i]);
    }
  }

  // ---------------------------------------------------------------------
  // Rotten Tomatoes

  /** The Rotten Tomatoes loop: rows with fewer than four cells are
      skipped; every other row gives its stripped third cell. */
  function TomatoesList(rows: seq<seq<string>>): (r: seq<string>)
    ensures |r| <= |rows|
    ensures forall i :: 0 <= i < |r| ==> Trimmed(r[i])
    ensures (forall i :: 0 <= i < |rows| ==> |rows[i]| < 4) ==> r == []
  {
    if |rows| == 0 then []
    else
      var n := |rows| - 1;
      var row := rows[n];
      if |row| < 4 then TomatoesList(rows[..n])
      else TomatoesList(rows[..n]) + [TomatoesEntry(row[2])]
  }

  /** Parsing a table in two parts parses each part. */
  lemma {:induction false} TomatoesListAppend(a: seq<seq<string>>, b: seq<seq<string>>)
    ensures TomatoesList(a + b) == TomatoesList(a) + TomatoesList(b)
    decreases |b|
  {
    if |b| == 0 {
      assert a + b == a;
    } else {
      var n := |b| - 1;
      assert (a + b)[..|a + b| - 1] == a + b[..n];
      TomatoesListAppend(a, b[..n]);
    }
  }

  /** When every row has four cells, every row gives an entry. */
  lemma {:induction false} TomatoesListComplete(rows: seq<seq<string>>)
    requires forall i :: 0 <= i < |rows| ==> |rows[i]| >= 4
    ensures |TomatoesList(rows)| == |rows|
    ensures forall i :: 0 <= i < |rows| ==> TomatoesList(rows)[i] == TomatoesEntry(rows[i][2])
  {
    if |rows| > 0 {
      var n := |rows| - 1;
      FullRowsPrefix(rows, n);
      TomatoesListComplete(rows[..n]);
      TomatoesListFullRow(rows);
      ExtendEntries(rows, TomatoesList(rows[..n]));
    }
  }

  /** Every prefix of a table of full rows is a table of full rows. */
  lemma FullRowsPrefix(rows: seq<seq<string>>, n: nat)
    requires n <= |rows|
    requires forall i :: 0 <= i < |rows| ==> |rows[i]| >= 4
    ensures forall i :: 0 <= i < n ==> |rows[..n][i]| >= 4
  {
  }

  /** The entries of all rows but the last, followed by the last row's entry,
      are the entries of all rows. */
  lemma ExtendEntries(rows: seq<seq<string>>, prefix: seq<string>)
    requires |rows| > 0 && |prefix| == |rows| - 1
    requires forall i :: 0 <= i < |rows| ==> |rows[i]| >= 4
    requires forall i :: 0 <= i < |prefix| ==> prefix[i] == TomatoesEntry(rows[..|rows| - 1][i][2])
    ensures forall i :: 0 <= i < |rows| ==>
      (prefix + [TomatoesEntry(rows[|rows| - 1][2])])[i] == TomatoesEntry(rows[i][2])
  {
    var n := |rows| - 1;
    var r := prefix + [TomatoesEntry(rows[n][2])];
    forall i | 0 <= i < |rows|
      ensures r[i] == TomatoesEntry(rows[i][2])
    {
      if i < n {
        assert rows[..n][i] == rows[i];
      }
    }
  }

  /** A last row of four cells or more adds its entry at the end. */
  lemma TomatoesListFullRow(rows: seq<seq<string>>)
    requires |rows| > 0 && |rows[|rows| - 1]| >= 4
    ensures TomatoesList(rows) == TomatoesList(rows[..|rows| - 1]) + [TomatoesEntry(rows[|rows| - 1][2])]
  {
  }

  // ---------------------------------------------------------------------
  // highest-grossing films

  /** A header row of the grossing table: its header cell reads "Rank". */
  predicate IsRankHeader(row: GrossRow)
  {
    StripWs(row.header) == "Rank"
  }

  /** A row that is not a header row but has fewer than four data cells;
      reading its fourth cell fails. */
  predicate IsShortRow(row: GrossRow)
  {
    !IsRankHeader(row) && |row.cells| < 4
  }

  /** Some data row of the table is short. */
  predicate HasShortRow(rows: seq<GrossRow>)
  {
    exists i :: 0 <= i < |rows| && IsShortRow(rows[i])
  }

  /** The highest-grossing loop: header rows are skipped and every other
      row gives its header-cell title with the fourth cell as the year in
      parentheses. A short data row stops the parser, so there is no list. */
  function GrossList(rows: seq<GrossRow>): (r: Option<seq<string>>)
    ensures r.None? <==> HasShortRow(rows)
    ensures r.Some? ==> |r.value| <= |rows|
    ensures r.Some? ==> forall i :: 0 <= i < |r.value| ==> ClosesWithYear(r.value[i])
  {
    if |rows| == 0 then Some([])
    else
      var n := |rows| - 1;
      ShortRowSnoc(rows);
      GrossStep(GrossList(rows[..n]), rows[n])
  }

  /** One iteration of the grossing loop on the list parsed so far. A
      failure stays a failure and a short row is one; otherwise the list
      parsed so far is kept as it is, followed by at most one entry, which
      ends with its parenthesised year. */
  function GrossStep(sofar: Option<seq<string>>, row: GrossRow): (r: Option<seq<string>>)
    ensures r.None? <==> sofar.None? || IsShortRow(row)
    ensures sofar.Some? && r.Some? ==>
      |sofar.value| <= |r.value| <= |sofar.value| + 1 && r.value[..|sofar.value|] == sofar.value
    ensures sofar.Some? && r.Some? ==>
      forall k :: |sofar.value| <= k < |r.value| ==> ClosesWithYear(r.value[k])
  {
    if sofar.None? then None
    else if IsRankHeader(row) then sofar
    else if |row.cells| < 4 then None
    else
      GrossEntryCloses(row.header, row.cells[3]);
      Some(sofar.value + [GrossEntry(row.header, row.cells[3])])
  }

  /** Some row of a non-empty table is short exactly when some row before
      the last is, or the last is. */
  lemma ShortRowSnoc(rows: seq<GrossRow>)
    requires |rows| > 0
    ensures HasShortRow(rows) <==> HasShortRow(rows[..|rows| - 1]) || IsShortRow(rows[|rows| - 1])
  {
    var n := |rows| - 1;
    assert forall i :: 0 <= i < n ==> rows[..n][i] == rows[i];
  }

  /** `d` ends with the closing parenthesis of its year. */
  predicate ClosesWithYear(d: string)
  {
    |d| > 0 && d[|d| - 1] == ')'
  }

  /** A grossing entry ends with the parenthesis closing its year. */
  lemma GrossEntryCloses(titleText: string, yearText: string)
    ensures ClosesWithYear(GrossEntry(titleText, yearText))
  {
    AssembleIsConcat(StripWs(titleText), "(" + StripWs(yearText) + ")");
  }

  /** The rows of the table that are not header rows, in order. */
  function DataRows(rows: seq<GrossRow>): (d: seq<GrossRow>)
    ensures |d| == |rows| - CountHeaders(rows)
    ensures forall k :: 0 <= k < |d| ==> d[k] in rows && !IsRankHeader(d[k])
  {
    if |rows| == 0 then []
    else
      var n := |rows| - 1;
      var prefix := DataRows(rows[..n]);
      assert forall k :: 0 <= k < |prefix| ==> prefix[k] in rows by {
        forall k | 0 <= k < |prefix| {
          InPrefix(rows, n, prefix[k]);
        }
      }
      if IsRankHeader(rows[n]) then prefix else prefix + [rows[n]]
  }

  /** The number of header rows. */
  function CountHeaders(rows: seq<GrossRow>): (n: nat)
    ensures n <= |rows|
  {
    if |rows| == 0 then 0
    else CountHeaders(rows[..|rows| - 1]) + (if IsRankHeader(rows[|rows| - 1]) then 1 else 0)
  }

  /** A row of a prefix is a row of the table. */
  lemma InPrefix(rows: seq<GrossRow>, n: nat, row: GrossRow)
    requires n <= |rows| && row in rows[..n]
    ensures row in rows
  {
  }

  /** Parsing a table in two parts parses each part: the whole fails when
      either part fails, and otherwise its list is the two lists in order. */
  lemma {:induction false} GrossListAppend(a: seq<GrossRow>, b: seq<GrossRow>)
    ensures GrossList(a + b) == Combine(GrossList(a), GrossList(b))
    decreases |b|
  {
    if |b| == 0 {
      assert a + b == a;
      assert GrossList(b) == Some([]);
      if GrossList(a).Some? {
        assert GrossList(a).value + [] == GrossList(a).value;
      }
    } else {
      var n := |b| - 1;
      assert (a + b)[..|a + b| - 1] == a + b[..n];
      GrossListAppend(a, b[..n]);
      StepCombine(GrossList(a), GrossList(b[..n]), b[n]);
    }
  }

  /** Two parse results one after the other: a failure in either is a failure. */
  function Combine(x: Option<seq<string>>, y: Option<seq<string>>): Option<seq<string>>
  {
    if x.None? || y.None? then None else Some(x.value + y.value)
  }

  /** One loop step after combining two parses is the step on the second part, then combined. */
  lemma StepCombine(x: Option<seq<string>>, y: Option<seq<string>>, row: GrossRow)
    ensures GrossStep(Combine(x, y), row) == Combine(x, GrossStep(y, row))
  {
    if x.Some? && y.Some? && !IsRankHeader(row) && |row.cells| >= 4 {
      var e := GrossEntry(row.header, row.cells[3]);
      assert x.value + y.value + [e] == x.value + (y.value + [e]);
    }
  }

  /** A table without short rows gives one entry per data row, in order:
      entry `k` is the header-cell title of the `k`-th data row with its
      fourth cell as the year. */
  lemma {:induction false} GrossListComplete(rows: seq<GrossRow>)
    requires forall i :: 0 <= i < |rows| ==> !IsShortRow(rows[i])
    ensures GrossList(rows).Some?
    ensures |GrossList(rows).value| == |DataRows(rows)|
    ensures forall k :: 0 <= k < |DataRows(rows)| ==>
      |DataRows(rows)[k].cells| >= 4 &&
      GrossList(rows).value[k] == GrossEntry(DataRows(rows)[k].header, DataRows(rows)[k].cells[3])
  {
    if |rows| > 0 {
      var n := |rows| - 1;
      NoShortRowsPrefix(rows, n);
      GrossListComplete(rows[..n]);
      ShortRowSnoc(rows);
      var d := DataRows(rows);
      forall k | 0 <= k < |d|
        ensures |d[k].cells| >= 4
      {
        var i :| 0 <= i < |rows| && rows[i] == d[k];
      }
      if !IsRankHeader(rows[n]) {
        AppendEntry(DataRows(rows[..n]), GrossList(rows[..n]).value, rows[n]);
      }
    }
  }

  /** A prefix of a table without short rows has no short rows. */
  lemma NoShortRowsPrefix(rows: seq<GrossRow>, n: nat)
    requires n <= |rows|
    requires forall i :: 0 <= i < |rows| ==> !IsShortRow(rows[i])
    ensures forall i :: 0 <= i < n ==> !IsShortRow(rows[..n][i])
  {
  }

  /** Adding a full data row after the rows of a parsed prefix adds its entry
      at the matching position. */
  lemma AppendEntry(d: seq<GrossRow>, entries: seq<string>, row: GrossRow)
    requires |entries| == |d| && |row.cells| >= 4
    requires forall k :: 0 <= k < |d| ==>
      |d[k].cells| >= 4 && entries[k] == GrossEntry(d[k].header, d[k].cells[3])
    ensures var d', e' := d + [row], entries + [GrossEntry(row.header, row.cells[3])];
      forall k :: 0 <= k < |d'| ==> |d'[k].cells| >= 4 && e'[k] == GrossEntry(d'[k].header, d'[k].cells[3])
  {
  }

  // ---------------------------------------------------------------------
  // AFI

  /** The AFI loop: one capitalised entry per heading. Its result is never
      used by the rest of the program. */
  function AfiList(headings: seq<string>): (r: seq<string>)
    ensures |r| == |headings|
    ensures forall i :: 0 <= i < |r| ==> SingleSpaced(r[i])
    ensures forall i :: 0 <= i < |r| ==>
      SplitWs(r[i]) == CapitalizeAll(SplitWs(SplitRank(headings[i]).rest))
  {
    seq(|headings|, i requires 0 <= i < |headings| => AfiEntry(headings[i]))
  }

  // ---------------------------------------------------------------------
  // all sites

  /** The extracted texts of every site `main` parses. */
  datatype Pages = Pages(
    imdb: seq<TitleCells>,
    hollywoodReporter: seq<TitleCells>,
    empire: seq<string>,
    tomatoes: seq<seq<string>>,
    wikiGross: seq<GrossRow>)

  /** The five parser calls at the start of `main`. Only the grossing parser
      can fail on the modelled inputs; then there are no lists. */
  function ParseSites(p: Pages): (r: Option<SiteLists>)
    ensures r.None? <==> HasShortRow(p.wikiGross)
    ensures r.Some? ==> |r.value.imdb| == |p.imdb| && |r.value.hollywoodReporter| == |p.hollywoodReporter|
    ensures r.Some? ==> forall i :: 0 <= i < |p.imdb| ==> KeepsTitleAndYear(p.imdb[i], r.value.imdb[i])
    ensures r.Some? ==> forall i :: 0 <= i < |p.hollywoodReporter| ==>
      KeepsTitleAndYear(p.hollywoodReporter[i], r.value.hollywoodReporter[i])
    ensures r.Some? ==> |r.value.empire| == |p.empire|
    ensures r.Some? ==> forall i :: 0 <= i < |p.empire| ==> r.value.empire[i] == EmpireEntry(p.empire[i])
    ensures r.Some? ==> r.value.tomatoes == TomatoesList(p.tomatoes)
    ensures r.Some? ==> r.value.wikiGross == GrossList(p.wikiGross).value
  {
    match GrossList(p.wikiGross)
    case None => None
    case Some(gross) =>
      Some(SiteLists(
        TitleYearList(p.imdb),
        TitleYearList(p.hollywoodReporter),
        EmpireList(p.empire),
        TomatoesList(p.tomatoes),
        gross))
  }
}
