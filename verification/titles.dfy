/** The title-string logic written inline in the list maker's page parsers:
    cutting a ranked heading `"N. Title Year"` at its first `.`, taking the
    year as the last space-separated token, removing it with a
    character-set strip, and assembling the display title each list stores. */
module Titles {
  import opened PyStrings
  import opened Capitalization

  // ---------------------------------------------------------------------
  // rank prefix

  /** A heading cut at its first `.`: the rank index before it and the raw
      remainder after it. */
  datatype RankedHeading = RankedHeading(index: string, rest: string)

  /** `text.split('.')[0]` and `'.'.join(text.split('.')[1:])`. The index is
      the text before the first `.`; the remainder is everything after it,
      dots in the title included. Text without a `.` is all index. */
  function SplitRank(text: string): (h: RankedHeading)
    ensures '.' !in h.index
    ensures '.' in text ==> text == h.index + "." + h.rest
    ensures '.' !in text ==> h.index == text && h.rest == ""
  {
    var parts := Split(text, '.');
    JoinSplit(text, '.');
    RankedHeading(parts[0], Join(".", parts[1..]))
  }

  /** Cutting `index + "." + rest` at its first `.` gives back `index` and
      `rest` whenever the index has no `.`. */
  lemma SplitRankRoundTrip(index: string, rest: string)
    requires '.' !in index
    ensures SplitRank(index + "." + rest) == RankedHeading(index, rest)
  {
    SplitAround(index, '.', rest);
    SplitNoSeparator(index, '.');
    JoinSplit(rest, '.');
    FirstPieceAndRest(index, Split(rest, '.'));
  }

  // ---------------------------------------------------------------------
  // year token and display title

  /** `s.split(' ')[-1].strip()`: the last space-separated token of `s`,
      whitespace-stripped. It contains no space and no outer whitespace. */
  function YearToken(s: string): (y: string)
    ensures ' ' !in y
    ensures Trimmed(y)
  {
    var parts := Split(s, ' ');
    var last := parts[|parts| - 1];
    StripKeepsNoSpace(last);
    StripWs(last)
  }

  /** Stripping a text without spaces gives a text without spaces. */
  lemma StripKeepsNoSpace(t: string)
    requires ' ' !in t
    ensures ' ' !in StripWs(t)
  {
    var y := StripWs(t);
    var l := LeadingRun(t, Whitespace);
    assert forall k :: 0 <= k < |y| ==> y[k] == t[l + k];
  }

  /** The year token of a stripped text is a suffix of it. */
  lemma YearTokenIsSuffix(s: string)
    requires Trimmed(s)
    ensures var y := YearToken(s); |y| <= |s| && y == s[|s| - |y|..]
  {
    YearTokenOfLastPiece(s);
    StrippedLastPieceIsSuffix(s);
  }

  /** The stripped last piece of a stripped text is a suffix of it. */
  lemma StrippedLastPieceIsSuffix(s: string)
    requires Trimmed(s)
    ensures var parts := Split(s, ' '); var y := StripWs(parts[|parts| - 1]);
      |y| <= |s| && y == s[|s| - |y|..]
  {
    var parts := Split(s, ' ');
    LastPieceEnd(s);
    StrippedSuffix(parts[|parts| - 1], s);
  }

  /** Stripping a suffix that ends where a stripped text ends gives a suffix. */
  lemma StrippedSuffix(last: string, s: string)
    requires |last| <= |s| && s[|s| - |last|..] == last
    requires |last| > 0 ==> last[|last| - 1] == s[|s| - 1]
    requires Trimmed(s)
    ensures var y := StripWs(last); |y| <= |s| && y == s[|s| - |y|..]
  {
    if |last| > 0 {
      StripWsOfSuffix(last, s);
    }
  }

  /** The last piece of a stripped text ends with the text's last character. */
  lemma LastPieceEnd(s: string)
    requires Trimmed(s)
    ensures var parts := Split(s, ' '); var last := parts[|parts| - 1];
      |last| <= |s| && s[|s| - |last|..] == last && (|last| > 0 ==> last[|last| - 1] == s[|s| - 1])
  {
    SplitLast(s, ' ');
  }

  /** `' '.join([title, year])`: title and year separated by one space. */
  function Assemble(title: string, year: string): (d: string)
  {
    Join(" ", [title, year])
  }

  /** An assembled display title is the title, exactly one space and the
      year, and its year token is the year again whenever the year is
      stripped and has no space. */
  lemma AssembleRoundTrip(title: string, year: string)
    requires ' ' !in year && Trimmed(year)
    ensures Assemble(title, year) == title + " " + year
    ensures YearToken(Assemble(title, year)) == year
  {
    AssembleIsConcat(title, year);
    YearTokenAfterSpace(title, year);
  }

  /** `' '.join([title, year])` is the title, a space and the year. */
  lemma AssembleIsConcat(title: string, year: string)
    ensures Assemble(title, year) == title + " " + year
  {
    assert [title, year][1..] == [year];
    assert Join(" ", [year]) == year;
  }

  /** The year token of `title + " " + year` is `year` for a stripped year without spaces. */
  lemma YearTokenAfterSpace(title: string, year: string)
    requires ' ' !in year && Trimmed(year)
    ensures YearToken(title + " " + year) == year
  {
    assert title + " " + year == title + [' '] + year;
    LastPieceAfterSeparator(title, ' ', year);
    YearTokenOfLastPiece(title + [' '] + year);
  }

  /** The year token is the stripped last piece of the split on spaces. */
  lemma YearTokenOfLastPiece(s: string)
    ensures var parts := Split(s, ' '); YearToken(s) == StripWs(parts[|parts| - 1])
  {
  }

  /** The entry the IMDb and Hollywood Reporter parsers store: the stripped
      title text and the stripped year text, joined by one space. */
  function TitleYearEntry(titleText: string, yearText: string): (d: string)
  {
    Assemble(StripWs(titleText), StripWs(yearText))
  }

  /** The stored entry begins with the stripped title and one space, and its
      year token gives back the stripped year text when that has no space. */
  lemma TitleYearEntryRoundTrip(titleText: string, yearText: string)
    requires ' ' !in StripWs(yearText)
    ensures var d := TitleYearEntry(titleText, yearText);
      d == StripWs(titleText) + " " + StripWs(yearText) && YearToken(d) == StripWs(yearText)
  {
    AssembleRoundTrip(StripWs(titleText), StripWs(yearText));
  }

  /** The entry the highest-grossing parser stores: the stripped title, one
      space, and the stripped year text in parentheses. */
  function GrossEntry(titleText: string, yearText: string): (d: string)
  {
    Assemble(StripWs(titleText), "(" + StripWs(yearText) + ")")
  }

  /** The grossing entry is the title, exactly one space and the parenthesised
      year; its year token is the parenthesised year when the year has no space. */
  lemma GrossEntryRoundTrip(titleText: string, yearText: string)
    requires ' ' !in StripWs(yearText)
    ensures var d := GrossEntry(titleText, yearText);
      d == StripWs(titleText) + " (" + StripWs(yearText) + ")"
      && YearToken(d) == "(" + StripWs(yearText) + ")"
      && d[|d| - 1] == ')'
  {
    var y := "(" + StripWs(yearText) + ")";
    ParenthesisedNoSpace(StripWs(yearText));
    AssembleRoundTrip(StripWs(titleText), y);
    ParenthesisedRegroup(StripWs(titleText), StripWs(yearText));
  }

  /** Wrapping a text without spaces in parentheses gives a stripped text without spaces. */
  lemma ParenthesisedNoSpace(y: string)
    requires ' ' !in y
    ensures var p := "(" + y + ")"; ' ' !in p && Trimmed(p)
  {
    var p := "(" + y + ")";
    assert p[0] == '(' && p[|p| - 1] == ')';
    assert forall k :: 0 < k < |p| - 1 ==> p[k] == y[k - 1];
  }

  // ---------------------------------------------------------------------
  // removing the year with a character-set strip

  /** A title text cut into title and year. */
  datatype TitleYear = TitleYear(title: string, year: string)

  /** The year taken as the last token, and the title as
      `s.strip(year)`: every leading and trailing character of `s` that
      occurs anywhere in the year is removed. The title is a slice of `s`
      and neither starts nor ends with a character of the year. */
  function SplitYear(s: string): (ty: TitleYear)
    ensures ty.year == YearToken(s)
    ensures |ty.title| <= |s|
    ensures IsStripOf(s, CharsOf(ty.year), ty.title)
  {
    var year := YearToken(s);
    var title := Strip(s, CharsOf(year));
    TitleYear(title, year)
  }

  /** For `t + " " + y` with a year `y` made of non-whitespace characters,
      the strip removes exactly the year and any leading characters of `t`
      that occur in `y`: if `t` is `p + u` where every character of `p`
      occurs in `y` and the first of `u` does not, the stripped title is `u`. */
  lemma SplitYearOverStrips(p: string, u: string, y: string)
    requires forall k :: 0 <= k < |p| ==> p[k] in CharsOf(y)
    requires |u| > 0 && u[0] !in CharsOf(y) && Trimmed(u)
    requires IsWord(y)
    ensures var ty := SplitYear(p + u + " " + y);
      ty.year == y && StripWs(ty.title) == u
  {
    var s := p + u + " " + y;
    WordIsTrimmed(y);
    YearTokenAfterSpace(p + u, y);
    OverStripLayout(p, u, y);
    StripCharacterised(s, CharsOf(y), |p|, |p| + |u| + 1);
    StripTrailingSpace(u);
  }

  /** Where the characters of `p + u + " " + y` fall relative to the characters of `y`. */
  lemma OverStripLayout(p: string, u: string, y: string)
    requires forall k :: 0 <= k < |p| ==> p[k] in CharsOf(y)
    requires |u| > 0 && u[0] !in CharsOf(y)
    requires ' ' !in y
    ensures var s := p + u + " " + y; var cs := CharsOf(y);
      && (forall k :: 0 <= k < |p| ==> s[k] in cs)
      && (forall k :: |p| + |u| + 1 <= k < |s| ==> s[k] in cs)
      && s[|p|] !in cs && s[|p| + |u|] !in cs
      && s[|p|..|p| + |u| + 1] == u + " "
  {
    var s := p + u + " " + y;
    assert forall k :: 0 <= k < |p| ==> s[k] == p[k];
    assert forall k :: |p| + |u| + 1 <= k < |s| ==> s[k] == y[k - |p| - |u| - 1];
    assert s[|p|] == u[0];
    assert s[|p| + |u|] == ' ';
  }

  /** Stripping the year off `t + " " + y` and then whitespace gives back the
      title `t` exactly when the first character of `t` does not occur in the
      year. */
  lemma SplitYearKeepsTitleIff(t: string, y: string)
    requires |t| > 0 && Trimmed(t)
    requires IsWord(y)
    ensures StripWs(SplitYear(t + " " + y).title) == t <==> t[0] !in CharsOf(y)
  {
    if t[0] !in CharsOf(y) {
      assert "" + t + " " + y == t + " " + y;
      SplitYearOverStrips("", t, y);
    } else {
      WordIsTrimmed(y);
      YearTokenAfterSpace(t, y);
      StripEatsTitleStart(t, y);
    }
  }

  /** When the title starts with a character of the year, the strip of
      `t + " " + y` ends at the space and so is shorter than `t` once the
      space is stripped too. */
  lemma StripEatsTitleStart(t: string, y: string)
    requires |t| > 0 && t[0] in CharsOf(y)
    requires ' ' !in y
    ensures |StripWs(Strip(t + " " + y, CharsOf(y)))| < |t|
  {
    var s := t + " " + y;
    var cs := CharsOf(y);
    YearSuffixLayout(t, y);
    var r := Strip(s, cs);
    var l := LeadingRun(s, cs);
    assert s[0] == t[0];
    assert 1 <= l <= |t|;
    assert l + |r| == |t| + 1;
    assert r[|r| - 1] == s[|t|] == ' ';
    assert ' ' in Whitespace;
    StripShortens(r, Whitespace);
  }

  /** In `t + " " + y` the space is not a character of `y` and everything after it is. */
  lemma YearSuffixLayout(t: string, y: string)
    requires ' ' !in y
    ensures var s := t + " " + y;
      s[|t|] == ' ' && ' ' !in CharsOf(y) && forall k :: |t| < k < |s| ==> s[k] in CharsOf(y)
  {
    var s := t + " " + y;
    assert forall k :: |t| < k < |s| ==> s[k] == y[k - |t| - 1];
  }

  /** The Empire and Rotten Tomatoes title made the evidently intended way:
      the year is the last space-separated token and the title is everything
      before the last space, whitespace-stripped. */
  function SplitYearAtLastSpace(s: string): (ty: TitleYear)
    ensures ty.year == YearToken(s)
    ensures Trimmed(ty.title)
  {
    var parts := Split(s, ' ');
    TitleYear(StripWs(Join(" ", parts[..|parts| - 1])), YearToken(s))
  }

  /** Cutting at the last space gives back any stripped title and any
      whitespace-free year. */
  lemma SplitYearAtLastSpaceRoundTrip(t: string, y: string)
    requires Trimmed(t)
    requires IsWord(y)
    ensures SplitYearAtLastSpace(t + " " + y) == TitleYear(t, y)
  {
    WordIsTrimmed(y);
    YearTokenAfterSpace(t, y);
    PiecesBeforeLastSpace(t, y);
    JoinSplit(t, ' ');
    assert " " == [' '];
  }

  /** The pieces of `t + " " + y` before the last are the pieces of `t` when `y` has no space. */
  lemma PiecesBeforeLastSpace(t: string, y: string)
    requires ' ' !in y
    ensures var parts := Split(t + " " + y, ' '); parts[..|parts| - 1] == Split(t, ' ')
  {
    assert t + " " + y == t + [' '] + y;
    SplitAround(t, ' ', y);
    SplitNoSeparator(y, ' ');
    DropLastPiece(Split(t, ' '), y);
  }

  // ---------------------------------------------------------------------
  // the per-site entries

  /** The Empire entry as the parser computes it: the heading's remainder
      after the rank, stripped, cut into year and character-set-stripped
      title, and reassembled as title, one space, year. */
  function EmpireEntry(heading: string): (d: string)
  {
    var ty := SplitYear(StripWs(SplitRank(heading).rest));
    Assemble(StripWs(ty.title), ty.year)
  }

  /** The Empire entry for `"N. " + p + u + " " + y` loses the leading
      characters `p` of the title that occur in the year. */
  lemma EmpireEntryOverStrips(index: string, p: string, u: string, y: string)
    requires '.' !in index
    requires forall k :: 0 <= k < |p| ==> p[k] in CharsOf(y)
    requires |u| > 0 && u[0] !in CharsOf(y) && Trimmed(u)
    requires IsWord(y)
    ensures EmpireEntry(index + ". " + p + u + " " + y) == u + " " + y
  {
    var body := p + u + " " + y;
    OverStripHeadingRegroup(index, p, u, y);
    OverStripBodyTrimmed(p, u, y);
    EmpireEntryOfBody(index, body);
    SplitYearOverStrips(p, u, y);
    AssembleIsConcat(u, y);
  }

  /** The Empire entry of `index + ". " + body` is computed from `body` alone. */
  lemma EmpireEntryOfBody(index: string, body: string)
    requires '.' !in index
    requires |body| > 0 && Trimmed(body)
    ensures var ty := SplitYear(body);
      EmpireEntry(index + ". " + body) == Assemble(StripWs(ty.title), ty.year)
  {
    HeadingBody(index, body);
  }

  /** The remainder of `index + ". " + body` after the rank, stripped, is `body`. */
  lemma HeadingBody(index: string, body: string)
    requires '.' !in index
    requires |body| > 0 && Trimmed(body)
    ensures StripWs(SplitRank(index + ". " + body).rest) == body
  {
    assert index + ". " + body == index + "." + (" " + body);
    SplitRankRoundTrip(index, " " + body);
    StripLeadingSpace(body);
  }

  /** `p + u + " " + y` is stripped when `p` is made of year characters and `u` starts the title. */
  lemma OverStripBodyTrimmed(p: string, u: string, y: string)
    requires forall k :: 0 <= k < |p| ==> p[k] in CharsOf(y)
    requires |u| > 0 && Trimmed(u)
    requires IsWord(y)
    ensures Trimmed(p + u + " " + y)
  {
    var body := p + u + " " + y;
    assert body[|body| - 1] == y[|y| - 1];
    if |p| > 0 {
      assert body[0] == p[0];
      assert p[0] in CharsOf(y);
    } else {
      assert body[0] == u[0];
    }
  }

  /** The Empire heading "5. 12 Angry Men 1957": the strip of the year
      `1957` also removes the leading `1` of the title, so the stored entry
      is "2 Angry Men 1957". */
  lemma EmpireTwelveAngryMen()
    ensures EmpireEntry("5. 12 Angry Men 1957") == "2 Angry Men 1957"
  {
    TwelveAngryMenPieces();
    TwelveAngryMenOverStrips();
    EmpireEntryOverStrips("5", "1", "2 Angry Men", "1957");
  }

  /** The Empire entry computed with the year removed at the last space. */
  function EmpireEntryFixed(heading: string): (d: string)
  {
    var ty := SplitYearAtLastSpace(StripWs(SplitRank(heading).rest));
    Assemble(ty.title, ty.year)
  }

  /** With the year removed at the last space, an Empire heading
      `index + ". " + t + " " + y` yields exactly `t + " " + y`. */
  lemma EmpireEntryFixedRoundTrip(index: string, t: string, y: string)
    requires '.' !in index
    requires |t| > 0 && Trimmed(t)
    requires IsWord(y)
    ensures EmpireEntryFixed(index + ". " + t + " " + y) == t + " " + y
  {
    var body := t + " " + y;
    assert index + ". " + t + " " + y == index + ". " + (t + " " + y);
    assert body[0] == t[0] && body[|body| - 1] == y[|y| - 1];
    HeadingBody(index, body);
    SplitYearAtLastSpaceRoundTrip(t, y);
    AssembleIsConcat(t, y);
  }

  /** The Rotten Tomatoes entry: the stripped title cell, which already holds
      the year. The parser also cuts it with `SplitYear`, but never uses the
      result. */
  function TomatoesEntry(cell: string): (d: string)
    ensures Trimmed(d)
    ensures |d| <= |cell|
    ensures IsStripOf(cell, Whitespace, d)
  {
    StripWs(cell)
  }

  /** The AFI entry: the heading's remainder after the rank, stripped and
      passed through `capwords`. */
  function AfiEntry(heading: string): (d: string)
    ensures SingleSpaced(d)
    ensures SplitWs(d) == CapitalizeAll(SplitWs(SplitRank(heading).rest))
  {
    var rest := SplitRank(heading).rest;
    StripWsWords(rest);
    CapWords(StripWs(rest))
  }

  /** `strip()` does not change the words `split()` finds. */
  lemma StripWsWords(s: string)
    ensures SplitWs(StripWs(s)) == SplitWs(s)
  {
    var r := StripWs(s);
    var l := LeadingRun(s, Whitespace);
    assert r == s[l..l + |r|];
    LeadingWhitespaceWords(s, l);
    TrailingWhitespaceWords(s[l..], |r|);
    assert s[l..][..|r|] == r;
  }

  /** Dropping a whitespace prefix does not change the words. */
  lemma {:induction false} LeadingWhitespaceWords(s: string, n: nat)
    requires n <= |s|
    requires forall k :: 0 <= k < n ==> s[k] in Whitespace
    ensures SplitWs(s[n..]) == SplitWs(s)
  {
    if n > 0 {
      assert s[1..][n - 1..] == s[n..];
      LeadingWhitespaceWords(s[1..], n - 1);
    }
  }

  /** Dropping a whitespace suffix does not change the words. */
  lemma {:induction false} TrailingWhitespaceWords(s: string, n: nat)
    requires n <= |s|
    requires forall k :: n <= k < |s| ==> s[k] in Whitespace
    ensures SplitWs(s[..n]) == SplitWs(s)
    decreases |s|
  {
    if |s| > 0 {
      if s[0] in Whitespace {
        if n == 0 {
          LeadingWhitespaceWords(s, |s|);
          assert s[|s|..] == [];
        } else {
          assert s[..n][1..] == s[1..][..n - 1];
          TrailingWhitespaceWords(s[1..], n - 1);
          assert SplitWs(s[..n]) == SplitWs(s[..n][1..]);
        }
      } else {
        var w := WordLen(s);
        if n < |s| {
          assert s[n] in Whitespace;
        }
        assert w <= n;
        FirstWordOfPrefix(s, n);
        TrailingWhitespaceWords(s[w..], n - w);
        assert SplitWs(s) == [s[..w]] + SplitWs(s[w..]);
      }
    }
  }

  /** A prefix of `s` that keeps its whole first word splits into that word
      and the words of the rest of the prefix. */
  lemma FirstWordOfPrefix(s: string, n: nat)
    requires 0 < |s| && s[0] !in Whitespace
    requires WordLen(s) <= n <= |s|
    ensures SplitWs(s[..n]) == [s[..WordLen(s)]] + SplitWs(s[WordLen(s)..][..n - WordLen(s)])
  {
    var w := WordLen(s);
    PrefixAroundWord(s, w, n);
    WordPrefix(s[..w], s[w..n]);
  }

  /** A prefix cut at `n` and re-cut at the word boundary `w`. */
  lemma PrefixAroundWord(s: string, w: nat, n: nat)
    requires w <= n <= |s|
    ensures s[..n] == s[..w] + s[w..n]
    ensures s[..n][..w] == s[..w]
    ensures s[..n][w..] == s[w..][..n - w]
  {
  }

  /** The AFI heading quoted in the parser's comment. */
  lemma AfiCitizenKane()
    ensures AfiEntry("1. CITIZEN KANE (1941)") == "Citizen Kane (1941)"
  {
    CitizenKaneRank();
    CitizenKaneStripped();
    CapWordsCitizenKane();
  }

  /** The rank split of the AFI heading `1. CITIZEN KANE (1941)`. */
  lemma CitizenKaneRank()
    ensures SplitRank("1. CITIZEN KANE (1941)").rest == " CITIZEN KANE (1941)"
  {
    CitizenKaneHeading();
    SplitRankRoundTrip("1", " CITIZEN KANE (1941)");
  }

  /** The heading and the entry of `EmpireTwelveAngryMen`, cut into the
      pieces `EmpireEntryOverStrips` takes. */
  lemma TwelveAngryMenPieces()
    ensures "5. 12 Angry Men 1957" == "5" + ". " + "1" + "2 Angry Men" + " " + "1957"
    ensures "2 Angry Men 1957" == "2 Angry Men" + " " + "1957"
  {
  }

  /** The pieces of `TwelveAngryMenPieces` meet the conditions of
      `EmpireEntryOverStrips`: the `1` is a character of the year and the
      `2` that follows is not. */
  lemma TwelveAngryMenOverStrips()
    ensures '.' !in "5"
    ensures forall k :: 0 <= k < |"1"| ==> "1"[k] in CharsOf("1957")
    ensures |"2 Angry Men"| > 0 && "2 Angry Men"[0] !in CharsOf("1957")
    ensures Trimmed("2 Angry Men") && IsWord("1957")
  {
    assert "1957"[0] == '1';
    AngryMenTrimmed();
    YearWord1957();
  }

  /** The title remainder has no outer whitespace. */
  lemma AngryMenTrimmed()
    ensures Trimmed("2 Angry Men")
  {
  }

  /** The year is one word. */
  lemma YearWord1957()
    ensures IsWord("1957")
  {
  }

  /** The AFI heading of `AfiCitizenKane`, cut at its rank. */
  lemma CitizenKaneHeading()
    ensures "1. CITIZEN KANE (1941)" == "1" + "." + " CITIZEN KANE (1941)"
  {
  }

  /** Stripping the text after the rank removes its one leading space. */
  lemma CitizenKaneStripped()
    ensures StripWs(" CITIZEN KANE (1941)") == "CITIZEN KANE (1941)"
  {
    var s := " CITIZEN KANE (1941)";
    StripCharacterised(s, Whitespace, 1, |s|);
    assert s[1..] == "CITIZEN KANE (1941)";
  }

  // ---------------------------------------------------------------------
  // regrouping concatenations, kept apart from the lemmas about splitting

  /** The head and tail of a list with one piece in front. */
  lemma FirstPieceAndRest(x: string, pieces: seq<string>)
    ensures ([x] + pieces)[0] == x && ([x] + pieces)[1..] == pieces
  {
  }

  /** Dropping the last piece of `a + [x]` gives `a`. */
  lemma DropLastPiece(a: seq<string>, x: string)
    ensures (a + [x])[..|a + [x]| - 1] == a
  {
  }

  /** Regrouping an Empire heading around its body. */
  lemma OverStripHeadingRegroup(index: string, p: string, u: string, y: string)
    ensures index + ". " + p + u + " " + y == index + ". " + (p + u + " " + y)
  {
  }

  /** A title followed by a parenthesised year ends with `)`. */
  lemma ParenthesisedRegroup(t: string, y: string)
    ensures var d := t + " " + ("(" + y + ")");
      d == t + " (" + y + ")" && d[|d| - 1] == ')'
  {
  }

}
