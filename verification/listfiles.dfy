/** What `save_lists` writes: one text file per site, holding every entry
    of the site's list followed by a newline. Opening and writing the files
    is not modelled; each file is its path and its full contents. */
module ListFiles {
  import opened PyStrings
  import opened Sites

  /** A file the list maker writes. */
  datatype ListFile = ListFile(path: string, content: string)

  /** The contents written for one list: each entry and then `'\n'`, in order. */
  function Lines(items: seq<string>): string
  {
    if |items| == 0 then ""
    else Lines(items[..|items| - 1]) + items[|items| - 1] + "\n"
  }

  /** Reading a written file back: the pieces between newlines, without the
      empty piece after the final newline. */
  function ParseLines(content: string): (items: seq<string>)
    ensures forall i :: 0 <= i < |items| ==> '\n' !in items[i]
    ensures |items| == multiset(content)['\n']
  {
    var parts := Split(content, '\n');
    parts[..|parts| - 1]
  }

  /** The written contents are the entries joined by newlines, with one
      newline after the last entry, and nothing for an empty list. */
  lemma {:induction false} LinesAsJoin(items: seq<string>)
    ensures |items| == 0 ==> Lines(items) == ""
    ensures |items| > 0 ==> Lines(items) == Join("\n", items) + "\n"
  {
    if |items| > 1 {
      var n := |items| - 1;
      LinesAsJoin(items[..n]);
      JoinAppend("\n", items[..n], [items[n]]);
      assert items[..n] + [items[n]] == items;
    } else if |items| == 1 {
      assert items[..0] == [];
    }
  }

  /** Entries without newlines are read back exactly as they were written. */
  lemma LinesRoundTrip(items: seq<string>)
    requires forall i :: 0 <= i < |items| ==> '\n' !in items[i]
    ensures ParseLines(Lines(items)) == items
  {
    var withEnd := items + [""];
    LinesWithEmptyLast(items);
    NoNewlineWithEnd(items);
    SplitJoin(withEnd, '\n');
    DropEmptyLast(items);
  }

  /** The written contents are the entries and one more, empty, piece joined by newlines. */
  lemma LinesWithEmptyLast(items: seq<string>)
    ensures Lines(items) == Join("\n", items + [""])
  {
    LinesAsJoin(items);
    if |items| > 0 {
      JoinAppend("\n", items, [""]);
      assert Join("\n", [""]) == "";
    } else {
      assert items + [""] == [""];
    }
  }

  /** Appending the empty last piece keeps every item free of newlines. */
  lemma NoNewlineWithEnd(items: seq<string>)
    requires forall i :: 0 <= i < |items| ==> '\n' !in items[i]
    ensures forall i :: 0 <= i < |items + [""]| ==> '\n' !in (items + [""])[i]
  {
    var withEnd := items + [""];
    forall i | 0 <= i < |withEnd|
      ensures '\n' !in withEnd[i]
    {
      if i < |items| {
        assert withEnd[i] == items[i];
      }
    }
  }

  /** Dropping the last item of `items + [""]` gives `items`. */
  lemma DropEmptyLast(items: seq<string>)
    ensures (items + [""])[..|items + [""]| - 1] == items
  {
  }

  /** A file that is empty or ends with a newline is written back exactly
      from the entries read from it. */
  lemma ParseLinesRoundTrip(content: string)
    requires content == [] || content[|content| - 1] == '\n'
    ensures Lines(ParseLines(content)) == content
  {
    if content == [] {
      assert Split(content, '\n') == [""];
    } else {
      var a := content[..|content| - 1];
      assert content == a + ['\n'] + [];
      SplitAround(a, '\n', []);
      SplitJoin([""], '\n');
      assert Join(['\n'], [""]) == [];
      var pieces := Split(a, '\n');
      assert ParseLines(content) == pieces;
      LinesAsJoin(pieces);
      JoinSplit(a, '\n');
    }
  }

  /** The five files `save_lists` writes, in the order it writes them. */
  function SaveLists(s: SiteLists): (files: seq<ListFile>)
    ensures |files| == 5
    ensures forall i :: 0 <= i < 5 ==> files[i].content == Lines(SiteOrder(s)[i])
    ensures forall i, j :: 0 <= i < j < 5 ==> files[i].path != files[j].path
  {
    [ ListFile("data/lists/imdb.txt", Lines(s.imdb)),
      ListFile("data/lists/hollywood_reporter.txt", Lines(s.hollywoodReporter)),
      ListFile("data/lists/empire.txt", Lines(s.empire)),
      ListFile("data/lists/tomatoes.txt", Lines(s.tomatoes)),
      ListFile("data/lists/wiki_top_grossing.txt", Lines(s.wikiGross)) ]
  }

  /** Site lists without newlines in their entries are read back from the
      saved files exactly. */
  lemma SaveListsRoundTrip(s: SiteLists)
    requires forall l :: l in SiteOrder(s) ==> forall i :: 0 <= i < |l| ==> '\n' !in l[i]
    ensures forall i :: 0 <= i < 5 ==> ParseLines(SaveLists(s)[i].content) == SiteOrder(s)[i]
  {
    var lists := SiteOrder(s);
    forall i | 0 <= i < 5
      ensures ParseLines(SaveLists(s)[i].content) == lists[i]
    {
      assert lists[i] in lists;
      LinesRoundTrip(lists[i]);
    }
  }
}
