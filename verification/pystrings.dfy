/** The Python `str` operations the list maker relies on, over strings seen as
    sequences of code points: `s.split(c)` with a one-character separator,
    `sep.join(parts)`, `s.strip(chars)`, `s.strip()` and `s.split()`. */
module PyStrings {

  /** The code points for which Python's `str.isspace` holds; `strip()` and
      `split()` without arguments treat exactly these as whitespace. */
  const Whitespace: set<char> := {
    '\t', '\n', '\U{000B}', '\U{000C}', '\r',
    '\U{001C}', '\U{001D}', '\U{001E}', '\U{001F}', ' ',
    '\U{0085}', '\U{00A0}', '\U{1680}',
    '\U{2000}', '\U{2001}', '\U{2002}', '\U{2003}', '\U{2004}', '\U{2005}',
    '\U{2006}', '\U{2007}', '\U{2008}', '\U{2009}', '\U{200A}',
    '\U{2028}', '\U{2029}', '\U{202F}', '\U{205F}', '\U{3000}'
  }

  /** The set of characters occurring in `s`: what `strip(s)` takes as its argument. */
  function CharsOf(s: string): set<char>
  {
    set k | 0 <= k < |s| :: s[k]
  }

  /** A string without leading or trailing whitespace, as `strip()` leaves it. */
  predicate Trimmed(s: string)
  {
    |s| > 0 ==> s[0] !in Whitespace && s[|s| - 1] !in Whitespace
  }

  /** A non-empty run of non-whitespace characters: one item of `split()`. */
  predicate IsWord(w: string)
  {
    |w| > 0 && forall k :: 0 <= k < |w| ==> w[k] !in Whitespace
  }

  // ---------------------------------------------------------------------
  // join and split on one character

  /** `sep.join(parts)`. */
  function Join(sep: string, parts: seq<string>): string
  {
    if |parts| == 0 then ""
    else if |parts| == 1 then parts[0]
    else parts[0] + sep + Join(sep, parts[1..])
  }

  /** `s.split(c)`: every occurrence of `c` closes a piece, so adjacent
      separators give empty pieces and the result is never empty. There is
      one piece more than there are occurrences of `c`, and no piece holds
      a `c`. */
  function Split(s: string, c: char): (r: seq<string>)
    ensures |r| == multiset(s)[c] + 1
    ensures forall i :: 0 <= i < |r| ==> c !in r[i]
  {
    if |s| == 0 then [""]
    else
      var rest := Split(s[1..], c);
      CountAfterFirst(s, c);
      if s[0] == c then
        [""] + rest
      else
        NoSeparatorInPieces(s[0], c, rest);
        [[s[0]] + rest[0]] + rest[1..]
  }

  /** Occurrences of `c` in `s` are those in its first character and in the rest. */
  lemma CountAfterFirst(s: string, c: char)
    requires |s| > 0
    ensures multiset(s)[c] == multiset(s[1..])[c] + (if s[0] == c then 1 else 0)
  {
    assert s == [s[0]] + s[1..];
  }

  /** Gluing a character other than `c` onto the first piece keeps `c` out of every piece. */
  lemma NoSeparatorInPieces(x: char, c: char, rest: seq<string>)
    requires x != c && |rest| >= 1
    requires forall i :: 0 <= i < |rest| ==> c !in rest[i]
    ensures var r := [[x] + rest[0]] + rest[1..];
      forall i :: 0 <= i < |r| ==> c !in r[i]
  {
    var r := [[x] + rest[0]] + rest[1..];
    forall i | 0 <= i < |r|
      ensures c !in r[i]
    {
      if i > 0 {
        assert r[i] == rest[i];
      }
    }
  }

  /** Joining the pieces of `s.split(c)` back with `c` gives `s`. */
  lemma {:induction false} JoinSplit(s: string, c: char)
    ensures Join([c], Split(s, c)) == s
  {
    if |s| > 0 {
      var rest := Split(s[1..], c);
      JoinSplit(s[1..], c);
      FirstAndRest(s);
      if s[0] == c {
        assert ([""] + rest)[1..] == rest;
      } else {
        JoinPrepend([s[0]], [c], rest);
      }
    }
  }

  /** A non-empty text is its first character followed by the rest. */
  lemma FirstAndRest(s: string)
    requires |s| > 0
    ensures s == [s[0]] + s[1..]
  {
  }

  /** Gluing `x` onto the first part glues it onto the front of the join. */
  lemma JoinPrepend(x: string, sep: string, parts: seq<string>)
    requires |parts| >= 1
    ensures Join(sep, [x + parts[0]] + parts[1..]) == x + Join(sep, parts)
  {
    var q := [x + parts[0]] + parts[1..];
    assert q[1..] == parts[1..];
  }

  /** A join of at least one part begins with its first part. */
  lemma JoinHead(sep: string, parts: seq<string>)
    requires |parts| >= 1
    ensures |Join(sep, parts)| >= |parts[0]|
    ensures Join(sep, parts)[..|parts[0]|] == parts[0]
  {
  }

  /** A text without `c` is a single piece. */
  lemma {:induction false} SplitNoSeparator(p: string, c: char)
    requires c !in p
    ensures Split(p, c) == [p]
  {
    if |p| > 0 {
      assert c !in p[1..];
      SplitNoSeparator(p[1..], c);
      assert [p[0]] + p[1..] == p;
    }
  }

  /** A separator in front gives an empty first piece. */
  lemma SplitLeadingSeparator(c: char, rest: string)
    ensures Split([c] + rest, c) == [""] + Split(rest, c)
  {
    assert ([c] + rest)[1..] == rest;
  }

  /** Any other character in front is glued onto the first piece. */
  lemma SplitLeadingChar(x: char, c: char, t: string)
    requires x != c
    ensures var pieces := Split(t, c); Split([x] + t, c) == [[x] + pieces[0]] + pieces[1..]
  {
    assert ([x] + t)[1..] == t;
  }

  /** A piece without `c` followed by `c` is the first piece of the split. */
  lemma {:induction false} SplitFirstPiece(p: string, c: char, rest: string)
    requires c !in p
    ensures Split(p + [c] + rest, c) == [p] + Split(rest, c)
  {
    if |p| == 0 {
      assert p + [c] + rest == [c] + rest;
      SplitLeadingSeparator(c, rest);
    } else {
      assert c !in p[1..];
      SplitFirstPiece(p[1..], c, rest);
      SplitFirstPieceGrows(p, c, rest);
    }
  }

  /** The first piece with its first character put back. */
  lemma SplitFirstPieceGrows(p: string, c: char, rest: string)
    requires |p| > 0 && p[0] != c
    requires Split(p[1..] + [c] + rest, c) == [p[1..]] + Split(rest, c)
    ensures Split(p + [c] + rest, c) == [p] + Split(rest, c)
  {
    SplitFirstPieceStep(p[0], p[1..], c, rest);
    ConsOntoConcat(p, c, rest);
  }

  /** Taking the first character off the front of a concatenation. */
  lemma ConsOntoConcat(p: string, c: char, rest: string)
    requires |p| > 0
    ensures p + [c] + rest == [p[0]] + (p[1..] + [c] + rest)
    ensures [p[0]] + p[1..] == p
  {
  }

  /** One more character before the first piece lengthens that piece. */
  lemma SplitFirstPieceStep(x: char, p: string, c: char, rest: string)
    requires x != c
    requires Split(p + [c] + rest, c) == [p] + Split(rest, c)
    ensures Split([x] + (p + [c] + rest), c) == [[x] + p] + Split(rest, c)
  {
    SplitLeadingChar(x, c, p + [c] + rest);
  }

  /** Joining pieces that do not contain `c` and splitting on `c` gives the pieces back. */
  lemma {:induction false} SplitJoin(parts: seq<string>, c: char)
    requires |parts| >= 1
    requires forall i :: 0 <= i < |parts| ==> c !in parts[i]
    ensures Split(Join([c], parts), c) == parts
  {
    if |parts| == 1 {
      SplitNoSeparator(parts[0], c);
    } else {
      assert forall i :: 0 <= i < |parts| - 1 ==> parts[1..][i] == parts[i + 1];
      SplitJoin(parts[1..], c);
      SplitFirstPiece(parts[0], c, Join([c], parts[1..]));
      assert [parts[0]] + parts[1..] == parts;
    }
  }

  /** A join of two or more parts ends with the separator and the last part. */
  lemma JoinLastPart(sep: string, parts: seq<string>)
    requires |parts| >= 2
    ensures Join(sep, parts) == Join(sep, parts[..|parts| - 1]) + sep + parts[|parts| - 1]
  {
    var n := |parts| - 1;
    JoinAppend(sep, parts[..n], [parts[n]]);
    assert parts[..n] + [parts[n]] == parts;
  }

  /** The last piece of `s.split(c)` is the part of `s` after the last `c`. */
  lemma SplitLast(s: string, c: char)
    ensures var p := Split(s, c); var last := p[|p| - 1];
      |last| <= |s| && s[|s| - |last|..] == last && (|last| < |s| ==> s[|s| - |last| - 1] == c)
  {
    var p := Split(s, c);
    JoinSplit(s, c);
    if |p| > 1 {
      JoinLastPart([c], p);
      SeparatorBeforeSuffix(Join([c], p[..|p| - 1]), c, p[|p| - 1]);
    }
  }

  /** In `front + [c] + last`, `last` is the suffix and `c` is just before it. */
  lemma SeparatorBeforeSuffix(front: string, c: char, last: string)
    ensures var s := front + [c] + last;
      s[|s| - |last|..] == last && s[|s| - |last| - 1] == c
  {
  }

  /** When `b` has no `c`, the last piece of `a + [c] + b` split on `c` is `b`. */
  lemma LastPieceAfterSeparator(a: string, c: char, b: string)
    requires c !in b
    ensures var p := Split(a + [c] + b, c); p[|p| - 1] == b
  {
    SplitAround(a, c, b);
    SplitNoSeparator(b, c);
  }

  /** Joining two non-empty lists of parts puts one separator between their joins. */
  lemma {:induction false} JoinAppend(sep: string, u: seq<string>, v: seq<string>)
    requires |u| >= 1 && |v| >= 1
    ensures Join(sep, u + v) == Join(sep, u) + sep + Join(sep, v)
  {
    if |u| > 1 {
      assert (u + v)[1..] == u[1..] + v;
      JoinAppend(sep, u[1..], v);
    }
  }

  /** Splitting at an occurrence of the separator splits the two sides independently. */
  lemma SplitAround(a: string, c: char, b: string)
    ensures Split(a + [c] + b, c) == Split(a, c) + Split(b, c)
  {
    var pa := Split(a, c);
    var pb := Split(b, c);
    JoinSplit(a, c);
    JoinSplit(b, c);
    JoinAppend([c], pa, pb);
    SplitJoin(pa + pb, c);
  }

  /** `s.strip(chars)` shortens `s` when `s` ends with a character of `chars`. */
  lemma StripShortens(s: string, cs: set<char>)
    requires |s| > 0 && s[|s| - 1] in cs
    ensures |Strip(s, cs)| < |s|
  {
  }

  /** `s.strip(chars)` keeps the end of `s` when `s` does not end with a character of `chars`. */
  lemma StripKeepsEnd(s: string, cs: set<char>)
    requires |s| > 0 && s[|s| - 1] !in cs
    ensures Strip(s, cs) == s[LeadingRun(s, cs)..]
  {
  }

  // ---------------------------------------------------------------------
  // strip

  /** Length of the longest prefix of `s` made of characters of `cs`. */
  function LeadingRun(s: string, cs: set<char>): (n: nat)
    ensures n <= |s|
    ensures forall k :: 0 <= k < n ==> s[k] in cs
    ensures n < |s| ==> s[n] !in cs
  {
    if |s| == 0 || s[0] !in cs then 0 else 1 + LeadingRun(s[1..], cs)
  }

  /** Length of the longest suffix of `s` made of characters of `cs`. */
  function TrailingRun(s: string, cs: set<char>): (n: nat)
    ensures n <= |s|
    ensures forall k :: |s| - n <= k < |s| ==> s[k] in cs
    ensures n < |s| ==> s[|s| - n - 1] !in cs
  {
    if |s| == 0 || s[|s| - 1] !in cs then 0 else 1 + TrailingRun(s[..|s| - 1], cs)
  }

  /** `r` is what a strip of the characters `cs` leaves of `s`: the slice
      of `s` that starts after its leading run of `cs` characters, followed
      in `s` only by `cs` characters, and neither starting nor ending with
      one. */
  predicate IsStripOf(s: string, cs: set<char>, r: string)
  {
    LeadingRun(s, cs) + |r| <= |s|
    && r == s[LeadingRun(s, cs)..LeadingRun(s, cs) + |r|]
    && (forall k :: LeadingRun(s, cs) + |r| <= k < |s| ==> s[k] in cs)
    && (|r| > 0 ==> r[0] !in cs && r[|r| - 1] !in cs)
  }

  /** `s.strip(chars)`, with `cs` the set of characters of `chars`: a
      character-set strip, not the removal of a prefix or suffix. The result is
      the contiguous slice of `s` starting after the longest prefix of
      characters of `cs`; everything cut off at either end is in `cs`, and the
      result neither starts nor ends with a character of `cs`. */
  function Strip(s: string, cs: set<char>): (r: string)
    ensures |r| <= |s|
    ensures IsStripOf(s, cs, r)
  {
    var i := LeadingRun(s, cs);
    var t := s[i..];
    var n := TrailingRun(t, cs);
    assert |t| > 0 && n < |t| ==> t[0] !in cs;
    t[..|t| - n]
  }

  /** Any slice `s[i..j]` whose outside is made of characters of `cs` and
      whose ends are not in `cs` is what `strip` returns: the contract of
      `Strip` determines its result. */
  lemma StripCharacterised(s: string, cs: set<char>, i: nat, j: nat)
    requires i <= j <= |s|
    requires forall k :: 0 <= k < i ==> s[k] in cs
    requires forall k :: j <= k < |s| ==> s[k] in cs
    requires i < j ==> s[i] !in cs && s[j - 1] !in cs
    ensures i < j ==> Strip(s, cs) == s[i..j]
    ensures i == j ==> Strip(s, cs) == ""
  {
    var r := Strip(s, cs);
    if i < j {
      LeadingRunIs(s, cs, i);
    } else {
      LeadingRunIs(s, cs, |s|);
    }
    var l := LeadingRun(s, cs);
    assert |r| > 0 ==> r[0] == s[l] && r[|r| - 1] == s[l + |r| - 1];
  }

  /** `IsStripOf` leaves no freedom: the only text it admits is the strip. */
  lemma StripDetermined(s: string, cs: set<char>, r: string)
    requires IsStripOf(s, cs, r)
    ensures r == Strip(s, cs)
  {
    var i := LeadingRun(s, cs);
    assert |r| > 0 ==> s[i] == r[0] && s[i + |r| - 1] == r[|r| - 1];
    StripCharacterised(s, cs, i, i + |r|);
  }

  /** The leading run is the prefix of `cs` characters that ends before a non-`cs` character. */
  lemma {:induction false} LeadingRunIs(s: string, cs: set<char>, i: nat)
    requires i <= |s|
    requires forall k :: 0 <= k < i ==> s[k] in cs
    requires i < |s| ==> s[i] !in cs
    ensures LeadingRun(s, cs) == i
  {
    if i > 0 {
      assert s[0] in cs;
      LeadingRunIs(s[1..], cs, i - 1);
    }
  }

  /** Stripping twice with the same set strips nothing more. */
  lemma StripIdempotent(s: string, cs: set<char>)
    ensures Strip(Strip(s, cs), cs) == Strip(s, cs)
  {
    var r := Strip(s, cs);
    StripCharacterised(r, cs, 0, |r|);
  }

  /** `s.strip()`: removes leading and trailing whitespace. The result is
      the slice of `s` after its leading whitespace run, everything cut off
      after it is whitespace, and it has no outer whitespace of its own. */
  function StripWs(s: string): (r: string)
    ensures Trimmed(r)
    ensures |r| <= |s|
    ensures IsStripOf(s, Whitespace, r)
    ensures Trimmed(s) ==> r == s
  {
    var r := Strip(s, Whitespace);
    if Trimmed(s) then
      StripCharacterised(s, Whitespace, 0, |s|);
      r
    else r
  }

  /** Stripping whitespace from a suffix of `s` that ends in a non-whitespace
      character leaves a suffix of `s`. */
  lemma StripWsOfSuffix(t: string, s: string)
    requires |t| <= |s| && s[|s| - |t|..] == t
    requires |t| > 0 && t[|t| - 1] !in Whitespace
    ensures var r := StripWs(t); |r| <= |s| && r == s[|s| - |r|..]
  {
    StripKeepsEnd(t, Whitespace);
  }

  /** A word is stripped and has no space. */
  lemma WordIsTrimmed(w: string)
    requires IsWord(w)
    ensures Trimmed(w) && ' ' !in w
  {
    assert ' ' in Whitespace;
    assert w[0] !in Whitespace && w[|w| - 1] !in Whitespace;
  }

  /** `(u + " ").strip()` is `u` for a non-empty stripped `u`. */
  lemma StripTrailingSpace(u: string)
    requires |u| > 0 && Trimmed(u)
    ensures StripWs(u + " ") == u
  {
    var s := u + " ";
    assert s[0] == u[0] && s[|u| - 1] == u[|u| - 1] && s[|u|] == ' ';
    assert ' ' in Whitespace;
    StripCharacterised(s, Whitespace, 0, |u|);
    assert s[0..|u|] == u;
  }

  /** `(" " + b).strip()` is `b` for a non-empty stripped `b`. */
  lemma StripLeadingSpace(b: string)
    requires |b| > 0 && Trimmed(b)
    ensures StripWs(" " + b) == b
  {
    var s := " " + b;
    assert s[0] == ' ' && s[1] == b[0] && s[|s| - 1] == b[|b| - 1];
    assert ' ' in Whitespace;
    StripCharacterised(s, Whitespace, 1, |s|);
    assert s[1..] == b;
  }

  // ---------------------------------------------------------------------
  // split on runs of whitespace

  /** Length of the leading run of non-whitespace characters of `s`. */
  function WordLen(s: string): (n: nat)
    ensures n <= |s|
    ensures forall k :: 0 <= k < n ==> s[k] !in Whitespace
    ensures n < |s| ==> s[n] in Whitespace
  {
    if |s| == 0 || s[0] in Whitespace then 0 else 1 + WordLen(s[1..])
  }

  /** `s.split()`: the maximal runs of non-whitespace characters of `s`, in
      order; whitespace of any length, including at the ends, only separates. */
  function SplitWs(s: string): (r: seq<string>)
    ensures forall i :: 0 <= i < |r| ==> IsWord(r[i])
    decreases |s|
  {
    if |s| == 0 then []
    else if s[0] in Whitespace then SplitWs(s[1..])
    else
      var n := WordLen(s);
      [s[..n]] + SplitWs(s[n..])
  }

  /** Joining words with single spaces and splitting on whitespace gives the words back. */
  lemma {:induction false} SplitWsJoin(words: seq<string>)
    requires forall i :: 0 <= i < |words| ==> IsWord(words[i])
    ensures SplitWs(Join(" ", words)) == words
  {
    if |words| == 0 {
    } else {
      var w := words[0];
      var s := Join(" ", words);
      var rest := if |words| == 1 then "" else " " + Join(" ", words[1..]);
      assert s == w + rest;
      WordPrefix(w, rest);
      assert s[..|w|] == w;
      assert s[|w|..] == rest;
      SplitWsJoin(words[1..]);
      if |words| > 1 {
        assert rest[1..] == Join(" ", words[1..]);
      }
      assert [w] + words[1..] == words;
    }
  }

  /** Whitespace collapsing, read left to right in one pass: every run of
      whitespace between two non-whitespace characters becomes one space and
      runs at either end disappear. `started` says a non-whitespace character
      has been emitted; `pending` says a space is owed before the next one. */
  function CollapseFrom(s: string, started: bool, pending: bool): string
  {
    if |s| == 0 then ""
    else if s[0] in Whitespace then CollapseFrom(s[1..], started, started)
    else (if pending then " " else "") + [s[0]] + CollapseFrom(s[1..], true, false)
  }

  /** `s` with its whitespace collapsed. */
  function Collapse(s: string): string
  {
    CollapseFrom(s, false, false)
  }

  /** `" ".join(s.split())` collapses the whitespace of `s`: the words of
      `split()` are exactly what a one-pass collapse keeps, in order. */
  lemma SplitWsCollapse(s: string)
    ensures Join(" ", SplitWs(s)) == Collapse(s)
  {
    CollapseSplitWs(s, false);
  }

  /** The collapse of a text whose words are `ws`, with one space owed in
      front when `p` holds and there is a word to put it before. */
  function CollapsedWords(ws: seq<string>, p: bool): string
  {
    if ws == [] then "" else (if p then " " else "") + Join(" ", ws)
  }

  /** Induction for `SplitWsCollapse`, from either the start (`p` false) or
      just after a gap that follows a word (`p` true). */
  lemma {:induction false} CollapseSplitWs(s: string, p: bool)
    ensures CollapseFrom(s, p, p) == CollapsedWords(SplitWs(s), p)
    decreases |s|, 1
  {
    if |s| == 0 {
    } else if s[0] in Whitespace {
      SkipWhitespace(s, p);
      CollapseSplitWs(s[1..], p);
    } else {
      CollapseLeadingWord(s, p);
    }
  }

  /** The step of `CollapseSplitWs` for a text that starts with a word. */
  lemma {:induction false} CollapseLeadingWord(s: string, p: bool)
    requires |s| > 0 && s[0] !in Whitespace
    ensures CollapseFrom(s, p, p) == CollapsedWords(SplitWs(s), p)
    decreases |s|, 0
  {
    var n := WordLen(s);
    var w, rest := s[..n], s[n..];
    assert SplitWs(s) == [w] + SplitWs(rest);
    CollapseWord(s, p, p);
    assert CollapseFrom(rest, true, false) == CollapsedWords(SplitWs(rest), true) by {
      if |rest| > 0 {
        SkipWhitespace(rest, true);
        CollapseSplitWs(rest[1..], true);
      }
    }
    CollapsedWordsCons(w, SplitWs(rest), p);
  }

  /** A word in front of the words `ws` comes after the space owed, and a
      space is then owed before the words of `ws`. */
  lemma CollapsedWordsCons(w: string, ws: seq<string>, p: bool)
    ensures CollapsedWords([w] + ws, p)
      == (if p then " " else "") + w + CollapsedWords(ws, true)
  {
    JoinSpaceCons(w, ws);
    var pre: string := if p then " " else "";
    assert pre + (w + CollapsedWords(ws, true)) == pre + w + CollapsedWords(ws, true);
  }

  /** Putting a word in front of a list of words, joined by spaces. */
  lemma JoinSpaceCons(w: string, ws: seq<string>)
    ensures Join(" ", [w] + ws) == w + if ws == [] then "" else " " + Join(" ", ws)
  {
    if ws != [] {
      JoinAppend(" ", [w], ws);
    }
  }

  /** A whitespace character changes neither the words nor, after a word,
      the collapse beyond owing one space. */
  lemma SkipWhitespace(s: string, p: bool)
    requires |s| > 0 && s[0] in Whitespace
    ensures SplitWs(s) == SplitWs(s[1..])
    ensures CollapseFrom(s, p, false) == CollapseFrom(s[1..], p, p)
    ensures CollapseFrom(s, p, p) == CollapseFrom(s[1..], p, p)
  {
  }

  /** A leading word passes through the collapse unchanged, after the space
      owed before it. */
  lemma {:induction false} CollapseWord(s: string, started: bool, pending: bool)
    requires WordLen(s) > 0
    ensures CollapseFrom(s, started, pending)
      == (if pending then " " else "") + s[..WordLen(s)] + CollapseFrom(s[WordLen(s)..], true, false)
    decreases |s|
  {
    var n := WordLen(s);
    var pre: string := if pending then " " else "";
    CollapseAtWordChar(s, started, pending);
    var after := CollapseFrom(s[n..], true, false);
    if n > 1 {
      var w := s[1..][..n - 1];
      WordLenAfterFirst(s);
      CollapseWord(s[1..], true, false);
      WordSplitsAfterFirst(s, n);
      assert CollapseFrom(s[1..], true, false) == w + after by {
        assert "" + w == w;
      }
      ConcatAssoc(pre, [s[0]], w, after);
      assert CollapseFrom(s, started, pending) == pre + s[..n] + after;
    } else {
      assert s[..n] == [s[0]] && s[1..] == s[n..];
      assert CollapseFrom(s, started, pending) == pre + s[..n] + after;
    }
  }

  /** One step of the collapse at a non-whitespace character. */
  lemma CollapseAtWordChar(s: string, started: bool, pending: bool)
    requires |s| > 0 && s[0] !in Whitespace
    ensures CollapseFrom(s, started, pending)
      == (if pending then " " else "") + [s[0]] + CollapseFrom(s[1..], true, false)
  {
  }

  /** The leading word of `s[1..]` is one shorter than that of `s`. */
  lemma WordLenAfterFirst(s: string)
    requires WordLen(s) > 0
    ensures WordLen(s[1..]) == WordLen(s) - 1
  {
  }

  /** Prefix and suffix at `n` seen from the second character on. */
  lemma WordSplitsAfterFirst(s: string, n: nat)
    requires 1 <= n <= |s|
    ensures s[..n] == [s[0]] + s[1..][..n - 1]
    ensures s[n..] == s[1..][n - 1..]
  {
  }

  /** Regrouping a concatenation of four texts. */
  lemma ConcatAssoc(a: string, b: string, c: string, d: string)
    ensures a + b + (c + d) == a + (b + c) + d
  {
  }

  /** The leading word of `w + rest` is `w` when `rest` starts with whitespace or is empty. */
  lemma WordPrefix(w: string, rest: string)
    requires IsWord(w)
    requires |rest| > 0 ==> rest[0] in Whitespace
    ensures WordLen(w + rest) == |w|
  {
    var s := w + rest;
    assert forall k :: 0 <= k < |w| ==> s[k] == w[k];
    assert |rest| > 0 ==> s[|w|] == rest[0];
  }
}
