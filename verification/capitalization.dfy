/** Python's `string.capwords(s)`: split `s` on whitespace, capitalize every
    word, and join the words with single spaces. Case mapping is restricted
    to the ASCII letters. */
module Capitalization {
  import opened PyStrings

  /** Upper-case of an ASCII letter; every other character is left alone. */
  function Upper(ch: char): char
  {
    if 'a' <= ch <= 'z' then (ch as int - 32) as char else ch
  }

  /** Lower-case of an ASCII letter; every other character is left alone. */
  function Lower(ch: char): char
  {
    if 'A' <= ch <= 'Z' then (ch as int + 32) as char else ch
  }

  /** An ASCII upper-case letter. */
  predicate IsUpperLetter(ch: char)
  {
    'A' <= ch <= 'Z'
  }

  /** An ASCII lower-case letter. */
  predicate IsLowerLetter(ch: char)
  {
    'a' <= ch <= 'z'
  }

  /** `w.capitalize()`: the first character upper-cased and the rest
      lower-cased. Each character of the result differs from the one it
      replaces at most in case; the first is no lower-case letter and no
      later one is an upper-case letter. */
  function Capitalize(w: string): (r: string)
    ensures |r| == |w|
    ensures forall k :: 0 <= k < |w| ==> Lower(r[k]) == Lower(w[k])
    ensures |r| > 0 ==> !IsLowerLetter(r[0])
    ensures forall k :: 0 < k < |r| ==> !IsUpperLetter(r[k])
    ensures forall k :: 0 <= k < |w| ==> (r[k] in Whitespace <==> w[k] in Whitespace)
  {
    if |w| == 0 then ""
    else
      var r := [Upper(w[0])] + seq(|w| - 1, k requires 0 <= k < |w| - 1 => Lower(w[k + 1]));
      assert forall k :: 0 <= k < |w| ==>
        Lower(r[k]) == Lower(w[k]) && (r[k] in Whitespace <==> w[k] in Whitespace)
        && (k == 0 ==> !IsLowerLetter(r[k])) && (k > 0 ==> !IsUpperLetter(r[k])) by {
        forall k | 0 <= k < |w|
          ensures Lower(r[k]) == Lower(w[k]) && (r[k] in Whitespace <==> w[k] in Whitespace)
          ensures k == 0 ==> !IsLowerLetter(r[k])
          ensures k > 0 ==> !IsUpperLetter(r[k])
        {
          CaseKeepsWhitespace(w[k]);
          CaseKeepsLower(w[k]);
          assert r[k] == if k == 0 then Upper(w[k]) else Lower(w[k]);
        }
      }
      r
  }

  /** Changing the case of a character keeps its lower-case, and leaves
      no letter of the other case. */
  lemma CaseKeepsLower(ch: char)
    ensures Lower(Upper(ch)) == Lower(ch) && Lower(Lower(ch)) == Lower(ch)
    ensures !IsLowerLetter(Upper(ch)) && !IsUpperLetter(Lower(ch))
  {
  }

  /** Changing the case of a character never makes or unmakes whitespace. */
  lemma CaseKeepsWhitespace(ch: char)
    ensures Upper(ch) in Whitespace <==> ch in Whitespace
    ensures Lower(ch) in Whitespace <==> ch in Whitespace
  {
  }

  /** The contract of `Capitalize` leaves no freedom: any text of the same
      length that differs from `w` only in case, starts with no lower-case
      letter and has no upper-case letter after that is `Capitalize(w)`. */
  lemma CapitalizeDetermined(w: string, r: string)
    requires |r| == |w|
    requires forall k :: 0 <= k < |w| ==> Lower(r[k]) == Lower(w[k])
    requires |r| > 0 ==> !IsLowerLetter(r[0])
    requires forall k :: 0 < k < |r| ==> !IsUpperLetter(r[k])
    ensures r == Capitalize(w)
  {
    var c := Capitalize(w);
    forall k | 0 <= k < |w|
      ensures r[k] == c[k]
    {
      SameCaseClass(r[k], c[k], k == 0);
    }
  }

  /** Two characters with the same lower-case that agree on being no
      lower-case letter (or on being no upper-case letter) are equal. */
  lemma SameCaseClass(a: char, b: char, first: bool)
    requires Lower(a) == Lower(b)
    requires first ==> !IsLowerLetter(a) && !IsLowerLetter(b)
    requires !first ==> !IsUpperLetter(a) && !IsUpperLetter(b)
    ensures a == b
  {
  }

  /** Capitalizing a capitalized word changes nothing. */
  lemma CapitalizeIdempotent(w: string)
    ensures Capitalize(Capitalize(w)) == Capitalize(w)
  {
  }

  /** `map(str.capitalize, words)`. */
  function CapitalizeAll(words: seq<string>): (r: seq<string>)
    ensures |r| == |words|
    ensures forall i :: 0 <= i < |words| && IsWord(words[i]) ==> IsWord(r[i])
  {
    seq(|words|, i requires 0 <= i < |words| => Capitalize(words[i]))
  }

  /** Every whitespace character of `s` is a single space with a
      non-whitespace character on each side; in particular `s` has no
      leading or trailing whitespace and no run of spaces. */
  predicate SingleSpaced(s: string)
  {
    forall k :: 0 <= k < |s| && s[k] in Whitespace ==>
      s[k] == ' ' && 0 < k < |s| - 1 && s[k - 1] !in Whitespace && s[k + 1] !in Whitespace
  }

  /** `string.capwords(s)` with the default separator. The result is single
      spaced, and its words are the capitalized words of `s`, in order. */
  function CapWords(s: string): (r: string)
    ensures SingleSpaced(r)
    ensures Trimmed(r)
    ensures SplitWs(r) == CapitalizeAll(SplitWs(s))
  {
    var words := CapitalizeAll(SplitWs(s));
    JoinWordsSingleSpaced(words);
    SplitWsJoin(words);
    Join(" ", words)
  }

  /** Words joined with single spaces are single spaced. */
  lemma {:induction false} JoinWordsSingleSpaced(words: seq<string>)
    requires forall i :: 0 <= i < |words| ==> IsWord(words[i])
    ensures SingleSpaced(Join(" ", words))
  {
    if |words| > 1 {
      var rest := Join(" ", words[1..]);
      JoinWordsSingleSpaced(words[1..]);
      JoinHead(" ", words[1..]);
      assert rest[0] == words[1][0];
      SpaceBeforeSingleSpaced(words[0], rest);
    }
  }

  /** A word, a space and a single-spaced text that starts with a
      non-whitespace character make a single-spaced text. */
  lemma SpaceBeforeSingleSpaced(w: string, rest: string)
    requires IsWord(w) && SingleSpaced(rest)
    requires |rest| > 0 && rest[0] !in Whitespace
    ensures SingleSpaced(w + " " + rest)
  {
    var s := w + " " + rest;
    assert forall k :: 0 <= k < |w| ==> s[k] == w[k];
    assert forall k :: |w| < k < |s| ==> s[k] == rest[k - |w| - 1];
    assert s[|w|] == ' ';
  }

  /** Applying `capwords` twice gives the same result as applying it once. */
  lemma CapWordsIdempotent(s: string)
    ensures CapWords(CapWords(s)) == CapWords(s)
  {
    var words := CapitalizeAll(SplitWs(s));
    forall i | 0 <= i < |words|
      ensures Capitalize(words[i]) == words[i]
    {
      CapitalizeIdempotent(SplitWs(s)[i]);
    }
    assert CapitalizeAll(words) == words;
  }

  /** `capwords` of words joined with single spaces capitalizes each word in place. */
  lemma CapWordsOfWords(words: seq<string>)
    requires forall i :: 0 <= i < |words| ==> IsWord(words[i])
    ensures CapWords(Join(" ", words)) == Join(" ", CapitalizeAll(words))
  {
    SplitWsJoin(words);
  }

  /** The heading format the AFI list uses, capitalized word by word. */
  lemma CapWordsCitizenKane()
    ensures CapWords("CITIZEN KANE (1941)") == "Citizen Kane (1941)"
  {
    CitizenKaneWords();
    CitizenKaneAreWords();
    CapWordsOfWords(["CITIZEN", "KANE", "(1941)"]);
    CitizenKaneCapitalized();
  }

  /** The three items of `"CITIZEN KANE (1941)".split()` are words. */
  lemma CitizenKaneAreWords()
    ensures forall i :: 0 <= i < 3 ==> IsWord(["CITIZEN", "KANE", "(1941)"][i])
  {
    CitizenIsWord();
    KaneIsWord();
    YearIsWord();
    WordsAreWords("CITIZEN", "KANE", "(1941)");
  }

  /** `"CITIZEN"` is one word. */
  lemma CitizenIsWord()
    ensures IsWord("CITIZEN")
  {
  }

  /** `"KANE"` is one word. */
  lemma KaneIsWord()
    ensures IsWord("KANE")
  {
  }

  /** `"(1941)"` is one word. */
  lemma YearIsWord()
    ensures IsWord("(1941)")
  {
  }

  /** Three words make a list of words. */
  lemma WordsAreWords(a: string, b: string, c: string)
    requires IsWord(a) && IsWord(b) && IsWord(c)
    ensures forall i :: 0 <= i < 3 ==> IsWord([a, b, c][i])
  {
  }

  /** The three words joined by spaces give the AFI heading text back. */
  lemma CitizenKaneWords()
    ensures Join(" ", ["CITIZEN", "KANE", "(1941)"]) == "CITIZEN KANE (1941)"
  {
    JoinThree(" ", "CITIZEN", "KANE", "(1941)");
  }

  /** The capitalized words of the heading, joined by spaces, are the expected entry. */
  lemma CitizenKaneCapitalized()
    ensures Join(" ", CapitalizeAll(["CITIZEN", "KANE", "(1941)"])) == "Citizen Kane (1941)"
  {
    CitizenKaneWordsCapitalized();
    CitizenKaneJoined();
  }

  /** Capitalizing the three words one by one. */
  lemma CitizenKaneWordsCapitalized()
    ensures CapitalizeAll(["CITIZEN", "KANE", "(1941)"]) == ["Citizen", "Kane", "(1941)"]
  {
    CapitalizeAllThree("CITIZEN", "KANE", "(1941)");
    CapitalizeCitizen();
    CapitalizeKane();
    CapitalizeYear();
  }

  /** The three capitalized words joined by spaces. */
  lemma CitizenKaneJoined()
    ensures Join(" ", ["Citizen", "Kane", "(1941)"]) == "Citizen Kane (1941)"
  {
    JoinThree(" ", "Citizen", "Kane", "(1941)");
  }

  /** `"CITIZEN".capitalize()` is `"Citizen"`. */
  lemma CapitalizeCitizen()
    ensures Capitalize("CITIZEN") == "Citizen"
  {
  }

  /** `"KANE".capitalize()` is `"Kane"`. */
  lemma CapitalizeKane()
    ensures Capitalize("KANE") == "Kane"
  {
  }

  /** `"(1941)".capitalize()` leaves the year as it is. */
  lemma CapitalizeYear()
    ensures Capitalize("(1941)") == "(1941)"
  {
  }

  /** Capitalizing a list of three words capitalizes each of them. */
  lemma CapitalizeAllThree(a: string, b: string, c: string)
    ensures CapitalizeAll([a, b, c]) == [Capitalize(a), Capitalize(b), Capitalize(c)]
  {
  }

  /** Joining three parts puts the separator between each neighbouring pair. */
  lemma JoinThree(sep: string, a: string, b: string, c: string)
    ensures Join(sep, [a, b, c]) == a + sep + b + sep + c
  {
    assert [a, b, c][1..] == [b, c];
    assert [b, c][1..] == [c];
    assert Join(sep, [c]) == c;
    assert Join(sep, [b, c]) == b + sep + c;
  }
}
