/**
 * The output-file naming of the earlier WinnowerProcessor (core.py): keep the
 * title's alphanumerics, spaces, '-' and '_', drop trailing whitespace, turn
 * spaces into '_', cut to 50 characters, fall back to "paper", and put the
 * summary file of that name into the output directory. Its _collect_papers is
 * the same dispatch as WinnowerCore.CollectPapers.
 */
module LegacyCore {
  import opened Text

  /** The characters the generator keeps: c.isalnum() or c in (' ', '-', '_'). */
  predicate Kept(c: char) {
    IsAlnum(c) || c == ' ' || c == '-' || c == '_'
  }

  /** A character a name may hold. */
  predicate NameChar(c: char) {
    IsAlnum(c) || c == '-' || c == '_'
  }

  /** A space becomes '_' (core.py line 73); every other character stays. */
  function Underscored(c: char): (u: char)
    ensures Kept(c) ==> NameChar(u)
  {
    if c == ' ' then '_' else c
  }

  /** "".join(c for c in title if ...): the kept characters, in order. */
  function KeepChars(s: string): (r: string)
    ensures |r| <= |s|
    ensures forall i :: 0 <= i < |r| ==> Kept(r[i])
    decreases |s|
  {
    if s == [] then []
    else (if Kept(s[0]) then [s[0]] else []) + KeepChars(s[1..])
  }

  /** Filtering a text with one more character at the end keeps what it kept before. */
  lemma {:induction false} KeepCharsAppend(s: string, c: char)
    ensures KeepChars(s + [c]) == KeepChars(s) + (if Kept(c) then [c] else [])
    decreases |s|
  {
    if s == [] {
      assert [] + [c] == [c];
      assert [c][1..] == [];
    } else {
      assert (s + [c])[1..] == s[1..] + [c];
      assert (s + [c])[0] == s[0];
      KeepCharsAppend(s[1..], c);
    }
  }

  /** A text made only of kept characters is its own filter. */
  lemma {:induction false} KeepCharsOfKept(s: string)
    requires forall i :: 0 <= i < |s| ==> Kept(s[i])
    ensures KeepChars(s) == s
    decreases |s|
  {
    if s != [] {
      KeepCharsOfKept(s[1..]);
      assert s == [s[0]] + s[1..];
    }
  }

  const MaxTitle := 50
  const Fallback := "paper"
  const SummarySuffix := "_technical_summary.md"

  /** core.py lines 72-73 before the fallback: filter, rstrip, spaces to '_', first 50 characters. */
  function Cut(title: string): (r: string)
    ensures |r| <= MaxTitle && |r| <= |KeepChars(title)|
    ensures forall i :: 0 <= i < |r| ==> r[i] == Underscored(KeepChars(title)[i])
  {
    var kept := KeepChars(title);
    var trimmed := RStrip(kept, Whitespace);
    var joined := ReplaceChar(trimmed, ' ', '_');
    assert forall i :: 0 <= i < |joined| ==> joined[i] == Underscored(kept[i]) by {
      forall i | 0 <= i < |joined| ensures joined[i] == Underscored(kept[i]) {
        assert trimmed[i] == kept[i];
      }
    }
    if |joined| > MaxTitle then joined[..MaxTitle] else joined
  }

  /**
   * The stem of the summary file name (core.py lines 71-76): between 1 and 50 name
   * characters, each the title's kept character at the same place with a
   * space turned into '_', unless no character survives and the stem is "paper".
   */
  function SafeTitle(title: string): (r: string)
    ensures 1 <= |r| <= MaxTitle
    ensures forall i :: 0 <= i < |r| ==> NameChar(r[i])
    ensures forall i :: 0 <= i < |r| ==> r[i] != '.' && r[i] != '/' && r[i] != '\\'
    ensures r == Fallback || (|r| <= |KeepChars(title)| && forall i :: 0 <= i < |r| ==> r[i] == Underscored(KeepChars(title)[i]))
    ensures Cut(title) != [] ==> r == Cut(title)
    ensures Cut(title) == [] ==> r == Fallback
  {
    NameCharsOf(title);
    if Cut(title) == [] then Fallback else Cut(title)
  }

  /** The cut and the fallback hold only name characters, so no '.', '/' or '\\'. */
  lemma NameCharsOf(title: string)
    ensures forall i :: 0 <= i < |Cut(title)| ==> NameChar(Cut(title)[i]) && Cut(title)[i] !in {'.', '/', '\\'}
    ensures forall i :: 0 <= i < |Fallback| ==> NameChar(Fallback[i]) && Fallback[i] !in {'.', '/', '\\'}
  {
    var cut := Cut(title);
    var kept := KeepChars(title);
    forall i | 0 <= i < |cut| ensures NameChar(cut[i]) {
      assert Kept(kept[i]);
    }
    assert forall i :: 0 <= i < |Fallback| ==> IsAsciiLetter(Fallback[i]);
  }

  /**
   * The summary file's path, as the directory's segments followed by one more
   * segment (core.py line 78): the name cannot leave the directory.
   */
  function OutputFile(outputDir: seq<string>, title: string): (path: seq<string>)
    ensures |path| == |outputDir| + 1 && path[..|outputDir|] == outputDir
    ensures path[|outputDir|] == SafeTitle(title) + SummarySuffix
    ensures forall i :: 0 <= i < |path[|outputDir|]| ==> path[|outputDir|][i] != '/' && path[|outputDir|][i] != '\\'
    ensures path[|outputDir|] != "." && path[|outputDir|] != ".."
  {
    var name := SafeTitle(title) + SummarySuffix;
    NoSeparatorInName(SafeTitle(title));
    outputDir + [name]
  }

  lemma NoSeparatorInName(stem: string)
    requires forall i :: 0 <= i < |stem| ==> stem[i] != '/' && stem[i] != '\\'
    ensures forall i :: 0 <= i < |stem + SummarySuffix| ==>
      (stem + SummarySuffix)[i] != '/' && (stem + SummarySuffix)[i] != '\\'
    ensures |stem + SummarySuffix| > 2
  {
    var name := stem + SummarySuffix;
    forall i | 0 <= i < |name| ensures name[i] != '/' && name[i] != '\\' {
      if i < |stem| { assert name[i] == stem[i]; } else { assert name[i] == SummarySuffix[i - |stem|]; }
    }
  }

  /**
   * A title without a letter, digit, '-' or '_' gets the name "paper"; a title
   * with one never falls back: its stem is the cut of its kept characters.
   */
  lemma FallbackWhenNothingKept(title: string)
    ensures (forall i :: 0 <= i < |title| ==> !NameChar(title[i])) ==> SafeTitle(title) == Fallback
    ensures (exists i :: 0 <= i < |title| && NameChar(title[i])) ==> Cut(title) != [] && SafeTitle(title) == Cut(title)
  {
    if forall i :: 0 <= i < |title| ==> !NameChar(title[i]) {
      OnlySpacesKept(title);
      AllSpacesStripped(KeepChars(title));
    } else {
      var j :| 0 <= j < |title| && NameChar(title[j]);
      KeptNameCharStays(title, j);
      var k := KeepChars(title);
      var i :| 0 <= i < |k| && NameChar(k[i]);
      NameCharSurvivesRStrip(k, i);
    }
  }

  lemma {:induction false} OnlySpacesKept(s: string)
    requires forall i :: 0 <= i < |s| ==> !NameChar(s[i])
    ensures forall i :: 0 <= i < |KeepChars(s)| ==> KeepChars(s)[i] == ' '
    decreases |s|
  {
    if s != [] {
      OnlySpacesKept(s[1..]);
    }
  }

  lemma {:induction false} AllSpacesStripped(k: string)
    requires forall i :: 0 <= i < |k| ==> k[i] == ' '
    ensures RStrip(k, Whitespace) == []
    decreases |k|
  {
    if k != [] {
      assert k[|k| - 1] in Whitespace by { assert IsSpace(' '); }
      AllSpacesStripped(k[..|k| - 1]);
    }
  }

  lemma {:induction false} KeptNameCharStays(s: string, j: nat)
    requires j < |s| && NameChar(s[j])
    ensures exists i :: 0 <= i < |KeepChars(s)| && NameChar(KeepChars(s)[i])
    decreases |s|
  {
    var head := if Kept(s[0]) then [s[0]] else [];
    assert KeepChars(s) == head + KeepChars(s[1..]);
    if j == 0 {
      assert KeepChars(s)[0] == s[0];
    } else {
      KeptNameCharStays(s[1..], j - 1);
      var i :| 0 <= i < |KeepChars(s[1..])| && NameChar(KeepChars(s[1..])[i]);
      assert KeepChars(s)[|head| + i] == KeepChars(s[1..])[i];
    }
  }

  lemma NameCharSurvivesRStrip(k: string, i: nat)
    requires i < |k| && NameChar(k[i])
    ensures RStrip(k, Whitespace) != []
  {
  }

  /** Trailing spaces and dropped characters do not change the name: the rstrip runs before spaces become '_'. */
  lemma TrailingIgnored(title: string, c: char)
    requires c == ' ' || !Kept(c)
    ensures SafeTitle(title + [c]) == SafeTitle(title)
  {
    KeepCharsAppend(title, c);
    var k := KeepChars(title);
    if c == ' ' {
      RStripSpaceEnd(k);
    } else {
      assert k + [] == k;
    }
    CutOfTrimmed(title + [c], title);
  }

  lemma RStripSpaceEnd(k: string)
    ensures RStrip(k + [' '], Whitespace) == RStrip(k, Whitespace)
  {
    assert ' ' in Whitespace by { assert IsSpace(' '); }
    assert (k + [' '])[..|k|] == k;
  }

  /** The cut depends on the title only through its filtered, right-stripped text. */
  lemma CutOfTrimmed(t1: string, t2: string)
    requires RStrip(KeepChars(t1), Whitespace) == RStrip(KeepChars(t2), Whitespace)
    ensures Cut(t1) == Cut(t2)
  {
  }


  /** Kept characters with no space at the end, at most 50 of them, are cut to their own length. */
  lemma CutOfKept(s: string)
    requires forall i :: 0 <= i < |s| ==> Kept(s[i])
    requires s != [] ==> s[|s| - 1] != ' '
    requires |s| <= MaxTitle
    ensures KeepChars(s) == s && |Cut(s)| == |s|
  {
    KeepCharsOfKept(s);
    if s != [] {
      KeptNotSpace(s[|s| - 1]);
    }
    CutLength(s);
  }

  lemma KeptNotSpace(c: char)
    requires Kept(c) && c != ' '
    ensures c !in Whitespace
  {
  }

  /** The cut is as long as the filtered, right-stripped title, up to 50. */
  lemma CutLength(title: string)
    ensures |Cut(title)| == if |RStrip(KeepChars(title), Whitespace)| > MaxTitle then MaxTitle
                            else |RStrip(KeepChars(title), Whitespace)|
  {
  }


  /** Such a text, cut, is itself with spaces turned into '_'; being non-empty, it is the stem. */
  lemma CutIsUnderscored(s: string, expected: string)
    requires KeepChars(s) == s && |Cut(s)| == |s| && |expected| == |s| && s != []
    requires forall i :: 0 <= i < |s| ==> Underscored(s[i]) == expected[i]
    ensures SafeTitle(s) == expected
  {
    var c := Cut(s);
    assert c == expected by {
      forall i | 0 <= i < |s| ensures c[i] == expected[i] {
        assert c[i] == Underscored(s[i]);
      }
    }
  }

  /** The generator is idempotent: a generated name is its own name. */
  lemma SafeTitleIdempotent(title: string)
    ensures SafeTitle(SafeTitle(title)) == SafeTitle(title)
  {
    NameIsOwnTitle(SafeTitle(title));
  }

  /** A text of 1 to 50 name characters is its own stem. */
  lemma NameIsOwnTitle(r: string)
    requires 1 <= |r| <= MaxTitle
    requires forall i :: 0 <= i < |r| ==> NameChar(r[i])
    ensures SafeTitle(r) == r
  {
    assert r[|r| - 1] != ' ' by { assert NameChar(r[|r| - 1]); }
    CutOfKept(r);
    CutIsUnderscored(r, r);
  }

  /** "Hello World" is written to "Hello_World_technical_summary.md". */
  lemma HelloWorldExample(title: string)
    requires title == "Hello World"
    ensures SafeTitle(title) == "Hello_World"
  {
    var a, b := "Hello", "World";
    HelloWorldWords(title, a, b);
    WordsJoined(title, a, b, "Hello_World");
  }

  lemma HelloWorldWords(title: string, a: string, b: string)
    requires title == "Hello World" && a == "Hello" && b == "World"
    ensures title == a + " " + b && "Hello_World" == a + "_" + b
    ensures forall i :: 0 <= i < |a| ==> IsAsciiLetter(a[i])
    ensures forall i :: 0 <= i < |b| ==> IsAsciiLetter(b[i])
    ensures b != [] && |a| + 1 + |b| <= MaxTitle
  {
  }

  /** Two words of letters joined by one space become the words joined by '_'. */
  lemma WordsJoined(title: string, a: string, b: string, expected: string)
    requires title == a + " " + b && expected == a + "_" + b
    requires forall i :: 0 <= i < |a| ==> IsAsciiLetter(a[i])
    requires forall i :: 0 <= i < |b| ==> IsAsciiLetter(b[i])
    requires b != [] && |a| + 1 + |b| <= MaxTitle
    ensures SafeTitle(title) == expected
  {
    assert forall i :: 0 <= i < |title| ==> Kept(title[i]) && Underscored(title[i]) == expected[i] by {
      forall i | 0 <= i < |title| ensures Kept(title[i]) && Underscored(title[i]) == expected[i] {
        if i < |a| {
          assert title[i] == a[i] && expected[i] == a[i];
        } else if i > |a| {
          assert title[i] == b[i - |a| - 1] && expected[i] == b[i - |a| - 1];
        }
      }
    }
    assert title[|title| - 1] == b[|b| - 1];
    CutOfKept(title);
    CutIsUnderscored(title, expected);
  }
}
