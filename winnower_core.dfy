/**
 * The filename generator and source collection of WinnowerProcessor
 * (winnower/core.py). The generator is a fixed chain of rewrites of the title;
 * each stage is a function below, and SafeFilename is their composition.
 */
module WinnowerCore {
  import opened Text

  /** The characters replaced by '_' first: < > : " / \ | ? * and the controls 0x00-0x1F. */
  predicate IsUnsafe(c: char) {
    c == '<' || c == '>' || c == ':' || c == '"' || c == '/' || c == '\\' || c == '|' || c == '?' || c == '*'
    || c < ' '
  }

  /** A character that may appear in a generated name. */
  predicate Allowed(c: char) {
    !IsUnsafe(c) && c != '~' && c !in Whitespace
  }

  predicate NoDoubleDot(s: string) {
    forall i :: 0 <= i < |s| - 1 ==> !PairIn(s, i, {'.'})
  }

  /** No unsafe character, no '~', no whitespace and no ".." anywhere. */
  predicate IsSafe(s: string) {
    (forall i :: 0 <= i < |s| ==> Allowed(s[i])) && NoDoubleDot(s)
  }

  lemma SliceNoDoubleDot(s: string, lo: nat, hi: nat)
    requires lo <= hi <= |s| && NoDoubleDot(s)
    ensures NoDoubleDot(s[lo..hi])
    ensures hi == |s| ==> NoDoubleDot(s[lo..])
  {
    assert hi == |s| ==> s[lo..hi] == s[lo..];
    var t := s[lo..hi];
    forall i | 0 <= i < |t| - 1 ensures !PairIn(t, i, {'.'}) {
      assert !PairIn(s, lo + i, {'.'});
      assert t[i] == s[lo + i] && t[i + 1] == s[lo + i + 1];
    }
  }

  lemma SliceIsSafe(s: string, lo: nat, hi: nat)
    requires lo <= hi <= |s| && IsSafe(s)
    ensures IsSafe(s[lo..hi])
  {
    SliceNoDoubleDot(s, lo, hi);
    var t := s[lo..hi];
    forall i | 0 <= i < |t| ensures Allowed(t[i]) {
      assert t[i] == s[lo + i];
    }
  }

  // ---------------------------------------------------------------------------
  // Stages of _generate_safe_filename

  /** re.sub of the unsafe class by '_'. */
  function ReplaceUnsafe(title: string): (r: string)
    ensures |r| == |title|
    ensures forall i :: 0 <= i < |r| ==> !IsUnsafe(r[i])
    ensures forall i :: 0 <= i < |r| ==> (IsUnsafe(title[i]) ==> r[i] == '_') && (!IsUnsafe(title[i]) ==> r[i] == title[i])
  {
    seq(|title|, i requires 0 <= i < |title| => if IsUnsafe(title[i]) then '_' else title[i])
  }

  /** A text of '_' and characters of a suffix of s holds only '_' and characters of s. */
  lemma KeptFromSuffix(s: string, k: nat, t: string)
    requires k <= |s|
    requires forall i :: 0 <= i < |t| ==> t[i] == '_' || t[i] in s[k..]
    ensures forall i :: 0 <= i < |t| ==> t[i] == '_' || t[i] in s
  {
    forall i | 0 <= i < |t| && t[i] != '_' ensures t[i] in s {
      var j :| 0 <= j < |s[k..]| && s[k..][j] == t[i];
      assert s[k + j] == t[i];
    }
  }

  /** s.replace("..", "_"): left to right, matches do not overlap. */
  function ReplaceDoubleDot(s: string): (r: string)
    ensures |r| <= |s|
    ensures NoDoubleDot(r)
    ensures forall i :: 0 <= i < |r| ==> r[i] == '_' || r[i] in s
    ensures s != [] ==> r != [] && r[0] == if |s| >= 2 && s[0] == '.' && s[1] == '.' then '_' else s[0]
    ensures NoDoubleDot(s) ==> r == s
  {
    if s == [] then []
    else if |s| >= 2 && s[0] == '.' && s[1] == '.' then
      var t := ReplaceDoubleDot(s[2..]);
      KeptFromSuffix(s, 2, t);
      assert PairIn(s, 0, {'.'});
      PairsAfterCons('_', t, {'.'});
      "_" + t
    else
      var t := ReplaceDoubleDot(s[1..]);
      KeptFromSuffix(s, 1, t);
      assert NoDoubleDot(s) ==> NoDoubleDot(s[1..]) by {
        if NoDoubleDot(s) { SliceNoDoubleDot(s, 1, |s|); }
      }
      assert s[0] == '.' && |s| >= 2 ==> t[0] != '.';
      PairsAfterCons(s[0], t, {'.'});
      [s[0]] + t
  }

  /**
   * Outside the matches nothing changes: the characters other than '.' and '_'
   * stay in order, and each of the |s| - |r| replacements turns two dots into
   * one '_'.
   */
  lemma {:induction false} ReplaceDoubleDotKeepsRest(s: string)
    ensures var r := ReplaceDoubleDot(s);
      Without(r, {'.', '_'}) == Without(s, {'.', '_'})
      && Count(r, '_') == Count(s, '_') + (|s| - |r|)
      && Count(r, '.') + 2 * (|s| - |r|) == Count(s, '.')
  {
    ReplaceDoubleDotOthers(s);
    ReplaceDoubleDotCounts(s);
  }

  /** The number of occurrences of c in s. */
  function Count(s: string, c: char): nat
  {
    if s == [] then 0 else (if s[0] == c then 1 else 0) + Count(s[1..], c)
  }

  lemma {:induction false} ReplaceDoubleDotOthers(s: string)
    ensures Without(ReplaceDoubleDot(s), {'.', '_'}) == Without(s, {'.', '_'})
    decreases |s|
  {
    if s != [] {
      var d: set<char> := {'.', '_'};
      if |s| >= 2 && s[0] == '.' && s[1] == '.' {
        var t := ReplaceDoubleDot(s[2..]);
        ReplaceDoubleDotOthers(s[2..]);
        assert s[1..] == [s[1]] + s[2..];
        WithoutCons(s[1], s[2..], d);
        WithoutCons('_', t, d);
      } else {
        ReplaceDoubleDotOthers(s[1..]);
        WithoutCons(s[0], ReplaceDoubleDot(s[1..]), d);
      }
    }
  }

  lemma {:induction false} ReplaceDoubleDotCounts(s: string)
    ensures var r := ReplaceDoubleDot(s);
      Count(r, '_') == Count(s, '_') + (|s| - |r|) && Count(r, '.') + 2 * (|s| - |r|) == Count(s, '.')
    decreases |s|
  {
    if s != [] {
      if |s| >= 2 && s[0] == '.' && s[1] == '.' {
        var t := ReplaceDoubleDot(s[2..]);
        ReplaceDoubleDotCounts(s[2..]);
        assert s[1..][1..] == s[2..];
        assert ("_" + t)[1..] == t;
      } else {
        var t := ReplaceDoubleDot(s[1..]);
        ReplaceDoubleDotCounts(s[1..]);
        assert ([s[0]] + t)[1..] == t;
      }
    }
  }

  /**
   * The replacement takes the leftmost "..": text without "..", not ending in
   * '.', is copied, the first ".." after it becomes '_', and the rest is
   * replaced in turn. With NoDoubleDot(s) ==> r == s this fixes every result.
   */
  lemma {:induction false} ReplaceDoubleDotLeftmost(a: string, b: string)
    requires NoDoubleDot(a) && (a == [] || a[|a| - 1] != '.')
    ensures ReplaceDoubleDot(a + (".." + b)) == a + ("_" + ReplaceDoubleDot(b))
  {
    PrefixCopied(a, ".." + b);
    assert (".." + b)[2..] == b;
    DoubleDotStep(".." + b);
  }

  /** A prefix without "..", not ending in '.', is copied unchanged. */
  lemma {:induction false} PrefixCopied(a: string, b: string)
    requires NoDoubleDot(a) && (a == [] || a[|a| - 1] != '.')
    ensures ReplaceDoubleDot(a + b) == a + ReplaceDoubleDot(b)
    decreases |a|
  {
    if a == [] {
      assert a + b == b;
    } else {
      var s := a + b;
      assert |a| >= 2 ==> !PairIn(a, 0, {'.'});
      SliceNoDoubleDot(a, 1, |a|);
      assert s[1..] == a[1..] + b;
      OtherStep(s);
      PrefixCopied(a[1..], b);
      ConsAppend(a, ReplaceDoubleDot(b));
    }
  }

  lemma {:induction false} DoubleDotStep(s: string)
    requires |s| >= 2 && s[0] == '.' && s[1] == '.'
    ensures ReplaceDoubleDot(s) == "_" + ReplaceDoubleDot(s[2..])
  {
  }

  lemma {:induction false} OtherStep(s: string)
    requires s != [] && !(|s| >= 2 && s[0] == '.' && s[1] == '.')
    ensures ReplaceDoubleDot(s) == [s[0]] + ReplaceDoubleDot(s[1..])
  {
  }

  /** A run of whitespace becomes one '_', so two dots never become neighbours. */
  lemma {:induction false} CollapseKeepsNoDoubleDot(s: string)
    requires NoDoubleDot(s)
    ensures NoDoubleDot(CollapseRuns(s, Whitespace, '_'))
    decreases |s|
  {
    if s != [] {
      if s[0] in Whitespace {
        var rest := LStrip(s, Whitespace);
        SliceNoDoubleDot(s, |s| - |rest|, |s|);
        CollapseKeepsNoDoubleDot(rest);
        PairsAfterCons('_', CollapseRuns(rest, Whitespace, '_'), {'.'});
      } else {
        SliceNoDoubleDot(s, 1, |s|);
        CollapseKeepsNoDoubleDot(s[1..]);
        var t := CollapseRuns(s[1..], Whitespace, '_');
        assert |s| > 1 && s[0] == '.' ==> s[1] != '.' by {
          if |s| > 1 { assert !PairIn(s, 0, {'.'}); }
        }
        PairsAfterCons(s[0], t, {'.'});
      }
    }
  }

  /** winnower/core.py lines 120-123: after these replacements no unsafe character, no '~' and no ".." is left. */
  function Replaced(title: string): (r: string)
    ensures forall i :: 0 <= i < |r| ==> !IsUnsafe(r[i]) && r[i] != '~'
    ensures NoDoubleDot(r)
  {
    var s1 := ReplaceUnsafe(title);
    var s2 := ReplaceDoubleDot(s1);
    TildeReplacedIsSafe(s1, s2);
    ReplaceChar(s2, '~', '_')
  }

  lemma TildeReplacedIsSafe(s1: string, s2: string)
    requires forall i :: 0 <= i < |s1| ==> !IsUnsafe(s1[i])
    requires forall i :: 0 <= i < |s2| ==> s2[i] == '_' || s2[i] in s1
    requires NoDoubleDot(s2)
    ensures var s3 := ReplaceChar(s2, '~', '_');
      (forall i :: 0 <= i < |s3| ==> !IsUnsafe(s3[i]) && s3[i] != '~') && NoDoubleDot(s3)
  {
    var s3 := ReplaceChar(s2, '~', '_');
    forall i | 0 <= i < |s3| ensures !IsUnsafe(s3[i]) && s3[i] != '~' {
      if s2[i] != '_' {
        var j :| 0 <= j < |s1| && s1[j] == s2[i];
      }
    }
    forall i | 0 <= i < |s3| - 1 ensures !PairIn(s3, i, {'.'}) {
      assert !PairIn(s2, i, {'.'});
    }
  }

  /** Collapsing whitespace to '_' keeps the characters that were already allowed. */
  lemma CollapseIsSafe(s: string)
    requires forall i :: 0 <= i < |s| ==> !IsUnsafe(s[i]) && s[i] != '~'
    requires NoDoubleDot(s)
    ensures IsSafe(CollapseRuns(s, Whitespace, '_'))
  {
    var r := CollapseRuns(s, Whitespace, '_');
    CollapseKeepsNoDoubleDot(s);
    forall i | 0 <= i < |r| ensures Allowed(r[i]) {
      CollapsedCharAllowed(s, i);
    }
  }

  lemma CollapsedCharAllowed(s: string, i: nat)
    requires forall i :: 0 <= i < |s| ==> !IsUnsafe(s[i]) && s[i] != '~'
    requires i < |CollapseRuns(s, Whitespace, '_')|
    ensures Allowed(CollapseRuns(s, Whitespace, '_')[i])
  {
    var r := CollapseRuns(s, Whitespace, '_');
    CollapsedChars(s, Whitespace, '_');
    if r[i] != '_' {
      var j :| 0 <= j < |s| && s[j] == r[i];
    }
  }

  /** winnower/core.py lines 120-126: unsafe characters, "..", '~' and whitespace runs all become '_'. */
  function Scrub(title: string): (r: string)
    ensures IsSafe(r)
  {
    var s := Replaced(title);
    CollapseIsSafe(s);
    CollapseRuns(s, Whitespace, '_')
  }

  const TrimmedChars: set<char> := {'_', '-', ' '}

  /**
   * winnower/core.py line 129: lstrip('.') and then strip('_- '). The leading
   * dots go first (LStrip's contract: what is left is a suffix of s), and the
   * result is the slice of that suffix with only '_', '-' and ' ' dropped on
   * either side of it.
   */
  function TrimEnds(s: string): (r: string)
    ensures r == [] || (r[0] !in TrimmedChars && r[|r| - 1] !in TrimmedChars)
    ensures TrimmedSlice(LStrip(s, {'.'}), r, |LStrip(s, {'.'})| - |LStrip(LStrip(s, {'.'}), TrimmedChars)|,
      TrimmedChars, TrimmedChars)
    ensures IsSafe(s) ==> IsSafe(r)
  {
    TrimEndsFacts(s);
    Strip(LStrip(s, {'.'}), TrimmedChars)
  }

  lemma {:induction false} TrimEndsFacts(s: string)
    ensures TrimmedSlice(LStrip(s, {'.'}), Strip(LStrip(s, {'.'}), TrimmedChars),
      |LStrip(s, {'.'})| - |LStrip(LStrip(s, {'.'}), TrimmedChars)|, TrimmedChars, TrimmedChars)
    ensures IsSafe(s) ==> IsSafe(Strip(LStrip(s, {'.'}), TrimmedChars))
  {
    LStripThenStrip(s, {'.'}, TrimmedChars);
  }

  /** s.lstrip(a).strip(b): strip's slice contract on the lstripped text, and safety kept. */
  lemma {:induction false} LStripThenStrip(s: string, a: set<char>, b: set<char>)
    ensures TrimmedSlice(LStrip(s, a), Strip(LStrip(s, a), b), |LStrip(s, a)| - |LStrip(LStrip(s, a), b)|, b, b)
    ensures IsSafe(s) ==> IsSafe(Strip(LStrip(s, a), b))
  {
    StripIsTrimmedSlice(LStrip(s, a), b);
    StrippedIsSafe(s, a);
    StrippedIsSafe(LStrip(s, a), b);
  }

  /** Stripping characters from the ends keeps a safe text safe. */
  lemma {:induction false} StrippedIsSafe(s: string, cs: set<char>)
    ensures IsSafe(s) ==> IsSafe(LStrip(s, cs)) && IsSafe(Strip(s, cs))
  {
    if IsSafe(s) {
      var t := LStrip(s, cs);
      var k := |s| - |t|;
      SliceIsSafe(s, k, |s|);
      assert s[k..|s|] == t;
      var r := RStrip(t, cs);
      SliceIsSafe(t, 0, |r|);
      assert t[0..|r|] == r;
    }
  }

  const MaxStem := 50
  const MinStem := 3
  const Placeholder := "paper"

  /** winnower/core.py lines 131-137: cut to 50 characters dropping trailing '_', and use "paper" when shorter than 3. */
  function Clamp(s: string): (r: string)
    ensures MinStem <= |r| <= MaxStem
    ensures |s| < MinStem ==> r == Placeholder
    ensures MinStem <= |s| <= MaxStem ==> r == s
    ensures |s| > MaxStem ==>
      (r == Placeholder && forall i :: MinStem - 1 <= i < MaxStem ==> s[i] == '_')
      || (r == s[..|r|] && r[|r| - 1] != '_' && forall i :: |r| <= i < MaxStem ==> s[i] == '_')
    ensures r == Placeholder || r == s[..|r|]
    ensures IsSafe(s) ==> IsSafe(r)
  {
    var cut := if |s| > MaxStem then RStrip(s[..MaxStem], {'_'}) else s;
    assert |s| > MaxStem ==> forall i :: |cut| <= i < MaxStem ==> s[i] == '_' by {
      if |s| > MaxStem {
        forall i | |cut| <= i < MaxStem ensures s[i] == '_' {
          assert s[..MaxStem][i] == s[i];
        }
      }
    }
    assert IsSafe(s) ==> IsSafe(cut) by {
      if IsSafe(s) && |s| > MaxStem {
        SliceIsSafe(s, 0, MaxStem);
        SliceIsSafe(s[..MaxStem], 0, |cut|);
      }
    }
    assert IsSafe(Placeholder) by {
      assert forall i :: 0 <= i < |Placeholder| ==> Placeholder[i] in "paper";
    }
    if |cut| < MinStem then Placeholder else cut
  }

  /** The Windows device names that cannot be used as the stem of a file name. */
  const ReservedNames: set<string> := {
    "CON", "PRN", "AUX", "NUL",
    "COM1", "COM2", "COM3", "COM4", "COM5", "COM6", "COM7", "COM8", "COM9",
    "LPT1", "LPT2", "LPT3", "LPT4", "LPT5", "LPT6", "LPT7", "LPT8", "LPT9"
  }

  /** s.split('.')[0]: the text before the first '.'. */
  function BaseName(s: string): (r: string)
    ensures |r| <= |s| && r == s[..|r|]
    ensures '.' !in r
    ensures |r| < |s| ==> s[|r|] == '.'
  {
    if s == [] || s[0] == '.' then [] else [s[0]] + BaseName(s[1..])
  }

  predicate IsReservedBase(s: string) {
    Upper(BaseName(s)) in ReservedNames
  }

  lemma BaseNameOfPrefixed(p: string, s: string)
    requires '.' !in p
    ensures BaseName(p + s) == p + BaseName(s)
  {
    if p != [] {
      assert (p + s)[1..] == p[1..] + s;
      BaseNameOfPrefixed(p[1..], s);
    } else {
      assert p + s == s;
    }
  }

  /** Every reserved name is three or four characters long and has no '_'. */
  lemma ReservedShape(n: string)
    requires n in ReservedNames
    ensures 3 <= |n| <= 4 && '_' !in n
  {
  }

  const ReservedPrefix := "paper_"

  /** winnower/core.py lines 140-147: a stem whose base names a device gets the prefix "paper_". */
  function GuardReserved(stem: string): (r: string)
    ensures IsReservedBase(stem) ==> r == ReservedPrefix + stem
    ensures !IsReservedBase(stem) ==> r == stem
    ensures !IsReservedBase(r)
  {
    if IsReservedBase(stem) then
      assert !IsReservedBase(ReservedPrefix + stem) by {
        BaseNameOfPrefixed(ReservedPrefix, stem);
        var u := Upper(BaseName(ReservedPrefix + stem));
        assert |u| >= 6;
        if u in ReservedNames {
          ReservedShape(u);
        }
      }
      ReservedPrefix + stem
    else
      stem
  }

  /** winnower/core.py lines 131-147 applied to the trimmed text. */
  function Finish(trimmed: string): (r: string)
    ensures IsSafe(trimmed) ==> IsSafe(r)
    ensures MinStem <= |r| <= |ReservedPrefix| + MaxStem
    ensures !IsReservedBase(r)
    ensures trimmed == [] || trimmed[0] != '.' ==> r[0] != '.'
  {
    StemGuardIsSafe(Clamp(trimmed));
    GuardReserved(Clamp(trimmed))
  }

  lemma StemGuardIsSafe(stem: string)
    requires MinStem <= |stem| <= MaxStem
    ensures IsSafe(stem) ==> IsSafe(GuardReserved(stem))
    ensures MinStem <= |GuardReserved(stem)| <= |ReservedPrefix| + MaxStem
  {
    if IsSafe(stem) { PrefixedIsSafe(stem); }
  }

  lemma PrefixedIsSafe(stem: string)
    requires IsSafe(stem)
    ensures IsSafe(ReservedPrefix + stem)
  {
    var p := ReservedPrefix;
    var r := p + stem;
    forall i | 0 <= i < |r| - 1 ensures !PairIn(r, i, {'.'}) {
      if i >= |p| {
        assert !PairIn(stem, i - |p|, {'.'});
        assert r[i] == stem[i - |p|] && r[i + 1] == stem[i + 1 - |p|];
      }
    }
    forall i | 0 <= i < |r| ensures Allowed(r[i]) {
      if i >= |p| { assert r[i] == stem[i - |p|]; }
    }
  }

  /** The name before the suffix: winnower/core.py lines 120-147. */
  function SafeName(title: string): (r: string)
    ensures IsSafe(r)
    ensures MinStem <= |r| <= |ReservedPrefix| + MaxStem
    ensures !IsReservedBase(r)
  {
    Finish(TrimEnds(Scrub(title)))
  }

  /** winnower/core.py lines 150-152: "_" and the suffix are appended when a suffix is given. */
  function WithSuffix(name: string, suffix: string): (r: string)
    requires MinStem <= |name| && !IsReservedBase(name)
    ensures suffix == [] ==> r == name
    ensures suffix != [] ==> r == name + "_" + suffix
    ensures |r| == |name| + (if suffix == [] then 0 else 1 + |suffix|) && r[0] == name[0]
    ensures IsSafe(name) && IsSafe(suffix) ==> IsSafe(r)
    ensures !IsReservedBase(r)
  {
    if suffix == [] then name
    else
      SuffixedIsSafe(name, suffix);
      SuffixedNotReserved(name, suffix);
      name + "_" + suffix
  }

  /** _generate_safe_filename(title, suffix). */
  function SafeFilename(title: string, suffix: string): (r: string)
    ensures suffix == [] ==> r == SafeName(title)
    ensures suffix != [] ==> r == SafeName(title) + "_" + suffix
    ensures IsSafe(suffix) ==> IsSafe(r)
    ensures |r| <= |ReservedPrefix| + MaxStem + (if suffix == [] then 0 else 1 + |suffix|)
    ensures !IsReservedBase(r)
  {
    WithSuffix(SafeName(title), suffix)
  }

  lemma SuffixedIsSafe(name: string, suffix: string)
    ensures IsSafe(name) && IsSafe(suffix) ==> IsSafe(name + "_" + suffix)
  {
    var r := name + "_" + suffix;
    if IsSafe(name) && IsSafe(suffix) {
      forall i | 0 <= i < |r| ensures Allowed(r[i]) {
        if i > |name| { assert r[i] == suffix[i - |name| - 1]; }
        else if i < |name| { assert r[i] == name[i]; }
      }
      forall i | 0 <= i < |r| - 1 ensures !PairIn(r, i, {'.'}) {
        if i > |name| {
          assert !PairIn(suffix, i - |name| - 1, {'.'});
          assert r[i] == suffix[i - |name| - 1] && r[i + 1] == suffix[i - |name|];
        } else if i + 1 < |name| {
          assert !PairIn(name, i, {'.'});
          assert r[i] == name[i] && r[i + 1] == name[i + 1];
        }
      }
    }
  }

  /** Appending "_suffix" to a name that is not a device name never forms one. */
  lemma SuffixedNotReserved(name: string, suffix: string)
    requires |name| >= MinStem && !IsReservedBase(name)
    ensures !IsReservedBase(name + "_" + suffix)
  {
    var r := name + "_" + suffix;
    if '.' in name {
      var k :| 0 <= k < |name| && name[k] == '.';
      var b := BaseName(name);
      assert name[k] == '.';
      var tail := name[|b|..] + "_" + suffix;
      assert r == b + tail;
      BaseNameOfPrefixed(b, tail);
      assert tail[0] == '.';
      assert BaseName(tail) == [];
      assert BaseName(r) == b;
    } else {
      BaseNameOfPrefixed(name + "_", suffix);
      var u := Upper(BaseName(r));
      assert u[|name|] == '_';
      if u in ReservedNames {
        ReservedShape(u);
      }
    }
  }

  // ---------------------------------------------------------------------------
  // What the generator keeps

  /** An already safe text passes winnower/core.py lines 120-126 unchanged. */
  lemma ScrubKeepsSafe(s: string)
    requires IsSafe(s)
    ensures Scrub(s) == s
  {
    assert ReplaceUnsafe(s) == s;
    assert ReplaceChar(s, '~', '_') == s;
    CollapseRunsUnchanged(s, Whitespace, '_');
  }

  /** Collapsing runs leaves a prefix without class characters in place. */
  lemma {:induction false} CollapseKeepsPrefix(a: string, t: string, cs: set<char>, rep: char)
    requires forall i :: 0 <= i < |a| ==> a[i] !in cs
    ensures CollapseRuns(a + t, cs, rep) == a + CollapseRuns(t, cs, rep)
  {
    if a != [] {
      calc {
        CollapseRuns(a + t, cs, rep);
        { CollapseHead(a + t, cs, rep); assert (a + t)[1..] == a[1..] + t; }
        [a[0]] + CollapseRuns(a[1..] + t, cs, rep);
        { CollapseKeepsPrefix(a[1..], t, cs, rep); }
        [a[0]] + (a[1..] + CollapseRuns(t, cs, rep));
        { ConsAppend(a, CollapseRuns(t, cs, rep)); }
        a + CollapseRuns(t, cs, rep);
      }
    } else {
      assert a + t == t;
    }
  }

  /** One space between two safe texts becomes one '_'. */
  lemma ScrubSingleSpace(a: string, b: string)
    requires IsSafe(a) && IsSafe(b)
    ensures Scrub(a + " " + b) == a + "_" + b
  {
    var s := a + " " + b;
    assert Replaced(s) == s by { JoinedReplaced(a, b); }
    assert CollapseRuns(s, Whitespace, '_') == a + "_" + b by { JoinedCollapsed(a, b); }
  }

  lemma JoinedReplaced(a: string, b: string)
    requires IsSafe(a) && IsSafe(b)
    ensures Replaced(a + " " + b) == a + " " + b
  {
    var s := a + " " + b;
    assert forall i :: 0 <= i < |s| ==> !IsUnsafe(s[i]) && s[i] != '~' by {
      forall i | 0 <= i < |s| ensures !IsUnsafe(s[i]) && s[i] != '~' {
        if i < |a| { assert s[i] == a[i]; } else if i > |a| { assert s[i] == b[i - |a| - 1]; }
      }
    }
    assert NoDoubleDot(s) by { JoinedNoDoubleDot(a, b); }
    assert ReplaceUnsafe(s) == s;
    assert ReplaceChar(s, '~', '_') == s;
  }

  lemma JoinedNoDoubleDot(a: string, b: string)
    requires NoDoubleDot(a) && NoDoubleDot(b)
    ensures NoDoubleDot(a + " " + b)
  {
    var s := a + " " + b;
    forall i | 0 <= i < |s| - 1 ensures !PairIn(s, i, {'.'}) {
      if i + 1 < |a| {
        assert !PairIn(a, i, {'.'});
        assert s[i] == a[i] && s[i + 1] == a[i + 1];
      } else if i > |a| {
        assert !PairIn(b, i - |a| - 1, {'.'});
        assert s[i] == b[i - |a| - 1] && s[i + 1] == b[i - |a|];
      }
    }
  }

  lemma {:induction false} JoinedCollapsed(a: string, b: string)
    requires forall i :: 0 <= i < |a| ==> a[i] !in Whitespace
    requires forall i :: 0 <= i < |b| ==> b[i] !in Whitespace
    ensures CollapseRuns(a + " " + b, Whitespace, '_') == a + "_" + b
  {
    calc {
      CollapseRuns(a + " " + b, Whitespace, '_');
      { assert a + " " + b == a + (" " + b); }
      CollapseRuns(a + (" " + b), Whitespace, '_');
      { CollapseKeepsPrefix(a, " " + b, Whitespace, '_'); }
      a + CollapseRuns(" " + b, Whitespace, '_');
      { SpaceCollapsed(b); }
      a + ("_" + b);
      a + "_" + b;
    }
  }

  lemma SpaceCollapsed(b: string)
    requires forall i :: 0 <= i < |b| ==> b[i] !in Whitespace
    ensures CollapseRuns(" " + b, Whitespace, '_') == "_" + b
  {
    assert ' ' in Whitespace by { assert IsSpace(' '); }
    ClassHeadCollapsed(' ', b, Whitespace, '_');
  }

  lemma ClassHeadCollapsed(c: char, s: string, cs: set<char>, rep: char)
    requires c in cs
    requires forall i :: 0 <= i < |s| ==> s[i] !in cs
    ensures CollapseRuns([c] + s, cs, rep) == [rep] + s
  {
    assert LStrip([c] + s, cs) == s by { LStripOf([c], s, cs); }
    assert CollapseRuns(s, cs, rep) == s by { NoClassUnchanged(s, cs, rep); }
  }

  lemma NoClassUnchanged(s: string, cs: set<char>, rep: char)
    requires forall i :: 0 <= i < |s| ==> s[i] !in cs
    ensures CollapseRuns(s, cs, rep) == s
  {
    assert forall i :: 0 <= i < |s| - 1 ==> !PairIn(s, i, cs);
    CollapseRunsUnchanged(s, cs, rep);
  }

  /** A stem that winnower/core.py lines 120-136 leave exactly as it is. */
  predicate KeptAsIs(stem: string) {
    IsSafe(stem) && MinStem <= |stem| <= MaxStem
    && stem[0] !in TrimmedChars && stem[0] != '.' && stem[|stem| - 1] !in TrimmedChars
  }

  /**
   * A safe title of 3 to 50 characters that has nothing to trim at its ends
   * keeps its text: the only change the generator can make is the device
   * prefix.
   */
  lemma TrimmedSafeTitleKept(title: string)
    requires KeptAsIs(title)
    ensures SafeName(title) == GuardReserved(title)
  {
    assert Scrub(title) == title by { ScrubKeepsSafe(title); }
    KeptStem(title);
  }

  /** winnower/core.py lines 129-136 leave such a stem as it is. */
  lemma KeptStem(stem: string)
    requires KeptAsIs(stem)
    ensures TrimEnds(stem) == stem && Clamp(stem) == stem
  {
    assert LStrip(stem, {'.'}) == stem;
    StripUnchanged(stem, TrimmedChars);
  }

  /** A title that names a device gets exactly the prefix "paper_". */
  lemma DeviceTitleIsPrefixed(title: string)
    requires KeptAsIs(title)
    requires IsReservedBase(title)
    ensures SafeName(title) == ReservedPrefix + title
  {
    TrimmedSafeTitleKept(title);
  }

  /** A title that is empty or trims to fewer than three characters becomes "paper". */
  lemma ShortTitleIsPlaceholder(title: string)
    requires |TrimEnds(Scrub(title))| < MinStem
    ensures SafeFilename(title, "") == Placeholder
  {
    assert Clamp(TrimEnds(Scrub(title))) == Placeholder;
    assert GuardReserved(Placeholder) == Placeholder by { PlaceholderNotReserved(); }
  }

  lemma PlaceholderNotReserved()
    ensures !IsReservedBase(Placeholder)
  {
    var p := Placeholder;
    BaseNameWithoutDot(p);
    var u := Upper(BaseName(p));
    assert |u| == 5;
    if u in ReservedNames { ReservedShape(u); }
  }

  // ---------------------------------------------------------------------------
  // winnower/core.py line 129 as its comment intends: no name that starts with '.'

  /** Leading '.' is stripped together with '_', '-' and ' ', so no dot is left in front. */
  function TrimEndsNoHidden(s: string): (r: string)
    ensures r == [] || (r[0] != '.' && r[0] !in TrimmedChars && r[|r| - 1] !in TrimmedChars)
    ensures TrimmedSlice(s, r, |s| - |LStrip(s, TrimmedChars + {'.'})|, TrimmedChars + {'.'}, TrimmedChars)
    ensures IsSafe(s) ==> IsSafe(r)
  {
    TrimEndsNoHiddenFacts(s);
    RStrip(LStrip(s, TrimmedChars + {'.'}), TrimmedChars)
  }

  lemma {:induction false} TrimEndsNoHiddenFacts(s: string)
    ensures var r := RStrip(LStrip(s, TrimmedChars + {'.'}), TrimmedChars);
      (r == [] || (r[0] != '.' && r[0] !in TrimmedChars && r[|r| - 1] !in TrimmedChars))
      && TrimmedSlice(s, r, |s| - |LStrip(s, TrimmedChars + {'.'})|, TrimmedChars + {'.'}, TrimmedChars)
      && (IsSafe(s) ==> IsSafe(r))
  {
    StripSlice(s, LStrip(s, TrimmedChars + {'.'}), TrimmedChars + {'.'}, TrimmedChars);
    TrimEndsNoHiddenIsSafe(s);
    NoHiddenEnds(s, TrimmedChars + {'.'}, TrimmedChars);
  }

  lemma {:induction false} TrimEndsNoHiddenIsSafe(s: string)
    ensures IsSafe(s) ==> IsSafe(RStrip(LStrip(s, TrimmedChars + {'.'}), TrimmedChars))
  {
    var t := LStrip(s, TrimmedChars + {'.'});
    StrippedIsSafe(s, TrimmedChars + {'.'});
    if IsSafe(t) { SliceIsSafe(t, 0, |RStrip(t, TrimmedChars)|); }
  }

  function SafeNameNoHidden(title: string): (r: string)
    ensures IsSafe(r)
    ensures MinStem <= |r| <= |ReservedPrefix| + MaxStem
    ensures !IsReservedBase(r)
    ensures r[0] != '.'
  {
    Finish(TrimEndsNoHidden(Scrub(title)))
  }

  /** The generator with the corrected winnower/core.py line 129: never a hidden name. */
  function SafeFilenameNoHidden(title: string, suffix: string): (r: string)
    ensures suffix == [] ==> r == SafeNameNoHidden(title)
    ensures suffix != [] ==> r == SafeNameNoHidden(title) + "_" + suffix
    ensures r[0] != '.'
    ensures IsSafe(suffix) ==> IsSafe(r)
    ensures |r| <= |ReservedPrefix| + MaxStem + (if suffix == [] then 0 else 1 + |suffix|)
    ensures !IsReservedBase(r)
  {
    WithSuffix(SafeNameNoHidden(title), suffix)
  }

  /** The correction changes only the names that winnower/core.py line 129 leaves starting with '.'. */
  lemma NoHiddenAgrees(title: string)
    requires TrimEnds(Scrub(title)) == [] || TrimEnds(Scrub(title))[0] != '.'
    ensures SafeNameNoHidden(title) == SafeName(title)
  {
    var x := Scrub(title);
    assert TrimEndsNoHidden(x) == TrimEnds(x) by { OneStripAgrees(x); }
  }

  /** Stripping '.' then the trimmed set equals stripping both at once, unless a '.' is exposed. */
  lemma OneStripAgrees(x: string)
    requires TrimEnds(x) == [] || TrimEnds(x)[0] != '.'
    ensures LStrip(x, TrimmedChars + {'.'}) == LStrip(LStrip(x, {'.'}), TrimmedChars)
  {
    LStripTwice(x, {'.'}, TrimmedChars);
  }

  lemma {:induction false} LStripTwice(x: string, d: set<char>, cs: set<char>)
    requires var b := LStrip(LStrip(x, d), cs); b == [] || b[0] !in d
    ensures LStrip(x, cs + d) == LStrip(LStrip(x, d), cs)
  {
    if x != [] && x[0] in d {
      LStripTwice(x[1..], d, cs);
    } else {
      LStripUnion(x, cs, d);
    }
  }

  lemma {:induction false} LStripUnion(y: string, cs: set<char>, d: set<char>)
    requires LStrip(y, cs) == [] || LStrip(y, cs)[0] !in d
    ensures LStrip(y, cs + d) == LStrip(y, cs)
  {
    if y != [] && y[0] in cs {
      LStripUnion(y[1..], cs, d);
    }
  }

  // ---------------------------------------------------------------------------
  // Examples

  /** Printable ASCII text without unsafe characters and without ".." is safe. */
  lemma PrintableIsSafe(s: string)
    requires forall i :: 0 <= i < |s| ==> '!' <= s[i] <= '}' && !IsUnsafe(s[i])
    requires NoDoubleDot(s)
    ensures IsSafe(s)
  {
    forall i | 0 <= i < |s| ensures Allowed(s[i]) {
      assert !IsSpace(s[i]);
    }
  }

  lemma NoDotIsSafe(s: string)
    requires forall i :: 0 <= i < |s| ==> '!' <= s[i] <= '}' && !IsUnsafe(s[i]) && s[i] != '.'
    ensures IsSafe(s)
  {
    assert NoDoubleDot(s) by {
      forall i | 0 <= i < |s| - 1 ensures !PairIn(s, i, {'.'}) { }
    }
    PrintableIsSafe(s);
  }

  /** "CON" becomes "paper_CON". */
  lemma ConIsPrefixed(title: string)
    requires title == "CON"
    ensures SafeFilename(title, "") == "paper_CON"
  {
    ConIsPlain(title);
    ConIsReserved(title);
    DeviceFilenameIs(title, "paper_CON");
  }

  lemma DeviceFilenameIs(title: string, expected: string)
    requires KeptAsIs(title)
    requires IsReservedBase(title)
    requires expected == ReservedPrefix + title
    ensures SafeFilename(title, "") == expected
  {
    DeviceTitleIsPrefixed(title);
  }

  lemma ConIsPlain(title: string)
    requires title == "CON"
    ensures KeptAsIs(title)
  {
    NoDotIsSafe(title);
  }

  lemma ConIsReserved(s: string)
    requires s == "CON"
    ensures IsReservedBase(s)
  {
    assert BaseName(s[2..]) == s[2..];
    assert BaseName(s[1..]) == s[1..];
    assert BaseName(s) == s;
    assert Upper(s) == s by {
      assert forall i :: 0 <= i < 3 ==> Upper(s)[i] == s[i];
    }
  }

  /** The device name in front of an extension is caught as well: "nul.txt" becomes "paper_nul.txt". */
  lemma NulTxtIsPrefixed(title: string)
    requires title == "nul.txt"
    ensures SafeFilename(title, "") == "paper_nul.txt"
  {
    NulTxtIsPlain(title);
    NulTxtIsReserved(title);
    DeviceFilenameIs(title, "paper_nul.txt");
  }

  lemma NulTxtIsPlain(title: string)
    requires title == "nul.txt"
    ensures KeptAsIs(title)
  {
    assert NoDoubleDot(title) by {
      forall i | 0 <= i < |title| - 1 ensures !PairIn(title, i, {'.'}) { }
    }
    PrintableIsSafe(title);
  }

  lemma NulTxtIsReserved(title: string)
    requires title == "nul.txt"
    ensures IsReservedBase(title)
  {
    var n := "nul";
    assert title == n + ".txt";
    BaseNameOfPrefixed(n, ".txt");
    assert BaseName(".txt") == [];
    assert Upper(n) == "NUL" by {
      assert forall i :: 0 <= i < 3 ==> Upper(n)[i] == "NUL"[i];
    }
  }

  /** A path-traversal title leaves neither '/' nor "..". */
  lemma TraversalTitleDefused(title: string)
    requires title == "../../etc/passwd"
    ensures var r := SafeFilename(title, ""); '/' !in r && NoDoubleDot(r)
  {
    var r := SafeFilename(title, "");
    assert IsSafe([]);
    assert forall i :: 0 <= i < |r| ==> Allowed(r[i]);
  }

  lemma BaseNameWithoutDot(s: string)
    requires '.' !in s
    ensures BaseName(s) == s
  {
    BaseNameOfPrefixed(s, []);
    assert s + [] == s;
  }

  /**
   * Two safe words joined by one space, within the length limit and not a device
   * name, keep every character, the space turning into '_'.
   */
  lemma JoinedFilename(title: string, a: string, b: string, suffix: string, expected: string)
    requires title == a + " " + b
    requires IsSafe(a) && IsSafe(b) && a != [] && b != []
    requires a[0] !in TrimmedChars && a[0] != '.' && b[|b| - 1] !in TrimmedChars
    requires |a| + 1 + |b| <= MaxStem
    requires !IsReservedBase(a + "_" + b)
    requires suffix != [] && expected == a + "_" + b + "_" + suffix
    ensures SafeFilename(title, suffix) == expected
  {
    var n := a + "_" + b;
    assert Scrub(a + " " + b) == n by { ScrubSingleSpace(a, b); }
    assert IsSafe(n) by { SuffixedIsSafe(a, b); }
    assert n[0] == a[0] && n[|n| - 1] == b[|b| - 1];
    KeptStem(n);
  }

  /** "My Paper!!" keeps its punctuation: the summary name is "My_Paper!!_summary". */
  lemma SpacedTitleKeepsPunctuation(title: string)
    requires title == "My Paper!!"
    ensures SafeFilename(title, "summary") == "My_Paper!!_summary"
  {
    var a, b := "My", "Paper!!";
    SpacedWords(title, a, b);
    JoinedFilename(title, a, b, "summary", "My_Paper!!_summary");
  }

  lemma SpacedWords(title: string, a: string, b: string)
    requires title == "My Paper!!" && a == "My" && b == "Paper!!"
    ensures title == a + " " + b
    ensures IsSafe(a) && IsSafe(b) && a != [] && b != []
    ensures a[0] !in TrimmedChars && a[0] != '.' && b[|b| - 1] !in TrimmedChars
    ensures |a| + 1 + |b| <= MaxStem
    ensures !IsReservedBase(a + "_" + b)
    ensures "My_Paper!!_summary" == a + "_" + b + "_" + "summary"
  {
    NoDotIsSafe(a);
    NoDotIsSafe(b);
    var n := a + "_" + b;
    assert '.' !in n by {
      assert forall i :: 0 <= i < |n| ==> n[i] != '.';
    }
    LongNoDotNotReserved(n);
  }

  /** As written, the space in front of a safe word becomes a '_' that is trimmed again. */
  lemma SpacePrefixedFilename(title: string, b: string, suffix: string, expected: string)
    requires title == " " + b
    requires IsSafe(b) && MinStem <= |b| <= MaxStem
    requires b[0] !in TrimmedChars && b[|b| - 1] !in TrimmedChars && !IsReservedBase(b)
    requires suffix != [] && expected == b + "_" + suffix
    ensures SafeFilename(title, suffix) == expected
  {
    SpaceScrubbed(b);
    UnderscoreTrimmed(b);
    assert Clamp(b) == b;
  }

  lemma SpaceScrubbed(b: string)
    requires IsSafe(b)
    ensures Scrub(" " + b) == "_" + b
  {
    SpaceReplaced(b);
    SpaceCollapsed(b);
  }

  lemma SpaceReplaced(b: string)
    requires IsSafe(b)
    ensures Replaced(" " + b) == " " + b
  {
    assert IsSafe([]);
    JoinedReplaced([], b);
    assert [] + " " + b == " " + b;
  }

  lemma UnderscoreTrimmed(b: string)
    requires b != [] && b[0] !in TrimmedChars && b[|b| - 1] !in TrimmedChars
    ensures TrimEnds("_" + b) == b
  {
    assert LStrip("_" + b, {'.'}) == "_" + b;
    assert LStrip("_" + b, TrimmedChars) == b by { LStripOf("_", b, TrimmedChars); }
    assert RStrip(b, TrimmedChars) == b;
  }

  /** As written, a title such as " .hidden" yields a hidden file name. */
  lemma HiddenNameAsWritten(title: string)
    requires title == " .hidden"
    ensures SafeFilename(title, "summary") == ".hidden_summary"
  {
    var b := ".hidden";
    HiddenWord(b);
    SpacePrefixedFilename(title, b, "summary", ".hidden_summary");
  }

  lemma HiddenWord(b: string)
    requires b == ".hidden"
    ensures IsSafe(b) && !IsReservedBase(b)
  {
    assert NoDoubleDot(b) by {
      forall i | 0 <= i < |b| - 1 ensures !PairIn(b, i, {'.'}) { }
    }
    PrintableIsSafe(b);
    assert BaseName(b) == [];
    assert Upper([]) == [];
  }

  /** With the correction, the dot exposed by trimming is removed as well. */
  lemma DotPrefixedFilenameCorrected(title: string, c: string, suffix: string, expected: string)
    requires title == " ." + c
    requires KeptAsIs(c) && !IsReservedBase(c)
    requires suffix != [] && expected == c + "_" + suffix
    ensures SafeFilenameNoHidden(title, suffix) == expected
  {
    assert Scrub(" ." + c) == "_." + c by { DotScrubbed(c); }
    assert TrimEndsNoHidden("_." + c) == c by { UnderscoreDotTrimmed(c); }
    assert Clamp(c) == c;
  }

  lemma DotScrubbed(c: string)
    requires IsSafe(c) && c != [] && c[0] != '.'
    ensures Scrub(" ." + c) == "_." + c
  {
    calc {
      Scrub(" ." + c);
      { assert " ." + c == " " + ("." + c); }
      Scrub(" " + ("." + c));
      { DotPrefixIsSafe(c); SpaceScrubbed("." + c); }
      "_" + ("." + c);
      { assert "_" + ("." + c) == "_." + c; }
      "_." + c;
    }
  }

  lemma UnderscoreDotTrimmed(c: string)
    requires c != [] && c[0] !in TrimmedChars && c[0] != '.' && c[|c| - 1] !in TrimmedChars
    ensures TrimEndsNoHidden("_." + c) == c
  {
    LStripOf("_.", c, TrimmedChars + {'.'});
    assert RStrip(c, TrimmedChars) == c;
  }

  lemma DotPrefixIsSafe(c: string)
    requires IsSafe(c) && (c == [] || c[0] != '.')
    ensures IsSafe("." + c)
  {
    var b := "." + c;
    forall i | 0 <= i < |b| ensures Allowed(b[i]) {
      if i > 0 { assert b[i] == c[i - 1]; }
    }
    forall i | 0 <= i < |b| - 1 ensures !PairIn(b, i, {'.'}) {
      if i > 0 {
        assert !PairIn(c, i - 1, {'.'});
        assert b[i] == c[i - 1] && b[i + 1] == c[i];
      }
    }
  }

  /** With the correction the same title yields "hidden_summary". */
  lemma HiddenNameCorrected(title: string)
    requires title == " .hidden"
    ensures SafeFilenameNoHidden(title, "summary") == "hidden_summary"
  {
    var c := "hidden";
    HiddenlessWord(title, c);
    DotPrefixedFilenameCorrected(title, c, "summary", "hidden_summary");
  }

  lemma HiddenlessWord(title: string, c: string)
    requires title == " .hidden" && c == "hidden"
    ensures KeptAsIs(c) && !IsReservedBase(c)
    ensures title == " ." + c && "hidden_summary" == c + "_" + "summary"
  {
    assert forall i :: 0 <= i < |c| ==> 'a' <= c[i] <= 'z';
    LowerWordKept(c);
    LongNoDotNotReserved(c);
  }

  /** A word of 3 to 50 lower-case letters is kept as it is. */
  lemma LowerWordKept(s: string)
    requires MinStem <= |s| <= MaxStem
    requires forall i :: 0 <= i < |s| ==> 'a' <= s[i] <= 'z'
    ensures KeptAsIs(s)
  {
    NoDotIsSafe(s);
  }

  /** A text without '.' longer than four characters is no device name. */
  lemma LongNoDotNotReserved(s: string)
    requires '.' !in s && |s| > 4
    ensures !IsReservedBase(s)
  {
    BaseNameWithoutDot(s);
    var u := Upper(s);
    if u in ReservedNames { ReservedShape(u); }
  }

  // ---------------------------------------------------------------------------
  // _collect_papers

  /**
   * The sources one run processes. A file, and anything that is neither a file
   * nor a directory (a URL or a paper identifier), is processed by itself; a
   * directory stands for the listing the parser gives of it. The file-system
   * tests and the parser's listing are passed in.
   */
  function CollectPapers(inputSource: string, recursive: bool, isFile: bool, isDir: bool,
                         findPapers: (string, bool) -> seq<string>): (papers: seq<string>)
    ensures isFile || !isDir ==> papers == [inputSource]
    ensures !isFile && isDir ==> papers == findPapers(inputSource, recursive)
  {
    if isFile then [inputSource]
    else if isDir then findPapers(inputSource, recursive)
    else [inputSource]
  }

  /** process reports "No papers found" only for a directory whose listing is empty. */
  lemma NoPapersOnlyForEmptyDirectory(inputSource: string, recursive: bool, isFile: bool, isDir: bool,
                                      findPapers: (string, bool) -> seq<string>)
    ensures CollectPapers(inputSource, recursive, isFile, isDir, findPapers) == []
        <==> !isFile && isDir && findPapers(inputSource, recursive) == []
  {
  }
}
