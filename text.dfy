/**
 * Python string operations used by the filename generators and the content
 * preprocessor: character classes, strip/lstrip/rstrip with a character set,
 * replacing one character, and the regular-expression substitution that turns
 * every run of characters from a class into one replacement character.
 */
module Text {

  /**
   * The characters for which Python's str.isspace() holds; the regular
   * expression class \s matches exactly these on text, so both are this one.
   */
  predicate IsSpace(c: char) {
    '\t' <= c <= '\r' || '\U{1C}' <= c <= ' ' || c == '\U{85}' || c == '\U{A0}' || c == '\U{1680}'
    || '\U{2000}' <= c <= '\U{200A}' || c == '\U{2028}' || c == '\U{2029}' || c == '\U{202F}'
    || c == '\U{205F}' || c == '\U{3000}'
  }

  const Whitespace: set<char> := set c: char | '\t' <= c <= '\U{3000}' && IsSpace(c)

  predicate IsAsciiLetter(c: char) {
    'a' <= c <= 'z' || 'A' <= c <= 'Z'
  }

  /** str.isalnum() restricted to ASCII letters and digits. */
  predicate IsAlnum(c: char) {
    IsAsciiLetter(c) || '0' <= c <= '9'
  }

  /** str.upper() on one character, ASCII letters only. */
  function UpperChar(c: char): (u: char)
    ensures 'a' <= c <= 'z' ==> 'A' <= u <= 'Z'
    ensures !('a' <= c <= 'z') ==> u == c
  {
    if 'a' <= c <= 'z' then (c as int - 32) as char else c
  }

  function Upper(s: string): (r: string)
    ensures |r| == |s|
    ensures forall i :: 0 <= i < |s| ==> r[i] == UpperChar(s[i])
  {
    seq(|s|, i requires 0 <= i < |s| => UpperChar(s[i]))
  }

  /** Positions i and i + 1 of s both hold characters of cs. */
  predicate PairIn(s: string, i: int, cs: set<char>)
    requires 0 <= i < |s| - 1
  {
    s[i] in cs && s[i + 1] in cs
  }

  /** s.replace(from, to) for single characters. */
  function ReplaceChar(s: string, from: char, to: char): (r: string)
    ensures |r| == |s|
    ensures forall i :: 0 <= i < |s| ==> r[i] == if s[i] == from then to else s[i]
  {
    seq(|s|, i requires 0 <= i < |s| => if s[i] == from then to else s[i])
  }

  /** s.lstrip(cs): the longest suffix of s that does not start with a character of cs. */
  function LStrip(s: string, cs: set<char>): (r: string)
    ensures |r| <= |s| && r == s[|s| - |r|..]
    ensures r == [] || r[0] !in cs
    ensures forall i :: 0 <= i < |s| - |r| ==> s[i] in cs
  {
    if s != [] && s[0] in cs then
      var r := LStrip(s[1..], cs);
      assert s[1..][|s[1..]| - |r|..] == s[|s| - |r|..];
      r
    else s
  }

  /** lstrip removes exactly a leading run of cs characters. */
  lemma {:induction false} LStripOf(p: string, q: string, cs: set<char>)
    requires forall i :: 0 <= i < |p| ==> p[i] in cs
    requires q == [] || q[0] !in cs
    ensures LStrip(p + q, cs) == q
  {
    if p == [] {
      assert p + q == q;
    } else {
      assert (p + q)[1..] == p[1..] + q;
      LStripOf(p[1..], q, cs);
    }
  }

  /** s.rstrip(cs): the longest prefix of s that does not end with a character of cs. */
  function RStrip(s: string, cs: set<char>): (r: string)
    ensures |r| <= |s| && r == s[..|r|]
    ensures r == [] || r[|r| - 1] !in cs
    ensures forall i :: |r| <= i < |s| ==> s[i] in cs
  {
    if s != [] && s[|s| - 1] in cs then RStrip(s[..|s| - 1], cs) else s
  }

  /** r is the slice of s at offset k, and everything outside it is in front (before) or in back (after). */
  predicate TrimmedSlice(s: string, r: string, k: int, front: set<char>, back: set<char>) {
    0 <= k && k + |r| <= |s| && (forall i :: 0 <= i < |r| ==> r[i] == s[k + i])
    && (forall i :: 0 <= i < k ==> s[i] in front)
    && (forall i :: k + |r| <= i < |s| ==> s[i] in back)
  }

  /**
   * s.strip(cs): the slice of s left when characters of cs are removed from
   * both ends; it starts where lstrip stops, and only characters of cs are dropped.
   */
  function Strip(s: string, cs: set<char>): (r: string)
    ensures r == [] || (r[0] !in cs && r[|r| - 1] !in cs)
    ensures TrimmedSlice(s, r, |s| - |LStrip(s, cs)|, cs, cs)
  {
    StripFacts(s, cs);
    RStrip(LStrip(s, cs), cs)
  }

  lemma {:induction false} StripFacts(s: string, cs: set<char>)
    ensures var r := RStrip(LStrip(s, cs), cs);
      (r == [] || (r[0] !in cs && r[|r| - 1] !in cs))
      && TrimmedSlice(s, r, |s| - |LStrip(s, cs)|, cs, cs)
  {
    StripSlice(s, LStrip(s, cs), cs, cs);
    NoHiddenEnds(s, cs, cs);
  }

  /** Strip's slice contract, as a fact about any text t. */
  lemma {:induction false} StripIsTrimmedSlice(t: string, b: set<char>)
    ensures TrimmedSlice(t, Strip(t, b), |t| - |LStrip(t, b)|, b, b)
  {
  }

  /** s.lstrip(a).rstrip(b) starts with no character of a (when b is part of a) and ends with none of b. */
  lemma {:induction false} NoHiddenEnds(s: string, a: set<char>, b: set<char>)
    requires b <= a
    ensures var r := RStrip(LStrip(s, a), b); r == [] || (r[0] !in a && r[|r| - 1] !in b)
  {
    var t := LStrip(s, a);
    var r := RStrip(t, b);
    if r != [] {
      assert r[0] == t[0];
    }
  }

  /** s.lstrip(a).rstrip(b) is a slice of s with characters of a before it and of b after it. */
  lemma {:induction false} StripSlice(s: string, t: string, a: set<char>, b: set<char>)
    requires t == LStrip(s, a)
    ensures TrimmedSlice(s, RStrip(t, b), |s| - |t|, a, b)
  {
    SliceOfSlice(s, t, RStrip(t, b), a, b);
  }

  /** r cut from the front of t, itself cut from the back of s, is a slice of s. */
  lemma {:induction false} SliceOfSlice(s: string, t: string, r: string, front: set<char>, back: set<char>)
    requires |t| <= |s| && t == s[|s| - |t|..]
    requires forall i :: 0 <= i < |s| - |t| ==> s[i] in front
    requires |r| <= |t| && r == t[..|r|] && forall i :: |r| <= i < |t| ==> t[i] in back
    ensures TrimmedSlice(s, r, |s| - |t|, front, back)
  {
    var k := |s| - |t|;
    assert forall i :: 0 <= i < |t| ==> t[i] == s[k + i];
    forall i | 0 <= i < |r| ensures r[i] == s[k + i] {
      assert r[i] == t[i];
    }
    forall i | k + |r| <= i < |s| ensures s[i] in back {
      assert s[i] == t[i - k];
    }
  }

  lemma StripUnchanged(s: string, cs: set<char>)
    requires s == [] || (s[0] !in cs && s[|s| - 1] !in cs)
    ensures Strip(s, cs) == s
  {
  }

  /**
   * re.sub("[cs]+", rep, s): every maximal run of characters from cs becomes
   * the single character rep; every other character is kept in place.
   */
  function CollapseRuns(s: string, cs: set<char>, rep: char): (r: string)
    ensures |r| <= |s|
    ensures s == [] <==> r == []
    ensures s != [] ==> r[0] == if s[0] in cs then rep else s[0]
    ensures forall i :: 0 <= i < |r| - 1 ==> !PairIn(r, i, cs)
    decreases |s|
  {
    if s == [] then []
    else if s[0] in cs then
      var t := CollapseRuns(LStrip(s, cs), cs, rep);
      PairsAfterCons(rep, t, cs);
      [rep] + t
    else
      var t := CollapseRuns(s[1..], cs, rep);
      PairsAfterCons(s[0], t, cs);
      [s[0]] + t
  }

  /**
   * A reference reading of re.sub("[cs]+", rep, s), one character at a time:
   * a class character gives rep unless the one before it was a class character
   * too (inRun); any other character is copied.
   */
  function CollapseScan(s: string, cs: set<char>, rep: char, inRun: bool): string
    decreases |s|
  {
    if s == [] then []
    else if s[0] in cs then (if inRun then [] else [rep]) + CollapseScan(s[1..], cs, rep, true)
    else [s[0]] + CollapseScan(s[1..], cs, rep, false)
  }

  /** CollapseRuns is the character-by-character reading: each maximal run becomes one rep, the rest is copied. */
  lemma {:induction false} CollapseRunsIsScan(s: string, cs: set<char>, rep: char)
    ensures CollapseRuns(s, cs, rep) == CollapseScan(s, cs, rep, false)
    decreases |s|
  {
    if s != [] {
      if s[0] in cs {
        CollapseClassHead(s, cs, rep);
        assert LStrip(s, cs) == LStrip(s[1..], cs);
        ScanInRun(s[1..], cs, rep);
        CollapseRunsIsScan(LStrip(s, cs), cs, rep);
      } else {
        CollapseHead(s, cs, rep);
        CollapseRunsIsScan(s[1..], cs, rep);
      }
    }
  }

  /** Inside a run, the scan skips the rest of the run and goes on as at a run's end. */
  lemma {:induction false} ScanInRun(s: string, cs: set<char>, rep: char)
    ensures CollapseScan(s, cs, rep, true) == CollapseScan(LStrip(s, cs), cs, rep, false)
    decreases |s|
  {
    if s != [] && s[0] in cs {
      ScanInRun(s[1..], cs, rep);
      assert CollapseScan(s, cs, rep, true) == [] + CollapseScan(s[1..], cs, rep, true);
    }
  }

  /** The characters of s outside cs, in order. */
  function Without(s: string, cs: set<char>): string
    decreases |s|
  {
    if s == [] then [] else (if s[0] in cs then [] else [s[0]]) + Without(s[1..], cs)
  }

  lemma WithoutCons(c: char, t: string, cs: set<char>)
    ensures Without([c] + t, cs) == (if c in cs then [] else [c]) + Without(t, cs)
  {
    assert ([c] + t)[1..] == t;
  }

  /** Dropping a leading run of characters of d does not change what is left outside d. */
  lemma {:induction false} WithoutLStrip(s: string, cs: set<char>, d: set<char>)
    requires cs <= d
    ensures Without(LStrip(s, cs), d) == Without(s, d)
    decreases |s|
  {
    if s != [] && s[0] in cs {
      WithoutLStrip(s[1..], cs, d);
    }
  }

  /** The collapse keeps every character that is neither in the class nor rep, in order. */
  lemma {:induction false} CollapseKeepsOthers(s: string, cs: set<char>, rep: char)
    ensures Without(CollapseRuns(s, cs, rep), cs + {rep}) == Without(s, cs + {rep})
    decreases |s|
  {
    if s != [] {
      var d := cs + {rep};
      if s[0] in cs {
        CollapseClassHead(s, cs, rep);
        CollapseKeepsOthers(LStrip(s, cs), cs, rep);
        WithoutCons(rep, CollapseRuns(LStrip(s, cs), cs, rep), d);
        WithoutLStrip(s, cs, d);
      } else {
        CollapseHead(s, cs, rep);
        CollapseKeepsOthers(s[1..], cs, rep);
        WithoutCons(s[0], CollapseRuns(s[1..], cs, rep), d);
        WithoutCons(s[0], s[1..], d);
        assert s == [s[0]] + s[1..];
      }
    }
  }

  lemma ConsAppend<T>(a: seq<T>, x: seq<T>)
    requires a != []
    ensures [a[0]] + (a[1..] + x) == a + x
  {
    assert a == [a[0]] + a[1..];
  }

  /** A first character outside the class is kept and the rest collapsed. */
  lemma CollapseHead(s: string, cs: set<char>, rep: char)
    requires s != [] && s[0] !in cs
    ensures CollapseRuns(s, cs, rep) == [s[0]] + CollapseRuns(s[1..], cs, rep)
  {
  }

  /** Every character of the collapse is rep or a character of s outside the class. */
  lemma {:induction false} CollapsedChars(s: string, cs: set<char>, rep: char)
    ensures forall i :: 0 <= i < |CollapseRuns(s, cs, rep)| ==>
      CollapseRuns(s, cs, rep)[i] == rep || (CollapseRuns(s, cs, rep)[i] in s && CollapseRuns(s, cs, rep)[i] !in cs)
    decreases |s|
  {
    if s != [] {
      var rest := if s[0] in cs then LStrip(s, cs) else s[1..];
      CollapsedChars(rest, cs, rep);
      ConsCollapsedChars(s, rest, cs, rep);
    }
  }

  lemma {:induction false} ConsCollapsedChars(s: string, rest: string, cs: set<char>, rep: char)
    requires s != [] && rest == if s[0] in cs then LStrip(s, cs) else s[1..]
    requires forall i :: 0 <= i < |CollapseRuns(rest, cs, rep)| ==>
      CollapseRuns(rest, cs, rep)[i] == rep || (CollapseRuns(rest, cs, rep)[i] in rest && CollapseRuns(rest, cs, rep)[i] !in cs)
    ensures forall i :: 0 <= i < |CollapseRuns(s, cs, rep)| ==>
      CollapseRuns(s, cs, rep)[i] == rep || (CollapseRuns(s, cs, rep)[i] in s && CollapseRuns(s, cs, rep)[i] !in cs)
  {
    var r := CollapseRuns(s, cs, rep);
    var t := CollapseRuns(rest, cs, rep);
    assert r == [if s[0] in cs then rep else s[0]] + t by {
      if s[0] in cs { CollapseClassHead(s, cs, rep); } else { CollapseHead(s, cs, rep); }
    }
    var k := |s| - |rest|;
    assert rest == s[k..];
    forall i | 0 <= i < |r| ensures r[i] == rep || (r[i] in s && r[i] !in cs) {
      if i > 0 && r[i] != rep {
        assert r[i] == t[i - 1];
        var j :| 0 <= j < |rest| && rest[j] == r[i];
        assert s[k + j] == r[i];
      }
    }
  }

  /** A first character of the class starts a run that becomes one rep. */
  lemma CollapseClassHead(s: string, cs: set<char>, rep: char)
    requires s != [] && s[0] in cs
    ensures CollapseRuns(s, cs, rep) == [rep] + CollapseRuns(LStrip(s, cs), cs, rep)
  {
  }

  lemma PairsAfterCons(c: char, t: string, cs: set<char>)
    requires forall i :: 0 <= i < |t| - 1 ==> !PairIn(t, i, cs)
    requires t == [] || c !in cs || t[0] !in cs
    ensures forall i :: 0 <= i < |[c] + t| - 1 ==> !PairIn([c] + t, i, cs)
  {
    var r := [c] + t;
    forall i | 0 <= i < |r| - 1 ensures !PairIn(r, i, cs) {
      if i > 0 {
        assert !PairIn(t, i - 1, cs);
        assert r[i] == t[i - 1] && r[i + 1] == t[i];
      }
    }
  }

  /** A text with no run of two class characters, all of them rep, is its own collapse. */
  lemma {:induction false} CollapseRunsUnchanged(s: string, cs: set<char>, rep: char)
    requires forall i :: 0 <= i < |s| && s[i] in cs ==> s[i] == rep
    requires forall i :: 0 <= i < |s| - 1 ==> !PairIn(s, i, cs)
    ensures CollapseRuns(s, cs, rep) == s
  {
    if s != [] {
      var t := s[1..];
      PairsOfTail(s, cs);
      forall i | 0 <= i < |t| && t[i] in cs ensures t[i] == rep {
        assert t[i] == s[i + 1];
      }
      CollapseRunsUnchanged(t, cs, rep);
      if s[0] in cs {
        assert LStrip(s, cs) == t by { LoneClassHead(s, cs); }
        CollapseClassHead(s, cs, rep);
        assert s[0] == rep;
      } else {
        CollapseHead(s, cs, rep);
      }
      assert s == [s[0]] + t;
    }
  }

  lemma PairsOfTail(s: string, cs: set<char>)
    requires s != []
    requires forall i :: 0 <= i < |s| - 1 ==> !PairIn(s, i, cs)
    ensures forall i :: 0 <= i < |s[1..]| - 1 ==> !PairIn(s[1..], i, cs)
  {
    forall i | 0 <= i < |s[1..]| - 1 ensures !PairIn(s[1..], i, cs) {
      assert !PairIn(s, i + 1, cs);
    }
  }

  lemma LoneClassHead(s: string, cs: set<char>)
    requires s != [] && s[0] in cs
    requires forall i :: 0 <= i < |s| - 1 ==> !PairIn(s, i, cs)
    ensures LStrip(s, cs) == s[1..]
  {
    assert |s| == 1 || s[1] !in cs by {
      if |s| > 1 { assert !PairIn(s, 0, cs); }
    }
    assert LStrip(s[1..], cs) == s[1..];
  }
}
