/** Text primitives of the checker: Python's whitespace trimming, the cut
    at the first '#', and hand-written scanners for the four fixed regular
    expressions VARIABLE_DECL, VARIABLE, LOCAL and SKIP_LOCAL. */
module Patterns {

  datatype Option<T> = None | Some(value: T)

  /** What Python's str.isspace() accepts, which is also what `\s` matches
      in a str pattern. */
  predicate IsSpace(c: char) {
    c == ' ' || '\t' <= c <= '\r' || '\U{1C}' <= c <= '\U{1F}'
    || c == '\U{85}' || c == '\U{A0}' || c == '\U{1680}'
    || '\U{2000}' <= c <= '\U{200A}' || c == '\U{2028}' || c == '\U{2029}'
    || c == '\U{202F}' || c == '\U{205F}' || c == '\U{3000}'
  }

  /** `\w`, restricted to ASCII: letters, digits and the underscore. */
  predicate IsWordChar(c: char) {
    'a' <= c <= 'z' || 'A' <= c <= 'Z' || '0' <= c <= '9' || c == '_'
  }

  predicate AllSpace(s: string) {
    forall k :: 0 <= k < |s| ==> IsSpace(s[k])
  }

  /** A capture of `([\w_]+)`: one or more word characters. */
  predicate IsName(s: string) {
    |s| > 0 && forall k :: 0 <= k < |s| ==> IsWordChar(s[k])
  }

  /** The literal prefixes of the patterns VARIABLE, LOCAL and SKIP_LOCAL;
      each is followed by the capture `([\w_]+)`. */
  const VariablePattern: string := "var."
  const LocalPattern: string := "local."
  const SkipPattern: string := "#terraform_unused_vars:skip=local."

  // ---------------------------------------------------------------------
  // Trimming

  /** str.lstrip(): drops the leading whitespace. */
  function LStrip(s: string): (r: string)
    ensures |r| <= |s| && r == s[|s| - |r|..]
    ensures AllSpace(s[..|s| - |r|])
    ensures r != [] ==> !IsSpace(r[0])
    decreases |s|
  {
    if s != [] && IsSpace(s[0]) then
      var r := LStrip(s[1..]);
      DropLeadingSpace(s, r);
      r
    else s
  }

  /** str.rstrip(): drops the trailing whitespace. */
  function RStrip(s: string): (r: string)
    ensures |r| <= |s| && r == s[..|r|]
    ensures AllSpace(s[|r|..])
    ensures r != [] ==> !IsSpace(r[|r| - 1])
    decreases |s|
  {
    if s != [] && IsSpace(s[|s| - 1]) then
      var r := RStrip(s[..|s| - 1]);
      DropTrailingSpace(s, r);
      r
    else s
  }

  lemma {:induction false} DropLeadingSpace(s: string, r: string)
    requires s != [] && IsSpace(s[0])
    requires |r| <= |s| - 1 && r == s[1..][|s| - 1 - |r|..]
    requires AllSpace(s[1..][..|s| - 1 - |r|])
    ensures r == s[|s| - |r|..] && AllSpace(s[..|s| - |r|])
  {
    var t := s[1..];
    var m := |s| - 1 - |r|;
    assert t[m..] == s[m + 1..];
    assert s[..m + 1] == [s[0]] + t[..m];
    AllSpaceConcat([s[0]], t[..m]);
  }

  lemma {:induction false} DropTrailingSpace(s: string, r: string)
    requires s != [] && IsSpace(s[|s| - 1])
    requires |r| <= |s| - 1 && r == s[..|s| - 1][..|r|]
    requires AllSpace(s[..|s| - 1][|r|..])
    ensures r == s[..|r|] && AllSpace(s[|r|..])
  {
    var t := s[..|s| - 1];
    assert t[..|r|] == s[..|r|];
    assert s[|r|..] == t[|r|..] + [s[|s| - 1]];
    AllSpaceConcat(t[|r|..], [s[|s| - 1]]);
  }

  /** r is s with only whitespace on either side of position i. */
  predicate Trims(s: string, i: nat, r: string) {
    i + |r| <= |s| && s[i..i + |r|] == r && AllSpace(s[..i]) && AllSpace(s[i + |r|..])
  }

  /** str.strip(): the text between the leading and the trailing
      whitespace. */
  function Strip(s: string): string {
    RStrip(LStrip(s))
  }

  /** Stripping leaves a line with whitespace only on either side; it is
      empty exactly when the line is blank. */
  lemma {:induction false} StripSpec(s: string)
    ensures Strip(s) == [] <==> AllSpace(s)
    ensures Strip(s) != [] ==> !IsSpace(Strip(s)[0]) && !IsSpace(Strip(s)[|Strip(s)| - 1])
    ensures exists i: nat :: Trims(s, i, Strip(s))
  {
    var l := LStrip(s);
    var r := RStrip(l);
    StripTrims(s, l, r);
    assert Trims(s, |s| - |l|, r);
  }

  lemma {:induction false} StripTrims(s: string, l: string, r: string)
    requires |l| <= |s| && l == s[|s| - |l|..] && AllSpace(s[..|s| - |l|])
    requires l != [] ==> !IsSpace(l[0])
    requires |r| <= |l| && r == l[..|r|] && AllSpace(l[|r|..])
    requires r != [] ==> !IsSpace(r[|r| - 1])
    ensures Trims(s, |s| - |l|, r) && (r == [] <==> AllSpace(s))
    ensures r != [] ==> !IsSpace(r[0]) && !IsSpace(r[|r| - 1])
  {
    var i := |s| - |l|;
    SliceOfSuffix(s, i, |r|);
    if r == [] {
      assert s == s[..i] + l;
      AllSpaceConcat(s[..i], l);
    } else {
      assert s[i] == r[0] == l[0];
    }
  }

  lemma {:induction false} SliceOfSuffix(s: string, i: nat, n: nat)
    requires i + n <= |s|
    ensures s[i..][..n] == s[i..i + n] && s[i..][n..] == s[i + n..]
  {
  }

  lemma {:induction false} AllSpaceConcat(a: string, b: string)
    requires AllSpace(a) && AllSpace(b)
    ensures AllSpace(a + b)
  {
  }

  // ---------------------------------------------------------------------
  // Cutting comments

  /** line.split('#', 1)[0]: the text before the first '#', or the whole
      line when it has none. */
  function BeforeHash(s: string): (r: string)
    ensures |r| <= |s| && r == s[..|r|]
    ensures '#' !in r
    ensures |r| < |s| ==> s[|r|] == '#'
  {
    if s == [] || s[0] == '#' then [] else [s[0]] + BeforeHash(s[1..])
  }

  /** Whatever follows the first '#' is gone. */
  lemma {:induction false} CommentCut(u: string, v: string)
    requires '#' !in u
    ensures BeforeHash(u + "#" + v) == u
  {
    var s := u + "#" + v;
    assert s[|u|] == '#';
    assert s[..|u|] == u;
  }

  // ---------------------------------------------------------------------
  // Runs of characters

  /** Length of the longest prefix of word characters (a greedy `[\w_]*`). */
  function WordRun(s: string): (n: nat)
    ensures n <= |s|
    ensures forall k :: 0 <= k < n ==> IsWordChar(s[k])
    ensures n < |s| ==> !IsWordChar(s[n])
  {
    if s != [] && IsWordChar(s[0]) then 1 + WordRun(s[1..]) else 0
  }

  /** Length of the longest prefix of whitespace (a greedy `\s*`). */
  function SpaceRun(s: string): (n: nat)
    ensures n <= |s|
    ensures AllSpace(s[..n])
    ensures n < |s| ==> !IsSpace(s[n])
  {
    if s != [] && IsSpace(s[0]) then
      var n := 1 + SpaceRun(s[1..]);
      assert s[..n] == [s[0]] + s[1..][..n - 1];
      n
    else 0
  }

  /** The greedy run is determined by where the word characters stop. */
  lemma {:induction false} WordRunIs(s: string, n: nat)
    requires n <= |s|
    requires forall k :: 0 <= k < n ==> IsWordChar(s[k])
    requires n < |s| ==> !IsWordChar(s[n])
    ensures WordRun(s) == n
  {
    if n > 0 {
      WordRunIs(s[1..], n - 1);
    }
  }

  lemma {:induction false} SpaceRunIs(s: string, n: nat)
    requires n <= |s|
    requires AllSpace(s[..n])
    requires n < |s| ==> !IsSpace(s[n])
    ensures SpaceRun(s) == n
  {
    if n > 0 {
      assert IsSpace(s[..n][0]);
      assert s[1..][..n - 1] == s[..n][1..];
      SpaceRunIs(s[1..], n - 1);
    }
  }

  // ---------------------------------------------------------------------
  // The patterns `<p>([\w_]+)`: re.search and re.findall

  /** The pattern `<p>([\w_]+)` matches at position i of s. */
  predicate MatchAt(p: string, s: string, i: nat) {
    i + |p| < |s| && s[i..i + |p|] == p && IsWordChar(s[i + |p|])
  }

  /** re.search(`<p>([\w_]+)`, s) finds a match. */
  predicate Search(p: string, s: string) {
    exists i: nat :: i < |s| && MatchAt(p, s, i)
  }

  /** At position i of s stands p followed by the maximal run of word
      characters name. */
  predicate CapturedAt(p: string, name: string, s: string, i: nat) {
    && IsName(name)
    && i + |p| + |name| <= |s|
    && s[i..i + |p| + |name|] == p + name
    && (i + |p| + |name| == |s| || !IsWordChar(s[i + |p| + |name|]))
  }

  /** name is captured somewhere in s. */
  ghost predicate Captured(p: string, name: string, s: string) {
    exists i: nat :: CapturedAt(p, name, s, i)
  }

  lemma {:induction false} SliceShift(s: string, m: nat, i: nat, e: nat)
    requires m <= |s| && i <= e <= |s| - m
    ensures s[m..][i..e] == s[i + m..e + m]
  {
    assert forall k :: 0 <= k < e - i ==> s[m..][i..e][k] == s[i + m + k];
  }

  /** Captures found in a suffix of s are captures in s. */
  lemma {:induction false} CapturedShift(p: string, s: string, m: nat, names: seq<string>)
    requires m <= |s|
    requires forall k :: 0 <= k < |names| ==> Captured(p, names[k], s[m..])
    ensures forall k :: 0 <= k < |names| ==> Captured(p, names[k], s)
  {
    forall k | 0 <= k < |names| ensures Captured(p, names[k], s) {
      var i: nat :| CapturedAt(p, names[k], s[m..], i);
      var e := i + |p| + |names[k]|;
      SliceShift(s, m, i, e);
      assert e < |s| - m ==> s[m..][e] == s[e + m];
      assert CapturedAt(p, names[k], s, i + m);
    }
  }

  /** re.findall(`<p>([\w_]+)`, s): scanning left to right, every
      non-overlapping match contributes its maximal word run. */
  function FindAll(p: string, s: string): seq<string>
    decreases |s|
  {
    if s == [] then []
    else if MatchAt(p, s, 0) then
      var n := WordRun(s[|p|..]);
      [s[|p|..|p| + n]] + FindAll(p, s[|p| + n..])
    else
      FindAll(p, s[1..])
  }

  /** Every result of re.findall is a name that stands right after p in s,
      maximally extended. */
  lemma {:induction false} FindAllSound(p: string, s: string)
    ensures forall k :: 0 <= k < |FindAll(p, s)| ==> Captured(p, FindAll(p, s)[k], s)
    decreases |s|
  {
    if s == [] {
    } else if MatchAt(p, s, 0) {
      var n := WordRun(s[|p|..]);
      var rest := FindAll(p, s[|p| + n..]);
      FindAllSound(p, s[|p| + n..]);
      CapturedShift(p, s, |p| + n, rest);
      HeadCaptured(p, s, s[|p|..], n);
      FindAllMatchStep(p, s, n);
      CapturedCons(p, s, s[|p|..|p| + n], rest);
    } else {
      FindAllSound(p, s[1..]);
      CapturedShift(p, s, 1, FindAll(p, s[1..]));
      FindAllStep(p, s);
    }
  }

  lemma {:induction false} CapturedCons(p: string, s: string, name: string, rest: seq<string>)
    requires CapturedAt(p, name, s, 0)
    requires forall k :: 0 <= k < |rest| ==> Captured(p, rest[k], s)
    ensures forall k :: 0 <= k < |[name] + rest| ==> Captured(p, ([name] + rest)[k], s)
  {
    forall k | 0 <= k < |[name] + rest| ensures Captured(p, ([name] + rest)[k], s) {
      if k > 0 { assert ([name] + rest)[k] == rest[k - 1]; }
    }
  }

  lemma {:induction false} HeadCaptured(p: string, s: string, t: string, n: nat)
    requires MatchAt(p, s, 0) && t == s[|p|..]
    requires n <= |t| && (forall k :: 0 <= k < n ==> IsWordChar(t[k])) && (n < |t| ==> !IsWordChar(t[n]))
    ensures CapturedAt(p, s[|p|..|p| + n], s, 0)
  {
    assert t[0] == s[|p|];
    var name := s[|p|..|p| + n];
    assert forall k :: 0 <= k < n ==> name[k] == t[k];
    assert s[..|p| + n] == s[..|p|] + name;
    assert |p| + n < |s| ==> s[|p| + n] == t[n];
  }

  lemma {:induction false} MatchAtTail(p: string, s: string, i: nat)
    requires s != []
    ensures MatchAt(p, s, i + 1) <==> MatchAt(p, s[1..], i)
  {
    if i + 1 + |p| < |s| {
      assert s[1..][i..i + |p|] == s[i + 1..i + 1 + |p|];
    }
  }

  /** re.search succeeds exactly when re.findall finds something. */
  lemma {:induction false} SearchIffFindAll(p: string, s: string)
    ensures Search(p, s) <==> FindAll(p, s) != []
    decreases |s|
  {
    if s == [] {
    } else if MatchAt(p, s, 0) {
    } else {
      SearchIffFindAll(p, s[1..]);
      if Search(p, s) {
        var i: nat :| i < |s| && MatchAt(p, s, i);
        assert i > 0;
        MatchAtTail(p, s, i - 1);
        assert MatchAt(p, s[1..], i - 1);
      }
      if Search(p, s[1..]) {
        var i: nat :| i < |s| - 1 && MatchAt(p, s[1..], i);
        MatchAtTail(p, s, i);
      }
    }
  }

  /** A run of whitespace holds no match. */
  lemma {:induction false} FindAllSpaces(p: string, w: string)
    requires AllSpace(w)
    ensures FindAll(p, w) == []
    decreases |w|
  {
    if w != [] {
      assert !MatchAt(p, w, 0) by {
        if |p| < |w| { assert IsSpace(w[|p|]); }
      }
      FindAllSpaces(p, w[1..]);
    }
  }

  /** A character that is neither a word character nor part of p separates
      the matches on its left from those on its right. */
  lemma {:induction false} FindAllSplit(p: string, u: string, c: char, v: string)
    requires !IsWordChar(c) && c !in p
    ensures FindAll(p, u + [c] + v) == FindAll(p, u) + FindAll(p, v)
    decreases |u|
  {
    var s := u + [c] + v;
    if u == [] {
      SplitStartFacts(p, c, v, s);
      FindAllStep(p, s);
    } else if MatchAt(p, s, 0) {
      var n := WordRun(s[|p|..]);
      SplitMatchHeads(p, u, c, v, n);
      FindAllSplit(p, u[|p| + n..], c, v);
      var x := u[|p|..|p| + n];
      var a := FindAll(p, u[|p| + n..]);
      var b := FindAll(p, v);
      ConsAssoc(x, a, b);
    } else {
      SplitNoMatchFacts(p, u, c, v, s);
      FindAllSplit(p, u[1..], c, v);
      SplitNoMatchCase(p, u, c, v);
    }
  }

  lemma {:induction false} ConsAssoc(x: string, a: seq<string>, b: seq<string>)
    ensures [x] + (a + b) == ([x] + a) + b
  {
  }

  lemma {:induction false} SplitMatchHeads(p: string, u: string, c: char, v: string, n: nat)
    requires !IsWordChar(c) && c !in p
    requires MatchAt(p, u + [c] + v, 0) && n == WordRun((u + [c] + v)[|p|..])
    ensures |p| + n <= |u|
    ensures FindAll(p, u + [c] + v) == [u[|p|..|p| + n]] + FindAll(p, u[|p| + n..] + [c] + v)
    ensures FindAll(p, u) == [u[|p|..|p| + n]] + FindAll(p, u[|p| + n..])
  {
    var s := u + [c] + v;
    SplitMatchFacts(p, u, c, v, s, s[|p|..], n);
    WordRunIs(u[|p|..], n);
    FindAllMatchStep(p, s, n);
    FindAllMatchStep(p, u, n);
  }

  lemma {:induction false} FindAllMatchStep(p: string, s: string, n: nat)
    requires MatchAt(p, s, 0) && n == WordRun(s[|p|..])
    ensures FindAll(p, s) == [s[|p|..|p| + n]] + FindAll(p, s[|p| + n..])
  {
  }

  lemma {:induction false} SplitNoMatchCase(p: string, u: string, c: char, v: string)
    requires u != [] && !MatchAt(p, u + [c] + v, 0)
    requires FindAll(p, u[1..] + [c] + v) == FindAll(p, u[1..]) + FindAll(p, v)
    ensures FindAll(p, u + [c] + v) == FindAll(p, u) + FindAll(p, v)
  {
    var s := u + [c] + v;
    SplitNoMatchFacts(p, u, c, v, s);
    FindAllStep(p, s);
    FindAllStep(p, u);
  }

  /** One step of the scan: take the match at the front, or skip a character. */
  lemma {:induction false} FindAllStep(p: string, s: string)
    requires s != []
    ensures MatchAt(p, s, 0) ==> FindAll(p, s) == [s[|p|..|p| + WordRun(s[|p|..])]] + FindAll(p, s[|p| + WordRun(s[|p|..])..])
    ensures !MatchAt(p, s, 0) ==> FindAll(p, s) == FindAll(p, s[1..])
  {
  }

  lemma {:induction false} SplitStartFacts(p: string, c: char, v: string, s: string)
    requires !IsWordChar(c) && c !in p && s == [] + [c] + v
    ensures !MatchAt(p, s, 0) && s[1..] == v
  {
    assert s[0] == c;
    assert |p| > 0 ==> p[0] in p;
  }

  lemma {:induction false} SplitMatchFacts(p: string, u: string, c: char, v: string, s: string, t: string, n: nat)
    requires !IsWordChar(c) && c !in p && s == u + [c] + v && MatchAt(p, s, 0) && t == s[|p|..]
    requires n <= |t| && (forall k :: 0 <= k < n ==> IsWordChar(t[k])) && (n < |t| ==> !IsWordChar(t[n]))
    ensures |p| + n <= |u| && MatchAt(p, u, 0)
    ensures forall k :: 0 <= k < n ==> IsWordChar(u[|p|..][k])
    ensures |p| + n < |u| ==> !IsWordChar(u[|p|..][n])
    ensures s[|p|..|p| + n] == u[|p|..|p| + n] && s[|p| + n..] == u[|p| + n..] + [c] + v
  {
    assert s[|u|] == c;
    assert forall k :: 0 <= k < |p| ==> s[k] == p[k] && p[k] in p;
    assert |u| > |p|;
    assert u[..|p|] == s[..|p|];
    assert |u| - |p| < |t| && t[|u| - |p|] == c;
    assert |p| + n <= |u|;
    assert forall k :: 0 <= k < n ==> u[|p|..][k] == t[k];
    assert |p| + n < |u| ==> u[|p|..][n] == t[n];
  }

  lemma {:induction false} SplitNoMatchFacts(p: string, u: string, c: char, v: string, s: string)
    requires s == u + [c] + v && u != [] && !MatchAt(p, s, 0)
    ensures !MatchAt(p, u, 0) && s[1..] == u[1..] + [c] + v
  {
    if |p| < |u| { assert s[..|p|] == u[..|p|]; }
  }

  /** p directly followed by a name, and nothing else, is that one match. */
  lemma {:induction false} FindAllSingle(p: string, name: string)
    requires IsName(name)
    ensures FindAll(p, p + name) == [name]
  {
    var s := p + name;
    assert s[..|p|] == p;
    assert s[|p|] == name[0];
    assert MatchAt(p, s, 0);
    assert s[|p|..] == name;
    WordRunIs(name, |name|);
    assert s[|p|..|p| + |name|] == name;
    assert s[|p| + |name|..] == [];
    assert FindAll(p, s) == [name] + FindAll(p, []);
  }

  /** A line that starts with p and a name, followed by the end of the
      line or a character that cannot extend the name, reports that name
      first. */
  lemma {:induction false} FindAllHead(p: string, name: string, v: string)
    requires IsName(name)
    requires v == [] || !IsWordChar(v[0])
    ensures FindAll(p, p + name + v) == [name] + FindAll(p, v)
  {
    var s := p + name + v;
    assert s[..|p|] == p && s[|p|] == name[0];
    assert s[|p|..] == name + v;
    WordRunIs(name + v, |name|);
    FindAllMatchStep(p, s, |name|);
    assert s[|p|..|p| + |name|] == name;
    assert s[|p| + |name|..] == v;
  }

  /** Every occurrence of p and a name after a separator that does not
      occur in p, and before the end of the line or a character that cannot
      extend the name, is reported in its place among the matches before
      and after it. */
  lemma {:induction false} MatchIsFound(p: string, u: string, c: char, name: string, v: string)
    requires IsName(name)
    requires !IsWordChar(c) && c !in p
    requires v == [] || !IsWordChar(v[0])
    ensures FindAll(p, u + [c] + p + name + v) == FindAll(p, u) + [name] + FindAll(p, v)
  {
    RegroupAfter(u + [c], p, name, v);
    FindAllSplit(p, u, c, p + name + v);
    FindAllHead(p, name, v);
  }

  lemma {:induction false} RegroupAfter(a: string, p: string, name: string, v: string)
    ensures a + p + name + v == a + (p + name + v)
  {
  }

  /** `a = local.m.k`: a reference followed by an attribute access reports
      the local's own name once. */
  lemma {:induction false} AttributeAccessFound()
    ensures FindAll(LocalPattern, "a = local.m.k") == ["m"]
  {
    assert "a = local.m.k" == "a =" + [' '] + LocalPattern + "m" + ".k";
    MatchIsFound(LocalPattern, "a =", ' ', "m", ".k");
  }

  /** Trailing whitespace never changes what a pattern without whitespace
      finds, so the rstrip() after the comment cut is harmless. */
  lemma {:induction false} FindAllRStrip(p: string, s: string)
    requires forall k :: 0 <= k < |p| ==> !IsSpace(p[k])
    ensures FindAll(p, RStrip(s)) == FindAll(p, s)
  {
    FindAllTrailingSpace(p, s, RStrip(s));
  }

  lemma {:induction false} FindAllTrailingSpace(p: string, s: string, r: string)
    requires forall k :: 0 <= k < |p| ==> !IsSpace(p[k])
    requires |r| <= |s| && r == s[..|r|] && AllSpace(s[|r|..])
    ensures FindAll(p, s) == FindAll(p, r)
  {
    var w := s[|r|..];
    if w != [] {
      var c := w[0];
      var w' := w[1..];
      assert c !in p by {
        assert forall k :: 0 <= k < |p| ==> p[k] != c;
      }
      assert AllSpace(w') by {
        assert forall k :: 0 <= k < |w'| ==> w'[k] == w[k + 1];
      }
      assert s == r + [c] + w';
      FindAllSplit(p, r, c, w');
      FindAllSpaces(p, w');
      assert FindAll(p, r) + [] == FindAll(p, r);
    } else {
      assert s == r;
    }
  }

  // ---------------------------------------------------------------------
  // The declaration header `^variable\s+"([\w_]+)"\s+{`

  const Keyword: string := "variable"

  /** `<w2>{<rest>`: the whitespace before the opening brace and whatever
      follows the brace. */
  function OpenBrace(w2: string, rest: string): string {
    w2 + (['{'] + rest)
  }

  /** `<name>"<w2>{<rest>`: the text after the opening quote. */
  function QuotedTail(name: string, w2: string, rest: string): string {
    name + (['"'] + OpenBrace(w2, rest))
  }

  /** `<w1>"<name>"<w2>{<rest>`: the text after the keyword. */
  function KeywordTail(w1: string, name: string, w2: string, rest: string): string {
    w1 + (['"'] + QuotedTail(name, w2, rest))
  }

  /** The header `variable<w1>"<name>"<w2>{<rest>`. */
  function HeaderLine(w1: string, name: string, w2: string, rest: string): string {
    Keyword + KeywordTail(w1, name, w2, rest)
  }

  /** line is a declaration header of name, with the whitespace w1 and w2
      around the quoted name and anything at all after the brace. */
  predicate IsHeader(line: string, w1: string, name: string, w2: string, rest: string) {
    && |w1| > 0 && AllSpace(w1)
    && IsName(name)
    && |w2| > 0 && AllSpace(w2)
    && line == HeaderLine(w1, name, w2, rest)
  }

  /** re.match(VARIABLE_DECL, line).group(1), or None when it does not
      match: the keyword at the start of the line, ... */
  function MatchVariableDecl(line: string): Option<string> {
    if |line| < |Keyword| || line[..|Keyword|] != Keyword then None
    else MatchKeywordTail(line[|Keyword|..])
  }

  /** ... then `\s+"`, ... */
  function MatchKeywordTail(a: string): Option<string> {
    var s1 := SpaceRun(a);
    if s1 == 0 || s1 == |a| || a[s1] != '"' then None
    else MatchQuotedTail(a[s1 + 1..])
  }

  /** ... then the captured name and its closing quote, ... */
  function MatchQuotedTail(b: string): Option<string> {
    var n := WordRun(b);
    if n == 0 || n == |b| || b[n] != '"' then None
    else if OpensBlock(b[n + 1..]) then Some(b[..n])
    else None
  }

  /** ... and `\s+{`. */
  predicate OpensBlock(c: string) {
    var s2 := SpaceRun(c);
    0 < s2 < |c| && c[s2] == '{'
  }

  lemma {:induction false} OpenBraceRecognised(w2: string, rest: string)
    requires |w2| > 0 && AllSpace(w2)
    ensures OpensBlock(OpenBrace(w2, rest))
  {
    var c := OpenBrace(w2, rest);
    assert c[..|w2|] == w2 && c[|w2|] == '{';
    SpaceRunIs(c, |w2|);
  }

  lemma {:induction false} OpensBlockSound(c: string)
    requires OpensBlock(c)
    ensures exists w2, rest :: |w2| > 0 && AllSpace(w2) && c == OpenBrace(w2, rest)
  {
    var s2 := SpaceRun(c);
    Unsplit(c, s2);
    assert c == OpenBrace(c[..s2], c[s2 + 1..]);
  }

  lemma {:induction false} QuotedTailRecognised(name: string, w2: string, rest: string)
    requires IsName(name) && |w2| > 0 && AllSpace(w2)
    ensures MatchQuotedTail(QuotedTail(name, w2, rest)) == Some(name)
  {
    var b := QuotedTail(name, w2, rest);
    assert b[..|name|] == name && b[|name|] == '"' && b[|name| + 1..] == OpenBrace(w2, rest);
    WordRunIs(b, |name|);
    OpenBraceRecognised(w2, rest);
  }

  lemma {:induction false} QuotedTailSound(b: string)
    requires MatchQuotedTail(b).Some?
    ensures exists w2, rest :: IsName(MatchQuotedTail(b).value) && |w2| > 0 && AllSpace(w2)
                               && b == QuotedTail(MatchQuotedTail(b).value, w2, rest)
  {
    var n := WordRun(b);
    var c := b[n + 1..];
    OpensBlockSound(c);
    var w2, rest :| |w2| > 0 && AllSpace(w2) && c == OpenBrace(w2, rest);
    Unsplit(b, n);
    assert b == QuotedTail(b[..n], w2, rest);
  }

  lemma {:induction false} KeywordTailRecognised(w1: string, name: string, w2: string, rest: string)
    requires |w1| > 0 && AllSpace(w1) && IsName(name) && |w2| > 0 && AllSpace(w2)
    ensures MatchKeywordTail(KeywordTail(w1, name, w2, rest)) == Some(name)
  {
    var a := KeywordTail(w1, name, w2, rest);
    assert a[..|w1|] == w1 && a[|w1|] == '"' && a[|w1| + 1..] == QuotedTail(name, w2, rest);
    SpaceRunIs(a, |w1|);
    QuotedTailRecognised(name, w2, rest);
  }

  lemma {:induction false} KeywordTailSound(a: string)
    requires MatchKeywordTail(a).Some?
    ensures exists w1, w2, rest :: |w1| > 0 && AllSpace(w1) && IsName(MatchKeywordTail(a).value)
                                   && |w2| > 0 && AllSpace(w2)
                                   && a == KeywordTail(w1, MatchKeywordTail(a).value, w2, rest)
  {
    var s1 := SpaceRun(a);
    var b := a[s1 + 1..];
    var name := MatchQuotedTail(b).value;
    assert MatchKeywordTail(a).value == name;
    QuotedTailSound(b);
    var w2, rest :| |w2| > 0 && AllSpace(w2) && b == QuotedTail(name, w2, rest);
    Unsplit(a, s1);
    assert a == a[..s1] + (['"'] + QuotedTail(name, w2, rest));
    assert a == KeywordTail(a[..s1], name, w2, rest);
  }

  /** Every line of the header's shape is recognised, with its name. */
  lemma {:induction false} HeaderRecognised(w1: string, name: string, w2: string, rest: string)
    requires |w1| > 0 && AllSpace(w1) && IsName(name) && |w2| > 0 && AllSpace(w2)
    ensures MatchVariableDecl(HeaderLine(w1, name, w2, rest)) == Some(name)
  {
    var line := HeaderLine(w1, name, w2, rest);
    assert line[..|Keyword|] == Keyword && line[|Keyword|..] == KeywordTail(w1, name, w2, rest);
    KeywordTailRecognised(w1, name, w2, rest);
  }

  /** Whatever the scanner accepts has the header's shape, and the name it
      returns is the quoted one. */
  lemma {:induction false} MatchVariableDeclSound(line: string)
    requires MatchVariableDecl(line).Some?
    ensures exists w1, w2, rest :: IsHeader(line, w1, MatchVariableDecl(line).value, w2, rest)
  {
    var a := line[|Keyword|..];
    KeywordTailSound(a);
    var w1, w2, rest :| |w1| > 0 && AllSpace(w1) && |w2| > 0 && AllSpace(w2)
                        && a == KeywordTail(w1, MatchKeywordTail(a).value, w2, rest);
    assert line == Keyword + a;
    assert IsHeader(line, w1, MatchVariableDecl(line).value, w2, rest);
  }

  lemma {:induction false} Unsplit(s: string, n: nat)
    requires n < |s|
    ensures s == s[..n] + ([s[n]] + s[n + 1..])
  {
  }

  /** The scanner accepts exactly the lines of the header's shape. */
  lemma {:induction false} DeclarationHeaderIff(line: string, name: string)
    ensures MatchVariableDecl(line) == Some(name)
            <==> exists w1, w2, rest :: IsHeader(line, w1, name, w2, rest)
  {
    if MatchVariableDecl(line) == Some(name) {
      MatchVariableDeclSound(line);
    }
    if exists w1, w2, rest :: IsHeader(line, w1, name, w2, rest) {
      var w1, w2, rest :| IsHeader(line, w1, name, w2, rest);
      HeaderRecognised(w1, name, w2, rest);
    }
  }
}
