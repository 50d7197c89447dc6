/** String helpers used by the chunker: Python's whitespace class, str.strip(),
    str.rfind(' ', 0, end), str.split('\n\n') and re.split(r'(?<=[.!?])\s+', ...),
    each as a pure function together with the facts the chunker relies on. */
module TextOps {

  const ParagraphSeparator: string := "\n\n"
  const SentenceSeparator: string := " "

  /** Python's str.isspace(): the class matched by `\s` in a str pattern and
      removed by str.strip() with no argument. */
  predicate IsSpace(c: char) {
    var n := c as int;
    (9 <= n <= 13) || (28 <= n <= 32) || n == 0x85 || n == 0xA0 || n == 0x1680
    || (0x2000 <= n <= 0x200A) || n == 0x2028 || n == 0x2029 || n == 0x202F
    || n == 0x205F || n == 0x3000
  }

  predicate AllSpace(s: string) {
    forall i :: 0 <= i < |s| ==> IsSpace(s[i])
  }

  predicate NoSpace(s: string) {
    forall i :: 0 <= i < |s| ==> !IsSpace(s[i])
  }

  /** The characters the regex `[.!?]` in the sentence splitter's look-behind accepts. */
  predicate IsSentenceEnd(c: char) {
    c == '.' || c == '!' || c == '?'
  }

  /** The non-whitespace characters of `s`, in order: the "content" that the
      chunker must neither lose, duplicate nor reorder. */
  function NonSpace(s: string): string {
    if s == [] then [] else (if IsSpace(s[0]) then [] else [s[0]]) + NonSpace(s[1..])
  }

  lemma {:induction false} NonSpaceAppend(a: string, b: string)
    ensures NonSpace(a + b) == NonSpace(a) + NonSpace(b)
  {
    if a == [] {
      assert a + b == b;
    } else {
      assert (a + b)[1..] == a[1..] + b;
      NonSpaceAppend(a[1..], b);
    }
  }

  lemma {:induction false} NonSpaceOfSpaces(s: string)
    requires AllSpace(s)
    ensures NonSpace(s) == []
  {
    if s != [] {
      NonSpaceOfSpaces(s[1..]);
    }
  }

  lemma {:induction false} NonSpaceOfWord(s: string)
    requires NoSpace(s)
    ensures NonSpace(s) == s
  {
    if s != [] {
      NonSpaceOfWord(s[1..]);
    }
  }

  /** Dafny knows this unaided; calling it by name keeps the proofs that
      regroup string concatenations stable across solver seeds. */
  lemma AppendAssoc(a: string, b: string, d: string)
    ensures (a + b) + d == a + (b + d)
  {
  }

  /** Concatenation of a list of strings: Python's "".join(ps). */
  function Concat(ps: seq<string>): string {
    if ps == [] then [] else ps[0] + Concat(ps[1..])
  }

  lemma ConcatSingle(p: string)
    ensures Concat([p]) == p
  {
    assert [p][1..] == [];
  }

  lemma {:induction false} ConcatAppend(a: seq<string>, b: seq<string>)
    ensures Concat(a + b) == Concat(a) + Concat(b)
  {
    if a == [] {
      assert a + b == b;
    } else {
      assert (a + b)[1..] == a[1..] + b;
      ConcatAppend(a[1..], b);
    }
  }

  /** Python's sep.join(ps). */
  function Join(ps: seq<string>, sep: string): string {
    if |ps| == 0 then [] else if |ps| == 1 then ps[0] else ps[0] + sep + Join(ps[1..], sep)
  }

  lemma {:induction false} JoinSnoc(ps: seq<string>, p: string, sep: string)
    requires ps != []
    ensures Join(ps + [p], sep) == Join(ps, sep) + sep + p
  {
    if |ps| == 1 {
      assert ps + [p] == [ps[0], p];
      assert [ps[0], p][1..] == [p];
    } else {
      assert (ps + [p])[1..] == ps[1..] + [p];
      JoinSnoc(ps[1..], p, sep);
    }
  }

  lemma {:induction false} JoinAppend(a: seq<string>, b: seq<string>, sep: string)
    requires a != [] && b != []
    ensures Join(a + b, sep) == Join(a, sep) + sep + Join(b, sep)
  {
    if |a| == 1 {
      assert (a + b)[1..] == b;
    } else {
      assert (a + b)[1..] == a[1..] + b;
      JoinAppend(a[1..], b, sep);
    }
  }

  /** Prepending one character to the first piece prepends it to the whole. */
  lemma ConcatConsChar(c: char, ps: seq<string>)
    requires ps != []
    ensures Concat([[c] + ps[0]] + ps[1..]) == [c] + Concat(ps)
  {
    ConcatCons([c] + ps[0], ps[1..]);
    ConcatCons(ps[0], ps[1..]);
    assert [ps[0]] + ps[1..] == ps;
    AppendAssoc([c], ps[0], Concat(ps[1..]));
  }

  lemma ConcatCons(p: string, ps: seq<string>)
    ensures Concat([p] + ps) == p + Concat(ps)
  {
    assert ([p] + ps)[0] == p && ([p] + ps)[1..] == ps;
  }

  lemma JoinConsChar(c: char, ps: seq<string>, sep: string)
    requires ps != []
    ensures Join([[c] + ps[0]] + ps[1..], sep) == [c] + Join(ps, sep)
  {
    var r := [[c] + ps[0]] + ps[1..];
    assert r[0] == [c] + ps[0] && r[1..] == ps[1..] && |r| == |ps|;
    if |ps| > 1 {
      assert Join(r, sep) == ([c] + ps[0]) + sep + Join(ps[1..], sep);
      AppendAssoc([c], ps[0], sep);
      AppendAssoc([c], ps[0] + sep, Join(ps[1..], sep));
    }
  }

  /** With a whitespace separator, joining keeps exactly the content of the pieces. */
  lemma {:induction false} NonSpaceJoin(ps: seq<string>, sep: string)
    requires AllSpace(sep)
    ensures NonSpace(Join(ps, sep)) == NonSpace(Concat(ps))
  {
    if |ps| == 1 {
      assert ps[1..] == [];
      assert Concat(ps) == ps[0] + Concat(ps[1..]) == ps[0];
    } else if |ps| > 1 {
      NonSpaceJoin(ps[1..], sep);
      NonSpaceAppend(ps[0] + sep, Join(ps[1..], sep));
      NonSpaceAppend(ps[0], sep);
      NonSpaceOfSpaces(sep);
      NonSpaceAppend(ps[0], Concat(ps[1..]));
    }
  }

  // ---------------------------------------------------------------- str.strip()

  function StripLeft(s: string): (r: string)
    ensures |r| <= |s| && r == s[|s| - |r|..]
    ensures AllSpace(s[..|s| - |r|])
    ensures r == [] || !IsSpace(r[0])
  {
    if s != [] && IsSpace(s[0]) then
      var r := StripLeft(s[1..]);
      StripLeftStep(s, r);
      r
    else
      s
  }

  /** Dropping one more leading whitespace character keeps the suffix shape. */
  lemma StripLeftStep(s: string, r: string)
    requires s != [] && IsSpace(s[0])
    requires |r| <= |s| - 1 && r == s[1..][|s| - 1 - |r|..] && AllSpace(s[1..][..|s| - 1 - |r|])
    ensures r == s[|s| - |r|..] && AllSpace(s[..|s| - |r|])
  {
    var k := |s| - |r|;
    assert s[1..][k - 1..] == s[k..];
    forall i | 0 <= i < k ensures IsSpace(s[..k][i]) {
      if i > 0 {
        assert s[..k][i] == s[1..][..k - 1][i - 1];
      }
    }
  }

  function StripRight(s: string): (r: string)
    ensures |r| <= |s| && r == s[..|r|]
    ensures AllSpace(s[|r|..])
    ensures r == [] || !IsSpace(r[|r| - 1])
  {
    if s != [] && IsSpace(s[|s| - 1]) then
      var r := StripRight(s[..|s| - 1]);
      AllSpaceSnoc(s, |r|);
      r
    else
      s
  }

  lemma AllSpaceSnoc(s: string, k: nat)
    requires k < |s| && IsSpace(s[|s| - 1]) && AllSpace(s[..|s| - 1][k..])
    ensures AllSpace(s[k..])
  {
    forall i | 0 <= i < |s| - 1 - k ensures IsSpace(s[k..][i]) {
      assert s[k..][i] == s[..|s| - 1][k..][i];
    }
    assert s[k..][|s| - 1 - k] == s[|s| - 1];
  }

  lemma StripLeftContent(s: string)
    ensures NonSpace(StripLeft(s)) == NonSpace(s)
  {
    var l := StripLeft(s);
    var pre := s[..|s| - |l|];
    assert s == pre + l;
    NonSpaceAppend(pre, l);
    NonSpaceOfSpaces(pre);
  }

  lemma StripRightContent(s: string)
    ensures NonSpace(StripRight(s)) == NonSpace(s)
  {
    var r := StripRight(s);
    var post := s[|r|..];
    assert s == r + post;
    NonSpaceAppend(r, post);
    NonSpaceOfSpaces(post);
  }

  /** Python's s.strip(): `s` without its leading and trailing whitespace. */
  function Strip(s: string): (r: string)
    ensures |r| <= |s|
    ensures r == [] || (!IsSpace(r[0]) && !IsSpace(r[|r| - 1]))
    ensures NonSpace(r) == NonSpace(s)
    ensures s != [] && IsSpace(s[0]) ==> |r| < |s|
    ensures NoSpace(s) ==> r == s
  {
    var l := StripLeft(s);
    var r := StripRight(l);
    StripLeftContent(s);
    StripRightContent(l);
    r
  }

  /** Only the ends go: Strip(s) is a slice of `s` between a leading and a
      trailing whitespace run. With Strip's own ensures (no whitespace at
      either end) this determines the result. */
  lemma StripSlice(s: string)
    ensures exists i :: 0 <= i <= |s| - |Strip(s)| && Strip(s) == s[i..i + |Strip(s)|]
                        && AllSpace(s[..i]) && AllSpace(s[i + |Strip(s)|..])
  {
    var l := StripLeft(s);
    var r := StripRight(l);
    var i := |s| - |l|;
    PrefixOfSuffix(s, i, l, r);
    assert r == Strip(s);
    assert 0 <= i <= |s| - |r| && r == s[i..i + |r|] && AllSpace(s[..i]) && AllSpace(s[i + |r|..]);
  }

  /** A prefix `r` of the suffix `l` of `s` from `i` is the slice of `s` from `i`. */
  lemma PrefixOfSuffix(s: string, i: nat, l: string, r: string)
    requires i <= |s| && l == s[i..] && |r| <= |l| && r == l[..|r|]
    ensures r == s[i..i + |r|] && s[i + |r|..] == l[|r|..]
  {
  }

  // ------------------------------------------------------ str.rfind(' ', 0, end)

  /** Python's s.rfind(' ', 0, end) for `end <= |s|`: the index of the last space
      strictly before `end`, or -1 when there is none. */
  function RFindSpace(s: string, end: nat): (r: int)
    requires end <= |s|
    ensures -1 <= r < end
    ensures r >= 0 ==> s[r] == ' '
    ensures forall i :: r < i < end ==> s[i] != ' '
  {
    if end == 0 then -1 else if s[end - 1] == ' ' then end - 1 else RFindSpace(s, end - 1)
  }

  // ---------------------------------------------------------- str.split('\n\n')

  predicate HasBlankLine(p: string) {
    exists i :: 0 <= i < |p| - 1 && p[i] == '\n' && p[i + 1] == '\n'
  }

  predicate EndsWithNewline(p: string) {
    p != [] && p[|p| - 1] == '\n'
  }

  /** Python's s.split('\n\n'): the separator's occurrences are found left to
      right without overlap, so "a\n\n\nb" gives ["a", "\nb"]. The contract
      says the pieces hold no separator and that no piece but the last ends in
      '\n' (otherwise an earlier occurrence would have been taken). */
  function SplitParagraphs(s: string): (r: seq<string>)
    ensures |r| >= 1
    ensures |r[0]| <= |s| && r[0] == s[..|r[0]|]
    ensures |r| == 1 ==> r[0] == s
    ensures |r| > 1 ==> |r[0]| + 2 <= |s| && s[|r[0]|..|r[0]| + 2] == ParagraphSeparator
    decreases |s|
  {
    if |s| < 2 then
      [s]
    else if s[0] == '\n' && s[1] == '\n' then
      [""] + SplitParagraphs(s[2..])
    else
      var rest := SplitParagraphs(s[1..]);
      [[s[0]] + rest[0]] + rest[1..]
  }

  /** Pieces as the leftmost, non-overlapping split leaves them: none holds a
      blank line, and none but the last ends in a newline (else the newline
      and the start of the next separator would have formed a blank line
      earlier). */
  predicate CutAtBlankLines(r: seq<string>) {
    && (forall i :: 0 <= i < |r| ==> !HasBlankLine(r[i]))
    && (forall i :: 0 <= i < |r| - 1 ==> !EndsWithNewline(r[i]))
  }

  lemma CutAtBlankLinesEmpty(rest: seq<string>)
    requires CutAtBlankLines(rest)
    ensures CutAtBlankLines([""] + rest)
  {
    var r := [""] + rest;
    assert !HasBlankLine(r[0]) && !EndsWithNewline(r[0]);
    forall i | 1 <= i < |r| ensures r[i] == rest[i - 1] {
    }
  }

  lemma CutAtBlankLinesExtend(c: char, rest: seq<string>)
    requires CutAtBlankLines(rest) && |rest| >= 1
    requires rest[0] == "" || !(c == '\n' && rest[0][0] == '\n')
    requires rest[0] == "" && |rest| > 1 ==> c != '\n'
    ensures CutAtBlankLines([[c] + rest[0]] + rest[1..])
  {
    var head := [c] + rest[0];
    var r := [head] + rest[1..];
    assert !HasBlankLine(head) by {
      forall i | 0 <= i < |head| - 1
        ensures !(head[i] == '\n' && head[i + 1] == '\n')
      {
        if i > 0 {
          assert head[i] == rest[0][i - 1] && head[i + 1] == rest[0][i];
        }
      }
    }
    if |r| > 1 && rest[0] != "" {
      assert head[|head| - 1] == rest[0][|rest[0]| - 1];
    }
    forall i | 1 <= i < |r| ensures r[i] == rest[i] {
    }
  }

  lemma {:induction false} SplitParagraphsShape(s: string)
    ensures CutAtBlankLines(SplitParagraphs(s))
    decreases |s|
  {
    if |s| < 2 {
      assert !HasBlankLine(s);
    } else if s[0] == '\n' && s[1] == '\n' {
      SplitParagraphsShape(s[2..]);
      CutAtBlankLinesEmpty(SplitParagraphs(s[2..]));
    } else {
      SplitParagraphsShape(s[1..]);
      var rest := SplitParagraphs(s[1..]);
      if rest[0] != "" {
        assert rest[0][0] == s[1];
      } else if |rest| > 1 {
        assert s[1..][0..2] == ParagraphSeparator;
      }
      CutAtBlankLinesExtend(s[0], rest);
    }
  }

  lemma {:induction false} SplitParagraphsJoin(s: string)
    ensures Join(SplitParagraphs(s), ParagraphSeparator) == s
    decreases |s|
  {
    if |s| < 2 {
    } else if s[0] == '\n' && s[1] == '\n' {
      SplitParagraphsJoin(s[2..]);
      var rest := SplitParagraphs(s[2..]);
      assert ([""] + rest)[1..] == rest;
      assert s == ParagraphSeparator + s[2..];
    } else {
      SplitParagraphsJoin(s[1..]);
      var rest := SplitParagraphs(s[1..]);
      JoinConsChar(s[0], rest, ParagraphSeparator);
      assert s == [s[0]] + s[1..];
    }
  }

  lemma {:induction false} SplitParagraphsNoNewline(s: string)
    requires forall i :: 0 <= i < |s| ==> s[i] != '\n'
    ensures SplitParagraphs(s) == [s]
    decreases |s|
  {
    if |s| >= 2 {
      SplitParagraphsNoNewline(s[1..]);
      assert [s[0]] + s[1..] == s;
    }
  }

  // ------------------------------------------- re.split(r'(?<=[.!?])\s+', s)

  /** Python's re.split(r'(?<=[.!?])\s+', s): `s` is cut at every maximal
      whitespace run whose preceding character is '.', '!' or '?', and the
      run is dropped. A run at the very start has no preceding character and
      is kept; a run at the very end yields a final empty piece. */
  function SplitSentences(s: string): (r: seq<string>)
    ensures |r| >= 1
    ensures |r[0]| <= |s| && r[0] == s[..|r[0]|]
    decreases |s|
  {
    if |s| == 0 then [""]
    else if |s| >= 2 && IsSentenceEnd(s[0]) && IsSpace(s[1]) then
      [[s[0]]] + SplitSentences(StripLeft(s[1..]))
    else
      var rest := SplitSentences(s[1..]);
      [[s[0]] + rest[0]] + rest[1..]
  }

  /** Splitting into sentences drops only whitespace. */
  lemma NonSpaceConsEq(c: char, x: string, y: string)
    requires NonSpace(x) == NonSpace(y)
    ensures NonSpace([c] + x) == NonSpace([c] + y)
  {
    NonSpaceAppend([c], x);
    NonSpaceAppend([c], y);
  }

  lemma {:induction false} SplitSentencesContent(s: string)
    ensures NonSpace(Concat(SplitSentences(s))) == NonSpace(s)
    decreases |s|
  {
    if |s| == 0 {
    } else if |s| >= 2 && IsSentenceEnd(s[0]) && IsSpace(s[1]) {
      var t := StripLeft(s[1..]);
      var rest := SplitSentences(t);
      assert NonSpace(Concat(rest)) == NonSpace(s[1..]) by {
        SplitSentencesContent(t);
        StripLeftContent(s[1..]);
      }
      ConcatCons([s[0]], rest);
      NonSpaceConsEq(s[0], Concat(rest), s[1..]);
      assert [s[0]] + s[1..] == s;
    } else {
      var rest := SplitSentences(s[1..]);
      assert NonSpace(Concat(rest)) == NonSpace(s[1..]) by {
        SplitSentencesContent(s[1..]);
      }
      ConcatConsChar(s[0], rest);
      NonSpaceConsEq(s[0], Concat(rest), s[1..]);
      assert [s[0]] + s[1..] == s;
    }
  }

  /** `p` contains no place where the splitter cuts: no sentence end followed
      by whitespace. */
  predicate NoSentenceBreak(p: string) {
    forall k :: 0 <= k < |p| - 1 ==> !(IsSentenceEnd(p[k]) && IsSpace(p[k + 1]))
  }

  /** Cut at every break and only there: no sentence holds a break, every
      sentence but the last ends with '.', '!' or '?', and the whitespace run
      after it went with the cut, so no later sentence starts with whitespace. */
  predicate CutAtBreaks(r: seq<string>) {
    && (forall i :: 0 <= i < |r| ==> NoSentenceBreak(r[i]))
    && (forall i :: 0 <= i < |r| - 1 ==> r[i] != "" && IsSentenceEnd(r[i][|r[i]| - 1]))
    && (forall i :: 1 <= i < |r| ==> r[i] == "" || !IsSpace(r[i][0]))
  }

  /** A cut after sentence end `c`: the one-character sentence [c] goes first. */
  lemma CutAtBreaksCut(c: char, rest: seq<string>)
    requires IsSentenceEnd(c) && CutAtBreaks(rest) && |rest| >= 1
    requires rest[0] == "" || !IsSpace(rest[0][0])
    ensures CutAtBreaks([[c]] + rest)
  {
    var r := [[c]] + rest;
    forall i | 1 <= i < |r| ensures r[i] == rest[i - 1] {
    }
  }

  /** No cut before `rest`: `c` joins the first sentence of `rest`. */
  lemma CutAtBreaksExtend(c: char, rest: seq<string>)
    requires CutAtBreaks(rest) && |rest| >= 1
    requires rest[0] == "" || !(IsSentenceEnd(c) && IsSpace(rest[0][0]))
    ensures CutAtBreaks([[c] + rest[0]] + rest[1..])
  {
    var first := [c] + rest[0];
    var r := [first] + rest[1..];
    assert NoSentenceBreak(first) by {
      forall k | 0 <= k < |first| - 1 ensures !(IsSentenceEnd(first[k]) && IsSpace(first[k + 1])) {
        if k > 0 {
          assert first[k] == rest[0][k - 1] && first[k + 1] == rest[0][k];
        }
      }
    }
    if |r| > 1 {
      assert first[|first| - 1] == rest[0][|rest[0]| - 1];
    }
    forall i | 1 <= i < |r| ensures r[i] == rest[i] {
    }
  }

  lemma {:induction false} SplitSentencesShape(s: string)
    ensures CutAtBreaks(SplitSentences(s))
    decreases |s|
  {
    if |s| == 0 {
    } else if |s| >= 2 && IsSentenceEnd(s[0]) && IsSpace(s[1]) {
      var t := StripLeft(s[1..]);
      SplitSentencesShape(t);
      CutAtBreaksCut(s[0], SplitSentences(t));
    } else {
      SplitSentencesShape(s[1..]);
      var rest := SplitSentences(s[1..]);
      if rest[0] != "" {
        assert rest[0][0] == s[1];
      }
      CutAtBreaksExtend(s[0], rest);
    }
  }

  /** The sentences with the whitespace runs between them put back:
      ps[0] + ws[0] + ps[1] + ... + ws[|ws| - 1] + ps[|ws|]. */
  function Interleave(ps: seq<string>, ws: seq<string>): string
    requires |ps| == |ws| + 1
    decreases |ws|
  {
    if ws == [] then ps[0] else ps[0] + (ws[0] + Interleave(ps[1..], ws[1..]))
  }

  lemma InterleaveConsChar(c: char, ps: seq<string>, ws: seq<string>)
    requires |ps| == |ws| + 1
    ensures Interleave([[c] + ps[0]] + ps[1..], ws) == [c] + Interleave(ps, ws)
  {
    var qs := [[c] + ps[0]] + ps[1..];
    assert qs[1..] == ps[1..];
    if ws != [] {
      AppendAssoc([c], ps[0], ws[0] + Interleave(ps[1..], ws[1..]));
    }
  }

  lemma InterleaveCut(c: char, run: string, ps: seq<string>, ws: seq<string>)
    requires |ps| == |ws| + 1
    ensures Interleave([[c]] + ps, [run] + ws) == [c] + (run + Interleave(ps, ws))
  {
    var qs, vs := [[c]] + ps, [run] + ws;
    assert qs[0] == [c] && qs[1..] == ps && vs[0] == run && vs[1..] == ws;
  }

  /** Every element is a non-empty whitespace run. */
  predicate SpaceRuns(ws: seq<string>) {
    forall i :: 0 <= i < |ws| ==> ws[i] != [] && AllSpace(ws[i])
  }

  lemma SpaceRunsCons(run: string, ws: seq<string>)
    requires run != [] && AllSpace(run) && SpaceRuns(ws)
    ensures SpaceRuns([run] + ws)
  {
    forall i | 1 <= i < |ws| + 1 ensures ([run] + ws)[i] == ws[i - 1] {
    }
  }

  /** The cut case of the round trip: `t` is what StripLeft leaves of s[1..],
      and the run it removed is the whitespace dropped after s[0]. */
  lemma JoinRun(s: string, t: string, rest: seq<string>, ws': seq<string>) returns (ws: seq<string>)
    requires |s| >= 2 && IsSpace(s[1])
    requires |t| <= |s| - 1 && t == s[1..][|s| - 1 - |t|..] && AllSpace(s[1..][..|s| - 1 - |t|])
    requires t == [] || !IsSpace(t[0])
    requires |rest| == |ws'| + 1 && SpaceRuns(ws') && Interleave(rest, ws') == t
    ensures |ws| == |rest| && SpaceRuns(ws)
    ensures Interleave([[s[0]]] + rest, ws) == s
  {
    var k := |s| - 1 - |t|;
    var run := s[1..][..k];
    assert k > 0 by {
      assert IsSpace(s[1..][0]);
    }
    ws := [run] + ws';
    SpaceRunsCons(run, ws');
    assert s == [s[0]] + (run + t) by {
      assert s[1..] == run + t;
      assert [s[0]] + s[1..] == s;
    }
    InterleaveCut(s[0], run, rest, ws');
  }

  /** Round trip: the splitter drops exactly one non-empty whitespace run
      between consecutive sentences, and putting the runs back gives `s`.
      With CutAtBreaks this determines the split: each dropped run follows a
      sentence end and is maximal, and no sentence holds a break. */
  lemma {:induction false} SplitSentencesJoin(s: string) returns (ws: seq<string>)
    ensures |ws| == |SplitSentences(s)| - 1
    ensures SpaceRuns(ws)
    ensures Interleave(SplitSentences(s), ws) == s
    decreases |s|
  {
    if |s| == 0 {
      ws := [];
    } else if |s| >= 2 && IsSentenceEnd(s[0]) && IsSpace(s[1]) {
      var t := StripLeft(s[1..]);
      var rest := SplitSentences(t);
      var ws' := SplitSentencesJoin(t);
      ws := JoinRun(s, t, rest, ws');
    } else {
      var rest := SplitSentences(s[1..]);
      ws := SplitSentencesJoin(s[1..]);
      InterleaveConsChar(s[0], rest, ws);
      assert [s[0]] + s[1..] == s;
    }
  }

  lemma {:induction false} SplitSentencesNoSpace(s: string)
    requires NoSpace(s)
    ensures SplitSentences(s) == [s]
    decreases |s|
  {
    if |s| >= 1 {
      SplitSentencesNoSpace(s[1..]);
      assert [s[0]] + s[1..] == s;
    }
  }
}
