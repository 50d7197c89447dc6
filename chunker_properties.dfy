/** Properties of split_text_into_chunks that relate a whole run of the
    chunker to its input: the paragraph round-trip with the greedy grouping,
    and the worked example of an unbroken 20000-character text. */
module ChunkerProperties {
  import opened TextOps
  import opened Packing
  import opened Chunker

  function Flatten(groups: seq<seq<string>>): seq<string> {
    if groups == [] then [] else groups[0] + Flatten(groups[1..])
  }

  lemma {:induction false} FlattenSnoc(groups: seq<seq<string>>, g: seq<string>)
    ensures Flatten(groups + [g]) == Flatten(groups) + g
  {
    if groups == [] {
      assert [g][1..] == [];
      assert Flatten([g]) == g + Flatten([]);
    } else {
      assert (groups + [g])[1..] == groups[1..] + [g];
      FlattenSnoc(groups[1..], g);
    }
  }

  /** Chunk i is paragraphs `groups[i]` joined by blank lines, no group is
      empty, and each chunk was closed only because the first paragraph of
      the next one would not have fitted behind it. */
  predicate GroupedAs(chunks: seq<string>, groups: seq<seq<string>>, maxLength: int) {
    |chunks| == |groups|
    && (forall i :: 0 <= i < |groups| ==> groups[i] != [] && chunks[i] == Join(groups[i], ParagraphSeparator))
    && (forall i :: 0 <= i < |groups| - 1 ==>
          |chunks[i]| + |ParagraphSeparator| + |groups[i + 1][0]| > maxLength)
  }

  /** Paragraphs that are non-empty and fit each become exactly one unit. */
  predicate ParagraphsFit(ps: seq<string>, maxLength: int) {
    forall i :: 0 <= i < |ps| ==> ps[i] != "" && |ps[i]| <= maxLength
  }

  /** Each paragraph as one unit of its own. */
  function WholeParagraphs(ps: seq<string>): seq<Unit> {
    if ps == [] then [] else [Unit(ps[0], ParagraphSeparator)] + WholeParagraphs(ps[1..])
  }

  /** Paragraphs that are non-empty and fit are never split into sentences. */
  lemma {:induction false} ParagraphsUnitsFitting(ps: seq<string>, maxLength: int)
    requires maxLength >= 1 && ParagraphsFit(ps, maxLength)
    ensures ParagraphsUnits(ps, maxLength) == WholeParagraphs(ps)
  {
    if ps != [] {
      assert ParagraphsFit(ps[1..], maxLength);
      ParagraphsUnitsFitting(ps[1..], maxLength);
    }
  }

  /** Packing fitting paragraphs behind a non-empty current chunk keeps the
      grouping: the chunks are consecutive runs of the paragraphs seen so far. */
  lemma {:induction false} RunParagraphs(chunks: seq<string>, current: string, gs: seq<seq<string>>,
                                         cg: seq<string>, ps: seq<string>, maxLength: int)
    returns (groups: seq<seq<string>>)
    requires maxLength >= 1 && ParagraphsFit(ps, maxLength)
    requires current != "" && cg != []
    requires GroupedAs(chunks + [current], gs + [cg], maxLength)
    ensures GroupedAs(Finish(Run(Packing(chunks, current), WholeParagraphs(ps), maxLength)), groups, maxLength)
    ensures Flatten(groups) == Flatten(gs + [cg]) + ps
    decreases |ps|
  {
    if ps == [] {
      groups := gs + [cg];
    } else {
      var p, rest := ps[0], ps[1..];
      assert ParagraphsFit(rest, maxLength);
      assert ps == [p] + rest;
      if |current| + |ParagraphSeparator| + |p| <= maxLength {
        GroupedExtend(chunks, current, gs, cg, p, maxLength);
        groups := RunParagraphs(chunks, current + ParagraphSeparator + p, gs, cg + [p], rest, maxLength);
        ExtendStep(chunks, current, gs, cg, p, rest, maxLength, groups);
      } else {
        GroupedFlush(chunks, current, gs, cg, p, maxLength);
        groups := RunParagraphs(chunks + [current], p, gs + [cg], [p], rest, maxLength);
        FlushStep(chunks, current, gs, cg, p, rest, maxLength, groups);
      }
    }
  }

  /** A paragraph appended to the current chunk: what holds after it holds before. */
  lemma ExtendStep(chunks: seq<string>, current: string, gs: seq<seq<string>>, cg: seq<string>,
                   p: string, rest: seq<string>, maxLength: int, groups: seq<seq<string>>)
    requires current != "" && |current| + |ParagraphSeparator| + |p| <= maxLength
    requires GroupedAs(Finish(Run(Packing(chunks, current + ParagraphSeparator + p), WholeParagraphs(rest), maxLength)),
                       groups, maxLength)
    requires Flatten(groups) == Flatten(gs + [cg + [p]]) + rest
    ensures GroupedAs(Finish(Run(Packing(chunks, current), WholeParagraphs([p] + rest), maxLength)), groups, maxLength)
    ensures Flatten(groups) == Flatten(gs + [cg]) + ([p] + rest)
  {
    var st, u := Packing(chunks, current), Unit(p, ParagraphSeparator);
    assert WholeParagraphs([p] + rest) == [u] + WholeParagraphs(rest) by {
      assert ([p] + rest)[0] == p && ([p] + rest)[1..] == rest;
    }
    RunCons(st, u, WholeParagraphs(rest), maxLength);
    assert Pack(st, u, maxLength) == Packing(chunks, current + ParagraphSeparator + p);
    FlattenExtend(gs, cg, p, rest);
  }

  /** A paragraph that closes the current chunk: what holds after it holds before. */
  lemma FlushStep(chunks: seq<string>, current: string, gs: seq<seq<string>>, cg: seq<string>,
                  p: string, rest: seq<string>, maxLength: int, groups: seq<seq<string>>)
    requires current != "" && |current| + |ParagraphSeparator| + |p| > maxLength
    requires GroupedAs(Finish(Run(Packing(chunks + [current], p), WholeParagraphs(rest), maxLength)), groups, maxLength)
    requires Flatten(groups) == Flatten(gs + [cg] + [[p]]) + rest
    ensures GroupedAs(Finish(Run(Packing(chunks, current), WholeParagraphs([p] + rest), maxLength)), groups, maxLength)
    ensures Flatten(groups) == Flatten(gs + [cg]) + ([p] + rest)
  {
    var st, u := Packing(chunks, current), Unit(p, ParagraphSeparator);
    assert WholeParagraphs([p] + rest) == [u] + WholeParagraphs(rest) by {
      assert ([p] + rest)[0] == p && ([p] + rest)[1..] == rest;
    }
    RunCons(st, u, WholeParagraphs(rest), maxLength);
    assert Pack(st, u, maxLength) == Packing(chunks + [current], p);
    FlattenFlush(gs + [cg], p, rest);
  }

  lemma FlattenExtend(gs: seq<seq<string>>, cg: seq<string>, p: string, rest: seq<string>)
    ensures Flatten(gs + [cg + [p]]) + rest == Flatten(gs + [cg]) + ([p] + rest)
  {
    FlattenSnoc(gs, cg);
    FlattenSnoc(gs, cg + [p]);
  }

  lemma FlattenFlush(gs: seq<seq<string>>, p: string, rest: seq<string>)
    ensures Flatten(gs + [[p]]) + rest == Flatten(gs) + ([p] + rest)
  {
    FlattenSnoc(gs, [p]);
  }

  /** A paragraph that fits behind the current chunk joins its group. */
  lemma GroupedExtend(chunks: seq<string>, current: string, gs: seq<seq<string>>, cg: seq<string>,
                      p: string, maxLength: int)
    requires GroupedAs(chunks + [current], gs + [cg], maxLength)
    ensures GroupedAs(chunks + [current + ParagraphSeparator + p], gs + [cg + [p]], maxLength)
  {
    var cs, gg := chunks + [current + ParagraphSeparator + p], gs + [cg + [p]];
    var cs0, gg0 := chunks + [current], gs + [cg];
    assert cs0[|chunks|] == current && gg0[|chunks|] == cg;
    JoinSnoc(cg, p, ParagraphSeparator);
    forall i | 0 <= i < |gg|
      ensures gg[i] != [] && cs[i] == Join(gg[i], ParagraphSeparator)
    {
      if i < |chunks| {
        assert cs[i] == cs0[i] && gg[i] == gg0[i];
      }
    }
    forall i | 0 <= i < |gg| - 1
      ensures |cs[i]| + |ParagraphSeparator| + |gg[i + 1][0]| > maxLength
    {
      assert cs[i] == cs0[i];
      assert gg[i + 1][0] == gg0[i + 1][0];
    }
  }

  /** A paragraph that does not fit closes the current chunk and starts a new group. */
  lemma GroupedFlush(chunks: seq<string>, current: string, gs: seq<seq<string>>, cg: seq<string>,
                     p: string, maxLength: int)
    requires GroupedAs(chunks + [current], gs + [cg], maxLength)
    requires |current| + |ParagraphSeparator| + |p| > maxLength
    ensures GroupedAs(chunks + [current] + [p], gs + [cg] + [[p]], maxLength)
  {
    var cs, gg := chunks + [current] + [p], gs + [cg] + [[p]];
    var cs0, gg0 := chunks + [current], gs + [cg];
    JoinSingle(p);
    forall i | 0 <= i < |gg|
      ensures gg[i] != [] && cs[i] == Join(gg[i], ParagraphSeparator)
    {
      if i < |cs0| {
        assert cs[i] == cs0[i] && gg[i] == gg0[i];
      }
    }
    forall i | 0 <= i < |gg| - 1
      ensures |cs[i]| + |ParagraphSeparator| + |gg[i + 1][0]| > maxLength
    {
      if i < |gg| - 2 {
        assert cs[i] == cs0[i];
        assert gg[i + 1][0] == gg0[i + 1][0];
      }
    }
  }

  lemma JoinSingle(p: string)
    ensures Join([p], ParagraphSeparator) == p
  {
  }

  lemma {:induction false} FlattenNonEmpty(groups: seq<seq<string>>)
    requires groups != [] && groups[0] != []
    ensures Flatten(groups) != []
  {
  }

  /** Joining the chunks gives the same text as joining all the paragraphs. */
  lemma {:induction false} JoinGroups(chunks: seq<string>, groups: seq<seq<string>>)
    requires |chunks| == |groups|
    requires forall i :: 0 <= i < |groups| ==> groups[i] != [] && chunks[i] == Join(groups[i], ParagraphSeparator)
    ensures Join(chunks, ParagraphSeparator) == Join(Flatten(groups), ParagraphSeparator)
  {
    if |chunks| == 1 {
      assert groups[1..] == [];
      assert Flatten(groups) == groups[0] + Flatten([]) == groups[0];
    } else if |chunks| > 1 {
      JoinGroups(chunks[1..], groups[1..]);
      FlattenNonEmpty(groups[1..]);
      JoinAppend(groups[0], Flatten(groups[1..]), ParagraphSeparator);
    }
  }

  /** The splitting path of the round-trip: the first paragraph starts the
      first chunk, and the rest are packed behind it. */
  lemma {:induction false} SplitPathGrouped(ps: seq<string>, maxLength: int) returns (groups: seq<seq<string>>)
    requires maxLength >= 1 && ps != [] && ParagraphsFit(ps, maxLength)
    ensures GroupedAs(Finish(Run(Start, ParagraphsUnits(ps, maxLength), maxLength)), groups, maxLength)
    ensures Flatten(groups) == ps
  {
    var p := ps[0];
    ParagraphsUnitsFitting(ps, maxLength);
    RunCons(Start, Unit(p, ParagraphSeparator), WholeParagraphs(ps[1..]), maxLength);
    assert Pack(Start, Unit(p, ParagraphSeparator), maxLength) == Packing([], p);
    JoinSingle(p);
    assert GroupedAs([] + [p], [] + [[p]], maxLength);
    assert ParagraphsFit(ps[1..], maxLength);
    groups := RunParagraphs([], p, [], [p], ps[1..], maxLength);
    assert Flatten([[p]]) == [p] + Flatten([]);
    assert ps == [p] + ps[1..];
  }

  /** Paragraph round-trip: when every blank-line-separated paragraph is
      non-empty and fits, the chunks are consecutive runs of paragraphs,
      greedily grouped, and joining them with "\n\n" gives back the text. */
  lemma ParagraphRoundTrip(text: string, maxLength: int) returns (groups: seq<seq<string>>)
    requires maxLength >= 1
    requires ParagraphsFit(SplitParagraphs(text), maxLength)
    ensures GroupedAs(SplitText(text, maxLength), groups, maxLength)
    ensures Flatten(groups) == SplitParagraphs(text)
    ensures Join(SplitText(text, maxLength), ParagraphSeparator) == text
  {
    var ps := SplitParagraphs(text);
    SplitParagraphsJoin(text);
    if |text| <= maxLength {
      groups := [ps];
      assert Flatten(groups) == ps + Flatten([]);
      JoinSingle(text);
    } else {
      groups := SplitPathGrouped(ps, maxLength);
      JoinGroups(SplitText(text, maxLength), groups);
    }
  }

  lemma NoSpaceSlice(s: string, i: nat, j: nat)
    requires NoSpace(s) && i <= j <= |s|
    ensures NoSpace(s[i..j])
  {
    forall k | 0 <= k < j - i ensures !IsSpace(s[i..j][k]) {
      assert s[i..j][k] == s[i + k];
    }
  }

  /** Text without whitespace is cut exactly every `maxLength` characters. */
  lemma NoSpaceForcedUnitsCut(s: string, maxLength: int)
    requires 1 <= maxLength < |s| && NoSpace(s)
    ensures ForcedUnits(s, maxLength)
         == [Unit(s[..maxLength], SentenceSeparator)] + ForcedUnits(s[maxLength..], maxLength)
  {
    assert CutPoint(s, maxLength) == maxLength by {
      var r := RFindSpace(s, maxLength);
      if r >= 0 { assert !IsSpace(s[r]); }
    }
    NoSpaceSlice(s, 0, maxLength);
    NoSpaceSlice(s, maxLength, |s|);
    ForcedUnitsCut(s, maxLength);
  }

  lemma SliceOfSuffix(s: string, i: nat, k: nat)
    requires i + k <= |s|
    ensures s[i..][..k] == s[i..i + k] && s[i..][k..] == s[i + k..]
  {
  }

  /** Fixed-width pieces: `maxLength` characters at a time, the last one shorter. */
  function FixedPieces(s: string, maxLength: int): seq<Unit>
    requires maxLength >= 1
    decreases |s|
  {
    if |s| <= maxLength then
      if s != "" then [Unit(s, SentenceSeparator)] else []
    else
      [Unit(s[..maxLength], SentenceSeparator)] + FixedPieces(s[maxLength..], maxLength)
  }

  /** A sentence without whitespace is cut mid-word every `maxLength`
      characters, exactly, with nothing dropped by the strips. */
  lemma {:induction false} NoSpaceForcedUnits(s: string, maxLength: int)
    requires maxLength >= 1 && NoSpace(s)
    ensures ForcedUnits(s, maxLength) == FixedPieces(s, maxLength)
    decreases |s|
  {
    if |s| > maxLength {
      var rest := s[maxLength..];
      assert ForcedUnits(rest, maxLength) == FixedPieces(rest, maxLength) by {
        NoSpaceSlice(s, maxLength, |s|);
        NoSpaceForcedUnits(rest, maxLength);
      }
      assert ForcedUnits(s, maxLength) == [Unit(s[..maxLength], SentenceSeparator)] + ForcedUnits(rest, maxLength) by {
        NoSpaceForcedUnitsCut(s, maxLength);
      }
    }
  }

  lemma FixedThreePieces(s: string, m: int)
    requires 1 <= m && 2 * m < |s| <= 3 * m
    ensures FixedPieces(s, m)
         == [Unit(s[..m], SentenceSeparator), Unit(s[m..2 * m], SentenceSeparator),
             Unit(s[2 * m..], SentenceSeparator)]
  {
    SliceOfSuffix(s, m, m);
    assert FixedPieces(s[m..][m..], m) == [Unit(s[2 * m..], SentenceSeparator)];
  }

  lemma SplitTextLong(text: string, maxLength: int)
    requires 1 <= maxLength < |text|
    ensures SplitText(text, maxLength)
         == Finish(Run(Start, ParagraphsUnits(SplitParagraphs(text), maxLength), maxLength))
  {
  }

  /** A text that is one paragraph of one sentence, too long for the limit,
      is packed from its forced pieces alone. */
  lemma OneSentenceUnits(text: string, maxLength: int)
    requires 1 <= maxLength < |text|
    requires SplitParagraphs(text) == [text] && SplitSentences(text) == [text]
    ensures ParagraphsUnits(SplitParagraphs(text), maxLength) == ForcedUnits(text, maxLength)
  {
    assert ParagraphsUnits([text], maxLength) == ParagraphUnits(text, maxLength) by {
      assert [text][1..] == [];
    }
    assert ParagraphUnits(text, maxLength) == SentencesUnits([text], maxLength);
    assert SentencesUnits([text], maxLength) == SentenceUnits(text, maxLength) by {
      assert [text][1..] == [];
    }
  }

  /** Two full pieces and a short last one never share a chunk. */
  lemma PackThreePieces(a: string, b: string, c: string, m: int)
    requires 1 <= m && |a| == m && |b| == m && 1 <= |c| <= m
    ensures Finish(Run(Start, [Unit(a, SentenceSeparator), Unit(b, SentenceSeparator),
                               Unit(c, SentenceSeparator)], m)) == [a, b, c]
  {
    var ua, ub, uc := Unit(a, SentenceSeparator), Unit(b, SentenceSeparator), Unit(c, SentenceSeparator);
    RunCons(Start, ua, [ub, uc], m);
    RunCons(Packing([], a), ub, [uc], m);
    RunCons(Packing([a], b), uc, [], m);
  }

  /** A text without whitespace longer than the limit is one paragraph of one
      sentence, packed from its fixed-width forced pieces. */
  lemma UnbrokenTextPieces(text: string, maxLength: int)
    requires 1 <= maxLength < |text| && NoSpace(text)
    ensures SplitText(text, maxLength) == Finish(Run(Start, FixedPieces(text, maxLength), maxLength))
  {
    assert SplitParagraphs(text) == [text] by {
      forall i | 0 <= i < |text| ensures text[i] != '\n' {
        assert !IsSpace(text[i]);
      }
      SplitParagraphsNoNewline(text);
    }
    assert SplitSentences(text) == [text] by {
      SplitSentencesNoSpace(text);
    }
    OneSentenceUnits(text, maxLength);
    NoSpaceForcedUnits(text, maxLength);
    SplitTextLong(text, maxLength);
  }

  /** The worked example: 20000 characters without any whitespace, at the
      default limit of 9500, give forced chunks of 9500, 9500 and 1000
      characters, cut mid-word at offsets 9500 and 19000. */
  lemma UnbrokenTextOfTwentyThousand(text: string)
    requires |text| == 20000 && NoSpace(text)
    ensures SplitText(text, DefaultMaxLength) == [text[..9500], text[9500..19000], text[19000..]]
  {
    UnbrokenTextPieces(text, DefaultMaxLength);
    FixedThreePieces(text, DefaultMaxLength);
    PackThreePieces(text[..9500], text[9500..19000], text[19000..], DefaultMaxLength);
  }
}
