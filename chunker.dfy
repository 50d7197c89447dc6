/** split_text_into_chunks: the length-bounded text chunker. The text is
    broken into units (paragraphs, else sentences, else forced pieces) and
    the units are packed greedily into chunks of at most `maxLength`
    characters. SplitText is the specification; SplitTextIntoChunks is the
    loop-based procedure, proved to compute it. */
module Chunker {
  import opened TextOps
  import opened Packing

  /** The default limit, chosen to stay under the speech service's per-request
      ceiling. */
  const DefaultMaxLength: int := 9500

  // ------------------------------------------------------------ forced split

  /** Where an over-long sentence is cut: at the last space strictly before
      `maxLength`, or at `maxLength` itself when there is none. */
  function CutPoint(s: string, maxLength: int): (r: nat)
    requires 1 <= maxLength < |s|
    ensures r <= maxLength
    ensures r < maxLength ==> s[r] == ' ' && forall i :: r < i < maxLength ==> s[i] != ' '
    ensures r == maxLength ==> forall i :: 0 <= i < maxLength ==> s[i] != ' '
  {
    var sp := RFindSpace(s, maxLength);
    if sp == -1 then maxLength else sp
  }

  /** What is left of the sentence after one cut (`sentence[split_point:].strip()`)
      is strictly shorter, so the cutting loop terminates. */
  lemma CutShrinks(s: string, maxLength: int)
    requires 1 <= maxLength < |s|
    ensures |Strip(s[CutPoint(s, maxLength)..])| < |s|
  {
    var c := CutPoint(s, maxLength);
    var rest := s[c..];
    if c == 0 {
      assert rest == s && rest[0] == ' ';
      assert IsSpace(rest[0]);
    } else {
      assert |rest| < |s|;
    }
  }

  /** Why the limit must be positive: at a limit of 0 no space lies before
      offset 0, the cut falls at 0, and a sentence whose ends are not
      whitespace comes back unchanged from `sentence[split_point:].strip()`,
      so the cutting loop would never end. */
  lemma ZeroLimitStalls(s: string)
    requires s != [] && !IsSpace(s[0]) && !IsSpace(s[|s| - 1])
    ensures RFindSpace(s, 0) == -1
    ensures Strip(s[0..]) == s
  {
    assert s[0..] == s;
  }

  /** The pieces the cutting loop packs for a sentence longer than the limit:
      each cut piece, stripped, and at the end the stripped remainder if it is
      not empty. */
  function ForcedUnits(s: string, maxLength: int): (r: seq<Unit>)
    requires maxLength >= 1
    ensures UnitsFit(r, maxLength) && JoinedBySpace(r)
    // the loop packs at least one piece; an empty remainder is not packed
    ensures |s| > maxLength ==> |r| >= 1
    ensures s == "" ==> r == []
    decreases |s|
  {
    if |s| <= maxLength then
      if s != "" then [Unit(s, SentenceSeparator)] else []
    else
      var cut := CutPoint(s, maxLength);
      CutShrinks(s, maxLength);
      var piece := Unit(Strip(s[..cut]), SentenceSeparator);
      var rest := ForcedUnits(Strip(s[cut..]), maxLength);
      UnitsFitCons(piece, rest, maxLength);
      JoinedBySpaceCons(piece, rest);
      [piece] + rest
  }

  /** A sentence is one unit when it fits, else its forced pieces. */
  function SentenceUnits(s: string, maxLength: int): (r: seq<Unit>)
    requires maxLength >= 1
    ensures UnitsFit(r, maxLength) && JoinedBySpace(r)
    ensures |s| <= maxLength ==> r == [Unit(s, SentenceSeparator)]
  {
    if |s| > maxLength then ForcedUnits(s, maxLength) else [Unit(s, SentenceSeparator)]
  }

  function SentencesUnits(ss: seq<string>, maxLength: int): (r: seq<Unit>)
    requires maxLength >= 1
    ensures UnitsFit(r, maxLength) && JoinedBySpace(r)
  {
    if ss == [] then [] else SentenceUnits(ss[0], maxLength) + SentencesUnits(ss[1..], maxLength)
  }

  /** A paragraph is one unit when it fits, else the units of its sentences. */
  function ParagraphUnits(p: string, maxLength: int): (r: seq<Unit>)
    requires maxLength >= 1
    ensures UnitsFit(r, maxLength)
    ensures |p| <= maxLength ==> r == [Unit(p, ParagraphSeparator)]
    ensures |p| > maxLength ==> JoinedBySpace(r)
  {
    if |p| > maxLength then SentencesUnits(SplitSentences(p), maxLength)
    else [Unit(p, ParagraphSeparator)]
  }

  function ParagraphsUnits(ps: seq<string>, maxLength: int): (r: seq<Unit>)
    requires maxLength >= 1
    ensures UnitsFit(r, maxLength)
  {
    if ps == [] then [] else ParagraphUnits(ps[0], maxLength) + ParagraphsUnits(ps[1..], maxLength)
  }

  /** Forced cutting drops only whitespace: the stripped ends of each piece. */
  lemma {:induction false} ForcedUnitsContent(s: string, maxLength: int)
    requires maxLength >= 1
    ensures NonSpace(UnitsText(ForcedUnits(s, maxLength))) == NonSpace(s)
    decreases |s|
  {
    if |s| <= maxLength {
      if s != "" {
        UnitsTextSingle(Unit(s, SentenceSeparator));
      }
    } else {
      var cut := CutPoint(s, maxLength);
      CutShrinks(s, maxLength);
      var a, b := s[..cut], s[cut..];
      var piece := Strip(a);
      var rest := ForcedUnits(Strip(b), maxLength);
      assert NonSpace(s) == NonSpace(a) + NonSpace(b) by {
        assert s == a + b;
        NonSpaceAppend(a, b);
      }
      assert NonSpace(UnitsText(rest)) == NonSpace(b) by {
        ForcedUnitsContent(Strip(b), maxLength);
      }
      assert NonSpace(UnitsText(ForcedUnits(s, maxLength))) == NonSpace(piece) + NonSpace(UnitsText(rest)) by {
        var r := [Unit(piece, SentenceSeparator)] + rest;
        assert r[0].text == piece && r[1..] == rest;
        assert UnitsText(r) == piece + UnitsText(rest);
        NonSpaceAppend(piece, UnitsText(rest));
      }
    }
  }

  lemma SentenceUnitsContent(s: string, maxLength: int)
    requires maxLength >= 1
    ensures NonSpace(UnitsText(SentenceUnits(s, maxLength))) == NonSpace(s)
  {
    if |s| > maxLength {
      ForcedUnitsContent(s, maxLength);
    } else {
      UnitsTextSingle(Unit(s, SentenceSeparator));
    }
  }

  lemma {:induction false} SentencesUnitsContent(ss: seq<string>, maxLength: int)
    requires maxLength >= 1
    ensures NonSpace(UnitsText(SentencesUnits(ss, maxLength))) == NonSpace(Concat(ss))
  {
    if ss != [] {
      var a := SentenceUnits(ss[0], maxLength);
      var b := SentencesUnits(ss[1..], maxLength);
      SentenceUnitsContent(ss[0], maxLength);
      SentencesUnitsContent(ss[1..], maxLength);
      UnitsTextAppend(a, b);
      NonSpaceAppend(UnitsText(a), UnitsText(b));
      NonSpaceAppend(ss[0], Concat(ss[1..]));
    }
  }

  lemma ParagraphUnitsContent(p: string, maxLength: int)
    requires maxLength >= 1
    ensures NonSpace(UnitsText(ParagraphUnits(p, maxLength))) == NonSpace(p)
  {
    if |p| > maxLength {
      SplitSentencesContent(p);
      SentencesUnitsContent(SplitSentences(p), maxLength);
    } else {
      UnitsTextSingle(Unit(p, ParagraphSeparator));
    }
  }

  /** Breaking paragraphs into units drops only whitespace. */
  lemma {:induction false} ParagraphsUnitsContent(ps: seq<string>, maxLength: int)
    requires maxLength >= 1
    ensures NonSpace(UnitsText(ParagraphsUnits(ps, maxLength))) == NonSpace(Concat(ps))
  {
    if ps != [] {
      var a := ParagraphUnits(ps[0], maxLength);
      var b := ParagraphsUnits(ps[1..], maxLength);
      ParagraphUnitsContent(ps[0], maxLength);
      ParagraphsUnitsContent(ps[1..], maxLength);
      UnitsTextAppend(a, b);
      NonSpaceAppend(UnitsText(a), UnitsText(b));
      NonSpaceAppend(ps[0], Concat(ps[1..]));
    }
  }

  // ----------------------------------------------------------- specification

  /** The chunks split_text_into_chunks returns for `text`. */
  function SplitText(text: string, maxLength: int): (r: seq<string>)
    requires maxLength >= 1
    // a text that fits is returned whole, even when empty
    ensures |text| <= maxLength ==> r == [text]
    // every chunk is within the limit, forced mid-word pieces included
    ensures forall i :: 0 <= i < |r| ==> |r[i]| <= maxLength
    // once splitting starts, no chunk is empty
    ensures |text| > maxLength ==> forall i :: 0 <= i < |r| ==> r[i] != ""
    // content and order: only whitespace is ever dropped or inserted
    ensures NonSpace(Concat(r)) == NonSpace(text)
  {
    if |text| <= maxLength then
      ConcatSingle(text);
      [text]
    else
      PackedText(text, maxLength);
      Finish(Run(Start, ParagraphsUnits(SplitParagraphs(text), maxLength), maxLength))
  }

  /** The splitting path: packing the units of the paragraphs gives non-empty
      chunks within the limit that hold the text's content in order. */
  lemma PackedText(text: string, maxLength: int)
    requires maxLength >= 1
    ensures var r := Finish(Run(Start, ParagraphsUnits(SplitParagraphs(text), maxLength), maxLength));
      && ChunksFit(r, maxLength)
      && NonSpace(Concat(r)) == NonSpace(text)
  {
    var units := ParagraphsUnits(SplitParagraphs(text), maxLength);
    RunFits(Start, units, maxLength);
    PackedContent(Run(Start, units, maxLength), units, maxLength);
    UnitsContent(text, maxLength);
  }

  lemma PackedContent(st: Packing, units: seq<Unit>, maxLength: int)
    requires UnitsFit(units, maxLength) && st == Run(Start, units, maxLength)
    ensures NonSpace(Concat(Finish(st))) == NonSpace(UnitsText(units))
  {
    RunContent(Start, units, maxLength);
    assert NonSpace(Flat(Start)) == [];
  }

  lemma UnitsContent(text: string, maxLength: int)
    requires maxLength >= 1
    ensures NonSpace(UnitsText(ParagraphsUnits(SplitParagraphs(text), maxLength))) == NonSpace(text)
  {
    var paragraphs := SplitParagraphs(text);
    assert NonSpace(Concat(paragraphs)) == NonSpace(text) by {
      SplitParagraphsJoin(text);
      NonSpaceJoin(paragraphs, ParagraphSeparator);
    }
    ParagraphsUnitsContent(paragraphs, maxLength);
  }

  // --------------------------------------------------------------- procedure

  /** One paragraph of the loop: its units are packed, then the rest. */
  lemma ParagraphStep(st: Packing, ps: seq<string>, i: nat, maxLength: int)
    requires maxLength >= 1 && i < |ps|
    ensures Run(st, ParagraphsUnits(ps[i..], maxLength), maxLength)
         == Run(Run(st, ParagraphUnits(ps[i], maxLength), maxLength), ParagraphsUnits(ps[i + 1..], maxLength), maxLength)
  {
    assert ps[i..][0] == ps[i] && ps[i..][1..] == ps[i + 1..];
    RunAppend(st, ParagraphUnits(ps[i], maxLength), ParagraphsUnits(ps[i + 1..], maxLength), maxLength);
  }

  /** One sentence of the loop: its units are packed, then the rest. */
  lemma SentenceStep(st: Packing, ss: seq<string>, j: nat, maxLength: int)
    requires maxLength >= 1 && j < |ss|
    ensures Run(st, SentencesUnits(ss[j..], maxLength), maxLength)
         == Run(Run(st, SentenceUnits(ss[j], maxLength), maxLength), SentencesUnits(ss[j + 1..], maxLength), maxLength)
  {
    assert ss[j..][0] == ss[j] && ss[j..][1..] == ss[j + 1..];
    RunAppend(st, SentenceUnits(ss[j], maxLength), SentencesUnits(ss[j + 1..], maxLength), maxLength);
  }

  /** One turn of the cutting loop: the stripped piece before the cut is
      packed, and the stripped rest is cut further. */
  lemma ForcedStep(st: Packing, s: string, maxLength: int)
    requires 1 <= maxLength < |s|
    ensures var cut := CutPoint(s, maxLength);
      Run(st, ForcedUnits(s, maxLength), maxLength)
      == Run(Pack(st, Unit(Strip(s[..cut]), SentenceSeparator), maxLength), ForcedUnits(Strip(s[cut..]), maxLength), maxLength)
  {
    var cut := CutPoint(s, maxLength);
    ForcedUnitsCut(s, maxLength);
    RunCons(st, Unit(Strip(s[..cut]), SentenceSeparator), ForcedUnits(Strip(s[cut..]), maxLength), maxLength);
  }

  lemma ForcedUnitsCut(s: string, maxLength: int)
    requires 1 <= maxLength < |s|
    ensures var cut := CutPoint(s, maxLength);
      ForcedUnits(s, maxLength) == [Unit(Strip(s[..cut]), SentenceSeparator)] + ForcedUnits(Strip(s[cut..]), maxLength)
  {
  }

  lemma ForcedUnitsLast(s: string, maxLength: int)
    requires 1 <= |s| <= maxLength
    ensures ForcedUnits(s, maxLength) == [Unit(s, SentenceSeparator)]
  {
  }

  /** The forced-split loop of split_text_into_chunks for one sentence longer
      than the limit: cut, strip and pack each piece, then pack what remains. */
  method PackForcedPieces(chunks0: seq<string>, current0: string, sentence0: string, maxLength: int)
    returns (chunks: seq<string>, currentChunk: string)
    requires 1 <= maxLength < |sentence0|
    ensures Packing(chunks, currentChunk) == Run(Packing(chunks0, current0), ForcedUnits(sentence0, maxLength), maxLength)
  {
    ghost var goal := Run(Packing(chunks0, current0), ForcedUnits(sentence0, maxLength), maxLength);
    chunks, currentChunk := chunks0, current0;
    var sentence := sentence0;
    while |sentence| > maxLength
      invariant Run(Packing(chunks, currentChunk), ForcedUnits(sentence, maxLength), maxLength) == goal
      decreases |sentence|
    {
      var splitPoint := RFindSpace(sentence, maxLength);
      if splitPoint == -1 {
        splitPoint := maxLength;
      }
      assert splitPoint == CutPoint(sentence, maxLength);
      var chunkPart := Strip(sentence[..splitPoint]);
      ghost var before := Packing(chunks, currentChunk);
      if currentChunk != "" {
        if |currentChunk| + |chunkPart| + 1 <= maxLength {
          currentChunk := currentChunk + " " + chunkPart;
        } else {
          chunks := chunks + [currentChunk];
          currentChunk := chunkPart;
        }
      } else {
        currentChunk := chunkPart;
      }
      assert Packing(chunks, currentChunk) == Pack(before, Unit(chunkPart, SentenceSeparator), maxLength);
      CutShrinks(sentence, maxLength);
      ForcedStep(before, sentence, maxLength);
      sentence := Strip(sentence[splitPoint..]);
    }
    // the remaining part
    if sentence != "" {
      ForcedUnitsLast(sentence, maxLength);
      ghost var before := Packing(chunks, currentChunk);
      RunSingle(before, Unit(sentence, SentenceSeparator), maxLength);
      if currentChunk != "" && |currentChunk| + |sentence| + 1 <= maxLength {
        currentChunk := currentChunk + " " + sentence;
      } else if currentChunk != "" {
        chunks := chunks + [currentChunk];
        currentChunk := sentence;
      } else {
        currentChunk := sentence;
      }
      assert Packing(chunks, currentChunk) == Pack(before, Unit(sentence, SentenceSeparator), maxLength);
    }
  }

  /** The sentence loop of split_text_into_chunks for one paragraph longer
      than the limit. */
  method PackSentences(chunks0: seq<string>, current0: string, paragraph: string, maxLength: int)
    returns (chunks: seq<string>, currentChunk: string)
    requires maxLength >= 1
    ensures Packing(chunks, currentChunk)
         == Run(Packing(chunks0, current0), SentencesUnits(SplitSentences(paragraph), maxLength), maxLength)
  {
    var sentences := SplitSentences(paragraph);
    ghost var goal := Run(Packing(chunks0, current0), SentencesUnits(sentences, maxLength), maxLength);
    chunks, currentChunk := chunks0, current0;
    assert sentences[0..] == sentences;
    for j := 0 to |sentences|
      invariant Run(Packing(chunks, currentChunk), SentencesUnits(sentences[j..], maxLength), maxLength) == goal
    {
      var sentence := sentences[j];
      ghost var before := Packing(chunks, currentChunk);
      SentenceStep(before, sentences, j, maxLength);
      if |sentence| > maxLength {
        chunks, currentChunk := PackForcedPieces(chunks, currentChunk, sentence, maxLength);
      } else {
        if currentChunk != "" && |currentChunk| + |sentence| + 1 <= maxLength {
          currentChunk := currentChunk + " " + sentence;
        } else if currentChunk != "" {
          chunks := chunks + [currentChunk];
          currentChunk := sentence;
        } else {
          currentChunk := sentence;
        }
        assert Packing(chunks, currentChunk) == Pack(before, Unit(sentence, SentenceSeparator), maxLength);
        RunSingle(before, Unit(sentence, SentenceSeparator), maxLength);
      }
    }
    assert sentences[|sentences|..] == [];
  }

  /** split_text_into_chunks: a text that fits is returned whole; otherwise
      the paragraphs are packed greedily, an over-long paragraph by its
      sentences, and the last non-empty chunk is flushed at the end. */
  method SplitTextIntoChunks(text: string, maxLength: int := DefaultMaxLength) returns (chunks: seq<string>)
    requires maxLength >= 1
    ensures chunks == SplitText(text, maxLength)
  {
    if |text| <= maxLength {
      return [text];
    }
    ghost var goal := Run(Start, ParagraphsUnits(SplitParagraphs(text), maxLength), maxLength);
    chunks := [];
    var currentChunk := "";
    var paragraphs := SplitParagraphs(text);
    assert paragraphs[0..] == paragraphs;
    for i := 0 to |paragraphs|
      invariant Run(Packing(chunks, currentChunk), ParagraphsUnits(paragraphs[i..], maxLength), maxLength) == goal
    {
      var paragraph := paragraphs[i];
      ghost var before := Packing(chunks, currentChunk);
      ParagraphStep(before, paragraphs, i, maxLength);
      if |paragraph| > maxLength {
        chunks, currentChunk := PackSentences(chunks, currentChunk, paragraph, maxLength);
      } else {
        if currentChunk != "" && |currentChunk| + |paragraph| + 2 <= maxLength {
          currentChunk := currentChunk + "\n\n" + paragraph;
        } else if currentChunk != "" {
          chunks := chunks + [currentChunk];
          currentChunk := paragraph;
        } else {
          currentChunk := paragraph;
        }
        assert Packing(chunks, currentChunk) == Pack(before, Unit(paragraph, ParagraphSeparator), maxLength);
        RunSingle(before, Unit(paragraph, ParagraphSeparator), maxLength);
      }
    }
    assert paragraphs[|paragraphs|..] == [];
    if currentChunk != "" {
      chunks := chunks + [currentChunk];
    }
  }
}
