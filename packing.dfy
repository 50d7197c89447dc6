/** The greedy packing step that split_text_into_chunks repeats for every
    paragraph, sentence and forced piece: the pair of accumulators
    (`chunks`, `current_chunk`) and how one unit of text is added to them. */
module Packing {
  import opened TextOps

  /** One piece of text offered to the packer, with the separator that goes
      before it when it joins a non-empty current chunk: "\n\n" for a
      paragraph, " " for a sentence or a forced piece. */
  datatype Unit = Unit(text: string, sep: string)

  /** The source's two accumulators: the finished chunks and `current_chunk`. */
  datatype Packing = Packing(chunks: seq<string>, current: string)

  const Start: Packing := Packing([], "")

  predicate IsSeparator(sep: string) {
    sep == ParagraphSeparator || sep == SentenceSeparator
  }

  /** Every unit fits the limit on its own and carries one of the two separators. */
  predicate UnitsFit(us: seq<Unit>, maxLength: int) {
    forall i :: 0 <= i < |us| ==> |us[i].text| <= maxLength && IsSeparator(us[i].sep)
  }

  lemma UnitsFitCons(u: Unit, us: seq<Unit>, maxLength: int)
    requires |u.text| <= maxLength && IsSeparator(u.sep) && UnitsFit(us, maxLength)
    ensures UnitsFit([u] + us, maxLength)
  {
    forall i | 1 <= i < |us| + 1 ensures ([u] + us)[i] == us[i - 1] {
    }
  }

  /** Every unit joins the current chunk with " ": a sentence or a forced piece. */
  predicate JoinedBySpace(us: seq<Unit>) {
    forall i :: 0 <= i < |us| ==> us[i].sep == SentenceSeparator
  }

  lemma JoinedBySpaceCons(u: Unit, us: seq<Unit>)
    requires u.sep == SentenceSeparator && JoinedBySpace(us)
    ensures JoinedBySpace([u] + us)
  {
    forall i | 1 <= i < |us| + 1 ensures ([u] + us)[i] == us[i - 1] {
    }
  }

  /** Every chunk is non-empty and within the limit. */
  predicate ChunksFit(chunks: seq<string>, maxLength: int) {
    forall i :: 0 <= i < |chunks| ==> chunks[i] != "" && |chunks[i]| <= maxLength
  }

  /** The texts of the units, concatenated in order without separators. */
  function UnitsText(us: seq<Unit>): string {
    if us == [] then [] else us[0].text + UnitsText(us[1..])
  }

  lemma UnitsTextSingle(u: Unit)
    ensures UnitsText([u]) == u.text
  {
    assert [u][1..] == [];
  }

  lemma {:induction false} UnitsTextAppend(a: seq<Unit>, b: seq<Unit>)
    ensures UnitsText(a + b) == UnitsText(a) + UnitsText(b)
  {
    if a == [] {
      assert a + b == b;
    } else {
      assert (a + b)[1..] == a[1..] + b;
      UnitsTextAppend(a[1..], b);
    }
  }

  /** All text held by a packing state, in order, with its separators. */
  function Flat(st: Packing): string {
    Concat(st.chunks) + st.current
  }

  /** Adds one unit: appended to `current` after its separator when the result
      stays within `maxLength`, otherwise `current` is flushed (if non-empty)
      and the unit starts the next chunk. */
  function Pack(st: Packing, u: Unit, maxLength: int): (r: Packing)
    // the greedy flush rule: a chunk is emitted exactly when the unit and its
    // separator would not fit behind a non-empty current chunk
    ensures |r.chunks| == |st.chunks| + 1
            <==> st.current != "" && |st.current| + |u.sep| + |u.text| > maxLength
    ensures r.chunks == st.chunks || r.chunks == st.chunks + [st.current]
    ensures |r.current| >= |u.text| && r.current[|r.current| - |u.text|..] == u.text
    ensures |st.current| <= maxLength && |u.text| <= maxLength ==> |r.current| <= maxLength
    ensures ChunksFit(st.chunks, maxLength) && |st.current| <= maxLength ==> ChunksFit(r.chunks, maxLength)
  {
    if st.current != "" && |st.current| + |u.text| + |u.sep| <= maxLength then
      Packing(st.chunks, st.current + u.sep + u.text)
    else if st.current != "" then
      Packing(st.chunks + [st.current], u.text)
    else
      Packing(st.chunks, u.text)
  }

  /** Nothing is lost by a packing step: the unit is added behind everything
      held before, with its separator exactly when it joins a non-empty
      current chunk. */
  lemma PackFlat(st: Packing, u: Unit, maxLength: int)
    ensures var r := Pack(st, u, maxLength);
      Flat(r) == Flat(st) + (if r.chunks == st.chunks && st.current != "" then u.sep else "") + u.text
  {
    var r := Pack(st, u, maxLength);
    if r.chunks != st.chunks {
      ConcatAppend(st.chunks, [st.current]);
      assert Concat([st.current]) == st.current + Concat([]);
    }
  }

  /** Packs the units one after the other, left to right. */
  function Run(st: Packing, us: seq<Unit>, maxLength: int): (r: Packing)
    // chunks are only ever appended, at most one per unit
    ensures |st.chunks| <= |r.chunks| <= |st.chunks| + |us|
    ensures r.chunks[..|st.chunks|] == st.chunks
    decreases |us|
  {
    if us == [] then st else Run(Pack(st, us[0], maxLength), us[1..], maxLength)
  }

  /** The source's final step: a non-empty `current_chunk` becomes the last chunk. */
  function Finish(st: Packing): (r: seq<string>)
    ensures Concat(r) == Flat(st)
    ensures st.current != "" ==> r == st.chunks + [st.current]
    ensures st.current == "" ==> r == st.chunks
  {
    ConcatAppend(st.chunks, [st.current]);
    assert Concat([st.current]) == st.current + Concat([]);
    if st.current != "" then st.chunks + [st.current] else st.chunks
  }

  lemma RunCons(st: Packing, u: Unit, us: seq<Unit>, maxLength: int)
    ensures Run(st, [u] + us, maxLength) == Run(Pack(st, u, maxLength), us, maxLength)
  {
    assert ([u] + us)[0] == u && ([u] + us)[1..] == us;
  }

  lemma RunSingle(st: Packing, u: Unit, maxLength: int)
    ensures Run(st, [u], maxLength) == Pack(st, u, maxLength)
  {
    assert [u][1..] == [];
  }

  lemma {:induction false} RunAppend(st: Packing, a: seq<Unit>, b: seq<Unit>, maxLength: int)
    ensures Run(st, a + b, maxLength) == Run(Run(st, a, maxLength), b, maxLength)
    decreases |a|
  {
    if a == [] {
      assert a + b == b;
    } else {
      assert (a + b)[0] == a[0] && (a + b)[1..] == a[1..] + b;
      RunAppend(Pack(st, a[0], maxLength), a[1..], b, maxLength);
    }
  }

  /** Packing units that fit never yields an empty or oversized chunk. */
  lemma {:induction false} RunFits(st: Packing, us: seq<Unit>, maxLength: int)
    requires ChunksFit(st.chunks, maxLength) && |st.current| <= maxLength
    requires UnitsFit(us, maxLength)
    ensures ChunksFit(Finish(Run(st, us, maxLength)), maxLength)
    decreases |us|
  {
    if us != [] {
      RunFits(Pack(st, us[0], maxLength), us[1..], maxLength);
    }
  }

  lemma SeparatorsAreSpace(sep: string)
    requires IsSeparator(sep)
    ensures NonSpace(sep) == []
  {
    NonSpaceOfSpaces(sep);
  }

  lemma PackContent(st: Packing, u: Unit, maxLength: int)
    requires IsSeparator(u.sep)
    ensures NonSpace(Flat(Pack(st, u, maxLength))) == NonSpace(Flat(st)) + NonSpace(u.text)
  {
    var r := Pack(st, u, maxLength);
    PackFlat(st, u, maxLength);
    if r.chunks == st.chunks && st.current != "" {
      assert Flat(r) == (Flat(st) + u.sep) + u.text;
      NonSpaceAppend(Flat(st) + u.sep, u.text);
      NonSpaceAppend(Flat(st), u.sep);
      SeparatorsAreSpace(u.sep);
    } else {
      assert Flat(r) == Flat(st) + u.text;
      NonSpaceAppend(Flat(st), u.text);
    }
  }

  /** Packing drops only separators: the non-whitespace content of the result
      is that of the starting state followed by that of the units, in order. */
  lemma {:induction false} RunContent(st: Packing, us: seq<Unit>, maxLength: int)
    requires UnitsFit(us, maxLength)
    ensures NonSpace(Flat(Run(st, us, maxLength))) == NonSpace(Flat(st)) + NonSpace(UnitsText(us))
    decreases |us|
  {
    if us != [] {
      var u := us[0];
      RunContent(Pack(st, u, maxLength), us[1..], maxLength);
      PackContent(st, u, maxLength);
      NonSpaceAppend(u.text, UnitsText(us[1..]));
      AppendAssoc(NonSpace(Flat(st)), NonSpace(u.text), NonSpace(UnitsText(us[1..])));
    }
  }
}
