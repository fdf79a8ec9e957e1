/** The knowledge base: the file content is stripped and split into lines,
    blank lines are skipped, and every other line is stored verbatim, in
    order, together with its embedding. */
module KnowledgeStore {
  import opened Text
  import opened Embedding

  /** One stored line (`{'texto': ..., 'embedding': ...}`). */
  datatype Chunk = Chunk(text: string, embedding: Vector)

  /** `content.strip().split('\n')`: the candidate lines of the file. Joining
      them again gives back the stripped content, and no line holds a line
      break. */
  function Lines(content: string): (lines: seq<string>)
    ensures |lines| >= 1
    ensures forall i :: 0 <= i < |lines| ==> '\n' !in lines[i]
    ensures Join(lines, '\n') == Strip(content)
  {
    SplitThenJoin(Strip(content), '\n');
    SplitNoSeparator(Strip(content), '\n');
    Split(Strip(content), '\n')
  }

  /** A line the loop keeps (`if chunk.strip():`). Stated as the negation of
      `IsBlank` so that its definition unfolds one step at a time. */
  predicate NonBlank(line: string)
  {
    !IsBlank(line)
  }

  /** The positions below `n` whose elements `keep` accepts, in increasing
      order (see `PositionsExact`). */
  function Positions<T>(xs: seq<T>, keep: T -> bool, n: nat): (pos: seq<nat>)
    requires n <= |xs|
    ensures forall i :: 0 <= i < |pos| ==> pos[i] < n
  {
    if n == 0 then []
    else
      var before := Positions(xs, keep, n - 1);
      if keep(xs[n - 1]) then before + [n - 1] else before
  }

  /** `Positions` lists the accepted positions below `n` in strictly
      increasing order, and a position is listed exactly when its element
      is accepted. */
  lemma {:induction false} PositionsExact<T>(xs: seq<T>, keep: T -> bool, n: nat)
    requires n <= |xs|
    ensures var pos := Positions(xs, keep, n);
            && (forall i, j :: 0 <= i < j < |pos| ==> pos[i] < pos[j])
            && (forall p :: 0 <= p < n ==> (p in pos <==> keep(xs[p])))
  {
    if n > 0 {
      PositionsExact(xs, keep, n - 1);
    }
  }

  /** The elements at the given positions, in the order of the positions. */
  function Select<T>(xs: seq<T>, pos: seq<nat>): (ys: seq<T>)
    requires forall i :: 0 <= i < |pos| ==> pos[i] < |xs|
  {
    seq(|pos|, i requires 0 <= i < |pos| => xs[pos[i]])
  }

  /** The loop's filter over the first `n` lines: the non-blank ones, in
      order. */
  function NonBlankLines(lines: seq<string>, n: nat): (texts: seq<string>)
    requires n <= |lines|
  {
    if n == 0 then []
    else NonBlankLines(lines, n - 1) + (if NonBlank(lines[n - 1]) then [lines[n - 1]] else [])
  }

  /** The filter keeps exactly the lines at the positions of the non-blank
      lines: every non-blank line, each unmodified, in order, and nothing
      else. */
  lemma {:induction false} NonBlankLinesAtPositions(lines: seq<string>, n: nat)
    requires n <= |lines|
    ensures NonBlankLines(lines, n) == Select(lines, Positions(lines, NonBlank, n))
  {
    if n > 0 {
      NonBlankLinesAtPositions(lines, n - 1);
      if NonBlank(lines[n - 1]) {
        SelectAppend(lines, Positions(lines, NonBlank, n - 1), n - 1);
      }
    }
  }

  lemma SelectAppend<T>(xs: seq<T>, pos: seq<nat>, p: nat)
    requires forall i :: 0 <= i < |pos| ==> pos[i] < |xs|
    requires p < |xs|
    ensures Select(xs, pos + [p]) == Select(xs, pos) + [xs[p]]
  {
  }

  /** Every line the filter keeps is non-blank and is one of the lines. */
  lemma {:induction false} NonBlankLinesKept(lines: seq<string>, n: nat)
    requires n <= |lines|
    ensures forall i :: 0 <= i < |NonBlankLines(lines, n)| ==>
              NonBlank(NonBlankLines(lines, n)[i]) && NonBlankLines(lines, n)[i] in lines
  {
    if n > 0 {
      NonBlankLinesKept(lines, n - 1);
    }
  }

  /** The texts the store keeps for `content`: its non-blank lines, each
      unmodified, in file order. Each is non-blank and holds no line break. */
  function StoredTexts(content: string): (texts: seq<string>)
    ensures forall i :: 0 <= i < |texts| ==> NonBlank(texts[i]) && '\n' !in texts[i]
  {
    var lines := Lines(content);
    NonBlankLinesKept(lines, |lines|);
    NonBlankLines(lines, |lines|)
  }

  /** Each text paired with the embedding the model gives it. */
  function Embedded(texts: seq<string>, embed: string -> Vector): (chunks: seq<Chunk>)
  {
    seq(|texts|, i requires 0 <= i < |texts| => Chunk(texts[i], embed(texts[i])))
  }

  lemma EmbeddedAppend(texts: seq<string>, t: string, embed: string -> Vector)
    ensures Embedded(texts + [t], embed) == Embedded(texts, embed) + [Chunk(t, embed(t))]
  {
  }

  /** The content yields no chunk at all exactly when it is whitespace only
      (so a file of blank lines gives an empty store). */
  lemma EmptyStoreIffBlankContent(content: string)
    ensures StoredTexts(content) == [] <==> AllSpace(content)
  {
    var lines := Lines(content);
    StripEmptyIff(content);
    if AllSpace(content) {
      assert Strip(content) == "";
      assert Split("", '\n') == [""];
      assert lines == [""];
      StripEmptyIff("");
      assert !NonBlank("");
      assert NonBlankLines(lines, 1) == NonBlankLines(lines, 0);
    } else {
      var r := Strip(content);
      StripShape(content);
      SplitFirst(r, '\n');
      var first := lines[0];
      assert first != [] && first[0] == r[0];
      StripEmptyIff(first);
      assert !AllSpace(first);
      NonBlankLinesAtPositions(lines, |lines|);
      PositionsExact(lines, NonBlank, |lines|);
      var pos := Positions(lines, NonBlank, |lines|);
      assert 0 in pos;
    }
  }

  /** A filter over lines that are all non-blank keeps every one of them. */
  lemma {:induction false} NonBlankLinesAll(lines: seq<string>, n: nat)
    requires n <= |lines|
    requires forall i :: 0 <= i < |lines| ==> NonBlank(lines[i])
    ensures NonBlankLines(lines, n) == lines[..n]
  {
    if n > 0 {
      NonBlankLinesAll(lines, n - 1);
      assert lines[..n] == lines[..n - 1] + [lines[n - 1]];
    }
  }

  /** Writing non-blank, single-line texts one per line, with no whitespace
      around the whole, and loading the result gives back exactly those
      texts. */
  lemma StoredTextsOfJoin(texts: seq<string>)
    requires |texts| >= 1
    requires forall i :: 0 <= i < |texts| ==> NonBlank(texts[i]) && '\n' !in texts[i]
    requires Strip(Join(texts, '\n')) == Join(texts, '\n')
    ensures StoredTexts(Join(texts, '\n')) == texts
  {
    JoinThenSplit(texts, '\n');
    NonBlankLinesAll(texts, |texts|);
  }

  /** Appending chunks made from non-blank, single-line texts keeps every
      stored text a non-blank line without a line break. */
  lemma AppendKeepsLines(before: seq<Chunk>, texts: seq<string>, embed: string -> Vector)
    requires forall i :: 0 <= i < |before| ==> NonBlank(before[i].text) && '\n' !in before[i].text
    requires forall i :: 0 <= i < |texts| ==> NonBlank(texts[i]) && '\n' !in texts[i]
    ensures var all := before + Embedded(texts, embed);
            forall i :: 0 <= i < |all| ==> NonBlank(all[i].text) && '\n' !in all[i].text
  {
    var added := Embedded(texts, embed);
    var all := before + added;
    forall i | 0 <= i < |all| ensures NonBlank(all[i].text) && '\n' !in all[i].text {
      if i >= |before| {
        assert all[i] == added[i - |before|];
      } else {
        assert all[i] == before[i];
      }
    }
  }

  class KnowledgeBase {
    /** The stored chunks (`chunks_processados`). */
    var chunks: seq<Chunk>

    /** Every stored text is a non-blank line without a line break. */
    ghost predicate Valid()
      reads this
    {
      forall i :: 0 <= i < |chunks| ==> NonBlank(chunks[i].text) && '\n' !in chunks[i].text
    }

    constructor ()
      ensures chunks == [] && Valid()
    {
      chunks := [];
    }

    /** `processar_base_conhecimento` on content already read from the file:
        appends one chunk per non-blank line, in order, and asks the service
        for exactly those texts, one call each, in the same order. */
    method Process(content: string, service: EmbeddingService)
      requires Valid()
      modifies this, service
      ensures Valid()
      ensures chunks == old(chunks) + Embedded(StoredTexts(content), service.embedding)
      ensures service.requests == old(service.requests) + StoredTexts(content)
    {
      var lines := Lines(content);
      ghost var kept: seq<string> := [];
      for i := 0 to |lines|
        invariant kept == NonBlankLines(lines, i)
        invariant chunks == old(chunks) + Embedded(kept, service.embedding)
        invariant service.requests == old(service.requests) + kept
      {
        var line := lines[i];
        if NonBlank(line) {
          var e := service.Embed(line);
          EmbeddedAppend(kept, line, service.embedding);
          chunks := chunks + [Chunk(line, e)];
          kept := kept + [line];
        }
      }
      assert kept == StoredTexts(content);
      AppendKeepsLines(old(chunks), kept, service.embedding);
    }
  }
}
