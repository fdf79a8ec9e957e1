/** Retrieval of the most relevant stored lines for a question: one score per
    stored chunk, the indices ordered by ascending score, the last `top_k` of
    them taken and reversed, and the selected texts joined by line breaks. */
module Ranking {
  import opened Text
  import opened Embedding
  import opened KnowledgeStore

  /** `np.dot` on vectors of different lengths raises; `index` is the
      position of the first stored chunk whose embedding does not have the
      question's length. */
  datatype Error = DimensionMismatch(index: nat)

  datatype Result<T> = Success(value: T) | Failure(error: Error)

  function Min(a: int, b: int): int
  {
    if a <= b then a else b
  }

  predicate InRange(p: seq<nat>, n: nat)
  {
    forall i :: 0 <= i < |p| ==> p[i] < n
  }

  predicate Distinct(p: seq<nat>)
  {
    forall i, j :: 0 <= i < j < |p| ==> p[i] != p[j]
  }

  /** `p` lists every index below `n` exactly once. */
  predicate IsIndexOrder(p: seq<nat>, n: nat)
  {
    && |p| == n
    && InRange(p, n)
    && Distinct(p)
    && (forall j: nat :: j < n ==> j in p)
  }

  /** The scores at the listed indices never decrease. */
  predicate Ascending(s: seq<real>, p: seq<nat>)
    requires InRange(p, |s|)
  {
    forall i, j :: 0 <= i < j < |p| ==> s[p[i]] <= s[p[j]]
  }

  /** The answers `np.argsort(s)` may give: every index once, by ascending
      score. The order among equal scores is left open, because the default
      sort of `np.argsort` is not stable. */
  predicate IsArgSort(s: seq<real>, p: seq<nat>)
  {
    IsIndexOrder(p, |s|) && Ascending(s, p)
  }

  // ---------------------------------------------------------------------
  // One admissible `np.argsort`: insertion by score.

  /** Inserts index `j` into an index list, before the first index whose
      score is at least as large. */
  function Insert(s: seq<real>, p: seq<nat>, j: nat): (q: seq<nat>)
    requires j < |s| && InRange(p, |s|)
    ensures |q| == |p| + 1
    ensures forall x :: x in q <==> x in p || x == j
    ensures InRange(q, |s|)
  {
    if p == [] then [j]
    else if s[j] <= s[p[0]] then [j] + p
    else
      assert p == [p[0]] + p[1..];
      [p[0]] + Insert(s, p[1..], j)
  }

  /** Insertion keeps the scores ascending. */
  lemma {:induction false} InsertAscending(s: seq<real>, p: seq<nat>, j: nat)
    requires j < |s| && InRange(p, |s|) && Ascending(s, p)
    ensures Ascending(s, Insert(s, p, j))
    decreases |p|
  {
    if p != [] && s[j] > s[p[0]] {
      InsertAscending(s, p[1..], j);
      var rest := Insert(s, p[1..], j);
      forall k | 0 <= k < |rest| ensures s[p[0]] <= s[rest[k]] {
        assert rest[k] in rest;
        if rest[k] != j {
          var m :| 0 <= m < |p[1..]| && p[1..][m] == rest[k];
          assert p[m + 1] == rest[k];
        }
      }
    }
  }

  /** Inserting an index not yet listed keeps the list free of repeats. */
  lemma {:induction false} InsertDistinct(s: seq<real>, p: seq<nat>, j: nat)
    requires j < |s| && InRange(p, |s|) && Distinct(p) && j !in p
    ensures Distinct(Insert(s, p, j))
    decreases |p|
  {
    if p != [] && s[j] > s[p[0]] {
      assert p == [p[0]] + p[1..];
      InsertDistinct(s, p[1..], j);
      var rest := Insert(s, p[1..], j);
      forall k | 0 <= k < |rest| ensures rest[k] != p[0] {
        assert rest[k] in rest;
      }
    }
  }

  /** The indices below `n`, sorted by score. */
  function SortPrefix(s: seq<real>, n: nat): (p: seq<nat>)
    requires n <= |s|
    ensures |p| == n && InRange(p, |s|)
    ensures forall x: int :: x in p <==> 0 <= x < n
  {
    if n == 0 then [] else Insert(s, SortPrefix(s, n - 1), n - 1)
  }

  lemma {:induction false} SortPrefixSorted(s: seq<real>, n: nat)
    requires n <= |s|
    ensures Distinct(SortPrefix(s, n)) && Ascending(s, SortPrefix(s, n))
  {
    if n > 0 {
      SortPrefixSorted(s, n - 1);
      InsertAscending(s, SortPrefix(s, n - 1), n - 1);
      InsertDistinct(s, SortPrefix(s, n - 1), n - 1);
    }
  }

  /** A concrete `np.argsort`; equal scores are ordered by decreasing index,
      which is one of the orders the library may produce. */
  function ArgSort(s: seq<real>): (p: seq<nat>)
    ensures IsArgSort(s, p)
  {
    SortPrefixSorted(s, |s|);
    var p := SortPrefix(s, |s|);
    assert forall j: nat :: j < |s| ==> j in p;
    p
  }

  // ---------------------------------------------------------------------
  // `np.argsort(similaridades)[-top_k:][::-1]`

  function Reverse(p: seq<nat>): seq<nat>
  {
    seq(|p|, i requires 0 <= i < |p| => p[|p| - 1 - i])
  }

  /** Where Python's slice `xs[start:]` begins on a sequence of length `n`:
      a negative start counts from the end, and both are clamped to
      `[0, n]`. */
  function SliceStart(n: nat, start: int): (lo: nat)
    ensures lo <= n
    ensures start < 0 ==> n - lo == Min(-start, n)
    ensures start >= 0 ==> lo == Min(start, n)
  {
    if start < 0 then (if n + start < 0 then 0 else n + start)
    else if start > n then n
    else start
  }

  /** The indices `order[-k:][::-1]` selects. */
  function TopIndices(order: seq<nat>, k: int): (sel: seq<nat>)
    ensures forall i :: 0 <= i < |sel| ==> sel[i] in order
  {
    var tail := order[SliceStart(|order|, -k)..];
    assert forall i :: 0 <= i < |tail| ==> tail[i] == order[SliceStart(|order|, -k) + i];
    Reverse(tail)
  }

  /** The ordering half of the selection rule: distinct indices in range, by
      non-increasing score, and no index left out scores above one taken. */
  predicate Ranked(s: seq<real>, sel: seq<nat>)
  {
    && InRange(sel, |s|)
    && Distinct(sel)
    && (forall i, j :: 0 <= i < j < |sel| ==> s[sel[i]] >= s[sel[j]])
    && (forall x: nat, y :: x < |s| && x !in sel && 0 <= y < |sel| ==> s[x] <= s[sel[y]])
  }

  /** The selection rule for `k >= 1`: `min(k, N)` indices, ranked. */
  predicate IsTopSelection(s: seq<real>, sel: seq<nat>, k: int)
  {
    |sel| == Min(k, |s|) && Ranked(s, sel)
  }

  /** The selection is the tail of the order from the slice start on, read
      backwards. */
  lemma TopIndicesShape(order: seq<nat>, k: int)
    ensures var lo, sel := SliceStart(|order|, -k), TopIndices(order, k);
            && |sel| == |order| - lo
            && (forall i :: 0 <= i < |sel| ==> sel[i] == order[|order| - 1 - i])
            && (forall q :: lo <= q < |order| ==> order[q] in sel)
  {
    var n, lo, sel := |order|, SliceStart(|order|, -k), TopIndices(order, k);
    forall q | lo <= q < n ensures order[q] in sel {
      assert sel[n - 1 - q] == order[q];
    }
  }

  /** The selected indices are distinct, in range, and by non-increasing
      score. */
  lemma TopIndicesDescending(s: seq<real>, order: seq<nat>, k: int)
    requires IsArgSort(s, order)
    ensures var sel := TopIndices(order, k);
            && InRange(sel, |s|) && Distinct(sel)
            && (forall i, j :: 0 <= i < j < |sel| ==> s[sel[i]] >= s[sel[j]])
  {
    TopIndicesShape(order, k);
    var n, sel := |s|, TopIndices(order, k);
    forall i, j | 0 <= i < j < |sel| ensures sel[i] != sel[j] && s[sel[i]] >= s[sel[j]] {
      assert sel[i] == order[n - 1 - i] && sel[j] == order[n - 1 - j];
    }
  }

  /** No index left out of the selection scores above a selected one. */
  lemma TopIndicesDominate(s: seq<real>, order: seq<nat>, k: int)
    requires IsArgSort(s, order)
    ensures var sel := TopIndices(order, k);
            forall x: nat, y :: x < |s| && x !in sel && 0 <= y < |sel| ==> s[x] <= s[sel[y]]
  {
    TopIndicesShape(order, k);
    var n, lo, sel := |s|, SliceStart(|s|, -k), TopIndices(order, k);
    forall x: nat, y | x < n && x !in sel && 0 <= y < |sel| ensures s[x] <= s[sel[y]] {
      assert x in order;
      var q :| 0 <= q < n && order[q] == x;
      assert q < lo;
      assert sel[y] == order[n - 1 - y];
    }
  }

  /** Whatever order `np.argsort` gives to equal scores, the selection is
      ranked; it has `min(k, N)` indices when `k >= 1`, and `N - min(-k, N)`
      indices when `k <= 0` (the slice `[-0:]` keeps everything). */
  lemma TopIndicesRanked(s: seq<real>, order: seq<nat>, k: int)
    requires IsArgSort(s, order)
    ensures Ranked(s, TopIndices(order, k))
    ensures k >= 1 ==> IsTopSelection(s, TopIndices(order, k), k)
    ensures k <= 0 ==> |TopIndices(order, k)| == |s| - Min(-k, |s|)
  {
    TopIndicesShape(order, k);
    TopIndicesDescending(s, order, k);
    TopIndicesDominate(s, order, k);
  }

  /** With `k >= N`, and also with `k == 0`, every stored chunk is selected. */
  lemma TopIndicesAll(s: seq<real>, order: seq<nat>, k: int)
    requires IsArgSort(s, order)
    requires k == 0 || k >= |s|
    ensures forall x: nat :: x < |s| ==> x in TopIndices(order, k)
  {
    var n := |s|;
    var sel := TopIndices(order, k);
    assert SliceStart(n, -k) == 0;
    forall x: nat | x < n ensures x in sel {
      assert x in order;
      var q :| 0 <= q < n && order[q] == x;
      assert sel[n - 1 - q] == x;
    }
  }

  /** For `k >= 1` and a non-empty store, the first selected chunk has the
      highest score of all. */
  lemma BestFirst(s: seq<real>, order: seq<nat>, k: int)
    requires IsArgSort(s, order) && k >= 1 && |s| >= 1
    ensures |TopIndices(order, k)| >= 1
    ensures forall x :: 0 <= x < |s| ==> s[x] <= s[TopIndices(order, k)[0]]
  {
    TopIndicesRanked(s, order, k);
    var sel := TopIndices(order, k);
    forall x | 0 <= x < |s| ensures s[x] <= s[sel[0]] {
      if x in sel {
        var y :| 0 <= y < |sel| && sel[y] == x;
        if y > 0 {
          assert s[sel[0]] >= s[sel[y]];
        }
      }
    }
  }

  /** A chunk that scores strictly above every other is the one selected
      first, whatever the tie order. */
  lemma UniqueBestSelected(s: seq<real>, order: seq<nat>, k: int, b: nat)
    requires IsArgSort(s, order) && k >= 1 && b < |s|
    requires forall x :: 0 <= x < |s| && x != b ==> s[x] < s[b]
    ensures TopIndices(order, k)[0] == b
  {
    BestFirst(s, order, k);
  }

  // ---------------------------------------------------------------------
  // The score loop.

  /** The score of every stored chunk against the question, in store
      order. */
  function Scores(query: Vector, chunks: seq<Chunk>, similarity: (Vector, Vector) -> real): (s: seq<real>)
  {
    seq(|chunks|, i requires 0 <= i < |chunks| => similarity(query, chunks[i].embedding))
  }

  /** Every stored embedding has the question's length. */
  predicate SameDimension(query: Vector, chunks: seq<Chunk>)
  {
    forall i :: 0 <= i < |chunks| ==> |chunks[i].embedding| == |query|
  }

  /** `i` is the first stored chunk whose embedding has another length. */
  predicate FirstMismatch(query: Vector, chunks: seq<Chunk>, i: nat)
  {
    && i < |chunks|
    && |chunks[i].embedding| != |query|
    && SameDimension(query, chunks[..i])
  }

  /** The loop that fills `similaridades`: it succeeds exactly when every
      embedding has the question's length, and then yields one score per
      chunk, in store order; otherwise it stops at the first mismatch. */
  method ComputeScores(query: Vector, chunks: seq<Chunk>, similarity: (Vector, Vector) -> real)
    returns (r: Result<seq<real>>)
    ensures r.Success? <==> SameDimension(query, chunks)
    ensures r.Success? ==> r.value == Scores(query, chunks, similarity)
    ensures r.Failure? ==> FirstMismatch(query, chunks, r.error.index)
  {
    var sims: seq<real> := [];
    for i := 0 to |chunks|
      invariant sims == Scores(query, chunks[..i], similarity)
      invariant SameDimension(query, chunks[..i])
    {
      if |chunks[i].embedding| != |query| {
        return Failure(DimensionMismatch(i));
      }
      assert chunks[..i + 1] == chunks[..i] + [chunks[i]];
      sims := sims + [similarity(query, chunks[i].embedding)];
    }
    assert chunks[..|chunks|] == chunks;
    r := Success(sims);
  }

  // ---------------------------------------------------------------------
  // The context.

  /** The texts of the selected chunks, in selection order. */
  function Texts(chunks: seq<Chunk>, sel: seq<nat>): (texts: seq<string>)
    requires InRange(sel, |chunks|)
    ensures |texts| == |sel|
  {
    seq(|sel|, i requires 0 <= i < |sel| => chunks[sel[i]].text)
  }

  /** `"\n".join(...)` over the selected texts; it starts with the text of
      the first selected chunk. */
  function Context(chunks: seq<Chunk>, sel: seq<nat>): (ctx: string)
    requires InRange(sel, |chunks|)
    ensures |sel| >= 1 ==> |chunks[sel[0]].text| <= |ctx| && ctx[..|chunks[sel[0]].text|] == chunks[sel[0]].text
  {
    Join(Texts(chunks, sel), '\n')
  }

  /** The contexts `encontrar_contexto_relevante` may return for a question
      whose embedding is `query`: `""` for an empty store, and otherwise the
      join of a top-`k` selection under some admissible `np.argsort`. */
  ghost predicate IsContext(chunks: seq<Chunk>, query: Vector, k: int,
                            similarity: (Vector, Vector) -> real, ctx: string)
  {
    if chunks == [] then ctx == ""
    else
      var s := Scores(query, chunks, similarity);
      exists order :: IsArgSort(s, order) && InRange(TopIndices(order, k), |chunks|)
                      && ctx == Context(chunks, TopIndices(order, k))
  }

  /** The context built from an admissible `np.argsort` of the scores is one
      of the contexts allowed for a non-empty store. */
  lemma ContextOfOrder(chunks: seq<Chunk>, query: Vector, k: int,
                       similarity: (Vector, Vector) -> real, order: seq<nat>)
    requires chunks != [] && IsArgSort(Scores(query, chunks, similarity), order)
    ensures InRange(TopIndices(order, k), |chunks|)
    ensures IsContext(chunks, query, k, similarity, Context(chunks, TopIndices(order, k)))
  {
    TopIndicesRanked(Scores(query, chunks, similarity), order, k);
  }

  /** For texts without line breaks and a non-empty selection, the context
      splits back into exactly the selected texts, each on its own line, in
      selection order. */
  lemma ContextLines(chunks: seq<Chunk>, sel: seq<nat>)
    requires InRange(sel, |chunks|) && |sel| >= 1
    requires forall i :: 0 <= i < |chunks| ==> '\n' !in chunks[i].text
    ensures Split(Context(chunks, sel), '\n') == Texts(chunks, sel)
  {
    JoinThenSplit(Texts(chunks, sel), '\n');
  }

  /** Each selected text occurs in the context. */
  lemma ContextHoldsSelected(chunks: seq<Chunk>, sel: seq<nat>, i: nat)
    requires InRange(sel, |chunks|) && i < |sel|
    ensures Contains(Context(chunks, sel), chunks[sel[i]].text)
  {
    JoinContainsPart(Texts(chunks, sel), '\n', i);
  }

  /** In a valid, non-empty store with `k >= 1`, the first line of the
      context is the text of a chunk that scores highest of all. */
  lemma {:induction false} ContextLeadsWithBest(chunks: seq<Chunk>, s: seq<real>, order: seq<nat>, k: int)
    requires |s| == |chunks| >= 1 && k >= 1 && IsArgSort(s, order)
    requires forall i :: 0 <= i < |chunks| ==> '\n' !in chunks[i].text
    ensures var sel := TopIndices(order, k);
            && InRange(sel, |chunks|) && |sel| >= 1
            && Split(Context(chunks, sel), '\n')[0] == chunks[sel[0]].text
            && (forall x :: 0 <= x < |s| ==> s[x] <= s[sel[0]])
  {
    TopIndicesRanked(s, order, k);
    BestFirst(s, order, k);
    ContextLines(chunks, TopIndices(order, k));
  }

  /** Steps 2 to 4 of `encontrar_contexto_relevante` for a non-empty store
      and the question's embedding `query`: fails exactly when `np.dot`
      would raise, at the first mismatching chunk, and otherwise answers the
      context of a top-`k` selection. */
  method RankAndJoin(chunks: seq<Chunk>, query: Vector, topK: int,
                     similarity: (Vector, Vector) -> real)
    returns (r: Result<string>)
    requires chunks != []
    ensures r.Success? <==> SameDimension(query, chunks)
    ensures r.Failure? ==> FirstMismatch(query, chunks, r.error.index)
    ensures r.Success? ==> IsContext(chunks, query, topK, similarity, r.value)
  {
    var scores := ComputeScores(query, chunks, similarity);
    if scores.Failure? {
      return Failure(scores.error);
    }
    var order := ArgSort(scores.value);
    ContextOfOrder(chunks, query, topK, similarity, order);
    r := Success(Context(chunks, TopIndices(order, topK)));
  }

  /** `encontrar_contexto_relevante`: with an empty store it answers `""`
      without asking the service anything; otherwise it asks the service
      once, for the question, and ranks the store against the answer. */
  method FindContext(kb: KnowledgeBase, service: EmbeddingService, question: string, topK: int,
                     similarity: (Vector, Vector) -> real)
    returns (r: Result<string>)
    modifies service
    ensures kb.chunks == [] ==> r == Success("") && service.requests == old(service.requests)
    ensures kb.chunks != [] ==> service.requests == old(service.requests) + [question]
    ensures kb.chunks != [] ==> (r.Success? <==> SameDimension(service.embedding(question), kb.chunks))
    ensures r.Failure? ==> FirstMismatch(service.embedding(question), kb.chunks, r.error.index)
    ensures r.Success? ==> IsContext(kb.chunks, service.embedding(question), topK, similarity, r.value)
  {
    if kb.chunks == [] {
      return Success("");
    }
    var query := service.Embed(question);
    r := RankAndJoin(kb.chunks, query, topK, similarity);
  }
}
