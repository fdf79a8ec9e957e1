# Verified model of the retrieval core of the educational biology chatbot

`chatbot.py` answers biology questions with retrieval-augmented generation.
At start-up it reads a text file, strips it and splits it into lines. Each
line that is not blank is stored verbatim with its embedding, which it gets
from an embedding service. For each question it then does four things:

1. It embeds the question.
2. It scores every stored line against the question with cosine similarity.
3. It takes the `top_k` best lines (`np.argsort(...)[-top_k:][::-1]`) and
   joins them with line breaks into a context.
4. It places the context and the question in a fixed prompt template for a
   generative model.

This project models that core in Dafny.

- `Text.dfy` covers Python's `str.strip()`, `str.split('\n')` and
  `'\n'.join(...)`. `IsSpace` holds exactly the characters `str.isspace`
  accepts. The module proves that split and join are inverse to each other
  and characterises what `strip()` removes.
- `Embedding.dfy` models the embedding service as a class:
  - a fixed function from text to vector;
  - a log of every text sent to it, so that the number and order of calls
    can be stated.
- `KnowledgeStore.dfy` covers `processar_base_conhecimento`.
  - The module-level list `chunks_processados` is the `chunks` field of the
    `KnowledgeBase` class.
  - The loop `Process` works on content that has already been read.
  - It is proved against `StoredTexts`: the non-blank lines of
    `strip(content).split('\n')`, in order and verbatim.
  - `StoredTexts` is proved equal, on every input, to one reference
    definition: the lines at the positions of the non-blank lines
    (`Select` over `Positions`; see `NonBlankLinesAtPositions` and
    `PositionsExact`).
  - A round-trip lemma, `StoredTextsOfJoin`, covers content that is the join
    of non-blank single-line texts with no whitespace around the whole.
    Loading such content gives back exactly those texts.
- `Ranking.dfy` covers `encontrar_contexto_relevante`.
  - The score loop is `ComputeScores`, with an abstract similarity function.
  - `IsArgSort` states what `np.argsort` may answer. The order of equal
    scores is left open.
  - `ArgSort` is one admissible answer, by insertion.
  - Python's slice `[-k:]` and the reversal are `TopIndices`.
  - The selection rule is proved for every admissible `np.argsort` answer:
    - for `k >= 1`, it has `min(k, N)` distinct, in-range indices;
    - their scores never increase along the selection;
    - no chunk left out scores above one taken.
  - The returned context is described by `IsContext`.
- `Chat.dfy` covers one turn of the `chatbot` loop up to the prompt:
  - the typed line is stripped;
  - `IsExit` tests for the exit keyword `sair` in any letter case, which is
    exactly what `lower() == 'sair'` accepts;
  - the context is found with the default `top_k` of 2;
  - the prompt template's text is transcribed.

Three behaviours of the code the model keeps:

- Ties. The code sorts with `np.argsort`, which is not stable, so equal
  scores may come in any order. The model proves its properties for every
  such order and does not claim a stable tie-break.
- Early stop. A missing file (`FileNotFoundError`) ends the program via
  `exit()`; any other read error, and a failing embedding call, raise out of
  `processar_base_conhecimento`. Lines are appended to the module-level list one by one, so
  `KnowledgeBase.Process` appends to the chunks already stored rather than
  building a fresh store. A failing embedding call raises, and the lines
  appended before it stay stored; the model does not cover that case (see
  "Left out" below).
- Query embedding. For a non-empty store, the query is embedded before any
  score is computed. A length mismatch between the query vector and a
  stored vector makes `np.dot` raise. The model returns
  `DimensionMismatch` with the index of the first stored chunk concerned.

## Model

| member | source | states |
|---|---|---|
| Text.IsSpace | chatbot.py:26 | the characters `str.isspace` accepts, which are exactly those `strip()` removes |
| Text.Strip | chatbot.py:26 | `str.strip()`, given as the slice between the two scans; `StripShape` and `StripEmptyIff` state what it keeps |
| Text.SkipLeft | chatbot.py:26 | the left scan of `strip()` stops at the first non-whitespace character and skips only whitespace |
| Text.SkipRight | chatbot.py:26 | the right scan of `strip()` stops after the last non-whitespace character and skips only whitespace |
| Text.StripShape | chatbot.py:26 | `strip()` keeps a contiguous middle; everything before and after it is whitespace, and its ends are not |
| Text.StripEmptyIff | chatbot.py:31 | `line.strip()` is empty exactly when the line is all whitespace |
| Text.Split | chatbot.py:26 | `split('\n')` always yields at least one part |
| Text.SplitNoSeparator | chatbot.py:26 | no part of a split holds the separator |
| Text.SplitFirst | chatbot.py:26 | the first part of a split is a prefix of the text, non-empty when the text starts with another character |
| Text.Join | chatbot.py:75 | a join starts with its first part |
| Text.SplitThenJoin | chatbot.py:26 | joining the parts of a split gives back the text |
| Text.JoinConsFirst | chatbot.py:75 | a character glued to the first part ends up at the front of the join |
| Text.SplitPrefix | chatbot.py:26 | a separator-free prefix becomes the start of the first part |
| Text.JoinThenSplit | chatbot.py:75 | splitting a join of separator-free parts gives back the parts |
| Text.JoinContainsPart | chatbot.py:75 | every part occurs in the joined text |
| Embedding.EmbeddingService.constructor | chatbot.py:33-36 | a fresh service has answered no request |
| Embedding.EmbeddingService.Embed | chatbot.py:58-61 | one call answers the model's vector for the text and logs exactly that text |
| KnowledgeStore.Chunk | chatbot.py:39-42 | the stored record `{'texto': ..., 'embedding': ...}`: a text and its vector |
| KnowledgeStore.Lines | chatbot.py:26 | the candidate lines hold no line break, there is at least one, and they join back to the stripped content |
| KnowledgeStore.NonBlank | chatbot.py:31 | `if chunk.strip():`, a line whose stripped form is not empty |
| KnowledgeStore.Positions | chatbot.py:30-31 | the kept positions lie below the bound |
| KnowledgeStore.PositionsExact | chatbot.py:30-31 | positions are strictly increasing and listed exactly when the line is kept |
| KnowledgeStore.NonBlankLines | chatbot.py:30-31 | the loop's filter over the first `n` candidate lines, keeping the non-blank ones in order; `NonBlankLinesAtPositions`, `NonBlankLinesKept` and `NonBlankLinesAll` state its properties |
| KnowledgeStore.NonBlankLinesAtPositions | chatbot.py:30-42 | the filter keeps exactly the non-blank lines, each verbatim, in order, duplicates included |
| KnowledgeStore.NonBlankLinesKept | chatbot.py:31 | every kept line is non-blank and is one of the lines |
| KnowledgeStore.StoredTexts | chatbot.py:26-31 | every stored text is non-blank and holds no line break |
| KnowledgeStore.Embedded | chatbot.py:39-42 | the stored records for a list of texts: each text paired with the service's embedding of that same text, in order |
| KnowledgeStore.EmbeddedAppend | chatbot.py:39-42 | storing one more line adds its chunk at the end |
| KnowledgeStore.EmptyStoreIffBlankContent | chatbot.py:26-31 | the content yields no chunk exactly when it is whitespace only |
| KnowledgeStore.NonBlankLinesAll | chatbot.py:30-31 | lines that are all non-blank are all kept |
| KnowledgeStore.StoredTextsOfJoin | chatbot.py:26-31 | loading non-blank single-line texts written one per line gives back exactly those texts |
| KnowledgeStore.AppendKeepsLines | chatbot.py:39-42 | appending chunks of non-blank single-line texts keeps every stored text so |
| KnowledgeStore.KnowledgeBase.constructor | chatbot.py:13 | the store starts empty |
| KnowledgeStore.KnowledgeBase.Process | chatbot.py:24-42 | the store grows by one chunk per non-blank line, in order, each paired with its own text's embedding; the service is asked for exactly those lines, once each, in order; stored texts stay non-blank single lines |
| Ranking.IsArgSort | chatbot.py:72 | the answers `np.argsort` may give: every index exactly once, by ascending score, equal scores in any order |
| Ranking.Insert | chatbot.py:72 | insertion adds exactly the new index to the order |
| Ranking.InsertAscending | chatbot.py:72 | insertion keeps scores ascending |
| Ranking.InsertDistinct | chatbot.py:72 | inserting an unlisted index keeps the order free of repeats |
| Ranking.SortPrefix | chatbot.py:72 | the sorted prefix lists exactly the indices below its length |
| Ranking.SortPrefixSorted | chatbot.py:72 | the sorted prefix is free of repeats and ascending by score |
| Ranking.ArgSort | chatbot.py:72 | the concrete order is an admissible `np.argsort` answer: every index once, ascending by score |
| Ranking.Reverse | chatbot.py:72 | `[::-1]`: the same indices in the opposite order |
| Ranking.SliceStart | chatbot.py:72 | Python's start of `xs[start:]`: a negative start `-k` keeps the last `min(k, n)` elements, and a non-negative start is clamped to the length |
| Ranking.TopIndices | chatbot.py:72 | every selected index comes from the order |
| Ranking.TopIndicesShape | chatbot.py:72 | the selection is the tail of the order from the slice start, reversed, and holds every index of that tail |
| Ranking.TopIndicesDescending | chatbot.py:72 | selected indices are distinct, in range, and by non-increasing score |
| Ranking.TopIndicesDominate | chatbot.py:72 | no unselected chunk scores above a selected one |
| Ranking.TopIndicesRanked | chatbot.py:72 | for every admissible argsort the selection is ranked, has `min(k, N)` indices for `k >= 1`, and `N - min(-k, N)` indices when `k <= 0` (all `N` at `k == 0`) |
| Ranking.TopIndicesAll | chatbot.py:72 | with `k >= N`, and also with `k == 0`, every chunk is selected |
| Ranking.BestFirst | chatbot.py:72 | for `k >= 1` on a non-empty store, the first selected chunk scores highest of all |
| Ranking.UniqueBestSelected | chatbot.py:72 | a chunk strictly better than all others is selected first, whatever the tie order |
| Ranking.Scores | chatbot.py:65-69 | the list `similaridades`: one score per stored chunk, in store order, each the similarity of the question's vector with that chunk's vector |
| Ranking.FirstMismatch | chatbot.py:68 | the chunk at which `np.dot` raises: the first whose vector length differs from the question's |
| Ranking.ComputeScores | chatbot.py:65-69 | succeeds exactly when every embedding has the question's length, then one score per chunk in store order; otherwise reports the first mismatching chunk |
| Ranking.Texts | chatbot.py:75 | one text per selected index |
| Ranking.Context | chatbot.py:75 | the selected texts joined by line breaks; the context starts with the first selected text |
| Ranking.IsContext | chatbot.py:54-76 | the values `encontrar_contexto_relevante` may return: `""` for an empty store, otherwise the context of the top-`k` selection of some admissible `np.argsort` of the scores |
| Ranking.ContextOfOrder | chatbot.py:72-75 | the context built from any admissible argsort is an allowed context |
| Ranking.ContextLines | chatbot.py:75 | the context splits back into exactly the selected texts, in selection order |
| Ranking.ContextHoldsSelected | chatbot.py:75 | every selected text occurs in the context |
| Ranking.ContextLeadsWithBest | chatbot.py:72-75 | the first line of the context is the text of a highest-scoring chunk |
| Ranking.RankAndJoin | chatbot.py:63-76 | fails exactly on a dimension mismatch, at the first one; otherwise answers an allowed context |
| Ranking.FindContext | chatbot.py:50-76 | an empty store gives `""` with no service call; otherwise the question alone is embedded once, failure is exactly a dimension mismatch, and success is an allowed context |
| Chat.Fill | chatbot.py:99-111 | both fillings of the template appear verbatim, the first right after the head |
| Chat.Prompt | chatbot.py:99-111 | the prompt holds the context and the question verbatim |
| Chat.PromptDeterminesContext | chatbot.py:99-111 | for one question, different contexts give different prompts |
| Chat.IsExit | chatbot.py:91 | `pergunta.lower() == 'sair'`: four characters, each the corresponding letter of `sair` in either case |
| Chat.Ask | chatbot.py:86-111 | the turn quits exactly when the stripped line is the exit keyword, and then asks the service nothing; otherwise it sends a prompt built from an allowed context for the stripped question with `top_k` 2, unless a dimension mismatch occurs, in which case it fails and reports the first mismatching chunk; the service is asked, once and for the stripped question, only when the store is not empty |

## Left out

- Reading the file, `FileNotFoundError` and `exit()` (chatbot.py:21-24, 45-47) are I/O and process control. `Process` takes the file's content as a string.
- The embedding service is a fixed function of the text. The model does not cover network errors, or the chunks left stored when a service call raises part-way through the loop.
- Cosine similarity (chatbot.py:68) is floating-point arithmetic. It is the `similarity` parameter, scores are reals, and vectors are sequences of reals. The length check that `np.dot` makes is kept.
- A zero-norm vector gives a not-a-number score, and `np.argsort` sorts such scores last, so the reversal would rank that chunk first. This is not modelled, because the score is an arbitrary real.
- Tie order among equal scores is left open (`IsArgSort`). `ArgSort` is one admissible choice, and `FindContext` promises only that some admissible order was used.
- The `ollama.chat` call and printing its answer (chatbot.py:113-125) are a foreign service and terminal output. `Ask` stops at the prompt.
- `input` and the `print` messages (chatbot.py:28, 43, 83-84, 92) are terminal I/O. `Ask` receives the typed line.
- The model names and the file name (chatbot.py:6-10) are configuration for the services. They have no effect on the retrieval logic.
