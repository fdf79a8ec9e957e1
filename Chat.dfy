/** One turn of the `chatbot` loop, up to the prompt it sends to the
    generative model: the typed line is stripped, the exit keyword ends the
    loop, and otherwise the context for the question is retrieved with the
    default `top_k` and placed in the prompt template together with the
    question. */
module Chat {
  import opened Text
  import opened Embedding
  import opened KnowledgeStore
  import opened Ranking

  /** The `top_k` that `chatbot` relies on, the default value of the
      parameter of `encontrar_contexto_relevante`. */
  const DEFAULT_TOP_K: int := 2

  /** The template text before the context. */
  const PROMPT_HEAD: string := "\n        Voc\U{EA} \U{E9} um assistente educacional. Use APENAS o contexto fornecido abaixo para responder \U{E0} pergunta do usu\U{E1}rio.\n        Se a resposta n\U{E3}o estiver no contexto, diga \"Desculpe, n\U{E3}o tenho informa\U{E7}\U{F5}es sobre isso no meu material.\".\n        Sua resposta deve ser curta, simples, did\U{E1}tica e objetiva, ideal para quem est\U{E1} aprendendo.\n\n        **Contexto:**\n        "

  /** The template text between the context and the question. */
  const PROMPT_MIDDLE: string := "\n\n        **Pergunta:**\n        "

  /** The template text after the question. */
  const PROMPT_TAIL: string := "\n\n        **Resposta:**\n        "

  /** A template with two holes, filled in: both fillings appear in the
      result verbatim, and the first sits right after the head. */
  function Fill(head: string, first: string, middle: string, second: string, tail: string): (p: string)
    ensures Contains(p, first) && Contains(p, second)
    ensures |p| == |head| + |first| + |middle| + |second| + |tail|
    ensures p[|head|..|head| + |first|] == first
  {
    var p := head + first + middle + second + tail;
    var c, q := |head|, |head| + |first| + |middle|;
    assert p[c..][..|first|] == first;
    assert p[q..][..|second|] == second;
    p
  }

  /** The prompt `prompt_final` built from a context and a question; both
      appear in it verbatim. */
  function Prompt(context: string, question: string): (p: string)
    ensures Contains(p, context) && Contains(p, question)
  {
    Fill(PROMPT_HEAD, context, PROMPT_MIDDLE, question, PROMPT_TAIL)
  }

  /** For a given question, different contexts give different prompts: the
      prompt carries the whole context and nothing else varies. */
  lemma PromptDeterminesContext(c1: string, c2: string, question: string)
    requires Prompt(c1, question) == Prompt(c2, question)
    ensures c1 == c2
  {
    assert |c1| == |c2|;
  }

  /** `pergunta.lower() == 'sair'`. A character lower-cases to one of the
      letters `s`, `a`, `i`, `r` exactly when it is that letter or its
      capital; every other character that lower-cases to a letter of the
      Latin alphabet gives a different letter or more than one character. */
  predicate IsExit(question: string)
  {
    && |question| == 4
    && (question[0] == 's' || question[0] == 'S')
    && (question[1] == 'a' || question[1] == 'A')
    && (question[2] == 'i' || question[2] == 'I')
    && (question[3] == 'r' || question[3] == 'R')
  }

  /** What one turn of the loop does. */
  datatype Turn =
    | Quit                      // the exit keyword ends the loop
    | Send(prompt: string)      // the prompt for the generative model
    | Crash(error: Error)       // `np.dot` raised while ranking

  /** One turn of `chatbot` for the typed line `input`. */
  method Ask(kb: KnowledgeBase, service: EmbeddingService, input: string,
             similarity: (Vector, Vector) -> real)
    returns (t: Turn)
    modifies service
    ensures IsExit(Strip(input)) ==> t == Quit && service.requests == old(service.requests)
    ensures !IsExit(Strip(input)) && kb.chunks == [] ==>
              t == Send(Prompt("", Strip(input))) && service.requests == old(service.requests)
    ensures !IsExit(Strip(input)) && kb.chunks != [] ==>
              service.requests == old(service.requests) + [Strip(input)]
    ensures t.Quit? <==> IsExit(Strip(input))
    ensures t.Crash? <==>
              !IsExit(Strip(input)) && kb.chunks != [] && !SameDimension(service.embedding(Strip(input)), kb.chunks)
    ensures t.Crash? ==> FirstMismatch(service.embedding(Strip(input)), kb.chunks, t.error.index)
    ensures t.Send? ==>
              exists ctx :: IsContext(kb.chunks, service.embedding(Strip(input)), DEFAULT_TOP_K, similarity, ctx)
                            && t.prompt == Prompt(ctx, Strip(input))
  {
    var question := Strip(input);
    if IsExit(question) {
      return Quit;
    }
    var found := FindContext(kb, service, question, DEFAULT_TOP_K, similarity);
    if found.Failure? {
      return Crash(found.error);
    }
    t := Send(Prompt(found.value, question));
  }
}
