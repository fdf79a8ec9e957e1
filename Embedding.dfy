/** The external embedding service, reduced to what the retrieval code can
    observe: the vector it answers for a text, and the sequence of texts it
    has been asked to embed. */
module Embedding {

  /** An embedding vector; the service's floating-point numbers are modelled
      as reals. */
  type Vector = seq<real>

  class EmbeddingService {
    /** The vector the embedding model answers for each text. The service is
        deterministic for a given text within a session. */
    const embedding: string -> Vector
    /** Every text sent to the service so far, in call order. */
    var requests: seq<string>

    constructor (embedding: string -> Vector)
      ensures this.embedding == embedding
      ensures requests == []
    {
      this.embedding := embedding;
      requests := [];
    }

    /** One call to the service: answers the model's vector for `text` and
        records the call. */
    method Embed(text: string) returns (v: Vector)
      modifies this
      ensures v == embedding(text)
      ensures requests == old(requests) + [text]
    {
      v := embedding(text);
      requests := requests + [text];
    }
  }
}
