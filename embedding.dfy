/**
 * EmbeddingService::generateEmbedding(): refuse text that is empty after
 * trimming, otherwise ask the provider for an embedding.
 *
 * The provider (the OpenAI embeddings endpoint) is a parameter: a function
 * from (input, model) to an embedding, or None when the call throws.
 */
module EmbeddingService {
  import opened Wrappers
  import opened PhpText
  import opened Tiger

  const DefaultModel: string := "text-embedding-3-small"

  /** The provider: one embedding for an input and a model, or None when the call fails. */
  type Provider = (string, string) -> Option<Embedding>

  /** Why no embedding was produced. */
  datatype EmbeddingError = EmptyText | ProviderFailure

  /** OpenAI::embeddings()->create(...)->embeddings[0]->embedding. */
  function Create(provider: Provider, text: string, model: string): (r: Result<Embedding, EmbeddingError>)
    ensures r.Success? <==> provider(text, model).Some?
    ensures r.Success? ==> r.value == provider(text, model).value
    ensures r.Failure? ==> r.error == ProviderFailure
  {
    match provider(text, model)
    case Some(e) => Success(e)
    case None => Failure(ProviderFailure)
  }

  /** generateEmbedding($text, $model). */
  function Embed(provider: Provider, text: string, model: string): Result<Embedding, EmbeddingError>
  {
    if IsPhpEmpty(Trim(text)) then Failure(EmptyText) else Create(provider, text, model)
  }

  /**
   * Text that is empty after trimming (or "0") fails with EmptyText whatever
   * the provider does; any other text gets exactly the provider's answer.
   */
  lemma EmbedCases(provider: Provider, text: string, model: string)
    ensures IsPhpEmpty(Trim(text)) ==>
      Embed(provider, text, model) == Failure(EmptyText) &&
      forall other: Provider :: Embed(other, text, model) == Embed(provider, text, model)
    ensures !IsPhpEmpty(Trim(text)) ==> Embed(provider, text, model) == Create(provider, text, model)
    ensures Embed(provider, text, model).Failure? && Embed(provider, text, model).error == EmptyText <==>
      IsPhpEmpty(Trim(text))
  {
  }
}
