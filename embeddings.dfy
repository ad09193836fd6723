/**
  The embedding provider of embeddings.py: the load state of the shared model
  (`_model`, `_model_error`, `_model_ready`), the order of checks in
  `get_embedding`, and the fixed-width blob encoding of a vector.
 */
module Embeddings {
  import opened Wrappers

  type byte = bv8

  /** A 32-bit float, kept opaque: only its four bytes in native order matter here. */
  datatype F32 = F32(b0: byte, b1: byte, b2: byte, b3: byte)

  type Vector = seq<F32>
  type Blob = seq<byte>

  /** Bytes per packed float (`struct` format character `f`). */
  const FLOAT_SIZE := 4

  /** Width of the vectors of the configured model (all-MiniLM-L6-v2). */
  const MODEL_DIM := 384

  /**
    A loaded sentence-transformer model, seen only through its encoding:
    a deterministic map from text to a vector of MODEL_DIM floats.
   */
  type Encoder = f: string -> Vector | forall text :: |f(text)| == MODEL_DIM
    witness (text: string) => seq(MODEL_DIM, _ => F32(0, 0, 0, 0))

  /** The exception raised while constructing the model. */
  datatype LoadError = LoadError(cause: string)

  /** What `get_embedding` raises: the recorded load error, or `RuntimeError("Model not loaded")`. */
  datatype EmbedError = LoadFailed(cause: LoadError) | ModelNotLoaded

  /** The phases of the one-way load: not yet finished, finished with a model, finished with an error. */
  datatype LoadState = Loading | Ready | Failed

  /** The module globals of embeddings.py as one object. */
  class EmbeddingProvider {
    var model: Option<Encoder>
    var modelError: Option<LoadError>
    var modelReady: bool

    /** The flag is set exactly when some load has finished, and a finished load left a model or an error. */
    ghost predicate Valid()
      reads this
    {
      && (!modelReady ==> model.None? && modelError.None?)
      && (modelReady ==> model.Some? || modelError.Some?)
    }

    /** The load phase the three globals encode. */
    function State(): (s: LoadState)
      reads this
      ensures s == Ready <==> modelReady && modelError.None?
      ensures s == Loading <==> !modelReady
    {
      if !modelReady then Loading
      else if modelError.Some? then Failed
      else Ready
    }

    /** Module import: no model, no error, flag clear. */
    constructor ()
      ensures Valid()
      ensures model.None? && modelError.None? && !modelReady
    {
      model := None;
      modelError := None;
      modelReady := false;
    }

    /**
      `_load_model`: `outcome` is what `SentenceTransformer(get_embedding_model())`
      produced. Success stores the model, failure records the error; either way
      the ready flag is set. Nothing else is touched.
     */
    method LoadModel(outcome: Result<Encoder, LoadError>)
      requires Valid()
      modifies this
      ensures Valid()
      ensures modelReady
      ensures outcome.Success? ==> model == Some(outcome.value) && modelError == old(modelError)
      ensures outcome.Failure? ==> modelError == Some(outcome.error) && model == old(model)
      ensures State() != Loading
      ensures old(State()) == Failed ==> State() == Failed
    {
      match outcome
      case Success(m) =>
        model := Some(m);
        modelReady := true;
      case Failure(e) =>
        modelError := Some(e);
        modelReady := true;
    }

    /**
      `is_model_ready`: the flag is set and no error was recorded, which is
      the Ready phase; in a reachable state a model is then loaded.
     */
    predicate IsModelReady(): (ready: bool)
      reads this
      ensures ready <==> State() == Ready
      ensures Valid() && ready ==> model.Some?
    {
      modelReady && modelError.None?
    }

    /**
      `get_embedding`, after `_model_ready.wait()` has returned (hence the
      precondition): a recorded load error comes first, then a missing model,
      and only then the model's encoding of the text.
     */
    function GetEmbedding(text: string): (r: Result<Vector, EmbedError>)
      reads this
      requires modelReady
      ensures modelError.Some? ==> r == Failure(LoadFailed(modelError.value))
      ensures modelError.None? && model.None? ==> r == Failure(ModelNotLoaded)
      ensures r.Success? ==> model.Some? && r.value == model.value(text) && |r.value| == MODEL_DIM
    {
      if modelError.Some? then Failure(LoadFailed(modelError.value))
      else if model.None? then Failure(ModelNotLoaded)
      else Success(model.value(text))
    }
  }

  /** `get_embedding` succeeds exactly when `is_model_ready` holds (in a reachable state). */
  lemma EmbeddingSucceedsIffReady(p: EmbeddingProvider, text: string)
    requires p.Valid() && p.modelReady
    ensures p.GetEmbedding(text).Success? <==> p.IsModelReady()
    ensures p.GetEmbedding(text).Failure? ==> p.GetEmbedding(text) == Failure(LoadFailed(p.modelError.value))
  {
  }

  /**
    The vector depends on the loaded model and the text alone: two providers
    holding the same model agree on every text, with MODEL_DIM entries.
   */
  lemma EmbeddingDeterministic(p: EmbeddingProvider, q: EmbeddingProvider, text: string)
    requires p.IsModelReady() && q.IsModelReady() && p.model.Some? && p.model == q.model
    ensures p.GetEmbedding(text).Success? && p.GetEmbedding(text) == q.GetEmbedding(text)
    ensures |p.GetEmbedding(text).value| == MODEL_DIM
  {
  }

  /** The bytes of one packed float. */
  function WordBytes(w: F32): (b: Blob)
    ensures |b| == FLOAT_SIZE
  {
    [w.b0, w.b1, w.b2, w.b3]
  }

  /** `embedding_to_blob`: `struct.pack(f"{n}f", ...)` lays the floats out one after the other. */
  function EmbeddingToBlob(v: Vector): (b: Blob)
    ensures |b| == FLOAT_SIZE * |v|
    ensures forall i :: 0 <= i < |v| ==> b[FLOAT_SIZE * i..FLOAT_SIZE * i + FLOAT_SIZE] == WordBytes(v[i])
  {
    if v == [] then []
    else
      var rest := EmbeddingToBlob(v[1..]);
      assert forall i :: 1 <= i < |v| ==>
        (WordBytes(v[0]) + rest)[FLOAT_SIZE * i..FLOAT_SIZE * i + FLOAT_SIZE]
        == rest[FLOAT_SIZE * (i - 1)..FLOAT_SIZE * (i - 1) + FLOAT_SIZE];
      WordBytes(v[0]) + rest
  }

  /** Groups a blob whose length is a multiple of four into words. */
  function Words(b: Blob): (v: Vector)
    requires |b| % FLOAT_SIZE == 0
    ensures |v| == |b| / FLOAT_SIZE
  {
    if b == [] then [] else [F32(b[0], b[1], b[2], b[3])] + Words(b[FLOAT_SIZE..])
  }

  /** `struct.error` from `struct.unpack`: the buffer is not `4 * (len // 4)` bytes long. */
  datatype UnpackError = BufferSizeMismatch(required: nat, actual: nat)

  /**
    `blob_to_embedding`: `len(blob) // 4` floats are unpacked from the blob;
    `struct.unpack` raises unless that accounts for every byte.
   */
  function BlobToEmbedding(blob: Blob): (r: Result<Vector, UnpackError>)
    ensures r.Success? <==> |blob| % FLOAT_SIZE == 0
    ensures r.Success? ==> |r.value| == |blob| / FLOAT_SIZE
    ensures r.Failure? ==> r.error == BufferSizeMismatch(FLOAT_SIZE * (|blob| / FLOAT_SIZE), |blob|)
  {
    var count := |blob| / FLOAT_SIZE;
    if FLOAT_SIZE * count != |blob| then Failure(BufferSizeMismatch(FLOAT_SIZE * count, |blob|))
    else Success(Words(blob))
  }

  /** Decoding an encoded vector gives it back, float for float. */
  lemma {:induction false} DecodeEncode(v: Vector)
    ensures BlobToEmbedding(EmbeddingToBlob(v)) == Success(v)
  {
    WordsOfEncoding(v);
  }

  lemma {:induction false} WordsOfEncoding(v: Vector)
    ensures |EmbeddingToBlob(v)| % FLOAT_SIZE == 0
    ensures Words(EmbeddingToBlob(v)) == v
  {
    if v != [] {
      WordsOfEncoding(v[1..]);
      var b := EmbeddingToBlob(v);
      assert b[FLOAT_SIZE..] == EmbeddingToBlob(v[1..]);
    }
  }

  /** A blob that decodes at all is exactly the encoding of what it decodes to. */
  lemma {:induction false} EncodeDecode(blob: Blob)
    requires BlobToEmbedding(blob).Success?
    ensures EmbeddingToBlob(BlobToEmbedding(blob).value) == blob
  {
    EncodeWords(blob);
  }

  lemma {:induction false} EncodeWords(blob: Blob)
    requires |blob| % FLOAT_SIZE == 0
    ensures EmbeddingToBlob(Words(blob)) == blob
    decreases |blob|
  {
    if blob != [] {
      EncodeWords(blob[FLOAT_SIZE..]);
      var v := Words(blob);
      assert v[1..] == Words(blob[FLOAT_SIZE..]);
    }
  }

  /** A stored embedding of the model's width decodes into MODEL_DIM floats. */
  lemma ModelBlobWidth(v: Vector)
    requires |v| == MODEL_DIM
    ensures |EmbeddingToBlob(v)| == FLOAT_SIZE * MODEL_DIM
    ensures BlobToEmbedding(EmbeddingToBlob(v)) == Success(v)
  {
    DecodeEncode(v);
  }
}
