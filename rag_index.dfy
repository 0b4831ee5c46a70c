/** The in-memory index of chatbot_main.py (the module globals `texts` and
    `embeddings`) with the operations that read and replace it: `build_index`,
    `search`, and the `/upload` and `/ask` handlers. The embedding model and the
    cosine similarity are parameters (`encode`, `cosine`); PDF extraction is
    given as its outcome per file. */
module RagIndex {
  import opened Wrappers
  import opened PySeq
  import opened Chunker
  import opened Ranking
  import opened Answer

  /** One row of the embedding matrix. */
  type Vector = seq<int>

  /** `ask` calls `search(query, k=3)`. */
  const AskTopK: int := 3

  /** What `read_pdf` gives for one uploaded file: its text, or the message of
      the exception it raised. */
  datatype Extraction = Extracted(text: string) | Unreadable(message: string)

  /** The `all_text` list the upload loop builds: the texts of the files in
      order, or the message of the first file that could not be read (the loop
      stops there). */
  function ExtractAll(files: seq<Extraction>): (r: Result<seq<string>, string>)
    ensures r.Success? <==> forall i :: 0 <= i < |files| ==> files[i].Extracted?
    ensures r.Success? ==> |r.value| == |files| && forall i :: 0 <= i < |files| ==> r.value[i] == files[i].text
  {
    if files == [] then Success([])
    else
      var init := files[..|files| - 1];
      assert forall i :: 0 <= i < |init| ==> init[i] == files[i];
      match ExtractAll(init)
      case Failure(message) => Failure(message)
      case Success(texts) =>
        match files[|files| - 1]
        case Unreadable(message) => Failure(message)
        case Extracted(text) => Success(texts + [text])
  }

  /** The first unreadable file decides the message. */
  lemma {:induction false} ExtractAllFirstFailure(files: seq<Extraction>, i: nat)
    requires i < |files| && files[i].Unreadable?
    requires forall j :: 0 <= j < i ==> files[j].Extracted?
    ensures ExtractAll(files) == Failure(files[i].message)
    decreases |files|
  {
    if i < |files| - 1 {
      var init := files[..|files| - 1];
      ExtractAllFirstFailure(init, i);
    } else {
      assert forall j :: 0 <= j < |files| - 1 ==> files[..|files| - 1][j] == files[j];
    }
  }

  /** The loop of the `/upload` handler over the uploaded files: it collects
      each file's text and stops at the first file whose reading raises. */
  method ReadAll(files: seq<Extraction>) returns (r: Result<seq<string>, string>)
    ensures r == ExtractAll(files)
  {
    var allText: seq<string> := [];
    var i := 0;
    while i < |files|
      invariant 0 <= i <= |files|
      invariant forall j :: 0 <= j < i ==> files[j].Extracted?
      invariant allText == ExtractAll(files[..i]).value
    {
      assert files[..i + 1][..i] == files[..i];
      match files[i]
      case Unreadable(message) =>
        ExtractAllFirstFailure(files, i);
        return Failure(message);
      case Extracted(text) =>
        allText := allText + [text];
      i := i + 1;
    }
    assert files[..|files|] == files;
    return Success(allText);
  }

  /** `embedder.encode(chunks)`: one row per chunk. */
  function Embed(encode: string -> Vector, chunks: seq<string>): (rows: seq<Vector>)
    ensures |rows| == |chunks|
  {
    seq(|chunks|, i requires 0 <= i < |chunks| => encode(chunks[i]))
  }

  class Index {
    var texts: seq<string>
    var embeddings: Option<seq<Vector>>

    /** Once built, there is one embedding row per stored text. */
    ghost predicate Valid()
      reads this
    {
      embeddings.Some? ==> |embeddings.value| == |texts|
    }

    /** `embeddings is None or len(texts) == 0` */
    predicate IsEmpty()
      reads this
      ensures Valid() && !IsEmpty() ==> embeddings.Some? && 0 < |embeddings.value| == |texts|
    {
      embeddings.None? || |texts| == 0
    }

    /** The state at start-up: `texts = []`, `embeddings = None`. */
    constructor ()
      ensures Valid() && IsEmpty()
      ensures texts == [] && embeddings == None
    {
      texts := [];
      embeddings := None;
    }

    /** `build_index(chunks)`: replaces both stores, keeping nothing of the
        previous contents. */
    method BuildIndex(chunks: seq<string>, encode: string -> Vector)
      modifies this
      ensures Valid()
      ensures texts == chunks && embeddings == Some(Embed(encode, chunks))
      ensures IsEmpty() <==> chunks == []
    {
      texts := chunks;
      embeddings := Some(Embed(encode, chunks));
    }

    /** `cosine_similarity(q_emb, embeddings)[0]`: one score per stored text. */
    function Scores(query: string, encode: string -> Vector, cosine: (Vector, Vector) -> int): (scores: seq<int>)
      reads this
      requires Valid() && !IsEmpty()
      ensures |scores| == |texts|
    {
      var q := encode(query);
      var rows := embeddings.value;
      seq(|rows|, i requires 0 <= i < |rows| => cosine(q, rows[i]))
    }

    /** `sims.argsort()[-k:][::-1]` */
    function SearchIndices(query: string, k: int, encode: string -> Vector,
                           cosine: (Vector, Vector) -> int): (idx: seq<nat>)
      reads this
      requires Valid() && !IsEmpty()
      ensures |idx| == TopKCount(k, |texts|)
      ensures IsTopRanking(Scores(query, encode, cosine), idx)
    {
      var scores := Scores(query, encode, cosine);
      var order := Argsort(scores);
      TopKIsTopRanking(scores, order, k);
      TopK(order, k)
    }

    /** `search(query, k)`: nothing from an empty index; otherwise the texts at
        the ranked indices, best first. */
    function Search(query: string, k: int, encode: string -> Vector,
                    cosine: (Vector, Vector) -> int): (r: seq<string>)
      reads this
      requires Valid()
      ensures IsEmpty() ==> r == []
      ensures !IsEmpty() ==> |r| == TopKCount(k, |texts|)
      ensures 1 <= k ==> (r == [] <==> IsEmpty())
      ensures !IsEmpty() ==>
        var idx := SearchIndices(query, k, encode, cosine);
        |idx| == |r| && forall t :: 0 <= t < |r| ==> r[t] == texts[idx[t]]
    {
      if IsEmpty() then []
      else
        var idx := SearchIndices(query, k, encode, cosine);
        var stored := texts;
        assert forall t :: 0 <= t < |idx| ==> idx[t] < |stored|;
        seq(|idx|, t requires 0 <= t < |idx| => stored[idx[t]])
    }

    /** The `/upload` handler: reads every file, joins the texts with newlines,
        chunks the result with the default window, and replaces the index only
        when at least one chunk came out. */
    method Upload(files: seq<Extraction>, encode: string -> Vector) returns (reply: string)
      requires Valid()
      modifies this
      ensures Valid()
      ensures ExtractAll(files).Failure? ==>
        && reply == ErrorReply(ExtractAll(files).error)
        && texts == old(texts) && embeddings == old(embeddings)
      ensures ExtractAll(files).Success? ==>
        var chunks := Chunks(Join("\n", ExtractAll(files).value), DefaultChunkSize, DefaultOverlap);
        && (chunks == [] ==> reply == NoTextReply && texts == old(texts) && embeddings == old(embeddings))
        && (chunks != [] ==> reply == IndexedReply(|chunks|) && texts == chunks
                             && embeddings == Some(Embed(encode, chunks)))
      ensures ExtractAll(files).Success? ==>
        (reply == NoTextReply <==> forall i :: 0 <= i < |files| ==> AllSpace(files[i].text))
      ensures !old(IsEmpty()) ==> !IsEmpty()
    {
      var all := ReadAll(files);
      if all.Failure? {
        return ErrorReply(all.error);
      }
      var fullText := Join("\n", all.value);
      var chunks := ChunkText(fullText);
      ChunksEmptyIff(fullText, DefaultChunkSize, DefaultOverlap);
      JoinAllSpace(all.value);
      if chunks == [] {
        return NoTextReply;
      }
      BuildIndex(chunks, encode);
      reply := IndexedReply(|chunks|);
      assert reply[0] != NoTextReply[0];
    }

    /** The `/ask` handler: the fixed message when the index is empty,
        otherwise the answer generated from the three best chunks. */
    function Ask(query: string, apiKey: Option<string>, encode: string -> Vector,
                 cosine: (Vector, Vector) -> int,
                 complete: ChatRequest -> Result<string, string>): (reply: string)
      reads this
      requires Valid()
      ensures IsEmpty() ==> reply == NoDocumentsReply
      ensures !IsEmpty() && KeyMissing(apiKey) ==> reply == MissingKeyReply
      ensures !IsEmpty() ==>
        reply == GenerateAnswer(query, Search(query, AskTopK, encode, cosine), apiKey, complete)
    {
      var ctx := Search(query, AskTopK, encode, cosine);
      if ctx == [] then NoDocumentsReply
      else GenerateAnswer(query, ctx, apiKey, complete)
    }
  }
}
