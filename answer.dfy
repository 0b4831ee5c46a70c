/** The fixed replies of the chatbot and `generate_answer` (chatbot_main.py).
    The hosted chat-completion call is a parameter `complete`: it receives the
    request and gives the reply text or the message of the exception it raised. */
module Answer {
  import opened Wrappers
  import opened PySeq

  const NoTextReply := "No text extracted."
  const NoDocumentsReply := "No documents indexed yet. Upload PDFs first."
  const MissingKeyReply := "Error: GROK_API_KEY is not set in your .env file."
  const ApiErrorPrefix := "Groq API Error: "
  const ChatModel := "llama-3.3-70b-versatile"
  const SystemPrompt := "Answer using provided context."

  /** `f"Error: {e}"`, the reply of a route whose handler raised. */
  function ErrorReply(message: string): (r: string)
    ensures |r| == |message| + 7 && r[..7] == "Error: " && r[7..] == message
  {
    "Error: " + message
  }

  // ---------------------------------------------------------------------------
  // str(n) for the chunk count
  // ---------------------------------------------------------------------------

  predicate IsDigit(c: char) {
    '0' <= c <= '9'
  }

  ghost predicate AllDigits(s: string) {
    forall i :: 0 <= i < |s| ==> IsDigit(s[i])
  }

  /** `str(n)` for a non-negative integer: decimal, no leading zero. */
  function NatToDecimal(n: nat): (s: string)
    ensures 1 <= |s| && AllDigits(s)
    ensures |s| > 1 ==> s[0] != '0'
  {
    var d := (n % 10) as char + '0';
    if n < 10 then [d] else NatToDecimal(n / 10) + [d]
  }

  /** The number a string of decimal digits denotes. */
  function DecimalValue(s: string): nat
    requires AllDigits(s)
  {
    if s == [] then 0
    else DecimalValue(s[..|s| - 1]) * 10 + (s[|s| - 1] - '0') as nat
  }

  /** Reading back the count that `str` wrote gives the count. */
  lemma {:induction false} DecimalRoundTrip(n: nat)
    ensures DecimalValue(NatToDecimal(n)) == n
  {
    var s := NatToDecimal(n);
    if n >= 10 {
      DecimalRoundTrip(n / 10);
      assert s[..|s| - 1] == NatToDecimal(n / 10);
    }
  }

  /** `f"Indexed {len(chunks)} chunks."` */
  function IndexedReply(n: nat): (r: string)
    ensures 17 <= |r| && r[..8] == "Indexed " && r[|r| - 8..] == " chunks."
    ensures AllDigits(r[8..|r| - 8]) && DecimalValue(r[8..|r| - 8]) == n
    ensures |r| > 17 ==> r[8] != '0'
  {
    var digits := NatToDecimal(n);
    var r := "Indexed " + digits + " chunks.";
    assert r[8..|r| - 8] == digits;
    DecimalRoundTrip(n);
    r
  }

  /** Different counts give different upload replies. */
  lemma IndexedReplyInjective(a: nat, b: nat)
    requires IndexedReply(a) == IndexedReply(b)
    ensures a == b
  {
  }

  /** The three replies of `/upload` can be told apart by their first
      character, whatever the error message or the count. */
  lemma UploadRepliesDistinct(message: string, n: nat)
    ensures ErrorReply(message) != NoTextReply
    ensures ErrorReply(message) != IndexedReply(n)
    ensures NoTextReply != IndexedReply(n)
  {
    assert ErrorReply(message)[0] == 'E';
    assert IndexedReply(n)[..8][0] == 'I';
  }

  // ---------------------------------------------------------------------------
  // generate_answer
  // ---------------------------------------------------------------------------

  /** `not GROQ_API_KEY`: the variable is unset or empty. */
  predicate KeyMissing(apiKey: Option<string>)
    ensures !KeyMissing(apiKey) <==> apiKey.Some? && 1 <= |apiKey.value|
  {
    apiKey.None? || apiKey.value == []
  }

  /** The chat-completion request: model, system message and user message. */
  datatype ChatRequest = ChatRequest(model: string, system: string, user: string)

  /** The user message: the contexts joined by newlines, then the question. */
  function UserMessage(query: string, contexts: seq<string>): (m: string)
    ensures |m| == 9 + |Join("\n", contexts)| + 12 + |query|
    ensures m[..9] == "Context:\n" && OccursAt(Join("\n", contexts), m, 9)
    ensures m[|m| - |query| - 12..] == "\n\nQuestion: " + query
  {
    "Context:\n" + Join("\n", contexts) + "\n\nQuestion: " + query
  }

  /** `generate_answer(query, contexts)`. Without a key it answers with a fixed
      message and sends nothing; otherwise it sends one request built from the
      query and the contexts, and answers with the reply or the error text. */
  function GenerateAnswer(query: string, contexts: seq<string>, apiKey: Option<string>,
                          complete: ChatRequest -> Result<string, string>): (reply: string)
    ensures KeyMissing(apiKey) ==> reply == MissingKeyReply
    ensures !KeyMissing(apiKey) ==>
      var outcome := complete(ChatRequest(ChatModel, SystemPrompt, UserMessage(query, contexts)));
      reply == if outcome.Success? then outcome.value else ApiErrorPrefix + outcome.error
  {
    if KeyMissing(apiKey) then MissingKeyReply
    else
      match complete(ChatRequest(ChatModel, SystemPrompt, UserMessage(query, contexts)))
      case Success(text) => text
      case Failure(message) => ApiErrorPrefix + message
  }
}
