/** The message handler of the chat server: dispatch on the session's chat mode, render the
    references as a bullet list and format the reply that is sent back. */
module ChatServer {
  import opened Common
  import opened Strings
  import opened Retrieval

  const PlainMode: string := "Plain"
  const RagMode: string := "RAG"

  /** Text between the answer and the references in a reply. */
  const ReferencesHeading: string := " \n\n### References:\n "

  const BulletLead: string := "* "
  const BulletSeparator: string := "\n* "

  /** The references value of the handler: the empty text of Plain mode, or the URL list of
      RAG mode. */
  datatype References = RefText(text: string) | RefList(urls: seq<string>)

  /** The tables stored in the chat session. */
  datatype Session = Session(docs: seq<DocumentRow>, corpus: seq<ChunkRow>)

  /** Why no reply is sent: a chat mode that is neither Plain nor RAG leaves the references
      unbound; a failed query or retrieval propagates its error. */
  datatype ChatError = UnknownChatMode(mode: string) | Failed(cause: Error)

  /** The reply message that is sent (or why none is), with the outside calls made, in order. */
  datatype Reply = Reply(sent: Result<string, ChatError>, effects: seq<Effect>)

  /** One bullet line per reference, in order: an independent description of the rendering. */
  function Bullets(urls: seq<string>): string
  {
    if urls == [] then "" else BulletLead + urls[0] + "\n" + Bullets(urls[1..])
  }

  /** Joining with a newline-bullet separator between a leading bullet and a final newline
      yields one bullet line per reference. */
  lemma {:induction false} JoinedBulletsAreLines(urls: seq<string>)
    requires urls != []
    ensures BulletLead + Join(urls, BulletSeparator) + "\n" == Bullets(urls)
    decreases |urls|
  {
    if |urls| == 1 {
      assert urls[1..] == [];
    } else {
      var rest := urls[1..];
      JoinedBulletsAreLines(rest);
      calc {
        BulletLead + Join(urls, BulletSeparator) + "\n";
        BulletLead + (urls[0] + BulletSeparator + Join(rest, BulletSeparator)) + "\n";
        { assert BulletSeparator == "\n" + BulletLead; }
        (BulletLead + urls[0] + "\n") + (BulletLead + Join(rest, BulletSeparator) + "\n");
        (BulletLead + urls[0] + "\n") + Bullets(rest);
      }
    }
  }

  /** A list of references is rendered as bullet lines (an empty list as a lone bullet);
      a text is left unchanged. */
  function FormatReferences(refs: References): (r: string)
    ensures refs.RefText? ==> r == refs.text
    ensures refs.RefList? && refs.urls == [] ==> r == "* \n"
    ensures refs.RefList? && refs.urls != [] ==> r == Bullets(refs.urls)
  {
    match refs
    case RefText(text) => text
    case RefList(urls) =>
      if urls != [] then JoinedBulletsAreLines(urls); BulletLead + Join(urls, BulletSeparator) + "\n"
      else BulletLead + Join(urls, BulletSeparator) + "\n"
  }

  /** The reply text: the answer, the references heading, then the rendered references. */
  function FormatReply(answer: string, references: string): (r: string)
    ensures |r| == |answer| + |ReferencesHeading| + |references|
    ensures StartsWith(r, answer)
    ensures r[|answer|..|answer| + |ReferencesHeading|] == ReferencesHeading
    ensures r[|answer| + |ReferencesHeading|..] == references
  {
    answer + ReferencesHeading + references
  }

  /** Handles one user message: Plain mode queries the model with the message as is and has
      no references; RAG mode runs the retrieval-augmented query on the session tables; any
      other mode fails before anything is called or sent. */
  function Main(userMsg: string, chatMode: string, llmName: string, session: Session,
                similarity: string -> seq<real>, argsort: seq<real> -> seq<nat>,
                generate: string -> Option<string>): (r: Reply)
    requires forall scores :: IsArgsort(scores, argsort(scores))
    ensures chatMode != PlainMode && chatMode != RagMode ==>
              r.sent == Failure(UnknownChatMode(chatMode)) && r.effects == []
    ensures chatMode == PlainMode ==>
              && r.effects == (if llmName == SupportedModel then [Post(userMsg)] else [])
              && (r.sent.Success? <==> llmName == SupportedModel && generate(userMsg).Some?)
              && (r.sent.Failure? ==>
                    r.sent.error == if llmName == SupportedModel then Failed(ConnectionFailure)
                                    else Failed(UnsupportedModel(llmName)))
    ensures chatMode == PlainMode ==>
              (forall e :: e in r.effects ==> !e.Embed?)
              && (r.sent.Success? ==>
                    r.effects == [Post(userMsg)]
                    && |r.sent.value| >= |ReferencesHeading|
                    && Some(r.sent.value[..|r.sent.value| - |ReferencesHeading|]) == generate(userMsg)
                    && r.sent.value[|r.sent.value| - |ReferencesHeading|..] == ReferencesHeading)
    ensures chatMode == RagMode ==> |r.effects| >= 1 && r.effects[0] == Embed(QueryText(userMsg))
    ensures chatMode == RagMode ==>
              var rag := RetrievalAugmentedQuery(userMsg, llmName, session.docs, session.corpus,
                                                 similarity, argsort, generate);
              && r.effects == rag.effects
              && (r.sent.Success? <==> rag.result.Success?)
              && (r.sent.Failure? ==> r.sent.error == Failed(rag.result.error))
    ensures chatMode == RagMode && r.sent.Success? ==>
              var rag := RetrievalAugmentedQuery(userMsg, llmName, session.docs, session.corpus,
                                                 similarity, argsort, generate);
              rag.result.Success?
              && r.sent.value == FormatReply(rag.result.value.0, FormatReferences(RefList(rag.result.value.1)))
    ensures llmName != SupportedModel ==> r.sent.Failure? && forall e :: e in r.effects ==> !e.Post?
  {
    if chatMode == PlainMode then
      var answer := Query(userMsg, llmName, generate);
      match answer.result
      case Failure(e) => Reply(Failure(Failed(e)), answer.effects)
      case Success(text) =>
        var reply := FormatReply(text, FormatReferences(RefText("")));
        assert reply[..|reply| - |ReferencesHeading|] == text;
        Reply(Success(reply), answer.effects)
    else if chatMode == RagMode then
      var answer := RetrievalAugmentedQuery(userMsg, llmName, session.docs, session.corpus,
                                            similarity, argsort, generate);
      match answer.result
      case Failure(e) => Reply(Failure(Failed(e)), answer.effects)
      case Success(found) =>
        Reply(Success(FormatReply(found.0, FormatReferences(RefList(found.1)))), answer.effects)
    else
      Reply(Failure(UnknownChatMode(chatMode)), [])
  }
}
