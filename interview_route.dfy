/**
 * The interview endpoint (app/api/interview/route.ts): one POST handler over a
 * process-wide map from session id to conversation turns, and the encoder that
 * wraps an answer's text in a `data:` URL.
 *
 * The transcription and generation services are not modelled; what they return
 * to the handler (a value, or a thrown error with its message) is a parameter
 * of each request.
 */
module InterviewRoute {
  import opened Wrappers
  import opened Bytes
  import Utf8
  import Base64

  // ---------------------------------------------------------------------------
  // The answer encoder (generateSpeech).

  const SpeechUrlPrefix := "data:text/plain;base64,"

  /**
   * A `data:` URL (RFC 2397) declaring plain text whose payload is the base64
   * encoding of the text's UTF-8 bytes.
   */
  function GenerateSpeech(text: string): (url: string)
    ensures |url| == |SpeechUrlPrefix| + 4 * ((|Utf8.Encode(text)| + 2) / 3)
    ensures url[..|SpeechUrlPrefix|] == SpeechUrlPrefix
    ensures forall i :: |SpeechUrlPrefix| <= i < |url| ==> Base64.IsPayloadChar(url[i])
  {
    SpeechUrlPrefix + Base64.Encode(Utf8.Encode(text))
  }

  /** A concrete URL: the two ASCII bytes of "Hi" are padded to one base64 group. */
  lemma GenerateSpeechExample()
    ensures GenerateSpeech("Hi") == "data:text/plain;base64,SGk="
  {
  }

  /** The text a URL of GenerateSpeech's shape carries; None for any other string. */
  function SpeechText(url: string): Option<string> {
    if |url| >= |SpeechUrlPrefix| && url[..|SpeechUrlPrefix|] == SpeechUrlPrefix then
      match Base64.Decode(url[|SpeechUrlPrefix|..])
      case None => None
      case Some(bytes) => Utf8.Decode(bytes)
    else
      None
  }

  /** The payload decodes to exactly the UTF-8 bytes of the text, the empty text included. */
  lemma GenerateSpeechPayload(text: string)
    ensures Base64.Decode(GenerateSpeech(text)[|SpeechUrlPrefix|..]) == Some(Utf8.Encode(text))
  {
    var url := GenerateSpeech(text);
    assert url[|SpeechUrlPrefix|..] == Base64.Encode(Utf8.Encode(text));
    Base64.DecodeEncode(Utf8.Encode(text));
  }

  /** Reading the URL back gives the text back. */
  lemma SpeechTextOfGenerateSpeech(text: string)
    ensures SpeechText(GenerateSpeech(text)) == Some(text)
  {
    GenerateSpeechPayload(text);
    Utf8.DecodeEncode(text);
  }

  /** Every URL that reads back as a text is the one GenerateSpeech makes from it. */
  lemma GenerateSpeechOfSpeechText(url: string)
    requires SpeechText(url).Some?
    ensures GenerateSpeech(SpeechText(url).value) == url
  {
    var payload := url[|SpeechUrlPrefix|..];
    var bytes := Base64.Decode(payload).value;
    Base64.EncodeDecode(payload);
    Utf8.EncodeDecode(bytes);
    assert url == url[..|SpeechUrlPrefix|] + payload;
  }

  // ---------------------------------------------------------------------------
  // Sessions and requests.

  datatype Role = User | Model

  /** One entry of a session's history: `{ role, parts: [{ text }] }` with its single part. */
  datatype Turn = Turn(role: Role, text: string)

  /** The persona definition, whose content is configuration outside this model. */
  const PersonaText: string

  /**
   * The greeting's text. It is built by a concatenation rather than written as a
   * bare literal so that the verifier does not evaluate the encoders on it
   * character by character wherever GenerateSpeech(Greeting) appears.
   */
  const Greeting: string := [] + "Hello! I'm ready for the interview. Please ask me any questions about my background, skills, or experience."
  /** The acknowledgement installed by the greeting action. */
  const GreetingAcknowledgement := "I understand. I will answer all interview questions as you, staying authentic to your background, skills, and personality."
  /** The shorter acknowledgement seeded when a question arrives for an unknown session. */
  const LazyAcknowledgement := "I understand. I will answer all interview questions as you."

  const DefaultSession := "default"
  const GreetingAction := "greeting"

  const NoAudioError := "No audio file provided"
  const TranscriptionFailedError := "Transcription failed"
  const NoTextError := "No text transcribed from audio"
  const FallbackError := "Failed to process interview"

  const StatusBadRequest := 400
  const StatusServerError := 500

  /** The two turns every session history starts with. */
  function PrimingPair(acknowledgement: string): seq<Turn> {
    [Turn(User, PersonaText), Turn(Model, acknowledgement)]
  }

  /**
   * A request as the handler sees it: either a body that could not be read as
   * form data, or the three optional form fields.
   */
  datatype Request =
    | Unreadable(message: string)
    | Form(action: Option<string>, audio: Option<seq<byte>>, sessionId: Option<string>)

  datatype TranscriptStatus = Queued | Processing | Completed | Error

  /** What the speech-to-text call gives back: a transcript record, or a thrown error. */
  datatype Transcription =
    | TranscribeThrew(message: string)
    | Transcript(status: TranscriptStatus, text: Option<string>)

  /** What the generative-model call gives back: the answer text, or a thrown error. */
  datatype Generation =
    | GenerationThrew(message: string)
    | Generated(answer: string)

  /** The JSON body and status of a reply. */
  datatype Response =
    | GreetingReply(answer: string, audioUrl: string)
    | AnswerReply(question: string, answer: string, audioUrl: string, sessionId: string)
    | ErrorReply(status: int, error: string)

  /** The map key of a request: a missing or empty `sessionId` field selects the default session. */
  function SessionKey(sessionId: Option<string>): (key: string)
    ensures key != ""
    ensures sessionId.None? || sessionId.value == "" ==> key == DefaultSession
    ensures sessionId.Some? && sessionId.value != "" ==> key == sessionId.value
  {
    match sessionId
    case Some(id) => if id == "" then DefaultSession else id
    case None => DefaultSession
  }

  /** The `error` text of a 500 reply: the thrown error's message, or a fallback when it is empty. */
  function ErrorMessage(message: string): (text: string)
    ensures text != ""
    ensures message != "" ==> text == message
    ensures message == "" ==> text == FallbackError
  {
    if message == "" then FallbackError else message
  }

  /** The question a transcription yields, or the message of the error the handler throws on it. */
  function TranscribedQuestion(t: Transcription): (r: Result<string, string>)
    ensures r.Success? <==> t.Transcript? && t.status != Error && t.text.Some? && t.text.value != ""
    ensures r.Success? ==> r.value == t.text.value
    ensures t.TranscribeThrew? ==> r == Failure(t.message)
    ensures t.Transcript? && t.status == Error ==> r == Failure(TranscriptionFailedError)
    ensures t.Transcript? && t.status != Error && (t.text.None? || t.text.value == "") ==> r == Failure(NoTextError)
  {
    match t
    case TranscribeThrew(message) => Failure(message)
    case Transcript(status, text) =>
      if status == Error then Failure(TranscriptionFailedError)
      else
        var question := text.GetOr("");
        if question == "" then Failure(NoTextError) else Success(question)
  }

  /** The history map after a request, with the reply. */
  datatype Exchange = Exchange(history: map<string, seq<Turn>>, response: Response)

  /** The handler's effect on the history map and its reply, as a function of the old map and the services' outcomes. */
  function Handle(history: map<string, seq<Turn>>, request: Request, transcription: Transcription, generation: Generation): (x: Exchange)
    ensures x.response.ErrorReply? ==> x.history == history && x.response.error != ""
    ensures !x.response.ErrorReply? ==>
      && request.Form?
      && x.history.Keys == history.Keys + {SessionKey(request.sessionId)}
      && |x.history[SessionKey(request.sessionId)]| >= 2
  {
    match request
    case Unreadable(message) => Exchange(history, ErrorReply(StatusServerError, ErrorMessage(message)))
    case Form(action, audio, sessionId) =>
      var key := SessionKey(sessionId);
      if action == Some(GreetingAction) then
        Exchange(history[key := PrimingPair(GreetingAcknowledgement)], GreetingReply(Greeting, GenerateSpeech(Greeting)))
      else if audio.None? then
        Exchange(history, ErrorReply(StatusBadRequest, NoAudioError))
      else
        match TranscribedQuestion(transcription)
        case Failure(message) => Exchange(history, ErrorReply(StatusServerError, ErrorMessage(message)))
        case Success(question) =>
          match generation
          case GenerationThrew(message) => Exchange(history, ErrorReply(StatusServerError, ErrorMessage(message)))
          case Generated(answer) =>
            var prior := if key in history then history[key] else PrimingPair(LazyAcknowledgement);
            Exchange(history[key := prior + [Turn(User, question), Turn(Model, answer)]],
                     AnswerReply(question, answer, GenerateSpeech(answer), key))
  }

  // ---------------------------------------------------------------------------
  // The handler over the process-wide map.

  class Route {
    var conversationHistory: map<string, seq<Turn>>

    constructor ()
      ensures conversationHistory == map[]
    {
      conversationHistory := map[];
    }

    method Post(request: Request, transcription: Transcription, generation: Generation) returns (response: Response)
      modifies this
      ensures conversationHistory == Handle(old(conversationHistory), request, transcription, generation).history
      ensures response == Handle(old(conversationHistory), request, transcription, generation).response
    {
      if request.Unreadable? {
        return ErrorReply(StatusServerError, ErrorMessage(request.message));
      }
      var sessionId := SessionKey(request.sessionId);
      var action := request.action;

      if action == Some(GreetingAction) {
        conversationHistory := conversationHistory[sessionId := PrimingPair(GreetingAcknowledgement)];
        var audioUrl := GenerateSpeech(Greeting);
        return GreetingReply(Greeting, audioUrl);
      }

      if request.audio.None? {
        return ErrorReply(StatusBadRequest, NoAudioError);
      }

      // Step 1: transcription.
      var question: string;
      match transcription {
        case TranscribeThrew(message) =>
          return ErrorReply(StatusServerError, ErrorMessage(message));
        case Transcript(status, text) =>
          if status == Error {
            return ErrorReply(StatusServerError, ErrorMessage(TranscriptionFailedError));
          }
          question := text.GetOr("");
      }
      if question == "" {
        return ErrorReply(StatusServerError, ErrorMessage(NoTextError));
      }

      // Step 2: generation over the session's history, seeded when the session is new.
      var history := if sessionId in conversationHistory then conversationHistory[sessionId]
                     else PrimingPair(LazyAcknowledgement);
      var answer: string;
      match generation {
        case GenerationThrew(message) =>
          return ErrorReply(StatusServerError, ErrorMessage(message));
        case Generated(text) =>
          answer := text;
      }
      history := history + [Turn(User, question), Turn(Model, answer)];
      conversationHistory := conversationHistory[sessionId := history];

      // Step 3: the answer's payload.
      var audioUrl := GenerateSpeech(answer);
      response := AnswerReply(question, answer, audioUrl, sessionId);
    }
  }

  // ---------------------------------------------------------------------------
  // Properties of the handler.

  predicate IsGreeting(request: Request) {
    request.Form? && request.action == Some(GreetingAction)
  }

  /** A form request on the audio path: not a greeting, with an audio field. */
  predicate IsAudioRequest(request: Request) {
    request.Form? && request.action != Some(GreetingAction) && request.audio.Some?
  }

  /**
   * The greeting is decided before the audio field is looked at: it sets the
   * session's history to exactly the priming pair, whatever was there, and
   * replies with the fixed greeting and its payload.
   */
  lemma GreetingSeedsSession(history: map<string, seq<Turn>>, request: Request, t: Transcription, g: Generation)
    requires IsGreeting(request)
    ensures var x := Handle(history, request, t, g); var key := SessionKey(request.sessionId);
      && x.history == history[key := PrimingPair(GreetingAcknowledgement)]
      && |x.history[key]| == 2
      && x.response == GreetingReply(Greeting, GenerateSpeech(Greeting))
  {
  }

  /** Two greetings in a row for one session leave two turns, not four. */
  lemma GreetingTwice(history: map<string, seq<Turn>>, request: Request, t: Transcription, g: Generation)
    requires IsGreeting(request)
    ensures var once := Handle(history, request, t, g).history;
      var twice := Handle(once, request, t, g).history;
      twice == once && |twice[SessionKey(request.sessionId)]| == 2
  {
    var key := SessionKey(request.sessionId);
    var once := Handle(history, request, t, g).history;
    assert once == history[key := PrimingPair(GreetingAcknowledgement)];
    assert Handle(once, request, t, g).history == once[key := PrimingPair(GreetingAcknowledgement)];
  }

  /** Without an audio field a non-greeting request is refused with 400 and nothing is stored. */
  lemma MissingAudioRejected(history: map<string, seq<Turn>>, request: Request, t: Transcription, g: Generation)
    requires request.Form? && !IsGreeting(request) && request.audio.None?
    ensures Handle(history, request, t, g) == Exchange(history, ErrorReply(StatusBadRequest, NoAudioError))
  {
  }

  /** A failed transcription is a 500 whose message names the failure, and nothing is stored. */
  lemma TranscriptionFailure(history: map<string, seq<Turn>>, request: Request, t: Transcription, g: Generation)
    requires IsAudioRequest(request) && TranscribedQuestion(t).Failure?
    ensures var x := Handle(history, request, t, g);
      && x.history == history
      && x.response == ErrorReply(StatusServerError, ErrorMessage(TranscribedQuestion(t).error))
      && (t.Transcript? && t.status == Error ==> x.response.error == TranscriptionFailedError)
      && (t.Transcript? && t.status != Error && (t.text.None? || t.text.value == "") ==> x.response.error == NoTextError)
  {
  }

  /** A failed generation is a 500 with the error's message and stores nothing, not even the question. */
  lemma GenerationFailure(history: map<string, seq<Turn>>, request: Request, t: Transcription, g: Generation)
    requires IsAudioRequest(request) && TranscribedQuestion(t).Success? && g.GenerationThrew?
    ensures Handle(history, request, t, g) == Exchange(history, ErrorReply(StatusServerError, ErrorMessage(g.message)))
  {
  }

  /**
   * A successful exchange appends the question and the answer to the session's
   * history, seeding the session with the short priming pair if it is new; it
   * grows that history by exactly two turns and replies with the question, the
   * answer, the answer's payload and the session key.
   */
  lemma SuccessfulExchange(history: map<string, seq<Turn>>, request: Request, t: Transcription, g: Generation)
    requires IsAudioRequest(request) && TranscribedQuestion(t).Success? && g.Generated?
    ensures var x := Handle(history, request, t, g);
      var key := SessionKey(request.sessionId);
      var question := t.text.value;
      var prior := if key in history then history[key] else PrimingPair(LazyAcknowledgement);
      && x.history == history[key := prior + [Turn(User, question), Turn(Model, g.answer)]]
      && |x.history[key]| == |prior| + 2
      && x.response == AnswerReply(question, g.answer, GenerateSpeech(g.answer), key)
  {
  }

  /** A reply carrying an error never comes with a change to the history map. */
  lemma ErrorRepliesStoreNothing(history: map<string, seq<Turn>>, request: Request, t: Transcription, g: Generation)
    ensures var x := Handle(history, request, t, g);
      x.response.ErrorReply? ==> x.history == history
  {
  }

  /**
   * The status of an error reply is 400 exactly for a form request that is not a
   * greeting and has no audio field, and 500 otherwise.
   */
  lemma ErrorStatus(history: map<string, seq<Turn>>, request: Request, t: Transcription, g: Generation)
    ensures var x := Handle(history, request, t, g);
      x.response.ErrorReply? ==>
        && (x.response.status == StatusBadRequest <==> request.Form? && !IsGreeting(request) && request.audio.None?)
        && (x.response.status == StatusBadRequest || x.response.status == StatusServerError)
        && x.response.error != ""
  {
  }

  /**
   * A request changes the history map at most at its own session key: the map
   * after it is the map before it, or that map with the request's session
   * rebound.
   */
  lemma HistoryChangesAtMostOneKey(history: map<string, seq<Turn>>, request: Request, t: Transcription, g: Generation)
    ensures var x := Handle(history, request, t, g);
      || x.history == history
      || (request.Form? && x.history == history[SessionKey(request.sessionId) := x.history[SessionKey(request.sessionId)]])
  {
    if request.Form? {
      var key := SessionKey(request.sessionId);
      var x := Handle(history, request, t, g);
      if IsGreeting(request) {
        assert x.history == history[key := PrimingPair(GreetingAcknowledgement)];
      } else if IsAudioRequest(request) && TranscribedQuestion(t).Success? && g.Generated? {
        var prior := if key in history then history[key] else PrimingPair(LazyAcknowledgement);
        assert x.history == history[key := prior + [Turn(User, TranscribedQuestion(t).value), Turn(Model, g.answer)]];
      } else {
        assert x.history == history;
      }
    }
  }

  /** Sessions are isolated: every other key keeps its presence and its turns. */
  lemma OtherSessionsUntouched(history: map<string, seq<Turn>>, request: Request, t: Transcription, g: Generation, other: string)
    requires request.Unreadable? || other != SessionKey(request.sessionId)
    ensures var x := Handle(history, request, t, g);
      && (other in x.history <==> other in history)
      && (other in history ==> x.history[other] == history[other])
  {
    HistoryChangesAtMostOneKey(history, request, t, g);
  }

  // ---------------------------------------------------------------------------
  // The shape of every stored history.

  /** Turns alternate user, model, user, model, ... and come in whole pairs. */
  ghost predicate Alternates(h: seq<Turn>) {
    |h| % 2 == 0 && forall i :: 0 <= i < |h| ==> h[i].role == (if i % 2 == 0 then User else Model)
  }

  /** One of the two acknowledgements the handler primes a session with. */
  predicate IsAcknowledgement(text: string) {
    text == GreetingAcknowledgement || text == LazyAcknowledgement
  }

  /** A session history: the persona turn, one of the acknowledgements, then question/answer pairs. */
  ghost predicate IsSessionHistory(h: seq<Turn>) {
    && |h| >= 2 && h[0] == Turn(User, PersonaText)
    && h[1].role == Model && IsAcknowledgement(h[1].text)
    && Alternates(h)
  }

  ghost predicate WellFormed(history: map<string, seq<Turn>>) {
    forall key :: key in history ==> IsSessionHistory(history[key])
  }

  lemma PrimingPairIsSessionHistory(acknowledgement: string)
    requires IsAcknowledgement(acknowledgement)
    ensures IsSessionHistory(PrimingPair(acknowledgement))
  {
  }

  lemma {:induction false} AppendPairKeepsShape(h: seq<Turn>, question: string, answer: string)
    requires IsSessionHistory(h)
    ensures IsSessionHistory(h + [Turn(User, question), Turn(Model, answer)])
  {
    var h' := h + [Turn(User, question), Turn(Model, answer)];
    assert h'[0] == h[0] && h'[1] == h[1];
    forall i | 0 <= i < |h'|
      ensures h'[i].role == (if i % 2 == 0 then User else Model)
    {
      if i >= |h| {
        assert i == |h| || i == |h| + 1;
      }
    }
  }

  /** Every request keeps every stored history in the priming-pair-then-pairs shape. */
  lemma HandleKeepsWellFormed(history: map<string, seq<Turn>>, request: Request, t: Transcription, g: Generation)
    requires WellFormed(history)
    ensures WellFormed(Handle(history, request, t, g).history)
  {
    var x := Handle(history, request, t, g);
    if IsGreeting(request) {
      var key := SessionKey(request.sessionId);
      assert x.history == history[key := PrimingPair(GreetingAcknowledgement)];
      PrimingPairIsSessionHistory(GreetingAcknowledgement);
    } else if IsAudioRequest(request) && TranscribedQuestion(t).Success? && g.Generated? {
      var key := SessionKey(request.sessionId);
      var prior := if key in history then history[key] else PrimingPair(LazyAcknowledgement);
      PrimingPairIsSessionHistory(LazyAcknowledgement);
      var h := prior + [Turn(User, TranscribedQuestion(t).value), Turn(Model, g.answer)];
      assert x.history == history[key := h];
      AppendPairKeepsShape(prior, TranscribedQuestion(t).value, g.answer);
    } else {
      assert x.history == history;
    }
  }
}
