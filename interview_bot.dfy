/**
 * The browser side (app/components/InterviewBot.tsx): a recorder whose status
 * runs idle -> listening -> thinking -> speaking -> idle, a transcript of the
 * conversation, an error line, and the buffer of audio chunks of the current
 * recording.
 *
 * Each handler runs as one atomic step. What the browser and the server do in
 * between (microphone permission, the recorder's events, the fetch, speech
 * playback) is a parameter of the step that waits for it.
 */
module InterviewClient {
  import opened Wrappers
  import opened Bytes
  import InterviewRoute

  datatype Status = Idle | Listening | Thinking | Speaking

  datatype Speaker = User | Assistant

  /** One line of the on-screen transcript. */
  datatype Message = Message(role: Speaker, text: string)

  /** The state of the MediaRecorder held in `mediaRecorderRef`. */
  datatype RecorderState = Inactive | Recording

  /** A Blob delivered by the recorder's `dataavailable` event. */
  datatype Chunk = Chunk(bytes: seq<byte>) {
    function Size(): nat {
      |bytes|
    }
  }

  /** How far `startRecording` gets: the step that throws, or none. */
  datatype MicAccess =
    | Granted          // getUserMedia, the MediaRecorder constructor and start() all succeed
    | Denied           // getUserMedia rejects
    | RecorderRefused  // the MediaRecorder constructor throws
    | StartRefused     // start() throws, after the new recorder is installed and the buffer reset

  /** How the upload in `processAudio` ends. */
  datatype AudioReply =
    | FetchThrew(message: string)              // fetch or response.json() throws
    | NotOk                                    // a reply with a non-2xx status
    | Answered(question: string, answer: string)

  /** How the greeting request in `loadGreeting` ends. */
  datatype GreetingOutcome =
    | GreetingThrew
    | GreetingAnswered(answer: string)

  const MicrophoneError := "Microphone access denied. Please enable microphone permissions."
  const NotOkError := "Failed to process audio"
  const ProcessFallbackError := "Failed to process audio. Please try again."

  /** The label shown beside the status indicator (the `text` of `getStatusConfig`). */
  function StatusText(s: Status): (text: string)
    ensures |text| >= 3
    ensures s != Idle <==> text[|text| - 3..] == "..."
  {
    match s
    case Listening => "Listening..."
    case Thinking => "Processing..."
    case Speaking => "Speaking..."
    case Idle => "Ready"
  }

  /** The label identifies the status: no two statuses share one. */
  lemma StatusTextIdentifies(a: Status, b: Status)
    ensures StatusText(a) == StatusText(b) <==> a == b
  {
  }

  /** The error line after a failed upload: the thrown error's message, or a fallback when it is empty. */
  function FailureMessage(reply: AudioReply): (text: string)
    requires !reply.Answered?
    ensures text != ""
    ensures reply.NotOk? ==> text == NotOkError
    ensures reply.FetchThrew? && reply.message != "" ==> text == reply.message
    ensures reply.FetchThrew? && reply.message == "" ==> text == ProcessFallbackError
  {
    match reply
    case NotOk => NotOkError
    case FetchThrew(message) => if message == "" then ProcessFallbackError else message
  }

  /** The bytes of `new Blob(chunks)`: the chunks' bytes joined in order; as long as the chunks together. */
  function Concat(chunks: seq<Chunk>): (r: seq<byte>)
    ensures |r| == SizeSum(chunks)
  {
    if chunks == [] then [] else Concat(chunks[..|chunks| - 1]) + chunks[|chunks| - 1].bytes
  }

  function SizeSum(chunks: seq<Chunk>): nat {
    if chunks == [] then 0 else SizeSum(chunks[..|chunks| - 1]) + chunks[|chunks| - 1].Size()
  }

  /** Each chunk's bytes sit in the upload at the offset of the sizes before it. */
  lemma {:induction false} ConcatAt(chunks: seq<Chunk>, k: nat)
    requires k < |chunks|
    ensures SizeSum(chunks[..k]) + chunks[k].Size() <= |Concat(chunks)|
    ensures Concat(chunks)[SizeSum(chunks[..k])..SizeSum(chunks[..k]) + chunks[k].Size()] == chunks[k].bytes
  {
    var n := |chunks|;
    var init := chunks[..n - 1];
    if k == n - 1 {
      assert chunks[..k] == init;
    } else {
      ConcatAt(init, k);
      assert init[..k] == chunks[..k];
      assert init[k] == chunks[k];
    }
  }

  /** Buffering an empty chunk would not change the upload, so dropping it loses nothing. */
  lemma ConcatSkipsEmpty(chunks: seq<Chunk>, chunk: Chunk)
    requires chunk.Size() == 0
    ensures Concat(chunks + [chunk]) == Concat(chunks)
  {
    assert (chunks + [chunk])[..|chunks|] == chunks;
  }

  /** Every time the status became speaking, the next status was idle. */
  ghost predicate SpeakingThenIdle(log: seq<Status>) {
    forall i :: 0 <= i < |log| && log[i] == Speaking ==> i + 1 < |log| && log[i + 1] == Idle
  }

  lemma SpeakingThenIdleAppend(log: seq<Status>, more: seq<Status>)
    requires SpeakingThenIdle(log) && SpeakingThenIdle(more)
    ensures SpeakingThenIdle(log + more)
  {
    var all := log + more;
    forall i | 0 <= i < |all| && all[i] == Speaking
      ensures i + 1 < |all| && all[i + 1] == Idle
    {
      if i < |log| {
        assert log[i] == Speaking;
      } else {
        assert more[i - |log|] == Speaking;
      }
    }
  }

  /** The request `loadGreeting` posts. */
  function GreetingRequest(sessionId: string): InterviewRoute.Request {
    InterviewRoute.Form(Some(InterviewRoute.GreetingAction), None, Some(sessionId))
  }

  /** The request `processAudio` posts. */
  function AudioRequest(sessionId: string, audio: seq<byte>): InterviewRoute.Request {
    InterviewRoute.Form(None, Some(audio), Some(sessionId))
  }

  class InterviewBot {
    var status: Status
    var transcript: seq<Message>
    var error: string
    var isRecording: bool
    const sessionId: string
    /** Whether the browser offers speech synthesis (`'speechSynthesis' in window`). */
    const speechAvailable: bool

    /** `mediaRecorderRef.current`. */
    var recorder: Option<RecorderState>
    /** `audioChunksRef.current`. */
    var chunks: seq<Chunk>

    /** Every value `status` has been set to, in order, starting with the initial one. */
    ghost var statusLog: seq<Status>
    /** The recorder has stopped, by `stopRecording` or by the browser, and its `onstop` handler has not run yet. */
    ghost var stopPending: bool
    /** The texts handed to speech synthesis, in order. */
    ghost var utterances: seq<string>

    ghost predicate Valid()
      reads this
    {
      && (recorder == Some(Recording) ==> isRecording && status == Listening && !stopPending)
      && (status == Listening ==> isRecording)
      && (isRecording ==> recorder.Some?)
      && (stopPending ==> recorder == Some(Inactive) && status == (if isRecording then Listening else Thinking))
      && (forall i :: 0 <= i < |chunks| ==> chunks[i].Size() > 0)
      && |statusLog| > 0 && statusLog[|statusLog| - 1] == status
      && SpeakingThenIdle(statusLog)
    }

    constructor (sessionId: string, speechAvailable: bool)
      ensures Valid()
      ensures status == Idle && transcript == [] && error == "" && !isRecording
      ensures recorder == None && chunks == [] && !stopPending && utterances == []
      ensures this.sessionId == sessionId && this.speechAvailable == speechAvailable
    {
      status := Idle;
      transcript := [];
      error := "";
      isRecording := false;
      this.sessionId := sessionId;
      this.speechAvailable := speechAvailable;
      recorder := None;
      chunks := [];
      statusLog := [Idle];
      stopPending := false;
      utterances := [];
    }

    /** The start button is rendered exactly when not recording. */
    function StartShown(): bool
      reads this
    {
      !isRecording
    }

    /** The start button is enabled exactly in the idle status. */
    function StartEnabled(): bool
      reads this
    {
      status == Idle
    }

    /** The stop button is rendered exactly when recording. */
    function StopShown(): bool
      reads this
    {
      isRecording
    }

    /**
     * Exactly one of the two buttons is on screen; stop is on screen whenever the
     * bot is listening or the recorder records, and start never is. Stop shown
     * in any other status means the recorder is already inactive, so pressing it
     * does nothing (see StopRecording).
     */
    lemma ButtonGating()
      requires Valid()
      ensures StartShown() != StopShown()
      ensures status == Listening || recorder == Some(Recording) ==> StopShown()
      ensures StartShown() ==> status != Listening && recorder != Some(Recording)
      ensures StopShown() && status != Listening ==> recorder == Some(Inactive)
    {
      if StopShown() && status != Listening {
        assert recorder.Some? && recorder.value != Recording;
      }
    }

    method SetStatus(s: Status)
      modifies this`status, this`statusLog
      ensures status == s && statusLog == old(statusLog) + [s]
    {
      status := s;
      statusLog := statusLog + [s];
    }

    /** `speakText`: hands the text to speech synthesis when the browser has it; it resolves on end, on error or at once. */
    method SpeakText(text: string)
      modifies this`utterances
      ensures utterances == old(utterances) + (if speechAvailable then [text] else [])
    {
      if speechAvailable {
        utterances := utterances + [text];
      }
    }

    /**
     * `loadGreeting`: posts the greeting request; on a reply, the transcript
     * becomes the greeting alone and is spoken. The status is not touched, and a
     * failure changes nothing.
     */
    method LoadGreeting(outcome: GreetingOutcome) returns (request: InterviewRoute.Request)
      requires Valid()
      modifies this`transcript, this`utterances
      ensures Valid()
      ensures request == GreetingRequest(sessionId)
      ensures outcome.GreetingAnswered? ==>
        && transcript == [Message(Assistant, outcome.answer)]
        && utterances == old(utterances) + (if speechAvailable then [outcome.answer] else [])
      ensures outcome.GreetingThrew? ==> transcript == old(transcript) && utterances == old(utterances)
    {
      request := GreetingRequest(sessionId);
      match outcome {
        case GreetingThrew =>
        case GreetingAnswered(answer) =>
          transcript := [Message(Assistant, answer)];
          SpeakText(answer);
      }
    }

    /**
     * `startRecording`, run by the start button, which is only clickable when it
     * is shown and enabled. On success it clears the error, installs a recording
     * recorder over an empty buffer and enters listening; on any failure it sets
     * the permission message and leaves the status and the recording flag alone.
     */
    method StartRecording(mic: MicAccess)
      requires Valid() && StartShown() && StartEnabled()
      modifies this`error, this`recorder, this`chunks, this`isRecording, this`status, this`statusLog
      ensures Valid()
      ensures transcript == old(transcript) && stopPending == old(stopPending)
      ensures mic == Granted ==>
        && error == "" && chunks == [] && recorder == Some(Recording)
        && isRecording && status == Listening && statusLog == old(statusLog) + [Listening]
      ensures mic != Granted ==>
        && error == MicrophoneError
        && status == old(status) && isRecording == old(isRecording) && statusLog == old(statusLog)
      ensures mic == Denied || mic == RecorderRefused ==> recorder == old(recorder) && chunks == old(chunks)
      ensures mic == StartRefused ==> recorder == Some(Inactive) && chunks == []
    {
      error := "";
      if mic == Denied || mic == RecorderRefused {
        error := MicrophoneError;
        return;
      }
      recorder := Some(Inactive);
      chunks := [];
      if mic == StartRefused {
        error := MicrophoneError;
        return;
      }
      recorder := Some(Recording);
      isRecording := true;
      SetStatus(Listening);
    }

    /** The `dataavailable` handler: a chunk with data is appended to the buffer; an empty one is dropped. */
    method ChunkAvailable(chunk: Chunk)
      requires Valid()
      modifies this`chunks
      ensures Valid()
      ensures chunks == if chunk.Size() > 0 then old(chunks) + [chunk] else old(chunks)
      ensures Concat(chunks) == Concat(old(chunks)) + chunk.bytes
    {
      if chunk.Size() > 0 {
        chunks := chunks + [chunk];
        assert chunks[..|chunks| - 1] == old(chunks);
      } else {
        ConcatSkipsEmpty(chunks, chunk);
        assert chunk.bytes == [];
      }
    }

    /**
     * `stopRecording`: with no recorder, or one already inactive, nothing happens;
     * otherwise the recorder stops and the status becomes thinking.
     */
    method StopRecording()
      requires Valid()
      modifies this`recorder, this`isRecording, this`status, this`statusLog, this`stopPending
      ensures Valid()
      ensures old(recorder) == Some(Recording) ==>
        && recorder == Some(Inactive) && !isRecording && status == Thinking
        && statusLog == old(statusLog) + [Thinking] && stopPending
      ensures old(recorder) != Some(Recording) ==>
        && recorder == old(recorder) && isRecording == old(isRecording) && status == old(status)
        && statusLog == old(statusLog) && stopPending == old(stopPending)
    {
      if recorder.Some? && recorder.value != Inactive {
        recorder := Some(Inactive);
        isRecording := false;
        SetStatus(Thinking);
        stopPending := true;
      }
    }

    /**
     * The browser stops a recording recorder by itself: every track of the
     * stream ended (permission revoked, device removed) or the recorder failed.
     * Its `stop` event follows as after `stopRecording`, but nothing clears the
     * recording flag or leaves the listening status.
     */
    method RecorderEnded()
      requires Valid()
      modifies this`recorder, this`stopPending
      ensures Valid()
      ensures old(recorder) == Some(Recording) ==> recorder == Some(Inactive) && stopPending
      ensures old(recorder) != Some(Recording) ==> recorder == old(recorder) && stopPending == old(stopPending)
    {
      if recorder == Some(Recording) {
        recorder := Some(Inactive);
        stopPending := true;
      }
    }

    /**
     * `processAudio`: posts the recording. On an answer, the question and the
     * answer are appended to the transcript and spoken, and the status runs
     * thinking, speaking, idle. On a failure the error line is set and the status
     * runs thinking, idle: the transcript is unchanged and speaking is never entered.
     */
    method ProcessAudio(audio: seq<byte>, reply: AudioReply) returns (request: InterviewRoute.Request)
      requires Valid() && !stopPending && recorder != Some(Recording)
      modifies this`status, this`statusLog, this`transcript, this`error, this`utterances
      ensures Valid()
      ensures request == AudioRequest(sessionId, audio)
      ensures status == Idle
      ensures reply.Answered? ==>
        && transcript == old(transcript) + [Message(User, reply.question), Message(Assistant, reply.answer)]
        && statusLog == old(statusLog) + [Thinking, Speaking, Idle]
        && error == old(error)
        && utterances == old(utterances) + (if speechAvailable then [reply.answer] else [])
      ensures !reply.Answered? ==>
        && transcript == old(transcript)
        && statusLog == old(statusLog) + [Thinking, Idle]
        && error == FailureMessage(reply)
        && utterances == old(utterances)
    {
      SetStatus(Thinking);
      SpeakingThenIdleAppend(old(statusLog), [Thinking]);
      request := AudioRequest(sessionId, audio);
      match reply {
        case Answered(question, answer) =>
          ShowAnswer(question, answer);
          assert old(statusLog) + [Thinking] + [Speaking, Idle] == old(statusLog) + [Thinking, Speaking, Idle];
        case _ =>
          ShowFailure(FailureMessage(reply));
          assert old(statusLog) + [Thinking] + [Idle] == old(statusLog) + [Thinking, Idle];
      }
    }

    /** The successful end of `processAudio`: the exchange is shown, spoken, and the bot returns to idle. */
    method ShowAnswer(question: string, answer: string)
      requires Valid() && status == Thinking && !stopPending
      modifies this`status, this`statusLog, this`transcript, this`utterances
      ensures Valid() && status == Idle
      ensures transcript == old(transcript) + [Message(User, question), Message(Assistant, answer)]
      ensures statusLog == old(statusLog) + [Speaking, Idle]
      ensures utterances == old(utterances) + (if speechAvailable then [answer] else [])
    {
      transcript := transcript + [Message(User, question), Message(Assistant, answer)];
      SetStatus(Speaking);
      SpeakText(answer);
      SetStatus(Idle);
      SpeakingThenIdleAppend(old(statusLog), [Speaking, Idle]);
    }

    /** The failing end of `processAudio`: the error line is set and the bot returns to idle without speaking. */
    method ShowFailure(message: string)
      requires Valid() && status == Thinking && !stopPending
      modifies this`status, this`statusLog, this`error
      ensures Valid() && status == Idle && error == message
      ensures statusLog == old(statusLog) + [Idle]
    {
      error := message;
      SetStatus(Idle);
      SpeakingThenIdleAppend(old(statusLog), [Idle]);
    }

    /**
     * The recorder's `onstop` handler, whoever stopped the recorder: joins the
     * buffered chunks in order into one upload and processes it. It leaves the
     * recording flag as it was.
     */
    method RecorderStopped(reply: AudioReply) returns (request: InterviewRoute.Request)
      requires Valid() && stopPending
      modifies this`status, this`statusLog, this`transcript, this`error, this`utterances, this`stopPending
      ensures Valid() && !stopPending
      ensures request == AudioRequest(sessionId, Concat(chunks))
      ensures chunks == old(chunks) && status == Idle
      ensures isRecording == old(isRecording) && recorder == old(recorder)
      ensures reply.Answered? ==>
        && transcript == old(transcript) + [Message(User, reply.question), Message(Assistant, reply.answer)]
        && statusLog == old(statusLog) + [Thinking, Speaking, Idle]
        && error == old(error)
        && utterances == old(utterances) + (if speechAvailable then [reply.answer] else [])
      ensures !reply.Answered? ==>
        && transcript == old(transcript)
        && statusLog == old(statusLog) + [Thinking, Idle]
        && error == FailureMessage(reply)
        && utterances == old(utterances)
    {
      var audioBlob := Concat(chunks);
      stopPending := false;
      request := ProcessAudio(audioBlob, reply);
    }

    /**
     * The `onstop` handler as evidently intended: it also clears the recording
     * flag, so the start button comes back however the recording ended.
     */
    method RecorderStoppedClearingFlag(reply: AudioReply) returns (request: InterviewRoute.Request)
      requires Valid() && stopPending
      modifies this`status, this`statusLog, this`transcript, this`error, this`utterances, this`stopPending, this`isRecording
      ensures Valid() && !stopPending && !isRecording && status == Idle
      ensures StartShown() && StartEnabled()
      ensures request == AudioRequest(sessionId, Concat(chunks))
      ensures chunks == old(chunks) && recorder == old(recorder)
      ensures reply.Answered? ==>
        && transcript == old(transcript) + [Message(User, reply.question), Message(Assistant, reply.answer)]
        && statusLog == old(statusLog) + [Thinking, Speaking, Idle]
        && error == old(error)
        && utterances == old(utterances) + (if speechAvailable then [reply.answer] else [])
      ensures !reply.Answered? ==>
        && transcript == old(transcript)
        && statusLog == old(statusLog) + [Thinking, Idle]
        && error == FailureMessage(reply)
        && utterances == old(utterances)
    {
      var audioBlob := Concat(chunks);
      stopPending := false;
      request := ProcessAudio(audioBlob, reply);
      isRecording := false;
    }
  }

  // ---------------------------------------------------------------------------
  // A recording that the browser ends by itself.

  /**
   * The recording is uploaded and answered and the bot is idle, but the
   * recording flag is still set: the stop button stays on screen over an
   * inactive recorder, the start button does not come back, and pressing stop
   * changes nothing.
   */
  method BrowserStopStrandsStopButton(sessionId: string, speechAvailable: bool, reply: AudioReply)
    returns (bot: InterviewBot)
    ensures bot.Valid() && bot.status == Idle && bot.recorder == Some(Inactive)
    ensures bot.StopShown() && !bot.StartShown()
  {
    bot := new InterviewBot(sessionId, speechAvailable);
    bot.StartRecording(Granted);
    bot.RecorderEnded();
    var upload := bot.RecorderStopped(reply);
    bot.StopRecording();
  }

  /** With the flag cleared by the handler, the same run ends with the start button back and enabled. */
  method BrowserStopRecovers(sessionId: string, speechAvailable: bool, reply: AudioReply)
    returns (bot: InterviewBot)
    ensures bot.Valid() && bot.status == Idle && bot.recorder == Some(Inactive)
    ensures bot.StartShown() && bot.StartEnabled() && !bot.StopShown()
  {
    bot := new InterviewBot(sessionId, speechAvailable);
    bot.StartRecording(Granted);
    bot.RecorderEnded();
    var upload := bot.RecorderStoppedClearingFlag(reply);
  }

  // ---------------------------------------------------------------------------
  // What the client's requests mean to the server.

  /** The greeting request takes the server's greeting path, which leaves the session two turns long. */
  lemma GreetingRequestSeedsSession(sessionId: string, history: map<string, seq<InterviewRoute.Turn>>,
                                    t: InterviewRoute.Transcription, g: InterviewRoute.Generation)
    ensures var x := InterviewRoute.Handle(history, GreetingRequest(sessionId), t, g);
      && x.response == InterviewRoute.GreetingReply(InterviewRoute.Greeting, InterviewRoute.GenerateSpeech(InterviewRoute.Greeting))
      && |x.history[InterviewRoute.SessionKey(Some(sessionId))]| == 2
  {
    InterviewRoute.GreetingSeedsSession(history, GreetingRequest(sessionId), t, g);
  }

  /**
   * An upload always carries an audio field, so the server never answers it with
   * 400, even when the recording delivered no data.
   */
  lemma AudioRequestNeverMissing(sessionId: string, audio: seq<byte>, history: map<string, seq<InterviewRoute.Turn>>,
                                 t: InterviewRoute.Transcription, g: InterviewRoute.Generation)
    ensures var x := InterviewRoute.Handle(history, AudioRequest(sessionId, audio), t, g);
      !(x.response.ErrorReply? && x.response.status == InterviewRoute.StatusBadRequest)
  {
  }
}
