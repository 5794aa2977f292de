# Voice interview bot: server route and client recorder

The system is a voice interview assistant. The browser records a spoken question and uploads it to
`POST /api/interview`. The server transcribes it, asks a generative model to answer "as" the candidate
whose persona primes every conversation, and keeps each session's turns in a process-wide map.
It returns the answer as text together with a `data:text/plain;base64,` URL. The browser appends the
question and answer to its on-screen transcript and speaks the answer with the platform's speech
synthesis.

The project models both halves:

- `InterviewRoute` (interview_route.dfy) models `app/api/interview/route.ts`.
  - `Handle` is the whole behaviour of `POST` as a function. It maps the old history map, the request
    and what the two external services return to the new history map and the reply.
  - `Route.Post` is the imperative handler over the `conversationHistory` field. It is proved equal to
    `Handle`.
  - `GenerateSpeech` is the answer encoder. `SpeechText` is its inverse, and both round trips are
    proved.
  - The lemmas cover the error paths, the greeting's reset, session isolation and the shape of every
    stored history: the priming pair, then alternating question/answer pairs.
- `Utf8` (utf8.dfy) and `Base64` (base64.dfy) are the two encoders under `GenerateSpeech`.
  - UTF-8 follows RFC 3629 and base64 follows section 4 of RFC 4648 (standard alphabet, padded).
  - Each has a strict decoder, and decoding and encoding are proved inverse in both directions.
- `InterviewClient` (interview_bot.dfy) models `app/components/InterviewBot.tsx` as a class.
  - The fields are the status, the transcript, the error line, the recording flag, the recorder and
    the chunk buffer.
  - One method per handler: `loadGreeting`, `startRecording`, the recorder's `dataavailable` and `stop`
    events, `stopRecording`, `processAudio` and `speakText`.
  - Ghost fields record every status value taken, whether a stopped recorder's upload is still
    pending, and the texts handed to speech synthesis.
  - The invariant `Valid` ties the recording flag, the recorder and the listening status together: a
    recording recorder means the flag is set and the status is listening, and listening means the
    flag is set. It also requires every entry into speaking to be followed by idle.
  - The browser can stop the recorder on its own, when the microphone track ends or the recorder
    fails (`RecorderEnded`). The `stop` handler then runs with the flag still set. Nothing in the
    code clears it, so the stop button stays on screen and start never returns (see "## Findings").

Where the documented behaviour and the code differ, the model follows the code:

- A transcript made only of whitespace is accepted as a question. Only a missing or empty text is
  refused.
- An empty generated answer is accepted and stored.
- An audio field that is present but empty passes the audio check. The client uploads even a recording
  that delivered no data.
- A session first seen on a question is seeded with a shorter acknowledgement than the greeting's.
- The capture stream is released only after the upload has been processed, not when recording stops.
  The release itself is not modelled.
- The client starts idle without waiting for the greeting, and the greeting's playback never changes
  the status.

## Model

| member | source | states |
|---|---|---|
| Utf8.Encode | app/api/interview/route.ts:126 | a text's UTF-8 form takes between one and four bytes per scalar value (`DecodeEncode` and `EncodeDecode` show it is invertible) |
| Utf8.KnownEncodings | app/api/interview/route.ts:126 | one-, two-, three- and four-byte examples (`A`, `é`, the euro sign, an emoji) encode to the bytes RFC 3629 gives them |
| Utf8.EncodeChar | app/api/interview/route.ts:126 | a scalar value's UTF-8 form has the width its range dictates, a valid lead byte and continuation bytes after it |
| Utf8.DecodeEncode | app/api/interview/route.ts:126 | decoding the UTF-8 bytes of any text, the empty and non-ASCII ones included, gives that text back |
| Utf8.EncodeDecode | app/api/interview/route.ts:126 | every byte string the strict decoder accepts is the encoding of what it decodes to, so the UTF-8 form of a text is unique |
| Utf8.DecodeFirstEncodeChar | app/api/interview/route.ts:126 | the decoder reads one encoded scalar value back off the front of any byte string, with its width |
| Utf8.EncodeCharDecodeFirst | app/api/interview/route.ts:126 | a well-formed leading sequence is exactly the encoding of the value it decodes to |
| Base64.Symbol | app/api/interview/route.ts:126 | every 6-bit value is written with a character of the base64 alphabet |
| Base64.Value | app/api/interview/route.ts:126 | a character has a 6-bit value exactly when it is in the alphabet, and that value's symbol is the character |
| Base64.ValueSymbol | app/api/interview/route.ts:126 | the alphabet is a bijection on 6-bit values |
| Base64.Encode | app/api/interview/route.ts:126 | the padded encoding has 4 characters per started group of 3 bytes, all from the alphabet or `=` |
| Base64.Rfc4648ShortVectors | app/api/interview/route.ts:126 | the test vectors of section 10 of RFC 4648 for "", "f", "fo" and "foo" |
| Base64.Rfc4648VectorFoob | app/api/interview/route.ts:126 | the test vector of section 10 of RFC 4648 for "foob" is `Zm9vYg==` |
| Base64.Rfc4648VectorFooba | app/api/interview/route.ts:126 | the test vector of section 10 of RFC 4648 for "fooba" is `Zm9vYmE=` |
| Base64.Rfc4648VectorFoobar | app/api/interview/route.ts:126 | the test vector of section 10 of RFC 4648 for "foobar" is `Zm9vYmFy` |
| Base64.DecodeEncode | app/api/interview/route.ts:126 | decoding the base64 of any byte string gives it back, the empty one included |
| Base64.EncodeDecode | app/api/interview/route.ts:126 | every string the strict decoder accepts is the encoding of what it decodes to |
| InterviewRoute.GenerateSpeech | app/api/interview/route.ts:123-127 | the URL is the `data:text/plain;base64,` prefix followed by a padded base64 payload whose length is fixed by the text's UTF-8 length |
| InterviewRoute.GenerateSpeechExample | app/api/interview/route.ts:123-127 | the answer `Hi` becomes `data:text/plain;base64,SGk=` |
| InterviewRoute.GenerateSpeechPayload | app/api/interview/route.ts:126 | the payload decodes to exactly the UTF-8 bytes of the text |
| InterviewRoute.SpeechTextOfGenerateSpeech | app/api/interview/route.ts:123-127 | reading the URL back yields the text, for every text including the empty one and non-ASCII ones |
| InterviewRoute.GenerateSpeechOfSpeechText | app/api/interview/route.ts:123-127 | every URL that reads back as a text is exactly the URL the encoder makes from that text |
| InterviewRoute.SessionKey | app/api/interview/route.ts:22 | a missing or empty session id selects `default`; any other id is its own key; the key is never empty |
| InterviewRoute.ErrorMessage | app/api/interview/route.ts:113-118 | the error text of a 500 is the thrown error's message when that is non-empty and `Failed to process interview` when it is empty; it is never empty |
| InterviewRoute.TranscribedQuestion | app/api/interview/route.ts:56-67 | a question exists exactly when the transcript's status is not error and its text is present and non-empty; a thrown transcription fails with the thrown message, an error status and a missing text with their own messages |
| InterviewRoute.Handle | app/api/interview/route.ts:18-120 | an error reply leaves the history map as it was and carries a non-empty error; any other reply answers a form, keeps every other key, binds the request's session key, and leaves at least two turns under it |
| InterviewRoute.Route.constructor | app/api/interview/route.ts:16 | the history map starts empty |
| InterviewRoute.Route.Post | app/api/interview/route.ts:18-120 | the new history map and the reply are those `Handle` gives for the old map, the request and the services' outcomes |
| InterviewRoute.GreetingSeedsSession | app/api/interview/route.ts:26-42 | the greeting action, tested before the audio field, sets the session to exactly the two-turn priming pair and replies with the fixed greeting and its URL |
| InterviewRoute.GreetingTwice | app/api/interview/route.ts:29-33 | a second greeting for a session changes nothing: the session still holds two turns |
| InterviewRoute.MissingAudioRejected | app/api/interview/route.ts:44-49 | a non-greeting request without an audio field gets 400 `No audio file provided` and stores nothing |
| InterviewRoute.TranscriptionFailure | app/api/interview/route.ts:56-67 | a thrown, failed or empty transcription gets a 500 with the matching message and stores nothing |
| InterviewRoute.GenerationFailure | app/api/interview/route.ts:89-91 | a failed generation gets a 500 with its message and stores nothing, not even the question |
| InterviewRoute.SuccessfulExchange | app/api/interview/route.ts:82-111 | a successful exchange appends the question then the answer to the session's history (seeded with the short priming pair when new), grows it by two, and replies with question, answer, URL and session key |
| InterviewRoute.ErrorRepliesStoreNothing | app/api/interview/route.ts:44-118 | no error reply comes with a change to the history map |
| InterviewRoute.ErrorStatus | app/api/interview/route.ts:44-118 | an error reply is 400 exactly for a non-greeting form without audio, 500 otherwise, and always carries a non-empty message |
| InterviewRoute.HistoryChangesAtMostOneKey | app/api/interview/route.ts:26-100 | a request rebinds at most its own session key |
| InterviewRoute.OtherSessionsUntouched | app/api/interview/route.ts:26-100 | every other session keeps its presence and its turns |
| InterviewRoute.PrimingPairIsSessionHistory | app/api/interview/route.ts:30-33 | the priming pair with either acknowledgement (the greeting's or the shorter one) is a well-shaped session history |
| InterviewRoute.AppendPairKeepsShape | app/api/interview/route.ts:96-99 | appending a user turn then a model turn keeps a history alternating and in whole pairs |
| InterviewRoute.HandleKeepsWellFormed | app/api/interview/route.ts:26-100 | every request keeps every stored history in the shape: the persona, one of the two acknowledgements, then question/answer pairs |
| InterviewClient.StatusText | app/components/InterviewBot.tsx:152-179 | the label of every busy status ends in `...` and the idle label does not |
| InterviewClient.StatusTextIdentifies | app/components/InterviewBot.tsx:152-179 | each status has its own label: two statuses share a label exactly when they are equal |
| InterviewClient.FailureMessage | app/components/InterviewBot.tsx:106-125 | after a failed upload the error line is the non-ok message, or the thrown message when it is non-empty, or `Failed to process audio. Please try again.` when it is empty; it is never empty |
| InterviewClient.Concat | app/components/InterviewBot.tsx:70 | the uploaded blob is as long as the buffered chunks together |
| InterviewClient.ConcatAt | app/components/InterviewBot.tsx:63-70 | each buffered chunk's bytes sit in the blob, in order, at the offset of the chunks before it |
| InterviewClient.ConcatSkipsEmpty | app/components/InterviewBot.tsx:63-66 | dropping a chunk without data does not change the blob |
| InterviewClient.SpeakingThenIdleAppend | app/components/InterviewBot.tsx:119-122 | logs in which speaking is always followed by idle stay so when joined |
| InterviewClient.InterviewBot.constructor | app/components/InterviewBot.tsx:18-25 | the bot starts idle, not recording, with an empty transcript, no error, no recorder and an empty buffer |
| InterviewClient.InterviewBot.ButtonGating | app/components/InterviewBot.tsx:254-266 | exactly one of start and stop is shown; stop is shown while listening or while the recorder records, and start never is; stop shown in another status means the recorder is already inactive |
| InterviewClient.InterviewBot.SpeakText | app/components/InterviewBot.tsx:131-150 | the text is handed to speech synthesis when the browser offers it, and otherwise nothing happens |
| InterviewClient.InterviewBot.LoadGreeting | app/components/InterviewBot.tsx:32-50 | posts the greeting action with the session id; a reply makes the transcript the greeting alone and speaks it; a failure changes nothing; the status is untouched |
| InterviewClient.InterviewBot.StartRecording | app/components/InterviewBot.tsx:52-82 | on success it clears the error, empties the buffer, installs a recording recorder and enters listening; on each failure it sets the permission message and leaves status and flag alone |
| InterviewClient.InterviewBot.ChunkAvailable | app/components/InterviewBot.tsx:63-67 | a chunk with data is appended to the buffer, an empty one is dropped; either way the blob grows by exactly its bytes |
| InterviewClient.InterviewBot.StopRecording | app/components/InterviewBot.tsx:84-90 | a recording recorder is stopped, recording ends and the status becomes thinking; with no recorder or an inactive one nothing changes |
| InterviewClient.InterviewBot.RecorderEnded | app/components/InterviewBot.tsx:69-73 | the browser stopping a recording recorder makes it inactive with its upload pending and leaves the flag and status alone; otherwise nothing changes |
| InterviewClient.InterviewBot.ProcessAudio | app/components/InterviewBot.tsx:92-129 | runs with no upload pending and the recorder not recording; posts the audio with the session id; an answer appends question and answer, is spoken, and the status runs thinking, speaking, idle; a failure sets the error, keeps the transcript, and runs thinking, idle without speaking |
| InterviewClient.InterviewBot.ShowAnswer | app/components/InterviewBot.tsx:113-122 | the question and the answer are appended to the transcript in that order, the answer is spoken, and the status goes speaking then idle |
| InterviewClient.InterviewBot.ShowFailure | app/components/InterviewBot.tsx:124-126 | the error line is set and the status returns to idle without entering speaking |
| InterviewClient.InterviewBot.RecorderStopped | app/components/InterviewBot.tsx:69-73 | after either kind of stop, the buffered chunks are joined in order into the one upload, which is then processed with the effects of `processAudio` (status thinking then speaking then idle and the answer spoken, or thinking then idle with the error line set); the recording flag and the recorder stay as they were |
| InterviewClient.InterviewBot.RecorderStoppedClearingFlag | app/components/InterviewBot.tsx:69-73 | the corrected handler processes the upload with the same effects on transcript, status, error line and speech, and clears the flag, so start is shown and enabled afterwards |
| InterviewClient.BrowserStopStrandsStopButton | app/components/InterviewBot.tsx:52-90 | a recording the browser ends, followed by the stop handler and a press of stop, leaves the bot idle with stop still shown and start hidden |
| InterviewClient.BrowserStopRecovers | app/components/InterviewBot.tsx:52-90 | the same sequence with the corrected handler leaves start shown and enabled and stop hidden |
| InterviewClient.GreetingRequestSeedsSession | app/components/InterviewBot.tsx:34-36 | the client's greeting request takes the server's greeting path and leaves its session two turns long |
| InterviewClient.AudioRequestNeverMissing | app/components/InterviewBot.tsx:97-99 | an upload always carries the audio field, so the server never answers it with 400 |

## Findings

| source | as written | input that shows it | evidently intended | confidence | as-written member | corrected member |
|---|---|---|---|---|---|---|
| app/components/InterviewBot.tsx:69-73 | the recorder's `stop` handler processes the upload but never clears the recording flag; only `stopRecording` (line 87) does | the browser ends the recording itself (the microphone track ends or the recorder fails) while listening | the handler clears the flag so the start button returns | medium, not executed | InterviewClient.BrowserStopStrandsStopButton | InterviewClient.InterviewBot.RecorderStoppedClearingFlag |

## Left out

- The speech-to-text and generative-model services (`assemblyai.transcripts.transcribe`, `chat.sendMessage`) are not modelled. What each returns to the handler is a parameter of `Handle` and `Route.Post`: a transcript record or a thrown error, and an answer or a thrown error. The model name, the sampling settings (floating point) and the API keys are not modelled.
- The generative model's use of the history passed to `startChat` is not modelled. The history is stored and handed over as a value. In the code the map holds the same array that is pushed to, and the value update has the same effect on the map.
- Concurrency is not modelled. Each `POST` and each client handler is one atomic step. Two overlapping requests for one session, which in the code can lose one pair of turns, are not modelled. Neither is a user action that arrives while a handler awaits.
- Persona text (`YOUR_PERSONAL_INFO`): its content is configuration. `PersonaText` is an arbitrary fixed string.
- A request body that cannot be read as form data is a value `Unreadable(message)`. An `audio` field holding text instead of a file is not modelled: an audio field is either absent or a byte string.
- Console logging on both sides is not modelled.
- Lone UTF-16 surrogates are not modelled. Dafny strings hold Unicode scalar values, and the code's `Buffer.from` would replace a lone surrogate with U+FFFD.
- The browser APIs are not modelled: getUserMedia, MediaRecorder's options, the stream's tracks and their release, the rate, pitch and volume of speech, and `speechSynthesis.cancel`. `MicAccess`, `Chunk` events, `AudioReply` and `GreetingOutcome` stand for what the browser and server hand back. Playback always resolves (on end, on error, or at once), so its outcome is not a parameter.
- The random session id (`Math.random`) is a constructor parameter.
- Rendering is not modelled: the JSX, icons, colours, layout and the fixed sample-question list. Only the status label of `getStatusConfig` and the button gating are modelled.
- The client never decodes `audioUrl`: it speaks `data.answer`. The URL's decoder `SpeechText` exists only to state the encoder's round trip.
- InterviewClient.InterviewBot.LoadGreeting: a greeting reply without an `answer` field puts `undefined` into the transcript in the code. The model's greeting reply always carries a text.
- InterviewClient.InterviewBot.StartRecording: requires that the start button be shown and enabled, as its only caller is that button. A recorder already installed by an earlier recording is replaced and not stopped, and the model records only the replacement.
- What makes the browser stop a recorder is not modelled: the microphone track ending and a recorder failure are the one event `RecorderEnded`.
- InterviewClient.InterviewBot.RecorderStopped models the handler as written, so after a stop started by the browser the model, like the code, leaves the recording flag set. The corrected handler `RecorderStoppedClearingFlag` is stated beside it, and `BrowserStopRecovers` is the sequence that uses it.
