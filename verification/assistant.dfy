/** The remote services of the live scribe (stt_v9.py) and the pure guards
    that sit in front of and behind each call: the transcription wrapper, the
    note summariser, the doctor's preview and the "Jarvis" command extractor.
    Every remote answer is an opaque value supplied by a `Services` record. */
module Assistant {
  import opened Basics
  import opened Text

  /** What one voice-activity/volume probe of a frame produced. */
  datatype Classification =
    | Measured(isSpeech: bool, volume: int)
    | ClassifierFault   // the VAD or the RMS call raised

  /** The HTTP transcription round trip: a JSON body (its "text" member may be
      absent) or any exception on the way. */
  datatype HttpOutcome =
    | Responded(text: Option<string>)
    | RequestFailed(message: string)

  /** One language-model call: the reply text or an exception. */
  datatype Reply = Replied(text: string) | ApiFailure

  /** Everything the segmenter consults but cannot see into. `scribeReady` and
      `doctorReady` say whether the corresponding model object was configured
      at start-up; the Jarvis extractor shares the doctor's model object. */
  datatype Services = Services(
    classify: Bytes -> Classification,
    transcribe: Bytes -> HttpOutcome,
    scribeReady: bool,
    scribe: (string, string) -> Reply,
    doctorReady: bool,
    doctor: string -> Reply,
    jarvis: string -> Reply)

  const TranscriptionErrorOpen: string := "[Transcription Error: "
  const ScribeErrorMarker: string := "\n\n**[Scribe Error]**"
  const AwaitingConversation: string := "Awaiting conversation..."
  const AssistantError: string := "**[Assistant Error]**"
  const NoCommand: string := "[NO_COMMAND]"
  const WakeWord: string := "jarvis"

  /** The string `transcribe_audio_bytes` hands back: the service's text (empty
      when the member is missing), or a bracketed error message. */
  function TranscriptText(outcome: HttpOutcome): (t: string)
    ensures outcome.RequestFailed? ==> Contains(t, "Error")
    ensures outcome.Responded? && outcome.text.Some? ==> t == outcome.text.value
    ensures outcome.Responded? && outcome.text.None? ==> t == ""
  {
    match outcome
    case Responded(text) => (match text case Some(v) => v case None => "")
    case RequestFailed(message) =>
      var t := TranscriptionErrorOpen + message + "]";
      assert t[15..20] == "Error";
      ContainsAt(t, "Error", 15);
      t
  }

  /** A newly transcribed segment is kept only when it is not blank and does not
      mention the word "Error" anywhere. */
  predicate Accepted(newTrans: string)
  {
    Strip(newTrans) != [] && !Contains(newTrans, "Error")
  }

  /** A failed transcription request can never reach the transcript. */
  lemma FailedTranscriptionRejected(message: string)
    ensures !Accepted(TranscriptText(RequestFailed(message)))
  {
  }

  /** `get_gemini_summary_async`: the previous note survives unless the model
      is configured, the transcript has visible text, and the call succeeds; a
      failed call keeps the previous note and flags the error after it. */
  function SummaryUpdate(svc: Services, transcript: string, previous: string): (r: string)
    ensures !svc.scribeReady || IsBlank(transcript) ==> r == previous
    ensures svc.scribeReady && !IsBlank(transcript) ==>
              && (svc.scribe(previous, transcript).ApiFailure? ==>
                    StartsWith(r, previous) && r[|previous|..] == ScribeErrorMarker)
              && (svc.scribe(previous, transcript).Replied? ==> r == svc.scribe(previous, transcript).text)
  {
    if Strip(transcript) == [] || !svc.scribeReady then previous
    else match svc.scribe(previous, transcript)
      case Replied(text) => text
      case ApiFailure => previous + ScribeErrorMarker
  }

  /** `get_doctor_preview_async`: a fixed waiting message without a configured
      model or visible text, a fixed error message on a failed call, otherwise
      the model's reply. */
  function DoctorPreview(svc: Services, transcript: string): (r: string)
    ensures !svc.doctorReady || IsBlank(transcript) ==> r == AwaitingConversation
    ensures svc.doctorReady && !IsBlank(transcript) ==>
              && (svc.doctor(transcript).ApiFailure? ==> r == AssistantError)
              && (svc.doctor(transcript).Replied? ==> r == svc.doctor(transcript).text)
  {
    if Strip(transcript) == [] || !svc.doctorReady then AwaitingConversation
    else match svc.doctor(transcript)
      case Replied(text) => text
      case ApiFailure => AssistantError
  }

  /** The segment names the assistant: "jarvis" in any letter case. */
  predicate MentionsWakeWord(segment: string)
  {
    Contains(Lower(segment), WakeWord)
  }

  /** A command the extractor may hand back: visible, already stripped, and not
      the model's "nothing to do" answer. */
  predicate IsCommand(cmd: string)
  {
    cmd != [] && cmd != NoCommand && Strip(cmd) == cmd
  }

  /** `extract_jarvis_command_async`: no model call unless the wake word occurs
      and the model is configured; the stripped reply is a command unless it is
      empty or `[NO_COMMAND]`; a failed call is no command. */
  function JarvisCommand(svc: Services, segment: string): (cmd: Option<string>)
    ensures !svc.doctorReady || !MentionsWakeWord(segment) ==> cmd.None?
    ensures cmd.Some? ==> IsCommand(cmd.value)
    ensures cmd.Some? <==>
              && svc.doctorReady && MentionsWakeWord(segment)
              && svc.jarvis(segment).Replied?
              && Strip(svc.jarvis(segment).text) != []
              && Strip(svc.jarvis(segment).text) != NoCommand
    ensures cmd.Some? ==> cmd.value == Strip(svc.jarvis(segment).text)
  {
    if !svc.doctorReady || !MentionsWakeWord(segment) then None
    else match svc.jarvis(segment)
      case ApiFailure => None
      case Replied(text) =>
        var c := Strip(text);
        StripIdempotent(text);
        if c == NoCommand || c == [] then None else Some(c)
  }

  /** The wake word is found whatever its capitalisation. */
  lemma WakeWordAnyCase(before: string, after: string)
    ensures MentionsWakeWord(before + "JARVIS" + after)
    ensures MentionsWakeWord(before + "Jarvis" + after)
  {
    var s1 := before + "JARVIS" + after;
    var s2 := before + "Jarvis" + after;
    assert Lower(s1)[|before|..|before| + 6] == WakeWord;
    assert Lower(s2)[|before|..|before| + 6] == WakeWord;
    ContainsAt(Lower(s1), WakeWord, |before|);
    ContainsAt(Lower(s2), WakeWord, |before|);
  }
}
