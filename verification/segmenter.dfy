/** The live speech segmenter of stt_v9.py: incoming 16-bit PCM at 16 kHz is
    cut into 30 ms frames, each frame is classified as speech or not, and a
    hysteresis state machine gathers speech into a segment that is closed
    after a run of silent frames, transcribed, and appended to the running
    transcript together with a refreshed note, preview and command log. */
module Segmenter {
  import opened Basics
  import opened Text
  import opened Assistant

  const TargetSampleRate: nat := 16000
  const ChunkDurationMs: nat := 30
  const SilenceDurationMs: nat := 500
  /** Bytes per frame: 480 samples (`CHUNK_SIZE`) of two bytes each. */
  const FrameBytes: nat := 960
  /** Silent frames tolerated inside a segment (`int(0.5 * 1000 / 30)`). */
  const SilenceLimit: nat := 16
  /** Minimum RMS volume of a speech frame. */
  const Threshold: int := 400
  /** Prefix of every entry in the command log. */
  const CommandMarker: string := "\U{25B6} "
  const InitialSummary: string := "### Live Medical Note\n\n*Awaiting conversation...*"
  const InitialPreview: string := "### Doctor's Assistant\n\n*Awaiting conversation...*"

  /** The frame size and the silence limit are what the source's formulas give:
      `CHUNK_SIZE * 2` with `CHUNK_SIZE = int(16000 * 30 / 1000)`, and
      `int(0.5 * 1000 / 30)` (positive operands, so truncation is floor). */
  lemma FrameConstants()
    ensures FrameBytes == (TargetSampleRate * ChunkDurationMs / 1000) * 2
    ensures SilenceLimit == SilenceDurationMs / ChunkDurationMs
  {
  }

  /** The per-session dictionary; the VAD object itself lives in `Services`. */
  datatype StreamState = StreamState(
    isSpeaking: bool,
    silentChunksCount: nat,
    audioBuffer: Bytes,
    speechBuffer: seq<Bytes>,
    fullTranscription: string,
    lastGeminiWordCount: nat,
    currentSummary: string,
    doctorPreview: string,
    jarvisCommands: seq<string>)

  /** The state created when the session has none yet. */
  const Initial: StreamState := StreamState(
    false, 0, [], [], "", 0, InitialSummary, InitialPreview, [])

  /** A frame counts as speech only if the VAD says so AND its volume is above
      the threshold; a probe that raised counts as silence. */
  predicate IsSpeechFrame(c: Classification)
  {
    match c
    case Measured(isSpeech, volume) => isSpeech && volume > Threshold
    case ClassifierFault => false
  }

  /** Closing a segment: transcribe the gathered audio and, when the text is
      accepted, extend the transcript and refresh the note, the preview and the
      command log; in every case stop speaking and drop the gathered frames. */
  function CloseSegment(s: StreamState, svc: Services): (r: StreamState)
  {
    var newTrans := TranscriptText(svc.transcribe(Flatten(s.speechBuffer)));
    var s' := if Accepted(newTrans) then Publish(s, newTrans, svc) else s;
    s'.(isSpeaking := false, speechBuffer := [])
  }

  /** The effect of an accepted segment on the visible outputs. The three model
      calls are issued together with the extended transcript. */
  function Publish(s: StreamState, newTrans: string, svc: Services): StreamState
  {
    var full := s.fullTranscription + " " + newTrans;
    var cmd := JarvisCommand(svc, newTrans);
    s.(fullTranscription := full,
       currentSummary := SummaryUpdate(svc, full, s.currentSummary),
       doctorPreview := DoctorPreview(svc, full),
       jarvisCommands := match cmd
         case Some(c) => s.jarvisCommands + [CommandMarker + c]
         case None => s.jarvisCommands)
  }

  /** `after` is `before`, or `before` followed by a space and an accepted segment. */
  predicate ExtendsByAccepted(before: string, after: string)
  {
    after == before
    || (|after| > |before| && after[..|before| + 1] == before + " " && Accepted(after[|before| + 1..]))
  }

  /** A log entry produced by an accepted Jarvis command. */
  predicate IsCommandEntry(entry: string)
  {
    StartsWith(entry, CommandMarker) && IsCommand(entry[|CommandMarker|..])
  }

  /** The command log is unchanged, or grew by one command entry at the end. */
  predicate LogGrowsByCommand(before: seq<string>, after: seq<string>)
  {
    after == before
    || (|after| == |before| + 1 && after[..|before|] == before && IsCommandEntry(after[|before|]))
  }

  /** One pass of the frame loop body for one 960-byte frame. */
  function Step(s: StreamState, frame: Bytes, svc: Services): (r: StreamState)
    // the frame loop never touches the undivided remainder or the unused word count
    ensures r.audioBuffer == s.audioBuffer && r.lastGeminiWordCount == s.lastGeminiWordCount
    // speech: speaking, frame gathered, silence run reset
    ensures IsSpeechFrame(svc.classify(frame)) ==>
              r == s.(isSpeaking := true, speechBuffer := s.speechBuffer + [frame], silentChunksCount := 0)
    // silence while idle: nothing at all changes
    ensures !IsSpeechFrame(svc.classify(frame)) && !s.isSpeaking ==> r == s
    // silence while speaking: frame gathered, run extended, segment closed exactly past the limit
    ensures !IsSpeechFrame(svc.classify(frame)) && s.isSpeaking ==>
              && r.silentChunksCount == s.silentChunksCount + 1
              && (r.isSpeaking <==> s.silentChunksCount + 1 <= SilenceLimit)
              && (r.isSpeaking ==> r == s.(speechBuffer := s.speechBuffer + [frame], silentChunksCount := r.silentChunksCount))
              && (!r.isSpeaking ==> r.speechBuffer == [])
    // a closing step transcribes every gathered frame plus this one; an accepted text t
    // is appended after a space, refreshes the note and preview from the new
    // transcript, and logs t's command if it has one; a rejected text changes nothing visible
    ensures !IsSpeechFrame(svc.classify(frame)) && s.isSpeaking && !r.isSpeaking ==>
              var t := TranscriptText(svc.transcribe(Flatten(s.speechBuffer + [frame])));
              && r.fullTranscription == (if Accepted(t) then s.fullTranscription + " " + t else s.fullTranscription)
              && r.currentSummary == (if Accepted(t) then SummaryUpdate(svc, r.fullTranscription, s.currentSummary) else s.currentSummary)
              && r.doctorPreview == (if Accepted(t) then DoctorPreview(svc, r.fullTranscription) else s.doctorPreview)
              && r.jarvisCommands == (if Accepted(t) && JarvisCommand(svc, t).Some?
                                      then s.jarvisCommands + [CommandMarker + JarvisCommand(svc, t).value]
                                      else s.jarvisCommands)
    // the transcript only ever grows by " " + an accepted segment, and only a grown
    // transcript brings a new note, preview or command
    ensures ExtendsByAccepted(s.fullTranscription, r.fullTranscription)
    ensures LogGrowsByCommand(s.jarvisCommands, r.jarvisCommands)
    ensures r.fullTranscription == s.fullTranscription ==>
              r.currentSummary == s.currentSummary && r.doctorPreview == s.doctorPreview
              && r.jarvisCommands == s.jarvisCommands
  {
    if IsSpeechFrame(svc.classify(frame)) then
      s.(isSpeaking := true, speechBuffer := s.speechBuffer + [frame], silentChunksCount := 0)
    else if s.isSpeaking then
      var s' := s.(speechBuffer := s.speechBuffer + [frame], silentChunksCount := s.silentChunksCount + 1);
      if s'.silentChunksCount > SilenceLimit then
        var newTrans := TranscriptText(svc.transcribe(Flatten(s'.speechBuffer)));
        var r := CloseSegment(s', svc);
        assert Accepted(newTrans) ==> r.fullTranscription[|s.fullTranscription| + 1..] == newTrans;
        assert Accepted(newTrans) ==> r.jarvisCommands != s.jarvisCommands ==>
          r.jarvisCommands[|s.jarvisCommands|][|CommandMarker|..] == JarvisCommand(svc, newTrans).value;
        r
      else s'
    else s
  }

  /** An idle segmenter wakes up only for a frame the VAD calls speech AND whose
      volume is above 400; a probe that raised, a quiet frame or one the VAD
      rejects leaves it exactly as it was. */
  lemma OnlyLoudSpeechWakes(s: StreamState, frame: Bytes, svc: Services)
    requires !s.isSpeaking
    ensures Step(s, frame, svc) != s <==>
              && svc.classify(frame).Measured?
              && svc.classify(frame).isSpeech
              && svc.classify(frame).volume > Threshold
  {
  }

  /** While speaking, such a frame is counted as silence: it extends the silent run. */
  lemma QuietFrameExtendsSilence(s: StreamState, frame: Bytes, svc: Services)
    requires s.isSpeaking
    requires svc.classify(frame).ClassifierFault? || svc.classify(frame).volume <= Threshold
             || !svc.classify(frame).isSpeech
    ensures Step(s, frame, svc).silentChunksCount == s.silentChunksCount + 1
  {
  }

  /** A closing step whose transcription is rejected (blank, or mentioning
      `Error`) leaves the transcript, note, preview and command log as they were;
      only the segment is dropped. */
  lemma RejectedSegmentChangesNothingVisible(s: StreamState, frame: Bytes, svc: Services)
    requires s.isSpeaking && !IsSpeechFrame(svc.classify(frame))
    requires !Accepted(TranscriptText(svc.transcribe(Flatten(s.speechBuffer + [frame]))))
    ensures var r := Step(s, frame, svc);
            && r.fullTranscription == s.fullTranscription
            && r.currentSummary == s.currentSummary
            && r.doctorPreview == s.doctorPreview
            && r.jarvisCommands == s.jarvisCommands
  {
  }

  /** In particular a failed transcription request never changes what is shown. */
  lemma FailedRequestChangesNothingVisible(s: StreamState, frame: Bytes, svc: Services)
    requires s.isSpeaking && !IsSpeechFrame(svc.classify(frame))
    requires svc.transcribe(Flatten(s.speechBuffer + [frame])).RequestFailed?
    ensures var r := Step(s, frame, svc);
            && r.fullTranscription == s.fullTranscription
            && r.currentSummary == s.currentSummary
            && r.doctorPreview == s.doctorPreview
            && r.jarvisCommands == s.jarvisCommands
  {
    FailedTranscriptionRejected(svc.transcribe(Flatten(s.speechBuffer + [frame])).message);
    RejectedSegmentChangesNothingVisible(s, frame, svc);
  }

  /** The transcript an accepted segment produces always has visible text, so
      the note and the preview are then always requested from the models when
      these are configured: the "blank transcript" guards never fire there. */
  lemma PublishedTranscriptNotBlank(s: StreamState, newTrans: string, svc: Services)
    requires Accepted(newTrans)
    ensures var r := Publish(s, newTrans, svc);
            && !IsBlank(r.fullTranscription)
            && (svc.scribeReady && svc.scribe(s.currentSummary, r.fullTranscription).Replied? ==>
                  r.currentSummary == svc.scribe(s.currentSummary, r.fullTranscription).text)
            && (svc.scribeReady && svc.scribe(s.currentSummary, r.fullTranscription).ApiFailure? ==>
                  r.currentSummary == s.currentSummary + ScribeErrorMarker)
            && (svc.doctorReady && svc.doctor(r.fullTranscription).Replied? ==>
                  r.doctorPreview == svc.doctor(r.fullTranscription).text)
            && (svc.doctorReady && svc.doctor(r.fullTranscription).ApiFailure? ==>
                  r.doctorPreview == AssistantError)
  {
    var full := s.fullTranscription + " " + newTrans;
    assert !IsBlank(newTrans);
    var i :| 0 <= i < |newTrans| && !IsSpace(newTrans[i]);
    assert full[|s.fullTranscription| + 1 + i] == newTrans[i];
  }

  /** Accepted segments published one after another, oldest first. */
  function PublishAll(s: StreamState, segments: seq<string>, svc: Services): StreamState
  {
    if |segments| == 0 then s
    else Publish(PublishAll(s, segments[..|segments| - 1], svc), segments[|segments| - 1], svc)
  }

  /** With the scribe model configured but every call failing, each accepted
      segment appends one more error flag: the note keeps its old text followed
      by one `[Scribe Error]` marker per segment. */
  lemma {:induction false} RepeatedScribeFailures(s: StreamState, segments: seq<string>, svc: Services)
    requires svc.scribeReady
    requires forall previous, transcript :: svc.scribe(previous, transcript).ApiFailure?
    requires forall i :: 0 <= i < |segments| ==> Accepted(segments[i])
    ensures PublishAll(s, segments, svc).currentSummary == s.currentSummary + Repeat(ScribeErrorMarker, |segments|)
  {
    if |segments| > 0 {
      var prefix := segments[..|segments| - 1];
      var mid := PublishAll(s, prefix, svc);
      RepeatedScribeFailures(s, prefix, svc);
      PublishedTranscriptNotBlank(mid, segments[|segments| - 1], svc);
      assert PublishAll(s, segments, svc).currentSummary == mid.currentSummary + ScribeErrorMarker;
      assert Repeat(ScribeErrorMarker, |segments|) == Repeat(ScribeErrorMarker, |prefix|) + ScribeErrorMarker;
      Regroup3(s.currentSummary, Repeat(ScribeErrorMarker, |prefix|), ScribeErrorMarker);
    }
  }

  /** The step never reads the undivided remainder of the audio buffer. */
  lemma StepIgnoresAudioBuffer(s: StreamState, rest: Bytes, frame: Bytes, svc: Services)
    ensures Step(s.(audioBuffer := rest), frame, svc) == Step(s, frame, svc).(audioBuffer := rest)
  {
  }

  /** The loop folded over a sequence of frames, oldest first. */
  function RunFrames(s: StreamState, frames: seq<Bytes>, svc: Services): StreamState
  {
    if |frames| == 0 then s
    else Step(RunFrames(s, frames[..|frames| - 1], svc), frames[|frames| - 1], svc)
  }

  /** Every frame is of full size. */
  predicate FullFrames(frames: seq<Bytes>)
  {
    forall i :: 0 <= i < |frames| ==> |frames[i]| == FrameBytes
  }

  /** The segmenter's invariant: an idle segmenter holds no audio and its
      silence count is either untouched (0) or left over from the last close
      (one past the limit, since closing does not reset it); a speaking one is
      within the silence limit and has gathered more frames than its silent run. */
  predicate Inv(s: StreamState)
  {
    && FullFrames(s.speechBuffer)
    && (!s.isSpeaking ==> s.speechBuffer == [] && (s.silentChunksCount == 0 || s.silentChunksCount == SilenceLimit + 1))
    && (s.isSpeaking ==> s.silentChunksCount <= SilenceLimit && s.silentChunksCount < |s.speechBuffer|)
  }

  lemma InitialSatisfiesInv()
    ensures Inv(Initial)
  {
  }

  /** Every frame step preserves the invariant. */
  lemma StepPreservesInv(s: StreamState, frame: Bytes, svc: Services)
    requires Inv(s) && |frame| == FrameBytes
    ensures Inv(Step(s, frame, svc))
  {
  }

  /** Every run of full frames preserves the invariant. */
  lemma {:induction false} RunPreservesInv(s: StreamState, frames: seq<Bytes>, svc: Services)
    requires Inv(s) && FullFrames(frames)
    ensures Inv(RunFrames(s, frames, svc))
  {
    if |frames| > 0 {
      RunPreservesInv(s, frames[..|frames| - 1], svc);
      StepPreservesInv(RunFrames(s, frames[..|frames| - 1], svc), frames[|frames| - 1], svc);
    }
  }

  lemma ExtensionIsPrefix(before: string, after: string)
    requires ExtendsByAccepted(before, after)
    ensures before <= after
  {
    if after != before {
      assert after[..|before|] == (before + " ")[..|before|];
    }
  }

  lemma LogGrowthIsPrefix(before: seq<string>, after: seq<string>)
    requires LogGrowsByCommand(before, after)
    ensures before <= after
  {
  }

  /** Over any run, the earlier transcript is a prefix of the later one, and the
      earlier command log a prefix of the later log. */
  lemma {:induction false} RunOnlyAppends(s: StreamState, frames: seq<Bytes>, svc: Services)
    ensures s.fullTranscription <= RunFrames(s, frames, svc).fullTranscription
    ensures s.jarvisCommands <= RunFrames(s, frames, svc).jarvisCommands
  {
    if |frames| > 0 {
      var mid := RunFrames(s, frames[..|frames| - 1], svc);
      RunOnlyAppends(s, frames[..|frames| - 1], svc);
      var r := Step(mid, frames[|frames| - 1], svc);
      ExtensionIsPrefix(mid.fullTranscription, r.fullTranscription);
      LogGrowthIsPrefix(mid.jarvisCommands, r.jarvisCommands);
    }
  }

  /** On screen, a log that grew by a command shows one more line at the
      bottom (every step's log grows this way, see `Step`). */
  lemma LogTextGrowsByOneLine(before: seq<string>, after: seq<string>)
    requires LogGrowsByCommand(before, after) && after != before
    ensures Join("\n", after)
            == (if before == [] then "" else Join("\n", before) + "\n") + after[|before|]
  {
    var entry := after[|before|];
    assert after == before + [entry];
    if before != [] {
      JoinAppend("\n", before, entry);
    }
  }

  /** Every frame in the sequence is classified as silence. */
  predicate AllSilent(frames: seq<Bytes>, svc: Services)
  {
    forall i :: 0 <= i < |frames| ==> !IsSpeechFrame(svc.classify(frames[i]))
  }

  /** After a speech frame, the segment stays open through 16 silent frames
      (gathering each of them) and is closed by the 17th. */
  lemma {:induction false} SilenceClosesOnSeventeenth(s: StreamState, frames: seq<Bytes>, svc: Services)
    requires s.isSpeaking && s.silentChunksCount == 0
    requires AllSilent(frames, svc) && |frames| <= SilenceLimit + 1
    ensures RunFrames(s, frames, svc).isSpeaking <==> |frames| <= SilenceLimit
    ensures RunFrames(s, frames, svc).silentChunksCount == |frames|
    ensures |frames| <= SilenceLimit ==>
              RunFrames(s, frames, svc) == s.(speechBuffer := s.speechBuffer + frames, silentChunksCount := |frames|)
    ensures |frames| == SilenceLimit + 1 ==> RunFrames(s, frames, svc).speechBuffer == []
  {
    if |frames| > 0 {
      var prefix := frames[..|frames| - 1];
      assert AllSilent(prefix, svc);
      SilenceClosesOnSeventeenth(s, prefix, svc);
      assert s.speechBuffer + prefix + [frames[|frames| - 1]] == s.speechBuffer + frames;
    }
  }

  /** The gathered audio of a segment at the moment it closes always has at
      least one frame of speech before its 17 silent frames. */
  lemma ClosedSegmentLength(s: StreamState, frame: Bytes, svc: Services)
    requires Inv(s) && |frame| == FrameBytes
    requires s.isSpeaking && !IsSpeechFrame(svc.classify(frame)) && s.silentChunksCount == SilenceLimit
    ensures |Flatten(s.speechBuffer + [frame])| >= (SilenceLimit + 2) * FrameBytes
    ensures !Step(s, frame, svc).isSpeaking
  {
    FlattenUniformLength(s.speechBuffer + [frame], FrameBytes);
  }

  /** The frame loop of `process_audio_stream`: peel 960-byte frames off the
      front of the audio buffer, stepping the state machine on each, until
      fewer than 960 bytes remain. */
  method DrainAudioBuffer(s: StreamState, svc: Services) returns (r: StreamState, frames: seq<Bytes>)
    ensures Flatten(frames) + r.audioBuffer == s.audioBuffer
    ensures |r.audioBuffer| < FrameBytes
    ensures FullFrames(frames)
    ensures r == RunFrames(s, frames, svc).(audioBuffer := r.audioBuffer)
  {
    r := s;
    frames := [];
    while |r.audioBuffer| >= FrameBytes
      invariant Flatten(frames) + r.audioBuffer == s.audioBuffer
      invariant FullFrames(frames)
      invariant r == RunFrames(s, frames, svc).(audioBuffer := r.audioBuffer)
      decreases |r.audioBuffer|
    {
      var chunk := r.audioBuffer[..FrameBytes];
      var rest := r.audioBuffer[FrameBytes..];
      FlattenAppend(frames, chunk);
      assert chunk + rest == r.audioBuffer;
      StepIgnoresAudioBuffer(RunFrames(s, frames, svc), rest, chunk, svc);
      r := Step(r.(audioBuffer := rest), chunk, svc);
      assert (frames + [chunk])[..|frames|] == frames;
      frames := frames + [chunk];
    }
  }

  /** The frames the loop cuts from a buffer, and the remainder it leaves. */
  datatype Split = Split(frames: seq<Bytes>, rest: Bytes)

  /** Cutting a buffer into whole frames: the frames, joined in order and
      followed by the remainder, give back the buffer, and the remainder is
      shorter than one frame. */
  function SplitFrames(buf: Bytes): (r: Split)
    ensures Flatten(r.frames) + r.rest == buf
    ensures FullFrames(r.frames) && |r.rest| < FrameBytes
    decreases |buf|
  {
    if |buf| < FrameBytes then Split([], buf)
    else
      var tail := SplitFrames(buf[FrameBytes..]);
      var frames := [buf[..FrameBytes]] + tail.frames;
      FlattenPrepend(buf[..FrameBytes], tail.frames, tail.rest);
      assert frames[1..] == tail.frames;
      Split(frames, tail.rest)
  }

  /** Those three properties pin the split down: there is only one way to cut
      a buffer into whole frames and a short remainder. */
  lemma {:induction false} SplitUnique(buf: Bytes, frames: seq<Bytes>, rest: Bytes)
    requires Flatten(frames) + rest == buf
    requires FullFrames(frames) && |rest| < FrameBytes
    ensures SplitFrames(buf) == Split(frames, rest)
    decreases |frames|
  {
    if |frames| > 0 {
      assert buf == frames[0] + (Flatten(frames[1..]) + rest);
      assert buf[..FrameBytes] == frames[0];
      assert buf[FrameBytes..] == Flatten(frames[1..]) + rest;
      SplitUnique(buf[FrameBytes..], frames[1..], rest);
      assert [frames[0]] + frames[1..] == frames;
    }
  }

  /** What the stream handler receives: no audio (either tuple member missing),
      or a chunk already converted to 16 kHz 16-bit PCM bytes. */
  datatype AudioInput = NoAudio | Pcm(samples: Bytes)

  /** The five values handed back to the UI: transcript box, note, preview,
      command log and the session state. */
  datatype Outputs = Outputs(
    transcript: string,
    summary: string,
    preview: string,
    commandLog: string,
    state: Option<StreamState>)

  /** The state a call works on: the session's, or a fresh one. */
  function Resume(st: Option<StreamState>): StreamState
  {
    match st
    case None => Initial
    case Some(s) => s
  }

  /** `process_audio_stream`: without audio the state is only displayed (and
      the transcript is shown unstripped); with audio the bytes are appended to
      the buffer, every whole frame is run through the state machine, and the
      stripped transcript is shown. */
  function ProcessAudioStream(input: AudioInput, st: Option<StreamState>, svc: Services): (out: Outputs)
    ensures out.state.Some?
    ensures out.summary == out.state.value.currentSummary
    ensures out.preview == out.state.value.doctorPreview
    ensures out.commandLog == Join("\n", out.state.value.jarvisCommands)
    ensures input.NoAudio? ==>
              out.state == Some(Resume(st)) && out.transcript == Resume(st).fullTranscription
    ensures input.Pcm? ==>
              && out.transcript == Strip(out.state.value.fullTranscription)
              && |out.state.value.audioBuffer| < FrameBytes
              && out.state.value.audioBuffer == SplitFrames(Resume(st).audioBuffer + input.samples).rest
    ensures Inv(Resume(st)) ==> Inv(out.state.value)
    ensures Resume(st).fullTranscription <= out.state.value.fullTranscription
    ensures Resume(st).jarvisCommands <= out.state.value.jarvisCommands
  {
    var s := Resume(st);
    match input
    case NoAudio =>
      Outputs(s.fullTranscription, s.currentSummary, s.doctorPreview, Join("\n", s.jarvisCommands), Some(s))
    case Pcm(samples) =>
      var filled := s.(audioBuffer := s.audioBuffer + samples);
      var split := SplitFrames(filled.audioBuffer);
      var done := RunFrames(filled, split.frames, svc).(audioBuffer := split.rest);
      RunPreservesInvAndAppends(filled, split.frames, svc);
      Outputs(Strip(done.fullTranscription), done.currentSummary, done.doctorPreview,
              Join("\n", done.jarvisCommands), Some(done))
  }

  lemma RunPreservesInvAndAppends(s: StreamState, frames: seq<Bytes>, svc: Services)
    requires FullFrames(frames)
    ensures Inv(s) ==> Inv(RunFrames(s, frames, svc))
    ensures s.fullTranscription <= RunFrames(s, frames, svc).fullTranscription
    ensures s.jarvisCommands <= RunFrames(s, frames, svc).jarvisCommands
  {
    if Inv(s) { RunPreservesInv(s, frames, svc); }
    RunOnlyAppends(s, frames, svc);
  }

  /** The handler as the program runs it: append, then the frame loop. It
      computes exactly what `ProcessAudioStream` describes. */
  method HandleStream(input: AudioInput, st: Option<StreamState>, svc: Services) returns (out: Outputs)
    ensures out == ProcessAudioStream(input, st, svc)
  {
    var s := Resume(st);
    match input {
      case NoAudio =>
        out := Outputs(s.fullTranscription, s.currentSummary, s.doctorPreview, Join("\n", s.jarvisCommands), Some(s));
      case Pcm(samples) =>
        var filled := s.(audioBuffer := s.audioBuffer + samples);
        var done, frames := DrainAudioBuffer(filled, svc);
        SplitUnique(filled.audioBuffer, frames, done.audioBuffer);
        out := Outputs(Strip(done.fullTranscription), done.currentSummary, done.doctorPreview,
                       Join("\n", done.jarvisCommands), Some(done));
    }
  }

  /** `clear_all`: blank transcript and log, the opening note and preview, and
      no session state, so the next audio starts a fresh session. These are
      exactly the texts a fresh session displays. */
  function ClearAll(): (out: Outputs)
    ensures out.state.None?
    ensures out.transcript == Initial.fullTranscription
    ensures out.summary == Initial.currentSummary
    ensures out.preview == Initial.doctorPreview
    ensures out.commandLog == Join("\n", Initial.jarvisCommands)
  {
    Outputs(
      "",
      "### Live Medical Note\n\n*Awaiting conversation...*",
      "### Doctor's Assistant\n\n*Awaiting conversation...*",
      "",
      None)
  }

  /** After a reset, a callback without audio shows the same four texts as the
      reset itself. */
  lemma ClearThenIdleShowsSameTexts(svc: Services)
    ensures var out := ProcessAudioStream(NoAudio, ClearAll().state, svc);
            && out.transcript == ClearAll().transcript
            && out.summary == ClearAll().summary
            && out.preview == ClearAll().preview
            && out.commandLog == ClearAll().commandLog
  {
  }

  /** The events the UI delivers to a session. */
  datatype UiEvent = AudioArrived(input: AudioInput) | ClearPressed

  /** The session state held by the UI after a sequence of events, starting from none. */
  function Session(events: seq<UiEvent>, svc: Services): Option<StreamState>
  {
    if |events| == 0 then None
    else
      var prev := Session(events[..|events| - 1], svc);
      match events[|events| - 1]
      case AudioArrived(input) => ProcessAudioStream(input, prev, svc).state
      case ClearPressed => ClearAll().state
  }

  /** Between callbacks a session holds less than a frame of unprocessed audio. */
  predicate Settled(s: StreamState)
  {
    Inv(s) && |s.audioBuffer| < FrameBytes
  }

  /** Whatever audio and resets arrive, every state a session ever holds
      satisfies the segmenter invariant and has less than a frame of audio left. */
  lemma {:induction false} SessionStaysSettled(events: seq<UiEvent>, svc: Services)
    ensures Session(events, svc).Some? ==> Settled(Session(events, svc).value)
  {
    if |events| > 0 {
      SessionStaysSettled(events[..|events| - 1], svc);
    }
  }
}
