# Live medical scribe and patient viewer — Dafny model

This project models the sequential logic inside two small Gradio applications
of the D-BoTT prototype:

* **The live scribe** (`D-BoTT-main/stt_v9.py`). Microphone audio arrives in
  chunks. It is converted to 16 kHz 16-bit PCM and appended to a byte buffer.
  The buffer is cut into 30 ms frames of 960 bytes. A frame is speech when the
  voice-activity detector says so and its RMS volume is above 400. A hysteresis
  state machine (`is_speaking`, `silent_chunks_count`, `speech_buffer`) gathers
  speech into a segment. The segment is closed by the 17th consecutive silent
  frame (`int(0.5 * 1000 / 30)` = 16 silent frames are tolerated). A closed
  segment is transcribed. An accepted transcription is appended to the
  transcript, and then refreshes the structured note, the doctor's preview and
  the "Jarvis" command log. `clear_all` resets the session.
* **The patient viewer** (`D-BoTT-main/fe.py`). An upload handler keeps at most
  the first five files. A lookup finds the first worksheet row whose stripped
  ABHA id equals the stripped query. It shows that row's demographics and its
  summary, with each literal backslash-n turned into a blank line.

Modules:

* `Basics` (basics.dfy): `Option`, bytes, and `Flatten` (`b"".join`).
* `Text` (text.dfy): Python's `strip()`, `in`, `lower()`, `join` and the
  `replace('\\n', '\n\n')` used on summaries.
* `Assistant` (assistant.dfy): the services the scribe calls, and the guards
  around each call. The services are the VAD and RMS probes, the Groq
  transcription and the three Gemini prompts. They are a `Services` record of
  opaque functions, plus two flags that say whether the models were configured.
* `Segmenter` (segmenter.dfy): the session state, the frame step, the frame
  loop, `process_audio_stream`, `clear_all`, and a session as a sequence of UI
  events.
* `PatientViewer` (patients.dfy): `handle_image_upload` and `fetch_patient_data`
  over a sequence of rows.

Behaviours of the code that the model keeps, and proves where it can:

* The no-audio branch of `process_audio_stream` returns the transcript
  unstripped. The audio branch strips it.
* Any transcription that contains `Error` anywhere is dropped. This includes
  ordinary speech that uses the word.
* Closing a segment does not reset the silence count. An idle segmenter
  therefore holds a count of 0 or 17.
* A query of spaces only is not the empty query. It is looked up, and it
  matches rows whose id is blank (`PatientViewer.BlankQueryIsLookedUp`).

## Model

| member | source | states |
|---|---|---|
| Segmenter.FrameConstants | D-BoTT-main/stt_v9.py:31-36 | the frame size 960 is `CHUNK_SIZE * 2` with `CHUNK_SIZE = int(16000 * 30 / 1000)`, and the silence limit 16 is `int(0.5 * 1000 / 30)` |
| Segmenter.OnlyLoudSpeechWakes | D-BoTT-main/stt_v9.py:155-165 | an idle segmenter changes state exactly when the probe succeeded, the VAD said speech and the volume exceeds 400; a probe that raised, a quiet frame or a rejected one leaves it as it was |
| Segmenter.QuietFrameExtendsSilence | D-BoTT-main/stt_v9.py:155-168 | while speaking, a probe that raised, a quiet frame or one the VAD rejects extends the silent run by one |
| Segmenter.Step | D-BoTT-main/stt_v9.py:160-185 | speech makes the segmenter speak, gathers the frame and resets the silent run; silence while idle changes nothing; silence while speaking gathers the frame, extends the run and closes the segment exactly when the run passes 16, and a step that leaves the segment open changes nothing else; a closing step transcribes the gathered frames plus this one, and when that text t is accepted the transcript gains a space and t, the note and preview are recomputed from the new transcript and t's command, if any, is logged after `▶ `, while a rejected t changes none of these; the transcript only grows by a space and an accepted text, the log only by a command entry, and the note, preview and log change only with the transcript |
| Segmenter.InitialSatisfiesInv | D-BoTT-main/stt_v9.py:123-135 | the fresh session state satisfies the segmenter invariant |
| Segmenter.StepPreservesInv | D-BoTT-main/stt_v9.py:160-185 | each frame step keeps: idle implies empty speech buffer and silent count 0 or 17; speaking implies count at most 16 and fewer silent frames than gathered frames; gathered frames are whole |
| Segmenter.RunPreservesInv | D-BoTT-main/stt_v9.py:152-186 | the invariant holds after any run of whole frames through the loop |
| Segmenter.RunOnlyAppends | D-BoTT-main/stt_v9.py:173-183 | over any run the old transcript is a prefix of the new one and the old command log a prefix of the new log |
| Segmenter.LogTextGrowsByOneLine | D-BoTT-main/stt_v9.py:182-191 | a log that grew by one command displays as the old text plus a newline and the new `▶ ` entry |
| Segmenter.SilenceClosesOnSeventeenth | D-BoTT-main/stt_v9.py:166-169 | after speech, 16 silent frames keep the segment open and gathered, and the 17th closes it and empties the buffer |
| Segmenter.ClosedSegmentLength | D-BoTT-main/stt_v9.py:169-172 | the audio a closing step transcribes (the joined gathered frames plus the closing frame, as `Step`'s contract names it) spans at least 18 frames (speech, then 17 silent frames) |
| Segmenter.DrainAudioBuffer | D-BoTT-main/stt_v9.py:152-154 | the loop leaves fewer than 960 bytes; the frames it consumed, joined in order and followed by the leftover, are the buffer it started with; the state is the fold of the step over those frames |
| Segmenter.SplitFrames | D-BoTT-main/stt_v9.py:152-154 | whole 960-byte frames followed by a short remainder reassemble the buffer |
| Segmenter.SplitUnique | D-BoTT-main/stt_v9.py:152-154 | there is only one way to cut a buffer into whole frames and a remainder shorter than a frame |
| Segmenter.ProcessAudioStream | D-BoTT-main/stt_v9.py:122-193 | a missing state starts fresh; without audio the state is returned as it is and the transcript is shown unstripped; with audio the leftover is under one frame and is the remainder of the extended buffer, and the transcript is shown stripped; the log is the entries joined by newlines; the invariant and the prefix growth of transcript and log are kept |
| Segmenter.HandleStream | D-BoTT-main/stt_v9.py:136-193 | the append-then-loop handler computes exactly the outputs `ProcessAudioStream` describes |
| Segmenter.ClearAll | D-BoTT-main/stt_v9.py:195-202 | the reset shows an empty transcript and log, the opening note and preview, and drops the session state |
| Segmenter.ClearThenIdleShowsSameTexts | D-BoTT-main/stt_v9.py:123-144 | a callback without audio after a reset shows the same four texts as the reset |
| Segmenter.SessionStaysSettled | D-BoTT-main/stt_v9.py:245-255 | under any sequence of audio callbacks and resets, every session state satisfies the invariant and holds less than a frame of audio |
| Assistant.TranscriptText | D-BoTT-main/stt_v9.py:55-76 | the service's text is passed through (empty if the member is missing); a failed request becomes a message containing `Error` |
| Assistant.FailedTranscriptionRejected | D-BoTT-main/stt_v9.py:72-73 | a failed transcription is never accepted into the transcript |
| Segmenter.RejectedSegmentChangesNothingVisible | D-BoTT-main/stt_v9.py:171-185 | a silent step while speaking whose transcription is blank or mentions `Error` leaves the transcript, note, preview and command log unchanged |
| Segmenter.FailedRequestChangesNothingVisible | D-BoTT-main/stt_v9.py:72-73 | a silent step while speaking whose transcription request failed leaves the transcript, note, preview and command log unchanged |
| Segmenter.PublishedTranscriptNotBlank | D-BoTT-main/stt_v9.py:173-181 | the transcript after an accepted segment always has visible text, so a configured scribe or doctor model is always asked, and its reply or error text is what is shown |
| Segmenter.RepeatedScribeFailures | D-BoTT-main/stt_v9.py:86-91 | when every scribe call fails, k accepted segments leave the old note followed by k `[Scribe Error]` markers |
| Assistant.SummaryUpdate | D-BoTT-main/stt_v9.py:78-91 | the previous note is kept when the model is not configured or the transcript is blank; a failed call keeps it and adds the error marker after it; otherwise the reply replaces it |
| Assistant.DoctorPreview | D-BoTT-main/stt_v9.py:93-105 | the waiting message when the model is not configured or the transcript is blank, the assistant error on a failed call, otherwise the reply |
| Assistant.JarvisCommand | D-BoTT-main/stt_v9.py:107-120 | no command unless the model is configured and "jarvis" occurs in any case; then a command exactly when the call succeeds and its stripped reply is neither empty nor `[NO_COMMAND]`; a command is stripped and visible |
| Assistant.WakeWordAnyCase | D-BoTT-main/stt_v9.py:108 | "JARVIS" and "Jarvis" anywhere in a segment count as the wake word |
| Text.Strip | D-BoTT-main/fe.py:60-61 | the result is the input minus its leading and trailing whitespace runs; it is empty exactly when the input is blank |
| Text.StripUnique | D-BoTT-main/fe.py:60-61 | any trimmed core between blank margins is what strip returns |
| Text.StripIdempotent | D-BoTT-main/fe.py:60 | stripping an already stripped id changes nothing |
| Text.StripIgnoresPadding | D-BoTT-main/fe.py:60-61 | blank margins added on either side do not change the stripped text |
| Text.ContainsAt | D-BoTT-main/stt_v9.py:108 | a substring occurrence at any index makes `in` true |
| Text.ContainsWitness | D-BoTT-main/stt_v9.py:173 | `in` being true yields an index of an occurrence |
| Text.JoinAppend | D-BoTT-main/stt_v9.py:191 | joining one more entry adds exactly one separator and that entry |
| Text.ExpandEscapedNewlines | D-BoTT-main/fe.py:85 | the summary keeps its length, changes only backslash and `n` characters, each into a newline, and has no backslash-n left |
| Text.ExpandSplitsAtEscape | D-BoTT-main/fe.py:85 | each literal backslash-n becomes exactly two newlines and the text on both sides of it is expanded independently |
| Text.ExpandWithoutEscapesIsIdentity | D-BoTT-main/fe.py:85 | a summary without a literal backslash-n is shown unchanged |
| Text.ExpandIdempotent | D-BoTT-main/fe.py:85 | expanding an expanded summary changes nothing |
| PatientViewer.HandleImageUpload | D-BoTT-main/fe.py:98-111 | no files or an empty list clear the gallery; otherwise the gallery holds min(n, 5) paths, the i-th being the i-th file's name |
| PatientViewer.ExtraUploadsIgnored | D-BoTT-main/fe.py:105-107 | files after the fifth never change the gallery |
| PatientViewer.ReuploadingKeptFilesIsStable | D-BoTT-main/fe.py:105-110 | uploading only the kept files again shows the same gallery |
| PatientViewer.FindFirst | D-BoTT-main/fe.py:63-70 | the index returned is of a matching row with no match before it; none is returned only if no row matches |
| PatientViewer.FetchPatientData | D-BoTT-main/fe.py:37-93 | an empty id or no matching row gives both placeholders; otherwise the first matching row in sheet order is shown, with the stripped id and a summary with no backslash-n left |
| PatientViewer.FirstMatchIsFound | D-BoTT-main/fe.py:64-70 | a matching row with no match before it is the row selected |
| PatientViewer.QueryPaddingIgnored | D-BoTT-main/fe.py:60-64 | whitespace around a non-empty query never changes the result |
| PatientViewer.SameStrippedQuerySameRow | D-BoTT-main/fe.py:61-64 | queries that strip to the same text select the same row |
| PatientViewer.StoredPaddingIgnored | D-BoTT-main/fe.py:60-64 | whitespace around a stored id never changes the result |
| PatientViewer.LaterRowsIgnored | D-BoTT-main/fe.py:70 | rows after a matching row never change what is shown |
| PatientViewer.MissingColumnsShowFallbacks | D-BoTT-main/fe.py:75-85 | each of the eight demographic columns that is missing shows `N/A` regardless of the other columns, and a missing summary column the fixed "no summary" text |
| PatientViewer.BlankQueryIsLookedUp | D-BoTT-main/fe.py:45-64 | a whitespace-only query passes the emptiness guard and matches a row whose id is blank |

## Left out

- Resampling with librosa and the float to int16 conversion (stt_v9.py:145-150) are floating-point numerics. Audio enters the model as the already converted PCM bytes (`AudioInput.Pcm`).
- The internals of webrtcvad and `audioop.rms` are foreign libraries. A `Classification` oracle per frame stands in for them, and the detector is treated as stateless.
- The Groq HTTP request, the temporary file and its removal (stt_v9.py:55-76) are network and file I/O. Only the returned text, or the failure message, is modelled.
- The Gemini calls (stt_v9.py:78-120) are network I/O. Each reply is an opaque function of the inputs that vary: the previous note and the transcript, the transcript, or the segment. The fixed prompt texts are folded into those functions. Console printing is not modelled.
- `asyncio.gather` (stt_v9.py:180) is concurrency. The three calls are applied one after another to the same inputs, which gives the same results.
- Prompt-file loading, API keys, model configuration and process exit (stt_v9.py:15-53, 257-264) are start-up I/O. They show up only as the `scribeReady` and `doctorReady` flags. The Jarvis extractor shares the doctor's flag because it uses the same model object.
- `lower()` folds only ASCII capitals. This does not change the wake-word test. Only two non-ASCII characters have a lower case that contains an ASCII letter. U+212A (KELVIN SIGN) lowers to `k`, which does not occur in "jarvis". U+0130 lowers to `i` followed by U+0307, so the `i` it yields is never followed by the `s` of "jarvis".
- A `stream` that is itself `None`, rather than a pair with a `None` member, is not an input of the model. Line 136 of stt_v9.py unpacks it before any check, so the callback raises `TypeError` and the session state is not updated. `AudioInput.NoAudio` stands only for a pair with a missing member.
- `last_gemini_word_count` is created and never used. It is kept in the state unchanged.
- Gradio layout and event wiring, `gr.Warning`, `gr.Error` and `asyncio.sleep` are UI and latency (both files). A session is modelled as a sequence of UI events.
- gspread authentication and the pandas DataFrame (fe.py:11-31, 50-57) are left out. The worksheet is a sequence of rows, each a map from column name to the cell rendered as a string. A DataFrame's shape (every row has the same columns) is not imposed. A missing `abha_id` column makes no row match, which gives the same placeholders as the source's `KeyError` path. Other exceptions raised while reading the sheet also give the placeholders in the source, but they are not represented.
- The multi-line markdown layout of the demographics block (fe.py:73-82) is left out. It is modelled as a record of the eight fields, each falling back to `N/A`.
- The document upload pipeline and report extraction of the wider application (the `Google Sheet Integration` directory) are not part of this model.
