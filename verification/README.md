# Speech-to-text pipeline: verified model of the glue logic

This project models, in Dafny, the exact rules a small speech-to-text pipeline
applies around its third-party calls: how decoded audio is normalised,
trimmed and cut into chunks; how a short input is padded before it reaches the
acoustic model; how chunk transcripts are assembled; when the hosted language
model is asked to correct the transcript and what happens when it fails; and
how the command-line entry point names its output file.

The audio decoders, the pretrained acoustic model (with its greedy decoding)
and the hosted chat model are oracles: function-typed parameters that return
`Ok(value)` or `Err(message)`. Samples are exact reals.

Modules, one per source file plus shared helpers:

- `Wrappers` (`wrappers.dfy`): `Result` (value or error message) and `Option`.
- `Config` (`config.dfy`): sample rate 16000, chunk duration 30 s, maximum
  unchunked length 300 s (4,800,000 samples), chat model name.
- `Text` (`text.dfy`): Python's `str.strip()`, `sep.join(...)` and
  `str.split(sep)`.
- `AudioProcessor` (`audio_processor.dfy`): three-tier loading, peak
  normalisation guard, silence trimming, chunking.
- `SpeechRecognizer` (`speech_recognizer.dfy`): padding, single transcription,
  chunk transcription and assembly.
- `GroqIntegration` (`groq_integration.dfy`): correction and summary requests
  with their fallbacks.
- `Pipeline` (`pipeline.dfy`): the orchestrator, its stage trace and the
  command-line entry point.

Three behaviours of the code deserve attention; the model keeps each of them
as written:

- Preprocessing an empty sequence fails, because `np.max` of an empty array
  raises (`audio_processor.py:91`).
- Silence trimming slices `a[first:last]` with an exclusive upper bound
  (`audio_processor.py:106-108`), so the last loud sample is always dropped.
  Preprocessing is therefore not idempotent, even on input that is already
  normalised and already trimmed. `PreprocessNotIdempotentOnTrimmedInput`
  exhibits `[1.0, 0.5]`, which preprocesses to `[1.0]`.
- Chunking drops a trailing window only when it is at most one second long.
  So when a window is longer than one second, chunking loses at most one
  second at the end.

The stage trace (`Pipeline.Stage`) records the progress points the
orchestrator announces: loading, preprocessing, chunking, transcribing whole or
per chunk, post-processing. It makes the order of steps and the two decisions
observable.

## Model

| member | source | states |
|---|---|---|
| `Text.Strip` | groq_integration.py:32 | the result is what removing a whitespace prefix and suffix leaves, with no whitespace left at either end (`StripsTo`); it is empty exactly when the input is all whitespace |
| `Text.StripUnique` | groq_integration.py:32 | any string that `StripsTo` describes equals `Strip`'s result, so the reference meaning determines stripping completely |
| `Text.JoinSplit` | speech_recognizer.py:66 | splitting a string at the separator and joining the fields back restores it |
| `Text.SplitJoin` | speech_recognizer.py:66 | joining at least one separator-free piece and splitting again gives back exactly those pieces, in order |
| `Text.JoinLength` | speech_recognizer.py:66 | a join is as long as its pieces plus one separator between each pair of neighbours |
| `Text.JoinPositions` | speech_recognizer.py:66 | each piece appears in the join at its offset (the lengths of the earlier pieces plus one separator after each), and the separator sits just before every piece but the first, whatever the pieces contain |
| `AudioProcessor.TryDecoders` | audio_processor.py:42-82 | decoders are tried in order and the first success is returned, after only failures; the load fails exactly when every tier fails, and the error keeps only the last tier's message behind a fixed prefix |
| `AudioProcessor.LoadAudio` | audio_processor.py:42-82 | the primary decoder wins if it succeeds, then the sound-file reader, then the codec-tool reader; if all fail, the error is "All audio loading methods failed: " plus the last message |
| `AudioProcessor.MaxAbs` | audio_processor.py:91 | the peak bounds every sample's magnitude and is reached by some sample |
| `AudioProcessor.Normalize` | audio_processor.py:90-93 | with a zero peak nothing is divided: the input comes back unchanged and is all zeros; with a positive peak every sample is divided by the peak |
| `AudioProcessor.NormalizeBounds` | audio_processor.py:90-93 | after normalising a recording with a non-zero peak, every sample lies within [-1, 1] and some sample has magnitude exactly 1 |
| `AudioProcessor.NormalizedPeakIsLoud` | audio_processor.py:91-103 | a recording with a non-zero sample still has a sample above the silence threshold after normalisation, so trimming always finds a loud sample |
| `AudioProcessor.LoudIndices` | audio_processor.py:103 | the indices listed are exactly those of the samples above the threshold, in strictly increasing order |
| `AudioProcessor.RemoveSilence` | audio_processor.py:100-110 | input without a loud sample is returned unchanged; otherwise the result is `a[first..last]` for the first and last loud indices, and it is strictly shorter than the input |
| `AudioProcessor.RemoveSilenceShape` | audio_processor.py:105-108 | the trimmed result has length `last - first`, starts at the first loud sample when non-empty, and matches the input sample by sample from `first` |
| `AudioProcessor.SingleLoudSampleTrimsToEmpty` | audio_processor.py:105-108 | when exactly one sample is loud, trimming returns the empty sequence |
| `AudioProcessor.RemoveSilenceNotIdempotent` | audio_processor.py:106-108 | trimming `[1, 1, 1]` gives `[1, 1]`, and trimming again gives `[1]` |
| `AudioProcessor.Preprocess` | audio_processor.py:84-98 | fails exactly on empty input, with the empty-reduction message; all-zero input comes back unchanged; the result is never longer than the input, and strictly shorter when any sample is non-zero |
| `AudioProcessor.PreprocessNotIdempotentOnTrimmedInput` | audio_processor.py:84-110 | `[1.0, 0.5]` is already peak-normalised and starts and ends loud, yet preprocessing shortens it to `[1.0]` |
| `AudioProcessor.ChunkFromCount` | audio_processor.py:117-120 | the number of kept windows is `n / cs`, plus one when `n % cs > sr`, and zero when `cs <= sr` |
| `AudioProcessor.ChunkFromShape` | audio_processor.py:117-118 | the k-th kept window is the slice starting `k * cs` samples in, clipped at the end of the input |
| `AudioProcessor.ChunkFromLengths` | audio_processor.py:118-120 | every kept window is longer than `sr` and at most `cs` samples long |
| `AudioProcessor.ChunkFromPrefix` | audio_processor.py:117-122 | the kept windows concatenated are a prefix of the input |
| `AudioProcessor.ChunkFromLoss` | audio_processor.py:117-122 | when a full window is longer than `sr`, at most `sr` trailing samples are missing from the concatenation |
| `AudioProcessor.ChunkAudio` | audio_processor.py:112-122 | a zero window size fails as `range` does and a negative one gives no chunks; for a positive size the chunks are the consecutive windows `a[k*cs .. min(k*cs+cs, n)]`, there are `KeptCount` of them, and each is longer than one second and at most one window long |
| `AudioProcessor.ChunksFormPrefix` | audio_processor.py:117-122 | chunking only loses a tail: the chunks concatenated are a prefix of the input, missing at most one second when a window is longer than one second |
| `SpeechRecognizer.PadToOneSecond` | speech_recognizer.py:25-26 | input shorter than one second is right-padded with zeros to exactly one second, with the original samples kept as a prefix; longer input is unchanged |
| `SpeechRecognizer.ModelInputAtLeastOneSecond` | speech_recognizer.py:25-26 | the model is always given at least 16000 samples: exactly 16000 for short input, the input length otherwise |
| `SpeechRecognizer.TranscribeAudio` | speech_recognizer.py:17-50 | succeeds exactly when the model succeeds on the padded input, with the model's text; a model failure becomes "Transcription error: " plus its message |
| `SpeechRecognizer.ChunkText` | speech_recognizer.py:58-64 | a chunk contributes its transcript, or the empty string when its transcription fails |
| `SpeechRecognizer.ChunkTexts` | speech_recognizer.py:56-64 | one text per chunk, in chunk order; a failure does not stop the later chunks |
| `SpeechRecognizer.TranscribeChunks` | speech_recognizer.py:52-66 | no chunks give the empty string; each chunk's text, failed chunks included as "", appears in chunk order at its offset, with a single space before every chunk text but the first and nothing else in between, so the length is the total of the texts plus one per gap |
| `SpeechRecognizer.TranscribeChunksSplits` | speech_recognizer.py:54-66 | splitting the assembled transcript at spaces gives back exactly the per-chunk texts in order, when no chunk text contains a space |
| `SpeechRecognizer.MiddleChunkFailure` | speech_recognizer.py:58-66 | three chunks whose middle one fails give `t1 + "  " + t3` |
| `GroqIntegration.ExtractEmbed` | groq_integration.py:11-19 | the text placed in a prompt can be read back verbatim from between the fixed head and tail |
| `GroqIntegration.CorrectionRequest` | groq_integration.py:11-30 | the user prompt carries the transcript verbatim after "Transcription: "; the request uses the configured model, the correction system message, temperature 0.1 and at most 1000 tokens |
| `GroqIntegration.SummaryRequest` | groq_integration.py:40-57 | the user prompt carries the text verbatim; the request uses the summary system message, temperature 0.1 and at most 500 tokens |
| `GroqIntegration.CorrectTranscription` | groq_integration.py:9-36 | on failure the transcript comes back exactly as given; on success the model's content comes back with surrounding whitespace removed |
| `GroqIntegration.SummarizeText` | groq_integration.py:38-63 | on failure the result is "Summary not available"; on success the model's content comes back stripped |
| `Pipeline.Finish` | main.py:45-51 | correction is requested exactly when enabled and the transcript is not blank; the stage list gains post-processing only then; otherwise the raw transcript is returned unchanged |
| `Pipeline.ProcessAudioFile` | main.py:19-57 | the stages start with loading and follow the fixed order; any failure in load, preprocess or transcribe yields "Error: " plus its message; a successful transcript is returned raw or corrected according to the correction decision |
| `Pipeline.ChunkingDecision` | main.py:33-40 | chunking happens if and only if the preprocessed audio is longer than 4,800,000 samples; whole transcription if and only if it is not longer |
| `Pipeline.CorrectionDecision` | main.py:45-51 | post-processing happens if and only if transcription succeeded, correction is enabled and the stripped transcript is non-empty |
| `Pipeline.FortyFiveSecondsNotChunked` | main.py:33-40 | a 45-second recording is transcribed whole, not chunked |
| `Pipeline.ChunkedPathChunks` | main.py:33-36 | on the chunked path there are at least ten chunks, each longer than one second and at most 30 seconds |
| `Pipeline.LoadFailureText` | main.py:53-57 | when all decoders fail the run returns "Error: All audio loading methods failed: " plus the last message, after the loading stage only |
| `Pipeline.EmptyAudioText` | main.py:53-57 | audio that decodes to nothing stops at preprocessing with "Error: " plus the empty-reduction message |
| `Pipeline.WholeTranscriptionFailureText` | main.py:38-57 | a model failure on the whole-audio path yields "Error: Transcription error: " plus the model's message |
| `Pipeline.SplitExt` | main.py:89 | root and extension concatenate to the path; a non-empty extension starts with its only dot, contains no separator, and follows a non-dot character of the last component; with no extension, every dot in the last component has only dots before it |
| `Pipeline.OutputFileName` | main.py:89 | the name ends in "_transcription.txt", and what precedes that suffix is the path with exactly its extension removed |
| `Pipeline.OutputFileNameDropsExtension` | main.py:89 | "talk.mp3" becomes "talk_transcription.txt" |
| `Pipeline.OutputFileNameIgnoresDirectoryDots` | main.py:89 | "dir.v2/audio" becomes "dir.v2/audio_transcription.txt" |
| `Pipeline.OutputFileNameKeepsDotFile` | main.py:89 | "rec/.wav" becomes "rec/.wav_transcription.txt" |
| `Pipeline.OutputFileNameWindows` | main.py:89 | with Windows separators "a\b.c" becomes "a\b_transcription.txt" |
| `Pipeline.RunCli` | main.py:59-89 | a missing input yields only the not-found message and nothing is run; otherwise the pipeline's result is saved under the derived name, with correction on unless disabled |
| `Pipeline.NoCorrectionFlag` | main.py:62-78 | with correction disabled on the command line, post-processing never happens |
| `Pipeline.ModelOptionIgnored` | main.py:63 | the model-name option does not change the outcome |

## Left out

- Audio decoding, resampling, channel averaging and the 16-bit scaling inside the three loaders: each loader is an oracle returning mono samples or a message.
- Multi-channel averaging in preprocessing: loaded audio is modelled as mono, since the averaging axis depends on array layout.
- Floating-point arithmetic: samples are exact reals, so rounding in the division by the peak and in the threshold comparison is not modelled.
- The `threshold` parameter of silence removal: only its default, 0.01, is used anywhere, and only that is modelled.
- A non-integer chunk duration and its `int(...)` truncation: chunk sizes are integers in samples.
- Tensor conversion, device selection, model inference, argmax and batch decoding: the acoustic model is an oracle from padded samples to text.
- The network call and client of the chat model: an oracle from a request to the first choice's content. A missing content field counts as a failure.
- Log lines, tracebacks, timing and progress output: only the stage points are kept, as the stage trace.
- Writing the output file and the error handling around it, and the argument parser's own errors such as a missing `--audio`.
- Construction of the pipeline objects, which loads the pretrained model and can fail before any file is processed.
- Exceptions outside the ordinary exception hierarchy, such as a keyboard interrupt.
- The web interface (`app.py`), the codec-tool download helper (`ffmpeg_downloader.py`), codec-tool path probing, `save_audio` and `convert_to_tensor`: user interface, file system and network, with no rules of their own.
- Configuration beyond the three numbers and the chat model name. The configuration embeds a default API key as a fallback (`config.py:14`); that is a secret-exposure issue and is not modelled.
- Byte-string paths in `os.path.splitext`: paths are text; the separator set is a parameter, covering the POSIX and Windows variants.
