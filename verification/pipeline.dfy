/** The orchestrator and the command-line entry point: load, preprocess,
    transcribe whole or in chunks, optionally post-process, and save the
    result next to the input file. */
module Pipeline {
  import opened Wrappers
  import Config
  import Text
  import AudioProcessor
  import SpeechRecognizer
  import GroqIntegration

  /** The external collaborators the pipeline is built from. */
  datatype Services = Services(
    decoders: AudioProcessor.Decoders,
    model: SpeechRecognizer.AcousticModel,
    llm: GroqIntegration.ChatModel)

  /** The progress points the pipeline announces, each reached only after
      the previous step succeeded. */
  datatype Stage =
    | Loading
    | Preprocessing
    | Chunking
    | TranscribingChunks(count: nat)
    | TranscribingWhole
    | PostProcessing

  /** What a run returns: the final text and the stages it went through. */
  datatype Report = Report(text: string, stages: seq<Stage>)

  const ErrorPrefix: string := "Error: "

  /** Window size used on the chunked path: 30 s at 16 kHz, 480,000 samples. */
  const ChunkSamples: nat := Config.ChunkDuration * Config.SampleRate

  /** Position of a stage in the fixed order of the pipeline. */
  function Rank(s: Stage): nat {
    match s
    case Loading => 0
    case Preprocessing => 1
    case Chunking => 2
    case TranscribingChunks(_) => 3
    case TranscribingWhole => 3
    case PostProcessing => 4
  }

  /** Stages start with loading and never go back. */
  predicate InPipelineOrder(stages: seq<Stage>) {
    && |stages| > 0
    && stages[0] == Loading
    && forall i, j :: 0 <= i < j < |stages| ==> Rank(stages[i]) < Rank(stages[j])
  }

  /** Loaded and preprocessed audio, or the first failure. */
  function Preprocessed(s: Services, path: string): Result<seq<real>> {
    var audio :- AudioProcessor.LoadAudio(s.decoders, path);
    AudioProcessor.Preprocess(audio)
  }

  /** The transcript before post-processing, or the first failure: long
      audio is cut into chunks whose texts are joined, shorter audio is
      transcribed in one piece. */
  function RawTranscription(s: Services, path: string): Result<string> {
    var pre :- Preprocessed(s, path);
    if |pre| > Config.MaxAudioSamples then
      Ok(SpeechRecognizer.TranscribeChunks(s.model, AudioProcessor.ChunkAudio(pre, ChunkSamples, Config.SampleRate).value))
    else
      SpeechRecognizer.TranscribeAudio(s.model, pre)
  }

  /** Whether the raw transcript is sent for correction. */
  predicate WantsCorrection(useCorrection: bool, raw: string) {
    useCorrection && !Text.AllSpace(raw)
  }

  /** The optional post-processing step that ends a successful run. */
  function Finish(llm: GroqIntegration.ChatModel, raw: string, stages: seq<Stage>, useCorrection: bool): (r: Report)
    requires InPipelineOrder(stages)
    requires forall st :: st in stages ==> Rank(st) < Rank(PostProcessing)
    ensures InPipelineOrder(r.stages)
    ensures forall st :: st in r.stages <==>
              st in stages || (st == PostProcessing && WantsCorrection(useCorrection, raw))
    ensures r.text == if WantsCorrection(useCorrection, raw)
                      then GroqIntegration.CorrectTranscription(llm, raw)
                      else raw
  {
    if useCorrection && Text.Strip(raw) != "" then
      AppendPostProcessing(stages);
      Report(GroqIntegration.CorrectTranscription(llm, raw), stages + [PostProcessing])
    else
      Report(raw, stages)
  }

  lemma AppendPostProcessing(stages: seq<Stage>)
    requires InPipelineOrder(stages)
    requires forall st :: st in stages ==> Rank(st) < Rank(PostProcessing)
    ensures InPipelineOrder(stages + [PostProcessing])
    ensures forall st :: st in stages + [PostProcessing] <==> st in stages || st == PostProcessing
  {
    var t := stages + [PostProcessing];
    forall i, j | 0 <= i < j < |t|
      ensures Rank(t[i]) < Rank(t[j])
    {
      assert t[i] == stages[i];
      if j < |stages| {
        assert t[j] == stages[j];
      }
    }
  }

  /** The two stage lists that reach post-processing are in pipeline order. */
  lemma TranscribedStagesOrdered(n: nat)
    ensures InPipelineOrder([Loading, Preprocessing, Chunking, TranscribingChunks(n)])
    ensures InPipelineOrder([Loading, Preprocessing, TranscribingWhole])
    ensures forall st :: st in [Loading, Preprocessing, Chunking, TranscribingChunks(n)] ==> Rank(st) < Rank(PostProcessing)
    ensures forall st :: st in [Loading, Preprocessing, TranscribingWhole] ==> Rank(st) < Rank(PostProcessing)
  {
    var c := [Loading, Preprocessing, Chunking, TranscribingChunks(n)];
    assert forall i :: 0 <= i < |c| ==> Rank(c[i]) == i;
    var w := [Loading, Preprocessing, TranscribingWhole];
    assert forall i :: 0 <= i < |w| ==> Rank(w[i]) == i + (if i == 2 then 1 else 0);
  }

  /** Runs the whole pipeline on one file. Every failure is turned into an
      error text instead of escaping. */
  function ProcessAudioFile(s: Services, path: string, useCorrection: bool): (r: Report)
    ensures InPipelineOrder(r.stages)
    ensures RawTranscription(s, path).Err? ==> r.text == ErrorPrefix + RawTranscription(s, path).msg
    ensures RawTranscription(s, path).Ok? ==>
              var raw := RawTranscription(s, path).value;
              r.text == if WantsCorrection(useCorrection, raw)
                        then GroqIntegration.CorrectTranscription(s.llm, raw)
                        else raw
  {
    match AudioProcessor.LoadAudio(s.decoders, path)
    case Err(e) => Report(ErrorPrefix + e, [Loading])
    case Ok(audio) =>
      match AudioProcessor.Preprocess(audio)
      case Err(e) => Report(ErrorPrefix + e, [Loading, Preprocessing])
      case Ok(pre) =>
        if |pre| > Config.MaxAudioSamples then
          var chunks := AudioProcessor.ChunkAudio(pre, ChunkSamples, Config.SampleRate).value;
          var stages := [Loading, Preprocessing, Chunking, TranscribingChunks(|chunks|)];
          TranscribedStagesOrdered(|chunks|);
          Finish(s.llm, SpeechRecognizer.TranscribeChunks(s.model, chunks), stages, useCorrection)
        else
          var stages := [Loading, Preprocessing, TranscribingWhole];
          TranscribedStagesOrdered(0);
          match SpeechRecognizer.TranscribeAudio(s.model, pre)
          case Err(e) => Report(ErrorPrefix + e, stages)
          case Ok(text) => Finish(s.llm, text, stages, useCorrection)
  }

  /** The chunked path is taken exactly when the preprocessed audio is longer
      than the configured maximum, and the whole path exactly when it is not. */
  lemma ChunkingDecision(s: Services, path: string, useCorrection: bool)
    ensures Chunking in ProcessAudioFile(s, path, useCorrection).stages <==>
              Preprocessed(s, path).Ok? && |Preprocessed(s, path).value| > Config.MaxAudioSamples
    ensures TranscribingWhole in ProcessAudioFile(s, path, useCorrection).stages <==>
              Preprocessed(s, path).Ok? && |Preprocessed(s, path).value| <= Config.MaxAudioSamples
  {
    ChunkedExactlyWhenLong(s, path, useCorrection);
    WholeExactlyWhenShort(s, path, useCorrection);
  }

  lemma ChunkedExactlyWhenLong(s: Services, path: string, useCorrection: bool)
    ensures Chunking in ProcessAudioFile(s, path, useCorrection).stages <==>
              Preprocessed(s, path).Ok? && |Preprocessed(s, path).value| > Config.MaxAudioSamples
  {
    var r := ProcessAudioFile(s, path, useCorrection);
    match AudioProcessor.LoadAudio(s.decoders, path)
    case Err(e) =>
      assert r.stages == [Loading];
    case Ok(audio) =>
      match AudioProcessor.Preprocess(audio)
      case Err(e) =>
        assert r.stages == [Loading, Preprocessing];
      case Ok(pre) =>
        assert Preprocessed(s, path) == Ok(pre);
        if |pre| > Config.MaxAudioSamples {
          var chunks := AudioProcessor.ChunkAudio(pre, ChunkSamples, Config.SampleRate).value;
          var stages := [Loading, Preprocessing, Chunking, TranscribingChunks(|chunks|)];
          TranscribedStagesOrdered(|chunks|);
          assert r == Finish(s.llm, SpeechRecognizer.TranscribeChunks(s.model, chunks), stages, useCorrection);
          assert Chunking in stages;
        } else {
          var stages := [Loading, Preprocessing, TranscribingWhole];
          TranscribedStagesOrdered(0);
          assert Chunking !in stages;
          match SpeechRecognizer.TranscribeAudio(s.model, pre)
          case Err(e) =>
            assert r.stages == stages;
          case Ok(text) =>
            assert r == Finish(s.llm, text, stages, useCorrection);
        }
  }

  lemma WholeExactlyWhenShort(s: Services, path: string, useCorrection: bool)
    ensures TranscribingWhole in ProcessAudioFile(s, path, useCorrection).stages <==>
              Preprocessed(s, path).Ok? && |Preprocessed(s, path).value| <= Config.MaxAudioSamples
  {
    var r := ProcessAudioFile(s, path, useCorrection);
    match AudioProcessor.LoadAudio(s.decoders, path)
    case Err(e) =>
      assert r.stages == [Loading];
    case Ok(audio) =>
      match AudioProcessor.Preprocess(audio)
      case Err(e) =>
        assert r.stages == [Loading, Preprocessing];
      case Ok(pre) =>
        assert Preprocessed(s, path) == Ok(pre);
        if |pre| > Config.MaxAudioSamples {
          var chunks := AudioProcessor.ChunkAudio(pre, ChunkSamples, Config.SampleRate).value;
          var stages := [Loading, Preprocessing, Chunking, TranscribingChunks(|chunks|)];
          TranscribedStagesOrdered(|chunks|);
          assert r == Finish(s.llm, SpeechRecognizer.TranscribeChunks(s.model, chunks), stages, useCorrection);
          assert TranscribingWhole !in stages;
        } else {
          var stages := [Loading, Preprocessing, TranscribingWhole];
          TranscribedStagesOrdered(0);
          assert TranscribingWhole in stages;
          match SpeechRecognizer.TranscribeAudio(s.model, pre)
          case Err(e) =>
            assert r.stages == stages;
          case Ok(text) =>
            assert r == Finish(s.llm, text, stages, useCorrection);
        }
  }

  /** Correction is requested exactly when transcription succeeded, the
      option is on and the transcript is not blank. */
  lemma CorrectionDecision(s: Services, path: string, useCorrection: bool)
    ensures PostProcessing in ProcessAudioFile(s, path, useCorrection).stages <==>
              RawTranscription(s, path).Ok? && WantsCorrection(useCorrection, RawTranscription(s, path).value)
  {
    var r := ProcessAudioFile(s, path, useCorrection);
    match AudioProcessor.LoadAudio(s.decoders, path)
    case Err(e) =>
      assert r.stages == [Loading];
    case Ok(audio) =>
      match AudioProcessor.Preprocess(audio)
      case Err(e) =>
        assert r.stages == [Loading, Preprocessing];
      case Ok(pre) =>
        assert Preprocessed(s, path) == Ok(pre);
  }

  /** A 45-second recording is transcribed in one piece: chunking is decided
      by the 300-second ceiling, not by the 30-second chunk size. */
  lemma FortyFiveSecondsNotChunked(s: Services, path: string)
    requires AudioProcessor.LoadAudio(s.decoders, path).Ok?
    requires |AudioProcessor.LoadAudio(s.decoders, path).value| == 45 * Config.SampleRate
    ensures Chunking !in ProcessAudioFile(s, path, true).stages
    ensures TranscribingWhole in ProcessAudioFile(s, path, true).stages
  {
    ChunkingDecision(s, path, true);
  }

  /** On the chunked path there are at least ten chunks, each longer than one
      second and at most thirty seconds long. */
  lemma ChunkedPathChunks(pre: seq<real>)
    requires |pre| > Config.MaxAudioSamples
    ensures var chunks := AudioProcessor.ChunkAudio(pre, ChunkSamples, Config.SampleRate).value;
            |chunks| >= 10
            && forall k :: 0 <= k < |chunks| ==> Config.SampleRate < |chunks[k]| <= ChunkSamples
  {
    var n := |pre|;
    AudioProcessor.DivUnique(4800000, 480000, 10, 0);
    assert n / 480000 >= 10 by {
      AudioProcessor.DivMonotone(4800000, n, 480000);
    }
  }

  /** When every decoder fails, the run reports the last decoder's message. */
  lemma LoadFailureText(s: Services, path: string, useCorrection: bool)
    requires s.decoders.primary(path).Err? && s.decoders.soundFile(path).Err? && s.decoders.codecTool(path).Err?
    ensures ProcessAudioFile(s, path, useCorrection) ==
              Report(ErrorPrefix + AudioProcessor.AllFailedPrefix + s.decoders.codecTool(path).msg, [Loading])
  {
  }

  /** Decoding to an empty sequence makes preprocessing fail, so the run
      stops with an error before transcription. */
  lemma EmptyAudioText(s: Services, path: string, useCorrection: bool)
    requires AudioProcessor.LoadAudio(s.decoders, path) == Ok([])
    ensures ProcessAudioFile(s, path, useCorrection) ==
              Report(ErrorPrefix + AudioProcessor.EmptyPeakMessage, [Loading, Preprocessing])
  {
  }

  /** A failure of the model on the whole-audio path surfaces as an error
      text that wraps the model's message. */
  lemma WholeTranscriptionFailureText(s: Services, path: string, useCorrection: bool)
    requires Preprocessed(s, path).Ok?
    requires |Preprocessed(s, path).value| <= Config.MaxAudioSamples
    requires s.model(SpeechRecognizer.PadToOneSecond(Preprocessed(s, path).value)).Err?
    ensures ProcessAudioFile(s, path, useCorrection).text ==
              ErrorPrefix + SpeechRecognizer.TranscriptionErrorPrefix
              + s.model(SpeechRecognizer.PadToOneSecond(Preprocessed(s, path).value)).msg
  {
  }

  // ---------------------------------------------------------------------
  // Command-line entry point
  // ---------------------------------------------------------------------

  const PosixSeparators: set<char> := {'/'}
  const WindowsSeparators: set<char> := {'\\', '/'}

  const OutputSuffix: string := "_transcription.txt"

  /** Index of the last character of `s` that is in `cs`, or -1. */
  function LastIndexIn(s: string, cs: set<char>): (r: int)
    ensures -1 <= r < |s|
    ensures r >= 0 ==> s[r] in cs
    ensures forall k :: r < k < |s| ==> s[k] !in cs
  {
    if |s| == 0 then -1
    else if s[|s| - 1] in cs then |s| - 1
    else LastIndexIn(s[..|s| - 1], cs)
  }

  /** Start of the last path component. */
  function BaseStart(p: string, seps: set<char>): nat {
    LastIndexIn(p, seps) + 1
  }

  /** Splits a path into root and extension. The extension is the last dot
      of the last path component and what follows it, unless only dots
      precede that dot within the component. */
  function SplitExt(p: string, seps: set<char>): (r: (string, string))
    requires '.' !in seps
    ensures r.0 + r.1 == p
    ensures r.1 != "" ==>
              && r.1[0] == '.'
              && (forall k :: 1 <= k < |r.1| ==> r.1[k] != '.' && r.1[k] !in seps)
              && exists k :: BaseStart(p, seps) <= k < |r.0| && r.0[k] != '.'
    ensures r.1 == "" ==>
              forall d :: BaseStart(p, seps) <= d < |p| && p[d] == '.' ==>
                forall k :: BaseStart(p, seps) <= k < d ==> p[k] == '.'
  {
    var sepIndex := LastIndexIn(p, seps);
    var dotIndex := LastIndexIn(p, {'.'});
    if dotIndex > sepIndex && exists k :: sepIndex + 1 <= k < dotIndex && p[k] != '.' then
      assert p[..dotIndex] + p[dotIndex..] == p;
      (p[..dotIndex], p[dotIndex..])
    else
      assert p + "" == p;
      (p, "")
  }

  /** Name of the file the result is written to. */
  function OutputFileName(path: string, seps: set<char>): (r: string)
    requires '.' !in seps
    ensures |r| >= |OutputSuffix| && r[|r| - |OutputSuffix|..] == OutputSuffix
    ensures r[..|r| - |OutputSuffix|] <= path
    ensures path[|r| - |OutputSuffix|..] == SplitExt(path, seps).1
  {
    var (root, ext) := SplitExt(path, seps);
    var r := root + OutputSuffix;
    assert r[..|r| - |OutputSuffix|] == root;
    r
  }

  /** The split when the last dot of the last component has a non-dot
      character before it in that component. */
  lemma SplitExtAtDot(p: string, seps: set<char>, d: nat, k: nat)
    requires '.' !in seps
    requires LastIndexIn(p, {'.'}) == d
    requires LastIndexIn(p, seps) < k < d && p[k] != '.'
    ensures SplitExt(p, seps) == (p[..d], p[d..])
    ensures OutputFileName(p, seps) == p[..d] + OutputSuffix
  {
  }

  /** The split when the last component has no dot after a non-dot. */
  lemma SplitExtNoDot(p: string, seps: set<char>)
    requires '.' !in seps
    requires LastIndexIn(p, {'.'}) <= LastIndexIn(p, seps)
    ensures SplitExt(p, seps) == (p, "")
    ensures OutputFileName(p, seps) == p + OutputSuffix
  {
  }

  /** Only the last extension is dropped. */
  lemma OutputFileNameDropsExtension()
    ensures OutputFileName("talk.mp3", PosixSeparators) == "talk" + OutputSuffix
  {
    var p := "talk.mp3";
    LastIndexInAbsent(p, PosixSeparators);
    LastIndexInIs(p, {'.'}, 4);
    SplitExtAtDot(p, PosixSeparators, 4, 0);
    assert p[..4] == "talk";
  }

  /** A dot in a directory name is not an extension. */
  lemma OutputFileNameIgnoresDirectoryDots()
    ensures OutputFileName("dir.v2/audio", PosixSeparators) == "dir.v2/audio" + OutputSuffix
  {
    var p := "dir.v2/audio";
    LastIndexInIs(p, PosixSeparators, 6);
    LastIndexInIs(p, {'.'}, 3);
    SplitExtNoDot(p, PosixSeparators);
  }

  /** A file name made of a leading dot and a word has no extension. */
  lemma OutputFileNameKeepsDotFile()
    ensures OutputFileName("rec/.wav", PosixSeparators) == "rec/.wav" + OutputSuffix
  {
    var p := "rec/.wav";
    LastIndexInIs(p, PosixSeparators, 3);
    LastIndexInIs(p, {'.'}, 4);
    assert SplitExt(p, PosixSeparators) == (p, "");
    assert OutputFileName(p, PosixSeparators) == p + OutputSuffix;
  }

  /** With Windows separators a backslash also ends a directory name. */
  lemma OutputFileNameWindows()
    ensures OutputFileName("a\\b.c", WindowsSeparators) == "a\\b" + OutputSuffix
  {
    var p := "a\\b.c";
    LastIndexInIs(p, WindowsSeparators, 1);
    LastIndexInIs(p, {'.'}, 3);
    SplitExtAtDot(p, WindowsSeparators, 3, 2);
    assert p[..3] == "a\\b";
  }

  lemma LastIndexInAbsent(s: string, cs: set<char>)
    requires forall k :: 0 <= k < |s| ==> s[k] !in cs
    ensures LastIndexIn(s, cs) == -1
  {
  }

  lemma LastIndexInIs(s: string, cs: set<char>, r: nat)
    requires r < |s| && s[r] in cs
    requires forall k :: r < k < |s| ==> s[k] !in cs
    ensures LastIndexIn(s, cs) == r
  {
  }

  datatype CliArgs = CliArgs(audio: string, noCorrection: bool, model: string)

  datatype CliOutcome =
    | AudioNotFound(message: string)
    | Saved(outputFile: string, report: Report)

  /** The entry point: refuses a missing input without running anything,
      otherwise runs the pipeline and writes its text next to the input. */
  function RunCli(args: CliArgs, fileExists: string -> bool, s: Services, seps: set<char>): (r: CliOutcome)
    requires '.' !in seps
    ensures r.AudioNotFound? <==> !fileExists(args.audio)
    ensures r.AudioNotFound? ==> r.message == "Audio file not found: " + args.audio
    ensures r.Saved? ==> r.outputFile == OutputFileName(args.audio, seps)
    ensures r.Saved? ==> r.report == ProcessAudioFile(s, args.audio, !args.noCorrection)
  {
    if !fileExists(args.audio) then AudioNotFound("Audio file not found: " + args.audio)
    else Saved(OutputFileName(args.audio, seps), ProcessAudioFile(s, args.audio, !args.noCorrection))
  }

  /** Disabling correction on the command line means the model is never asked
      to correct anything. */
  lemma NoCorrectionFlag(args: CliArgs, fileExists: string -> bool, s: Services, seps: set<char>)
    requires '.' !in seps && args.noCorrection
    ensures var r := RunCli(args, fileExists, s, seps);
            r.Saved? ==> PostProcessing !in r.report.stages
  {
    CorrectionDecision(s, args.audio, false);
  }

  /** The model-name option does not influence the run. */
  lemma ModelOptionIgnored(args: CliArgs, name: string, fileExists: string -> bool, s: Services, seps: set<char>)
    requires '.' !in seps
    ensures RunCli(args, fileExists, s, seps) == RunCli(args.(model := name), fileExists, s, seps)
  {
  }
}
