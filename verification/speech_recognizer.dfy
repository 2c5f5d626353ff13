/** Transcription of a sample sequence, or of a list of chunks, by the
    pretrained acoustic model, which is an oracle here: it maps the samples it
    is given to the greedily decoded text, or fails with a message. */
module SpeechRecognizer {
  import opened Wrappers
  import Config
  import Text

  /** Acoustic model plus greedy decoding, as seen from the pipeline. */
  type AcousticModel = seq<real> -> Result<string>

  const TranscriptionErrorPrefix: string := "Transcription error: "

  function Zeros(n: nat): (z: seq<real>)
    ensures |z| == n
    ensures forall k :: 0 <= k < n ==> z[k] == 0.0
  {
    seq(n, _ => 0.0)
  }

  /** Right-pads input shorter than one second with zeros up to exactly one
      second; longer input is passed on untouched. */
  function PadToOneSecond(a: seq<real>): (r: seq<real>)
    ensures |a| < Config.SampleRate ==> |r| == Config.SampleRate
    ensures |a| >= Config.SampleRate ==> r == a
    ensures |a| <= |r| && r[..|a|] == a
    ensures forall k :: |a| <= k < |r| ==> r[k] == 0.0
  {
    if |a| < Config.SampleRate then a + Zeros(Config.SampleRate - |a|) else a
  }

  /** The model never sees less than one second of audio. */
  lemma ModelInputAtLeastOneSecond(a: seq<real>)
    ensures |PadToOneSecond(a)| >= Config.SampleRate
    ensures |PadToOneSecond(a)| == if |a| < Config.SampleRate then Config.SampleRate else |a|
  {
  }

  /** Transcribes one sample sequence: pads it, asks the model, and wraps a
      model failure into a transcription error. */
  function TranscribeAudio(model: AcousticModel, a: seq<real>): (r: Result<string>)
    ensures r.Ok? <==> model(PadToOneSecond(a)).Ok?
    ensures r.Ok? ==> r.value == model(PadToOneSecond(a)).value
    ensures r.Err? ==> r.msg == TranscriptionErrorPrefix + model(PadToOneSecond(a)).msg
  {
    match model(PadToOneSecond(a))
    case Ok(text) => Ok(text)
    case Err(e) => Err(TranscriptionErrorPrefix + e)
  }

  /** What one chunk contributes to the joined transcript: its text, or the
      empty string when its transcription fails. */
  function ChunkText(model: AcousticModel, chunk: seq<real>): (t: string)
    ensures TranscribeAudio(model, chunk).Ok? ==> t == TranscribeAudio(model, chunk).value
    ensures TranscribeAudio(model, chunk).Err? ==> t == ""
  {
    match TranscribeAudio(model, chunk)
    case Ok(text) => text
    case Err(_) => ""
  }

  /** Transcribes the chunks one after the other; a failure does not stop
      the remaining chunks. */
  function ChunkTexts(model: AcousticModel, chunks: seq<seq<real>>): (ts: seq<string>)
    ensures |ts| == |chunks|
    ensures forall k :: 0 <= k < |chunks| ==> ts[k] == ChunkText(model, chunks[k])
  {
    if |chunks| == 0 then []
    else
      var rest := ChunkTexts(model, chunks[1..]);
      assert forall k :: 1 <= k < |chunks| ==> chunks[k] == chunks[1..][k - 1];
      [ChunkText(model, chunks[0])] + rest
  }

  /** The chunk texts in chunk order, joined by single spaces: the k-th
      chunk's text starts at `Offset(ts, k)`, a space precedes every chunk
      text but the first, and nothing else is in the transcript. */
  function TranscribeChunks(model: AcousticModel, chunks: seq<seq<real>>): (r: string)
    ensures |chunks| == 0 ==> r == ""
    ensures |chunks| > 0 ==> |r| == Text.TotalLength(ChunkTexts(model, chunks)) + |chunks| - 1
    ensures var ts := ChunkTexts(model, chunks);
            forall k :: 0 <= k < |chunks| ==>
              Text.Offset(ts, k) + |ChunkText(model, chunks[k])| <= |r|
              && r[Text.Offset(ts, k)..Text.Offset(ts, k) + |ChunkText(model, chunks[k])|]
                 == ChunkText(model, chunks[k])
    ensures var ts := ChunkTexts(model, chunks);
            forall k :: 0 < k < |chunks| ==> r[Text.Offset(ts, k) - 1] == ' '
  {
    var ts := ChunkTexts(model, chunks);
    Text.JoinLength(ts, ' ');
    Text.JoinPositions(ts, ' ');
    Text.Join(ts, ' ')
  }

  /** Exactly one field per chunk, in chunk order: splitting the joined
      transcript at spaces gives back each chunk's text, provided no chunk text
      itself contains a space. */
  lemma TranscribeChunksSplits(model: AcousticModel, chunks: seq<seq<real>>)
    requires |chunks| > 0
    requires forall k :: 0 <= k < |chunks| ==> ' ' !in ChunkText(model, chunks[k])
    ensures Text.Split(TranscribeChunks(model, chunks), ' ') == ChunkTexts(model, chunks)
  {
    Text.SplitJoin(ChunkTexts(model, chunks), ' ');
  }

  /** A failed middle chunk leaves an empty field between two spaces rather
      than being removed or aborting the loop. */
  lemma MiddleChunkFailure(model: AcousticModel, c1: seq<real>, c2: seq<real>, c3: seq<real>)
    requires model(PadToOneSecond(c1)).Ok?
    requires model(PadToOneSecond(c2)).Err?
    requires model(PadToOneSecond(c3)).Ok?
    ensures TranscribeChunks(model, [c1, c2, c3]) ==
              model(PadToOneSecond(c1)).value + "  " + model(PadToOneSecond(c3)).value
  {
    var ts := ChunkTexts(model, [c1, c2, c3]);
    var t1, t3 := model(PadToOneSecond(c1)).value, model(PadToOneSecond(c3)).value;
    assert ts == [t1, "", t3];
    assert ts[1..] == ["", t3] && ts[1..][1..] == [t3];
    assert Text.Join([t3], ' ') == t3;
    assert Text.Join(["", t3], ' ') == "" + [' '] + t3;
    assert Text.Join(ts, ' ') == t1 + [' '] + ("" + [' '] + t3);
  }
}
