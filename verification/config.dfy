/** The numeric and naming settings of the pipeline's configuration object. */
module Config {

  /** Samples per second of every sequence the pipeline handles. */
  const SampleRate: nat := 16000

  /** Seconds of audio per chunk on the chunked path. */
  const ChunkDuration: nat := 30

  /** Longest input, in seconds, that is transcribed in one piece. */
  const MaxAudioLength: nat := 300

  /** `MaxAudioLength` expressed in samples: 4,800,000. */
  const MaxAudioSamples: nat := MaxAudioLength * SampleRate

  /** Identifier of the hosted chat model used for post-processing. */
  const GroqModel: string := "llama-3.3-70b-versatile"
}
