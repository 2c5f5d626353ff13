/** Loading, preprocessing and chunking of audio sample sequences.
    Samples are exact reals: floating-point rounding is not modelled. */
module AudioProcessor {
  import opened Wrappers
  import Config

  // ---------------------------------------------------------------------
  // Loading: three decoders tried in a fixed order
  // ---------------------------------------------------------------------

  /** A decoder reads the file at a path into mono samples at the
      configured rate, or fails with a message. */
  type Decoder = string -> Result<seq<real>>

  /** The three decoding back ends, in the order they are tried: a general
      audio library, a sound-file reader (with its own resampling and channel
      averaging) and a codec-tool reader (with its own 16-bit scaling). */
  datatype Decoders = Decoders(primary: Decoder, soundFile: Decoder, codecTool: Decoder)

  const AllFailedPrefix: string := "All audio loading methods failed: "

  /** Tries each decoder once, in order, and stops at the first success.
      When all fail, only the last decoder's message survives. */
  function TryDecoders(tiers: seq<Decoder>, path: string): (r: Result<seq<real>>)
    requires |tiers| > 0
    ensures r.Ok? <==> exists k :: 0 <= k < |tiers| && tiers[k](path).Ok?
    ensures r.Ok? ==> exists k :: 0 <= k < |tiers| && tiers[k](path) == r
                        && forall j :: 0 <= j < k ==> tiers[j](path).Err?
    ensures r.Err? ==> r.msg == AllFailedPrefix + tiers[|tiers| - 1](path).msg
  {
    var first := tiers[0](path);
    if first.Ok? then first
    else if |tiers| == 1 then Err(AllFailedPrefix + first.msg)
    else
      var rest := TryDecoders(tiers[1..], path);
      assert forall k :: 1 <= k < |tiers| ==> tiers[k] == tiers[1..][k - 1];
      rest
  }

  /** The loader: primary decoder, then the sound-file reader, then the
      codec-tool reader. */
  function LoadAudio(d: Decoders, path: string): (r: Result<seq<real>>)
    ensures d.primary(path).Ok? ==> r == d.primary(path)
    ensures d.primary(path).Err? && d.soundFile(path).Ok? ==> r == d.soundFile(path)
    ensures d.primary(path).Err? && d.soundFile(path).Err? ==>
              if d.codecTool(path).Ok? then r == d.codecTool(path)
              else r == Err(AllFailedPrefix + d.codecTool(path).msg)
  {
    var tiers := [d.primary, d.soundFile, d.codecTool];
    assert tiers[0] == d.primary && tiers[1] == d.soundFile && tiers[2] == d.codecTool;
    TryDecoders(tiers, path)
  }

  // ---------------------------------------------------------------------
  // Preprocessing: peak normalisation, then silence trimming
  // ---------------------------------------------------------------------

  /** Samples whose magnitude does not exceed this are silence. */
  const SilenceThreshold: real := 0.01

  /** Message of the error raised when the peak of an empty sequence is taken. */
  const EmptyPeakMessage: string := "zero-size array to reduction operation maximum which has no identity"

  function Abs(x: real): real {
    if x < 0.0 then -x else x
  }

  predicate Loud(x: real) {
    Abs(x) > SilenceThreshold
  }

  /** Largest magnitude in a non-empty sequence. */
  function MaxAbs(a: seq<real>): (m: real)
    requires |a| > 0
    ensures forall i :: 0 <= i < |a| ==> Abs(a[i]) <= m
    ensures exists i :: 0 <= i < |a| && Abs(a[i]) == m
  {
    if |a| == 1 then Abs(a[0])
    else
      var m := MaxAbs(a[1..]);
      assert forall i :: 1 <= i < |a| ==> a[i] == a[1..][i - 1];
      if Abs(a[0]) > m then Abs(a[0]) else m
  }

  lemma DividePeak(x: real, m: real)
    requires m > 0.0 && Abs(x) <= m
    ensures Abs(x / m) <= 1.0
    ensures Abs(x) == m ==> Abs(x / m) == 1.0
  {
    var q := x / m;
    assert q * m == x;
  }

  /** Divides every sample by the peak magnitude, unless the peak is zero. */
  function Normalize(a: seq<real>): (r: seq<real>)
    requires |a| > 0
    ensures |r| == |a|
    ensures MaxAbs(a) == 0.0 ==> r == a && forall i :: 0 <= i < |a| ==> a[i] == 0.0
    ensures MaxAbs(a) > 0.0 ==> forall i :: 0 <= i < |a| ==> r[i] == a[i] / MaxAbs(a)
  {
    var m := MaxAbs(a);
    if m > 0.0 then seq(|a|, i requires 0 <= i < |a| => a[i] / m) else a
  }

  /** After normalising a non-silent recording every sample lies in [-1, 1]
      and the peak sample reaches magnitude 1. */
  lemma NormalizeBounds(a: seq<real>)
    requires |a| > 0
    ensures MaxAbs(a) > 0.0 ==> forall i :: 0 <= i < |a| ==> Abs(Normalize(a)[i]) <= 1.0
    ensures MaxAbs(a) > 0.0 ==> exists i :: 0 <= i < |a| && Abs(Normalize(a)[i]) == 1.0
  {
    var m := MaxAbs(a);
    if m > 0.0 {
      var r := Normalize(a);
      forall i | 0 <= i < |a|
        ensures Abs(r[i]) <= 1.0
      {
        DividePeak(a[i], m);
      }
      var p :| 0 <= p < |a| && Abs(a[p]) == m;
      DividePeak(a[p], m);
      assert Abs(r[p]) == 1.0;
    }
  }

  /** Indices of the loud samples, in increasing order. */
  function LoudIndices(a: seq<real>): (ns: seq<nat>)
    ensures forall p :: 0 <= p < |ns| ==> ns[p] < |a| && Loud(a[ns[p]])
    ensures forall i :: 0 <= i < |a| && Loud(a[i]) ==> i in ns
    ensures forall p, q :: 0 <= p < q < |ns| ==> ns[p] < ns[q]
  {
    if |a| == 0 then []
    else
      var ns := LoudIndices(a[..|a| - 1]);
      if Loud(a[|a| - 1]) then ns + [|a| - 1] else ns
  }

  predicate IsFirstLoud(a: seq<real>, f: int) {
    0 <= f < |a| && Loud(a[f]) && forall j :: 0 <= j < f ==> !Loud(a[j])
  }

  predicate IsLastLoud(a: seq<real>, l: int) {
    0 <= l < |a| && Loud(a[l]) && forall j :: l < j < |a| ==> !Loud(a[j])
  }

  /** Trims leading and trailing silence. The slice runs from the first loud
      sample up to, but excluding, the last loud sample; with no loud sample
      the input is returned as it is. */
  function RemoveSilence(a: seq<real>): (r: seq<real>)
    ensures (forall i :: 0 <= i < |a| ==> !Loud(a[i])) ==> r == a
    ensures forall f, l :: IsFirstLoud(a, f) && IsLastLoud(a, l) ==> f <= l && r == a[f..l]
    ensures (exists i :: 0 <= i < |a| && Loud(a[i])) ==> |r| < |a|
  {
    var ns := LoudIndices(a);
    if |ns| > 0 then
      var f, l := ns[0], ns[|ns| - 1];
      assert IsFirstLoud(a, f);
      assert IsLastLoud(a, l);
      assert forall f', l' :: IsFirstLoud(a, f') && IsLastLoud(a, l') ==> f' == f && l' == l;
      a[f..l]
    else
      a
  }

  /** A non-zero recording still has a loud sample after normalisation: the
      peak sample becomes 1.0 or -1.0. */
  lemma NormalizedPeakIsLoud(a: seq<real>)
    requires |a| > 0
    ensures MaxAbs(a) > 0.0 ==> exists i :: 0 <= i < |a| && Loud(Normalize(a)[i])
  {
    if MaxAbs(a) > 0.0 {
      var n := Normalize(a);
      NormalizeBounds(a);
      var p :| 0 <= p < |n| && Abs(n[p]) == 1.0;
      assert Loud(n[p]);
    }
  }

  /** Mono peak normalisation followed by silence trimming. Fails, as the
      peak computation does, on an empty sequence. */
  function Preprocess(a: seq<real>): (r: Result<seq<real>>)
    ensures r.Err? <==> |a| == 0
    ensures r.Err? ==> r.msg == EmptyPeakMessage
    ensures r.Ok? ==> |r.value| <= |a|
    ensures |a| > 0 && (forall i :: 0 <= i < |a| ==> a[i] == 0.0) ==> r == Ok(a)
    ensures (exists i :: 0 <= i < |a| && a[i] != 0.0) ==> r.Ok? && |r.value| < |a|
  {
    if |a| == 0 then Err(EmptyPeakMessage)
    else
      var n := Normalize(a);
      NormalizedPeakIsLoud(a);
      Ok(RemoveSilence(n))
  }

  /** With exactly one loud sample, trimming leaves nothing: the slice ends
      just before the last loud sample, which is also the first. */
  lemma SingleLoudSampleTrimsToEmpty(a: seq<real>, p: nat)
    requires p < |a| && Loud(a[p])
    requires forall i :: 0 <= i < |a| && i != p ==> !Loud(a[i])
    ensures RemoveSilence(a) == []
  {
    assert IsFirstLoud(a, p) && IsLastLoud(a, p);
  }

  /** Trimming keeps the first loud sample at the front and has length
      `last - first`; the last loud sample itself is not kept. */
  lemma RemoveSilenceShape(a: seq<real>, f: nat, l: nat)
    requires IsFirstLoud(a, f) && IsLastLoud(a, l)
    ensures |RemoveSilence(a)| == l - f
    ensures f < l ==> RemoveSilence(a)[0] == a[f] && Loud(RemoveSilence(a)[0])
    ensures forall k :: 0 <= k < |RemoveSilence(a)| ==> RemoveSilence(a)[k] == a[f + k]
  {
  }

  /** Trimming is not idempotent: every application removes the last loud
      sample again. */
  lemma RemoveSilenceNotIdempotent()
    ensures RemoveSilence([1.0, 1.0, 1.0]) == [1.0, 1.0]
    ensures RemoveSilence(RemoveSilence([1.0, 1.0, 1.0])) == [1.0]
  {
    var a := [1.0, 1.0, 1.0];
    assert IsFirstLoud(a, 0) && IsLastLoud(a, 2);
    assert a[0..2] == [1.0, 1.0];
    var b := [1.0, 1.0];
    assert IsFirstLoud(b, 0) && IsLastLoud(b, 1);
    assert b[0..1] == [1.0];
  }

  /** An input that is already peak-normalised and already starts and ends
      with a loud sample is still shortened by preprocessing. */
  lemma PreprocessNotIdempotentOnTrimmedInput()
    ensures MaxAbs([1.0, 0.5]) == 1.0
    ensures IsFirstLoud([1.0, 0.5], 0) && IsLastLoud([1.0, 0.5], 1)
    ensures Preprocess([1.0, 0.5]) == Ok([1.0])
  {
    var a := [1.0, 0.5];
    assert MaxAbs(a[1..]) == 0.5;
    var n := Normalize(a);
    assert n[0] == 1.0 / 1.0 && n[1] == 0.5 / 1.0;
    assert n == a;
    assert IsFirstLoud(a, 0) && IsLastLoud(a, 1);
    assert a[0..1] == [1.0];
  }

  // ---------------------------------------------------------------------
  // Chunking: non-overlapping fixed-size windows longer than one second
  // ---------------------------------------------------------------------

  const ZeroStepMessage: string := "range() arg 3 must not be zero"

  function Min(x: int, y: int): int {
    if x <= y then x else y
  }

  /** The windows starting at `i`, `i + cs`, `i + 2 * cs`, ... (each clipped at
      the end of `a`), keeping only those longer than `sr` samples. */
  function ChunkFrom<T>(a: seq<T>, cs: nat, sr: nat, i: nat): seq<seq<T>>
    requires cs > 0
    decreases |a| - i
  {
    if i >= |a| then []
    else
      var w := a[i..Min(i + cs, |a|)];
      (if |w| > sr then [w] else []) + ChunkFrom(a, cs, sr, i + cs)
  }

  /** How many windows of `n` samples survive: none when a full window is
      not longer than `sr`; otherwise every full window, plus the trailing
      partial window when it is longer than `sr`. */
  function KeptCount(n: nat, cs: nat, sr: nat): nat
    requires cs > 0
  {
    if cs <= sr then 0 else n / cs + (if n % cs > sr then 1 else 0)
  }

  lemma DivStep(n: nat, d: nat)
    requires 0 < d <= n
    ensures n / d == (n - d) / d + 1
    ensures n % d == (n - d) % d
  {
    var q, r := (n - d) / d, (n - d) % d;
    assert n == (q + 1) * d + r;
    DivUnique(n, d, q + 1, r);
  }

  lemma DivUnique(n: nat, d: nat, q: nat, r: nat)
    requires 0 < d && r < d && n == q * d + r
    ensures n / d == q && n % d == r
  {
    var q', r' := n / d, n % d;
    assert n == q' * d + r';
    if q' < q {
      MulLe(q' + 1, q, d);
    } else if q < q' {
      MulLe(q + 1, q', d);
    }
  }

  lemma DivMonotone(m: nat, n: nat, d: nat)
    requires 0 < d && m <= n
    ensures m / d <= n / d
  {
    if n / d < m / d {
      MulLe(n / d + 1, m / d, d);
    }
  }

  lemma MulLe(x: nat, y: nat, d: nat)
    requires x <= y
    ensures x * d <= y * d
  {
    assert y * d == x * d + (y - x) * d;
  }

  /** The number of kept windows from `i` is `KeptCount`. */
  lemma {:induction false} ChunkFromCount<T>(a: seq<T>, cs: nat, sr: nat, i: nat)
    requires cs > 0 && i <= |a|
    ensures |ChunkFrom(a, cs, sr, i)| == KeptCount(|a| - i, cs, sr)
    decreases |a| - i
  {
    if i < |a| {
      var n := |a| - i;
      if i + cs >= |a| {
        assert ChunkFrom(a, cs, sr, i + cs) == [];
        if n < cs {
          DivUnique(n, cs, 0, n);
        } else {
          DivUnique(n, cs, 1, 0);
        }
      } else {
        ChunkFromCount(a, cs, sr, i + cs);
        DivStep(n, cs);
      }
    }
  }

  /** The kept windows are consecutive: the k-th one starts `k * cs` samples
      after `i`. */
  lemma {:induction false} ChunkFromShape<T>(a: seq<T>, cs: nat, sr: nat, i: nat)
    requires cs > 0 && i <= |a|
    ensures forall k :: 0 <= k < |ChunkFrom(a, cs, sr, i)| ==>
              i + k * cs < |a| && ChunkFrom(a, cs, sr, i)[k] == a[i + k * cs .. Min(i + k * cs + cs, |a|)]
    decreases |a| - i
  {
    if i < |a| && i + cs < |a| {
      var w := a[i..i + cs];
      var r := ChunkFrom(a, cs, sr, i);
      var rest := ChunkFrom(a, cs, sr, i + cs);
      ChunkFromShape(a, cs, sr, i + cs);
      if cs > sr {
        assert r == [w] + rest;
        forall k | 1 <= k < |r|
          ensures i + k * cs < |a| && r[k] == a[i + k * cs .. Min(i + k * cs + cs, |a|)]
        {
          assert r[k] == rest[k - 1];
          assert i + k * cs == (i + cs) + (k - 1) * cs;
        }
      } else {
        ChunkFromCount(a, cs, sr, i + cs);
        assert r == rest;
      }
    }
  }

  /** Every kept window is longer than `sr` and at most `cs` samples long. */
  lemma {:induction false} ChunkFromLengths<T>(a: seq<T>, cs: nat, sr: nat, i: nat)
    requires cs > 0
    ensures forall k :: 0 <= k < |ChunkFrom(a, cs, sr, i)| ==> sr < |ChunkFrom(a, cs, sr, i)[k]| <= cs
    decreases |a| - i
  {
    if i < |a| {
      ChunkFromLengths(a, cs, sr, i + cs);
      var w := a[i..Min(i + cs, |a|)];
      var rest := ChunkFrom(a, cs, sr, i + cs);
      var r := ChunkFrom(a, cs, sr, i);
      if |w| > sr {
        assert r == [w] + rest;
        assert forall k :: 1 <= k < |r| ==> r[k] == rest[k - 1];
      } else {
        assert r == rest;
      }
    }
  }

  function Flatten<T>(xss: seq<seq<T>>): seq<T> {
    if |xss| == 0 then [] else xss[0] + Flatten(xss[1..])
  }

  lemma AdjacentSlices<T>(a: seq<T>, i: nat, j: nat, k: nat)
    requires i <= j <= k <= |a|
    ensures a[i..j] + a[j..k] == a[i..k]
  {
  }

  /** The kept windows, concatenated, are a prefix of the audio from `i`. */
  lemma {:induction false} ChunkFromPrefix<T>(a: seq<T>, cs: nat, sr: nat, i: nat)
    requires cs > 0 && i <= |a|
    ensures |Flatten(ChunkFrom(a, cs, sr, i))| <= |a| - i
    ensures Flatten(ChunkFrom(a, cs, sr, i)) == a[i..i + |Flatten(ChunkFrom(a, cs, sr, i))|]
    decreases |a| - i
  {
    if i < |a| {
      var w := a[i..Min(i + cs, |a|)];
      var r := ChunkFrom(a, cs, sr, i);
      var rest := ChunkFrom(a, cs, sr, i + cs);
      if i + cs >= |a| {
        assert rest == [];
        if |w| > sr {
          assert r == [w];
          assert Flatten(r) == w + Flatten(r[1..]);
        } else {
          assert r == [];
        }
      } else if cs > sr {
        ChunkFromPrefix(a, cs, sr, i + cs);
        var fr := Flatten(rest);
        assert r == [w] + rest;
        assert r[1..] == rest;
        assert Flatten(r) == w + fr;
        AdjacentSlices(a, i, i + cs, i + cs + |fr|);
      } else {
        ChunkFromCount(a, cs, sr, i + cs);
        assert r == [];
      }
    }
  }

  /** When a full window is longer than `sr`, fewer than `sr + 1` samples
      from `i` on are missing from the kept windows. */
  lemma {:induction false} ChunkFromLoss<T>(a: seq<T>, cs: nat, sr: nat, i: nat)
    requires sr < cs && i <= |a|
    ensures |a| - i - |Flatten(ChunkFrom(a, cs, sr, i))| <= sr
    decreases |a| - i
  {
    if i < |a| {
      var w := a[i..Min(i + cs, |a|)];
      var r := ChunkFrom(a, cs, sr, i);
      var rest := ChunkFrom(a, cs, sr, i + cs);
      if i + cs >= |a| {
        assert rest == [];
        if |w| > sr {
          assert r == [w];
          assert Flatten(r) == w + Flatten(r[1..]);
        }
      } else {
        ChunkFromLoss(a, cs, sr, i + cs);
        assert r == [w] + rest;
        assert r[1..] == rest;
        assert Flatten(r) == w + Flatten(rest);
      }
    }
  }

  /** Splits audio into non-overlapping windows of `chunkSize` samples and
      keeps those longer than `sampleRate` samples (one second). A zero
      window size is an error; a negative one yields no windows. */
  function ChunkAudio<T>(a: seq<T>, chunkSize: int, sampleRate: nat): (r: Result<seq<seq<T>>>)
    ensures r.Err? <==> chunkSize == 0
    ensures r.Err? ==> r.msg == ZeroStepMessage
    ensures chunkSize < 0 ==> r == Ok([])
    ensures r.Ok? ==> forall k :: 0 <= k < |r.value| ==> sampleRate < |r.value[k]| <= chunkSize
    ensures chunkSize > 0 ==> r.Ok? && |r.value| == KeptCount(|a|, chunkSize, sampleRate)
    ensures chunkSize > 0 ==> forall k :: 0 <= k < |r.value| ==>
              k * chunkSize < |a| && r.value[k] == a[k * chunkSize .. Min(k * chunkSize + chunkSize, |a|)]
  {
    if chunkSize == 0 then Err(ZeroStepMessage)
    else if chunkSize < 0 then Ok([])
    else
      var chunks := ChunkFrom(a, chunkSize, sampleRate, 0);
      ChunkFromCount(a, chunkSize, sampleRate, 0);
      ChunkFromShape(a, chunkSize, sampleRate, 0);
      ChunkFromLengths(a, chunkSize, sampleRate, 0);
      assert forall k :: 0 <= k < |chunks| ==> 0 + k * chunkSize == k * chunkSize;
      Ok(chunks)
  }

  /** Chunking loses only a tail: the chunks concatenated are a prefix of the
      input, and when a window is longer than one second at most one second
      of trailing samples is dropped. */
  lemma ChunksFormPrefix<T>(a: seq<T>, chunkSize: int, sampleRate: nat)
    requires chunkSize > 0
    ensures Flatten(ChunkAudio(a, chunkSize, sampleRate).value) <= a
    ensures chunkSize > sampleRate ==> |a| - |Flatten(ChunkAudio(a, chunkSize, sampleRate).value)| <= sampleRate
  {
    ChunkFromPrefix(a, chunkSize, sampleRate, 0);
    if chunkSize > sampleRate {
      ChunkFromLoss(a, chunkSize, sampleRate, 0);
    }
  }
}
