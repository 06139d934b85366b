/** `decode_audio_file` (file_decoder.rs, lines 17-135): open and probe the file, select the
    track, run the packet loop, refuse an empty result, mix down to mono and resample to
    16 kHz unless the source is already at 16 kHz. */
module FileDecoder {
  import opened Results
  import opened TrackSelection
  import opened PacketLoop
  import opened Mixdown
  import opened RateConversion

  /** The rate every decoded file is converted to. */
  const TARGET_SAMPLE_RATE: nat := 16000

  /** An audio file as the prober sees it: it cannot be opened, its format is not recognised,
      or it is a container with tracks whose reader yields `packets` and then the error `end`. */
  datatype AudioFile =
    | Unopenable
    | Unrecognised
    | Container(tracks: seq<Track>, packets: seq<Packet>, end: SymphoniaError)

  /** symphonia's codec registry: the codecs it can build a decoder for, and how the decoder
      built for a track's parameters answers (see `PacketLoop.Decoder`). */
  datatype Codecs = Codecs(supported: set<nat>, decoderFor: TrackParams -> (seq<Packet> -> DecodeOutcome))

  /** What the call returns once the interleaved samples are known. */
  function Finish(interleaved: seq<real>, params: TrackParams, rubato: Rubato)
    : (r: Result<seq<real>, AudioFileError>)
  {
    if interleaved == [] then Err(EmptyDecodeResult)
    else
      var mono := MixDown(interleaved, params.channels);
      if params.sampleRate != TARGET_SAMPLE_RATE then
        ResampleResult(mono, params.sampleRate, TARGET_SAMPLE_RATE, rubato)
      else Ok(mono)
  }

  /** What `decode_audio_file` returns, stage by stage. */
  function DecodeResult(file: AudioFile, codecs: Codecs, rubato: Rubato)
    : (r: Result<seq<real>, AudioFileError>)
  {
    match file
    case Unopenable => Err(OpenFailed)
    case Unrecognised => Err(ProbeFailed)
    case Container(tracks, packets, end) =>
      match SelectTrack(tracks)
      case Err(e) => Err(e)
      case Ok(params) =>
        if params.codec !in codecs.supported then Err(DecoderCreationFailed)
        else match LoopResult(packets, end, params.trackId, codecs.decoderFor(params))
          case Err(e) => Err(e)
          case Ok(interleaved) => Finish(interleaved, params, rubato)
  }

  /** `decode_audio_file`: the reader, the decoder and the resampler are created here and
      used by the loops of `DecodePackets` and `Resample`. */
  method DecodeAudioFile(file: AudioFile, codecs: Codecs, rubato: Rubato)
    returns (r: Result<seq<real>, AudioFileError>)
    ensures r == DecodeResult(file, codecs, rubato)
  {
    if file.Unopenable? {
      return Err(OpenFailed);
    }
    if file.Unrecognised? {
      return Err(ProbeFailed);
    }
    var selection := SelectTrack(file.tracks);
    if selection.Err? {
      return Err(selection.error);
    }
    var params := selection.value;
    if params.codec !in codecs.supported {
      return Err(DecoderCreationFailed);
    }
    var reader := new FormatReader(file.packets, file.end);
    var decoder := new Decoder(codecs.decoderFor(params));
    var decoded := DecodePackets(reader, params.trackId, decoder);
    if decoded.Err? {
      return Err(decoded.error);
    }
    var interleaved := decoded.value;
    if interleaved == [] {
      return Err(EmptyDecodeResult);
    }
    var mono := MixDown(interleaved, params.channels);
    if params.sampleRate != TARGET_SAMPLE_RATE {
      var resampled, _ := Resample(mono, params.sampleRate, TARGET_SAMPLE_RATE, rubato);
      return resampled;
    }
    return Ok(mono);
  }

  /** A file at the target rate comes back as its mono mixdown, and which resampler library
      is available makes no difference: none is built. */
  lemma TargetRateSkipsResampler(file: AudioFile, codecs: Codecs, rubato: Rubato, other: Rubato)
    requires file.Container? && SelectTrack(file.tracks).Ok?
    requires SelectTrack(file.tracks).value.sampleRate == TARGET_SAMPLE_RATE
    ensures DecodeResult(file, codecs, rubato) == DecodeResult(file, codecs, other)
    ensures var params := SelectTrack(file.tracks).value;
            var loop := LoopResult(file.packets, file.end, params.trackId, codecs.decoderFor(params));
            DecodeResult(file, codecs, rubato).Ok? ==>
              loop.Ok? && DecodeResult(file, codecs, rubato).value == MixDown(loop.value, params.channels)
  {
  }

  /** The output is never longer than `ceil(frames * 16000 / rate)`, the length the target rate
      calls for (at the target rate that is the number of frames itself). */
  lemma OutputLength(file: AudioFile, codecs: Codecs, rubato: Rubato)
    requires DecodeResult(file, codecs, rubato).Ok?
    ensures var params := SelectTrack(file.tracks).value;
            var loop := LoopResult(file.packets, file.end, params.trackId, codecs.decoderFor(params));
            params.sampleRate > 0 && loop.Ok? &&
            |DecodeResult(file, codecs, rubato).value| <=
              ExpectedLen(|MixDown(loop.value, params.channels)|, params.sampleRate, TARGET_SAMPLE_RATE)
  {
    var params := SelectTrack(file.tracks).value;
    var loop := LoopResult(file.packets, file.end, params.trackId, codecs.decoderFor(params));
    var mono := MixDown(loop.value, params.channels);
    if params.sampleRate == TARGET_SAMPLE_RATE {
      ExpectedLenSameRate(|mono|, TARGET_SAMPLE_RATE);
    } else {
      assert Constructs(rubato, params.sampleRate, TARGET_SAMPLE_RATE);
    }
  }

  /** Converting to the same rate keeps the length. */
  lemma ExpectedLenSameRate(n: nat, rate: nat)
    requires rate > 0
    ensures ExpectedLen(n, rate, rate) == n
  {
    var len := ExpectedLen(n, rate, rate);
    if len > n {
      Arith.MulAtLeast(len - n, rate);
      Arith.MulSub(len, n, rate);
      Arith.MulSub(len - 1, n, rate);
    } else if len < n {
      Arith.MulAtLeast(n - len, rate);
      Arith.MulSub(n, len, rate);
    }
  }

  /** Success means the whole stream was read to its normal end and something was decoded:
      there is no partial result. */
  lemma SuccessOnlyAtEndOfStream(file: AudioFile, codecs: Codecs, rubato: Rubato)
    requires DecodeResult(file, codecs, rubato).Ok?
    ensures file.Container? && file.end == IoError(UnexpectedEof)
    ensures var params := SelectTrack(file.tracks).value;
            NoFatal(Selected(file.packets, params.trackId), codecs.decoderFor(params)) &&
            Collected(Selected(file.packets, params.trackId), codecs.decoderFor(params)) != []
  {
  }

  /** A file whose selected track yields no samples fails with `EmptyDecodeResult`, however
      many packets it has: recoverable errors and empty blocks alone never make a result. */
  lemma NothingDecodedIsAnError(file: AudioFile, codecs: Codecs, rubato: Rubato)
    requires file.Container? && SelectTrack(file.tracks).Ok?
    requires var params := SelectTrack(file.tracks).value;
             params.codec in codecs.supported && file.end == IoError(UnexpectedEof) &&
             AllSkipped(Selected(file.packets, params.trackId), codecs.decoderFor(params))
    ensures DecodeResult(file, codecs, rubato) == Err(EmptyDecodeResult)
  {
    var params := SelectTrack(file.tracks).value;
    var fed := Selected(file.packets, params.trackId);
    var respond := codecs.decoderFor(params);
    forall j | 0 <= j < |fed|
      ensures !IsFatal(AnswerAt(fed, respond, j)) && Contribution(AnswerAt(fed, respond, j)) == []
    {
      assert IsSkipped(AnswerAt(fed, respond, j));
    }
    CollectedEmpty(fed, respond);
  }

  /** The worked example: two seconds of 44.1 kHz stereo (88,200 frames) mixes down to 88,200
      mono samples, and the expected length at 16 kHz is 32,000 samples. */
  lemma StereoExample(interleaved: seq<real>)
    requires |interleaved| == 2 * 88200
    ensures |MixDown(interleaved, 2)| == 88200
    ensures ExpectedLen(88200, 44100, TARGET_SAMPLE_RATE) == 32000
  {
  }
}
