/** The packet/decode loop of `decode_audio_file` (lines 66-103): read packets until the stream
    ends, skip other tracks, skip recoverable decode errors and empty frames, and append the
    interleaved samples of everything else in order. The demuxer and the codec are symphonia
    objects; here they are modelled by what they answer. */
module PacketLoop {
  import opened Results
  import opened Arith

  /** The `std::io::ErrorKind` of an I/O error, as far as the loop distinguishes it. */
  datatype IoErrorKind = UnexpectedEof | OtherIoKind

  /** symphonia's error type. */
  datatype SymphoniaError =
    | IoError(kind: IoErrorKind)
    | DecodeError(msg: string)
    | SeekError
    | Unsupported(feature: string)
    | LimitError(limit: string)
    | ResetRequired

  /** A compressed packet: the track it belongs to and its opaque payload. */
  datatype Packet = Packet(trackId: nat, payload: seq<bv8>)

  /** What decoding one packet yields: a block of `frames` frames whose interleaved f32
      samples are `samples`, or an error. */
  datatype DecodeOutcome = Decoded(frames: nat, samples: seq<real>) | Failed(error: SymphoniaError)

  /** The container's format reader. It yields `packets` in stream order and then, on every
      further call, the error `end` (for a well-formed file, an `UnexpectedEof` I/O error). */
  class FormatReader {
    const packets: seq<Packet>
    const end: SymphoniaError
    var pos: nat

    ghost predicate Valid()
      reads this
    {
      pos <= |packets|
    }

    constructor (packets: seq<Packet>, end: SymphoniaError)
      ensures Valid() && this.packets == packets && this.end == end && pos == 0
    {
      this.packets := packets;
      this.end := end;
      pos := 0;
    }

    /** `next_packet()` */
    method NextPacket() returns (r: Result<Packet, SymphoniaError>)
      requires Valid()
      modifies this
      ensures Valid()
      ensures old(pos) < |packets| ==> r == Ok(packets[old(pos)]) && pos == old(pos) + 1
      ensures old(pos) == |packets| ==> r == Err(end) && pos == old(pos)
    {
      if pos < |packets| {
        r := Ok(packets[pos]);
        pos := pos + 1;
      } else {
        r := Err(end);
      }
    }
  }

  /** The codec's decoder. It is stateful: its answer to a packet may depend on every packet
      it was given before, so it is modelled by `respond`, a function of the whole history
      `fed` of packets passed to `Decode`. */
  class Decoder {
    const respond: seq<Packet> -> DecodeOutcome
    var fed: seq<Packet>

    constructor (respond: seq<Packet> -> DecodeOutcome)
      ensures this.respond == respond && fed == []
    {
      this.respond := respond;
      fed := [];
    }

    /** `decoder.decode(&packet)` */
    method Decode(packet: Packet) returns (outcome: DecodeOutcome)
      modifies this
      ensures fed == old(fed) + [packet]
      ensures outcome == respond(fed)
    {
      fed := fed + [packet];
      outcome := respond(fed);
    }
  }

  /** The packets of track `track`, in stream order: what the decoder is given. */
  function Selected(packets: seq<Packet>, track: nat): (sel: seq<Packet>)
    ensures |sel| <= |packets|
    ensures forall p :: p in sel ==> p.trackId == track && p in packets
  {
    if packets == [] then []
    else
      var last := packets[|packets| - 1];
      var init := Selected(packets[..|packets| - 1], track);
      if last.trackId == track then init + [last] else init
  }

  /** A decode error that aborts the whole call: any error other than `DecodeError`. */
  predicate IsFatal(outcome: DecodeOutcome)
  {
    outcome.Failed? && !outcome.error.DecodeError?
  }

  /** An answer the loop steps over: a recoverable `DecodeError` or a block of zero frames. */
  predicate IsSkipped(outcome: DecodeOutcome)
  {
    (outcome.Failed? && outcome.error.DecodeError?) || (outcome.Decoded? && outcome.frames == 0)
  }

  /** The samples one decode appends to the accumulator: nothing for a failed decode or an
      empty block. */
  function Contribution(outcome: DecodeOutcome): seq<real>
  {
    match outcome
    case Decoded(frames, samples) => if frames == 0 then [] else samples
    case Failed(_) => []
  }

  /** The accumulator after the decoder has been given `fed`: the in-order concatenation of
      the contributions of its answers. */
  function Collected(fed: seq<Packet>, respond: seq<Packet> -> DecodeOutcome): seq<real>
  {
    if fed == [] then []
    else Collected(fed[..|fed| - 1], respond) + Contribution(respond(fed))
  }

  /** The decoder's answer to the j-th packet of `fed`, given everything before it. */
  function AnswerAt(fed: seq<Packet>, respond: seq<Packet> -> DecodeOutcome, j: nat): DecodeOutcome
    requires j < |fed|
  {
    respond(fed[..j + 1])
  }

  /** No decode of `fed` is fatal. */
  predicate NoFatal(fed: seq<Packet>, respond: seq<Packet> -> DecodeOutcome)
  {
    forall j :: 0 <= j < |fed| ==> !IsFatal(AnswerAt(fed, respond, j))
  }

  /** Every decode of `fed` is stepped over. */
  predicate AllSkipped(fed: seq<Packet>, respond: seq<Packet> -> DecodeOutcome)
  {
    forall j :: 0 <= j < |fed| ==> IsSkipped(AnswerAt(fed, respond, j))
  }

  /** The position (from `i` on) of the first packet of `sel` whose decode is fatal, or `|sel|`. */
  function FirstFatal(sel: seq<Packet>, respond: seq<Packet> -> DecodeOutcome, i: nat): (k: nat)
    requires i <= |sel|
    ensures i <= k <= |sel|
    ensures k < |sel| ==> IsFatal(AnswerAt(sel, respond, k))
    ensures forall j :: i <= j < k ==> !IsFatal(AnswerAt(sel, respond, j))
    decreases |sel| - i
  {
    if i == |sel| then |sel|
    else if IsFatal(AnswerAt(sel, respond, i)) then i
    else FirstFatal(sel, respond, i + 1)
  }

  /** What the loop produces for a reader that yields `packets` and then `end`: a fatal
      decode aborts; otherwise the stream's end decides between success and a read error. */
  function LoopResult(packets: seq<Packet>, end: SymphoniaError, track: nat,
                      respond: seq<Packet> -> DecodeOutcome): (r: Result<seq<real>, AudioFileError>)
    ensures r.Ok? <==> end == IoError(UnexpectedEof) && NoFatal(Selected(packets, track), respond)
    ensures r.Ok? ==> r.value == Collected(Selected(packets, track), respond)
    ensures r.Err? ==> r.error == FatalDecodeError || r.error == PacketReadError
    ensures r == Err(FatalDecodeError) <==> !NoFatal(Selected(packets, track), respond)
    ensures r == Err(PacketReadError) <==>
              end != IoError(UnexpectedEof) && NoFatal(Selected(packets, track), respond)
  {
    var sel := Selected(packets, track);
    var k := FirstFatal(sel, respond, 0);
    if k < |sel| then
      assert IsFatal(AnswerAt(sel, respond, k));
      Err(FatalDecodeError)
    else
      assert NoFatal(sel, respond);
      if end == IoError(UnexpectedEof) then Ok(Collected(sel, respond))
      else Err(PacketReadError)
  }

  /** The loop itself. The decoder sees exactly the packets of the selected track, in order,
      up to the first fatal one. */
  method DecodePackets(reader: FormatReader, track: nat, decoder: Decoder)
    returns (r: Result<seq<real>, AudioFileError>)
    requires reader.Valid() && reader.pos == 0 && decoder.fed == []
    modifies reader, decoder
    ensures r == LoopResult(reader.packets, reader.end, track, decoder.respond)
    ensures decoder.fed <= Selected(reader.packets, track)
    ensures r.Ok? ==> decoder.fed == Selected(reader.packets, track)
    ensures r.Ok? || r == Err(PacketReadError) ==> reader.pos == |reader.packets|
    ensures r == Err(FatalDecodeError) ==>
              |decoder.fed| == FirstFatal(Selected(reader.packets, track), decoder.respond, 0) + 1
  {
    var interleaved: seq<real> := [];
    while true
      invariant reader.Valid()
      invariant decoder.fed == Selected(reader.packets[..reader.pos], track)
      invariant interleaved == Collected(decoder.fed, decoder.respond)
      invariant NoFatal(decoder.fed, decoder.respond)
      decreases |reader.packets| - reader.pos
    {
      ghost var before := decoder.fed;
      var next := reader.NextPacket();
      if next.Err? {
        // The reader has no packet left: the stream ends here.
        assert reader.packets[..reader.pos] == reader.packets;
        NoFatalBefore(before, decoder.respond);
        if next.error == IoError(UnexpectedEof) {
          break;
        }
        return Err(PacketReadError);
      }
      var packet := next.value;
      SelectedStep(reader.packets, reader.pos, track);
      if packet.trackId != track {
        continue;
      }
      var decoded := decoder.Decode(packet);
      if decoded.Failed? {
        if decoded.error.DecodeError? {
          FedExtend(before, packet, decoder.respond);
          continue;
        }
        FatalFound(reader.packets, reader.pos, track, decoder.respond);
        return Err(FatalDecodeError);
      }
      FedExtend(before, packet, decoder.respond);
      if decoded.frames == 0 {
        continue;
      }
      interleaved := interleaved + decoded.samples;
    }
    r := Ok(interleaved);
  }

  /** One more packet read: the selected packets grow by it exactly when it is on the track. */
  lemma SelectedStep(packets: seq<Packet>, pos: nat, track: nat)
    requires 0 < pos <= |packets|
    ensures Selected(packets[..pos], track) ==
              Selected(packets[..pos - 1], track) +
              (if packets[pos - 1].trackId == track then [packets[pos - 1]] else [])
  {
    assert packets[..pos][..pos - 1] == packets[..pos - 1];
  }

  /** A decode that is not fatal keeps the loop going and appends its contribution. */
  lemma FedExtend(fed: seq<Packet>, packet: Packet, respond: seq<Packet> -> DecodeOutcome)
    requires NoFatal(fed, respond) && !IsFatal(respond(fed + [packet]))
    ensures NoFatal(fed + [packet], respond)
    ensures Collected(fed + [packet], respond) ==
              Collected(fed, respond) + Contribution(respond(fed + [packet]))
  {
    var fed' := fed + [packet];
    assert fed'[..|fed'| - 1] == fed;
    forall j | 0 <= j < |fed'|
      ensures !IsFatal(AnswerAt(fed', respond, j))
    {
      if j < |fed| {
        AnswerAtPrefix(fed, fed', respond, j);
      } else {
        assert fed'[..j + 1] == fed';
      }
    }
  }

  /** With no fatal answer anywhere in `sel`, `FirstFatal` finds none. */
  lemma NoFatalBefore(sel: seq<Packet>, respond: seq<Packet> -> DecodeOutcome)
    requires NoFatal(sel, respond)
    ensures FirstFatal(sel, respond, 0) == |sel|
  {
  }

  /** The decoder's answers to a prefix of its input are its answers to the whole input. */
  lemma AnswerAtPrefix(fed: seq<Packet>, sel: seq<Packet>, respond: seq<Packet> -> DecodeOutcome, j: nat)
    requires fed <= sel && j < |fed|
    ensures AnswerAt(fed, respond, j) == AnswerAt(sel, respond, j)
  {
    assert fed[..j + 1] == sel[..j + 1];
  }

  /** When the packet at `pos - 1` is the first fatal one among the selected packets, the
      decoder has seen exactly the selected packets up to and including it. */
  lemma FatalFound(packets: seq<Packet>, pos: nat, track: nat, respond: seq<Packet> -> DecodeOutcome)
    requires 0 < pos <= |packets|
    requires var fed := Selected(packets[..pos], track);
             |fed| > 0 && IsFatal(respond(fed)) && NoFatal(fed[..|fed| - 1], respond)
    ensures var fed := Selected(packets[..pos], track);
            var sel := Selected(packets, track);
            fed <= sel && FirstFatal(sel, respond, 0) == |fed| - 1
  {
    var fed := Selected(packets[..pos], track);
    var sel := Selected(packets, track);
    assert packets == packets[..pos] + packets[pos..];
    SelectedConcat(packets[..pos], packets[pos..], track);
    assert fed <= sel;
    assert fed[..|fed| - 1 + 1] == fed;
    AnswerAtPrefix(fed, sel, respond, |fed| - 1);
    forall j | 0 <= j < |fed| - 1
      ensures !IsFatal(AnswerAt(sel, respond, j))
    {
      AnswerAtPrefix(fed[..|fed| - 1], fed, respond, j);
      AnswerAtPrefix(fed, sel, respond, j);
    }
  }

  /** Selection distributes over concatenation of streams. */
  lemma {:induction false} SelectedConcat(a: seq<Packet>, b: seq<Packet>, track: nat)
    ensures Selected(a + b, track) == Selected(a, track) + Selected(b, track)
    decreases |b|
  {
    if b == [] {
      assert a + b == a;
    } else {
      var b' := b[..|b| - 1];
      assert (a + b)[..|a + b| - 1] == a + b';
      assert (a + b)[|a + b| - 1] == b[|b| - 1];
      SelectedConcat(a, b', track);
    }
  }

  /** A single packet is kept exactly when it is on the track. */
  lemma SelectedSingle(p: Packet, track: nat)
    ensures Selected([p], track) == if p.trackId == track then [p] else []
  {
    assert [p][..0] == [];
  }

  /** Every packet of the track reaches the decoder, and in stream order: packet i lands at the
      position given by the number of the track's packets before it. */
  lemma SelectedInOrder(packets: seq<Packet>, i: nat, track: nat)
    requires i < |packets| && packets[i].trackId == track
    ensures |Selected(packets[..i], track)| < |Selected(packets, track)|
    ensures Selected(packets, track)[|Selected(packets[..i], track)|] == packets[i]
  {
    var a, b := packets[..i], packets[i + 1..];
    assert packets == a + [packets[i]] + b;
    SelectedConcat(a + [packets[i]], b, track);
    SelectedConcat(a, [packets[i]], track);
    SelectedSingle(packets[i], track);
  }

  /** Packets of another track, inserted anywhere in the stream, change nothing: they never
      reach the decoder and never touch the accumulator. */
  lemma ForeignPacketIgnored(packets: seq<Packet>, at: nat, foreign: Packet, end: SymphoniaError,
                             track: nat, respond: seq<Packet> -> DecodeOutcome)
    requires at <= |packets| && foreign.trackId != track
    ensures Selected(packets[..at] + [foreign] + packets[at..], track) == Selected(packets, track)
    ensures LoopResult(packets[..at] + [foreign] + packets[at..], end, track, respond)
         == LoopResult(packets, end, track, respond)
  {
    var a, b := packets[..at], packets[at..];
    SelectedConcat(a + [foreign], b, track);
    SelectedConcat(a, [foreign], track);
    assert Selected([foreign], track) == [] by {
      assert [foreign][..0] == [];
    }
    SelectedConcat(a, b, track);
    assert a + b == packets;
  }

  /** The accumulator only grows: what was collected after a prefix of the decoder's input is
      a prefix of what is collected after all of it. */
  lemma {:induction false} CollectedGrows(fed: seq<Packet>, k: nat, respond: seq<Packet> -> DecodeOutcome)
    requires k <= |fed|
    ensures Collected(fed[..k], respond) <= Collected(fed, respond)
    decreases |fed| - k
  {
    if k < |fed| {
      var init := fed[..|fed| - 1];
      assert init[..k] == fed[..k];
      CollectedGrows(init, k, respond);
    } else {
      assert fed[..k] == fed;
    }
  }

  /** The accumulator is empty exactly when no decode of the selected track contributed a
      non-empty block. */
  lemma {:induction false} CollectedEmpty(fed: seq<Packet>, respond: seq<Packet> -> DecodeOutcome)
    ensures Collected(fed, respond) == [] <==>
              forall j :: 0 <= j < |fed| ==> Contribution(AnswerAt(fed, respond, j)) == []
  {
    if fed != [] {
      var init := fed[..|fed| - 1];
      CollectedEmpty(init, respond);
      assert fed[..|fed| - 1 + 1] == fed;
      assert AnswerAt(fed, respond, |fed| - 1) == respond(fed);
      forall j | 0 <= j < |init|
        ensures AnswerAt(init, respond, j) == AnswerAt(fed, respond, j)
      {
        AnswerAtPrefix(init, fed, respond, j);
      }
    }
  }

  /** When every contributing block holds whole frames of `channels` samples, so does the
      accumulator: the mixdown then drops no partial frame. */
  lemma {:induction false} CollectedWholeFrames(fed: seq<Packet>, respond: seq<Packet> -> DecodeOutcome,
                                                channels: nat)
    requires channels > 0
    requires forall j :: 0 <= j < |fed| ==> |Contribution(AnswerAt(fed, respond, j))| % channels == 0
    ensures |Collected(fed, respond)| % channels == 0
  {
    if fed != [] {
      var init := fed[..|fed| - 1];
      forall j | 0 <= j < |init|
        ensures |Contribution(AnswerAt(init, respond, j))| % channels == 0
      {
        AnswerAtPrefix(init, fed, respond, j);
      }
      CollectedWholeFrames(init, respond, channels);
      assert fed[..|fed| - 1 + 1] == fed;
      assert AnswerAt(fed, respond, |fed| - 1) == respond(fed);
      ModAdd(|Collected(init, respond)|, |Contribution(respond(fed))|, channels);
    }
  }
}
