/** Choosing the track to decode and resolving its parameters (`decode_audio_file`, first part). */
module TrackSelection {
  import opened Results

  /** symphonia's `CODEC_TYPE_NULL`: the codec identifier of a track that carries no codec. */
  const CODEC_TYPE_NULL: nat := 0

  /** A track as the container reports it: its id and the codec parameters that matter here.
      `channels` is the number of channels in the track's channel layout, when it has one. */
  datatype Track = Track(id: nat, codec: nat, sampleRate: Option<nat>, channels: Option<nat>)

  /** The resolved parameters of the selected track. */
  datatype TrackParams = TrackParams(trackId: nat, codec: nat, sampleRate: nat, channels: nat)

  /** The index of the first track whose codec is not the null codec (`Iterator::find`). */
  function FirstAudioTrack(tracks: seq<Track>): (r: Option<nat>)
    ensures r.Some? ==> r.value < |tracks| && tracks[r.value].codec != CODEC_TYPE_NULL
    ensures r.Some? ==> forall j :: 0 <= j < r.value ==> tracks[j].codec == CODEC_TYPE_NULL
    ensures r.None? <==> forall j :: 0 <= j < |tracks| ==> tracks[j].codec == CODEC_TYPE_NULL
  {
    if tracks == [] then None
    else if tracks[0].codec != CODEC_TYPE_NULL then Some(0)
    else match FirstAudioTrack(tracks[1..])
      case None => None
      case Some(k) => Some(k + 1)
  }

  /** Track selection: the first non-null track, its sample rate (required) and its channel
      count (1 when the track has no channel layout). */
  function SelectTrack(tracks: seq<Track>): (r: Result<TrackParams, AudioFileError>)
    ensures r == Err(NoAudioTrack) <==>
              forall j :: 0 <= j < |tracks| ==> tracks[j].codec == CODEC_TYPE_NULL
    ensures r.Ok? ==>
              exists k :: 0 <= k < |tracks| && Chosen(tracks, k) &&
                          tracks[k].sampleRate == Some(r.value.sampleRate) &&
                          r.value == TrackParams(tracks[k].id, tracks[k].codec, r.value.sampleRate,
                                                 ChannelCount(tracks[k]))
    ensures r == Err(MissingSampleRate) <==>
              exists k :: 0 <= k < |tracks| && Chosen(tracks, k) && tracks[k].sampleRate.None?
    ensures r.Ok? || r == Err(NoAudioTrack) || r == Err(MissingSampleRate)
  {
    match FirstAudioTrack(tracks)
    case None => Err(NoAudioTrack)
    case Some(k) =>
      var t := tracks[k];
      match t.sampleRate
      case None => Err(MissingSampleRate)
      case Some(rate) => Ok(TrackParams(t.id, t.codec, rate, ChannelCount(t)))
  }

  /** Track k is the one `find` returns: the first with a non-null codec. */
  ghost predicate Chosen(tracks: seq<Track>, k: nat)
    requires k < |tracks|
  {
    tracks[k].codec != CODEC_TYPE_NULL &&
    forall j :: 0 <= j < k ==> tracks[j].codec == CODEC_TYPE_NULL
  }

  /** `codec_params.channels.map(|c| c.count()).unwrap_or(1)` */
  function ChannelCount(t: Track): nat
  {
    match t.channels
    case None => 1
    case Some(c) => c
  }

  /** Null-codec tracks in front of the audio track do not change the selection. */
  lemma {:induction false} LeadingDataTracksIgnored(data: seq<Track>, tracks: seq<Track>)
    requires forall j :: 0 <= j < |data| ==> data[j].codec == CODEC_TYPE_NULL
    ensures SelectTrack(data + tracks) == SelectTrack(tracks)
  {
    FirstAudioShift(data, tracks);
  }

  lemma {:induction false} FirstAudioShift(data: seq<Track>, tracks: seq<Track>)
    requires forall j :: 0 <= j < |data| ==> data[j].codec == CODEC_TYPE_NULL
    ensures FirstAudioTrack(data + tracks) ==
              match FirstAudioTrack(tracks)
              case None => None
              case Some(k) => Some(k + |data|)
  {
    if data == [] {
      assert data + tracks == tracks;
    } else {
      assert (data + tracks)[0] == data[0];
      assert (data + tracks)[1..] == data[1..] + tracks;
      FirstAudioShift(data[1..], tracks);
    }
  }
}
