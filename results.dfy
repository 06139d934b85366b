/** Outcome types shared by the decoder pipeline and the file-transcription command. */
module Results {

  /** An optional value (Rust's `Option`). */
  datatype Option<+T> = None | Some(value: T)

  /** Success or failure (Rust's `Result`). */
  datatype Result<+T, +E> = Ok(value: T) | Err(error: E)

  /** The failures `decode_audio_file` reports, one per error site, in the order the stages
      run: opening, probing, track selection, decoder creation, the packet loop, the empty
      check and the resampler. */
  datatype AudioFileError =
    | OpenFailed
    | ProbeFailed
    | NoAudioTrack
    | MissingSampleRate
    | DecoderCreationFailed
    | PacketReadError
    | FatalDecodeError
    | EmptyDecodeResult
    | ResamplerCreationFailed
    | ResamplingFailed
}
