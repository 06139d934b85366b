# Handy audio-file decoding, modelled in Dafny

Handy can transcribe an audio file from disk. The command `transcribe_audio_file` first validates the path:

- the file must exist;
- its extension, lowercased, must be one of `wav, mp3, flac, m4a, aac, ogg, oga`;
- the result carries the file's name.

Then `decode_audio_file` turns the file into mono samples at 16 kHz:

1. It picks the first track with a real codec. The track must have a sample rate; a missing channel layout means one channel.
2. It reads packets until the stream ends. It skips packets of other tracks, recoverable decode errors and empty blocks. It appends the interleaved samples of every other block, in order.
3. It refuses an empty result and mixes each whole frame down to its mean.
4. Unless the source is already at 16 kHz, it resamples. The signal is cut into 1024-sample blocks and the last block is zero-padded. The blocks go in order through a stateful FFT resampler, and the concatenated output is truncated to `ceil(n * 16000 / rate)`.

Modules:

| file | module | what it holds |
|---|---|---|
| `results.dfy` | `Results` | `Option`, `Result` and `AudioFileError`, one constructor per failure of `decode_audio_file` |
| `arith.dfy` | `Arith` | small multiplication and division facts |
| `track_selection.dfy` | `TrackSelection` | track selection (pure) |
| `packet_loop.dfy` | `PacketLoop` | the packet loop (imperative) |
| `mixdown.dfy` | `Mixdown` | the mixdown (pure) |
| `resample.dfy` | `RateConversion` | `resample` (imperative) |
| `file_decoder.dfy` | `FileDecoder` | the whole of `decode_audio_file` |
| `file_transcription.dfy` | `FileTranscription` | the path validation (pure) |

The library objects are modelled by what they answer:

- **Format reader.** `FormatReader` is a class. It yields its packets in order, then keeps returning one terminal error. For a well-formed file that error is the `UnexpectedEof` I/O error.
- **Decoder.** Symphonia decoders carry state from packet to packet, so `Decoder` answers with a function of every packet it has been given so far. Its `fed` field records those packets.
- **Resampler.** rubato's `FftFixedIn` is modelled the same way by `Resampler`, a function of the blocks fed to it so far.

The imperative methods are each proved equal to a reference function:

- `DecodePackets` to `LoopResult`;
- `Resample` to `ResampleResult`;
- `DecodeAudioFile` to `DecodeResult`.

The properties are proved about those functions.

Two facts about the code that are easy to get wrong:

- **The two-second stereo example.** `ceil(88200 * 16000 / 44100)` is 32,000, so two seconds of 44.1 kHz audio resample to 32,000 samples (`StereoExample`).
- **Output length.** `resample` only truncates. Its output is `min(produced, ceil(n * to / from))` long and is never padded up (`ResampleResult`).

The error strings of the path validation are modelled as a `Rejection` value; `RejectionMessage` renders it as the command's text.

## Model

| member | source | states |
|---|---|---|
| TrackSelection.FirstAudioTrack | src-tauri/src/audio_toolkit/audio/file_decoder.rs:42-46 | the index found is of a track with a non-null codec and every earlier track has the null codec; none is found exactly when every track has the null codec |
| TrackSelection.SelectTrack | src-tauri/src/audio_toolkit/audio/file_decoder.rs:42-54 | `NoAudioTrack` exactly when all codecs are null; `MissingSampleRate` exactly when the first audio track has no rate; otherwise that track's id, codec, rate and channel count, with 1 channel when the layout is absent |
| TrackSelection.ChannelCount | src-tauri/src/audio_toolkit/audio/file_decoder.rs:54 | definition (no ensures): the channel count of the layout, or 1 when the track has no layout |
| TrackSelection.LeadingDataTracksIgnored | src-tauri/src/audio_toolkit/audio/file_decoder.rs:42-46 | null-codec tracks placed in front of the tracks do not change the selection |
| PacketLoop.FormatReader.NextPacket | src-tauri/src/audio_toolkit/audio/file_decoder.rs:70-78 | yields the next packet and advances, or yields the terminal error once the packets are exhausted |
| PacketLoop.Decoder.Decode | src-tauri/src/audio_toolkit/audio/file_decoder.rs:85-92 | the packet is appended to the decoder's history and the answer is the decoder's answer to that history |
| PacketLoop.Selected | src-tauri/src/audio_toolkit/audio/file_decoder.rs:80-83 | the packets that reach the decoder all belong to the selected track and come from the stream; `SelectedSingle` and `SelectedConcat` pin down which ones |
| PacketLoop.SelectedSingle | src-tauri/src/audio_toolkit/audio/file_decoder.rs:80-83 | a single packet reaches the decoder exactly when it belongs to the selected track |
| PacketLoop.SelectedInOrder | src-tauri/src/audio_toolkit/audio/file_decoder.rs:80-83 | every packet of the selected track reaches the decoder, after all the selected packets that precede it in the stream |
| PacketLoop.Contribution | src-tauri/src/audio_toolkit/audio/file_decoder.rs:94-102 | definition (no ensures): a decoded block adds its interleaved samples unless it has zero frames; a recoverable decode error adds nothing |
| PacketLoop.Collected | src-tauri/src/audio_toolkit/audio/file_decoder.rs:94-102 | definition (no ensures): the accumulator is the in-order concatenation of the contributions of the decoder's answers to each prefix of the packets it was given |
| PacketLoop.FirstFatal | src-tauri/src/audio_toolkit/audio/file_decoder.rs:85-92 | the position found holds a fatal decode (an error other than `DecodeError`) and no earlier decode is fatal |
| PacketLoop.LoopResult | src-tauri/src/audio_toolkit/audio/file_decoder.rs:69-103 | success exactly when the stream ends with `UnexpectedEof` and no selected packet decodes fatally, with the in-order concatenation of the contributions; `FatalDecodeError` exactly when some selected packet decodes fatally, whatever the end; `PacketReadError` exactly when none does and the end is not `UnexpectedEof` |
| PacketLoop.DecodePackets | src-tauri/src/audio_toolkit/audio/file_decoder.rs:66-103 | the loop returns `LoopResult`; the decoder has seen a prefix of the selected packets, all of them on success, and on a fatal error exactly those up to and including the first fatal one; on success and on a read error the reader has consumed every packet |
| PacketLoop.SelectedConcat | src-tauri/src/audio_toolkit/audio/file_decoder.rs:80-83 | filtering by track distributes over concatenation of streams |
| PacketLoop.ForeignPacketIgnored | src-tauri/src/audio_toolkit/audio/file_decoder.rs:80-83 | inserting a packet of another track anywhere changes neither what the decoder sees nor the loop's result |
| PacketLoop.CollectedGrows | src-tauri/src/audio_toolkit/audio/file_decoder.rs:100-102 | the accumulator is append-only: its value after a prefix of the packets is a prefix of its final value |
| PacketLoop.CollectedEmpty | src-tauri/src/audio_toolkit/audio/file_decoder.rs:94-102 | the accumulator is empty exactly when every decode contributed nothing |
| PacketLoop.CollectedWholeFrames | src-tauri/src/audio_toolkit/audio/file_decoder.rs:100-102 | blocks of whole frames accumulate to whole frames |
| Mixdown.FrameMeans | src-tauri/src/audio_toolkit/audio/file_decoder.rs:111-114 | one mean per whole frame: the length is the floor of the buffer length over the channel count |
| Mixdown.FrameMeansAt | src-tauri/src/audio_toolkit/audio/file_decoder.rs:112-113 | mono sample i is the mean of the frame `[i*C, i*C+C)`, which lies inside the buffer |
| Mixdown.Mean | src-tauri/src/audio_toolkit/audio/file_decoder.rs:113 | definition (no ensures): the sum of the frame divided by its length, the channel count |
| Mixdown.MixDown | src-tauri/src/audio_toolkit/audio/file_decoder.rs:110-117 | with one channel (or none) the buffer passes through unchanged; with more, the length is `len / C` and sample i is the mean of frame i |
| Mixdown.MeanOfEqualChannels | src-tauri/src/audio_toolkit/audio/file_decoder.rs:113 | a frame whose channels all carry the same value mixes down to that value |
| Mixdown.MixDownUpmix | src-tauri/src/audio_toolkit/audio/file_decoder.rs:110-117 | mixing down a signal repeated on every channel returns the signal |
| Mixdown.FrameMeansAppend | src-tauri/src/audio_toolkit/audio/file_decoder.rs:111-114 | buffers split on a frame boundary mix down independently |
| Mixdown.PartialFrameDropped | src-tauri/src/audio_toolkit/audio/file_decoder.rs:112 | a trailing partial frame contributes nothing to the mono buffer |
| RateConversion.Pad | src-tauri/src/audio_toolkit/audio/file_decoder.rs:150-157 | a padded block is 1024 long, starts with the chunk and is zero after it |
| RateConversion.Blocks | src-tauri/src/audio_toolkit/audio/file_decoder.rs:149-157 | the resampler gets `ceil(n / 1024)` blocks, each exactly 1024 samples long |
| RateConversion.BlockAt | src-tauri/src/audio_toolkit/audio/file_decoder.rs:149-157 | block k is the input slice starting at `k*1024`, padded with zeros |
| RateConversion.BlocksFlatten | src-tauri/src/audio_toolkit/audio/file_decoder.rs:149-157 | the blocks concatenated are the input followed by zeros up to a whole number of blocks: nothing is lost or reordered |
| RateConversion.Resampler.Process | src-tauri/src/audio_toolkit/audio/file_decoder.rs:159-161 | takes exactly one 1024-sample block, appends it to the resampler's history and answers for that history |
| RateConversion.ExpectedLen | src-tauri/src/audio_toolkit/audio/file_decoder.rs:166 | the least length whose duration at the target rate covers the input: `len*from >= n*to` and `(len-1)*from < n*to` |
| RateConversion.Truncate | src-tauri/src/audio_toolkit/audio/file_decoder.rs:167 | truncation keeps a prefix of length `min(len, limit)` and never extends the buffer |
| RateConversion.Constructs | src-tauri/src/audio_toolkit/audio/file_decoder.rs:141-142 | definition (no ensures): rubato builds a resampler for the two rates, which are both positive |
| RateConversion.Produced | src-tauri/src/audio_toolkit/audio/file_decoder.rs:159-162 | definition (no ensures): the concatenated answers to the blocks fed in order, or nothing once one block fails |
| RateConversion.ResampleResult | src-tauri/src/audio_toolkit/audio/file_decoder.rs:137-170 | creation fails exactly when rubato refuses the rates; success exactly when creation succeeds and every block is processed; the output is then a prefix of the concatenated block outputs, of length `min(produced, ceil(n*to/from))`; the only errors are creation and processing failures |
| RateConversion.FeedBlocks | src-tauri/src/audio_toolkit/audio/file_decoder.rs:148-163 | the loop's output is the concatenation of the resampler's answers to `Blocks(samples)` in order; it feeds a prefix of the blocks, all of them when no block fails, and stops at the first block that fails |
| RateConversion.Resample | src-tauri/src/audio_toolkit/audio/file_decoder.rs:138-170 | returns `ResampleResult`; the resampler is fed a prefix of the blocks in order, all of them on success, and on failure stops at the first block it fails on |
| RateConversion.ProducedPrefix | src-tauri/src/audio_toolkit/audio/file_decoder.rs:159-162 | the output is append-only and a failed block is never recovered from |
| FileDecoder.DecodeAudioFile | src-tauri/src/audio_toolkit/audio/file_decoder.rs:17-135 | open, probe, select, decode, check emptiness, mix down and resample, with the error of the first stage that fails (`DecodeResult`) |
| FileDecoder.Finish | src-tauri/src/audio_toolkit/audio/file_decoder.rs:105-124 | definition (no ensures): an empty accumulator is `EmptyDecodeResult`; otherwise the mixdown, resampled unless the source is at 16 kHz |
| FileDecoder.DecodeResult | src-tauri/src/audio_toolkit/audio/file_decoder.rs:17-124 | definition (no ensures): open, probe, select the track, create the decoder, run the packet loop and `Finish`, with the error of the first stage that fails |
| FileDecoder.TargetRateSkipsResampler | src-tauri/src/audio_toolkit/audio/file_decoder.rs:120-124 | at 16 kHz the result is the mono mixdown and does not depend on the resampler |
| FileDecoder.OutputLength | src-tauri/src/audio_toolkit/audio/file_decoder.rs:120-124 | a successful result is never longer than `ceil(frames * 16000 / rate)` |
| FileDecoder.ExpectedLenSameRate | src-tauri/src/audio_toolkit/audio/file_decoder.rs:166 | converting to the same rate expects the same length |
| FileDecoder.SuccessOnlyAtEndOfStream | src-tauri/src/audio_toolkit/audio/file_decoder.rs:69-107 | success implies the stream ended with `UnexpectedEof`, no selected packet decoded fatally and something was collected |
| FileDecoder.NothingDecodedIsAnError | src-tauri/src/audio_toolkit/audio/file_decoder.rs:85-107 | when every selected packet is a recoverable error or an empty block, the call fails with `EmptyDecodeResult` |
| FileDecoder.StereoExample | src-tauri/src/audio_toolkit/audio/file_decoder.rs:110-124 | 176,400 interleaved stereo samples mix down to 88,200, and 44.1 kHz to 16 kHz expects 32,000 |
| FileTranscription.LastDot | src-tauri/src/commands/file_transcription.rs:52-53 | the index found holds the last '.' of the name; none is found only when there is no '.' |
| FileTranscription.Validate | src-tauri/src/commands/file_transcription.rs:44-70 | a missing file is refused first, with the path; an extension whose lowercase is unsupported is refused with that extension; acceptance happens exactly when the file exists and the lowercased extension is supported, and then the result is the path's file name |
| FileTranscription.SupportedListText | src-tauri/src/commands/file_transcription.rs:11 | the list in the message is "wav, mp3, flac, m4a, aac, ogg, oga" |
| FileTranscription.Split | src-tauri/src/commands/file_transcription.rs:66-67 | the path cut at every '/' into at least one piece |
| FileTranscription.NormalParts | src-tauri/src/commands/file_transcription.rs:66-67 | the components `Path` keeps: no piece is empty or "." |
| FileTranscription.FileName | src-tauri/src/commands/file_transcription.rs:66-70 | definition (no ensures): the last normal component of the path, or none when there is none or it is ".."; `FileNameIsComponent` states what it is |
| FileTranscription.FileNameIsComponent | src-tauri/src/commands/file_transcription.rs:66-70 | a file name found is a component of the path: not empty, not ".", not ".." and free of '/' |
| FileTranscription.Extension | src-tauri/src/commands/file_transcription.rs:52-53 | definition (no ensures): the part of the file name after its last '.', or none when there is no '.' after the first character; `ExtensionIsSuffix` states what it is |
| FileTranscription.ExtensionIsSuffix | src-tauri/src/commands/file_transcription.rs:52-53 | an extension found is free of '.' and the file name ends with "." and it, with something before; there is none exactly when there is no file name or no '.' after its first character |
| FileTranscription.LowercaseExtension | src-tauri/src/commands/file_transcription.rs:52-56 | the empty string when the path has no extension, as `unwrap_or_default` gives; otherwise (by its definition) the extension lowercased |
| FileTranscription.LowercaseExtensionIsLower | src-tauri/src/commands/file_transcription.rs:55-58 | the extension compared against the list is already in lowercase |
| FileTranscription.Join | src-tauri/src/commands/file_transcription.rs:62 | definition (no ensures): the items with the separator between consecutive ones |
| FileTranscription.RejectionMessage | src-tauri/src/commands/file_transcription.rs:47-63 | definition (no ensures): "File not found: " and the path, or "Unsupported audio format: ." with the extension, ". Supported: " and the joined list; `RejectionText` spells both out |
| FileTranscription.RejectionText | src-tauri/src/commands/file_transcription.rs:47-63 | the two refusal texts, with the supported list written out as "wav, mp3, flac, m4a, aac, ogg, oga" |
| FileTranscription.FileNameOfChild | src-tauri/src/commands/file_transcription.rs:66-70 | the file name of `dir/name` is `name` |
| FileTranscription.FileNameOfName | src-tauri/src/commands/file_transcription.rs:66-70 | the file name of `prefix + name` is `name`, for a bare name (empty prefix) and for any prefix ending in '/' |
| FileTranscription.ExtensionOfName | src-tauri/src/commands/file_transcription.rs:52-70 | for `prefix + stem.ext`, with an empty prefix or one ending in '/', the file name is `stem.ext` and the extension is `ext` |
| FileTranscription.DottedNameParts | src-tauri/src/commands/file_transcription.rs:52-70 | validation of `prefix + stem.ext` sees the file name `stem.ext` and the lowercased extension `ext` |
| FileTranscription.HiddenFileRejected | src-tauri/src/commands/file_transcription.rs:52-63 | a name whose only '.' is its first character, bare or after a directory, has no extension and is refused with the empty extension |
| FileTranscription.LowerIdempotent | src-tauri/src/commands/file_transcription.rs:55 | lowercasing twice is lowercasing once |
| FileTranscription.LowerOfUpper | src-tauri/src/commands/file_transcription.rs:55 | uppercasing and then lowercasing is lowercasing |
| FileTranscription.ExtensionCaseIgnored | src-tauri/src/commands/file_transcription.rs:52-58 | `prefix + stem.EXT` is accepted exactly when `prefix + stem.ext` is, bare or after a directory |
| FileTranscription.AcceptedName | src-tauri/src/commands/file_transcription.rs:52-70 | an existing `prefix + stem.ext`, bare or after a directory, is accepted exactly when the lowercased `ext` is supported, and then the result is `stem.ext` |
| FileTranscription.UppercaseNameAccepted | src-tauri/src/commands/file_transcription.rs:44-70 | the bare name "FILE.WAV" is accepted, with that name |
| FileTranscription.LowercaseNameAccepted | src-tauri/src/commands/file_transcription.rs:44-70 | the bare name "file.wav" is accepted, with that name |

## Left out

- Opening the file, the extension hint and probing. These become the `AudioFile` cases `Unopenable` and `Unrecognised`, and a `Container` whose tracks and packets are given.
- symphonia's format reading and decoding internals. A decoder is its answer to the packets it has been given. Whether a codec is supported is the set `Codecs.supported`.
- rubato's FFT resampling. A resampler is its answer to the blocks it has been given. Whether it can be built for a rate pair is `Rubato.builds`.
- RateConversion.Constructs: a zero rate is taken to make resampler construction fail. The code never passes a zero target rate.
- Mixdown.MixDown: samples are reals, so the f32 rounding of the sum and of the division is not modelled.
- RateConversion.ExpectedLen: computed as the exact integer ceiling `(n*to + from - 1) / from`. The source computes it in f64, whose rounding could differ for very large inputs.
- The output capacity hint in `resample`. It does not change behaviour.
- The logging, and the duration computed only for logging.
- `Path::exists` is a query of the file system. It becomes the `present` parameter of `Validate`.
- FileTranscription.LowercaseExtension: lowercasing maps ASCII letters only. Rust's `to_lowercase` also maps non-ASCII letters.
- FileTranscription.FileName: paths are Unix paths. Windows prefixes and the `\` separator are not modelled.
- The non-UTF-8 branches of `to_str`. The path arrives as a Rust `String`, so the extension and file name are always valid UTF-8.
- The "unknown" file-name fallback is kept in `Validate`, but it is unreachable: an accepted path has an extension, hence a file name, as `Validate`'s postcondition shows.
- Everything in `transcribe_audio_file` after validation: the blocking task, progress events, the transcription and history managers, and timing. This is asynchronous orchestration and I/O.
- The module files `audio_toolkit/mod.rs` and `audio_toolkit/audio/mod.rs`. They only declare and re-export.
