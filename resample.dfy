/** `resample` (file_decoder.rs, lines 137-170): cut the mono signal into blocks of 1024
    samples, zero-pad the last one, feed the blocks in order to a stateful rubato `FftFixedIn`
    resampler, concatenate what it returns and truncate to the expected length. The FFT
    resampling itself is rubato's and is modelled only by what the resampler answers. */
module RateConversion {
  import opened Results
  import opened Arith

  /** The block size the resampler is built for. */
  const CHUNK_SIZE: nat := 1024

  /** `n` zero samples. */
  function Zeros(n: nat): (z: seq<real>)
    ensures |z| == n
    ensures forall i :: 0 <= i < n ==> z[i] == 0.0
  {
    if n == 0 then [] else Zeros(n - 1) + [0.0]
  }

  /** A short last chunk, right-padded with zeros to a whole block (`resize(CHUNK_SIZE, 0.0)`). */
  function Pad(chunk: seq<real>): (block: seq<real>)
    requires |chunk| <= CHUNK_SIZE
    ensures |block| == CHUNK_SIZE
    ensures block[..|chunk|] == chunk
    ensures forall i :: |chunk| <= i < CHUNK_SIZE ==> block[i] == 0.0
  {
    chunk + Zeros(CHUNK_SIZE - |chunk|)
  }

  /** The number of chunks `samples.chunks(CHUNK_SIZE)` yields: `ceil(n / CHUNK_SIZE)`. */
  function NumBlocks(n: nat): nat
  {
    (n + CHUNK_SIZE - 1) / CHUNK_SIZE
  }

  /** The blocks the resampler is given, in order: the input cut into chunks of `CHUNK_SIZE`,
      a shorter last chunk padded with zeros. */
  function Blocks(samples: seq<real>): (blocks: seq<seq<real>>)
    ensures |blocks| == NumBlocks(|samples|)
    ensures forall k :: 0 <= k < |blocks| ==> |blocks[k]| == CHUNK_SIZE
    decreases |samples|
  {
    if samples == [] then []
    else if |samples| < CHUNK_SIZE then [Pad(samples)]
    else
      assert NumBlocks(|samples|) == NumBlocks(|samples| - CHUNK_SIZE) + 1 by {
        DivStep(|samples| + CHUNK_SIZE - 1, CHUNK_SIZE);
      }
      [samples[..CHUNK_SIZE]] + Blocks(samples[CHUNK_SIZE..])
  }

  /** The concatenation of a sequence of blocks. */
  function Flatten(blocks: seq<seq<real>>): seq<real>
  {
    if blocks == [] then [] else blocks[0] + Flatten(blocks[1..])
  }

  /** Block k is the input slice `[k*1024, min(k*1024+1024, n))` followed by zeros. */
  lemma {:induction false} BlockAt(samples: seq<real>, k: nat)
    requires k < |Blocks(samples)|
    ensures k * CHUNK_SIZE < |samples|
    ensures var hi := if k * CHUNK_SIZE + CHUNK_SIZE <= |samples| then k * CHUNK_SIZE + CHUNK_SIZE
                      else |samples|;
            Blocks(samples)[k] == Pad(samples[k * CHUNK_SIZE .. hi])
    decreases k
  {
    if k > 0 {
      var rest := samples[CHUNK_SIZE..];
      BlockAt(rest, k - 1);
      var off := (k - 1) * CHUNK_SIZE;
      assert k * CHUNK_SIZE == off + CHUNK_SIZE by { MulStep(k - 1, CHUNK_SIZE); }
      var hi := if off + CHUNK_SIZE <= |rest| then off + CHUNK_SIZE else |rest|;
      assert rest[off .. hi] == samples[off + CHUNK_SIZE .. hi + CHUNK_SIZE];
    } else if |samples| >= CHUNK_SIZE {
      assert samples[..CHUNK_SIZE] == Pad(samples[..CHUNK_SIZE]);
    }
  }

  /** Cutting and padding loses and reorders nothing: the blocks, concatenated, are the input
      followed by zeros up to a whole number of blocks. */
  lemma {:induction false} BlocksFlatten(samples: seq<real>)
    ensures Flatten(Blocks(samples)) ==
              samples + Zeros(NumBlocks(|samples|) * CHUNK_SIZE - |samples|)
    decreases |samples|
  {
    var n := |samples|;
    if samples == [] {
      assert samples + Zeros(0) == samples;
    } else if n < CHUNK_SIZE {
      assert NumBlocks(n) == 1;
      assert Flatten([Pad(samples)]) == Pad(samples) + [];
    } else {
      var rest := samples[CHUNK_SIZE..];
      BlocksFlatten(rest);
      var m := NumBlocks(n);
      assert m == NumBlocks(n - CHUNK_SIZE) + 1 by { DivStep(n + CHUNK_SIZE - 1, CHUNK_SIZE); }
      assert m * CHUNK_SIZE - n == NumBlocks(n - CHUNK_SIZE) * CHUNK_SIZE - (n - CHUNK_SIZE) by {
        MulStep(NumBlocks(n - CHUNK_SIZE), CHUNK_SIZE);
      }
      assert Blocks(samples)[1..] == Blocks(rest);
      assert samples == samples[..CHUNK_SIZE] + rest;
    }
  }

  /** The rubato resampler. It is stateful (it carries overlap between blocks), so its answer to
      a block is modelled by `respond`, a function of every block `fed` to it so far; an answer
      of `None` is a processing error. */
  class Resampler {
    const respond: seq<seq<real>> -> Option<seq<real>>
    var fed: seq<seq<real>>

    constructor (respond: seq<seq<real>> -> Option<seq<real>>)
      ensures this.respond == respond && fed == []
    {
      this.respond := respond;
      fed := [];
    }

    /** `process(&[&input], None)`: takes exactly one block of `CHUNK_SIZE` samples. */
    method Process(block: seq<real>) returns (out: Option<seq<real>>)
      requires |block| == CHUNK_SIZE
      modifies this
      ensures fed == old(fed) + [block]
      ensures out == respond(fed)
    {
      fed := fed + [block];
      out := respond(fed);
    }
  }

  /** The resampler library as this code uses it: whether `FftFixedIn::new` succeeds for a rate
      pair (besides refusing a zero rate), and how the resampler built for a pair answers. */
  datatype Rubato = Rubato(builds: (nat, nat) -> bool,
                           resamplerFor: (nat, nat) -> (seq<seq<real>> -> Option<seq<real>>))

  /** Whether construction succeeds: rubato refuses a zero sample rate. */
  predicate Constructs(rubato: Rubato, fromHz: nat, toHz: nat)
  {
    fromHz > 0 && toHz > 0 && rubato.builds(fromHz, toHz)
  }

  /** The concatenated answers to the first `k` blocks, or `None` if one of them failed. */
  function Produced(blocks: seq<seq<real>>, respond: seq<seq<real>> -> Option<seq<real>>): Option<seq<real>>
  {
    if blocks == [] then Some([])
    else match Produced(blocks[..|blocks| - 1], respond)
      case None => None
      case Some(out) =>
        match respond(blocks)
        case None => None
        case Some(b) => Some(out + b)
  }

  /** `ceil(n * to / from)`, computed on integers. */
  function ExpectedLen(n: nat, fromHz: nat, toHz: nat): (len: nat)
    requires fromHz > 0
    ensures len * fromHz >= n * toHz
    ensures len > 0 ==> (len - 1) * fromHz < n * toHz
  {
    var m := n * toHz + fromHz - 1;
    var len := m / fromHz;
    assert len * fromHz <= m < len * fromHz + fromHz;
    assert len > 0 ==> (len - 1) * fromHz == len * fromHz - fromHz by { MulSub(len, 1, fromHz); }
    len
  }

  /** `output.truncate(len)`: keep at most the first `len` samples. */
  function Truncate(output: seq<real>, len: nat): (r: seq<real>)
    ensures r <= output
    ensures |r| == if |output| <= len then |output| else len
  {
    if |output| <= len then output else output[..len]
  }

  /** What `resample` returns. */
  function ResampleResult(samples: seq<real>, fromHz: nat, toHz: nat, rubato: Rubato)
    : (r: Result<seq<real>, AudioFileError>)
    ensures !Constructs(rubato, fromHz, toHz) <==> r == Err(ResamplerCreationFailed)
    ensures r.Ok? <==>
              Constructs(rubato, fromHz, toHz) &&
              Produced(Blocks(samples), rubato.resamplerFor(fromHz, toHz)).Some?
    ensures r.Ok? ==>
              Produced(Blocks(samples), rubato.resamplerFor(fromHz, toHz)).Some? &&
              r.value <= Produced(Blocks(samples), rubato.resamplerFor(fromHz, toHz)).value &&
              |r.value| <= ExpectedLen(|samples|, fromHz, toHz)
    ensures r.Ok? ==>
              var produced := Produced(Blocks(samples), rubato.resamplerFor(fromHz, toHz)).value;
              |r.value| == if |produced| <= ExpectedLen(|samples|, fromHz, toHz) then |produced|
                           else ExpectedLen(|samples|, fromHz, toHz)
    ensures r.Ok? || r == Err(ResamplerCreationFailed) || r == Err(ResamplingFailed)
  {
    if !Constructs(rubato, fromHz, toHz) then Err(ResamplerCreationFailed)
    else match Produced(Blocks(samples), rubato.resamplerFor(fromHz, toHz))
      case None => Err(ResamplingFailed)
      case Some(output) => Ok(Truncate(output, ExpectedLen(|samples|, fromHz, toHz)))
  }

  /** The `for` loop of `resample`: the resampler is given exactly the blocks of
      `Blocks(samples)`, in order, stopping at the first block it fails on; the answers are
      concatenated. */
  method FeedBlocks(resampler: Resampler, samples: seq<real>) returns (out: Option<seq<real>>)
    requires resampler.fed == []
    modifies resampler
    ensures out == Produced(Blocks(samples), resampler.respond)
    ensures resampler.fed <= Blocks(samples)
    ensures out.Some? ==> resampler.fed == Blocks(samples)
    ensures out.None? ==>
              resampler.fed != [] && resampler.respond(resampler.fed).None? &&
              Produced(resampler.fed[..|resampler.fed| - 1], resampler.respond).Some?
  {
    var output: seq<real> := [];
    var rest := samples;
    while rest != []
      invariant Blocks(samples) == resampler.fed + Blocks(rest)
      invariant Produced(resampler.fed, resampler.respond) == Some(output)
      decreases |rest|
    {
      var chunk := if |rest| < CHUNK_SIZE then rest else rest[..CHUNK_SIZE];
      var input := if |chunk| < CHUNK_SIZE then Pad(chunk) else chunk;
      BlocksStep(rest);
      ghost var before := resampler.fed;
      var resampled := resampler.Process(input);
      ProducedStep(before, input, resampler.respond, output);
      assert Blocks(samples) == resampler.fed + Blocks(rest[|chunk|..]);
      if resampled.None? {
        assert resampler.fed[..|resampler.fed| - 1] == before;
        ProducedPrefix(Blocks(samples), |resampler.fed|, resampler.respond);
        assert Blocks(samples)[..|resampler.fed|] == resampler.fed;
        return None;
      }
      output := output + resampled.value;
      rest := rest[|chunk|..];
    }
    assert Blocks(samples) == resampler.fed;
    return Some(output);
  }

  /** `resample`: build the resampler, feed it the blocks, truncate the output. */
  method Resample(samples: seq<real>, fromHz: nat, toHz: nat, rubato: Rubato)
    returns (r: Result<seq<real>, AudioFileError>, ghost fed: seq<seq<real>>)
    ensures r == ResampleResult(samples, fromHz, toHz, rubato)
    ensures fed <= Blocks(samples)
    ensures r.Ok? ==> fed == Blocks(samples)
    ensures r == Err(ResamplingFailed) ==>
              fed != [] && rubato.resamplerFor(fromHz, toHz)(fed).None? &&
              Produced(fed[..|fed| - 1], rubato.resamplerFor(fromHz, toHz)).Some?
  {
    if !Constructs(rubato, fromHz, toHz) {
      return Err(ResamplerCreationFailed), [];
    }
    var resampler := new Resampler(rubato.resamplerFor(fromHz, toHz));
    var produced := FeedBlocks(resampler, samples);
    if produced.None? {
      return Err(ResamplingFailed), resampler.fed;
    }
    var output := produced.value;
    output := Truncate(output, ExpectedLen(|samples|, fromHz, toHz));
    return Ok(output), resampler.fed;
  }

  /** The next block taken from the front of what is left of the input. */
  lemma BlocksStep(rest: seq<real>)
    requires rest != []
    ensures var chunk := if |rest| < CHUNK_SIZE then rest else rest[..CHUNK_SIZE];
            Blocks(rest) == [if |chunk| < CHUNK_SIZE then Pad(chunk) else chunk] + Blocks(rest[|chunk|..])
  {
    if |rest| < CHUNK_SIZE {
      assert rest[|rest|..] == [];
    }
  }

  /** Feeding one more block extends the output by the resampler's answer to it. */
  lemma ProducedStep(fed: seq<seq<real>>, block: seq<real>, respond: seq<seq<real>> -> Option<seq<real>>,
                     output: seq<real>)
    requires Produced(fed, respond) == Some(output)
    ensures Produced(fed + [block], respond) ==
              match respond(fed + [block])
              case None => None
              case Some(b) => Some(output + b)
  {
    assert (fed + [block])[..|fed|] == fed;
  }

  /** Output is only ever appended to: the output after the first `k` blocks is a prefix of
      the output after all of them, and a failure is never recovered from. */
  lemma {:induction false} ProducedPrefix(blocks: seq<seq<real>>, k: nat,
                                          respond: seq<seq<real>> -> Option<seq<real>>)
    requires k <= |blocks|
    ensures Produced(blocks, respond).Some? ==>
              Produced(blocks[..k], respond).Some? &&
              Produced(blocks[..k], respond).value <= Produced(blocks, respond).value
    decreases |blocks| - k
  {
    if k == |blocks| {
      assert blocks[..k] == blocks;
    } else {
      var init := blocks[..|blocks| - 1];
      assert init[..k] == blocks[..k];
      ProducedPrefix(init, k, respond);
    }
  }
}
