/**
 * Corrected reference definitions beside the as-written model in
 * `FrameAssembly` and `PixelReducer`, each grounded in the program's own
 * comments where it has them:
 *  - every complete frame in the buffer is taken, not just one per chunk
 *    (src/index.ts:50-52 expects a chunk to carry data for the next frame);
 *  - compaction moves all leftover bytes `[frameSize, buffPos)` to the front
 *    ("move the rest of unused buffer", src/index.ts:69);
 *  - row `r` of the matrix is the `3 * width` bytes of image line `r`
 *    (a `WIDTH x HEIGHT` matrix, per the doc comment at src/index.ts:88);
 *  - a chunk that does not fit is refused as a whole, leaving the state as
 *    it was. The program says nothing about this case beyond assuming that
 *    the 1 MiB of padding is enough (src/index.ts:45); refusing is this
 *    model's chosen correction.
 * The main result, `IngestRunMatchesStream`, is boundary alignment: however
 * the stream is cut into chunks, frame `k` is the reduction of stream bytes
 * `[k * frameSize, (k + 1) * frameSize)`.
 */
module IntendedPipeline {
  import opened NodeBuffer
  import opened PixelReducer
  import opened FrameAssembly

  /** The `3 * width` bytes of image line `r`. */
  function ImageLine(frame: seq<byte>, width: nat, height: nat, r: nat): (line: seq<byte>)
    requires width >= 1 && r < height && |frame| == width * height * 3
    ensures |line| == 3 * width
  {
    RowEndWithin(width, height, r);
    frame[3 * (r * width)..3 * (r * width) + 3 * width]
  }

  /** A frame reduced with one row per image line, `width` entries per row. */
  function PixelMatrixIntended(frame: seq<byte>, width: nat, height: nat): (m: Matrix)
    requires width >= 1 && height >= 1 && |frame| == width * height * 3
    ensures |m| == height
    ensures forall r :: 0 <= r < height ==> |m[r]| == width
  {
    seq(height, r requires 0 <= r < height => AvgPixels(ImageLine(frame, width, height, r)))
  }

  /** Entry `(r, p)` thresholds exactly the three bytes of pixel `r * width + p`. */
  lemma PixelMatrixIntendedAt(frame: seq<byte>, width: nat, height: nat, r: nat, p: nat)
    requires width >= 1 && height >= 1 && |frame| == width * height * 3
    requires r < height && p < width
    ensures 3 * (r * width + p) + 2 < |frame|
    ensures var m := PixelMatrixIntended(frame, width, height); m[r][p] == 0 || m[r][p] == 1
    ensures var m, q := PixelMatrixIntended(frame, width, height), 3 * (r * width + p);
      m[r][p] == 1 <==> frame[q] + frame[q + 1] + frame[q + 2] >= WindowSize * Threshold
  {
    var line := ImageLine(frame, width, height, r);
    RowEndWithin(width, height, r);
    var a, n := r * width, height * width;
    assert |frame| == 3 * n;
    var q := 3 * (a + p);
    assert q == 3 * a + 3 * p;
    assert line[3 * p] == frame[q] && line[3 * p + 1] == frame[q + 1] && line[3 * p + 2] == frame[q + 2];
  }

  /**
   * The two-pixel, one-line frame `[10, 10, 10, 200, 200, 200]`: as written,
   * row 0 is the single byte `[0, 1)` and reduces to no entries at all;
   * the intended reduction is `[[0, 1]]`.
   */
  lemma ShortRowsExample()
    ensures PixelMatrix([10, 10, 10, 200, 200, 200], 2, 1) == [[]]
    ensures PixelMatrixIntended([10, 10, 10, 200, 200, 200], 2, 1) == [[0, 1]]
  {
    var f: seq<byte> := [10, 10, 10, 200, 200, 200];
    assert RowBytes(f, 2, 0) == [10];
    assert ImageLine(f, 2, 1, 0) == f;
    assert AvgPixels(f) == [0, 1] by { ThresholdBoundary(); }
    var m := PixelMatrixIntended(f, 2, 1);
    assert |m| == 1 && m[0] == AvgPixels(ImageLine(f, 2, 1, 0));
  }

  /** The outcome of one call of the corrected handler: the new state, or the refused chunk. */
  datatype Ingest = Ingested(state: Assembler) | BufferOverflow(chunkLength: nat, capacity: nat)

  /** Takes frames from the front while a whole one is held, shifting the rest down each time. */
  function Drain(cfg: Config, s: Assembler): (t: Assembler)
    requires WellFormed(cfg, s) && s.buffPos <= cfg.Capacity()
    ensures WellFormed(cfg, t) && t.buffPos < cfg.FrameSize()
    decreases s.buffPos
  {
    var fs := cfg.FrameSize();
    if s.buffPos < fs then s
    else
      Drain(cfg, Assembler(Copied(s.buffer, 0, s.buffer, fs, s.buffPos), s.buffPos - fs,
                           s.frames + [PixelMatrixIntended(s.buffer[..fs], cfg.width, cfg.height)]))
  }

  /** The corrected `data` handler: refuse a chunk that does not fit, else write it and drain. */
  function IngestChunk(cfg: Config, s: Assembler, chunk: seq<byte>): (r: Ingest)
    requires WellFormed(cfg, s) && s.buffPos <= cfg.Capacity()
    ensures r.Ingested? ==> WellFormed(cfg, r.state) && r.state.buffPos < cfg.FrameSize()
  {
    if s.buffPos + |chunk| > cfg.Capacity() then BufferOverflow(|chunk|, cfg.Capacity())
    else Ingested(Drain(cfg, Assembler(Written(cfg, s, chunk), s.buffPos + |chunk|, s.frames)))
  }

  /** A run of corrected handler calls; the first refused chunk ends it. */
  function IngestRun(cfg: Config, s: Assembler, chunks: seq<seq<byte>>): (r: Ingest)
    requires WellFormed(cfg, s) && s.buffPos <= cfg.Capacity()
    ensures r.Ingested? ==> WellFormed(cfg, r.state) && r.state.buffPos <= cfg.Capacity()
  {
    if chunks == [] then Ingested(s)
    else
      match IngestRun(cfg, s, chunks[..|chunks| - 1])
      case Ingested(u) => IngestChunk(cfg, u, chunks[|chunks| - 1])
      case BufferOverflow(n, c) => BufferOverflow(n, c)
  }

  /** The bytes after the last whole frame of a stream. */
  function Leftover(fs: nat, bytes: seq<byte>): (rest: seq<byte>)
    requires fs > 0
    decreases |bytes|
  {
    if |bytes| < fs then bytes else Leftover(fs, bytes[fs..])
  }

  /** The whole frames of a stream, as raw bytes, in order. */
  function Slices(fs: nat, bytes: seq<byte>): (frames: seq<seq<byte>>)
    requires fs > 0
    decreases |bytes|
  {
    if |bytes| < fs then [] else [bytes[..fs]] + Slices(fs, bytes[fs..])
  }

  /** `k * fs + fs == (k + 1) * fs`. */
  lemma MulSucc(k: nat, fs: nat)
    ensures k * fs + fs == (k + 1) * fs
  {
  }

  /**
   * A stream of `k * fs + r` bytes (`r < fs`) has `k` whole frames and
   * leaves its last `r` bytes over.
   */
  lemma {:induction false} SliceCount(fs: nat, bytes: seq<byte>)
    requires fs > 0
    ensures var n, rest := |Slices(fs, bytes)|, Leftover(fs, bytes);
      n * fs + |rest| == |bytes| && |rest| < fs && rest == bytes[n * fs..]
    decreases |bytes|
  {
    if |bytes| >= fs {
      var tail := bytes[fs..];
      SliceCount(fs, tail);
      var j := |Slices(fs, tail)|;
      MulSucc(j, fs);
      assert |Slices(fs, bytes)| == j + 1;
      assert tail[j * fs..] == bytes[j * fs + fs..];
    }
  }

  /** Frame `k` of a stream is bytes `[k * fs, (k + 1) * fs)`. */
  lemma {:induction false} SliceAt(fs: nat, bytes: seq<byte>, k: nat)
    requires fs > 0 && k < |Slices(fs, bytes)|
    ensures k * fs + fs <= |bytes| && Slices(fs, bytes)[k] == bytes[k * fs..k * fs + fs]
    decreases k
  {
    if k > 0 {
      var tail := bytes[fs..];
      SliceAt(fs, tail, k - 1);
      MulSucc(k - 1, fs);
      assert tail[(k - 1) * fs..(k - 1) * fs + fs] == bytes[k * fs..k * fs + fs];
    }
  }

  /**
   * A stream of `k * fs + r` bytes (`r < fs`) has `k` whole frames, frame
   * `i` being bytes `[i * fs, (i + 1) * fs)`, and leaves its last `r` bytes over.
   */
  lemma SlicesAt(fs: nat, bytes: seq<byte>)
    requires fs > 0
    ensures var f, rest := Slices(fs, bytes), Leftover(fs, bytes);
      && |f| * fs + |rest| == |bytes|
      && |rest| < fs
      && rest == bytes[|f| * fs..]
      && forall k :: 0 <= k < |f| ==> k * fs + fs <= |bytes| && f[k] == bytes[k * fs..k * fs + fs]
  {
    SliceCount(fs, bytes);
    forall k | 0 <= k < |Slices(fs, bytes)|
      ensures k * fs + fs <= |bytes| && Slices(fs, bytes)[k] == bytes[k * fs..k * fs + fs]
    {
      SliceAt(fs, bytes, k);
    }
  }

  /** The reductions of the whole frames of a stream, in order. */
  function StreamFrames(cfg: Config, bytes: seq<byte>): (frames: seq<Matrix>)
    requires cfg.Valid()
    decreases |bytes|
  {
    var fs := cfg.FrameSize();
    if |bytes| < fs then []
    else [PixelMatrixIntended(bytes[..fs], cfg.width, cfg.height)] + StreamFrames(cfg, bytes[fs..])
  }

  /** The stream's frames are the reductions of its slices, one for one. */
  lemma {:induction false} StreamFramesReduceSlices(cfg: Config, bytes: seq<byte>)
    requires cfg.Valid()
    ensures var f, raw := StreamFrames(cfg, bytes), Slices(cfg.FrameSize(), bytes);
      && |f| == |raw|
      && forall k :: 0 <= k < |f| ==>
           |raw[k]| == cfg.FrameSize() && f[k] == PixelMatrixIntended(raw[k], cfg.width, cfg.height)
    decreases |bytes|
  {
    if |bytes| >= cfg.FrameSize() {
      StreamFramesReduceSlices(cfg, bytes[cfg.FrameSize()..]);
    }
  }

  /**
   * A stream of `k * frameSize + r` bytes (`r < frameSize`) has `k` frames,
   * frame `i` being the reduction of bytes `[i * frameSize, (i + 1) * frameSize)`,
   * and leaves its last `r` bytes over.
   */
  lemma StreamFramesAt(cfg: Config, bytes: seq<byte>)
    requires cfg.Valid()
    ensures var fs, f, rest := cfg.FrameSize(), StreamFrames(cfg, bytes), Leftover(cfg.FrameSize(), bytes);
      && |f| * fs + |rest| == |bytes|
      && |rest| < fs
      && rest == bytes[|f| * fs..]
      && forall k :: 0 <= k < |f| ==>
           k * fs + fs <= |bytes| && f[k] == PixelMatrixIntended(bytes[k * fs..k * fs + fs], cfg.width, cfg.height)
  {
    SlicesAt(cfg.FrameSize(), bytes);
    StreamFramesReduceSlices(cfg, bytes);
  }

  /**
   * Appending to a stream: the new frames are those of the old leftover
   * followed by the appended bytes.
   */
  lemma {:induction false} StreamAppend(cfg: Config, bytes: seq<byte>, more: seq<byte>)
    requires cfg.Valid()
    ensures StreamFrames(cfg, bytes + more)
         == StreamFrames(cfg, bytes) + StreamFrames(cfg, Leftover(cfg.FrameSize(), bytes) + more)
    ensures Leftover(cfg.FrameSize(), bytes + more)
         == Leftover(cfg.FrameSize(), Leftover(cfg.FrameSize(), bytes) + more)
    decreases |bytes|
  {
    var fs := cfg.FrameSize();
    if |bytes| >= fs {
      StreamAppend(cfg, bytes[fs..], more);
      assert (bytes + more)[..fs] == bytes[..fs];
      assert (bytes + more)[fs..] == bytes[fs..] + more;
    }
  }

  /** Draining a buffer that holds `P` takes exactly the frames of `P` and keeps its leftover. */
  lemma {:induction false} DrainTakesStreamFrames(cfg: Config, s: Assembler)
    requires WellFormed(cfg, s) && s.buffPos <= cfg.Capacity()
    ensures var t, held := Drain(cfg, s), s.buffer[..s.buffPos];
      t.frames == s.frames + StreamFrames(cfg, held) && t.buffer[..t.buffPos] == Leftover(cfg.FrameSize(), held)
    decreases s.buffPos
  {
    var fs := cfg.FrameSize();
    if s.buffPos >= fs {
      var held := s.buffer[..s.buffPos];
      var b := Copied(s.buffer, 0, s.buffer, fs, s.buffPos);
      var m := PixelMatrixIntended(s.buffer[..fs], cfg.width, cfg.height);
      var s' := Assembler(b, s.buffPos - fs, s.frames + [m]);
      DrainTakesStreamFrames(cfg, s');
      CopyInRange(s.buffer, 0, s.buffer, fs, s.buffPos);
      assert b[..s.buffPos - fs] == held[fs..];
      assert held[..fs] == s.buffer[..fs];
    }
  }

  /** A chunk that fits is appended, in order, to the bytes held. */
  lemma WrittenHeld(cfg: Config, u: Assembler, chunk: seq<byte>)
    requires WellFormed(cfg, u) && u.buffPos + |chunk| <= cfg.Capacity()
    ensures Written(cfg, u, chunk)[..u.buffPos + |chunk|] == u.buffer[..u.buffPos] + chunk
  {
    CopyInRange(u.buffer, u.buffPos, chunk, 0, |chunk|);
  }

  /**
   * One corrected handler call whose chunk fits takes every whole frame it completes:
   * `(frames added) * frameSize + buffPos` accounts for every byte held.
   */
  lemma IngestEmitsEveryFrame(cfg: Config, s: Assembler, chunk: seq<byte>)
    requires WellFormed(cfg, s) && s.buffPos + |chunk| <= cfg.Capacity()
    ensures IngestChunk(cfg, s, chunk).Ingested?
    ensures var t := IngestChunk(cfg, s, chunk).state;
      && |s.frames| <= |t.frames|
      && t.frames[..|s.frames|] == s.frames
      && (|t.frames| - |s.frames|) * cfg.FrameSize() + t.buffPos == s.buffPos + |chunk|
      && t.buffPos < cfg.FrameSize()
  {
    var u := Assembler(Written(cfg, s, chunk), s.buffPos + |chunk|, s.frames);
    DrainTakesStreamFrames(cfg, u);
    SliceCount(cfg.FrameSize(), u.buffer[..u.buffPos]);
    StreamFramesReduceSlices(cfg, u.buffer[..u.buffPos]);
    var t := Drain(cfg, u);
    assert t.frames[..|s.frames|] == s.frames;
  }

  /** A chunk that does not fit is refused as a whole and nothing else happens. */
  lemma IngestOverflowIsAtomic(cfg: Config, s: Assembler, chunk: seq<byte>)
    requires WellFormed(cfg, s) && s.buffPos <= cfg.Capacity()
    ensures IngestChunk(cfg, s, chunk).BufferOverflow? <==> s.buffPos + |chunk| > cfg.Capacity()
    ensures IngestChunk(cfg, s, chunk).BufferOverflow? ==>
      IngestChunk(cfg, s, chunk) == BufferOverflow(|chunk|, cfg.Capacity())
  {
  }

  /**
   * One corrected handler call keeps a buffer that mirrors the stream: if the frames
   * so far are those of `before` and the buffer holds its leftover, the same
   * holds of `before + chunk` afterwards.
   */
  lemma IngestFollowsStream(cfg: Config, u: Assembler, before: seq<byte>, chunk: seq<byte>)
    requires WellFormed(cfg, u) && u.buffPos < cfg.FrameSize() && |chunk| <= Padding
    requires u.frames == StreamFrames(cfg, before) && u.buffer[..u.buffPos] == Leftover(cfg.FrameSize(), before)
    ensures IngestChunk(cfg, u, chunk).Ingested?
    ensures var t := IngestChunk(cfg, u, chunk).state;
      && t.frames == StreamFrames(cfg, before + chunk)
      && t.buffer[..t.buffPos] == Leftover(cfg.FrameSize(), before + chunk)
  {
    var fs := cfg.FrameSize();
    var rest := Leftover(fs, before);
    WrittenHeld(cfg, u, chunk);
    var v := Assembler(Written(cfg, u, chunk), u.buffPos + |chunk|, u.frames);
    assert v.buffer[..v.buffPos] == rest + chunk;
    assert IngestChunk(cfg, u, chunk) == Ingested(Drain(cfg, v));
    DrainTakesStreamFrames(cfg, v);
    var t := Drain(cfg, v);
    assert t.frames == StreamFrames(cfg, before) + StreamFrames(cfg, rest + chunk);
    assert t.buffer[..t.buffPos] == Leftover(fs, rest + chunk);
    StreamAppend(cfg, before, chunk);
  }

  /**
   * Boundary alignment and leftover preservation: feeding any partition of a
   * stream, with no chunk larger than the slack, never overflows; the frames
   * are those of the whole stream and the buffer holds its leftover.
   */
  lemma {:induction false} IngestRunMatchesStream(cfg: Config, chunks: seq<seq<byte>>)
    requires cfg.Valid()
    requires forall i :: 0 <= i < |chunks| ==> |chunks[i]| <= Padding
    ensures IngestRun(cfg, Initial(cfg), chunks).Ingested?
    ensures var t, stream := IngestRun(cfg, Initial(cfg), chunks).state, Concat(chunks);
      && t.frames == StreamFrames(cfg, stream)
      && t.buffer[..t.buffPos] == Leftover(cfg.FrameSize(), stream)
  {
    if chunks != [] {
      var init, c := chunks[..|chunks| - 1], chunks[|chunks| - 1];
      IngestRunMatchesStream(cfg, init);
      var u := IngestRun(cfg, Initial(cfg), init).state;
      SliceCount(cfg.FrameSize(), Concat(init));
      IngestFollowsStream(cfg, u, Concat(init), c);
    }
  }

  /** The same alignment, stated slice by slice. */
  lemma StreamAlignment(cfg: Config, chunks: seq<seq<byte>>)
    requires cfg.Valid()
    requires forall i :: 0 <= i < |chunks| ==> |chunks[i]| <= Padding
    ensures IngestRun(cfg, Initial(cfg), chunks).Ingested?
    ensures var t, stream, fs := IngestRun(cfg, Initial(cfg), chunks).state, Concat(chunks), cfg.FrameSize();
      && |t.frames| * fs + t.buffPos == |stream|
      && t.buffPos < fs
      && t.buffer[..t.buffPos] == stream[|t.frames| * fs..]
      && forall k :: 0 <= k < |t.frames| ==>
           k * fs + fs <= |stream| && t.frames[k] == PixelMatrixIntended(stream[k * fs..k * fs + fs], cfg.width, cfg.height)
  {
    IngestRunMatchesStream(cfg, chunks);
    StreamFramesAt(cfg, Concat(chunks));
  }
}
