/**
 * The frame assembler: the `data` handler and the module-level state it
 * mutates (`buffer`, `buffPos`, `frames`).
 *
 * `Step` is the effect of one `data` event on that state, stated as a value;
 * `FrameAssembler.OnData` is the handler itself over an array and is proved
 * to have exactly that effect. The model follows the code as written:
 *  - at most one frame is taken per chunk (an `if`, not a loop);
 *  - compaction copies `buffer[frameSize, buffPos - frameSize)` to the front,
 *    not `buffer[frameSize, buffPos)`;
 *  - a chunk that does not fit is clipped to the buffer, while `buffPos`
 *    still advances by the whole chunk length.
 */
module FrameAssembly {
  import opened NodeBuffer
  import opened PixelReducer

  /** The 1 MiB of slack allocated beyond one frame. */
  const Padding: nat := 1024 * 1024

  /** The frame dimensions (`WIDTH`, `HEIGHT`). */
  datatype Config = Config(width: nat, height: nat)
  {
    predicate Valid() { width >= 1 && height >= 1 }

    /** `frameSize`: three bytes per pixel. */
    function FrameSize(): (n: nat)
      ensures Valid() ==> n >= 3
    {
      width * height * 3
    }

    /** The length of `buffer`. */
    function Capacity(): nat { FrameSize() + Padding }
  }

  /** The handler's state: the buffer's bytes, `buffPos` and the list of frames. */
  datatype Assembler = Assembler(buffer: seq<byte>, buffPos: nat, frames: seq<Matrix>)

  ghost predicate WellFormed(cfg: Config, s: Assembler)
  {
    cfg.Valid() && |s.buffer| == cfg.Capacity()
  }

  /**
   * The source's own dimensions, 86 by 64: a frame is 16512 bytes, the
   * buffer 16512 bytes plus 1 MiB, and each reduced row has 28 entries read
   * from the first 5503 bytes of a frame.
   */
  lemma SourceDimensions()
    ensures var cfg := Config(Width, Height);
      && cfg.Valid() && cfg.FrameSize() == 16512 && cfg.Capacity() == 1065088
      && (Width - 1) / WindowSize == 28 && Height * Width - 1 == 5503
  {
  }

  /** The state before the first event: a zero-filled buffer (`Buffer.alloc`), position 0, no frames. */
  function Initial(cfg: Config): (s: Assembler)
    requires cfg.Valid()
    ensures WellFormed(cfg, s) && s.buffPos == 0 && s.frames == []
    ensures forall k :: 0 <= k < |s.buffer| ==> s.buffer[k] == 0
  {
    Assembler(seq(cfg.Capacity(), _ => 0), 0, [])
  }

  /**
   * The buffer after `chunk.copy(buffer, buffPos)`: the same length, no byte
   * outside `[buffPos, buffPos + |chunk|)` touched, and a chunk that fits
   * written whole at `buffPos`.
   */
  function Written(cfg: Config, s: Assembler, chunk: seq<byte>): (w: seq<byte>)
    ensures |w| == |s.buffer|
    ensures forall k :: 0 <= k < |w| && !(s.buffPos <= k < s.buffPos + |chunk|) ==> w[k] == s.buffer[k]
    ensures s.buffPos + |chunk| <= |s.buffer| ==>
      w == s.buffer[..s.buffPos] + chunk + s.buffer[s.buffPos + |chunk|..]
  {
    if s.buffPos + |chunk| <= |s.buffer| then
      CopyInRange(s.buffer, s.buffPos, chunk, 0, |chunk|);
      Copied(s.buffer, s.buffPos, chunk, 0, |chunk|)
    else
      Copied(s.buffer, s.buffPos, chunk, 0, |chunk|)
  }

  /** The effect of one `data` event carrying `chunk`. */
  function Step(cfg: Config, s: Assembler, chunk: seq<byte>): (t: Assembler)
    requires WellFormed(cfg, s)
    ensures WellFormed(cfg, t)
  {
    var fs := cfg.FrameSize();
    var w := Written(cfg, s, chunk);
    var pos := s.buffPos + |chunk|;
    if pos >= fs then
      Assembler(Copied(w, 0, w, fs, pos - fs), pos - fs, s.frames + [PixelMatrix(w[..fs], cfg.width, cfg.height)])
    else
      Assembler(w, pos, s.frames)
  }

  /** A run of `data` events, one per chunk, in order. */
  function Run(cfg: Config, s: Assembler, chunks: seq<seq<byte>>): (t: Assembler)
    requires WellFormed(cfg, s)
    ensures WellFormed(cfg, t)
  {
    if chunks == [] then s
    else Step(cfg, Run(cfg, s, chunks[..|chunks| - 1]), chunks[|chunks| - 1])
  }

  /** All bytes of a run of chunks, in order. */
  function Concat(chunks: seq<seq<byte>>): (bytes: seq<byte>)
  {
    if chunks == [] then [] else Concat(chunks[..|chunks| - 1]) + chunks[|chunks| - 1]
  }

  /**
   * Bookkeeping of one event: `buffPos` drops by one frame exactly when the
   * bytes held reach a frame, and `frames` then grows by one element at the
   * end, earlier elements unchanged; otherwise `frames` is unchanged and the
   * buffer is just the chunk written at `buffPos`.
   */
  lemma StepBookkeeping(cfg: Config, s: Assembler, chunk: seq<byte>)
    requires WellFormed(cfg, s)
    ensures var t := Step(cfg, s, chunk);
      var pos := s.buffPos + |chunk|;
      && (pos >= cfg.FrameSize() ==> t.buffPos == pos - cfg.FrameSize() && t.frames == s.frames + [t.frames[|s.frames|]])
      && (pos < cfg.FrameSize() ==> t.buffPos == pos && t.frames == s.frames && t.buffer == Written(cfg, s, chunk))
  {
  }

  /**
   * The chunk lands at `[buffPos, buffPos + |chunk|)`, clipped to the
   * capacity; every other byte keeps its value; and the frame appended (if
   * any) is the reduction of the first `frameSize` bytes of that buffer.
   */
  lemma StepWritesChunk(cfg: Config, s: Assembler, chunk: seq<byte>)
    requires WellFormed(cfg, s)
    ensures var w := Written(cfg, s, chunk);
      && |w| == cfg.Capacity()
      && (forall k :: 0 <= k < |w| ==>
            w[k] == if s.buffPos <= k < s.buffPos + |chunk| then chunk[k - s.buffPos] else s.buffer[k])
      && (s.buffPos + |chunk| >= cfg.FrameSize() ==>
            Step(cfg, s, chunk).frames[|s.frames|] == PixelMatrix(w[..cfg.FrameSize()], cfg.width, cfg.height))
  {
    var w := Written(cfg, s, chunk);
    var n := CopyCount(|s.buffer|, s.buffPos, |chunk|, 0, |chunk|);
    forall k | 0 <= k < |w|
      ensures w[k] == if s.buffPos <= k < s.buffPos + |chunk| then chunk[k - s.buffPos] else s.buffer[k]
    {
      if s.buffPos <= k < s.buffPos + |chunk| {
        assert k < |s.buffer|;
        assert n == |chunk| || s.buffPos + n == |s.buffer|;
      }
    }
  }

  /**
   * At most one frame per event: even a chunk that completes two frames
   * yields one, and a whole frame's worth of bytes stays behind.
   */
  lemma AtMostOneFramePerChunk(cfg: Config, s: Assembler, chunk: seq<byte>)
    requires WellFormed(cfg, s)
    ensures |Step(cfg, s, chunk).frames| <= |s.frames| + 1
    ensures s.buffPos + |chunk| >= 2 * cfg.FrameSize() ==>
      |Step(cfg, s, chunk).frames| == |s.frames| + 1 && Step(cfg, s, chunk).buffPos >= cfg.FrameSize()
  {
  }

  /**
   * Compaction when the leftover `P - frameSize` is at most a frame (`P` the
   * position before the subtraction): the source range is empty, nothing
   * moves, and the front of the buffer still holds the frame just emitted.
   */
  lemma ShortLeftoverNothingMoves(cfg: Config, s: Assembler, chunk: seq<byte>)
    requires WellFormed(cfg, s)
    requires cfg.FrameSize() <= s.buffPos + |chunk| <= 2 * cfg.FrameSize()
    ensures Step(cfg, s, chunk).buffer == Written(cfg, s, chunk)
  {
    var w := Written(cfg, s, chunk);
    CopyNothing(w, 0, w, cfg.FrameSize(), s.buffPos + |chunk| - cfg.FrameSize());
  }

  /**
   * Compaction when the leftover exceeds a frame: only
   * `[frameSize, P - frameSize)` (clipped to the buffer) reaches the front;
   * the bytes from `P - 2 * frameSize` on are left where they were.
   */
  lemma LongLeftoverPartlyMoved(cfg: Config, s: Assembler, chunk: seq<byte>)
    requires WellFormed(cfg, s)
    requires s.buffPos + |chunk| > 2 * cfg.FrameSize()
    ensures var fs, w := cfg.FrameSize(), Written(cfg, s, chunk);
      var moved := Min(s.buffPos + |chunk| - 2 * fs, cfg.Capacity() - fs);
      var b := Step(cfg, s, chunk).buffer;
      && (forall k :: 0 <= k < moved ==> b[k] == w[fs + k])
      && (forall k :: moved <= k < |b| ==> b[k] == w[k])
  {
  }

  /** Frames are append-only and a run of `n` events adds at most `n` of them. */
  lemma {:induction false} RunAppendOnly(cfg: Config, s: Assembler, chunks: seq<seq<byte>>)
    requires WellFormed(cfg, s)
    ensures var t := Run(cfg, s, chunks);
      |s.frames| <= |t.frames| <= |s.frames| + |chunks| && t.frames[..|s.frames|] == s.frames
  {
    if chunks != [] {
      var init := chunks[..|chunks| - 1];
      RunAppendOnly(cfg, s, init);
      var u := Run(cfg, s, init);
      assert u.frames[..|s.frames|] == s.frames;
      var t := Step(cfg, u, chunks[|chunks| - 1]);
      assert t.frames[..|u.frames|] == u.frames;
      assert t.frames[..|s.frames|] == u.frames[..|s.frames|];
    }
  }

  /** Two runs back to back are one run of the chunks of both. */
  lemma {:induction false} RunAppend(cfg: Config, s: Assembler, a: seq<seq<byte>>, b: seq<seq<byte>>)
    requires WellFormed(cfg, s)
    ensures Run(cfg, s, a + b) == Run(cfg, Run(cfg, s, a), b)
  {
    if b != [] {
      assert (a + b)[..|a + b| - 1] == a + b[..|b| - 1];
      RunAppend(cfg, s, a, b[..|b| - 1]);
    } else {
      assert a + b == a;
    }
  }

  /**
   * From an empty buffer, chunks that together stay below one frame are held
   * in order at the front of the buffer and emit nothing.
   */
  lemma {:induction false} RunBelowFrame(cfg: Config, s: Assembler, chunks: seq<seq<byte>>)
    requires WellFormed(cfg, s) && s.buffPos == 0
    requires |Concat(chunks)| < cfg.FrameSize()
    ensures var t := Run(cfg, s, chunks);
      t.buffPos == |Concat(chunks)| && t.frames == s.frames && t.buffer[..t.buffPos] == Concat(chunks)
  {
    if chunks != [] {
      var init, c := chunks[..|chunks| - 1], chunks[|chunks| - 1];
      RunBelowFrame(cfg, s, init);
      var u := Run(cfg, s, init);
      CopyInRange(u.buffer, u.buffPos, c, 0, |c|);
      assert Written(cfg, u, c)[..u.buffPos + |c|] == u.buffer[..u.buffPos] + c;
    }
  }

  /**
   * Chunks that end exactly on the next frame boundary, from an empty buffer:
   * the frame emitted is the reduction of exactly those chunks' bytes, and
   * `buffPos` returns to 0.
   */
  predicate CompletesOneFrame(cfg: Config, chunks: seq<seq<byte>>)
  {
    chunks != [] && |Concat(chunks[..|chunks| - 1])| < cfg.FrameSize() && |Concat(chunks)| == cfg.FrameSize()
  }

  lemma AlignedFrame(cfg: Config, s: Assembler, chunks: seq<seq<byte>>)
    requires WellFormed(cfg, s) && s.buffPos == 0
    requires CompletesOneFrame(cfg, chunks)
    ensures var t := Run(cfg, s, chunks);
      t.buffPos == 0 && t.frames == s.frames + [PixelMatrix(Concat(chunks), cfg.width, cfg.height)]
  {
    var init, c := chunks[..|chunks| - 1], chunks[|chunks| - 1];
    RunBelowFrame(cfg, s, init);
    var u := Run(cfg, s, init);
    CopyInRange(u.buffer, u.buffPos, c, 0, |c|);
    var w := Written(cfg, u, c);
    assert w[..cfg.FrameSize()] == Concat(chunks);
    CopyNothing(w, 0, w, cfg.FrameSize(), 0);
  }

  /** The chunks of consecutive groups, in order. */
  function Flatten(groups: seq<seq<seq<byte>>>): (chunks: seq<seq<byte>>)
  {
    if groups == [] then [] else Flatten(groups[..|groups| - 1]) + groups[|groups| - 1]
  }

  /** The reduction of each group's bytes, in order. */
  function GroupFrames(cfg: Config, groups: seq<seq<seq<byte>>>): (frames: seq<Matrix>)
    requires cfg.Valid()
  {
    if groups == [] then []
    else GroupFrames(cfg, groups[..|groups| - 1]) + [PixelMatrix(Concat(groups[|groups| - 1]), cfg.width, cfg.height)]
  }

  /**
   * Boundary alignment as the code achieves it: when every group of chunks
   * ends exactly on a frame boundary, each emitted frame is the reduction of
   * exactly the chunks since the previous emission, in order.
   */
  lemma {:induction false} AlignedGroups(cfg: Config, s: Assembler, groups: seq<seq<seq<byte>>>)
    requires WellFormed(cfg, s) && s.buffPos == 0
    requires forall g :: 0 <= g < |groups| ==> CompletesOneFrame(cfg, groups[g])
    ensures var t := Run(cfg, s, Flatten(groups));
      t.buffPos == 0 && t.frames == s.frames + GroupFrames(cfg, groups)
  {
    if groups != [] {
      var init := groups[..|groups| - 1];
      var last := groups[|groups| - 1];
      assert forall g :: 0 <= g < |init| ==> init[g] == groups[g];
      AlignedGroups(cfg, s, init);
      var u := Run(cfg, s, Flatten(init));
      assert Flatten(groups) == Flatten(init) + last;
      RunAppend(cfg, s, Flatten(init), last);
      AlignedFrame(cfg, u, last);
    }
  }

  /** Frame `g` of an aligned run is the reduction of group `g`. */
  lemma {:induction false} GroupFramesAt(cfg: Config, groups: seq<seq<seq<byte>>>, g: nat)
    requires cfg.Valid() && g < |groups|
    ensures |GroupFrames(cfg, groups)| == |groups|
    ensures GroupFrames(cfg, groups)[g] == PixelMatrix(Concat(groups[g]), cfg.width, cfg.height)
    decreases |groups|
  {
    var init := groups[..|groups| - 1];
    if g < |init| {
      GroupFramesAt(cfg, init, g);
    } else if init != [] {
      GroupFramesAt(cfg, init, 0);
    }
  }

  /**
   * The stale-byte effect of the compaction range: from an empty buffer, a
   * chunk `c1` carrying one frame and `r <= frameSize` more bytes, then a
   * chunk `c2` completing the second frame. The second frame is reduced from
   * `c1[..r] + c2` (the front of the first frame, left in place) rather than
   * from the stream's bytes `c1[frameSize..] + c2`.
   */
  lemma StaleBytesAfterShortLeftover(cfg: Config, s: Assembler, c1: seq<byte>, c2: seq<byte>)
    requires WellFormed(cfg, s) && s.buffPos == 0
    requires cfg.FrameSize() < |c1| <= cfg.Capacity()
    requires |c1| + |c2| == 2 * cfg.FrameSize()
    ensures var fs, t := cfg.FrameSize(), Step(cfg, Step(cfg, s, c1), c2);
      && t.buffPos == 0
      && t.frames == s.frames + [PixelMatrix(c1[..fs], cfg.width, cfg.height),
                                 PixelMatrix(c1[..|c1| - fs] + c2, cfg.width, cfg.height)]
  {
    var fs := cfg.FrameSize();
    CopyInRange(s.buffer, 0, c1, 0, |c1|);
    var w1 := Written(cfg, s, c1);
    assert w1[..fs] == c1[..fs];
    ShortLeftoverNothingMoves(cfg, s, c1);
    var u := Step(cfg, s, c1);
    assert u.buffer == w1;
    CopyInRange(u.buffer, u.buffPos, c2, 0, |c2|);
    var w2 := Written(cfg, u, c2);
    assert w2[..fs] == c1[..|c1| - fs] + c2;
    CopyNothing(w2, 0, w2, fs, 0);
  }

  /**
   * A chunk that does not fit: the write keeps only the bytes up to the
   * capacity (none at all once `buffPos` is past it), with no error, while
   * the position still counts the whole chunk.
   */
  lemma OverCapacityChunkClipped(cfg: Config, s: Assembler, chunk: seq<byte>)
    requires WellFormed(cfg, s)
    requires s.buffPos + |chunk| > cfg.Capacity()
    ensures s.buffPos < cfg.Capacity() ==>
      Written(cfg, s, chunk) == s.buffer[..s.buffPos] + chunk[..cfg.Capacity() - s.buffPos]
    ensures s.buffPos >= cfg.Capacity() ==> Written(cfg, s, chunk) == s.buffer
    ensures Step(cfg, s, chunk).buffPos == s.buffPos + |chunk| - cfg.FrameSize() > Padding
  {
    if s.buffPos < cfg.Capacity() {
      CopyInRange(s.buffer, s.buffPos, chunk, 0, cfg.Capacity() - s.buffPos);
      assert Written(cfg, s, chunk) == Copied(s.buffer, s.buffPos, chunk, 0, cfg.Capacity() - s.buffPos);
    }
  }

  /** The module-level state of the `data` handler. */
  class FrameAssembler {
    const width: nat
    const height: nat
    const frameSize: nat
    const buffer: array<byte>
    var buffPos: nat
    var frames: seq<Matrix>

    ghost predicate Valid()
      reads this
    {
      width >= 1 && height >= 1 && frameSize == width * height * 3 && buffer.Length == frameSize + Padding
    }

    function Cfg(): Config
      reads this
    {
      Config(width, height)
    }

    /** The state as a value. */
    function State(): Assembler
      reads this, buffer
    {
      Assembler(buffer[..], buffPos, frames)
    }

    constructor (width: nat, height: nat)
      requires width >= 1 && height >= 1
      ensures Valid() && fresh(buffer)
      ensures Cfg() == Config(width, height) && State() == Initial(Cfg())
    {
      this.width, this.height := width, height;
      frameSize := width * height * 3;
      buffer := new byte[width * height * 3 + Padding](_ => 0);
      buffPos := 0;
      frames := [];
      new;
      assert buffer[..] == seq(Cfg().Capacity(), _ => 0);
    }

    /** The `data` handler. */
    method OnData(chunk: seq<byte>)
      requires Valid()
      modifies this, buffer
      ensures Valid()
      ensures State() == Step(Cfg(), old(State()), chunk)
    {
      ghost var s := State();
      ghost var w := Written(Cfg(), s, chunk);
      assert Cfg().FrameSize() == frameSize;
      var _ := CopyInto(buffer, buffPos, chunk, 0, |chunk|);
      assert buffer[..] == w;
      buffPos := buffPos + |chunk|;
      if buffPos >= frameSize {
        var rawPixels := buffer[..frameSize];
        var frame := BufferToPixelMatrix(rawPixels, width, height);
        frames := frames + [frame];
        var _ := CopyInto(buffer, 0, buffer[..], frameSize, buffPos - frameSize);
        assert buffer[..] == Copied(w, 0, w, frameSize, buffPos - frameSize);
        buffPos := buffPos - frameSize;
      }
    }

    /** The stream delivering its `data` events in order, one handler call per chunk. */
    method OnDataEach(chunks: seq<seq<byte>>)
      requires Valid()
      modifies this, buffer
      ensures Valid()
      ensures State() == Run(Cfg(), old(State()), chunks)
    {
      for i := 0 to |chunks|
        invariant Valid()
        invariant State() == Run(Cfg(), old(State()), chunks[..i])
      {
        OnData(chunks[i]);
        assert chunks[..i + 1][..i] == chunks[..i];
      }
      assert chunks[..|chunks|] == chunks;
    }
  }
}
