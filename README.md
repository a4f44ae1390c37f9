# node-extract-frames: frame assembly and pixel reduction, in Dafny

The program reads the raw RGB24 byte stream of a decoded video in chunks of
arbitrary size. It cuts the stream into frames of `WIDTH * HEIGHT * 3` bytes
(86 × 64 in the source) and reduces each frame to a matrix of 0/1 values. Each
value is the integer average of one RGB triple, thresholded at 125. The frames
are collected in a list. This project models that core and proves what it does.

Modules, one per component:

- `NodeBuffer` (`node_buffer.dfy`) is the contract of the two `Buffer`
  operations the code relies on. `copy` (`CopyCount`, `Copied`, `CopyInto`)
  clips to the target's and the source's length and is a no-op for an empty
  range or a start past the target. It has memmove semantics, because the
  source is read as a value taken before the copy. `subarray` (`Subarray`)
  clamps its bounds.
- `PixelReducer` (`pixel_reducer.dfy`) models `getAvgPixels` and
  `bufferToPixelMatrix`. Each is a function (`AvgPixels`, `PixelMatrix`)
  plus a loop method over a freshly allocated array (`GetAvgPixels`,
  `BufferToPixelMatrix`) proved equal to that function.
- `FrameAssembly` (`frame_assembler.dfy`) models the `data` handler and the
  module-level `buffer`, `buffPos` and `frames`. The class `FrameAssembler`
  holds the buffer as an `array`. Its method `OnData` is the handler, and it
  is proved to have exactly the effect of the function `Step` on the state
  taken as a value. A run of events is `Run`, a left fold of `Step`, and
  `OnDataEach` is the same run as handler calls.
- `IntendedPipeline` (`intended_pipeline.dfy`) holds corrected reference
  definitions, used by the Findings below.

The model follows the code, not its comments, wherever the two differ:

- One frame at most is taken per chunk, because the code uses an `if`, not a loop.
- Compaction copies only `buffer[frameSize, buffPos - frameSize)` to the front.
- A chunk larger than the room left is clipped without an error, yet
  `buffPos` still advances by its full length.
- Row `i` of the matrix is bytes `[i*WIDTH, i*WIDTH + WIDTH - 1)`. So every
  row has `(WIDTH - 1) / 3` entries (28 for 86), and only the first
  `HEIGHT*WIDTH - 1` bytes of a frame are read.

The program's own comments point the other way on three of these, and
`IntendedPipeline` models that reading:

- src/index.ts:50-52 expects a chunk to carry data for the next frame, so
  every complete frame should be taken.
- src/index.ts:69 says to move "the rest" of the buffer to the front, which
  means all of `[frameSize, buffPos)`.
- The doc comment at src/index.ts:88 promises a `WIDTH x HEIGHT` matrix, so
  each row should be the `3*WIDTH` bytes of one image line.

The program says nothing about a chunk that does not fit: it assumes that
the 1 MiB of padding is enough (src/index.ts:45). Refusing such a chunk
whole, leaving the state unchanged, is this model's chosen correction, not
something the program states.

## Model

| member | source | states |
|---|---|---|
| `NodeBuffer.CopyCount` | src/index.ts:55 | `copy` moves nothing exactly when the target start is past the end, the range is empty or the source is exhausted; otherwise it moves the requested count, cut short only by the end of the target or of the source |
| `NodeBuffer.Copied` | src/index.ts:70 | after `copy`, target byte `k` is source byte `sourceStart + (k - targetStart)` inside the copied window and its old value elsewhere; the length is unchanged; a self-copy reads old bytes (memmove) |
| `NodeBuffer.CopyNothing` | src/index.ts:70 | a copy whose source range is empty, or whose target start is past the end, leaves the target unchanged |
| `NodeBuffer.CopyInRange` | src/index.ts:55 | a copy that fits gives old prefix + copied range + old suffix |
| `NodeBuffer.CopyInto` | src/index.ts:55 | the in-place copy on an array leaves exactly the `Copied` contents and returns the byte count |
| `NodeBuffer.Subarray` | src/index.ts:97 | `subarray(start, end)` is `s[start..end]` within bounds, is cut at the end of the buffer, and is empty past it or for an inverted range |
| `PixelReducer.PixelValue` | src/index.ts:116-119 | a pixel is 0 or 1, and 1 exactly when `r + g + b >= 375`, i.e. the floored average is at least 125 |
| `PixelReducer.AvgPixels` | src/index.ts:109-123 | `getAvgPixels` returns `floor(len/3)` entries, each 0 or 1, entry `i` being 1 exactly when bytes `3i, 3i+1, 3i+2` sum to at least 375 |
| `PixelReducer.ThresholdBoundary` | src/index.ts:119 | an average of 124 gives 0 and an average of 125 gives 1; `[10,10,10,200,200,200]` reduces to `[0, 1]` |
| `PixelReducer.AvgPixelsLocal` | src/index.ts:114-119 | entry `i` depends only on bytes `3i..3i+2`, wherever the group sits |
| `PixelReducer.AvgPixelsAppend` | src/index.ts:114-120 | reduction distributes over concatenation at a multiple of 3 bytes |
| `PixelReducer.AvgPixelsIgnoresTail` | src/index.ts:111 | the trailing `len mod 3` bytes never affect the result |
| `PixelReducer.GetAvgPixels` | src/index.ts:109-123 | the counting loop over a fresh array returns exactly `AvgPixels` |
| `PixelReducer.RowBytes` | src/index.ts:97 | the slice for row `i` is at most `WIDTH - 1` bytes, and is exactly bytes `[i*WIDTH, i*WIDTH + WIDTH - 1)` when the frame reaches that far |
| `PixelReducer.PixelMatrix` | src/index.ts:93-103 | `bufferToPixelMatrix` returns exactly `HEIGHT` rows, none longer than `(WIDTH-1)/3` |
| `PixelReducer.PixelMatrixAt` | src/index.ts:96-100 | for a frame of at least `HEIGHT*WIDTH - 1` bytes, row `i` has `(WIDTH-1)/3` entries, and entry `j` is 0 or 1, being 1 exactly when bytes `i*WIDTH + 3j .. +2` sum to at least 375 |
| `PixelReducer.PixelMatrixReadsPrefix` | src/index.ts:97 | frames that agree on bytes `[0, HEIGHT*WIDTH - 1)` give the same matrix, whatever follows |
| `PixelReducer.RowsWithinFrame` | src/index.ts:44 | the bytes read, `HEIGHT*WIDTH - 1`, always lie within `frameSize` |
| `PixelReducer.BufferToPixelMatrix` | src/index.ts:93-103 | the loop, starting from the one-element array and overwriting index 0 before appending, returns exactly `PixelMatrix` |
| `FrameAssembly.Config.FrameSize` | src/index.ts:44 | `frameSize` is at least 3 bytes for any valid dimensions (its value `WIDTH*HEIGHT*3` is its definition) |
| `FrameAssembly.SourceDimensions` | src/index.ts:4-5 | for the source's 86 × 64: `frameSize` is 16512, the buffer is 1065088 bytes, and each row has 28 entries read from the first 5503 bytes of a frame |
| `FrameAssembly.Initial` | src/index.ts:44-48 | the start state: a zero-filled buffer of `frameSize + 1 MiB` bytes (that length is `Config.Capacity`, folded into this row), position 0, no frames |
| `FrameAssembly.Written` | src/index.ts:55 | `chunk.copy(buffer, buffPos)` keeps the buffer's length, touches no byte outside `[buffPos, buffPos + len)`, and writes a chunk that fits whole at `buffPos` |
| `FrameAssembly.Step` | src/index.ts:53-73 | one `data` event keeps the buffer at its capacity of `frameSize + 1 MiB` bytes (what the event does is stated by the lemmas below and by `OnData`) |
| `FrameAssembly.StepBookkeeping` | src/index.ts:58-71 | after an event `buffPos` is `old + len - frameSize` if `old + len >= frameSize`, and `old + len` otherwise; `frames` gains exactly one element at the end in the first case; in the second `frames` is unchanged and the buffer is exactly the one after the write at :55 |
| `FrameAssembly.StepWritesChunk` | src/index.ts:55-66 | the chunk lands at `[buffPos, buffPos + len)` clipped to capacity; all other bytes are unchanged; the frame appended is the reduction of the first `frameSize` bytes of that buffer |
| `FrameAssembly.AtMostOneFramePerChunk` | src/index.ts:61 | an event adds at most one frame; a chunk that completes two frames adds one and leaves at least a whole frame buffered |
| `FrameAssembly.ShortLeftoverNothingMoves` | src/index.ts:70 | when the leftover is at most one frame, compaction moves nothing and the front still holds the frame just emitted |
| `FrameAssembly.LongLeftoverPartlyMoved` | src/index.ts:70 | when the leftover exceeds one frame, only `[frameSize, P - frameSize)` reaches the front and the other bytes stay put |
| `FrameAssembly.Run` | src/index.ts:53 | a sequence of `data` events, handled in order, keeps the buffer at its capacity |
| `FrameAssembly.RunAppendOnly` | src/index.ts:67 | over a run of events `frames` is append-only and grows by at most one per event |
| `FrameAssembly.RunAppend` | src/index.ts:53-73 | two runs back to back equal one run over both chunk lists |
| `FrameAssembly.RunBelowFrame` | src/index.ts:55-58 | from position 0, chunks totalling less than a frame are held in order at the front and emit nothing |
| `FrameAssembly.AlignedFrame` | src/index.ts:50-71 | from position 0, chunks ending exactly on the frame boundary emit the reduction of exactly their bytes, and `buffPos` returns to 0 |
| `FrameAssembly.AlignedGroups` | src/index.ts:50-71 | when every group of chunks ends on a frame boundary, the frames emitted are, in order, the reductions of the groups' bytes |
| `FrameAssembly.GroupFramesAt` | src/index.ts:67 | frame `g` of such a run is the reduction of group `g` |
| `FrameAssembly.StaleBytesAfterShortLeftover` | src/index.ts:70-71 | with `c1` longer than a frame by `r <= frameSize` and `c2` completing the next frame, the second frame is reduced from `c1[..r] + c2`, not from the stream's `c1[frameSize..] + c2` |
| `FrameAssembly.OverCapacityChunkClipped` | src/index.ts:55-58 | a chunk that does not fit is cut at the capacity (dropped entirely once `buffPos` is past it), while `buffPos` still counts the whole chunk: it ends at `old + len - frameSize`, beyond the 1 MiB slack |
| `FrameAssembly.FrameAssembler.constructor` | src/index.ts:44-48 | the handler state starts as `Initial` |
| `FrameAssembly.FrameAssembler.OnData` | src/index.ts:53-73 | the handler changes buffer, `buffPos` and `frames` exactly as `Step` says |
| `FrameAssembly.FrameAssembler.OnDataEach` | src/index.ts:53 | a sequence of `data` events changes the state exactly as `Run` says |
| `IntendedPipeline.ImageLine` | src/index.ts:97 | the corrected row is `3*WIDTH` bytes long |
| `IntendedPipeline.PixelMatrixIntended` | src/index.ts:93-103 | the corrected matrix has `HEIGHT` rows of `WIDTH` entries, as the doc comment at :88 promises |
| `IntendedPipeline.PixelMatrixIntendedAt` | src/index.ts:97 | corrected entry `(r, p)` is 0 or 1, and is 1 exactly when the three bytes of pixel `r*WIDTH + p` sum to at least 375 |
| `IntendedPipeline.ShortRowsExample` | src/index.ts:97 | on the 2×1 frame `[10,10,10,200,200,200]` the code gives `[[]]` where the corrected reduction gives `[[0, 1]]` |
| `IntendedPipeline.Drain` | src/index.ts:61-71 | taking frames in a loop leaves fewer than `frameSize` bytes held |
| `IntendedPipeline.IngestChunk` | src/index.ts:53-73 | a corrected handler call that succeeds leaves fewer than `frameSize` bytes held |
| `IntendedPipeline.IngestRun` | src/index.ts:53 | a run of corrected handler calls that succeeds keeps the position within capacity |
| `IntendedPipeline.SlicesAt` | src/index.ts:50-52 | a stream of `k*frameSize + r` bytes has `k` whole frames, frame `i` being bytes `[i*frameSize, (i+1)*frameSize)`, with `r` bytes left over |
| `IntendedPipeline.StreamFramesAt` | src/index.ts:50-52 | the same, with each frame reduced |
| `IntendedPipeline.StreamAppend` | src/index.ts:50-52 | appending bytes to a stream adds the frames of the old leftover followed by the new bytes |
| `IntendedPipeline.DrainTakesStreamFrames` | src/index.ts:61-71 | draining a buffer that holds `P` appends exactly the frames of `P` and keeps its leftover |
| `IntendedPipeline.WrittenHeld` | src/index.ts:55-58 | a chunk that fits is appended, in order, to the bytes held |
| `IntendedPipeline.IngestEmitsEveryFrame` | src/index.ts:61 | a corrected handler call takes every whole frame: frames added × `frameSize` + `buffPos` equals the bytes held, with `buffPos < frameSize` |
| `IntendedPipeline.IngestOverflowIsAtomic` | src/index.ts:55 | a corrected handler call refuses the chunk (`BufferOverflow(len, capacity)`) exactly when it does not fit, and produces no new state |
| `IntendedPipeline.IngestFollowsStream` | src/index.ts:50-73 | one corrected handler call preserves "frames = frames of the stream so far, buffer = its leftover" |
| `IntendedPipeline.IngestRunMatchesStream` | src/index.ts:50-52 | under any chunking with no chunk above the slack, corrected handler calls never refuse a chunk, and they give the stream's frames and leftover |
| `IntendedPipeline.StreamAlignment` | src/index.ts:50-52 | under the same conditions, frame `k` is the reduction of stream bytes `[k*frameSize, (k+1)*frameSize)`, and the buffer holds exactly the trailing `len mod frameSize` bytes |

## Left out

- The ffmpeg command, its filter graph, its options and `.pipe()` (src/index.ts:1-41) are left out: they configure an external process.
- Console logging in the `start`, `end` and `error` handlers is left out because it is output only.
- The `end` handler's `JSON.stringify` and `writeFile` (src/index.ts:75-85) are left out because they are serialisation and file I/O. The model's output is the final `frames` sequence of the state.
- Event-loop delivery is not modelled. Each `data` event is one sequential `OnData` call, and a stream is a sequence of them (`Run`, `OnDataEach`).
- Node's `Buffer` internals are not modelled, only the contracts of `copy` and `subarray` stated in `NodeBuffer`. `copy`'s exception for a `sourceStart` past the source is excluded by a requires clause; the handler never reaches it.
- `WIDTH` and `HEIGHT` are parameters, at least 1, instead of the constants 86 and 64. The code's result for a zero dimension is not modelled. In JavaScript, `new Array(0)` and a negative `subarray` end behave differently, and the source never uses a zero dimension.
- `buffPos` and the byte arithmetic are unbounded integers. JavaScript numbers are exact far beyond any reachable position, so no wrap-around is modelled.
- The placeholder row `new Array<number>(HEIGHT)` holds `HEIGHT` empty slots. It is represented by zeros in `BufferToPixelMatrix`, and it is always overwritten.
- `FrameAssembly.Step`: its own contract states only that the buffer keeps its capacity. Its effect is stated in `StepBookkeeping`, `Written`, `StepWritesChunk`, `ShortLeftoverNothingMoves` and `LongLeftoverPartlyMoved`.
- `FrameAssembly.Run`: its own contract states only that the buffer keeps its capacity. What a run does is stated in `RunAppendOnly`, `RunAppend`, `RunBelowFrame`, `AlignedFrame` and `AlignedGroups`.
- `PixelReducer.PixelMatrix`: its own contract bounds each row only by `(WIDTH-1)/3` entries, because frames shorter than `HEIGHT*WIDTH - 1` bytes give shorter rows. The exact row length and entries for a whole frame are in `PixelMatrixAt`.

## Findings

The `FrameAssembler` class and `PixelMatrix` keep the code's behaviour. The
corrected definitions are in `IntendedPipeline`, where their properties
are proved. Sizes below use `WIDTH = 86` and `HEIGHT = 64`, so
`frameSize = 16512`.

| source | as written | input that shows it | evidently intended | confidence | as-written member | corrected member |
|---|---|---|---|---|---|---|
| src/index.ts:61 | `if (buffPos >= frameSize)` takes one frame per chunk | `buffPos = 0`, one chunk of 33024 bytes: one frame is emitted and `buffPos` stays at 16512 | take frames while a whole one is held: two frames, `buffPos = 0` | high; not executed | `FrameAssembly.AtMostOneFramePerChunk` | `IntendedPipeline.IngestEmitsEveryFrame` |
| src/index.ts:70 | compaction source end is `buffPos - frameSize`, so a leftover of at most one frame is never moved | `buffPos = 0`, chunk `c1` of 16513 bytes, then `c2` of 16511 bytes: the second frame is reduced from `c1[0..1) + c2` | source end `buffPos`: the second frame is `c1[16512..16513) + c2` | high; not executed | `FrameAssembly.StaleBytesAfterShortLeftover` | `IntendedPipeline.IngestRunMatchesStream` |
| src/index.ts:55 | `chunk.copy` silently clips a chunk past the capacity, and `buffPos` still advances by its full length | `buffPos = 0`, one chunk of `16512 + 1048576 + 1` bytes: its last byte is dropped and `buffPos` becomes 1048577 | nothing in the program; it assumes that the padding at :45 suffices. This model's chosen correction is to refuse the chunk whole, leaving the state unchanged | low; not executed | `FrameAssembly.OverCapacityChunkClipped` | `IntendedPipeline.IngestOverflowIsAtomic` |
| src/index.ts:97 | row `i` is bytes `[i*WIDTH, i*WIDTH + WIDTH - 1)`: a stride of `WIDTH` bytes, not `3*WIDTH`, one byte short | `WIDTH = 2`, `HEIGHT = 1`, frame `[10,10,10,200,200,200]` reduces to `[[]]` | row `r` is the `3*WIDTH` bytes of image line `r`, giving `[[0, 1]]` | high; not executed | `IntendedPipeline.ShortRowsExample` | `IntendedPipeline.PixelMatrixIntendedAt` |
