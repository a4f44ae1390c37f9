/**
 * The pixel reducer: `getAvgPixels` turns every group of three RGB bytes
 * into 0 or 1 by integer average and threshold, and `bufferToPixelMatrix`
 * cuts a frame into rows and reduces each row.
 *
 * The rows are cut exactly as the code cuts them: row `i` is the bytes
 * `[i * width, i * width + width - 1)`, a stride of `width` bytes (not
 * `3 * width`) and one byte short of `width`, so every row has
 * `(width - 1) / 3` entries and only the first `height * width - 1` bytes of
 * a frame are ever read.
 */
module PixelReducer {
  import opened NodeBuffer

  /** A reduced frame: one row of 0/1 values per image line. */
  type Matrix = seq<seq<int>>

  /** The frame dimensions of the source (`WIDTH`, `HEIGHT`). */
  const Width: nat := 86
  const Height: nat := 64

  /** Bytes averaged into one pixel (`WINDOW_SIZE`). */
  const WindowSize: nat := 3
  /** Averages below this become 0, the others 1. */
  const Threshold: nat := 125

  /** Integer average of one RGB triple, thresholded. */
  function PixelValue(r: byte, g: byte, b: byte): (v: int)
    ensures v == 0 || v == 1
    ensures v == 1 <==> r + g + b >= WindowSize * Threshold
  {
    if (r + g + b) / WindowSize < Threshold then 0 else 1
  }

  /** The result of `getAvgPixels(buf)`. */
  function AvgPixels(buf: seq<byte>): (px: seq<int>)
    ensures |px| == |buf| / WindowSize
    ensures forall i :: 0 <= i < |px| ==> px[i] == 0 || px[i] == 1
    ensures forall i :: 0 <= i < |px| ==>
      (px[i] == 1 <==> buf[3 * i] + buf[3 * i + 1] + buf[3 * i + 2] >= WindowSize * Threshold)
  {
    seq(|buf| / WindowSize, i requires 0 <= i < |buf| / WindowSize =>
      PixelValue(buf[3 * i], buf[3 * i + 1], buf[3 * i + 2]))
  }

  /** The threshold boundary: an average of 124 gives 0, an average of 125 gives 1. */
  lemma ThresholdBoundary()
    ensures PixelValue(124, 124, 124) == 0 && PixelValue(124, 125, 125) == 0
    ensures PixelValue(125, 125, 125) == 1 && PixelValue(125, 125, 126) == 1
    ensures AvgPixels([10, 10, 10, 200, 200, 200]) == [0, 1]
  {
  }

  /**
   * Entry `i` depends on bytes `3i .. 3i+2` and nothing else: two buffers
   * that agree there agree on that entry, wherever the group sits.
   */
  lemma AvgPixelsLocal(a: seq<byte>, i: nat, b: seq<byte>, j: nat)
    requires 3 * i + 3 <= |a| && 3 * j + 3 <= |b|
    requires a[3 * i..3 * i + 3] == b[3 * j..3 * j + 3]
    ensures i < |AvgPixels(a)| && j < |AvgPixels(b)|
    ensures AvgPixels(a)[i] == AvgPixels(b)[j]
  {
    assert a[3 * i] == a[3 * i..3 * i + 3][0] == b[3 * j];
    assert a[3 * i + 1] == a[3 * i..3 * i + 3][1] == b[3 * j + 1];
    assert a[3 * i + 2] == a[3 * i..3 * i + 3][2] == b[3 * j + 2];
  }

  /** Reduction distributes over concatenation at a pixel boundary. */
  lemma AvgPixelsAppend(a: seq<byte>, b: seq<byte>)
    requires |a| % WindowSize == 0
    ensures AvgPixels(a + b) == AvgPixels(a) + AvgPixels(b)
  {
    var l, r := AvgPixels(a + b), AvgPixels(a) + AvgPixels(b);
    assert |l| == |r|;
    forall i | 0 <= i < |l| ensures l[i] == r[i] {
      if i < |a| / 3 {
        assert (a + b)[3 * i] == a[3 * i] && (a + b)[3 * i + 1] == a[3 * i + 1] && (a + b)[3 * i + 2] == a[3 * i + 2];
      } else {
        var j := i - |a| / 3;
        assert 3 * i == |a| + 3 * j;
        assert (a + b)[3 * i] == b[3 * j] && (a + b)[3 * i + 1] == b[3 * j + 1] && (a + b)[3 * i + 2] == b[3 * j + 2];
      }
    }
  }

  /** The trailing `|buf| % 3` bytes never reach the result. */
  lemma AvgPixelsIgnoresTail(buf: seq<byte>)
    ensures AvgPixels(buf) == AvgPixels(buf[..|buf| - |buf| % WindowSize])
  {
    var t := buf[..|buf| - |buf| % WindowSize];
    var l, r := AvgPixels(buf), AvgPixels(t);
    assert |l| == |r|;
    forall i | 0 <= i < |l| ensures l[i] == r[i] {
      assert t[3 * i] == buf[3 * i] && t[3 * i + 1] == buf[3 * i + 1] && t[3 * i + 2] == buf[3 * i + 2];
    }
  }

  /** `getAvgPixels`: fills a fresh array of `floor(len / 3)` entries in a counting loop. */
  method GetAvgPixels(buf: seq<byte>) returns (avgPixels: seq<int>)
    ensures avgPixels == AvgPixels(buf)
  {
    var pixelsSize := |buf| / WindowSize;
    var pixels := new int[pixelsSize];
    for i := 0 to pixelsSize
      invariant forall k :: 0 <= k < i ==> pixels[k] == AvgPixels(buf)[k]
    {
      var offset := i * WindowSize;
      var avgPixelValue := (buf[offset] + buf[offset + 1] + buf[offset + 2]) / WindowSize;
      pixels[i] := if avgPixelValue < Threshold then 0 else 1;
    }
    avgPixels := pixels[..];
  }

  /** The bytes that `bufferToPixelMatrix` reduces into row `i`. */
  function RowBytes(frame: seq<byte>, width: nat, i: nat): (row: seq<byte>)
    requires width >= 1
    ensures |row| <= width - 1
    ensures i * width + width - 1 <= |frame| ==> row == frame[i * width..i * width + width - 1]
  {
    Subarray(frame, i * width, i * width + width - 1)
  }

  /** The result of `bufferToPixelMatrix(frame)` for a `width` by `height` image. */
  function PixelMatrix(frame: seq<byte>, width: nat, height: nat): (m: Matrix)
    requires width >= 1 && height >= 1
    ensures |m| == height
    ensures forall i :: 0 <= i < height ==> |m[i]| <= (width - 1) / WindowSize
  {
    seq(height, i requires 0 <= i < height => AvgPixels(RowBytes(frame, width, i)))
  }

  /** `(i + 1) * width <= height * width` for a row index `i < height`. */
  lemma RowEndWithin(width: nat, height: nat, i: nat)
    requires i < height
    ensures i * width + width <= height * width
  {
    var k := height - i - 1;
    assert height * width == i * width + width + k * width;
  }

  /**
   * What every entry of the matrix is, in terms of the frame alone: row `i`
   * has `(width - 1) / 3` entries, and entry `j` thresholds bytes
   * `i * width + 3j .. i * width + 3j + 2` (a stride of `width` bytes per row).
   */
  lemma PixelMatrixAt(frame: seq<byte>, width: nat, height: nat, i: nat)
    requires width >= 1 && height >= 1 && i < height
    requires |frame| >= height * width - 1
    ensures |PixelMatrix(frame, width, height)[i]| == (width - 1) / WindowSize
    ensures forall j :: 0 <= j < (width - 1) / WindowSize ==>
      var p := i * width + 3 * j;
      p + 2 < |frame| &&
      (PixelMatrix(frame, width, height)[i][j] == 0 || PixelMatrix(frame, width, height)[i][j] == 1) &&
      (PixelMatrix(frame, width, height)[i][j] == 1 <==> frame[p] + frame[p + 1] + frame[p + 2] >= WindowSize * Threshold)
  {
    RowEndWithin(width, height, i);
    var row := RowBytes(frame, width, i);
    assert row == frame[i * width..i * width + width - 1];
    forall j | 0 <= j < (width - 1) / WindowSize
      ensures row[3 * j] == frame[i * width + 3 * j]
      ensures row[3 * j + 1] == frame[i * width + 3 * j + 1]
      ensures row[3 * j + 2] == frame[i * width + 3 * j + 2]
    {
    }
  }

  /**
   * Only bytes `[0, height * width - 1)` are read: frames that agree on them
   * reduce to the same matrix, whatever follows.
   */
  lemma PixelMatrixReadsPrefix(f: seq<byte>, g: seq<byte>, width: nat, height: nat)
    requires width >= 1 && height >= 1
    requires |f| >= height * width - 1 && |g| >= height * width - 1
    requires f[..height * width - 1] == g[..height * width - 1]
    ensures PixelMatrix(f, width, height) == PixelMatrix(g, width, height)
  {
    var n := height * width - 1;
    forall i | 0 <= i < height
      ensures RowBytes(f, width, i) == RowBytes(g, width, i)
    {
      RowEndWithin(width, height, i);
      WindowsAgree(f, g, n, i * width, i * width + width - 1);
    }
    var m, m' := PixelMatrix(f, width, height), PixelMatrix(g, width, height);
    assert forall i :: 0 <= i < height ==> m[i] == m'[i];
  }

  /** Two buffers that agree on their first `n` bytes agree on every window inside them. */
  lemma WindowsAgree(f: seq<byte>, g: seq<byte>, n: nat, start: nat, end: nat)
    requires start <= end <= n <= |f| && n <= |g| && f[..n] == g[..n]
    ensures Subarray(f, start, end) == Subarray(g, start, end)
  {
    assert f[start..end] == f[..n][start..end];
    assert g[start..end] == g[..n][start..end];
  }

  /** A whole frame (`width * height * 3` bytes) is always long enough for the rows read. */
  lemma RowsWithinFrame(width: nat, height: nat)
    requires width >= 1 && height >= 1
    ensures height * width - 1 < width * height * 3
  {
  }

  /**
   * `bufferToPixelMatrix`: the result starts as a one-element array
   * (`new Array<number[]>(new Array<number>(HEIGHT))`); the loop overwrites
   * index 0 and appends the later rows.
   */
  method BufferToPixelMatrix(buf: seq<byte>, width: nat, height: nat) returns (frame: Matrix)
    requires width >= 1 && height >= 1
    ensures frame == PixelMatrix(buf, width, height)
  {
    // The inner array's HEIGHT empty slots are represented by zeros; they are overwritten.
    frame := [seq(height, _ => 0)];
    for i := 0 to height
      invariant |frame| == if i == 0 then 1 else i
      invariant forall k :: 0 <= k < i ==> frame[k] == PixelMatrix(buf, width, height)[k]
    {
      var lineBuffer := Subarray(buf, i * width, i * width + width - 1);
      var pixels := GetAvgPixels(lineBuffer);
      assert pixels == PixelMatrix(buf, width, height)[i] by {
        assert lineBuffer == RowBytes(buf, width, i);
      }
      if i < |frame| {
        frame := frame[i := pixels];
      } else {
        frame := frame + [pixels];
      }
    }
  }
}
