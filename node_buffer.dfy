/**
 * The two operations of Node's `Buffer` that the frame assembler relies on,
 * stated by their contracts only: `buf.copy(target, targetStart, sourceStart,
 * sourceEnd)` and `buf.subarray(start, end)`.
 */
module NodeBuffer {

  /** One element of a `Buffer`. */
  type byte = x: int | 0 <= x < 256

  function Min(a: int, b: int): int { if a <= b then a else b }

  /**
   * How many bytes `copy` moves: none when `targetStart` is past the end of
   * the target or the source range is empty; otherwise the requested range,
   * clipped to what fits in the target and to what the source holds.
   * (`copy` throws when `sourceStart` lies past the end of the source; the
   * requires clause excludes that, and no caller in the model reaches it.)
   */
  function CopyCount(targetLen: nat, targetStart: nat, sourceLen: nat, sourceStart: nat, sourceEnd: nat): (n: nat)
    requires sourceStart <= sourceLen
    ensures n == 0 <==> (targetStart >= targetLen || sourceStart >= sourceEnd || sourceStart == sourceLen)
    ensures n > 0 ==> targetStart + n <= targetLen && sourceStart + n <= sourceLen && sourceStart + n <= sourceEnd
    ensures 0 < n < sourceEnd - sourceStart ==> targetStart + n == targetLen || sourceStart + n == sourceLen
  {
    if targetStart >= targetLen || sourceStart >= sourceEnd then 0
    else Min(Min(sourceEnd - sourceStart, targetLen - targetStart), sourceLen - sourceStart)
  }

  /**
   * The target's contents after `source.copy(target, targetStart, sourceStart,
   * sourceEnd)`. The source is a value taken before the copy, so a copy of a
   * buffer onto itself has memmove semantics: every byte read is an old byte.
   */
  function Copied(target: seq<byte>, targetStart: nat, source: seq<byte>, sourceStart: nat, sourceEnd: nat): (r: seq<byte>)
    requires sourceStart <= |source|
    ensures |r| == |target|
    ensures forall k :: 0 <= k < |target| ==>
      r[k] == if targetStart <= k < targetStart + CopyCount(|target|, targetStart, |source|, sourceStart, sourceEnd)
              then source[sourceStart + (k - targetStart)]
              else target[k]
  {
    var n := CopyCount(|target|, targetStart, |source|, sourceStart, sourceEnd);
    if n == 0 then target
    else target[..targetStart] + source[sourceStart..sourceStart + n] + target[targetStart + n..]
  }

  /** A range that is empty or does not reach the target leaves it as it was. */
  lemma CopyNothing(target: seq<byte>, targetStart: nat, source: seq<byte>, sourceStart: nat, sourceEnd: nat)
    requires sourceStart <= |source|
    requires sourceEnd <= sourceStart || |target| <= targetStart
    ensures Copied(target, targetStart, source, sourceStart, sourceEnd) == target
  {
  }

  /**
   * A copy that fits: the target is its old prefix, the copied range and its
   * old suffix.
   */
  lemma CopyInRange(target: seq<byte>, targetStart: nat, source: seq<byte>, sourceStart: nat, sourceEnd: nat)
    requires sourceStart <= sourceEnd <= |source|
    requires targetStart + (sourceEnd - sourceStart) <= |target|
    ensures Copied(target, targetStart, source, sourceStart, sourceEnd)
         == target[..targetStart] + source[sourceStart..sourceEnd] + target[targetStart + (sourceEnd - sourceStart)..]
  {
    var r := Copied(target, targetStart, source, sourceStart, sourceEnd);
    var e := target[..targetStart] + source[sourceStart..sourceEnd] + target[targetStart + (sourceEnd - sourceStart)..];
    assert |r| == |e|;
    forall k | 0 <= k < |r| ensures r[k] == e[k] {
      if k < targetStart {
      } else if k < targetStart + (sourceEnd - sourceStart) {
      } else {
      }
    }
  }

  /** `source.copy(target, targetStart, sourceStart, sourceEnd)` on a target array. */
  method CopyInto(target: array<byte>, targetStart: nat, source: seq<byte>, sourceStart: nat, sourceEnd: nat)
    returns (copied: nat)
    requires sourceStart <= |source|
    modifies target
    ensures copied == CopyCount(target.Length, targetStart, |source|, sourceStart, sourceEnd)
    ensures target[..] == Copied(old(target[..]), targetStart, source, sourceStart, sourceEnd)
  {
    copied := CopyCount(target.Length, targetStart, |source|, sourceStart, sourceEnd);
    forall k | targetStart <= k < targetStart + copied {
      target[k] := source[sourceStart + (k - targetStart)];
    }
    assert target[..] == Copied(old(target[..]), targetStart, source, sourceStart, sourceEnd) by {
      var r := Copied(old(target[..]), targetStart, source, sourceStart, sourceEnd);
      forall k | 0 <= k < target.Length ensures target[..][k] == r[k] {
      }
    }
  }

  /**
   * `buf.subarray(start, end)` for non-negative bounds: both are clamped to
   * the buffer's length, and an end before the start gives an empty view.
   */
  function Subarray(s: seq<byte>, start: nat, end: nat): (r: seq<byte>)
    ensures start <= end <= |s| ==> r == s[start..end]
    ensures start <= |s| < end ==> r == s[start..]
    ensures |s| <= start || end <= start ==> r == []
  {
    var b := Min(start, |s|);
    var e := Min(end, |s|);
    if e <= b then [] else s[b..e]
  }
}
