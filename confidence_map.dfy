/** The confidence-map image of an ARKit frame: every byte of the locked confidence buffer is
    rewritten in place from a confidence level (0 low, 1 medium, 2 high) to a grey value. */
module ConfidenceMap {
  import opened Memory

  /** `ARConfidenceLevel.high.rawValue`. */
  const HighConfidence: Byte := 2

  /** `confienceValueToPixcelValue`: 0 above the high level, otherwise the level as a fraction
      of the high level, scaled to 255 and rounded down. */
  function ConfidenceToPixel(level: Byte): (pixel: Byte)
    ensures level > HighConfidence ==> pixel == 0
    ensures level <= HighConfidence ==> pixel == level * 255 / HighConfidence
    ensures pixel == 0 || pixel == 127 || pixel == 255
  {
    if level > HighConfidence then 0
    else
      var scaled := (level as real) / (HighConfidence as real) * 255.0;
      assert scaled == 0.0 || scaled == 127.5 || scaled == 255.0;
      scaled.Floor
  }

  /** The three levels become black, mid grey and white; every other value becomes black. */
  lemma ConfidenceGreyLevels(level: Byte)
    ensures ConfidenceToPixel(level) == 255 <==> level == HighConfidence
    ensures ConfidenceToPixel(level) == 127 <==> level == 1
    ensures ConfidenceToPixel(level) == 0 <==> level == 0 || level > HighConfidence
  {
  }

  /** Among the levels, a higher confidence is never darker. */
  lemma ConfidenceMonotone(a: Byte, b: Byte)
    requires a <= b <= HighConfidence
    ensures ConfidenceToPixel(a) <= ConfidenceToPixel(b)
  {
  }

  /** The rewrite is not idempotent: rewriting an already rewritten byte gives black, so a
      buffer rewritten twice is all black. */
  lemma RemapTwiceIsBlack(level: Byte)
    ensures ConfidenceToPixel(ConfidenceToPixel(level)) == 0
  {
  }

  /** The confidence map's pixel buffer: its rows in bytes, the memory its base address points
      to while locked (null when CoreVideo gives no base address) and how often it is locked. */
  class ConfidenceBuffer {
    const height: nat
    const bytesPerRow: nat
    const memory: array?<Byte>
    var locks: nat

    /** CoreVideo's guarantee that the buffer holds `height` rows of `bytesPerRow` bytes. */
    predicate Valid()
    {
      memory != null ==> height * bytesPerRow <= memory.Length
    }

    constructor(height: nat, bytesPerRow: nat, memory: array?<Byte>)
      requires memory != null ==> height * bytesPerRow <= memory.Length
      ensures Valid()
      ensures this.height == height && this.bytesPerRow == bytesPerRow && this.memory == memory
      ensures locks == 0
    {
      this.height := height;
      this.bytesPerRow := bytesPerRow;
      this.memory := memory;
      locks := 0;
    }

    /** The in-place part of `ConfidenceMapTransformedImage`: lock, give up (still locked) when
        there is no base address, otherwise rewrite bytes 0 ..< bytesPerRow * height with
        `ConfidenceToPixel`, leave any bytes past them alone, and unlock. `image` is whether
        an image is made. */
    method RemapToImage() returns (image: bool)
      requires Valid()
      modifies this, memory
      ensures Valid()
      ensures image <==> memory != null
      ensures memory == null ==> locks == old(locks) + 1
      ensures memory != null ==> locks == old(locks)
      ensures memory != null ==> forall i | 0 <= i < memory.Length ::
        memory[i] == if i < bytesPerRow * height then ConfidenceToPixel(old(memory[i])) else old(memory[i])
    {
      locks := locks + 1;
      if memory == null {
        return false;
      }
      var size := bytesPerRow * height;
      for i := 0 to size
        invariant locks == old(locks) + 1
        invariant forall j | 0 <= j < i :: memory[j] == ConfidenceToPixel(old(memory[j]))
        invariant forall j | i <= j < memory.Length :: memory[j] == old(memory[j])
      {
        var data := memory[i];
        memory[i] := ConfidenceToPixel(data);
      }
      locks := locks - 1;
      return true;
    }
  }
}
