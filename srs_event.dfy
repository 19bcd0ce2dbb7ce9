/** An SRS data event: the frame decoded from the last raw block it was
    given. The frame decoder itself is a foreign library; a frame stands
    here for the 32-bit words it was built from and the event-builder mode
    it was built with. */
module SrsEvent {
  import opened Bytes
  import opened Events
  import opened SrsWords

  /** The event-builder mode of the APV application register, an
      enumeration of the foreign library. */
  type EventBuilderMode = nat

  datatype SrsFrame = SrsFrame(words: seq<Word32>, mode: EventBuilderMode)

  predicate AllWholeWords(blocks: seq<seq<Byte>>)
  {
    forall i :: 0 <= i < |blocks| ==> |blocks[i]| % 4 == 0
  }

  /** The stride-4 loop of ConvertBlock. */
  method PackFrameWords(block8: seq<Byte>) returns (block32: seq<Word32>)
    requires |block8| % 4 == 0
    ensures block32 == Words32(block8)
  {
    block32 := [];
    var i := 0;
    ghost var k := 0;
    while i < |block8|
      invariant 0 <= i <= |block8| && i == 4 * k
      invariant |block32| == k && k <= |block8| / 4
      invariant forall j :: 0 <= j < k ==> block32[j] == Words32(block8)[j]
    {
      Words32At(block8, k);
      var w := ReadWord(block8, i);
      block32 := block32 + [w];
      i := i + 4;
      k := k + 1;
    }
  }

  /** One iteration of the loop: four bytes masked to 8 bits, shifted into
      place and summed, the sum masked to 32 bits. */
  method ReadWord(block8: seq<Byte>, i: nat) returns (w: Word32)
    requires i + 4 <= |block8|
    ensures w == Word(block8[i], block8[i + 1], block8[i + 2], block8[i + 3])
  {
    var b0: int := block8[i] as int % 0x100;
    var b1: int := block8[i + 1] as int % 0x100;
    var b2: int := block8[i + 2] as int % 0x100;
    var b3: int := block8[i + 3] as int % 0x100;
    assert b0 == block8[i] && b1 == block8[i + 1] && b2 == block8[i + 2] && b3 == block8[i + 3];
    var sum: int := b0 + b1 * 0x100 + b2 * 0x1_0000 + b3 * 0x100_0000;
    w := sum % 0x1_0000_0000;
  }

  class SrsEvent {
    const ebMode: EventBuilderMode
    var frame: Option<SrsFrame>

    /** An event not yet converted holds no frame. */
    constructor (ebMode: EventBuilderMode)
      ensures this.ebMode == ebMode && frame == None
    {
      this.ebMode := ebMode;
      frame := None;
    }

    /** Converts every block of a raw event in block-list order; each one
        replaces the frame, so the last block's frame is kept. */
    constructor FromEvent(blocks: seq<seq<Byte>>, ebMode: EventBuilderMode)
      requires AllWholeWords(blocks)
      ensures this.ebMode == ebMode
      ensures blocks == [] ==> frame == None
      ensures blocks != [] ==> frame == Some(SrsFrame(Words32(blocks[|blocks| - 1]), ebMode))
    {
      this.ebMode := ebMode;
      frame := None;
      new;
      var k := 0;
      while k < |blocks|
        invariant 0 <= k <= |blocks|
        invariant this.ebMode == ebMode
        invariant k == 0 ==> frame == None
        invariant k > 0 ==> frame == Some(SrsFrame(Words32(blocks[k - 1]), ebMode))
      {
        ConvertBlock(blocks[k]);
        k := k + 1;
      }
    }

    /** Replaces the frame by the one built from the block's words. */
    method ConvertBlock(block8: seq<Byte>)
      requires |block8| % 4 == 0
      modifies this
      ensures frame == Some(SrsFrame(Words32(block8), ebMode))
    {
      var block32 := PackFrameWords(block8);
      frame := Some(SrsFrame(block32, ebMode));
    }

    /** Printing refuses an event that was never converted; the text it
        writes otherwise is not modelled. */
    method Print() returns (converted: bool)
      ensures converted <==> frame.Some?
    {
      converted := frame.Some?;
    }
  }
}
