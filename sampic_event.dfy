/** The SAMPIC event: the last event header and trailer read, and every
    channel stream read so far, filled by ConvertBlock from raw blocks of
    bytes. A block is a stream of little-endian 16-bit words holding
    back-to-back fragments: an event header, one channel stream per bit set
    in the header's channel bitmap, and a trailer. */
module SampicEvent {
  import opened Bytes
  import opened SampicDataFormat

  // ---------------------------------------------------------------------
  // Bytes to 16-bit words
  // ---------------------------------------------------------------------

  /** The little-endian 16-bit words of a byte block; an odd last byte is
      dropped. */
  function Words16(b: seq<Byte>): (w: seq<Word16>)
    ensures |w| == |b| / 2
  {
    if |b| < 2 then [] else [b[0] as int + 0x100 * b[1] as int] + Words16(b[2..])
  }

  /** Word i is byte 2i plus 256 times byte 2i + 1. */
  lemma {:induction false} Words16At(b: seq<Byte>, i: nat)
    requires i < |b| / 2
    ensures Words16(b)[i] == b[2 * i] as int + 0x100 * b[2 * i + 1] as int
  {
    if i > 0 {
      Words16At(b[2..], i - 1);
      assert b[2..][2 * (i - 1)] == b[2 * i];
      assert b[2..][2 * (i - 1) + 1] == b[2 * i + 1];
    }
  }

  /** The bytes of a word stream, low byte first. */
  function Bytes16(w: seq<Word16>): (b: seq<Byte>)
    ensures |b| == 2 * |w|
  {
    if w == [] then [] else [LowByte(w[0]), HighByte(w[0])] + Bytes16(w[1..])
  }

  lemma {:induction false} Words16OfBytes16(w: seq<Word16>)
    ensures Words16(Bytes16(w)) == w
  {
    if w != [] {
      var b := Bytes16(w);
      Words16OfBytes16(w[1..]);
      assert b == [LowByte(w[0]), HighByte(w[0])] + Bytes16(w[1..]);
      assert b[2..] == Bytes16(w[1..]);
      assert Words16(b) == [b[0] as int + 0x100 * b[1] as int] + Words16(b[2..]);
    }
  }

  lemma {:induction false} Bytes16OfWords16(b: seq<Byte>)
    requires |b| % 2 == 0
    ensures Bytes16(Words16(b)) == b
  {
    if b != [] {
      Bytes16OfWords16(b[2..]);
      assert Words16(b)[1..] == Words16(b[2..]);
      assert b == [b[0], b[1]] + b[2..];
    }
  }

  /** A trailing odd byte does not reach the word stream. */
  lemma OddByteIgnored(b: seq<Byte>, x: Byte)
    requires |b| % 2 == 0
    ensures Words16(b + [x]) == Words16(b)
  {
    var b' := b + [x];
    var w, w' := Words16(b'), Words16(b);
    assert |w| == |w'|;
    forall i | 0 <= i < |w| ensures w[i] == w'[i] {
      Words16At(b', i);
      Words16At(b, i);
      assert b'[2 * i] == b[2 * i] && b'[2 * i + 1] == b[2 * i + 1];
    }
  }

  /** The packing loop at the head of ConvertBlock. */
  method PackWords(block8: seq<Byte>) returns (block: seq<Word16>)
    ensures block == Words16(block8)
  {
    block := [];
    var i := 0;
    while i < |block8| / 2
      invariant 0 <= i <= |block8| / 2
      invariant |block| == i
      invariant forall k :: 0 <= k < i ==> block[k] == block8[2 * k] as int + 0x100 * block8[2 * k + 1] as int
    {
      block := block + [block8[2 * i] as int + 0x100 * block8[2 * i + 1] as int];
      i := i + 1;
    }
    forall k | 0 <= k < |block| ensures block[k] == Words16(block8)[k] {
      Words16At(block8, k);
    }
  }

  // ---------------------------------------------------------------------
  // Channel bitmap
  // ---------------------------------------------------------------------

  /** Number of set bits. */
  function Popcount(x: nat): nat
  {
    if x == 0 then 0 else x % 2 + Popcount(x / 2)
  }

  function CountSet(s: seq<bool>): nat
  {
    if s == [] then 0 else (if s[0] then 1 else 0) + CountSet(s[1..])
  }

  /** Popcount counts the set bits of the binary expansion; a value below
      2^n has at most n of them. */
  lemma {:induction false} PopcountIsCountSet(x: nat, n: nat)
    requires x < Pow2(n)
    ensures Popcount(x) == CountSet(ToBits(x, n))
    ensures Popcount(x) <= n
  {
    if n == 0 {
    } else {
      PopcountIsCountSet(x / 2, n - 1);
      assert ToBits(x, n)[1..] == ToBits(x / 2, n - 1);
    }
  }

  /** The channel-counting loop of ConvertBlock. */
  method CountChannels(chMap: Word16) returns (channelInEvt: nat)
    ensures channelInEvt == Popcount(chMap)
    ensures channelInEvt <= 16
  {
    channelInEvt := 0;
    var map16: nat := chMap;
    while map16 != 0
      invariant channelInEvt + Popcount(map16) == Popcount(chMap)
    {
      channelInEvt := channelInEvt + map16 % 2;
      map16 := map16 / 2;
    }
    Pow2Sixteen();
    PopcountIsCountSet(chMap, 16);
  }

  // ---------------------------------------------------------------------
  // The fragment walk, as a function of the word stream
  // ---------------------------------------------------------------------

  /** What a SampicEvent holds. */
  datatype Contents = Contents(header: EventHeader, streams: seq<ChannelStream>, trailer: EventTrailer)

  /** How a conversion ended. Truncated stands for a block that ends inside
      a fragment: the source then reads past the end of its buffer. */
  datatype Status = Converted | InvalidTrailer(word: Word16) | Truncated

  datatype Walked = Walked(contents: Contents, status: Status)

  /** The channel stream starting at word pos. */
  function StreamAt(ws: seq<Word16>, pos: nat): ChannelStream
    requires pos + ChannelStreamSize <= |ws|
  {
    ChannelStream(ws[pos..pos + 2], SampicStream(ws[pos + 2..pos + 9], ws[pos + 9..pos + 73]))
  }

  /** The channel stream read at pos consists exactly of the 73 words there. */
  lemma StreamAtWords(ws: seq<Word16>, pos: nat)
    requires pos + ChannelStreamSize <= |ws|
    ensures ChannelStreamWords(StreamAt(ws, pos)) == ws[pos..pos + ChannelStreamSize]
  {
    var c := StreamAt(ws, pos);
    assert ws[pos..pos + ChannelStreamSize] == ws[pos..pos + 2] + ws[pos + 2..pos + 9] + ws[pos + 9..pos + 73];
  }

  /** Reading one channel stream at word it: the LP-bus and SAMPIC headers
      are copied whole, the 64 samples one by one and verbatim. */
  method ReadStream(block: seq<Word16>, it: nat) returns (stream: ChannelStream, next: nat)
    requires it + ChannelStreamSize <= |block|
    ensures stream == StreamAt(block, it)
    ensures next == it + ChannelStreamSize
  {
    next := it;
    var lpbus: LpbusHeader := block[next..next + LpbusHeaderSize];
    next := next + LpbusHeaderSize;
    var sampicHeader: SampicHeader := block[next..next + SampicHeaderSize];
    next := next + SampicHeaderSize;
    var samples: seq<Word16> := [];
    var j := 0;
    while j < SamplesPerChannel
      invariant 0 <= j <= SamplesPerChannel
      invariant next == it + 9 + j
      invariant samples == block[it + 9..next]
    {
      samples := samples + [block[next]];
      next := next + 1;
      j := j + 1;
    }
    stream := ChannelStream(lpbus, SampicStream(sampicHeader, samples));
  }

  /** The fragment loop from word pos on: copy a header, then read the
      channel streams it announces, then the trailer. */
  function Walk(ws: seq<Word16>, pos: nat, st: Contents): Walked
    requires pos <= |ws|
    decreases |ws| - pos, 0
  {
    if pos == |ws| then Walked(st, Converted)
    else if |ws| - pos < EventHeaderSize then Walked(st, Truncated)
    else
      var h: EventHeader := ws[pos..pos + EventHeaderSize];
      WalkChannels(ws, pos + EventHeaderSize, Popcount(ActiveChannels(h)), st.(header := h))
  }

  /** n channel streams still to read at word pos, then the trailer. A
      trailer other than 0xeeee ends the walk with its value, after the
      fragment's channel streams have been appended. */
  function WalkChannels(ws: seq<Word16>, pos: nat, n: nat, st: Contents): Walked
    requires pos <= |ws|
    decreases |ws| - pos, n + 1
  {
    if n == 0 then
      if pos == |ws| then Walked(st, Truncated)
      else
        var st' := st.(trailer := [ws[pos]]);
        if !TrailerValid(st'.trailer) then Walked(st', InvalidTrailer(ws[pos]))
        else Walk(ws, pos + EventTrailerSize, st')
    else if |ws| - pos < ChannelStreamSize then Walked(st, Truncated)
    else WalkChannels(ws, pos + ChannelStreamSize, n - 1, st.(streams := st.streams + [StreamAt(ws, pos)]))
  }

  /** Walk at a fragment start with room for a header. */
  lemma WalkAtHeader(ws: seq<Word16>, pos: nat, st: Contents)
    requires pos + EventHeaderSize <= |ws|
    ensures var h: EventHeader := ws[pos..pos + EventHeaderSize];
      Walk(ws, pos, st) == WalkChannels(ws, pos + EventHeaderSize, Popcount(ActiveChannels(h)), st.(header := h))
  {
  }

  /** WalkChannels at a channel stream. */
  lemma WalkChannelsAtStream(ws: seq<Word16>, pos: nat, n: nat, st: Contents)
    requires n > 0 && pos + ChannelStreamSize <= |ws|
    ensures WalkChannels(ws, pos, n, st)
         == WalkChannels(ws, pos + ChannelStreamSize, n - 1, st.(streams := st.streams + [StreamAt(ws, pos)]))
  {
  }

  /** WalkChannels at a trailer word. */
  lemma WalkChannelsAtTrailer(ws: seq<Word16>, pos: nat, st: Contents)
    requires pos < |ws|
    ensures var st' := st.(trailer := [ws[pos]]);
      WalkChannels(ws, pos, 0, st)
      == if TrailerValid(st'.trailer) then Walk(ws, pos + EventTrailerSize, st') else Walked(st', InvalidTrailer(ws[pos]))
  {
  }

  /** The blocks of an event, converted in block-list order; the first block
      that fails ends the conversion. */
  function WalkBlocks(blocks: seq<seq<Byte>>, st: Contents): Walked
  {
    if blocks == [] then Walked(st, Converted)
    else
      var w := Walk(Words16(blocks[0]), 0, st);
      if w.status != Converted then w else WalkBlocks(blocks[1..], w.contents)
  }

  /** Walking fragments only appends to the channel streams held before. */
  lemma {:induction false} WalkOnlyAppends(ws: seq<Word16>, pos: nat, st: Contents)
    requires pos <= |ws|
    ensures st.streams <= Walk(ws, pos, st).contents.streams
    decreases |ws| - pos, 0
  {
    if pos < |ws| && |ws| - pos >= EventHeaderSize {
      var h: EventHeader := ws[pos..pos + EventHeaderSize];
      WalkChannelsOnlyAppends(ws, pos + EventHeaderSize, Popcount(ActiveChannels(h)), st.(header := h));
    }
  }

  /** Reading channel streams and a trailer only appends to the channel
      streams held before. */
  lemma {:induction false} WalkChannelsOnlyAppends(ws: seq<Word16>, pos: nat, n: nat, st: Contents)
    requires pos <= |ws|
    ensures st.streams <= WalkChannels(ws, pos, n, st).contents.streams
    decreases |ws| - pos, n + 1
  {
    if n == 0 {
      if pos < |ws| && TrailerValid([ws[pos]]) {
        WalkOnlyAppends(ws, pos + EventTrailerSize, st.(trailer := [ws[pos]]));
      }
    } else if |ws| - pos >= ChannelStreamSize {
      var st' := st.(streams := st.streams + [StreamAt(ws, pos)]);
      WalkChannelsOnlyAppends(ws, pos + ChannelStreamSize, n - 1, st');
      assert st.streams <= st'.streams;
    }
  }

  /** Converting the blocks of an event only appends to the channel streams
      held before. */
  lemma {:induction false} WalkBlocksOnlyAppends(blocks: seq<seq<Byte>>, st: Contents)
    ensures st.streams <= WalkBlocks(blocks, st).contents.streams
  {
    if blocks != [] {
      var w := Walk(Words16(blocks[0]), 0, st);
      WalkOnlyAppends(Words16(blocks[0]), 0, st);
      if w.status == Converted {
        WalkBlocksOnlyAppends(blocks[1..], w.contents);
      }
    }
  }

  // ---------------------------------------------------------------------
  // The event object
  // ---------------------------------------------------------------------

  class SampicEvent {
    var header: EventHeader
    var chStreams: seq<ChannelStream>
    var trailer: EventTrailer

    function State(): Contents
      reads this
    {
      Contents(header, chStreams, trailer)
    }

    /** A fresh event holds no channel stream. The source leaves the header
        and trailer words uninitialised; here they start at zero. */
    constructor ()
      ensures State() == Contents(seq(12, k => 0), [], [0])
    {
      header := seq(12, k => 0);
      chStreams := [];
      trailer := [0];
    }

    /** Decodes one block. Every fragment overwrites the header and the
        trailer and appends its channel streams; the begin marker and the
        SAMPIC-header validity byte are not looked at, and samples are
        copied without Gray decoding. */
    method ConvertBlock(block8: seq<Byte>) returns (status: Status)
      modifies this
      ensures Walked(State(), status) == Walk(Words16(block8), 0, old(State()))
    {
      var block := PackWords(block8);
      var it: nat := 0;
      while it != |block|
        invariant 0 <= it <= |block|
        invariant Walk(block, it, State()) == Walk(block, 0, old(State()))
        decreases |block| - it
      {
        if |block| - it < EventHeaderSize {
          status := Truncated;
          return;
        }
        ghost var fragment := it;
        WalkAtHeader(block, it, State());
        header := block[it..it + EventHeaderSize];
        it := it + EventHeaderSize;

        var channelInEvt := CountChannels(ActiveChannels(header));

        var i := 0;
        while i < channelInEvt
          invariant 0 <= i <= channelInEvt
          invariant fragment < it <= |block|
          invariant WalkChannels(block, it, channelInEvt - i, State()) == Walk(block, 0, old(State()))
        {
          if |block| - it < ChannelStreamSize {
            status := Truncated;
            return;
          }
          WalkChannelsAtStream(block, it, channelInEvt - i, State());
          var stream;
          stream, it := ReadStream(block, it);
          chStreams := chStreams + [stream];
          i := i + 1;
        }

        if it == |block| {
          status := Truncated;
          return;
        }
        WalkChannelsAtTrailer(block, it, State());
        trailer := [block[it]];
        if !TrailerValid(trailer) {
          status := InvalidTrailer(block[it]);
          return;
        }
        it := it + EventTrailerSize;
      }
      status := Converted;
    }

    /** The block loop of SampicEvent(const Event&): each block in turn; a
        failing block stops the loop, keeping what was read so far. */
    method ConvertEvent(blocks: seq<seq<Byte>>) returns (status: Status)
      modifies this
      ensures Walked(State(), status) == WalkBlocks(blocks, old(State()))
    {
      var k := 0;
      while k < |blocks|
        invariant 0 <= k <= |blocks|
        invariant WalkBlocks(blocks[k..], State()) == WalkBlocks(blocks, old(State()))
      {
        assert blocks[k..][1..] == blocks[k + 1..];
        status := ConvertBlock(blocks[k]);
        if status != Converted {
          return;
        }
        k := k + 1;
      }
      status := Converted;
    }
  }
}
