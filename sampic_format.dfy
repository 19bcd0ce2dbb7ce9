/** The SAMPIC readout word records: the 12-word event header, the 1-word
    trailer, the 2-word LP-bus header, the 7-word SAMPIC header and the
    64-sample channel stream, with their field extractors, and the generic
    Gray-to-binary routine used on the SAMPIC time stamps. Every record is
    a fixed-length sequence of 16-bit words, as the source's std::array. */
module SampicDataFormat {
  import opened Bytes

  // ---------------------------------------------------------------------
  // Gray code
  // ---------------------------------------------------------------------

  /** Standard (reflected binary) Gray encoding, `x ^ (x >> 1)`. */
  function GrayEncode(x: Word16): Word16
  {
    Xor(x, x / 2)
  }

  /** True when s holds an odd number of set bits. */
  function Parity(s: seq<bool>): bool
  {
    if s == [] then false else s[0] != Parity(s[1..])
  }

  /** Reference Gray-to-binary conversion: every result bit is the parity
      of the input bits at and above it. The result is the one value whose
      Gray code is g. */
  function GrayToBinary(g: Word16): (b: Word16)
    ensures GrayEncode(b) == g
  {
    var gb := BitsOf(g);
    var b := ValueOf(SuffixParities(gb));
    forall k | 0 <= k < 16
      ensures BitsOf(GrayEncode(b))[k] == gb[k]
    {
      GrayEncodeBits(b, k);
      assert gb[k..][0] == gb[k];
      if k < 15 {
        assert gb[k..][1..] == gb[k + 1..];
        assert BitsOf(b)[k] == (gb[k] != BitsOf(b)[k + 1]);
      } else {
        assert gb[k..][1..] == [];
        assert Parity(gb[k..][1..]) == false;
      }
    }
    assert BitsOf(GrayEncode(b)) == gb;
    b
  }

  /** Bit k is the parity of the bits at and above k. */
  function SuffixParities(gb: Bits16): Bits16
  {
    seq(16, k requires 0 <= k < 16 => Parity(gb[k..]))
  }

  lemma ParityStep(s: Bits16, p: nat)
    requires p < 15
    ensures Parity(s[p..]) == (s[p] != Parity(s[p + 1..]))
  {
    assert s[p..][1..] == s[p + 1..];
  }

  /** Gray code of a value, bit by bit. */
  lemma GrayEncodeBits(x: Word16, k: nat)
    requires k < 16
    ensures BitsOf(GrayEncode(x))[k] == (BitsOf(x)[k] != (k < 15 && BitsOf(x)[k + 1]))
  {
    ShiftRightBits(x, k);
  }

  /** grayDecode instantiated at uint16_t: the loop of DecodeBits run on the
      input's bits. */
  method GrayDecode(gray: Word16) returns (bin: Word16)
    ensures bin == GrayToBinary(gray)
  {
    var b := DecodeBits(BitsOf(gray));
    bin := ValueOf(b);
  }

  /** The loop of grayDecode on bits. The result starts as the input's most
      significant bit; step i then ORs in bit p = 15 - i of
      `gray ^ (bin >> 1)`, that is input bit p xor result bit p + 1. */
  method DecodeBits(g: Bits16) returns (b: Bits16)
    ensures b == SuffixParities(g)
  {
    b := seq(16, k requires 0 <= k < 16 => k == 15 && g[15]);
    assert g[15..] == [g[15]];
    var i := 1;
    while i < 16
      invariant 1 <= i <= 16
      invariant forall k :: 16 - i <= k < 16 ==> b[k] == Parity(g[k..])
      invariant forall k :: 0 <= k < 16 - i ==> !b[k]
    {
      var p := 16 - i - 1;
      ParityStep(g, p);
      b := b[p := b[p] || (g[p] != b[p + 1])];
      i := i + 1;
    }
  }

  lemma {:induction false} ParityOfGrayCode(x: Word16, k: nat)
    requires k < 16
    ensures Parity(BitsOf(GrayEncode(x))[k..]) == BitsOf(x)[k]
    decreases 16 - k
  {
    var e := BitsOf(GrayEncode(x));
    GrayEncodeBits(x, k);
    if k < 15 {
      ParityOfGrayCode(x, k + 1);
      assert e[k..][1..] == e[k + 1..];
    } else {
      assert e[k..][1..] == [];
    }
  }

  /** Decoding the Gray code of a value returns it: `grayDecode(x ^ (x >> 1)) == x`. */
  lemma GrayRoundTrip(x: Word16)
    ensures GrayToBinary(GrayEncode(x)) == x
  {
    forall k | 0 <= k < 16
      ensures BitsOf(GrayToBinary(GrayEncode(x)))[k] == BitsOf(x)[k]
    {
      ParityOfGrayCode(x, k);
    }
    assert BitsOf(GrayToBinary(GrayEncode(x))) == BitsOf(x);
  }

  /** The decoder keeps the input's most significant bit, and every lower
      result bit is the input bit xor the result bit just above it. */
  lemma GrayToBinaryBits(g: Word16)
    ensures BitsOf(GrayToBinary(g))[15] == BitsOf(g)[15]
    ensures forall k :: 0 <= k < 15 ==>
      BitsOf(GrayToBinary(g))[k] == (BitsOf(g)[k] != BitsOf(GrayToBinary(g))[k + 1])
  {
    var b := GrayToBinary(g);
    forall k | 0 <= k < 16
      ensures BitsOf(g)[k] == (BitsOf(b)[k] != (k < 15 && BitsOf(b)[k + 1]))
    {
      GrayEncodeBits(b, k);
    }
    assert GrayEncode(b) == g;
    GrayEncodeBits(b, 15);
  }

  // ---------------------------------------------------------------------
  // Event header: 12 words
  // ---------------------------------------------------------------------

  const EventHeaderSize: nat := 12
  const EventBegin: Word16 := 0xebeb

  type EventHeader = w: seq<Word16> | |w| == 12 witness seq(12, k => 0)

  predicate HeaderValid(h: EventHeader)
  {
    h[0] == EventBegin
  }

  /** Bits 13 to 15 of word 1. */
  function BoardId(h: EventHeader): (r: nat)
    ensures r <= 7
  {
    (h[1] / 0x2000) % 0x8
  }

  /** Bit 12 of word 1. */
  function SampicId(h: EventHeader): (r: nat)
    ensures r <= 1
  {
    (h[1] / 0x1000) % 0x2
  }

  /** Words 2 and 3, then the low four bits of word 4: a 36-bit value. */
  function Sf2Timestamp(h: EventHeader): (r: nat)
    ensures r < 0x10_0000_0000
  {
    h[2] as int % 0x1_0000 + h[3] as int * 0x1_0000 + (h[4] as int % 0x10) * 0x1_0000_0000
  }

  /** Word 5 is the low half and word 6 the high half. */
  function EventNumber(h: EventHeader): (r: Word32)
    ensures r % 0x1_0000 == h[5] && r / 0x1_0000 == h[6]
  {
    h[5] as int % 0x1_0000 + (h[6] as int % 0x1_0000) * 0x1_0000
  }

  /** Word 7 is the low half and word 8 the high half. */
  function TriggerNumber(h: EventHeader): (r: Word32)
    ensures r % 0x1_0000 == h[7] && r / 0x1_0000 == h[8]
  {
    h[7] as int % 0x1_0000 + (h[8] as int % 0x1_0000) * 0x1_0000
  }

  /** Word 9: one bit per channel present in the fragment. */
  function ActiveChannels(h: EventHeader): (r: Word16)
    ensures r == h[9]
  {
    h[9] % 0x1_0000
  }

  function ReadoutOffset(h: EventHeader): Byte { HighByte(h[10]) }
  function SampleNumber(h: EventHeader): Byte { LowByte(h[10]) }
  function FwVersion(h: EventHeader): Byte { HighByte(h[11]) }
  function ClockMonitor(h: EventHeader): Byte { LowByte(h[11]) }

  /** Only the begin-marker word decides validity. */
  lemma HeaderValidity(h: EventHeader, i: nat, w: Word16)
    requires 0 < i < EventHeaderSize
    ensures HeaderValid(h[i := w]) == HeaderValid(h)
    ensures HeaderValid(h[0 := w]) <==> w == EventBegin
  {
  }

  /** Readout offset and sample number are the two bytes of word 10, and
      firmware version and clock monitor those of word 11: together they
      give the words back. */
  lemma HeaderByteFields(h: EventHeader)
    ensures ReadoutOffset(h) * 0x100 + SampleNumber(h) == h[10]
    ensures FwVersion(h) * 0x100 + ClockMonitor(h) == h[11]
  {
  }

  /** Every field an event header carries. */
  datatype HeaderFields = HeaderFields(
    boardId: nat, sampicId: nat, sf2Timestamp: nat,
    eventNumber: nat, triggerNumber: nat, activeChannels: nat,
    readoutOffset: nat, sampleNumber: nat, fwVersion: nat, clockMonitor: nat)

  predicate HeaderFieldsFit(f: HeaderFields)
  {
    && f.boardId < 0x8 && f.sampicId < 0x2 && f.sf2Timestamp < 0x10_0000_0000
    && f.eventNumber < 0x1_0000_0000 && f.triggerNumber < 0x1_0000_0000
    && f.activeChannels < 0x1_0000
    && f.readoutOffset < 0x100 && f.sampleNumber < 0x100
    && f.fwVersion < 0x100 && f.clockMonitor < 0x100
  }

  function HeaderFieldsOf(h: EventHeader): HeaderFields
  {
    HeaderFields(BoardId(h), SampicId(h), Sf2Timestamp(h), EventNumber(h),
                 TriggerNumber(h), ActiveChannels(h), ReadoutOffset(h),
                 SampleNumber(h), FwVersion(h), ClockMonitor(h))
  }

  /** Where the 36-bit SF2 time stamp goes: a 16-bit word, another, then the
      top four bits. */
  function Sf2Words(t: nat): (w: (Word16, Word16, Word16))
    requires t < 0x10_0000_0000
    ensures w.2 < 0x10
    ensures t == w.0 + w.1 * 0x1_0000 + w.2 * 0x1_0000_0000
  {
    var lo := t % 0x1_0000;
    var q := t / 0x1_0000;
    var mid := q % 0x1_0000;
    var hi := q / 0x1_0000;
    assert t == lo + q * 0x1_0000;
    assert q == mid + hi * 0x1_0000;
    assert t == lo + mid * 0x1_0000 + hi * 0x1_0000_0000;
    (lo, mid, hi)
  }

  /** A 32-bit number as its low and high 16-bit halves. */
  function Halves(n: nat): (w: (Word16, Word16))
    requires n < 0x1_0000_0000
    ensures n == w.0 + w.1 * 0x1_0000
  {
    (n % 0x1_0000, n / 0x1_0000)
  }

  /** Two bytes as one word, the first in the high byte. */
  function Pair(hi: nat, lo: nat): (w: Word16)
    requires hi < 0x100 && lo < 0x100
    ensures HighByte(w) == hi && LowByte(w) == lo
  {
    hi * 0x100 + lo
  }

  /** The header a board writes for the given fields, with the begin marker
      in word 0 and every unused bit clear. */
  function MakeEventHeader(f: HeaderFields): EventHeader
    requires HeaderFieldsFit(f)
  {
    var ts := Sf2Words(f.sf2Timestamp);
    var ev := Halves(f.eventNumber);
    var tr := Halves(f.triggerNumber);
    [ EventBegin,
      f.boardId * 0x2000 + f.sampicId * 0x1000,
      ts.0, ts.1, ts.2, ev.0, ev.1, tr.0, tr.1,
      f.activeChannels,
      Pair(f.readoutOffset, f.sampleNumber),
      Pair(f.fwVersion, f.clockMonitor) ]
  }

  /** Reading the fields back from a header built from them returns them;
      in particular a 32-bit event or trigger number split into its low and
      high words reads back unchanged. */
  lemma EventHeaderRoundTrip(f: HeaderFields)
    requires HeaderFieldsFit(f)
    ensures HeaderValid(MakeEventHeader(f))
    ensures HeaderFieldsOf(MakeEventHeader(f)) == f
  {
    BoardWordRoundTrip(f);
    CountersRoundTrip(f);
  }

  lemma BoardWordRoundTrip(f: HeaderFields)
    requires HeaderFieldsFit(f)
    ensures BoardId(MakeEventHeader(f)) == f.boardId
    ensures SampicId(MakeEventHeader(f)) == f.sampicId
  {
    var w := f.boardId * 0x2000 + f.sampicId * 0x1000;
    assert MakeEventHeader(f)[1] == w;
    assert w / 0x1000 == f.boardId * 2 + f.sampicId;
    assert w / 0x2000 == f.boardId;
  }

  lemma CountersRoundTrip(f: HeaderFields)
    requires HeaderFieldsFit(f)
    ensures Sf2Timestamp(MakeEventHeader(f)) == f.sf2Timestamp
    ensures EventNumber(MakeEventHeader(f)) == f.eventNumber
    ensures TriggerNumber(MakeEventHeader(f)) == f.triggerNumber
  {
    var h := MakeEventHeader(f);
    var ts := Sf2Words(f.sf2Timestamp);
    var ev := Halves(f.eventNumber);
    var tr := Halves(f.triggerNumber);
    assert h[2] == ts.0 && h[3] == ts.1 && h[4] == ts.2;
    assert h[5] == ev.0 && h[6] == ev.1;
    assert h[7] == tr.0 && h[8] == tr.1;
  }

  // ---------------------------------------------------------------------
  // Event trailer: 1 word
  // ---------------------------------------------------------------------

  const EventTrailerSize: nat := 1
  const EventEnd: Word16 := 0xeeee

  type EventTrailer = w: seq<Word16> | |w| == 1 witness [0]

  predicate TrailerValid(t: EventTrailer)
  {
    t[0] == EventEnd
  }

  /** A trailer is valid exactly when it is the end marker alone. */
  lemma TrailerValidity(t: EventTrailer)
    ensures TrailerValid(t) <==> t == [EventEnd]
  {
  }

  // ---------------------------------------------------------------------
  // LP-bus header: 2 words
  // ---------------------------------------------------------------------

  const LpbusHeaderSize: nat := 2

  type LpbusHeader = w: seq<Word16> | |w| == 2 witness [0, 0]

  /** The high byte of word 0 plus the low byte of word 1 (a sum, not a
      concatenation of the two bytes). */
  function Payload(h: LpbusHeader): (r: nat)
    ensures r <= 510
  {
    HighByte(h[0]) as int + LowByte(h[1]) as int
  }

  function LpbusChannelIndex(h: LpbusHeader): Byte { LowByte(h[0]) }
  function Command(h: LpbusHeader): Byte { HighByte(h[1]) }

  /** The channel index is the low byte of word 0 and the command the high
      byte of word 1; the payload is made of the two other bytes. */
  lemma LpbusBytes(h: LpbusHeader)
    ensures h[0] == LpbusChannelIndex(h) + 0x100 * HighByte(h[0])
    ensures h[1] == LowByte(h[1]) + 0x100 * Command(h)
    ensures Payload(h) == HighByte(h[0]) + LowByte(h[1])
  {
  }

  function MakeLpbusHeader(channelIndex: Byte, command: Byte, payloadHigh: Byte, payloadLow: Byte): LpbusHeader
  {
    [channelIndex + 0x100 * payloadHigh, payloadLow + 0x100 * command]
  }

  /** The channel index and command read back as written; the payload
      field reads back as the sum of the two payload bytes. */
  lemma LpbusHeaderRoundTrip(channelIndex: Byte, command: Byte, payloadHigh: Byte, payloadLow: Byte)
    ensures var h := MakeLpbusHeader(channelIndex, command, payloadHigh, payloadLow);
      && LpbusChannelIndex(h) == channelIndex && Command(h) == command
      && Payload(h) == payloadHigh + payloadLow
  {
  }

  // ---------------------------------------------------------------------
  // SAMPIC header: 7 words
  // ---------------------------------------------------------------------

  const SampicHeaderSize: nat := 7
  const SampicMarker: Byte := 0x69

  type SampicHeader = w: seq<Word16> | |w| == 7 witness seq(7, k => 0)

  predicate SampicHeaderValid(h: SampicHeader)
  {
    LowByte(h[0]) == SampicMarker
  }

  function AdcLatch(h: SampicHeader): Byte { HighByte(h[0]) }

  /** Word 0 is the ADC latch above the validity byte: the header is valid
      exactly when word 0 is the latch followed by 0x69. */
  lemma SampicWordZero(h: SampicHeader)
    ensures SampicHeaderValid(h) <==> h[0] == AdcLatch(h) * 0x100 + SampicMarker
  {
  }

  /** High byte of word 1, then words 2 and 3: a 40-bit value. */
  function FpgaTimestamp(h: SampicHeader): (r: nat)
    ensures r < 0x100_0000_0000
  {
    HighByte(h[1]) as int + h[2] as int * 0x100 + h[3] as int * 0x100_0000
  }

  function TimestampAGray(h: SampicHeader): Word16 { h[4] % 0x1_0000 }
  function TimestampBGray(h: SampicHeader): Word16 { h[5] % 0x1_0000 }
  function TimestampA(h: SampicHeader): Word16 { GrayToBinary(TimestampAGray(h)) }
  function TimestampB(h: SampicHeader): Word16 { GrayToBinary(TimestampBGray(h)) }
  function CellInfo(h: SampicHeader): Word16 { h[6] % 0x1_0000 }

  /** The 16-bit masks keep words 4 to 6 whole, and each decoded time stamp
      is the value whose Gray code is the stored word. */
  lemma SampicWordsKept(h: SampicHeader)
    ensures TimestampAGray(h) == h[4] && TimestampBGray(h) == h[5] && CellInfo(h) == h[6]
    ensures GrayEncode(TimestampA(h)) == h[4] && GrayEncode(TimestampB(h)) == h[5]
  {
    MaskKeeps(h[4]);
    MaskKeeps(h[5]);
    MaskKeeps(h[6]);
  }

  /** Bits 6 to 9 of the cell-info word. */
  function SampicChannelIndex(h: SampicHeader): (r: nat)
    ensures r <= 15
  {
    (CellInfo(h) / 0x40) % 0x10
  }

  /** Bits 0 to 5 of the cell-info word. */
  function SampicCellInfo(h: SampicHeader): (r: nat)
    ensures r <= 63
  {
    CellInfo(h) % 0x40
  }

  datatype SampicFields = SampicFields(
    adcLatch: nat, fpgaTimestamp: nat, timestampA: nat, timestampB: nat,
    channelIndex: nat, cellId: nat)

  predicate SampicFieldsFit(f: SampicFields)
  {
    && f.adcLatch < 0x100 && f.fpgaTimestamp < 0x100_0000_0000
    && f.timestampA < 0x1_0000 && f.timestampB < 0x1_0000
    && f.channelIndex < 0x10 && f.cellId < 0x40
  }

  /** Where the 40-bit FPGA time stamp goes: its low byte in the high byte of
      word 1, then a 16-bit word, then the top 16 bits. */
  function FpgaWords(t: nat): (w: (Word16, Word16, Word16))
    requires t < 0x100_0000_0000
    ensures w.0 / 0x100 == t % 0x100 && w.0 % 0x100 == 0
    ensures t == t % 0x100 + w.1 * 0x100 + w.2 * 0x100_0000
  {
    var lo := t % 0x100;
    var q := t / 0x100;
    var mid := q % 0x1_0000;
    var hi := q / 0x1_0000;
    assert q < 0x1_0000_0000;
    assert t == lo + q * 0x100;
    assert q == mid + hi * 0x1_0000;
    assert t == lo + mid * 0x100 + hi * 0x100_0000;
    (lo * 0x100, mid, hi)
  }

  /** The SAMPIC header for the given fields: validity byte set, the two
      time stamps stored as Gray codes, every unused bit clear. */
  function MakeSampicHeader(f: SampicFields): SampicHeader
    requires SampicFieldsFit(f)
  {
    var ts := FpgaWords(f.fpgaTimestamp);
    [ Pair(f.adcLatch, SampicMarker), ts.0, ts.1, ts.2,
      GrayEncode(f.timestampA), GrayEncode(f.timestampB),
      CellWord(f.channelIndex, f.cellId) ]
  }

  /** Every field of a SAMPIC header reads back as written; the two time
      stamps come back in binary after Gray decoding. */
  lemma SampicHeaderRoundTrip(f: SampicFields)
    requires SampicFieldsFit(f)
    ensures SampicHeaderValid(MakeSampicHeader(f))
    ensures var h := MakeSampicHeader(f);
      && AdcLatch(h) == f.adcLatch && FpgaTimestamp(h) == f.fpgaTimestamp
      && TimestampA(h) == f.timestampA && TimestampB(h) == f.timestampB
      && SampicChannelIndex(h) == f.channelIndex && SampicCellInfo(h) == f.cellId
  {
    FpgaTimestampRoundTrip(f);
    var h := MakeSampicHeader(f);
    assert h[0] == Pair(f.adcLatch, SampicMarker);
    GrayFieldsRoundTrip(h, f.timestampA, f.timestampB);
    CellFieldsRoundTrip(h, f.channelIndex, f.cellId);
  }

  /** The channel index and cell id stored in word 6 read back. */
  lemma CellFieldsRoundTrip(h: SampicHeader, channel: nat, cell: nat)
    requires channel < 0x10 && cell < 0x40 && h[6] == CellWord(channel, cell)
    ensures SampicChannelIndex(h) == channel && SampicCellInfo(h) == cell
  {
    MaskKeeps(h[6]);
  }

  /** Time stamps stored as Gray codes in words 4 and 5 read back in binary. */
  lemma GrayFieldsRoundTrip(h: SampicHeader, a: Word16, b: Word16)
    requires h[4] == GrayEncode(a) && h[5] == GrayEncode(b)
    ensures TimestampA(h) == a && TimestampB(h) == b
  {
    MaskKeeps(h[4]);
    MaskKeeps(h[5]);
    GrayRoundTrip(a);
    GrayRoundTrip(b);
  }

  lemma MaskKeeps(w: Word16)
    ensures w % 0x1_0000 == w
  {
  }

  /** The cell-info word: channel index in bits 6 to 9, cell in bits 0 to 5. */
  function CellWord(channel: nat, cell: nat): (w: Word16)
    requires channel < 0x10 && cell < 0x40
    ensures (w / 0x40) % 0x10 == channel && w % 0x40 == cell
  {
    channel * 0x40 + cell
  }

  lemma FpgaTimestampRoundTrip(f: SampicFields)
    requires SampicFieldsFit(f)
    ensures FpgaTimestamp(MakeSampicHeader(f)) == f.fpgaTimestamp
  {
    var h := MakeSampicHeader(f);
    var ts := FpgaWords(f.fpgaTimestamp);
    assert h[1] == ts.0 && h[2] == ts.1 && h[3] == ts.2;
    assert ts.0 / 0x100 < 0x100;
    assert HighByte(h[1]) == f.fpgaTimestamp % 0x100;
  }

  // ---------------------------------------------------------------------
  // Channel stream: LP-bus header, SAMPIC header, 64 raw samples
  // ---------------------------------------------------------------------

  const SamplesPerChannel: nat := 64
  const ChannelStreamSize: nat := 73

  type Samples = s: seq<Word16> | |s| == 64 witness seq(64, k => 0)

  datatype SampicStream = SampicStream(header: SampicHeader, samples: Samples)

  datatype ChannelStream = ChannelStream(header: LpbusHeader, sampic: SampicStream)

  /** The words of a channel stream in the order they travel. */
  function ChannelStreamWords(c: ChannelStream): (w: seq<Word16>)
    ensures |w| == ChannelStreamSize
  {
    c.header + c.sampic.header + c.sampic.samples
  }
}
