/** An SRS configuration event: the system register and the APV
    application register, each decoded from the raw block with its number.
    The register decoders are a foreign library; a register stands here
    for the 32-bit words it was built from. */
module SrsConfig {
  import opened Bytes
  import opened Events
  import opened SrsWords

  /** A register never loaded holds the library's defaults. */
  datatype Register = Default | Loaded(words: seq<Word32>)

  datatype Registers = Registers(sys: Register, apvApp: Register)

  const SystemRegisterBlock: nat := 0
  const ApvAppRegisterBlock: nat := 1

  /** The switch of ConvertBlock: block 0 loads the system register, block
      1 the APV application register; any other number changes nothing. */
  function Dispatch(regs: Registers, reg: Word16, words: seq<Word32>): (r: Registers)
    ensures r.sys == (if reg == SystemRegisterBlock then Loaded(words) else regs.sys)
    ensures r.apvApp == (if reg == ApvAppRegisterBlock then Loaded(words) else regs.apvApp)
    ensures r != regs ==> reg == SystemRegisterBlock || reg == ApvAppRegisterBlock
  {
    if reg == SystemRegisterBlock then regs.(sys := Loaded(words))
    else if reg == ApvAppRegisterBlock then regs.(apvApp := Loaded(words))
    else regs
  }

  /** The block number of the raw event is 32 bits wide; ConvertBlock takes
      it as an unsigned short. */
  function RegisterNumber(blockNumber: Word32): Word16
  {
    blockNumber % 0x1_0000
  }

  predicate AllWholeWords(blocks: seq<(Word32, seq<Byte>)>)
  {
    forall i :: 0 <= i < |blocks| ==> |blocks[i].1| % 4 == 0
  }

  /** The registers after converting the blocks in block-list order. */
  function Configure(blocks: seq<(Word32, seq<Byte>)>, regs: Registers): Registers
    requires AllWholeWords(blocks)
  {
    if blocks == [] then regs
    else Configure(blocks[1..], Dispatch(regs, RegisterNumber(blocks[0].0), Words32(blocks[0].1)))
  }

  /** The index of the last block whose number selects register reg. */
  function LastBlockFor(blocks: seq<(Word32, seq<Byte>)>, reg: Word16): (r: Option<nat>)
    ensures r.Some? ==> r.value < |blocks| && RegisterNumber(blocks[r.value].0) == reg
    ensures r.Some? ==> forall j :: r.value < j < |blocks| ==> RegisterNumber(blocks[j].0) != reg
    ensures r.None? ==> forall j :: 0 <= j < |blocks| ==> RegisterNumber(blocks[j].0) != reg
  {
    if blocks == [] then None
    else if RegisterNumber(blocks[|blocks| - 1].0) == reg then Some(|blocks| - 1)
    else LastBlockFor(blocks[..|blocks| - 1], reg)
  }

  /** What a register holds after the blocks: the words of the last block
      for it, or what it held before when there is none. */
  function Final(blocks: seq<(Word32, seq<Byte>)>, reg: Word16, before: Register): Register
    requires AllWholeWords(blocks)
  {
    match LastBlockFor(blocks, reg)
    case None => before
    case Some(i) => Loaded(Words32(blocks[i].1))
  }

  lemma {:induction false} ConfigureAppend(blocks: seq<(Word32, seq<Byte>)>, x: (Word32, seq<Byte>), regs: Registers)
    requires AllWholeWords(blocks) && |x.1| % 4 == 0
    ensures AllWholeWords(blocks + [x])
    ensures Configure(blocks + [x], regs) == Dispatch(Configure(blocks, regs), RegisterNumber(x.0), Words32(x.1))
    decreases |blocks|
  {
    var all := blocks + [x];
    assert AllWholeWords(all) by {
      forall i | 0 <= i < |all| ensures |all[i].1| % 4 == 0 {
        if i < |blocks| {
          assert all[i] == blocks[i];
        }
      }
    }
    if blocks == [] {
      assert all[1..] == [];
    } else {
      assert all[0] == blocks[0];
      assert all[1..] == blocks[1..] + [x];
      assert AllWholeWords(blocks[1..]) by {
        forall i | 0 <= i < |blocks[1..]| ensures |blocks[1..][i].1| % 4 == 0 {
          assert blocks[1..][i] == blocks[i + 1];
        }
      }
      ConfigureAppend(blocks[1..], x, Dispatch(regs, RegisterNumber(blocks[0].0), Words32(blocks[0].1)));
    }
  }

  /** Each register ends up with the words of the last block whose number
      selects it, and is untouched when no block does. */
  lemma {:induction false} LastBlockWins(blocks: seq<(Word32, seq<Byte>)>, regs: Registers)
    requires AllWholeWords(blocks)
    ensures Configure(blocks, regs).sys == Final(blocks, SystemRegisterBlock, regs.sys)
    ensures Configure(blocks, regs).apvApp == Final(blocks, ApvAppRegisterBlock, regs.apvApp)
    decreases |blocks|
  {
    if blocks != [] {
      var init := blocks[..|blocks| - 1];
      var x := blocks[|blocks| - 1];
      assert blocks == init + [x];
      assert AllWholeWords(init) by {
        forall i | 0 <= i < |init| ensures |init[i].1| % 4 == 0 {
          assert init[i] == blocks[i];
        }
      }
      LastBlockWins(init, regs);
      ConfigureAppend(init, x, regs);
      forall i | 0 <= i < |init| ensures init[i] == blocks[i] {
      }
    }
  }

  /** Only the low 16 bits of a block number count: block 65536 loads the
      system register like block 0. */
  lemma BlockNumberTruncated(words: seq<Byte>, regs: Registers)
    requires |words| % 4 == 0
    ensures Configure([(0x1_0000, words)], regs).sys == Loaded(Words32(words))
    ensures Configure([(0x1_0001, words)], regs).apvApp == Loaded(Words32(words))
  {
    assert [(0x1_0000, words)][1..] == [];
    assert [(0x1_0001, words)][1..] == [];
  }

  /** The stride-4 loop of ConvertBlock, without masks: the byte sum is
      below 2^32, so the conversion to a 32-bit word keeps it. */
  method PackRegisterWords(block8: seq<Byte>) returns (block32: seq<Word32>)
    requires |block8| % 4 == 0
    ensures block32 == Words32(block8)
  {
    block32 := [];
    var i := 0;
    ghost var k := 0;
    while i < |block8|
      invariant 0 <= i <= |block8| && i == 4 * k
      invariant |block32| == k && k <= |block8| / 4
      invariant forall j :: 0 <= j < k ==> block32[j] == Words32(block8)[j]
    {
      Words32At(block8, k);
      block32 := block32 + [block8[i] as int + block8[i + 1] as int * 0x100
        + block8[i + 2] as int * 0x1_0000 + block8[i + 3] as int * 0x100_0000];
      i := i + 4;
      k := k + 1;
    }
  }

  class SrsConfig {
    var sys: Register
    var apvApp: Register

    function RegistersOf(): Registers
      reads this
    {
      Registers(sys, apvApp)
    }

    constructor ()
      ensures RegistersOf() == Registers(Default, Default)
    {
      sys := Default;
      apvApp := Default;
    }

    /** Converts every block of a raw event, in block-list order. */
    constructor FromEvent(blocks: seq<(Word32, seq<Byte>)>)
      requires AllWholeWords(blocks)
      ensures RegistersOf() == Configure(blocks, Registers(Default, Default))
    {
      sys := Default;
      apvApp := Default;
      new;
      var k := 0;
      while k < |blocks|
        invariant 0 <= k <= |blocks|
        invariant AllWholeWords(blocks[..k])
        invariant RegistersOf() == Configure(blocks[..k], Registers(Default, Default))
      {
        ConfigureAppend(blocks[..k], blocks[k], Registers(Default, Default));
        assert blocks[..k + 1] == blocks[..k] + [blocks[k]];
        ConvertBlock(RegisterNumber(blocks[k].0), blocks[k].1);
        k := k + 1;
      }
      assert blocks[..k] == blocks;
    }

    method ConvertBlock(reg: Word16, block8: seq<Byte>)
      requires |block8| % 4 == 0
      modifies this
      ensures RegistersOf() == Dispatch(old(RegistersOf()), reg, Words32(block8))
    {
      var block32 := PackRegisterWords(block8);
      if reg == SystemRegisterBlock {
        sys := Loaded(block32);
      } else if reg == ApvAppRegisterBlock {
        apvApp := Loaded(block32);
      }
    }
  }
}
