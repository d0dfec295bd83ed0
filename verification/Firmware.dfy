/** Updating the card's firmware: the splitting into banks, blocks and buffers of cli/drvops.c
    and cli/lib/qnfapi.c, the bit order of the words, and the comparison after reading back.

    A flash word programs by clearing bits, so it has to be erased to all ones first. */
module Firmware {
  import opened Bits

  const BANK_SIZE_W: nat := 0x8_0000
  const BLOCK_SIZE_W: nat := 0x1_0000
  const FLASH_WORDS: nat := 0x80_0000
  const SN_BANK: nat := 14

  // ------------------------------------------------------------ bit order

  /** The bits of each byte reversed. */
  function Swapped(w: ShortBits): ShortBits {
    seq(16, i requires 0 <= i < 16 => w[if i < 8 then 7 - i else 23 - i])
  }

  lemma SwappedTwice(w: ShortBits)
    ensures Swapped(Swapped(w)) == w
  {
  }

  /** `byte_swap`: the two bytes change places, then all sixteen bits are reversed. */
  method ByteSwap(src: ShortBits) returns (dst: ShortBits)
    ensures dst == Swapped(src)
  {
    var lo := And(Widen(src), Ones(0, 8));
    var hi := And(Shr(Widen(src), 8), Ones(0, 8));
    var tmp := Or(Shl(lo, 8), hi);
    assert forall k | 0 <= k < 16 :: tmp[k] == src[if k < 8 then k + 8 else k - 8];
    var acc := NONE;
    for i := 0 to 16
      invariant forall k | 0 <= k < 32 :: acc[k] == (16 - i <= k < 16 && tmp[15 - k])
    {
      acc := Or(acc, MovedBit(tmp, i));
    }
    dst := acc[..16];
  }

  /** Bit `i` of a word, moved to bit `15 - i`. */
  function MovedBit(w: WordBits, i: nat): (r: WordBits)
    requires i < 16
    ensures forall k | 0 <= k < 32 :: r[k] == (k == 15 - i && w[i])
  {
    var bit := And(w, Ones(i, i + 1));
    if i < 8 then Shl(bit, 15 - i * 2) else Shr(bit, 2 * i - 15)
  }

  // ------------------------------------------------------------ the flash

  const BLANK: ShortBits := AllOnes(16)

  function AndShort(a: ShortBits, b: ShortBits): ShortBits {
    seq(16, i requires 0 <= i < 16 => a[i] && b[i])
  }

  /** The flash after programming words, swapped, from an address on. */
  function Programmed(c: seq<ShortBits>, start: nat, words: seq<ShortBits>): (r: seq<ShortBits>)
    ensures |r| == |c|
  {
    if words == [] then c
    else
      var m := |words| - 1;
      var r := Programmed(c, start, words[..m]);
      if start + m < |r| then r[start + m := AndShort(r[start + m], Swapped(words[m]))] else r
  }

  lemma {:induction false} ProgrammedOn(c: seq<ShortBits>, start: nat, a: seq<ShortBits>, b: seq<ShortBits>)
    ensures Programmed(Programmed(c, start, a), start + |a|, b) == Programmed(c, start, a + b)
  {
    if b == [] {
      assert a + b == a;
    } else {
      var m := |b| - 1;
      ProgrammedOn(c, start, a, b[..m]);
      assert (a + b)[..|a| + m] == a + b[..m] && (a + b)[|a| + m] == b[m];
    }
  }

  /** Every address in range gets its own word, the others keep what they had. */
  lemma {:induction false} ProgrammedAt(c: seq<ShortBits>, start: nat, words: seq<ShortBits>, a: nat)
    requires a < |c|
    ensures Programmed(c, start, words)[a] ==
      if start <= a < start + |words| then AndShort(c[a], Swapped(words[a - start])) else c[a]
  {
    if words != [] {
      ProgrammedAt(c, start, words[..|words| - 1], a);
    }
  }

  /** The data writes: each address once, in order. */
  function Writes(start: nat, words: seq<ShortBits>): seq<(nat, ShortBits)> {
    if words == [] then []
    else
      var m := |words| - 1;
      Writes(start, words[..m]) + [(start + m, Swapped(words[m]))]
  }

  lemma {:induction false} WritesOn(start: nat, a: seq<ShortBits>, b: seq<ShortBits>)
    ensures Writes(start, a) + Writes(start + |a|, b) == Writes(start, a + b)
  {
    if b == [] {
      assert a + b == a;
    } else {
      var m := |b| - 1;
      WritesOn(start, a, b[..m]);
      assert (a + b)[..|a| + m] == a + b[..m] && (a + b)[|a| + m] == b[m];
    }
  }

  lemma {:induction false} WritesAt(start: nat, words: seq<ShortBits>)
    ensures |Writes(start, words)| == |words|
    ensures forall k | 0 <= k < |words| :: Writes(start, words)[k] == (start + k, Swapped(words[k]))
  {
    if words != [] {
      WritesAt(start, words[..|words| - 1]);
    }
  }

  /** Between one and 32 words, inside one block. */
  predicate GoodBuffer(start: nat, count: nat) {
    1 <= count <= 32 && start / BLOCK_SIZE_W == (start + count - 1) / BLOCK_SIZE_W
  }

  /** Buffer `b` is the writes from place `p` of the log on, at consecutive addresses. */
  predicate BufferAt(log: seq<(nat, ShortBits)>, b: (nat, nat), p: nat) {
    p + b.1 <= |log| && forall q | p <= q < p + b.1 :: log[q].0 == b.0 + (q - p)
  }

  /** The log is the writes of the buffers, one buffer after the other. */
  predicate Grouped(log: seq<(nat, ShortBits)>, buffers: seq<(nat, nat)>)
    decreases |buffers|
  {
    if buffers == [] then log == []
    else
      var b := buffers[|buffers| - 1];
      && GoodBuffer(b.0, b.1) && b.1 <= |log| && BufferAt(log, b, |log| - b.1)
      && Grouped(log[..|log| - b.1], buffers[..|buffers| - 1])
  }

  lemma OneMoreGroup(log: seq<(nat, ShortBits)>, buffers: seq<(nat, nat)>, start: nat, words: seq<ShortBits>)
    requires Grouped(log, buffers) && GoodBuffer(start, |words|)
    ensures Grouped(log + Writes(start, words), buffers + [(start, |words|)])
  {
    WritesAt(start, words);
    assert (buffers + [(start, |words|)])[..|buffers|] == buffers;
    assert (log + Writes(start, words))[..|log|] == log;
  }

  /** Write `w` of the log is one of the writes of a good buffer, which start at place `p`. */
  predicate WrittenBy(log: seq<(nat, ShortBits)>, w: nat, b: (nat, nat), p: nat) {
    GoodBuffer(b.0, b.1) && p <= w < p + b.1 && BufferAt(log, b, p)
  }

  /** Every write belongs to a buffer of 1 to 32 words of one block, whose writes are next to it
      in the log, in order of their addresses. */
  lemma {:induction false} EachIsGood(log: seq<(nat, ShortBits)>, buffers: seq<(nat, nat)>, w: nat)
    requires Grouped(log, buffers) && w < |log|
    ensures exists k: nat, p: nat :: k < |buffers| && WrittenBy(log, w, buffers[k], p)
    decreases |buffers|
  {
    var m := |buffers| - 1;
    var q := |log| - buffers[m].1;
    if q <= w {
      assert WrittenBy(log, w, buffers[m], q);
    } else {
      EachIsGood(log[..q], buffers[..m], w);
      var k: nat, p: nat :| k < m && WrittenBy(log[..q], w, buffers[..m][k], p);
      assert WrittenBy(log, w, buffers[k], p);
    }
  }

  /** Every buffer was written. */
  lemma {:induction false} EachIsWritten(log: seq<(nat, ShortBits)>, buffers: seq<(nat, nat)>, k: nat)
    requires Grouped(log, buffers) && k < |buffers|
    ensures exists p: nat :: WrittenBy(log, p, buffers[k], p)
    decreases |buffers|
  {
    var m := |buffers| - 1;
    var q := |log| - buffers[m].1;
    if k == m {
      assert WrittenBy(log, q, buffers[m], q);
    } else {
      EachIsWritten(log[..q], buffers[..m], k);
      var p: nat :| WrittenBy(log[..q], p, buffers[..m][k], p);
      assert WrittenBy(log, p, buffers[k], p);
    }
  }

  class Flash {
    const cells: array<ShortBits>
    /** The data writes so far, and the buffers they were grouped in. */
    ghost var log: seq<(nat, ShortBits)>
    ghost var buffers: seq<(nat, nat)>

    ghost predicate Valid()
      reads this
    {
      cells.Length == FLASH_WORDS && Grouped(log, buffers)
    }

    constructor ()
      ensures Valid() && fresh(cells) && log == [] && buffers == []
    {
      cells := new ShortBits[FLASH_WORDS](a => BLANK);
      log, buffers := [], [];
    }

    /** One data write of a buffer. */
    method WriteWord(addr: nat, w: ShortBits)
      requires addr < cells.Length
      modifies this`log, cells
      ensures cells[..] == Programmed(old(cells[..]), addr, [w]) && log == old(log) + Writes(addr, [w])
    {
      var swapped := ByteSwap(w);
      assert [w][..0] == [];
      cells[addr] := AndShort(cells[addr], swapped);
      log := log + [(addr, swapped)];
    }

    /** `buffer_program` with the count `n`, one less than the number of words. */
    method BufferProgram(startAddr: nat, n: nat, pdata: seq<ShortBits>)
      requires Valid() && n <= 31 && GoodBuffer(startAddr, n + 1)
      requires startAddr + n < FLASH_WORDS && n < |pdata|
      modifies this, cells
      ensures Valid()
      ensures cells[..] == Programmed(old(cells[..]), startAddr, pdata[..n + 1])
      ensures log == old(log) + Writes(startAddr, pdata[..n + 1])
    {
      ghost var c0, log0, buffers0 := cells[..], log, buffers;
      ghost var c1, log1 := c0, log0;
      NothingYet(c0, log0, startAddr, pdata);
      for i := 0 to n + 1
        invariant buffers == buffers0 && Reached(c0, log0, startAddr, pdata, i, cells[..], log)
      {
        c1, log1 := cells[..], log;
        WriteWord(startAddr + i, pdata[i]);
        assert pdata[i..][..1] == [pdata[i]];
        Onward(c0, log0, startAddr, pdata, i, 1, c1, log1);
      }
      OneMoreGroup(log0, buffers0, startAddr, pdata[..n + 1]);
      buffers := buffers + [(startAddr, n + 1)];
    }

    /** The full buffers of a block. */
    method FullBuffers(bank: nat, block: nat, count: nat, pdata: seq<ShortBits>)
      requires Valid() && bank < 16 && block < 8 && 32 * count <= BLOCK_SIZE_W && 32 * count <= |pdata|
      modifies this, cells
      ensures Valid()
      ensures Reached(old(cells[..]), old(log), BlockStart(bank, block), pdata, 32 * count, cells[..], log)
    {
      ghost var c0, log0 := cells[..], log;
      ghost var c1, log1 := c0, log0;
      ghost var base := BlockStart(bank, block);
      var startAddr, pd := BlockStart(bank, block), 0;
      NothingYet(c0, log0, base, pdata);
      for i := 0 to count
        invariant Valid() && pd == 32 * i && startAddr == base + pd
        invariant Reached(c0, log0, base, pdata, pd, cells[..], log)
      {
        InsideBlock(bank, block, pd, 32);
        c1, log1 := cells[..], log;
        BufferProgram(startAddr, 31, pdata[pd..]);
        Onward(c0, log0, base, pdata, pd, 32, c1, log1);
        pd := pd + 32;
        startAddr := startAddr + 32;
      }
    }

    /** `block_program`: full buffers, then the rest. */
    method BlockProgram(bank: nat, block: nat, wSize: nat, pdata: seq<ShortBits>)
      requires Valid() && bank < 16 && block < 8
      requires 1 <= wSize <= BLOCK_SIZE_W && wSize <= |pdata|
      modifies this, cells
      ensures Valid()
      ensures cells[..] == Programmed(old(cells[..]), BlockStart(bank, block), pdata[..wSize])
      ensures log == old(log) + Writes(BlockStart(bank, block), pdata[..wSize])
    {
      ghost var c0, log0 := cells[..], log;
      var needBuffer, lastWords := Pieces(wSize, 32), LastPiece(wSize, 32);
      var pd := 32 * (needBuffer - 1);
      FullBuffers(bank, block, needBuffer - 1, pdata);
      InsideBlock(bank, block, pd, lastWords);
      ghost var c1, log1 := cells[..], log;
      BufferProgram(BlockStart(bank, block) + pd, lastWords - 1, pdata[pd..]);
      Onward(c0, log0, BlockStart(bank, block), pdata, pd, lastWords, c1, log1);
    }

    /** The full blocks of a bank. */
    method FullBlocks(bank: nat, count: nat, pdata: seq<ShortBits>)
      requires Valid() && bank < 16 && count < 8 && BLOCK_SIZE_W * count <= |pdata|
      modifies this, cells
      ensures Valid()
      ensures Reached(old(cells[..]), old(log), BlockStart(bank, 0), pdata, BLOCK_SIZE_W * count, cells[..], log)
    {
      ghost var c0, log0 := cells[..], log;
      ghost var c1, log1 := c0, log0;
      ghost var base := BlockStart(bank, 0);
      var pd := 0;
      NothingYet(c0, log0, base, pdata);
      for i := 0 to count
        invariant Valid() && pd == BLOCK_SIZE_W * i
        invariant Reached(c0, log0, base, pdata, pd, cells[..], log)
      {
        c1, log1 := cells[..], log;
        BlockProgram(bank, i, BLOCK_SIZE_W, pdata[pd..]);
        Onward(c0, log0, base, pdata, pd, BLOCK_SIZE_W, c1, log1);
        pd := pd + BLOCK_SIZE_W;
      }
    }

    /** `bank_program`: full blocks, then the rest. */
    method BankProgram(bank: nat, wSize: nat, pdata: seq<ShortBits>)
      requires Valid() && bank < 16
      requires 1 <= wSize <= BANK_SIZE_W && wSize <= |pdata|
      modifies this, cells
      ensures Valid()
      ensures cells[..] == Programmed(old(cells[..]), BlockStart(bank, 0), pdata[..wSize])
      ensures log == old(log) + Writes(BlockStart(bank, 0), pdata[..wSize])
    {
      ghost var c0, log0 := cells[..], log;
      var needBlock, lastWords := Pieces(wSize, BLOCK_SIZE_W), LastPiece(wSize, BLOCK_SIZE_W);
      var pd := BLOCK_SIZE_W * (needBlock - 1);
      FullBlocks(bank, needBlock - 1, pdata);
      ghost var c1, log1 := cells[..], log;
      BlockProgram(bank, needBlock - 1, lastWords, pdata[pd..]);
      Onward(c0, log0, BlockStart(bank, 0), pdata, pd, lastWords, c1, log1);
    }

    // ---------------------------------------------------------- erasing

    /** `block_erase`. */
    method BlockErase(bank: nat, block: nat)
      requires Valid() && bank < 16 && block < 8
      modifies cells
      ensures forall a | 0 <= a < FLASH_WORDS ::
        cells[a] == if BlockStart(bank, block) <= a < BlockStart(bank, block) + BLOCK_SIZE_W
                    then BLANK else old(cells[a])
    {
      forall a | BlockStart(bank, block) <= a < BlockStart(bank, block) + BLOCK_SIZE_W {
        cells[a] := BLANK;
      }
    }

    /** `bank_erase`. */
    method BankErase(bank: nat)
      requires Valid() && bank < 16
      modifies cells
      ensures forall a | 0 <= a < FLASH_WORDS ::
        cells[a] == if BlockStart(bank, 0) <= a < BlockStart(bank, 8) then BLANK else old(cells[a])
    {
      for i := 0 to 8
        invariant forall a | 0 <= a < FLASH_WORDS ::
          cells[a] == if BlockStart(bank, 0) <= a < BlockStart(bank, i) then BLANK else old(cells[a])
      {
        BlockErase(bank, i);
      }
    }

    // ---------------------------------------------------------- the serial number

    /** `word_program`. */
    method WordProgram(addr: nat, data: ShortBits)
      requires Valid() && addr < FLASH_WORDS
      modifies cells
      ensures cells[..] == old(cells[..])[addr := AndShort(old(cells[addr]), data)]
    {
      cells[addr] := AndShort(cells[addr], data);
    }

    /** `set_logic_num`: the four parts of the number, the highest first, in an erased block. */
    method SetLogicNum(sn: seq<ShortBits>)
      requires Valid() && |sn| == 4
      modifies cells
      ensures forall a | 0 <= a < FLASH_WORDS ::
        cells[a] == if InSnBlock(a) then SnBlockWord(sn, a) else old(cells[a])
    {
      BlockErase(SN_BANK, 0);
      var blockAddr := BlockStart(SN_BANK, 0);
      WordProgram(blockAddr, sn[0]);
      WordProgram(blockAddr + 1, sn[1]);
      WordProgram(blockAddr + 2, sn[2]);
      WordProgram(blockAddr + 3, sn[3]);
      BlankTakes(sn[0]);
      BlankTakes(sn[1]);
      BlankTakes(sn[2]);
      BlankTakes(sn[3]);
    }

    /** `read_logic_num`. */
    method ReadLogicNum() returns (sn: seq<ShortBits>)
      requires Valid()
      ensures sn == cells[BlockStart(SN_BANK, 0)..BlockStart(SN_BANK, 0) + 4]
    {
      var blockAddr := BlockStart(SN_BANK, 0);
      sn := [cells[blockAddr], cells[blockAddr + 1], cells[blockAddr + 2], cells[blockAddr + 3]];
    }

    // ---------------------------------------------------------- the update

    method EraseBanks(needBank: nat)
      requires Valid() && needBank <= 16
      modifies cells
      ensures forall a | 0 <= a < needBank * BANK_SIZE_W :: cells[a] == BLANK
    {
      for i := 0 to needBank
        invariant forall a | 0 <= a < i * BANK_SIZE_W :: cells[a] == BLANK
      {
        BankErase(i);
      }
    }

    /** The programming of the body, a bank at a time through the buffer `pw`. */
    method ProgramBanks(body: seq<ShortBits>)
      requires Valid() && 1 <= |body| <= FLASH_WORDS
      modifies this, cells
      ensures Valid()
      ensures cells[..] == Programmed(old(cells[..]), 0, body) && log == old(log) + Writes(0, body)
    {
      ghost var c0, log0 := cells[..], log;
      ghost var c1, log1 := c0, log0;
      var needBank, lastWords := Pieces(|body|, BANK_SIZE_W), LastPiece(|body|, BANK_SIZE_W);
      var pos := 0;
      NothingYet(c0, log0, 0, body);
      for i := 0 to needBank - 1
        invariant Valid() && pos == i * BANK_SIZE_W
        invariant Reached(c0, log0, 0, body, pos, cells[..], log)
      {
        c1, log1 := cells[..], log;
        BankProgram(i, BANK_SIZE_W, body[pos..]);
        Onward(c0, log0, 0, body, pos, BANK_SIZE_W, c1, log1);
        pos := pos + BANK_SIZE_W;
      }
      c1, log1 := cells[..], log;
      BankProgram(needBank - 1, lastWords, body[pos..]);
      Onward(c0, log0, 0, body, pos, lastWords, c1, log1);
      assert body[..pos + lastWords] == body;
    }

    /** Reading the body back, a bank at a time. */
    method ReadBanks(needBank: nat, lastWords: nat) returns (words: seq<ShortBits>)
      requires Valid() && 1 <= needBank <= 16 && lastWords <= BANK_SIZE_W
      ensures words == cells[..(needBank - 1) * BANK_SIZE_W + lastWords]
    {
      words := [];
      var j := 0;
      while j < needBank - 1
        invariant 0 <= j <= needBank - 1 && words == cells[..j * BANK_SIZE_W]
      {
        for i := j * BANK_SIZE_W to j * BANK_SIZE_W + BANK_SIZE_W
          invariant words == cells[..i]
        {
          words := words + [cells[i]];
        }
        j := j + 1;
      }
      for i := (needBank - 1) * BANK_SIZE_W to j * BANK_SIZE_W + lastWords
        invariant words == cells[..i]
      {
        words := words + [cells[i]];
      }
    }

    /** Erasing the banks and programming the body. */
    method InstallBody(body: seq<ShortBits>, needBank: nat)
      requires Valid() && 1 <= |body| <= FLASH_WORDS && needBank == Pieces(|body|, BANK_SIZE_W)
      modifies this, cells
      ensures Valid() && log == old(log) + Writes(0, body)
      ensures forall k | 0 <= k < |body| :: cells[k] == Swapped(body[k])
    {
      EraseBanks(needBank);
      ghost var blank := cells[..];
      ProgramBanks(body);
      BlankTakesAll(blank, body);
      assert forall k | 0 <= k < |body| :: cells[k] == cells[..][k];
    }

    /** The body, and then the serial number. */
    method Install(image: seq<ShortBits>, needBank: nat, bigEndian: bool)
      requires Valid() && 5 <= |image| <= FLASH_WORDS + 4 && needBank == Pieces(|image| - 4, BANK_SIZE_W)
      modifies this, cells
      ensures Valid()
      ensures forall k | 0 <= k < |image| - 4 :: cells[k] == HeldAt(image, bigEndian, k)
      ensures cells[BlockStart(SN_BANK, 0)..BlockStart(SN_BANK, 0) + 4] == InOrder(image[|image| - 4..], bigEndian)
      ensures log == old(log) + Writes(0, image[..|image| - 4])
    {
      InstallBody(image[..|image| - 4], needBank);
      SetLogicNum(InOrder(image[|image| - 4..], bigEndian));
    }

    /** `drv_update_firmware` on an image of whole words that fits the flash; the last four words
        are the serial number, which sits in memory high part first or low part first. */
    method Update(image: seq<ShortBits>, bigEndian: bool) returns (r: int)
      requires Valid() && 5 <= |image| <= FLASH_WORDS + 4
      modifies this, cells
      ensures Valid()
      ensures r == if Survives(image, bigEndian) then 0 else -1
      ensures forall k | 0 <= k < |image| - 4 :: cells[k] == HeldAt(image, bigEndian, k)
      ensures HighFirst(cells[0x70_0000..0x70_0004]) == InMemory(image[|image| - 4..], bigEndian)
      ensures log == old(log) + Writes(0, image[..|image| - 4])
    {
      r := InstallAndCompare(image, bigEndian);
      assert BlockStart(SN_BANK, 0) == 0x70_0000;
      SameNumber(image[|image| - 4..], bigEndian);
    }

    method InstallAndCompare(image: seq<ShortBits>, bigEndian: bool) returns (r: int)
      requires Valid() && 5 <= |image| <= FLASH_WORDS + 4
      modifies this, cells
      ensures Valid()
      ensures r == if Survives(image, bigEndian) then 0 else -1
      ensures forall k | 0 <= k < |image| - 4 :: cells[k] == HeldAt(image, bigEndian, k)
      ensures cells[BlockStart(SN_BANK, 0)..BlockStart(SN_BANK, 0) + 4] == InOrder(image[|image| - 4..], bigEndian)
      ensures log == old(log) + Writes(0, image[..|image| - 4])
    {
      var fileSizeW := |image| - 4;
      var needBank, lastWords := Pieces(fileSizeW, BANK_SIZE_W), LastPiece(fileSizeW, BANK_SIZE_W);
      Install(image, needBank, bigEndian);
      var words := ReadBanks(needBank, lastWords);
      var sn := ReadLogicNum();
      BackMatches(image, bigEndian, words, InOrder(sn, bigEndian));
      r := CompareFiles(image, words + InOrder(sn, bigEndian));
    }
  }

  predicate InSnBlock(a: nat) {
    BlockStart(SN_BANK, 0) <= a < BlockStart(SN_BANK, 1)
  }

  /** The serial number's block: the number, and nothing after it. */
  function SnBlockWord(sn: seq<ShortBits>, a: nat): ShortBits
    requires |sn| == 4 && InSnBlock(a)
  {
    if a < BlockStart(SN_BANK, 0) + 4 then sn[a - BlockStart(SN_BANK, 0)] else BLANK
  }

  /** What word `k` of the flash holds after an update: the image's own word, unless the serial
      number's block, which is written last, lies there. */
  function HeldAt(image: seq<ShortBits>, bigEndian: bool, k: nat): ShortBits
    requires k < |image| - 4
  {
    if InSnBlock(k) then SnBlockWord(InOrder(image[|image| - 4..], bigEndian), k) else Swapped(image[k])
  }

  /** An image that reads back as it was meant: the words the serial number's block overwrites, if
      the body reaches that far, are the same ones. */
  predicate Survives(image: seq<ShortBits>, bigEndian: bool) {
    forall k | 0 <= k < |image| - 4 && InSnBlock(k) :: HeldAt(image, bigEndian, k) == Swapped(image[k])
  }

  /** Every image of at most 14 banks does. */
  lemma SmallSurvives(image: seq<ShortBits>, bigEndian: bool)
    requires |image| <= SN_BANK * BANK_SIZE_W + 4
    ensures Survives(image, bigEndian)
    ensures forall k | 0 <= k < |image| - 4 :: HeldAt(image, bigEndian, k) == Swapped(image[k])
  {
  }

  /** An image that does not survive: zeros that reach beyond the serial number. */
  lemma ZerosAreLost(image: seq<ShortBits>, bigEndian: bool)
    requires |image| - 4 > BlockStart(SN_BANK, 0) + 4 && forall k | 0 <= k < |image| :: image[k] == Zeros(16)
    ensures !Survives(image, bigEndian)
  {
    var k := BlockStart(SN_BANK, 0) + 4;
    assert HeldAt(image, bigEndian, k) == BLANK;
    assert BLANK[0] && !Swapped(image[k])[0];
  }

  /** The parts of a number as they lie in memory, or back. */
  function InOrder(parts: seq<ShortBits>, bigEndian: bool): (r: seq<ShortBits>)
    requires |parts| == 4
    ensures |r| == 4
  {
    if bigEndian then parts else [parts[3], parts[2], parts[1], parts[0]]
  }

  /** The number whose four words lie at consecutive places, the highest first. */
  function HighFirst(words: seq<ShortBits>): nat
    requires |words| == 4
  {
    0x1_0000_0000_0000 * Value(words[0]) + 0x1_0000_0000 * Value(words[1]) + 0x1_0000 * Value(words[2])
    + Value(words[3])
  }

  /** The byte at an address of memory that holds 16-bit words. */
  function ByteAt(words: seq<ShortBits>, bigEndian: bool, address: nat): nat
    requires address < 2 * |words|
  {
    var w := Value(words[address / 2]);
    if bigEndian == (address % 2 == 0) then w / 0x100 else w % 0x100
  }

  /** The 64-bit number read at the start of such memory: a byte counts for the more, the lower its
      address is when the highest byte comes first, and the higher it is otherwise. */
  function InMemory(words: seq<ShortBits>, bigEndian: bool): nat
    requires |words| == 4
  {
    var b: nat -> nat := at => if at < 8 then ByteAt(words, bigEndian, if bigEndian then 7 - at else at) else 0;
    b(0) + 0x100 * (b(1) + 0x100 * (b(2) + 0x100 * (b(3) + 0x100 * (b(4) + 0x100 * (b(5) + 0x100 * (b(6)
    + 0x100 * b(7)))))))
  }

  /** The serial number written to the flash is the one in memory, in either byte order. */
  lemma SameNumber(words: seq<ShortBits>, bigEndian: bool)
    requires |words| == 4
    ensures HighFirst(InOrder(words, bigEndian)) == InMemory(words, bigEndian)
  {
  }

  lemma BlankTakes(w: ShortBits)
    ensures AndShort(BLANK, w) == w
  {
  }

  lemma BlankTakesAll(c: seq<ShortBits>, body: seq<ShortBits>)
    requires |body| <= |c| && forall a | 0 <= a < |body| :: c[a] == BLANK
    ensures forall k | 0 <= k < |body| :: Programmed(c, 0, body)[k] == Swapped(body[k])
  {
    forall k | 0 <= k < |body| ensures Programmed(c, 0, body)[k] == Swapped(body[k]) {
      ProgrammedAt(c, 0, body, k);
      BlankTakes(Swapped(body[k]));
    }
  }

  /** What the comparison asks of the read-back: every word swapped but the last four. */
  predicate SameUpToOrder(file: seq<ShortBits>, back: seq<ShortBits>) {
    |file| == |back| && forall k | 0 <= k < |file| :: back[k] == if k < |file| - 4 then Swapped(file[k]) else file[k]
  }

  lemma BackMatches(file: seq<ShortBits>, bigEndian: bool, words: seq<ShortBits>, tail: seq<ShortBits>)
    requires |words| == |file| - 4 && tail == file[|file| - 4..]
    requires forall k | 0 <= k < |words| :: words[k] == HeldAt(file, bigEndian, k)
    ensures SameUpToOrder(file, words + tail) <==> Survives(file, bigEndian)
  {
    var back := words + tail;
    assert forall k | 0 <= k < |words| :: back[k] == HeldAt(file, bigEndian, k);
  }

  /** `compare_file_order`: two variables hold the words last read, and keep their value when a
      read finds nothing. */
  method CompareFiles(file: seq<ShortBits>, back: seq<ShortBits>) returns (r: int)
    ensures r == if SameUpToOrder(file, back) then 0 else -1
  {
    if |file| != |back| {
      return -1;
    }
    var word1, word2 := Zeros(16), Zeros(16);
    var pos := 0;
    var more := true;
    while more
      invariant 0 <= pos <= |file| && (more ==> pos < |file| || pos == 0)
      invariant !more ==> pos == |file|
      invariant pos == 0 ==> word1 == word2
      invariant forall k | 0 <= k < pos :: back[k] == if k < |file| - 4 then Swapped(file[k]) else file[k]
      decreases more, |file| - pos
    {
      if pos < |file| {
        word1 := file[pos];
        word2 := back[pos];
        pos := pos + 1;
      }
      if pos <= |file| - 4 {
        word1 := ByteSwap(word1);
      }
      if word1 != word2 {
        return -1;
      }
      more := pos < |file|;
    }
    r := 0;
  }

  function BlockStart(bank: nat, block: nat): nat {
    bank * BANK_SIZE_W + block * BLOCK_SIZE_W
  }

  /** How many pieces of at most `unit` words there are, and the size of the last. */
  function Pieces(size: nat, unit: nat): (n: nat)
    requires size > 0 && unit > 0
    ensures n > 0 && size == (n - 1) * unit + LastPiece(size, unit)
  {
    if size % unit == 0 then size / unit else size / unit + 1
  }

  function LastPiece(size: nat, unit: nat): (n: nat)
    requires size > 0 && unit > 0
    ensures 1 <= n <= unit
  {
    if size % unit == 0 then unit else size % unit
  }

  lemma InsideBlock(bank: nat, block: nat, pd: nat, n: nat)
    requires 1 <= n <= 32 && pd + n <= BLOCK_SIZE_W
    ensures GoodBuffer(BlockStart(bank, block) + pd, n)
  {
    var k := bank * 8 + block;
    assert BlockStart(bank, block) == k * BLOCK_SIZE_W;
    assert (k * BLOCK_SIZE_W + pd) / BLOCK_SIZE_W == k;
    assert (k * BLOCK_SIZE_W + (pd + n - 1)) / BLOCK_SIZE_W == k;
  }

  lemma NothingYet(c: seq<ShortBits>, log: seq<(nat, ShortBits)>, base: nat, pdata: seq<ShortBits>)
    ensures Reached(c, log, base, pdata, 0, c, log)
  {
  }

  /** The first `pd` words have been programmed from `base` on, and logged. */
  ghost predicate Reached(c0: seq<ShortBits>, log0: seq<(nat, ShortBits)>, base: nat, pdata: seq<ShortBits>, pd: nat,
                          c: seq<ShortBits>, log: seq<(nat, ShortBits)>)
  {
    pd <= |pdata| && c == Programmed(c0, base, pdata[..pd]) && log == log0 + Writes(base, pdata[..pd])
  }

  lemma Regroup<T>(a: seq<T>, b: seq<T>, c: seq<T>)
    ensures a + b + c == a + (b + c)
  {
  }

  /** Programming the next `n` words after the first `pd`. */
  lemma Onward(c0: seq<ShortBits>, log0: seq<(nat, ShortBits)>, base: nat, pdata: seq<ShortBits>, pd: nat, n: nat,
               c1: seq<ShortBits>, log1: seq<(nat, ShortBits)>)
    requires pd + n <= |pdata| && Reached(c0, log0, base, pdata, pd, c1, log1)
    ensures var b := pdata[pd..][..n];
            Reached(c0, log0, base, pdata, pd + n, Programmed(c1, base + pd, b), log1 + Writes(base + pd, b))
  {
    var a, b := pdata[..pd], pdata[pd..][..n];
    assert pdata[..pd + n] == a + b;
    ProgrammedOn(c0, base, a, b);
    WritesOn(base, a, b);
    Regroup(log0, Writes(base, a), Writes(base + pd, b));
  }
}
