/** The key hash of utils/hash.c, on 32-bit words that wrap around.

    `Mix` is the circuit of the `mix` macro and `Unmix` runs it backwards.  A key is taken in
    blocks of 12 bytes; `Absorbed` is the internal state after the whole blocks and `Finished`
    the state whose third word is the hash value. */
module JenkinsHash {
  import opened Basics

  const MODULUS: int := 0x1_0000_0000

  datatype State = State(a: Word, b: Word, c: Word)

  const TABLE_SIZE: nat := 1024
  const GOLDEN_RATIO: Word := 0x9e37_79b9
  const INITIAL_VALUE: Word := 0x4242_4242

  // ------------------------------------------------------------ unsigned 32-bit arithmetic

  function Add(x: Word, y: Word): Word {
    if x + y < MODULUS then x + y else x + y - MODULUS
  }

  function Sub(x: Word, y: Word): Word {
    if x >= y then x - y else x - y + MODULUS
  }

  /** Exclusive or of the lowest `bits` bits. */
  function XorBits(x: nat, y: nat, bits: nat): (r: nat)
    ensures r < PowerOf2(bits)
  {
    if bits == 0 then 0
    else (if x % 2 == y % 2 then 0 else 1) + 2 * XorBits(x / 2, y / 2, bits - 1)
  }

  lemma {:induction false} XorBitsCancels(x: nat, y: nat, bits: nat)
    requires x < PowerOf2(bits)
    ensures XorBits(x, y, bits) < PowerOf2(bits)
    ensures XorBits(XorBits(x, y, bits), y, bits) == x
  {
    if bits > 0 {
      XorBitsCancels(x / 2, y / 2, bits - 1);
      var r := XorBits(x, y, bits);
      assert r / 2 == XorBits(x / 2, y / 2, bits - 1);
    }
  }

  lemma PowerOf32()
    ensures PowerOf2(32) == MODULUS
  {
    assert PowerOf2(8) == 0x100;
    assert PowerOf2(16) == 0x1_0000;
    assert PowerOf2(24) == 0x100_0000;
  }

  function Xor(x: Word, y: Word): Word {
    PowerOf32();
    XorBits(x, y, 32)
  }

  lemma XorCancels(x: Word, y: Word)
    ensures Xor(Xor(x, y), y) == x
  {
    PowerOf32();
    XorBitsCancels(x, y, 32);
  }

  function Shr(x: Word, n: nat): Word {
    if n == 0 then x else Shr(x / 2, n - 1)
  }

  function Shl(x: Word, n: nat): Word {
    (x * PowerOf2(n)) % MODULUS
  }

  // ------------------------------------------------------------ the operators, bit by bit

  /** Bit `i` of a number, the lowest being bit 0. */
  function BitAt(n: nat, i: nat): nat {
    if i == 0 then n % 2 else BitAt(n / 2, i - 1)
  }

  /** `x + y` and `x - y` on unsigned words. */
  lemma AddSubWrap(x: Word, y: Word)
    ensures Add(x, y) == (x + y) % MODULUS
    ensures Sub(x, y) == (x - y) % MODULUS
  {
  }

  /** A bit of an exclusive or is clear exactly when the two bits are the same. */
  lemma {:induction false} XorBitAt(x: nat, y: nat, bits: nat, i: nat)
    requires i < bits
    ensures BitAt(XorBits(x, y, bits), i) == if BitAt(x, i) == BitAt(y, i) then 0 else 1
  {
    var r := XorBits(x, y, bits);
    assert r / 2 == XorBits(x / 2, y / 2, bits - 1);
    if i > 0 {
      XorBitAt(x / 2, y / 2, bits - 1, i - 1);
    }
  }

  /** `x >> n` moves every bit down. */
  lemma {:induction false} ShrBitAt(x: Word, n: nat, i: nat)
    ensures BitAt(Shr(x, n), i) == BitAt(x, i + n)
  {
    if n > 0 {
      ShrBitAt(x / 2, n - 1, i);
    }
  }

  /** `x << n` moves every bit up, and drops what leaves the word. */
  lemma {:induction false} TimesPowerBitAt(x: nat, n: nat, i: nat)
    ensures BitAt(x * PowerOf2(n), i) == if i < n then 0 else BitAt(x, i - n)
  {
    if n > 0 {
      var half := x * PowerOf2(n - 1);
      assert x * PowerOf2(n) == 2 * half;
      if i > 0 {
        TimesPowerBitAt(x, n - 1, i - 1);
      }
    }
  }

  lemma {:induction false} LowBitAt(n: nat, k: nat, bits: nat, i: nat)
    requires i < bits
    ensures BitAt(n + k * PowerOf2(bits), i) == BitAt(n, i)
  {
    var half := k * PowerOf2(bits - 1);
    assert k * PowerOf2(bits) == 2 * half;
    EvenSum(n, half);
    if i > 0 {
      LowBitAt(n / 2, k, bits - 1, i - 1);
    }
  }

  lemma EvenSum(n: nat, half: nat)
    ensures (n + 2 * half) % 2 == n % 2 && (n + 2 * half) / 2 == n / 2 + half
  {
  }

  lemma ShlBitAt(x: Word, n: nat, i: nat)
    requires i < 32
    ensures BitAt(Shl(x, n), i) == if i < n then 0 else BitAt(x, i - n)
  {
    PowerOf32();
    var shifted := x * PowerOf2(n);
    LowBitAt(shifted % MODULUS, shifted / MODULUS, 32, i);
    TimesPowerBitAt(x, n, i);
  }

  // ------------------------------------------------------------ the mixing circuit

  /** One line of the macro: subtract two words, then exclusive-or a shifted one. */
  function Step(x: Word, y: Word, z: Word, shifted: Word): Word {
    Xor(Sub(Sub(x, y), z), shifted)
  }

  function Unstep(r: Word, y: Word, z: Word, shifted: Word): Word {
    Add(Add(Xor(r, shifted), z), y)
  }

  lemma StepReverses(x: Word, y: Word, z: Word, shifted: Word)
    ensures Unstep(Step(x, y, z, shifted), y, z, shifted) == x
    ensures Step(Unstep(x, y, z, shifted), y, z, shifted) == x
  {
    XorCancels(Sub(Sub(x, y), z), shifted);
    XorCancels(x, shifted);
  }

  /** Three lines, for `a`, `b` and `c` in turn, with one row of shift amounts. */
  function Row(s: State, i: nat, j: nat, k: nat): State {
    var a := Step(s.a, s.b, s.c, Shr(s.c, i));
    var b := Step(s.b, s.c, a, Shl(a, j));
    var c := Step(s.c, a, b, Shr(b, k));
    State(a, b, c)
  }

  function Unrow(s: State, i: nat, j: nat, k: nat): State {
    var c := Unstep(s.c, s.a, s.b, Shr(s.b, k));
    var b := Unstep(s.b, c, s.a, Shl(s.a, j));
    var a := Unstep(s.a, b, c, Shr(c, i));
    State(a, b, c)
  }

  lemma RowReverses(s: State, i: nat, j: nat, k: nat)
    ensures Unrow(Row(s, i, j, k), i, j, k) == s
    ensures Row(Unrow(s, i, j, k), i, j, k) == s
  {
    var r := Row(s, i, j, k);
    StepReverses(s.c, r.a, r.b, Shr(r.b, k));
    StepReverses(s.b, s.c, r.a, Shl(r.a, j));
    StepReverses(s.a, s.b, s.c, Shr(s.c, i));
    var u := Unrow(s, i, j, k);
    StepReverses(s.c, s.a, s.b, Shr(s.b, k));
    StepReverses(s.b, u.c, s.a, Shl(s.a, j));
    StepReverses(s.a, u.b, u.c, Shr(u.c, i));
  }

  function Mix(s: State): State {
    Row(Row(Row(s, 13, 8, 13), 12, 16, 5), 3, 10, 15)
  }

  function Unmix(s: State): State {
    Unrow(Unrow(Unrow(s, 3, 10, 15), 12, 16, 5), 13, 8, 13)
  }

  /** `mix` is a bijection on triples of 32-bit words. */
  lemma MixIsBijective(s: State)
    ensures Unmix(Mix(s)) == s && Mix(Unmix(s)) == s
  {
    var r := Row(s, 13, 8, 13);
    RowReverses(s, 13, 8, 13);
    RowReverses(r, 12, 16, 5);
    RowReverses(Row(r, 12, 16, 5), 3, 10, 15);
    var u := Unrow(s, 3, 10, 15);
    RowReverses(s, 3, 10, 15);
    RowReverses(u, 12, 16, 5);
    RowReverses(Unrow(u, 12, 16, 5), 13, 8, 13);
  }

  lemma MixIsInjective(s: State, t: State)
    ensures Mix(s) == Mix(t) ==> s == t
  {
    MixIsBijective(s);
    MixIsBijective(t);
  }

  // ------------------------------------------------------------ absorbing a key

  function AddWords(s: State, w: State): State {
    State(Add(s.a, w.a), Add(s.b, w.b), Add(s.c, w.c))
  }

  function Absorb(s: State, w: State): State {
    Mix(AddWords(s, w))
  }

  /** Absorbing a list of word triples, with the absorbing step left abstract. */
  function Fold(step: (State, State) -> State, s: State, ws: seq<State>): State {
    if ws == [] then s else step(Fold(step, s, ws[..|ws| - 1]), ws[|ws| - 1])
  }

  /** Positions past the end of the key count as zero. */
  function ByteAt(k: seq<Byte>, i: nat): Byte {
    if i < |k| then k[i] else 0
  }

  function Pack(b0: Byte, b1: Byte, b2: Byte, b3: Byte): Word {
    b0 + 0x100 * (b1 + 0x100 * (b2 + 0x100 * b3))
  }

  /** Four bytes, least significant first. */
  function WordAt(k: seq<Byte>, i: nat): Word {
    Pack(ByteAt(k, i), ByteAt(k, i + 1), ByteAt(k, i + 2), ByteAt(k, i + 3))
  }

  /** `b0 + (b1 << 8) + (b2 << 16) + (b3 << 24)`. */
  lemma PackIsShifted(b0: Byte, b1: Byte, b2: Byte, b3: Byte)
    ensures Pack(b0, b1, b2, b3) == b0 + Shl(b1, 8) + Shl(b2, 16) + Shl(b3, 24)
  {
    assert PowerOf2(8) == 0x100;
    assert PowerOf2(16) == 0x1_0000;
    assert PowerOf2(24) == 0x100_0000;
  }

  /** Three bytes, leaving the lowest byte of the word free for the length. */
  function HighBytesAt(k: seq<Byte>, i: nat): Word {
    Pack(0, ByteAt(k, i), ByteAt(k, i + 1), ByteAt(k, i + 2))
  }

  function WordsAt(k: seq<Byte>, at: nat): State {
    State(WordAt(k, at), WordAt(k, at + 4), WordAt(k, at + 8))
  }

  function TailWordsAt(k: seq<Byte>, at: nat): State {
    State(WordAt(k, at), WordAt(k, at + 4), Add(|k| % MODULUS, HighBytesAt(k, at + 8)))
  }

  /** The first `n` whole blocks of twelve bytes. */
  function WholeBlocks(k: seq<Byte>, n: nat): (ws: seq<State>)
    ensures |ws| == n
    ensures forall i | 0 <= i < n :: ws[i] == WordsAt(k, 12 * i)
  {
    if n == 0 then [] else WholeBlocks(k, n - 1) + [WordsAt(k, 12 * (n - 1))]
  }

  function Blocks(k: seq<Byte>): seq<State> {
    WholeBlocks(k, |k| / 12) + [TailWordsAt(k, 12 * (|k| / 12))]
  }

  function Start(initial: Word): State {
    State(0x9e37_79b9, 0x9e37_79b9, initial)
  }

  /** The internal state after the whole key; its third word is the hash value. */
  function Finished(k: seq<Byte>, initial: Word): State {
    Fold(Absorb, Start(initial), Blocks(k))
  }

  /** The bin of a key: the lowest ten bits of its hash. */
  function Bin(k: seq<Byte>): (i: nat)
    ensures i < TABLE_SIZE
  {
    Finished(k, INITIAL_VALUE).c % TABLE_SIZE
  }

  /** The mask of the table's ten index bits. */
  lemma BinIsLowBits(k: seq<Byte>, i: nat)
    ensures BitAt(Bin(k), i) == if i < 10 then BitAt(Finished(k, 0x4242_4242).c, i) else 0
  {
    TenBitsAt(Finished(k, INITIAL_VALUE).c, i);
  }

  lemma TenBitsAt(hash: nat, i: nat)
    ensures BitAt(hash % 0x400, i) == if i < 10 then BitAt(hash, i) else 0
  {
    TenBits();
    MaskedBitAt(hash % 0x400, hash / 0x400, 10, i);
  }

  lemma TenBits()
    ensures PowerOf2(10) == 0x400
  {
  }

  lemma MaskedBitAt(low: nat, high: nat, bits: nat, i: nat)
    requires low < PowerOf2(bits)
    ensures BitAt(low, i) == if i < bits then BitAt(low + high * PowerOf2(bits), i) else 0
  {
    if i < bits {
      LowBitAt(low, high, bits, i);
    } else {
      HighBitAt(low, bits, i);
    }
  }

  lemma {:induction false} HighBitAt(n: nat, bits: nat, i: nat)
    requires n < PowerOf2(bits) && i >= bits
    ensures BitAt(n, i) == 0
  {
    if i > 0 {
      HighBitAt(n / 2, if bits == 0 then 0 else bits - 1, i - 1);
    }
  }

  lemma FoldOneMore(step: (State, State) -> State, s: State, ws: seq<State>, w: State)
    ensures Fold(step, s, ws + [w]) == step(Fold(step, s, ws), w)
  {
    assert (ws + [w])[..|ws|] == ws;
  }

  // ------------------------------------------------------------ the program's loop

  /** The macro: nine updates in place. */
  method MixInPlace(a0: Word, b0: Word, c0: Word) returns (a: Word, b: Word, c: Word)
    ensures State(a, b, c) == Mix(State(a0, b0, c0))
  {
    a, b, c := a0, b0, c0;
    a := Sub(a, b); a := Sub(a, c); a := Xor(a, Shr(c, 13));
    b := Sub(b, c); b := Sub(b, a); b := Xor(b, Shl(a, 8));
    c := Sub(c, a); c := Sub(c, b); c := Xor(c, Shr(b, 13));
    a := Sub(a, b); a := Sub(a, c); a := Xor(a, Shr(c, 12));
    b := Sub(b, c); b := Sub(b, a); b := Xor(b, Shl(a, 16));
    c := Sub(c, a); c := Sub(c, b); c := Xor(c, Shr(b, 5));
    a := Sub(a, b); a := Sub(a, c); a := Xor(a, Shr(c, 3));
    b := Sub(b, c); b := Sub(b, a); b := Xor(b, Shl(a, 10));
    c := Sub(c, a); c := Sub(c, b); c := Xor(c, Shr(b, 15));
  }

  /** One round of the loop: add three words of the key, then mix. */
  method AbsorbInPlace(a0: Word, b0: Word, c0: Word, k: seq<Byte>, at: nat) returns (a: Word, b: Word, c: Word)
    requires at + 12 <= |k|
    ensures State(a, b, c) == Absorb(State(a0, b0, c0), WordsAt(k, at))
  {
    a := Add(a0, Pack(k[at], k[at + 1], k[at + 2], k[at + 3]));
    b := Add(b0, Pack(k[at + 4], k[at + 5], k[at + 6], k[at + 7]));
    c := Add(c0, Pack(k[at + 8], k[at + 9], k[at + 10], k[at + 11]));
    a, b, c := MixInPlace(a, b, c);
  }

  /** `hash`; every byte it reads is inside the key. */
  method Hash(k: seq<Byte>, initval: Word) returns (h: Word)
    ensures h == Finished(k, initval).c
  {
    var a, b, c := GOLDEN_RATIO, GOLDEN_RATIO, initval;
    var len, at := |k|, 0;
    ghost var n := 0;
    ghost var step: (State, State) -> State := Absorb;
    while len >= 12
      invariant 0 <= len && at == 12 * n && at + len == |k|
      invariant State(a, b, c) == Fold(step, Start(initval), WholeBlocks(k, n))
    {
      FoldOneMore(step, Start(initval), WholeBlocks(k, n), WordsAt(k, at));
      a, b, c := AbsorbInPlace(a, b, c, k, at);
      at := at + 12;
      len := len - 12;
      n := n + 1;
    }
    assert n == |k| / 12;
    FoldOneMore(step, Start(initval), WholeBlocks(k, n), TailWordsAt(k, at));
    a, b, c := AbsorbLastBytes(a, b, c, k, at);
    h := c;
  }

  /** The fall-through cases of `switch (len)`, and the last mix. */
  method AbsorbLastBytes(a0: Word, b0: Word, c0: Word, k: seq<Byte>, at: nat) returns (a: Word, b: Word, c: Word)
    requires at <= |k| < at + 12
    ensures State(a, b, c) == Absorb(State(a0, b0, c0), TailWordsAt(k, at))
  {
    c := Add(c0, |k| % MODULUS);
    c := AddHighBytes(c, k, at + 8);
    AddAssociates(c0, |k| % MODULUS, HighBytesAt(k, at + 8));
    b := AddBytes(b0, k, at + 4);
    a := AddBytes(a0, k, at);
    a, b, c := MixInPlace(a, b, c);
  }

  method AddBytes(w: Word, k: seq<Byte>, at: nat) returns (r: Word)
    ensures r == Add(w, WordAt(k, at))
  {
    AddParts(w, ByteAt(k, at), ByteAt(k, at + 1), ByteAt(k, at + 2), ByteAt(k, at + 3));
    r := w;
    if at + 3 < |k| { r := Add(r, Pack(0, 0, 0, k[at + 3])); }
    if at + 2 < |k| { r := Add(r, Pack(0, 0, k[at + 2], 0)); }
    if at + 1 < |k| { r := Add(r, Pack(0, k[at + 1], 0, 0)); }
    if at < |k| { r := Add(r, Pack(k[at], 0, 0, 0)); }
  }

  method AddHighBytes(w: Word, k: seq<Byte>, at: nat) returns (r: Word)
    ensures r == Add(w, HighBytesAt(k, at))
  {
    AddParts(w, 0, ByteAt(k, at), ByteAt(k, at + 1), ByteAt(k, at + 2));
    r := w;
    if at + 2 < |k| { r := Add(r, Pack(0, 0, 0, k[at + 2])); }
    if at + 1 < |k| { r := Add(r, Pack(0, 0, k[at + 1], 0)); }
    if at < |k| { r := Add(r, Pack(0, k[at], 0, 0)); }
  }

  lemma AddAssociates(x: Word, y: Word, z: Word)
    ensures Add(Add(x, y), z) == Add(x, Add(y, z))
  {
  }

  /** Adding the bytes of a word one at a time, most significant first. */
  lemma AddParts(w: Word, b0: Byte, b1: Byte, b2: Byte, b3: Byte)
    ensures Add(Add(Add(Add(w, Pack(0, 0, 0, b3)), Pack(0, 0, b2, 0)), Pack(0, b1, 0, 0)), Pack(b0, 0, 0, 0))
         == Add(w, Pack(b0, b1, b2, b3))
  {
    AddAssociates(w, Pack(0, 0, 0, b3), Pack(0, 0, b2, 0));
    AddAssociates(w, Pack(0, 0, b2, b3), Pack(0, b1, 0, 0));
    AddAssociates(w, Pack(0, b1, b2, b3), Pack(b0, 0, 0, 0));
  }

  // ------------------------------------------------------------ no collision within one block

  /** Equal results force equal states exactly when they force equal words. */
  ghost predicate Cancels(step: (State, State) -> State) {
    forall s, t, w, v | step(s, w) == step(t, v) :: s == t <==> w == v
  }

  lemma AbsorbCancels()
    ensures Cancels(Absorb)
  {
    forall s, t, w, v | Absorb(s, w) == Absorb(t, v) ensures s == t <==> w == v {
      MixIsInjective(AddWords(s, w), AddWords(t, v));
    }
  }

  lemma {:induction false} FoldDiffers(step: (State, State) -> State, s: State, ws: seq<State>, vs: seq<State>, m: nat)
    requires Cancels(step)
    requires m < |ws| == |vs| && ws[m] != vs[m]
    requires forall i | 0 <= i < |ws| && i != m :: ws[i] == vs[i]
    ensures Fold(step, s, ws) != Fold(step, s, vs)
  {
    var n := |ws| - 1;
    if n == m {
      assert ws[..n] == vs[..n];
    } else {
      FoldDiffers(step, s, ws[..n], vs[..n], m);
    }
  }

  lemma PackIsInjective(x0: Byte, x1: Byte, x2: Byte, x3: Byte, y0: Byte, y1: Byte, y2: Byte, y3: Byte)
    requires Pack(x0, x1, x2, x3) == Pack(y0, y1, y2, y3)
    ensures x0 == y0 && x1 == y1 && x2 == y2 && x3 == y3
  {
  }

  /** Equal everywhere outside block `m`; the last, partial block counts as a block. */
  ghost predicate DifferOnlyIn(k: seq<Byte>, l: seq<Byte>, m: nat) {
    |k| == |l| && forall i | 0 <= i < |k| && !(12 * m <= i < 12 * m + 12) :: k[i] == l[i]
  }

  lemma AddCancels(x: Word, y: Word, z: Word)
    ensures Add(x, y) == Add(x, z) ==> y == z
  {
  }

  lemma WordDiffers(k: seq<Byte>, l: seq<Byte>, j: nat, i: nat)
    requires j <= i < j + 4 && ByteAt(k, i) != ByteAt(l, i)
    ensures WordAt(k, j) != WordAt(l, j)
  {
    if WordAt(k, j) == WordAt(l, j) {
      PackIsInjective(ByteAt(k, j), ByteAt(k, j + 1), ByteAt(k, j + 2), ByteAt(k, j + 3),
                      ByteAt(l, j), ByteAt(l, j + 1), ByteAt(l, j + 2), ByteAt(l, j + 3));
    }
  }

  lemma HighBytesDiffer(k: seq<Byte>, l: seq<Byte>, j: nat, i: nat)
    requires |k| == |l| && j <= i < j + 3 && ByteAt(k, i) != ByteAt(l, i)
    ensures Add(|k| % MODULUS, HighBytesAt(k, j)) != Add(|l| % MODULUS, HighBytesAt(l, j))
  {
    AddCancels(|k| % MODULUS, HighBytesAt(k, j), HighBytesAt(l, j));
    if HighBytesAt(k, j) == HighBytesAt(l, j) {
      PackIsInjective(0, ByteAt(k, j), ByteAt(k, j + 1), ByteAt(k, j + 2),
                      0, ByteAt(l, j), ByteAt(l, j + 1), ByteAt(l, j + 2));
    }
  }

  lemma WordsAtDiffer(k: seq<Byte>, l: seq<Byte>, at: nat, i: nat)
    requires at <= i < at + 12 && ByteAt(k, i) != ByteAt(l, i)
    ensures WordsAt(k, at) != WordsAt(l, at)
  {
    WordDiffers(k, l, if i < at + 4 then at else if i < at + 8 then at + 4 else at + 8, i);
  }

  lemma TailWordsAtDiffer(k: seq<Byte>, l: seq<Byte>, at: nat, i: nat)
    requires |k| == |l| && at <= i < at + 11 && ByteAt(k, i) != ByteAt(l, i)
    ensures TailWordsAt(k, at) != TailWordsAt(l, at)
  {
    if i < at + 8 {
      WordDiffers(k, l, if i < at + 4 then at else at + 4, i);
    } else {
      HighBytesDiffer(k, l, at + 8, i);
    }
  }

  /** Two keys of one length that differ in exactly one block, or only in the tail, never
      reach the same final state. */
  lemma NoCollisionInOneBlock(k: seq<Byte>, l: seq<Byte>, m: nat, initial: Word)
    requires DifferOnlyIn(k, l, m) && k != l
    ensures Finished(k, initial) != Finished(l, initial)
  {
    var n := |k| / 12;
    var i :| 0 <= i < |k| && k[i] != l[i];
    assert ByteAt(k, i) != ByteAt(l, i);
    if m < n {
      WordsAtDiffer(k, l, 12 * m, i);
    } else {
      TailWordsAtDiffer(k, l, 12 * n, i);
    }
    BlocksAgreeElsewhere(k, l, m);
    AbsorbCancels();
    FoldDiffers(Absorb, Start(initial), Blocks(k), Blocks(l), m);
  }

  lemma BlocksAgreeElsewhere(k: seq<Byte>, l: seq<Byte>, m: nat)
    requires DifferOnlyIn(k, l, m)
    ensures |Blocks(k)| == |Blocks(l)| == |k| / 12 + 1
    ensures forall j | 0 <= j < |Blocks(k)| && j != m :: Blocks(k)[j] == Blocks(l)[j]
  {
    forall j | 0 <= j < |k| / 12 + 1 && j != m ensures Blocks(k)[j] == Blocks(l)[j] {
      assert forall i | 12 * j <= i < 12 * j + 12 :: ByteAt(k, i) == ByteAt(l, i);
    }
  }
}
