/** The tables of the card as the driver fills them: which CAM entry belongs to which rule, and
    which word of the lookup table belongs to which pair of rules (cli/drvops.c,
    cli/lib/qnfapi.c, cli/parserops.c). */
module DeviceTables {
  import opened Basics
  import Bits
  import opened KeyNames
  import opened ForwardTable

  // ------------------------------------------------------------ the builds

  datatype Build = Mc10p | Mc20e | Mc20ePpoe

  /** MAX_RULE_NO. */
  function RuleCount(b: Build): nat {
    if b.Mc20ePpoe? then 32 else 64
  }

  /** `n | bit` for a power of two. */
  function OrBit(n: nat, bit: nat): nat
    requires bit > 0
  {
    if n / bit % 2 == 1 then n else n + bit
  }

  // ------------------------------------------------------------ CAM entries

  datatype Slot = Slot(rules: RuleSet, id: nat)

  predicate InBuild(b: Build, s: Slot) {
    s.id < RuleCount(b)
  }

  /** The entry a rule is written to: one address bit tells the second rule set from the first. */
  function Address(b: Build, s: Slot): nat {
    if s.rules.Set1? then s.id else OrBit(s.id, if b.Mc20e? then 0x40 else 0x20)
  }

  /** Writing one rule's entry. */
  datatype Write<E> = Write(slot: Slot, entry: E)

  function CamAfter<E>(b: Build, ws: seq<Write<E>>): map<nat, E> {
    if ws == [] then map[]
    else CamAfter(b, ws[..|ws| - 1])[Address(b, ws[|ws| - 1].slot) := ws[|ws| - 1].entry]
  }

  /** What was last written for a rule itself. */
  predicate LastWritten<E(==)>(ws: seq<Write<E>>, s: Slot, e: E) {
    ws != [] &&
    var w := ws[|ws| - 1];
    if w.slot == s then w.entry == e else LastWritten(ws[..|ws| - 1], s, e)
  }

  /** The card holds for a rule what was last written for it. */
  ghost predicate KeepsOwn<E(!new)>(b: Build, ws: seq<Write<E>>, s: Slot) {
    forall e | LastWritten(ws, s, e) :: Address(b, s) in CamAfter(b, ws) && CamAfter(b, ws)[Address(b, s)] == e
  }

  predicate AllInBuild<E>(b: Build, ws: seq<Write<E>>) {
    forall k | 0 <= k < |ws| :: InBuild(b, ws[k].slot)
  }

  /** On the MC10P the address bit of the second rule set is already a bit of the rule number. */
  predicate OwnEntry(b: Build, s: Slot) {
    b.Mc10p? ==> s.rules.Set1? && s.id < 32
  }

  lemma OwnEntryIsUnshared(b: Build, s: Slot, t: Slot)
    requires InBuild(b, s) && InBuild(b, t) && OwnEntry(b, s) && Address(b, s) == Address(b, t)
    ensures s == t
  {
  }

  /** Another rule with the same entry, where there is one. */
  function Rival(s: Slot): Slot {
    if s.rules.Set1? then Slot(Set2, s.id % 32) else Slot(Set1, s.id % 32 + 32)
  }

  lemma {:induction false} UnsharedIsKept<E(!new)>(b: Build, ws: seq<Write<E>>, s: Slot)
    requires InBuild(b, s) && OwnEntry(b, s) && AllInBuild(b, ws)
    ensures KeepsOwn(b, ws, s)
  {
    if ws != [] {
      var w := ws[|ws| - 1];
      UnsharedIsKept(b, ws[..|ws| - 1], s);
      if Address(b, w.slot) == Address(b, s) {
        OwnEntryIsUnshared(b, s, w.slot);
      }
    }
  }

  /** A rule's entry survives every run of writes exactly when the rule owns its address: always
      on the MC20E cards, and on the MC10P for the first 32 rules of the first set only. */
  lemma EntryIsKeptExactly(b: Build, s: Slot)
    requires InBuild(b, s)
    ensures OwnEntry(b, s) <==> forall ws: seq<Write<bool>> | AllInBuild(b, ws) :: KeepsOwn(b, ws, s)
  {
    if OwnEntry(b, s) {
      forall ws: seq<Write<bool>> | AllInBuild(b, ws) ensures KeepsOwn(b, ws, s) {
        UnsharedIsKept(b, ws, s);
      }
    } else {
      var ws := [Write(s, true), Write(Rival(s), false)];
      assert ws[..1] == [Write(s, true)] && ws[..1][..0] == [];
      assert LastWritten(ws[..1], s, true) && LastWritten(ws, s, true);
      assert !KeepsOwn(b, ws, s) && AllInBuild(b, ws);
    }
  }

  // ------------------------------------------------------------ the addresses, as the code shifts them

  lemma Powers()
    ensures PowerOf2(1) == 2 && PowerOf2(5) == 0x20 && PowerOf2(6) == 0x40 && PowerOf2(10) == 0x400
  {
  }

  /** The place of a set bit above five others, and of one bit more above that. */
  lemma IdBits(low: nat, high: nat, k: nat, m: nat)
    requires k == 5 && m == 1 && low < PowerOf2(k) && high < PowerOf2(m)
    ensures var id := Bits.WordOf(low + PowerOf2(k) * high);
            && Bits.Value(id) == low + PowerOf2(k) * high
            && Bits.Value(Bits.Or(id, Bits.Ones(6, 7))) == low + PowerOf2(k) * high + PowerOf2(6)
            && Bits.Value(Bits.Or(id, Bits.Ones(5, 6))) == low + PowerOf2(k)
  {
    var n, bit := Bits.Number(low, k), Bits.Number(high, m);
    Bits.NumberOfParts(low, high, k, m, |Bits.NONE|);
    Bits.ValueOfNumber(low, k);
    Bits.ValueOfNumber(high, m);
    var id := n + bit + Bits.Zeros(26);
    Bits.ValueOfParts(n, bit, 26);
    Bits.ValueOfJoined(n, bit);
    assert Bits.Or(id, Bits.Ones(6, 7)) == (n + bit) + [true] + Bits.Zeros(25);
    Bits.ValueOfParts(n + bit, [true], 25);
    assert Bits.Or(id, Bits.Ones(5, 6)) == n + [true] + Bits.Zeros(26);
    Bits.ValueOfParts(n, [true], 26);
  }

  lemma IdValues(id: nat)
    requires id < 64
    ensures Bits.Value(Bits.WordOf(id)) == id
    ensures Bits.Value(Bits.Or(Bits.WordOf(id), Bits.Ones(6, 7))) == id + 0x40
    ensures Bits.Value(Bits.Or(Bits.WordOf(id), Bits.Ones(5, 6))) == id % 0x20 + 0x20
  {
    var low, high := id % 0x20, id / 0x20;
    Powers();
    assert id == low + 0x20 * high && high < 2;
    IdBits(low, high, 5, 1);
  }

  /** `id`, or `id | 0x40` and `id | 0x20` for the second rule set. */
  lemma AddressIsOr(b: Build, s: Slot)
    requires InBuild(b, s)
    ensures s.rules.Set1? ==> Address(b, s) == Bits.Value(Bits.WordOf(s.id))
    ensures s.rules.Set2? && b.Mc20e? ==>
      Address(b, s) == Bits.Value(Bits.Or(Bits.WordOf(s.id), Bits.Ones(6, 7)))
    ensures s.rules.Set2? && !b.Mc20e? ==>
      Address(b, s) == Bits.Value(Bits.Or(Bits.WordOf(s.id), Bits.Ones(5, 6)))
  {
    AddressNumbers(b, s);
    IdValues(s.id);
  }

  lemma AddressNumbers(b: Build, s: Slot)
    requires InBuild(b, s)
    ensures s.rules.Set1? ==> Address(b, s) == s.id
    ensures s.rules.Set2? && b.Mc20e? ==> Address(b, s) == s.id + 0x40
    ensures s.rules.Set2? && !b.Mc20e? ==> Address(b, s) == s.id % 0x20 + 0x20
  {
  }

  /** `(i << 5) | j`: both have a bit at place 5. */
  function Interleaved(i: nat, j: nat): Bits.WordBits {
    Bits.Or(Bits.Shl(Bits.WordOf(i), 5), Bits.WordOf(j))
  }

  lemma InterleavedBits(low: seq<bool>, x: bool, y: bool, high: seq<bool>)
    requires |low| == |high| == 5
    ensures Bits.Or(Bits.Shl([x] + high + Bits.Zeros(26), 5), low + [y] + Bits.Zeros(26))
         == low + ([x || y] + high) + Bits.Zeros(21)
  {
  }

  lemma InterleavedParts(low: nat, x: nat, y: nat, high: nat, k: nat, m: nat)
    requires k == 5 && m == 1 && low < PowerOf2(k) && high < PowerOf2(k) && x < PowerOf2(m) && y < PowerOf2(m)
    ensures Bits.Value(Interleaved(x + PowerOf2(m) * high, low + PowerOf2(k) * y))
         == low + PowerOf2(k) * ((if x == 1 || y == 1 then 1 else 0) + PowerOf2(m) * high)
  {
    var bits, top := Bits.Number(low, k), Bits.Number(high, k);
    InterleavedWords(low, x, y, high, k, m);
    Bits.ValueOfParts(bits, [x == 1 || y == 1] + top, 21);
    Bits.ValueOfJoined([x == 1 || y == 1], top);
    Bits.ValueOfNumber(low, k);
    Bits.ValueOfNumber(high, k);
  }

  lemma InterleavedWords(low: nat, x: nat, y: nat, high: nat, k: nat, m: nat)
    requires k == 5 && m == 1 && low < PowerOf2(k) && high < PowerOf2(k) && x < PowerOf2(m) && y < PowerOf2(m)
    ensures Interleaved(x + PowerOf2(m) * high, low + PowerOf2(k) * y)
         == Bits.Number(low, k) + ([x == 1 || y == 1] + Bits.Number(high, k)) + Bits.Zeros(21)
  {
    Bits.NumberOfParts(low, y, k, m, |Bits.NONE|);
    Bits.NumberOfParts(x, high, m, k, |Bits.NONE|);
    assert PowerOf2(1) == 2 && Bits.Number(x, m) == [x == 1] && Bits.Number(y, m) == [y == 1];
    InterleavedBits(Bits.Number(low, k), x == 1, y == 1, Bits.Number(high, k));
  }

  lemma InterleavedNumbers(low: nat, x: nat, y: nat, high: nat)
    requires low < 0x20 && high < 0x20 && x < 2 && y < 2
    ensures Bits.Value(Interleaved(x + 2 * high, low + 0x20 * y))
         == low + 0x20 * ((if x == 1 || y == 1 then 1 else 0) + 2 * high)
  {
    Powers();
    InterleavedParts(low, x, y, high, 5, 1);
  }

  lemma InterleavedValue(i: nat, j: nat)
    requires i < 64 && j < 64
    ensures Bits.Value(Interleaved(i, j)) == LutIndex(i, j)
  {
    var low, y, x, high := j % 32, j / 32, i % 2, i / 2;
    assert i == x + 2 * high && j == low + 0x20 * y;
    InterleavedNumbers(low, x, y, high);
  }

  lemma ShiftedBits(a: seq<bool>, b: seq<bool>)
    requires |a| == |b| == 6
    ensures var i, j := a + Bits.Zeros(26), b + Bits.Zeros(26);
            && Bits.Shr(Bits.Or(Bits.Shl(i, 21), Bits.Shl(j, 16)), 16) == Bits.Or(Bits.Shl(i, 5), j)
            && Bits.And(Bits.Or(Bits.Shl(i, 6), j), Bits.Ones(0, 12)) == b + a + Bits.Zeros(20)
  {
  }

  lemma ShiftedNumbers(i: nat, j: nat, k: nat)
    requires k == 6 && i < PowerOf2(k) && j < PowerOf2(k)
    ensures Bits.Shr(Bits.Or(Bits.Shl(Bits.WordOf(i), 21), Bits.Shl(Bits.WordOf(j), 16)), 16) == Interleaved(i, j)
    ensures Bits.Value(Bits.And(Bits.Or(Bits.Shl(Bits.WordOf(i), 6), Bits.WordOf(j)), Bits.Ones(0, 12)))
         == j + PowerOf2(k) * i
  {
    Bits.NumberFits(i, k, |Bits.NONE|);
    Bits.NumberFits(j, k, |Bits.NONE|);
    ShiftedBits(Bits.Number(i, k), Bits.Number(j, k));
    Bits.ValueOfParts(Bits.Number(j, k), Bits.Number(i, k), 20);
    Bits.ValueOfNumber(i, k);
    Bits.ValueOfNumber(j, k);
  }

  /** The index bits are those of `(i << 21) | (j << 16)` above the lowest sixteen. */
  lemma LutIndexIsShifted(i: nat, j: nat)
    requires i < 64 && j < 64
    ensures LutIndex(i, j) == Bits.Value(
      Bits.Shr(Bits.Or(Bits.Shl(Bits.WordOf(i), 21), Bits.Shl(Bits.WordOf(j), 16)), 16))
  {
    Powers();
    InterleavedValue(i, j);
    ShiftedNumbers(i, j, 6);
  }

  /** `((i << 6) | j) & 0xfff`. */
  lemma CommandAddressIsShifted(i: nat, j: nat)
    requires i < 64 && j < 64
    ensures CommandAddress(i, j) == Bits.Value(
      Bits.And(Bits.Or(Bits.Shl(Bits.WordOf(i), 6), Bits.WordOf(j)), Bits.Ones(0, 12)))
  {
    Powers();
    ShiftedNumbers(i, j, 6);
  }

  lemma LowTenBits(all: Bits.WordBits, k: nat)
    requires PowerOf2(k) == 0x400 && k <= 32
    ensures Bits.Value(Bits.And(all, Bits.Ones(0, k))) == Bits.Value(all) % 0x400
  {
    Bits.ValueOfLow(all, k);
    Remainder(Bits.Value(all), Bits.Value(all[..k]), Bits.Value(all[k..]));
  }

  lemma Remainder(n: nat, low: nat, high: nat)
    requires n == low + 0x400 * high && low < 0x400
    ensures n % 0x400 == low
  {
  }

  /** `((i << 5) | j) & 0x3ff`. */
  lemma ResetAddressIsShifted(i: nat, j: nat)
    requires i < 64 && j < 64
    ensures ResetAddress(i, j) == Bits.Value(Bits.And(Interleaved(i, j), Bits.Ones(0, 10)))
  {
    Powers();
    InterleavedValue(i, j);
    ResetIsRemainder(i, j, Bits.Value(Interleaved(i, j)));
    LowTenBits(Interleaved(i, j), 10);
  }

  lemma ResetIsRemainder(i: nat, j: nat, v: nat)
    requires i < 64 && j < 64 && v == LutIndex(i, j)
    ensures ResetAddress(i, j) == v % 0x400
  {
  }

  // ------------------------------------------------------------ lookup-table words

  datatype Verdict = Hash | Discard

  /** The index bits of a lookup-table word: `(rule1 << 21 | rule2 << 16) >> 16`.  The second
      number has six bits where five are free. */
  function LutIndex(i: nat, j: nat): nat {
    if j / 32 % 2 == 1 then 32 * OrBit(i, 1) + j % 32 else 32 * i + j % 32
  }

  /** No other pair of rules of the build has the same lookup-table word. */
  ghost predicate OwnWord(n: nat, i: nat, j: nat) {
    forall s: nat, t: nat | s < n && t < n && LutIndex(s, t) == LutIndex(i, j) :: s == i && t == j
  }

  /** With 32 rules every pair has its own word; with 64 just those with an even first and a low
      second number. */
  lemma OwnWordExactly(n: nat, i: nat, j: nat)
    requires n == 32 || n == 64
    requires i < n && j < n
    ensures OwnWord(n, i, j) <==> n == 32 || (i % 2 == 0 && j < 32)
  {
    if n == 64 && !(i % 2 == 0 && j < 32) {
      var i', j' := if i % 2 == 1 then i else i + 1, if i % 2 == 1 && j < 32 then j + 32 else j % 32;
      assert LutIndex(i', j') == LutIndex(i, j);
    }
  }

  /** The word a mode stands for, where the driver has one: the default hashes, `drop` drops. */
  function VerdictOf(word: nat): Verdict {
    if word == 0x4000 then Discard else Hash
  }

  /** A command for some port, or the reset of all ports. */
  datatype Event = Issue(command: Command) | ResetAll

  predicate InScope(e: Event, n: nat) {
    e.Issue? ==> e.command.rule1 <= n && e.command.rule2 <= n && (e.command.action.Default? || e.command.action.Drop?)
  }

  function Stepped(t: Table, e: Event, n: nat): Table {
    if e.Issue? then Apply(t, e.command, n) else Emptied(t, n, MAX_OC_NUM)
  }

  /** The database's table after a run of events. */
  function TableAfter(es: seq<Event>, n: nat): Table {
    if es == [] then map[] else Stepped(TableAfter(es[..|es| - 1], n), es[|es| - 1], n)
  }

  lemma AppliedMode(t: Table, c: Command, n: nat, cell: Cell)
    requires c.action.Default? || c.action.Drop?
    ensures VerdictOf(ModeAt(Apply(t, c, n), cell)) ==
      VerdictOf(if Covers(c, cell, n) then ModeWord(c.action) else ModeAt(t, cell))
  {
  }

  lemma EmptiedMode(t: Table, n: nat, cell: Cell)
    requires cell.rule1 < n && cell.rule2 < n
    ensures ModeAt(Emptied(t, n, MAX_OC_NUM), cell) == if cell.oc < MAX_OC_NUM then 0 else ModeAt(t, cell)
  {
  }

  // ------------------------------------------------------------ the words after a run

  /** A command writes word `w` of port `oc`'s card: some pair it covers has that word. */
  ghost predicate Touches(c: Command, n: nat, oc: nat, w: nat) {
    exists s: nat, t: nat :: s < n && t < n && LutIndex(s, t) == w && Covers(c, Cell(oc, s, t), n)
  }

  ghost predicate IsWord(n: nat, w: nat) {
    exists s: nat, t: nat :: s < n && t < n && LutIndex(s, t) == w
  }

  ghost function SteppedWord(v: Verdict, e: Event, n: nat, oc: nat, w: nat): Verdict {
    match e
    case Issue(c) => if Touches(c, n, oc, w) then VerdictOf(ModeWord(c.action)) else v
    case ResetAll => if oc < MAX_OC_NUM && IsWord(n, w) then Hash else v
  }

  /** What the card has in a word after a run of events, from words that all hash. */
  ghost function WordAfter(es: seq<Event>, n: nat, oc: nat, w: nat): Verdict {
    if es == [] then Hash else SteppedWord(WordAfter(es[..|es| - 1], n, oc, w), es[|es| - 1], n, oc, w)
  }

  /** The card and the database agree on a pair after a run. */
  ghost predicate Agree(es: seq<Event>, n: nat, oc: nat, i: nat, j: nat) {
    WordAfter(es, n, oc, LutIndex(i, j)) == VerdictOf(ModeAt(TableAfter(es, n), Cell(oc, i, j)))
  }

  ghost predicate AllInScope(es: seq<Event>, n: nat) {
    forall k | 0 <= k < |es| :: InScope(es[k], n)
  }

  lemma {:induction false} OwnWordAgrees(es: seq<Event>, n: nat, oc: nat, i: nat, j: nat)
    requires i < n && j < n && OwnWord(n, i, j) && AllInScope(es, n)
    ensures Agree(es, n, oc, i, j)
  {
    if es != [] {
      var front, e := es[..|es| - 1], es[|es| - 1];
      OwnWordAgrees(front, n, oc, i, j);
      OwnWordStep(TableAfter(front, n), WordAfter(front, n, oc, LutIndex(i, j)), e, n, oc, i, j);
    }
  }

  lemma OwnWordsAgree(es: seq<Event>, n: nat, oc: nat)
    requires AllInScope(es, n)
    ensures forall i: nat, j: nat | i < n && j < n && OwnWord(n, i, j) :: Agree(es, n, oc, i, j)
  {
    forall i: nat, j: nat | i < n && j < n && OwnWord(n, i, j) ensures Agree(es, n, oc, i, j) {
      OwnWordAgrees(es, n, oc, i, j);
    }
  }

  lemma OneEventMore(es: seq<Event>, k: nat, n: nat, oc: nat)
    requires k < |es|
    ensures forall w: nat {:trigger WordAfter(es[..k + 1], n, oc, w)} ::
      WordAfter(es[..k + 1], n, oc, w) == SteppedWord(WordAfter(es[..k], n, oc, w), es[k], n, oc, w)
  {
    assert es[..k + 1][..k] == es[..k];
  }

  lemma OwnWordStep(t: Table, v: Verdict, e: Event, n: nat, oc: nat, i: nat, j: nat)
    requires i < n && j < n && OwnWord(n, i, j) && InScope(e, n)
    requires v == VerdictOf(ModeAt(t, Cell(oc, i, j)))
    ensures SteppedWord(v, e, n, oc, LutIndex(i, j)) == VerdictOf(ModeAt(Stepped(t, e, n), Cell(oc, i, j)))
  {
    var w := LutIndex(i, j);
    if e.Issue? {
      AppliedMode(t, e.command, n, Cell(oc, i, j));
      assert Touches(e.command, n, oc, w) <==> Covers(e.command, Cell(oc, i, j), n);
    } else {
      EmptiedMode(t, n, Cell(oc, i, j));
      assert IsWord(n, w);
    }
  }

  /** The card agrees with the database on a pair after every run of default and drop commands and
      resets exactly when the pair has a word of its own.  Otherwise one drop of the pair it
      shares the word with is enough. */
  lemma PairAgreesExactly(n: nat, oc: nat, i: nat, j: nat)
    requires i < n && j < n
    ensures OwnWord(n, i, j) <==> forall es | AllInScope(es, n) :: Agree(es, n, oc, i, j)
  {
    if OwnWord(n, i, j) {
      forall es | AllInScope(es, n) ensures Agree(es, n, oc, i, j) {
        OwnWordAgrees(es, n, oc, i, j);
      }
    } else {
      var s: nat, t: nat :| s < n && t < n && LutIndex(s, t) == LutIndex(i, j) && !(s == i && t == j);
      DropDisagrees(n, oc, i, j, s, t);
    }
  }

  lemma DropDisagrees(n: nat, oc: nat, i: nat, j: nat, s: nat, t: nat)
    requires i < n && j < n && s < n && t < n && LutIndex(s, t) == LutIndex(i, j) && !(s == i && t == j)
    ensures var es := [Issue(Command(oc, s, t, Drop))]; AllInScope(es, n) && !Agree(es, n, oc, i, j)
  {
    var c := Command(oc, s, t, Drop);
    var es := [Issue(c)];
    assert es[..0] == [];
    assert WordAfter(es, n, oc, LutIndex(i, j)) == SteppedWord(Hash, Issue(c), n, oc, LutIndex(i, j));
    assert TableAfter(es, n) == Stepped(map[], Issue(c), n);
    assert Covers(c, Cell(oc, s, t), n) && Touches(c, n, oc, LutIndex(i, j));
    AppliedMode(map[], c, n, Cell(oc, i, j));
  }

  lemma Low6(q: nat, r: nat)
    requires r < 64
    ensures (q * 64 + r) / 64 == q && (q * 64 + r) % 64 == r
  {
  }

  lemma HighPart(word: nat, pair: nat)
    requires word < 0x1_0000 && pair < 0x1000
    ensures var data := word % 0x1_0000 * 0x1_0000 + pair;
            data % 64 == pair % 64 && data / 64 % 64 == pair / 64 && data / 0x1_0000 % 0x1_0000 == word
  {
    var high, low := pair / 64, pair % 64;
    assert word * 0x1_0000 + pair == (word * 1024 + high) * 64 + low;
    assert word * 1024 + high == (word * 16) * 64 + high;
    Low6(word * 1024 + high, low);
    Low6(word * 16, high);
    assert (word * 0x1_0000 + pair) / 0x1_0000 == word;
  }

  /** A pair and a mode survive packing into one data word. */
  lemma Unpacked(i: nat, j: nat, word: nat)
    requires i < 64 && j < 64 && word < 0x1_0000
    ensures var data := word % 0x1_0000 * 0x1_0000 + (i * 64 + j) % 0x1000;
            data % 64 == j && data / 64 % 64 == i && data / 0x1_0000 % 0x1_0000 == word
  {
    var pair := i * 64 + j;
    assert pair % 0x1000 == pair && pair / 64 == i && pair % 64 == j;
    HighPart(word, pair);
  }

  const LUT_WORDS: nat := 2048

  /** Word `w` is that of a pair in the first `rows` rows and `columns` columns. */
  ghost predicate InBlock(rows: nat, columns: nat, w: nat) {
    exists s: nat, t: nat :: s < rows && t < columns && LutIndex(s, t) == w
  }

  ghost predicate InRow(i: nat, columns: nat, w: nat) {
    exists t: nat :: t < columns && LutIndex(i, t) == w
  }

  ghost predicate InColumn(rows: nat, j: nat, w: nat) {
    exists s: nat :: s < rows && LutIndex(s, j) == w
  }

  lemma NextInBlock(i: nat, columns: nat, w: nat)
    ensures InBlock(i + 1, columns, w) <==> InBlock(i, columns, w) || InRow(i, columns, w)
  {
  }

  /** The words a command touches, by the four cases of its wildcards. */
  lemma TouchedWords(c: Command, n: nat, w: nat)
    requires c.rule1 <= n && c.rule2 <= n
    ensures c.rule1 == n && c.rule2 == n ==> (Touches(c, n, c.oc, w) <==> InBlock(n, n, w))
    ensures c.rule1 == n && c.rule2 < n ==> (Touches(c, n, c.oc, w) <==> InColumn(n, c.rule2, w))
    ensures c.rule1 < n && c.rule2 == n ==> (Touches(c, n, c.oc, w) <==> InRow(c.rule1, n, w))
    ensures c.rule1 < n && c.rule2 < n ==> (Touches(c, n, c.oc, w) <==> LutIndex(c.rule1, c.rule2) == w)
  {
    if c.rule1 < n && c.rule2 < n && LutIndex(c.rule1, c.rule2) == w {
      assert Covers(c, Cell(c.oc, c.rule1, c.rule2), n);
    }
    forall s: nat, t: nat | s < n && t < n && LutIndex(s, t) == w
      ensures c.rule1 == n && c.rule2 == n ==> Covers(c, Cell(c.oc, s, t), n)
      ensures c.rule1 == n && c.rule2 == t ==> Covers(c, Cell(c.oc, s, t), n)
      ensures c.rule1 == s && c.rule2 == n ==> Covers(c, Cell(c.oc, s, t), n)
    {
    }
  }

  class Card {
    /** MAX_RULE_NO, and the port the card serves. */
    const n: nat
    const oc: nat
    const lut: array<Verdict>

    ghost predicate Valid()
      reads this
    {
      (n == 32 || n == 64) && lut.Length == LUT_WORDS
    }

    /** A card whose words all hash. */
    constructor (n: nat, oc: nat)
      requires n == 32 || n == 64
      ensures Valid() && fresh(lut) && this.n == n && this.oc == oc
      ensures forall w | 0 <= w < LUT_WORDS :: lut[w] == Hash
    {
      this.n, this.oc := n, oc;
      lut := new Verdict[LUT_WORDS](k => Hash);
    }

    /** Writing TAG_MAP_REG: the card takes the index from the word, and what to do from its
        low half. */
    method WriteTagMap(word: nat)
      requires Valid() && word / 0x1_0000 % 0x8000 < LUT_WORDS && word % 0x1_0000 in {0x20, 0x30}
      modifies lut
      ensures lut[..] == old(lut[..])[word / 0x1_0000 % 0x8000 := if word % 0x1_0000 == 0x30 then Discard else Hash]
    {
      lut[word / 0x1_0000 % 0x8000] := if word % 0x1_0000 == 0x30 then Discard else Hash;
    }

    /** `qnf_cam_lut_set` for its two commands, 2 and 3. */
    method LutSet(rule1: nat, rule2: nat, cmd: nat)
      requires Valid() && rule1 < n && rule2 < n && cmd in {2, 3}
      modifies lut
      ensures lut[..] == old(lut[..])[LutIndex(rule1, rule2) := if cmd == 3 then Discard else Hash]
    {
      var index := LutIndex(rule1, rule2);
      if cmd == 2 {
        WriteTagMap(0x8000_0020 + 0x1_0000 * index);
      } else {
        WriteTagMap(0x8000_0030 + 0x1_0000 * index);
      }
    }

    /** `drv_set_forward_mode`: unpacking the pair and the opcode. */
    method SetForwardMode(data: nat)
      requires Valid() && data % 64 < n && data / 64 % 64 < n && data / 0x1_0000 % 0x1_0000 in {0, 0x4000}
      modifies lut
      ensures lut[..] == old(lut[..])[LutIndex(data / 64 % 64, data % 64) := VerdictOf(data / 0x1_0000 % 0x1_0000)]
    {
      var rule2, rule1 := data % 64, data / 64 % 64;
      var opcode := data / 0x1_0000 % 0x1_0000;
      LutSet(rule1, rule2, if opcode == 0x0000 then 2 else 3);
    }

    /** Packing and writing one pair: `addr = ((i << 6) | j) & 0xfff`. */
    method SetPair(i: nat, j: nat, word: nat)
      requires Valid() && i < n && j < n && word in {0, 0x4000}
      modifies lut
      ensures lut[..] == old(lut[..])[LutIndex(i, j) := VerdictOf(word)]
    {
      var addr := (i * 64 + j) % 0x1000;
      var data := word % 0x1_0000 * 0x1_0000 + addr;
      Unpacked(i, j, word);
      SetForwardMode(data);
    }

    method SetRow(i: nat, word: nat)
      requires Valid() && i < n && word in {0, 0x4000}
      modifies lut
      ensures forall w | 0 <= w < LUT_WORDS :: lut[w] == if InRow(i, n, w) then VerdictOf(word) else old(lut[w])
    {
      for j := 0 to n
        invariant forall w | 0 <= w < LUT_WORDS :: lut[w] == if InRow(i, j, w) then VerdictOf(word) else old(lut[w])
      {
        SetPair(i, j, word);
      }
    }

    method SetAll(word: nat)
      requires Valid() && word in {0, 0x4000}
      modifies lut
      ensures forall w | 0 <= w < LUT_WORDS :: lut[w] == if InBlock(n, n, w) then VerdictOf(word) else old(lut[w])
    {
      for i := 0 to n
        invariant forall w | 0 <= w < LUT_WORDS :: lut[w] == if InBlock(i, n, w) then VerdictOf(word) else old(lut[w])
      {
        SetRow(i, word);
        forall w | 0 <= w < LUT_WORDS ensures InBlock(i + 1, n, w) <==> InBlock(i, n, w) || InRow(i, n, w) {
          NextInBlock(i, n, w);
        }
      }
    }

    method SetColumn(j: nat, word: nat)
      requires Valid() && j < n && word in {0, 0x4000}
      modifies lut
      ensures forall w | 0 <= w < LUT_WORDS :: lut[w] == if InColumn(n, j, w) then VerdictOf(word) else old(lut[w])
    {
      for i := 0 to n
        invariant forall w | 0 <= w < LUT_WORDS :: lut[w] == if InColumn(i, j, w) then VerdictOf(word) else old(lut[w])
      {
        SetPair(i, j, word);
      }
    }

    /** The driver half of `cli_set_forward_mode`. */
    method Execute(c: Command)
      requires Valid() && c.oc == oc && InScope(Issue(c), n)
      modifies lut
      ensures forall w | 0 <= w < LUT_WORDS :: lut[w] == SteppedWord(old(lut[w]), Issue(c), n, oc, w)
    {
      var word := ModeWord(c.action);
      if c.rule1 == n && c.rule2 == n {
        SetAll(word);
      } else if c.rule1 == n {
        SetColumn(c.rule2, word);
      } else if c.rule2 == n {
        SetRow(c.rule1, word);
      } else {
        SetPair(c.rule1, c.rule2, word);
      }
      forall w | 0 <= w < LUT_WORDS ensures lut[w] == SteppedWord(old(lut[w]), Issue(c), n, oc, w) {
        TouchedWords(c, n, w);
      }
    }

    method ResetRow(i: nat)
      requires Valid() && i < n
      modifies lut
      ensures forall w | 0 <= w < LUT_WORDS :: lut[w] == if InRow(i, n, w) then Hash else old(lut[w])
    {
      for j := 0 to n
        invariant forall w | 0 <= w < LUT_WORDS :: lut[w] == if InRow(i, j, w) then Hash else old(lut[w])
      {
        LutSet(i, j, 2);
      }
    }

    /** `drv_reset_forward_default_config`. */
    method Reset()
      requires Valid()
      modifies lut
      ensures forall w | 0 <= w < LUT_WORDS :: lut[w] == if IsWord(n, w) then Hash else old(lut[w])
    {
      for i := 0 to n
        invariant forall w | 0 <= w < LUT_WORDS :: lut[w] == if InBlock(i, n, w) then Hash else old(lut[w])
      {
        ResetRow(i);
        forall w | 0 <= w < LUT_WORDS ensures InBlock(i + 1, n, w) <==> InBlock(i, n, w) || InRow(i, n, w) {
          NextInBlock(i, n, w);
        }
      }
    }

    /** One event, if it concerns this card. */
    method Handle(e: Event)
      requires Valid() && InScope(e, n)
      modifies lut
      ensures forall w | 0 <= w < LUT_WORDS :: lut[w] == SteppedWord(old(lut[w]), e, n, oc, w)
    {
      if e.Issue? && e.command.oc == oc {
        Execute(e.command);
      } else if e.ResetAll? && oc < MAX_OC_NUM {
        Reset();
      }
    }

    /** Any run of default and drop commands and of resets, each sent to the cards it concerns:
        every word is what the events say, and with that every pair that has its own word agrees
        with the database. */
    method Run(es: seq<Event>)
      requires Valid() && AllInScope(es, n) && forall w | 0 <= w < LUT_WORDS :: lut[w] == Hash
      modifies lut
      ensures forall w | 0 <= w < LUT_WORDS :: lut[w] == WordAfter(es, n, oc, w)
      ensures forall i: nat, j: nat | i < n && j < n && OwnWord(n, i, j) :: Agree(es, n, oc, i, j)
    {
      assert es[..|es|] == es;
      for k := 0 to |es|
        invariant forall w | 0 <= w < LUT_WORDS :: lut[w] == WordAfter(es[..k], n, oc, w)
      {
        Handle(es[k]);
        OneEventMore(es, k, n, oc);
      }
      OwnWordsAgree(es, n, oc);
    }
  }

  // ------------------------------------------------------------ the MC10P's two ways of addressing

  /** Where a command writes the mode of a pair on the MC10P: `((i << 6) | j) & 0xfff`. */
  function CommandAddress(i: nat, j: nat): (a: nat)
    requires i < 64 && j < 64
    ensures a < 0x1000
  {
    (64 * i + j) % 0x1000
  }

  /** Where a reset writes it: `((i << 5) | j) & 0x3ff`. */
  function ResetAddress(i: nat, j: nat): nat
    requires i < 64 && j < 64
  {
    LutIndex(i, j) % 0x400
  }

  /** A reset reaches the place a command uses for a pair exactly when the first number is below 16. */
  lemma ResetReachesExactly(i: nat, j: nat)
    requires i < 64 && j < 64
    ensures (exists s: nat, t: nat :: s < 64 && t < 64 && ResetAddress(s, t) == CommandAddress(i, j)) <==> i < 16
  {
    var a := CommandAddress(i, j);
    assert a == 64 * i + j;
    if i < 16 {
      assert ResetAddress(a / 32, a % 32) == a;
    }
  }

  /** MAX_RULE_NO of the MC10P build. */
  const FLOW_RULES: nat := 64
  const PLACES: nat := 0x1000

  predicate InFlow(e: Event) {
    e.Issue? ==> Legal(e.command, FLOW_RULES)
  }

  ghost predicate AllInFlow(es: seq<Event>) {
    forall k | 0 <= k < |es| :: InFlow(es[k])
  }

  /** What an event leaves at a pair's place: the card takes the mode word as it is, and a reset
      writes the default where it reaches. */
  function SteppedPlace(v: nat, e: Event, oc: nat, i: nat, j: nat): nat {
    match e
    case Issue(c) => if Covers(c, Cell(oc, i, j), FLOW_RULES) then ModeWord(c.action) else v
    case ResetAll => if oc < MAX_OC_NUM && i < 16 then 0 else v
  }

  function PlaceAfter(es: seq<Event>, oc: nat, i: nat, j: nat): nat {
    if es == [] then 0 else SteppedPlace(PlaceAfter(es[..|es| - 1], oc, i, j), es[|es| - 1], oc, i, j)
  }

  ghost predicate FlowAgree(es: seq<Event>, oc: nat, i: nat, j: nat) {
    PlaceAfter(es, oc, i, j) == ModeAt(TableAfter(es, FLOW_RULES), Cell(oc, i, j))
  }

  lemma FlowMode(t: Table, c: Command, cell: Cell)
    requires Legal(c, FLOW_RULES)
    ensures ModeAt(Apply(t, c, FLOW_RULES), cell) ==
      if Covers(c, cell, FLOW_RULES) then ModeWord(c.action) else ModeAt(t, cell)
  {
  }

  lemma {:induction false} FlowAgrees(es: seq<Event>, oc: nat, i: nat, j: nat)
    requires i < FLOW_RULES && j < FLOW_RULES && (i < 16 || oc >= MAX_OC_NUM) && AllInFlow(es)
    ensures FlowAgree(es, oc, i, j)
  {
    if es != [] {
      var front, e := es[..|es| - 1], es[|es| - 1];
      FlowAgrees(front, oc, i, j);
      if e.Issue? {
        FlowMode(TableAfter(front, FLOW_RULES), e.command, Cell(oc, i, j));
      } else {
        EmptiedMode(TableAfter(front, FLOW_RULES), FLOW_RULES, Cell(oc, i, j));
      }
    }
  }

  /** A drop and then a reset. */
  lemma ResetDisagrees(oc: nat, i: nat, j: nat)
    requires 16 <= i < FLOW_RULES && j < FLOW_RULES && oc < MAX_OC_NUM
    ensures var es := [Issue(Command(oc, i, j, Drop)), ResetAll]; AllInFlow(es) && !FlowAgree(es, oc, i, j)
  {
    var drop := Issue(Command(oc, i, j, Drop));
    var es := [drop, ResetAll];
    PlaceAfterTwo(drop, ResetAll, oc, i, j);
    TableAfterTwo(drop, ResetAll, FLOW_RULES);
    EmptiedMode(TableAfter([drop], FLOW_RULES), FLOW_RULES, Cell(oc, i, j));
  }

  lemma PlaceAfterTwo(a: Event, b: Event, oc: nat, i: nat, j: nat)
    ensures PlaceAfter([a, b], oc, i, j) == SteppedPlace(SteppedPlace(0, a, oc, i, j), b, oc, i, j)
  {
    assert [a, b][..1] == [a] && [a][..0] == [];
    assert PlaceAfter([a], oc, i, j) == SteppedPlace(PlaceAfter([a][..0], oc, i, j), a, oc, i, j);
  }

  lemma TableAfterTwo(a: Event, b: Event, n: nat)
    ensures TableAfter([a, b], n) == Stepped(TableAfter([a], n), b, n)
  {
    assert [a, b][..1] == [a];
  }

  /** On the MC10P the card agrees with the database on a pair after every run of commands and
      resets exactly when the first number is below 16; resets leave the port in excess alone. */
  lemma FlowAgreesExactly(oc: nat, i: nat, j: nat)
    requires i < FLOW_RULES && j < FLOW_RULES
    ensures (i < 16 || oc >= MAX_OC_NUM) <==> forall es | AllInFlow(es) :: FlowAgree(es, oc, i, j)
  {
    if i < 16 || oc >= MAX_OC_NUM {
      forall es | AllInFlow(es) ensures FlowAgree(es, oc, i, j) {
        FlowAgrees(es, oc, i, j);
      }
    } else {
      ResetDisagrees(oc, i, j);
    }
  }

  lemma ResetAddressIs(i: nat, j: nat)
    requires i < 64 && j < 64
    ensures ResetAddress(i, j) < 0x400
    ensures j < 32 ==> ResetAddress(i, j) / 32 == i % 32 && ResetAddress(i, j) % 32 == j
  {
    if j < 32 {
      assert LutIndex(i, j) == 32 * i + j;
    }
  }

  lemma AddressesApart(s: nat, t: nat, i: nat, j: nat)
    requires s < 64 && t < 64 && i < 64 && j < 64 && CommandAddress(s, t) == CommandAddress(i, j)
    ensures s == i && t == j
  {
    assert CommandAddress(s, t) == 64 * s + t && CommandAddress(i, j) == 64 * i + j;
  }

  lemma FlowUnpacked(word: nat, addr: nat)
    requires word < 0x1_0000 && addr < PLACES
    ensures var data := word * 0x1_0000 + addr; data % PLACES == addr && data / 0x1_0000 == word
  {
    var data := word * 0x1_0000 + addr;
    assert data == PLACES * (16 * word) + addr;
    assert data / PLACES == 16 * word;
  }

  class FlowCard {
    const oc: nat
    const places: array<nat>

    ghost predicate Valid()
      reads this
    {
      places.Length == PLACES
    }

    constructor (oc: nat)
      ensures Valid() && fresh(places) && this.oc == oc && forall a | 0 <= a < PLACES :: places[a] == 0
    {
      this.oc := oc;
      places := new nat[PLACES](k => 0);
    }

    /** Writing TAG_MAP_REG: the card takes the place from the low part and the mode from the high. */
    method WriteTagMap(data: nat)
      requires Valid()
      modifies places
      ensures places[..] == old(places[..])[data % PLACES := data / 0x1_0000]
    {
      places[data % PLACES] := data / 0x1_0000;
    }

    method SetPair(i: nat, j: nat, word: nat)
      requires Valid() && i < FLOW_RULES && j < FLOW_RULES && word < 0x1_0000
      modifies places
      ensures forall s: nat, t: nat | s < FLOW_RULES && t < FLOW_RULES ::
        places[CommandAddress(s, t)] == if s == i && t == j then word else old(places[CommandAddress(s, t)])
    {
      FlowUnpacked(word, CommandAddress(i, j));
      WriteTagMap(word * 0x1_0000 + CommandAddress(i, j));
      forall s: nat, t: nat | s < FLOW_RULES && t < FLOW_RULES && CommandAddress(s, t) == CommandAddress(i, j)
        ensures s == i && t == j
      {
        AddressesApart(s, t, i, j);
      }
    }

    method SetRow(i: nat, word: nat)
      requires Valid() && i < FLOW_RULES && word < 0x1_0000
      modifies places
      ensures forall s: nat, t: nat | s < FLOW_RULES && t < FLOW_RULES ::
        places[CommandAddress(s, t)] == if s == i then word else old(places[CommandAddress(s, t)])
    {
      for j := 0 to FLOW_RULES
        invariant forall s: nat, t: nat | s < FLOW_RULES && t < FLOW_RULES ::
          places[CommandAddress(s, t)] == if s == i && t < j then word else old(places[CommandAddress(s, t)])
      {
        SetPair(i, j, word);
      }
    }

    method SetColumn(j: nat, word: nat)
      requires Valid() && j < FLOW_RULES && word < 0x1_0000
      modifies places
      ensures forall s: nat, t: nat | s < FLOW_RULES && t < FLOW_RULES ::
        places[CommandAddress(s, t)] == if t == j then word else old(places[CommandAddress(s, t)])
    {
      for i := 0 to FLOW_RULES
        invariant forall s: nat, t: nat | s < FLOW_RULES && t < FLOW_RULES ::
          places[CommandAddress(s, t)] == if t == j && s < i then word else old(places[CommandAddress(s, t)])
      {
        SetPair(i, j, word);
      }
    }

    method SetAll(word: nat)
      requires Valid() && word < 0x1_0000
      modifies places
      ensures forall s: nat, t: nat | s < FLOW_RULES && t < FLOW_RULES :: places[CommandAddress(s, t)] == word
    {
      for i := 0 to FLOW_RULES
        invariant forall s: nat, t: nat | s < i && t < FLOW_RULES :: places[CommandAddress(s, t)] == word
      {
        SetRow(i, word);
      }
    }

    /** The driver half of `cli_set_forward_mode`. */
    method Execute(c: Command)
      requires Valid() && c.oc == oc && Legal(c, FLOW_RULES)
      modifies places
      ensures forall s: nat, t: nat | s < FLOW_RULES && t < FLOW_RULES ::
        places[CommandAddress(s, t)] == SteppedPlace(old(places[CommandAddress(s, t)]), Issue(c), oc, s, t)
    {
      var word := ModeWord(c.action);
      if c.rule1 == FLOW_RULES && c.rule2 == FLOW_RULES {
        SetAll(word);
      } else if c.rule1 == FLOW_RULES {
        SetColumn(c.rule2, word);
      } else if c.rule2 == FLOW_RULES {
        SetRow(c.rule1, word);
      } else {
        SetPair(c.rule1, c.rule2, word);
      }
    }

    method ResetRow(i: nat)
      requires Valid() && i < FLOW_RULES
      modifies places
      ensures forall a: nat | a < PLACES :: places[a] == old(places[a]) || (a < 0x400 && places[a] == 0)
      ensures forall a: nat | a < 0x400 && a / 32 == i % 32 :: places[a] == 0
    {
      for j := 0 to FLOW_RULES
        invariant forall a: nat | a < PLACES :: places[a] == old(places[a]) || (a < 0x400 && places[a] == 0)
        invariant forall a: nat | a < 0x400 && a / 32 == i % 32 && a % 32 < j :: places[a] == 0
      {
        ResetAddressIs(i, j);
        WriteTagMap(ResetAddress(i, j));
      }
    }

    /** `drv_reset_forward_default_config`: the default at the first 1024 places. */
    method Reset()
      requires Valid()
      modifies places
      ensures forall a: nat | a < PLACES :: places[a] == if a < 0x400 then 0 else old(places[a])
    {
      for i := 0 to FLOW_RULES
        invariant forall a: nat | a < PLACES :: places[a] == old(places[a]) || (a < 0x400 && places[a] == 0)
        invariant forall a: nat | a < 0x400 && a / 32 < i :: places[a] == 0
      {
        ResetRow(i);
      }
    }

    method Handle(e: Event)
      requires Valid() && InFlow(e)
      modifies places
      ensures forall s: nat, t: nat | s < FLOW_RULES && t < FLOW_RULES ::
        places[CommandAddress(s, t)] == SteppedPlace(old(places[CommandAddress(s, t)]), e, oc, s, t)
    {
      if e.Issue? && e.command.oc == oc {
        Execute(e.command);
      } else if e.ResetAll? && oc < MAX_OC_NUM {
        Reset();
      }
    }

    /** Any run of commands and resets: every pair's place is what the events say. */
    method Run(es: seq<Event>)
      requires Valid() && AllInFlow(es) && forall a | 0 <= a < PLACES :: places[a] == 0
      modifies places
      ensures forall s: nat, t: nat | s < FLOW_RULES && t < FLOW_RULES ::
        places[CommandAddress(s, t)] == PlaceAfter(es, oc, s, t)
    {
      assert es[..|es|] == es;
      for k := 0 to |es|
        invariant forall s: nat, t: nat | s < FLOW_RULES && t < FLOW_RULES ::
          places[CommandAddress(s, t)] == PlaceAfter(es[..k], oc, s, t)
      {
        Handle(es[k]);
        assert es[..k + 1][..k] == es[..k];
      }
    }
  }
}
