/** Filter rules as command lines: the printing of `save_filter_config` in cli/parserops.c, the
    grammar's actions for options in cli/parser.y, and restoring a saved configuration.

    An option record comes from `malloc`, so the fields an action does not set are arbitrary:
    `junk(k)` is what the record made with `k` options to its right held before. */
module RuleLines {
  import opened Basics
  import opened KeyNames
  import opened ConfigStore
  import opened RuleStore
  import opened RuleText

  datatype Opt =
    | AnyOpt
    | ProtocolOpt(text: string) | SourceIp(ip: string, netmask: string) | DestIp(ip: string, netmask: string)
    | SourcePort(text: string) | DestPort(text: string) | LengthRange(text: string)
    | OffsetOpt(text: string) | KeyOpt(text: string)

  type Record1 = r: Rule | r.Rule1? witness Rule1(0, 0, 0, 0, 0, 0, 0, 0, 0)
  type Record2 = r: Rule | r.Rule2? witness Rule2(0, 0, [], [])

  const ZERO1: Rule := Rule1(0, 0, 0, 0, 0, 0, 0, 0, 0)
  const ZERO2: Rule := Rule2(0, 0, Padded([]), Padded([]))

  predicate Bit(flag: Short, k: nat) {
    match k
    case 0 => Bit0(flag)
    case 1 => Bit1(flag)
    case 2 => Bit2(flag)
    case 3 => Bit3(flag)
    case 4 => Bit4(flag)
    case _ => Bit5(flag)
  }

  function Weight(on: bool): nat {
    if on then 1 else 0
  }

  function FlagOf(b0: bool, b1: bool, b2: bool, b3: bool, b4: bool, b5: bool): (c: Short)
    ensures c < 64
  {
    Weight(b0) + 2 * (Weight(b1) + 2 * (Weight(b2) + 2 * (Weight(b3) + 2 * (Weight(b4) + 2 * Weight(b5)))))
  }

  lemma BitsOfFlag(b0: bool, b1: bool, b2: bool, b3: bool, b4: bool, b5: bool)
    ensures var c := FlagOf(b0, b1, b2, b3, b4, b5);
            Bit0(c) == b0 && Bit1(c) == b1 && Bit2(c) == b2 && Bit3(c) == b3 && Bit4(c) == b4 && Bit5(c) == b5
  {
    var c := FlagOf(b0, b1, b2, b3, b4, b5);
    var c4 := Weight(b4) + 2 * Weight(b5);
    var c3 := Weight(b3) + 2 * c4;
    var c2 := Weight(b2) + 2 * c3;
    var c1 := Weight(b1) + 2 * c2;
    assert c / 2 == c1 && c / 4 == c2 && c / 8 == c3 && c / 16 == c4 && c / 32 == Weight(b5);
  }

  lemma Quarter(c: nat)
    ensures c / 4 == c / 2 / 2 && c / 8 == c / 4 / 2
  {
  }

  lemma Sixteenth(c: nat)
    ensures c / 16 == c / 8 / 2 && c / 32 == c / 16 / 2
  {
  }

  lemma FlagOfBits(c: Short)
    requires c < 64
    ensures c == FlagOf(Bit0(c), Bit1(c), Bit2(c), Bit3(c), Bit4(c), Bit5(c))
  {
    Quarter(c);
    Sixteenth(c);
    FlagOfHalves(c, c / 2, c / 4, c / 8, c / 16, c / 32);
  }

  lemma LowBit(c: nat)
    ensures c == Weight(c % 2 == 1) + 2 * (c / 2)
  {
  }

  lemma FlagOfHalves(c: nat, c1: nat, c2: nat, c3: nat, c4: nat, c5: nat)
    requires c < 64 && c1 == c / 2 && c2 == c1 / 2 && c3 == c2 / 2 && c4 == c3 / 2 && c5 == c4 / 2
    ensures c == FlagOf(c % 2 == 1, c1 % 2 == 1, c2 % 2 == 1, c3 % 2 == 1, c4 % 2 == 1, c5 % 2 == 1)
  {
    LowBit(c);
    LowBit(c1);
    LowBit(c2);
    LowBit(c3);
    LowBit(c4);
    LowBit(c5);
  }

  /** The flag word with the given bits. */
  function FlagBy(bit: nat -> bool): (c: Short)
    ensures c < 64
  {
    FlagOf(bit(0), bit(1), bit(2), bit(3), bit(4), bit(5))
  }

  lemma FlagByBits(bit: nat -> bool, k: nat)
    requires k < 6
    ensures Bit(FlagBy(bit), k) <==> bit(k)
  {
    BitsOfFlag(bit(0), bit(1), bit(2), bit(3), bit(4), bit(5));
  }

  function EitherBit(a: Short, b: Short): nat -> bool {
    (k: nat) => Bit(a, k) || Bit(b, k)
  }

  /** `a | b` for flag words of six bits. */
  function OrFlags(a: Short, b: Short): (c: Short)
    ensures c < 64
  {
    FlagBy(EitherBit(a, b))
  }

  lemma OrBits(a: Short, b: Short, k: nat)
    requires k < 6
    ensures Bit(OrFlags(a, b), k) <==> Bit(a, k) || Bit(b, k)
  {
    FlagByBits(EitherBit(a, b), k);
  }

  lemma SameBitsSameFlag(a: Short, b: Short)
    requires a < 64 && b < 64 && forall k | 0 <= k < 6 :: Bit(a, k) <==> Bit(b, k)
    ensures a == b
  {
    assert Bit(a, 0) == Bit(b, 0) && Bit(a, 1) == Bit(b, 1) && Bit(a, 2) == Bit(b, 2);
    assert Bit(a, 3) == Bit(b, 3) && Bit(a, 4) == Bit(b, 4) && Bit(a, 5) == Bit(b, 5);
    FlagOfBits(a);
    FlagOfBits(b);
  }

  /** RULE_OPT of flag bit `k`. */
  function OneBit(k: nat): Short {
    FlagOf(k == 0, k == 1, k == 2, k == 3, k == 4, k == 5)
  }

  lemma OneBitBits(k: nat, j: nat)
    requires k < 6 && j < 6
    ensures Bit(OneBit(k), j) <==> j == k
  {
    BitsOfFlag(k == 0, k == 1, k == 2, k == 3, k == 4, k == 5);
  }

  // ------------------------------------------------------------ lists of options

  function Both<R>(merge: (R, R) -> R, first: Option<R>, rest: Option<R>): Option<R> {
    if first.None? || rest.None? then None else Some(merge(first.value, rest.value))
  }

  /** A list of options, for a way of making the record of one and of merging two; an empty
      list is a syntax error. */
  function ListBy<R>(one: (Opt, R) -> Option<R>, merge: (R, R) -> R, os: seq<Opt>, junk: nat -> R): Option<R> {
    if os == [] then None
    else
      var first := one(os[0], junk(|os| - 1));
      if |os| == 1 then first else Both(merge, first, ListBy(one, merge, os[1..], junk))
  }

  lemma ListCons<R>(one: (Opt, R) -> Option<R>, merge: (R, R) -> R, o: Opt, rest: seq<Opt>, junk: nat -> R)
    ensures ListBy(one, merge, [o] + rest, junk) ==
      if rest == [] then one(o, junk(0)) else Both(merge, one(o, junk(|rest|)), ListBy(one, merge, rest, junk))
  {
    assert ([o] + rest)[0] == o && ([o] + rest)[1..] == rest;
  }

  /** What every single option's record has, and merging keeps, the record of a list has. */
  lemma {:induction false} ListKeeps<R(!new)>(one: (Opt, R) -> Option<R>, merge: (R, R) -> R, os: seq<Opt>,
                                              junk: nat -> R, good: R -> bool)
    requires forall o, r | one(o, r).Some? :: good(one(o, r).value)
    requires forall a, b | good(a) && good(b) :: good(merge(a, b))
    requires ListBy(one, merge, os, junk).Some?
    ensures good(ListBy(one, merge, os, junk).value)
  {
    if |os| > 1 {
      ListKeeps(one, merge, os[1..], junk, good);
    }
  }

  /** The place of the first option that sets a field, or the length if there is none. */
  function First(os: seq<Opt>, sets: Opt -> bool): (j: nat)
    ensures j <= |os|
  {
    if os == [] || sets(os[0]) then 0 else 1 + First(os[1..], sets)
  }

  /** How records ask for a field, and when two of them have the same value of it. */
  ghost predicate MergesField<R(!new)>(merge: (R, R) -> R, asks: R -> bool, same: (R, R) -> bool) {
    && (forall a, b :: asks(merge(a, b)) <==> asks(a) || asks(b))
    && (forall a, b, v | same(if asks(a) then a else b, v) :: same(merge(a, b), v))
    && (forall a :: same(a, a))
  }

  /** A list asks for a field exactly when one of its options sets it, and the field then has the
      value of the first of them. */
  lemma {:induction false} FirstWinsBy<R(!new)>(one: (Opt, R) -> Option<R>, merge: (R, R) -> R, os: seq<Opt>,
                                                junk: nat -> R, sets: Opt -> bool, asks: R -> bool,
                                                same: (R, R) -> bool)
    requires forall o, r | one(o, r).Some? :: asks(one(o, r).value) <==> sets(o)
    requires MergesField(merge, asks, same)
    requires ListBy(one, merge, os, junk).Some?
    ensures var m, j := ListBy(one, merge, os, junk).value, First(os, sets);
            && (asks(m) <==> j < |os|)
            && (j < |os| ==> var v := one(os[j], junk(|os| - 1 - j)); v.Some? && same(m, v.value))
  {
    if |os| == 1 {
      assert os[1..] == [];
    } else {
      FirstWinsBy(one, merge, os[1..], junk, sets, asks, same);
    }
  }

  // ------------------------------------------------------------ reading options: rule set 1

  /** The record of one option, made over whatever the memory held. */
  function One1(o: Opt, junk: Record1): Option<Record1> {
    match o
    case AnyOpt => Some(ZERO1)
    case ProtocolOpt(t) => if ReadInt(t) > 255 then None else Some(junk.(flag := 1, protocol := ReadInt(t)))
    case SourceIp(ip, netmask) =>
      if ReadQuad(ip).None? || ReadQuad(netmask).None? then None
      else Some(junk.(flag := 2, sourceip := ReadQuad(ip).value, sourceipMask := ReadQuad(netmask).value))
    case DestIp(ip, netmask) =>
      if ReadQuad(ip).None? || ReadQuad(netmask).None? then None
      else Some(junk.(flag := 4, destip := ReadQuad(ip).value, destipMask := ReadQuad(netmask).value))
    case SourcePort(t) => if ReadInt(t) > 65535 then None else Some(junk.(flag := 8, sourcel4port := ReadInt(t)))
    case DestPort(t) => if ReadInt(t) > 65535 then None else Some(junk.(flag := 16, destl4port := ReadInt(t)))
    case LengthRange(t) => if ReadInt(t) > 15 then None else Some(junk.(flag := 32, pktlenRange := ReadInt(t)))
    case OffsetOpt(_) => None
    case KeyOpt(_) => None
  }

  /** An option in front of others: its fields replace theirs, and the flags are united. */
  function Merge1(a: Record1, b: Record1): Record1 {
    Rule1(OrFlags(a.flag, b.flag),
          if Bit0(a.flag) then a.protocol else b.protocol,
          if Bit1(a.flag) then a.sourceip else b.sourceip,
          if Bit1(a.flag) then a.sourceipMask else b.sourceipMask,
          if Bit2(a.flag) then a.destip else b.destip,
          if Bit2(a.flag) then a.destipMask else b.destipMask,
          if Bit3(a.flag) then a.sourcel4port else b.sourcel4port,
          if Bit4(a.flag) then a.destl4port else b.destl4port,
          if Bit5(a.flag) then a.pktlenRange else b.pktlenRange)
  }

  function List1(os: seq<Opt>, junk: nat -> Record1): Option<Record1> {
    ListBy(One1, Merge1, os, junk)
  }

  /** The copy the command makes into a cleared record: flagged fields only. */
  function Install1(m: Record1): Record1 {
    Rule1(m.flag,
          if Bit0(m.flag) then m.protocol else 0,
          if Bit1(m.flag) then m.sourceip else 0,
          if Bit1(m.flag) then m.sourceipMask else 0,
          if Bit2(m.flag) then m.destip else 0,
          if Bit2(m.flag) then m.destipMask else 0,
          if Bit3(m.flag) then m.sourcel4port else 0,
          if Bit4(m.flag) then m.destl4port else 0,
          if Bit5(m.flag) then m.pktlenRange else 0)
  }

  // ------------------------------------------------------------ printing: rule set 1

  /** The option printed for flag bit `k`. */
  function Opt1(r: Record1, k: nat): Opt {
    match k
    case 0 => ProtocolOpt(Decimal(r.protocol))
    case 1 => SourceIp(QuadText(r.sourceip), QuadText(r.sourceipMask))
    case 2 => DestIp(QuadText(r.destip), QuadText(r.destipMask))
    case 3 => SourcePort(Decimal(r.sourcel4port))
    case 4 => DestPort(Decimal(r.destl4port))
    case _ => LengthRange(Decimal(r.pktlenRange))
  }

  function OptsFrom1(r: Record1, k: nat): seq<Opt>
    requires k <= 6
    decreases 6 - k
  {
    if k == 6 then [] else (if Bit(r.flag, k) then [Opt1(r, k)] else []) + OptsFrom1(r, k + 1)
  }

  // ------------------------------------------------------------ rule set 1 there and back

  /** The value fields behind flag bit `k` agree. */
  predicate SameField1(m: Record1, r: Record1, k: nat) {
    match k
    case 0 => m.protocol == r.protocol
    case 1 => m.sourceip == r.sourceip && m.sourceipMask == r.sourceipMask
    case 2 => m.destip == r.destip && m.destipMask == r.destipMask
    case 3 => m.sourcel4port == r.sourcel4port
    case 4 => m.destl4port == r.destl4port
    case _ => m.pktlenRange == r.pktlenRange
  }

  /** `m` has just the flagged fields of `r` from bit `from` on. */
  ghost predicate Carries1(m: Record1, r: Record1, from: nat) {
    && m.flag < 64
    && forall k {:trigger Bit(m.flag, k)} {:trigger SameField1(m, r, k)} | 0 <= k < 6 ::
         (Bit(m.flag, k) <==> k >= from && Bit(r.flag, k)) && (Bit(m.flag, k) ==> SameField1(m, r, k))
  }

  lemma OneCarries(r: Record1, k: nat, junk: Record1)
    requires k < 6 && r.pktlenRange < 16
    ensures var m := One1(Opt1(r, k), junk); m.Some? && m.value.flag == OneBit(k) && SameField1(m.value, r, k)
  {
    if k == 0 {
      ReadPrinted(r.protocol);
    } else if k == 1 {
      ReadPrintedQuad(r.sourceip);
      ReadPrintedQuad(r.sourceipMask);
    } else if k == 2 {
      ReadPrintedQuad(r.destip);
      ReadPrintedQuad(r.destipMask);
    } else if k == 3 {
      ReadPrinted(r.sourcel4port);
    } else if k == 4 {
      ReadPrinted(r.destl4port);
    } else {
      ReadPrinted(r.pktlenRange);
    }
  }

  lemma MergeField(a: Record1, b: Record1, k: nat)
    requires k < 6
    ensures SameField1(Merge1(a, b), if Bit(a.flag, k) then a else b, k)
  {
  }

  lemma {:induction false} NothingFlagged(r: Record1, from: nat)
    requires from <= 6 && OptsFrom1(r, from) == []
    ensures forall k | from <= k < 6 :: !Bit(r.flag, k)
    decreases 6 - from
  {
    if from < 6 {
      NothingFlagged(r, from + 1);
    }
  }

  lemma MergeCarries(a: Record1, b: Record1, r: Record1, from: nat)
    requires from < 6 && Bit(r.flag, from)
    requires a.flag == OneBit(from) && SameField1(a, r, from)
    requires Carries1(b, r, from + 1)
    ensures Carries1(Merge1(a, b), r, from)
  {
    var m := Merge1(a, b);
    forall k {:trigger Bit(m.flag, k)} | 0 <= k < 6
      ensures (Bit(m.flag, k) <==> k >= from && Bit(r.flag, k)) && (Bit(m.flag, k) ==> SameField1(m, r, k))
    {
      MergeField(a, b, k);
      OrBits(a.flag, b.flag, k);
      OneBitBits(from, k);
      assert Bit(b.flag, k) <==> k >= from + 1 && Bit(r.flag, k);
    }
  }

  lemma AloneCarries(a: Record1, r: Record1, from: nat)
    requires from < 6 && Bit(r.flag, from) && (forall k | from < k < 6 :: !Bit(r.flag, k))
    requires a.flag == OneBit(from) && SameField1(a, r, from)
    ensures Carries1(a, r, from)
  {
    forall k {:trigger Bit(a.flag, k)} | 0 <= k < 6
      ensures (Bit(a.flag, k) <==> k >= from && Bit(r.flag, k)) && (Bit(a.flag, k) ==> SameField1(a, r, k))
    {
      OneBitBits(from, k);
    }
  }

  /** An option printed in front of others that already read back as they should. */
  lemma OptionInFront(r: Record1, from: nat, rest: seq<Opt>, junk: nat -> Record1)
    requires from < 6 && r.pktlenRange < 16 && Bit(r.flag, from)
    requires if rest == [] then forall k | from < k < 6 :: !Bit(r.flag, k)
             else List1(rest, junk).Some? && Carries1(List1(rest, junk).value, r, from + 1)
    ensures var m := List1([Opt1(r, from)] + rest, junk); m.Some? && Carries1(m.value, r, from)
  {
    var o := Opt1(r, from);
    OneCarries(r, from, junk(|rest|));
    ListCons(One1, Merge1, o, rest, junk);
    if rest == [] {
      AloneCarries(One1(o, junk(0)).value, r, from);
    } else {
      MergeCarries(One1(o, junk(|rest|)).value, List1(rest, junk).value, r, from);
    }
  }

  /** The printed options read back as the flagged fields, whatever the memory held. */
  lemma {:induction false} PrintedCarries(r: Record1, from: nat, junk: nat -> Record1)
    requires from <= 6 && r.pktlenRange < 16 && OptsFrom1(r, from) != []
    ensures var m := List1(OptsFrom1(r, from), junk); m.Some? && Carries1(m.value, r, from)
    decreases 6 - from
  {
    var rest := OptsFrom1(r, from + 1);
    if rest == [] {
      NothingFlagged(r, from + 1);
    } else {
      PrintedCarries(r, from + 1, junk);
    }
    if Bit(r.flag, from) {
      OptionInFront(r, from, rest, junk);
    } else {
      assert OptsFrom1(r, from) == rest;
    }
  }

  /** What the parser makes: unflagged fields are zero, and values are in the grammar's range. */
  predicate Made1(r: Record1) {
    r.flag < 64 && r.pktlenRange < 16 && Install1(r) == r
  }

  lemma InstallCarried(m: Record1, r: Record1)
    requires Carries1(m, r, 0) && Made1(r)
    ensures Install1(m) == r
  {
    assert forall k | 0 <= k < 6 :: Bit(m.flag, k) <==> Bit(r.flag, k);
    SameBitsSameFlag(m.flag, r.flag);
    assert Bit(m.flag, 0) ==> SameField1(m, r, 0);
    assert Bit(m.flag, 1) ==> SameField1(m, r, 1);
    assert Bit(m.flag, 2) ==> SameField1(m, r, 2);
    assert Bit(m.flag, 3) ==> SameField1(m, r, 3);
    assert Bit(m.flag, 4) ==> SameField1(m, r, 4);
    assert Bit(m.flag, 5) ==> SameField1(m, r, 5);
  }

  /** The flag bit an option of the first set stands for; 6 for one that sets none. */
  function BitOf(o: Opt): nat {
    match o
    case ProtocolOpt(_) => 0
    case SourceIp(_, _) => 1
    case DestIp(_, _) => 2
    case SourcePort(_) => 3
    case DestPort(_) => 4
    case LengthRange(_) => 5
    case _ => 6
  }

  lemma OneSets(o: Opt, junk: Record1, k: nat)
    requires One1(o, junk).Some? && k < 6
    ensures Bit(One1(o, junk).value.flag, k) <==> BitOf(o) == k
  {
    OneBitBits(if BitOf(o) < 6 then BitOf(o) else 0, k);
  }

  function Sets(k: nat): Opt -> bool {
    o => BitOf(o) == k
  }

  function Asks(k: nat): Record1 -> bool {
    (m: Record1) => Bit(m.flag, k)
  }

  function Same(k: nat): (Record1, Record1) -> bool {
    (m: Record1, r: Record1) => SameField1(m, r, k)
  }

  lemma FieldsMerge(k: nat)
    requires k < 6
    ensures MergesField(Merge1, Asks(k), Same(k))
  {
    forall a: Record1, b: Record1 ensures Asks(k)(Merge1(a, b)) <==> Asks(k)(a) || Asks(k)(b) {
      OrBits(a.flag, b.flag, k);
    }
    forall a: Record1, b: Record1, v: Record1 | Same(k)(if Asks(k)(a) then a else b, v)
      ensures Same(k)(Merge1(a, b), v)
    {
      MergeField(a, b, k);
    }
  }

  /** A list of the first set's options asks for a field exactly when one of them sets it, and
      the first of them wins. */
  lemma FirstOptionWins(os: seq<Opt>, junk: nat -> Record1, k: nat)
    requires List1(os, junk).Some? && k < 6
    ensures var m, j := List1(os, junk).value, First(os, Sets(k));
            && (Bit(m.flag, k) <==> j < |os|)
            && (j < |os| ==> var v := One1(os[j], junk(|os| - 1 - j)); v.Some? && SameField1(m, v.value, k))
  {
    forall o, r: Record1 | One1(o, r).Some? ensures Asks(k)(One1(o, r).value) <==> Sets(k)(o) {
      OneSets(o, r, k);
    }
    FieldsMerge(k);
    FirstWinsBy(One1, Merge1, os, junk, Sets(k), Asks(k), Same(k));
    assert Asks(k)(List1(os, junk).value) <==> Bit(List1(os, junk).value.flag, k);
  }

  function Print1(r: Record1): seq<Opt> {
    if r.flag == 0 then [AnyOpt] else OptsFrom1(r, 0)
  }

  /** Printing a rule of the first set and reading it back gives the rule. */
  lemma RoundTrip1(r: Record1, junk: nat -> Record1)
    requires Made1(r)
    ensures var m := List1(Print1(r), junk); m.Some? && Install1(m.value) == r
  {
    if r.flag != 0 {
      if OptsFrom1(r, 0) == [] {
        NothingFlagged(r, 0);
        assert forall k | 0 <= k < 6 :: Bit(r.flag, k) <==> Bit(0, k);
        SameBitsSameFlag(r.flag, 0);
      }
      PrintedCarries(r, 0, junk);
      InstallCarried(List1(OptsFrom1(r, 0), junk).value, r);
    }
  }

  predicate InRange1(m: Record1) {
    m.flag < 64 && (Bit5(m.flag) ==> m.pktlenRange < 16)
  }

  lemma ListMakes1(os: seq<Opt>, junk: nat -> Record1)
    requires List1(os, junk).Some?
    ensures InRange1(List1(os, junk).value) && Made1(Install1(List1(os, junk).value))
  {
    forall a, b | InRange1(a) && InRange1(b) ensures InRange1(Merge1(a, b)) {
      OrBits(a.flag, b.flag, 5);
    }
    ListKeeps(One1, Merge1, os, junk, InRange1);
  }

  // ------------------------------------------------------------ rule set 2

  function One2(o: Opt, junk: Record2): Option<Record2> {
    match o
    case AnyOpt => Some(ZERO2)
    case OffsetOpt(t) => if ReadInt(t) > 19 then None else Some(junk.(flag := 1, offset := ReadInt(t)))
    case KeyOpt(t) =>
      if ReadKey(t).None? then None else Some(junk.(flag := 2, key := ReadKey(t).value.0, mask := ReadKey(t).value.1))
    case _ => None
  }

  function Merge2(a: Record2, b: Record2): Record2 {
    Rule2(OrFlags(a.flag, b.flag),
          if Bit0(a.flag) then a.offset else b.offset,
          if Bit1(a.flag) then a.key else b.key,
          if Bit1(a.flag) then a.mask else b.mask)
  }

  function List2(os: seq<Opt>, junk: nat -> Record2): Option<Record2> {
    ListBy(One2, Merge2, os, junk)
  }

  function Install2(m: Record2): Record2 {
    Rule2(m.flag,
          if Bit0(m.flag) then m.offset else 0,
          if Bit1(m.flag) then m.key else ZERO2.key,
          if Bit1(m.flag) then m.mask else ZERO2.mask)
  }

  /** The printed options: an offset of zero is left out even when it was asked for. */
  function Print2(r: Record2): seq<Opt> {
    (if Bit0(r.flag) && r.offset != 0 then [OffsetOpt(Decimal(r.offset))] else [])
    + (if Bit1(r.flag) && |r.key| == |r.mask| then [KeyOpt(KeyText(r.key, r.mask))] else [])
    + (if r.flag == 0 then [AnyOpt] else [])
  }

  ghost predicate InRange2(m: Record2) {
    && m.flag < 4
    && (Bit0(m.flag) ==> m.offset <= 19)
    && (Bit1(m.flag) ==> exists bytes :: KeyShape(m.key, m.mask, bytes))
  }

  ghost predicate Made2(r: Record2) {
    InRange2(r) && Install2(r) == r
  }

  lemma OrFour(a: Short, b: Short)
    requires a < 4 && b < 4
    ensures OrFlags(a, b) < 4
    ensures Bit0(OrFlags(a, b)) <==> Bit0(a) || Bit0(b)
    ensures Bit1(OrFlags(a, b)) <==> Bit1(a) || Bit1(b)
  {
    OrBits(a, b, 0);
    OrBits(a, b, 1);
    assert !EitherBit(a, b)(2) && !EitherBit(a, b)(3) && !EitherBit(a, b)(4) && !EitherBit(a, b)(5);
  }

  lemma OneInRange2(o: Opt, junk: Record2)
    requires One2(o, junk).Some?
    ensures InRange2(One2(o, junk).value)
  {
    if o.KeyOpt? {
      ByteRange(o.text);
      assert KeyShape(ReadKey(o.text).value.0, ReadKey(o.text).value.1, KeyBytes(o.text).value);
    }
  }

  lemma ListMakes2(os: seq<Opt>, junk: nat -> Record2)
    requires List2(os, junk).Some?
    ensures InRange2(List2(os, junk).value) && Made2(Install2(List2(os, junk).value))
  {
    forall o, r: Record2 | One2(o, r).Some? ensures InRange2(One2(o, r).value) {
      OneInRange2(o, r);
    }
    forall a, b | InRange2(a) && InRange2(b) ensures InRange2(Merge2(a, b)) {
      OrFour(a.flag, b.flag);
    }
    ListKeeps(One2, Merge2, os, junk, InRange2);
  }

  /** A rule that asks for offset zero. */
  predicate AsksForZero(r: Rule) {
    r.Rule2? && Bit0(r.flag) && r.offset == 0
  }

  lemma PrintedOffset(r: Record2, junk: Record2)
    requires Made2(r) && Bit0(r.flag)
    ensures One2(OffsetOpt(Decimal(r.offset)), junk) == Some(junk.(flag := 1, offset := r.offset))
  {
    ReadPrinted(r.offset);
  }

  lemma PrintedKey(r: Record2, junk: Record2)
    requires Made2(r) && Bit1(r.flag)
    ensures |r.key| == |r.mask|
    ensures One2(KeyOpt(KeyText(r.key, r.mask)), junk) == Some(junk.(flag := 2, key := r.key, mask := r.mask))
  {
    var bytes :| KeyShape(r.key, r.mask, bytes);
    ReadPrintedKey(r.key, r.mask, bytes);
  }

  lemma OneOption(o: Opt, junk: nat -> Record2)
    ensures List2([o], junk) == One2(o, junk(0))
  {
    assert [o] + [] == [o];
    ListCons(One2, Merge2, o, [], junk);
  }

  lemma KeyAlone(r: Record2, junk: nat -> Record2)
    requires Made2(r) && Bit1(r.flag) && !(Bit0(r.flag) && r.offset != 0)
    ensures List2(Print2(r), junk) == Some(junk(0).(flag := 2, key := r.key, mask := r.mask))
  {
    var k := KeyOpt(KeyText(r.key, r.mask));
    PrintedKey(r, junk(0));
    OneOption(k, junk);
    assert Print2(r) == [k];
  }

  lemma OffsetAlone(r: Record2, junk: nat -> Record2)
    requires Made2(r) && !Bit1(r.flag) && Bit0(r.flag) && r.offset != 0
    ensures List2(Print2(r), junk) == Some(junk(0).(flag := 1, offset := r.offset))
  {
    var o := OffsetOpt(Decimal(r.offset));
    PrintedOffset(r, junk(0));
    OneOption(o, junk);
    assert Print2(r) == [o];
  }

  lemma TwoOptions(o: Opt, k: Opt, junk: nat -> Record2)
    ensures List2([o, k], junk) == Both(Merge2, One2(o, junk(1)), One2(k, junk(0)))
  {
    assert [o] + [k] == [o, k] && [k] + [] == [k];
    ListCons(One2, Merge2, o, [k], junk);
    ListCons(One2, Merge2, k, [], junk);
  }

  /** Merging an offset in front of a key keeps both. */
  lemma MergeBoth(o: Record2, k: Record2)
    requires o.flag == 1 && k.flag == 2
    ensures var m := Merge2(o, k); m.flag == 3 && m.offset == o.offset && m.key == k.key && m.mask == k.mask
  {
    OrFour(1, 2);
  }

  lemma BothBits(flag: Short)
    requires flag < 4 && Bit0(flag) && Bit1(flag)
    ensures flag == 3
  {
  }

  lemma InstallBoth(r: Record2, m: Record2)
    requires Install2(r) == r && m.flag == r.flag && Bit0(r.flag) && Bit1(r.flag)
    requires m.offset == r.offset && m.key == r.key && m.mask == r.mask
    ensures Install2(m) == r
  {
  }

  lemma PrintBoth(r: Record2, o: Opt, k: Opt)
    requires Bit0(r.flag) && Bit1(r.flag) && r.flag != 0 && r.offset != 0 && |r.key| == |r.mask|
    requires o == OffsetOpt(Decimal(r.offset)) && k == KeyOpt(KeyText(r.key, r.mask))
    ensures Print2(r) == [o, k]
  {
  }

  lemma BothOptions(r: Record2, junk: nat -> Record2)
    requires Made2(r) && Bit0(r.flag) && Bit1(r.flag) && r.offset != 0
    ensures var m := List2(Print2(r), junk); m.Some? && Install2(m.value) == r
  {
    PrintedOffset(r, junk(1));
    PrintedKey(r, junk(0));
    BothBits(r.flag);
    var o, k := OffsetOpt(Decimal(r.offset)), KeyOpt(KeyText(r.key, r.mask));
    PrintBoth(r, o, k);
    TwoOptions(o, k, junk);
    var first, second := junk(1).(flag := 1, offset := r.offset), junk(0).(flag := 2, key := r.key, mask := r.mask);
    MergeBoth(first, second);
    assert List2([o, k], junk) == Some(Merge2(first, second));
    InstallBoth(r, Merge2(first, second));
  }

  /** Printing a rule of the second set and reading it back gives the rule exactly when it does
      not ask for offset zero. */
  lemma RoundTrip2(r: Record2, junk: nat -> Record2)
    requires Made2(r)
    ensures var m := List2(Print2(r), junk); (m.Some? && Install2(m.value) == r) <==> !AsksForZero(r)
  {
    var m := List2(Print2(r), junk);
    if Bit0(r.flag) && r.offset != 0 {
      if Bit1(r.flag) {
        BothOptions(r, junk);
      } else {
        OffsetAlone(r, junk);
        InstallOffset(r, m.value);
      }
    } else if Bit1(r.flag) {
      KeyAlone(r, junk);
      InstallKey(r, m.value);
    } else if r.flag == 0 {
      assert Print2(r) == [AnyOpt];
    } else {
      assert Print2(r) == [];
    }
  }

  lemma InstallOffset(r: Record2, m: Record2)
    requires Made2(r) && Bit0(r.flag) && !Bit1(r.flag) && m.flag == 1 && m.offset == r.offset
    ensures Install2(m) == r
  {
  }

  lemma InstallKey(r: Record2, m: Record2)
    requires Made2(r) && Bit1(r.flag) && (Bit0(r.flag) ==> r.offset == 0)
    requires m.flag == 2 && m.key == r.key && m.mask == r.mask
    ensures Install2(m) == r <==> !Bit0(r.flag)
  {
  }

  // ------------------------------------------------------------ lines of both sets

  /** What the memory held before each option record was made. */
  datatype Memory = Memory(of1: nat -> Record1, of2: nat -> Record2)

  function PrintRule(r: Rule): seq<Opt> {
    if r.Rule1? then Print1(r) else Print2(r)
  }

  function ReadRule(s: RuleSet, os: seq<Opt>, mem: Memory): Option<Rule> {
    if s.Set1? then
      var m := List1(os, mem.of1);
      if m.None? then None else Some(Install1(m.value))
    else
      var m := List2(os, mem.of2);
      if m.None? then None else Some(Install2(m.value))
  }

  ghost predicate Made(r: Rule) {
    if r.Rule1? then Made1(r) else Made2(r)
  }

  /** Every rule the parser hands on is of the form the round trip needs. */
  lemma ReadRuleMakes(s: RuleSet, os: seq<Opt>, mem: Memory)
    ensures var r := ReadRule(s, os, mem); r.Some? ==> SetOf(r.value) == s && Made(r.value)
  {
    if ReadRule(s, os, mem).Some? {
      if s.Set1? {
        ListMakes1(os, mem.of1);
      } else {
        ListMakes2(os, mem.of2);
      }
    }
  }

  lemma RuleRoundTrip(r: Rule, mem: Memory)
    requires Made(r)
    ensures ReadRule(SetOf(r), PrintRule(r), mem) == Some(r) <==> !AsksForZero(r)
  {
    if r.Rule1? {
      RoundTrip1(r, mem.of1);
    } else {
      RoundTrip2(r, mem.of2);
    }
  }
}
