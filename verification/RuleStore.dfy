/** Filter rules on string keys: the set, get, delete and count functions of cli/database.c
    and the set, clear and reset operations of cli/parserops.c, for both rule sets.

    `rules` is the table of rules the keys stand for.  A rule key may be left behind when a
    rule is overwritten by one with fewer flags; `Represents` says nothing about such keys,
    and no operation ever sees them. */
module RuleStore {
  import opened Basics
  import opened KeyNames
  import opened ConfigStore

  /** `rule1options_t` and `rule2options_t` without the rule number. */
  datatype Rule =
    | Rule1(flag: Short, protocol: Byte, sourceip: Word, sourceipMask: Word, destip: Word, destipMask: Word,
            sourcel4port: Short, destl4port: Short, pktlenRange: Short)
    | Rule2(flag: Short, offset: Byte, key: seq<nat>, mask: seq<nat>)

  datatype RuleId = RuleId(rules: RuleSet, oc: nat, id: Short) {
    function KeyOf(f: Field): DbKey {
      RuleField(rules, oc, id, f)
    }
  }

  predicate Bit0(flag: Short) { flag % 2 == 1 }
  predicate Bit1(flag: Short) { flag / 2 % 2 == 1 }
  predicate Bit2(flag: Short) { flag / 4 % 2 == 1 }
  predicate Bit3(flag: Short) { flag / 8 % 2 == 1 }
  predicate Bit4(flag: Short) { flag / 16 % 2 == 1 }
  predicate Bit5(flag: Short) { flag / 32 % 2 == 1 }

  /** Whether a flag word asks for a field: the RULE_OPT bits of each rule set. */
  predicate FlaggedBy(s: RuleSet, flag: Short, f: Field) {
    match f
    case Flag => true
    case Protocol => s.Set1? && Bit0(flag)
    case Srcip | SrcipMask => s.Set1? && Bit1(flag)
    case Dstip | DstipMask => s.Set1? && Bit2(flag)
    case Srcl4port => s.Set1? && Bit3(flag)
    case Dstl4port => s.Set1? && Bit4(flag)
    case PacketlenRange => s.Set1? && Bit5(flag)
    case Offset => s.Set2? && Bit0(flag)
    case Key | Mask => s.Set2? && Bit1(flag)
  }

  function SetOf(r: Rule): RuleSet {
    if r.Rule1? then Set1 else Set2
  }

  predicate Flagged(r: Rule, f: Field) {
    FlaggedBy(SetOf(r), r.flag, f)
  }

  function FieldValue(r: Rule, f: Field): Value
    requires Flagged(r, f)
  {
    match f
    case Flag => Ul(r.flag)
    case Protocol => Ul(r.protocol)
    case Srcip => Ul(r.sourceip)
    case SrcipMask => Ul(r.sourceipMask)
    case Dstip => Ul(r.destip)
    case DstipMask => Ul(r.destipMask)
    case Srcl4port => Ul(r.sourcel4port)
    case Dstl4port => Ul(r.destl4port)
    case PacketlenRange => Ul(r.pktlenRange)
    case Offset => Ul(r.offset)
    case Key => Blob(r.key)
    case Mask => Blob(r.mask)
  }

  /** The order in which the fields of a rule are dealt with. */
  function Rank(f: Field): nat {
    match f
    case Flag => 0
    case Protocol | Offset => 1
    case Srcip | Key => 2
    case SrcipMask | Mask => 3
    case Dstip => 4
    case DstipMask => 5
    case Srcl4port => 6
    case Dstl4port => 7
    case PacketlenRange => 8
  }

  // ------------------------------------------------------------ what the keys stand for

  ghost predicate Represents(view: map<DbKey, Value>, rules: map<RuleId, Rule>) {
    && (forall i: RuleId :: i in rules <==> RuleField(i.rules, i.oc, i.id, Flag) in view)
    && (forall i: RuleId | i in rules :: SetOf(rules[i]) == i.rules)
    && (forall i: RuleId, f | i in rules && Flagged(rules[i], f) ::
          RuleField(i.rules, i.oc, i.id, f) in view
          && view[RuleField(i.rules, i.oc, i.id, f)] == FieldValue(rules[i], f))
  }

  /** `v` is `v0` with the flagged fields of rule `r` written under number `i`. */
  ghost predicate Wrote(v0: map<DbKey, Value>, v: map<DbKey, Value>, i: RuleId, r: Rule) {
    && (forall f | Flagged(r, f) :: i.KeyOf(f) in v && v[i.KeyOf(f)] == FieldValue(r, f))
    && (forall k: DbKey | !(k.RuleField? && k == i.KeyOf(k.field)) ::
          (k in v <==> k in v0) && (k in v ==> v[k] == v0[k]))
  }

  /** The fields before rank `next` have been written, if flagged. */
  ghost predicate Writing(v0: map<DbKey, Value>, v: map<DbKey, Value>, i: RuleId, r: Rule, next: nat) {
    && (forall f | Rank(f) < next && Flagged(r, f) :: i.KeyOf(f) in v && v[i.KeyOf(f)] == FieldValue(r, f))
    && (forall k: DbKey | !(k.RuleField? && k == i.KeyOf(k.field)) ::
          (k in v <==> k in v0) && (k in v ==> v[k] == v0[k]))
  }

  lemma WrittenAll(v0: map<DbKey, Value>, v: map<DbKey, Value>, i: RuleId, r: Rule, last: nat)
    requires Writing(v0, v, i, r, last) && last == if r.Rule1? then 9 else 4
    ensures Wrote(v0, v, i, r)
  {
    assert forall f | Flagged(r, f) :: Rank(f) < last;
  }

  lemma WroteRepresents(v0: map<DbKey, Value>, v: map<DbKey, Value>, rules: map<RuleId, Rule>, i: RuleId, r: Rule)
    requires Represents(v0, rules) && Wrote(v0, v, i, r) && SetOf(r) == i.rules
    ensures Represents(v, rules[i := r])
  {
    forall j: RuleId ensures j in rules[i := r] <==> j.KeyOf(Flag) in v {
      assert Flagged(r, Flag);
      assert j != i ==> (j in rules <==> j.KeyOf(Flag) in v0);
    }
  }

  class Database {
    const store: Store
    ghost var rules: map<RuleId, Rule>

    ghost predicate Valid()
      reads this, store
    {
      store.Valid() && Represents(store.view, rules)
    }

    /** A handle on an empty store. */
    constructor ()
      ensures Valid() && fresh(store) && rules == map[] && store.view == map[]
    {
      store := new Store();
      rules := map[];
    }

    /** `db_set_filter1_rule` and `db_set_filter2_rule`. */
    method SetFilterRule(i: RuleId, r: Rule)
      requires Valid() && SetOf(r) == i.rules
      modifies this, store
      ensures Valid() && rules == old(rules)[i := r]
      ensures SameOthers(old(store.view), store.view)
    {
      ghost var v0 := store.view;
      InsertFields(i, r);
      WroteRepresents(v0, store.view, rules, i, r);
      rules := rules[i := r];
    }

    method InsertFields(i: RuleId, r: Rule)
      requires store.Valid() && SetOf(r) == i.rules
      modifies store
      ensures store.Valid() && Wrote(old(store.view), store.view, i, r)
    {
      ghost var v0 := store.view;
      InsertFlagged(i, r, Flag, v0);
      if r.Rule1? {
        InsertAddresses(i, r, v0);
        InsertPorts(i, r, v0);
        WrittenAll(v0, store.view, i, r, 9);
      } else {
        InsertKey(i, r, v0);
        WrittenAll(v0, store.view, i, r, 4);
      }
    }

    method InsertKey(i: RuleId, r: Rule, ghost v0: map<DbKey, Value>)
      requires store.Valid() && r.Rule2? && Writing(v0, store.view, i, r, 1)
      modifies store
      ensures store.Valid() && Writing(v0, store.view, i, r, 4)
    {
      InsertFlagged(i, r, Offset, v0);
      InsertFlagged(i, r, Key, v0);
      InsertFlagged(i, r, Mask, v0);
    }

    /** `if (opts->flag & ...) insert`. */
    method InsertFlagged(i: RuleId, r: Rule, f: Field, ghost v0: map<DbKey, Value>)
      requires store.Valid() && Writing(v0, store.view, i, r, Rank(f))
      requires FlaggedBy(SetOf(r), 0x3f, f)
      modifies store
      ensures store.Valid() && Writing(v0, store.view, i, r, Rank(f) + 1)
    {
      if Flagged(r, f) {
        store.Insert(i.KeyOf(f), FieldValue(r, f));
      }
    }

    method InsertAddresses(i: RuleId, r: Rule, ghost v0: map<DbKey, Value>)
      requires store.Valid() && r.Rule1? && Writing(v0, store.view, i, r, 1)
      modifies store
      ensures store.Valid() && Writing(v0, store.view, i, r, 6)
    {
      InsertFlagged(i, r, Protocol, v0);
      InsertFlagged(i, r, Srcip, v0);
      InsertFlagged(i, r, SrcipMask, v0);
      InsertFlagged(i, r, Dstip, v0);
      InsertFlagged(i, r, DstipMask, v0);
    }

    method InsertPorts(i: RuleId, r: Rule, ghost v0: map<DbKey, Value>)
      requires store.Valid() && r.Rule1? && Writing(v0, store.view, i, r, 6)
      modifies store
      ensures store.Valid() && Writing(v0, store.view, i, r, 9)
    {
      InsertFlagged(i, r, Srcl4port, v0);
      InsertFlagged(i, r, Dstl4port, v0);
      InsertFlagged(i, r, PacketlenRange, v0);
    }

    /** `if (opts->flag & ...) get`, with the cast to the field's type; `ok` is false when
        the key is missing. */
    method FetchFlagged(i: RuleId, before: Rule, f: Field) returns (ok: bool, after: Rule)
      requires Valid() && SetOf(before) == i.rules && f != Flag
      requires i in rules && before.flag == rules[i].flag
      modifies store`keyBuf
      ensures Valid() && ok
      ensures after == Fetched(before, rules[i], f)
    {
      ok, after := true, before;
      if Flagged(before, f) {
        var v := store.Find(i.KeyOf(f));
        if v.None? {
          return false, before;
        }
        after := WithField(before, f, v.value);
      }
    }

    /** `db_get_filter1_rule` and `db_get_filter2_rule`: fields not flagged keep what the
        caller's record held. */
    method GetFilterRule(i: RuleId, opts: Rule) returns (r: int, out: Rule)
      requires Valid() && SetOf(opts) == i.rules
      modifies store`keyBuf
      ensures Valid()
      ensures r == if i in rules then 0 else -1
      ensures i in rules ==> out == Seen(opts, rules[i])
    {
      out := opts;
      var flag := store.Find(i.KeyOf(Flag));
      if flag.None? {
        return -1, out;
      }
      out := WithField(out, Flag, flag.value);
      if out.Rule1? {
        Read1IsSeen(out, rules[i]);
        out := FetchFields1(i, out);
      } else {
        Read2IsSeen(out, rules[i]);
        out := FetchFields2(i, out);
      }
      r := 0;
    }

    method FetchFields1(i: RuleId, before: Rule) returns (out: Rule)
      requires Valid() && i in rules && i.rules.Set1? && before.Rule1? && before.flag == rules[i].flag
      modifies store`keyBuf
      ensures Valid() && out == Read1(before, rules[i])
    {
      var ok;
      ok, out := FetchFlagged(i, before, Protocol);
      ok, out := FetchFlagged(i, out, Srcip);
      ok, out := FetchFlagged(i, out, SrcipMask);
      ok, out := FetchFlagged(i, out, Dstip);
      ok, out := FetchFlagged(i, out, DstipMask);
      ok, out := FetchFlagged(i, out, Srcl4port);
      ok, out := FetchFlagged(i, out, Dstl4port);
      ok, out := FetchFlagged(i, out, PacketlenRange);
    }

    method FetchFields2(i: RuleId, before: Rule) returns (out: Rule)
      requires Valid() && i in rules && i.rules.Set2? && before.Rule2? && before.flag == rules[i].flag
      modifies store`keyBuf
      ensures Valid() && out == Read2(before, rules[i])
    {
      var ok;
      ok, out := FetchFlagged(i, before, Offset);
      ok, out := FetchFlagged(i, out, Key);
      ok, out := FetchFlagged(i, out, Mask);
    }

    /** `if (result & ...) delete`; `ok` is false when the key is missing. */
    method DeleteFlagged(i: RuleId, flag: Short, f: Field, ghost v0: map<DbKey, Value>) returns (ok: bool)
      requires store.Valid() && Erasing(v0, store.view, i, flag, Rank(f))
      modifies store
      ensures store.Valid() && ok && Erasing(v0, store.view, i, flag, Rank(f) + 1)
    {
      ok := true;
      if FlaggedBy(i.rules, flag, f) {
        var r := store.Delete(i.KeyOf(f));
        ok := r >= 0;
      }
    }

    /** `db_delete_filter1_rule` and `db_delete_filter2_rule`; -1 when a flagged key is missing. */
    method DeleteFilterRule(i: RuleId) returns (r: int)
      requires Valid()
      modifies this, store
      ensures Valid() && r == 0 && rules == old(rules) - {i}
      ensures SameOthers(old(store.view), store.view)
    {
      var found := store.Exists(i.KeyOf(Flag));
      if found != 0 {
        var result := store.Find(i.KeyOf(Flag));
        ErasedRepresents(store.view, rules, i);
        assert Flagged(rules[i], Flag);
        DeleteFields(i, result.value.n);
        rules := rules - {i};
      } else {
        assert rules == rules - {i};
      }
      r := 0;
    }

    method DeleteFields(i: RuleId, flag: Short)
      requires store.Valid()
      requires forall f | FlaggedBy(i.rules, flag, f) :: i.KeyOf(f) in store.view
      modifies store
      ensures store.Valid() && Erased(old(store.view), store.view, i) && i.KeyOf(Flag) !in store.view
    {
      ghost var v0 := store.view;
      var ok := DeleteFlagged(i, flag, Flag, v0);
      if i.rules.Set1? {
        DeleteAddresses(i, flag, v0);
        DeletePorts(i, flag, v0);
      } else {
        DeleteKey(i, flag, v0);
      }
    }

    method DeleteKey(i: RuleId, flag: Short, ghost v0: map<DbKey, Value>)
      requires store.Valid() && i.rules.Set2? && Erasing(v0, store.view, i, flag, 1)
      modifies store
      ensures store.Valid() && Erasing(v0, store.view, i, flag, 4)
    {
      var ok := DeleteFlagged(i, flag, Offset, v0);
      ok := DeleteFlagged(i, flag, Key, v0);
      ok := DeleteFlagged(i, flag, Mask, v0);
    }

    method DeleteAddresses(i: RuleId, flag: Short, ghost v0: map<DbKey, Value>)
      requires store.Valid() && Erasing(v0, store.view, i, flag, 1)
      modifies store
      ensures store.Valid() && Erasing(v0, store.view, i, flag, 6)
    {
      var ok := DeleteFlagged(i, flag, Protocol, v0);
      ok := DeleteFlagged(i, flag, Srcip, v0);
      ok := DeleteFlagged(i, flag, SrcipMask, v0);
      ok := DeleteFlagged(i, flag, Dstip, v0);
      ok := DeleteFlagged(i, flag, DstipMask, v0);
    }

    method DeletePorts(i: RuleId, flag: Short, ghost v0: map<DbKey, Value>)
      requires store.Valid() && Erasing(v0, store.view, i, flag, 6)
      modifies store
      ensures store.Valid() && Erasing(v0, store.view, i, flag, 9)
    {
      var ok := DeleteFlagged(i, flag, Srcl4port, v0);
      ok := DeleteFlagged(i, flag, Dstl4port, v0);
      ok := DeleteFlagged(i, flag, PacketlenRange, v0);
    }

    // ---------------------------------------------------------- the configuration commands

    /** The stored counts agree with the rules present. */
    ghost predicate Counted()
      reads this, store
    {
      Counts(store.view, rules)
    }

    /** `db_set_filter1_rule_num` and `db_set_filter2_rule_num`. */
    method SetRuleNum(s: RuleSet, oc: nat, n: nat)
      requires Valid()
      modifies store
      ensures Valid() && store.view == old(store.view)[RuleCount(s, oc) := Ul(n)]
    {
      store.Insert(RuleCount(s, oc), Ul(n));
    }

    /** `cli_fpga_set_ruleset1/2` on the database: a new rule is counted, then written. */
    method SetRuleset(i: RuleId, r: Rule) returns (res: int)
      requires Valid() && Counted() && SetOf(r) == i.rules
      modifies this, store
      ensures Valid() && Counted()
      ensures SameCounts(old(store.view), store.view)
      ensures var counted := RuleCount(i.rules, i.oc) in old(store.view);
              res == (if counted then 0 else -1)
              && rules == if counted then old(rules)[i := r] else old(rules)
    {
      ghost var v0, rules0 := store.view, rules;
      OneMore(rules, i, r);
      var found := store.Exists(i.KeyOf(Flag));
      if found == 0 {
        var num := store.Find(RuleCount(i.rules, i.oc));
        if num.None? {
          return -1;
        }
        SetRuleNum(i.rules, i.oc, num.value.n + 1);
        SetFilterRule(i, r);
      } else {
        SetFilterRule(i, r);
      }
      SetCounts(v0, store.view, rules0, i, r);
      res := 0;
    }

    /** `cli_fpga_clear_ruleset1/2` on the database. */
    method ClearRuleset(i: RuleId) returns (res: int)
      requires Valid() && Counted()
      modifies this, store
      ensures Valid() && Counted() && res == 0 && rules == old(rules) - {i}
      ensures SameCounts(old(store.view), store.view)
    {
      var found := store.Exists(i.KeyOf(Flag));
      if found != 0 {
        OneLess(rules, i);
        ghost var v0, rules0 := store.view, rules;
        var num := store.Find(RuleCount(i.rules, i.oc));
        if num.None? {
          return -1;
        }
        SetRuleNum(i.rules, i.oc, num.value.n - 1);
        var r := DeleteFilterRule(i);
        ClearCounts(v0, store.view, rules0, i);
      } else {
        assert rules == rules - {i};
      }
      res := 0;
    }

    /** The body of the reset loop. */
    method ResetOne(i: RuleId) returns (found: bool)
      requires Valid()
      modifies this, store
      ensures Valid() && rules == old(rules) - {i} && found == (i in old(rules))
      ensures SameOthers(old(store.view), store.view)
    {
      var exist := store.Exists(i.KeyOf(Flag));
      found := exist != 0;
      if found {
        var r := DeleteFilterRule(i);
      } else {
        assert rules == rules - {i};
      }
    }

    /** One loop of `db_reset_filter_default_conf`: it runs until as many rules were found as
        the count says, over rule numbers without any bound of its own. */
    method ResetRules(s: RuleSet, oc: nat) returns (res: int)
      requires Valid() && Counted()
      modifies this, store
      ensures Valid() && Counted() && SameCounts(old(store.view), store.view)
      ensures res == if RuleCount(s, oc) in old(store.view) then 0 else -1
      ensures rules == if res == 0 then Cleared(old(rules), s, oc, 0x1_0000) else old(rules)
    {
      var num := store.Find(RuleCount(s, oc));
      if num.None? {
        return -1;
      }
      var number := num.value.n;
      var idMatched, id := 0, 0;
      ghost var v0, rules0 := store.view, rules;
      ResetLoop(s, oc, number);
      ResetCounts(v0, store.view, rules0, rules, s, oc);
      SetRuleNum(s, oc, 0);
      res := 0;
    }

    method ResetLoop(s: RuleSet, oc: nat, number: nat)
      requires Valid() && number == |Numbers(rules, s, oc)|
      modifies this, store
      ensures Valid() && SameOthers(old(store.view), store.view)
      ensures rules == Cleared(old(rules), s, oc, 0x1_0000)
    {
      var idMatched, id := 0, 0;
      ghost var v0, rules0 := store.view, rules;
      assert Cleared(rules0, s, oc, 0) == rules0;
      while idMatched < number
        invariant Valid() && SameOthers(v0, store.view)
        invariant rules == Cleared(rules0, s, oc, id)
        invariant number == idMatched + |Numbers(rules, s, oc)|
        decreases 0x1_0000 - id
      {
        ResetStep(rules0, s, oc, id);
        var found := ResetOne(RuleId(s, oc, id));
        if found {
          idMatched := idMatched + 1;
        }
        id := id + 1;
      }
      NoneLeft(rules0, s, oc, id);
    }

    /** `db_reset_filter_default_conf`. */
    method ResetAllRules() returns (res: int)
      requires Valid() && Counted() && CountsFor(store.view)
      modifies this, store
      ensures Valid() && Counted() && CountsFor(store.view) && res == 0 && rules == map[]
    {
      ghost var rules0 := rules;
      for oc := 0 to MAX_OC_NUM
        invariant Valid() && Counted() && CountsFor(store.view)
        invariant forall i: RuleId | i in rules :: oc <= i.oc
      {
        res := ResetRules(Set1, oc);
        if res < 0 {
          return;
        }
        res := ResetRules(Set2, oc);
        if res < 0 {
          return;
        }
      }
      res := 0;
      assert forall i: RuleId | i in rules :: RuleCount(i.rules, i.oc) in store.view;
      assert rules == map[];
    }

    /** The part of `db_init_config` that creates the rule counts. */
    method InitCounts()
      requires Valid() && rules == map[] && (forall k | k in store.view :: k.Initialized?)
      modifies this, store
      ensures Valid() && Counted() && CountsFor(store.view) && rules == map[]
    {
      for oc := 0 to MAX_OC_NUM
        invariant Valid() && rules == map[] && ZeroCounts(store.view, oc, oc)
      {
        InitCount(Set1, oc, oc, oc);
        InitCount(Set2, oc, oc + 1, oc);
      }
    }

    method InitCount(s: RuleSet, oc: nat, ghost below1: nat, ghost below2: nat)
      requires Valid() && rules == map[] && ZeroCounts(store.view, below1, below2)
      requires oc == if s.Set1? then below1 else below2
      modifies store
      ensures Valid()
      ensures if s.Set1? then ZeroCounts(store.view, below1 + 1, below2) else ZeroCounts(store.view, below1, below2 + 1)
    {
      store.Insert(RuleCount(s, oc), Ul(0));
    }

    /** Any run of rule commands: no command misses a key or a count, and the keys stand for
        the rules a plain table would hold. */
    method Run(ops: seq<RuleOp>)
      requires Valid() && Counted() && CountsFor(store.view)
      modifies this, store
      ensures Valid() && Counted() && CountsFor(store.view)
      ensures rules == After(old(rules), ops)
    {
      assert ops[..|ops|] == ops;
      for n := 0 to |ops|
        invariant Valid() && Counted() && CountsFor(store.view)
        invariant rules == After(old(rules), ops[..n])
      {
        assert ops[..n + 1][..n] == ops[..n];
        RunOne(ops[n]);
      }
    }

    method RunOne(op: RuleOp)
      requires Valid() && Counted() && CountsFor(store.view)
      modifies this, store
      ensures Valid() && Counted() && CountsFor(store.view)
      ensures rules == Apply(old(rules), op)
    {
      match op {
        case SetOp(i, r) =>
          if SetOf(r) == i.rules {
            var res := SetRuleset(i, r);
          }
        case ClearOp(i) =>
          var res := ClearRuleset(i);
        case ResetOp =>
          var res := ResetAllRules();
      }
    }
  }

  /** The counts that exist: one for each rule set and each port below MAX_OC_NUM. */
  ghost predicate CountsFor(view: map<DbKey, Value>) {
    && (forall oc: nat :: RuleCount(Set1, oc) in view <==> oc < MAX_OC_NUM)
    && (forall oc: nat :: RuleCount(Set2, oc) in view <==> oc < MAX_OC_NUM)
  }

  /** The counts that exist so far, all of them zero. */
  ghost predicate ZeroCounts(view: map<DbKey, Value>, below1: nat, below2: nat) {
    && (forall oc: nat :: RuleCount(Set1, oc) in view <==> oc < below1)
    && (forall oc: nat :: RuleCount(Set2, oc) in view <==> oc < below2)
    && (forall k: DbKey | k in view && k.RuleCount? :: view[k] == Ul(0))
  }

  datatype RuleOp = SetOp(i: RuleId, r: Rule) | ClearOp(i: RuleId) | ResetOp

  /** A rule for a port without a count is refused: the grammar admits port MAX_OC_NUM. */
  function Apply(rules: map<RuleId, Rule>, op: RuleOp): map<RuleId, Rule> {
    match op
    case SetOp(i, r) => if SetOf(r) == i.rules && i.oc < MAX_OC_NUM then rules[i := r] else rules
    case ClearOp(i) => rules - {i}
    case ResetOp => map[]
  }

  function After(rules: map<RuleId, Rule>, ops: seq<RuleOp>): map<RuleId, Rule> {
    if ops == [] then rules else Apply(After(rules, ops[..|ops| - 1]), ops[|ops| - 1])
  }

  ghost predicate Counts(view: map<DbKey, Value>, rules: map<RuleId, Rule>) {
    && (forall s, oc | RuleCount(s, oc) in view :: view[RuleCount(s, oc)] == Ul(|Numbers(rules, s, oc)|))
    && (forall i: RuleId | i in rules :: RuleCount(i.rules, i.oc) in view)
  }

  lemma SetCounts(v0: map<DbKey, Value>, v: map<DbKey, Value>, rules: map<RuleId, Rule>, i: RuleId, r: Rule)
    requires Counts(v0, rules) && RuleCount(i.rules, i.oc) in v0
    requires SameOthers(v0[RuleCount(i.rules, i.oc) := Ul(|Numbers(rules[i := r], i.rules, i.oc)|)], v)
    ensures Counts(v, rules[i := r])
  {
    OneMore(rules, i, r);
  }

  lemma ClearCounts(v0: map<DbKey, Value>, v: map<DbKey, Value>, rules: map<RuleId, Rule>, i: RuleId)
    requires Counts(v0, rules) && i in rules
    requires SameOthers(v0[RuleCount(i.rules, i.oc) := Ul(|Numbers(rules - {i}, i.rules, i.oc)|)], v)
    ensures Counts(v, rules - {i})
  {
    OneLess(rules, i);
  }

  lemma ResetCounts(v0: map<DbKey, Value>, v: map<DbKey, Value>, rules0: map<RuleId, Rule>, rules: map<RuleId, Rule>,
                    s: RuleSet, oc: nat)
    requires Counts(v0, rules0) && SameOthers(v0, v) && rules == Cleared(rules0, s, oc, 0x1_0000)
    ensures Counts(v[RuleCount(s, oc) := Ul(0)], rules)
  {
    assert Numbers(rules, s, oc) == {};
    NoneLeft(rules0, s, oc, 0x1_0000);
  }

  /** The rules without those of one set and port whose number is below `id`. */
  function Cleared(rules: map<RuleId, Rule>, s: RuleSet, oc: nat, id: nat): map<RuleId, Rule> {
    map i | i in rules && !(i.rules == s && i.oc == oc && i.id < id) :: rules[i]
  }

  /** While rules are left the number is in range, and clearing it is one round of the loop. */
  lemma ResetStep(rules: map<RuleId, Rule>, s: RuleSet, oc: nat, id: nat)
    requires |Numbers(Cleared(rules, s, oc, id), s, oc)| > 0
    ensures id < 0x1_0000
    ensures var i, left := RuleId(s, oc, id), Cleared(rules, s, oc, id);
            && Cleared(rules, s, oc, id + 1) == left - {i}
            && |Numbers(left, s, oc)| == |Numbers(left - {i}, s, oc)| + if i in left then 1 else 0
  {
    var some :| some in Numbers(Cleared(rules, s, oc, id), s, oc);
    OneLess(Cleared(rules, s, oc, id), RuleId(s, oc, id));
  }

  /** Once no rule of the set is left, the others are exactly the rules of other sets and ports. */
  lemma NoneLeft(rules: map<RuleId, Rule>, s: RuleSet, oc: nat, id: nat)
    requires |Numbers(Cleared(rules, s, oc, id), s, oc)| == 0
    ensures Cleared(rules, s, oc, id) == Cleared(rules, s, oc, 0x1_0000)
    ensures forall s', oc' | s' != s || oc' != oc ::
              Numbers(Cleared(rules, s, oc, id), s', oc') == Numbers(rules, s', oc')
    ensures forall i: RuleId | i in Cleared(rules, s, oc, id) :: i in rules
  {
    forall i: RuleId | i in rules && i.rules == s && i.oc == oc ensures i.id < id {
      assert id <= i.id ==> i in Numbers(Cleared(rules, s, oc, id), s, oc);
    }
  }

  /** No key outside the rule records was touched. */
  ghost predicate SameOthers(v0: map<DbKey, Value>, v: map<DbKey, Value>) {
    forall k: DbKey | !k.RuleField? :: (k in v <==> k in v0) && (k in v ==> v[k] == v0[k])
  }

  /** The rules of one set on one port. */
  function Numbers(rules: map<RuleId, Rule>, s: RuleSet, oc: nat): set<RuleId> {
    set i | i in rules && i.rules == s && i.oc == oc
  }

  ghost predicate SameCounts(v0: map<DbKey, Value>, v: map<DbKey, Value>) {
    forall k: DbKey | !k.RuleField? :: k in v <==> k in v0
  }

  lemma OneMore(rules: map<RuleId, Rule>, i: RuleId, r: Rule)
    ensures forall s, oc | s != i.rules || oc != i.oc :: Numbers(rules[i := r], s, oc) == Numbers(rules, s, oc)
    ensures |Numbers(rules[i := r], i.rules, i.oc)| == |Numbers(rules, i.rules, i.oc)| + if i in rules then 0 else 1
  {
    assert Numbers(rules[i := r], i.rules, i.oc) == Numbers(rules, i.rules, i.oc) + {i};
  }

  lemma OneLess(rules: map<RuleId, Rule>, i: RuleId)
    ensures forall s, oc | s != i.rules || oc != i.oc :: Numbers(rules - {i}, s, oc) == Numbers(rules, s, oc)
    ensures |Numbers(rules, i.rules, i.oc)| == |Numbers(rules - {i}, i.rules, i.oc)| + if i in rules then 1 else 0
  {
    assert Numbers(rules - {i}, i.rules, i.oc) == Numbers(rules, i.rules, i.oc) - {i};
  }

  /** The fields before rank `next` have been dealt with; later flagged ones are still there. */
  ghost predicate Erasing(v0: map<DbKey, Value>, v: map<DbKey, Value>, i: RuleId, flag: Short, next: nat) {
    && Erased(v0, v, i)
    && (forall f | next <= Rank(f) && FlaggedBy(i.rules, flag, f) :: i.KeyOf(f) in v)
    && (next > 0 ==> i.KeyOf(Flag) !in v)
  }

  /** Only keys of rule `i` were removed, and nothing was changed. */
  ghost predicate Erased(v0: map<DbKey, Value>, v: map<DbKey, Value>, i: RuleId) {
    && (forall k | k in v :: k in v0 && v[k] == v0[k])
    && (forall k: DbKey | k in v0 && !(k.RuleField? && k == i.KeyOf(k.field)) :: k in v)
  }

  lemma ErasedRepresents(v0: map<DbKey, Value>, rules: map<RuleId, Rule>, i: RuleId)
    requires Represents(v0, rules)
    ensures forall v | Erased(v0, v, i) && i.KeyOf(Flag) !in v :: Represents(v, rules - {i})
  {
    forall v | Erased(v0, v, i) && i.KeyOf(Flag) !in v ensures Represents(v, rules - {i}) {
      forall j: RuleId ensures j in rules - {i} <==> j.KeyOf(Flag) in v {
        assert j in rules <==> j.KeyOf(Flag) in v0;
      }
    }
  }

  function Fetched(before: Rule, r: Rule, f: Field): (after: Rule)
    requires SetOf(before) == SetOf(r)
    ensures SetOf(after) == SetOf(before) && (f != Flag ==> after.flag == before.flag)
  {
    if Flagged(r, f) then WithField(before, f, FieldValue(r, f)) else before
  }

  function Read1(opts: Rule, r: Rule): Rule
    requires opts.Rule1? && r.Rule1?
  {
    var a := Fetched(Fetched(Fetched(opts, r, Protocol), r, Srcip), r, SrcipMask);
    var b := Fetched(Fetched(a, r, Dstip), r, DstipMask);
    Fetched(Fetched(Fetched(b, r, Srcl4port), r, Dstl4port), r, PacketlenRange)
  }

  function Read2(opts: Rule, r: Rule): Rule
    requires opts.Rule2? && r.Rule2?
  {
    Fetched(Fetched(Fetched(opts, r, Offset), r, Key), r, Mask)
  }

  lemma Read1IsSeen(opts: Rule, r: Rule)
    requires opts.Rule1? && r.Rule1? && opts.flag == r.flag
    ensures Read1(opts, r) == Seen(opts, r)
  {
    var seen := Seen(opts, r);
    var a := Fetched(Fetched(Fetched(opts, r, Protocol), r, Srcip), r, SrcipMask);
    assert a == opts.(protocol := seen.protocol, sourceip := seen.sourceip, sourceipMask := seen.sourceipMask);
    var b := Fetched(Fetched(a, r, Dstip), r, DstipMask);
    assert b == a.(destip := seen.destip, destipMask := seen.destipMask);
    PortsFetched(b, r);
  }

  lemma PortsFetched(b: Rule, r: Rule)
    requires b.Rule1? && r.Rule1?
    ensures Fetched(Fetched(Fetched(b, r, Srcl4port), r, Dstl4port), r, PacketlenRange) ==
            b.(sourcel4port := if Flagged(r, Srcl4port) then r.sourcel4port else b.sourcel4port,
               destl4port := if Flagged(r, Dstl4port) then r.destl4port else b.destl4port,
               pktlenRange := if Flagged(r, PacketlenRange) then r.pktlenRange % 0x100 else b.pktlenRange)
  {
  }

  lemma Read2IsSeen(opts: Rule, r: Rule)
    requires opts.Rule2? && r.Rule2? && opts.flag == r.flag
    ensures Read2(opts, r) == Seen(opts, r)
  {
  }

  /** Storing a value read from the database into a record field, cast to the field's type. */
  function WithField(r: Rule, f: Field, v: Value): Rule {
    match (f, v)
    case (Flag, Ul(n)) => r.(flag := n % 0x1_0000)
    case (Protocol, Ul(n)) => if r.Rule1? then r.(protocol := n % 0x100) else r
    case (Srcip, Ul(n)) => if r.Rule1? then r.(sourceip := n % 0x1_0000_0000) else r
    case (SrcipMask, Ul(n)) => if r.Rule1? then r.(sourceipMask := n % 0x1_0000_0000) else r
    case (Dstip, Ul(n)) => if r.Rule1? then r.(destip := n % 0x1_0000_0000) else r
    case (DstipMask, Ul(n)) => if r.Rule1? then r.(destipMask := n % 0x1_0000_0000) else r
    case (Srcl4port, Ul(n)) => if r.Rule1? then r.(sourcel4port := n % 0x1_0000) else r
    case (Dstl4port, Ul(n)) => if r.Rule1? then r.(destl4port := n % 0x1_0000) else r
    case (PacketlenRange, Ul(n)) => if r.Rule1? then r.(pktlenRange := n % 0x100) else r
    case (Offset, Ul(n)) => if r.Rule2? then r.(offset := n % 0x100) else r
    case (Key, Blob(b)) => if r.Rule2? then r.(key := b) else r
    case (Mask, Blob(b)) => if r.Rule2? then r.(mask := b) else r
    case _ => r
  }

  /** A record after reading rule `r` into it: exactly the flagged fields are replaced. */
  function Seen(opts: Rule, r: Rule): Rule
    requires SetOf(opts) == SetOf(r)
  {
    if r.Rule1? then
      Rule1(r.flag,
            if Flagged(r, Protocol) then r.protocol else opts.protocol,
            if Flagged(r, Srcip) then r.sourceip else opts.sourceip,
            if Flagged(r, SrcipMask) then r.sourceipMask else opts.sourceipMask,
            if Flagged(r, Dstip) then r.destip else opts.destip,
            if Flagged(r, DstipMask) then r.destipMask else opts.destipMask,
            if Flagged(r, Srcl4port) then r.sourcel4port else opts.sourcel4port,
            if Flagged(r, Dstl4port) then r.destl4port else opts.destl4port,
            if Flagged(r, PacketlenRange) then r.pktlenRange % 0x100 else opts.pktlenRange)
    else
      Rule2(r.flag,
            if Flagged(r, Offset) then r.offset else opts.offset,
            if Flagged(r, Key) then r.key else opts.key,
            if Flagged(r, Mask) then r.mask else opts.mask)
  }

  /** Reading a rule back gives every flagged field as it was set, unless the rule asks for a
      packet-length range of 256 or more: that field is read through an 8-bit cast. */
  lemma SeenIsExact(opts: Rule, r: Rule)
    requires SetOf(opts) == SetOf(r)
    ensures (forall f | Flagged(r, f) :: FieldValue(Seen(opts, r), f) == FieldValue(r, f)) <==>
            !(r.Rule1? && Flagged(r, PacketlenRange) && r.pktlenRange >= 0x100)
  {
    if r.Rule1? && Flagged(r, PacketlenRange) && r.pktlenRange >= 0x100 {
      assert FieldValue(Seen(opts, r), PacketlenRange) != FieldValue(r, PacketlenRange);
    }
  }
}
