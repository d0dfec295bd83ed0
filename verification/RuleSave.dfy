/** Saving all filter rules and restoring them: `save_filter_config` of cli/parserops.c run on
    the database, and executing the saved lines after a reset. */
module RuleSave {
  import opened Basics
  import opened KeyNames
  import opened ConfigStore
  import opened RuleStore
  import opened RuleText
  import opened RuleLines

  datatype Line = Line(i: RuleId, options: seq<Opt>)

  /** The options printed for each rule. */
  type Texts = map<RuleId, seq<Opt>>

  /** How the options of the `k`-th line executed are read, for one rule set. */
  type Reader = (nat, RuleSet, seq<Opt>) -> Option<Rule>

  const IDS: nat := 0x1_0000

  // ------------------------------------------------------------ what is saved

  function TextsOf(rules: map<RuleId, Rule>): Texts {
    map i | i in rules :: PrintRule(rules[i])
  }

  function LineFor(texts: Texts, i: RuleId): seq<Line> {
    if i in texts then [Line(i, texts[i])] else []
  }

  /** The lines of one set and port, by rule number. */
  function IdLines(texts: Texts, s: RuleSet, oc: nat): nat -> seq<Line> {
    (id: nat) => if id < IDS then LineFor(texts, RuleId(s, oc, id)) else []
  }

  /** The lines of one port, first set first. */
  function SetLines(texts: Texts, oc: nat, top: nat): nat -> seq<Line> {
    (k: nat) => Concat(IdLines(texts, if k == 0 then Set1 else Set2, oc), top)
  }

  function PortLines(texts: Texts, top: nat): nat -> seq<Line> {
    (oc: nat) => Concat(SetLines(texts, oc, top), 2)
  }

  /** Both sets of every port below MAX_OC_NUM. */
  function Saved(rules: map<RuleId, Rule>): seq<Line> {
    Concat(PortLines(TextsOf(rules), IDS), MAX_OC_NUM)
  }

  // ------------------------------------------------------------ what a line does

  /** The effect of the `k`-th command on the rules; a line that does not parse, or names a port
      without a count, has none. */
  function Execute(rules: map<RuleId, Rule>, line: Line, read: Reader, k: nat): map<RuleId, Rule> {
    var r := read(k, line.i.rules, line.options);
    if r.None? || line.i.oc >= MAX_OC_NUM then rules else rules[line.i := r.value]
  }

  /** Executing lines, the first of them being number `from`. */
  function ExecuteAll(rules: map<RuleId, Rule>, lines: seq<Line>, read: Reader, from: nat): map<RuleId, Rule> {
    if lines == [] then rules
    else
      var m := |lines| - 1;
      Execute(ExecuteAll(rules, lines[..m], read, from), lines[m], read, from + m)
  }

  /** Reading as the parser does, each line with what the memory of its own records held. */
  function Parser(mem: nat -> Memory): Reader {
    (k: nat, s: RuleSet, os: seq<Opt>) => ReadRule(s, os, mem(k))
  }

  /** Executing a line is the rule command it parses to. */
  lemma ExecuteIsCommand(rules: map<RuleId, Rule>, line: Line, mem: nat -> Memory, k: nat)
    ensures var r := ReadRule(line.i.rules, line.options, mem(k));
            Execute(rules, line, Parser(mem), k) == if r.None? then rules else Apply(rules, SetOp(line.i, r.value))
  {
    ReadRuleMakes(line.i.rules, line.options, mem(k));
  }

  // ------------------------------------------------------------ one rule at a time

  function Lookup(rules: map<RuleId, Rule>, i: RuleId): Option<Rule> {
    if i in rules then Some(rules[i]) else None
  }

  /** What executing rule `i`'s line as number `k` makes of what was there. */
  function ReadAt(texts: Texts, i: RuleId, before: Option<Rule>, read: Reader, k: nat): Option<Rule>
    requires i in texts
  {
    var r := read(k, i.rules, texts[i]);
    if r.None? then before else r
  }

  /** `now` is what executing rule `i`'s line, as one of the numbers, makes of `before`. */
  ghost predicate Restored(now: Option<Rule>, texts: Texts, i: RuleId, before: Option<Rule>, read: Reader) {
    if i in texts then exists k: nat :: now == ReadAt(texts, i, before, read, k) else now == before
  }

  lemma {:induction false} ExecuteAppend(rules: map<RuleId, Rule>, a: seq<Line>, b: seq<Line>, read: Reader, from: nat)
    ensures ExecuteAll(rules, a + b, read, from) == ExecuteAll(ExecuteAll(rules, a, read, from), b, read, from + |a|)
  {
    if b == [] {
      assert a + b == a;
    } else {
      var m := |b| - 1;
      ExecuteAppend(rules, a, b[..m], read, from);
      assert (a + b)[..|a| + m] == a + b[..m] && (a + b)[|a| + m] == b[m];
    }
  }

  /** Executing some lines on `m` does to rule `i` what its own line does if `hit`, and nothing
      otherwise. */
  ghost predicate Gives(m: map<RuleId, Rule>, lines: seq<Line>, from: nat, texts: Texts, i: RuleId, read: Reader,
                       hit: bool)
  {
    Becomes(Lookup(m, i), Lookup(ExecuteAll(m, lines, read, from), i), texts, i, read, hit)
  }

  ghost predicate Becomes(before: Option<Rule>, now: Option<Rule>, texts: Texts, i: RuleId, read: Reader, hit: bool) {
    if hit then Restored(now, texts, i, before, read) else now == before
  }

  lemma OneLine(m: map<RuleId, Rule>, texts: Texts, j: RuleId, i: RuleId, read: Reader, from: nat)
    requires j.oc < MAX_OC_NUM
    ensures Gives(m, LineFor(texts, j), from, texts, i, read, i == j)
  {
    if j in texts {
      var l := Line(j, texts[j]);
      assert [l][..0] == [];
      assert ExecuteAll(m, [l], read, from) == Execute(m, l, read, from);
      if i == j {
        assert Lookup(Execute(m, l, read, from), i) == ReadAt(texts, i, Lookup(m, i), read, from);
      }
    }
  }

  /** Of two stretches of lines at most one hits. */
  lemma BothDo(m: map<RuleId, Rule>, a: seq<Line>, b: seq<Line>, from: nat, texts: Texts, i: RuleId, read: Reader,
               hitA: bool, hitB: bool)
    requires !(hitA && hitB) && Gives(m, a, from, texts, i, read, hitA)
    requires Gives(ExecuteAll(m, a, read, from), b, from + |a|, texts, i, read, hitB)
    ensures Gives(m, a + b, from, texts, i, read, hitA || hitB)
  {
    ExecuteAppend(m, a, b, read, from);
  }

  /** What one part of a list does, wherever it is executed. */
  ghost predicate PartDoes(part: seq<Line>, texts: Texts, i: RuleId, read: Reader, hit: bool) {
    forall m: map<RuleId, Rule>, from: nat :: Gives(m, part, from, texts, i, read, hit)
  }

  lemma {:induction false} ConcatGives(part: nat -> seq<Line>, n: nat, texts: Texts, i: RuleId, read: Reader,
                                      place: nat, live: bool)
    requires forall k: nat {:trigger part(k)} | k < n :: PartDoes(part(k), texts, i, read, IsPlace(k, place, live))
    ensures PartDoes(Concat(part, n), texts, i, read, live && place < n)
  {
    if n > 0 {
      var front, last := Concat(part, n - 1), part(n - 1);
      ConcatGives(part, n - 1, texts, i, read, place, live);
      JoinDoes(front, last, texts, i, read, live && place < n - 1, IsPlace(n - 1, place, live));
    }
  }

  lemma JoinDoes(a: seq<Line>, b: seq<Line>, texts: Texts, i: RuleId, read: Reader, hitA: bool, hitB: bool)
    requires !(hitA && hitB) && PartDoes(a, texts, i, read, hitA) && PartDoes(b, texts, i, read, hitB)
    ensures PartDoes(a + b, texts, i, read, hitA || hitB)
  {
    var lines, hit := a + b, hitA || hitB;
    forall m: map<RuleId, Rule>, from: nat ensures Gives(m, lines, from, texts, i, read, hit) {
      BothDo(m, a, b, from, texts, i, read, hitA, hitB);
    }
  }

  lemma SetRestores(texts: Texts, s: RuleSet, oc: nat, top: nat, i: RuleId, read: Reader)
    requires oc < MAX_OC_NUM && i.id < top <= IDS
    ensures PartDoes(Concat(IdLines(texts, s, oc), top), texts, i, read, i.rules == s && i.oc == oc)
  {
    var part, live := IdLines(texts, s, oc), i.rules == s && i.oc == oc;
    forall id: nat {:trigger part(id)} | id < top ensures PartDoes(part(id), texts, i, read, IsPlace(id, i.id, live)) {
      forall m: map<RuleId, Rule>, from: nat ensures Gives(m, part(id), from, texts, i, read, IsPlace(id, i.id, live)) {
        OneLine(m, texts, RuleId(s, oc, id), i, read, from);
      }
    }
    ConcatGives(part, top, texts, i, read, i.id, live);
  }

  lemma PortRestores(texts: Texts, oc: nat, top: nat, i: RuleId, read: Reader)
    requires oc < MAX_OC_NUM && i.id < top <= IDS
    ensures PartDoes(Concat(SetLines(texts, oc, top), 2), texts, i, read, i.oc == oc)
  {
    var part, place := SetLines(texts, oc, top), if i.rules.Set1? then 0 else 1;
    forall k: nat {:trigger part(k)} | k < 2 ensures PartDoes(part(k), texts, i, read, IsPlace(k, place, i.oc == oc)) {
      SetRestores(texts, if k == 0 then Set1 else Set2, oc, top, i, read);
    }
    ConcatGives(part, 2, texts, i, read, place, i.oc == oc);
  }

  lemma PortsRestore(texts: Texts, ports: nat, top: nat, i: RuleId, read: Reader)
    requires ports <= MAX_OC_NUM && i.id < top <= IDS
    ensures PartDoes(Concat(PortLines(texts, top), ports), texts, i, read, i.oc < ports)
  {
    var part := PortLines(texts, top);
    forall oc: nat {:trigger part(oc)} | oc < ports
      ensures PartDoes(part(oc), texts, i, read, IsPlace(oc, i.oc, true))
    {
      PortRestores(texts, oc, top, i, read);
    }
    ConcatGives(part, ports, texts, i, read, i.oc, true);
  }

  // ------------------------------------------------------------ the round trip

  /** Rules that commands can have left: parsed ones, on ports that have a count. */
  ghost predicate FromCommands(rules: map<RuleId, Rule>) {
    forall i | i in rules :: i.oc < MAX_OC_NUM && SetOf(rules[i]) == i.rules && Made(rules[i])
  }

  ghost predicate ParsedOp(op: RuleOp) {
    op.SetOp? ==> Made(op.r)
  }

  lemma {:induction false} RunsAreFromCommands(ops: seq<RuleOp>)
    requires forall k | 0 <= k < |ops| :: ParsedOp(ops[k])
    ensures FromCommands(After(map[], ops))
  {
    if ops != [] {
      RunsAreFromCommands(ops[..|ops| - 1]);
      assert ParsedOp(ops[|ops| - 1]);
    }
  }

  lemma SameLookups(a: map<RuleId, Rule>, b: map<RuleId, Rule>)
    requires forall i :: Lookup(a, i) == Lookup(b, i)
    ensures a == b
  {
    forall i ensures i in a <==> i in b {
      assert Lookup(a, i) == Lookup(b, i);
    }
    forall i | i in a ensures a[i] == b[i] {
      assert Lookup(a, i) == Lookup(b, i);
    }
  }

  /** The round trip for any printing and reading that gives back just the rules of some kind,
      whichever line they come in. */
  lemma RoundTripBy(rules: map<RuleId, Rule>, texts: Texts, read: Reader, ports: nat, top: nat, kept: Rule -> bool)
    requires ports <= MAX_OC_NUM && top == IDS && texts.Keys == rules.Keys && forall i | i in rules :: i.oc < ports
    requires forall i, k: nat | i in rules :: read(k, i.rules, texts[i]) == Some(rules[i]) <==> kept(rules[i])
    ensures ExecuteAll(map[], Concat(PortLines(texts, top), ports), read, 0) == rules <==>
            forall i | i in rules :: kept(rules[i])
  {
    var restored := ExecuteAll(map[], Concat(PortLines(texts, top), ports), read, 0);
    forall i: RuleId
      ensures i !in rules ==> Lookup(restored, i) == None
      ensures i in rules ==> (Lookup(restored, i) == Some(rules[i]) <==> kept(rules[i]))
    {
      PortsRestore(texts, ports, top, i, read);
      assert Gives(map[], Concat(PortLines(texts, top), ports), 0, texts, i, read, i.oc < ports);
      if i in rules {
        var k: nat :| Lookup(restored, i) == ReadAt(texts, i, None, read, k);
        assert read(k, i.rules, texts[i]) == Some(rules[i]) <==> kept(rules[i]);
      }
    }
    if forall i | i in rules :: kept(rules[i]) {
      SameLookups(restored, rules);
    } else {
      var i :| i in rules && !kept(rules[i]);
      assert Lookup(restored, i) != Lookup(rules, i);
    }
  }

  /** Executing the saved lines on an empty table gives back the rules exactly when none of them
      asks for offset zero, whatever the memory of each line's option records held. */
  lemma RulesRoundTrip(rules: map<RuleId, Rule>, mem: nat -> Memory)
    requires FromCommands(rules)
    ensures ExecuteAll(map[], Saved(rules), Parser(mem), 0) == rules <==>
            forall i | i in rules :: !AsksForZero(rules[i])
  {
    var texts, read := TextsOf(rules), Parser(mem);
    var kept := (r: Rule) => !AsksForZero(r);
    forall i, k: nat | i in rules ensures read(k, i.rules, texts[i]) == Some(rules[i]) <==> kept(rules[i]) {
      RuleRoundTrip(rules[i], mem(k));
    }
    RoundTripBy(rules, texts, read, MAX_OC_NUM, IDS, kept);
    assert (forall i | i in rules :: kept(rules[i])) <==> forall i | i in rules :: !AsksForZero(rules[i]);
  }

  lemma ZeroOption(o: Opt, mem: Memory)
    requires o.OffsetOpt? && ReadInt(o.text) == 0
    ensures ReadRule(Set2, [o], mem).Some? && AsksForZero(ReadRule(Set2, [o], mem).value)
  {
    OneOption(o, mem.of2);
  }

  lemma ZeroIsLost(i: RuleId, o: Opt, mem: nat -> Memory)
    requires i.rules == Set2 && i.oc < MAX_OC_NUM
    requires o.OffsetOpt? && ReadInt(o.text) == 0
    ensures var r := ReadRule(Set2, [o], mem(0));
            && r.Some? && AsksForZero(r.value)
            && ExecuteAll(map[], Saved(map[i := r.value]), Parser(mem), 0) != map[i := r.value]
  {
    ZeroOption(o, mem(0));
    ReadRuleMakes(Set2, [o], mem(0));
    var r := ReadRule(Set2, [o], mem(0)).value;
    RulesRoundTrip(map[i := r], mem);
    assert i in map[i := r];
  }

  lemma ReadZero()
    ensures ReadNumber("0") == (0, "")
  {
    assert "0"[1..] == "";
    assert Digit(0) == '0';
    ReadDigit(0, 0, "");
    assert [Digit(0)] + "" == "0";
  }

  /** A rule that is lost: `offset 0` parses, asks for offset zero and does not come back. */
  lemma OffsetZeroIsLost(i: RuleId, mem: nat -> Memory)
    requires i.rules == Set2 && i.oc < MAX_OC_NUM
    ensures var r := ReadRule(Set2, [OffsetOpt("0")], mem(0));
            && r.Some? && AsksForZero(r.value)
            && ExecuteAll(map[], Saved(map[i := r.value]), Parser(mem), 0) != map[i := r.value]
  {
    ReadZero();
    ZeroIsLost(i, OffsetOpt("0"), mem);
  }

  // ------------------------------------------------------------ saving from the database

  lemma OptSeen(opts: Record1, r: Record1, k: nat)
    requires k < 6 && Made(r) && Bit(r.flag, k)
    ensures Opt1(Seen(opts, r), k) == Opt1(r, k)
  {
    var seen := Seen(opts, r);
    if k == 0 {
      assert seen.protocol == r.protocol;
    } else if k == 1 {
      assert seen.sourceip == r.sourceip && seen.sourceipMask == r.sourceipMask;
    } else if k == 2 {
      assert seen.destip == r.destip && seen.destipMask == r.destipMask;
    } else if k == 3 {
      assert seen.sourcel4port == r.sourcel4port;
    } else if k == 4 {
      assert seen.destl4port == r.destl4port;
    } else {
      assert seen.pktlenRange == r.pktlenRange;
    }
  }

  lemma {:induction false} OptsSeen(opts: Record1, r: Record1, k: nat)
    requires k <= 6 && Made(r)
    ensures OptsFrom1(Seen(opts, r), k) == OptsFrom1(r, k)
    decreases 6 - k
  {
    if k < 6 {
      OptsSeen(opts, r, k + 1);
      if Bit(r.flag, k) {
        OptSeen(opts, r, k);
      }
    }
  }

  /** What is printed depends on the flagged fields only, so the fields a read leaves alone do
      not show. */
  lemma PrintSeen(opts: Rule, r: Rule)
    requires SetOf(opts) == SetOf(r) && Made(r)
    ensures PrintRule(Seen(opts, r)) == PrintRule(r)
  {
    if r.Rule1? {
      OptsSeen(opts, r, 0);
    }
  }

  /** How many rules of a set and port are numbered `id` or above. */
  function Left(rules: map<RuleId, Rule>, s: RuleSet, oc: nat, id: nat): nat {
    |Numbers(Cleared(rules, s, oc, id), s, oc)|
  }

  lemma AllLeft(rules: map<RuleId, Rule>, s: RuleSet, oc: nat)
    ensures Left(rules, s, oc, 0) == |Numbers(rules, s, oc)|
  {
    assert Cleared(rules, s, oc, 0) == rules;
  }

  lemma SaveStep(rules: map<RuleId, Rule>, texts: Texts, s: RuleSet, oc: nat, id: nat)
    requires texts.Keys == rules.Keys && Left(rules, s, oc, id) > 0
    ensures id < IDS && Left(rules, s, oc, id) == Left(rules, s, oc, id + 1) + |LineFor(texts, RuleId(s, oc, id))|
  {
    ResetStep(rules, s, oc, id);
    assert RuleId(s, oc, id) in Cleared(rules, s, oc, id) <==> RuleId(s, oc, id) in rules;
  }

  lemma {:induction false} NothingAbove(rules: map<RuleId, Rule>, texts: Texts, s: RuleSet, oc: nat, id: nat, top: nat)
    requires texts.Keys == rules.Keys
    requires id <= top <= IDS && Left(rules, s, oc, id) == 0
    ensures Concat(IdLines(texts, s, oc), top) == Concat(IdLines(texts, s, oc), id)
  {
    if id < top {
      NothingAbove(rules, texts, s, oc, id, top - 1);
      var j := RuleId(s, oc, top - 1);
      assert j in rules ==> j in Numbers(Cleared(rules, s, oc, id), s, oc);
    }
  }

  /** Reading a rule into the scratch record and printing it. */
  method SaveOne(db: Database, i: RuleId, scratch: Rule) returns (line: seq<Line>, opts: Rule)
    requires db.Valid() && FromCommands(db.rules) && SetOf(scratch) == i.rules
    modifies db.store`keyBuf
    ensures db.Valid() && SetOf(opts) == i.rules && line == LineFor(TextsOf(db.rules), i)
  {
    line, opts := [], scratch;
    var found := db.store.Exists(i.KeyOf(Flag));
    if found != 0 {
      var r;
      r, opts := db.GetFilterRule(i, scratch);
      PrintSeen(scratch, db.rules[i]);
      line := [Line(i, PrintRule(opts))];
    }
  }

  /** One loop of `save_filter_config`, over rule numbers until the count is reached; the record
      it reads into is handed on. */
  method SaveSet(db: Database, s: RuleSet, oc: nat, top: nat, scratch: Rule) returns (lines: seq<Line>, opts: Rule)
    requires db.Valid() && db.Counted() && CountsFor(db.store.view) && oc < MAX_OC_NUM
    requires FromCommands(db.rules) && SetOf(scratch) == s && top == IDS
    modifies db.store`keyBuf
    ensures db.Valid() && lines == Concat(IdLines(TextsOf(db.rules), s, oc), top) && SetOf(opts) == s
  {
    var num := db.store.Find(RuleCount(s, oc));
    lines, opts := SaveLoop(db, s, oc, top, num.value.n, scratch);
  }

  method SaveLoop(db: Database, s: RuleSet, oc: nat, top: nat, number: nat, scratch: Rule)
    returns (lines: seq<Line>, opts: Rule)
    requires db.Valid() && FromCommands(db.rules) && SetOf(scratch) == s && top == IDS
    requires number == |Numbers(db.rules, s, oc)|
    modifies db.store`keyBuf
    ensures db.Valid() && lines == Concat(IdLines(TextsOf(db.rules), s, oc), top) && SetOf(opts) == s
  {
    ghost var rules, texts := db.rules, TextsOf(db.rules);
    lines := [];
    var idMatched, id := 0, 0;
    opts := scratch;
    AllLeft(rules, s, oc);
    while idMatched < number
      invariant db.Valid() && id <= top && SetOf(opts) == s
      invariant lines == Concat(IdLines(texts, s, oc), id)
      invariant number == idMatched + Left(rules, s, oc, id)
      decreases top - id
    {
      SaveStep(rules, texts, s, oc, id);
      var line;
      line, opts := SaveOne(db, RuleId(s, oc, id), opts);
      if line != [] {
        idMatched := idMatched + 1;
      }
      lines := lines + line;
      id := id + 1;
    }
    NothingAbove(rules, texts, s, oc, id, top);
  }

  lemma TwoSets(texts: Texts, oc: nat, top: nat)
    ensures PortLines(texts, top)(oc) == Concat(IdLines(texts, Set1, oc), top) + Concat(IdLines(texts, Set2, oc), top)
  {
    var part := SetLines(texts, oc, top);
    assert Concat(part, 1) == [] + part(0) == part(0);
    assert Concat(part, 2) == Concat(part, 1) + part(1);
  }

  /** Both loops of one port. */
  method SavePort(db: Database, oc: nat, top: nat, scratch1: Rule, scratch2: Rule)
    returns (lines: seq<Line>, opts1: Rule, opts2: Rule)
    requires db.Valid() && db.Counted() && CountsFor(db.store.view) && oc < MAX_OC_NUM
    requires FromCommands(db.rules) && scratch1.Rule1? && scratch2.Rule2? && top == IDS
    modifies db.store`keyBuf
    ensures db.Valid() && lines == PortLines(TextsOf(db.rules), top)(oc) && opts1.Rule1? && opts2.Rule2?
  {
    var one, two;
    one, opts1 := SaveSet(db, Set1, oc, top, scratch1);
    two, opts2 := SaveSet(db, Set2, oc, top, scratch2);
    TwoSets(TextsOf(db.rules), oc, top);
    lines := one + two;
  }

  /** `save_filter_config`: it ends, and prints every rule once. */
  method SaveFilterConfig(db: Database, scratch1: Record1, scratch2: Record2) returns (lines: seq<Line>)
    requires db.Valid() && db.Counted() && CountsFor(db.store.view) && FromCommands(db.rules)
    modifies db.store`keyBuf
    ensures db.Valid() && lines == Saved(db.rules)
  {
    lines := [];
    var top := IDS;
    var opts1: Rule, opts2: Rule := scratch1, scratch2;
    for oc := 0 to MAX_OC_NUM
      invariant db.Valid() && db.Counted() && CountsFor(db.store.view) && opts1.Rule1? && opts2.Rule2?
      invariant lines == Concat(PortLines(TextsOf(db.rules), top), oc)
    {
      var port;
      port, opts1, opts2 := SavePort(db, oc, top, opts1, opts2);
      lines := lines + port;
    }
  }

  // ------------------------------------------------------------ restoring the database

  /** Executing lines on the database. */
  method RestoreLines(db: Database, lines: seq<Line>, mem: nat -> Memory)
    requires db.Valid() && db.Counted() && CountsFor(db.store.view)
    modifies db, db.store
    ensures db.Valid() && db.Counted() && CountsFor(db.store.view)
    ensures db.rules == ExecuteAll(old(db.rules), lines, Parser(mem), 0)
  {
    assert lines[..|lines|] == lines;
    for k := 0 to |lines|
      invariant db.Valid() && db.Counted() && CountsFor(db.store.view)
      invariant db.rules == ExecuteAll(old(db.rules), lines[..k], Parser(mem), 0)
    {
      assert lines[..k + 1][..k] == lines[..k];
      RestoreLine(db, lines[k], mem, k);
    }
  }

  method RestoreLine(db: Database, line: Line, mem: nat -> Memory, k: nat)
    requires db.Valid() && db.Counted() && CountsFor(db.store.view)
    modifies db, db.store
    ensures db.Valid() && db.Counted() && CountsFor(db.store.view)
    ensures db.rules == Execute(old(db.rules), line, Parser(mem), k)
  {
    var r := ReadRule(line.i.rules, line.options, mem(k));
    ReadRuleMakes(line.i.rules, line.options, mem(k));
    if r.Some? {
      var res := db.SetRuleset(line.i, r.value);
    }
  }

  /** Saving, resetting and restoring: rules and counts are as they were, exactly when no rule
      asks for offset zero. */
  method SaveResetRestore(db: Database, scratch1: Record1, scratch2: Record2, mem: nat -> Memory)
    requires db.Valid() && db.Counted() && CountsFor(db.store.view) && FromCommands(db.rules)
    modifies db, db.store
    ensures db.Valid() && db.Counted() && CountsFor(db.store.view)
    ensures db.rules == old(db.rules) <==> forall i | i in old(db.rules) :: !AsksForZero(old(db.rules)[i])
  {
    ghost var rules := db.rules;
    var lines := SaveFilterConfig(db, scratch1, scratch2);
    var res := db.ResetAllRules();
    RestoreLines(db, lines, mem);
    RulesRoundTrip(rules, mem);
  }
}
