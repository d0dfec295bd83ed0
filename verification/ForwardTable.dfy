/** The forwarding table: one mode for each port and pair of rules, kept under string keys,
    set by commands with wildcards, saved as commands and restored by replaying them.

    `modes` is the table the keys stand for; a missing cell has the default mode. */
module ForwardTable {
  import opened Basics
  import opened KeyNames
  import opened ConfigStore

  datatype Cell = Cell(oc: nat, rule1: nat, rule2: nat) {
    function Key(): DbKey {
      ForwardMode(oc, rule1, rule2)
    }
  }

  type Table = map<Cell, nat>

  // ------------------------------------------------------------ modes and commands

  /** What a command prints or asks for after `forward mode`. */
  datatype Action = Default | Drop | ToVlan(vlan: nat, sample: bool) | Sample

  /** `lif set classify oc .. ruleset1 .. ruleset2 .. forward mode ..`; a rule number equal to
      the number of rules stands for `all`. */
  datatype Command = Command(oc: nat, rule1: nat, rule2: nat, action: Action)

  /** The mode word of an action, as the parser builds it. */
  function ModeWord(a: Action): nat {
    match a
    case Default => 0x0000
    case Drop => 0x4000
    case ToVlan(v, sample) => (if sample then 0x3000 else 0x1000) + v % 0x1000
    case Sample => 0x2000
  }

  /** What is printed for a mode word: nothing for the default. */
  function Printed(word: nat): Action {
    var mode := word / 0x1000 % 16;
    if mode / 4 % 2 == 1 then Drop
    else if mode % 2 == 1 then ToVlan(word % 0x1000, mode / 2 % 2 == 1)
    else if mode / 2 % 2 == 1 then Sample
    else Default
  }

  /** The actions the grammar admits. */
  predicate Admitted(a: Action) {
    a.ToVlan? ==> 1 <= a.vlan <= 4095
  }

  lemma PrintedInverse(a: Action)
    requires Admitted(a)
    ensures Printed(ModeWord(a)) == a
  {
  }

  // ------------------------------------------------------------ what a command does

  predicate IsDefault(word: nat) {
    word / 0x1000 % 16 == 0
  }

  /** Giving a set of cells one mode; the default is stored as no key at all. */
  function Paint(t: Table, cells: set<Cell>, word: nat): Table {
    if IsDefault(word) then t - cells else t + map c | c in cells :: word
  }

  lemma PaintTwice(t: Table, a: set<Cell>, b: set<Cell>, word: nat)
    ensures Paint(Paint(t, a, word), b, word) == Paint(t, a + b, word)
    ensures Paint(t, {}, word) == t
  {
  }

  function Square(oc: nat, rows: set<nat>, columns: set<nat>): (r: set<Cell>)
    ensures forall c: Cell :: c in r <==> c.oc == oc && c.rule1 in rows && c.rule2 in columns
  {
    set i, j | i in rows && j in columns :: Cell(oc, i, j)
  }

  function Range(n: nat): (r: set<nat>)
    ensures forall i: nat :: i in r <==> i < n
  {
    if n == 0 then {} else Range(n - 1) + {n - 1}
  }

  lemma NoCells(oc: nat, n: nat, j: nat)
    ensures Square(oc, {n}, Range(0)) == {} && Square(oc, Range(0), Range(n)) == {} && Square(oc, Range(0), {j}) == {}
  {
  }

  lemma OneCell(oc: nat, i: nat, j: nat)
    ensures Square(oc, {i}, {j}) == {Cell(oc, i, j)}
  {
  }

  lemma NextInRow(oc: nat, i: nat, j: nat)
    ensures Square(oc, {i}, Range(j + 1)) == Square(oc, {i}, Range(j)) + {Cell(oc, i, j)}
  {
  }

  lemma NextInColumn(oc: nat, i: nat, j: nat)
    ensures Square(oc, Range(i + 1), {j}) == Square(oc, Range(i), {j}) + {Cell(oc, i, j)}
  {
  }

  lemma NextRow(oc: nat, i: nat, n: nat)
    ensures Square(oc, Range(i + 1), Range(n)) == Square(oc, Range(i), Range(n)) + Square(oc, {i}, Range(n))
  {
  }

  function CellsOf(c: Command, n: nat): set<Cell> {
    Square(c.oc, if c.rule1 == n then Range(n) else {c.rule1}, if c.rule2 == n then Range(n) else {c.rule2})
  }

  function Apply(t: Table, c: Command, n: nat): Table {
    Paint(t, CellsOf(c, n), ModeWord(c.action))
  }

  /** The cells a command is about. */
  predicate Covers(c: Command, cell: Cell, n: nat) {
    && cell.oc == c.oc
    && (if c.rule1 == n then cell.rule1 < n else cell.rule1 == c.rule1)
    && (if c.rule2 == n then cell.rule2 < n else cell.rule2 == c.rule2)
  }

  /** The words of the grammar: 0x4000 drops, 0x2000 samples, 0x1000 and 0x3000 send to a VLAN. */
  predicate Holds(t: Table, cell: Cell, a: Action) {
    match a
    case Default => cell !in t
    case Drop => cell in t && t[cell] == 0x4000
    case Sample => cell in t && t[cell] == 0x2000
    case ToVlan(vlan, false) => cell in t && t[cell] == 0x1000 + vlan
    case ToVlan(vlan, true) => cell in t && t[cell] == 0x3000 + vlan
  }

  lemma ApplyHolds(t: Table, c: Command, n: nat, cell: Cell)
    ensures Covers(c, cell, n) && Admitted(c.action) ==> Holds(Apply(t, c, n), cell, c.action)
    ensures !Covers(c, cell, n) ==> (cell in Apply(t, c, n) <==> cell in t)
    ensures !Covers(c, cell, n) ==> ModeAt(Apply(t, c, n), cell) == ModeAt(t, cell)
  {
    assert Covers(c, cell, n) <==> cell in CellsOf(c, n);
  }

  lemma ApplyHoldsEverywhere(t: Table, c: Command, n: nat)
    requires Admitted(c.action)
    ensures forall cell: Cell | Covers(c, cell, n) :: Holds(Apply(t, c, n), cell, c.action)
  {
    forall cell: Cell | Covers(c, cell, n) ensures Holds(Apply(t, c, n), cell, c.action) {
      ApplyHolds(t, c, n, cell);
    }
  }

  function Applier(n: nat): (Table, Command) -> Table {
    (t: Table, c: Command) => Apply(t, c, n)
  }

  function Fold(step: (Table, Command) -> Table, t: Table, cs: seq<Command>): Table {
    if cs == [] then t else step(Fold(step, t, cs[..|cs| - 1]), cs[|cs| - 1])
  }

  /** The table after a list of commands. */
  function ApplyAll(t: Table, cs: seq<Command>, n: nat): Table {
    Fold(Applier(n), t, cs)
  }

  // ------------------------------------------------------------ what is saved

  function ModeAt(t: Table, cell: Cell): nat {
    if cell in t then t[cell] else 0
  }

  function CommandFor(oc: nat, rule1: nat, rule2: nat, word: nat): seq<Command> {
    if Printed(word).Default? then [] else [Command(oc, rule1, rule2, Printed(word))]
  }

  /** One command for each cell of a row that is not at its default. */
  function CellLines(t: Table, oc: nat, i: nat): nat -> seq<Command> {
    (j: nat) => CommandFor(oc, i, j, ModeAt(t, Cell(oc, i, j)))
  }

  predicate Uniform(t: Table, n: nat, oc: nat, i: nat) {
    forall j | 0 <= j < n :: ModeAt(t, Cell(oc, i, j)) == ModeAt(t, Cell(oc, i, 0))
  }

  function SavedRow(t: Table, n: nat, oc: nat, i: nat): seq<Command> {
    if Uniform(t, n, oc, i) then CommandFor(oc, i, n, ModeAt(t, Cell(oc, i, 0))) else Concat(CellLines(t, oc, i), n)
  }

  function RowLines(t: Table, n: nat, oc: nat): nat -> seq<Command> {
    (i: nat) => SavedRow(t, n, oc, i)
  }

  function PortLines(t: Table, n: nat): nat -> seq<Command> {
    (oc: nat) => Concat(RowLines(t, n, oc), n)
  }

  /** Every row of every port below MAX_OC_NUM. */
  function Saved(t: Table, n: nat): seq<Command> {
    Concat(PortLines(t, n), MAX_OC_NUM)
  }

  // ------------------------------------------------------------ the database operations

  ghost predicate Represents(view: map<DbKey, Value>, t: Table) {
    && (forall c: Cell :: c in t <==> ForwardMode(c.oc, c.rule1, c.rule2) in view)
    && (forall c: Cell | c in t :: view[ForwardMode(c.oc, c.rule1, c.rule2)] == Ul(t[c]))
  }

  class Forwarding {
    const store: Store
    /** MAX_RULE_NO: 32 or 64, depending on the build. */
    const n: nat
    ghost var modes: Table

    ghost predicate Valid()
      reads this, store
    {
      n >= 2 && store.Valid() && Represents(store.view, modes)
    }

    constructor (n: nat)
      requires n == 32 || n == 64
      ensures Valid() && fresh(store) && modes == map[] && this.n == n
    {
      store := new Store();
      this.n := n;
      modes := map[];
    }

    /** `db_forward_mode_exist`, then `db_get_forward_mode` or the default. */
    method GetMode(cell: Cell) returns (word: nat)
      requires Valid()
      modifies store`keyBuf
      ensures Valid() && word == ModeAt(modes, cell)
    {
      var found := store.Exists(cell.Key());
      if found != 0 {
        var v := store.Find(cell.Key());
        word := v.value.n;
      } else {
        word := 0;
      }
    }

    /** The four cases of one cell: a default mode is stored by deleting the key. */
    method SetCell(cell: Cell, word: nat)
      requires Valid()
      modifies this, store
      ensures Valid() && modes == Paint(old(modes), {cell}, word)
    {
      var found := store.Exists(cell.Key());
      if found != 0 {
        if word / 0x1000 % 16 == 0 {
          var r := store.Delete(cell.Key());
        } else {
          store.Insert(cell.Key(), Ul(word));
        }
      } else {
        if word / 0x1000 % 16 != 0 {
          store.Insert(cell.Key(), Ul(word));
        }
      }
      modes := Paint(modes, {cell}, word);
    }

    /** The inner loop over the second rule. */
    method SetRow(oc: nat, i: nat, word: nat)
      requires Valid()
      modifies this, store
      ensures Valid() && modes == Paint(old(modes), Square(oc, {i}, Range(n)), word)
    {
      ghost var t0 := modes;
      NoCells(oc, i, 0);
      PaintTwice(t0, {}, {}, word);
      for j := 0 to n
        invariant Valid() && modes == Paint(t0, Square(oc, {i}, Range(j)), word)
      {
        SetCell(Cell(oc, i, j), word);
        NextInRow(oc, i, j);
        PaintTwice(t0, Square(oc, {i}, Range(j)), {Cell(oc, i, j)}, word);
      }
    }

    /** `cli_set_forward_mode` on the database. */
    method SetForwardMode(c: Command)
      requires Valid()
      modifies this, store
      ensures Valid() && modes == Apply(old(modes), c, n)
      ensures Admitted(c.action) ==> forall cell: Cell | Covers(c, cell, n) :: Holds(modes, cell, c.action)
    {
      var word := ModeWord(c.action);
      OneCell(c.oc, c.rule1, c.rule2);
      if c.rule1 == n && c.rule2 == n {
        SetAll(c.oc, word);
      } else if c.rule1 == n {
        SetColumn(c.oc, c.rule2, word);
      } else if c.rule2 == n {
        SetRow(c.oc, c.rule1, word);
      } else {
        SetCell(Cell(c.oc, c.rule1, c.rule2), word);
      }
      if Admitted(c.action) {
        ApplyHoldsEverywhere(old(modes), c, n);
      }
    }

    method SetAll(oc: nat, word: nat)
      requires Valid()
      modifies this, store
      ensures Valid() && modes == Paint(old(modes), Square(oc, Range(n), Range(n)), word)
    {
      ghost var t0 := modes;
      NoCells(oc, n, 0);
      PaintTwice(t0, {}, {}, word);
      for i := 0 to n
        invariant Valid() && modes == Paint(t0, Square(oc, Range(i), Range(n)), word)
      {
        SetRow(oc, i, word);
        NextRow(oc, i, n);
        PaintTwice(t0, Square(oc, Range(i), Range(n)), Square(oc, {i}, Range(n)), word);
      }
    }

    method SetColumn(oc: nat, j: nat, word: nat)
      requires Valid()
      modifies this, store
      ensures Valid() && modes == Paint(old(modes), Square(oc, Range(n), {j}), word)
    {
      ghost var t0 := modes;
      NoCells(oc, 0, j);
      PaintTwice(t0, {}, {}, word);
      for i := 0 to n
        invariant Valid() && modes == Paint(t0, Square(oc, Range(i), {j}), word)
      {
        SetCell(Cell(oc, i, j), word);
        NextInColumn(oc, i, j);
        PaintTwice(t0, Square(oc, Range(i), {j}), {Cell(oc, i, j)}, word);
      }
    }

    /** The printing of one cell or row. */
    method Print(oc: nat, rule1: nat, rule2: nat, word: nat) returns (out: seq<Command>)
      ensures out == CommandFor(oc, rule1, rule2, word)
    {
      var mode := word / 0x1000 % 16;
      var vlanid := word % 0x1000;
      var isvlan, issample, isdrop := mode % 2, mode / 2 % 2, mode / 4 % 2;
      if isdrop == 1 {
        out := [Command(oc, rule1, rule2, Drop)];
      } else if isvlan == 1 {
        out := [Command(oc, rule1, rule2, ToVlan(vlanid, issample == 1))];
      } else if issample == 1 {
        out := [Command(oc, rule1, rule2, Sample)];
      } else {
        out := [];
      }
    }

    /** The body of `save_forward_config` for one row. */
    method SaveRow(oc: nat, i: nat) returns (out: seq<Command>)
      requires Valid()
      modifies store`keyBuf
      ensures Valid() && out == SavedRow(modes, n, oc, i)
    {
      var all := true;
      var fwdOld := GetMode(Cell(oc, i, 0));
      var fwdNew := fwdOld;
      var j := 1;
      while j < n
        invariant Valid() && 1 <= j <= n
        invariant fwdNew == fwdOld && fwdOld == ModeAt(modes, Cell(oc, i, 0))
        invariant all && forall k | 0 <= k < j :: ModeAt(modes, Cell(oc, i, k)) == fwdOld
      {
        fwdNew := GetMode(Cell(oc, i, j));
        if fwdNew != fwdOld {
          all := false;
          break;
        }
        j := j + 1;
      }
      if all {
        out := Print(oc, i, n, fwdNew);
      } else {
        assert !Uniform(modes, n, oc, i);
        out := SaveCells(oc, i);
      }
    }

    /** A row whose modes differ, cell by cell. */
    method SaveCells(oc: nat, i: nat) returns (out: seq<Command>)
      requires Valid()
      modifies store`keyBuf
      ensures Valid() && out == Concat(CellLines(modes, oc, i), n)
    {
      out := [];
      for k := 0 to n
        invariant Valid() && out == Concat(CellLines(modes, oc, i), k)
      {
        var fwdNew := GetMode(Cell(oc, i, k));
        var line := Print(oc, i, k, fwdNew);
        out := out + line;
      }
    }

    /** The rows of one port. */
    method SavePort(oc: nat) returns (out: seq<Command>)
      requires Valid()
      modifies store`keyBuf
      ensures Valid() && out == Concat(RowLines(modes, n, oc), n)
    {
      out := [];
      for i := 0 to n
        invariant Valid() && out == Concat(RowLines(modes, n, oc), i)
      {
        var row := SaveRow(oc, i);
        out := out + row;
      }
    }

    /** `save_forward_config`. */
    method Save() returns (out: seq<Command>)
      requires Valid()
      modifies store`keyBuf
      ensures Valid() && out == Saved(modes, n)
    {
      out := [];
      for oc := 0 to MAX_OC_NUM
        invariant Valid() && out == Concat(PortLines(modes, n), oc)
      {
        var lines := SavePort(oc);
        out := out + lines;
      }
    }

    /** Executing a list of commands in order. */
    method Replay(cs: seq<Command>)
      requires Valid()
      modifies this, store
      ensures Valid() && modes == ApplyAll(old(modes), cs, n)
    {
      assert cs[..|cs|] == cs;
      for k := 0 to |cs|
        invariant Valid() && modes == ApplyAll(old(modes), cs[..k], n)
      {
        assert cs[..k + 1][..k] == cs[..k];
        SetForwardMode(cs[k]);
      }
    }

    /** `db_reset_forward_default_conf`: the loops stop at port MAX_OC_NUM. */
    method Reset()
      requires Valid()
      modifies this, store
      ensures Valid() && modes == Emptied(old(modes), n, MAX_OC_NUM)
    {
      ghost var t0 := modes;
      assert Emptied(t0, n, 0) == t0;
      for oc := 0 to MAX_OC_NUM
        invariant Valid() && modes == Emptied(t0, n, oc)
      {
        EmptiedStep(t0, n, oc);
        SetAll(oc, 0);
      }
    }
  }

  /** Saving, resetting and replaying: the forwarding table is as it was. */
  method SaveResetReplay(f: Forwarding)
    requires f.Valid() && Reachable(f.modes, f.n)
    modifies f, f.store
    ensures f.Valid() && f.modes == old(f.modes)
  {
    var saved := f.Save();
    f.Reset();
    f.Replay(saved);
    SaveResetReplayRoundTrip(old(f.modes), f.n);
  }

  /** Every cell of the first `ports` ports. */
  function PortCells(n: nat, ports: nat): (r: set<Cell>)
    ensures forall c: Cell :: c in r <==> c.oc < ports && c.rule1 < n && c.rule2 < n
  {
    if ports == 0 then {} else PortCells(n, ports - 1) + Square(ports - 1, Range(n), Range(n))
  }

  /** The table without the cells of the first `ports` ports. */
  function Emptied(t: Table, n: nat, ports: nat): Table {
    t - PortCells(n, ports)
  }

  lemma SubtractTwice(t: Table, a: set<Cell>, b: set<Cell>)
    ensures (t - a) - b == t - (a + b)
  {
  }

  lemma EmptiedStep(t: Table, n: nat, oc: nat)
    ensures Emptied(t, n, oc + 1) == Paint(Emptied(t, n, oc), Square(oc, Range(n), Range(n)), 0)
  {
    SubtractTwice(t, PortCells(n, oc), Square(oc, Range(n), Range(n)));
  }

  // ------------------------------------------------------------ saving and restoring

  /** Every stored mode comes from an admitted command that is not the default, and every
      cell is named by numbers the grammar admits: ports up to MAX_OC_NUM included. */
  ghost predicate Reachable(t: Table, n: nat) {
    forall c {:trigger Admits(c, t[c], n)} | c in t :: Admits(c, t[c], n)
  }

  predicate Admits(c: Cell, word: nat, n: nat) {
    && c.oc <= MAX_OC_NUM && c.rule1 < n && c.rule2 < n
    && Admitted(Printed(word)) && !Printed(word).Default? && ModeWord(Printed(word)) == word
  }

  /** A command the grammar admits. */
  predicate Legal(c: Command, n: nat) {
    c.oc <= MAX_OC_NUM && c.rule1 <= n && c.rule2 <= n && Admitted(c.action)
  }

  lemma ApplyKeepsReachable(t: Table, c: Command, n: nat)
    requires Reachable(t, n) && Legal(c, n)
    ensures Reachable(Apply(t, c, n), n)
  {
    PrintedInverse(c.action);
  }

  /** Stored modes are only 0x4000, 0x2000, 0x1000|vlan and 0x3000|vlan, in every run. */
  lemma {:induction false} RunsAreReachable(cs: seq<Command>, n: nat)
    requires forall k | 0 <= k < |cs| :: Legal(cs[k], n)
    ensures Reachable(ApplyAll(map[], cs, n), n)
  {
    if cs != [] {
      var m := |cs| - 1;
      RunsAreReachable(cs[..m], n);
      ApplyKeepsReachable(ApplyAll(map[], cs[..m], n), cs[m], n);
    }
  }

  // ------------------------------------------------------------ one cell at a time

  /** The mode of a cell after a list of commands: that of the last one that covers it. */
  function LastMode(cs: seq<Command>, cell: Cell, n: nat, start: nat): nat {
    if cs == [] then start
    else
      var m := |cs| - 1;
      if !Covers(cs[m], cell, n) then LastMode(cs[..m], cell, n, start)
      else if IsDefault(ModeWord(cs[m].action)) then 0
      else ModeWord(cs[m].action)
  }

  lemma {:induction false} LastModeIsMode(cs: seq<Command>, cell: Cell, n: nat, t: Table)
    ensures ModeAt(ApplyAll(t, cs, n), cell) == LastMode(cs, cell, n, ModeAt(t, cell))
  {
    if cs != [] {
      LastModeIsMode(cs[..|cs| - 1], cell, n, t);
    }
  }

  /** Command `k` is the last one about a cell. */
  ghost predicate IsLast(cs: seq<Command>, k: nat, cell: Cell, n: nat) {
    k < |cs| && Covers(cs[k], cell, n) && forall m | k < m < |cs| :: !Covers(cs[m], cell, n)
  }

  lemma {:induction false} LastIsHeld(cs: seq<Command>, k: nat, cell: Cell, n: nat, t: Table)
    requires IsLast(cs, k, cell, n) && Admitted(cs[k].action)
    ensures Holds(ApplyAll(t, cs, n), cell, cs[k].action)
  {
    var m := |cs| - 1;
    ApplyHolds(ApplyAll(t, cs[..m], n), cs[m], n, cell);
    if k < m {
      LastIsHeld(cs[..m], k, cell, n, t);
    }
  }

  lemma {:induction false} UncoveredIsKept(cs: seq<Command>, cell: Cell, n: nat, t: Table)
    requires forall k | 0 <= k < |cs| :: !Covers(cs[k], cell, n)
    ensures cell in ApplyAll(t, cs, n) <==> cell in t
  {
    if cs != [] {
      var m := |cs| - 1;
      UncoveredIsKept(cs[..m], cell, n, t);
      ApplyHolds(ApplyAll(t, cs[..m], n), cs[m], n, cell);
    }
  }

  predicate IsModeWord(word: nat) {
    word == 0x4000 || word == 0x2000 || 0x1001 <= word <= 0x1fff || 0x3001 <= word <= 0x3fff
  }

  /** The words stored after any run of commands of the grammar, in numbers: the last command about
      a cell leaves there the word of its action, and a cell without a command has none. */
  lemma StoredWords(cs: seq<Command>, cell: Cell, n: nat)
    requires forall k | 0 <= k < |cs| :: Legal(cs[k], n)
    ensures var t := ApplyAll(map[], cs, n);
            && (forall k: nat | IsLast(cs, k, cell, n) :: Holds(t, cell, cs[k].action))
            && (cell in t ==> exists k: nat :: IsLast(cs, k, cell, n))
            && (cell in t ==> IsModeWord(t[cell]))
  {
    forall k: nat | IsLast(cs, k, cell, n) ensures Holds(ApplyAll(map[], cs, n), cell, cs[k].action) {
      LastIsHeld(cs, k, cell, n, map[]);
    }
    if forall k | 0 <= k < |cs| :: !Covers(cs[k], cell, n) {
      UncoveredIsKept(cs, cell, n, map[]);
    } else {
      var k := LastOf(cs, cell, n);
      LastIsHeld(cs, k, cell, n, map[]);
    }
  }

  lemma {:induction false} LastOf(cs: seq<Command>, cell: Cell, n: nat) returns (k: nat)
    requires exists k :: 0 <= k < |cs| && Covers(cs[k], cell, n)
    ensures IsLast(cs, k, cell, n)
  {
    k := |cs| - 1;
    if !Covers(cs[k], cell, n) {
      k := LastOf(cs[..k], cell, n);
    }
  }

  lemma {:induction false} LastModeAppend(a: seq<Command>, b: seq<Command>, cell: Cell, n: nat, start: nat)
    ensures LastMode(a + b, cell, n, start) == LastMode(b, cell, n, LastMode(a, cell, n, start))
  {
    if b == [] {
      assert a + b == a;
    } else {
      var m := |b| - 1;
      LastModeAppend(a, b[..m], cell, n, start);
      assert (a + b)[..|a| + m] == a + b[..m] && (a + b)[|a| + m] == b[m];
    }
  }

  lemma CommandRestores(t: Table, n: nat, c: Cell, rule2: nat, cell: Cell, start: nat)
    requires Reachable(t, n) && c.rule1 < n
    requires Covers(Command(c.oc, c.rule1, rule2, Default), cell, n) ==> ModeAt(t, cell) == ModeAt(t, c)
    ensures LastMode(CommandFor(c.oc, c.rule1, rule2, ModeAt(t, c)), cell, n, start)
         == if Covers(Command(c.oc, c.rule1, rule2, Default), cell, n) && cell in t then t[cell] else start
  {
    var word := ModeAt(t, c);
    var cs := CommandFor(c.oc, c.rule1, rule2, word);
    assert c in t ==> Admits(c, word, n);
    assert cell in t ==> Admits(cell, t[cell], n);
    assert cs == [] || cs[..0] == [];
  }

  /** What some commands make of the mode of a cell: `v` if they hit it, and otherwise nothing. */
  predicate Paints(cs: seq<Command>, cell: Cell, n: nat, start: nat, hit: bool, v: nat) {
    LastMode(cs, cell, n, start) == if hit then v else start
  }

  /** Of several parts, the one that hits the cell decides. */
  lemma {:induction false} ConcatPaints(part: nat -> seq<Command>, m: nat, cell: Cell, n: nat, start: nat, place: nat,
                                      live: bool, v: nat)
    requires forall k: nat, s: nat {:trigger Paints(part(k), cell, n, s, IsPlace(k, place, live), v)} | k < m ::
      Paints(part(k), cell, n, s, IsPlace(k, place, live), v)
    ensures Paints(Concat(part, m), cell, n, start, live && place < m, v)
  {
    if m > 0 {
      var before := LastMode(Concat(part, m - 1), cell, n, start);
      ConcatPaints(part, m - 1, cell, n, start, place, live, v);
      LastModeAppend(Concat(part, m - 1), part(m - 1), cell, n, start);
      assert Paints(part(m - 1), cell, n, before, IsPlace(m - 1, place, live), v);
    }
  }

  lemma CellsRestore(t: Table, n: nat, oc: nat, i: nat, cell: Cell, start: nat)
    requires Reachable(t, n) && i < n
    ensures Paints(Concat(CellLines(t, oc, i), n), cell, n, start,
                 cell.oc == oc && cell.rule1 == i && cell in t && cell.rule2 < n, ModeAt(t, cell))
  {
    var part, live := CellLines(t, oc, i), cell.oc == oc && cell.rule1 == i && cell in t;
    forall k: nat, s: nat {:trigger Paints(part(k), cell, n, s, IsPlace(k, cell.rule2, live), ModeAt(t, cell))} | k < n
      ensures Paints(part(k), cell, n, s, IsPlace(k, cell.rule2, live), ModeAt(t, cell))
    {
      CommandRestores(t, n, Cell(oc, i, k), k, cell, s);
    }
    ConcatPaints(part, n, cell, n, start, cell.rule2, live, ModeAt(t, cell));
  }

  /** The one-line form of a uniform row restores it as the cell-by-cell form does. */
  lemma RowRestores(t: Table, n: nat, oc: nat, i: nat, cell: Cell, start: nat)
    requires Reachable(t, n) && i < n
    ensures Paints(SavedRow(t, n, oc, i), cell, n, start,
                 cell.oc == oc && cell.rule1 == i && cell in t && cell.rule2 < n, ModeAt(t, cell))
  {
    if Uniform(t, n, oc, i) {
      CommandRestores(t, n, Cell(oc, i, 0), n, cell, start);
    } else {
      CellsRestore(t, n, oc, i, cell, start);
    }
  }

  lemma RowsRestore(t: Table, n: nat, oc: nat, cell: Cell, start: nat)
    requires Reachable(t, n)
    ensures Paints(Concat(RowLines(t, n, oc), n), cell, n, start, cell.oc == oc && cell in t, ModeAt(t, cell))
  {
    var part, live := RowLines(t, n, oc), cell.oc == oc && cell in t;
    if cell in t {
      assert Admits(cell, t[cell], n);
    }
    forall k: nat, s: nat {:trigger Paints(part(k), cell, n, s, IsPlace(k, cell.rule1, live), ModeAt(t, cell))} | k < n
      ensures Paints(part(k), cell, n, s, IsPlace(k, cell.rule1, live), ModeAt(t, cell))
    {
      RowRestores(t, n, oc, k, cell, s);
    }
    ConcatPaints(part, n, cell, n, start, cell.rule1, live, ModeAt(t, cell));
  }

  lemma SavedRestores(t: Table, n: nat, ports: nat, cell: Cell, start: nat)
    requires Reachable(t, n)
    ensures Paints(Concat(PortLines(t, n), ports), cell, n, start, cell in t && cell.oc < ports, ModeAt(t, cell))
  {
    var part, live := PortLines(t, n), cell in t;
    forall k: nat, s: nat {:trigger Paints(part(k), cell, n, s, IsPlace(k, cell.oc, live), ModeAt(t, cell))} | k < ports
      ensures Paints(part(k), cell, n, s, IsPlace(k, cell.oc, live), ModeAt(t, cell))
    {
      RowsRestore(t, n, k, cell, s);
    }
    ConcatPaints(part, ports, cell, n, start, cell.oc, live, ModeAt(t, cell));
  }

  /** The table of the first `ports` ports. */
  function Ports(t: Table, ports: nat): Table {
    map c | c in t && c.oc < ports :: t[c]
  }

  ghost predicate NoDefaults(t: Table) {
    forall c | c in t :: t[c] != 0
  }

  lemma {:induction false} DefaultsAreNotStored(t: Table, cs: seq<Command>, n: nat)
    requires NoDefaults(t)
    ensures NoDefaults(ApplyAll(t, cs, n))
  {
    if cs != [] {
      DefaultsAreNotStored(t, cs[..|cs| - 1], n);
    }
  }

  lemma ReachableHasNoDefaults(t: Table, n: nat)
    requires Reachable(t, n)
    ensures NoDefaults(t)
  {
    forall c | c in t ensures t[c] != 0 {
      assert Admits(c, t[c], n);
    }
  }

  lemma SameModesSameTable(a: Table, b: Table)
    requires NoDefaults(a) && NoDefaults(b)
    requires forall c :: ModeAt(a, c) == ModeAt(b, c)
    ensures a == b
  {
    forall c ensures c in a <==> c in b {
      assert ModeAt(a, c) == ModeAt(b, c);
    }
    forall c | c in a ensures a[c] == b[c] {
      assert ModeAt(a, c) == ModeAt(b, c);
    }
  }

  /** Replaying what was saved, on any table without defaults: the saved cells of the ports
      below MAX_OC_NUM are back, and every other cell is as it was. */
  lemma ReplayOfSaved(t: Table, base: Table, n: nat)
    requires Reachable(t, n) && NoDefaults(base)
    ensures ApplyAll(base, Saved(t, n), n) == base + Ports(t, MAX_OC_NUM)
  {
    var saved := Saved(t, n);
    ReachableHasNoDefaults(t, n);
    DefaultsAreNotStored(base, saved, n);
    forall c ensures ModeAt(ApplyAll(base, saved, n), c) == ModeAt(base + Ports(t, MAX_OC_NUM), c) {
      SavedRestores(t, n, MAX_OC_NUM, c, ModeAt(base, c));
      LastModeIsMode(saved, c, n, base);
    }
    SameModesSameTable(ApplyAll(base, saved, n), base + Ports(t, MAX_OC_NUM));
  }

  /** Saving the table that any run of commands built, and replaying the printed commands on
      an empty table, restores it exactly when no cell of port MAX_OC_NUM was ever set to
      something but the default: the parser admits that port, the saving loop stops short. */
  lemma SaveReplayRoundTrip(cs: seq<Command>, n: nat)
    requires forall k | 0 <= k < |cs| :: Legal(cs[k], n)
    ensures var t := ApplyAll(map[], cs, n);
            ApplyAll(map[], Saved(t, n), n) == t <==> forall c | c in t :: c.oc != MAX_OC_NUM
  {
    var t := ApplyAll(map[], cs, n);
    RunsAreReachable(cs, n);
    ReplayOfSaved(t, map[], n);
    assert forall c | c in t :: Admits(c, t[c], n);
    if forall c | c in t :: c.oc != MAX_OC_NUM {
      assert Ports(t, MAX_OC_NUM) == t;
    } else {
      var c :| c in t && c.oc == MAX_OC_NUM;
      assert c !in Ports(t, MAX_OC_NUM);
    }
  }

  /** A table that is lost: one drop on the port in excess. */
  lemma PortInExcessIsLost(n: nat)
    requires n > 0
    ensures var c := Command(MAX_OC_NUM, 0, 0, Drop);
            var t := ApplyAll(map[], [c], n);
            Legal(c, n) && ApplyAll(map[], Saved(t, n), n) != t
  {
    var c := Command(MAX_OC_NUM, 0, 0, Drop);
    OneCommand(c, n);
    assert Cell(MAX_OC_NUM, 0, 0) in CellsOf(c, n);
    SaveReplayRoundTrip([c], n);
  }

  lemma OneCommand(c: Command, n: nat)
    ensures ApplyAll(map[], [c], n) == Apply(map[], c, n)
  {
    var cs := [c];
    assert cs[..|cs| - 1] == [] && Fold(Applier(n), map[], []) == map[];
  }

  /** Restoring in place, after a reset that stops short in the same way, loses nothing. */
  lemma SaveResetReplayRoundTrip(t: Table, n: nat)
    requires Reachable(t, n)
    ensures ApplyAll(Emptied(t, n, MAX_OC_NUM), Saved(t, n), n) == t
  {
    var base := Emptied(t, n, MAX_OC_NUM);
    ReachableHasNoDefaults(t, n);
    ReplayOfSaved(t, base, n);
    forall c | c in t && c.oc < MAX_OC_NUM ensures c in Ports(t, MAX_OC_NUM) {
    }
    assert base + Ports(t, MAX_OC_NUM) == t;
  }
}
