/** Many command-line sessions on one configuration database: the recursive mutex of the
    database server, the nesting counter of each session, and the commands that read, change
    and write the rule counts.

    A session performs its code one database request at a time; any schedule of any number
    of sessions is a run. */
module Sessions {
  import opened Basics
  import opened KeyNames

  /** The loops over ports and rule sets visit these eight pairs in turn. */
  const SLOTS: nat := 2 * MAX_OC_NUM

  function SlotSet(k: nat): RuleSet {
    if k % 2 == 0 then Set1 else Set2
  }

  function SlotOc(k: nat): nat {
    k / 2
  }

  /** Where the loops come by a set and a port. */
  function SlotOf(rules: RuleSet, oc: nat): nat {
    2 * oc + if rules.Set1? then 0 else 1
  }

  function CountKey(k: nat): DbKey {
    RuleCount(SlotSet(k), SlotOc(k))
  }

  function FlagKey(k: nat, id: nat): DbKey {
    RuleField(SlotSet(k), SlotOc(k), id, Flag)
  }

  /** A rule number within a slot; slots 8 and 9 are the port the grammar admits in excess. */
  datatype SlotRule = SlotRule(slot: nat, id: Short)

  datatype Command =
    | SetRule(rules: RuleSet, oc: nat, id: Short)
    | ClearRule(rules: RuleSet, oc: nat, id: Short)
    | ResetConfig
    | SaveConfig

  /** What a session takes the lock for: once to initialise the configuration, then for a command. */
  datatype Job = Initialize | Do(cmd: Command)

  /** The place a session has reached; the next request is the one named. */
  datatype Pc =
    | Boot
    | Waiting(next: Pc)
    | InitCheck
    | InitClear
    | InitCounts(n: nat)
    | InitReset
    | InitMark
    | InitPut
    | Idle
    | SetExists(r: SlotRule)
    | SetGetNum(r: SlotRule)
    | SetPutNum(r: SlotRule, num: nat)
    | SetPutFlag(r: SlotRule, counted: bool)
    | ClearExists(r: SlotRule)
    | ClearGetNum(r: SlotRule)
    | ClearPutNum(r: SlotRule, num: nat)
    | ClearDelFlag(r: SlotRule)
    | ResetGetNum(k: nat, nested: bool)
    | ResetExists(k: nat, id: nat, matched: nat, number: nat, nested: bool)
    | ResetDelFlag(k: nat, id: nat, matched: nat, number: nat, nested: bool)
    | ResetPutNum(k: nat, nested: bool)
    | SaveGetNum(k: nat)
    | SaveExists(k: nat, id: nat, matched: nat, number: nat)
    | SaveRead(k: nat, id: nat, matched: nat, number: nat)
    | Unlock(nested: bool)

  /** `job` is what the session took, or asked for, the lock for last. */
  datatype Session = Session(dbLock: nat, pc: Pc, job: Job)

  datatype Granted = Granted(sid: nat, job: Job)

  /** `history` lists the jobs the lock was granted for, in the order in which it was granted. */
  datatype State = State(
    sessions: map<nat, Session>,
    owner: Option<nat>,
    depth: nat,
    db: map<DbKey, nat>,
    initializations: nat,
    history: seq<Granted>)

  function SessionOf(s: State, sid: nat): Session {
    if sid in s.sessions then s.sessions[sid] else Session(0, Boot, Initialize)
  }

  function Goto(s: State, sid: nat, pc: Pc): State {
    s.(sessions := s.sessions[sid := SessionOf(s, sid).(pc := pc)])
  }

  /** `--` on an unsigned word. */
  function Decrement(n: nat): nat {
    if n == 0 then 0xffff_ffff else n - 1
  }

  // ------------------------------------------------------------ locking

  /** `cli_db_lock`: count, and send a lock request only from the outermost call. */
  function Lock(s: State, sid: nat, next: Pc, job: Job): State {
    var me := SessionOf(s, sid);
    var pc := if me.dbLock == 0 then Waiting(next) else next;
    s.(sessions := s.sessions[sid := Session(me.dbLock + 1, pc, job)])
  }

  /** The server grants a lock request when the mutex is free or already the session's own. */
  function Grant(s: State, sid: nat, next: Pc): State {
    if s.owner == None || s.owner == Some(sid)
    then
      var granted := Granted(sid, SessionOf(s, sid).job);
      Goto(s, sid, next).(owner := Some(sid), depth := s.depth + 1, history := s.history + [granted])
    else s
  }

  /** `cli_db_unlock`: an unlock request is sent by the outermost call only. */
  function DoUnlock(s: State, sid: nat, next: Pc): State {
    var me := SessionOf(s, sid);
    var lock := Decrement(me.dbLock);
    var s' := s.(sessions := s.sessions[sid := Session(lock, next, me.job)]);
    if lock != 0 || s.owner != Some(sid) then s'
    else if s.depth > 1 then s'.(depth := s.depth - 1)
    else s'.(owner := None, depth := 0)
  }

  // ------------------------------------------------------------ one request of one session

  function IsInitialized(db: map<DbKey, nat>): bool {
    Initialized in db && db[Initialized] != 0
  }

  datatype Work = Work(db: map<DbKey, nat>, pc: Pc)

  predicate IsLocking(pc: Pc) {
    pc.Boot? || pc.Idle? || pc.Waiting? || pc.InitReset? || pc.Unlock?
  }

  /** The database request made at `pc`, and where the session goes from there. */
  function Request(db: map<DbKey, nat>, pc: Pc): Work
    requires !IsLocking(pc)
  {
    match pc
    case InitCheck =>
      Work(db, if IsInitialized(db) then Unlock(false) else InitClear)
    case InitClear =>
      Work(db[Initialized := 0], InitCounts(0))
    case InitCounts(n) =>
      if n < SLOTS then Work(db[CountKey(n) := 0], InitCounts(n + 1)) else Work(db, InitReset)
    case InitMark =>
      Work(db, if IsInitialized(db) then Unlock(false) else InitPut)
    case InitPut =>
      Work(db[Initialized := 1], Unlock(false))
    case SetExists(r) =>
      Work(db, if FlagKey(r.slot, r.id) in db then SetPutFlag(r, false) else SetGetNum(r))
    case SetGetNum(r) =>
      Work(db, if CountKey(r.slot) in db then SetPutNum(r, db[CountKey(r.slot)] + 1) else Unlock(false))
    case SetPutNum(r, num) =>
      Work(db[CountKey(r.slot) := num], SetPutFlag(r, true))
    case SetPutFlag(r, counted) =>
      Work(db[FlagKey(r.slot, r.id) := 0], Unlock(false))
    case ClearExists(r) =>
      Work(db, if FlagKey(r.slot, r.id) in db then ClearGetNum(r) else Unlock(false))
    case ClearGetNum(r) =>
      Work(db, if CountKey(r.slot) in db then ClearPutNum(r, Decrement(db[CountKey(r.slot)])) else Unlock(false))
    case ClearPutNum(r, num) =>
      Work(db[CountKey(r.slot) := num], ClearDelFlag(r))
    case ClearDelFlag(r) =>
      Work(db - {FlagKey(r.slot, r.id)}, Unlock(false))
    case ResetGetNum(k, nested) =>
      Work(db, if k < SLOTS && CountKey(k) in db then ResetLoop(k, 0, 0, db[CountKey(k)], nested) else Unlock(nested))
    case ResetExists(k, id, matched, number, nested) =>
      Work(db, if FlagKey(k, id) in db then ResetDelFlag(k, id, matched + 1, number, nested)
               else ResetLoop(k, id + 1, matched, number, nested))
    case ResetDelFlag(k, id, matched, number, nested) =>
      Work(db - {FlagKey(k, id)}, ResetLoop(k, id + 1, matched, number, nested))
    case ResetPutNum(k, nested) =>
      Work(db[CountKey(k) := 0], ResetGetNum(k + 1, nested))
    case SaveGetNum(k) =>
      Work(db, if k < SLOTS && CountKey(k) in db then SaveLoop(k, 0, 0, db[CountKey(k)]) else Unlock(false))
    case SaveExists(k, id, matched, number) =>
      Work(db, if FlagKey(k, id) in db then SaveRead(k, id, matched + 1, number)
               else SaveLoop(k, id + 1, matched, number))
    case SaveRead(k, id, matched, number) =>
      Work(db, if FlagKey(k, id) in db then SaveLoop(k, id + 1, matched, number) else Unlock(false))
  }

  /** What a command starts with, once it has the lock. */
  function Entry(cmd: Command): Pc {
    match cmd
    case SetRule(rules, oc, id) => SetExists(SlotRule(SlotOf(rules, oc), id))
    case ClearRule(rules, oc, id) => ClearExists(SlotRule(SlotOf(rules, oc), id))
    case ResetConfig => ResetGetNum(0, false)
    case SaveConfig => SaveGetNum(0)
  }

  function EntryOf(job: Job): Pc {
    if job.Initialize? then InitCheck else Entry(job.cmd)
  }

  /** The outermost lock of a job. */
  function Ask(s: State, sid: nat, job: Job): State {
    Lock(s, sid, EntryOf(job), job)
  }

  /** One request of session `sid`; `cmd` is what an idle session is told to do next. */
  function Step(s: State, sid: nat, cmd: Command): State {
    var me := SessionOf(s, sid);
    var pc := me.pc;
    if pc.Boot? then Ask(s, sid, Initialize)
    else if pc.Idle? then Ask(s, sid, Do(cmd))
    else if pc.Waiting? then Grant(s, sid, pc.next)
    else if pc.InitReset? then Lock(s, sid, ResetGetNum(0, true), me.job)
    else if pc.Unlock? then DoUnlock(s, sid, if pc.nested then InitMark else Idle)
    else
      var w := Request(s.db, pc);
      Goto(s, sid, w.pc).(db := w.db, initializations := s.initializations + if w.pc.InitClear? then 1 else 0)
  }

  /** The head of `for (id_matched = 0, id = 0; id_matched < number; id++)`. */
  function ResetLoop(k: nat, id: nat, matched: nat, number: nat, nested: bool): Pc {
    if matched < number then ResetExists(k, id, matched, number, nested) else ResetPutNum(k, nested)
  }

  /** The head of the same loop of a save, which writes nothing. */
  function SaveLoop(k: nat, id: nat, matched: nat, number: nat): Pc {
    if matched < number then SaveExists(k, id, matched, number) else SaveGetNum(k + 1)
  }

  function Run(s: State, schedule: seq<(nat, Command)>): State {
    if schedule == [] then s
    else
      var n := |schedule| - 1;
      Step(Run(s, schedule[..n]), schedule[n].0, schedule[n].1)
  }

  const Start: State := State(map[], None, 0, map[], 0, [])

  // ------------------------------------------------------------ the invariant

  /** How many nested locks a session at `pc` has asked for. */
  function Nesting(pc: Pc): nat {
    match pc
    case Boot | Idle => 0
    case ResetGetNum(_, nested) => if nested then 2 else 1
    case ResetExists(_, _, _, _, nested) => if nested then 2 else 1
    case ResetDelFlag(_, _, _, _, nested) => if nested then 2 else 1
    case ResetPutNum(_, nested) => if nested then 2 else 1
    case Unlock(nested) => if nested then 2 else 1
    case _ => 1
  }

  /** A session is inside its lock once the request was granted and until it is given back. */
  predicate Inside(me: Session) {
    me.dbLock > 0 && !me.pc.Waiting?
  }

  predicate IsInit(pc: Pc) {
    match pc
    case InitClear | InitCounts(_) | InitReset | InitMark | InitPut => true
    case ResetGetNum(_, nested) => nested
    case ResetExists(_, _, _, _, nested) => nested
    case ResetDelFlag(_, _, _, _, nested) => nested
    case ResetPutNum(_, nested) => nested
    case Unlock(nested) => nested
    case _ => false
  }

  /** The first requests of a granted lock. */
  predicate IsEntry(pc: Pc) {
    match pc
    case InitCheck | SetExists(_) | ClearExists(_) => true
    case ResetGetNum(k, nested) => k == 0 && !nested
    case SaveGetNum(k) => k == 0
    case _ => false
  }

  /** The rules of slot `k` that are present. */
  function FlagKeys(db: map<DbKey, nat>, k: nat): set<DbKey> {
    set key | key in db && key.RuleField? && key.field == Flag && key.rules == SlotSet(k) && key.oc == SlotOc(k)
  }

  /** By how much the stored count of slot `k` exceeds the rules present, in mid-operation. */
  function Excess(pc: Pc, k: nat): int {
    match pc
    case SetPutFlag(r, counted) => if counted && r.slot == k then 1 else 0
    case ClearDelFlag(r) => if r.slot == k then -1 else 0
    case ResetExists(k', _, matched, _, _) => if k' == k then matched else 0
    case ResetDelFlag(k', _, matched, _, _) => if k' == k then matched - 1 else 0
    case _ => 0
  }

  /** Those numbered `id` or above. */
  function FlagsFrom(db: map<DbKey, nat>, k: nat, id: nat): set<DbKey> {
    set key | key in FlagKeys(db, k) && id <= key.id
  }

  ghost predicate NoneBelow(db: map<DbKey, nat>, k: nat, id: nat) {
    forall key | key in FlagKeys(db, k) :: id <= key.id
  }

  ghost predicate Stored(db: map<DbKey, nat>, k: nat, n: nat) {
    CountKey(k) in db && db[CountKey(k)] == n
  }

  /** What the session in the critical section knows about the database. */
  ghost predicate Knows(db: map<DbKey, nat>, pc: Pc) {
    match pc
    case SetGetNum(r) => FlagKey(r.slot, r.id) !in db
    case SetPutNum(r, num) => FlagKey(r.slot, r.id) !in db && num > 0 && Stored(db, r.slot, num - 1)
    case SetPutFlag(r, counted) => CountKey(r.slot) in db && (counted <==> FlagKey(r.slot, r.id) !in db)
    case ClearGetNum(r) => FlagKey(r.slot, r.id) in db
    case ClearPutNum(r, num) => FlagKey(r.slot, r.id) in db && Stored(db, r.slot, num + 1)
    case ClearDelFlag(r) => FlagKey(r.slot, r.id) in db
    case ResetExists(k, id, matched, number, _) =>
      matched < number && Stored(db, k, number) && NoneBelow(db, k, id)
    case ResetDelFlag(k, id, matched, number, _) =>
      0 < matched <= number && Stored(db, k, number) && NoneBelow(db, k, id) && FlagKey(k, id) in db
    case ResetPutNum(k, _) => FlagKeys(db, k) == {}
    case SaveExists(k, id, matched, number) =>
      matched < number && number - matched == |FlagsFrom(db, k, id)|
    case SaveRead(k, id, matched, number) =>
      matched <= number && number - matched == |FlagsFrom(db, k, id + 1)| && FlagKey(k, id) in db
    case _ => true
  }

  ghost predicate CountsExist(db: map<DbKey, nat>) {
    forall k: nat | k < SLOTS :: CountKey(k) in db
  }

  /** A count and the rules it counts, except for a count about to be reset. */
  ghost predicate Counted(db: map<DbKey, nat>, pc: Pc, k: nat) {
    && (FlagKeys(db, k) != {} ==> CountKey(k) in db)
    && (CountKey(k) in db && !(pc.ResetPutNum? && pc.k == k) ==> db[CountKey(k)] == |FlagKeys(db, k)| + Excess(pc, k))
  }

  ghost predicate AllCounted(db: map<DbKey, nat>, pc: Pc) {
    forall k: nat :: Counted(db, pc, k)
  }

  /** While the counts are being created the store holds nothing but zero counts. */
  ghost predicate Fresh(db: map<DbKey, nat>, n: nat) {
    && (forall key | key in db :: !key.RuleField? && db[key] == 0)
    && forall k: nat | k < n :: CountKey(k) in db
  }

  /** The database as seen from the critical section; `pc` is `Idle` when nobody is inside. */
  ghost predicate DataInv(db: map<DbKey, nat>, pc: Pc, started: nat) {
    && AllCounted(db, pc)
    && (forall key: DbKey | key in db && key.RuleField? :: key.id < 0x1_0000)
    && Knows(db, pc)
    && (started == 0 ==> db == map[] && !IsInit(pc))
    && (started > 0 ==> started == 1 && (IsInitialized(db) <==> !IsInit(pc)))
    && (match pc
        case InitClear => Fresh(db, 0)
        case InitCounts(n) => n <= SLOTS && Fresh(db, n)
        case _ => started > 0 ==> CountsExist(db))
    && (started == 0 ==> pc.Idle? || pc.InitCheck?)
  }

  // ------------------------------------------------------------ one request keeps the invariant

  lemma SlotsApart(j: nat, k: nat)
    ensures SlotSet(j) == SlotSet(k) && SlotOc(j) == SlotOc(k) ==> j == k
  {
    assert j == 2 * (j / 2) + j % 2 && k == 2 * (k / 2) + k % 2;
  }

  /** Writing a key that is no rule flag leaves the rules present as they were. */
  lemma PutElsewhere(db: map<DbKey, nat>, key: DbKey, v: nat)
    requires !key.RuleField?
    ensures forall k: nat :: FlagKeys(db[key := v], k) == FlagKeys(db, k)
  {
    forall k: nat ensures FlagKeys(db[key := v], k) == FlagKeys(db, k) {
    }
  }

  lemma PutFlag(db: map<DbKey, nat>, j: nat, id: nat)
    ensures FlagKeys(db[FlagKey(j, id) := 0], j) == FlagKeys(db, j) + {FlagKey(j, id)}
    ensures forall k: nat | k != j :: FlagKeys(db[FlagKey(j, id) := 0], k) == FlagKeys(db, k)
  {
    forall k: nat | k != j ensures FlagKeys(db[FlagKey(j, id) := 0], k) == FlagKeys(db, k) {
      SlotsApart(j, k);
    }
  }

  lemma DropFlag(db: map<DbKey, nat>, j: nat, id: nat)
    ensures FlagKeys(db - {FlagKey(j, id)}, j) == FlagKeys(db, j) - {FlagKey(j, id)}
    ensures forall k: nat | k != j :: FlagKeys(db - {FlagKey(j, id)}, k) == FlagKeys(db, k)
  {
    forall k: nat | k != j ensures FlagKeys(db - {FlagKey(j, id)}, k) == FlagKeys(db, k) {
      SlotsApart(j, k);
    }
  }

  ghost predicate Keeps(db: map<DbKey, nat>, pc: Pc, started: nat)
    requires !IsLocking(pc)
  {
    var w := Request(db, pc);
    DataInv(w.db, w.pc, started + if w.pc.InitClear? then 1 else 0)
  }

  lemma InitKeeps(db: map<DbKey, nat>, pc: Pc, started: nat)
    requires DataInv(db, pc, started)
    requires pc.InitCheck? || pc.InitClear? || pc.InitCounts? || pc.InitMark? || pc.InitPut?
    ensures Keeps(db, pc, started)
  {
    var w := Request(db, pc);
    forall k: nat ensures Counted(w.db, w.pc, k) {
      assert Counted(db, pc, k);
      match pc
      case InitCheck =>
      case InitClear => PutElsewhere(db, Initialized, 0);
      case InitCounts(n) => PutElsewhere(db, CountKey(n), 0);
      case InitMark =>
      case InitPut => PutElsewhere(db, Initialized, 1);
    }
  }

  /** A count is rewritten by `d` together with a change of its excess. */
  lemma PutCount(db: map<DbKey, nat>, pc: Pc, pc': Pc, j: nat, n: nat)
    requires AllCounted(db, pc)
    requires forall k: nat | k != j :: Excess(pc, k) == Excess(pc', k)
    requires !pc'.ResetPutNum? && (pc.ResetPutNum? ==> pc.k == j)
    requires n == |FlagKeys(db, j)| + Excess(pc', j)
    ensures AllCounted(db[CountKey(j) := n], pc')
  {
    var db' := db[CountKey(j) := n];
    forall k: nat ensures Counted(db', pc', k) {
      assert Counted(db, pc, k);
      PutElsewhere(db, CountKey(j), n);
      SlotsApart(j, k);
    }
  }

  /** A read: the excess of every slot stays as it was. */
  lemma ReadOnly(db: map<DbKey, nat>, pc: Pc, pc': Pc)
    requires AllCounted(db, pc)
    requires forall k: nat :: Excess(pc, k) == Excess(pc', k)
    requires !pc.ResetPutNum?
    ensures AllCounted(db, pc')
  {
    forall k: nat ensures Counted(db, pc', k) {
      assert Counted(db, pc, k);
    }
  }

  lemma AddRule(db: map<DbKey, nat>, pc: Pc, r: SlotRule)
    requires AllCounted(db, pc)
    requires pc.SetPutFlag? && pc.r == r && Knows(db, pc)
    ensures AllCounted(db[FlagKey(r.slot, r.id) := 0], Unlock(false))
  {
    var db' := db[FlagKey(r.slot, r.id) := 0];
    PutFlag(db, r.slot, r.id);
    assert FlagKey(r.slot, r.id) in db <==> FlagKey(r.slot, r.id) in FlagKeys(db, r.slot);
    forall k: nat ensures Counted(db', Unlock(false), k) {
      assert Counted(db, pc, k);
      if k == r.slot && !pc.counted {
        assert FlagKeys(db', k) == FlagKeys(db, k);
      }
    }
  }

  lemma DropRule(db: map<DbKey, nat>, pc: Pc, pc': Pc, j: nat, id: nat)
    requires AllCounted(db, pc)
    requires FlagKey(j, id) in db && !pc.ResetPutNum?
    requires forall k: nat :: Excess(pc', k) == Excess(pc, k) + if k == j then 1 else 0
    ensures AllCounted(db - {FlagKey(j, id)}, pc')
  {
    var db' := db - {FlagKey(j, id)};
    DropFlag(db, j, id);
    assert FlagKey(j, id) in FlagKeys(db, j);
    forall k: nat ensures Counted(db', pc', k) {
      assert Counted(db, pc, k);
    }
  }

  lemma SetKeeps(db: map<DbKey, nat>, pc: Pc, started: nat)
    requires DataInv(db, pc, started)
    requires pc.SetExists? || pc.SetGetNum? || pc.SetPutNum? || pc.SetPutFlag?
    ensures Keeps(db, pc, started)
  {
    var w := Request(db, pc);
    var j := pc.r.slot;
    assert Counted(db, pc, j);
    assert FlagKey(j, pc.r.id) in db <==> FlagKey(j, pc.r.id) in FlagKeys(db, j);
    if pc.SetPutNum? {
      PutCount(db, pc, w.pc, j, pc.num);
    } else if pc.SetPutFlag? {
      AddRule(db, pc, pc.r);
    } else {
      ReadOnly(db, pc, w.pc);
    }
  }

  lemma ClearKeeps(db: map<DbKey, nat>, pc: Pc, started: nat)
    requires DataInv(db, pc, started)
    requires pc.ClearExists? || pc.ClearGetNum? || pc.ClearPutNum? || pc.ClearDelFlag?
    ensures Keeps(db, pc, started)
  {
    var w := Request(db, pc);
    var j := pc.r.slot;
    assert Counted(db, pc, j);
    assert FlagKey(j, pc.r.id) in db <==> FlagKey(j, pc.r.id) in FlagKeys(db, j);
    if pc.ClearPutNum? {
      PutCount(db, pc, w.pc, j, pc.num);
    } else if pc.ClearDelFlag? {
      DropRule(db, pc, w.pc, j, pc.r.id);
    } else {
      ReadOnly(db, pc, w.pc);
    }
  }

  /** The loop head: with the rules found so far gone from the database, the rest number
      exactly `number - matched`, so the loop ends just when no rule is left. */
  lemma ResetHead(db: map<DbKey, nat>, pc: Pc, k: nat, id: nat, matched: nat, number: nat, nested: bool)
    requires AllCounted(db, pc) && (forall j: nat | j != k :: Excess(pc, j) == 0)
    requires !pc.ResetPutNum? && Excess(pc, k) == matched
    requires Stored(db, k, number) && NoneBelow(db, k, id)
    ensures var pc' := ResetLoop(k, id, matched, number, nested);
            AllCounted(db, pc') && Knows(db, pc')
  {
    var pc' := ResetLoop(k, id, matched, number, nested);
    assert Counted(db, pc, k);
    forall j: nat ensures Counted(db, pc', j) {
      assert Counted(db, pc, j);
    }
  }

  lemma ResetKeeps(db: map<DbKey, nat>, pc: Pc, started: nat)
    requires DataInv(db, pc, started)
    requires pc.ResetGetNum? || pc.ResetExists? || pc.ResetPutNum?
    ensures Keeps(db, pc, started)
  {
    var w := Request(db, pc);
    var j := pc.k;
    assert Counted(db, pc, j);
    if pc.ResetGetNum? {
      if j < SLOTS && CountKey(j) in db {
        ResetHead(db, pc, j, 0, 0, db[CountKey(j)], pc.nested);
      } else {
        ReadOnly(db, pc, w.pc);
      }
    } else if pc.ResetExists? {
      if FlagKey(j, pc.id) in db {
        ReadOnly(db, pc, w.pc);
      } else {
        NoneHere(db, j, pc.id);
        ResetHead(db, pc, j, pc.id + 1, pc.matched, pc.number, pc.nested);
      }
    } else {
      PutCount(db, pc, w.pc, j, 0);
    }
  }

  lemma ResetDelKeeps(db: map<DbKey, nat>, pc: Pc, started: nat)
    requires DataInv(db, pc, started) && pc.ResetDelFlag?
    ensures Keeps(db, pc, started)
  {
    var db' := Request(db, pc).db;
    var j := pc.k;
    var counted := ResetExists(j, pc.id, pc.matched, pc.number, pc.nested);
    DropRule(db, pc, counted, j, pc.id);
    DropFlag(db, j, pc.id);
    NoneHere(db', j, pc.id);
    ResetHead(db', counted, j, pc.id + 1, pc.matched, pc.number, pc.nested);
  }

  lemma NoneHere(db: map<DbKey, nat>, k: nat, id: nat)
    requires NoneBelow(db, k, id) && FlagKey(k, id) !in db
    ensures NoneBelow(db, k, id + 1)
  {
    forall key | key in FlagKeys(db, k) ensures id + 1 <= key.id {
      assert key == FlagKey(k, key.id);
    }
  }

  lemma FlagsFromNext(db: map<DbKey, nat>, k: nat, id: nat)
    ensures |FlagsFrom(db, k, id)| == |FlagsFrom(db, k, id + 1)| + if FlagKey(k, id) in db then 1 else 0
  {
    var here, after := FlagsFrom(db, k, id), FlagsFrom(db, k, id + 1);
    forall key | key in here && key !in after ensures key == FlagKey(k, id) {
    }
    if FlagKey(k, id) in db {
      assert here == after + {FlagKey(k, id)};
    } else {
      assert here == after;
    }
  }

  /** The save loop finds in the database what it expects to find. */
  lemma SaveKnows(db: map<DbKey, nat>, pc: Pc)
    requires pc.SaveGetNum? || pc.SaveExists? || pc.SaveRead?
    requires Knows(db, pc) && Counted(db, pc, pc.k)
    ensures Knows(db, Request(db, pc).pc)
  {
    if pc.SaveGetNum? {
      assert FlagsFrom(db, pc.k, 0) == FlagKeys(db, pc.k);
    } else {
      FlagsFromNext(db, pc.k, pc.id);
    }
  }

  lemma SaveKeeps(db: map<DbKey, nat>, pc: Pc, started: nat)
    requires DataInv(db, pc, started)
    requires pc.SaveGetNum? || pc.SaveExists? || pc.SaveRead?
    ensures Keeps(db, pc, started)
  {
    assert Counted(db, pc, pc.k);
    SaveKnows(db, pc);
    ReadOnly(db, pc, Request(db, pc).pc);
  }

  lemma RequestKeeps(db: map<DbKey, nat>, pc: Pc, started: nat)
    requires DataInv(db, pc, started) && !IsLocking(pc)
    ensures Keeps(db, pc, started)
  {
    match pc
    case InitCheck | InitClear | InitCounts(_) | InitMark | InitPut =>
      InitKeeps(db, pc, started);
    case SetExists(_) | SetGetNum(_) | SetPutNum(_, _) | SetPutFlag(_, _) =>
      SetKeeps(db, pc, started);
    case ClearExists(_) | ClearGetNum(_) | ClearPutNum(_, _) | ClearDelFlag(_) =>
      ClearKeeps(db, pc, started);
    case ResetDelFlag(_, _, _, _, _) =>
      ResetDelKeeps(db, pc, started);
    case SaveGetNum(_) | SaveExists(_, _, _, _) | SaveRead(_, _, _, _) =>
      SaveKeeps(db, pc, started);
    case _ =>
      ResetKeeps(db, pc, started);
  }

  lemma RequestStaysInside(db: map<DbKey, nat>, pc: Pc)
    requires !IsLocking(pc)
    ensures var pc' := Request(db, pc).pc;
            Nesting(pc') == Nesting(pc) && !pc'.Boot? && !pc'.Idle? && !pc'.Waiting?
  {
  }

  /** Taking or giving back the lock does not touch the database. */
  lemma EntryKeeps(db: map<DbKey, nat>, pc: Pc, started: nat)
    requires DataInv(db, Idle, started) && IsEntry(pc) && (started > 0 || pc.InitCheck?)
    ensures DataInv(db, pc, started)
  {
    ReadOnly(db, Idle, pc);
  }

  lemma NestedLockKeeps(db: map<DbKey, nat>, started: nat)
    requires DataInv(db, InitReset, started)
    ensures DataInv(db, ResetGetNum(0, true), started)
  {
    ReadOnly(db, InitReset, ResetGetNum(0, true));
  }

  lemma UnlockKeeps(db: map<DbKey, nat>, nested: bool, started: nat)
    requires DataInv(db, Unlock(nested), started)
    ensures DataInv(db, if nested then InitMark else Idle, started)
  {
    ReadOnly(db, Unlock(nested), if nested then InitMark else Idle);
  }

  // ------------------------------------------------------------ every interleaving

  /** The place of the session in the critical section. */
  function Inner(s: State): Pc {
    if s.owner.Some? then SessionOf(s, s.owner.value).pc else Idle
  }

  ghost predicate SessionInv(s: State, sid: nat) {
    var me := SessionOf(s, sid);
    && me.dbLock == Nesting(me.pc)
    && (me.pc.Waiting? ==> me.pc.next == EntryOf(me.job))
    && (Inside(me) <==> s.owner == Some(sid))
    && (me.pc.Idle? || (me.pc.Waiting? && !me.pc.next.InitCheck?) ==> s.initializations > 0)
  }

  ghost predicate Inv(s: State) {
    && (forall sid: nat :: SessionInv(s, sid))
    && s.depth == (if s.owner.Some? then 1 else 0)
    && DataInv(s.db, Inner(s), s.initializations)
  }

  lemma StartInv()
    ensures Inv(Start)
  {
    forall k: nat ensures Counted(Start.db, Idle, k) {
      assert FlagKeys(Start.db, k) == {};
    }
  }

  /** A session waiting for the lock, or about to ask for it. */
  lemma AskSessions(s: State, sid: nat, job: Job)
    requires (forall other: nat :: SessionInv(s, other)) && !Inside(SessionOf(s, sid))
    requires SessionOf(s, sid).dbLock == 0 && (job.Initialize? || s.initializations > 0)
    ensures forall other: nat :: SessionInv(Ask(s, sid, job), other)
  {
    var s' := Ask(s, sid, job);
    assert SessionInv(s, sid);
    forall other: nat ensures SessionInv(s', other) {
      assert SessionInv(s, other);
    }
  }

  lemma GrantSessions(s: State, sid: nat, next: Pc)
    requires (forall other: nat :: SessionInv(s, other)) && SessionOf(s, sid).pc == Waiting(next)
    ensures forall other: nat :: SessionInv(Grant(s, sid, next), other)
  {
    var s' := Grant(s, sid, next);
    assert SessionInv(s, sid);
    forall other: nat ensures SessionInv(s', other) {
      assert SessionInv(s, other);
    }
  }

  lemma OutsideSessions(s: State, sid: nat, cmd: Command)
    requires (forall other: nat :: SessionInv(s, other)) && !Inside(SessionOf(s, sid))
    requires s.depth == if s.owner.Some? then 1 else 0
    ensures var s' := Step(s, sid, cmd);
            (forall other: nat :: SessionInv(s', other)) && s'.depth == if s'.owner.Some? then 1 else 0
  {
    var pc := SessionOf(s, sid).pc;
    assert SessionInv(s, sid);
    if pc.Boot? {
      AskSessions(s, sid, Initialize);
    } else if pc.Idle? {
      AskSessions(s, sid, Do(cmd));
    } else {
      GrantSessions(s, sid, pc.next);
    }
  }

  lemma OutsideStepInv(s: State, sid: nat, cmd: Command)
    requires Inv(s) && !Inside(SessionOf(s, sid))
    ensures Inv(Step(s, sid, cmd))
  {
    var pc := SessionOf(s, sid).pc;
    assert SessionInv(s, sid);
    OutsideSessions(s, sid, cmd);
    if pc.Waiting? && s.owner == None {
      EntryKeeps(s.db, pc.next, s.initializations);
    } else {
      assert Inner(Step(s, sid, cmd)) == Inner(s);
    }
  }

  lemma InsideStepInv(s: State, sid: nat, cmd: Command)
    requires Inv(s) && Inside(SessionOf(s, sid))
    ensures Inv(Step(s, sid, cmd))
  {
    var s' := Step(s, sid, cmd);
    var pc := SessionOf(s, sid).pc;
    assert SessionInv(s, sid);
    if pc.InitReset? {
      NestedLockKeeps(s.db, s.initializations);
    } else if pc.Unlock? {
      UnlockKeeps(s.db, pc.nested, s.initializations);
    } else {
      RequestKeeps(s.db, pc, s.initializations);
      RequestStaysInside(s.db, pc);
    }
    forall other: nat ensures SessionInv(s', other) {
      assert SessionInv(s, other);
    }
  }

  lemma StepInv(s: State, sid: nat, cmd: Command)
    requires Inv(s)
    ensures Inv(Step(s, sid, cmd))
  {
    if Inside(SessionOf(s, sid)) {
      InsideStepInv(s, sid, cmd);
    } else {
      OutsideStepInv(s, sid, cmd);
    }
  }

  lemma {:induction false} RunInv(schedule: seq<(nat, Command)>)
    ensures Inv(Run(Start, schedule))
  {
    if schedule == [] {
      StartInv();
    } else {
      var n := |schedule| - 1;
      RunInv(schedule[..n]);
      StepInv(Run(Start, schedule[..n]), schedule[n].0, schedule[n].1);
    }
  }

  /** At most one session is inside its lock, nested calls included. */
  lemma MutualExclusion(schedule: seq<(nat, Command)>, a: nat, b: nat)
    requires var s := Run(Start, schedule); Inside(SessionOf(s, a)) && Inside(SessionOf(s, b))
    ensures a == b
  {
    RunInv(schedule);
    assert SessionInv(Run(Start, schedule), a) && SessionInv(Run(Start, schedule), b);
  }

  /** The configuration is initialised at most once, and before any command runs. */
  lemma InitializedOnce(schedule: seq<(nat, Command)>, sid: nat)
    ensures var s := Run(Start, schedule);
            && s.initializations <= 1
            && (SessionOf(s, sid).pc.Idle? ==> s.initializations == 1)
  {
    RunInv(schedule);
    assert SessionInv(Run(Start, schedule), sid);
  }

  /** Whenever nobody holds the lock, every count equals the number of rules present; and a
      rule is present only on a port that has a count. */
  lemma CountsAgree(schedule: seq<(nat, Command)>, k: nat)
    requires Run(Start, schedule).owner == None
    ensures var db := Run(Start, schedule).db;
            && (CountKey(k) in db ==> db[CountKey(k)] == |FlagKeys(db, k)|)
            && (CountKey(k) !in db ==> FlagKeys(db, k) == {})
  {
    RunInv(schedule);
    assert Counted(Run(Start, schedule).db, Idle, k);
  }

  /** The reset loop, which has no bound of its own, never looks past the largest rule number:
      in every reachable state a session inside it still has a rule ahead. */
  lemma ResetLoopEnds(schedule: seq<(nat, Command)>, sid: nat)
    requires SessionOf(Run(Start, schedule), sid).pc.ResetExists?
    ensures var s := Run(Start, schedule);
            var pc := SessionOf(s, sid).pc;
            && pc.id < 0x1_0000
            && |FlagKeys(s.db, pc.k)| == pc.number - pc.matched > 0
            && exists key :: key in FlagKeys(s.db, pc.k) && pc.id <= key.id
  {
    RunInv(schedule);
    var s := Run(Start, schedule);
    assert SessionInv(s, sid);
    var pc := SessionOf(s, sid).pc;
    assert Counted(s.db, pc, pc.k);
    var key :| key in FlagKeys(s.db, pc.k);
  }

  /** The save loop ends too, although it takes no rule out of the database: the rules it has not
      passed number exactly those it has still to find, and each read finds its rule. */
  lemma SaveLoopEnds(schedule: seq<(nat, Command)>, sid: nat)
    requires var pc := SessionOf(Run(Start, schedule), sid).pc; pc.SaveExists? || pc.SaveRead?
    ensures var s := Run(Start, schedule);
            var pc := SessionOf(s, sid).pc;
            && pc.id < 0x1_0000
            && (pc.SaveExists? ==> |FlagsFrom(s.db, pc.k, pc.id)| == pc.number - pc.matched > 0)
            && (pc.SaveRead? ==> FlagKey(pc.k, pc.id) in s.db)
  {
    RunInv(schedule);
    var s := Run(Start, schedule);
    assert SessionInv(s, sid);
    var pc := SessionOf(s, sid).pc;
    if pc.SaveExists? {
      var key :| key in FlagsFrom(s.db, pc.k, pc.id);
    }
  }

  // ------------------------------------------------------------ one command after the other

  /** Every slot below `n` counts nothing. */
  function ZeroCounts(db: map<DbKey, nat>, n: nat): map<DbKey, nat> {
    if n == 0 then db else ZeroCounts(db, n - 1)[CountKey(n - 1) := 0]
  }

  /** The slots below `n` without their rules. */
  function ResetSlots(db: map<DbKey, nat>, n: nat): map<DbKey, nat> {
    if n == 0 then db
    else
      var before := ResetSlots(db, n - 1);
      (before - FlagKeys(before, n - 1))[CountKey(n - 1) := 0]
  }

  function Cleared(db: map<DbKey, nat>, slots: nat): map<DbKey, nat> {
    ZeroCounts(db[Initialized := 0], slots)
  }

  /** What a session does that enters its lock at `entry`, done at once. */
  function Atomic(db: map<DbKey, nat>, entry: Pc, slots: nat): map<DbKey, nat> {
    match entry
    case InitCheck =>
      if IsInitialized(db) then db else ResetSlots(Cleared(db, slots), slots)[Initialized := 1]
    case SetExists(r) =>
      if FlagKey(r.slot, r.id) in db then db[FlagKey(r.slot, r.id) := 0]
      else if CountKey(r.slot) in db
      then db[CountKey(r.slot) := db[CountKey(r.slot)] + 1][FlagKey(r.slot, r.id) := 0]
      else db
    case ClearExists(r) =>
      if FlagKey(r.slot, r.id) in db && CountKey(r.slot) in db
      then db[CountKey(r.slot) := Decrement(db[CountKey(r.slot)])] - {FlagKey(r.slot, r.id)}
      else db
    case ResetGetNum(_, _) => ResetSlots(db, slots)
    case _ => db
  }

  /** The count keys of the ports whose rules are counted. */
  function CountKeys(): set<DbKey> {
    (set oc: nat | oc < MAX_OC_NUM :: RuleCount(Set1, oc)) + (set oc: nat | oc < MAX_OC_NUM :: RuleCount(Set2, oc))
  }

  /** No rules on those ports, and every count of them zero. */
  function Emptied(db: map<DbKey, nat>): map<DbKey, nat> {
    map key: DbKey | key in db.Keys + CountKeys() && !(key.RuleField? && key.field == Flag && key.oc < MAX_OC_NUM)
      :: if key in CountKeys() then 0 else db[key]
  }

  /** What a job is for: a rule set is present and counted once, a rule cleared is absent and no
      longer counted, a reset empties the ports, a save changes nothing. */
  function Effect(db: map<DbKey, nat>, job: Job): map<DbKey, nat> {
    match job
    case Initialize =>
      if IsInitialized(db) then db else Emptied(db)[Initialized := 1]
    case Do(SetRule(rules, oc, id)) =>
      var flag, count := RuleField(rules, oc, id, Flag), RuleCount(rules, oc);
      if flag in db then db[flag := 0]
      else if count in db then db[flag := 0][count := db[count] + 1]
      else db
    case Do(ClearRule(rules, oc, id)) =>
      var flag, count := RuleField(rules, oc, id, Flag), RuleCount(rules, oc);
      if flag in db && count in db then (db - {flag})[count := Decrement(db[count])] else db
    case Do(ResetConfig) => Emptied(db)
    case Do(SaveConfig) => db
  }

  /** The database after the jobs of a history, each done at once, one after the other. */
  function Serial(history: seq<Granted>): map<DbKey, nat> {
    if history == [] then map[]
    else Effect(Serial(history[..|history| - 1]), history[|history| - 1].job)
  }

  lemma {:induction false} ZeroCountsAt(db: map<DbKey, nat>, n: nat, key: DbKey)
    ensures var zeroed := key.RuleCount? && SlotOf(key.rules, key.oc) < n;
            var db' := ZeroCounts(db, n);
            && (key in db' <==> zeroed || key in db)
            && (key in db' ==> db'[key] == if zeroed then 0 else db[key])
  {
    if n > 0 {
      ZeroCountsAt(db, n - 1, key);
    }
  }

  lemma {:induction false} ResetSlotsAt(db: map<DbKey, nat>, n: nat, key: DbKey)
    ensures var zeroed := key.RuleCount? && SlotOf(key.rules, key.oc) < n;
            var dropped := key.RuleField? && key.field == Flag && SlotOf(key.rules, key.oc) < n;
            var db' := ResetSlots(db, n);
            && (key in db' <==> zeroed || (key in db && !dropped))
            && (key in db' ==> db'[key] == if zeroed then 0 else db[key])
  {
    if n > 0 {
      ResetSlotsAt(db, n - 1, key);
    }
  }

  /** The loop over the slots empties the ports. */
  lemma ResetIsEmptied(db: map<DbKey, nat>, slots: nat)
    requires slots == SLOTS
    ensures ResetSlots(db, slots) == Emptied(db)
  {
    forall key: DbKey
      ensures key in ResetSlots(db, slots) <==> key in Emptied(db)
      ensures key in Emptied(db) ==> ResetSlots(db, slots)[key] == Emptied(db)[key]
    {
      ResetSlotsAt(db, slots, key);
    }
  }

  lemma InitIsEmptied(db: map<DbKey, nat>, slots: nat)
    requires slots == SLOTS
    ensures ResetSlots(Cleared(db, slots), slots)[Initialized := 1] == Emptied(db)[Initialized := 1]
  {
    ResetIsEmptied(Cleared(db, slots), slots);
    forall key: DbKey | key != Initialized
      ensures key in Emptied(Cleared(db, slots)) <==> key in Emptied(db)
      ensures key in Emptied(db) ==> Emptied(Cleared(db, slots))[key] == Emptied(db)[key]
    {
      ZeroCountsAt(db[Initialized := 0], slots, key);
    }
  }

  /** The requests made for a job have, together, the effect of the job. */
  lemma AtomicIsEffect(db: map<DbKey, nat>, job: Job, slots: nat)
    requires slots == SLOTS
    ensures Atomic(db, EntryOf(job), slots) == Effect(db, job)
  {
    match job
    case Initialize =>
      InitIsEmptied(db, slots);
    case Do(SetRule(_, _, _)) =>
    case Do(ClearRule(_, _, _)) =>
    case Do(ResetConfig) =>
      ResetIsEmptied(db, slots);
    case Do(SaveConfig) =>
  }

  function FlagsBelow(db: map<DbKey, nat>, k: nat, id: nat): set<DbKey> {
    set key | key in FlagKeys(db, k) && key.id < id
  }

  /** Where a reset starts from: the database as it was, or as initialisation has cleared it. */
  function ResetBase(db0: map<DbKey, nat>, nested: bool, slots: nat): map<DbKey, nat> {
    if nested then Cleared(db0, slots) else db0
  }

  ghost predicate Resets(db0: map<DbKey, nat>, entry: Pc, nested: bool) {
    if nested then entry.InitCheck? && !IsInitialized(db0) else entry.ResetGetNum?
  }

  /** How far a session has come that entered at `entry` when the database was `db0`. */
  ghost predicate Midway(db0: map<DbKey, nat>, entry: Pc, pc: Pc, db: map<DbKey, nat>, slots: nat) {
    match pc
    case InitCheck => entry == pc && db == db0
    case InitClear => entry.InitCheck? && !IsInitialized(db0) && db == db0
    case InitCounts(n) => entry.InitCheck? && !IsInitialized(db0) && n <= slots && db == Cleared(db0, n)
    case InitReset => entry.InitCheck? && !IsInitialized(db0) && db == Cleared(db0, slots)
    case InitMark | InitPut =>
      entry.InitCheck? && !IsInitialized(db0) && db == ResetSlots(Cleared(db0, slots), slots)
    case SetExists(_) => entry == pc && db == db0
    case SetGetNum(r) => entry == SetExists(r) && db == db0 && FlagKey(r.slot, r.id) !in db0
    case SetPutNum(r, num) =>
      && entry == SetExists(r) && db == db0 && FlagKey(r.slot, r.id) !in db0
      && CountKey(r.slot) in db0 && num == db0[CountKey(r.slot)] + 1
    case SetPutFlag(r, counted) =>
      && entry == SetExists(r) && (counted <==> FlagKey(r.slot, r.id) !in db0)
      && (if counted then CountKey(r.slot) in db0 && db == db0[CountKey(r.slot) := db0[CountKey(r.slot)] + 1]
          else db == db0)
    case ClearExists(_) => entry == pc && db == db0
    case ClearGetNum(r) => entry == ClearExists(r) && db == db0 && FlagKey(r.slot, r.id) in db0
    case ClearPutNum(r, num) =>
      && entry == ClearExists(r) && db == db0 && FlagKey(r.slot, r.id) in db0
      && CountKey(r.slot) in db0 && num == Decrement(db0[CountKey(r.slot)])
    case ClearDelFlag(r) =>
      && entry == ClearExists(r) && FlagKey(r.slot, r.id) in db0 && CountKey(r.slot) in db0
      && db == db0[CountKey(r.slot) := Decrement(db0[CountKey(r.slot)])]
    case ResetGetNum(k, nested) =>
      Resets(db0, entry, nested) && k <= slots && db == ResetSlots(ResetBase(db0, nested, slots), k)
    case ResetExists(k, id, _, _, nested) =>
      Resets(db0, entry, nested) && k < slots && InSlot(ResetSlots(ResetBase(db0, nested, slots), k), k, id, db)
    case ResetDelFlag(k, id, _, _, nested) =>
      Resets(db0, entry, nested) && k < slots && InSlot(ResetSlots(ResetBase(db0, nested, slots), k), k, id, db)
    case ResetPutNum(k, nested) =>
      var before := ResetSlots(ResetBase(db0, nested, slots), k);
      Resets(db0, entry, nested) && k < slots && db == before - FlagKeys(before, k)
    case SaveGetNum(_) | SaveExists(_, _, _, _) | SaveRead(_, _, _, _) => entry.SaveGetNum? && db == db0
    case Unlock(nested) =>
      if nested
      then entry.InitCheck? && !IsInitialized(db0) && db == ResetSlots(Cleared(db0, slots), slots)
      else db == Atomic(db0, entry, slots)
    case _ => false
  }

  /** Slot `k` has lost its rules below `id`. */
  ghost predicate InSlot(before: map<DbKey, nat>, k: nat, id: nat, db: map<DbKey, nat>) {
    db == before - FlagsBelow(before, k, id)
  }

  lemma SlotHead(before: map<DbKey, nat>, k: nat, db: map<DbKey, nat>)
    requires db == before
    ensures InSlot(before, k, 0, db)
  {
    assert FlagsBelow(before, k, 0) == {};
  }

  /** One round of the reset loop at number `id`. */
  lemma SlotNext(before: map<DbKey, nat>, k: nat, id: nat, db: map<DbKey, nat>)
    requires InSlot(before, k, id, db)
    ensures InSlot(before, k, id + 1, db - {FlagKey(k, id)})
  {
    forall key | key in FlagsBelow(before, k, id + 1) && key !in FlagsBelow(before, k, id)
      ensures key == FlagKey(k, id)
    {
    }
    var db' := db - {FlagKey(k, id)};
    assert db' == before - FlagsBelow(before, k, id + 1);
  }

  /** The loop ends when the slot is empty, and then every rule of it is gone. */
  lemma SlotDone(before: map<DbKey, nat>, k: nat, id: nat, db: map<DbKey, nat>)
    requires InSlot(before, k, id, db) && FlagKeys(db, k) == {}
    ensures db == before - FlagKeys(before, k)
  {
    assert forall key | key in FlagKeys(before, k) && key !in FlagsBelow(before, k, id) :: key in FlagKeys(db, k);
    assert FlagsBelow(before, k, id) == FlagKeys(before, k);
  }

  ghost predicate StaysMidway(db0: map<DbKey, nat>, entry: Pc, pc: Pc, db: map<DbKey, nat>, slots: nat)
    requires !IsLocking(pc)
  {
    var w := Request(db, pc);
    Midway(db0, entry, w.pc, w.db, slots)
  }

  lemma InitStep(db0: map<DbKey, nat>, entry: Pc, pc: Pc, db: map<DbKey, nat>, slots: nat)
    requires Midway(db0, entry, pc, db, slots) && slots == SLOTS
    requires pc.InitCheck? || pc.InitClear? || pc.InitCounts? || pc.InitMark? || pc.InitPut?
    requires pc.InitMark? ==> !IsInitialized(db)
    ensures StaysMidway(db0, entry, pc, db, slots)
  {
  }

  lemma SetStep(db0: map<DbKey, nat>, entry: Pc, pc: Pc, db: map<DbKey, nat>, slots: nat)
    requires Midway(db0, entry, pc, db, slots)
    requires pc.SetExists? || pc.SetGetNum? || pc.SetPutNum? || pc.SetPutFlag?
    ensures StaysMidway(db0, entry, pc, db, slots)
  {
  }

  lemma ClearStep(db0: map<DbKey, nat>, entry: Pc, pc: Pc, db: map<DbKey, nat>, slots: nat)
    requires Midway(db0, entry, pc, db, slots)
    requires pc.ClearExists? || pc.ClearGetNum? || pc.ClearPutNum? || pc.ClearDelFlag?
    ensures StaysMidway(db0, entry, pc, db, slots)
  {
  }

  lemma SaveStep(db0: map<DbKey, nat>, entry: Pc, pc: Pc, db: map<DbKey, nat>, slots: nat)
    requires Midway(db0, entry, pc, db, slots)
    requires pc.SaveGetNum? || pc.SaveExists? || pc.SaveRead?
    ensures StaysMidway(db0, entry, pc, db, slots)
  {
  }

  lemma ResetEndsStep(db0: map<DbKey, nat>, entry: Pc, pc: Pc, db: map<DbKey, nat>, slots: nat)
    requires Midway(db0, entry, pc, db, slots) && slots == SLOTS
    requires pc.ResetGetNum? || pc.ResetPutNum?
    requires CountsExist(db) && Knows(Request(db, pc).db, Request(db, pc).pc)
    ensures StaysMidway(db0, entry, pc, db, slots)
  {
    if pc.ResetGetNum? && pc.k < slots {
      var before := ResetSlots(ResetBase(db0, pc.nested, slots), pc.k);
      SlotHead(before, pc.k, db);
      if Request(db, pc).pc.ResetPutNum? {
        SlotDone(before, pc.k, 0, db);
      }
    }
  }

  /** A round of the reset loop, which ends only when its slot is empty. */
  lemma ResetRoundStep(db0: map<DbKey, nat>, entry: Pc, pc: Pc, db: map<DbKey, nat>, slots: nat)
    requires Midway(db0, entry, pc, db, slots)
    requires pc.ResetExists? || pc.ResetDelFlag?
    requires Knows(Request(db, pc).db, Request(db, pc).pc)
    ensures StaysMidway(db0, entry, pc, db, slots)
  {
    var w := Request(db, pc);
    var before := ResetSlots(ResetBase(db0, pc.nested, slots), pc.k);
    if !w.pc.ResetDelFlag? {
      SlotNext(before, pc.k, pc.id, db);
      assert w.db == db - {FlagKey(pc.k, pc.id)};
      if w.pc.ResetPutNum? {
        SlotDone(before, pc.k, pc.id + 1, w.db);
      }
    }
  }

  /** With the lock free the database is what the history gives; inside it, the last command of
      the history is on its way. */
  ghost predicate Linear(s: State, slots: nat) {
    var n := |s.history| - 1;
    if s.owner == None then s.db == Serial(s.history)
    else n >= 0 && Midway(Serial(s.history[..n]), EntryOf(s.history[n].job), Inner(s), s.db, slots)
  }

  /** A command that has just been let in has done nothing yet. */
  lemma EntryIsMidway(db: map<DbKey, nat>, entry: Pc, slots: nat)
    requires IsEntry(entry)
    ensures Midway(db, entry, entry, db, slots)
  {
  }

  /** Asking for the lock, and waiting for it, changes nothing for the session that has it. */
  lemma OutsideUnmoved(s: State, sid: nat, cmd: Command)
    requires SessionInv(s, sid) && !Inside(SessionOf(s, sid))
    requires !(SessionOf(s, sid).pc.Waiting? && s.owner == None)
    ensures var s' := Step(s, sid, cmd);
            s'.owner == s.owner && s'.db == s.db && s'.history == s.history && Inner(s') == Inner(s)
  {
  }

  lemma OutsideLinear(s: State, sid: nat, cmd: Command, slots: nat)
    requires Inv(s) && Linear(s, slots) && !Inside(SessionOf(s, sid))
    ensures Linear(Step(s, sid, cmd), slots)
  {
    var pc := SessionOf(s, sid).pc;
    assert SessionInv(s, sid);
    if pc.Waiting? && s.owner == None {
      var s' := Grant(s, sid, pc.next);
      assert s'.history[..|s'.history| - 1] == s.history && Inner(s') == pc.next;
      EntryIsMidway(s.db, pc.next, slots);
    } else {
      OutsideUnmoved(s, sid, cmd);
    }
  }

  lemma InsideLinear(s: State, sid: nat, cmd: Command, slots: nat)
    requires Inv(s) && Linear(s, slots) && Inside(SessionOf(s, sid)) && slots == SLOTS
    ensures Linear(Step(s, sid, cmd), slots)
  {
    var pc := SessionOf(s, sid).pc;
    assert SessionInv(s, sid);
    var n := |s.history| - 1;
    var db0, job := Serial(s.history[..n]), s.history[n].job;
    if pc.Unlock? {
      AtomicIsEffect(db0, job, slots);
    } else if !pc.InitReset? {
      RequestLinear(s.db, pc, s.initializations, db0, EntryOf(job), slots);
      RequestStaysInside(s.db, pc);
    }
  }

  lemma RequestKnows(db: map<DbKey, nat>, pc: Pc, started: nat)
    requires DataInv(db, pc, started) && !IsLocking(pc)
    ensures Knows(Request(db, pc).db, Request(db, pc).pc)
    ensures pc.ResetGetNum? || pc.ResetPutNum? ==> CountsExist(db)
  {
    RequestKeeps(db, pc, started);
  }

  lemma RequestLinear(db: map<DbKey, nat>, pc: Pc, started: nat, db0: map<DbKey, nat>, entry: Pc, slots: nat)
    requires DataInv(db, pc, started) && !IsLocking(pc)
    requires Midway(db0, entry, pc, db, slots) && slots == SLOTS
    ensures StaysMidway(db0, entry, pc, db, slots)
  {
    match pc
    case SetExists(_) | SetGetNum(_) | SetPutNum(_, _) | SetPutFlag(_, _) =>
      SetStep(db0, entry, pc, db, slots);
    case ClearExists(_) | ClearGetNum(_) | ClearPutNum(_, _) | ClearDelFlag(_) =>
      ClearStep(db0, entry, pc, db, slots);
    case SaveGetNum(_) | SaveExists(_, _, _, _) | SaveRead(_, _, _, _) =>
      SaveStep(db0, entry, pc, db, slots);
    case ResetGetNum(_, _) | ResetPutNum(_, _) =>
      RequestKnows(db, pc, started);
      ResetEndsStep(db0, entry, pc, db, slots);
    case ResetExists(_, _, _, _, _) | ResetDelFlag(_, _, _, _, _) =>
      RequestKnows(db, pc, started);
      ResetRoundStep(db0, entry, pc, db, slots);
    case _ =>
      InitStep(db0, entry, pc, db, slots);
  }

  lemma {:induction false} RunLinear(schedule: seq<(nat, Command)>, slots: nat)
    requires slots == SLOTS
    ensures Linear(Run(Start, schedule), slots)
  {
    if schedule != [] {
      var n := |schedule| - 1;
      var s := Run(Start, schedule[..n]);
      RunInv(schedule[..n]);
      RunLinear(schedule[..n], slots);
      if Inside(SessionOf(s, schedule[n].0)) {
        InsideLinear(s, schedule[n].0, schedule[n].1, slots);
      } else {
        OutsideLinear(s, schedule[n].0, schedule[n].1, slots);
      }
    }
  }

  /** Whenever nobody holds the lock, the database is what the jobs of the sessions give when each
      is done at once, one after the other, in the order in which the lock was granted. */
  lemma Serializable(schedule: seq<(nat, Command)>)
    requires Run(Start, schedule).owner == None
    ensures Run(Start, schedule).db == Serial(Run(Start, schedule).history)
  {
    var slots: nat :| slots == SLOTS;
    RunLinear(schedule, slots);
  }

  /** What a session is told to do at `pc`: to initialise when it starts, and a command whenever
      it is idle. */
  function Told(pc: Pc, cmd: Command): seq<Job> {
    if pc.Boot? then [Initialize] else if pc.Idle? then [Do(cmd)] else []
  }

  /** What a schedule tells session `sid` to do. */
  function Asked(schedule: seq<(nat, Command)>, sid: nat): seq<Job> {
    if schedule == [] then []
    else
      var n := |schedule| - 1;
      var pc := SessionOf(Run(Start, schedule[..n]), sid).pc;
      Asked(schedule[..n], sid) + if schedule[n].0 == sid then Told(pc, schedule[n].1) else []
  }

  function JobsOf(history: seq<Granted>, sid: nat): seq<Job> {
    if history == [] then []
    else
      var n := |history| - 1;
      JobsOf(history[..n], sid) + if history[n].sid == sid then [history[n].job] else []
  }

  function Pending(me: Session): seq<Job> {
    if me.pc.Waiting? then [me.job] else []
  }

  lemma OneMoreJob(history: seq<Granted>, granted: Granted, sid: nat)
    ensures JobsOf(history + [granted], sid)
         == JobsOf(history, sid) + if granted.sid == sid then [granted.job] else []
  {
    assert (history + [granted])[..|history|] == history;
  }

  lemma StepHistory(s: State, sid: nat, cmd: Command)
    requires SessionInv(s, sid)
    ensures Step(s, sid, cmd).history
         == s.history + if SessionOf(s, sid).pc.Waiting? && Inside(SessionOf(Step(s, sid, cmd), sid))
                        then [Granted(sid, SessionOf(s, sid).job)] else []
  {
  }

  lemma StepPending(s: State, sid: nat, cmd: Command, other: nat)
    requires SessionInv(s, sid)
    ensures var me, me' := SessionOf(s, sid), SessionOf(Step(s, sid, cmd), sid);
            Pending(me') == if me.pc.Waiting? then (if Inside(me') then [] else Pending(me)) else Told(me.pc, cmd)
    ensures other != sid ==> SessionOf(Step(s, sid, cmd), other) == SessionOf(s, other)
  {
    var pc := SessionOf(s, sid).pc;
    if !IsLocking(pc) {
      RequestStaysInside(s.db, pc);
    }
  }

  lemma MovedJobs(h: seq<Granted>, h': seq<Granted>, me: Session, me': Session, mover: nat, told: seq<Job>, sid: nat)
    requires h' == h + if me.pc.Waiting? && Inside(me') then [Granted(mover, me.job)] else []
    requires Pending(me') == if me.pc.Waiting? then (if Inside(me') then [] else Pending(me)) else told
    requires me.pc.Waiting? ==> told == []
    ensures mover != sid ==> JobsOf(h', sid) == JobsOf(h, sid)
    ensures mover == sid ==> JobsOf(h', sid) + Pending(me') == JobsOf(h, sid) + Pending(me) + told
  {
    if me.pc.Waiting? && Inside(me') {
      OneMoreJob(h, Granted(mover, me.job), sid);
    } else {
      assert h' == h;
    }
  }

  lemma StepJobs(s: State, mover: nat, cmd: Command, sid: nat)
    requires SessionInv(s, mover)
    ensures JobsOf(Step(s, mover, cmd).history, sid) + Pending(SessionOf(Step(s, mover, cmd), sid))
         == JobsOf(s.history, sid) + Pending(SessionOf(s, sid))
          + if mover == sid then Told(SessionOf(s, sid).pc, cmd) else []
  {
    StepHistory(s, mover, cmd);
    StepPending(s, mover, cmd, sid);
    MovedJobs(s.history, Step(s, mover, cmd).history, SessionOf(s, mover), SessionOf(Step(s, mover, cmd), mover),
              mover, Told(SessionOf(s, mover).pc, cmd), sid);
  }

  /** The jobs in the history are those asked for: each session is granted the lock for exactly
      what it was told to do, in order, up to the one it is waiting for. */
  lemma {:induction false} GrantedAsAsked(schedule: seq<(nat, Command)>, sid: nat)
    ensures var s := Run(Start, schedule);
            JobsOf(s.history, sid) + Pending(SessionOf(s, sid)) == Asked(schedule, sid)
  {
    if schedule != [] {
      var n := |schedule| - 1;
      var s := Run(Start, schedule[..n]);
      RunInv(schedule[..n]);
      assert SessionInv(s, schedule[n].0);
      GrantedAsAsked(schedule[..n], sid);
      StepJobs(s, schedule[n].0, schedule[n].1, sid);
    }
  }
}
