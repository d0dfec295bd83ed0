/** The store of ConfigStore with everything below it: keys printed as C strings, values as bytes,
    one call of the client library for each operation, the framing, the server and its hash table. */
module RemoteStore {
  import opened Basics
  import opened ConfigStore
  import opened KeyNames
  import HashTable
  import Ipc
  import JenkinsHash
  import RuleStore
  import WildcardMatch

  type Bytes = Ipc.Bytes

  // ------------------------------------------------------------ keys as bytes

  /** Characters that a C string can hold. */
  predicate IsText(s: string) {
    forall i | 0 <= i < |s| :: 0 < s[i] as int < 0x100
  }

  /** Letters, digits, dots and underscores: nothing that means anything in a pattern. */
  predicate Plain(s: string) {
    forall i | 0 <= i < |s| ::
      s[i] == '.' || '0' <= s[i] <= '9' || 'A' <= s[i] <= 'Z' || s[i] == '_' || 'a' <= s[i] <= 'z'
  }

  lemma JoinPlain(parts: seq<string>)
    requires forall i | 0 <= i < |parts| :: Plain(parts[i])
    ensures Plain(Join(parts))
  {
    if |parts| > 1 {
      JoinPlain(parts[1..]);
    }
  }

  lemma NamePlain(k: DbKey)
    ensures Plain(Name(k))
  {
    forall i | 0 <= i < |Components(k)| ensures Plain(Components(k)[i]) {
      if k.RuleField? && i == 3 {
        FieldNamePlain(k.field);
      }
    }
    JoinPlain(Components(k));
  }

  lemma FieldNamePlain(f: Field)
    ensures Plain(FieldName(f)) && |FieldName(f)| <= 15
  {
    match f
    case Flag =>
    case Protocol =>
    case Srcip =>
    case SrcipMask =>
    case Dstip =>
    case DstipMask =>
    case Srcl4port =>
    case Dstl4port =>
    case PacketlenRange =>
    case Offset =>
    case Key =>
    case Mask =>
  }

  function Pow10(d: nat): nat {
    if d == 0 then 1 else 10 * Pow10(d - 1)
  }

  lemma {:induction false} DecimalLength(n: nat, d: nat)
    requires d > 0 && n < Pow10(d)
    ensures |Decimal(n)| <= d
  {
    if n >= 10 {
      DecimalLength(n / 10, d - 1);
    }
  }

  /** The numbers in a key are 32 bits wide. */
  predicate HasWords(k: DbKey) {
    match k
    case Initialized => true
    case RuleCount(_, oc) => oc < 0x1_0000_0000
    case RuleField(_, oc, id, _) => oc < 0x1_0000_0000 && id < 0x1_0000_0000
    case ForwardMode(oc, i, j) => oc < 0x1_0000_0000 && i < 0x1_0000_0000 && j < 0x1_0000_0000
  }

  lemma WordLength(n: Word)
    ensures |Decimal(n)| <= 10
  {
    assert Pow10(10) == 10_000_000_000;
    DecimalLength(n, 10);
  }

  lemma {:induction false} JoinLength(parts: seq<string>, longest: nat)
    requires forall i | 0 <= i < |parts| :: |parts[i]| <= longest
    ensures |Join(parts)| <= |parts| * (longest + 1)
  {
    if |parts| > 1 {
      JoinLength(parts[1..], longest);
    }
  }

  /** The key buffer is long enough for every key of 32-bit numbers. */
  lemma NameFits(k: DbKey)
    requires HasWords(k)
    ensures |Name(k)| < Ipc.MAX_KEY
  {
    var parts := Components(k);
    forall i | 0 <= i < |parts| ensures |parts[i]| <= 15 {
      match k
      case Initialized =>
      case RuleCount(_, oc) =>
        WordLength(oc);
      case RuleField(_, oc, id, f) =>
        WordLength(oc);
        WordLength(id);
        FieldNamePlain(f);
      case ForwardMode(oc, r, c) =>
        WordLength(oc);
        WordLength(r);
        WordLength(c);
    }
    JoinLength(parts, 15);
  }

  function Chars(s: string): (b: Bytes)
    requires IsText(s)
    ensures |b| == |s| && forall i | 0 <= i < |b| :: b[i] == s[i] as int != 0
  {
    seq(|s|, i requires 0 <= i < |s| => s[i] as int)
  }

  /** A printed key as the library sends it, with the byte that ends it. */
  function KeyBytes(k: DbKey): (b: Bytes)
    ensures |b| == |Name(k)| + 1 && Ipc.IsCString(b)
  {
    NamePlain(k);
    Chars(Name(k)) + [0]
  }

  lemma KeyBytesInjective(k: DbKey, l: DbKey)
    requires KeyBytes(k) == KeyBytes(l)
    ensures k == l
  {
    assert |Name(k)| == |Name(l)|;
    forall i | 0 <= i < |Name(k)| ensures Name(k)[i] == Name(l)[i] {
      assert KeyBytes(k)[i] == Name(k)[i] as int && KeyBytes(l)[i] == Name(l)[i] as int;
    }
    NameInjective(k, l);
  }

  // ------------------------------------------------------------ values as bytes

  /** What the library can carry: a 32-bit number, or bytes that fit into a buffer. */
  predicate Fits(v: Value) {
    match v
    case Ul(n) => n < 0x1_0000_0000
    case Blob(b) => |b| <= Ipc.MAX_VALUE && forall i | 0 <= i < |b| :: b[i] < 0x100
  }

  function ShortBytes(n: Short): (b: Bytes)
    ensures |b| == 2 && ShortOf(b) == n
  {
    [n / 0x100, n % 0x100]
  }

  function ShortOf(b: Bytes): Short
    requires |b| == 2
  {
    var high: nat, low: nat := b[0], b[1];
    high * 0x100 + low
  }

  predicate Sendable(c: Change) {
    |Name(c.key)| < Ipc.MAX_KEY && (c.Put? ==> Fits(c.value))
  }

  /** The four bytes of a number, most significant first. */
  function UlBytes(n: Word): (b: Bytes)
    ensures |b| == 4 && UlOf(b) == n
    ensures b[0] == n / 0x100_0000 && b[3] == n % 0x100
  {
    var b := ShortBytes(n / 0x1_0000) + ShortBytes(n % 0x1_0000);
    assert b[..2] == ShortBytes(n / 0x1_0000) && b[2..4] == ShortBytes(n % 0x1_0000);
    b
  }

  function UlOf(b: Bytes): Word
    requires |b| >= 4
  {
    var high: nat, low: nat := ShortOf(b[..2]), ShortOf(b[2..4]);
    high * 0x1_0000 + low
  }

  function ValueBytes(v: Value): (b: Bytes)
    requires Fits(v)
    ensures |b| <= Ipc.MAX_VALUE
  {
    match v
    case Ul(n) => UlBytes(n)
    case Blob(b) => b
  }

  ghost predicate IsKeyBy(enc: DbKey -> Bytes, b: Bytes, view: map<DbKey, Value>) {
    exists k :: k in view && enc(k) == b
  }

  /** The table holds exactly the view, under a way of writing keys. */
  ghost predicate RepresentsBy(enc: DbKey -> Bytes, contents: map<Bytes, Bytes>, view: map<DbKey, Value>) {
    && (forall k | k in view :: Fits(view[k]))
    && (forall k {:trigger enc(k)} ::
          && (k in view <==> enc(k) in contents)
          && (k in view ==> contents[enc(k)] == ValueBytes(view[k])))
    && (forall b | b in contents :: IsKeyBy(enc, b, view))
  }

  lemma AddedBy(enc: DbKey -> Bytes, contents: map<Bytes, Bytes>, view: map<DbKey, Value>, k: DbKey, v: Value)
    requires RepresentsBy(enc, contents, view) && Fits(v) && forall l | enc(l) == enc(k) :: l == k
    ensures RepresentsBy(enc, contents[enc(k) := ValueBytes(v)], view[k := v])
  {
    var added := contents[enc(k) := ValueBytes(v)];
    forall b | b in added ensures IsKeyBy(enc, b, view[k := v]) {
      var l :| enc(l) == b && (l == k || l in view);
      assert l in view[k := v];
    }
  }

  lemma RemovedBy(enc: DbKey -> Bytes, contents: map<Bytes, Bytes>, view: map<DbKey, Value>, k: DbKey)
    requires RepresentsBy(enc, contents, view) && forall l | enc(l) == enc(k) :: l == k
    ensures RepresentsBy(enc, contents - {enc(k)}, view - {k})
  {
    var left := contents - {enc(k)};
    forall b | b in left ensures IsKeyBy(enc, b, view - {k}) {
      var l :| l in view && enc(l) == b;
      assert l in view - {k};
    }
  }

  lemma HeldBy(enc: DbKey -> Bytes, contents: map<Bytes, Bytes>, view: map<DbKey, Value>, k: DbKey)
    requires RepresentsBy(enc, contents, view)
    ensures k in view <==> enc(k) in contents
    ensures k in view ==> contents[enc(k)] == ValueBytes(view[k])
  {
  }

  lemma KeyBy(enc: DbKey -> Bytes, contents: map<Bytes, Bytes>, view: map<DbKey, Value>, b: Bytes) returns (k: DbKey)
    requires RepresentsBy(enc, contents, view) && b in contents
    ensures k in view && enc(k) == b
  {
    assert IsKeyBy(enc, b, view);
    k :| k in view && enc(k) == b;
  }

  /** The table holds exactly the view. */
  ghost predicate Represents(contents: map<Bytes, Bytes>, view: map<DbKey, Value>) {
    RepresentsBy(KeyBytes, contents, view)
  }

  lemma RepresentsAdded(contents: map<Bytes, Bytes>, view: map<DbKey, Value>, k: DbKey, v: Value)
    requires Represents(contents, view) && Fits(v)
    ensures Represents(contents[KeyBytes(k) := ValueBytes(v)], view[k := v])
  {
    forall l | KeyBytes(l) == KeyBytes(k) ensures l == k {
      KeyBytesInjective(l, k);
    }
    AddedBy(KeyBytes, contents, view, k, v);
  }

  lemma RepresentsRemoved(contents: map<Bytes, Bytes>, view: map<DbKey, Value>, k: DbKey)
    requires Represents(contents, view)
    ensures Represents(contents - {KeyBytes(k)}, view - {k})
  {
    forall l | KeyBytes(l) == KeyBytes(k) ensures l == k {
      KeyBytesInjective(l, k);
    }
    RemovedBy(KeyBytes, contents, view, k);
  }

  // ------------------------------------------------------------ listings

  lemma {:induction false} TextOfChars(s: string)
    requires IsText(s)
    ensures HashTable.Text(Chars(s)) == s
  {
    if s != "" {
      TextOfChars(s[1..]);
      assert Chars(s)[1..] == Chars(s[1..]);
      assert s == [s[0]] + s[1..];
    }
  }

  lemma TextOfKey(k: DbKey)
    ensures HashTable.Text(KeyBytes(k)) == Name(k)
  {
    NamePlain(k);
    TextOfChars(Name(k));
    Ipc.TextUpToNul(Chars(Name(k)), []);
    assert Chars(Name(k)) + [0] + [] == KeyBytes(k);
  }

  ghost predicate Selects(pattern: string, k: DbKey)
    requires WildcardMatch.WellFormed(pattern)
  {
    WildcardMatch.Glob(WildcardMatch.Effective(WildcardMatch.Tokens(pattern)), Name(k))
  }

  /** The listing shows each selected key of the view once, with its value, and nothing else. */
  ghost predicate Dumps(pattern: string, view: map<DbKey, Value>, found: seq<(Bytes, Bytes)>)
    requires WildcardMatch.WellFormed(pattern) && forall k | k in view :: Fits(view[k])
  {
    && HashTable.DistinctFirst(found)
    && (forall k | k in view && Selects(pattern, k) :: (KeyBytes(k), ValueBytes(view[k])) in found)
    && (forall e | e in found ::
          exists k :: k in view && Selects(pattern, k) && e == (KeyBytes(k), ValueBytes(view[k])))
  }

  lemma ListingDumps(pattern: string, contents: map<Bytes, Bytes>, view: map<DbKey, Value>, found: seq<(Bytes, Bytes)>)
    requires WildcardMatch.WellFormed(pattern) && Represents(contents, view)
    requires HashTable.Lists(pattern, contents, found)
    ensures Dumps(pattern, view, found)
  {
    forall k | k in view && Selects(pattern, k) ensures (KeyBytes(k), ValueBytes(view[k])) in found {
      HeldBy(KeyBytes, contents, view, k);
      TextOfKey(k);
      assert HashTable.Selected(pattern, KeyBytes(k));
    }
    forall e | e in found
      ensures exists k :: k in view && Selects(pattern, k) && e == (KeyBytes(k), ValueBytes(view[k]))
    {
      assert (e.0, e.1) in found;
      var k := KeyBy(KeyBytes, contents, view, e.0);
      HeldBy(KeyBytes, contents, view, k);
      TextOfKey(k);
      assert Selects(pattern, k);
    }
  }

  lemma SelectorSelects(pattern: string, k: DbKey)
    requires WildcardMatch.CString(pattern) && WildcardMatch.WellFormed(pattern)
    ensures HashTable.SelectorOf(pattern)(KeyBytes(k)) <==> Selects(pattern, k)
  {
    TextOfKey(k);
  }

  lemma OnlyTwo(view: map<DbKey, Value>, k: DbKey, l: DbKey, absent: DbKey)
    requires view == map[k := Ul(0), l := Ul(0)] && absent != k && absent != l
    ensures view.Keys == {k, l} && absent !in view
  {
  }

  /** The same operations as those of `ConfigStore.Store`, with the same effects on the view; an
      insertion may find no memory at the server. */
  class Store {
    const conn: Ipc.Connection
    ghost var view: map<DbKey, Value>

    ghost predicate Valid()
      reads this, conn.client, conn.server`entryAt, conn.server.buf, conn.server.table
      reads conn.server.table.bins, conn.server.table.repr, conn.up, conn.down
    {
      conn.Valid() && conn.client.h.found <= Ipc.MAX_VALUE && Represents(conn.server.table.contents, view)
    }

    constructor (h: Ipc.Header, clientData: Bytes, serverData: Bytes)
      requires |clientData| == |serverData| == Ipc.ROOM && h.found <= Ipc.MAX_VALUE
      ensures Valid() && view == map[] && fresh(conn) && fresh(conn.client) && fresh(conn.server)
      ensures fresh(conn.server.buf) && fresh(conn.server.table) && fresh(conn.server.table.bins)
      ensures fresh(conn.server.table.repr) && fresh(conn.up) && fresh(conn.down)
      ensures conn.server.table.index == JenkinsHash.Bin
    {
      conn := new Ipc.Connection(h, clientData, serverData);
      view := map[];
    }

    /** One call of the client library. */
    method Call(op: Ipc.Op, memory: bool) returns (a: Ipc.Answer)
      requires Valid() && Ipc.Fits(op)
      modifies conn.client, conn.server.buf, conn.server`held, conn.server.table
      modifies conn.server.table.bins, conn.server.table.repr, conn.up, conn.down
      ensures conn.Valid() && conn.client.h.found <= Ipc.MAX_VALUE
      ensures fresh(conn.server.table.repr - old(conn.server.table.repr))
      ensures conn.server.table.contents == Ipc.Done(old(conn.server.table.contents), op, memory)
      ensures a == Ipc.Answered(old(conn.server.table.contents), op, memory, old(conn.server.held))
      ensures op.Add? && memory ==> conn.server.table.Heads(op.key)
    {
      a := conn.Call(op, memory);
    }

    /** `db_cl_insert_ul` and `db_cl_insert_blob`. */
    method Insert(k: DbKey, v: Value, memory: bool) returns (r: int)
      requires Valid() && |Name(k)| < Ipc.MAX_KEY && Fits(v)
      modifies this`view, conn.client, conn.server.buf, conn.server`held, conn.server.table
      modifies conn.server.table.bins, conn.server.table.repr, conn.up, conn.down
      ensures Valid() && fresh(conn.server.table.repr - old(conn.server.table.repr))
      ensures r == (if memory then 0 else -1) && view == if memory then old(view)[k := v] else old(view) - {k}
      ensures memory ==> conn.server.table.Heads(KeyBytes(k))
    {
      RepresentsAdded(conn.server.table.contents, view, k, v);
      RepresentsRemoved(conn.server.table.contents, view, k);
      var a := Call(Ipc.Add(KeyBytes(k), ValueBytes(v)), memory);
      view := if memory then view[k := v] else view - {k};
      r := if a.result < 0 then -1 else 0;
    }

    /** `db_cl_delete`. */
    method Delete(k: DbKey) returns (r: int)
      requires Valid() && |Name(k)| < Ipc.MAX_KEY
      modifies this`view, conn.client, conn.server.buf, conn.server`held, conn.server.table
      modifies conn.server.table.bins, conn.server.table.repr, conn.up, conn.down
      ensures Valid() && fresh(conn.server.table.repr - old(conn.server.table.repr))
      ensures view == old(view) - {k} && r == if k in old(view) then 0 else -1
    {
      RepresentsRemoved(conn.server.table.contents, view, k);
      HeldBy(KeyBytes, conn.server.table.contents, view, k);
      var a := Call(Ipc.Delete(KeyBytes(k)), true);
      view := view - {k};
      r := if a.result < 0 then -1 else 0;
    }

    /** `db_cl_key_exists`. */
    method Exists(k: DbKey) returns (r: int)
      requires Valid() && |Name(k)| < Ipc.MAX_KEY
      modifies conn.client, conn.server.buf, conn.server`held, conn.server.table
      modifies conn.server.table.bins, conn.server.table.repr, conn.up, conn.down
      ensures Valid() && fresh(conn.server.table.repr - old(conn.server.table.repr))
      ensures r == if k in view then -1 else 0
    {
      HeldBy(KeyBytes, conn.server.table.contents, view, k);
      var a := Call(Ipc.Exists(KeyBytes(k)), true);
      r := a.result;
    }

    /** The changes that commands made to a store above, made over the connection: the hash table at
        the far end then holds just what that store stands for. */
    method Mirror(changes: seq<Change>, ghost store: ConfigStore.Store)
      requires Valid() && view == map[] && store.Valid() && changes == store.trace
      requires forall k | 0 <= k < |changes| :: Sendable(changes[k])
      modifies this`view, conn.client, conn.server.buf, conn.server`held, conn.server.table
      modifies conn.server.table.bins, conn.server.table.repr, conn.up, conn.down
      ensures Valid() && view == store.view
    {
      MakeAll(changes);
    }

    /** What any run of rule commands leaves: each rule of the table is in the hash table, field by
        field, and nothing else that a rule is made of. */
    method MirrorRules(changes: seq<Change>, ghost db: RuleStore.Database)
      requires Valid() && view == map[] && db.Valid() && changes == db.store.trace
      requires forall k | 0 <= k < |changes| :: Sendable(changes[k])
      modifies this`view, conn.client, conn.server.buf, conn.server`held, conn.server.table
      modifies conn.server.table.bins, conn.server.table.repr, conn.up, conn.down
      ensures Valid() && RuleStore.Represents(view, db.rules)
    {
      Mirror(changes, db.store);
    }

    method MakeAll(changes: seq<Change>)
      requires Valid() && view == map[] && forall k | 0 <= k < |changes| :: Sendable(changes[k])
      modifies this`view, conn.client, conn.server.buf, conn.server`held, conn.server.table
      modifies conn.server.table.bins, conn.server.table.repr, conn.up, conn.down
      ensures Valid() && view == Changed(changes)
    {
      assert changes[..|changes|] == changes;
      for k := 0 to |changes|
        invariant Valid() && fresh(conn.server.table.repr - old(conn.server.table.repr))
        invariant view == Changed(changes[..k])
      {
        ChangedUpTo(changes, k);
        Make(changes[k]);
      }
    }

    method Make(c: Change)
      requires Valid() && Sendable(c)
      modifies this`view, conn.client, conn.server.buf, conn.server`held, conn.server.table
      modifies conn.server.table.bins, conn.server.table.repr, conn.up, conn.down
      ensures Valid() && fresh(conn.server.table.repr - old(conn.server.table.repr))
      ensures view == WithChange(old(view), c)
    {
      if c.Put? {
        var r := Insert(c.key, c.value, true);
      } else {
        var r := Delete(c.key);
      }
    }

    /** `db_dump`: the keys that match a pattern.  Whether the store can answer every call afterwards
        depends on the chains alone. */
    method Dump(pattern: string) returns (found: seq<(Bytes, Bytes)>)
      requires Valid() && IsText(pattern) && |pattern| < Ipc.ROOM
      modifies conn.client, conn.server.buf, conn.server`entryAt, conn.up, conn.down
      ensures conn.Valid() && Represents(conn.server.table.contents, view) && (found == [] ==> Valid())
      ensures WildcardMatch.WellFormed(pattern) ==>
                && Dumps(pattern, view, found)
                && (Valid() <==> !HashTable.Strands(HashTable.SelectorOf(pattern), conn.server.table.chains))
      ensures WildcardMatch.WellFormed(pattern) && (forall k | k in view :: Selects(pattern, k)) ==> Valid()
    {
      TextOfChars(pattern);
      found := conn.List(Chars(pattern));
      if WildcardMatch.WellFormed(pattern) {
        ListingDumps(pattern, conn.server.table.contents, view, found);
        WholeDump(pattern);
      }
    }

    /** A listing of everything never strands. */
    lemma WholeDump(pattern: string)
      requires conn.Valid() && Represents(conn.server.table.contents, view)
      requires WildcardMatch.CString(pattern) && WildcardMatch.WellFormed(pattern)
      ensures (forall k | k in view :: Selects(pattern, k)) ==>
                !HashTable.Strands(HashTable.SelectorOf(pattern), conn.server.table.chains)
    {
      if forall k | k in view :: Selects(pattern, k) {
        var table, sel := conn.server.table, HashTable.SelectorOf(pattern);
        forall b: nat, i: nat | b < |table.chains| && i < |table.chains[b]| ensures sel(table.chains[b][i].key) {
          HashTable.EntryIsStored(table.chains, table.index, table.contents, b, i);
          var k := KeyBy(KeyBytes, table.contents, view, table.chains[b][i].key);
          SelectorSelects(pattern, k);
        }
        HashTable.AllDoNotStrand(sel, table.chains);
      }
    }

    /** A listing, and then a get of a key that is not there, as far as the server's reply. */
    method MissAfterDump(pattern: string, k: DbKey) returns (found: seq<(Bytes, Bytes)>)
      requires Valid() && IsText(pattern) && |pattern| < Ipc.ROOM && WildcardMatch.WellFormed(pattern)
      requires k !in view && |Name(k)| < Ipc.MAX_KEY
      modifies conn.client, conn.server.buf, conn.server`entryAt, conn.up, conn.down
      ensures conn.server.buf.h.result == -1
      ensures Ipc.ReplyLength(conn.server.buf.h) <= Ipc.ROOM <==>
              !HashTable.Strands(HashTable.SelectorOf(pattern), old(conn.server.table.chains))
    {
      TextOfChars(pattern);
      HeldBy(KeyBytes, conn.server.table.contents, view, k);
      found := conn.MissAfterList(Chars(pattern), KeyBytes(k));
    }

    method InsertTwo(k: DbKey, l: DbKey)
      requires Valid() && view == map[] && k != l && |Name(k)| < Ipc.MAX_KEY && |Name(l)| < Ipc.MAX_KEY
      modifies this`view, conn.client, conn.server.buf, conn.server`held, conn.server.table
      modifies conn.server.table.bins, conn.server.table.repr, conn.up, conn.down
      ensures Valid() && view == map[k := Ul(0), l := Ul(0)] && conn.server.table.Heads(KeyBytes(l))
    {
      var r := Insert(k, Ul(0), true);
      r := Insert(l, Ul(0), true);
    }

    /** Two keys of one bin, and a pattern that lists the one inserted later. */
    method PrepareTwo(k: DbKey, l: DbKey, absent: DbKey) returns (pattern: string)
      requires Valid() && view == map[] && k != l && absent != k && absent != l
      requires |Name(k)| < Ipc.MAX_KEY && |Name(l)| < Ipc.MAX_KEY
      requires conn.server.table.index(KeyBytes(k)) == conn.server.table.index(KeyBytes(l))
      modifies this`view, conn.client, conn.server.buf, conn.server`held, conn.server.table
      modifies conn.server.table.bins, conn.server.table.repr, conn.up, conn.down
      ensures Valid() && absent !in view
      ensures IsText(pattern) && |pattern| < Ipc.ROOM && WildcardMatch.WellFormed(pattern)
      ensures HashTable.Strands(HashTable.SelectorOf(pattern), conn.server.table.chains)
    {
      InsertTwo(k, l);
      OnlyTwo(view, k, l, absent);
      LaterStrands(conn.server.table, view, k, l);
      pattern := Name(l);
    }

    /** In an empty store, with two keys of one bin: after listing the one inserted later, the reply
        to a get that finds nothing does not fit into the buffer. */
    method StrandedByTwo(k: DbKey, l: DbKey, absent: DbKey)
      requires Valid() && view == map[] && k != l && absent != k && absent != l
      requires |Name(k)| < Ipc.MAX_KEY && |Name(l)| < Ipc.MAX_KEY && |Name(absent)| < Ipc.MAX_KEY
      requires conn.server.table.index(KeyBytes(k)) == conn.server.table.index(KeyBytes(l))
      modifies this`view, conn.client, conn.server, conn.server.buf, conn.server.table
      modifies conn.server.table.bins, conn.server.table.repr, conn.up, conn.down
      ensures conn.server.buf.h.result == -1 && Ipc.ReplyLength(conn.server.buf.h) > Ipc.ROOM
    {
      var pattern := PrepareTwo(k, l, absent);
      var found := MissAfterDump(pattern, absent);
    }

    /** The bytes behind a key, for the two kinds of get. */
    method Get(k: DbKey, memory: bool) returns (r: Option<Bytes>)
      requires Valid() && |Name(k)| < Ipc.MAX_KEY
      modifies conn.client, conn.server.buf, conn.server`held, conn.server.table
      modifies conn.server.table.bins, conn.server.table.repr, conn.up, conn.down
      ensures Valid() && fresh(conn.server.table.repr - old(conn.server.table.repr))
      ensures r == if k in view && memory then Some(ValueBytes(view[k])) else None
    {
      HeldBy(KeyBytes, conn.server.table.contents, view, k);
      var a := Call(Ipc.Get(KeyBytes(k)), memory);
      r := if a.result < 0 then None else Some(a.value);
    }

    /** `db_cl_get_ul`: the first four bytes of the value. */
    method GetUl(k: DbKey, memory: bool) returns (r: Option<Word>)
      requires Valid() && |Name(k)| < Ipc.MAX_KEY && (k in view ==> view[k].Ul?)
      modifies conn.client, conn.server.buf, conn.server`held, conn.server.table
      modifies conn.server.table.bins, conn.server.table.repr, conn.up, conn.down
      ensures Valid() && fresh(conn.server.table.repr - old(conn.server.table.repr))
      ensures r == if k in view && memory then Some(view[k].n) else None
    {
      var bytes := Get(k, memory);
      r := if bytes.None? then None else Some(UlOf(bytes.value));
    }

    /** `db_cl_get_blob`: as much of the value as there is room for. */
    method GetBlob(k: DbKey, size: nat, memory: bool) returns (r: Option<Bytes>)
      requires Valid() && |Name(k)| < Ipc.MAX_KEY && (k in view ==> view[k].Blob?)
      modifies conn.client, conn.server.buf, conn.server`held, conn.server.table
      modifies conn.server.table.bins, conn.server.table.repr, conn.up, conn.down
      ensures Valid() && fresh(conn.server.table.repr - old(conn.server.table.repr))
      ensures r.Some? <==> k in view && memory
      ensures r.Some? ==> r.value == if |view[k].bytes| <= size then view[k].bytes else view[k].bytes[..size]
    {
      var bytes := Get(k, memory);
      if bytes.None? {
        return None;
      }
      r := Some(if |bytes.value| <= size then bytes.value else bytes.value[..size]);
    }
  }

  // ------------------------------------------------------------ a listing that strands

  function Literals(s: string): seq<WildcardMatch.Token> {
    seq(|s|, i requires 0 <= i < |s| => WildcardMatch.Lit(s[i]))
  }

  /** A plain text is a pattern of its own characters. */
  lemma {:induction false} PlainParses(s: string, p: nat)
    requires Plain(s) && p <= |s|
    ensures WildcardMatch.ParseFrom(s, p) == WildcardMatch.Good(Literals(s)[p..], |s|)
    decreases |s| - p
  {
    if p == |s| {
      assert Literals(s)[p..] == [];
    } else {
      PlainParses(s, p + 1);
      assert WildcardMatch.ParseToken(s, p) == WildcardMatch.Good(Literals(s)[p], p + 1);
      assert Literals(s)[p..] == [Literals(s)[p]] + Literals(s)[p + 1..];
    }
  }

  lemma {:induction false} LiteralsMatch(ts: seq<WildcardMatch.Token>, s: string, text: string, i: nat)
    requires |ts| == |s| && i <= |text| && forall k | 0 <= k < |s| :: ts[k] == WildcardMatch.Lit(s[k])
    ensures WildcardMatch.GlobAt(ts, text, i) <==> text[i..] == s
  {
    assert |text[i..]| == |text| - i;
    if s != "" && i < |text| {
      LiteralsMatch(ts[1..], s[1..], text, i + 1);
      assert text[i..] == [text[i]] + text[i + 1..] && s == [s[0]] + s[1..];
      assert text[i..] == s ==> text[i..][0] == s[0] && text[i..][1..] == s[1..];
      assert text[i..][1..] == text[i + 1..];
    }
  }

  lemma {:induction false} LiteralsStay(ts: seq<WildcardMatch.Token>)
    requires forall k | 0 <= k < |ts| :: ts[k].Lit?
    ensures WildcardMatch.Effective(ts) == ts
  {
    if ts != [] {
      LiteralsStay(ts[1..]);
    }
  }

  /** A key's own name selects that key and no other. */
  lemma NameSelects(k: DbKey, l: DbKey)
    ensures IsText(Name(k)) && WildcardMatch.WellFormed(Name(k))
    ensures Selects(Name(k), l) <==> l == k
  {
    var s := Name(k);
    NamePlain(k);
    PlainParses(s, 0);
    var ts := Literals(s);
    assert ts[0..] == ts && WildcardMatch.Tokens(s) == ts;
    LiteralsStay(ts);
    LiteralsMatch(ts, s, Name(l), 0);
    assert Name(l)[0..] == Name(l);
    if Name(l) == Name(k) {
      NameInjective(l, k);
    }
  }

  lemma TwoKeys(contents: map<Bytes, Bytes>, view: map<DbKey, Value>, k: DbKey, l: DbKey)
    requires Represents(contents, view) && view.Keys == {k, l} && k != l
    ensures contents.Keys == {KeyBytes(k), KeyBytes(l)} && KeyBytes(k) != KeyBytes(l)
  {
    HeldBy(KeyBytes, contents, view, k);
    HeldBy(KeyBytes, contents, view, l);
    forall c | c in contents ensures c == KeyBytes(k) || c == KeyBytes(l) {
      var m := KeyBy(KeyBytes, contents, view, c);
    }
    if KeyBytes(k) == KeyBytes(l) {
      KeyBytesInjective(k, l);
    }
  }

  lemma LaterStrands(table: HashTable.Table, view: map<DbKey, Value>, k: DbKey, l: DbKey)
    requires table.Valid() && Represents(table.contents, view) && view.Keys == {k, l} && k != l
    requires table.index(KeyBytes(k)) == table.index(KeyBytes(l)) && table.Heads(KeyBytes(l))
    ensures IsText(Name(l)) && WildcardMatch.WellFormed(Name(l))
    ensures HashTable.Strands(HashTable.SelectorOf(Name(l)), table.chains)
  {
    NameSelects(l, k);
    NameSelects(l, l);
    SelectorSelects(Name(l), k);
    SelectorSelects(Name(l), l);
    TwoKeys(table.contents, view, k, l);
    HashTable.LaterOfTwoStrands(table.chains, table.index, table.contents, HashTable.SelectorOf(Name(l)),
                                KeyBytes(k), KeyBytes(l));
  }

  // ------------------------------------------------------------ there are two keys of one bin

  function Image(f: nat -> nat, n: nat): set<nat> {
    if n == 0 then {} else Image(f, n - 1) + {f(n - 1)}
  }

  lemma {:induction false} InImage(f: nat -> nat, n: nat, x: nat)
    ensures x in Image(f, n) <==> exists i: nat :: i < n && f(i) == x
  {
    if n > 0 {
      InImage(f, n - 1, x);
      assert f(n - 1) == x ==> n - 1 < n && f(n - 1) == x;
    }
  }

  lemma {:induction false} ImageSize(f: nat -> nat, n: nat)
    requires forall i: nat, j: nat | i < j < n :: f(i) != f(j)
    ensures |Image(f, n)| == n
  {
    if n > 0 {
      ImageSize(f, n - 1);
      InImage(f, n - 1, f(n - 1));
    }
  }

  lemma {:induction false} SubsetSize(a: set<nat>, b: set<nat>)
    requires a <= b
    ensures |a| <= |b|
  {
    if a != {} {
      var x :| x in a;
      SubsetSize(a - {x}, b - {x});
    }
  }

  lemma Pigeonhole(f: nat -> nat, n: nat)
    requires forall i: nat | i <= n :: f(i) < n
    ensures exists i: nat, j: nat :: i < j <= n && f(i) == f(j)
  {
    if forall i: nat, j: nat | i < j <= n :: f(i) != f(j) {
      var same := (i: nat) => i;
      ImageSize(f, n + 1);
      ImageSize(same, n);
      forall x | x in Image(f, n + 1) ensures x in Image(same, n) {
        InImage(f, n + 1, x);
        InImage(same, n, x);
        assert same(x) == x;
      }
      SubsetSize(Image(f, n + 1), Image(same, n));
    }
  }

  /** Whatever the hash, among the first 1025 count keys there are two of one bin. */
  lemma TwoInOneBin(index: Bytes -> nat) returns (k: DbKey, l: DbKey)
    requires forall b :: index(b) < HashTable.SIZE
    ensures k != l && |Name(k)| < Ipc.MAX_KEY && |Name(l)| < Ipc.MAX_KEY
    ensures index(KeyBytes(k)) == index(KeyBytes(l))
  {
    var f := (oc: nat) => index(KeyBytes(RuleCount(Set1, oc)));
    assert forall i: nat :: f(i) == index(KeyBytes(RuleCount(Set1, i))) < HashTable.SIZE;
    Pigeonhole(f, HashTable.SIZE);
    var i: nat, j: nat :| i < j <= HashTable.SIZE && f(i) == f(j);
    k, l := RuleCount(Set1, i), RuleCount(Set1, j);
    NameFits(k);
    NameFits(l);
  }
}
