/** The chained hash table of utils/hash.c: 1024 linked chains changed in place, and a
    first/next search cursor.  `contents` is the finite map the table stands for. */
module HashTable {
  import opened Basics
  import JenkinsHash
  import WildcardMatch

  type Bytes = seq<Byte>

  const SIZE: nat := JenkinsHash.TABLE_SIZE

  class Entry {
    var next: Entry?
    const key: Bytes
    const data: Bytes

    constructor (key: Bytes, data: Bytes)
      ensures this.key == key && this.data == data
    {
      this.key, this.data, this.next := key, data, null;
    }
  }

  function EntryAt(chain: seq<Entry>, j: nat): Entry? {
    if j < |chain| then chain[j] else null
  }

  /** `chain` lists, in order, the entries linked from `head`. */
  ghost predicate Chained(head: Entry?, chain: seq<Entry>)
    reads chain
  {
    && head == EntryAt(chain, 0)
    && forall j {:trigger chain[j].next} | 0 <= j < |chain| :: chain[j].next == EntryAt(chain, j + 1)
  }

  ghost predicate DistinctKeys(chain: seq<Entry>) {
    forall i, j | 0 <= i < j < |chain| :: chain[i].key != chain[j].key
  }

  /** The data of the first entry with the key. */
  function Lookup(chain: seq<Entry>, k: Bytes): Option<Bytes> {
    if chain == [] then None
    else if chain[0].key == k then Some(chain[0].data)
    else Lookup(chain[1..], k)
  }

  function Get(contents: map<Bytes, Bytes>, k: Bytes): Option<Bytes> {
    if k in contents then Some(contents[k]) else None
  }

  lemma {:induction false} LookupAt(chain: seq<Entry>, j: nat, k: Bytes)
    requires j <= |chain| && forall i | 0 <= i < j :: chain[i].key != k
    ensures j == |chain| ==> Lookup(chain, k) == None
    ensures j < |chain| && chain[j].key == k ==> Lookup(chain, k) == Some(chain[j].data)
  {
    if j > 0 {
      LookupAt(chain[1..], j - 1, k);
    }
  }

  lemma {:induction false} LookupWithout(chain: seq<Entry>, j: nat, k: Bytes)
    requires j < |chain| && DistinctKeys(chain)
    ensures Lookup(chain[..j] + chain[j + 1..], k) == if k == chain[j].key then None else Lookup(chain, k)
  {
    var shorter := chain[..j] + chain[j + 1..];
    if j == 0 {
      assert shorter == chain[1..];
      if k == chain[0].key {
        LookupAt(shorter, |shorter|, k);
      }
    } else {
      LookupWithout(chain[1..], j - 1, k);
      assert shorter[1..] == chain[1..][..j - 1] + chain[1..][j..];
    }
  }

  /** Each entry in its own bin, no key twice. */
  ghost predicate Placed(chains: seq<seq<Entry>>, index: Bytes -> nat) {
    && |chains| == SIZE
    && (forall k :: index(k) < SIZE)
    && (forall b | 0 <= b < SIZE :: DistinctKeys(chains[b]))
    && (forall b, j | 0 <= b < SIZE && 0 <= j < |chains[b]| :: index(chains[b][j].key) == b)
  }

  /** The chains store exactly the map. */
  ghost predicate Stores(chains: seq<seq<Entry>>, index: Bytes -> nat, contents: map<Bytes, Bytes>)
    requires Placed(chains, index)
  {
    forall k {:trigger Lookup(chains[index(k)], k)} :: Lookup(chains[index(k)], k) == Get(contents, k)
  }

  function Without(chains: seq<seq<Entry>>, b: nat, j: nat): seq<seq<Entry>>
    requires b < |chains| && j < |chains[b]|
  {
    chains[b := chains[b][..j] + chains[b][j + 1..]]
  }

  function With(chains: seq<seq<Entry>>, b: nat, e: Entry): seq<seq<Entry>>
    requires b < |chains|
  {
    chains[b := [e] + chains[b]]
  }

  lemma RemovalStores(chains: seq<seq<Entry>>, index: Bytes -> nat, contents: map<Bytes, Bytes>, b: nat, j: nat)
    requires Placed(chains, index) && Stores(chains, index, contents) && b < SIZE && j < |chains[b]|
    ensures Placed(Without(chains, b, j), index)
    ensures Stores(Without(chains, b, j), index, contents - {chains[b][j].key})
  {
    var chains' := Without(chains, b, j);
    assert DistinctKeys(chains[b]);
    forall k ensures Lookup(chains'[index(k)], k) == Get(contents - {chains[b][j].key}, k) {
      assert Lookup(chains[index(k)], k) == Get(contents, k);
      LookupWithout(chains[b], j, k);
    }
  }

  lemma AdditionStores(chains: seq<seq<Entry>>, index: Bytes -> nat, contents: map<Bytes, Bytes>, e: Entry)
    requires Placed(chains, index) && Stores(chains, index, contents) && e.key !in contents
    ensures Placed(With(chains, index(e.key), e), index)
    ensures Stores(With(chains, index(e.key), e), index, contents[e.key := e.data])
  {
    var b := index(e.key);
    var chain := chains[b];
    var chains' := With(chains, b, e);
    assert Lookup(chain, e.key) == Get(contents, e.key);
    forall i | 0 <= i < |chain| ensures chain[i].key != e.key {
      FoundWhenPresent(chain, i, e.key);
    }
    assert DistinctKeys(chains'[b]);
    forall k ensures Lookup(chains'[index(k)], k) == Get(contents[e.key := e.data], k) {
      assert Lookup(chains[index(k)], k) == Get(contents, k);
      assert index(k) == b ==> chains'[b][1..] == chain;
    }
  }

  lemma {:induction false} FoundWhenPresent(chain: seq<Entry>, i: nat, k: Bytes)
    requires i < |chain| && Lookup(chain, k) == None
    ensures chain[i].key != k
  {
    if i > 0 {
      FoundWhenPresent(chain[1..], i - 1, k);
    }
  }

  /** An entry of a chain is in the map. */
  lemma EntryIsStored(chains: seq<seq<Entry>>, index: Bytes -> nat, contents: map<Bytes, Bytes>, b: nat, i: nat)
    requires Placed(chains, index) && Stores(chains, index, contents) && b < SIZE && i < |chains[b]|
    ensures var e := chains[b][i]; e.key in contents && contents[e.key] == e.data
  {
    var e := chains[b][i];
    assert DistinctKeys(chains[b]);
    LookupAt(chains[b], i, e.key);
    assert Lookup(chains[index(e.key)], e.key) == Get(contents, e.key);
  }

  /** Entry `i` of chain `b` is linked nowhere else. */
  ghost predicate LinkedOnce(chains: seq<seq<Entry>>, b: nat, i: nat)
    requires b < |chains| && i < |chains[b]|
  {
    forall c, j | 0 <= c < |chains| && 0 <= j < |chains[c]| && chains[c][j] == chains[b][i] :: c == b && j == i
  }

  lemma KeysApart(chains: seq<seq<Entry>>, index: Bytes -> nat, b: nat, i: nat)
    requires Placed(chains, index) && b < |chains| && i < |chains[b]|
    ensures LinkedOnce(chains, b, i)
  {
    assert DistinctKeys(chains[b]);
  }

  class Table {
    const bins: array<Entry?>
    const index: Bytes -> nat
    ghost var chains: seq<seq<Entry>>
    ghost var contents: map<Bytes, Bytes>

    ghost var repr: set<Entry>

    /** The heap part of validity: each bin heads its chain. */
    ghost predicate Linked()
      reads this, bins, repr
    {
      && bins.Length == SIZE == |chains|
      && (forall b, j | 0 <= b < SIZE && 0 <= j < |chains[b]| :: chains[b][j] in repr)
      && (forall b | 0 <= b < SIZE :: Chained(bins[b], chains[b]))
    }

    ghost predicate Valid()
      reads this, bins, repr
    {
      Linked() && Placed(chains, index) && Stores(chains, index, contents)
    }

    /** `hash_open`. */
    constructor ()
      ensures Valid() && contents == map[] && index == JenkinsHash.Bin
      ensures fresh(bins) && repr == {}
    {
      bins := new Entry?[SIZE](_ => null);
      index := JenkinsHash.Bin;
      chains := seq(SIZE, _ => []);
      contents := map[];
      repr := {};
    }

    /** The search loop shared by the lookups: the entry with the key, the one before it,
        and its place in the chain. */
    method Find(key: Bytes) returns (prev: Entry?, entry: Entry?, ghost j: nat)
      requires Valid()
      ensures var chain := chains[index(key)];
              && j <= |chain|
              && entry == EntryAt(chain, j)
              && prev == (if j > 0 then chain[j - 1] else null)
              && (forall i | 0 <= i < j :: chain[i].key != key)
      ensures entry == null <==> key !in contents
      ensures entry != null ==> entry.key == key && contents[key] == entry.data
    {
      ghost var b := index(key);
      ghost var chain := chains[b];
      prev, entry, j := null, bins[index(key)], 0;
      assert Chained(bins[b], chain);
      while entry != null && entry.key != key
        invariant j <= |chain|
        invariant entry == EntryAt(chain, j)
        invariant prev == if j > 0 then chain[j - 1] else null
        invariant forall i | 0 <= i < j :: chain[i].key != key
        decreases |chain| - j
      {
        assert entry == chain[j];
        prev := entry;
        entry := entry.next;
        j := j + 1;
      }
      LookupAt(chain, j, key);
      assert Lookup(chains[index(key)], key) == Get(contents, key);
    }

    /** `hash_key_exists`: nonzero exactly when the key is present. */
    method KeyExists(key: Bytes) returns (r: int)
      requires Valid()
      ensures r == if key in contents then -1 else 0
    {
      var prev, entry, j := Find(key);
      r := if entry == null then 0 else -1;
    }

    /** `hash_getkey`; `memory` says whether memory for the copy was found. */
    method GetKey(key: Bytes, memory: bool) returns (copy: Option<Bytes>)
      requires Valid()
      ensures copy == if memory && key in contents then Some(contents[key]) else None
    {
      var prev, entry, j := Find(key);
      if entry == null || !memory {
        return None;
      }
      copy := Some(entry.data);
    }

    /** The pointer write that takes an entry out of chain `b`. */
    method Relink(b: nat, prev: Entry?, next: Entry?)
      requires bins.Length == SIZE && b < SIZE
      modifies bins, prev
      ensures forall c | 0 <= c < SIZE :: bins[c] == if c == b && prev == null then next else old(bins[c])
      ensures prev != null ==> prev.next == next
    {
      if prev != null {
        prev.next := next;
      } else {
        bins[b] := next;
      }
    }

    /** Takes entry `j` out of chain `b`. */
    method Bypass(b: nat, prev: Entry?, entry: Entry, ghost j: nat)
      requires Linked() && b < SIZE && j < |chains[b]| && entry == chains[b][j]
      requires j > 0 ==> LinkedOnce(chains, b, j - 1)
      requires prev == if j > 0 then chains[b][j - 1] else null
      modifies this`chains, bins, repr
      ensures Linked()
      ensures chains == Without(old(chains), b, j)
    {
      ghost var chain := chains[b];
      assert Chained(bins[b], chain);
      assert forall c, i | 0 <= c < SIZE && c != b && 0 <= i < |chains[c]| :: chains[c][i] != prev;
      assert forall i | 0 <= i < |chain| && i != j - 1 :: chain[i] != prev;
      Relink(b, prev, entry.next);
      BypassedIsChained(bins[b], chain, j);
      chains := Without(chains, b, j);
      OthersStayChained(b);
      WithoutStaysIn(old(chains), b, j);
    }

    lemma WithoutStaysIn(was: seq<seq<Entry>>, b: nat, j: nat)
      requires |was| == SIZE && b < SIZE && j < |was[b]|
      requires forall c, i | 0 <= c < SIZE && 0 <= i < |was[c]| :: was[c][i] in repr
      ensures forall c, i | 0 <= c < SIZE && 0 <= i < |Without(was, b, j)[c]| :: Without(was, b, j)[c][i] in repr
    {
      forall c, i | 0 <= c < SIZE && 0 <= i < |Without(was, b, j)[c]| ensures Without(was, b, j)[c][i] in repr {
        assert Without(was, b, j)[c][i] == if c != b || i < j then was[c][i] else was[c][i + 1];
      }
    }

    /** With entry `j` bypassed, the entries before and after it are one chain. */
    lemma BypassedIsChained(head: Entry?, chain: seq<Entry>, j: nat)
      requires j < |chain| && forall i | 0 <= i < |chain| && i != j - 1 :: chain[i].next == EntryAt(chain, i + 1)
      requires if j == 0 then head == EntryAt(chain, 1)
               else head == chain[0] && chain[j - 1].next == EntryAt(chain, j + 1)
      ensures Chained(head, chain[..j] + chain[j + 1..])
    {
      var shorter := chain[..j] + chain[j + 1..];
      forall i | 0 <= i < |shorter| ensures shorter[i].next == EntryAt(shorter, i + 1) {
        assert shorter[i] == if i < j then chain[i] else chain[i + 1];
        assert EntryAt(shorter, i + 1) == if i + 1 < j then chain[i + 1] else EntryAt(chain, i + 2);
      }
    }

    /** Puts a new entry at the head of chain `b`. */
    method Prepend(b: nat, entry: Entry)
      requires Linked() && b < SIZE
      requires entry !in repr
      modifies this`chains, this`repr, bins, entry
      ensures Linked()
      ensures chains == With(old(chains), b, entry) && repr == old(repr) + {entry}
    {
      ghost var longer := [entry] + chains[b];
      assert Chained(bins[b], chains[b]);
      entry.next := bins[b];
      bins[b] := entry;
      chains := chains[b := longer];
      repr := repr + {entry};
      assert Chained(bins[b], longer);
      OthersStayChained(b);
    }

    /** Changing chain `b` leaves the other chains linked as they were. */
    twostate lemma OthersStayChained(b: nat)
      requires old(Linked()) && bins.Length == SIZE == |chains| && b < SIZE
      requires forall c | 0 <= c < SIZE && c != b :: chains[c] == old(chains[c]) && bins[c] == old(bins[c])
      requires forall c, i | 0 <= c < SIZE && c != b && 0 <= i < |chains[c]| ::
                 chains[c][i].next == old(chains[c][i].next)
      ensures forall c | 0 <= c < SIZE && c != b :: Chained(bins[c], chains[c])
    {
      forall c | 0 <= c < SIZE && c != b ensures Chained(bins[c], chains[c]) {
        assert old(Chained(bins[c], chains[c]));
      }
    }

    /** The search and unlinking shared by insertion and deletion. */
    method Unlink(key: Bytes) returns (found: bool)
      requires Valid()
      modifies this`chains, this`contents, bins, repr
      ensures Valid()
      ensures found == (key in old(contents)) && contents == old(contents) - {key}
    {
      var prev, entry, j := Find(key);
      if entry == null {
        assert contents == contents - {key};
        return false;
      }
      RemovalStores(chains, index, contents, index(key), j);
      if j > 0 {
        KeysApart(chains, index, index(key), j - 1);
      }
      contents := contents - {key};
      Bypass(index(key), prev, entry, j);
      assert Stores(chains, index, contents);
      found := true;
    }

    /** `hash_insert`: the old entry is unlinked before memory for the new one is sought. */
    method Insert(key: Bytes, dat: Bytes, memory: bool) returns (r: int)
      requires Valid()
      modifies this`chains, this`contents, this`repr, bins, repr
      ensures Valid() && fresh(repr - old(repr))
      ensures memory ==> r == 0 && contents == old(contents)[key := dat] && Heads(key)
      ensures !memory ==> r == -1 && contents == old(contents) - {key}
    {
      var found := Unlink(key);
      if !memory {
        return -1;
      }
      var entry := new Entry(key, dat);
      AdditionStores(chains, index, contents, entry);
      Prepend(index(key), entry);
      contents := contents[key := dat];
      r := 0;
    }

    /** `hash_delete_key`. */
    method DeleteKey(key: Bytes) returns (r: int)
      requires Valid()
      modifies this`chains, this`contents, bins, repr
      ensures Valid()
      ensures r == (if key in old(contents) then 0 else -1) && contents == old(contents) - {key}
    {
      var found := Unlink(key);
      r := if found then 0 else -1;
    }

    // ---------------------------------------------------------- whole runs

    /** Any sequence of insertions and deletions refines the same sequence on a finite map. */
    method Run(ops: seq<Op>)
      requires Valid()
      modifies this`chains, this`contents, this`repr, bins, repr
      ensures Valid()
      ensures contents == After(old(contents), ops)
    {
      assert ops[..|ops|] == ops;
      for i := 0 to |ops|
        invariant Valid() && fresh(repr - old(repr))
        invariant contents == After(old(contents), ops[..i])
      {
        assert ops[..i + 1][..i] == ops[..i];
        match ops[i] {
          case Put(key, dat, memory) =>
            var r := Insert(key, dat, memory);
          case Drop(key) =>
            var r := DeleteKey(key);
        }
      }
    }

    /** The key's entry is the first of its chain. */
    ghost predicate Heads(key: Bytes)
      reads this
    {
      index(key) < |chains| && chains[index(key)] != [] && chains[index(key)][0].key == key
    }

    // ---------------------------------------------------------- the search cursor

    /** The cursor stands before entry `j` of the chain of its bin. */
    ghost predicate StandsAt(st: SearchState, j: nat)
      reads this
    {
      st.bin < |chains| ==> j <= |chains[st.bin]| && st.entry == EntryAt(chains[st.bin], j)
    }

    /** The pair found is the entry just before the cursor. */
    ghost predicate JustBefore(st: SearchState, j: nat, found: (Bytes, Bytes))
      reads this
    {
      && st.bin < |chains| && 0 < j <= |chains[st.bin]|
      && found == (chains[st.bin][j - 1].key, chains[st.bin][j - 1].data)
    }

    /** The inner loop of both searches: the next match in this bin's chain. */
    method SearchChain(pattern: string, start: Entry?, memory: bool, ghost q: Query, ghost b: nat, ghost j0: nat)
      returns (r: Option<(Bytes, Bytes)>, stop: bool, entry: Entry?, ghost j: nat)
      requires Linked() && q.Asks(pattern)
      requires b < SIZE && j0 <= |chains[b]| && start == EntryAt(chains[b], j0)
      ensures j0 <= j <= |chains[b]| && entry == EntryAt(chains[b], j)
      ensures r.Some? ==> stop && memory && j0 < j && r.value == (chains[b][j - 1].key, chains[b][j - 1].data)
      ensures r.None? && stop ==> !memory
      ensures !stop ==> j == |chains[b]|
      ensures q.known ==> FoundNext(q.sel, chains[b], j0, j, r, stop)
    {
      ghost var chain := chains[b];
      assert Chained(bins[b], chain);
      entry, j := start, j0;
      r, stop := None, false;
      while entry != null
        invariant j0 <= j <= |chain| && entry == EntryAt(chain, j) && r.None? && !stop
        invariant q.known ==> Select(q.sel, chain[j0..]) == Select(q.sel, chain[j..])
        decreases |chain| - j
      {
        var found := KeyMatches(pattern, entry.key, q);
        SelectStep(q.sel, chain, j);
        if found && !memory {
          return None, true, entry, j;
        }
        if found {
          r, stop := Some((entry.key, entry.data)), true;
        }
        entry := entry.next;
        j := j + 1;
        if stop {
          return;
        }
      }
    }

    /** `hash_get_first`. */
    method GetFirst(pattern: string, memory: bool, ghost q: Query)
      returns (r: Option<(Bytes, Bytes)>, st: SearchState, ghost j: nat)
      requires Linked() && q.Asks(pattern)
      ensures StandsAt(st, j)
      ensures r.Some? ==> memory && st.bin < SIZE && JustBefore(st, j, r.value)
      ensures q.known && r.Some? ==> SelectFrom(q.sel, chains, 0) == [r.value] + Rest(q.sel, chains, st.bin, j)
      ensures q.known && r.None? && memory ==> SelectFrom(q.sel, chains, 0) == []
    {
      var bin := 0;
      while bin < SIZE
        invariant bin <= SIZE
        invariant q.known ==> SelectFrom(q.sel, chains, 0) == SelectFrom(q.sel, chains, bin)
      {
        var stop, entry;
        assert Chained(bins[bin], chains[bin]);
        r, stop, entry, j := SearchChain(pattern, bins[bin], memory, q, bin, 0);
        if q.known {
          RestOfChain(q.sel, chains, bin, 0, j, r, stop);
          RestIsAll(q.sel, chains, bin);
          RestIsAll(q.sel, chains, bin + 1);
        }
        if stop {
          st := SearchState(entry, bin);
          return;
        }
        bin := bin + 1;
      }
      r, st, j := None, SearchState(null, SIZE), 0;
    }

    /** The start of a bin's chain. */
    method EnterBin(bin: nat) returns (entry: Entry?)
      requires Linked() && bin <= SIZE
      ensures StandsAt(SearchState(entry, bin), 0)
    {
      entry := null;
      if bin < SIZE {
        assert Chained(bins[bin], chains[bin]);
        entry := bins[bin];
      }
    }

    /** `hash_get_next`. */
    method GetNext(pattern: string, st0: SearchState, memory: bool, ghost q: Query, ghost j0: nat)
      returns (r: Option<(Bytes, Bytes)>, st: SearchState, ghost j: nat)
      requires Linked() && q.Asks(pattern) && StandsAt(st0, j0)
      ensures StandsAt(st, j)
      ensures r.Some? ==> memory && st.bin < SIZE && JustBefore(st, j, r.value)
      ensures r.Some? ==> st0.bin < st.bin || (st0.bin == st.bin && j0 < j)
      ensures q.known && r.Some? ==> Rest(q.sel, chains, st0.bin, j0) == [r.value] + Rest(q.sel, chains, st.bin, j)
      ensures q.known && r.None? && memory ==> Rest(q.sel, chains, st0.bin, j0) == []
    {
      var bin, entry := st0.bin, st0.entry;
      j := j0;
      while bin < SIZE
        invariant StandsAt(SearchState(entry, bin), j)
        invariant st0.bin < bin || (st0.bin == bin && j == j0)
        invariant q.known ==> Rest(q.sel, chains, st0.bin, j0) == Rest(q.sel, chains, bin, j)
      {
        var stop;
        ghost var from := j;
        r, stop, entry, j := SearchChain(pattern, entry, memory, q, bin, j);
        if q.known {
          RestOfChain(q.sel, chains, bin, from, j, r, stop);
        }
        if stop {
          st := SearchState(entry, bin);
          return;
        }
        bin := bin + 1;
        j := 0;
        entry := EnterBin(bin);
      }
      r, st := None, SearchState(entry, bin);
    }

    /** First, then next until nothing is left, on a table nobody changes. */
    method Drain(pattern: string, ghost q: Query) returns (found: seq<(Bytes, Bytes)>)
      requires Linked() && q.Asks(pattern)
      ensures q.known ==> found == SelectFrom(q.sel, chains, 0)
    {
      var r, st;
      ghost var j;
      found := [];
      ghost var all := SelectFrom(q.sel, chains, 0);
      r, st, j := GetFirst(pattern, true, q);
      while r.Some?
        invariant StandsAt(st, j) && (r.Some? ==> st.bin < SIZE)
        invariant q.known && r.Some? ==> all == found + ([r.value] + Rest(q.sel, chains, st.bin, j))
        invariant q.known && r.None? ==> all == found
        decreases r.Some?, SIZE - st.bin, if st.bin < SIZE then |chains[st.bin]| - j else 0
      {
        ghost var rest := Rest(q.sel, chains, st.bin, j);
        assert found + ([r.value] + rest) == (found + [r.value]) + rest;
        found := found + [r.value];
        r, st, j := GetNext(pattern, st, true, q, j);
        assert r.None? ==> found + [] == found;
      }
    }

    /** The search yields every matching key exactly once, with its current value. */
    method Collect(pattern: string) returns (found: seq<(Bytes, Bytes)>)
      requires Valid() && WildcardMatch.CString(pattern)
      ensures WildcardMatch.WellFormed(pattern) ==> Lists(pattern, contents, found)
    {
      ghost var q := QueryFor(pattern);
      found := Drain(pattern, q);
      if q.known {
        SelectionLists(pattern, q, chains, index, contents);
      }
    }
  }

  /** The pairs are the matching keys, each once and with its current value. */
  ghost predicate Lists(pattern: string, contents: map<Bytes, Bytes>, found: seq<(Bytes, Bytes)>)
    requires WildcardMatch.WellFormed(pattern)
  {
    && DistinctFirst(found)
    && forall k, v :: (k, v) in found <==> k in contents && contents[k] == v && Selected(pattern, k)
  }

  lemma SelectionLists(pattern: string, q: Query, chains: seq<seq<Entry>>, index: Bytes -> nat,
                       contents: map<Bytes, Bytes>)
    requires WildcardMatch.WellFormed(pattern) && q.Asks(pattern) && q.known
    requires Placed(chains, index) && Stores(chains, index, contents)
    ensures Lists(pattern, contents, SelectFrom(q.sel, chains, 0))
  {
    var found := SelectFrom(q.sel, chains, 0);
    forall k, v ensures (k, v) in found <==> k in contents && contents[k] == v && Selected(pattern, k) {
      SelectFromLookup(q.sel, chains, index, 0, k, v);
      assert Lookup(chains[index(k)], k) == Get(contents, k);
      assert q.sel(k) <==> WildcardMatch.Glob(WildcardMatch.Effective(WildcardMatch.Tokens(pattern)), Text(k));
    }
    SelectFromDistinct(q.sel, chains, index, 0);
  }

  // ------------------------------------------------------------ what a search yields

  ghost predicate DistinctFirst(s: seq<(Bytes, Bytes)>) {
    forall a, b | 0 <= a < b < |s| :: s[a].0 != s[b].0
  }

  lemma {:induction false} SelectLookup(sel: Bytes -> bool, chain: seq<Entry>, k: Bytes, v: Bytes)
    requires DistinctKeys(chain)
    ensures (k, v) in Select(sel, chain) <==> Lookup(chain, k) == Some(v) && sel(k)
  {
    if chain != [] {
      SelectLookup(sel, chain[1..], k, v);
      if chain[0].key == k {
        LookupAt(chain[1..], |chain| - 1, k);
      }
    }
  }

  lemma {:induction false} SelectFromLookup(sel: Bytes -> bool, chains: seq<seq<Entry>>, index: Bytes -> nat, b: nat,
                                            k: Bytes, v: Bytes)
    requires Placed(chains, index) && b <= SIZE
    ensures (k, v) in SelectFrom(sel, chains, b) <==> b <= index(k) && Lookup(chains[index(k)], k) == Some(v) && sel(k)
    decreases SIZE - b
  {
    if b < SIZE {
      SelectFromLookup(sel, chains, index, b + 1, k, v);
      SelectLookup(sel, chains[b], k, v);
      if index(k) != b {
        LookupAt(chains[b], |chains[b]|, k);
      }
    }
  }

  lemma {:induction false} SelectDistinct(sel: Bytes -> bool, chain: seq<Entry>)
    requires DistinctKeys(chain)
    ensures DistinctFirst(Select(sel, chain))
  {
    if chain != [] {
      SelectDistinct(sel, chain[1..]);
      var later := Select(sel, chain[1..]);
      forall i | 0 <= i < |later| ensures later[i].0 != chain[0].key {
        SelectLookup(sel, chain[1..], later[i].0, later[i].1);
        LookupAt(chain[1..], |chain| - 1, chain[0].key);
      }
    }
  }

  lemma {:induction false} SelectFromDistinct(sel: Bytes -> bool, chains: seq<seq<Entry>>, index: Bytes -> nat, b: nat)
    requires Placed(chains, index) && b <= SIZE
    ensures DistinctFirst(SelectFrom(sel, chains, b))
    decreases SIZE - b
  {
    if b < SIZE {
      var here, later := Select(sel, chains[b]), SelectFrom(sel, chains, b + 1);
      SelectDistinct(sel, chains[b]);
      SelectFromDistinct(sel, chains, index, b + 1);
      forall i, j | 0 <= i < |here| && 0 <= j < |later| ensures here[i].0 != later[j].0 {
        SelectLookup(sel, chains[b], here[i].0, here[i].1);
        SelectFromLookup(sel, chains, index, b + 1, later[j].0, later[j].1);
        if index(here[i].0) != b {
          LookupAt(chains[b], |chains[b]|, here[i].0);
        }
      }
    }
  }

  /** `hash_search_state_t`: the next entry to try, and its bin. */
  datatype SearchState = SearchState(entry: Entry?, bin: nat)

  datatype Op = Put(key: Bytes, dat: Bytes, memory: bool) | Drop(key: Bytes)

  /** The map after a sequence of operations; a failed insertion still removes the key. */
  function After(m: map<Bytes, Bytes>, ops: seq<Op>): map<Bytes, Bytes> {
    if ops == [] then m
    else
      var before := After(m, ops[..|ops| - 1]);
      match ops[|ops| - 1]
      case Put(key, dat, memory) => if memory then before[key := dat] else before - {key}
      case Drop(key) => before - {key}
  }

  /** The C string a key is read as by the matcher: its bytes up to the first NUL. */
  function Text(key: Bytes): (s: string)
    ensures WildcardMatch.CString(s)
  {
    if key == [] || key[0] == 0 then "" else [key[0] as char] + Text(key[1..])
  }

  ghost predicate Selected(pattern: string, key: Bytes)
    requires WildcardMatch.WellFormed(pattern)
  {
    WildcardMatch.Glob(WildcardMatch.Effective(WildcardMatch.Tokens(pattern)), Text(key))
  }

  /** A pattern, with the keys it selects when it is well formed. */
  datatype Query = Query(known: bool, sel: Bytes -> bool) {
    ghost predicate Asks(pattern: string) {
      && WildcardMatch.CString(pattern)
      && forall k {:trigger sel(k)} :: known ==>
           WildcardMatch.WellFormed(pattern) && sel(k) == Selected(pattern, k)
    }
  }

  ghost function QueryFor(pattern: string): (q: Query)
    requires WildcardMatch.CString(pattern)
    ensures q.Asks(pattern) && q.known == WildcardMatch.WellFormed(pattern)
  {
    Query(WildcardMatch.WellFormed(pattern), k => WildcardMatch.WellFormed(pattern) && Selected(pattern, k))
  }

  ghost function SelectorOf(pattern: string): Bytes -> bool
    requires WildcardMatch.CString(pattern)
  {
    QueryFor(pattern).sel
  }

  method KeyMatches(pattern: string, key: Bytes, ghost q: Query) returns (found: bool)
    requires q.Asks(pattern)
    ensures q.known ==> found == q.sel(key)
  {
    var calls;
    found, calls := WildcardMatch.Match(pattern, Text(key));
  }

  /** The selected entries of a chain, in order. */
  ghost function Select(sel: Bytes -> bool, chain: seq<Entry>): seq<(Bytes, Bytes)> {
    if chain == [] then []
    else (if sel(chain[0].key) then [(chain[0].key, chain[0].data)] else []) + Select(sel, chain[1..])
  }

  lemma SelectStep(sel: Bytes -> bool, chain: seq<Entry>, j: nat)
    requires j < |chain|
    ensures Select(sel, chain[j..]) ==
            (if sel(chain[j].key) then [(chain[j].key, chain[j].data)] else []) + Select(sel, chain[j + 1..])
  {
    assert chain[j..][0] == chain[j] && chain[j..][1..] == chain[j + 1..];
  }

  /** The selected entries of the chains from bin `b` on. */
  ghost function SelectFrom(sel: Bytes -> bool, chains: seq<seq<Entry>>, b: nat): seq<(Bytes, Bytes)>
    decreases |chains| - b
  {
    if b >= |chains| then [] else Select(sel, chains[b]) + SelectFrom(sel, chains, b + 1)
  }

  /** What a cursor before entry `j` of bin `b` has still to find. */
  ghost function Rest(sel: Bytes -> bool, chains: seq<seq<Entry>>, b: nat, j: nat): seq<(Bytes, Bytes)>
    requires b < |chains| ==> j <= |chains[b]|
  {
    if b < |chains| then Select(sel, chains[b][j..]) + SelectFrom(sel, chains, b + 1) else []
  }

  /** The outcome of searching a chain from place `j0`, stopping at place `j`. */
  ghost predicate FoundNext(sel: Bytes -> bool, chain: seq<Entry>, j0: nat, j: nat, r: Option<(Bytes, Bytes)>,
                            stop: bool)
    requires j0 <= j <= |chain|
  {
    var all, left := Select(sel, chain[j0..]), Select(sel, chain[j..]);
    && (r.Some? ==> all == [r.value] + left)
    && (r.None? && stop ==> all == left && left != [])
    && (!stop ==> all == [])
  }

  lemma RestOfChain(sel: Bytes -> bool, chains: seq<seq<Entry>>, b: nat, from: nat, j: nat, r: Option<(Bytes, Bytes)>,
                    stop: bool)
    requires b < |chains| && from <= j <= |chains[b]| && FoundNext(sel, chains[b], from, j, r, stop)
    ensures r.Some? ==> Rest(sel, chains, b, from) == [r.value] + Rest(sel, chains, b, j)
    ensures r.None? && stop ==> Rest(sel, chains, b, from) == Rest(sel, chains, b, j) != []
    ensures !stop ==> Rest(sel, chains, b, from) == Rest(sel, chains, b + 1, 0)
  {
    var later := SelectFrom(sel, chains, b + 1);
    if r.Some? {
      assert ([r.value] + Select(sel, chains[b][j..])) + later == [r.value] + (Select(sel, chains[b][j..]) + later);
    }
    if b + 1 < |chains| {
      assert chains[b + 1][0..] == chains[b + 1];
    }
  }

  lemma RestIsAll(sel: Bytes -> bool, chains: seq<seq<Entry>>, b: nat)
    ensures Rest(sel, chains, b, 0) == SelectFrom(sel, chains, b)
  {
    if b < |chains| {
      assert chains[b][0..] == chains[b];
    }
  }

  // ------------------------------------------------------------ where a search ends

  /** The last of the selected entries has another entry behind it in its chain. */
  ghost predicate Strands(sel: Bytes -> bool, chains: seq<seq<Entry>>) {
    exists b: nat, i: nat ::
      && b < |chains| && i + 1 < |chains[b]| && sel(chains[b][i].key)
      && Rest(sel, chains, b, i + 1) == []
  }

  lemma {:induction false} SelectedInSelect(sel: Bytes -> bool, chain: seq<Entry>, i: nat)
    requires i < |chain| && sel(chain[i].key)
    ensures Select(sel, chain) != []
  {
    if i > 0 {
      SelectedInSelect(sel, chain[1..], i - 1);
    }
  }

  lemma {:induction false} SelectedInFrom(sel: Bytes -> bool, chains: seq<seq<Entry>>, from: nat, b: nat, i: nat)
    requires from <= b < |chains| && i < |chains[b]| && sel(chains[b][i].key)
    ensures SelectFrom(sel, chains, from) != []
    decreases b - from
  {
    if from < b {
      SelectedInFrom(sel, chains, from + 1, b, i);
    } else {
      SelectedInSelect(sel, chains[b], i);
    }
  }

  /** A selected entry at or behind the cursor has still to be found. */
  lemma SelectedInRest(sel: Bytes -> bool, chains: seq<seq<Entry>>, b0: nat, j0: nat, b: nat, i: nat)
    requires b < |chains| && i < |chains[b]| && sel(chains[b][i].key)
    requires (b0 < b && j0 <= |chains[b0]|) || (b0 == b && j0 <= i)
    ensures Rest(sel, chains, b0, j0) != []
  {
    if b0 < b {
      SelectedInFrom(sel, chains, b0 + 1, b, i);
    } else {
      SelectedInSelect(sel, chains[b][j0..], i - j0);
    }
  }

  /** Seen from the last selected entry, it is a question of whether its chain goes on. */
  lemma StrandsAt(sel: Bytes -> bool, chains: seq<seq<Entry>>, b: nat, j: nat)
    requires b < |chains| && 0 < j <= |chains[b]| && sel(chains[b][j - 1].key) && Rest(sel, chains, b, j) == []
    ensures Strands(sel, chains) <==> j < |chains[b]|
  {
    forall c: nat, i: nat | c < |chains| && i + 1 < |chains[c]| && sel(chains[c][i].key)
                            && Rest(sel, chains, c, i + 1) == []
      ensures c == b && i == j - 1
    {
      if c < b || (c == b && i < j - 1) {
        SelectedInRest(sel, chains, c, i + 1, b, j - 1);
      } else if c > b || i > j - 1 {
        SelectedInRest(sel, chains, b, j, c, i);
      }
    }
    if j < |chains[b]| {
      var i := j - 1;
      assert sel(chains[b][i].key) && Rest(sel, chains, b, i + 1) == [];
    }
  }

  lemma NothingStrands(sel: Bytes -> bool, chains: seq<seq<Entry>>)
    requires SelectFrom(sel, chains, 0) == []
    ensures !Strands(sel, chains)
  {
    forall b: nat, i: nat | b < |chains| && i < |chains[b]| ensures !sel(chains[b][i].key) {
      if sel(chains[b][i].key) {
        SelectedInFrom(sel, chains, 0, b, i);
      }
    }
  }

  /** Selecting every entry is always harmless. */
  lemma AllDoNotStrand(sel: Bytes -> bool, chains: seq<seq<Entry>>)
    requires forall b: nat, i: nat | b < |chains| && i < |chains[b]| :: sel(chains[b][i].key)
    ensures !Strands(sel, chains)
  {
    forall b: nat, i: nat | b < |chains| && i + 1 < |chains[b]| && sel(chains[b][i].key)
      ensures Rest(sel, chains, b, i + 1) != []
    {
      assert sel(chains[b][i + 1].key);
      SelectedInRest(sel, chains, b, i + 1, b, i + 1);
    }
  }

  /** Of two keys in one bin, the one inserted last strands a search that selects it alone. */
  lemma LaterOfTwoStrands(chains: seq<seq<Entry>>, index: Bytes -> nat, contents: map<Bytes, Bytes>,
                          sel: Bytes -> bool, a: Bytes, b: Bytes)
    requires Placed(chains, index) && Stores(chains, index, contents)
    requires contents.Keys == {a, b} && a != b && index(a) == index(b) && sel(b) && !sel(a)
    requires chains[index(b)] != [] && chains[index(b)][0].key == b
    ensures Strands(sel, chains)
  {
    var bin := index(b);
    var chain := chains[bin];
    assert Lookup(chains[index(a)], a) == Get(contents, a);
    if |chain| == 1 {
      LookupAt(chain, 1, a);
    }
    assert DistinctKeys(chain);
    forall c: nat, i: nat | c < |chains| && i < |chains[c]| && !(c == bin && i == 0)
      ensures !sel(chains[c][i].key)
    {
      EntryIsStored(chains, index, contents, c, i);
    }
    NothingSelectedLater(sel, chains, bin);
    var i := 0;
    assert sel(chain[i].key) && Rest(sel, chains, bin, i + 1) == [];
  }

  lemma {:induction false} NoneSelected(sel: Bytes -> bool, chain: seq<Entry>)
    requires forall i | 0 <= i < |chain| :: !sel(chain[i].key)
    ensures Select(sel, chain) == []
  {
    if chain != [] {
      NoneSelected(sel, chain[1..]);
    }
  }

  lemma {:induction false} NoneSelectedFrom(sel: Bytes -> bool, chains: seq<seq<Entry>>, from: nat)
    requires forall c: nat, i: nat | from <= c < |chains| && i < |chains[c]| :: !sel(chains[c][i].key)
    ensures SelectFrom(sel, chains, from) == []
    decreases |chains| - from
  {
    if from < |chains| {
      NoneSelected(sel, chains[from]);
      NoneSelectedFrom(sel, chains, from + 1);
    }
  }

  lemma NothingSelectedLater(sel: Bytes -> bool, chains: seq<seq<Entry>>, bin: nat)
    requires bin < |chains| && chains[bin] != []
    requires forall c: nat, i: nat | bin <= c < |chains| && i < |chains[c]| && !(c == bin && i == 0) ::
               !sel(chains[c][i].key)
    ensures Rest(sel, chains, bin, 1) == []
  {
    NoneSelected(sel, chains[bin][1..]);
    NoneSelectedFrom(sel, chains, bin + 1);
  }
}
