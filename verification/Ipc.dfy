/** The request and reply framing between db_client/db_client.c and db_server/db_server.c: both
    ends work out for themselves how many bytes follow a header, over a byte stream that may be
    written and read in pieces of any positive size. */
module Ipc {
  import opened Basics
  import HashTable
  import JenkinsHash
  import WildcardMatch

  datatype Cmd = GetKey | AddKey | DelKey | KeyExists | Lock | Unlock | GetFirst | GetNext

  /** `struct dbipcrec`.  The same record goes both ways, so a reply carries back whatever the
      server does not set.  `arg` and `found` are words that two commands use for different things:
      the size of a value, or the address of the entry at which a search stands. */
  datatype Header = Header(
    cmd: Cmd, keySize: nat, arg: nat, argBin: nat,
    result: int, found: nat, foundBin: nat, foundKey: nat, foundData: nat)

  /** A byte of the stream: one of the bytes of a header's image, or a data byte. */
  datatype Octet = OfHeader(h: Header, k: nat) | Data(b: Byte)

  const HEADER: nat := 36
  /** The room behind the header, and the part of it that keys and values may take. */
  const ROOM: nat := 2048 - HEADER
  const MAX_KEY: nat := 128
  const MAX_VALUE: nat := ROOM - MAX_KEY

  function Image(h: Header): (s: seq<Octet>)
    ensures |s| == HEADER
  {
    seq(HEADER, k requires k >= 0 => OfHeader(h, k))
  }

  function Octets(data: seq<Byte>): (s: seq<Octet>)
    ensures |s| == |data|
  {
    seq(|data|, k requires 0 <= k < |data| => Data(data[k]))
  }

  /** What follows the header of a request, and of a reply. */
  function RequestLength(h: Header): nat {
    match h.cmd
    case GetKey => h.keySize
    case AddKey => h.keySize + h.arg
    case DelKey => h.keySize
    case KeyExists => h.keySize
    case Lock => 0
    case Unlock => 0
    case GetFirst => h.keySize
    case GetNext => h.keySize
  }

  function ReplyLength(h: Header): nat {
    match h.cmd
    case GetKey => h.found + h.keySize
    case GetFirst => h.foundKey + h.foundData
    case GetNext => h.foundKey + h.foundData
    case _ => 0
  }

  // ------------------------------------------------------------ the stream

  class Stream {
    var octets: seq<Octet>

    constructor ()
      ensures octets == []
    {
      octets := [];
    }

    /** The write loop.  Each call takes some of what is left, or is interrupted and answers -1,
        which the code takes off what is left like any other answer: the loop steps back a byte.
        `before` is the memory in front of the buffer; at most `patience` calls are interrupted. */
    method WriteAll(buf: seq<Octet>, before: seq<Octet>, patience: nat) returns (ghost interrupts: nat)
      requires patience <= |before|
      modifies this
      ensures interrupts <= patience && |octets| == |old(octets)| + |buf| + interrupts
      ensures octets == old(octets) + buf <==> interrupts == 0
    {
      var memory := before + buf;
      var wrbuf, left := |before|, |buf|;
      var spent := 0;
      var again := true;
      while again
        invariant spent <= patience && 0 <= left && wrbuf + left == |memory| && |before| - spent <= wrbuf
        invariant |octets| == |old(octets)| + |buf| + spent - left
        invariant spent == 0 ==> |before| <= wrbuf && octets == old(octets) + memory[|before|..wrbuf]
        invariant !again ==> left == 0
        decreases again, patience - spent, left
      {
        var n := Written(left, patience - spent);
        if n > 0 {
          assert spent == 0 ==> memory[|before|..wrbuf + n] == memory[|before|..wrbuf] + memory[wrbuf..wrbuf + n];
          octets := octets + memory[wrbuf..wrbuf + n];
        } else if n < 0 {
          spent := spent + 1;
        }
        left := left - n;
        wrbuf := wrbuf + n;
        again := left > 0;
      }
      interrupts := spent;
    }

    /** The read loop, with the same arithmetic; `memory` is what lies in front of the buffer and
        then in it. */
    method ReadAll(count: nat, memory: seq<Octet>, patience: nat) returns (buf: seq<Octet>, ghost interrupts: nat)
      requires |memory| == patience + count && count + patience <= |octets|
      modifies this
      ensures interrupts <= patience && |buf| == count && octets == old(octets)[count + interrupts..]
      ensures interrupts == 0 ==> buf == old(octets)[..count]
      ensures octets == old(octets)[count..] <==> interrupts == 0
    {
      var mem := memory;
      var rdbuf, left := patience, count;
      var spent := 0;
      var again := true;
      ghost var all, taken := octets, 0;
      while again
        invariant spent <= patience && 0 <= left && rdbuf + left == |mem| == |memory| && patience - spent <= rdbuf
        invariant taken == count + spent - left && taken <= |all| && octets == all[taken..]
        invariant spent == 0 ==> rdbuf == patience + taken && mem[patience..rdbuf] == all[..taken]
        invariant !again ==> left == 0
        decreases again, patience - spent, left
      {
        var n := Written(left, patience - spent);
        if n > 0 {
          MoreTaken(all, octets, taken, n);
          MoreFilled(mem, patience, rdbuf, octets[..n]);
          mem := mem[..rdbuf] + octets[..n] + mem[rdbuf + n..];
          octets := octets[n..];
          taken := taken + n;
        } else if n < 0 {
          spent := spent + 1;
        }
        left := left - n;
        rdbuf := rdbuf + n;
        again := left > 0;
      }
      buf, interrupts := mem[patience..], spent;
      assert mem[patience..rdbuf] == mem[patience..];
    }
  }

  lemma MoreTaken(all: seq<Octet>, rest: seq<Octet>, taken: nat, n: nat)
    requires taken <= |all| && rest == all[taken..] && n <= |rest|
    ensures all[..taken + n] == all[..taken] + rest[..n] && all[taken + n..] == rest[n..]
  {
  }

  lemma MoreFilled(mem: seq<Octet>, start: nat, end: nat, chunk: seq<Octet>)
    requires end + |chunk| <= |mem|
    ensures start <= end ==>
      (mem[..end] + chunk + mem[end + |chunk|..])[start..end + |chunk|] == mem[start..end] + chunk
  {
  }

  /** What one call of `write` or `read` answers: some of what is left, nothing if nothing is, or
      -1 when interrupted. */
  method Written(left: nat, patience: nat) returns (n: int)
    ensures n == -1 ==> patience > 0
    ensures n == -1 || (if left == 0 then n == 0 else 1 <= n <= left)
  {
    if left == 0 {
      n := 0;
    } else {
      n :| 1 <= n <= left;
    }
    if * {
      if patience > 0 {
        n := -1;
      }
    }
  }

  /** The record a header image stands for. */
  function HeaderOf(s: seq<Octet>): Header
    requires |s| == HEADER && s[0].OfHeader?
  {
    s[0].h
  }

  function BytesOf(s: seq<Octet>): (data: seq<Byte>)
    ensures |data| == |s|
  {
    seq(|s|, k requires 0 <= k < |s| => if s[k].Data? then s[k].b else 0)
  }

  lemma ImageInverse(h: Header)
    ensures Image(h)[0].OfHeader? && HeaderOf(Image(h)) == h
  {
  }

  lemma OctetsInverse(data: seq<Byte>)
    ensures BytesOf(Octets(data)) == data
  {
  }

  /** Replacing the start of a buffer. */
  function Over(front: seq<Byte>, under: seq<Byte>): (r: seq<Byte>)
    requires |front| <= |under|
    ensures |r| == |under| && r[..|front|] == front
  {
    front + under[|front|..]
  }

  lemma SplitFront(data: seq<Byte>, key: seq<Byte>, value: seq<Byte>)
    requires |key| + |value| <= |data| && data[..|key| + |value|] == key + value
    ensures data[..|key|] == key && data[|key|..|key| + |value|] == value
  {
    assert data[..|key|] == data[..|key| + |value|][..|key|];
    assert data[|key|..|key| + |value|] == data[..|key| + |value|][|key|..];
  }

  // ------------------------------------------------------------ one end of the connection

  /** A request buffer: the header and the room behind it. */
  class Buffer {
    var h: Header
    var data: seq<Byte>

    ghost predicate Valid()
      reads this
    {
      |data| == ROOM
    }

    constructor (h: Header, data: seq<Byte>)
      requires |data| == ROOM
      ensures Valid() && this.h == h && this.data == data
    {
      this.h, this.data := h, data;
    }

    /** `db_cl_send_req` and `dbipc_send_response`, for a length worked out from the header. */
    method Send(s: Stream, length: nat)
      requires Valid() && length <= ROOM
      modifies s
      ensures s.octets == old(s.octets) + Image(h) + Octets(data[..length])
    {
      ghost var i := s.WriteAll(Image(h) + Octets(data[..length]), [], 0);
    }

    /** `dbipc_read_request` and `db_cl_read_res`: the header first, then as many bytes as the
        header just read says. */
    method Receive(s: Stream, length: Header -> nat, ghost sent: Header, ghost payload: seq<Byte>)
      requires Valid() && |payload| == length(sent) <= ROOM
      requires s.octets == Image(sent) + Octets(payload)
      modifies this, s
      ensures Valid() && s.octets == [] && h == sent
      ensures data == Over(payload, old(data))
    {
      ghost var all := s.octets;
      var head;
      ghost var i;
      head, i := s.ReadAll(HEADER, Image(h), 0);
      ImageInverse(sent);
      assert head == Image(sent) && s.octets == Octets(payload);
      h := HeaderOf(head);
      var rest;
      rest, i := s.ReadAll(length(h), Octets(data[..length(h)]), 0);
      assert rest == Octets(payload);
      OctetsInverse(payload);
      data := Over(BytesOf(rest), data);
    }
  }

  // ------------------------------------------------------------ the server

  type Bytes = seq<Byte>

  /** The table after a command, when memory is found for it or not. */
  function Stored(m: map<Bytes, Bytes>, h: Header, data: Bytes, memory: bool): map<Bytes, Bytes>
    requires RequestLength(h) <= |data|
  {
    match h.cmd
    case AddKey =>
      var key := data[..h.keySize];
      if memory then m[key := data[h.keySize..h.keySize + h.arg]] else m - {key}
    case DelKey => m - {data[..h.keySize]}
    case _ => m
  }

  /** A C string in a buffer, with the byte that ends it; the existence test goes by this, whatever
      size it was sent. */
  function ToNul(data: Bytes): Bytes {
    if data == [] then [] else if data[0] == 0 then [0] else [data[0]] + ToNul(data[1..])
  }

  /** A key as the client sends it: `strlen` and one more byte. */
  predicate IsCString(key: Bytes) {
    key != [] && key[|key| - 1] == 0 && forall i | 0 <= i < |key| - 1 :: key[i] != 0
  }

  lemma {:induction false} ToNulOfPrefix(key: Bytes, data: Bytes)
    requires IsCString(key) && |key| <= |data| && data[..|key|] == key
    ensures ToNul(data) == key
  {
    assert data[0] == key[0];
    if |key| > 1 {
      assert data[1..][..|key| - 1] == key[1..];
      ToNulOfPrefix(key[1..], data[1..]);
      assert key == [key[0]] + key[1..];
    }
  }

  /** How often the client holds the lock after a command; the lock is recursive, and is not given back
      by a client that does not hold it. */
  function HeldAfter(held: nat, cmd: Cmd): nat {
    if cmd.Lock? then held + 1 else if cmd.Unlock? && held > 0 then held - 1 else held
  }

  function ResultOf(m: map<Bytes, Bytes>, h: Header, data: Bytes, memory: bool, held: nat): int
    requires RequestLength(h) <= |data|
  {
    match h.cmd
    case GetKey => if data[..h.keySize] in m && memory then 0 else -1
    case AddKey => if memory then 0 else -1
    case DelKey => if data[..h.keySize] in m then 0 else -1
    case KeyExists => if ToNul(data) in m then -1 else 0
    case Unlock => if held == 0 then -1 else 0
    case _ => 0
  }

  /** What the request buffer becomes: the record with its result and, for a get that finds its
      key, the size of the value and the value behind the key. */
  ghost predicate Replied(m: map<Bytes, Bytes>, h: Header, data: Bytes, memory: bool, held: nat,
                          h': Header, data': Bytes)
    requires RequestLength(h) <= |data|
  {
    var result := ResultOf(m, h, data, memory, held);
    if h.cmd.GetKey? && result == 0 then
      var key := data[..h.keySize];
      && h' == h.(result := 0, found := |m[key]|) && |data'| == |data|
      && h.keySize + |m[key]| <= |data| && data'[..h.keySize + |m[key]|] == key + m[key]
    else h' == h.(result := result) && data' == data
  }

  /** The reply to a get that finds nothing fits into the buffer exactly when the word that lay in
      the record does, read as a size. */
  lemma MissedReplyFits(m: map<Bytes, Bytes>, h: Header, data: Bytes, memory: bool, held: nat,
                        h': Header, data': Bytes)
    requires h.cmd.GetKey? && h.keySize <= |data|
    requires Replied(m, h, data, memory, held, h', data') && h'.result < 0
    ensures ReplyLength(h') <= ROOM <==> h.keySize + h.found <= ROOM
  {
    assert h'.found == h.found && h'.keySize == h.keySize;
  }

  class Server {
    const buf: Buffer
    const table: HashTable.Table
    /** The entries that the addresses given out stand for. */
    var entryAt: map<nat, HashTable.Entry?>
    /** How often the client has locked the database and not yet unlocked it. */
    var held: nat

    ghost predicate Valid()
      reads this`entryAt, buf, table, table.bins, table.repr
    {
      && buf.Valid() && table.Valid() && 0 in entryAt && entryAt[0] == null
      && forall k | k in table.contents :: |k| <= MAX_KEY && |table.contents[k]| <= MAX_VALUE
    }

    constructor (buf: Buffer)
      requires buf.Valid()
      ensures Valid() && fresh(table) && fresh(table.bins) && fresh(table.repr) && table.contents == map[]
              && this.buf == buf && table.index == JenkinsHash.Bin && held == 0
    {
      this.buf, entryAt, held := buf, map[0 := null], 0;
      table := new HashTable.Table();
    }

    /** `dbipc_getkey`.  A get that finds nothing leaves the size field as it came. */
    method GetKey(memory: bool)
      requires Valid() && buf.h.cmd.GetKey? && buf.h.keySize <= MAX_KEY
      modifies buf
      ensures Valid() && Replied(table.contents, old(buf.h), old(buf.data), memory, held, buf.h, buf.data)
    {
      var key := buf.data[..buf.h.keySize];
      var pd := table.GetKey(key, memory);
      if pd.None? {
        buf.h := buf.h.(result := -1);
      } else {
        buf.data := Over(key + pd.value, buf.data);
        buf.h := buf.h.(result := 0, found := |pd.value|);
      }
    }

    /** `dbipc_addkey`. */
    method AddKey(memory: bool)
      requires Valid() && buf.h.keySize <= MAX_KEY && buf.h.arg <= MAX_VALUE
      modifies buf, table, table.bins, table.repr
      ensures Valid() && fresh(table.repr - old(table.repr))
      ensures var key, end := old(buf.data)[..old(buf.h.keySize)], old(buf.h.keySize) + old(buf.h.arg);
              table.contents == if memory then old(table.contents)[key := old(buf.data)[|key|..end]]
                                else old(table.contents) - {key}
      ensures memory ==> table.Heads(old(buf.data)[..old(buf.h.keySize)])
      ensures buf.data == old(buf.data) && buf.h == old(buf.h).(result := if memory then 0 else -1)
    {
      var key := buf.data[..buf.h.keySize];
      var r := table.Insert(key, buf.data[buf.h.keySize..buf.h.keySize + buf.h.arg], memory);
      buf.h := buf.h.(result := r);
    }

    /** `dbipc_delkey`. */
    method DelKey()
      requires Valid() && buf.h.keySize <= MAX_KEY
      modifies buf, table, table.bins, table.repr
      ensures Valid() && fresh(table.repr - old(table.repr))
      ensures table.contents == old(table.contents) - {old(buf.data)[..old(buf.h.keySize)]}
      ensures buf.data == old(buf.data)
      ensures var key := old(buf.data)[..old(buf.h.keySize)];
              buf.h == old(buf.h).(result := if key in old(table.contents) then 0 else -1)
    {
      var r := table.DeleteKey(buf.data[..buf.h.keySize]);
      buf.h := buf.h.(result := r);
    }

    /** The dispatch of one command on the request buffer, which becomes the reply. */
    method Dispatch(memory: bool)
      requires Valid() && RequestLength(buf.h) <= ROOM && !buf.h.cmd.GetFirst? && !buf.h.cmd.GetNext?
      requires !buf.h.cmd.Lock? && !buf.h.cmd.Unlock? ==> buf.h.keySize <= MAX_KEY
      requires buf.h.cmd.AddKey? ==> buf.h.arg <= MAX_VALUE
      requires buf.h.cmd.KeyExists? ==> 0 in buf.data
      modifies buf, table, table.bins, table.repr, this`held
      ensures Valid() && fresh(table.repr - old(table.repr))
      ensures table.contents == Stored(old(table.contents), old(buf.h), old(buf.data), memory)
      ensures Replied(old(table.contents), old(buf.h), old(buf.data), memory, old(held), buf.h, buf.data)
      ensures held == HeldAfter(old(held), old(buf.h).cmd)
      ensures old(buf.h.cmd).AddKey? && memory ==> table.Heads(old(buf.data)[..old(buf.h.keySize)])
    {
      if buf.h.cmd.GetKey? {
        GetKey(memory);
      } else if buf.h.cmd.AddKey? {
        AddKey(memory);
      } else if buf.h.cmd.DelKey? {
        DelKey();
      } else if buf.h.cmd.KeyExists? {
        var r := table.KeyExists(ToNul(buf.data));
        buf.h := buf.h.(result := r);
      } else if buf.h.cmd.Lock? {
        held := held + 1;
        buf.h := buf.h.(result := 0);
      } else if held == 0 {
        buf.h := buf.h.(result := -1);
      } else {
        held := held - 1;
        buf.h := buf.h.(result := 0);
      }
    }

    /** The position a search request carries. */
    function Position(): HashTable.SearchState
      requires buf.h.arg in entryAt
      reads this, buf
    {
      HashTable.SearchState(entryAt[buf.h.arg], buf.h.argBin)
    }

    ghost predicate Standing(address: nat, bin: nat, j: nat)
      reads this, table
    {
      address in entryAt && table.StandsAt(HashTable.SearchState(entryAt[address], bin), j)
    }

    /** The search of the table for a search command. */
    method Seek(memory: bool, ghost q: HashTable.Query, ghost j0: nat)
      returns (r: Option<(Bytes, Bytes)>, st: HashTable.SearchState, ghost j: nat)
      requires Valid() && (buf.h.cmd.GetFirst? || buf.h.cmd.GetNext?) && q.Asks(HashTable.Text(buf.data))
      requires buf.h.cmd.GetNext? ==> Standing(buf.h.arg, buf.h.argBin, j0)
      ensures r.Some? ==> table.StandsAt(st, j) && table.JustBefore(st, j, r.value)
      ensures r.Some? && buf.h.cmd.GetNext? ==> Behind(buf.h.argBin, j0, st.bin, j)
      ensures q.known ==> Yields(q.sel, table.chains, buf.h, j0, r, st.bin, j, memory)
    {
      if buf.h.cmd.GetFirst? {
        r, st, j := table.GetFirst(HashTable.Text(buf.data), memory, q);
      } else {
        r, st, j := table.GetNext(HashTable.Text(buf.data), Position(), memory, q, j0);
      }
    }

    lemma FoundFits(st: HashTable.SearchState, j: nat, found: (Bytes, Bytes))
      requires Valid() && table.JustBefore(st, j, found)
      ensures |found.0| <= MAX_KEY && |found.1| <= MAX_VALUE
    {
      HashTable.EntryIsStored(table.chains, table.index, table.contents, st.bin, j - 1);
    }

    /** The address of an entry: anywhere above the size of a buffer. */
    method AddressOf(entry: HashTable.Entry?) returns (address: nat)
      requires 0 in entryAt && entryAt[0] == null
      modifies this`entryAt
      ensures 0 in entryAt && entryAt[0] == null && address in entryAt && entryAt[address] == entry
      ensures if entry == null then address == 0 else address > ROOM
      ensures forall a | a in old(entryAt) :: a in entryAt && entryAt[a] == old(entryAt)[a]
    {
      if entry == null {
        return 0;
      }
      ghost var unused := Unused(entryAt.Keys);
      assert unused !in entryAt;
      address :| address > ROOM && (address in entryAt ==> entryAt[address] == entry);
      entryAt := entryAt[address := entry];
    }

    /** The search commands on the request buffer. */
    method Search(memory: bool, ghost q: HashTable.Query, ghost j0: nat)
      returns (r: Option<(Bytes, Bytes)>, ghost j: nat)
      requires Valid() && (buf.h.cmd.GetFirst? || buf.h.cmd.GetNext?) && q.Asks(HashTable.Text(buf.data))
      requires buf.h.cmd.GetNext? ==> Standing(buf.h.arg, buf.h.argBin, j0)
      modifies buf, this`entryAt
      ensures Valid() && buf.h.cmd == old(buf.h.cmd) && IsSearchReply(buf.h, buf.data, r)
      ensures if r.Some? then SearchedTo(r.value, buf.h, j)
              else entryAt == old(entryAt) && buf.h.found == old(buf.h.found) && buf.h.foundBin == old(buf.h.foundBin)
      ensures r.Some? && buf.h.cmd.GetNext? ==> Behind(old(buf.h.argBin), j0, buf.h.foundBin, j)
      ensures q.known ==> Yields(q.sel, table.chains, old(buf.h), j0, r, buf.h.foundBin, j, memory)
    {
      var st;
      r, st, j := Seek(memory, q, j0);
      if r.None? {
        PutNothing();
      } else {
        FoundFits(st, j, r.value);
        PutFound(r.value, st, j);
      }
    }

    method PutNothing()
      requires Valid() && (buf.h.cmd.GetFirst? || buf.h.cmd.GetNext?)
      modifies buf
      ensures Valid() && IsSearchReply(buf.h, buf.data, None) && buf.h.cmd == old(buf.h.cmd)
      ensures buf.h.found == old(buf.h.found) && buf.h.foundBin == old(buf.h.foundBin)
    {
      buf.h := buf.h.(result := -1, foundKey := 0, foundData := 0);
    }

    /** What is found goes into the buffer over the pattern, and the new position into the result
        part of the header. */
    method PutFound(found: (Bytes, Bytes), st: HashTable.SearchState, ghost j: nat)
      requires Valid() && |found.0| <= MAX_KEY && |found.1| <= MAX_VALUE && (buf.h.cmd.GetFirst? || buf.h.cmd.GetNext?)
      requires table.StandsAt(st, j) && table.JustBefore(st, j, found)
      modifies buf, this`entryAt
      ensures Valid() && buf.h.cmd == old(buf.h.cmd) && buf.h.foundBin == st.bin
      ensures FoundReply(buf.h, buf.data, found) && ReplyLength(buf.h) <= ROOM && SearchedTo(found, buf.h, j)
    {
      var (key, value) := found;
      var address := AddressOf(st.entry);
      buf.data := Over(key + value, buf.data);
      buf.h := buf.h.(result := 0, found := address, foundBin := st.bin, foundKey := |key|, foundData := |value|);
    }

    /** The header's position is just behind the entry found: no address when that entry ends its
        chain, and otherwise one above the size of a buffer. */
    ghost predicate SearchedTo(found: (Bytes, Bytes), h: Header, j: nat)
      reads this, table
    {
      && Standing(h.found, h.foundBin, j)
      && table.JustBefore(HashTable.SearchState(entryAt[h.found], h.foundBin), j, found)
      && if j == |table.chains[h.foundBin]| then h.found == 0 else h.found > ROOM
    }
  }

  lemma Unused(taken: set<nat>) returns (top: nat)
    ensures top > ROOM && forall a | a in taken :: a < top
  {
    top := ROOM + 1;
    if taken != {} {
      var a :| a in taken;
      var rest := Unused(taken - {a});
      assert forall b | b in taken :: b == a || b in taken - {a};
      top := if a >= rest then a + 1 else rest;
    }
  }

  ghost predicate IsSearchReply(h: Header, data: Bytes, r: Option<(Bytes, Bytes)>) {
    && ReplyLength(h) <= ROOM
    && if r.Some? then (h.cmd.GetFirst? || h.cmd.GetNext?) && FoundReply(h, data, r.value) else h.result < 0
  }

  function Ahead(chains: seq<seq<HashTable.Entry>>, bin: nat): nat {
    if bin < |chains| then |chains[bin]| else 0
  }

  /** A later place in the chains. */
  predicate Behind(bin0: nat, j0: nat, bin: nat, j: nat) {
    bin0 < bin || (bin0 == bin && j0 < j)
  }

  /** A reply to a search that found a pair. */
  ghost predicate FoundReply(h: Header, data: Bytes, found: (Bytes, Bytes)) {
    && h.result == 0
    && h.foundKey == |found.0| && h.foundData == |found.1| && |found.0| + |found.1| <= |data|
    && data[..|found.0| + |found.1|] == found.0 + found.1
  }

  /** The pair found, before what the new position has still to find, is what there was to find;
      the search fails only when that is nothing or memory is short. */
  ghost predicate YieldsOf(before: seq<(Bytes, Bytes)>, sel: Bytes -> bool, chains: seq<seq<HashTable.Entry>>,
                           r: Option<(Bytes, Bytes)>, bin: nat, j: nat, memory: bool)
  {
    && (r.Some? ==> bin < |chains| && j <= |chains[bin]| && before == [r.value] + HashTable.Rest(sel, chains, bin, j))
    && (r.None? && memory ==> before == [])
  }

  ghost predicate Yields(sel: Bytes -> bool, chains: seq<seq<HashTable.Entry>>, asked: Header, j0: nat,
                         r: Option<(Bytes, Bytes)>, bin: nat, j: nat, memory: bool)
    requires asked.cmd.GetNext? ==> asked.argBin < |chains| ==> j0 <= |chains[asked.argBin]|
  {
    YieldsOf(if asked.cmd.GetNext? then HashTable.Rest(sel, chains, asked.argBin, j0)
             else HashTable.SelectFrom(sel, chains, 0), sel, chains, r, bin, j, memory)
  }

  ghost predicate NothingBehind(sel: Bytes -> bool, chains: seq<seq<HashTable.Entry>>, bin: nat, j: nat) {
    bin < |chains| && j <= |chains[bin]| && HashTable.Rest(sel, chains, bin, j) == []
  }

  /** What was found, then what the search just found and has still to find, is all there is. */
  ghost predicate LeftToFind(all: seq<(Bytes, Bytes)>, sel: Bytes -> bool, chains: seq<seq<HashTable.Entry>>,
                             found: seq<(Bytes, Bytes)>, r: Option<(Bytes, Bytes)>, bin: nat, j: nat)
  {
    if r.Some?
    then bin < |chains| && j <= |chains[bin]| && all == found + ([r.value] + HashTable.Rest(sel, chains, bin, j))
    else all == found && (found != [] ==> NothingBehind(sel, chains, bin, j))
  }

  lemma OneMoreFound(all: seq<(Bytes, Bytes)>, sel: Bytes -> bool, chains: seq<seq<HashTable.Entry>>,
                     found: seq<(Bytes, Bytes)>, r0: Option<(Bytes, Bytes)>, bin0: nat, j0: nat,
                     r: Option<(Bytes, Bytes)>, bin: nat, j: nat)
    requires r0.Some? && LeftToFind(all, sel, chains, found, r0, bin0, j0)
    requires YieldsOf(HashTable.Rest(sel, chains, bin0, j0), sel, chains, r, bin, j, true)
    requires r.None? ==> bin == bin0 && j == j0
    ensures LeftToFind(all, sel, chains, found + [r0.value], r, bin, j)
  {
    Append(all, found, r0.value, HashTable.Rest(sel, chains, bin0, j0));
  }

  lemma Append<T>(all: seq<T>, found: seq<T>, x: T, rest: seq<T>)
    requires all == found + ([x] + rest)
    ensures all == (found + [x]) + rest && (rest == [] ==> all == found + [x])
  {
  }

  lemma {:induction false} TextUpToNul(pattern: Bytes, rest: Bytes)
    requires forall i | 0 <= i < |pattern| :: pattern[i] != 0
    ensures HashTable.Text(pattern + [0] + rest) == HashTable.Text(pattern)
  {
    if pattern != [] {
      TextUpToNul(pattern[1..], rest);
      assert (pattern + [0] + rest)[1..] == pattern[1..] + [0] + rest;
    }
  }

  // ------------------------------------------------------------ the connection

  datatype Op =
    | Get(key: Bytes) | Add(key: Bytes, value: Bytes) | Delete(key: Bytes) | Exists(key: Bytes)
    | TakeLock | DropLock

  /** What a client sees: the result and, for a get that finds its key, the value. */
  datatype Answer = Answer(result: int, value: Bytes)

  predicate FitsPattern(pattern: Bytes) {
    |pattern| < ROOM && forall i | 0 <= i < |pattern| :: pattern[i] != 0
  }

  predicate Fits(op: Op) {
    match op
    case Get(k) => |k| <= MAX_KEY
    case Add(k, v) => |k| <= MAX_KEY && |v| <= MAX_VALUE
    case Delete(k) => |k| <= MAX_KEY
    case Exists(k) => |k| <= MAX_KEY && IsCString(k)
    case TakeLock => true
    case DropLock => true
  }

  /** What an operation does to a map, and answers, when memory is found for it or not. */
  function Done(m: map<Bytes, Bytes>, op: Op, memory: bool): map<Bytes, Bytes> {
    match op
    case Add(k, v) => if memory then m[k := v] else m - {k}
    case Delete(k) => m - {k}
    case _ => m
  }

  function Answered(m: map<Bytes, Bytes>, op: Op, memory: bool, held: nat): Answer {
    match op
    case Get(k) => if k in m && memory then Answer(0, m[k]) else Answer(-1, [])
    case Add(_, _) => Answer(if memory then 0 else -1, [])
    case Delete(k) => Answer(if k in m then 0 else -1, [])
    case Exists(k) => Answer(if k in m then -1 else 0, [])
    case TakeLock => Answer(0, [])
    case DropLock => Answer(if held > 0 then 0 else -1, [])
  }

  function Holds(held: nat, op: Op): nat {
    match op
    case TakeLock => held + 1
    case DropLock => if held > 0 then held - 1 else 0
    case _ => held
  }

  /** The request a client puts into its buffer: the size fields not used keep what they held. */
  function RequestOf(op: Op, h: Header): Header {
    match op
    case Get(k) => h.(cmd := GetKey, keySize := |k|)
    case Add(k, v) => h.(cmd := AddKey, keySize := |k|, arg := |v|)
    case Delete(k) => h.(cmd := DelKey, keySize := |k|)
    case Exists(k) => h.(cmd := KeyExists, keySize := |k|)
    case TakeLock => h.(cmd := Lock)
    case DropLock => h.(cmd := Unlock)
  }

  function PayloadOf(op: Op): Bytes {
    match op
    case Get(k) => k
    case Add(k, v) => k + v
    case Delete(k) => k
    case Exists(k) => k
    case TakeLock => []
    case DropLock => []
  }

  lemma RequestMeans(m: map<Bytes, Bytes>, op: Op, h: Header, data: Bytes, memory: bool, held: nat)
    requires RequestLength(RequestOf(op, h)) <= |data| && data[..RequestLength(RequestOf(op, h))] == PayloadOf(op)
    requires Fits(op)
    ensures Stored(m, RequestOf(op, h), data, memory) == Done(m, op, memory)
    ensures ResultOf(m, RequestOf(op, h), data, memory, held) == Answered(m, op, memory, held).result
    ensures HeldAfter(held, RequestOf(op, h).cmd) == Holds(held, op)
    ensures op.Get? || op.Add? ==> data[..|op.key|] == op.key
    ensures op.Exists? ==> 0 in data
  {
    if op.Add? {
      SplitFront(data, op.key, op.value);
    } else if op.Exists? {
      ToNulOfPrefix(op.key, data);
      assert data[|op.key| - 1] == data[..|op.key|][|op.key| - 1] == 0;
    }
  }

  /** The first word of the result part after a call. */
  function FoundAfter(m: map<Bytes, Bytes>, op: Op, memory: bool, before: nat): nat {
    if op.Get? && op.key in m && memory then |m[op.key]| else before
  }

  /** The buffer holds the reply to `op` that carries the answer. */
  ghost predicate IsReply(h: Header, data: Bytes, op: Op, a: Answer) {
    && h.result == a.result && ReplyLength(h) <= ROOM
    && (h.cmd.GetKey? <==> op.Get?) && !h.cmd.GetFirst? && !h.cmd.GetNext?
    && (if op.Get? && a.result == 0
        then h.keySize == |op.key| && h.found == |a.value| && |op.key| + |a.value| <= |data|
             && data[..|op.key| + |a.value|] == op.key + a.value
        else a.value == [])
  }

  class Connection {
    const client: Buffer
    const server: Server
    const up: Stream
    const down: Stream

    /** Between two calls nothing is on its way. */
    ghost predicate Valid()
      reads client, server`entryAt, server.buf, server.table, server.table.bins, server.table.repr, up, down
    {
      && client != server.buf && up != down
      && client.Valid() && server.Valid()
      && up.octets == [] && down.octets == []
    }

    constructor (h: Header, clientData: seq<Byte>, serverData: seq<Byte>)
      requires |clientData| == |serverData| == ROOM && h.found <= MAX_VALUE
      ensures Valid() && client.h == h && fresh(client) && fresh(server) && fresh(server.buf)
      ensures fresh(up) && fresh(down)
      ensures fresh(server.table) && fresh(server.table.bins) && fresh(server.table.repr)
              && server.table.contents == map[] && server.table.index == JenkinsHash.Bin && server.held == 0
    {
      client := new Buffer(h, clientData);
      var buf := new Buffer(h, serverData);
      server := new Server(buf);
      up := new Stream();
      down := new Stream();
    }

    /** The way to the server: it has the request, and nothing else is on its way. */
    method Request(h: Header, payload: Bytes)
      requires Valid() && RequestLength(h) == |payload| <= ROOM
      modifies client, up, server.buf
      ensures client.Valid() && up.octets == [] && server.Valid()
      ensures server.buf.h == h && server.buf.data == Over(payload, old(server.buf.data))
    {
      client.h, client.data := h, Over(payload, client.data);
      assert client.data[..|payload|] == payload;
      client.Send(up, RequestLength(client.h));
      assert up.octets == Image(client.h) + Octets(client.data[..RequestLength(client.h)]);
      server.buf.Receive(up, RequestLength, client.h, client.data[..RequestLength(client.h)]);
    }

    /** The way back: the client works out the same length from the header it is sent. */
    method Reply()
      requires client != server.buf && client.Valid() && server.buf.Valid() && down.octets == []
      requires ReplyLength(server.buf.h) <= ROOM
      modifies down, client
      ensures down.octets == [] && client.Valid() && client.h == server.buf.h
      ensures client.data == Over(server.buf.data[..ReplyLength(server.buf.h)], old(client.data))
    {
      server.buf.Send(down, ReplyLength(server.buf.h));
      assert down.octets == Image(server.buf.h) + Octets(server.buf.data[..ReplyLength(server.buf.h)]);
      client.Receive(down, ReplyLength, server.buf.h, server.buf.data[..ReplyLength(server.buf.h)]);
    }

    /** A get that finds nothing is answered with the size that lay in the record. */
    ghost predicate Safe(op: Op, memory: bool)
      reads this, client, server, server.table
    {
      op.Get? && Answered(server.table.contents, op, memory, 0).result < 0 ==> |op.key| + client.h.found <= ROOM
    }

    /** The request half of a call: the server has done the operation and its buffer holds the reply. */
    method Serve(op: Op, memory: bool)
      requires Valid() && Fits(op) && Safe(op, memory)
      modifies client, server.buf, server`held, server.table, server.table.bins, server.table.repr, up
      ensures server.buf.h.found == FoundAfter(old(server.table.contents), op, memory, old(client.h.found))
      ensures client.Valid() && server.Valid() && up.octets == []
      ensures fresh(server.table.repr - old(server.table.repr))
      ensures server.table.contents == Done(old(server.table.contents), op, memory)
      ensures server.held == Holds(old(server.held), op)
      ensures IsReply(server.buf.h, server.buf.data, op,
                      Answered(old(server.table.contents), op, memory, old(server.held)))
      ensures op.Add? && memory ==> server.table.Heads(op.key)
    {
      ghost var h0, m0 := client.h, server.table.contents;
      Request(RequestOf(op, client.h), PayloadOf(op));
      RequestMeans(m0, op, h0, server.buf.data, memory, server.held);
      server.Dispatch(memory);
    }

    /** The reply half: what the client takes out of the reply it is sent. */
    method Collect(op: Op, ghost expected: Answer) returns (a: Answer)
      requires client != server.buf && client.Valid() && server.buf.Valid() && down.octets == []
      requires IsReply(server.buf.h, server.buf.data, op, expected)
      modifies down, client
      ensures down.octets == [] && client.Valid() && client.h == server.buf.h
      ensures a == expected
    {
      Reply();
      a := Answer(client.h.result, []);
      if op.Get? && client.h.result == 0 {
        SplitFront(client.data, op.key, expected.value);
        a := Answer(0, client.data[client.h.keySize..client.h.keySize + client.h.found]);
      }
    }

    /** One call of the client library, answered with the server's memory at hand or not. */
    method Call(op: Op, memory: bool) returns (a: Answer)
      requires Valid() && Fits(op) && Safe(op, memory)
      modifies client, server.buf, server`held, server.table, server.table.bins, server.table.repr, up, down
      ensures client.h.found == FoundAfter(old(server.table.contents), op, memory, old(client.h.found))
      ensures Valid() && fresh(server.table.repr - old(server.table.repr))
      ensures server.table.contents == Done(old(server.table.contents), op, memory)
      ensures server.held == Holds(old(server.held), op)
      ensures a == Answered(old(server.table.contents), op, memory, old(server.held))
      ensures op.Add? && memory ==> server.table.Heads(op.key)
    {
      ghost var expected := Answered(server.table.contents, op, memory, server.held);
      Serve(op, memory);
      a := Collect(op, expected);
    }

    // ---------------------------------------------------------- searching

    /** `db_cl_get_first`. */
    method First(pattern: Bytes, memory: bool, ghost q: HashTable.Query)
      returns (r: Option<(Bytes, Bytes)>, ghost j: nat)
      requires Valid() && FitsPattern(pattern) && q.Asks(HashTable.Text(pattern))
      modifies client, server.buf, server`entryAt, up, down
      ensures Valid()
      ensures if r.Some? then server.SearchedTo(r.value, client.h, j)
              else server.entryAt == old(server.entryAt)
                   && client.h.found == old(client.h.found) && client.h.foundBin == old(client.h.foundBin)
      ensures var chains := server.table.chains;
              q.known ==>
                YieldsOf(HashTable.SelectFrom(q.sel, chains, 0), q.sel, chains, r, client.h.foundBin, j, memory)
    {
      r, j := Find(client.h.(cmd := GetFirst, keySize := |pattern| + 1), pattern, memory, q, 0);
    }

    /** `db_cl_get_next`, from the position that the last search returned. */
    method Next(pattern: Bytes, address: nat, bin: nat, memory: bool, ghost q: HashTable.Query, ghost j0: nat)
      returns (r: Option<(Bytes, Bytes)>, ghost j: nat)
      requires Valid() && FitsPattern(pattern) && q.Asks(HashTable.Text(pattern)) && server.Standing(address, bin, j0)
      modifies client, server.buf, server`entryAt, up, down
      ensures Valid()
      ensures if r.Some? then server.SearchedTo(r.value, client.h, j)
              else server.entryAt == old(server.entryAt)
                   && client.h.found == old(client.h.found) && client.h.foundBin == old(client.h.foundBin)
      ensures r.Some? ==> Behind(bin, j0, client.h.foundBin, j)
      ensures var chains := server.table.chains;
              q.known ==>
                YieldsOf(HashTable.Rest(q.sel, chains, bin, j0), q.sel, chains, r, client.h.foundBin, j, memory)
    {
      var h := client.h.(cmd := GetNext, keySize := |pattern| + 1, arg := address, argBin := bin);
      r, j := Find(h, pattern, memory, q, j0);
    }

    /** The part the two share: the pattern out, and the pair back. */
    method Find(h: Header, pattern: Bytes, memory: bool, ghost q: HashTable.Query, ghost j0: nat)
      returns (r: Option<(Bytes, Bytes)>, ghost j: nat)
      requires Valid() && FitsPattern(pattern) && q.Asks(HashTable.Text(pattern))
      requires (h.cmd.GetFirst? || h.cmd.GetNext?) && h.keySize == |pattern| + 1
      requires h.cmd.GetNext? ==> server.Standing(h.arg, h.argBin, j0)
      modifies client, server.buf, server`entryAt, up, down
      ensures Valid()
      ensures if r.Some? then server.SearchedTo(r.value, client.h, j)
              else server.entryAt == old(server.entryAt) && client.h.found == h.found && client.h.foundBin == h.foundBin
      ensures r.Some? && h.cmd.GetNext? ==> Behind(h.argBin, j0, client.h.foundBin, j)
      ensures q.known ==> Yields(q.sel, server.table.chains, h, j0, r, client.h.foundBin, j, memory)
    {
      ghost var expected;
      expected, j := ServeSearch(h, pattern, memory, q, j0);
      r := CollectFound(expected);
    }

    method ServeSearch(h: Header, pattern: Bytes, memory: bool, ghost q: HashTable.Query, ghost j0: nat)
      returns (ghost r: Option<(Bytes, Bytes)>, ghost j: nat)
      requires Valid() && FitsPattern(pattern) && q.Asks(HashTable.Text(pattern))
      requires (h.cmd.GetFirst? || h.cmd.GetNext?) && h.keySize == |pattern| + 1
      requires h.cmd.GetNext? ==> server.Standing(h.arg, h.argBin, j0)
      modifies client, server.buf, server`entryAt, up
      ensures client.Valid() && server.Valid() && up.octets == []
      ensures IsSearchReply(server.buf.h, server.buf.data, r)
      ensures if r.Some? then server.SearchedTo(r.value, server.buf.h, j)
              else server.entryAt == old(server.entryAt)
                   && server.buf.h.found == h.found && server.buf.h.foundBin == h.foundBin
      ensures r.Some? && h.cmd.GetNext? ==> Behind(h.argBin, j0, server.buf.h.foundBin, j)
      ensures q.known ==> Yields(q.sel, server.table.chains, h, j0, r, server.buf.h.foundBin, j, memory)
    {
      Request(h, pattern + [0]);
      TextUpToNul(pattern, server.buf.data[|pattern| + 1..]);
      assert server.buf.data == pattern + [0] + server.buf.data[|pattern| + 1..];
      r, j := server.Search(memory, q, j0);
    }

    method CollectFound(ghost expected: Option<(Bytes, Bytes)>) returns (r: Option<(Bytes, Bytes)>)
      requires client != server.buf && client.Valid() && server.buf.Valid() && down.octets == []
      requires IsSearchReply(server.buf.h, server.buf.data, expected)
      modifies down, client
      ensures down.octets == [] && client.Valid() && client.h == server.buf.h
      ensures r == expected
    {
      Reply();
      r := None;
      if client.h.result >= 0 {
        var size := client.h.foundKey;
        SplitFront(client.data, expected.value.0, expected.value.1);
        r := Some((client.data[..size], client.data[size..size + client.h.foundData]));
      }
    }

    /** The position is behind the last pair found, if any. */
    ghost predicate Passed(found: seq<(Bytes, Bytes)>, unsearched: nat, j: nat)
      reads this, client, server, server.table
    {
      if found == [] then client.h.found == unsearched else server.SearchedTo(found[|found| - 1], client.h, j)
    }

    /** The loop of `db_dump`: first, then next until nothing is left.  What is listed is what the
        chains held, in their order, and what the record then holds depends on them alone. */
    method List(pattern: Bytes) returns (found: seq<(Bytes, Bytes)>)
      requires Valid() && FitsPattern(pattern)
      modifies client, server.buf, server`entryAt, up, down
      ensures Valid() && (found == [] ==> client.h.found == old(client.h.found))
      ensures WildcardMatch.WellFormed(HashTable.Text(pattern)) ==>
                var sel, chains := HashTable.SelectorOf(HashTable.Text(pattern)), server.table.chains;
                && found == HashTable.SelectFrom(sel, chains, 0)
                && HashTable.Lists(HashTable.Text(pattern), server.table.contents, found)
                && (if HashTable.Strands(sel, chains) then client.h.found > ROOM
                    else found != [] ==> client.h.found == 0)
    {
      ghost var q := HashTable.QueryFor(HashTable.Text(pattern));
      ghost var chains := server.table.chains;
      ghost var j;
      found, j := Gather(pattern, q);
      if q.known {
        HashTable.SelectionLists(HashTable.Text(pattern), q, chains, server.table.index, server.table.contents);
        AfterListing(q.sel, found, j);
      }
    }

    lemma AfterListing(sel: Bytes -> bool, found: seq<(Bytes, Bytes)>, j: nat)
      requires Valid() && found == HashTable.SelectFrom(sel, server.table.chains, 0)
      requires found != [] ==> server.SearchedTo(found[|found| - 1], client.h, j)
      requires found != [] ==> NothingBehind(sel, server.table.chains, client.h.foundBin, j)
      ensures HashTable.Strands(sel, server.table.chains) ==> client.h.found > ROOM
      ensures !HashTable.Strands(sel, server.table.chains) && found != [] ==> client.h.found == 0
    {
      var table := server.table;
      if found == [] {
        HashTable.NothingStrands(sel, table.chains);
      } else {
        var last := found[|found| - 1];
        assert (last.0, last.1) in found;
        HashTable.SelectFromLookup(sel, table.chains, table.index, 0, last.0, last.1);
        HashTable.StrandsAt(sel, table.chains, client.h.foundBin, j);
      }
    }

    /** A listing, and then a get that finds nothing, as far as the server's reply: the reply fits
        into the buffer if and only if the last entry listed had no other behind it in its chain. */
    method MissAfterList(pattern: Bytes, key: Bytes) returns (found: seq<(Bytes, Bytes)>)
      requires Valid() && FitsPattern(pattern) && WildcardMatch.WellFormed(HashTable.Text(pattern))
      requires |key| <= MAX_KEY && key !in server.table.contents && client.h.found <= MAX_VALUE
      modifies client, server.buf, server`entryAt, up, down
      ensures found == HashTable.SelectFrom(HashTable.SelectorOf(HashTable.Text(pattern)), server.table.chains, 0)
      ensures server.buf.h.result == -1
      ensures ReplyLength(server.buf.h) <= ROOM <==>
              !HashTable.Strands(HashTable.SelectorOf(HashTable.Text(pattern)), server.table.chains)
    {
      found := List(pattern);
      Request(RequestOf(Get(key), client.h), key);
      assert server.buf.data[..|key|] == key;
      ghost var h, data := server.buf.h, server.buf.data;
      server.GetKey(true);
      MissedReplyFits(server.table.contents, h, data, true, server.held, server.buf.h, server.buf.data);
    }

    method Gather(pattern: Bytes, ghost q: HashTable.Query) returns (found: seq<(Bytes, Bytes)>, ghost j: nat)
      requires Valid() && FitsPattern(pattern) && q.Asks(HashTable.Text(pattern))
      modifies client, server.buf, server`entryAt, up, down
      ensures Valid() && Passed(found, old(client.h.found), j)
      ensures q.known ==> found == HashTable.SelectFrom(q.sel, server.table.chains, 0)
      ensures q.known && found != [] ==> NothingBehind(q.sel, server.table.chains, client.h.foundBin, j)
    {
      ghost var all := HashTable.SelectFrom(q.sel, server.table.chains, 0);
      var r;
      found := [];
      r, j := First(pattern, true, q);
      if r.Some? {
        found, j := GatherOn(pattern, q, all, r, j);
      }
    }

    /** The loop, once something was found. */
    method GatherOn(pattern: Bytes, ghost q: HashTable.Query, ghost all: seq<(Bytes, Bytes)>,
                    r0: Option<(Bytes, Bytes)>, ghost j0: nat) returns (found: seq<(Bytes, Bytes)>, ghost j: nat)
      requires Valid() && FitsPattern(pattern) && q.Asks(HashTable.Text(pattern))
      requires r0.Some? && server.SearchedTo(r0.value, client.h, j0)
      requires q.known ==> LeftToFind(all, q.sel, server.table.chains, [], r0, client.h.foundBin, j0)
      modifies client, server.buf, server`entryAt, up, down
      ensures Valid() && found != [] && server.SearchedTo(found[|found| - 1], client.h, j)
      ensures q.known ==> found == all && NothingBehind(q.sel, server.table.chains, client.h.foundBin, j)
    {
      ghost var chains := server.table.chains;
      var r := r0;
      j, found := j0, [];
      while r.Some?
        invariant Valid() && (r.None? ==> found != [])
        invariant server.SearchedTo(if r.Some? then r.value else found[|found| - 1], client.h, j)
        invariant q.known ==> LeftToFind(all, q.sel, chains, found, r, client.h.foundBin, j)
        decreases r.Some?, HashTable.SIZE - client.h.foundBin, Ahead(chains, client.h.foundBin) - j
      {
        ghost var before, r1 := found, r;
        found := found + [r.value];
        r, j := Again(pattern, q, all, before, r1, j);
        assert r.None? ==> found[|found| - 1] == r1.value;
      }
    }

    /** One round of the loop. */
    method Again(pattern: Bytes, ghost q: HashTable.Query, ghost all: seq<(Bytes, Bytes)>,
                 ghost found: seq<(Bytes, Bytes)>, ghost r0: Option<(Bytes, Bytes)>, ghost j0: nat)
      returns (r: Option<(Bytes, Bytes)>, ghost j: nat)
      requires Valid() && FitsPattern(pattern) && q.Asks(HashTable.Text(pattern))
      requires r0.Some? && server.SearchedTo(r0.value, client.h, j0)
      requires q.known ==> LeftToFind(all, q.sel, server.table.chains, found, r0, client.h.foundBin, j0)
      modifies client, server.buf, server`entryAt, up, down
      ensures Valid() && server.SearchedTo(if r.Some? then r.value else r0.value, client.h, j)
      ensures r.Some? ==> Behind(old(client.h.foundBin), j0, client.h.foundBin, j)
      ensures q.known ==> LeftToFind(all, q.sel, server.table.chains, found + [r0.value], r, client.h.foundBin, j)
    {
      ghost var bin0 := client.h.foundBin;
      r, j := Next(pattern, client.h.found, client.h.foundBin, true, q, j0);
      if r.None? {
        j := j0;
      }
      if q.known {
        OneMoreFound(all, q.sel, server.table.chains, found, r0, bin0, j0, r, client.h.foundBin, j);
      }
    }

    /** Any run of calls: every answer is the one for its own request, from a plain map. */
    method Run(ops: seq<(Op, bool)>) returns (answers: seq<Answer>)
      requires Valid() && server.table.contents == map[] && server.held == 0 && client.h.found <= MAX_VALUE
      requires forall k | 0 <= k < |ops| :: Fits(ops[k].0)
      modifies client, server.buf, server`held, server.table, server.table.bins, server.table.repr, up, down
      ensures Valid() && answers == AnswersTo(ops)
      ensures server.table.contents == TableAfter(ops) && server.held == Held(ops)
    {
      answers := [];
      assert ops[..|ops|] == ops;
      for k := 0 to |ops|
        invariant Valid() && fresh(server.table.repr - old(server.table.repr)) && client.h.found <= MAX_VALUE
        invariant answers == AnswersTo(ops[..k]) && server.table.contents == TableAfter(ops[..k])
        invariant server.held == Held(ops[..k])
      {
        var a := Call(ops[k].0, ops[k].1);
        answers := answers + [a];
        assert ops[..k + 1][..k] == ops[..k];
      }
    }
  }

  function TableAfter(ops: seq<(Op, bool)>): map<Bytes, Bytes> {
    if ops == [] then map[] else Done(TableAfter(ops[..|ops| - 1]), ops[|ops| - 1].0, ops[|ops| - 1].1)
  }

  function Held(ops: seq<(Op, bool)>): nat {
    if ops == [] then 0 else Holds(Held(ops[..|ops| - 1]), ops[|ops| - 1].0)
  }

  function AnswersTo(ops: seq<(Op, bool)>): seq<Answer> {
    if ops == [] then []
    else
      var m := |ops| - 1;
      AnswersTo(ops[..m]) + [Answered(TableAfter(ops[..m]), ops[m].0, ops[m].1, Held(ops[..m]))]
  }
}
