/** Compiling filter rules to ternary entries: `drv_set_ruleset1` and `drv_set_ruleset2` of
    cli/drvops.c in their two layouts, four words on the MC10P and five on the MC20E, with the
    packing of cli/lib/qnfapi.c. */
module Tcam {
  import opened Bits

  // ------------------------------------------------------------ ternary words

  /** A mask bit of 1 means "don't care". */
  predicate Agrees(data: WordBits, mask: WordBits, packet: WordBits) {
    Span(data, mask, packet, 0, 32)
  }

  predicate Span(data: WordBits, mask: WordBits, packet: WordBits, lo: nat, hi: nat)
    requires hi <= 32
  {
    forall i | lo <= i < hi :: mask[i] || data[i] == packet[i]
  }

  lemma Cut(data: WordBits, mask: WordBits, packet: WordBits, lo: nat, mid: nat, hi: nat)
    requires lo <= mid <= hi <= 32
    ensures Span(data, mask, packet, lo, hi) <==> Span(data, mask, packet, lo, mid) && Span(data, mask, packet, mid, hi)
  {
  }

  /** A field's value matches a packet's, leaving out the bits that are off. */
  predicate FieldAgrees(value: seq<bool>, off: seq<bool>, packet: seq<bool>)
    requires |value| == |off| == |packet|
  {
    forall i | 0 <= i < |value| :: off[i] || value[i] == packet[i]
  }

  /** Bits `lo`.. of a word pair hold a field, or nothing when the field is not asked for. */
  predicate Holds(data: WordBits, mask: WordBits, lo: nat, on: bool, value: seq<bool>, off: seq<bool>)
    requires |value| == |off| && lo + |value| <= 32
  {
    forall i | lo <= i < lo + |value| :: mask[i] == (on ==> off[i - lo]) && (on ==> data[i] == value[i - lo])
  }

  /** Bits `lo`.. of a packet word are a field of the packet. */
  predicate Carries(packet: WordBits, lo: nat, field: seq<bool>)
    requires lo + |field| <= 32
  {
    forall i | lo <= i < lo + |field| :: packet[i] == field[i - lo]
  }

  lemma FieldMeaning(data: WordBits, mask: WordBits, packet: WordBits, lo: nat, on: bool, value: seq<bool>,
                     off: seq<bool>, field: seq<bool>)
    requires |value| == |off| == |field| && lo + |value| <= 32
    requires Holds(data, mask, lo, on, value, off) && Carries(packet, lo, field)
    ensures Span(data, mask, packet, lo, lo + |value|) <==> (on ==> FieldAgrees(value, off, field))
  {
    assert forall i | 0 <= i < |value| ::
        mask[lo + i] == (on ==> off[i]) && (on ==> data[lo + i] == value[i]) && packet[lo + i] == field[i];
  }

  // ------------------------------------------------------------ rules and packets

  /** `rule1options_t`: the six flags, the fields, and the number of a length range. */
  datatype Rule = Rule(length: bool, proto: bool, srcip: bool, dstip: bool, srcport: bool, dstport: bool,
                       protocol: ByteBits, sourceip: WordBits, sourceipMask: WordBits, destip: WordBits,
                       destipMask: WordBits, sourcel4port: ShortBits, destl4port: ShortBits, pktlenRange: nat)

  /** A packet's fields, as both layouts carry them; `lengths` has a bit for each length range. */
  datatype Packet = Packet(lengths: ShortBits, protocol: ByteBits, sip: WordBits, dip: WordBits, sport: ShortBits,
                           dport: ShortBits, tcpflag: ShortBits)

  /** The two addresses agree where the netmask has ones. */
  predicate Under(netmask: WordBits, a: WordBits, b: WordBits) {
    forall i | 0 <= i < 32 :: netmask[i] ==> a[i] == b[i]
  }

  /** Every flagged field agrees, addresses under their netmask; lengths are left to the layouts. */
  predicate FieldsAgree(r: Rule, p: Packet) {
    && (r.proto ==> p.protocol == r.protocol)
    && (r.srcip ==> Under(r.sourceipMask, p.sip, r.sourceip))
    && (r.dstip ==> Under(r.destipMask, p.dip, r.destip))
    && (r.srcport ==> p.sport == r.sourcel4port)
    && (r.dstport ==> p.dport == r.destl4port)
  }

  lemma AddressMeaning(a: WordBits, netmask: WordBits, p: WordBits)
    ensures FieldAgrees(a[..16], Not(netmask)[..16], p[..16]) && FieldAgrees(a[16..], Not(netmask)[16..], p[16..])
       <==> Under(netmask, p, a)
  {
    assert forall i | 0 <= i < 16 ::
           Not(netmask)[16..][i] == !netmask[i + 16] && a[16..][i] == a[i + 16] && p[16..][i] == p[i + 16];
    assert forall i | 16 <= i < 32 :: netmask[i] == !Not(netmask)[16..][i - 16] && a[i] == a[16..][i - 16];
  }

  lemma ExactMeaning(value: seq<bool>, field: seq<bool>)
    requires |value| == |field|
    ensures FieldAgrees(value, Zeros(|value|), field) <==> field == value
  {
    assert forall i | 0 <= i < |value| :: !Zeros(|value|)[i];
    assert field == value <==> forall i | 0 <= i < |value| :: value[i] == field[i];
  }

  /** The record the driver is handed; it reverses the netmasks in place. */
  class Options {
    var rule: Rule

    constructor (r: Rule)
      ensures rule == r
    {
      rule := r;
    }
  }

  function Reversed(r: Rule): Rule {
    r.(sourceipMask := if r.srcip then Not(r.sourceipMask) else r.sourceipMask,
       destipMask := if r.dstip then Not(r.destipMask) else r.destipMask)
  }

  // ------------------------------------------------------------ MC10P: four words

  datatype Words4 = Words4(w0: WordBits, w1: WordBits, w2: WordBits, w3: WordBits)

  datatype Cam4 = Cam4(data: Words4, mask: Words4)

  /** Where the MC10P finds the fields of a packet: the eight lowest length ranges, and at the
      end sixteen bits that no rule looks at. */
  function Layout4(p: Packet, rest: ShortBits): Words4 {
    Words4(Or(Or(Shl(Widen(p.lengths), 24), Shl(Widen(p.protocol), 16)), Shr(p.sip, 16)),
           Or(Shl(p.sip, 16), Shr(p.dip, 16)),
           Or(Shl(p.dip, 16), Widen(p.sport)),
           Or(Shl(Widen(p.dport), 16), Widen(rest)))
  }

  predicate Matches4(c: Cam4, w: Words4) {
    && Agrees(c.data.w0, c.mask.w0, w.w0) && Agrees(c.data.w1, c.mask.w1, w.w1)
    && Agrees(c.data.w2, c.mask.w2, w.w2) && Agrees(c.data.w3, c.mask.w3, w.w3)
  }

  /** The packet's eight low range bits are just the rule's one bit; a range of 8 or more has
      its bit shifted out, and then none of them may be set. */
  predicate Length4(r: Rule, p: Packet) {
    r.length ==> forall k | 0 <= k < 8 :: p.lengths[k] <==> k == r.pktlenRange
  }

  /** The low byte of `0x1 << range`. */
  function RangeByte(range: nat): ByteBits {
    seq(8, i => i == range)
  }

  /** `((0x1 << range) << 24) & 0xff000000`. */
  function RangeBits(range: nat): (w: WordBits)
    ensures forall i | 0 <= i < 32 :: w[i] <==> i >= 24 && i - 24 == range
  {
    And(Shl(Shl(Widen([true]), range), 24), Ones(24, 32))
  }

  /** Adds a field's bits to a word and clears its mask: `cam |= bits; mask &= off`. */
  method Take(cam: WordBits, mask: WordBits, lo: nat, hi: nat, bits: WordBits, off: WordBits)
    returns (cam': WordBits, mask': WordBits)
    requires lo <= hi <= 32
    requires forall i | 0 <= i < 32 && !(lo <= i < hi) :: !bits[i] && off[i]
    requires forall i | lo <= i < hi :: !cam[i] && mask[i]
    ensures forall i | 0 <= i < 32 && !(lo <= i < hi) :: cam'[i] == cam[i] && mask'[i] == mask[i]
    ensures forall i | lo <= i < hi :: cam'[i] == bits[i] && mask'[i] == off[i]
  {
    cam', mask' := Or(cam, bits), And(mask, off);
  }

  /** The words of the entry, each in the order of the source; the netmasks are already reversed. */
  method FirstWord(r: Rule) returns (cam: WordBits, mask: WordBits)
    ensures Holds(cam, mask, 24, r.length, RangeByte(r.pktlenRange), Zeros(8))
    ensures Holds(cam, mask, 16, r.proto, r.protocol, Zeros(8))
    ensures Holds(cam, mask, 0, r.srcip, r.sourceip[16..], r.sourceipMask[16..])
  {
    cam, mask := NONE, ALL;
    if r.length {
      cam, mask := Take(cam, mask, 24, 32, RangeBits(r.pktlenRange), Ones(0, 24));
    }
    if r.proto {
      cam, mask := Take(cam, mask, 16, 24, And(Shl(And(Widen(r.protocol), Ones(0, 8)), 16), Ones(16, 24)),
                        Or(Ones(0, 16), Ones(24, 32)));
    }
    if r.srcip {
      cam, mask := Take(cam, mask, 0, 16, And(Shr(r.sourceip, 16), Ones(0, 16)),
                        Or(Shr(r.sourceipMask, 16), Ones(16, 32)));
    }
  }

  method SecondWord(r: Rule) returns (cam: WordBits, mask: WordBits)
    ensures Holds(cam, mask, 16, r.srcip, r.sourceip[..16], r.sourceipMask[..16])
    ensures Holds(cam, mask, 0, r.dstip, r.destip[16..], r.destipMask[16..])
  {
    cam, mask := NONE, ALL;
    if r.srcip {
      cam, mask := Take(cam, mask, 16, 32, And(Shl(r.sourceip, 16), Ones(16, 32)),
                        Or(Shl(r.sourceipMask, 16), Ones(0, 16)));
    }
    if r.dstip {
      cam, mask := Take(cam, mask, 0, 16, And(Shr(r.destip, 16), Ones(0, 16)), Or(Shr(r.destipMask, 16), Ones(16, 32)));
    }
  }

  method ThirdWord(r: Rule) returns (cam: WordBits, mask: WordBits)
    ensures Holds(cam, mask, 16, r.dstip, r.destip[..16], r.destipMask[..16])
    ensures Holds(cam, mask, 0, r.srcport, r.sourcel4port, Zeros(16))
  {
    cam, mask := NONE, ALL;
    if r.dstip {
      cam, mask := Take(cam, mask, 16, 32, And(Shl(r.destip, 16), Ones(16, 32)),
                        Or(Shl(r.destipMask, 16), Ones(0, 16)));
    }
    if r.srcport {
      cam, mask := Take(cam, mask, 0, 16, Widen(r.sourcel4port), Ones(16, 32));
    }
  }

  method FourthWord(r: Rule) returns (cam: WordBits, mask: WordBits)
    ensures Holds(cam, mask, 16, r.dstport, r.destl4port, Zeros(16))
    ensures Holds(cam, mask, 0, false, Zeros(16), Zeros(16))
  {
    cam, mask := NONE, ALL;
    if r.dstport {
      cam, mask := Take(cam, mask, 16, 32, Shl(And(Widen(r.destl4port), Ones(0, 16)), 16), Ones(0, 16));
    }
  }

  ghost predicate Compiled4(c: Cam4, r: Rule) {
    && Holds(c.data.w0, c.mask.w0, 24, r.length, RangeByte(r.pktlenRange), Zeros(8))
    && Holds(c.data.w0, c.mask.w0, 16, r.proto, r.protocol, Zeros(8))
    && Holds(c.data.w0, c.mask.w0, 0, r.srcip, r.sourceip[16..], Not(r.sourceipMask)[16..])
    && Holds(c.data.w1, c.mask.w1, 16, r.srcip, r.sourceip[..16], Not(r.sourceipMask)[..16])
    && Holds(c.data.w1, c.mask.w1, 0, r.dstip, r.destip[16..], Not(r.destipMask)[16..])
    && Holds(c.data.w2, c.mask.w2, 16, r.dstip, r.destip[..16], Not(r.destipMask)[..16])
    && Holds(c.data.w2, c.mask.w2, 0, r.srcport, r.sourcel4port, Zeros(16))
    && Holds(c.data.w3, c.mask.w3, 16, r.dstport, r.destl4port, Zeros(16))
    && Holds(c.data.w3, c.mask.w3, 0, false, Zeros(16), Zeros(16))
  }

  lemma Layout4Carries(p: Packet, rest: ShortBits)
    ensures var w := Layout4(p, rest);
            && Carries(w.w0, 24, p.lengths[..8]) && Carries(w.w0, 16, p.protocol) && Carries(w.w0, 0, p.sip[16..])
            && Carries(w.w1, 16, p.sip[..16]) && Carries(w.w1, 0, p.dip[16..])
            && Carries(w.w2, 16, p.dip[..16]) && Carries(w.w2, 0, p.sport)
            && Carries(w.w3, 16, p.dport) && Carries(w.w3, 0, rest)
  {
  }

  lemma FirstWordMeaning(d: WordBits, m: WordBits, w: WordBits, r: Rule, p: Packet)
    requires Holds(d, m, 24, r.length, RangeByte(r.pktlenRange), Zeros(8)) && Carries(w, 24, p.lengths[..8])
    requires Holds(d, m, 16, r.proto, r.protocol, Zeros(8)) && Carries(w, 16, p.protocol)
    requires Holds(d, m, 0, r.srcip, r.sourceip[16..], Not(r.sourceipMask)[16..]) && Carries(w, 0, p.sip[16..])
    ensures Agrees(d, m, w) <==>
      && Length4(r, p) && (r.proto ==> p.protocol == r.protocol)
      && (r.srcip ==> FieldAgrees(r.sourceip[16..], Not(r.sourceipMask)[16..], p.sip[16..]))
  {
    Cut(d, m, w, 0, 16, 32);
    Cut(d, m, w, 16, 24, 32);
    FieldMeaning(d, m, w, 24, r.length, RangeByte(r.pktlenRange), Zeros(8), p.lengths[..8]);
    FieldMeaning(d, m, w, 16, r.proto, r.protocol, Zeros(8), p.protocol);
    FieldMeaning(d, m, w, 0, r.srcip, r.sourceip[16..], Not(r.sourceipMask)[16..], p.sip[16..]);
    ExactMeaning(RangeByte(r.pktlenRange), p.lengths[..8]);
    ExactMeaning(r.protocol, p.protocol);
    assert p.lengths[..8] == RangeByte(r.pktlenRange) <==>
           forall k | 0 <= k < 8 :: p.lengths[k] <==> k == r.pktlenRange;
  }

  /** A word of two fields. */
  lemma PairMeaning(d: WordBits, m: WordBits, w: WordBits, cut: nat, hi: bool, a: seq<bool>, aOff: seq<bool>,
                    x: seq<bool>, lo: bool, b: seq<bool>, bOff: seq<bool>, y: seq<bool>)
    requires |a| == |aOff| == |x| == 32 - cut && |b| == |bOff| == |y| == cut <= 32
    requires Holds(d, m, cut, hi, a, aOff) && Carries(w, cut, x)
    requires Holds(d, m, 0, lo, b, bOff) && Carries(w, 0, y)
    ensures Agrees(d, m, w) <==> (hi ==> FieldAgrees(a, aOff, x)) && (lo ==> FieldAgrees(b, bOff, y))
  {
    Cut(d, m, w, 0, cut, 32);
    FieldMeaning(d, m, w, cut, hi, a, aOff, x);
    FieldMeaning(d, m, w, 0, lo, b, bOff, y);
  }

  /** The four ternary words match a packet exactly when every flagged field agrees. */
  lemma Compiled4Meaning(c: Cam4, r: Rule, p: Packet, rest: ShortBits)
    requires Compiled4(c, r)
    ensures Matches4(c, Layout4(p, rest)) <==> FieldsAgree(r, p) && Length4(r, p)
  {
    var w, d, m := Layout4(p, rest), c.data, c.mask;
    var smask, dmask := Not(r.sourceipMask), Not(r.destipMask);
    Layout4Carries(p, rest);
    FirstWordMeaning(d.w0, m.w0, w.w0, r, p);
    PairMeaning(d.w1, m.w1, w.w1, 16, r.srcip, r.sourceip[..16], smask[..16], p.sip[..16],
                r.dstip, r.destip[16..], dmask[16..], p.dip[16..]);
    PairMeaning(d.w2, m.w2, w.w2, 16, r.dstip, r.destip[..16], dmask[..16], p.dip[..16],
                r.srcport, r.sourcel4port, Zeros(16), p.sport);
    PairMeaning(d.w3, m.w3, w.w3, 16, r.dstport, r.destl4port, Zeros(16), p.dport,
                false, Zeros(16), Zeros(16), rest);
    AddressMeaning(r.sourceip, r.sourceipMask, p.sip);
    AddressMeaning(r.destip, r.destipMask, p.dip);
    ExactMeaning(r.sourcel4port, p.sport);
    ExactMeaning(r.destl4port, p.dport);
  }

  /** `drv_set_ruleset1` on the MC10P, up to the writing of the registers. */
  method CompileRule4(o: Options) returns (c: Cam4)
    modifies o
    ensures o.rule == Reversed(old(o.rule))
    ensures forall p, rest :: Matches4(c, Layout4(p, rest)) <==> FieldsAgree(old(o.rule), p) && Length4(old(o.rule), p)
  {
    ghost var r := o.rule;
    if o.rule.srcip {
      o.rule := o.rule.(sourceipMask := Not(o.rule.sourceipMask));
    }
    if o.rule.dstip {
      o.rule := o.rule.(destipMask := Not(o.rule.destipMask));
    }
    var cam0, mask0 := FirstWord(o.rule);
    var cam1, mask1 := SecondWord(o.rule);
    var cam2, mask2 := ThirdWord(o.rule);
    var cam3, mask3 := FourthWord(o.rule);
    c := Cam4(Words4(cam0, cam1, cam2, cam3), Words4(mask0, mask1, mask2, mask3));
    forall p, rest ensures Matches4(c, Layout4(p, rest)) <==> FieldsAgree(r, p) && Length4(r, p) {
      Compiled4Meaning(c, r, p, rest);
    }
  }

  // ------------------------------------------------------------ MC20E: five words

  /** `rule_tuple_t`. */
  datatype Tuple = Tuple(proto: ByteBits, sip: WordBits, dip: WordBits, sport: ShortBits, dport: ShortBits,
                         tcpflag: ShortBits, pktlen: ShortBits)

  datatype Words5 = Words5(w4: WordBits, w3: WordBits, w2: WordBits, w1: WordBits, w0: WordBits)

  datatype Cam5 = Cam5(data: Words5, mask: Words5)

  function Pack4(t: Tuple): WordBits {
    Or(And(Shl(Widen(t.proto), 24), Ones(24, 32)), And(Shr(t.sip, 8), Ones(0, 24)))
  }

  function Pack3(t: Tuple): WordBits {
    Or(And(Shl(t.sip, 24), Ones(24, 32)), And(Shr(t.dip, 8), Ones(0, 24)))
  }

  function Pack2(t: Tuple): WordBits {
    Or(Or(And(Shl(t.dip, 24), Ones(24, 32)), And(Shl(Widen(t.sport), 8), Ones(8, 24))),
       And(Shr(Widen(t.dport), 8), Ones(0, 8)))
  }

  /** Six bits of the TCP flags, twelve of the length field, and six more. */
  function Pack1(t: Tuple, low: WordBits): WordBits {
    Or(Or(Or(And(Shl(Widen(t.dport), 24), Ones(24, 32)), And(Shl(Widen(t.tcpflag), 18), Ones(18, 24))),
          And(Shl(Widen(t.pktlen), 6), Ones(6, 18))),
       And(low, Ones(0, 6)))
  }

  /** Where the MC20E finds the fields of a packet; the rest of the last two words is arbitrary. */
  function Layout5(p: Packet, low: WordBits, last: WordBits): Words5 {
    var t := Tuple(p.protocol, p.sip, p.dip, p.sport, p.dport, p.tcpflag, p.lengths);
    Words5(Pack4(t), Pack3(t), Pack2(t), Pack1(t, low), last)
  }

  predicate Matches5(c: Cam5, w: Words5) {
    && Agrees(c.data.w4, c.mask.w4, w.w4) && Agrees(c.data.w3, c.mask.w3, w.w3) && Agrees(c.data.w2, c.mask.w2, w.w2)
    && Agrees(c.data.w1, c.mask.w1, w.w1) && Agrees(c.data.w0, c.mask.w0, w.w0)
  }

  lemma HighWordsCarry(t: Tuple)
    ensures Carries(Pack4(t), 24, t.proto) && Carries(Pack4(t), 0, t.sip[8..])
    ensures Carries(Pack3(t), 24, t.sip[..8]) && Carries(Pack3(t), 0, t.dip[8..])
  {
  }

  lemma LowWordsCarry(t: Tuple, low: WordBits)
    ensures Carries(Pack2(t), 24, t.dip[..8]) && Carries(Pack2(t), 8, t.sport) && Carries(Pack2(t), 0, t.dport[8..])
    ensures Carries(Pack1(t, low), 24, t.dport[..8]) && Carries(Pack1(t, low), 18, t.tcpflag[..6])
    ensures Carries(Pack1(t, low), 6, t.pktlen[..12]) && Carries(Pack1(t, low), 0, low[..6])
  {
  }

  lemma CarriedMeaning(data: WordBits, mask: WordBits, packet: WordBits, lo: nat, value: seq<bool>, off: seq<bool>,
                       field: seq<bool>)
    requires |value| == |off| == |field| && lo + |value| <= 32
    requires Carries(data, lo, value) && Carries(mask, lo, off) && Carries(packet, lo, field)
    ensures Span(data, mask, packet, lo, lo + |value|) <==> FieldAgrees(value, off, field)
  {
    FieldMeaning(data, mask, packet, lo, true, value, off, field);
  }

  lemma Join(a: seq<bool>, off: seq<bool>, x: seq<bool>, cut: nat)
    requires |a| == |off| == |x| && cut <= |a|
    ensures FieldAgrees(a, off, x) <==>
            FieldAgrees(a[..cut], off[..cut], x[..cut]) && FieldAgrees(a[cut..], off[cut..], x[cut..])
  {
    assert forall i | cut <= i < |a| ::
           a[i] == a[cut..][i - cut] && off[i] == off[cut..][i - cut] && x[i] == x[cut..][i - cut];
  }

  predicate TupleAgrees(data: Tuple, mask: Tuple, p: Packet) {
    && FieldAgrees(data.proto, mask.proto, p.protocol) && FieldAgrees(data.sip, mask.sip, p.sip)
    && FieldAgrees(data.dip, mask.dip, p.dip) && FieldAgrees(data.sport, mask.sport, p.sport)
    && FieldAgrees(data.dport, mask.dport, p.dport) && FieldAgrees(data.tcpflag[..6], mask.tcpflag[..6], p.tcpflag[..6])
    && FieldAgrees(data.pktlen[..12], mask.pktlen[..12], p.lengths[..12])
  }

  lemma HighWordsMeaning(d: Tuple, m: Tuple, t: Tuple)
    ensures Agrees(Pack4(d), Pack4(m), Pack4(t)) <==>
      FieldAgrees(d.proto, m.proto, t.proto) && FieldAgrees(d.sip[8..], m.sip[8..], t.sip[8..])
    ensures Agrees(Pack3(d), Pack3(m), Pack3(t)) <==>
      FieldAgrees(d.sip[..8], m.sip[..8], t.sip[..8]) && FieldAgrees(d.dip[8..], m.dip[8..], t.dip[8..])
  {
    HighWordsCarry(d);
    HighWordsCarry(m);
    HighWordsCarry(t);
    Cut(Pack4(d), Pack4(m), Pack4(t), 0, 24, 32);
    Cut(Pack3(d), Pack3(m), Pack3(t), 0, 24, 32);
    CarriedMeaning(Pack4(d), Pack4(m), Pack4(t), 24, d.proto, m.proto, t.proto);
    CarriedMeaning(Pack4(d), Pack4(m), Pack4(t), 0, d.sip[8..], m.sip[8..], t.sip[8..]);
    CarriedMeaning(Pack3(d), Pack3(m), Pack3(t), 24, d.sip[..8], m.sip[..8], t.sip[..8]);
    CarriedMeaning(Pack3(d), Pack3(m), Pack3(t), 0, d.dip[8..], m.dip[8..], t.dip[8..]);
  }

  lemma ThirdWordMeaning(d: Tuple, m: Tuple, t: Tuple)
    ensures Agrees(Pack2(d), Pack2(m), Pack2(t)) <==>
      && FieldAgrees(d.dip[..8], m.dip[..8], t.dip[..8]) && FieldAgrees(d.sport, m.sport, t.sport)
      && FieldAgrees(d.dport[8..], m.dport[8..], t.dport[8..])
  {
    LowWordsCarry(d, NONE);
    LowWordsCarry(m, NONE);
    LowWordsCarry(t, NONE);
    Cut(Pack2(d), Pack2(m), Pack2(t), 0, 8, 32);
    Cut(Pack2(d), Pack2(m), Pack2(t), 8, 24, 32);
    CarriedMeaning(Pack2(d), Pack2(m), Pack2(t), 24, d.dip[..8], m.dip[..8], t.dip[..8]);
    CarriedMeaning(Pack2(d), Pack2(m), Pack2(t), 8, d.sport, m.sport, t.sport);
    CarriedMeaning(Pack2(d), Pack2(m), Pack2(t), 0, d.dport[8..], m.dport[8..], t.dport[8..]);
  }

  lemma FourthWordMeaning(d: Tuple, m: Tuple, t: Tuple, low: WordBits)
    ensures Agrees(Pack1(d, Ones(0, 6)), Pack1(m, Ones(0, 6)), Pack1(t, low)) <==>
      && FieldAgrees(d.dport[..8], m.dport[..8], t.dport[..8])
      && FieldAgrees(d.tcpflag[..6], m.tcpflag[..6], t.tcpflag[..6])
      && FieldAgrees(d.pktlen[..12], m.pktlen[..12], t.pktlen[..12])
  {
    var x, y, z := Pack1(d, Ones(0, 6)), Pack1(m, Ones(0, 6)), Pack1(t, low);
    LowWordsCarry(d, Ones(0, 6));
    LowWordsCarry(m, Ones(0, 6));
    LowWordsCarry(t, low);
    Cut(x, y, z, 0, 6, 32);
    Cut(x, y, z, 6, 18, 32);
    Cut(x, y, z, 18, 24, 32);
    CarriedMeaning(x, y, z, 24, d.dport[..8], m.dport[..8], t.dport[..8]);
    CarriedMeaning(x, y, z, 18, d.tcpflag[..6], m.tcpflag[..6], t.tcpflag[..6]);
    CarriedMeaning(x, y, z, 6, d.pktlen[..12], m.pktlen[..12], t.pktlen[..12]);
    CarriedMeaning(x, y, z, 0, Ones(0, 6)[..6], Ones(0, 6)[..6], low[..6]);
  }

  /** `qnf_cam_tuple_set`: what the five words it writes match. */
  method SetTuple(data: Tuple, mask: Tuple) returns (c: Cam5)
    ensures forall p, low, last :: Matches5(c, Layout5(p, low, last)) <==> TupleAgrees(data, mask, p)
  {
    c := Cam5(Words5(Pack4(data), Pack3(data), Pack2(data), Pack1(data, Ones(0, 6)), NONE),
              Words5(Pack4(mask), Pack3(mask), Pack2(mask), Pack1(mask, Ones(0, 6)), ALL));
    forall p, low, last ensures Matches5(c, Layout5(p, low, last)) <==> TupleAgrees(data, mask, p) {
      var t := Tuple(p.protocol, p.sip, p.dip, p.sport, p.dport, p.tcpflag, p.lengths);
      HighWordsMeaning(data, mask, t);
      ThirdWordMeaning(data, mask, t);
      FourthWordMeaning(data, mask, t, low);
      Join(data.sip, mask.sip, t.sip, 8);
      Join(data.dip, mask.dip, t.dip, 8);
      Join(data.dport, mask.dport, t.dport, 8);
    }
  }

  /** The length part of the MC20E: the field holds the range's number where a one-hot bit was
      meant, so the entry asks for the range's own bit to be clear; twelve bits are kept. */
  predicate Length5(r: Rule, p: Packet) {
    r.length && r.pktlenRange < 12 ==> !p.lengths[r.pktlenRange]
  }

  /** `~(0x1 << range)` in sixteen bits. */
  function AllBut(range: nat): ShortBits {
    seq(16, i => i != range)
  }

  lemma LengthFieldMeaning(range: nat, lengths: ShortBits)
    requires range < 16
    ensures FieldAgrees(Number(range, 16)[..12], AllBut(range)[..12], lengths[..12]) <==>
            (range < 12 ==> !lengths[range])
  {
    NoBitAt(range, 16, range);
    var off := AllBut(range)[..12];
    assert range < 12 ==> !off[range] && Number(range, 16)[..12][range] == Number(range, 16)[range];
  }

  ghost predicate TupleOf(data: Tuple, mask: Tuple, r: Rule) {
    && mask.tcpflag == AllOnes(16)
    && (if r.proto then data.proto == r.protocol && mask.proto == Zeros(8) else mask.proto == AllOnes(8))
    && (if r.srcip then data.sip == r.sourceip && mask.sip == Not(r.sourceipMask) else mask.sip == ALL)
    && (if r.dstip then data.dip == r.destip && mask.dip == Not(r.destipMask) else mask.dip == ALL)
    && (if r.srcport then data.sport == r.sourcel4port && mask.sport == Zeros(16) else mask.sport == AllOnes(16))
    && (if r.dstport then data.dport == r.destl4port && mask.dport == Zeros(16) else mask.dport == AllOnes(16))
    && (if r.length then data.pktlen == Number(r.pktlenRange, 16) && mask.pktlen == AllBut(r.pktlenRange)
        else mask.pktlen == AllOnes(16))
  }

  lemma AddressWhole(a: WordBits, netmask: WordBits, p: WordBits)
    ensures FieldAgrees(a, Not(netmask), p) <==> Under(netmask, p, a)
  {
    assert forall i | 0 <= i < 32 :: Not(netmask)[i] == !netmask[i];
  }

  lemma AddressesMeaning(data: Tuple, mask: Tuple, r: Rule, p: Packet)
    requires TupleOf(data, mask, r)
    ensures FieldAgrees(data.sip, mask.sip, p.sip) <==> (r.srcip ==> Under(r.sourceipMask, p.sip, r.sourceip))
    ensures FieldAgrees(data.dip, mask.dip, p.dip) <==> (r.dstip ==> Under(r.destipMask, p.dip, r.destip))
  {
    AddressWhole(r.sourceip, r.sourceipMask, p.sip);
    AddressWhole(r.destip, r.destipMask, p.dip);
  }

  lemma ExactFieldsMeaning(data: Tuple, mask: Tuple, r: Rule, p: Packet)
    requires TupleOf(data, mask, r)
    ensures FieldAgrees(data.proto, mask.proto, p.protocol) <==> (r.proto ==> p.protocol == r.protocol)
    ensures FieldAgrees(data.sport, mask.sport, p.sport) <==> (r.srcport ==> p.sport == r.sourcel4port)
    ensures FieldAgrees(data.dport, mask.dport, p.dport) <==> (r.dstport ==> p.dport == r.destl4port)
    ensures FieldAgrees(data.tcpflag[..6], mask.tcpflag[..6], p.tcpflag[..6])
  {
    ExactMeaning(r.protocol, p.protocol);
    ExactMeaning(r.sourcel4port, p.sport);
    ExactMeaning(r.destl4port, p.dport);
  }

  lemma TupleMeaning(data: Tuple, mask: Tuple, r: Rule)
    requires r.pktlenRange < 16 && TupleOf(data, mask, r)
    ensures forall p :: TupleAgrees(data, mask, p) <==> FieldsAgree(r, p) && Length5(r, p)
  {
    forall p ensures TupleAgrees(data, mask, p) <==> FieldsAgree(r, p) && Length5(r, p) {
      AddressesMeaning(data, mask, r, p);
      ExactFieldsMeaning(data, mask, r, p);
      LengthFieldMeaning(r.pktlenRange, p.lengths);
    }
  }

  /** Filling in the tuple, from all ones. */
  method BuildTuple(o: Options) returns (data: Tuple, mask: Tuple)
    modifies o
    ensures o.rule == Reversed(old(o.rule)) && TupleOf(data, mask, old(o.rule))
  {
    data := Tuple(AllOnes(8), ALL, ALL, AllOnes(16), AllOnes(16), AllOnes(16), AllOnes(16));
    mask := data;
    if o.rule.length {
      data, mask := data.(pktlen := Number(o.rule.pktlenRange, 16)), mask.(pktlen := AllBut(o.rule.pktlenRange));
    }
    if o.rule.proto {
      data, mask := data.(proto := o.rule.protocol), mask.(proto := Zeros(8));
    }
    if o.rule.srcip {
      o.rule := o.rule.(sourceipMask := Not(o.rule.sourceipMask));
      data, mask := data.(sip := o.rule.sourceip), mask.(sip := o.rule.sourceipMask);
    }
    if o.rule.dstip {
      o.rule := o.rule.(destipMask := Not(o.rule.destipMask));
      data, mask := data.(dip := o.rule.destip), mask.(dip := o.rule.destipMask);
    }
    if o.rule.srcport {
      data, mask := data.(sport := o.rule.sourcel4port), mask.(sport := Zeros(16));
    }
    if o.rule.dstport {
      data, mask := data.(dport := o.rule.destl4port), mask.(dport := Zeros(16));
    }
  }

  /** `drv_set_ruleset1` on the MC20E, up to the writing of the registers. */
  method CompileRule5(o: Options) returns (c: Cam5)
    requires o.rule.pktlenRange < 16
    modifies o
    ensures o.rule == Reversed(old(o.rule))
    ensures forall p, low, last ::
      Matches5(c, Layout5(p, low, last)) <==> FieldsAgree(old(o.rule), p) && Length5(old(o.rule), p)
  {
    ghost var r := o.rule;
    var data, mask := BuildTuple(o);
    c := SetTuple(data, mask);
    TupleMeaning(data, mask, r);
  }

  // ------------------------------------------------------------ what the two layouts make of a rule

  /** A packet in one length range only. */
  predicate InRange(p: Packet, k: nat)
  {
    forall i | 0 <= i < 16 :: p.lengths[i] <==> i == k
  }

  /** What becomes of a rule's range, over all the ranges there are.  The MC10P keeps eight of
      them and lets a rule for a higher one take every packet of a higher one; the MC20E asks
      for any range but the rule's, and for ranges from 12 on for nothing. */
  lemma LengthsDisagree(r: Rule, p: Packet, k: nat)
    requires r.pktlenRange < 16 && k < 16 && InRange(p, k)
    ensures Length4(r, p) <==> (r.length ==> if r.pktlenRange < 8 then k == r.pktlenRange else k >= 8)
    ensures Length5(r, p) <==> (r.length && r.pktlenRange < 12 ==> k != r.pktlenRange)
  {
    assert p.lengths[k] && (p.lengths[r.pktlenRange] <==> r.pktlenRange == k);
  }

  /** What a rule's range is for: to take the packets of that range. */
  ghost predicate TakesItsRange(takes: (Rule, Packet) -> bool, r: Rule) {
    forall p, k | 0 <= k < 16 && InRange(p, k) :: takes(r, p) <==> (r.length ==> k == r.pktlenRange)
  }

  /** A packet of range `k`. */
  function PacketIn(k: nat): (p: Packet)
    ensures InRange(p, k)
  {
    Packet(seq(16, i => i == k), Zeros(8), NONE, NONE, Zeros(16), Zeros(16), Zeros(16))
  }

  /** The MC10P takes the packets of a rule's range exactly when the range is below 8. */
  lemma Range4Exactly(r: Rule)
    requires r.pktlenRange < 16
    ensures TakesItsRange(Length4, r) <==> !r.length || r.pktlenRange < 8
  {
    forall p, k | 0 <= k < 16 && InRange(p, k)
      ensures Length4(r, p) <==> (r.length ==> if r.pktlenRange < 8 then k == r.pktlenRange else k >= 8)
    {
      LengthsDisagree(r, p, k);
    }
    if r.length && r.pktlenRange >= 8 {
      var other := if r.pktlenRange == 8 then 9 else 8;
      assert InRange(PacketIn(other), other) && Length4(r, PacketIn(other));
    }
  }

  /** The MC20E never does: whatever the range, a rule that asks for one goes wrong on some packet. */
  lemma Range5Exactly(r: Rule)
    requires r.pktlenRange < 16
    ensures TakesItsRange(Length5, r) <==> !r.length
  {
    if r.length {
      var other := if r.pktlenRange == 0 then 1 else 0;
      LengthsDisagree(r, PacketIn(other), other);
      assert InRange(PacketIn(other), other) && Length5(r, PacketIn(other));
    } else {
      forall p, k | 0 <= k < 16 && InRange(p, k) ensures Length5(r, p) {
        LengthsDisagree(r, p, k);
      }
    }
  }

  /** The all-zero rule with every flag set that stands for a cleared entry. */
  const CLEARED := Rule(true, true, true, true, true, true, Zeros(8), NONE, NONE, NONE, NONE, Zeros(16), Zeros(16), 0)

  /** A cleared entry is meant to match no packet.  Its zero netmasks are reversed too, so both
      addresses are left open, and it matches just the packets with protocol and ports zero
      and the length bit of range 0 as its layout wants it. */
  lemma ClearedMatches(p: Packet)
    ensures FieldsAgree(CLEARED, p) && Length4(CLEARED, p) <==>
      p.protocol == Zeros(8) && p.sport == Zeros(16) && p.dport == Zeros(16)
      && forall k | 0 <= k < 8 :: p.lengths[k] <==> k == 0
    ensures FieldsAgree(CLEARED, p) && Length5(CLEARED, p) <==>
      p.protocol == Zeros(8) && p.sport == Zeros(16) && p.dport == Zeros(16) && !p.lengths[0]
  {
    assert forall i | 0 <= i < 32 :: !NONE[i];
  }

  // ------------------------------------------------------------ rule set 2: keys in the payload

  /** `rule2options_t`; a mask byte of 0xff leaves its key byte out. */
  class KeyOptions {
    var hasOffset: bool
    var hasKey: bool
    var offset: nat
    const key: array<ByteBits>
    const mask: array<ByteBits>

    ghost predicate Valid()
      reads this
    {
      key != mask && key.Length == mask.Length == MAX_KEY_NO
    }

    constructor (hasOffset: bool, hasKey: bool, offset: nat, key: seq<ByteBits>, mask: seq<ByteBits>)
      requires |key| == |mask| == MAX_KEY_NO
      ensures Valid() && fresh(this.key) && fresh(this.mask) && this.key[..] == key && this.mask[..] == mask
      ensures this.hasOffset == hasOffset && this.hasKey == hasKey && this.offset == offset
    {
      this.hasOffset, this.hasKey, this.offset := hasOffset, hasKey, offset;
      this.key := new ByteBits[MAX_KEY_NO](i requires 0 <= i < MAX_KEY_NO => key[i]);
      this.mask := new ByteBits[MAX_KEY_NO](i requires 0 <= i < MAX_KEY_NO => mask[i]);
      new;
      assert this.key[..] == key && this.mask[..] == mask;
    }
  }

  const MAX_KEY_NO: nat := 20

  function Shifted(bytes: seq<ByteBits>, offset: nat, fill: ByteBits): (r: seq<ByteBits>)
    ensures |r| == |bytes|
  {
    seq(|bytes|, i requires 0 <= i < |bytes| => if i < offset then fill else bytes[i - offset])
  }

  /** Moving key and mask by the offset, in place through two temporaries. */
  method ShiftKey(o: KeyOptions)
    requires o.Valid()
    modifies o.key, o.mask
    ensures o.key[..] == Shifted(old(o.key[..]), o.offset, Zeros(8))
    ensures o.mask[..] == Shifted(old(o.mask[..]), o.offset, AllOnes(8))
  {
    var keyTmp, maskTmp := new ByteBits[MAX_KEY_NO], new ByteBits[MAX_KEY_NO];
    var j := 0;
    for i := 0 to MAX_KEY_NO
      invariant j == if i < o.offset then 0 else i - o.offset
      invariant forall k | 0 <= k < i :: keyTmp[k] == Shifted(o.key[..], o.offset, Zeros(8))[k]
      invariant forall k | 0 <= k < i :: maskTmp[k] == Shifted(o.mask[..], o.offset, AllOnes(8))[k]
      invariant o.key[..] == old(o.key[..]) && o.mask[..] == old(o.mask[..])
    {
      if i < o.offset {
        keyTmp[i] := Zeros(8);
        maskTmp[i] := AllOnes(8);
      } else {
        keyTmp[i] := o.key[j];
        maskTmp[i] := o.mask[j];
        j := j + 1;
      }
    }
    assert keyTmp[..] == Shifted(o.key[..], o.offset, Zeros(8))
           && maskTmp[..] == Shifted(o.mask[..], o.offset, AllOnes(8));
    for i := 0 to MAX_KEY_NO
      invariant keyTmp[..] == Shifted(old(o.key[..]), o.offset, Zeros(8))
      invariant maskTmp[..] == Shifted(old(o.mask[..]), o.offset, AllOnes(8))
      invariant forall k | 0 <= k < i :: o.key[k] == keyTmp[k] && o.mask[k] == maskTmp[k]
    {
      o.key[i] := keyTmp[i];
      o.mask[i] := maskTmp[i];
    }
  }

  function Quad(b: seq<ByteBits>, at: nat): WordBits
    requires at + 4 <= |b|
  {
    Or(Or(Shl(Widen(b[at]), 24), Shl(Widen(b[at + 1]), 16)), Or(Shl(Widen(b[at + 2]), 8), Widen(b[at + 3])))
  }

  lemma QuadCarries(b: seq<ByteBits>, at: nat)
    requires at + 4 <= |b|
    ensures Carries(Quad(b, at), 24, b[at]) && Carries(Quad(b, at), 16, b[at + 1])
    ensures Carries(Quad(b, at), 8, b[at + 2]) && Carries(Quad(b, at), 0, b[at + 3])
  {
  }

  lemma QuadMeaning(key: seq<ByteBits>, mask: seq<ByteBits>, payload: seq<ByteBits>, at: nat)
    requires |key| == |mask| == |payload| && at + 4 <= |key|
    ensures Agrees(Quad(key, at), Quad(mask, at), Quad(payload, at)) <==>
      forall k | at <= k < at + 4 :: FieldAgrees(key[k], mask[k], payload[k])
  {
    var d, m, w := Quad(key, at), Quad(mask, at), Quad(payload, at);
    QuadCarries(key, at);
    QuadCarries(mask, at);
    QuadCarries(payload, at);
    Cut(d, m, w, 0, 8, 32);
    Cut(d, m, w, 8, 16, 32);
    Cut(d, m, w, 16, 24, 32);
    CarriedMeaning(d, m, w, 24, key[at], mask[at], payload[at]);
    CarriedMeaning(d, m, w, 16, key[at + 1], mask[at + 1], payload[at + 1]);
    CarriedMeaning(d, m, w, 8, key[at + 2], mask[at + 2], payload[at + 2]);
    CarriedMeaning(d, m, w, 0, key[at + 3], mask[at + 3], payload[at + 3]);
  }

  /** The words of an entry: four of them on the MC10P, five on the MC20E. */
  predicate QuadsAgree(key: seq<ByteBits>, mask: seq<ByteBits>, payload: seq<ByteBits>, words: nat)
    requires |key| == |mask| == |payload| == MAX_KEY_NO && words <= 5
  {
    forall q | 0 <= q < words :: Agrees(Quad(key, 4 * q), Quad(mask, 4 * q), Quad(payload, 4 * q))
  }

  lemma {:induction false} QuadsMeaning(key: seq<ByteBits>, mask: seq<ByteBits>, payload: seq<ByteBits>, words: nat)
    requires |key| == |mask| == |payload| == MAX_KEY_NO && words <= 5
    ensures QuadsAgree(key, mask, payload, words) <==>
            forall k | 0 <= k < 4 * words :: FieldAgrees(key[k], mask[k], payload[k])
  {
    if words > 0 {
      QuadsMeaning(key, mask, payload, words - 1);
      QuadMeaning(key, mask, payload, 4 * (words - 1));
    }
  }

  /** What a keyed rule asks of a payload of which the first `seen` bytes are compared. */
  predicate KeyAgrees(key: seq<ByteBits>, mask: seq<ByteBits>, offset: nat, payload: seq<ByteBits>, seen: nat)
    requires |key| == |mask| && |payload| >= seen
  {
    forall k | 0 <= k < |key| && offset + k < seen :: FieldAgrees(key[k], mask[k], payload[offset + k])
  }

  lemma ShiftedMeaning(key: seq<ByteBits>, mask: seq<ByteBits>, offset: nat, payload: seq<ByteBits>, seen: nat)
    requires |key| == |mask| == |payload| && seen <= |key|
    ensures (forall k | 0 <= k < seen ::
               FieldAgrees(Shifted(key, offset, Zeros(8))[k], Shifted(mask, offset, AllOnes(8))[k], payload[k]))
       <==> KeyAgrees(key, mask, offset, payload, seen)
  {
    var sk, sm := Shifted(key, offset, Zeros(8)), Shifted(mask, offset, AllOnes(8));
    forall k | 0 <= k < seen && offset + k < seen
      ensures FieldAgrees(key[k], mask[k], payload[offset + k]) <==>
              FieldAgrees(sk[offset + k], sm[offset + k], payload[offset + k])
    {
    }
    assert forall k | offset <= k < seen :: sk[k] == key[k - offset] && sm[k] == mask[k - offset];
  }

  /** `drv_set_ruleset2`: without a key nothing is written to the device at all. */
  method CompileKey(o: KeyOptions, words: nat) returns (written: bool, data: seq<WordBits>, mask: seq<WordBits>)
    requires o.Valid() && words <= 5
    modifies o.key, o.mask
    ensures written == o.hasKey && |data| == |mask| == if written then words else 0
    ensures written ==> forall payload: seq<ByteBits> | |payload| == MAX_KEY_NO ::
      (forall q | 0 <= q < words :: Agrees(data[q], mask[q], Quad(payload, 4 * q)))
      <==> KeyAgrees(old(o.key[..]), old(o.mask[..]), if o.hasOffset then o.offset else 0, payload, 4 * words)
  {
    written, data, mask := false, [], [];
    ghost var off := if o.hasOffset then o.offset else 0;
    if o.hasKey {
      if o.hasOffset {
        if o.offset != 0 {
          ShiftKey(o);
        }
      }
      ghost var key, kmask := old(o.key[..]), old(o.mask[..]);
      assert o.key[..] == Shifted(key, off, Zeros(8)) && o.mask[..] == Shifted(kmask, off, AllOnes(8));
      var k, m := o.key[..], o.mask[..];
      written := true;
      data := seq(words, q requires 0 <= q < words => Quad(k, 4 * q));
      mask := seq(words, q requires 0 <= q < words => Quad(m, 4 * q));
      forall payload: seq<ByteBits> | |payload| == MAX_KEY_NO
        ensures (forall q | 0 <= q < words :: Agrees(data[q], mask[q], Quad(payload, 4 * q)))
          <==> KeyAgrees(key, kmask, off, payload, 4 * words)
      {
        QuadsMeaning(k, m, payload, words);
        ShiftedMeaning(key, kmask, off, payload, 4 * words);
      }
    }
  }
}
