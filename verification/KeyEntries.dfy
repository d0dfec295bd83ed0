/** From the text of a key option to the entry of the device: cli/parser.y reads the key, and
    cli/drvops.c puts it at its offset. */
module KeyEntries {
  import opened Basics
  import opened Bits
  import RuleText
  import opened Tcam

  /** The payload holds the bytes of a key text from `at` on, as far as its first `seen` bytes go. */
  predicate HoldsKey(text: string, at: nat, payload: seq<ByteBits>, seen: nat)
    requires RuleText.IsKeyText(text) && |payload| >= seen
  {
    forall j | 0 <= 2 * j < |text| && at + j < seen :: Value(payload[at + j]) == RuleText.PairAt(text, j)
  }

  function Octet(n: nat): ByteBits {
    Number(n, 8)
  }

  function Octets(bytes: seq<nat>): (r: seq<ByteBits>)
    ensures |r| == |bytes|
  {
    seq(|bytes|, i requires 0 <= i < |bytes| => Octet(bytes[i]))
  }

  lemma SameNumber(n: nat, off: seq<bool>, bits: seq<bool>, width: nat)
    requires n < PowerOf2(width) && |bits| == width && off == Number(0, width)
    ensures FieldAgrees(Number(n, width), off, bits) <==> Value(bits) == n
  {
    ValueOfNumber(n, width);
    NumberOfValue(bits);
    forall i | 0 <= i < width ensures !off[i] {
      NoBitAt(0, width, i);
    }
    if FieldAgrees(Number(n, width), off, bits) {
      assert Number(n, width) == bits;
    }
  }

  /** A number of `width` ones. */
  lemma {:induction false} AllOnesNumber(n: nat, width: nat)
    requires n + 1 == PowerOf2(width)
    ensures Number(n, width) == AllOnes(width)
  {
    if width > 0 {
      AllOnesNumber(n / 2, width - 1);
      assert AllOnes(width) == [true] + AllOnes(width - 1);
    }
  }

  lemma PowerOf8()
    ensures PowerOf2(8) == 0x100
  {
  }

  /** A byte that counts is compared as a number, and one that is masked out not at all. */
  lemma OctetAgrees(n: nat, payload: ByteBits)
    requires n < 0x100
    ensures FieldAgrees(Octet(n), Octet(0), payload) <==> Value(payload) == n
    ensures FieldAgrees(Octet(n), Octet(0xff), payload)
  {
    PowerOf8();
    SameNumber(n, Octet(0), payload, 8);
    AllOnesNumber(0xff, 8);
  }

  lemma KeyIsHeld(text: string, key: seq<nat>, mask: seq<nat>, at: nat, payload: seq<ByteBits>, seen: nat)
    requires RuleText.IsKeyText(text) && RuleText.IsKeyOf(key, mask, text) && |payload| >= seen
    ensures KeyAgrees(Octets(key), Octets(mask), at, payload, seen) <==> HoldsKey(text, at, payload, seen)
  {
    forall k | 0 <= k < 20 && at + k < seen
      ensures FieldAgrees(Octets(key)[k], Octets(mask)[k], payload[at + k]) <==>
              (2 * k < |text| ==> Value(payload[at + k]) == RuleText.PairAt(text, k))
    {
      OctetAgrees(key[k], payload[at + k]);
    }
  }

  /** `key` and `offset` options, parsed and compiled: there is an entry exactly for one to twenty
      pairs of hexadecimal digits, and it takes exactly the payloads that hold their bytes at the
      offset, in the first sixteen or twenty bytes that the device compares. */
  method EntryOf(text: string, hasOffset: bool, offset: nat, words: nat)
    returns (entry: Option<(seq<WordBits>, seq<WordBits>)>)
    requires words <= 5
    ensures entry.Some? <==> RuleText.IsKeyText(text)
    ensures entry.Some? ==> |entry.value.0| == |entry.value.1| == words
    ensures entry.Some? ==> forall payload: seq<ByteBits> | |payload| == MAX_KEY_NO ::
      (forall q | 0 <= q < words :: Agrees(entry.value.0[q], entry.value.1[q], Quad(payload, 4 * q)))
      <==> HoldsKey(text, if hasOffset then offset else 0, payload, 4 * words)
  {
    var parsed := RuleText.ParseKey(text);
    if parsed.None? {
      return None;
    }
    var key, mask := Octets(parsed.value.0), Octets(parsed.value.1);
    var o := new KeyOptions(hasOffset, true, offset, key, mask);
    var written, data, dontCare := CompileKey(o, words);
    entry := Some((data, dontCare));
    forall payload: seq<ByteBits> | |payload| == MAX_KEY_NO
      ensures (forall q | 0 <= q < words :: Agrees(data[q], dontCare[q], Quad(payload, 4 * q)))
        <==> HoldsKey(text, if hasOffset then offset else 0, payload, 4 * words)
    {
      KeyIsHeld(text, parsed.value.0, parsed.value.1, if hasOffset then offset else 0, payload, 4 * words);
    }
  }
}
