/** Saving filter rules as command lines and restoring them: the printing of
    cli/parserops.c, the number, address and key reading of cli/lexer.l and cli/parser.y, and
    the merging of options in the grammar's actions.

    A line is a list of options; the numbers, addresses and keys in it are text. */
module RuleText {
  import opened Basics
  import opened KeyNames
  import opened ConfigStore
  import opened RuleStore

  // ------------------------------------------------------------ numbers and addresses

  /** Reading digits from the front of a text, after `acc` has been read. */
  function ReadOn(acc: nat, s: string): (nat, string)
    decreases |s|
  {
    if s != "" && '0' <= s[0] <= '9' then ReadOn(10 * acc + (s[0] as int - '0' as int), s[1..]) else (acc, s)
  }

  function ReadInt(s: string): nat {
    ReadOn(0, s).0
  }

  lemma DigitValue(n: nat)
    requires n < 10
    ensures '0' <= Digit(n) <= '9' && Digit(n) as int - '0' as int == n
  {
    assert forall i | 0 <= i < 10 :: "0123456789"[i] as int == '0' as int + i;
  }

  lemma ReadDigit(acc: nat, n: nat, tail: string)
    requires n < 10
    ensures ReadOn(acc, [Digit(n)] + tail) == ReadOn(10 * acc + n, tail)
  {
    DigitValue(n);
    assert ([Digit(n)] + tail)[1..] == tail;
  }

  lemma {:induction false} ReadDecimal(n: nat, tail: string)
    ensures ReadOn(0, Decimal(n) + tail) == ReadOn(n, tail)
  {
    var d := [Digit(n % 10)];
    ReadDigit(n / 10, n % 10, tail);
    if n >= 10 {
      assert Decimal(n) + tail == Decimal(n / 10) + (d + tail);
      ReadDecimal(n / 10, d + tail);
    }
  }

  /** A number printed with `%d` reads back as itself. */
  lemma ReadPrinted(n: nat)
    ensures ReadInt(Decimal(n)) == n
  {
    ReadDecimal(n, "");
    assert Decimal(n) + "" == Decimal(n);
  }

  function Dotted(a: nat, b: nat, c: nat, d: nat): string {
    Decimal(a) + ("." + (Decimal(b) + ("." + (Decimal(c) + ("." + Decimal(d))))))
  }

  /** The dotted form of an address. */
  function QuadText(n: Word): string {
    Dotted(n / 0x100_0000 % 0x100, n / 0x1_0000 % 0x100, n / 0x100 % 0x100, n % 0x100)
  }

  function AfterDot(s: string): Option<string> {
    if s != "" && s[0] == '.' then Some(s[1..]) else None
  }

  lemma DotDropped(t: string)
    ensures AfterDot("." + t) == Some(t)
  {
    assert ("." + t)[1..] == t;
  }

  function ReadNumber(s: string): (nat, string) {
    ReadOn(0, s)
  }

  /** `sscanf("%d.%d.%d.%d")` and the range test of each part, for a way of reading numbers. */
  function ReadQuadBy(read: string -> (nat, string), s: string): Option<Word> {
    var (a, s1) := read(s);
    if AfterDot(s1).None? then None else
    var (b, s2) := read(AfterDot(s1).value);
    if AfterDot(s2).None? then None else
    var (c, s3) := read(AfterDot(s2).value);
    if AfterDot(s3).None? then None else
    var (d, _) := read(AfterDot(s3).value);
    if a > 255 || b > 255 || c > 255 || d > 255 then None
    else Some(a * 0x100_0000 + b * 0x1_0000 + c * 0x100 + d)
  }

  function ReadQuad(s: string): Option<Word> {
    ReadQuadBy(ReadNumber, s)
  }

  lemma ReadPart(n: nat, tail: string)
    requires tail == "" || tail[0] == '.'
    ensures ReadNumber(Decimal(n) + tail) == (n, tail)
  {
    ReadDecimal(n, tail);
  }

  lemma ReadLastPart(n: nat)
    ensures ReadNumber(Decimal(n)) == (n, "")
  {
    ReadPart(n, "");
    assert Decimal(n) + "" == Decimal(n);
  }

  lemma FromBytes(n: Word)
    ensures n / 0x100_0000 % 0x100 * 0x100_0000 + n / 0x1_0000 % 0x100 * 0x1_0000 + n / 0x100 % 0x100 * 0x100
            + n % 0x100 == n
  {
    var a, b, c := n / 0x100, n / 0x1_0000, n / 0x100_0000;
    assert a / 0x100 == b && b / 0x100 == c && c < 0x100;
  }

  lemma ReadParts(read: string -> (nat, string), s: string, s1: string, s2: string, s3: string, a: nat, b: nat,
                  c: nat, d: nat)
    requires a < 0x100 && b < 0x100 && c < 0x100 && d < 0x100
    requires read(s) == (a, "." + s1) && read(s1) == (b, "." + s2) && read(s2) == (c, "." + s3) && read(s3) == (d, "")
    ensures ReadQuadBy(read, s) == Some(a * 0x100_0000 + b * 0x1_0000 + c * 0x100 + d)
  {
    DotDropped(s1);
    DotDropped(s2);
    DotDropped(s3);
  }

  lemma ReadDotted(a: nat, b: nat, c: nat, d: nat)
    requires a < 0x100 && b < 0x100 && c < 0x100 && d < 0x100
    ensures ReadQuad(Dotted(a, b, c, d)) == Some(a * 0x100_0000 + b * 0x1_0000 + c * 0x100 + d)
  {
    var t3 := Decimal(d);
    var t2 := Decimal(c) + ("." + t3);
    var t1 := Decimal(b) + ("." + t2);
    ReadPart(a, "." + t1);
    ReadPart(b, "." + t2);
    ReadPart(c, "." + t3);
    ReadLastPart(d);
    ReadParts(ReadNumber, Dotted(a, b, c, d), t1, t2, t3, a, b, c, d);
  }

  /** A printed address reads back as itself. */
  lemma ReadPrintedQuad(n: Word)
    ensures ReadQuad(QuadText(n)) == Some(n)
  {
    var a, b, c, d := n / 0x100_0000 % 0x100, n / 0x1_0000 % 0x100, n / 0x100 % 0x100, n % 0x100;
    FromBytes(n);
    ReadDotted(a, b, c, d);
    assert QuadText(n) == Dotted(a, b, c, d);
  }

  // ------------------------------------------------------------ keys

  const MAX_KEY_NO: nat := 20

  function HexDigit(n: nat): char
    requires n < 16
  {
    if n < 10 then (0x30 + n) as char else (0x37 + n) as char
  }

  function HexValue(c: char): Option<nat> {
    if 0x30 <= c as int <= 0x39 then Some(c as int - 0x30)
    else if 0x41 <= c as int <= 0x46 then Some(c as int - 0x37)
    else None
  }

  function Upper(c: char): char {
    if 'a' <= c <= 'z' then (c as int - 0x20) as char else c
  }

  /** The printed form of a key; a zero byte that is left out ends it. */
  function KeyText(key: seq<nat>, mask: seq<nat>): string
    requires |key| == |mask|
  {
    if key == [] || (key[0] == 0 && mask[0] == 0xff) then ""
    else [HexDigit(key[0] / 16 % 16), HexDigit(key[0] % 16)] + KeyText(key[1..], mask[1..])
  }

  lemma Dropped(s: seq<nat>, i: nat)
    requires i < |s|
    ensures s[i..][1..] == s[i + 1..] && s[i..][0] == s[i]
  {
  }

  lemma NextDigits(key: seq<nat>, mask: seq<nat>, i: nat, s: string)
    requires i < |key| == |mask| && !(key[i] == 0 && mask[i] == 0xff)
    ensures s + KeyText(key[i..], mask[i..])
         == s + [HexDigit(key[i] / 16 % 16)] + [HexDigit(key[i] % 16)] + KeyText(key[i + 1..], mask[i + 1..])
  {
    Dropped(key, i);
    Dropped(mask, i);
  }

  /** The printing loop. */
  method PrintKey(key: seq<nat>, mask: seq<nat>) returns (s: string)
    requires |key| == |mask| == MAX_KEY_NO
    ensures s == KeyText(key, mask)
  {
    s := "";
    var i := 0;
    assert key[0..] == key && mask[0..] == mask;
    while i < MAX_KEY_NO
      invariant 0 <= i <= MAX_KEY_NO
      invariant s + KeyText(key[i..], mask[i..]) == KeyText(key, mask)
    {
      if key[i] == 0 && mask[i] == 0xff {
        break;
      }
      NextDigits(key, mask, i, s);
      var fs, ls := key[i] / 16 % 16, key[i] % 16;
      s := s + [HexDigit(fs)] + [HexDigit(ls)];
      i := i + 1;
    }
  }

  /** The bytes a text of hexadecimal pairs stands for, if it is one. */
  function KeyBytes(s: string): Option<seq<nat>>
    requires |s| % 2 == 0
  {
    if s == "" then Some([])
    else
      var rest := KeyBytes(s[..|s| - 2]);
      var hi, lo := HexValue(Upper(s[|s| - 2])), HexValue(Upper(s[|s| - 1]));
      if rest.None? || hi.None? || lo.None? then None else Some(rest.value + [16 * hi.value + lo.value])
  }

  function Padded(bytes: seq<nat>): seq<nat>
    requires |bytes| <= MAX_KEY_NO
  {
    bytes + seq(MAX_KEY_NO - |bytes|, i => 0)
  }

  /** The mask of a key: its bytes count, what follows them does not. */
  function MaskOf(length: nat): seq<nat> {
    seq(MAX_KEY_NO, i => if i < length then 0 else 0xff)
  }

  /** What a key option stands for: nothing when its text is empty, too long, of odd length or
      not hexadecimal. */
  function ReadKey(s: string): Option<(seq<nat>, seq<nat>)> {
    if |s| > 2 * MAX_KEY_NO || |s| == 0 || |s| % 2 != 0 then None
    else
      var bytes := KeyBytes(s);
      if bytes.None? || 2 * |bytes.value| != |s| then None else Some((Padded(bytes.value), MaskOf(|bytes.value|)))
  }

  /** The value of a hexadecimal digit, in either case. */
  function DigitOf(c: char): Option<nat> {
    if '0' <= c <= '9' then Some(c as int - '0' as int)
    else if 'a' <= c <= 'f' then Some(10 + (c as int - 'a' as int))
    else if 'A' <= c <= 'F' then Some(10 + (c as int - 'A' as int))
    else None
  }

  /** One to twenty pairs of hexadecimal digits. */
  predicate IsKeyText(s: string) {
    2 <= |s| <= 40 && |s| % 2 == 0 && forall i | 0 <= i < |s| :: DigitOf(s[i]).Some?
  }

  /** The byte a pair of digits stands for. */
  function PairAt(s: string, j: nat): nat
    requires IsKeyText(s) && 2 * j < |s|
  {
    16 * DigitOf(s[2 * j]).value + DigitOf(s[2 * j + 1]).value
  }

  /** The key and mask of a text: its bytes in order, each of which counts, and behind them zeros
      that do not. */
  predicate IsKeyOf(key: seq<nat>, mask: seq<nat>, s: string)
    requires IsKeyText(s)
  {
    && |key| == |mask| == 20
    && (forall j | 0 <= j < 20 :: key[j] == if 2 * j < |s| then PairAt(s, j) else 0)
    && (forall j | 0 <= j < 20 :: mask[j] == if 2 * j < |s| then 0 else 0xff)
  }

  lemma HexIsDigit(c: char)
    ensures HexValue(Upper(c)) == DigitOf(c)
  {
  }

  lemma {:induction false} KeyBytesAt(s: string)
    requires |s| % 2 == 0
    ensures KeyBytes(s).Some? <==> forall i | 0 <= i < |s| :: DigitOf(s[i]).Some?
    ensures KeyBytes(s).Some? ==> 2 * |KeyBytes(s).value| == |s| && forall j | 0 <= 2 * j < |s| ::
      KeyBytes(s).value[j] == 16 * DigitOf(s[2 * j]).value + DigitOf(s[2 * j + 1]).value
  {
    if s != "" {
      var t := s[..|s| - 2];
      KeyBytesAt(t);
      HexIsDigit(s[|s| - 2]);
      HexIsDigit(s[|s| - 1]);
      assert forall i | 0 <= i < |t| :: t[i] == s[i];
    }
  }

  /** What is read from a text, digit by digit. */
  lemma ReadKeyAt(s: string)
    ensures ReadKey(s).Some? <==> IsKeyText(s)
    ensures IsKeyText(s) ==> IsKeyOf(ReadKey(s).value.0, ReadKey(s).value.1, s)
  {
    if |s| % 2 == 0 {
      KeyBytesAt(s);
    }
  }

  lemma {:induction false} BadPair(s: string, i: nat)
    requires |s| % 2 == 0 && i % 2 == 0 && i + 2 <= |s|
    requires HexValue(Upper(s[i])).None? || HexValue(Upper(s[i + 1])).None?
    ensures KeyBytes(s).None?
  {
    if i + 2 < |s| {
      BadPair(s[..|s| - 2], i);
    }
  }

  lemma NextPair(s: string, i: nat)
    requires i % 2 == 0 && i + 2 <= |s| && KeyBytes(s[..i]).Some?
    requires HexValue(Upper(s[i])).Some? && HexValue(Upper(s[i + 1])).Some?
    ensures KeyBytes(s[..i + 2])
         == Some(KeyBytes(s[..i]).value + [16 * HexValue(Upper(s[i])).value + HexValue(Upper(s[i + 1])).value])
  {
    assert s[..i + 2][..i] == s[..i];
  }

  lemma PaddedUpdate(bytes: seq<nat>, b: nat)
    requires |bytes| < MAX_KEY_NO
    ensures Padded(bytes)[|bytes| := b] == Padded(bytes + [b])
  {
  }

  /** The mask for a key of `length` bytes. */
  method FillMask(length: nat) returns (mask: array<nat>)
    requires length <= MAX_KEY_NO
    ensures fresh(mask) && mask[..] == MaskOf(length)
  {
    mask := new nat[MAX_KEY_NO](i => 0xff);
    for i := 0 to length
      invariant mask[..] == MaskOf(i)
    {
      mask[i] := 0;
    }
  }

  /** The reading of the key option: what it accepts, and the bytes it makes of it. */
  method ParseKey(text: string) returns (out: Option<(seq<nat>, seq<nat>)>)
    ensures out == ReadKey(text)
    ensures out.Some? <==> IsKeyText(text)
    ensures out.Some? ==> IsKeyOf(out.value.0, out.value.1, text)
  {
    out := ScanKey(text);
    ReadKeyAt(text);
  }

  method ScanKey(text: string) returns (out: Option<(seq<nat>, seq<nat>)>)
    ensures out == ReadKey(text)
  {
    var len := |text|;
    if len > 2 * MAX_KEY_NO || len == 0 || len % 2 != 0 {
      return None;
    }
    var mask := FillMask(len / 2);
    var key := new nat[MAX_KEY_NO](i => 0);
    var i, j := 0, 0;
    ghost var bytes: seq<nat> := [];
    assert text[..0] == "" && key[..] == Padded([]);
    while i < len - 1
      invariant 0 <= i <= len && i == 2 * j && |bytes| == j
      invariant KeyBytes(text[..i]) == Some(bytes) && key[..] == Padded(bytes)
      invariant mask[..] == MaskOf(len / 2)
    {
      var fs, ls := HexValue(Upper(text[i])), HexValue(Upper(text[i + 1]));
      if fs.None? || ls.None? {
        BadPair(text, i);
        return None;
      }
      NextPair(text, i);
      PaddedUpdate(bytes, 16 * fs.value + ls.value);
      key[j] := 16 * fs.value + ls.value;
      bytes := bytes + [16 * fs.value + ls.value];
      j := j + 1;
      i := i + 2;
    }
    assert text[..i] == text;
    out := Some((key[..], mask[..]));
  }

  /** A key as the parser makes it. */
  ghost predicate KeyShape(key: seq<nat>, mask: seq<nat>, bytes: seq<nat>) {
    && 1 <= |bytes| <= MAX_KEY_NO && (forall i | 0 <= i < |bytes| :: bytes[i] < 0x100)
    && key == Padded(bytes) && mask == MaskOf(|bytes|)
  }

  /** The two digits of each byte. */
  function Digits(bytes: seq<nat>): string {
    if bytes == [] then ""
    else
      var b := bytes[|bytes| - 1];
      Digits(bytes[..|bytes| - 1]) + [HexDigit(b / 16 % 16), HexDigit(b % 16)]
  }

  /** Keys are printed in capitals. */
  lemma HexInverse(n: nat)
    requires n < 16
    ensures DigitOf(HexDigit(n)) == Some(n) && !('a' <= HexDigit(n) <= 'f')
    ensures HexValue(Upper(HexDigit(n))) == Some(n)
  {
  }

  lemma OnePairMore(t: string, bytes: seq<nat>, b: nat)
    requires |t| % 2 == 0 && KeyBytes(t) == Some(bytes) && b < 0x100
    ensures KeyBytes(t + [HexDigit(b / 16 % 16), HexDigit(b % 16)]) == Some(bytes + [b])
  {
    var s := t + [HexDigit(b / 16 % 16), HexDigit(b % 16)];
    assert s[..|s| - 2] == t;
    HexInverse(b / 16 % 16);
    HexInverse(b % 16);
  }

  lemma {:induction false} ReadDigits(bytes: seq<nat>)
    requires forall i | 0 <= i < |bytes| :: bytes[i] < 0x100
    ensures |Digits(bytes)| == 2 * |bytes| && KeyBytes(Digits(bytes)) == Some(bytes)
  {
    if bytes != [] {
      var front, b := bytes[..|bytes| - 1], bytes[|bytes| - 1];
      ReadDigits(front);
      OnePairMore(Digits(front), front, b);
      assert Digits(bytes) == Digits(front) + [HexDigit(b / 16 % 16), HexDigit(b % 16)];
      assert bytes == front + [b];
    }
  }

  /** Printing goes on to the last byte: inside a key the end is never taken to be reached. */
  lemma {:induction false} TextIsDigits(key: seq<nat>, mask: seq<nat>, bytes: seq<nat>, i: nat)
    requires KeyShape(key, mask, bytes) && i <= |bytes|
    ensures Digits(bytes[..i]) + KeyText(key[i..], mask[i..]) == Digits(bytes)
    decreases |bytes| - i
  {
    if i == |bytes| {
      assert bytes[..i] == bytes;
    } else {
      TextIsDigits(key, mask, bytes, i + 1);
      NextOfText(key, mask, bytes, i);
    }
  }

  lemma NextOfText(key: seq<nat>, mask: seq<nat>, bytes: seq<nat>, i: nat)
    requires KeyShape(key, mask, bytes) && i < |bytes|
    ensures Digits(bytes[..i]) + KeyText(key[i..], mask[i..])
         == Digits(bytes[..i + 1]) + KeyText(key[i + 1..], mask[i + 1..])
  {
    assert bytes[..i + 1][..i] == bytes[..i];
    NextDigits(key, mask, i, Digits(bytes[..i]));
    var s := Digits(bytes[..i]);
    assert s + [HexDigit(key[i] / 16 % 16)] + [HexDigit(key[i] % 16)]
        == s + [HexDigit(key[i] / 16 % 16), HexDigit(key[i] % 16)];
  }

  lemma WholeText(key: seq<nat>, mask: seq<nat>, bytes: seq<nat>)
    requires KeyShape(key, mask, bytes)
    ensures KeyText(key, mask) == Digits(bytes)
  {
    TextIsDigits(key, mask, bytes, 0);
    var t := KeyText(key[0..], mask[0..]);
    assert key[0..] == key && mask[0..] == mask && bytes[..0] == [] && "" + t == t;
  }

  lemma ReadKeyOf(t: string, bytes: seq<nat>)
    requires 1 <= |bytes| <= MAX_KEY_NO && |t| == 2 * |bytes| && KeyBytes(t) == Some(bytes)
    ensures ReadKey(t) == Some((Padded(bytes), MaskOf(|bytes|)))
  {
  }

  /** A printed key reads back as itself, mask included. */
  lemma ReadPrintedKey(key: seq<nat>, mask: seq<nat>, bytes: seq<nat>)
    requires KeyShape(key, mask, bytes)
    ensures ReadKey(KeyText(key, mask)) == Some((key, mask))
  {
    WholeText(key, mask, bytes);
    ReadDigits(bytes);
    ReadKeyOf(Digits(bytes), bytes);
  }

  /** Every key the parser makes has that shape. */
  lemma {:induction false} ByteRange(s: string)
    requires |s| % 2 == 0 && KeyBytes(s).Some?
    ensures forall i | 0 <= i < |KeyBytes(s).value| :: KeyBytes(s).value[i] < 0x100
  {
    if s != "" {
      ByteRange(s[..|s| - 2]);
    }
  }
}
