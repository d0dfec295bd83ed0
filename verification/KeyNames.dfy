/** The printed database keys of cli/database.c, and why no two of them coincide.

    A key is a list of components joined by dots.  Numbers are printed in decimal, so no
    component contains a dot, and the list can be read back from the string. */
module KeyNames {

  datatype RuleSet = Set1 | Set2

  /** The last component of a rule key. */
  datatype Field =
    | Flag
    | Protocol | Srcip | SrcipMask | Dstip | DstipMask | Srcl4port | Dstl4port | PacketlenRange
    | Offset | Key | Mask

  datatype DbKey =
    | Initialized
    | RuleCount(rules: RuleSet, oc: nat)
    | RuleField(rules: RuleSet, oc: nat, id: nat, field: Field)
    | ForwardMode(oc: nat, rule1: nat, rule2: nat)

  function Digit(n: nat): char
    requires n < 10
  {
    "0123456789"[n]
  }

  /** What `%d` prints for a number that is not negative. */
  function Decimal(n: nat): (s: string)
    ensures s != "" && forall i | 0 <= i < |s| :: '0' <= s[i] <= '9'
  {
    if n < 10 then [Digit(n)] else Decimal(n / 10) + [Digit(n % 10)]
  }

  function FieldName(f: Field): string {
    match f
    case Flag => "Flag"
    case Protocol => "Protocol"
    case Srcip => "Srcip"
    case SrcipMask => "Srcip_mask"
    case Dstip => "Dstip"
    case DstipMask => "Dstip_mask"
    case Srcl4port => "Srcl4port"
    case Dstl4port => "Dstl4port"
    case PacketlenRange => "Packetlen_range"
    case Offset => "Offset"
    case Key => "Key"
    case Mask => "Mask"
  }

  function SetName(s: RuleSet): string {
    if s.Set1? then "Filter1" else "Filter2"
  }

  function Components(k: DbKey): seq<string> {
    match k
    case Initialized => ["DB", "Init"]
    case RuleCount(s, oc) => [SetName(s), Decimal(oc), "No"]
    case RuleField(s, oc, id, f) => [SetName(s), Decimal(oc), Decimal(id), FieldName(f)]
    case ForwardMode(oc, i, j) => ["Forward", "Mode", Decimal(oc), Decimal(i), Decimal(j)]
  }

  function Join(parts: seq<string>): string {
    if parts == [] then ""
    else if |parts| == 1 then parts[0]
    else parts[0] + "." + Join(parts[1..])
  }

  function Name(k: DbKey): string {
    Join(Components(k))
  }

  // ------------------------------------------------------------ the printed names

  /** `%d` in decimal: the last digit is the remainder by ten, in front of it the quotient. */
  lemma DecimalDigits(n: nat)
    ensures n < 10 ==> |Decimal(n)| == 1 && Decimal(n)[0] as int == '0' as int + n
    ensures n >= 10 ==> Decimal(n) == Decimal(n / 10) + Decimal(n % 10)
  {
    assert forall i | 0 <= i < 10 :: "0123456789"[i] as int == '0' as int + i;
  }

  lemma JoinFirst(a: string, rest: seq<string>)
    requires rest != []
    ensures Join([a] + rest) == a + "." + Join(rest)
  {
    assert ([a] + rest)[1..] == rest;
  }

  lemma JoinThree(a: string, b: string, c: string)
    ensures Join([a, b, c]) == a + "." + (b + "." + c)
  {
    JoinFirst(b, [c]);
    JoinFirst(a, [b, c]);
    assert [b] + [c] == [b, c] && [a] + [b, c] == [a, b, c];
  }

  lemma JoinFour(a: string, b: string, c: string, d: string)
    ensures Join([a, b, c, d]) == a + "." + (b + "." + (c + "." + d))
  {
    JoinThree(b, c, d);
    JoinFirst(a, [b, c, d]);
    assert [a] + [b, c, d] == [a, b, c, d];
  }

  lemma JoinFive(a: string, b: string, c: string, d: string, e: string)
    ensures Join([a, b, c, d, e]) == a + "." + (b + "." + (c + "." + (d + "." + e)))
  {
    JoinFour(b, c, d, e);
    JoinFirst(a, [b, c, d, e]);
    assert [a] + [b, c, d, e] == [a, b, c, d, e];
  }

  /** `Filter1.%d.%d.` and `Filter2.%d.%d.` with what follows them. */
  function RuleKeyName(front: string, oc: nat, id: nat, end: string): string {
    front + "." + (Decimal(oc) + "." + (Decimal(id) + "." + end))
  }

  /** The names of the rule keys, one by one. */
  lemma RuleKeysPrinted(oc: nat, id: nat)
    ensures Name(RuleField(Set1, oc, id, Flag)) == RuleKeyName("Filter1", oc, id, "Flag")
    ensures Name(RuleField(Set1, oc, id, Protocol)) == RuleKeyName("Filter1", oc, id, "Protocol")
    ensures Name(RuleField(Set1, oc, id, Srcip)) == RuleKeyName("Filter1", oc, id, "Srcip")
    ensures Name(RuleField(Set1, oc, id, SrcipMask)) == RuleKeyName("Filter1", oc, id, "Srcip_mask")
    ensures Name(RuleField(Set1, oc, id, Dstip)) == RuleKeyName("Filter1", oc, id, "Dstip")
    ensures Name(RuleField(Set1, oc, id, DstipMask)) == RuleKeyName("Filter1", oc, id, "Dstip_mask")
    ensures Name(RuleField(Set1, oc, id, Srcl4port)) == RuleKeyName("Filter1", oc, id, "Srcl4port")
    ensures Name(RuleField(Set1, oc, id, Dstl4port)) == RuleKeyName("Filter1", oc, id, "Dstl4port")
    ensures Name(RuleField(Set1, oc, id, PacketlenRange)) == RuleKeyName("Filter1", oc, id, "Packetlen_range")
    ensures Name(RuleField(Set2, oc, id, Flag)) == RuleKeyName("Filter2", oc, id, "Flag")
    ensures Name(RuleField(Set2, oc, id, Offset)) == RuleKeyName("Filter2", oc, id, "Offset")
    ensures Name(RuleField(Set2, oc, id, Key)) == RuleKeyName("Filter2", oc, id, "Key")
    ensures Name(RuleField(Set2, oc, id, Mask)) == RuleKeyName("Filter2", oc, id, "Mask")
  {
    forall s: RuleSet, f: Field
      ensures Name(RuleField(s, oc, id, f)) == RuleKeyName(SetName(s), oc, id, FieldName(f))
    {
      JoinFour(SetName(s), Decimal(oc), Decimal(id), FieldName(f));
    }
  }

  /** The names of the other keys. */
  lemma OtherKeysPrinted(oc: nat, i: nat, j: nat)
    ensures Name(Initialized) == "DB" + "." + "Init"
    ensures Name(RuleCount(Set1, oc)) == "Filter1" + "." + (Decimal(oc) + "." + "No")
    ensures Name(RuleCount(Set2, oc)) == "Filter2" + "." + (Decimal(oc) + "." + "No")
    ensures Name(ForwardMode(oc, i, j)) ==
      "Forward" + "." + ("Mode" + "." + (Decimal(oc) + "." + (Decimal(i) + "." + Decimal(j))))
  {
    JoinThree("Filter1", Decimal(oc), "No");
    JoinThree("Filter2", Decimal(oc), "No");
    JoinFive("Forward", "Mode", Decimal(oc), Decimal(i), Decimal(j));
    var s := ["DB", "Init"];
    assert s[1..] == ["Init"];
  }

  // ------------------------------------------------------------ reading back

  predicate DotFree(s: string) {
    forall i | 0 <= i < |s| :: s[i] != '.'
  }

  lemma DigitInjective(m: nat, n: nat)
    requires m < 10 && n < 10 && Digit(m) == Digit(n)
    ensures m == n
  {
    assert forall i | 0 <= i < 10 :: "0123456789"[i] as int == '0' as int + i;
  }

  lemma {:induction false} DecimalInjective(m: nat, n: nat)
    requires Decimal(m) == Decimal(n)
    ensures m == n
  {
    var s, t := Decimal(m), Decimal(n);
    assert s[|s| - 1] == Digit(m % 10) && t[|t| - 1] == Digit(n % 10);
    DigitInjective(m % 10, n % 10);
    if m >= 10 && n >= 10 {
      assert s[..|s| - 1] == Decimal(m / 10) && t[..|t| - 1] == Decimal(n / 10);
      DecimalInjective(m / 10, n / 10);
    }
  }

  lemma HeadsAgree(a: string, s: string, b: string, t: string)
    requires DotFree(a) && DotFree(b) && a + "." + s == b + "." + t
    ensures a == b && s == t
  {
    var x, y := a + "." + s, b + "." + t;
    assert x[|a|] == '.' && y[|b|] == '.';
    assert forall i | 0 <= i < |b| :: y[i] == b[i];
    assert forall i | 0 <= i < |a| :: x[i] == a[i];
    assert a == x[..|a|] && b == y[..|b|];
    assert s == x[|a| + 1..] && t == y[|b| + 1..];
  }

  lemma {:induction false} JoinInjective(xs: seq<string>, ys: seq<string>)
    requires xs != [] && ys != [] && Join(xs) == Join(ys)
    requires forall i | 0 <= i < |xs| :: DotFree(xs[i])
    requires forall i | 0 <= i < |ys| :: DotFree(ys[i])
    ensures xs == ys
  {
    assert |xs| > 1 ==> Join(xs)[|xs[0]|] == '.';
    assert |ys| > 1 ==> Join(ys)[|ys[0]|] == '.';
    assert DotFree(xs[0]) && DotFree(ys[0]);
    if |xs| > 1 && |ys| > 1 {
      HeadsAgree(xs[0], Join(xs[1..]), ys[0], Join(ys[1..]));
      JoinInjective(xs[1..], ys[1..]);
    }
  }

  lemma FieldNameDotFree(f: Field)
    ensures DotFree(FieldName(f))
  {
    match f
    case Flag =>
    case Protocol =>
    case Srcip =>
    case SrcipMask =>
    case Dstip =>
    case DstipMask =>
    case Srcl4port =>
    case Dstl4port =>
    case PacketlenRange =>
    case Offset =>
    case Key =>
    case Mask =>
  }

  lemma ComponentsDotFree(k: DbKey)
    ensures Components(k) != []
    ensures forall i | 0 <= i < |Components(k)| :: DotFree(Components(k)[i])
  {
    match k
    case Initialized =>
    case RuleCount(s, oc) =>
    case RuleField(s, oc, id, f) => FieldNameDotFree(f);
    case ForwardMode(oc, i, j) =>
  }

  lemma FieldNameInjective(f: Field, g: Field)
    requires FieldName(f) == FieldName(g)
    ensures f == g
  {
    assert |FieldName(f)| == |FieldName(g)|;
    assert |FieldName(f)| >= 3 ==> FieldName(f)[0] == FieldName(g)[0];
    assert |FieldName(f)| >= 3 ==> FieldName(f)[1] == FieldName(g)[1];
  }

  /** Distinct keys are printed differently. */
  lemma NameInjective(k: DbKey, l: DbKey)
    requires Name(k) == Name(l)
    ensures k == l
  {
    ComponentsDotFree(k);
    ComponentsDotFree(l);
    JoinInjective(Components(k), Components(l));
    var xs, ys := Components(k), Components(l);
    match k
    case Initialized =>
    case RuleCount(s, oc) =>
      assert xs[0] == ys[0] && xs[1] == ys[1];
      assert "Filter1"[6] != "Filter2"[6];
      DecimalInjective(oc, l.oc);
    case RuleField(s, oc, id, f) =>
      assert xs[0] == ys[0] && xs[1] == ys[1] && xs[2] == ys[2] && xs[3] == ys[3];
      assert "Filter1"[6] != "Filter2"[6];
      DecimalInjective(oc, l.oc);
      DecimalInjective(id, l.id);
      FieldNameInjective(f, l.field);
    case ForwardMode(oc, i, j) =>
      assert xs[2] == ys[2] && xs[3] == ys[3] && xs[4] == ys[4];
      DecimalInjective(oc, l.oc);
      DecimalInjective(i, l.rule1);
      DecimalInjective(j, l.rule2);
  }
}
