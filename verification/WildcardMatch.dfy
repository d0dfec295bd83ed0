/** The wildcard matcher of utils/match.c.

    A C string is a `string` without NUL; position `|s|` reads as NUL.  `Parse` is the
    documented pattern syntax, `GlobAt` the documented meaning of a pattern, both written
    without reference to how the matcher searches.  `Matche` and `MatcheAfterStar` are the
    two mutually recursive routines, with their early-abort rule. */
module WildcardMatch {

  // ------------------------------------------------------------ strings and results

  const NUL: char := '\0'

  predicate CString(s: string) {
    forall i | 0 <= i < |s| :: s[i] != NUL
  }

  function At(s: string, i: nat): char {
    if i < |s| then s[i] else NUL
  }

  const MATCH_PATTERN: int := 6
  const MATCH_LITERAL: int := 5
  const MATCH_RANGE: int := 4
  const MATCH_ABORT: int := 3
  const MATCH_END: int := 2
  const MATCH_VALID: int := 1

  // ------------------------------------------------------------ pattern syntax

  /** One `a` or `a-b` of a set; the ends of a range may come in either order. */
  datatype Item = Item(lo: char, hi: char) {
    predicate Has(c: char) {
      lo <= c <= hi || hi <= c <= lo
    }
  }

  datatype Token = Lit(c: char) | Any | Star | Set(invert: bool, items: seq<Item>) {
    /** Which single characters a non-star token stands for. */
    predicate Has(x: char) {
      match this
      case Lit(c) => c == x
      case Any => true
      case Star => false
      case Set(invert, items) => invert != InItems(items, x)
    }
  }

  predicate InItems(items: seq<Item>, c: char) {
    exists i | 0 <= i < |items| :: items[i].Has(c)
  }

  datatype Parsed<+T> = Bad | Good(value: T, next: nat)

  /** The item at position `p` of a set: `c`, `\c`, or one of these, a bar, and a range end. */
  function ParseItem(pat: string, p: nat): (r: Parsed<Item>)
    ensures r.Good? ==> p < r.next <= |pat|
  {
    var q := if At(pat, p) == '\\' then p + 1 else p;
    if q >= |pat| then Bad
    else if At(pat, q + 1) != '-' then Good(Item(pat[q], pat[q]), q + 1)
    else if At(pat, q + 2) == ']' || q + 2 >= |pat| then Bad
    else if pat[q + 2] != '\\' then Good(Item(pat[q], pat[q + 2]), q + 3)
    else if q + 3 >= |pat| then Bad
    else Good(Item(pat[q], pat[q + 3]), q + 4)
  }

  /** The items up to the closing bracket; `next` is the position of that bracket. */
  function ParseItems(pat: string, p: nat): (r: Parsed<seq<Item>>)
    ensures r.Good? ==> p <= r.next < |pat| && pat[r.next] == ']'
    decreases |pat| - p
  {
    if p >= |pat| then Bad
    else if pat[p] == ']' then Good([], p)
    else
      var item := ParseItem(pat, p);
      if item.Bad? then Bad
      else
        var rest := ParseItems(pat, item.next);
        if rest.Bad? then Bad else Good([item.value] + rest.value, rest.next)
  }

  predicate IsInverted(pat: string, p: nat) {
    At(pat, p) == '!' || At(pat, p) == '^'
  }

  /** The set whose first position after the opening bracket is `p`. */
  function ParseSet(pat: string, p: nat): (r: Parsed<Token>)
    ensures r.Good? ==> p < r.next < |pat| && r.value.Set?
  {
    var start := if IsInverted(pat, p) then p + 1 else p;
    if At(pat, start) == ']' then Bad
    else
      var items := ParseItems(pat, start);
      if items.Bad? then Bad else Good(Set(IsInverted(pat, p), items.value), items.next)
  }

  /** The first token at `p`; `next` is the position just after it. */
  function ParseToken(pat: string, p: nat): (r: Parsed<Token>)
    requires p < |pat|
    ensures r.Good? ==> p < r.next <= |pat|
  {
    match pat[p]
    case '?' => Good(Any, p + 1)
    case '*' => Good(Star, p + 1)
    case '\\' => if p + 1 < |pat| then Good(Lit(pat[p + 1]), p + 2) else Bad
    case '[' =>
      var s := ParseSet(pat, p + 1);
      if s.Bad? then Bad else Good(s.value, s.next + 1)
    case c => Good(Lit(c), p + 1)
  }

  function ParseFrom(pat: string, p: nat): Parsed<seq<Token>>
    requires p <= |pat|
    decreases |pat| - p
  {
    if p == |pat| then Good([], p)
    else
      var first := ParseToken(pat, p);
      if first.Bad? then Bad
      else
        var rest := ParseFrom(pat, first.next);
        if rest.Bad? then Bad else Good([first.value] + rest.value, rest.next)
  }

  predicate WellFormed(pat: string) {
    ParseFrom(pat, 0).Good?
  }

  function Tokens(pat: string): seq<Token>
    requires WellFormed(pat)
  {
    ParseFrom(pat, 0).value
  }

  // ------------------------------------------------------------ pattern meaning

  /** `ts` matches the whole of `text[i..]`. */
  ghost predicate GlobAt(ts: seq<Token>, text: string, i: nat)
    requires i <= |text|
    decreases |ts|
  {
    if ts == [] then i == |text|
    else if ts[0].Star? then exists k | i <= k <= |text| :: GlobAt(ts[1..], text, k)
    else i < |text| && ts[0].Has(text[i]) && GlobAt(ts[1..], text, i + 1)
  }

  ghost predicate Glob(ts: seq<Token>, text: string) {
    GlobAt(ts, text, 0)
  }

  // ------------------------------------------------------------ the matcher's relation

  /** What `Matche` decides: as `GlobAt`, except that a star met at the end of the text
      is accepted only when it is the last token. */
  ghost predicate CodeGlob(ts: seq<Token>, text: string, i: nat)
    requires i <= |text|
    decreases |ts|, 0
  {
    if ts == [] then i == |text|
    else if i == |text| then ts == [Star]
    else if ts[0].Star? then CodeStar(ts[1..], text, i)
    else ts[0].Has(text[i]) && CodeGlob(ts[1..], text, i + 1)
  }

  /** What `MatcheAfterStar` decides: `ts` comes after a star. */
  ghost predicate CodeStar(ts: seq<Token>, text: string, i: nat)
    requires i <= |text|
    decreases |ts|, 1
  {
    if ts == [] then true
    else if ts[0].Star? then CodeStar(ts[1..], text, i)
    else if ts[0].Any? then i < |text| && CodeStar(ts[1..], text, i + 1)
    else exists k | i <= k <= |text| :: CodeGlob(ts, text, k)
  }

  lemma {:induction false} CodeStarSuffix(ts: seq<Token>, text: string, i: nat, j: nat)
    requires i <= j <= |text| && CodeStar(ts, text, j)
    ensures CodeStar(ts, text, i)
    decreases |ts|
  {
    if ts != [] && ts[0].Star? {
      CodeStarSuffix(ts[1..], text, i, j);
    } else if ts != [] && ts[0].Any? {
      CodeStarSuffix(ts[1..], text, i + 1, j + 1);
    }
  }

  // ------------------------------------------------------------ sets

  /** The first unescaped closing bracket at or after `p`: where the skip loop stops. */
  function SkipTo(pat: string, p: nat): Parsed<()>
    decreases |pat| - p
  {
    if p >= |pat| then Bad
    else if pat[p] == ']' then Good((), p)
    else if pat[p] == '\\' then if p + 1 >= |pat| then Bad else SkipTo(pat, p + 2)
    else SkipTo(pat, p + 1)
  }

  lemma ItemSkips(pat: string, p: nat)
    requires p < |pat| && pat[p] != ']' && ParseItem(pat, p).Good?
    ensures SkipTo(pat, p) == SkipTo(pat, ParseItem(pat, p).next)
  {
    var q := if At(pat, p) == '\\' then p + 1 else p;
    assert SkipTo(pat, p) == SkipTo(pat, q + 1);
    if At(pat, q + 1) == '-' {
      assert SkipTo(pat, q + 1) == SkipTo(pat, q + 2);
    }
  }

  lemma {:induction false} ItemsSkip(pat: string, p: nat)
    requires ParseItems(pat, p).Good?
    ensures SkipTo(pat, p) == Good((), ParseItems(pat, p).next)
    decreases |pat| - p
  {
    if pat[p] != ']' {
      ItemSkips(pat, p);
      ItemsSkip(pat, ParseItem(pat, p).next);
    }
  }

  /** Reading one character or range of a set, from `p` on; `ok` is false where the pattern is
      found to be bad. */
  method ReadItem(pat: string, p0: nat) returns (ok: bool, rangeStart: char, rangeEnd: char, p: nat)
    requires CString(pat) && p0 <= |pat|
    ensures ok <==> ParseItem(pat, p0).Good?
    ensures ok ==> ParseItem(pat, p0) == Good(Item(rangeStart, rangeEnd), p)
  {
    p := p0;
    if At(pat, p) == '\\' {
      p := p + 1;
    }
    rangeStart, rangeEnd := At(pat, p), At(pat, p);
    if At(pat, p) == NUL {
      return false, rangeStart, rangeEnd, p;
    }
    p := p + 1;
    if At(pat, p) == '-' {
      p := p + 1;
      rangeEnd := At(pat, p);
      if rangeEnd == NUL || rangeEnd == ']' {
        return false, rangeStart, rangeEnd, p;
      }
      if rangeEnd == '\\' {
        p := p + 1;
        rangeEnd := At(pat, p);
        if rangeEnd == NUL {
          return false, rangeStart, rangeEnd, p;
        }
      }
      p := p + 1;
    }
    ok := true;
  }

  /** Skipping what is left of a set once a member was found. */
  method SkipSet(pat: string, p0: nat) returns (ok: bool, p: nat)
    requires CString(pat) && p0 <= |pat|
    ensures ok <==> SkipTo(pat, p0).Good?
    ensures ok ==> p0 <= p < |pat| && pat[p] == ']' && p == SkipTo(pat, p0).next
  {
    p := p0;
    while At(pat, p) != ']'
      invariant p0 <= p <= |pat|
      invariant SkipTo(pat, p) == SkipTo(pat, p0)
      decreases |pat| - p
    {
      if At(pat, p) == NUL {
        return false, p;
      }
      if At(pat, p) == '\\' {
        p := p + 1;
        if At(pat, p) == NUL {
          return false, p;
        }
      }
      p := p + 1;
    }
    ok := true;
  }

  /** The end of the first item that has `x`, of the items from `p` on that come before a closing
      bracket and before anything malformed. */
  function HitEnd(pat: string, p: nat, x: char): (r: Parsed<()>)
    ensures r.Good? ==> p < r.next <= |pat|
    decreases |pat| - p
  {
    if p >= |pat| || pat[p] == ']' then Bad
    else
      var item := ParseItem(pat, p);
      if item.Bad? then Bad
      else if item.value.Has(x) then Good((), item.next)
      else HitEnd(pat, item.next, x)
  }

  /** What the [..] case makes of a malformed set: it is noticed, unless an item before the fault
      has the character and either the set is inverted or a closing bracket still follows. */
  function MalformedSet(pat: string, start: nat, x: char): int {
    var p := if IsInverted(pat, start) then start + 1 else start;
    var hit := HitEnd(pat, p, x);
    if At(pat, p) == ']' || hit.Bad? then MATCH_PATTERN
    else if IsInverted(pat, start) then MATCH_RANGE
    else if SkipTo(pat, hit.next).Good? then MATCH_VALID
    else MATCH_PATTERN
  }

  /** Looking for `x` among the items from `p0` on, up to the first that has it. */
  method FindMember(pat: string, p0: nat, x: char) returns (ok: bool, memberMatch: bool, p: nat)
    requires CString(pat) && p0 <= |pat|
    ensures ok ==> p0 <= p <= |pat| && (memberMatch || (p < |pat| && pat[p] == ']'))
    ensures if HitEnd(pat, p0, x).Good? then ok && memberMatch && p == HitEnd(pat, p0, x).next
            else ok ==> !memberMatch && ParseItems(pat, p0).Good?
    ensures var items := ParseItems(pat, p0);
            items.Good? ==> ok && memberMatch == InItems(items.value, x)
                            && ParseItems(pat, p).Good? && ParseItems(pat, p).next == items.next
  {
    p := p0;
    memberMatch := false;
    ghost var items := ParseItems(pat, p0);
    while !memberMatch && At(pat, p) != ']'
      invariant p0 <= p <= |pat|
      invariant if memberMatch then HitEnd(pat, p0, x) == Good((), p) else HitEnd(pat, p, x) == HitEnd(pat, p0, x)
      invariant !memberMatch && ParseItems(pat, p).Good? ==> items.Good?
      invariant items.Good? ==>
                  && ParseItems(pat, p).Good? && ParseItems(pat, p).next == items.next
                  && (if memberMatch then InItems(items.value, x)
                      else InItems(items.value, x) == InItems(ParseItems(pat, p).value, x))
      decreases |pat| - p
    {
      ghost var here := p;
      var rangeStart, rangeEnd;
      ok, rangeStart, rangeEnd, p := ReadItem(pat, p);
      if !ok {
        return;
      }
      if items.Good? {
        FirstItem(ParseItems(pat, here).value, x);
      }
      if rangeStart < rangeEnd {
        if rangeStart <= x <= rangeEnd {
          memberMatch := true;
        }
      } else {
        if rangeEnd <= x <= rangeStart {
          memberMatch := true;
        }
      }
    }
    ok := true;
  }

  /** The [..] case of `matche`: `start` is just after the bracket and `x` is the text character. */
  method MatchSet(pat: string, start: nat, x: char) returns (r: int, q: nat)
    requires CString(pat) && start <= |pat|
    ensures r == MATCH_VALID || r == MATCH_RANGE || r == MATCH_PATTERN
    ensures r == MATCH_VALID ==> start <= q < |pat| && pat[q] == ']'
    ensures var s := ParseSet(pat, start);
            s.Good? ==> r == (if s.value.Has(x) then MATCH_VALID else MATCH_RANGE)
                        && (r == MATCH_VALID ==> q == s.next)
    ensures ParseSet(pat, start).Bad? ==> r == MalformedSet(pat, start, x)
  {
    var p := start;
    var invert := false;
    if At(pat, p) == '!' || At(pat, p) == '^' {
      invert := true;
      p := p + 1;
    }
    if At(pat, p) == ']' {
      return MATCH_PATTERN, p;
    }
    var ok, memberMatch;
    ghost var items := ParseItems(pat, p);
    ok, memberMatch, p := FindMember(pat, p, x);
    if !ok {
      return MATCH_PATTERN, p;
    }
    if (invert && memberMatch) || !(invert || memberMatch) {
      return MATCH_RANGE, p;
    }
    if memberMatch {
      if items.Good? {
        ItemsSkip(pat, p);
      }
      ok, p := SkipSet(pat, p);
      if !ok {
        return MATCH_PATTERN, p;
      }
    }
    return MATCH_VALID, p;
  }

  lemma FirstItem(items: seq<Item>, x: char)
    ensures items != [] ==> InItems(items, x) == (items[0].Has(x) || InItems(items[1..], x))
  {
    if items != [] && InItems(items, x) && !items[0].Has(x) {
      var i :| 0 <= i < |items| && items[i].Has(x);
      assert items[1..][i - 1].Has(x);
    }
  }

  // ------------------------------------------------------------ the two routines

  /** The tokens of a pattern suffix, and what is known about a result code for them. */
  ghost predicate Decides(r: int, ts: seq<Token>, text: string, t: nat)
    requires t <= |text|
  {
    && r != MATCH_PATTERN
    && (r == MATCH_VALID <==> CodeGlob(ts, text, t))
    && (r == MATCH_ABORT ==> forall k | t <= k <= |text| :: !CodeGlob(ts, text, k))
  }

  /** Having matched one character per token from `t0` up to `t`, `rest` is what is left of `ts`. */
  ghost predicate Ahead(ts: seq<Token>, rest: seq<Token>, text: string, t0: nat, t: nat)
    requires t0 <= t <= |text|
  {
    && CodeGlob(ts, text, t0) == CodeGlob(rest, text, t)
    && forall k | t0 <= k <= |text| && CodeGlob(ts, text, k) ::
         k + (t - t0) <= |text| && CodeGlob(rest, text, k + (t - t0))
  }

  lemma AheadStep(ts: seq<Token>, rest: seq<Token>, text: string, t0: nat, t: nat)
    requires t0 <= t < |text| && Ahead(ts, rest, text, t0, t)
    requires rest != [] && !rest[0].Star? && rest[0].Has(text[t])
    ensures Ahead(ts, rest[1..], text, t0, t + 1)
  {
    forall k | t0 <= k <= |text| && CodeGlob(ts, text, k)
      ensures k + (t + 1 - t0) <= |text| && CodeGlob(rest[1..], text, k + (t + 1 - t0))
    {
      assert CodeGlob(rest, text, k + (t - t0));
    }
  }

  lemma TextExhausted(ts: seq<Token>, rest: seq<Token>, text: string, t0: nat)
    requires t0 <= |text| && Ahead(ts, rest, text, t0, |text|) && rest != []
    ensures CodeGlob(ts, text, t0) == (rest == [Star])
    ensures rest != [Star] ==> forall k | t0 <= k <= |text| :: !CodeGlob(ts, text, k)
  {
  }

  lemma StarFromHere(ts: seq<Token>, rest: seq<Token>, text: string, t0: nat, t: nat)
    requires t0 <= t < |text| && Ahead(ts, rest, text, t0, t)
    requires rest != [] && rest[0].Star?
    ensures CodeGlob(ts, text, t0) == CodeStar(rest[1..], text, t)
    ensures !CodeStar(rest[1..], text, t) ==> forall k | t0 <= k <= |text| :: !CodeGlob(ts, text, k)
  {
    if !CodeStar(rest[1..], text, t) {
      forall k | t0 <= k <= |text| && CodeGlob(ts, text, k) ensures false {
        var j := k + (t - t0);
        assert CodeGlob(rest, text, j);
        if j < |text| {
          CodeStarSuffix(rest[1..], text, t, j);
        }
      }
    }
  }

  lemma LastStar(pat: string, p: nat)
    requires p < |pat| && ParseFrom(pat, p).Good?
    ensures ParseFrom(pat, p).value != []
    ensures ParseFrom(pat, p).value == [Star] <==> pat[p] == '*' && p + 1 == |pat|
  {
    var first := ParseToken(pat, p);
    var rest := ParseFrom(pat, first.next);
    assert ParseFrom(pat, p).value == [first.value] + rest.value;
    assert rest.value == [] <==> first.next == |pat|;
    var one := [first.value];
    assert rest.value == [] ==> one + rest.value == one;
    assert (one + rest.value)[0] == first.value && |one + rest.value| == 1 + |rest.value|;
  }

  /** The cases of the switch that take one character. */
  method MatchOne(pat: string, p0: nat, x: char) returns (r: int, p: nat)
    requires CString(pat) && p0 < |pat| && pat[p0] != '*'
    ensures r == MATCH_VALID || r == MATCH_RANGE || r == MATCH_PATTERN || r == MATCH_LITERAL
    ensures r == MATCH_VALID ==> p0 < p <= |pat|
    ensures var token := ParseToken(pat, p0);
            token.Good? ==> (r == MATCH_VALID <==> token.value.Has(x)) && r != MATCH_PATTERN
                            && (r == MATCH_VALID ==> p == token.next)
  {
    r, p := MATCH_VALID, p0;
    if pat[p] == '[' {
      r, p := MatchSet(pat, p + 1, x);
      if r != MATCH_VALID {
        return;
      }
    } else if pat[p] != '?' {
      if pat[p] == '\\' {
        p := p + 1;
        if At(pat, p) == NUL {
          return MATCH_PATTERN, p;
        }
      }
      if pat[p] != x {
        return MATCH_LITERAL, p;
      }
    }
    p := p + 1;
  }

  /** `matche`.  `calls` counts the invocations of `matche` made, this one included. */
  method Matche(pat: string, p0: nat, text: string, t0: nat) returns (r: int, calls: nat)
    requires CString(pat) && CString(text)
    requires p0 <= |pat| && t0 <= |text|
    ensures ParseFrom(pat, p0).Good? ==> Decides(r, ParseFrom(pat, p0).value, text, t0)
    ensures calls <= |text| - t0 + 2
    ensures r != MATCH_VALID && r != MATCH_ABORT && r != MATCH_PATTERN ==> calls == 1
    ensures t0 == |text| ==> calls == 1
    ensures t0 == |text| && p0 < |pat| && pat[p0] != '*' ==> r == MATCH_ABORT
    ensures p0 < |pat| && pat[p0] != '*' ==> calls <= |text| - t0 + 1
    decreases |pat| - p0, 1
  {
    var p, t := p0, t0;
    ghost var good := ParseFrom(pat, p0).Good?;
    ghost var ts := ParseFrom(pat, p0);
    calls := 1;
    while At(pat, p) != NUL
      invariant p0 <= p <= |pat| && t0 <= t <= |text|
      invariant p == p0 <==> t == t0
      invariant good ==> ParseFrom(pat, p).Good? && Ahead(ts.value, ParseFrom(pat, p).value, text, t0, t)
      decreases |pat| - p
    {
      ghost var here := ParseFrom(pat, p);
      if good && t == |text| {
        LastStar(pat, p);
        TextExhausted(ts.value, here.value, text, t0);
      }
      if At(text, t) == NUL {
        return if At(pat, p) == '*' && At(pat, p + 1) == NUL then MATCH_VALID else MATCH_ABORT, calls;
      }
      if pat[p] == '*' {
        var more;
        r, more := MatcheAfterStar(pat, p, text, t);
        calls := calls + more;
        if good {
          StarFromHere(ts.value, here.value, text, t0, t);
        }
        return;
      }
      r, p := MatchOne(pat, p, text[t]);
      if r != MATCH_VALID {
        return;
      }
      t := t + 1;
      if good {
        AheadStep(ts.value, here.value, text, t0, t - 1);
        assert here.value[1..] == ParseFrom(pat, p).value;
      }
    }
    if At(text, t) != NUL {
      r := MATCH_END;
    } else {
      r := MATCH_VALID;
    }
  }

  /** `matche_after_star`, entered at a star.  `calls` counts the invocations of `matche`. */
  method MatcheAfterStar(pat: string, p0: nat, text: string, t0: nat) returns (r: int, calls: nat)
    requires CString(pat) && CString(text)
    requires p0 < |pat| && t0 <= |text| && pat[p0] == '*'
    ensures r == MATCH_VALID || r == MATCH_ABORT || r == MATCH_PATTERN
    ensures var ts := ParseFrom(pat, p0);
            ts.Good? ==> r == if CodeStar(ts.value[1..], text, t0) then MATCH_VALID else MATCH_ABORT
    ensures calls <= |text| - t0 + 1
    decreases |pat| - p0, 0
  {
    var p, t := p0, t0;
    ghost var good := ParseFrom(pat, p0).Good?;
    ghost var all := ParseFrom(pat, p0);
    calls := 0;
    while At(pat, p) == '?' || At(pat, p) == '*'
      invariant p0 <= p <= |pat| && t0 <= t <= |text|
      invariant p == p0 ==> t == t0
      invariant good ==> ParseFrom(pat, p).Good?
      invariant good && p != p0 ==>
                  CodeStar(all.value[1..], text, t0) == CodeStar(ParseFrom(pat, p).value, text, t)
      decreases |pat| - p
    {
      if At(pat, p) == '?' {
        if At(text, t) == NUL {
          return MATCH_ABORT, calls;
        }
        t := t + 1;
      }
      p := p + 1;
    }
    if At(pat, p) == NUL {
      return MATCH_VALID, calls;
    }
    var nextp := At(pat, p);
    if nextp == '\\' {
      nextp := At(pat, p + 1);
      if nextp == NUL {
        return MATCH_PATTERN, calls;
      }
    }
    ghost var first := t;
    ghost var ts := ParseFrom(pat, p);
    r := 0;
    while true
      invariant first <= t <= |text|
      invariant calls <= t - first
      invariant r != MATCH_VALID && r != MATCH_ABORT && r != MATCH_PATTERN
      invariant good ==> forall k | first <= k < t :: !CodeGlob(ts.value, text, k)
      decreases |text| - t
    {
      if nextp == At(text, t) || nextp == '[' {
        var more;
        r, more := Matche(pat, p, text, t);
        calls := calls + more;
      }
      if At(text, t) == NUL {
        r := MATCH_ABORT;
        break;
      }
      t := t + 1;
      if r == MATCH_VALID || r == MATCH_ABORT || r == MATCH_PATTERN {
        break;
      }
    }
  }

  // ------------------------------------------------------------ exactness

  predicate AllStars(ts: seq<Token>) {
    forall i | 0 <= i < |ts| :: ts[i].Star?
  }

  predicate AllWild(ts: seq<Token>) {
    forall i | 0 <= i < |ts| :: ts[i].Star? || ts[i].Any?
  }

  /** The pattern the matcher really answers for: a tail of two or more stars, unless a
      star comes before it with only question marks between, means `?*`. */
  function Effective(ts: seq<Token>): seq<Token> {
    if ts == [] then []
    else if ts[0].Star? && AllWild(ts[1..]) then
      if ts[1..] != [] && AllStars(ts[1..]) then [Any, Star] else ts
    else [ts[0]] + Effective(ts[1..])
  }

  /** `ts` matches some suffix of `text[i..]`. */
  ghost predicate Somewhere(ts: seq<Token>, text: string, i: nat)
    requires i <= |text|
  {
    exists k | i <= k <= |text| :: GlobAt(ts, text, k)
  }

  lemma GlobStar(ts: seq<Token>, text: string, i: nat)
    requires i <= |text| && ts != [] && ts[0].Star?
    ensures GlobAt(ts, text, i) == Somewhere(ts[1..], text, i)
  {
  }

  lemma {:induction false} EndOfText(ts: seq<Token>, text: string)
    ensures GlobAt(ts, text, |text|) == AllStars(ts)
  {
    if ts != [] {
      EndOfText(ts[1..], text);
      if ts[0].Star? {
        assert AllStars(ts) == AllStars(ts[1..]);
        assert GlobAt(ts, text, |text|) == GlobAt(ts[1..], text, |text|);
      }
    }
  }

  lemma {:induction false} EffectiveIsNotStars(ts: seq<Token>)
    requires !AllWild(ts)
    ensures !AllStars(Effective(ts))
  {
    if ts[0].Star? {
      var i :| 0 <= i < |ts| && !(ts[i].Star? || ts[i].Any?);
      assert ts[1..][i - 1] == ts[i];
      EffectiveIsNotStars(ts[1..]);
      var e := Effective(ts[1..]);
      var j :| 0 <= j < |e| && !e[j].Star?;
      assert Effective(ts)[j + 1] == e[j];
    } else {
      assert !Effective(ts)[0].Star?;
    }
  }

  function AfterStarForm(ts: seq<Token>): seq<Token> {
    if AllWild(ts) then ts else Effective(ts)
  }

  lemma AfterStarFormUnfold(ts: seq<Token>)
    requires ts != []
    ensures AfterStarForm(ts) ==
            [ts[0]] + (if ts[0].Star? || ts[0].Any? then AfterStarForm(ts[1..]) else Effective(ts[1..]))
  {
    if ts[0].Star? || ts[0].Any? {
      assert AllWild(ts) == AllWild(ts[1..]) by {
        assert forall i | 0 <= i < |ts[1..]| :: ts[1..][i] == ts[i + 1];
        assert forall i | 1 <= i < |ts| :: ts[i] == ts[1..][i - 1];
      }
      assert ts == [ts[0]] + ts[1..];
    }
  }

  lemma {:induction false} StarsMatch(ts: seq<Token>, text: string, i: nat)
    requires i <= |text| && ts != [] && AllStars(ts)
    ensures GlobAt(ts, text, i)
  {
    EndOfText(ts[1..], text);
  }

  lemma {:induction false} CodeStarIsSomewhere(ts: seq<Token>, text: string, i: nat)
    requires i <= |text|
    ensures CodeStar(ts, text, i) == Somewhere(AfterStarForm(ts), text, i)
    decreases |ts|, 1
  {
    if ts == [] {
      assert GlobAt([], text, |text|);
    } else {
      AfterStarFormUnfold(ts);
      var rest := AfterStarForm(ts[1..]);
      var form := AfterStarForm(ts);
      assert ts[0].Star? || ts[0].Any? ==> form[1..] == rest;
      if ts[0].Star? {
        CodeStarIsSomewhere(ts[1..], text, i);
        if Somewhere(rest, text, i) {
          assert GlobAt(form, text, i);
        }
        if Somewhere(form, text, i) {
          var k :| i <= k <= |text| && GlobAt(form, text, k);
          GlobStar(form, text, k);
        }
      } else if ts[0].Any? {
        if i < |text| {
          CodeStarIsSomewhere(ts[1..], text, i + 1);
          if Somewhere(rest, text, i + 1) {
            var k :| i + 1 <= k <= |text| && GlobAt(rest, text, k);
            assert GlobAt(form, text, k - 1);
          }
          if Somewhere(form, text, i) {
            var k :| i <= k <= |text| && GlobAt(form, text, k);
            assert GlobAt(form[1..], text, k + 1);
          }
        }
      } else {
        forall k | i <= k <= |text| ensures CodeGlob(ts, text, k) == GlobAt(form, text, k) {
          CodeGlobIsGlob(ts, text, k);
        }
      }
    }
  }

  /** The matcher decides exactly the documented relation of the effective pattern. */
  lemma {:induction false} CodeGlobIsGlob(ts: seq<Token>, text: string, i: nat)
    requires i <= |text|
    ensures CodeGlob(ts, text, i) == GlobAt(Effective(ts), text, i)
    decreases |ts|, 0
  {
    if ts != [] {
      if i == |text| {
        EndOfText(Effective(ts), text);
        if ts[0].Star? && !AllWild(ts[1..]) {
          EffectiveIsNotStars(ts);
        } else if ts[0].Star? && AllStars(Effective(ts)) {
          assert Effective(ts) == ts ==> AllStars(ts[1..]);
        }
      } else if ts[0].Star? {
        CodeStarIsSomewhere(ts[1..], text, i);
        if AllWild(ts[1..]) && AllStars(ts[1..]) {
          EndOfText(ts[1..], text);
          StarsMatch([Star], text, i + 1);
        } else {
          assert Effective(ts)[1..] == AfterStarForm(ts[1..]);
        }
      } else {
        assert Effective(ts) == [ts[0]] + Effective(ts[1..]);
        CodeGlobIsGlob(ts[1..], text, i + 1);
      }
    }
  }

  /** `match`: for a well-formed pattern it answers the effective pattern's relation. */
  method Match(pat: string, text: string) returns (found: bool, calls: nat)
    requires CString(pat) && CString(text)
    ensures WellFormed(pat) ==> found == Glob(Effective(Tokens(pat)), text)
    ensures calls <= |text| + 2
  {
    var errorType;
    errorType, calls := Matche(pat, 0, text, 0);
    found := errorType == MATCH_VALID;
    if WellFormed(pat) {
      CodeGlobIsGlob(Tokens(pat), text, 0);
    }
  }

  // ------------------------------------------------------------ where the answers differ

  predicate EndsInTwoStars(ts: seq<Token>) {
    |ts| >= 2 && ts[|ts| - 1].Star? && ts[|ts| - 2].Star?
  }

  /** A pattern not ending in two stars means what the documentation says. */
  lemma {:induction false} EffectiveUnchanged(ts: seq<Token>)
    requires !EndsInTwoStars(ts)
    ensures Effective(ts) == ts
  {
    if ts != [] && !(ts[0].Star? && AllWild(ts[1..])) {
      EffectiveUnchanged(ts[1..]);
    }
  }

  /** What the result of `matche` on a pattern suffix means when the suffix does not end in two
      stars: TRUE for a match here, ABORT only when there is no match anywhere further on. */
  lemma AbortMeansNowhere(r: int, ts: seq<Token>, text: string, t: nat)
    requires t <= |text| && Decides(r, ts, text, t) && !EndsInTwoStars(ts)
    ensures r == MATCH_VALID <==> GlobAt(ts, text, t)
    ensures r == MATCH_ABORT ==> forall k | t <= k <= |text| :: !GlobAt(ts, text, k)
  {
    EffectiveUnchanged(ts);
    forall k | t <= k <= |text| ensures CodeGlob(ts, text, k) == GlobAt(ts, text, k) {
      CodeGlobIsGlob(ts, text, k);
    }
  }

  /** The pattern without its trailing stars. */
  function Core(ts: seq<Token>): seq<Token> {
    if AllStars(ts) then [] else [ts[0]] + Core(ts[1..])
  }

  /** `q` ends in a star, or in question marks that a star precedes. */
  predicate EndsAfterStar(q: seq<Token>) {
    q != [] && ((q[0].Star? && AllWild(q[1..])) || EndsAfterStar(q[1..]))
  }

  /** The patterns the early end-of-text test treats differently from the documentation. */
  predicate Fragile(ts: seq<Token>) {
    EndsInTwoStars(ts) && !EndsAfterStar(Core(ts))
  }

  lemma {:induction false} EffectiveOfFragile(ts: seq<Token>)
    ensures Effective(ts) == if Fragile(ts) then Core(ts) + [Any, Star] else ts
  {
    if AllStars(ts) {
      StarsOnly(ts);
    } else if ts[0].Star? && AllWild(ts[1..]) {
      WildAfterStar(ts);
    } else {
      EffectiveOfFragile(ts[1..]);
      FragileOfRest(ts);
    }
  }

  lemma StarsOnly(ts: seq<Token>)
    requires AllStars(ts)
    ensures Effective(ts) == if Fragile(ts) then Core(ts) + [Any, Star] else ts
  {
    if |ts| >= 2 {
      assert ts[1..][0].Star?;
      assert Core(ts) == [];
    }
  }

  lemma WildAfterStar(ts: seq<Token>)
    requires !AllStars(ts) && ts[0].Star? && AllWild(ts[1..])
    ensures !Fragile(ts) && Effective(ts) == ts
  {
    CoreIsPrefix(ts[1..]);
    assert AllWild(Core(ts[1..]));
    assert Core(ts) == [ts[0]] + Core(ts[1..]) && Core(ts)[1..] == Core(ts[1..]);
    assert !AllStars(ts[1..]);
  }

  lemma FragileOfRest(ts: seq<Token>)
    requires !AllStars(ts) && !(ts[0].Star? && AllWild(ts[1..]))
    ensures Fragile(ts) <==> Fragile(ts[1..])
  {
    var rest := ts[1..];
    assert Core(ts) == [ts[0]] + Core(rest) && Core(ts)[1..] == Core(rest);
    assert |ts| >= 3 ==> (EndsInTwoStars(rest) <==> EndsInTwoStars(ts));
    if ts[0].Star? && AllWild(Core(rest)) {
      StarsAfterCore(rest);
    }
    if |ts| <= 2 {
      assert !EndsInTwoStars(ts) && !EndsInTwoStars(rest);
    }
  }

  lemma {:induction false} CoreIsPrefix(ts: seq<Token>)
    ensures |Core(ts)| <= |ts| && Core(ts) == ts[..|Core(ts)|]
    ensures AllStars(ts[|Core(ts)|..])
  {
    if !AllStars(ts) {
      CoreIsPrefix(ts[1..]);
      assert ts == [ts[0]] + ts[1..];
      assert ts[|Core(ts)|..] == ts[1..][|Core(ts[1..])|..];
    }
  }

  lemma StarsAfterCore(ts: seq<Token>)
    requires AllWild(Core(ts))
    ensures AllWild(ts)
  {
    CoreIsPrefix(ts);
    var n := |Core(ts)|;
    forall i | 0 <= i < |ts| ensures ts[i].Star? || ts[i].Any? {
      if i < n {
        assert Core(ts)[i] == ts[i];
      } else {
        assert ts[n..][i - n] == ts[i];
      }
    }
  }

  lemma {:induction false} GlobAppend(q: seq<Token>, r: seq<Token>, text: string, i: nat)
    requires i <= |text|
    ensures GlobAt(q + r, text, i) <==>
            exists j | i <= j <= |text| :: GlobAt(q, text[..j], i) && GlobAt(r, text, j)
  {
    if q == [] {
      assert q + r == r;
      if GlobAt(r, text, i) {
        assert GlobAt(q, text[..i], i) && GlobAt(r, text, i);
      }
    } else {
      var tail := q[1..];
      assert (q + r)[1..] == tail + r;
      if q[0].Star? {
        forall k | i <= k <= |text|
          ensures GlobAt(tail + r, text, k) <==>
                  exists j | k <= j <= |text| :: GlobAt(tail, text[..j], k) && GlobAt(r, text, j)
        {
          GlobAppend(tail, r, text, k);
        }
        if j :| i <= j <= |text| && GlobAt(q, text[..j], i) && GlobAt(r, text, j) {
          GlobStar(q, text[..j], i);
          var k :| i <= k <= |text[..j]| && GlobAt(tail, text[..j], k);
          assert GlobAt(tail + r, text, k);
        }
        if k :| i <= k <= |text| && GlobAt(tail + r, text, k) {
          var j :| k <= j <= |text| && GlobAt(tail, text[..j], k) && GlobAt(r, text, j);
          assert GlobAt(q, text[..j], i);
        }
      } else if i < |text| {
        GlobAppend(tail, r, text, i + 1);
        if j :| i <= j <= |text| && GlobAt(q, text[..j], i) && GlobAt(r, text, j) {
          assert text[..j][i] == text[i];
          assert GlobAt(tail, text[..j], i + 1);
        }
        if GlobAt(q + r, text, i) {
          var j :| i + 1 <= j <= |text| && GlobAt(tail, text[..j], i + 1) && GlobAt(r, text, j);
          assert text[..j][i] == text[i];
          assert GlobAt(q, text[..j], i);
        }
      }
    }
  }

  /** Some prefix of the text, of length at most `n`, matches `q`. */
  ghost predicate MatchesPrefix(q: seq<Token>, text: string, n: nat)
    requires n <= |text|
  {
    exists j | 0 <= j <= n :: Glob(q, text[..j])
  }

  lemma TailOfStars(q: seq<Token>, stars: seq<Token>, text: string)
    requires stars != [] && AllStars(stars)
    ensures Glob(q + stars, text) <==> MatchesPrefix(q, text, |text|)
  {
    GlobAppend(q, stars, text, 0);
    forall j | 0 <= j <= |text| ensures GlobAt(stars, text, j) {
      StarsMatch(stars, text, j);
    }
  }

  lemma TailOfOneOrMore(q: seq<Token>, text: string)
    ensures Glob(q + [Any, Star], text) <==> text != "" && MatchesPrefix(q, text, |text| - 1)
  {
    GlobAppend(q, [Any, Star], text, 0);
    forall j | 0 <= j <= |text| ensures GlobAt([Any, Star], text, j) == (j < |text|) {
      assert [Any, Star][1..] == [Star];
      if j < |text| {
        StarsMatch([Star], text, j + 1);
      }
    }
  }

  lemma FragileMeaning(ts: seq<Token>, text: string)
    requires Fragile(ts)
    ensures Glob(ts, text) <==> MatchesPrefix(Core(ts), text, |text|)
    ensures Glob(Effective(ts), text) <==> text != "" && MatchesPrefix(Core(ts), text, |text| - 1)
  {
    EffectiveOfFragile(ts);
    CoreIsPrefix(ts);
    var q := Core(ts);
    var stars := ts[|q|..];
    assert ts == q + stars;
    if stars == [] {
      LastIsNotStar(ts);
    }
    TailOfStars(q, stars, text);
    TailOfOneOrMore(q, text);
  }

  lemma {:induction false} LastIsNotStar(ts: seq<Token>)
    requires Core(ts) != []
    ensures !Core(ts)[|Core(ts)| - 1].Star?
  {
    if !AllStars(ts[1..]) {
      LastIsNotStar(ts[1..]);
    } else {
      assert ts == [ts[0]] + ts[1..];
    }
  }

  /** TRUE is never wrong. */
  lemma MatchIsSound(ts: seq<Token>, text: string)
    ensures Glob(Effective(ts), text) ==> Glob(ts, text)
  {
    EffectiveOfFragile(ts);
    if Fragile(ts) {
      FragileMeaning(ts, text);
    }
  }

  /** FALSE is wrong exactly for a fragile pattern whose core matches the whole text and
      no shorter prefix of it. */
  lemma MatchDiffers(ts: seq<Token>, text: string)
    ensures Glob(Effective(ts), text) != Glob(ts, text) <==>
            && Fragile(ts)
            && Glob(Core(ts), text)
            && forall j | 0 <= j < |text| :: !Glob(Core(ts), text[..j])
  {
    EffectiveOfFragile(ts);
    if Fragile(ts) {
      FragileMeaning(ts, text);
      assert text[..|text|] == text;
    }
  }

  /** The smallest such case: two stars and the empty text. */
  lemma TwoStarsMissEmptyText()
    ensures WellFormed("**") && Glob(Tokens("**"), "")
    ensures !CodeGlob(Tokens("**"), "", 0)
  {
    var pat := "**";
    assert ParseFrom(pat, 2) == Good([], 2);
    assert [Star] + [] == [Star];
    assert ParseFrom(pat, 1) == Good([Star], 2);
    assert Tokens("**") == [Star, Star];
    EndOfText([Star, Star], "");
  }
}
