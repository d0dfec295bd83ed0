/** Restoring a configuration file: the action of cli/parser.c that reads the file into a list
    of commands and pushes them onto the scanner's stack of input buffers, and the stack itself,
    from the hand-written end of cli/lexer.c. */
module InputStack {

  /** `struct cmdbuffers`, and `struct input_buffer`: what is left to be read of each buffer. */
  datatype Chain = End | Link(text: string, next: Chain)

  /** Everything that will be read, the top buffer first. */
  function Text(c: Chain): string {
    match c
    case End => ""
    case Link(t, next) => t + Text(next)
  }

  function Length(c: Chain): nat {
    match c
    case End => 0
    case Link(_, next) => 1 + Length(next)
  }

  /** Moving the first chain onto the second, one buffer at a time. */
  function Moved(from: Chain, onto: Chain): Chain {
    match from
    case End => onto
    case Link(t, next) => Moved(next, Link(t, onto))
  }

  /** The text of a chain read from its end to its start. */
  function Backwards(c: Chain): string {
    match c
    case End => ""
    case Link(t, next) => Backwards(next) + t
  }

  /** Pushing a list that was built in reverse puts it the right way round again. */
  lemma {:induction false} MovedReads(from: Chain, onto: Chain)
    ensures Text(Moved(from, onto)) == Backwards(from) + Text(onto)
    ensures Length(Moved(from, onto)) == Length(from) + Length(onto)
  {
    match from
    case End =>
    case Link(t, next) =>
      MovedReads(next, Link(t, onto));
      assert Backwards(next) + (t + Text(onto)) == Backwards(next) + t + Text(onto);
  }

  /** What remains of a chain once only `depth` buffers are left. */
  function Below(c: Chain, depth: nat): Chain
    decreases c
  {
    if Length(c) <= depth then c else Below(c.next, depth)
  }

  lemma {:induction false} BelowMoved(from: Chain, onto: Chain)
    ensures Below(Moved(from, onto), Length(onto)) == onto
  {
    match from
    case End =>
    case Link(t, next) =>
      BelowMoved(next, Link(t, onto));
      MovedReads(next, Link(t, onto));
      OneFurther(Moved(next, Link(t, onto)), onto, t);
  }

  lemma {:induction false} OneFurther(c: Chain, onto: Chain, t: string)
    requires Below(c, Length(Link(t, onto))) == Link(t, onto)
    ensures Below(c, Length(onto)) == onto
  {
    if Length(c) > Length(onto) + 1 {
      OneFurther(c.next, onto, t);
    }
  }

  // ------------------------------------------------------------ reading the file

  const LINE: nat := 511

  /** How many characters one read takes: up to a newline, the end, or the room there is. */
  function Taken(file: string, pos: nat, limit: nat): (n: nat)
    requires pos <= |file| && pos <= limit
    ensures pos + n <= |file| && pos + n <= limit
    decreases limit - pos
  {
    if pos == limit || pos == |file| then 0
    else if file[pos] == '\n' then 1
    else 1 + Taken(file, pos + 1, limit)
  }

  lemma TakenSome(file: string, pos: nat, limit: nat)
    requires pos < |file| && pos < limit
    ensures Taken(file, pos, limit) > 0
  {
  }

  /** The read ran into the end of the file. */
  predicate HitEnd(file: string, pos: nat, n: nat)
    requires pos + n <= |file|
  {
    pos + n == |file| && n < LINE && (n == 0 || file[pos + n - 1] != '\n')
  }

  predicate EndsLine(t: string) {
    t != "" && t[|t| - 1] == '\n'
  }

  /** Every piece of a list built in reverse ends a line or the text, which goes on with `after`. */
  predicate WholeLines(c: Chain, after: string) {
    match c
    case End => true
    case Link(t, next) => (after == "" || t == "" || EndsLine(t)) && WholeLines(next, t + after)
  }

  predicate StartsLine(file: string, a: nat)
    requires a <= |file|
  {
    a == 0 || file[a - 1] == '\n'
  }

  /** One read takes the whole line that starts here. */
  predicate LineFits(file: string, a: nat) {
    a + 511 >= |file| || exists k: nat :: a <= k < a + 511 && file[k] == '\n'
  }

  predicate NoLongLine(file: string) {
    forall a: nat | a < |file| && StartsLine(file, a) :: LineFits(file, a)
  }

  /** What one read takes has a newline at its end at most, and stops short only for one. */
  lemma {:induction false} TakenIsLine(file: string, pos: nat, limit: nat)
    requires pos <= |file| && pos <= limit
    ensures var n := Taken(file, pos, limit);
            && (forall k | pos <= k < pos + n - 1 :: file[k] != '\n')
            && (pos + n == limit || pos + n == |file| || (n > 0 && file[pos + n - 1] == '\n'))
    decreases limit - pos
  {
    if pos < limit && pos < |file| && file[pos] != '\n' {
      TakenIsLine(file, pos + 1, limit);
    }
  }

  /** The lines that start before `pos` fit. */
  predicate FitsBefore(file: string, pos: nat)
    requires pos <= |file|
  {
    forall a: nat | a < pos && StartsLine(file, a) :: LineFits(file, a)
  }

  lemma FirstLineFits(file: string, pos: nat)
    requires pos < |file|
    ensures var n := Taken(file, pos, pos + LINE);
            n > 0 && (LineFits(file, pos) <==> pos + n == |file| || file[pos + n - 1] == '\n')
  {
    var n := Taken(file, pos, pos + LINE);
    TakenIsLine(file, pos, pos + LINE);
    TakenSome(file, pos, pos + LINE);
    if file[pos + n - 1] == '\n' {
      var k := pos + n - 1;
      assert pos <= k < pos + LINE && file[k] == '\n';
    }
  }

  /** Between the start of a piece and its end no line starts. */
  lemma OneLineMore(file: string, pos: nat)
    requires pos < |file| && StartsLine(file, pos)
    ensures var n := Taken(file, pos, pos + LINE);
            FitsBefore(file, pos + n) <==> FitsBefore(file, pos) && LineFits(file, pos)
  {
    var n := Taken(file, pos, pos + LINE);
    TakenIsLine(file, pos, pos + LINE);
    TakenSome(file, pos, pos + LINE);
    assert forall a | pos < a < pos + n :: !StartsLine(file, a);
  }

  lemma OneMorePiece(file: string, pos: nat)
    requires pos <= |file| && FitsBefore(file, pos) && (pos == |file| || StartsLine(file, pos))
    ensures var n := Taken(file, pos, pos + LINE);
            var t := file[pos..pos + n];
            && (pos + n == |file| || t == "" || EndsLine(t) <==> FitsBefore(file, pos + n))
            && (FitsBefore(file, pos + n) ==> pos + n == |file| || StartsLine(file, pos + n))
  {
    if pos < |file| {
      var n := Taken(file, pos, pos + LINE);
      FirstLineFits(file, pos);
      OneLineMore(file, pos);
      assert file[pos..pos + n][n - 1] == file[pos + n - 1];
    }
  }

  /** The pieces read so far end lines exactly when the lines before `pos` fit. */
  predicate PiecesFit(file: string, pos: nat, head: Chain)
    requires pos <= |file|
  {
    && (WholeLines(head, file[pos..]) <==> FitsBefore(file, pos))
    && (FitsBefore(file, pos) ==> pos == |file| || StartsLine(file, pos))
  }

  lemma NextPieceFits(file: string, pos: nat, head: Chain)
    requires pos <= |file| && PiecesFit(file, pos, head)
    ensures var n := Taken(file, pos, pos + LINE); PiecesFit(file, pos + n, Link(file[pos..pos + n], head))
  {
    var n := Taken(file, pos, pos + LINE);
    assert file[pos..] == file[pos..pos + n] + file[pos + n..];
    if FitsBefore(file, pos) {
      OneMorePiece(file, pos);
    } else {
      assert !FitsBefore(file, pos + n);
    }
  }

  lemma AllPiecesFit(file: string, pos: nat, head: Chain)
    requires pos == |file| && PiecesFit(file, pos, head)
    ensures file[..pos] == file && (WholeLines(head, "") <==> NoLongLine(file))
  {
    assert file[pos..] == "";
  }

  /** The reading loop: each new command goes to the front of the list.  Every piece ends a line or
      the file exactly when no line is too long for one read. */
  method ReadCommands(file: string) returns (head: Chain)
    ensures Backwards(head) == file
    ensures WholeLines(head, "") <==> NoLongLine(file)
  {
    head := End;
    var pos, eof := 0, false;
    assert file[0..] == file;
    while !eof
      invariant 0 <= pos <= |file| && Backwards(head) == file[..pos]
      invariant eof ==> pos == |file|
      invariant PiecesFit(file, pos, head)
      decreases !eof, |file| - pos
    {
      var n := Taken(file, pos, pos + LINE);
      if pos < |file| {
        TakenSome(file, pos, pos + LINE);
      }
      NextPieceFits(file, pos, head);
      eof := HitEnd(file, pos, n);
      head := Link(file[pos..pos + n], head);
      assert file[..pos + n] == file[..pos] + file[pos..pos + n];
      pos := pos + n;
    }
    AllPiecesFit(file, pos, head);
  }

  // ------------------------------------------------------------ scanning piece by piece

  /** The tokens of a list built in reverse, each piece scanned on its own. */
  function Scanned<T>(lex: string -> seq<T>, c: Chain): seq<T> {
    match c
    case End => []
    case Link(t, next) => Scanned(lex, next) + lex(t)
  }

  /** No token reaches over the end of a line. */
  ghost predicate LineWise<T(!new)>(lex: string -> seq<T>) {
    lex("") == [] && forall a, b | EndsLine(a) :: lex(a + b) == lex(a) + lex(b)
  }

  lemma {:induction false} WholeBefore(c: Chain, after: string)
    requires WholeLines(c, after) && after != ""
    ensures Backwards(c) == "" || EndsLine(Backwards(c))
  {
    if c.Link? {
      WholeBefore(c.next, c.text + after);
    }
  }

  /** Pieces that end lines are scanned as their whole text is. */
  lemma {:induction false} ScannedWhole<T(!new)>(lex: string -> seq<T>, c: Chain, after: string)
    requires LineWise(lex) && WholeLines(c, after)
    ensures Scanned(lex, c) == lex(Backwards(c))
  {
    if c.Link? {
      ScannedWhole(lex, c.next, c.text + after);
      if c.text == "" {
        assert Backwards(c) == Backwards(c.next);
      } else {
        WholeBefore(c.next, c.text + after);
        assert Backwards(c.next) == "" ==> Backwards(c) == c.text;
      }
    }
  }

  /** A character in front of lines joins the first of them, unless it is a newline. */
  function InFront(c: char, lines: seq<string>): seq<string> {
    if c == '\n' || lines == [] then [[c]] + lines else [[c] + lines[0]] + lines[1..]
  }

  /** The scanner that takes a line for a token. */
  function Lines(s: string): seq<string> {
    if s == "" then [] else InFront(s[0], Lines(s[1..]))
  }

  lemma LinesStep(c: char, s: string)
    ensures Lines([c] + s) == InFront(c, Lines(s))
    ensures Lines(s) == [] <==> s == ""
  {
    assert ([c] + s)[1..] == s;
  }

  lemma InFrontOfMore(c: char, xs: seq<string>, ys: seq<string>)
    requires xs != [] || c == '\n'
    ensures InFront(c, xs + ys) == InFront(c, xs) + ys
  {
  }

  /** How many lines two texts have in common when one follows the other. */
  function Shared(a: string, b: string): nat {
    if a == "" || b == "" || EndsLine(a) then 0 else 1
  }

  lemma {:induction false} LinesCount(a: string, b: string)
    ensures |Lines(a + b)| == |Lines(a)| + |Lines(b)| - Shared(a, b)
  {
    if a == "" {
      assert a + b == b;
    } else {
      var c, rest := a[0], a[1..];
      assert a == [c] + rest && a + b == [c] + (rest + b);
      LinesStep(c, rest);
      LinesStep(c, rest + b);
      LinesStep(c, b);
      LinesCount(rest, b);
    }
  }

  lemma {:induction false} LinesJoin(a: string, b: string)
    requires EndsLine(a)
    ensures Lines(a + b) == Lines(a) + Lines(b)
  {
    var c, rest := a[0], a[1..];
    assert a == [c] + rest && a + b == [c] + (rest + b);
    LinesStep(c, rest);
    LinesStep(c, rest + b);
    if rest == "" {
      assert rest + b == b;
    } else {
      LinesJoin(rest, b);
    }
    InFrontOfMore(c, Lines(rest), Lines(b));
  }

  lemma LinesAreLineWise()
    ensures LineWise(Lines)
  {
    forall a, b | EndsLine(a) ensures Lines(a + b) == Lines(a) + Lines(b) {
      LinesJoin(a, b);
    }
  }

  function LineCount(s: string): nat {
    |Lines(s)|
  }

  function CountBy(count: string -> nat, c: Chain): nat {
    match c
    case End => 0
    case Link(t, next) => CountBy(count, next) + count(t)
  }

  ghost predicate CountsLines(count: string -> nat) {
    forall a, b {:trigger count(a + b)} :: count(a + b) == count(a) + count(b) - Shared(a, b)
  }

  /** Each cut inside a line makes one line more. */
  lemma {:induction false} CutsCount(count: string -> nat, c: Chain, after: string)
    requires CountsLines(count)
    ensures CountBy(count, c) >= count(Backwards(c))
    ensures !WholeLines(c, after) ==> CountBy(count, c) + count(after) > count(Backwards(c) + after)
  {
    match c
    case End =>
      assert "" + "" == "" && count("" + "") == count("") + count("");
    case Link(t, next) =>
      var before := Backwards(next);
      CutsCount(count, next, t + after);
      assert count(before + t) == count(before) + count(t) - Shared(before, t);
      assert count(t + after) == count(t) + count(after) - Shared(t, after);
      assert before + t + after == before + (t + after);
      assert count(before + (t + after)) == count(before) + count(t + after) - Shared(before, t + after);
  }

  lemma {:induction false} ScannedCount(c: Chain)
    ensures |Scanned(Lines, c)| == CountBy(LineCount, c)
  {
    if c.Link? {
      ScannedCount(c.next);
    }
  }

  lemma CutLines(c: Chain)
    requires !WholeLines(c, "")
    ensures |Scanned(Lines, c)| > |Lines(Backwards(c))|
  {
    forall a, b ensures LineCount(a + b) == LineCount(a) + LineCount(b) - Shared(a, b) {
      LinesCount(a, b);
    }
    CutsCount(LineCount, c, "");
    ScannedCount(c);
    assert Backwards(c) + "" == Backwards(c);
  }

  /** The pieces are scanned as the file is, by every scanner whose tokens end with the line, exactly
      when no line is too long. */
  lemma ScannedExactly(c: Chain, file: string)
    requires Backwards(c) == file && (WholeLines(c, "") <==> NoLongLine(file))
    ensures NoLongLine(file) <==>
            forall lex: string -> seq<string> | LineWise(lex) :: Scanned(lex, c) == lex(file)
  {
    if NoLongLine(file) {
      forall lex: string -> seq<string> | LineWise(lex) ensures Scanned(lex, c) == lex(file) {
        ScannedWhole(lex, c, "");
      }
    } else {
      LinesAreLineWise();
      CutLines(c);
    }
  }

  // ------------------------------------------------------------ the stack

  class Scanner {
    var input: Chain
    var loadingFile: int

    constructor ()
      ensures input == End && loadingFile == 0
    {
      input, loadingFile := End, 0;
    }

    /** `set_input_buff`. */
    method SetInputBuff(buff: string)
      modifies this
      ensures input == Link(buff, old(input)) && loadingFile == old(loadingFile) + 1
    {
      input := Link(buff, input);
      loadingFile := loadingFile + 1;
    }

    /** `scwrap`, when the top buffer has been read: scanning stops if there is none. */
    method Wrap() returns (stop: bool)
      modifies this
      ensures stop == old(input).End?
      ensures stop ==> input == old(input) && loadingFile == old(loadingFile)
      ensures !stop ==> input == old(input).next && loadingFile == old(loadingFile) - 1
    {
      if input.End? {
        return true;
      }
      loadingFile := loadingFile - 1;
      input := input.next;
      stop := false;
    }

    /** The restore command: whatever was pending is read after the whole file. */
    method Restore(file: string) returns (ghost pieces: Chain)
      modifies this
      ensures Backwards(pieces) == file && (WholeLines(pieces, "") <==> NoLongLine(file))
      ensures input == Moved(pieces, old(input))
      ensures Text(input) == file + Text(old(input))
      ensures Below(input, Length(old(input))) == old(input)
      ensures loadingFile - old(loadingFile) == Length(input) - Length(old(input))
    {
      var head := ReadCommands(file);
      var pnew := head;
      while pnew.Link?
        invariant Moved(pnew, input) == Moved(head, old(input))
        invariant loadingFile - old(loadingFile) == Length(input) - Length(old(input))
        decreases pnew
      {
        SetInputBuff(pnew.text);
        pnew := pnew.next;
      }
      pieces := head;
      MovedReads(head, old(input));
      BelowMoved(head, old(input));
    }

    /** Scanning buffers, each on its own, until as many are left as there were before. */
    method Drain<T>(depth: nat, lex: string -> seq<T>) returns (read: string, tokens: seq<T>)
      requires depth <= Length(input)
      modifies this
      ensures input == Below(old(input), depth)
      ensures read + Text(input) == Text(old(input)) && tokens == TopScanned(lex, old(input), depth)
      ensures loadingFile - old(loadingFile) == Length(input) - Length(old(input))
    {
      read, tokens := "", [];
      while Length(input) > depth
        invariant depth <= Length(input) && Below(input, depth) == Below(old(input), depth)
        invariant read + Text(input) == Text(old(input))
        invariant tokens + TopScanned(lex, input, depth) == TopScanned(lex, old(input), depth)
        invariant loadingFile - old(loadingFile) == Length(input) - Length(old(input))
        decreases Length(input)
      {
        var top := input.text;
        assert read + (top + Text(input.next)) == (read + top) + Text(input.next);
        assert tokens + (lex(top) + TopScanned(lex, input.next, depth))
            == (tokens + lex(top)) + TopScanned(lex, input.next, depth);
        read, tokens := read + top, tokens + lex(top);
        var stop := Wrap();
      }
    }

    /** Restoring a file and running its commands: the scanner reads exactly the file, piece by
        piece, and then stands where it stood before.  When no line is too long, the pieces are
        scanned as the file would be. */
    method RestoreAndRun<T(!new)>(file: string, lex: string -> seq<T>)
      returns (read: string, tokens: seq<T>, ghost pieces: Chain)
      modifies this
      ensures read == file && input == old(input) && loadingFile == old(loadingFile)
      ensures Backwards(pieces) == file && (WholeLines(pieces, "") <==> NoLongLine(file))
      ensures tokens == Scanned(lex, pieces)
      ensures NoLongLine(file) && LineWise(lex) ==> tokens == lex(file)
    {
      ghost var pending := input;
      var depth := Length(input);
      pieces := Restore(file);
      BelowIsShorter(input, depth);
      ScannedMoved(lex, pieces, pending);
      read, tokens := Drain(depth, lex);
      SameFront(read, file, Text(pending));
      if NoLongLine(file) && LineWise(lex) {
        ScannedWhole(lex, pieces, "");
      }
    }
  }

  /** The tokens of the buffers above a depth. */
  function TopScanned<T>(lex: string -> seq<T>, c: Chain, depth: nat): seq<T>
    decreases c
  {
    if Length(c) <= depth then [] else lex(c.text) + TopScanned(lex, c.next, depth)
  }

  lemma {:induction false} ScannedMoved<T>(lex: string -> seq<T>, from: Chain, onto: Chain)
    ensures TopScanned(lex, Moved(from, onto), Length(onto)) == Scanned(lex, from)
  {
    match from
    case End =>
    case Link(t, next) =>
      ScannedMoved(lex, next, Link(t, onto));
      BelowMoved(next, Link(t, onto));
      ScannedFurther(lex, Moved(next, Link(t, onto)), onto, t);
  }

  lemma {:induction false} ScannedFurther<T>(lex: string -> seq<T>, c: Chain, onto: Chain, t: string)
    requires Below(c, Length(onto) + 1) == Link(t, onto)
    ensures TopScanned(lex, c, Length(onto)) == TopScanned(lex, c, Length(onto) + 1) + lex(t)
  {
    if Length(c) > Length(onto) + 1 {
      ScannedFurther(lex, c.next, onto, t);
      assert lex(c.text) + (TopScanned(lex, c.next, Length(onto) + 1) + lex(t))
          == (lex(c.text) + TopScanned(lex, c.next, Length(onto) + 1)) + lex(t);
    } else {
      assert TopScanned(lex, onto, Length(onto)) == [];
      assert Length(c) == Length(onto) + 1 && c == Link(t, onto);
    }
  }

  lemma {:induction false} BelowIsShorter(c: Chain, depth: nat)
    ensures Length(Below(c, depth)) <= Length(c)
  {
    if Length(c) > depth {
      BelowIsShorter(c.next, depth);
    }
  }

  lemma SameFront(a: string, b: string, rest: string)
    requires a + rest == b + rest
    ensures a == b
  {
    assert |a| == |b|;
    assert a == (a + rest)[..|a|] && b == (b + rest)[..|b|];
  }
}
