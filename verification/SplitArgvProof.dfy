/** What the tokenizer promises: any quoting of an argument list splits back into the list. */
module SplitArgvProof {
  import opened Bytes
  import opened SplitArgv

  /** One byte as it is typed, with or without a backslash. */
  datatype Mark = Mark(c: byte, escaped: bool)

  /** One argument as it is typed: spaces before it, in quotes or not, and its bytes. */
  datatype Piece = Piece(gap: nat, quoted: bool, marks: seq<Mark>)

  /** Inside quotes the quote, outside the space, and everywhere the backslash needs a backslash; any may have one. */
  predicate MarkOk(m: Mark, quoted: bool) {
    m.escaped || (m.c != ESCAPE && m.c != (if quoted then QUOTE else SPACE))
  }

  /** What it stands for: a backslash before any other byte than quote, backslash and space takes that byte away. */
  function MeantOne(m: Mark): seq<byte> {
    if m.escaped && m.c != 34 && m.c != 92 && m.c != 32 then [] else [m.c]
  }

  predicate MarksOk(marks: seq<Mark>, quoted: bool) {
    forall i :: 0 <= i < |marks| ==> MarkOk(marks[i], quoted)
  }

  /** A bare argument is not empty and does not begin with a quote. */
  predicate PieceOk(p: Piece) {
    MarksOk(p.marks, p.quoted) && (!p.quoted ==> p.marks != [] && (p.marks[0].escaped || p.marks[0].c != QUOTE))
  }

  /** After a bare argument there is a space; after a quoted one it may be missing. */
  predicate PiecesOk(ps: seq<Piece>) {
    && (forall i :: 0 <= i < |ps| ==> PieceOk(ps[i]))
    && (forall i :: 0 < i < |ps| ==> ps[i].gap > 0 || ps[i - 1].quoted)
  }

  function TypedOne(m: Mark): seq<byte> {
    if m.escaped then [ESCAPE, m.c] else [m.c]
  }

  function Typed(marks: seq<Mark>): seq<byte> {
    if marks == [] then [] else TypedOne(marks[0]) + Typed(marks[1..])
  }

  function Meant(marks: seq<Mark>): seq<byte> {
    if marks == [] then [] else MeantOne(marks[0]) + Meant(marks[1..])
  }

  function Spaces(n: nat): seq<byte> {
    if n == 0 then [] else [SPACE] + Spaces(n - 1)
  }

  function PieceText(p: Piece): seq<byte> {
    Spaces(p.gap) + (if p.quoted then [QUOTE] + Typed(p.marks) + [QUOTE] else Typed(p.marks))
  }

  function LineText(ps: seq<Piece>, trailing: nat): seq<byte> {
    if ps == [] then Spaces(trailing) else PieceText(ps[0]) + LineText(ps[1..], trailing)
  }

  function Args(ps: seq<Piece>): seq<seq<byte>> {
    if ps == [] then [] else [Meant(ps[0].marks)] + Args(ps[1..])
  }

  // ---------------------------------------------------------------- one argument

  lemma RunCons(c: byte, rest: seq<byte>, s: Scan, limit: nat)
    requires |s.done| < limit
    ensures Run([c] + rest, s, limit) == Run(rest, Step(s, c), limit)
  {
    assert ([c] + rest)[1..] == rest;
  }

  lemma MarkRuns(m: Mark, rest: seq<byte>, done: seq<seq<byte>>, cur: seq<byte>, quoted: bool, limit: nat)
    requires MarkOk(m, quoted) && |done| < limit
    ensures var st := if quoted then QuotedArg else Arg;
      Run(TypedOne(m) + rest, Scan(done, cur, st), limit) == Run(rest, Scan(done, cur + MeantOne(m), st), limit)
  {
    var s := Scan(done, cur, if quoted then QuotedArg else Arg);
    if m.escaped {
      assert TypedOne(m) + rest == [ESCAPE] + ([m.c] + rest);
      RunCons(ESCAPE, [m.c] + rest, s, limit);
      RunCons(m.c, rest, Step(s, ESCAPE), limit);
      assert cur + [] == cur;
    } else {
      RunCons(m.c, rest, s, limit);
    }
  }

  lemma MarksCons(marks: seq<Mark>, rest: seq<byte>, cur: seq<byte>)
    requires marks != []
    ensures Typed(marks) + rest == TypedOne(marks[0]) + (Typed(marks[1..]) + rest)
    ensures cur + Meant(marks) == cur + MeantOne(marks[0]) + Meant(marks[1..])
  {
    Associative(TypedOne(marks[0]), Typed(marks[1..]), rest);
    Associative(cur, MeantOne(marks[0]), Meant(marks[1..]));
  }

  lemma MarksNone(rest: seq<byte>, cur: seq<byte>)
    ensures Typed([]) + rest == rest && cur + Meant([]) == cur
  {
  }

  lemma {:induction false} MarksRun(marks: seq<Mark>, rest: seq<byte>, done: seq<seq<byte>>, cur: seq<byte>,
      quoted: bool, limit: nat)
    requires MarksOk(marks, quoted) && |done| < limit
    ensures var st := if quoted then QuotedArg else Arg;
      Run(Typed(marks) + rest, Scan(done, cur, st), limit) == Run(rest, Scan(done, cur + Meant(marks), st), limit)
    decreases |marks|
  {
    hide Run, Typed, Meant;
    if marks == [] {
      MarksNone(rest, cur);
    } else {
      MarksCons(marks, rest, cur);
      MarkRuns(marks[0], Typed(marks[1..]) + rest, done, cur, quoted, limit);
      MarksRun(marks[1..], rest, done, cur + MeantOne(marks[0]), quoted, limit);
    }
  }

  /** A quoted argument ends at its closing quote. */
  lemma QuotedRuns(marks: seq<Mark>, rest: seq<byte>, done: seq<seq<byte>>, limit: nat)
    requires MarksOk(marks, true) && |done| < limit
    ensures Run([QUOTE] + Typed(marks) + [QUOTE] + rest, Scan(done, [], Space), limit) ==
      Run(rest, Scan(done + [Meant(marks)], [], Space), limit)
  {
    hide Run;
    var tail := [QUOTE] + rest;
    assert [QUOTE] + Typed(marks) + [QUOTE] + rest == [QUOTE] + (Typed(marks) + tail);
    RunCons(QUOTE, Typed(marks) + tail, Scan(done, [], Space), limit);
    MarksRun(marks, tail, done, [], true, limit);
    assert [] + Meant(marks) == Meant(marks);
    RunCons(QUOTE, rest, Scan(done, Meant(marks), QuotedArg), limit);
  }

  /** A bare argument is still open when its bytes are over. */
  lemma BareRuns(marks: seq<Mark>, rest: seq<byte>, done: seq<seq<byte>>, limit: nat)
    requires MarksOk(marks, false) && marks != [] && (marks[0].escaped || marks[0].c != QUOTE) && |done| < limit
    ensures Run(Typed(marks) + rest, Scan(done, [], Space), limit) == Run(rest, Scan(done, Meant(marks), Arg), limit)
  {
    hide Run, Typed, Meant;
    var m, ms := marks[0], marks[1..];
    var tail := Typed(ms) + rest;
    var s := Scan(done, [], Space);
    assert MarkOk(m, false);
    MarksCons(marks, rest, []);
    if m.escaped {
      assert TypedOne(m) + tail == [ESCAPE] + ([m.c] + tail);
      RunCons(ESCAPE, [m.c] + tail, s, limit);
      RunCons(m.c, tail, Scan(done, [], ArgEscaped), limit);
    } else {
      RunCons(m.c, tail, s, limit);
    }
    assert [] + MeantOne(m) == MeantOne(m) && [] + Meant(marks) == Meant(marks);
    MarksRun(ms, rest, done, MeantOne(m), false, limit);
  }

  /** Spaces between arguments change nothing. */
  lemma {:induction false} SpacesRun(n: nat, rest: seq<byte>, done: seq<seq<byte>>, limit: nat)
    ensures Run(Spaces(n) + rest, Scan(done, [], Space), limit) == Run(rest, Scan(done, [], Space), limit)
  {
    if n == 0 {
      assert Spaces(n) + rest == rest;
    } else if |done| < limit {
      assert Spaces(n) + rest == [SPACE] + (Spaces(n - 1) + rest);
      RunCons(SPACE, Spaces(n - 1) + rest, Scan(done, [], Space), limit);
      SpacesRun(n - 1, rest, done, limit);
    }
  }

  /** The first space after an open argument closes it. */
  lemma GapRuns(n: nat, rest: seq<byte>, done: seq<seq<byte>>, cur: seq<byte>, limit: nat)
    requires n > 0 && |done| < limit
    ensures Run(Spaces(n) + rest, Scan(done, cur, Arg), limit) == Run(rest, Scan(done + [cur], [], Space), limit)
  {
    assert Spaces(n) + rest == [SPACE] + (Spaces(n - 1) + rest);
    RunCons(SPACE, Spaces(n - 1) + rest, Scan(done, cur, Arg), limit);
    SpacesRun(n - 1, rest, done + [cur], limit);
  }

  // ---------------------------------------------------------------- a whole line

  /** Between two arguments: `done` is what is known so far, whether or not the last one is still open. */
  ghost predicate Between(s: Scan, done: seq<seq<byte>>) {
    if s.state == Space then s == Scan(done, [], Space) else s.state == Arg && s.done + [s.cur] == done
  }

  lemma PieceRuns(p: Piece, rest: seq<byte>, s: Scan, done: seq<seq<byte>>, limit: nat) returns (after: Scan)
    requires PieceOk(p) && Between(s, done) && |done| < limit && (s.state == Space || p.gap > 0)
    ensures Between(after, done + [Meant(p.marks)]) && (p.quoted ==> after.state == Space)
    ensures Run(PieceText(p) + rest, s, limit) == Run(rest, after, limit)
  {
    hide Run, Step, Typed, Meant, Spaces, MarksOk;
    var typed := if p.quoted then [QUOTE] + Typed(p.marks) + [QUOTE] else Typed(p.marks);
    assert PieceText(p) + rest == Spaces(p.gap) + (typed + rest);
    if s.state == Space {
      SpacesRun(p.gap, typed + rest, done, limit);
    } else {
      GapRuns(p.gap, typed + rest, s.done, s.cur, limit);
    }
    if p.quoted {
      QuotedRuns(p.marks, rest, done, limit);
      after := Scan(done + [Meant(p.marks)], [], Space);
    } else {
      BareRuns(p.marks, rest, done, limit);
      after := Scan(done, Meant(p.marks), Arg);
    }
  }

  lemma TrailingRuns(trailing: nat, s: Scan, done: seq<seq<byte>>, limit: nat)
    requires Between(s, done) && |done| <= limit
    ensures Finish(Run(Spaces(trailing), s, limit), limit) == done
  {
    assert Spaces(trailing) + [] == Spaces(trailing);
    if s.state == Space {
      SpacesRun(trailing, [], done, limit);
    } else if trailing > 0 {
      GapRuns(trailing, [], s.done, s.cur, limit);
    }
  }

  lemma LineCons(ps: seq<Piece>, trailing: nat)
    requires PiecesOk(ps) && ps != []
    ensures PieceOk(ps[0]) && PiecesOk(ps[1..]) && (|ps| > 1 ==> ps[1].gap > 0 || ps[0].quoted)
    ensures LineText(ps, trailing) == PieceText(ps[0]) + LineText(ps[1..], trailing)
    ensures forall done: seq<seq<byte>> :: done + Args(ps) == done + [Meant(ps[0].marks)] + Args(ps[1..])
  {
    var rest := ps[1..];
    forall i | 0 <= i < |rest|
      ensures PieceOk(rest[i]) && (i > 0 ==> rest[i].gap > 0 || rest[i - 1].quoted)
    {
      assert rest[i] == ps[i + 1];
    }
  }

  lemma {:induction false} LineRuns(ps: seq<Piece>, trailing: nat, s: Scan, done: seq<seq<byte>>, limit: nat)
    requires PiecesOk(ps) && Between(s, done) && |done| + |ps| <= limit
    requires ps != [] ==> s.state == Space || ps[0].gap > 0
    ensures Finish(Run(LineText(ps, trailing), s, limit), limit) == done + Args(ps)
    decreases |ps|
  {
    hide Run, PieceText, PiecesOk, PieceOk, Meant, Finish;
    if ps == [] {
      TrailingRuns(trailing, s, done, limit);
      assert done + Args(ps) == done;
    } else {
      LineCons(ps, trailing);
      hide LineText, Args;
      var after := PieceRuns(ps[0], LineText(ps[1..], trailing), s, done, limit);
      LineRuns(ps[1..], trailing, after, done + [Meant(ps[0].marks)], limit);
    }
  }

  /**
   * Any quoting of at most `limit` arguments, with any spacing, splits back into the arguments; a backslash before
   * any other byte than quote, backslash and space is dropped together with that byte.
   */
  lemma TypedLineSplits(ps: seq<Piece>, trailing: nat, limit: nat)
    requires PiecesOk(ps) && |ps| <= limit
    ensures Tokens(LineText(ps, trailing), limit) == Args(ps)
  {
    LineRuns(ps, trailing, START, [], limit);
    assert [] + Args(ps) == Args(ps);
  }

  // ---------------------------------------------------------------- open ends

  /** The last argument of a line that ends inside quotes or behind a backslash. */
  function OpenText(p: Piece, slash: bool): seq<byte> {
    Spaces(p.gap) + ((if p.quoted then [QUOTE] else []) + (Typed(p.marks) + if slash then [ESCAPE] else []))
  }

  predicate OpenOk(ps: seq<Piece>, p: Piece, slash: bool) {
    && MarksOk(p.marks, p.quoted) && (p.quoted || slash)
    && (!p.quoted && p.marks != [] ==> p.marks[0].escaped || p.marks[0].c != QUOTE)
    && (p.gap > 0 || ps == [] || ps[|ps| - 1].quoted)
  }

  /** The pieces of a line, whatever follows them. */
  lemma {:induction false} PiecesRun(ps: seq<Piece>, rest: seq<byte>, s: Scan, done: seq<seq<byte>>, limit: nat)
    returns (after: Scan)
    requires PiecesOk(ps) && Between(s, done) && |done| + |ps| <= limit
    requires ps != [] ==> s.state == Space || ps[0].gap > 0
    ensures Between(after, done + Args(ps)) && Run(LineText(ps, 0) + rest, s, limit) == Run(rest, after, limit)
    ensures after.state == Space || (if ps == [] then after == s else !ps[|ps| - 1].quoted)
    decreases |ps|
  {
    hide Run, PieceText, PiecesOk, PieceOk, Meant, Finish;
    if ps == [] {
      after := s;
      NoPieces(rest, done);
    } else {
      LineCons(ps, 0);
      var tail := LineText(ps[1..], 0) + rest;
      Associative(PieceText(ps[0]), LineText(ps[1..], 0), rest);
      hide LineText, Args;
      var mid := PieceRuns(ps[0], tail, s, done, limit);
      after := PiecesRun(ps[1..], rest, mid, done + [Meant(ps[0].marks)], limit);
    }
  }

  lemma NoPieces(rest: seq<byte>, done: seq<seq<byte>>)
    ensures LineText([], 0) + rest == rest && done + Args([]) == done
  {
  }

  /** A backslash or a quote that is still open at the end of the line is dropped, and the argument ends there. */
  lemma OpenLineSplits(ps: seq<Piece>, p: Piece, slash: bool, limit: nat)
    requires PiecesOk(ps) && OpenOk(ps, p, slash) && |ps| < limit
    ensures Tokens(LineText(ps, 0) + OpenText(p, slash), limit) == Args(ps) + [Meant(p.marks)]
  {
    hide Run, Step, LineText, Args, Typed, Meant, Spaces, MarksOk, PiecesOk;
    var end: seq<byte> := if slash then [ESCAPE] else [];
    var typed := (if p.quoted then [QUOTE] else []) + (Typed(p.marks) + end);
    var done := [] + Args(ps);
    assert done == Args(ps);
    var after := PiecesRun(ps, OpenText(p, slash), START, [], limit);
    ArgsCount(ps);
    if after.state == Space {
      SpacesRun(p.gap, typed, done, limit);
    } else {
      GapRuns(p.gap, typed, after.done, after.cur, limit);
    }
    OpenEnds(p, slash, done, limit);
  }

  lemma {:induction false} ArgsCount(ps: seq<Piece>)
    ensures |Args(ps)| == |ps|
  {
    if ps != [] {
      ArgsCount(ps[1..]);
    }
  }

  lemma OpenEnds(p: Piece, slash: bool, done: seq<seq<byte>>, limit: nat)
    requires MarksOk(p.marks, p.quoted) && (p.quoted || slash) && |done| < limit
    requires !p.quoted && p.marks != [] ==> p.marks[0].escaped || p.marks[0].c != QUOTE
    ensures var text := (if p.quoted then [QUOTE] else []) + (Typed(p.marks) + if slash then [ESCAPE] else []);
      Finish(Run(text, Scan(done, [], Space), limit), limit) == done + [Meant(p.marks)]
  {
    hide Typed, Meant, MarksOk, Run;
    var end: seq<byte> := if slash then [ESCAPE] else [];
    var s := Scan(done, [], Space);
    assert [] + Meant(p.marks) == Meant(p.marks);
    if p.quoted {
      RunCons(QUOTE, Typed(p.marks) + end, s, limit);
      MarksRun(p.marks, end, done, [], true, limit);
      EndRuns(slash, Scan(done, Meant(p.marks), QuotedArg), limit);
    } else {
      assert [] + (Typed(p.marks) + end) == Typed(p.marks) + end;
      if p.marks == [] {
        MarksNone(end, []);
        EndRuns(slash, s, limit);
        assert Meant([]) == [] by {
          MarksNone([], []);
        }
      } else {
        BareRuns(p.marks, end, done, limit);
        EndRuns(slash, Scan(done, Meant(p.marks), Arg), limit);
      }
    }
  }

  lemma EndRuns(slash: bool, s: Scan, limit: nat)
    requires |s.done| < limit
    ensures Run([], s, limit) == s && Run([ESCAPE], s, limit) == Step(s, ESCAPE)
  {
    assert [ESCAPE][1..] == [];
  }

  // ---------------------------------------------------------------- the canonical quoting

  /** Every argument in quotes, one space between. */
  function Quote(args: seq<seq<byte>>): seq<byte> {
    if args == [] then []
    else QuoteOne(args[0]) + (if |args| == 1 then [] else [SPACE] + Quote(args[1..]))
  }

  function QuoteOne(arg: seq<byte>): seq<byte> {
    [QUOTE] + Escaped(arg) + [QUOTE]
  }

  function Escaped(arg: seq<byte>): seq<byte> {
    if arg == [] then []
    else (if arg[0] == QUOTE || arg[0] == ESCAPE then [ESCAPE, arg[0]] else [arg[0]]) + Escaped(arg[1..])
  }

  function MarksOf(arg: seq<byte>): (marks: seq<Mark>)
    ensures MarksOk(marks, true) && Typed(marks) == Escaped(arg) && Meant(marks) == arg
  {
    if arg == [] then [] else [Mark(arg[0], arg[0] == QUOTE || arg[0] == ESCAPE)] + MarksOf(arg[1..])
  }

  /** The canonical quoting as pieces, the first one after `gap` spaces. */
  function QuotedPieces(args: seq<seq<byte>>, gap: nat): (ps: seq<Piece>)
    ensures |ps| == |args|
    ensures forall i :: 0 <= i < |ps| ==> ps[i].quoted && PieceOk(ps[i])
  {
    if args == [] then [] else [Piece(gap, true, MarksOf(args[0]))] + QuotedPieces(args[1..], 1)
  }

  lemma {:induction false} QuoteIsTyped(args: seq<seq<byte>>, gap: nat)
    requires gap <= 1
    ensures Args(QuotedPieces(args, gap)) == args
    ensures LineText(QuotedPieces(args, gap), 0) == (if args == [] then [] else Spaces(gap)) + Quote(args)
  {
    if args != [] {
      QuoteIsTyped(args[1..], 1);
      var p, rest := Piece(gap, true, MarksOf(args[0])), QuotedPieces(args[1..], 1);
      var ps := [p] + rest;
      assert ps[1..] == rest;
      assert PieceText(p) == Spaces(gap) + QuoteOne(args[0]);
      QuoteJoin(Spaces(gap), args);
    }
  }

  lemma QuoteJoin(before: seq<byte>, args: seq<seq<byte>>)
    requires args != []
    ensures before + Quote(args) ==
      before + QuoteOne(args[0]) + ((if args[1..] == [] then [] else Spaces(1)) + Quote(args[1..]))
  {
    hide QuoteOne;
    assert Spaces(1) == [SPACE];
  }

  lemma QuoteNothing()
    ensures Quote([]) == []
  {
  }

  /** Quoting an argument list, empty arguments included, and splitting it gives the list back. */
  lemma QuoteThenSplit(args: seq<seq<byte>>, limit: nat)
    requires |args| <= limit
    ensures Tokens(Quote(args), limit) == args
  {
    hide Tokens, LineText, Args, Quote, PieceOk, QuotedPieces;
    QuoteIsTyped(args, 0);
    assert Spaces(0) + Quote(args) == Quote(args);
    assert args == [] ==> Quote(args) == [] by {
      QuoteNothing();
    }
    TypedLineSplits(QuotedPieces(args, 0), 0, limit);
  }

  // ---------------------------------------------------------------- the limit

  function Take(args: seq<seq<byte>>, n: nat): seq<seq<byte>> {
    if |args| <= n then args else args[..n]
  }

  lemma {:induction false} RunExtends(text: seq<byte>, s: Scan, limit: nat)
    ensures s.done <= Run(text, s, limit).done
    decreases |text|
  {
    if text != [] && |s.done| < limit {
      RunExtends(text[1..], Step(s, text[0]), limit);
    }
  }

  lemma {:induction false} RunUpTo(text: seq<byte>, s: Scan, n: nat, m: nat)
    requires |s.done| <= n <= m
    ensures Finish(Run(text, s, n), n) == Take(Finish(Run(text, s, m), m), n)
    decreases |text|
  {
    if |s.done| == n {
      RunExtends(text, s, m);
    } else if text != [] {
      RunUpTo(text[1..], Step(s, text[0]), n, m);
    }
  }

  /** A smaller `argv` only cuts the list: the arguments that fit are the same. */
  lemma LimitCutsTheList(text: seq<byte>, n: nat, m: nat)
    requires n <= m
    ensures Tokens(text, n) == Take(Tokens(text, m), n)
  {
    RunUpTo(text, START, n, m);
  }
}
