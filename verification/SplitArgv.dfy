/**
 * `esp_console_split_argv`: a command line split into zero-terminated arguments inside its own buffer.
 */
module SplitArgv {
  import opened Bytes

  const QUOTE: byte := 34
  const ESCAPE: byte := 92
  const SPACE: byte := 32

  datatype State = Space | Arg | QuotedArg | ArgEscaped | QuotedArgEscaped

  // ---------------------------------------------------------------- the tokenizer, on values

  /** Finished arguments, the argument being read, and how it is read. */
  datatype Scan = Scan(done: seq<seq<byte>>, cur: seq<byte>, state: State)

  const START: Scan := Scan([], [], Space)

  predicate Special(c: byte) {
    c == QUOTE || c == ESCAPE || c == SPACE
  }

  function Close(s: Scan): Scan {
    Scan(s.done + [s.cur], [], Space)
  }

  function Step(s: Scan, c: byte): Scan {
    match s.state
    case Space =>
      if c == SPACE then s
      else if c == QUOTE then Scan(s.done, [], QuotedArg)
      else if c == ESCAPE then Scan(s.done, [], ArgEscaped)
      else Scan(s.done, [c], Arg)
    case QuotedArg =>
      if c == QUOTE then Close(s)
      else if c == ESCAPE then s.(state := QuotedArgEscaped)
      else s.(cur := s.cur + [c])
    case Arg =>
      if c == SPACE then Close(s)
      else if c == ESCAPE then s.(state := ArgEscaped)
      else s.(cur := s.cur + [c])
    case ArgEscaped =>
      Scan(s.done, if Special(c) then s.cur + [c] else s.cur, Arg)
    case QuotedArgEscaped =>
      Scan(s.done, if Special(c) then s.cur + [c] else s.cur, QuotedArg)
  }

  /** Reading stops after `limit` finished arguments. */
  function Run(text: seq<byte>, s: Scan, limit: nat): Scan {
    if text == [] || |s.done| >= limit then s else Run(text[1..], Step(s, text[0]), limit)
  }

  function Finish(s: Scan, limit: nat): seq<seq<byte>> {
    if s.state != Space && |s.done| < limit then s.done + [s.cur] else s.done
  }

  function Tokens(text: seq<byte>, limit: nat): seq<seq<byte>> {
    Finish(Run(text, START, limit), limit)
  }

  lemma {:induction false} CStringIs(s: seq<byte>, t: seq<byte>)
    requires 0 !in t && t + [0] <= s
    ensures CString(s) == t
  {
    if t != [] {
      assert s[0] == (t + [0])[0] == t[0];
      assert t[1..] + [0] == (t + [0])[1..] <= s[1..];
      CStringIs(s[1..], t[1..]);
    }
  }

  lemma {:induction false} CStringEnds(s: seq<byte>)
    requires 0 in s
    ensures 0 !in CString(s) && CString(s) + [0] <= s
  {
    if s[0] != 0 {
      CStringEnds(s[1..]);
      assert s == [s[0]] + s[1..];
    }
  }

  // ---------------------------------------------------------------- the buffer

  /** The arguments one after the other, each with its terminator. */
  function Layout(args: seq<seq<byte>>): seq<byte> {
    if args == [] then [] else Layout(args[..|args| - 1]) + args[|args| - 1] + [0]
  }

  lemma LayoutAppend(args: seq<seq<byte>>, a: seq<byte>)
    ensures Layout(args + [a]) == Layout(args) + a + [0]
  {
    assert (args + [a])[..|args|] == args;
  }

  lemma {:induction false} LayoutAt(args: seq<seq<byte>>, k: nat)
    requires k < |args|
    ensures |Layout(args[..k])| <= |Layout(args)|
    ensures args[k] + [0] <= Layout(args)[|Layout(args[..k])|..]
  {
    var rest, last := args[..|args| - 1], args[|args| - 1];
    var l := Layout(args);
    if k < |rest| {
      LayoutAt(rest, k);
      assert rest[..k] == args[..k];
      var p := |Layout(rest[..k])|;
      assert l[p..] == Layout(rest)[p..] + (last + [0]);
    } else {
      assert l[|Layout(rest)|..] == last + [0];
    }
  }

  ghost predicate ZeroFree(s: Scan) {
    0 !in s.cur && forall k :: 0 <= k < |s.done| ==> 0 !in s.done[k]
  }

  lemma StepZeroFree(s: Scan, c: byte)
    requires ZeroFree(s) && c != 0
    ensures ZeroFree(Step(s, c))
  {
  }

  /** What the first `out` bytes of the buffer hold while the argument that began at `next` is being read. */
  ghost predicate Placed(mem: seq<byte>, out: nat, next: nat, s: Scan) {
    && out <= |mem|
    && mem[..out] == Layout(s.done) + s.cur
    && (if s.state == Space then s.cur == [] else next == |Layout(s.done)|)
  }

  /** The start of every finished argument. */
  ghost predicate Pointed(argv: seq<Option<nat>>, args: seq<seq<byte>>) {
    |args| <= |argv| && forall k :: 0 <= k < |args| ==> argv[k] == Some(|Layout(args[..k])|)
  }

  lemma PointedAppend(argv: seq<Option<nat>>, args: seq<seq<byte>>, a: seq<byte>)
    requires Pointed(argv, args) && |args| < |argv|
    ensures Pointed(argv[|args| := Some(|Layout(args)|)], args + [a])
  {
    var all := args + [a];
    assert all[..|args|] == args;
    forall k | 0 <= k < |args|
      ensures all[..k] == args[..k]
    {
    }
  }

  /** One more byte in place is one more byte of the argument, or its terminator. */
  lemma PlacedWrite(mem: seq<byte>, out: nat, next: nat, s: Scan, c: byte)
    requires Placed(mem, out, next, s) && out < |mem|
    ensures var after := mem[out := c];
      && after[..out + 1] == Layout(s.done) + (s.cur + [c])
      && (c == 0 ==> after[..out + 1] == Layout(s.done + [s.cur]))
      && after[out + 1..] == mem[out + 1..]
  {
    var after := mem[out := c];
    assert after[..out + 1] == mem[..out] + [c];
    LayoutAppend(s.done, s.cur);
    assert Layout(s.done) + s.cur + [c] == Layout(s.done) + (s.cur + [c]);
  }

  /** Each pointer of `argv` is a C string in the buffer: the argument. */
  lemma ArgumentInPlace(mem: seq<byte>, out: nat, args: seq<seq<byte>>, k: nat)
    requires out <= |mem| && mem[..out] == Layout(args)
    requires k < |args| && 0 !in args[k]
    ensures |Layout(args[..k])| < out
    ensures 0 in mem[|Layout(args[..k])|..] && CString(mem[|Layout(args[..k])|..]) == args[k]
  {
    var p := |Layout(args[..k])|;
    var arg := args[k];
    LayoutAt(args, k);
    var tail, all := Layout(args)[p..], mem[p..];
    TailOf(mem, out, p);
    hide Layout;
    assert arg + [0] <= tail <= all;
    assert all[|arg|] == (arg + [0])[|arg|] == 0;
    CStringIs(all, arg);
  }

  lemma TailOf(mem: seq<byte>, out: nat, p: nat)
    requires p <= out <= |mem|
    ensures mem[..out][p..] <= mem[p..] && mem[..out][p..] == mem[p..out]
  {
  }

  /** What the caller gets: the tokens as C strings inside the buffer, and `argv` closed by NULL. */
  ghost predicate SplitInto(mem: seq<byte>, argv: seq<Option<nat>>, argc: nat, args: seq<seq<byte>>) {
    && argc == |args| < |argv|
    && argv[argc] == None
    && forall k :: 0 <= k < argc ==> ArgumentAt(mem, argv[k], args[k])
  }

  ghost predicate ArgumentAt(mem: seq<byte>, at: Option<nat>, arg: seq<byte>) {
    at.Some? && at.value < |mem| && 0 in mem[at.value..] && CString(mem[at.value..]) == arg
  }

  ghost predicate SameAfterText(now: seq<byte>, before: seq<byte>) {
    |now| == |before| && forall i :: |CString(before)| < i < |before| ==> now[i] == before[i]
  }

  lemma SplitIntoFromLayout(mem: seq<byte>, out: nat, argv: seq<Option<nat>>, args: seq<seq<byte>>)
    requires out <= |mem| && mem[..out] == Layout(args) && Pointed(argv, args) && |args| < |argv| &&
      argv[|args|] == None
    requires forall k :: 0 <= k < |args| ==> 0 !in args[k]
    ensures SplitInto(mem, argv, |args|, args)
  {
    hide Layout, CString;
    forall k | 0 <= k < |args|
      ensures ArgumentAt(mem, argv[k], args[k])
    {
      ArgumentInPlace(mem, out, args, k);
    }
  }

  lemma RunStep(text: seq<byte>, i: nat, s: Scan, limit: nat)
    requires i < |text| && |s.done| < limit
    ensures Run(text[i..], s, limit) == Run(text[i + 1..], Step(s, text[i]), limit)
  {
    assert text[i..][1..] == text[i + 1..];
  }

  /** The loop ends at the terminator or at the limit: nothing is left to read. */
  lemma RunOver(text: seq<byte>, i: nat, s: Scan, limit: nat)
    requires i <= |text| && (i == |text| || |s.done| >= limit)
    ensures Run(text[i..], s, limit) == s
  {
  }

  /** What the loop of `SplitArgvInPlace` keeps; the part of the buffer from `inPtr` on is still the text. */
  ghost predicate Reading(mem: seq<byte>, before: seq<byte>, argv: seq<Option<nat>>, s: Scan, outPtr: nat,
      inPtr: nat, next: nat, limit: nat) {
    && |mem| == |before| && 0 in before && outPtr <= inPtr <= |CString(before)|
    && mem[inPtr..] == before[inPtr..]
    && Placed(mem, outPtr, next, s) && ZeroFree(s)
    && Pointed(argv, s.done)
    && Run(CString(before)[inPtr..], s, limit) == Run(CString(before), START, limit)
  }

  /** The terminator is exactly where the reader stops. */
  lemma AtTerminator(mem: seq<byte>, before: seq<byte>, inPtr: nat)
    requires |mem| == |before| && 0 in before && inPtr <= |CString(before)| && mem[inPtr..] == before[inPtr..]
    ensures |CString(before)| < |before| && inPtr < |mem|
    ensures mem[inPtr] == 0 <==> inPtr == |CString(before)|
    ensures mem[inPtr] != 0 ==> CString(before)[inPtr] == mem[inPtr]
  {
    CStringEnds(before);
    var z := |CString(before)|;
    assert mem[inPtr] == mem[inPtr..][0] == before[inPtr];
    if inPtr < z {
      assert before[inPtr] == (CString(before) + [0])[inPtr] == CString(before)[inPtr];
      assert CString(before)[inPtr] in CString(before);
    } else {
      assert before[z] == (CString(before) + [0])[z] == 0;
    }
  }

  /** One turn of the loop that writes nothing. */
  lemma ReadOn(mem: seq<byte>, before: seq<byte>, argv: seq<Option<nat>>, s: Scan, outPtr: nat, inPtr: nat,
      next: nat, limit: nat, after: Scan, nextAfter: nat)
    requires Reading(mem, before, argv, s, outPtr, inPtr, next, limit) && |s.done| < limit
    requires inPtr < |CString(before)| && after == Step(s, CString(before)[inPtr]) && CString(before)[inPtr] != 0
    requires after.state == Space ==> after == s
    requires after.state != Space ==>
      && after.done == s.done && after.cur == (if s.state == Space then [] else s.cur)
      && nextAfter == (if s.state == Space then outPtr else next)
    ensures Reading(mem, before, argv, after, outPtr, inPtr + 1, nextAfter, limit)
  {
    hide CString, Layout, Run;
    RunStep(CString(before), inPtr, s, limit);
    StepZeroFree(s, CString(before)[inPtr]);
    assert mem[inPtr + 1..] == mem[inPtr..][1..];
    assert before[inPtr + 1..] == before[inPtr..][1..];
  }

  /** One turn that writes a byte or, at the end of an argument, its terminator. */
  lemma WriteOn(mem: seq<byte>, before: seq<byte>, argv: seq<Option<nat>>, s: Scan, outPtr: nat, inPtr: nat,
      next: nat, limit: nat, after: Scan, nextAfter: nat, c: byte, argvAfter: seq<Option<nat>>)
    requires Reading(mem, before, argv, s, outPtr, inPtr, next, limit) && |s.done| < limit < |argv| && outPtr < |mem|
    requires inPtr < |CString(before)| && after == Step(s, CString(before)[inPtr]) && CString(before)[inPtr] != 0
    requires c == 0 ==>
      after == Close(s) && s.state != Space && nextAfter == next && argvAfter == argv[|s.done| := Some(next)]
    requires c != 0 ==>
      && after.done == s.done && after.cur == (if s.state == Space then [c] else s.cur + [c])
      && after.state != Space && argvAfter == argv
    requires c != 0 ==> nextAfter == if s.state == Space then outPtr else next
    ensures Reading(mem[outPtr := c], before, argvAfter, after, outPtr + 1, inPtr + 1, nextAfter, limit)
  {
    hide CString, Run;
    RunStep(CString(before), inPtr, s, limit);
    StepZeroFree(s, CString(before)[inPtr]);
    PlacedWrite(mem, outPtr, next, s, c);
    if c == 0 {
      PointedAppend(argv, s.done, s.cur);
    }
    var m := mem[outPtr := c];
    TailKept(mem, before, outPtr, inPtr, c);
    hide Layout;
  }

  lemma TailKept(mem: seq<byte>, before: seq<byte>, outPtr: nat, inPtr: nat, c: byte)
    requires |mem| == |before| && outPtr <= inPtr < |mem| && mem[inPtr..] == before[inPtr..]
    ensures mem[outPtr := c][inPtr + 1..] == before[inPtr + 1..]
  {
    assert before[inPtr + 1..] == before[inPtr..][1..];
    assert mem[outPtr := c][inPtr + 1..] == mem[inPtr + 1..] == mem[inPtr..][1..];
  }

  /** Nothing behind the text was written. */
  lemma TextOnly(mem: seq<byte>, before: seq<byte>, outPtr: nat, inPtr: nat)
    requires |mem| == |before| && 0 in before && outPtr <= inPtr <= |CString(before)| && mem[inPtr..] == before[inPtr..]
    ensures SameAfterText(mem[outPtr := 0], before)
  {
    hide CString;
    forall i | |CString(before)| < i < |before|
      ensures mem[i] == before[i]
    {
      assert mem[i] == mem[inPtr..][i - inPtr] == before[i];
    }
  }

  /** After the loop: the last terminator, the last pointer, and NULL. */
  lemma Finished(mem: seq<byte>, before: seq<byte>, argv: seq<Option<nat>>, s: Scan, outPtr: nat, inPtr: nat,
      next: nat, limit: nat)
    requires Reading(mem, before, argv, s, outPtr, inPtr, next, limit) && |s.done| <= limit < |argv|
    requires inPtr == |CString(before)| || |s.done| >= limit
    requires |s.done| >= limit ==> s.state == Space
    ensures outPtr < |mem|
    ensures var args := Tokens(CString(before), limit);
      var m := mem[outPtr := 0];
      var p := if s.state != Space then argv[|s.done| := Some(next)] else argv;
      |args| == (if s.state != Space then |s.done| + 1 else |s.done|) <= limit &&
        SplitInto(m, p[|args| := None], |args|, args)
  {
    hide CString, Run;
    AtTerminator(mem, before, inPtr);
    RunOver(CString(before), inPtr, s, limit);
    PlacedWrite(mem, outPtr, next, s, 0);
    var m := mem[outPtr := 0];
    if s.state != Space {
      PointedAppend(argv, s.done, s.cur);
      var args, p := s.done + [s.cur], argv[|s.done| := Some(next)][|s.done| + 1 := None];
      assert Pointed(p, args);
      SplitIntoFromLayout(m, outPtr + 1, p, args);
    } else {
      assert m[..outPtr] == mem[..outPtr];
      SplitIntoFromLayout(m, outPtr, argv[|s.done| := None], s.done);
    }
  }

  /** `esp_console_split_argv`: `line` is a C string, and `argv` has room for `size` pointers. */
  method SplitArgvInPlace(line: array<byte>, argv: array<Option<nat>>, size: nat) returns (argc: nat)
    requires 0 in line[..] && 1 <= size <= argv.Length
    modifies line, argv
    ensures argc <= size - 1
    ensures SplitInto(line[..], argv[..], argc, Tokens(old(CString(line[..])), size - 1))
    ensures SameAfterText(line[..], old(line[..]))
    ensures argv[argc + 1..] == old(argv[argc + 1..])
  {
    hide CString, Run, Layout, Placed, Pointed, ZeroFree, SplitInto, SameAfterText;
    ghost var before, slots, limit := line[..], argv[..], size - 1;
    ghost var s := START;
    StartReading(before, slots, limit);
    var state := Space;
    argc := 0;
    var nextArgStart, outPtr, inPtr := 0, 0, 0;
    while argc < size - 1
      invariant Reading(line[..], before, argv[..], s, outPtr, inPtr, nextArgStart, limit)
      invariant argc == |s.done| <= limit && state == s.state && (argc == limit ==> state == Space)
      invariant argv[argc..] == slots[argc..]
      decreases |before| - inPtr
    {
      AtTerminator(line[..], before, inPtr);
      var charIn := line[inPtr];
      if charIn == 0 {
        break;
      }
      ghost var mem, pointers, scan, next := line[..], argv[..], s, nextArgStart;
      var charOut: int := -1;
      match state {
        case Space =>
          if charIn == SPACE {
          } else if charIn == QUOTE {
            nextArgStart := outPtr;
            state := QuotedArg;
          } else if charIn == ESCAPE {
            nextArgStart := outPtr;
            state := ArgEscaped;
          } else {
            nextArgStart := outPtr;
            state := Arg;
            charOut := charIn;
          }
        case QuotedArg =>
          if charIn == QUOTE {
            charOut := 0;
            argv[argc] := Some(nextArgStart);
            argc := argc + 1;
            state := Space;
          } else if charIn == ESCAPE {
            state := QuotedArgEscaped;
          } else {
            charOut := charIn;
          }
        case ArgEscaped =>
          if charIn == ESCAPE || charIn == QUOTE || charIn == SPACE {
            charOut := charIn;
          }
          state := Arg;
        case QuotedArgEscaped =>
          if charIn == ESCAPE || charIn == QUOTE || charIn == SPACE {
            charOut := charIn;
          }
          state := QuotedArg;
        case Arg =>
          if charIn == SPACE {
            charOut := 0;
            argv[argc] := Some(nextArgStart);
            argc := argc + 1;
            state := Space;
          } else if charIn == ESCAPE {
            state := ArgEscaped;
          } else {
            charOut := charIn;
          }
      }
      s := Step(s, charIn);
      if charOut >= 0 {
        var c: byte := charOut;
        line[outPtr] := c;
        WriteOn(mem, before, pointers, scan, outPtr, inPtr, next, limit, s, nextArgStart, c, argv[..]);
        assert line[..] == mem[outPtr := c];
        outPtr := outPtr + 1;
      } else {
        ReadOn(mem, before, pointers, scan, outPtr, inPtr, next, limit, s, nextArgStart);
      }
      inPtr := inPtr + 1;
    }
    TextOnly(line[..], before, outPtr, inPtr);
    Finished(line[..], before, argv[..], s, outPtr, inPtr, nextArgStart, limit);
    ghost var mem, pointers := line[..], argv[..];
    line[outPtr] := 0;
    assert line[..] == mem[outPtr := 0];
    if state != Space && argc < size - 1 {
      argv[argc] := Some(nextArgStart);
      assert argv[..] == pointers[argc := Some(nextArgStart)];
      argc := argc + 1;
    }
    argv[argc] := None;
  }

  lemma StartReading(before: seq<byte>, argv: seq<Option<nat>>, limit: nat)
    requires 0 in before
    ensures Reading(before, before, argv, START, 0, 0, 0, limit)
  {
  }
}
