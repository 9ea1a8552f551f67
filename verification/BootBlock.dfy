/**
 Restartability of an update: the recovery arguments are written into the bootloader control block as lines
 and read back after a restart. Strings stand for C strings; what lies behind their terminator in the
 block is not modelled.
 */
module BootBlock {
  import opened Options

  /** argv has MAX_ARGS entries, the first being the program name. */
  const MAX_ARGS := 100
  const MAX_ARG_LENGTH := 4096

  // ----- Lines and tokens -------------------------------------------------------------------------------

  /** The length of the first token: up to a newline or the end. */
  function TokenEnd(s: string): (n: nat)
    ensures n <= |s| && (n < |s| ==> s[n] == '\n') && '\n' !in s[..n]
  {
    if s == "" || s[0] == '\n' then 0 else 1 + TokenEnd(s[1..])
  }

  /** The tokens strtok finds with newline as the only delimiter. */
  function Tokens(s: string): seq<string>
    decreases |s|
  {
    if s == "" then []
    else if s[0] == '\n' then Tokens(s[1..])
    else [s[..TokenEnd(s)]] + Tokens(s[TokenEnd(s)..])
  }

  /** Every string followed by a newline. */
  function Lines(ts: seq<string>): string {
    if ts == [] then "" else ts[0] + "\n" + Lines(ts[1..])
  }

  predicate Printable(t: string) { t != "" && '\n' !in t }

  predicate AllPrintable(ts: seq<string>) { forall i :: 0 <= i < |ts| ==> Printable(ts[i]) }

  lemma TokenThenRest(t: string, rest: string)
    requires Printable(t) && (rest != "" ==> rest[0] == '\n')
    ensures Tokens(t + rest) == [t] + Tokens(rest)
  {
    TokenEndOf(t, rest);
    assert (t + rest)[..|t|] == t && (t + rest)[|t|..] == rest;
    assert (t + rest)[0] == t[0] && t[0] in t;
  }

  lemma {:induction false} TokenEndOf(t: string, rest: string)
    requires '\n' !in t && (rest != "" ==> rest[0] == '\n')
    ensures TokenEnd(t + rest) == |t|
  {
    if t == "" {
      assert t + rest == rest;
    } else {
      assert (t + rest)[1..] == t[1..] + rest;
      assert t[0] in t;
      TokenEndOf(t[1..], rest);
    }
  }

  /** A text of lines without its last newline. */
  function CutLines(ts: seq<string>): string
    requires ts != []
  {
    if |ts| == 1 then ts[0] else ts[0] + "\n" + CutLines(ts[1..])
  }

  lemma {:induction false} CutLinesAre(ts: seq<string>)
    requires ts != []
    ensures Lines(ts) == CutLines(ts) + "\n"
  {
    if |ts| == 1 {
      LinesOfOne(ts[0]);
      assert ts == [ts[0]];
    } else {
      CutLinesAre(ts[1..]);
    }
  }

  lemma LinesOfOne(t: string)
    ensures Lines([t]) == t + "\n"
  {
    assert [t][1..] == [];
  }

  lemma {:induction false} TokensOfCutLines(ts: seq<string>)
    requires AllPrintable(ts) && ts != []
    ensures Tokens(CutLines(ts)) == ts
  {
    var t := ts[0];
    assert Printable(t);
    if |ts| == 1 {
      TokenThenRest(t, "");
      assert t + "" == t;
    } else {
      var more := CutLines(ts[1..]);
      TokensOfCutLines(ts[1..]);
      TokenThenRest(t, "\n" + more);
      assert ("\n" + more)[1..] == more;
      assert CutLines(ts) == t + ("\n" + more);
    }
  }

  /** A newline at the end adds no token. */
  lemma {:induction false} TokensOfLines(ts: seq<string>)
    requires AllPrintable(ts)
    ensures Tokens(Lines(ts)) == ts
  {
    if ts != [] {
      var t, more := ts[0], Lines(ts[1..]);
      assert Printable(t);
      TokensOfLines(ts[1..]);
      TokenThenRest(t, "\n" + more);
      assert ("\n" + more)[1..] == more;
      assert Lines(ts) == t + ("\n" + more);
    }
  }

  /** A newline separates tokens wherever it stands; blank lines have none. */
  lemma {:induction false} TokensSplit(a: string, b: string)
    ensures Tokens(a + "\n" + b) == Tokens(a) + Tokens(b)
    decreases |a|
  {
    var s := a + "\n" + b;
    if a == "" {
      assert s[1..] == b;
    } else if a[0] == '\n' {
      assert s[1..] == a[1..] + "\n" + b;
      TokensSplit(a[1..], b);
    } else {
      var n := TokenEnd(a);
      var rest := a[n..] + "\n" + b;
      assert s == a[..n] + rest;
      TokenEndOf(a[..n], rest);
      TokensSplit(a[n..], b);
    }
  }

  lemma TokenAlone(t: string)
    requires Printable(t)
    ensures Tokens(t) == [t]
  {
    TokenThenRest(t, "");
    assert t + "" == t;
  }

  /** Tokens are printable, and printing them takes at most one character more than the text had. */
  lemma {:induction false} TokensFit(s: string)
    ensures AllPrintable(Tokens(s)) && |Lines(Tokens(s))| <= |s| + 1
    ensures s != "" && s[0] == '\n' ==> |Lines(Tokens(s))| <= |s|
    decreases |s|
  {
    if s != "" {
      if s[0] == '\n' {
        TokensFit(s[1..]);
      } else {
        var n := TokenEnd(s);
        TokensFit(s[n..]);
        assert Tokens(s)[1..] == Tokens(s[n..]);
      }
    }
  }

  // ----- Printing and reading arguments ----------------------------------------------------------------

  /** What strlcpy and strlcat leave of a text in a buffer. */
  function Truncated(s: string, capacity: nat): string
    requires capacity > 0
  {
    if |s| < capacity then s else s[..capacity - 1]
  }

  const RECOVERY := "recovery"

  function Printed(args: seq<string>): string { Lines([RECOVERY] + args) }

  function Take<T>(s: seq<T>, n: nat): seq<T> { if |s| <= n then s else s[..n] }

  /** The arguments in the recovery field, if it starts with the line "recovery". */
  function Parsed(text: string): seq<string> {
    var ts := Tokens(text);
    if ts != [] && ts[0] == RECOVERY then Take(ts[1..], MAX_ARGS - 1) else []
  }

  /** What survives a restart: non-empty arguments without newlines, not too many, that fit the field. */
  predicate Survives(args: seq<string>, capacity: nat) {
    AllPrintable(args) && |args| < MAX_ARGS && |Printed(args)| <= capacity
  }

  lemma {:induction false} LinesConcat(xs: seq<string>, ys: seq<string>)
    ensures Lines(xs + ys) == Lines(xs) + Lines(ys)
  {
    if xs == [] {
      assert xs + ys == ys;
    } else {
      assert (xs + ys)[1..] == xs[1..] + ys;
      LinesConcat(xs[1..], ys);
    }
  }

  /** What is read from a block survives being written again. */
  lemma ParsedSurvives(text: string, capacity: nat)
    requires |text| < capacity && |RECOVERY| + 1 < capacity
    ensures Survives(Parsed(text), capacity)
  {
    var ts, args := Tokens(text), Parsed(text);
    TokensFit(text);
    if args != [] {
      var all := [RECOVERY] + args;
      assert ts == all + ts[|all|..];
      LinesConcat(all, ts[|all|..]);
      assert forall i :: 0 <= i < |args| ==> args[i] == ts[i + 1];
    } else {
      var one: seq<string> := [RECOVERY];
      assert one + args == one && one[1..] == [];
      assert Lines(one) == RECOVERY + "\n" + Lines([]);
    }
  }

  /** Cutting a printed text to its buffer costs at most the last newline when the text survives. */
  lemma PrintedReadsBack(args: seq<string>, capacity: nat)
    requires capacity > |RECOVERY| + 1 && Survives(args, capacity)
    ensures Tokens(Truncated(Printed(args), capacity)) == [RECOVERY] + args
  {
    var ts := [RECOVERY] + args;
    assert ts[1..] == args && Printable(RECOVERY) && AllPrintable(ts);
    TokensOfLines(ts);
    TokensOfCutLines(ts);
    CutLinesAre(ts);
    hide Tokens, Lines, CutLines;
    var text := Lines(ts);
    assert text[..|text| - 1] == CutLines(ts);
  }

  /**
   Arguments written to the block are read back unchanged exactly when they survive; only the last newline may be lost.
   */
  lemma ArgumentsReadBack(args: seq<string>, capacity: nat)
    requires capacity > |RECOVERY| + 1
    ensures Parsed(Truncated(Printed(args), capacity)) == args <==> Survives(args, capacity)
  {
    var text := Truncated(Printed(args), capacity);
    if Survives(args, capacity) {
      PrintedReadsBack(args, capacity);
      assert ([RECOVERY] + args)[1..] == args;
    }
    ParsedSurvives(text, capacity);
  }

  // ----- The command file --------------------------------------------------------------------------------

  /** How many characters fgets takes: up to and including a newline, but never more than the buffer holds. */
  function LineLength(s: string, limit: nat): (n: nat)
    requires limit > 0
    ensures n <= |s| && n <= limit && (s != "" ==> n > 0)
    decreases limit
  {
    if s == "" then 0 else if s[0] == '\n' || limit == 1 then 1 else 1 + LineLength(s[1..], limit - 1)
  }

  /** The pieces in which fgets delivers a file. */
  function Pieces(s: string): seq<string>
    decreases |s|
  {
    if s == "" then [] else
      var n := LineLength(s, MAX_ARG_LENGTH - 1);
      [s[..n]] + Pieces(s[n..])
  }

  predicate EndOfLine(c: char) { c == '\r' || c == '\n' }

  /** The first token of a piece with both line-end characters as delimiters; empty if there is none. */
  function Stripped(s: string): string {
    if s == "" then "" else if EndOfLine(s[0]) then Stripped(s[1..]) else s[..PlainLength(s)]
  }

  function PlainLength(s: string): (n: nat)
    ensures n <= |s|
    ensures forall i :: 0 <= i < n ==> !EndOfLine(s[i])
  {
    if s == "" || EndOfLine(s[0]) then 0 else 1 + PlainLength(s[1..])
  }

  function NonEmpty(ss: seq<string>): seq<string> {
    if ss == [] then [] else
      var t := Stripped(ss[0]);
      (if t == "" then [] else [t]) + NonEmpty(ss[1..])
  }

  /** What the lines of a file contribute, whatever their number; lines without content do not count. */
  function Contents(s: string): seq<string> { NonEmpty(Pieces(s)) }

  /** The arguments in a command file. */
  function CommandArgs(content: string): seq<string> { Take(Contents(content), MAX_ARGS - 1) }

  predicate PlainLine(t: string) { 0 < |t| < MAX_ARG_LENGTH - 1 && forall i :: 0 <= i < |t| ==> !EndOfLine(t[i]) }

  lemma {:induction false} LineLengthOf(t: string, rest: string, limit: nat)
    requires |t| < limit && '\n' !in t
    ensures LineLength(t + "\n" + rest, limit) == |t| + 1
    decreases limit
  {
    var s := t + "\n" + rest;
    if t == "" {
      assert s[0] == '\n';
    } else {
      assert s[1..] == t[1..] + "\n" + rest && s[0] == t[0];
      LineLengthOf(t[1..], rest, limit - 1);
    }
  }

  lemma {:induction false} PlainLengthOf(t: string, rest: string)
    requires forall i :: 0 <= i < |t| ==> !EndOfLine(t[i])
    requires rest != "" && EndOfLine(rest[0])
    ensures PlainLength(t + rest) == |t|
  {
    if t == "" {
      assert t + rest == rest;
    } else {
      assert (t + rest)[1..] == t[1..] + rest && (t + rest)[0] == t[0];
      PlainLengthOf(t[1..], rest);
    }
  }

  /** A file of plain lines yields exactly its lines. */
  lemma {:induction false} PlainFile(ts: seq<string>)
    requires forall i :: 0 <= i < |ts| ==> PlainLine(ts[i])
    ensures Contents(Lines(ts)) == ts
  {
    if ts != [] {
      var t, more := ts[0], Lines(ts[1..]);
      var line := t + "\n";
      LineLengthOf(t, more, MAX_ARG_LENGTH - 1);
      assert (line + more)[..|t| + 1] == line && (line + more)[|t| + 1..] == more;
      PlainFile(ts[1..]);
      PlainLengthOf(t, "\n");
      assert line[0] == t[0] && line[..|t|] == t;
      assert Stripped(line) == t;
      assert Pieces(line + more) == [line] + Pieces(more);
    }
  }

  /** One fgets and strtok: at most one argument more, and the rest of the file. */
  lemma NextPiece(s: string)
    requires s != ""
    ensures var n := LineLength(s, MAX_ARG_LENGTH - 1);
            var token := Stripped(s[..n]);
            Contents(s) == (if token == "" then [] else [token]) + Contents(s[n..])
  {
    hide Stripped, LineLength;
    var n := LineLength(s, MAX_ARG_LENGTH - 1);
    assert Pieces(s)[1..] == Pieces(s[n..]);
  }

  lemma NoContents()
    ensures Contents("") == []
  {}

  predicate Unbroken(t: string) { forall i :: 0 <= i < |t| ==> t[i] != '\r' && t[i] != '\n' }

  /** A piece of text: carriage returns, then the text, and behind it nothing or what a carriage return starts. */
  predicate Framed(front: string, t: string, tail: string) {
    && Unbroken(t) && (forall c :: c in front ==> c == '\r') && '\n' !in tail
    && (tail != "" ==> t != "" && tail[0] == '\r')
  }

  /**
   A line of up to 4095 characters contributes its text up to the next carriage return, behind those it starts with;
   a blank one contributes nothing.
   */
  lemma CommandLine(front: string, t: string, tail: string, rest: string)
    requires Framed(front, t, tail) && |front| + |t| + |tail| + 1 <= 4095
    ensures Contents(front + t + tail + "\n" + rest) == (if t == "" then [] else [t]) + Contents(rest)
  {
    var body := front + t + tail;
    LineLengthOf(body, rest, MAX_ARG_LENGTH - 1);
    StrippedPiece(front, t, tail + "\n");
    hide *;
    Regrouped(front, t, tail, "\n");
    FirstPiece(body + "\n", rest, t);
  }

  lemma Regrouped(a: string, b: string, c: string, d: string)
    ensures a + b + c + d == a + (b + (c + d))
  {}

  lemma FirstPiece(piece: string, rest: string, t: string)
    requires piece != "" && LineLength(piece + rest, 4095) == |piece| && Stripped(piece) == t
    ensures Contents(piece + rest) == (if t == "" then [] else [t]) + Contents(rest)
  {
    hide Stripped, LineLength, Contents;
    NextPiece(piece + rest);
    assert (piece + rest)[..|piece|] == piece && (piece + rest)[|piece|..] == rest;
  }

  /** A longer line is cut after 4095 characters, and what follows counts as another; the last one needs no end. */
  lemma LongLine(front: string, t: string, tail: string, rest: string)
    requires Framed(front, t, tail) && var n := |front| + |t| + |tail|; n == 4095 || (rest == "" && n <= 4095)
    ensures Contents(front + t + tail + rest) == (if t == "" then [] else [t]) + Contents(rest)
  {
    var piece := front + t + tail;
    if piece == "" {
      assert piece + rest == rest;
    } else {
      LongLineLength(piece, rest, MAX_ARG_LENGTH - 1);
      StrippedPiece(front, t, tail);
      hide *;
      Regrouped(front, t, tail, "");
      assert piece + "" == piece && tail + "" == tail;
      FirstPiece(piece, rest, t);
    }
  }

  lemma StrippedPiece(front: string, t: string, tail: string)
    requires Unbroken(t) && forall c :: c in front ==> c == '\r'
    requires tail != "" ==> EndOfLine(tail[0]) && (t != "" || tail == "\n")
    ensures Stripped(front + (t + tail)) == t
  {
    StrippedFront(front, t + tail);
    if t == "" {
      assert t + tail == tail;
      assert tail != "" ==> tail[1..] == "";
    } else {
      if tail == "" {
        PlainLengthOfAll(t);
        assert t + tail == t;
      } else {
        PlainLengthOf(t, tail);
      }
      assert (t + tail)[0] == t[0] && (t + tail)[..|t|] == t;
    }
  }

  lemma {:induction false} StrippedFront(front: string, s: string)
    requires forall c :: c in front ==> c == '\r'
    ensures Stripped(front + s) == Stripped(s)
  {
    if front == "" {
      assert front + s == s;
    } else {
      assert front[0] in front && (front + s)[1..] == front[1..] + s;
      assert forall c :: c in front[1..] ==> c in front;
      StrippedFront(front[1..], s);
    }
  }

  lemma {:induction false} PlainLengthOfAll(t: string)
    requires Unbroken(t)
    ensures PlainLength(t) == |t|
  {
    if t != "" {
      PlainLengthOfAll(t[1..]);
    }
  }

  lemma {:induction false} LongLineLength(t: string, rest: string, limit: nat)
    requires |t| <= limit && limit > 0 && '\n' !in t && (|t| == limit || rest == "")
    ensures LineLength(t + rest, limit) == |t|
    decreases limit
  {
    if |t| > 1 {
      assert (t + rest)[1..] == t[1..] + rest && t[0] in t;
      LongLineLength(t[1..], rest, limit - 1);
    } else if |t| == 1 {
      assert t[0] in t && (t + rest)[1..] == rest;
    }
  }

  lemma {:induction false} StrippedPrintable(s: string)
    ensures Stripped(s) == "" || Printable(Stripped(s))
  {
    if s != "" && EndOfLine(s[0]) {
      StrippedPrintable(s[1..]);
    }
  }

  lemma {:induction false} NonEmptyPrintable(ss: seq<string>)
    ensures AllPrintable(NonEmpty(ss))
  {
    if ss != [] {
      StrippedPrintable(ss[0]);
      NonEmptyPrintable(ss[1..]);
    }
  }

  // ----- Restarts ----------------------------------------------------------------------------------------

  datatype Block = Block(command: string, status: string, recovery: string, stage: string)

  const CLEARED := Block("", "", "", "")

  /** The arguments a boot works with: the command line, else the control block, else the command file. */
  function Effective(cmdline: seq<string>, b: Block, file: Option<string>): seq<string> {
    if cmdline != [] then cmdline
    else if Parsed(b.recovery) != [] then Parsed(b.recovery)
    else if file.Some? then CommandArgs(file.value) else []
  }

  lemma BlockTokens(t: string, args: seq<string>)
    requires Printable(t) && AllPrintable(args)
    ensures Tokens(t + "\n" + Lines(args)) == [t] + args && ([t] + args)[1..] == args
  {
    TokensSplit(t, Lines(args));
    TokenAlone(t);
    TokensOfLines(args);
    hide Tokens, Lines;
  }

  lemma RecoveryLine()
    ensures RECOVERY + "\n" == "recovery\n"
  {}

  lemma ParsedLines(t: string, args: seq<string>)
    requires t == RECOVERY && AllPrintable(args) && |args| <= 99
    ensures Parsed(t + "\n" + Lines(args)) == args
  {
    RecoveryPrintable();
    hide RECOVERY, Tokens, Lines, Printable, AllPrintable;
    BlockTokens(t, args);
  }

  lemma RecoveryPrintable()
    ensures Printable(RECOVERY)
  {}

  /** The command line goes before the block, and the block before the file. */
  lemma Precedence(cmdline: seq<string>, b: Block, args: seq<string>, file: Option<string>)
    requires b.recovery == "recovery\n" + Lines(args) && AllPrintable(args) && 1 <= |args| <= 99
    ensures Effective(cmdline, b, file) == if cmdline != [] then cmdline else args
  {
    RecoveryLine();
    ParsedLines(RECOVERY, args);
    hide Parsed, Lines;
  }

  /** A block whose first line with content is another one, or that has none, leaves the word to the file. */
  lemma OtherBlock(b: Block, t: string, rest: string, file: Option<string>)
    requires b.recovery == "" || (b.recovery == t + "\n" + rest && Printable(t) && t != "recovery")
    ensures Effective([], b, file) == if file == None then [] else CommandArgs(file.value)
  {
    if b.recovery != "" {
      TokensSplit(t, rest);
      TokenAlone(t);
      hide Tokens;
    }
  }

  function Rewritten(b: Block, args: seq<string>, capacity: nat): (next: Block)
    requires capacity > 0
    ensures next.command == "boot-recovery" && next.status == b.status && next.stage == b.stage
  {
    b.(command := "boot-recovery", recovery := Truncated(Printed(args), capacity))
  }

  /** What a boot leaves in the block's recovery field: the line "recovery" and the arguments, as far as they fit. */
  lemma RewrittenText(b: Block, args: seq<string>, capacity: nat)
    requires capacity > 0
    ensures var text := "recovery\n" + Lines(args);
            Rewritten(b, args, capacity).recovery == if |text| < capacity then text else text[..capacity - 1]
  {
    RecoveryLine();
    PrintedText(RECOVERY, args);
    hide Lines;
  }

  lemma PrintedText(t: string, args: seq<string>)
    ensures Lines([t] + args) == t + "\n" + Lines(args)
  {
    assert ([t] + args)[1..] == args;
  }

  /** The blocks after restarts without a command line, each finding the command file as it happens to be then. */
  function AfterRestarts(b: Block, files: seq<Option<string>>, capacity: nat): Block
    requires capacity > 0
  {
    if files == [] then b else
      var before := AfterRestarts(b, files[..|files| - 1], capacity);
      Rewritten(before, Effective([], before, files[|files| - 1]), capacity)
  }

  /** A boot with surviving arguments is followed by the same arguments and the same block, whatever the file says. */
  lemma BootRepeats(cmdline: seq<string>, b: Block, file: Option<string>, later: Option<string>, capacity: nat)
    requires capacity > |RECOVERY| + 1
    requires var args := Effective(cmdline, b, file); args != [] && Survives(args, capacity)
    ensures var args := Effective(cmdline, b, file); var next := Rewritten(b, args, capacity);
            Effective([], next, later) == args && Rewritten(next, args, capacity) == next
  {
    ArgumentsReadBack(Effective(cmdline, b, file), capacity);
  }

  /**
   Restartability: after a boot with surviving arguments, every restart until the block is cleared works
   with the same arguments and leaves the same block.
   */
  lemma {:induction false} EveryRestartRepeats(cmdline: seq<string>, b: Block, file: Option<string>,
                                               files: seq<Option<string>>,
                                               later: Option<string>, capacity: nat)
    requires capacity > |RECOVERY| + 1
    requires var args := Effective(cmdline, b, file); args != [] && Survives(args, capacity)
    ensures var args := Effective(cmdline, b, file); var next := Rewritten(b, args, capacity);
            AfterRestarts(next, files, capacity) == next
                && Effective([], AfterRestarts(next, files, capacity), later) == args
  {
    if files != [] {
      EveryRestartRepeats(cmdline, b, file, files[..|files| - 1], files[|files| - 1], capacity);
    }
    BootRepeats(cmdline, b, file, later, capacity);
  }

  /** Arguments that come from the control block always survive; those from the command file exactly if they fit. */
  lemma BootedArgumentsSurvive(b: Block, file: Option<string>, capacity: nat)
    requires capacity > |RECOVERY| + 1 && |b.recovery| < capacity
    ensures var args := Effective([], b, file);
            Survives(args, capacity) <==> |Printed(args)| <= capacity
    ensures Parsed(b.recovery) != [] ==> Survives(Effective([], b, file), capacity)
  {
    ParsedSurvives(b.recovery, capacity);
    if file.Some? {
      NonEmptyPrintable(Pieces(file.value));
    }
  }

  lemma ClearedBlock()
    ensures Parsed(CLEARED.recovery) == []
  {
    var text := CLEARED.recovery;
    assert |text| == 0;
    assert Tokens(text) == [];
  }

  // ----- The request of the running system ----------------------------------------------------------------

  /** A package: its canonical path, and its file name in lower case. */
  datatype Package = Package(path: string, name: string)

  predicate Contains(s: string, sub: string) { sub <= s || (s != "" && Contains(s[1..], sub)) }

  /** The recovery option for a package, chosen by the first board mark in its name. */
  function OptionFor(p: Package): Option<string> {
    if Contains(p.name, "rm") then Some("--update_rkimage=" + p.path)
    else if Contains(p.name, "rc") then Some("--update_rc=" + p.path)
    else if Contains(p.name, "rp") then Some("--update_rp=" + p.path)
    else if Contains(p.name, "rf") then Some("--update_rf=" + p.path)
    else if Contains(p.name, "rb") then Some("--update_rb=" + p.path)
    else None
  }

  /** A board mark: the letter r and the board's own. */
  predicate Marked(name: string, board: char) {
    exists i :: 0 <= i < |name| - 1 && name[i] == 'r' && name[i + 1] == board
  }

  lemma {:induction false} ContainsMark(s: string, mark: string)
    requires |mark| == 2 && mark[0] == 'r'
    ensures Contains(s, mark) <==> Marked(s, mark[1])
  {
    if s != "" {
      ContainsMark(s[1..], mark);
      if Marked(s[1..], mark[1]) {
        var i :| 0 <= i < |s[1..]| - 1 && s[1..][i] == 'r' && s[1..][i + 1] == mark[1];
        assert s[i + 1] == 'r' && s[i + 2] == mark[1];
      }
      var starts := |s| >= 2 && s[0] == 'r' && s[1] == mark[1];
      assert starts ==> s[..2] == mark;
      if Marked(s, mark[1]) && !starts {
        var i :| 0 <= i < |s| - 1 && s[i] == 'r' && s[i + 1] == mark[1];
        assert s[1..][i - 1] == 'r' && s[1..][i] == mark[1];
      }
    }
  }

  /** The option for a package: the main board's mark goes before the others, these in the order c, p, f, b. */
  lemma BoardOption(p: Package)
    ensures Marked(p.name, 'm') ==> OptionFor(p) == Some("--update_rkimage=" + p.path)
    ensures Marked(p.name, 'c') && !Marked(p.name, 'm') ==> OptionFor(p) == Some("--update_rc=" + p.path)
    ensures Marked(p.name, 'p') && !Marked(p.name, 'm') && !Marked(p.name, 'c') ==>
              OptionFor(p) == Some("--update_rp=" + p.path)
    ensures Marked(p.name, 'f') && !Marked(p.name, 'm') && !Marked(p.name, 'c') && !Marked(p.name, 'p') ==>
              OptionFor(p) == Some("--update_rf=" + p.path)
    ensures Marked(p.name, 'b') && (forall c :: c in "mcpf" ==> !Marked(p.name, c)) ==>
              OptionFor(p) == Some("--update_rb=" + p.path)
    ensures OptionFor(p) == None <==> forall c :: c in "mcpfb" ==> !Marked(p.name, c)
  {
    ContainsMark(p.name, "rm");
    ContainsMark(p.name, "rc");
    ContainsMark(p.name, "rp");
    ContainsMark(p.name, "rf");
    ContainsMark(p.name, "rb");
    hide Contains, Marked;
    assert 'm' in "mcpfb" && 'c' in "mcpfb" && 'p' in "mcpfb" && 'f' in "mcpfb" && 'b' in "mcpfb";
    assert 'm' in "mcpf" && 'c' in "mcpf" && 'p' in "mcpf" && 'f' in "mcpf";
  }

  function OptionsFor(ps: seq<Package>): seq<string> {
    if ps == [] then [] else
      OptionsFor(ps[..|ps| - 1]) + match OptionFor(ps[|ps| - 1]) case Some(o) => [o] case None => []
  }

  /** Every marked package has its option, in the order of the packages; the others are passed over. */
  lemma {:induction false} OptionsInOrder(ps: seq<Package>, k: nat, n: nat)
    requires k < |ps| && OptionFor(ps[k]).Some? && n == |OptionsFor(ps[..k])|
    ensures n < |OptionsFor(ps)| && OptionsFor(ps)[n] == OptionFor(ps[k]).value
    ensures (forall i :: 0 <= i < |ps| ==> OptionFor(ps[i]).Some?) ==> n == k && |OptionsFor(ps)| == |ps|
  {
    hide OptionFor;
    var before := ps[..|ps| - 1];
    if k < |before| {
      assert before[..k] == ps[..k];
      OptionsInOrder(before, k, n);
    } else {
      if k > 0 && OptionFor(before[k - 1]).Some? {
        OptionsInOrder(before, k - 1, |OptionsFor(before[..k - 1])|);
      }
    }
  }

  /** All arguments an installation asks for. */
  function Request(ps: seq<Package>, locale: string): seq<string> { OptionsFor(ps) + ["--locale=" + locale] }

  /** Builds the command file: the option lines of the packages, the locale, and the final newline. */
  method InstallPackages(ps: seq<Package>, locale: string) returns (content: string)
    ensures content == Lines(Request(ps, locale))
  {
    hide OptionFor;
    var arg := "";
    for i := 0 to |ps|
      invariant arg == Lines(OptionsFor(ps[..i]))
    {
      assert ps[..i + 1][..i] == ps[..i];
      var o := OptionFor(ps[i]);
      if o.Some? {
        LinesConcat(OptionsFor(ps[..i]), [o.value]);
        LinesOfOne(o.value);
        arg := arg + (o.value + "\n");
      } else {
        assert OptionsFor(ps[..i]) + [] == OptionsFor(ps[..i]);
      }
    }
    assert ps[..|ps|] == ps;
    LinesConcat(OptionsFor(ps), ["--locale=" + locale]);
    LinesOfOne("--locale=" + locale);
    arg := arg + ("--locale=" + locale);
    content := arg + "\n";
  }

  /**
   An installation request of plain lines that fits the block survives every restart: the first boot takes
   it from the command file, all later ones find the same arguments in the block.
   */
  lemma InstallationIsRestartable(ps: seq<Package>, locale: string, b: Block, files: seq<Option<string>>,
                                  later: Option<string>, capacity: nat)
    requires capacity > |RECOVERY| + 1 && Parsed(b.recovery) == []
    requires var request := Request(ps, locale);
             |request| < MAX_ARGS && |Printed(request)| <= capacity
             && forall i :: 0 <= i < |request| ==> PlainLine(request[i])
    ensures var request := Request(ps, locale); var next := Rewritten(b, request, capacity);
            && Effective([], b, Some(Lines(request))) == request
            && AfterRestarts(next, files, capacity) == next
            && Effective([], AfterRestarts(next, files, capacity), later) == request
  {
    var request := Request(ps, locale);
    PlainFile(request);
    assert AllPrintable(request) by {
      forall i | 0 <= i < |request| ensures Printable(request[i]) {
        PlainIsPrintable(request[i]);
      }
    }
    hide *;
    EveryRestartRepeats([], b, Some(Lines(request)), files, later, capacity);
  }

  lemma PlainIsPrintable(t: string)
    requires PlainLine(t)
    ensures Printable(t)
  {}

  // ----- The code ------------------------------------------------------------------------------------------

  lemma TruncatedAppend(a: string, b: string, capacity: nat)
    requires capacity > 0
    ensures Truncated(Truncated(a, capacity) + b, capacity) == Truncated(a + b, capacity)
  {}

  lemma PrintedNothing(capacity: nat)
    requires capacity > |RECOVERY| + 1
    ensures Truncated(Printed([]), capacity) == RECOVERY + "\n"
  {
    assert [RECOVERY] + [] == [RECOVERY];
    LinesOfOne(RECOVERY);
  }

  /** Appending one argument and its newline keeps the printed, truncated text. */
  lemma PrintedNext(args: seq<string>, i: nat, capacity: nat)
    requires i < |args| && capacity > 0
    ensures Truncated(Truncated(Truncated(Printed(args[..i]), capacity) + args[i], capacity) + "\n", capacity)
         == Truncated(Printed(args[..i + 1]), capacity)
  {
    var printed := Printed(args[..i]);
    assert [RECOVERY] + args[..i + 1] == ([RECOVERY] + args[..i]) + [args[i]];
    LinesConcat([RECOVERY] + args[..i], [args[i]]);
    LinesOfOne(args[i]);
    assert printed + args[i] + "\n" == printed + (args[i] + "\n");
    hide Lines, Truncated;
    TruncatedAppend(printed, args[i], capacity);
    TruncatedAppend(printed + args[i], "\n", capacity);
  }

  class Recovery {
    var block: Block
    var commandFile: Option<string>
    const capacity: nat

    constructor (block: Block, commandFile: Option<string>, capacity: nat)
      requires capacity > |RECOVERY| + 1
      ensures this.block == block && this.commandFile == commandFile && this.capacity == capacity
    {
      this.block, this.commandFile, this.capacity := block, commandFile, capacity;
    }

    /** Reads up to 99 argument lines of the command file. */
    method ReadCommandFile(content: string) returns (args: seq<string>)
      ensures args == CommandArgs(content) && |args| <= 99
      ensures args <= Contents(content) && (|args| < 99 ==> args == Contents(content))
    {
      args := [];
      var rest := content;
      NoContents();
      hide Stripped, LineLength, Contents;
      while |args| < MAX_ARGS - 1 && rest != ""
        invariant |args| <= MAX_ARGS - 1
        invariant args + Contents(rest) == Contents(content)
        decreases |rest|
      {
        NextPiece(rest);
        var n := LineLength(rest, MAX_ARG_LENGTH - 1);
        var token := Stripped(rest[..n]);
        rest := rest[n..];
        if token != "" {
          args := args + [token];
        }
      }
    }

    /** The arguments of this boot; they are written back so that the next boot finds them. */
    method GetArgs(cmdline: seq<string>) returns (args: seq<string>)
      requires capacity > |RECOVERY| + 1
      modifies this`block
      ensures args == Effective(cmdline, old(block), commandFile) && (cmdline != [] ==> args == cmdline)
      ensures block == Rewritten(old(block), args, capacity)
    {
      hide Tokens, Lines, NonEmpty, Pieces;
      args := cmdline;
      if args == [] {
        var tokens := Tokens(block.recovery);
        if tokens != [] && tokens[0] == RECOVERY {
          while |args| < MAX_ARGS - 1 && |args| + 1 < |tokens|
            invariant |args| < MAX_ARGS && |args| + 1 <= |tokens| && args == tokens[1..|args| + 1]
            decreases |tokens| - |args|
          {
            args := args + [tokens[|args| + 1]];
          }
        }
      }
      if args == [] && commandFile.Some? {
        args := ReadCommandFile(commandFile.value);
      }
      WriteArgs(args);
    }

    method WriteArgs(args: seq<string>)
      requires capacity > |RECOVERY| + 1
      modifies this`block
      ensures block == Rewritten(old(block), args, capacity)
    {
      var text := RECOVERY + "\n";
      PrintedNothing(capacity);
      assert args[..0] == [];
      for i := 0 to |args|
        invariant text == Truncated(Printed(args[..i]), capacity) && block == old(block)
      {
        hide Lines, Truncated, Printed;
        PrintedNext(args, i, capacity);
        text := Truncated(text + args[i], capacity);
        text := Truncated(text + "\n", capacity);
      }
      assert args[..|args|] == args;
      block := block.(command := "boot-recovery", recovery := text);
    }

    /**
     Ends the installation. The command file is removed, unless that fails, and the block is cleared, unless it must
     be kept: the next boot without a command line finds no arguments at all, or those that were in the block.
     */
    method FinishRecovery(needClear: bool, removable: bool)
      modifies this`block, this`commandFile
      ensures removable ==> Effective([], block, commandFile) == if needClear then [] else Parsed(old(block).recovery)
      ensures block == if needClear then Block("", "", "", "") else old(block)
      ensures commandFile == if removable then None else old(commandFile)
    {
      if needClear {
        block := CLEARED;
        ClearedBlock();
      }
      if removable {
        commandFile := None;
      }
    }
  }
}
