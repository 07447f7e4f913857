/**
 Reading and rewriting one setting of Core's environment file
 (`crates/admin/src/laya.rs`).

 The reader follows the line grammar of `assignment_starts`: quoted values and
 backslash continuations may span lines. The writer edits physical lines and
 knows nothing of that grammar. The theorems say when the two agree.
 */
module EnvFile {
  import opened Wrappers
  import opened Shared
  import opened Pieces

  const TAB: byte := 9
  const NEWLINE: byte := 10
  const FORM_FEED: byte := 12
  const RETURN: byte := 13
  const SPACE: byte := 32
  const DOUBLE_QUOTE: byte := 34
  const HASH: byte := 35
  const SINGLE_QUOTE: byte := 39
  const SEMICOLON: byte := 59
  const EQUALS: byte := 61
  const BACKSLASH: byte := 92

  datatype Mode = Off | Shadow | Primary

  /** "JARVIS_LAYA_MODE", as ASCII. */
  const MODE_NAME: Bytes := [74, 65, 82, 86, 73, 83, 95, 76, 65, 89, 65, 95, 77, 79, 68, 69]
  const MODE_KEY: Bytes := MODE_NAME + [EQUALS]

  /** "off", "shadow" and "primary". */
  function Name(mode: Mode): Bytes {
    match mode
    case Off => [111, 102, 102]
    case Shadow => [115, 104, 97, 100, 111, 119]
    case Primary => [112, 114, 105, 109, 97, 114, 121]
  }

  function ModeLine(mode: Mode): Bytes {
    MODE_KEY + Name(mode)
  }

  datatype EnvError = EndsInsideValue | NonCanonical | Duplicate

  // ---- Physical lines ------------------------------------------------------------

  predicate NoNewline(line: Bytes) {
    NEWLINE !in line
  }

  /** The physical lines; never none. */
  function Split(bytes: Bytes): (lines: seq<Bytes>)
    ensures lines != []
  {
    SplitAll(bytes, NEWLINE)
  }

  lemma SplitLines(bytes: Bytes)
    ensures forall k | 0 <= k < |Split(bytes)| :: NoNewline(Split(bytes)[k])
    ensures Join(Split(bytes), NEWLINE) == bytes
  {
    PiecesAreWhole(bytes, NEWLINE);
    JoinSplit(bytes, NEWLINE);
  }

  // ---- The line grammar ------------------------------------------------------------

  predicate IsSpace(b: byte) {
    b == SPACE || b == TAB || b == NEWLINE || b == FORM_FEED || b == RETURN
  }

  function TrimAsciiStart(line: Bytes): Bytes {
    if line != [] && IsSpace(line[0]) then TrimAsciiStart(line[1..]) else line
  }

  /** Whether the line ends in an odd number of backslashes. */
  predicate OddBackslashes(line: Bytes) {
    line != [] && line[|line| - 1] == BACKSLASH && !OddBackslashes(line[..|line| - 1])
  }

  function IndexOf(b: byte, line: Bytes): (index: Option<nat>)
    ensures index.Some? ==> index.value < |line| && line[index.value] == b
  {
    if line == [] then None
    else if line[0] == b then Some(0)
    else
      var index :- IndexOf(b, line[1..]);
      Some(index + 1)
  }

  predicate IsComment(line: Bytes) {
    line != [] && (line[0] == HASH || line[0] == SEMICOLON)
  }

  /** Whether the open quote is closed in `rest`. Only double quotes know escapes. */
  predicate Closes(quote: byte, rest: Bytes, escaped: bool) {
    if rest == [] then false
    else if escaped then Closes(quote, rest[1..], false)
    else if quote == DOUBLE_QUOTE && rest[0] == BACKSLASH then Closes(quote, rest[1..], true)
    else rest[0] == quote || Closes(quote, rest[1..], false)
  }

  /** The quote that must still be closed; a backslash stands for a line that goes on without quotes. */
  type Open = Option<byte>

  function AfterQuote(quote: byte, rest: Bytes): Open {
    if Closes(quote, rest, false) then None else Some(quote)
  }

  function AfterUnquoted(value: Bytes): Open {
    if OddBackslashes(value) then Some(BACKSLASH) else None
  }

  /** What is open after a line that starts an assignment. */
  function AfterAssignment(line: Bytes): Open {
    var trimmed := TrimAsciiStart(line);
    var index := IndexOf(EQUALS, trimmed);
    if index.None? || IsComment(trimmed) then None
    else
      var value := TrimAsciiStart(trimmed[index.value + 1..]);
      if value != [] && (value[0] == SINGLE_QUOTE || value[0] == DOUBLE_QUOTE) then AfterQuote(value[0], value[1..])
      else AfterUnquoted(value)
  }

  /** What is open after one physical line. */
  function AfterLine(open: Open, physical: Bytes): Open {
    var line := StripLast(physical, RETURN);
    match open
    case None => AfterAssignment(line)
    case Some(quote) => if quote == BACKSLASH then AfterUnquoted(line) else AfterQuote(quote, line)
  }

  function AfterLines(open: Open, lines: seq<Bytes>): Open
    decreases |lines|
  {
    if lines == [] then open else AfterLines(AfterLine(open, lines[0]), lines[1..])
  }

  /** For each line, whether an assignment can start there. */
  function Starts(open: Open, lines: seq<Bytes>): (starts: seq<bool>)
    ensures |starts| == |lines|
    decreases |lines|
  {
    if lines == [] then [] else [open.None?] + Starts(AfterLine(open, lines[0]), lines[1..])
  }

  lemma {:induction false} StateAppend(open: Open, a: seq<Bytes>, b: seq<Bytes>)
    ensures AfterLines(open, a + b) == AfterLines(AfterLines(open, a), b)
    decreases |a|
  {
    if a == [] {
      assert a + b == b;
    } else {
      assert (a + b)[1..] == a[1..] + b;
      StateAppend(AfterLine(open, a[0]), a[1..], b);
    }
  }

  lemma {:induction false} StartsAppend(open: Open, a: seq<Bytes>, b: seq<Bytes>)
    ensures Starts(open, a + b) == Starts(open, a) + Starts(AfterLines(open, a), b)
    decreases |a|
  {
    if a == [] {
      assert a + b == b;
    } else {
      assert (a + b)[1..] == a[1..] + b;
      StartsAppend(AfterLine(open, a[0]), a[1..], b);
    }
  }

  lemma LinesAppend(open: Open, a: seq<Bytes>, b: seq<Bytes>)
    ensures AfterLines(open, a + b) == AfterLines(AfterLines(open, a), b)
    ensures Starts(open, a + b) == Starts(open, a) + Starts(AfterLines(open, a), b)
  {
    StateAppend(open, a, b);
    StartsAppend(open, a, b);
  }

  // ---- What the grammar says ----------------------------------------------------------

  /** The quote occurs, and in double quotes not behind an odd number of backslashes. */
  predicate ClosedBy(quote: byte, rest: Bytes) {
    exists k | 0 <= k < |rest| :: rest[k] == quote && (quote == DOUBLE_QUOTE ==> !OddBackslashes(rest[..k]))
  }

  predicate ClosedFrom(quote: byte, rest: Bytes, from: nat) {
    exists k | from <= k < |rest| :: rest[k] == quote && (quote == DOUBLE_QUOTE ==> !OddBackslashes(rest[..k]))
  }

  lemma OneMoreByte(line: Bytes, b: byte)
    ensures OddBackslashes(line + [b]) <==> b == BACKSLASH && !OddBackslashes(line)
  {
    assert (line + [b])[..|line|] == line;
  }

  lemma {:induction false} ClosesFrom(quote: byte, rest: Bytes, i: nat)
    requires i <= |rest|
    ensures Closes(quote, rest[i..], quote == DOUBLE_QUOTE && OddBackslashes(rest[..i])) <==> ClosedFrom(quote, rest, i)
    decreases |rest| - i
  {
    if i < |rest| {
      hide OddBackslashes;
      assert rest[i..][0] == rest[i] && rest[i..][1..] == rest[i + 1..];
      assert rest[..i + 1] == rest[..i] + [rest[i]];
      OneMoreByte(rest[..i], rest[i]);
      ClosesFrom(quote, rest, i + 1);
      assert ClosedFrom(quote, rest, i) <==>
             (rest[i] == quote && (quote == DOUBLE_QUOTE ==> !OddBackslashes(rest[..i]))) || ClosedFrom(quote, rest, i + 1);
    }
  }

  /** When a quoted value ends, whatever its quote. */
  lemma ClosesExactly(quote: byte, rest: Bytes)
    ensures Closes(quote, rest, false) <==> ClosedBy(quote, rest)
  {
    assert rest[0..] == rest && rest[..0] == [];
    assert !OddBackslashes([]);
    ClosesFrom(quote, rest, 0);
  }

  function Backslashes(n: nat): Bytes {
    seq(n, _ => BACKSLASH)
  }

  /** What counts is the run of backslashes at the very end. */
  lemma {:induction false} OddRun(head: Bytes, n: nat)
    requires head != [] ==> head[|head| - 1] != BACKSLASH
    ensures OddBackslashes(head + Backslashes(n)) <==> n % 2 == 1
  {
    if n == 0 {
      assert head + Backslashes(0) == head;
    } else {
      assert head + Backslashes(n) == head + Backslashes(n - 1) + [BACKSLASH];
      OneMoreByte(head + Backslashes(n - 1), BACKSLASH);
      OddRun(head, n - 1);
    }
  }

  predicate Blank(bytes: Bytes) {
    forall b <- bytes :: IsSpace(b)
  }

  lemma {:induction false} TrimBlanks(blanks: Bytes, rest: Bytes)
    requires Blank(blanks) && (rest != [] ==> !IsSpace(rest[0]))
    ensures TrimAsciiStart(blanks + rest) == rest
  {
    if blanks == [] {
      assert blanks + rest == rest;
    } else {
      assert (blanks + rest)[0] == blanks[0] && (blanks + rest)[1..] == blanks[1..] + rest;
      TrimBlanks(blanks[1..], rest);
    }
  }

  lemma {:induction false} FirstIndex(b: byte, before: Bytes, after: Bytes)
    requires b !in before
    ensures IndexOf(b, before + [b] + after) == Some(|before|)
    ensures IndexOf(b, before) == None
  {
    if before == [] {
      assert before + [b] + after == [b] + after;
    } else {
      assert (before + [b] + after)[1..] == before[1..] + [b] + after;
      FirstIndex(b, before[1..], after);
    }
  }

  /**
   An assignment, wherever its blanks are: a comment or a line without an equals
   sign opens nothing; a quoted value stays open until its quote is closed; any
   other value is continued exactly by an odd number of backslashes.
   */
  lemma AssignmentOpens(indent: Bytes, name: Bytes, gap: Bytes, value: Bytes)
    requires Blank(indent) && Blank(gap) && EQUALS !in name
    requires (name != [] ==> !IsSpace(name[0])) && (value != [] ==> !IsSpace(value[0]))
    ensures AfterAssignment(indent + name) == None
    ensures AfterAssignment(indent + (name + [EQUALS] + (gap + value))) ==
            if IsComment(name) then None
            else if value != [] && (value[0] == SINGLE_QUOTE || value[0] == DOUBLE_QUOTE) then
              if ClosedBy(value[0], value[1..]) then None else Some(value[0])
            else if OddBackslashes(value) then Some(BACKSLASH)
            else None
  {
    hide TrimAsciiStart, IndexOf, OddBackslashes, Closes, ClosedBy;
    var line := name + [EQUALS] + (gap + value);
    TrimBlanks(indent, line);
    TrimBlanks(indent, name);
    FirstIndex(EQUALS, name, gap + value);
    assert line[|name| + 1..] == gap + value;
    TrimBlanks(gap, value);
    if value != [] {
      ClosesExactly(value[0], value[1..]);
    }
  }

  /** A line within a value goes on as its quote, or its last backslashes, say; a final carriage return is no part of it. */
  lemma LineGoesOn(open: Open, line: Bytes)
    requires line != [] ==> line[|line| - 1] != RETURN
    ensures AfterLine(open, line + [RETURN]) == AfterLine(open, line)
    ensures AfterLine(open, line) ==
            match open
            case None => AfterAssignment(line)
            case Some(quote) =>
              if quote == BACKSLASH then if OddBackslashes(line) then Some(BACKSLASH) else None
              else if ClosedBy(quote, line) then None
              else Some(quote)
  {
    hide AfterAssignment, OddBackslashes, Closes, ClosedBy;
    assert (line + [RETURN])[..|line|] == line;
    if open.Some? {
      ClosesExactly(open.value, line);
    }
  }

  method ScanQuote(quote: byte, rest: Bytes) returns (open: Open)
    ensures open == if ClosedBy(quote, rest) then None else Some(quote)
    ensures open == AfterQuote(quote, rest)
  {
    ClosesExactly(quote, rest);
    open := Some(quote);
    var escaped := false;
    var i := 0;
    assert rest[0..] == rest;
    while i < |rest|
      invariant 0 <= i <= |rest| && open == Some(quote)
      invariant Closes(quote, rest, false) == Closes(quote, rest[i..], escaped)
    {
      assert rest[i..][1..] == rest[i + 1..];
      if escaped {
        escaped := false;
      } else if quote == DOUBLE_QUOTE && rest[i] == BACKSLASH {
        escaped := true;
      } else if rest[i] == quote {
        open := None;
        return;
      }
      i := i + 1;
    }
  }

  /** One physical line of the loop below. */
  method ScanLine(before: Open, physical: Bytes) returns (open: Open)
    ensures open == AfterLine(before, physical)
  {
    open := before;
    var line := StripLast(physical, RETURN);
    if open == Some(BACKSLASH) {
      open := if OddBackslashes(line) then Some(BACKSLASH) else None;
    } else if open.Some? {
      open := ScanQuote(open.value, line);
    } else {
      var trimmed := TrimAsciiStart(line);
      var index := IndexOf(EQUALS, trimmed);
      if index.Some? && !IsComment(trimmed) {
        var value := TrimAsciiStart(trimmed[index.value + 1..]);
        if value != [] && (value[0] == SINGLE_QUOTE || value[0] == DOUBLE_QUOTE) {
          open := ScanQuote(value[0], value[1..]);
        } else {
          open := if OddBackslashes(value) then Some(BACKSLASH) else None;
        }
      }
    }
  }

  lemma LinesLast(open: Open, lines: seq<Bytes>, line: Bytes)
    ensures AfterLines(open, lines + [line]) == AfterLine(AfterLines(open, lines), line)
    ensures Starts(open, lines + [line]) == Starts(open, lines) + [AfterLines(open, lines).None?]
  {
    LinesAppend(open, lines, [line]);
    assert [line][1..] == [];
  }

  /** For each physical line, whether an assignment starts there; nothing if the file ends inside a value. */
  method AssignmentStarts(bytes: Bytes) returns (r: Option<seq<bool>>)
    ensures r == if AfterLines(None, Split(bytes)).None? then Some(Starts(None, Split(bytes))) else None
  {
    var lines := Split(bytes);
    var open: Open := None;
    var starts: seq<bool> := [];
    for i := 0 to |lines|
      invariant open == AfterLines(None, lines[..i])
      invariant starts == Starts(None, lines[..i])
    {
      LinesLast(None, lines[..i], lines[i]);
      assert lines[..i + 1] == lines[..i] + [lines[i]];
      starts := starts + [open.None?];
      open := ScanLine(open, lines[i]);
    }
    assert lines[..|lines|] == lines;
    return if open.None? then Some(starts) else None;
  }

  // ---- Reading the mode -----------------------------------------------------------------

  /** Whether the reader must look at a line: it names the setting and is no comment. */
  predicate Relevant(line: Bytes, starts: bool) {
    Contains(line, MODE_NAME) && !(starts && IsComment(TrimAsciiStart(line)))
  }

  predicate IsKeyLine(line: Bytes) {
    MODE_KEY <= line
  }

  /** The only spelling the reader accepts. */
  function LineMode(line: Bytes, starts: bool): Option<Mode> {
    if !starts then None
    else if line == ModeLine(Off) then Some(Off)
    else if line == ModeLine(Shadow) then Some(Shadow)
    else if line == ModeLine(Primary) then Some(Primary)
    else None
  }

  function ReadLine(line: Bytes, starts: bool, value: Option<Mode>): Result<Option<Mode>, EnvError> {
    if !Relevant(line, starts) then Success(value)
    else
      var mode := LineMode(line, starts);
      if mode.None? then Failure(NonCanonical)
      else if value.Some? then Failure(Duplicate)
      else Success(mode)
  }

  function ReadLines(open: Open, lines: seq<Bytes>, value: Option<Mode>): Result<Option<Mode>, EnvError>
    decreases |lines|
  {
    if lines == [] then Success(value)
    else
      var next :- ReadLine(lines[0], open.None?, value);
      ReadLines(AfterLine(open, lines[0]), lines[1..], next)
  }

  function ModeOf(lines: seq<Bytes>): Result<Mode, EnvError> {
    if AfterLines(None, lines).Some? then Failure(EndsInsideValue)
    else
      var value :- ReadLines(None, lines, None);
      Success(if value.Some? then value.value else Off)
  }

  /** The mode as Core receives it, or a refusal of every spelling that could be read differently. */
  function ModeIn(bytes: Bytes): Result<Mode, EnvError> {
    ModeOf(Split(bytes))
  }

  method ReadMode(bytes: Bytes) returns (r: Result<Mode, EnvError>)
    ensures r == ModeIn(bytes)
  {
    var starts := AssignmentStarts(bytes);
    if starts.None? {
      return Failure(EndsInsideValue);
    }
    var lines := Split(bytes);
    var value: Option<Mode> := None;
    ghost var open: Open := None;
    var i := 0;
    assert lines[0..] == lines && starts.value[0..] == starts.value;
    while i < |lines|
      invariant 0 <= i <= |lines|
      invariant starts.value[i..] == Starts(open, lines[i..])
      invariant ReadLines(None, lines, None) == ReadLines(open, lines[i..], value)
    {
      assert lines[i..][0] == lines[i] && lines[i..][1..] == lines[i + 1..];
      assert starts.value[i] == starts.value[i..][0] && starts.value[i..][1..] == starts.value[i + 1..];
      if Relevant(lines[i], starts.value[i]) {
        var mode := LineMode(lines[i], starts.value[i]);
        if mode.None? {
          return Failure(NonCanonical);
        }
        if value.Some? {
          return Failure(Duplicate);
        }
        value := mode;
      }
      open := AfterLine(open, lines[i]);
      i := i + 1;
    }
    return Success(if value.Some? then value.value else Off);
  }

  /** The only relevant line, and it is the line of `mode`. */
  ghost predicate OnlyAt(open: Open, lines: seq<Bytes>, k: nat, mode: Mode) {
    && k < |lines| && Relevant(lines[k], Starts(open, lines)[k]) && LineMode(lines[k], Starts(open, lines)[k]) == Some(mode)
    && (forall j | 0 <= j < |lines| && j != k :: !Relevant(lines[j], Starts(open, lines)[j]))
  }

  ghost predicate NoneRelevant(open: Open, lines: seq<Bytes>) {
    forall j | 0 <= j < |lines| :: !Relevant(lines[j], Starts(open, lines)[j])
  }

  lemma StartsTail(open: Open, lines: seq<Bytes>)
    requires lines != []
    ensures Starts(open, lines)[0] == open.None?
    ensures forall k | 0 < k < |lines| :: Starts(open, lines)[k] == Starts(AfterLine(open, lines[0]), lines[1..])[k - 1]
  {
  }

  ghost predicate NonCanonicalAt(open: Open, lines: seq<Bytes>, k: nat) {
    k < |lines| && Relevant(lines[k], Starts(open, lines)[k]) && LineMode(lines[k], Starts(open, lines)[k]).None?
  }

  ghost predicate RelevantTwice(open: Open, lines: seq<Bytes>, i: nat, j: nat) {
    i < j < |lines| && Relevant(lines[i], Starts(open, lines)[i]) && Relevant(lines[j], Starts(open, lines)[j])
  }

  ghost predicate RelevantAt(open: Open, lines: seq<Bytes>, k: nat) {
    k < |lines| && Relevant(lines[k], Starts(open, lines)[k])
  }

  /** What each answer of the reader tells about the lines. */
  ghost predicate ReadTells(open: Open, lines: seq<Bytes>, value: Option<Mode>, r: Result<Option<Mode>, EnvError>) {
    match r
    case Success(v) =>
      (NoneRelevant(open, lines) && v == value) || (value.None? && v.Some? && exists k :: OnlyAt(open, lines, k, v.value))
    case Failure(e) =>
      || (e == NonCanonical && exists k :: NonCanonicalAt(open, lines, k))
      || (e == Duplicate && value.Some? && exists k :: RelevantAt(open, lines, k))
      || (e == Duplicate && exists i, j :: RelevantTwice(open, lines, i, j))
  }

  /** The answer for a list from that for its tail. */
  lemma TellsNext(open: Open, lines: seq<Bytes>, value: Option<Mode>, next: Option<Mode>, r: Result<Option<Mode>, EnvError>)
    requires lines != [] && ReadLine(lines[0], open.None?, value) == Success(next)
    requires ReadTells(AfterLine(open, lines[0]), lines[1..], next, r)
    ensures ReadTells(open, lines, value, r)
  {
    hide Starts, AfterLine, Relevant, LineMode;
    var after, tail := AfterLine(open, lines[0]), lines[1..];
    StartsTail(open, lines);
    assert forall k | 0 <= k < |tail| :: Starts(open, lines)[k + 1] == Starts(after, tail)[k] && lines[k + 1] == tail[k];
    match r {
      case Success(v) =>
        if NoneRelevant(after, tail) && v == next {
          forall j | 0 < j < |lines| ensures !Relevant(lines[j], Starts(open, lines)[j]) {
            assert !Relevant(tail[j - 1], Starts(after, tail)[j - 1]);
          }
          if Relevant(lines[0], open.None?) {
            assert OnlyAt(open, lines, 0, v.value);
          }
        } else {
          var k: nat :| OnlyAt(after, tail, k, v.value);
          forall j | 0 <= j < |lines| && j != k + 1 ensures !Relevant(lines[j], Starts(open, lines)[j]) {
            if j > 0 {
              assert !Relevant(tail[j - 1], Starts(after, tail)[j - 1]);
            }
          }
          assert OnlyAt(open, lines, k + 1, v.value);
        }
      case Failure(e) =>
        if e == NonCanonical {
          var k: nat :| NonCanonicalAt(after, tail, k);
          assert NonCanonicalAt(open, lines, k + 1);
        } else if i: nat, j: nat :| RelevantTwice(after, tail, i, j) {
          assert RelevantTwice(open, lines, i + 1, j + 1);
        } else {
          var k: nat :| RelevantAt(after, tail, k);
          assert RelevantAt(open, lines, k + 1);
          if value.None? {
            assert RelevantTwice(open, lines, 0, k + 1);
          }
        }
    }
  }

  lemma {:induction false} ReadLinesTell(open: Open, lines: seq<Bytes>, value: Option<Mode>)
    ensures ReadTells(open, lines, value, ReadLines(open, lines, value))
    decreases |lines|
  {
    if lines != [] {
      hide ReadTells, Relevant, LineMode, AfterLine;
      var next := ReadLine(lines[0], open.None?, value);
      if next.Success? {
        ReadLinesTell(AfterLine(open, lines[0]), lines[1..], next.value);
        TellsNext(open, lines, value, next.value, ReadLines(AfterLine(open, lines[0]), lines[1..], next.value));
      } else {
        FirstRefused(open, lines, value);
      }
    }
  }

  lemma FirstRefused(open: Open, lines: seq<Bytes>, value: Option<Mode>)
    requires lines != [] && ReadLine(lines[0], open.None?, value).Failure?
    ensures ReadTells(open, lines, value, Failure(ReadLine(lines[0], open.None?, value).error))
  {
    hide Starts, Relevant, LineMode;
    StartsTail(open, lines);
    assert RelevantAt(open, lines, 0);
    assert LineMode(lines[0], open.None?).None? ==> NonCanonicalAt(open, lines, 0);
  }

  /**
   A file is accepted as `mode` exactly when no value is open at its end and
   either one line alone names the setting, outside comments, and is that mode's
   line where an assignment starts, or none does and the mode is off. Every
   refusal names a line, or two, that keep it from that.
   */
  lemma AcceptedExactly(bytes: Bytes, mode: Mode)
    ensures var lines := Split(bytes);
            && (ModeIn(bytes) == Success(mode) <==>
                  && AfterLines(None, lines).None?
                  && ((mode == Off && NoneRelevant(None, lines)) || exists k :: OnlyAt(None, lines, k, mode)))
            && (ModeIn(bytes) == Failure(EndsInsideValue) <==> AfterLines(None, lines).Some?)
            && (ModeIn(bytes) == Failure(NonCanonical) ==> exists k :: NonCanonicalAt(None, lines, k))
            && (ModeIn(bytes) == Failure(Duplicate) ==> exists i, j :: RelevantTwice(None, lines, i, j))
  {
    hide Relevant, LineMode, Starts, ReadLines, AfterLines;
    ReadLinesTell(None, Split(bytes), None);
  }

  function Ascii(s: string): Bytes {
    seq(|s|, i requires 0 <= i < |s| => if s[i] < 128 as char then s[i] as byte else 0)
  }

  /** The setting and its values, spelled out. */
  lemma Spelling()
    ensures MODE_KEY == Ascii("JARVIS_LAYA_MODE=")
    ensures Name(Off) == Ascii("off") && Name(Shadow) == Ascii("shadow") && Name(Primary) == Ascii("primary")
    ensures forall b: byte :: IsSpace(b) <==> b in [9, 10, 12, 13, 32]
    ensures [HASH, SEMICOLON, EQUALS, BACKSLASH, SINGLE_QUOTE, DOUBLE_QUOTE] == Ascii("#;=\\\'\"")
  {
  }

  // ---- Rewriting the mode ---------------------------------------------------------------

  function Replaced(line: Bytes, mode: Mode): Bytes {
    if IsKeyLine(line) then ModeLine(mode) else line
  }

  function ReplaceAll(lines: seq<Bytes>, mode: Mode): (r: seq<Bytes>)
    ensures |r| == |lines|
  {
    if lines == [] then [] else [Replaced(lines[0], mode)] + ReplaceAll(lines[1..], mode)
  }

  predicate HasKeyLine(lines: seq<Bytes>) {
    exists k | 0 <= k < |lines| :: IsKeyLine(lines[k])
  }

  /** The lines up to a final empty one. */
  function Body(lines: seq<Bytes>): seq<Bytes>
    requires lines != []
  {
    if lines[|lines| - 1] == [] then lines[..|lines| - 1] else lines
  }

  /** The edit on physical lines: replace every key line, or append one. */
  function Edited(lines: seq<Bytes>, mode: Mode): (r: seq<Bytes>)
    requires lines != []
    ensures r != []
  {
    if HasKeyLine(lines) then ReplaceAll(lines, mode) else Body(lines) + [ModeLine(mode), []]
  }

  function WithMode(bytes: Bytes, mode: Mode): Bytes {
    Join(Edited(Split(bytes), mode), NEWLINE)
  }

  lemma {:induction false} ReplaceAppend(a: seq<Bytes>, b: seq<Bytes>, mode: Mode)
    ensures ReplaceAll(a + b, mode) == ReplaceAll(a, mode) + ReplaceAll(b, mode)
  {
    if a == [] {
      assert a + b == b;
    } else {
      assert (a + b)[1..] == a[1..] + b;
      ReplaceAppend(a[1..], b, mode);
    }
  }

  lemma {:induction false} ReplaceNothing(lines: seq<Bytes>, mode: Mode)
    requires !HasKeyLine(lines)
    ensures ReplaceAll(lines, mode) == lines
  {
    if lines != [] {
      assert !IsKeyLine(lines[0]);
      forall k | 0 <= k < |lines[1..]| ensures !IsKeyLine(lines[1..][k]) {
        assert lines[1..][k] == lines[k + 1];
      }
      ReplaceNothing(lines[1..], mode);
    }
  }

  /** The writer's loop: copy line by line, replacing key lines. */
  method CopyLines(lines: seq<Bytes>, mode: Mode) returns (output: Bytes, replaced: bool)
    ensures output == Copied(lines, mode)
    ensures replaced <==> HasKeyLine(lines)
  {
    hide Copied, HasKeyLine, IsKeyLine;
    NothingCopied(mode);
    output, replaced := [], false;
    for i := 0 to |lines|
      invariant output == Copied(lines[..i], mode)
      invariant replaced <==> HasKeyLine(lines[..i])
    {
      CopyNext(lines[..i], lines[i], mode);
      assert lines[..i + 1] == lines[..i] + [lines[i]];
      KeyLineLast(lines[..i], lines[i]);
      if i > 0 {
        output := output + [NEWLINE];
      }
      if IsKeyLine(lines[i]) {
        output := output + ModeLine(mode);
        replaced := true;
      } else {
        output := output + lines[i];
      }
    }
    assert lines[..|lines|] == lines;
  }

  /** The writer: the copy, with the mode line appended if nothing was replaced. */
  method WriteMode(bytes: Bytes, mode: Mode) returns (output: Bytes)
    ensures output == WithMode(bytes, mode)
  {
    var line := ModeLine(mode);
    var replaced;
    output, replaced := CopyLines(Split(bytes), mode);
    if !replaced {
      SplitLines(bytes);
      ReplaceNothing(Split(bytes), mode);
      AppendedLine(bytes, mode);
      if output != [] && output[|output| - 1] != NEWLINE {
        output := output + [NEWLINE];
      }
      output := output + line + [NEWLINE];
    }
  }

  function Copied(lines: seq<Bytes>, mode: Mode): Bytes {
    if lines == [] then [] else Join(ReplaceAll(lines, mode), NEWLINE)
  }

  lemma NothingCopied(mode: Mode)
    ensures Copied([], mode) == [] && !HasKeyLine([])
  {
  }

  lemma CopyNext(lines: seq<Bytes>, line: Bytes, mode: Mode)
    ensures Copied(lines + [line], mode) ==
            Copied(lines, mode) + (if lines == [] then [] else [NEWLINE]) + Replaced(line, mode)
  {
    ReplaceAppend(lines, [line], mode);
    assert ReplaceAll([line], mode) == [Replaced(line, mode)];
    if lines == [] {
      assert [] + [Replaced(line, mode)] == [Replaced(line, mode)];
    } else {
      JoinAppend(ReplaceAll(lines, mode), [Replaced(line, mode)], NEWLINE);
    }
  }

  lemma KeyLineLast(lines: seq<Bytes>, line: Bytes)
    ensures HasKeyLine(lines + [line]) <==> HasKeyLine(lines) || IsKeyLine(line)
  {
    var all := lines + [line];
    if HasKeyLine(lines) {
      var k :| 0 <= k < |lines| && IsKeyLine(lines[k]);
      assert IsKeyLine(all[k]);
    }
    if IsKeyLine(line) {
      assert IsKeyLine(all[|lines|]);
    }
  }

  lemma JoinAppended(body: seq<Bytes>, line: Bytes)
    ensures Join(body + [line, []], NEWLINE) == (if body == [] then [] else Join(body, NEWLINE) + [NEWLINE]) + line + [NEWLINE]
  {
    assert [line, []][1..] == [[]];
    assert Join([line, []], NEWLINE) == line + [NEWLINE] + [];
    if body == [] {
      assert body + [line, []] == [line, []];
    } else {
      JoinAppend(body, [line, []], NEWLINE);
    }
  }

  /** A file as its body, and a newline exactly if its last line is empty. */
  lemma BodyBytes(bytes: Bytes)
    ensures var lines := Split(bytes);
            && (lines[|lines| - 1] == [] <==> bytes == [] || bytes[|bytes| - 1] == NEWLINE)
            && (lines[|lines| - 1] != [] ==> bytes == Join(Body(lines), NEWLINE))
            && (lines[|lines| - 1] == [] ==> bytes == if Body(lines) == [] then [] else Join(Body(lines), NEWLINE) + [NEWLINE])
  {
    var lines := Split(bytes);
    var last := lines[|lines| - 1];
    SplitLines(bytes);
    if |lines| > 1 {
      var init := lines[..|lines| - 1];
      assert lines == init + [last];
      JoinLast(init, last, NEWLINE);
    }
    if last != [] {
      assert bytes[|bytes| - 1] == last[|last| - 1];
      assert NoNewline(last);
    }
  }

  /** Appending in lines is appending in bytes, after a newline if one is missing. */
  lemma AppendedLine(bytes: Bytes, mode: Mode)
    ensures var line := ModeLine(mode);
            Join(Body(Split(bytes)) + [line, []], NEWLINE) ==
            (if bytes != [] && bytes[|bytes| - 1] != NEWLINE then bytes + [NEWLINE] else bytes) + line + [NEWLINE]
  {
    BodyBytes(bytes);
    JoinAppended(Body(Split(bytes)), ModeLine(mode));
  }

  // ---- A canonical line ------------------------------------------------------------------

  /** Upper and lower case letters, underscore and the equals sign. */
  predicate IsPlain(b: byte) {
    65 <= b <= 90 || b == 95 || 97 <= b <= 122 || b == EQUALS
  }

  lemma ModeLineIsPlain(mode: Mode)
    ensures forall k | 0 <= k < |ModeLine(mode)| :: IsPlain(ModeLine(mode)[k])
    ensures ModeLine(mode)[0] == 74
  {
    assert forall k | 0 <= k < |MODE_NAME| :: IsPlain(MODE_NAME[k]);
    assert forall k | 0 <= k < |Name(mode)| :: IsPlain(Name(mode)[k]);
  }

  lemma PlainLine(line: Bytes)
    requires line != [] && forall k | 0 <= k < |line| :: IsPlain(line[k])
    ensures StripLast(line, RETURN) == line && TrimAsciiStart(line) == line && !OddBackslashes(line) && NoNewline(line)
    ensures !IsComment(line)
  {
    assert IsPlain(line[0]) && IsPlain(line[|line| - 1]);
  }

  lemma PlainLineIsComplete(line: Bytes)
    requires line != [] && forall k | 0 <= k < |line| :: IsPlain(line[k])
    ensures AfterAssignment(line) == None
  {
    PlainLine(line);
    var index := IndexOf(EQUALS, line);
    if index.Some? {
      var rest := line[index.value + 1..];
      TrimStartSuffix(rest);
      if TrimAsciiStart(rest) != [] {
        PlainSuffix(line, |line| - |TrimAsciiStart(rest)|);
        PlainLine(TrimAsciiStart(rest));
      }
    }
  }

  lemma PlainSuffix(line: Bytes, from: nat)
    requires from < |line| && forall k | 0 <= k < |line| :: IsPlain(line[k])
    ensures forall k | 0 <= k < |line[from..]| :: IsPlain(line[from..][k])
    ensures line[from..][0] != SINGLE_QUOTE && line[from..][0] != DOUBLE_QUOTE
  {
    assert IsPlain(line[from]);
  }

  /** The mode line opens nothing, neither where a line can start an assignment nor as a continuation. */
  lemma ModeLineIsComplete(mode: Mode)
    ensures NoNewline(ModeLine(mode)) && IsKeyLine(ModeLine(mode))
    ensures AfterLine(None, ModeLine(mode)) == None
    ensures AfterLine(Some(BACKSLASH), ModeLine(mode)) == None
  {
    ModeLineIsPlain(mode);
    PlainLine(ModeLine(mode));
    PlainLineIsComplete(ModeLine(mode));
  }

  lemma ModeLineReads(mode: Mode)
    ensures LineMode(ModeLine(mode), true) == Some(mode)
  {
    assert |ModeLine(Off)| == 20 && |ModeLine(Shadow)| == 23 && |ModeLine(Primary)| == 24;
  }

  lemma {:induction false} TrimStartSuffix(line: Bytes)
    ensures var t := TrimAsciiStart(line); |t| <= |line| && t == line[|line| - |t|..]
  {
    if line != [] && IsSpace(line[0]) {
      TrimStartSuffix(line[1..]);
    }
  }

  /** A key line is never overlooked, and is accepted only where it reads as a mode. */
  lemma KeyLineIsRelevant(line: Bytes, starts: bool)
    requires IsKeyLine(line)
    ensures Relevant(line, starts)
    ensures LineMode(line, starts).Some? ==> starts && line == ModeLine(LineMode(line, starts).value)
  {
    assert line[..|MODE_NAME|] == MODE_NAME;
    assert line[0] == 74;
  }

  lemma AcceptedLineIsKeyLine(line: Bytes, starts: bool)
    requires LineMode(line, starts).Some?
    ensures IsKeyLine(line)
  {
  }

  // ---- Reading back what was written --------------------------------------------------------

  lemma {:induction false} ReadAppend(open: Open, a: seq<Bytes>, b: seq<Bytes>, value: Option<Mode>)
    ensures ReadLines(open, a + b, value) ==
            var mid := ReadLines(open, a, value);
            if mid.Failure? then mid else ReadLines(AfterLines(open, a), b, mid.value)
    decreases |a|
  {
    if a == [] {
      assert a + b == b;
    } else {
      assert (a + b)[1..] == a[1..] + b;
      var next := ReadLine(a[0], open.None?, value);
      if next.Success? {
        ReadAppend(AfterLine(open, a[0]), a[1..], b, next.value);
      }
    }
  }

  lemma NoKeyTail(lines: seq<Bytes>)
    requires lines != []
    ensures HasKeyLine(lines) <==> IsKeyLine(lines[0]) || HasKeyLine(lines[1..])
  {
    if HasKeyLine(lines) && !IsKeyLine(lines[0]) {
      var k :| 0 <= k < |lines| && IsKeyLine(lines[k]);
      assert IsKeyLine(lines[1..][k - 1]);
    }
    if HasKeyLine(lines[1..]) {
      var k :| 0 <= k < |lines[1..]| && IsKeyLine(lines[1..][k]);
      assert IsKeyLine(lines[k + 1]);
    }
  }

  /** In accepted lines only key lines matter: there is none left to see, so any value passes through. */
  lemma {:induction false} ReadWithoutKey(open: Open, lines: seq<Bytes>, value: Option<Mode>, other: Option<Mode>)
    requires !HasKeyLine(lines) && ReadLines(open, lines, value).Success?
    ensures ReadLines(open, lines, other) == Success(other)
    decreases |lines|
  {
    if lines != [] {
      NoKeyTail(lines);
      if Relevant(lines[0], open.None?) {
        AcceptedLineIsKeyLine(lines[0], open.None?);
      }
      ReadWithoutKey(AfterLine(open, lines[0]), lines[1..], value, other);
    }
  }

  /** Once a mode was read, accepted lines hold no further key line. */
  lemma {:induction false} ReadOnce(open: Open, lines: seq<Bytes>, mode: Mode)
    requires ReadLines(open, lines, Some(mode)).Success?
    ensures !HasKeyLine(lines)
    decreases |lines|
  {
    if lines != [] {
      NoKeyTail(lines);
      if IsKeyLine(lines[0]) {
        KeyLineIsRelevant(lines[0], open.None?);
      }
      ReadOnce(AfterLine(open, lines[0]), lines[1..], mode);
    }
  }

  /** The mode was read, and writing it again would change nothing. */
  ghost predicate ReadsAndKeeps(open: Open, lines: seq<Bytes>) {
    exists m :: ReadLines(open, lines, None) == Success(Some(m)) && ReplaceAll(lines, m) == lines
  }

  /** The key line itself, when it comes first. */
  lemma FirstLineReplaced(open: Open, lines: seq<Bytes>, mode: Mode)
    requires lines != [] && IsKeyLine(lines[0]) && ReadLines(open, lines, None).Success?
    ensures ReplaceAll(lines, mode) == [ModeLine(mode)] + lines[1..]
    ensures ReadLines(open, ReplaceAll(lines, mode), None) == Success(Some(mode))
    ensures open.None? && AfterLine(None, ModeLine(mode)) == AfterLine(None, lines[0])
    ensures ReadsAndKeeps(open, lines)
  {
    var head, tail := lines[0], lines[1..];
    KeyLineIsRelevant(head, open.None?);
    var found := LineMode(head, true).value;
    KeyLineIsRelevant(ModeLine(mode), true);
    ModeLineReads(mode);
    ModeLineIsComplete(mode);
    ModeLineIsComplete(found);
    ReadOnce(None, tail, found);
    ReplaceNothing(tail, mode);
    ReplaceNothing(tail, found);
    ReadWithoutKey(None, tail, Some(found), Some(mode));
    ReadWithoutKey(None, tail, Some(found), Some(found));
    assert ([ModeLine(mode)] + tail)[1..] == tail;
    assert lines == [head] + tail;
    assert ReadLines(open, lines, None) == Success(Some(found)) && ReplaceAll(lines, found) == lines;
  }

  /** Replacing the one accepted key line changes no state of the grammar and is read back. */
  lemma {:induction false} ReplacedReads(open: Open, lines: seq<Bytes>, mode: Mode)
    requires HasKeyLine(lines) && ReadLines(open, lines, None).Success?
    ensures ReadLines(open, ReplaceAll(lines, mode), None) == Success(Some(mode))
    ensures AfterLines(open, ReplaceAll(lines, mode)) == AfterLines(open, lines)
    ensures Starts(open, ReplaceAll(lines, mode)) == Starts(open, lines)
    ensures ReadsAndKeeps(open, lines)
    decreases |lines|
  {
    NoKeyTail(lines);
    var head, tail := lines[0], lines[1..];
    assert ReplaceAll(lines, mode)[1..] == ReplaceAll(tail, mode);
    if IsKeyLine(head) {
      FirstLineReplaced(open, lines, mode);
      assert ([ModeLine(mode)] + tail)[1..] == tail;
    } else {
      if Relevant(head, open.None?) {
        AcceptedLineIsKeyLine(head, open.None?);
      }
      ReplacedReads(AfterLine(open, head), tail, mode);
      var m :| ReadLines(AfterLine(open, head), tail, None) == Success(Some(m)) && ReplaceAll(tail, m) == tail;
      assert lines == [head] + tail;
      assert ReadLines(open, lines, None) == Success(Some(m)) && ReplaceAll(lines, m) == lines;
    }
  }

  /**
   Where an appended line would go, an assignment can start: there is a line to
   replace, the file does not end in a newline, or its final, empty line starts
   an assignment.
   */
  predicate Appendable(bytes: Bytes) {
    var lines := Split(bytes);
    HasKeyLine(lines) || lines[|lines| - 1] != [] || Starts(None, lines)[|lines| - 1]
  }

  /** An empty line ends a continuation, but no quoted value. */
  lemma EmptyLineState(open: Open)
    ensures AfterLine(open, []).None? <==> open == None || open == Some(BACKSLASH)
  {
  }

  lemma BodyState(lines: seq<Bytes>)
    requires lines != [] && AfterLines(None, lines).None?
    ensures lines[|lines| - 1] == [] ==> Starts(None, lines)[|lines| - 1] == AfterLines(None, Body(lines)).None?
    ensures AfterLines(None, Body(lines)) == None || AfterLines(None, Body(lines)) == Some(BACKSLASH)
    ensures lines[|lines| - 1] != [] ==> AfterLines(None, Body(lines)).None?
  {
    var last := |lines| - 1;
    if lines[last] == [] {
      assert lines == lines[..last] + [[]];
      LinesLast(None, lines[..last], []);
      EmptyLineState(AfterLines(None, lines[..last]));
    }
  }

  lemma AppendedReads(lines: seq<Bytes>, mode: Mode)
    requires lines != [] && !HasKeyLine(lines) && ModeOf(lines).Success?
    ensures ModeOf(Body(lines) + [ModeLine(mode), []]) ==
            if AfterLines(None, Body(lines)).None? then Success(mode) else Failure(NonCanonical)
  {
    var body := Body(lines);
    var open := AfterLines(None, body);
    BodyState(lines);
    BodyReads(lines);
    TwoLines(open, mode);
    LinesAppend(None, body, [ModeLine(mode), []]);
    ReadAppend(None, body, [ModeLine(mode), []], None);
  }

  lemma TwoLines(open: Open, mode: Mode)
    requires open == None || open == Some(BACKSLASH)
    ensures AfterLines(open, [ModeLine(mode), []]) == None
    ensures ReadLines(open, [ModeLine(mode), []], None) ==
            if open.None? then Success(Some(mode)) else Failure(NonCanonical)
  {
    ModeLineIsComplete(mode);
    ModeLineReads(mode);
    KeyLineIsRelevant(ModeLine(mode), open.None?);
    EmptyLine();
    assert [ModeLine(mode), []][1..] == [[]];
    assert AfterLines(None, [[]]) == None;
    assert ReadLines(None, [[]], Some(mode)) == Success(Some(mode));
  }

  lemma BodyReads(lines: seq<Bytes>)
    requires lines != [] && !HasKeyLine(lines) && ReadLines(None, lines, None).Success?
    ensures ReadLines(None, Body(lines), None) == Success(None)
  {
    ReadWithoutKey(None, lines, None, None);
    if lines[|lines| - 1] == [] {
      assert lines == Body(lines) + [[]];
      ReadAppend(None, Body(lines), [[]], None);
      BodyWithoutKey(lines);
      ReadWithoutKey(None, Body(lines), None, None);
    }
  }

  lemma EmptyLine()
    ensures AfterLine(None, []) == None
    ensures forall starts, value :: ReadLine([], starts, value) == Success(value)
  {
  }

  /**
   Editing an accepted file and reading it back gives the new mode exactly when
   the file is `Appendable`. Otherwise the appended line is swallowed by the
   continuation before it, and the edited file is refused.
   */
  lemma ReadBack(bytes: Bytes, mode: Mode)
    requires ModeIn(bytes).Success?
    ensures ModeIn(WithMode(bytes, mode)) == if Appendable(bytes) then Success(mode) else Failure(NonCanonical)
  {
    var lines := Split(bytes);
    EditedLines(bytes, mode);
    if HasKeyLine(lines) {
      ReplacedReads(None, lines, mode);
    } else {
      BodyState(lines);
      AppendedReads(lines, mode);
    }
  }

  /** The edited file splits into the edited lines. */
  lemma EditedLines(bytes: Bytes, mode: Mode)
    ensures Split(WithMode(bytes, mode)) == Edited(Split(bytes), mode)
  {
    var lines := Split(bytes);
    SplitLines(bytes);
    ModeLineIsComplete(mode);
    ReplaceKeepsLines(lines, mode);
    SplitJoin(Edited(lines, mode), NEWLINE);
  }

  lemma {:induction false} ReplaceKeepsLines(lines: seq<Bytes>, mode: Mode)
    requires forall k | 0 <= k < |lines| :: NoNewline(lines[k])
    ensures forall k | 0 <= k < |lines| ::
              NoNewline(ReplaceAll(lines, mode)[k]) && ReplaceAll(lines, mode)[k] == Replaced(lines[k], mode)
  {
    if lines != [] {
      ModeLineIsComplete(mode);
      ReplaceKeepsLines(lines[1..], mode);
    }
  }

  /** Turning Laya off never appends to a file that says otherwise, so it always reads back. */
  lemma OffReadsBack(bytes: Bytes)
    requires ModeIn(bytes).Success? && ModeIn(bytes) != Success(Off)
    ensures ModeIn(WithMode(bytes, Off)) == Success(Off)
  {
    var lines := Split(bytes);
    if !HasKeyLine(lines) {
      ReadWithoutKey(None, lines, None, None);
    }
    ReadBack(bytes, Off);
  }

  /** "A=x\\" and a newline: the value is continued onto the final, empty line. */
  lemma SwallowedAppend()
    ensures var bytes: Bytes := [65, EQUALS, 120, BACKSLASH, NEWLINE];
            && ModeIn(bytes) == Success(Off)
            && !Appendable(bytes)
            && ModeIn(WithMode(bytes, Shadow)) == Failure(NonCanonical)
  {
    var line: Bytes := [65, EQUALS, 120, BACKSLASH];
    SplitStep(line, NEWLINE, []);
    assert line + [NEWLINE] + [] == [65, EQUALS, 120, BACKSLASH, NEWLINE];
    var bytes: Bytes := line + [NEWLINE] + [];
    assert Split(bytes) == [line, []] && [line, []][1..] == [[]];
    ContinuedLine();
    EmptyLineState(Some(BACKSLASH));
    EmptyLine();
    assert AfterLines(Some(BACKSLASH), [[]]) == None;
    assert Starts(Some(BACKSLASH), [[]]) == [false];
    assert ReadLines(Some(BACKSLASH), [[]], None) == Success(None);
    assert ModeIn(bytes) == Success(Off);
    ReadBack(bytes, Shadow);
  }

  lemma ContinuedLine()
    ensures var line: Bytes := [65, EQUALS, 120, BACKSLASH];
            AfterLine(None, line) == Some(BACKSLASH) && !Relevant(line, true) && !IsKeyLine(line)
  {
    var line: Bytes := [65, EQUALS, 120, BACKSLASH];
    assert line[1..] == [EQUALS, 120, BACKSLASH] && line[2..] == [120, BACKSLASH];
    assert IndexOf(EQUALS, line[1..]) == Some(0);
    var value: Bytes := [120, BACKSLASH];
    assert value[..1] == [120];
    assert !OddBackslashes(value[..1]);
    assert OddBackslashes(value) && TrimAsciiStart(value) == value;
  }

  // ---- What an edit leaves alone ---------------------------------------------------------------

  /** An edit overwrites the edit before it, for every file whatsoever. */
  lemma EditsOverwrite(bytes: Bytes, first: Mode, second: Mode)
    ensures WithMode(WithMode(bytes, first), second) == WithMode(bytes, second)
  {
    var lines := Split(bytes);
    EditedLines(bytes, first);
    ModeLineIsComplete(first);
    if HasKeyLine(lines) {
      ReplaceTwice(lines, first, second);
      var k :| 0 <= k < |lines| && IsKeyLine(lines[k]);
      ReplacedIsKeyLine(lines, first, k);
    } else {
      var tail := [ModeLine(first), []];
      var edited := Body(lines) + tail;
      assert edited[|Body(lines)|] == ModeLine(first);
      assert HasKeyLine(edited);
      BodyWithoutKey(lines);
      ReplaceNothing(Body(lines), second);
      ReplaceAppend(Body(lines), tail, second);
      assert tail[1..] == [[]];
      assert ReplaceAll(tail, second) == [ModeLine(second), []];
    }
  }

  lemma BodyWithoutKey(lines: seq<Bytes>)
    requires lines != [] && !HasKeyLine(lines)
    ensures !HasKeyLine(Body(lines))
  {
    forall k | 0 <= k < |Body(lines)| ensures !IsKeyLine(Body(lines)[k]) {
      assert Body(lines)[k] == lines[k];
    }
  }

  lemma {:induction false} ReplaceTwice(lines: seq<Bytes>, first: Mode, second: Mode)
    ensures ReplaceAll(ReplaceAll(lines, first), second) == ReplaceAll(lines, second)
  {
    if lines != [] {
      ModeLineIsComplete(first);
      assert ReplaceAll(lines, first)[1..] == ReplaceAll(lines[1..], first);
      ReplaceTwice(lines[1..], first, second);
    }
  }

  lemma {:induction false} ReplacedIsKeyLine(lines: seq<Bytes>, mode: Mode, k: nat)
    requires k < |lines| && IsKeyLine(lines[k])
    ensures HasKeyLine(ReplaceAll(lines, mode))
  {
    ModeLineIsComplete(mode);
    if k > 0 {
      assert lines[1..][k - 1] == lines[k];
      ReplacedIsKeyLine(lines[1..], mode, k - 1);
      assert ReplaceAll(lines, mode)[1..] == ReplaceAll(lines[1..], mode);
    }
    NoKeyTail(ReplaceAll(lines, mode));
  }

  /** Restoring the mode that was read restores the file, when it had a line for it. */
  lemma EditIsUndone(bytes: Bytes, mode: Mode)
    requires ModeIn(bytes).Success? && HasKeyLine(Split(bytes))
    ensures WithMode(WithMode(bytes, mode), ModeIn(bytes).value) == bytes
  {
    var lines := Split(bytes);
    EditsOverwrite(bytes, mode, ModeIn(bytes).value);
    ReplacedReads(None, lines, mode);
    SplitLines(bytes);
  }

  /**
   In an accepted file an edit changes no line but the key line (or the final,
   empty line an appended one takes the place of), removes none, and changes
   for no line whether an assignment starts there.
   */
  lemma EditKeepsTheRest(bytes: Bytes, mode: Mode)
    requires ModeIn(bytes).Success?
    ensures var before, after := Split(bytes), Split(WithMode(bytes, mode));
            && |before| <= |after| <= |before| + 2
            && (forall k | 0 <= k < |before| ::
                  Starts(None, after)[k] == Starts(None, before)[k])
            && (forall k | 0 <= k < |before| ::
                  after[k] == before[k] || IsKeyLine(before[k]) || (k == |before| - 1 && before[k] == []))
  {
    var lines := Split(bytes);
    SplitLines(bytes);
    EditedLines(bytes, mode);
    if HasKeyLine(lines) {
      ReplacedReads(None, lines, mode);
      ReplaceKeepsLines(lines, mode);
    } else {
      AppendKeepsFlags(lines, [ModeLine(mode), []]);
    }
  }

  lemma AppendKeepsFlags(lines: seq<Bytes>, tail: seq<Bytes>)
    requires lines != [] && tail != []
    ensures forall k | 0 <= k < |lines| :: Starts(None, Body(lines) + tail)[k] == Starts(None, lines)[k]
  {
    LinesAppend(None, Body(lines), tail);
    if Body(lines) != lines {
      assert lines == Body(lines) + [[]];
      LinesAppend(None, Body(lines), [[]]);
    }
  }

  // ---- How large an edit makes the file ----------------------------------------------------------

  function TotalLength(lines: seq<Bytes>): nat {
    if lines == [] then 0 else |lines[0]| + TotalLength(lines[1..])
  }

  lemma {:induction false} JoinLength(lines: seq<Bytes>)
    requires lines != []
    ensures |Join(lines, NEWLINE)| == TotalLength(lines) + |lines| - 1
  {
    if |lines| > 1 {
      JoinLength(lines[1..]);
    }
  }

  /** The mode of accepted lines that begin with the key line. */
  lemma FirstLineRead(open: Open, lines: seq<Bytes>)
    requires lines != [] && IsKeyLine(lines[0]) && ReadLines(open, lines, None).Success?
    ensures var found := LineMode(lines[0], true);
            found.Some? && lines[0] == ModeLine(found.value) && ReadLines(open, lines, None) == Success(found)
  {
    hide Relevant, LineMode, IsKeyLine, ModeLine, AfterLine;
    KeyLineIsRelevant(lines[0], open.None?);
    var found := LineMode(lines[0], open.None?);
    var next := AfterLine(open, lines[0]);
    assert ReadLine(lines[0], open.None?, None) == Success(found) && found.Some?;
    ReadOnce(next, lines[1..], found.value);
    ReadWithoutKey(next, lines[1..], found, found);
  }

  lemma LengthFirst(line: Bytes, rest: seq<Bytes>)
    ensures TotalLength([line] + rest) == |line| + TotalLength(rest)
  {
    assert ([line] + rest)[1..] == rest;
  }

  /** Accepted lines that do not begin with it: what follows decides. */
  lemma OtherLineRead(open: Open, lines: seq<Bytes>)
    requires lines != [] && !IsKeyLine(lines[0]) && ReadLines(open, lines, None).Success?
    ensures ReadLines(open, lines, None) == ReadLines(AfterLine(open, lines[0]), lines[1..], None)
  {
    if Relevant(lines[0], open.None?) {
      AcceptedLineIsKeyLine(lines[0], open.None?);
    }
  }

  /** The accepted key line gives way to the new one; every other line keeps its length. */
  lemma {:induction false} ReplacedLength(open: Open, lines: seq<Bytes>, mode: Mode)
    requires HasKeyLine(lines) && ReadLines(open, lines, None).Success?
    ensures ReadLines(open, lines, None).value.Some?
    ensures TotalLength(ReplaceAll(lines, mode)) + |Name(ReadLines(open, lines, None).value.value)| ==
            TotalLength(lines) + |Name(mode)|
    decreases |lines|
  {
    NoKeyTail(lines);
    assert lines == [lines[0]] + lines[1..];
    ReplaceAppend([lines[0]], lines[1..], mode);
    hide ReadLines, HasKeyLine, TotalLength, Name;
    LengthFirst(lines[0], lines[1..]);
    if IsKeyLine(lines[0]) {
      FirstLineReplaced(open, lines, mode);
      FirstLineRead(open, lines);
      LengthFirst(ModeLine(mode), lines[1..]);
    } else {
      OtherLineRead(open, lines);
      ReplacedLength(AfterLine(open, lines[0]), lines[1..], mode);
      LengthFirst(lines[0], ReplaceAll(lines[1..], mode));
    }
  }

  /** The edited file, to the byte: the names differ in length, or a line is appended. */
  lemma EditSize(bytes: Bytes, mode: Mode)
    requires ModeIn(bytes).Success?
    ensures |WithMode(bytes, mode)| ==
            if HasKeyLine(Split(bytes)) then |bytes| - |Name(ModeIn(bytes).value)| + |Name(mode)|
            else |bytes| + (if bytes != [] && bytes[|bytes| - 1] != NEWLINE then 1 else 0) + |ModeLine(mode)| + 1
  {
    var lines := Split(bytes);
    SplitLines(bytes);
    if HasKeyLine(lines) {
      JoinLength(lines);
      JoinLength(ReplaceAll(lines, mode));
      ReplacedLength(None, lines, mode);
    } else {
      AppendedLine(bytes, mode);
    }
  }

  /** Switching off a file that says otherwise makes it smaller. */
  lemma OffShrinks(bytes: Bytes)
    requires ModeIn(bytes).Success? && ModeIn(bytes) != Success(Off)
    ensures |WithMode(bytes, Off)| < |bytes|
  {
    EditSize(bytes, Off);
    var lines := Split(bytes);
    if !HasKeyLine(lines) {
      ReadWithoutKey(None, lines, None, None);
    }
  }
}
