/** Text operations of the standard library, as far as the parsers use them. */
module Text {
  import opened Wrappers
  import opened Pieces

  /** `char::is_whitespace`. */
  predicate IsWhitespace(c: char) {
    || ('\t' <= c <= '\r') || c == ' ' || c == '\U{85}' || c == '\U{A0}' || c == '\U{1680}'
    || ('\U{2000}' <= c <= '\U{200A}') || c == '\U{2028}' || c == '\U{2029}' || c == '\U{202F}'
    || c == '\U{205F}' || c == '\U{3000}'
  }

  /** `char::is_control`. */
  predicate IsControl(c: char) {
    c <= '\U{1F}' || '\U{7F}' <= c <= '\U{9F}'
  }

  predicate IsDigit(c: char) {
    '0' <= c <= '9'
  }

  predicate IsLower(c: char) {
    'a' <= c <= 'z'
  }

  predicate IsUpper(c: char) {
    'A' <= c <= 'Z'
  }

  predicate IsAlphanumeric(c: char) {
    IsDigit(c) || IsLower(c) || IsUpper(c)
  }

  function TrimStart(s: string): string {
    if s != [] && IsWhitespace(s[0]) then TrimStart(s[1..]) else s
  }

  function TrimEnd(s: string): string {
    if s != [] && IsWhitespace(s[|s| - 1]) then TrimEnd(s[..|s| - 1]) else s
  }

  function Trim(s: string): string {
    TrimEnd(TrimStart(s))
  }

  /** Neither starts nor ends in white space. */
  predicate IsTrimmed(s: string) {
    s != [] ==> !IsWhitespace(s[0]) && !IsWhitespace(s[|s| - 1])
  }

  lemma TrimTrimmed(s: string)
    requires IsTrimmed(s)
    ensures Trim(s) == s && Trim(" " + s) == s
  {
    assert (" " + s)[1..] == s;
  }

  /** The text before and after the first occurrence of `sep`. */
  function SplitOnce(s: string, sep: string): Option<(string, string)>
    requires sep != []
  {
    if sep <= s then Some(("", s[|sep|..]))
    else if s == [] then None
    else
      var (a, b) :- SplitOnce(s[1..], sep);
      Some(([s[0]] + a, b))
  }

  predicate EndsWith(s: string, suffix: string) {
    |suffix| <= |s| && s[|s| - |suffix|..] == suffix
  }

  predicate NoNewline(s: string) {
    '\n' !in s
  }

  function StripReturn(line: string): string {
    StripLast(line, '\r')
  }

  function StripAll(lines: seq<string>): (r: seq<string>)
    ensures |r| == |lines|
  {
    if lines == [] then [] else [StripReturn(lines[0])] + StripAll(lines[1..])
  }

  /** The lines of text cut at its newlines. */
  function LinesOf(pieces: seq<string>): seq<string>
    requires pieces != []
  {
    var last := |pieces| - 1;
    if pieces[last] == [] then StripAll(pieces[..last]) else StripAll(pieces[..last]) + [pieces[last]]
  }

  /** `str::lines`: a final newline ends the last line instead of starting another. */
  function Lines(s: string): seq<string> {
    LinesOf(SplitAll(s, '\n'))
  }

  // ---- Numbers -------------------------------------------------------------------------

  function DigitValue(c: char): nat
    requires IsDigit(c)
  {
    c as int - '0' as int
  }

  function DigitChar(d: nat): (c: char)
    requires d < 10
    ensures IsDigit(c) && DigitValue(c) == d
  {
    (d + '0' as int) as char
  }

  predicate AllDigits(s: string) {
    forall k | 0 <= k < |s| :: IsDigit(s[k])
  }

  function NumberOf(s: string): nat
    requires AllDigits(s)
  {
    if s == [] then 0 else 10 * NumberOf(s[..|s| - 1]) + DigitValue(s[|s| - 1])
  }

  /** Parsing an unsigned integer no larger than `max`; a leading plus sign is allowed. */
  function ParseNumber(s: string, max: nat): Option<nat> {
    var digits := if s != [] && s[0] == '+' then s[1..] else s;
    if digits == [] || !AllDigits(digits) || NumberOf(digits) > max then None else Some(NumberOf(digits))
  }

  function Digits(n: nat): (s: string)
    ensures s != [] && AllDigits(s)
  {
    if n < 10 then [DigitChar(n)] else Digits(n / 10) + [DigitChar(n % 10)]
  }

  lemma {:induction false} DigitsReadBack(n: nat)
    ensures NumberOf(Digits(n)) == n
  {
    if n >= 10 {
      DigitsReadBack(n / 10);
      var s := Digits(n);
      assert s[..|s| - 1] == Digits(n / 10);
    } else {
      assert [DigitChar(n)][..0] == [];
    }
  }

  /** A printed number is parsed back exactly when it is not too large. */
  lemma ParsePrinted(n: nat, max: nat)
    ensures ParseNumber(Digits(n), max) == if n <= max then Some(n) else None
    ensures IsTrimmed(Digits(n)) && NoNewline(Digits(n))
  {
    DigitsReadBack(n);
    assert IsDigit(Digits(n)[0]) && IsDigit(Digits(n)[|Digits(n)| - 1]);
    forall k | 0 <= k < |Digits(n)| ensures Digits(n)[k] != '\n' {
      assert IsDigit(Digits(n)[k]);
    }
  }

  // ---- Lines ---------------------------------------------------------------------------

  lemma {:induction false} NothingStripped(lines: seq<string>)
    requires forall line <- lines :: StripReturn(line) == line
    ensures StripAll(lines) == lines
  {
    if lines != [] {
      NothingStripped(lines[1..]);
    }
  }

  lemma {:induction false} StrippedLines(lines: seq<string>)
    requires forall line <- lines :: NoNewline(line)
    ensures forall line <- StripAll(lines) :: NoNewline(line)
  {
    if lines != [] {
      StrippedLines(lines[1..]);
      assert NoNewline(lines[0]);
    }
  }

  lemma LinesOfWhole(pieces: seq<string>)
    requires pieces != [] && forall p <- pieces :: NoNewline(p)
    ensures forall line <- LinesOf(pieces) :: NoNewline(line)
  {
    StrippedLines(pieces[..|pieces| - 1]);
  }

  lemma NoLineHasANewline(s: string)
    ensures forall line <- Lines(s) :: NoNewline(line)
  {
    PiecesAreWhole(s, '\n');
    LinesOfWhole(SplitAll(s, '\n'));
  }

  lemma LinesKept(lines: seq<string>)
    requires lines != [] && lines[|lines| - 1] != []
    requires forall line <- lines :: StripReturn(line) == line
    ensures LinesOf(lines) == lines
  {
    NothingStripped(lines[..|lines| - 1]);
  }

  /** Joined lines are read back, when each is one line and the last is not empty. */
  lemma LinesOfJoined(lines: seq<string>)
    requires lines != [] && lines[|lines| - 1] != []
    requires forall line <- lines :: NoNewline(line) && StripReturn(line) == line
    ensures Lines(Join(lines, '\n')) == lines
  {
    SplitJoin(lines, '\n');
    LinesKept(lines);
  }

  lemma {:induction false} SplitOnceJoins(s: string, sep: string)
    requires sep != [] && SplitOnce(s, sep).Some?
    ensures s == SplitOnce(s, sep).value.0 + sep + SplitOnce(s, sep).value.1
  {
    if !(sep <= s) {
      SplitOnceJoins(s[1..], sep);
      assert s == [s[0]] + s[1..];
    }
  }

  lemma {:induction false} TrimEndKeeps(s: string)
    requires s != [] ==> !IsWhitespace(s[0])
    ensures IsTrimmed(TrimEnd(s)) && TrimEnd(s) <= s
  {
    if s != [] && IsWhitespace(s[|s| - 1]) {
      TrimEndKeeps(s[..|s| - 1]);
    }
  }

  lemma {:induction false} TrimStartKeeps(s: string)
    ensures TrimStart(s) != [] ==> !IsWhitespace(TrimStart(s)[0])
    ensures NoNewline(s) ==> NoNewline(TrimStart(s))
  {
    if s != [] && IsWhitespace(s[0]) {
      TrimStartKeeps(s[1..]);
    }
  }

  lemma TrimIsTrimmed(s: string)
    ensures IsTrimmed(Trim(s)) && (NoNewline(s) ==> NoNewline(Trim(s)))
  {
    TrimStartKeeps(s);
    TrimEndKeeps(TrimStart(s));
  }

  ghost predicate AllWhite(s: string) {
    forall k | 0 <= k < |s| :: IsWhitespace(s[k])
  }

  lemma {:induction false} TrimStartPast(white: string, rest: string)
    requires AllWhite(white) && (rest != [] ==> !IsWhitespace(rest[0]))
    ensures TrimStart(white + rest) == rest
  {
    hide IsWhitespace;
    if white == [] {
      assert white + rest == rest;
    } else {
      assert (white + rest)[0] == white[0] && (white + rest)[1..] == white[1..] + rest;
      TrimStartPast(white[1..], rest);
    }
  }

  lemma {:induction false} TrimEndPast(rest: string, white: string)
    requires AllWhite(white) && (rest != [] ==> !IsWhitespace(rest[|rest| - 1]))
    ensures TrimEnd(rest + white) == rest
  {
    hide IsWhitespace;
    if white == [] {
      assert rest + white == rest;
    } else {
      var s := rest + white;
      assert s[|s| - 1] == white[|white| - 1] && s[..|s| - 1] == rest + white[..|white| - 1];
      TrimEndPast(rest, white[..|white| - 1]);
    }
  }

  /** Trimming takes the white space off both ends, and nothing else. */
  lemma TrimExactly(before: string, s: string, after: string)
    requires AllWhite(before) && AllWhite(after) && IsTrimmed(s)
    ensures Trim(before + (s + after)) == s
  {
    hide IsWhitespace, TrimStart, TrimEnd;
    if s == [] {
      assert before + (s + after) == (before + after) + "" && "" + "" == "";
      TrimStartPast(before + after, []);
      TrimEndPast([], []);
    } else {
      assert (s + after)[0] == s[0];
      TrimStartPast(before, s + after);
      TrimEndPast(s, after);
    }
  }

  /** The split is at the first place where the separator stands; there is none exactly when it stands nowhere. */
  lemma {:induction false} SplitOnceFirst(s: string, sep: string)
    requires sep != []
    ensures match SplitOnce(s, sep)
            case None => forall k | 0 <= k <= |s| :: !(sep <= s[k..])
            case Some(parts) =>
              && s == parts.0 + sep + parts.1
              && forall k | 0 <= k < |parts.0| :: !(sep <= s[k..])
  {
    assert s[0..] == s;
    if SplitOnce(s, sep).Some? {
      SplitOnceJoins(s, sep);
    }
    if !(sep <= s) && s != [] {
      SplitOnceFirst(s[1..], sep);
      forall k | 0 < k <= |s| ensures s[k..] == s[1..][k - 1..] {
      }
    }
  }

  /** Splitting skips text in which the separator cannot begin. */
  lemma {:induction false} SplitOnceSkips(piece: string, rest: string, sep: string)
    requires sep != [] && sep[0] !in piece
    ensures SplitOnce(piece + rest, sep) ==
            if SplitOnce(rest, sep).None? then None
            else Some((piece + SplitOnce(rest, sep).value.0, SplitOnce(rest, sep).value.1))
  {
    var s := piece + rest;
    if piece == [] {
      assert s == rest;
      if SplitOnce(rest, sep).Some? {
        assert [] + SplitOnce(rest, sep).value.0 == SplitOnce(rest, sep).value.0;
      }
    } else {
      assert s[0] == piece[0] && s[1..] == piece[1..] + rest;
      SplitOnceSkips(piece[1..], rest, sep);
      if SplitOnce(rest, sep).Some? {
        assert piece + SplitOnce(rest, sep).value.0 == [piece[0]] + (piece[1..] + SplitOnce(rest, sep).value.0);
      }
    }
  }
}
