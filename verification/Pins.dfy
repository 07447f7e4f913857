/**
 The pinned downloads: the wheel lock (`wheel_artifacts`), the model manifest
 (`model_artifacts`) and both together (`pinned_artifacts`) in
 `crates/admin/src/laya.rs`.

 The lock is read by an automaton over lines. The reference is a grammar: the
 lock is a list of items, each a gap line or a block of three lines.
 */
module Pins {
  import opened Wrappers
  import opened Shared
  import opened Pieces
  import opened Text
  import opened Staging

  const REVISION := "55cf4c4ebb4ebe31b2550e8bdf3bd21b99753851"
  const MODEL_SOURCE := "https://huggingface.co/convaiinnovations/laya/resolve"
  const WHEEL_SOURCES := ["https://files.pythonhosted.org/packages/", "https://download.pytorch.org/whl/cpu/"]
  const ARTIFACT_LIMIT: nat := 0x4000_0000

  const SOURCE_MARK := "# https://"
  const HASH_MARK := "--hash=sha256:"

  datatype PinError =
    | SourceWithoutPin | NoSize | BadSize | BadUrl | BadName | CommentInPin
    | BadHash | HashWithoutSource | BadRequirement | Incomplete
    | BadModelLine | BadModelPath | NoModels

  datatype Source = Source(url: string, size: nat)

  // ---- Fields of a line ----------------------------------------------------------------

  predicate IsDigest(s: string) {
    |s| == 64 && forall k | 0 <= k < |s| :: IsDigit(s[k]) || 'a' <= s[k] <= 'f'
  }

  predicate Only(s: string, others: string) {
    forall k | 0 <= k < |s| :: IsAlphanumeric(s[k]) || s[k] in others
  }

  /** What follows the last slash. */
  function LastSegment(s: string): (r: string)
    ensures '/' !in r
  {
    if s == [] then []
    else if s[|s| - 1] == '/' then []
    else LastSegment(s[..|s| - 1]) + [s[|s| - 1]]
  }

  /** An escaped plus sign is the only escape a wheel URL needs. */
  function Unescape(s: string): string {
    if s == [] then []
    else if "%2B" <= s then "+" + Unescape(s[3..])
    else [s[0]] + Unescape(s[1..])
  }

  function WheelName(url: string): string {
    Unescape(LastSegment(url))
  }

  predicate IsWheelUrl(url: string) {
    (exists k | 0 <= k < |WHEEL_SOURCES| :: WHEEL_SOURCES[k] <= url) && Only(url, ":/._%+-")
  }

  predicate IsWheelName(name: string) {
    EndsWith(name, ".whl") && Only(name, "._+-")
  }

  /** The URL and size a source comment gives. */
  function SourceOf(line: string): Result<Source, PinError>
    requires SOURCE_MARK <= line
  {
    var parts := SplitOnce(line[|SOURCE_MARK|..], " ");
    if parts.None? then Failure(NoSize)
    else
      var url := "https://" + parts.value.0;
      var size := ParseNumber(parts.value.1, U64_MAX);
      if size.None? || !(1 <= size.value <= ARTIFACT_LIMIT) then Failure(BadSize)
      else if !IsWheelUrl(url) then Failure(BadUrl)
      else if !IsWheelName(WheelName(url)) then Failure(BadName)
      else Success(Source(url, size.value))
  }

  function WheelPath(url: string): Location {
    ["wheels", WheelName(url)]
  }

  function WheelOf(source: Source, digest: string): Artifact {
    Artifact(source.url, WheelPath(source.url), digest, source.size, Some(source.size))
  }

  // ---- Kinds of lines: the first that fits ---------------------------------------------

  predicate IsSource(line: string) {
    SOURCE_MARK <= line && SourceOf(line).Success?
  }

  predicate IsGap(line: string) {
    !(SOURCE_MARK <= line) && ("#" <= line || Trim(line) == [])
  }

  predicate LooksHashed(line: string) {
    !(SOURCE_MARK <= line) && !IsGap(line) && HASH_MARK <= Trim(line)
  }

  function DigestOf(line: string): string
    requires LooksHashed(line)
  {
    Trim(line)[|HASH_MARK|..]
  }

  predicate IsHash(line: string) {
    LooksHashed(line) && IsDigest(DigestOf(line))
  }

  predicate IsPin(line: string) {
    !(SOURCE_MARK <= line) && !IsGap(line) && !LooksHashed(line) && Contains(line, "==") && EndsWith(line, " \\")
  }

  // ---- The grammar ---------------------------------------------------------------------

  datatype Item = Gap(line: string) | Block(source: string, pin: string, hash: string)

  predicate Good(item: Item) {
    match item
    case Gap(line) => IsGap(line)
    case Block(source, pin, hash) => IsSource(source) && IsPin(pin) && IsHash(hash)
  }

  function ItemText(item: Item): seq<string> {
    match item
    case Gap(line) => [line]
    case Block(source, pin, hash) => [source, pin, hash]
  }

  function Flatten(items: seq<Item>): seq<string> {
    if items == [] then [] else ItemText(items[0]) + Flatten(items[1..])
  }

  function PinsOf(item: Item): seq<Artifact>
    requires Good(item)
  {
    match item
    case Gap(_) => []
    case Block(source, _, hash) => [WheelOf(SourceOf(source).value, DigestOf(hash))]
  }

  /** One artifact a block, in order. */
  function AllPins(items: seq<Item>): seq<Artifact>
    requires forall item <- items :: Good(item)
  {
    if items == [] then [] else PinsOf(items[0]) + AllPins(items[1..])
  }

  /** All in their own place, none of which is `taken`. */
  ghost predicate Apart(artifacts: seq<Artifact>, taken: set<Location>) {
    && (forall i, j | 0 <= i < j < |artifacts| :: artifacts[i].path != artifacts[j].path)
    && (forall a <- artifacts :: a.path !in taken)
  }

  ghost predicate IsLayout(items: seq<Item>, lines: seq<string>, artifacts: seq<Artifact>) {
    (forall item <- items :: Good(item)) && Flatten(items) == lines && AllPins(items) == artifacts
  }

  // ---- Reading by the grammar ----------------------------------------------------------

  function Prepend(artifacts: seq<Artifact>, rest: Option<seq<Artifact>>): Option<seq<Artifact>> {
    if rest.None? then None else Some(artifacts + rest.value)
  }

  /** The pins of lines that consist of whole items. */
  function Blocks(lines: seq<string>, taken: set<Location>): Option<seq<Artifact>> {
    if lines == [] then Some([])
    else if IsGap(lines[0]) then Blocks(lines[1..], taken)
    else if 3 <= |lines| && IsSource(lines[0]) && IsPin(lines[1]) && IsHash(lines[2]) then
      var pin := WheelOf(SourceOf(lines[0]).value, DigestOf(lines[2]));
      if pin.path in taken then None else Prepend([pin], Blocks(lines[3..], taken + {pin.path}))
    else None
  }

  lemma OneItemRead(item: Item, rest: seq<string>, taken: set<Location>)
    requires Good(item)
    ensures item.Gap? ==> Blocks(ItemText(item) + rest, taken) == Blocks(rest, taken)
    ensures item.Block? ==>
              var pin := PinsOf(item)[0];
              Blocks(ItemText(item) + rest, taken) ==
              if pin.path in taken then None else Prepend([pin], Blocks(rest, taken + {pin.path}))
  {
    var lines := ItemText(item) + rest;
    assert lines[|ItemText(item)|..] == rest;
  }

  lemma LayoutGrows(item: Item, items: seq<Item>, lines: seq<string>, artifacts: seq<Artifact>)
    requires Good(item) && IsLayout(items, lines, artifacts)
    ensures IsLayout([item] + items, ItemText(item) + lines, PinsOf(item) + artifacts)
  {
    assert ([item] + items)[1..] == items;
  }

  lemma ApartGrows(a: Artifact, artifacts: seq<Artifact>, taken: set<Location>)
    requires a.path !in taken && Apart(artifacts, taken + {a.path})
    ensures Apart([a] + artifacts, taken)
  {
  }

  lemma NothingRead(taken: set<Location>)
    ensures Blocks([], taken) == Some([]) && IsLayout([], [], []) && Apart([], taken)
  {
  }

  lemma FirstItem(lines: seq<string>, taken: set<Location>) returns (item: Item, later: seq<string>)
    requires lines != [] && Blocks(lines, taken).Some?
    ensures Good(item) && lines == ItemText(item) + later
  {
    hide IsGap, IsSource, IsPin, IsHash, WheelOf;
    item := if IsGap(lines[0]) then Gap(lines[0]) else Block(lines[0], lines[1], lines[2]);
    later := lines[|ItemText(item)|..];
  }

  lemma {:induction false} BlocksHaveLayout(lines: seq<string>, taken: set<Location>) returns (items: seq<Item>)
    requires Blocks(lines, taken).Some?
    ensures IsLayout(items, lines, Blocks(lines, taken).value)
    ensures Apart(Blocks(lines, taken).value, taken)
    decreases |lines|
  {
    hide Blocks, IsLayout, Apart, Good, WheelOf;
    if lines == [] {
      NothingRead(taken);
      items := [];
    } else {
      var item, later := FirstItem(lines, taken);
      OneItemRead(item, later, taken);
      if item.Gap? {
        var rest := BlocksHaveLayout(later, taken);
        var pins := Blocks(later, taken).value;
        LayoutGrows(item, rest, later, pins);
        assert [] + pins == pins;
        items := [item] + rest;
      } else {
        var pin := PinsOf(item)[0];
        var rest := BlocksHaveLayout(later, taken + {pin.path});
        var pins := Blocks(later, taken + {pin.path}).value;
        LayoutGrows(item, rest, later, pins);
        ApartGrows(pin, pins, taken);
        items := [item] + rest;
      }
    }
  }

  lemma {:induction false} LayoutIsRead(items: seq<Item>, taken: set<Location>)
    requires forall item <- items :: Good(item)
    requires Apart(AllPins(items), taken)
    ensures Blocks(Flatten(items), taken) == Some(AllPins(items))
  {
    if items != [] {
      var pins, later := AllPins(items), AllPins(items[1..]);
      assert pins[|PinsOf(items[0])|..] == later;
      OneItemRead(items[0], Flatten(items[1..]), taken);
      if items[0].Gap? {
        LayoutIsRead(items[1..], taken);
      } else {
        assert pins[0] in pins;
        forall k | 0 <= k < |later| ensures later[k].path !in taken + {pins[0].path} {
          assert later[k] == pins[k + 1] && pins[k + 1] in pins;
        }
        LayoutIsRead(items[1..], taken + {pins[0].path});
      }
    }
  }

  /** The pins a lock names; `None` when it is refused. */
  function WheelPins(lock: string): Option<seq<Artifact>> {
    var read := Blocks(Lines(lock), {});
    if read == Some([]) then None else read
  }

  /**
   A lock is accepted exactly when it consists of blocks in their own places,
   with gap lines only between them, and at least one block; what it pins is
   one artifact a block, in order.
   */
  lemma LockIsItsBlocks(lock: string, artifacts: seq<Artifact>)
    ensures WheelPins(lock) == Some(artifacts) <==>
            artifacts != [] && Apart(artifacts, {}) && exists items :: IsLayout(items, Lines(lock), artifacts)
  {
    if WheelPins(lock) == Some(artifacts) {
      var items := BlocksHaveLayout(Lines(lock), {});
      assert IsLayout(items, Lines(lock), artifacts);
    }
    if artifacts != [] && Apart(artifacts, {}) && exists items :: IsLayout(items, Lines(lock), artifacts) {
      var items :| IsLayout(items, Lines(lock), artifacts);
      LayoutIsRead(items, {});
    }
  }

  // ---- What a block pins ---------------------------------------------------------------

  lemma {:induction false} LastSegmentIs(front: string, name: string)
    requires '/' !in name
    ensures LastSegment(front + "/" + name) == name
  {
    var s := front + "/" + name;
    if name != [] {
      var init := name[..|name| - 1];
      assert s[..|s| - 1] == front + "/" + init && s[|s| - 1] == name[|name| - 1];
      assert name == init + [name[|name| - 1]];
      LastSegmentIs(front, init);
    }
  }

  /** Only "%2B" is an escape; all else stands for itself. */
  lemma {:induction false} UnescapedIs(a: string, rest: string)
    requires '%' !in a
    ensures Unescape(a + rest) == a + Unescape(rest)
    ensures Unescape("%2B" + rest) == "+" + Unescape(rest)
    ensures Unescape([]) == []
  {
    if a == [] {
      assert a + rest == rest && a + Unescape(rest) == Unescape(rest);
      assert ("%2B" + rest)[3..] == rest;
    } else {
      assert (a + rest)[0] == a[0] && (a + rest)[1..] == a[1..] + rest;
      UnescapedIs(a[1..], rest);
      assert a == [a[0]] + a[1..];
    }
  }

  /** The file of a wheel is named by the end of its URL. */
  lemma WheelNameIs(front: string, name: string)
    requires '/' !in name
    ensures WheelName(front + "/" + name) == Unescape(name)
    ensures '%' !in name ==> WheelName(front + "/" + name) == name
  {
    LastSegmentIs(front, name);
    if '%' !in name {
      UnescapedIs(name, []);
      assert name + [] == name;
    }
  }

  /** The comment that names a wheel's URL and size. */
  function SourceLine(url: string, size: nat): string {
    "# " + url + " " + Digits(size)
  }

  lemma SplitAtBlank(rest: string)
    ensures SplitOnce(" " + rest, " ") == Some(("", rest))
  {
    assert (" " + rest)[1..] == rest;
  }

  lemma SourceReads(rest: string, size: nat)
    requires IsWheelUrl("https://" + rest) && 1 <= size <= ARTIFACT_LIMIT && IsWheelName(WheelName("https://" + rest))
    ensures SOURCE_MARK <= SourceLine("https://" + rest, size)
    ensures SourceOf(SourceLine("https://" + rest, size)) == Success(Source("https://" + rest, size))
  {
    hide Digits, ParseNumber, IsWheelName, WheelName, SplitOnce;
    var url := "https://" + rest;
    var line := SourceLine(url, size);
    assert line == SOURCE_MARK + (rest + " " + Digits(size)) && SOURCE_MARK <= line;
    assert line[|SOURCE_MARK|..] == rest + (" " + Digits(size));
    forall k | 0 <= k < |rest| ensures rest[k] != ' ' {
      assert url[|"https://"| + k] == rest[k];
    }
    SplitOnceSkips(rest, " " + Digits(size), " ");
    SplitAtBlank(Digits(size));
    assert rest + "" == rest;
    ParsePrinted(size, U64_MAX);
  }

  lemma HashReads(indent: string, digest: string)
    requires AllWhite(indent) && IsDigest(digest)
    ensures IsHash(indent + (HASH_MARK + digest)) && DigestOf(indent + (HASH_MARK + digest)) == digest
  {
    var text := HASH_MARK + digest;
    assert text[|HASH_MARK|..] == digest;
    assert text[|text| - 1] == digest[63];
    assert IsTrimmed(text);
    TrimExactly(indent, text, []);
    assert text + [] == text;
    var line := indent + text;
    assert line[0] == if indent == [] then '-' else indent[0];
    assert SOURCE_MARK[0] == '#' && "#"[0] == '#';
  }

  /**
   A block that names a wheel by URL and size and gives its digest pins that
   file: from that URL, under its own name, with that digest and exactly that size.
   */
  lemma BlockPins(rest: string, size: nat, pin: string, indent: string, digest: string)
    requires IsWheelUrl("https://" + rest) && 1 <= size <= ARTIFACT_LIMIT && IsWheelName(WheelName("https://" + rest))
    requires IsPin(pin) && AllWhite(indent) && IsDigest(digest)
    ensures var url := "https://" + rest; var block := Block(SourceLine(url, size), pin, indent + (HASH_MARK + digest));
            && Good(block)
            && PinsOf(block) == [Artifact(url, ["wheels", WheelName(url)], digest, size, Some(size))]
  {
    hide SourceOf, SourceLine, IsHash, DigestOf, IsWheelUrl, IsWheelName, WheelName;
    SourceReads(rest, size);
    HashReads(indent, digest);
  }

  // ---- The automaton -------------------------------------------------------------------

  /** What is still read, given what has been begun. */
  function Rest(source: Option<Source>, pinned: bool, taken: set<Location>, lines: seq<string>): Option<seq<Artifact>> {
    if source.None? then if pinned then None else Blocks(lines, taken)
    else if pinned then
      if lines != [] && IsHash(lines[0]) then
        Prepend([WheelOf(source.value, DigestOf(lines[0]))], Blocks(lines[1..], taken))
      else None
    else if 2 <= |lines| && IsPin(lines[0]) && IsHash(lines[1]) then
      Prepend([WheelOf(source.value, DigestOf(lines[1]))], Blocks(lines[2..], taken))
    else None
  }

  lemma AfterSource(taken: set<Location>, lines: seq<string>)
    requires lines != [] && SOURCE_MARK <= lines[0]
    ensures SourceOf(lines[0]).Failure? ==> Blocks(lines, taken).None?
    ensures SourceOf(lines[0]).Success? ==>
              var source := SourceOf(lines[0]).value;
              Blocks(lines, taken) ==
              if WheelPath(source.url) in taken then None
              else Rest(Some(source), false, taken + {WheelPath(source.url)}, lines[1..])
  {
    if 3 <= |lines| {
      assert lines[1..][2..] == lines[3..];
    }
  }

  lemma AfterPin(source: Source, taken: set<Location>, lines: seq<string>)
    requires lines != []
    ensures Rest(Some(source), false, taken, lines) ==
            if IsPin(lines[0]) then Rest(Some(source), true, taken, lines[1..]) else None
  {
    if 2 <= |lines| {
      assert lines[1..][1..] == lines[2..];
    }
  }

  lemma PrependNothing(a: seq<Artifact>, rest: Option<seq<Artifact>>)
    ensures Prepend([], rest) == rest && Prepend(a, Some([])) == Some(a)
  {
    assert a + [] == a;
    if rest.Some? {
      assert [] + rest.value == rest.value;
    }
  }

  lemma PrependTwice(a: seq<Artifact>, b: seq<Artifact>, rest: Option<seq<Artifact>>)
    ensures Prepend(a, Prepend(b, rest)) == Prepend(a + b, rest)
  {
    if rest.Some? {
      assert a + (b + rest.value) == a + b + rest.value;
    }
  }

  /** The automaton reads what the grammar says, and its check for a hash without a source never fails. */
  method WheelArtifacts(lock: string) returns (r: Result<seq<Artifact>, PinError>)
    ensures r.Success? <==> WheelPins(lock).Some?
    ensures r.Success? ==> Some(r.value) == WheelPins(lock)
    ensures r != Failure(HashWithoutSource)
  {
    hide Lines, SplitOnce, ParseNumber, Trim, Contains, IsDigest, WheelOf, WheelPath, IsWheelUrl, IsWheelName, EndsWith;
    var artifacts: seq<Artifact> := [];
    var names: set<Location> := {};
    var source: Option<Source> := None;
    var pinned := false;
    var lines := Lines(lock);
    var i := 0;
    assert lines[0..] == lines;
    PrependNothing([], Blocks(lines, {}));
    while i < |lines|
      invariant i <= |lines|
      invariant pinned ==> source.Some?
      invariant Blocks(lines, {}) == Prepend(artifacts, Rest(source, pinned, names, lines[i..]))
    {
      var line := lines[i];
      var refused: Option<PinError>;
      assert lines[i..][1..] == lines[i + 1..];
      if SOURCE_MARK <= line {
        AfterSource(names, lines[i..]);
        var read := SourceOf(line);
        refused := if source.Some? then Some(SourceWithoutPin)
                   else if read.Failure? then Some(read.error)
                   else if WheelPath(read.value.url) in names then Some(BadName)
                   else None;
        if refused.None? {
          names := names + {WheelPath(read.value.url)};
          source := Some(read.value);
        }
      } else if IsGap(line) {
        refused := if source.Some? || pinned then Some(CommentInPin) else None;
      } else if LooksHashed(line) {
        refused := if !pinned || !IsDigest(DigestOf(line)) then Some(BadHash)
                   else if source.None? then Some(HashWithoutSource)
                   else None;
        if refused.None? {
          PrependTwice(artifacts, [WheelOf(source.value, DigestOf(line))], Blocks(lines[i + 1..], names));
          artifacts := artifacts + [WheelOf(source.value, DigestOf(line))];
          source, pinned := None, false;
        }
      } else {
        refused := if source.None? || pinned || !IsPin(line) then Some(BadRequirement) else None;
        if source.Some? {
          AfterPin(source.value, names, lines[i..]);
        }
        if refused.None? {
          pinned := true;
        }
      }
      if refused.Some? {
        return Failure(refused.value);
      }
      i := i + 1;
    }
    assert lines[|lines|..] == [];
    PrependNothing(artifacts, None);
    r := if source.Some? || pinned || artifacts == [] then Failure(Incomplete) else Success(artifacts);
  }

  // ---- The model manifest --------------------------------------------------------------

  predicate IsSafeSegment(name: string) {
    name != [] && name[0] != '.' && Only(name, "._-")
  }

  predicate IsModelPath(path: string) {
    && (forall name <- SplitAll(path, '/') :: IsSafeSegment(name))
    && (EndsWith(path, ".json") || EndsWith(path, ".safetensors"))
  }

  predicate IsModelLine(line: string) {
    var parts := SplitOnce(line, "  ");
    parts.Some? && IsDigest(parts.value.0) && IsModelPath(parts.value.1)
  }

  function ModelPath(line: string): string
    requires IsModelLine(line)
  {
    SplitOnce(line, "  ").value.1
  }

  function ModelOf(line: string): Artifact
    requires IsModelLine(line)
  {
    var path := ModelPath(line);
    Artifact(MODEL_SOURCE + "/" + REVISION + "/" + path, ["models", REVISION] + SplitAll(path, '/'),
             SplitOnce(line, "  ").value.0, ARTIFACT_LIMIT, None)
  }

  /** A line is a digest, two blanks and a safe path, and pins the file at that path of the pinned revision. */
  lemma ModelLinePins(digest: string, path: string)
    requires IsDigest(digest) && IsModelPath(path)
    ensures var line := digest + ("  " + path);
            && IsModelLine(line) && ModelPath(line) == path
            && ModelOf(line) == Artifact(MODEL_SOURCE + "/" + REVISION + "/" + path, ["models", REVISION] + SplitAll(path, '/'),
                                         digest, ARTIFACT_LIMIT, None)
    ensures Join(SplitAll(path, '/'), '/') == path
  {
    hide IsModelPath;
    assert ' ' !in digest;
    SplitOnceSkips(digest, "  " + path, "  ");
    assert ("  " + path)[2..] == path && digest + "" == digest;
    JoinSplit(path, '/');
  }

  lemma ModelLineIs(line: string)
    requires IsModelLine(line)
    ensures exists digest, path :: IsDigest(digest) && IsModelPath(path) && line == digest + ("  " + path)
  {
    hide IsDigest, IsModelPath;
    SplitOnceJoins(line, "  ");
    var parts := SplitOnce(line, "  ").value;
    assert line == parts.0 + ("  " + parts.1);
  }

  /** Two files go to the same place only when they have the same path. */
  lemma ModelsApart(line: string, other: string)
    requires IsModelLine(line) && IsModelLine(other)
    ensures ModelOf(line).path == ModelOf(other).path <==> ModelPath(line) == ModelPath(other)
  {
    var names, others := SplitAll(ModelPath(line), '/'), SplitAll(ModelPath(other), '/');
    JoinSplit(ModelPath(line), '/');
    JoinSplit(ModelPath(other), '/');
    assert names == (["models", REVISION] + names)[2..];
    assert others == (["models", REVISION] + others)[2..];
  }

  ghost predicate AllModelLines(lines: seq<string>) {
    forall k | 0 <= k < |lines| :: IsModelLine(lines[k])
  }

  function PathsOf(lines: seq<string>): (paths: seq<string>)
    requires AllModelLines(lines)
    ensures |paths| == |lines| && forall k | 0 <= k < |lines| :: paths[k] == ModelPath(lines[k])
  {
    if lines == [] then [] else PathsOf(lines[..|lines| - 1]) + [ModelPath(lines[|lines| - 1])]
  }

  /** One artifact a line, in order. */
  function ModelsOf(lines: seq<string>): (artifacts: seq<Artifact>)
    requires AllModelLines(lines)
    ensures |artifacts| == |lines| && forall k | 0 <= k < |lines| :: artifacts[k] == ModelOf(lines[k])
  {
    if lines == [] then [] else ModelsOf(lines[..|lines| - 1]) + [ModelOf(lines[|lines| - 1])]
  }

  ghost predicate Distinct(s: seq<string>) {
    forall i, j | 0 <= i < j < |s| :: s[i] != s[j]
  }

  /** Every line names a file, and no file is named twice. */
  ghost predicate IsManifest(lines: seq<string>) {
    AllModelLines(lines) && Distinct(PathsOf(lines))
  }

  lemma DistinctGrows(s: seq<string>, x: string)
    requires Distinct(s)
    ensures Distinct(s + [x]) <==> x !in s
  {
    if x in s {
      var k :| 0 <= k < |s| && s[k] == x;
      assert (s + [x])[k] == (s + [x])[|s|];
    }
  }

  lemma ManifestGrows(lines: seq<string>, line: string)
    requires IsManifest(lines) && IsModelLine(line)
    ensures AllModelLines(lines + [line]) && PathsOf(lines + [line]) == PathsOf(lines) + [ModelPath(line)]
    ensures ModelsOf(lines + [line]) == ModelsOf(lines) + [ModelOf(line)]
    ensures IsManifest(lines + [line]) <==> ModelPath(line) !in PathsOf(lines)
  {
    assert (lines + [line])[..|lines|] == lines;
    DistinctGrows(PathsOf(lines), ModelPath(line));
  }

  lemma NoModelLines()
    ensures IsManifest([]) && PathsOf([]) == [] && ModelsOf([]) == []
  {
  }

  lemma ManifestPrefix(lines: seq<string>, i: nat)
    requires i <= |lines|
    ensures IsManifest(lines) ==> IsManifest(lines[..i])
  {
    if IsManifest(lines) {
      assert PathsOf(lines[..i]) == PathsOf(lines)[..i];
    }
  }

  /** A manifest is accepted exactly when it names at least one file, each line its own; one artifact a line, in order. */
  method ModelArtifacts(manifest: string) returns (r: Result<seq<Artifact>, PinError>)
    ensures r.Success? <==> Lines(manifest) != [] && IsManifest(Lines(manifest))
    ensures r.Success? ==> r.value == ModelsOf(Lines(manifest))
  {
    hide Lines, IsModelLine, ModelPath, ModelOf, PathsOf, ModelsOf, Distinct;
    var artifacts: seq<Artifact> := [];
    var paths: set<string> := {};
    var lines := Lines(manifest);
    NoModelLines();
    for i := 0 to |lines|
      invariant IsManifest(lines[..i]) && forall path :: path in paths <==> path in PathsOf(lines[..i])
      invariant artifacts == ModelsOf(lines[..i])
    {
      var line := lines[i];
      assert lines[..i + 1] == lines[..i] + [line];
      ManifestPrefix(lines, i + 1);
      if !IsModelLine(line) {
        assert !IsManifest(lines);
        return Failure(BadModelLine);
      }
      ManifestGrows(lines[..i], line);
      if ModelPath(line) in paths {
        return Failure(BadModelPath);
      }
      paths := paths + {ModelPath(line)};
      artifacts := artifacts + [ModelOf(line)];
    }
    assert lines[..|lines|] == lines;
    r := if artifacts == [] then Failure(NoModels) else Success(artifacts);
  }

  // ---- What may be pinned --------------------------------------------------------------

  /** A name that leads to an entry of its directory and nowhere else. */
  predicate IsPlainName(name: string) {
    name != "" && name != "." && name != ".." && '/' !in name
  }

  /** From an allowed source, with a digest, of bounded size, and into its own corner of the staging tree. */
  ghost predicate IsVetted(a: Artifact) {
    && |a.sha256| == 64 && (forall k | 0 <= k < 64 :: '0' <= a.sha256[k] <= '9' || 'a' <= a.sha256[k] <= 'f')
    && 1 <= a.limit <= ARTIFACT_LIMIT && (a.exactSize.Some? ==> a.exactSize.value == a.limit)
    && |a.path| >= 2 && (forall name <- a.path :: IsPlainName(name))
    && if a.path[0] == "wheels" then
         && (exists k | 0 <= k < |WHEEL_SOURCES| :: WHEEL_SOURCES[k] <= a.url)
         && a.exactSize.Some? && EndsWith(a.path[1], ".whl")
       else
         && ["models", REVISION] <= a.path && MODEL_SOURCE + "/" + REVISION + "/" <= a.url
         && (EndsWith(a.url, ".json") || EndsWith(a.url, ".safetensors"))
  }

  lemma NameIsPlain(name: string, others: string)
    requires name != "" && name != "." && name != ".." && Only(name, others) && '/' !in others
    ensures IsPlainName(name)
  {
  }

  lemma WheelIsVetted(line: string, hash: string)
    requires IsSource(line) && IsHash(hash)
    ensures IsVetted(WheelOf(SourceOf(line).value, DigestOf(hash)))
  {
    hide Only, LastSegment, Unescape, Trim, ParseNumber, SplitOnce;
    var name := WheelName(SourceOf(line).value.url);
    assert |name| >= 4;
    NameIsPlain(name, "._+-");
  }

  lemma RevisionIsPlain()
    ensures IsPlainName(REVISION) && IsPlainName("models") && IsPlainName("wheels")
  {
  }

  lemma SegmentIsPlain(name: string)
    requires IsSafeSegment(name)
    ensures IsPlainName(name)
  {
    NameIsPlain(name, "._-");
  }

  lemma EndsAlike(front: string, s: string, suffix: string)
    requires EndsWith(s, suffix)
    ensures EndsWith(front + s, suffix)
  {
    var all := front + s;
    assert all[|all| - |suffix|..] == s[|s| - |suffix|..];
  }

  lemma ModelIsVetted(line: string)
    requires IsModelLine(line)
    ensures IsVetted(ModelOf(line))
  {
    var a, path := ModelOf(line), ModelPath(line);
    var front, names := MODEL_SOURCE + "/" + REVISION + "/", SplitAll(path, '/');
    RevisionIsPlain();
    hide IsSafeSegment, SplitAll, SplitOnce, EndsWith;
    forall name <- names ensures IsPlainName(name) {
      SegmentIsPlain(name);
    }
    EndsAlike(front, path, if EndsWith(path, ".json") then ".json" else ".safetensors");
    assert a.path == ["models", REVISION] + names && a.path[..2] == ["models", REVISION];
    assert "models"[0] != "wheels"[0];
  }

  lemma {:induction false} WheelsAreVetted(lines: seq<string>, taken: set<Location>)
    requires Blocks(lines, taken).Some?
    ensures forall a <- Blocks(lines, taken).value :: IsVetted(a)
  {
    hide IsVetted, IsGap, IsPin, WheelOf, SourceOf, DigestOf;
    if lines != [] {
      if IsGap(lines[0]) {
        WheelsAreVetted(lines[1..], taken);
      } else {
        var pin := WheelOf(SourceOf(lines[0]).value, DigestOf(lines[2]));
        WheelIsVetted(lines[0], lines[2]);
        WheelsAreVetted(lines[3..], taken + {pin.path});
      }
    }
  }

  lemma ModelsAreVetted(lines: seq<string>)
    requires IsManifest(lines)
    ensures forall a <- ModelsOf(lines) :: IsVetted(a)
  {
    hide IsVetted, ModelOf, IsModelLine;
    forall k | 0 <= k < |lines| ensures IsVetted(ModelsOf(lines)[k]) {
      ModelIsVetted(lines[k]);
    }
  }

  // ---- Both together -------------------------------------------------------------------

  lemma {:induction false} WheelsLieInWheels(lines: seq<string>, taken: set<Location>)
    requires Blocks(lines, taken).Some?
    ensures forall a <- Blocks(lines, taken).value :: |a.path| == 2 && a.path[0] == "wheels"
  {
    if lines != [] {
      if IsGap(lines[0]) {
        WheelsLieInWheels(lines[1..], taken);
      } else {
        var pin := WheelOf(SourceOf(lines[0]).value, DigestOf(lines[2]));
        WheelsLieInWheels(lines[3..], taken + {pin.path});
      }
    }
  }

  lemma ManifestApart(lines: seq<string>)
    requires IsManifest(lines)
    ensures Apart(ModelsOf(lines), {})
    ensures forall a <- ModelsOf(lines) :: |a.path| > 2 && a.path[0] == "models"
  {
    forall i, j | 0 <= i < j < |lines| ensures ModelsOf(lines)[i].path != ModelsOf(lines)[j].path {
      assert PathsOf(lines)[i] != PathsOf(lines)[j];
      ModelsApart(lines[i], lines[j]);
    }
  }

  lemma TogetherApart(wheels: seq<Artifact>, models: seq<Artifact>)
    requires Apart(wheels, {}) && Apart(models, {})
    requires forall a <- wheels :: |a.path| == 2 && a.path[0] == "wheels"
    requires forall a <- models :: |a.path| > 2 && a.path[0] == "models"
    ensures DistinctPaths(wheels + models)
  {
    var all := wheels + models;
    forall i, j | 0 <= i < j < |all| ensures all[i].path != all[j].path {
      assert i < |wheels| ==> all[i] in wheels;
      assert j >= |wheels| ==> all[j] in models;
    }
  }

  /**
   Everything pinned: the wheels, then the models, each vetted and in a place of
   its own, as staging asks for them.
   */
  method PinnedArtifacts(lock: string, manifest: string) returns (r: Result<seq<Artifact>, PinError>)
    ensures r.Success? <==> WheelPins(lock).Some? && Lines(manifest) != [] && IsManifest(Lines(manifest))
    ensures r.Success? ==> DistinctPaths(r.value) && forall a <- r.value :: IsVetted(a)
    ensures r.Success? ==> r.value == WheelPins(lock).value + ModelsOf(Lines(manifest))
  {
    var wheels :- WheelArtifacts(lock);
    var models :- ModelArtifacts(manifest);
    ghost var items := BlocksHaveLayout(Lines(lock), {});
    WheelsLieInWheels(Lines(lock), {});
    ManifestApart(Lines(manifest));
    WheelsAreVetted(Lines(lock), {});
    ModelsAreVetted(Lines(manifest));
    TogetherApart(wheels, models);
    r := Success(wheels + models);
  }
}
