/**
 Private agent profiles (`parse_markdown`, `parse_frontmatter` and
 `validate_definition` in `jarvis-core/src/lib.rs`).

 A profile is front matter between two marker lines, then instructions. The
 reference is a renderer: parsing what it writes gives the definition back, and
 the definitions that parsing can produce are exactly those it can write.
 */
module AgentProfile {
  import opened Wrappers
  import opened Shared
  import opened Pieces
  import opened Text

  /** The capability classes of the policy crate. */
  datatype Capability =
    | ReadSystem | ReadData | WriteData | ExecuteCode | ManageServices
    | ManageFiles | TradingRead | TradingPropose | TradingExecute | Admin

  datatype Definition = Definition(
    id: string, name: string, group: Option<string>, description: string, modelPolicy: string,
    instructions: string, capabilities: seq<Capability>, allowedTools: seq<string>, deniedActions: seq<string>,
    limits: Limits)

  datatype Limits = Limits(maxRuntimeSeconds: nat, maxContextChars: nat, maxOutputChars: nat, maxParallelRuns: nat)

  datatype Policy = Fast | Standard | Strong | Research

  datatype ProfileError = Malformed | InvalidFields | UnknownPolicy | DuplicateCapability

  /** The front-matter keys; any other name is refused. */
  datatype Key =
    | SchemaVersion | Id | Name | Group | Description | ModelPolicy | RequestedCapabilities
    | MaxRuntimeSeconds | MaxContextChars | MaxOutputChars | MaxParallelRuns

  const OPENING := "---\n"
  const CLOSING := "\n---\n"
  const ITEM_MARK := "  - "
  const U16_MAX: nat := 0xFFFF

  function KeyName(key: Key): string {
    match key
    case SchemaVersion => "schema_version"
    case Id => "id"
    case Name => "name"
    case Group => "group"
    case Description => "description"
    case ModelPolicy => "model_policy"
    case RequestedCapabilities => "requested_capabilities"
    case MaxRuntimeSeconds => "max_runtime_seconds"
    case MaxContextChars => "max_context_chars"
    case MaxOutputChars => "max_output_chars"
    case MaxParallelRuns => "max_parallel_runs"
  }

  function KeyOf(name: string): Option<Key> {
    if name == "schema_version" then Some(SchemaVersion)
    else if name == "id" then Some(Id)
    else if name == "name" then Some(Name)
    else if name == "group" then Some(Group)
    else if name == "description" then Some(Description)
    else if name == "model_policy" then Some(ModelPolicy)
    else if name == "requested_capabilities" then Some(RequestedCapabilities)
    else if name == "max_runtime_seconds" then Some(MaxRuntimeSeconds)
    else if name == "max_context_chars" then Some(MaxContextChars)
    else if name == "max_output_chars" then Some(MaxOutputChars)
    else if name == "max_parallel_runs" then Some(MaxParallelRuns)
    else None
  }

  function CapabilityName(c: Capability): string {
    match c
    case ReadSystem => "read_system"
    case ReadData => "read_data"
    case WriteData => "write_data"
    case ExecuteCode => "execute_code"
    case ManageServices => "manage_services"
    case ManageFiles => "manage_files"
    case TradingRead => "trading_read"
    case TradingPropose => "trading_propose"
    case TradingExecute => "trading_execute"
    case Admin => "admin"
  }

  function CapabilityOf(name: string): Option<Capability> {
    if name == "read_system" then Some(ReadSystem)
    else if name == "read_data" then Some(ReadData)
    else if name == "write_data" then Some(WriteData)
    else if name == "execute_code" then Some(ExecuteCode)
    else if name == "manage_services" then Some(ManageServices)
    else if name == "manage_files" then Some(ManageFiles)
    else if name == "trading_read" then Some(TradingRead)
    else if name == "trading_propose" then Some(TradingPropose)
    else if name == "trading_execute" then Some(TradingExecute)
    else if name == "admin" then Some(Admin)
    else None
  }

  /** A word of the vocabulary: nothing in it is special to the layout. */
  predicate IsWord(s: string) {
    s != [] && forall k | 0 <= k < |s| :: IsLower(s[k]) || s[k] == '_'
  }

  lemma WordLacks(s: string, c: char)
    requires IsWord(s) && !IsLower(c) && c != '_'
    ensures c !in s && s != []
  {
  }

  lemma NameKeyIsWord(key: Key)
    requires key.SchemaVersion? || key.Id? || key.Name? || key.Group? || key.Description? || key.ModelPolicy?
    ensures IsWord(KeyName(key))
  {
  }

  lemma LimitKeyIsWord(key: Key)
    requires key.MaxRuntimeSeconds? || key.MaxContextChars? || key.MaxOutputChars? || key.MaxParallelRuns?
    ensures IsWord(KeyName(key))
  {
  }

  lemma KeyIsWord(key: Key)
    ensures IsWord(KeyName(key))
  {
    if key.MaxRuntimeSeconds? || key.MaxContextChars? || key.MaxOutputChars? || key.MaxParallelRuns? {
      LimitKeyIsWord(key);
    } else if !key.RequestedCapabilities? {
      NameKeyIsWord(key);
    }
  }

  lemma KeyReadBack(key: Key)
    ensures KeyOf(KeyName(key)) == Some(key)
  {
  }

  lemma TradingIsWord(c: Capability)
    requires c.TradingRead? || c.TradingPropose? || c.TradingExecute?
    ensures IsWord(CapabilityName(c))
  {
  }

  lemma CapabilityIsWord(c: Capability)
    ensures IsWord(CapabilityName(c))
  {
    if c.TradingRead? || c.TradingPropose? || c.TradingExecute? {
      TradingIsWord(c);
    }
  }

  lemma CapabilityReadBack(c: Capability)
    ensures CapabilityOf(CapabilityName(c)) == Some(c)
  {
  }

  // ---- Validation ----------------------------------------------------------------------

  function AsciiLower(s: string): string {
    if s == [] then []
    else [if IsUpper(s[0]) then (s[0] as int + 32) as char else s[0]] + AsciiLower(s[1..])
  }

  function PolicyOf(value: string): Option<Policy> {
    var word := AsciiLower(Trim(value));
    if word == "fast" || word == "utility" then Some(Fast)
    else if word == "default" || word == "standard" then Some(Standard)
    else if word == "strong" || word == "frontier" || word == "coding" || word == "trading" then Some(Strong)
    else if word == "research" then Some(Research)
    else None
  }

  predicate IsSafeId(s: string) {
    1 <= |s| <= 64 && forall k | 0 <= k < |s| :: IsAlphanumeric(s[k]) || s[k] == '-' || s[k] == '_'
  }

  predicate IsSafeLabel(s: string) {
    var t := Trim(s);
    1 <= |t| <= 80 && forall k | 0 <= k < |t| :: !IsControl(t[k])
  }

  predicate DistinctCapabilities(cs: seq<Capability>) {
    forall i, j | 0 <= i < j < |cs| :: cs[i] != cs[j]
  }

  predicate LimitsInRange(limits: Limits) {
    && 1 <= limits.maxRuntimeSeconds <= 3600
    && 1 <= limits.maxContextChars <= 200_000
    && 1 <= limits.maxOutputChars <= 100_000
    && 1 <= limits.maxParallelRuns <= 16
  }

  /** What is wrong with a definition, if anything. */
  function Fault(d: Definition): Option<ProfileError> {
    if || !IsSafeId(d.id) || !IsSafeLabel(d.name) || (d.group.Some? && !IsSafeLabel(d.group.value))
       || Trim(d.description) == [] || Trim(d.modelPolicy) == [] || Trim(d.instructions) == []
       || !LimitsInRange(d.limits)
    then Some(InvalidFields)
    else if PolicyOf(d.modelPolicy).None? then Some(UnknownPolicy)
    else if !DistinctCapabilities(d.capabilities) then Some(DuplicateCapability)
    else None
  }

  method AllDifferent(capabilities: seq<Capability>) returns (distinct: bool)
    ensures distinct <==> DistinctCapabilities(capabilities)
  {
    var listed: set<Capability> := {};
    for i := 0 to |capabilities|
      invariant forall c :: c in listed <==> c in capabilities[..i]
      invariant DistinctCapabilities(capabilities[..i])
    {
      assert capabilities[..i + 1] == capabilities[..i] + [capabilities[i]];
      if capabilities[i] in listed {
        var k :| 0 <= k < i && capabilities[..i][k] == capabilities[i];
        assert capabilities[k] == capabilities[i];
        return false;
      }
      forall k | 0 <= k < i ensures capabilities[k] != capabilities[i] {
        assert capabilities[..i][k] == capabilities[k];
      }
      listed := listed + {capabilities[i]};
    }
    assert capabilities[..|capabilities|] == capabilities;
    return true;
  }

  /** The first complaint about a definition, if there is one. */
  method ValidateDefinition(d: Definition) returns (fault: Option<ProfileError>)
    ensures fault == Fault(d)
  {
    hide IsSafeId, IsSafeLabel, Trim, PolicyOf, DistinctCapabilities;
    if !IsSafeId(d.id)
       || !IsSafeLabel(d.name)
       || (d.group.Some? && !IsSafeLabel(d.group.value))
       || Trim(d.description) == []
       || Trim(d.modelPolicy) == []
       || Trim(d.instructions) == []
       || d.limits.maxRuntimeSeconds == 0
       || d.limits.maxRuntimeSeconds > 3600
       || d.limits.maxContextChars == 0
       || d.limits.maxContextChars > 200_000
       || d.limits.maxOutputChars == 0
       || d.limits.maxOutputChars > 100_000
       || d.limits.maxParallelRuns == 0
       || d.limits.maxParallelRuns > 16 {
      return Some(InvalidFields);
    }
    if PolicyOf(d.modelPolicy).None? {
      return Some(UnknownPolicy);
    }
    var distinct := AllDifferent(d.capabilities);
    return if distinct then None else Some(DuplicateCapability);
  }

  // ---- The front matter, line by line --------------------------------------------------

  type Values = map<Key, string>

  /** The values so far, and whether list items may follow. */
  datatype Reading = Reading(values: Values, list: bool)

  function ReadLine(reading: Reading, line: string): Result<Reading, ProfileError> {
    var values := reading.values;
    if ITEM_MARK <= line then
      var item := Trim(line[|ITEM_MARK|..]);
      if !reading.list || item == [] then Failure(Malformed)
      else if RequestedCapabilities in values then
        Success(Reading(values[RequestedCapabilities := values[RequestedCapabilities] + "," + item], true))
      else Success(reading)
    else
      var parts := SplitOnce(line, ":");
      if parts.None? then Failure(Malformed)
      else
        var key, value := KeyOf(Trim(parts.value.0)), Trim(parts.value.1);
        if key.None? || key.value in values || (value == [] <==> key.value != RequestedCapabilities) then Failure(Malformed)
        else Success(Reading(values[key.value := value], key.value == RequestedCapabilities))
  }

  function ReadLines(reading: Reading, lines: seq<string>): Result<Reading, ProfileError>
    decreases |lines|
  {
    if lines == [] then Success(reading)
    else
      var next :- ReadLine(reading, lines[0]);
      ReadLines(next, lines[1..])
  }

  function FrontMatter(input: string): Result<Values, ProfileError> {
    var read :- ReadLines(Reading(map[], false), Lines(input));
    if SchemaVersion in read.values && read.values[SchemaVersion] == "1" then Success(read.values) else Failure(Malformed)
  }

  lemma ReadTurn(reading: Reading, lines: seq<string>, i: nat)
    requires i < |lines|
    ensures ReadLines(reading, lines[i..]) ==
            if ReadLine(reading, lines[i]).Failure? then Failure(ReadLine(reading, lines[i]).error)
            else ReadLines(ReadLine(reading, lines[i]).value, lines[i + 1..])
  {
    assert lines[i..][1..] == lines[i + 1..];
  }

  lemma ReadNothing(reading: Reading)
    ensures ReadLines(reading, []) == Success(reading)
  {
  }

  method ParseFrontMatter(input: string) returns (r: Result<Values, ProfileError>)
    ensures r == FrontMatter(input)
  {
    hide ReadLines, SplitOnce, Trim, KeyOf, Lines;
    var values: Values := map[];
    var activeList := false;
    var lines := Lines(input);
    var i := 0;
    assert lines[0..] == lines;
    while i < |lines|
      invariant i <= |lines|
      invariant activeList ==> RequestedCapabilities in values
      invariant ReadLines(Reading(map[], false), lines) == ReadLines(Reading(values, activeList), lines[i..])
    {
      var line := lines[i];
      ReadTurn(Reading(values, activeList), lines, i);
      i := i + 1;
      if ITEM_MARK <= line {
        var item := Trim(line[|ITEM_MARK|..]);
        if !activeList || item == [] {
          return Failure(Malformed);
        }
        values := values[RequestedCapabilities := values[RequestedCapabilities] + "," + item];
        continue;
      }
      activeList := false;
      var parts := SplitOnce(line, ":");
      if parts.None? {
        return Failure(Malformed);
      }
      var key, value := KeyOf(Trim(parts.value.0)), Trim(parts.value.1);
      if key.None? || key.value in values {
        return Failure(Malformed);
      }
      if key.value == RequestedCapabilities {
        if value != [] {
          return Failure(Malformed);
        }
        activeList := true;
        values := values[RequestedCapabilities := []];
      } else if value == [] {
        return Failure(Malformed);
      } else {
        values := values[key.value := value];
      }
    }
    assert lines[|lines|..] == [];
    ReadNothing(Reading(values, activeList));
    r := if SchemaVersion in values && values[SchemaVersion] == "1" then Success(values) else Failure(Malformed);
  }

  // ---- The profile ---------------------------------------------------------------------

  function CapabilitiesOf(parts: seq<string>): Option<seq<Capability>> {
    if parts == [] then Some([])
    else if parts[0] == [] then CapabilitiesOf(parts[1..])
    else
      var first :- CapabilityOf(parts[0]);
      var rest :- CapabilitiesOf(parts[1..]);
      Some([first] + rest)
  }

  function Requested(values: Values): Option<seq<Capability>> {
    if RequestedCapabilities in values then CapabilitiesOf(SplitAll(values[RequestedCapabilities], ',')) else Some([])
  }

  function Number(values: Values, key: Key, max: nat): Option<nat> {
    if key in values then ParseNumber(values[key], max) else None
  }

  function LimitsOf(values: Values): Option<Limits> {
    var runtime :- Number(values, MaxRuntimeSeconds, U64_MAX);
    var context :- Number(values, MaxContextChars, U64_MAX);
    var output :- Number(values, MaxOutputChars, U64_MAX);
    var parallel :- Number(values, MaxParallelRuns, U16_MAX);
    Some(Limits(runtime, context, output, parallel))
  }

  function Assembled(values: Values, instructions: string): Option<Definition> {
    var capabilities :- Requested(values);
    var limits :- LimitsOf(values);
    if !(Id in values && Name in values && Description in values && ModelPolicy in values) then None
    else
      Some(Definition(values[Id], values[Name], if Group in values then Some(values[Group]) else None,
                      values[Description], values[ModelPolicy], Trim(instructions), capabilities, [], [], limits))
  }

  function Build(values: Values, instructions: string): Result<Definition, ProfileError> {
    var d := Assembled(values, instructions);
    if d.None? then Failure(Malformed)
    else if Fault(d.value).Some? then Failure(Fault(d.value).value)
    else Success(d.value)
  }

  function Parsed(markdown: string): Result<Definition, ProfileError> {
    if !(OPENING <= markdown) then Failure(Malformed)
    else
      var parts := SplitOnce(markdown[|OPENING|..], CLOSING);
      if parts.None? then Failure(Malformed)
      else
        var values :- FrontMatter(parts.value.0);
        Build(values, parts.value.1)
  }

  method ParseMarkdown(markdown: string) returns (r: Result<Definition, ProfileError>)
    ensures r == Parsed(markdown)
  {
    if !(OPENING <= markdown) {
      return Failure(Malformed);
    }
    var parts := SplitOnce(markdown[|OPENING|..], CLOSING);
    if parts.None? {
      return Failure(Malformed);
    }
    var values :- ParseFrontMatter(parts.value.0);
    var d := Assembled(values, parts.value.1);
    if d.None? {
      return Failure(Malformed);
    }
    var fault := ValidateDefinition(d.value);
    return if fault.Some? then Failure(fault.value) else Success(d.value);
  }

  // ---- The renderer --------------------------------------------------------------------

  datatype Field = Field(key: Key, value: string)

  function FieldLine(f: Field): string {
    KeyName(f.key) + ":" + (" " + f.value)
  }

  function FieldLines(fields: seq<Field>): (lines: seq<string>)
    ensures |lines| == |fields| && forall k | 0 <= k < |lines| :: lines[k] == FieldLine(fields[k])
  {
    if fields == [] then [] else [FieldLine(fields[0])] + FieldLines(fields[1..])
  }

  function Names(cs: seq<Capability>): (names: seq<string>)
    ensures |names| == |cs| && forall k | 0 <= k < |cs| :: names[k] == CapabilityName(cs[k])
  {
    if cs == [] then [] else [CapabilityName(cs[0])] + Names(cs[1..])
  }

  function ItemLines(names: seq<string>): (lines: seq<string>)
    ensures |lines| == |names| && forall k | 0 <= k < |lines| :: lines[k] == ITEM_MARK + names[k]
  {
    if names == [] then [] else [ITEM_MARK + names[0]] + ItemLines(names[1..])
  }

  /** What is written after a key; a definition without a group does not mention one. */
  function ValueOf(d: Definition, key: Key): Option<string> {
    match key
    case SchemaVersion => Some("1")
    case Id => Some(d.id)
    case Name => Some(d.name)
    case Group => d.group
    case Description => Some(d.description)
    case ModelPolicy => Some(d.modelPolicy)
    case RequestedCapabilities => None
    case MaxRuntimeSeconds => Some(Digits(d.limits.maxRuntimeSeconds))
    case MaxContextChars => Some(Digits(d.limits.maxContextChars))
    case MaxOutputChars => Some(Digits(d.limits.maxOutputChars))
    case MaxParallelRuns => Some(Digits(d.limits.maxParallelRuns))
  }

  /** The order of the keys; the list comes last. */
  function Rank(key: Key): nat {
    match key
    case SchemaVersion => 0
    case Id => 1
    case Name => 2
    case Group => 3
    case Description => 4
    case ModelPolicy => 5
    case MaxRuntimeSeconds => 6
    case MaxContextChars => 7
    case MaxOutputChars => 8
    case MaxParallelRuns => 9
    case RequestedCapabilities => 10
  }

  function KeyAt(i: nat): (key: Key)
    ensures i <= 10 ==> Rank(key) == i
  {
    if i == 0 then SchemaVersion
    else if i == 1 then Id
    else if i == 2 then Name
    else if i == 3 then Group
    else if i == 4 then Description
    else if i == 5 then ModelPolicy
    else if i == 6 then MaxRuntimeSeconds
    else if i == 7 then MaxContextChars
    else if i == 8 then MaxOutputChars
    else if i == 9 then MaxParallelRuns
    else RequestedCapabilities
  }

  /** The fields from a rank on. */
  function FieldsFrom(d: Definition, i: nat): seq<Field>
    decreases d, 10 - i
  {
    if i >= 10 then []
    else
      var value := ValueOf(d, KeyAt(i));
      (if value.Some? then [Field(KeyAt(i), value.value)] else []) + FieldsFrom(d, i + 1)
  }

  function Fields(d: Definition): seq<Field> {
    FieldsFrom(d, 0)
  }

  const LIST_LINE := KeyName(RequestedCapabilities) + ":"

  function ProfileLines(d: Definition): seq<string> {
    FieldLines(Fields(d)) + ([LIST_LINE] + ItemLines(Names(d.capabilities)))
  }

  function Render(d: Definition): string {
    OPENING + (Join(ProfileLines(d), '\n') + (CLOSING + d.instructions))
  }

  /** What fits after a key on one line. */
  predicate IsField(s: string) {
    s != [] && IsTrimmed(s) && NoNewline(s)
  }

  /** Valid, with single-line trimmed fields and no tool or action lists. */
  predicate Renderable(d: Definition) {
    && Fault(d).None?
    && IsField(d.id) && IsField(d.name) && IsField(d.description) && IsField(d.modelPolicy)
    && (d.group.Some? ==> IsField(d.group.value))
    && IsTrimmed(d.instructions)
    && d.allowedTools == [] && d.deniedActions == []
  }

  // ---- Reading the rendered lines ------------------------------------------------------

  lemma {:induction false} ReadAppended(reading: Reading, first: seq<string>, second: seq<string>)
    ensures ReadLines(reading, first + second) ==
            if ReadLines(reading, first).Failure? then ReadLines(reading, first)
            else ReadLines(ReadLines(reading, first).value, second)
    decreases |first|
  {
    if first == [] {
      assert first + second == second;
    } else {
      assert (first + second)[1..] == first[1..] + second;
      var next := ReadLine(reading, first[0]);
      if next.Success? {
        ReadAppended(next.value, first[1..], second);
      }
    }
  }

  lemma SplitAtColon(name: string, rest: string)
    requires IsWord(name)
    ensures SplitOnce(name + ":" + rest, ":") == Some((name, rest))
    ensures !(ITEM_MARK <= name + ":" + rest)
    ensures Trim(name) == name
  {
    assert name + ":" + rest == name + (":" + rest);
    SplitOnceSkips(name, ":" + rest, ":");
    assert (":" + rest)[1..] == rest && name + "" == name;
    assert (name + ":" + rest)[0] == name[0];
    TrimTrimmed(name);
  }

  lemma FieldRead(reading: Reading, f: Field)
    requires f.key != RequestedCapabilities && f.key !in reading.values && IsField(f.value)
    ensures ReadLine(reading, FieldLine(f)) == Success(Reading(reading.values[f.key := f.value], false))
  {
    KeyIsWord(f.key);
    SplitAtColon(KeyName(f.key), " " + f.value);
    TrimTrimmed(f.value);
    KeyReadBack(f.key);
  }

  lemma ListRead(reading: Reading)
    requires RequestedCapabilities !in reading.values
    ensures ReadLine(reading, LIST_LINE) == Success(Reading(reading.values[RequestedCapabilities := ""], true))
  {
    KeyIsWord(RequestedCapabilities);
    SplitAtColon(KeyName(RequestedCapabilities), "");
    assert LIST_LINE == LIST_LINE + "";
    KeyReadBack(RequestedCapabilities);
  }

  ghost predicate DistinctKeys(fields: seq<Field>) {
    forall i, j | 0 <= i < j < |fields| :: fields[i].key != fields[j].key
  }

  ghost predicate Holds(values: Values, fields: seq<Field>) {
    forall f <- fields :: f.key in values && values[f.key] == f.value
  }

  predicate IsKeyOf(fields: seq<Field>, key: Key) {
    exists f <- fields :: f.key == key
  }

  function Put(values: Values, fields: seq<Field>): Values
    decreases |fields|
  {
    if fields == [] then values else Put(values[fields[0].key := fields[0].value], fields[1..])
  }

  lemma {:induction false} PutHolds(values: Values, fields: seq<Field>)
    requires DistinctKeys(fields) && forall f <- fields :: f.key !in values
    ensures Holds(Put(values, fields), fields)
    ensures forall key <- Put(values, fields) :: key in values || IsKeyOf(fields, key)
    ensures forall key <- values :: key in Put(values, fields) && Put(values, fields)[key] == values[key]
    decreases |fields|
  {
    if fields != [] {
      var next := values[fields[0].key := fields[0].value];
      forall k | 1 <= k < |fields| ensures fields[k].key !in next {
        assert fields[0].key != fields[k].key && fields[k] in fields;
      }
      PutHolds(next, fields[1..]);
      forall f <- fields ensures f.key in Put(values, fields) && Put(values, fields)[f.key] == f.value {
        assert f == fields[0] || f in fields[1..];
      }
      forall key <- Put(values, fields) | key !in values ensures IsKeyOf(fields, key) {
        assert key == fields[0].key || IsKeyOf(fields[1..], key);
      }
    }
  }

  lemma ReadMore(reading: Reading, line: string, rest: seq<string>)
    requires ReadLine(reading, line).Success?
    ensures ReadLines(reading, [line] + rest) == ReadLines(ReadLine(reading, line).value, rest)
  {
    assert ([line] + rest)[1..] == rest;
  }

  lemma {:induction false} FieldsRead(values: Values, fields: seq<Field>)
    requires DistinctKeys(fields)
    requires forall f <- fields :: f.key != RequestedCapabilities && f.key !in values && IsField(f.value)
    ensures ReadLines(Reading(values, false), FieldLines(fields)) == Success(Reading(Put(values, fields), false))
    decreases |fields|
  {
    if fields != [] {
      var f := fields[0];
      var next := values[f.key := f.value];
      FieldRead(Reading(values, false), f);
      forall g <- fields[1..] ensures g.key !in next {
        var k :| 1 <= k < |fields| && fields[k] == g;
      }
      FieldsRead(next, fields[1..]);
      ReadMore(Reading(values, false), FieldLine(f), FieldLines(fields[1..]));
    }
  }

  /** What the list items add to the joined value. */
  function Joined(names: seq<string>): string {
    if names == [] then "" else "," + names[0] + Joined(names[1..])
  }

  predicate AreWords(names: seq<string>) {
    forall name <- names :: IsWord(name)
  }

  lemma ItemRead(values: Values, name: string)
    requires RequestedCapabilities in values && IsWord(name)
    ensures ReadLine(Reading(values, true), ITEM_MARK + name) ==
            Success(Reading(values[RequestedCapabilities := values[RequestedCapabilities] + "," + name], true))
  {
    TrimTrimmed(name);
    assert (ITEM_MARK + name)[|ITEM_MARK|..] == name;
  }

  lemma JoinedNext(name: string, rest: seq<string>)
    ensures Joined([name] + rest) == "," + (name + Joined(rest))
    ensures Joined([]) == ""
    ensures rest != [] ==> Joined(rest) != "" && Joined(rest)[0] == ','
  {
    assert ([name] + rest)[1..] == rest;
    assert "," + name + Joined(rest) == "," + (name + Joined(rest));
  }

  lemma ItemLinesNext(name: string, rest: seq<string>)
    ensures ItemLines([name] + rest) == [ITEM_MARK + name] + ItemLines(rest)
    ensures ItemLines([]) == []
  {
    assert ([name] + rest)[1..] == rest;
  }

  lemma {:induction false} ItemsRead(values: Values, names: seq<string>)
    requires RequestedCapabilities in values && AreWords(names)
    ensures ReadLines(Reading(values, true), ItemLines(names)) ==
            Success(Reading(values[RequestedCapabilities := values[RequestedCapabilities] + Joined(names)], true))
    decreases |names|
  {
    hide ReadLines, ReadLine, IsWord, Joined, ItemLines;
    var value := values[RequestedCapabilities];
    if names == [] {
      ItemLinesNext("", []);
      JoinedNext("", []);
      ReadNothing(Reading(values, true));
      assert value + "" == value;
      assert values[RequestedCapabilities := value] == values;
    } else {
      var name, rest := names[0], names[1..];
      var next := values[RequestedCapabilities := value + "," + name];
      assert names == [name] + rest;
      ItemLinesNext(name, rest);
      JoinedNext(name, rest);
      ItemRead(values, name);
      ItemsRead(next, rest);
      ReadMore(Reading(values, true), ITEM_MARK + name, ItemLines(rest));
      assert value + "," + name + Joined(rest) == value + ("," + (name + Joined(rest)));
      assert next[RequestedCapabilities := value + Joined(names)] == values[RequestedCapabilities := value + Joined(names)];
    }
  }

  lemma SplitAtComma(rest: string)
    ensures SplitAll("," + rest, ',') == [[]] + SplitAll(rest, ',')
  {
    assert ("," + rest)[1..] == rest;
  }

  /** One more name in front of the joined rest. */
  lemma NameIsSplit(name: string, joined: string, rest: seq<string>)
    requires IsWord(name) && SplitAll(joined, ',') == [[]] + rest
    requires joined == "" || (joined[0] == ',' && rest != [])
    ensures SplitAll("," + (name + joined), ',') == [[], name] + rest
  {
    WordLacks(name, ',');
    SplitAtComma(name + joined);
    if joined == "" {
      assert name + joined == name;
      SplitWhole(name, ',');
    } else {
      var after := joined[1..];
      assert joined == "," + after;
      SplitAtComma(after);
      assert SplitAll(after, ',') == ([[]] + rest)[1..] == rest;
      SplitStep(name, ',', after);
      assert name + joined == name + [','] + after;
    }
  }

  lemma NothingIsSplit()
    ensures SplitAll("", ',') == [[]]
  {
  }

  lemma {:induction false} JoinedIsSplit(names: seq<string>)
    requires AreWords(names)
    ensures SplitAll(Joined(names), ',') == [[]] + names
  {
    hide SplitAll, Joined;
    if names == [] {
      JoinedNext("", []);
      NothingIsSplit();
      assert [[]] + names == [[]];
    } else {
      var name, rest := names[0], names[1..];
      assert names == [name] + rest;
      JoinedIsSplit(rest);
      JoinedNext(name, rest);
      NameIsSplit(name, Joined(rest), rest);
      assert [[], name] + rest == [[]] + names;
    }
  }

  lemma {:induction false} NamesReadBack(cs: seq<Capability>)
    ensures AreWords(Names(cs)) && CapabilitiesOf(Names(cs)) == Some(cs)
  {
    if cs != [] {
      CapabilityIsWord(cs[0]);
      CapabilityReadBack(cs[0]);
      NamesReadBack(cs[1..]);
      assert Names(cs)[1..] == Names(cs[1..]);
      assert cs == [cs[0]] + cs[1..];
    }
  }

  lemma CapabilitiesReadBack(cs: seq<Capability>)
    ensures CapabilitiesOf(SplitAll(Joined(Names(cs)), ',')) == Some(cs)
  {
    NamesReadBack(cs);
    JoinedIsSplit(Names(cs));
    assert ([[]] + Names(cs))[1..] == Names(cs);
  }

  // ---- The layout ----------------------------------------------------------------------

  lemma StartsWithLine(line: string, rest: string)
    requires NoNewline(line) && line != "---"
    ensures !("---\n" <= line + "\n" + rest)
  {
    var s := line + "\n" + rest;
    if |line| < 3 {
      assert s[|line|] == '\n' && "---\n"[|line|] == '-';
    } else if |line| == 3 {
      assert s[..3] == line && "---\n"[..3] == "---";
    } else {
      assert s[3] == line[3] && line[3] in line;
    }
  }

  lemma StartsWithJoined(first: string, lines: seq<string>, rest: string)
    requires NoNewline(first) && first != "---"
    ensures !("---\n" <= Join([first] + lines, '\n') + (CLOSING + rest))
  {
    hide Join;
    var s := Join([first] + lines, '\n') + (CLOSING + rest);
    if lines == [] {
      JoinOne(first, '\n');
      assert [first] + lines == [first];
      StartsWithLine(first, CLOSING[1..] + rest);
      assert s == first + "\n" + (CLOSING[1..] + rest);
    } else {
      JoinStep(first, '\n', lines);
      StartsWithLine(first, Join(lines, '\n') + (CLOSING + rest));
      assert s == first + "\n" + (Join(lines, '\n') + (CLOSING + rest));
    }
  }

  lemma MarkerAfterNewline(tail: string)
    ensures CLOSING <= "\n" + tail ==> "---\n" <= tail
  {
    var s := "\n" + tail;
    assert forall k | 0 <= k < |tail| :: s[k + 1] == tail[k];
    if CLOSING <= s {
      assert s[1] == '-' && s[2] == '-' && s[3] == '-' && s[4] == '\n';
    }
  }

  lemma NewlineSkips(tail: string, inner: string, rest: string)
    requires !("---\n" <= tail) && SplitOnce(tail, CLOSING) == Some((inner, rest))
    ensures SplitOnce("\n" + tail, CLOSING) == Some((['\n'] + inner, rest))
  {
    MarkerAfterNewline(tail);
    assert ("\n" + tail)[1..] == tail;
  }

  lemma LineSkips(line: string, tail: string, inner: string, rest: string)
    requires NoNewline(line) && !("---\n" <= tail) && SplitOnce(tail, CLOSING) == Some((inner, rest))
    ensures SplitOnce(line + ("\n" + tail), CLOSING) == Some((line + (['\n'] + inner), rest))
  {
    NewlineSkips(tail, inner, rest);
    SplitOnceSkips(line, "\n" + tail, CLOSING);
  }

  lemma JoinNested(first: string, lines: seq<string>, more: string)
    requires lines != []
    ensures Join([first] + lines, '\n') == first + (['\n'] + Join(lines, '\n'))
    ensures Join([first] + lines, '\n') + more == first + ("\n" + (Join(lines, '\n') + more))
  {
    hide Join;
    JoinStep(first, '\n', lines);
    var inner := Join(lines, '\n');
    assert first + ['\n'] + inner == first + (['\n'] + inner);
    assert first + ['\n'] + inner + more == first + ("\n" + (inner + more));
  }

  lemma MarkerFirst(line: string, rest: string)
    requires NoNewline(line)
    ensures SplitOnce(line + (CLOSING + rest), CLOSING) == Some((line, rest))
  {
    SplitOnceSkips(line, CLOSING + rest, CLOSING);
    assert line + [] == line && (CLOSING + rest)[|CLOSING|..] == rest;
  }

  /** The marker after the lines is the first one, even when what follows has more. */
  lemma {:induction false} FirstMarker(lines: seq<string>, rest: string)
    requires lines != [] && forall line <- lines :: NoNewline(line) && line != "---"
    ensures SplitOnce(Join(lines, '\n') + (CLOSING + rest), CLOSING) == Some((Join(lines, '\n'), rest))
  {
    hide Join, SplitOnce;
    var first, later := lines[0], lines[1..];
    assert lines == [first] + later && first in lines && NoNewline(first);
    if later == [] {
      JoinOne(first, '\n');
      MarkerFirst(first, rest);
      assert lines == [first];
    } else {
      var inner := Join(later, '\n');
      FirstMarker(later, rest);
      assert later[0] in lines && later == [later[0]] + later[1..];
      StartsWithJoined(later[0], later[1..], rest);
      LineSkips(first, inner + (CLOSING + rest), inner, rest);
      JoinNested(first, later, CLOSING + rest);
    }
  }

  predicate IsWholeLine(line: string) {
    line != [] && NoNewline(line) && StripReturn(line) == line && line != "---"
  }

  lemma FieldIsLine(f: Field)
    requires IsField(f.value)
    ensures IsWholeLine(FieldLine(f))
  {
    KeyIsWord(f.key);
    WordLacks(KeyName(f.key), '\n');
    WordLacks(KeyName(f.key), '-');
    assert FieldLine(f)[0] == KeyName(f.key)[0];
    assert FieldLine(f)[|FieldLine(f)| - 1] == f.value[|f.value| - 1];
  }

  lemma ItemIsLine(name: string)
    requires IsWord(name)
    ensures IsWholeLine(ITEM_MARK + name)
  {
    WordLacks(name, '\n');
    var line := ITEM_MARK + name;
    assert line[0] == ' ' && line[|line| - 1] == name[|name| - 1];
  }

  lemma ListLineIsLine()
    ensures IsWholeLine(LIST_LINE)
  {
    KeyIsWord(RequestedCapabilities);
    WordLacks(KeyName(RequestedCapabilities), '\n');
    WordLacks(KeyName(RequestedCapabilities), '-');
    assert LIST_LINE[0] == KeyName(RequestedCapabilities)[0];
  }

  lemma ValueFits(d: Definition, key: Key)
    requires Renderable(d) && ValueOf(d, key).Some?
    ensures IsField(ValueOf(d, key).value)
  {
    hide Digits, ParseNumber;
    ParsePrinted(d.limits.maxRuntimeSeconds, U64_MAX);
    ParsePrinted(d.limits.maxContextChars, U64_MAX);
    ParsePrinted(d.limits.maxOutputChars, U64_MAX);
    ParsePrinted(d.limits.maxParallelRuns, U16_MAX);
    assert IsField("1");
  }

  /** The fields say what the definition says, each key once. */
  lemma {:induction false} FieldsFit(d: Definition, i: nat)
    requires Renderable(d)
    ensures DistinctKeys(FieldsFrom(d, i))
    ensures forall f <- FieldsFrom(d, i) ::
              i <= Rank(f.key) < 10 && ValueOf(d, f.key) == Some(f.value) && IsField(f.value)
    ensures forall key | i <= Rank(key) && ValueOf(d, key).Some? :: Field(key, ValueOf(d, key).value) in FieldsFrom(d, i)
    decreases d, 10 - i
  {
    hide ValueOf, KeyAt, IsField, Renderable;
    if i < 10 {
      FieldsFit(d, i + 1);
      if ValueOf(d, KeyAt(i)).Some? {
        ValueFits(d, KeyAt(i));
      }
      forall key | i <= Rank(key) && ValueOf(d, key).Some? ensures Field(key, ValueOf(d, key).value) in FieldsFrom(d, i) {
        if i == Rank(key) {
          SameRank(key, KeyAt(i));
        }
      }
    } else {
      forall key | i <= Rank(key) ensures ValueOf(d, key).None? {
        OnlyTheListIsLast(d, key);
      }
    }
  }

  lemma OnlyTheListIsLast(d: Definition, key: Key)
    requires Rank(key) >= 10
    ensures ValueOf(d, key).None?
  {
  }

  lemma SameRank(key: Key, other: Key)
    requires Rank(key) == Rank(other)
    ensures key == other
  {
  }

  lemma LayoutFits(fields: seq<Field>, names: seq<string>)
    requires (forall f <- fields :: IsField(f.value)) && AreWords(names)
    ensures forall line <- FieldLines(fields) + ([LIST_LINE] + ItemLines(names)) :: IsWholeLine(line)
  {
    ListLineIsLine();
    forall line <- FieldLines(fields) ensures IsWholeLine(line) {
      var k :| 0 <= k < |fields| && FieldLines(fields)[k] == line;
      FieldIsLine(fields[k]);
    }
    forall line <- ItemLines(names) ensures IsWholeLine(line) {
      var k :| 0 <= k < |names| && ItemLines(names)[k] == line;
      assert names[k] in names;
      ItemIsLine(names[k]);
    }
  }

  /** The values a rendered definition is read as. */
  function Written(d: Definition): Values {
    Put(map[], Fields(d))[RequestedCapabilities := Joined(Names(d.capabilities))]
  }

  lemma ListLinesRead(values: Values, names: seq<string>)
    requires RequestedCapabilities !in values && AreWords(names)
    ensures ReadLines(Reading(values, false), [LIST_LINE] + ItemLines(names)) ==
            Success(Reading(values[RequestedCapabilities := Joined(names)], true))
  {
    ListRead(Reading(values, false));
    ReadMore(Reading(values, false), LIST_LINE, ItemLines(names));
    ItemsRead(values[RequestedCapabilities := ""], names);
    assert "" + Joined(names) == Joined(names);
    assert values[RequestedCapabilities := ""][RequestedCapabilities := Joined(names)] == values[RequestedCapabilities := Joined(names)];
  }

  /** The fields, read into a map. */
  lemma PutSays(d: Definition)
    requires Renderable(d)
    ensures forall key :: key in Put(map[], Fields(d)) <==> ValueOf(d, key).Some?
    ensures forall key <- Put(map[], Fields(d)) :: Put(map[], Fields(d))[key] == ValueOf(d, key).value
  {
    var fields := Fields(d);
    var put := Put(map[], fields);
    FieldsFit(d, 0);
    PutHolds(map[], fields);
    forall key ensures key in put <==> ValueOf(d, key).Some? {
      if ValueOf(d, key).Some? {
        assert Field(key, ValueOf(d, key).value) in fields;
      }
      if key in put {
        assert IsKeyOf(fields, key);
      }
    }
    forall key <- put ensures put[key] == ValueOf(d, key).value {
      assert Field(key, ValueOf(d, key).value) in fields;
    }
  }

  lemma LayoutRead(fields: seq<Field>, names: seq<string>)
    requires DistinctKeys(fields) && (forall f <- fields :: f.key != RequestedCapabilities && IsField(f.value))
    requires RequestedCapabilities !in Put(map[], fields) && AreWords(names)
    ensures ReadLines(Reading(map[], false), FieldLines(fields) + ([LIST_LINE] + ItemLines(names))) ==
            Success(Reading(Put(map[], fields)[RequestedCapabilities := Joined(names)], true))
  {
    FieldsRead(map[], fields);
    ListLinesRead(Put(map[], fields), names);
    ReadAppended(Reading(map[], false), FieldLines(fields), [LIST_LINE] + ItemLines(names));
  }

  /** A front matter that gives the fields and the list of a definition. */
  ghost predicate Says(values: Values, d: Definition) {
    && (forall key | key != RequestedCapabilities :: key in values <==> ValueOf(d, key).Some?)
    && (forall key <- values | key != RequestedCapabilities :: values[key] == ValueOf(d, key).value)
    && RequestedCapabilities in values && values[RequestedCapabilities] == Joined(Names(d.capabilities))
  }

  lemma NumberReadBack(values: Values, key: Key, n: nat, max: nat)
    requires key in values && values[key] == Digits(n) && n <= max
    ensures Number(values, key, max) == Some(n)
  {
    ParsePrinted(n, max);
  }

  lemma LimitKeysGiven(values: Values, d: Definition)
    requires Says(values, d)
    ensures MaxRuntimeSeconds in values && values[MaxRuntimeSeconds] == Digits(d.limits.maxRuntimeSeconds)
    ensures MaxContextChars in values && values[MaxContextChars] == Digits(d.limits.maxContextChars)
    ensures MaxOutputChars in values && values[MaxOutputChars] == Digits(d.limits.maxOutputChars)
    ensures MaxParallelRuns in values && values[MaxParallelRuns] == Digits(d.limits.maxParallelRuns)
  {
  }

  lemma LimitsReadBack(values: Values, d: Definition)
    requires Says(values, d) && LimitsInRange(d.limits)
    ensures LimitsOf(values) == Some(d.limits)
  {
    LimitKeysGiven(values, d);
    NumberReadBack(values, MaxRuntimeSeconds, d.limits.maxRuntimeSeconds, U64_MAX);
    NumberReadBack(values, MaxContextChars, d.limits.maxContextChars, U64_MAX);
    NumberReadBack(values, MaxOutputChars, d.limits.maxOutputChars, U64_MAX);
    NumberReadBack(values, MaxParallelRuns, d.limits.maxParallelRuns, U16_MAX);
  }

  lemma RequestedBack(values: Values, d: Definition)
    requires Says(values, d)
    ensures Requested(values) == Some(d.capabilities)
  {
    CapabilitiesReadBack(d.capabilities);
  }

  lemma NeededKeysGiven(values: Values, d: Definition)
    requires Says(values, d)
    ensures Id in values && values[Id] == d.id
    ensures Name in values && values[Name] == d.name
    ensures Description in values && values[Description] == d.description
    ensures ModelPolicy in values && values[ModelPolicy] == d.modelPolicy
    ensures (if Group in values then Some(values[Group]) else None) == d.group
  {
  }

  lemma AssembledBack(values: Values, d: Definition)
    requires Says(values, d) && LimitsInRange(d.limits) && IsTrimmed(d.instructions)
    requires d.allowedTools == [] && d.deniedActions == []
    ensures Assembled(values, d.instructions) == Some(d)
  {
    RequestedBack(values, d);
    LimitsReadBack(values, d);
    NeededKeysGiven(values, d);
    TrimTrimmed(d.instructions);
  }

  lemma LinesParsed(lines: seq<string>, instructions: string, values: Values)
    requires lines != [] && forall line <- lines :: IsWholeLine(line)
    requires ReadLines(Reading(map[], false), lines) == Success(Reading(values, true))
    requires SchemaVersion in values && values[SchemaVersion] == "1"
    ensures Parsed(OPENING + (Join(lines, '\n') + (CLOSING + instructions))) == Build(values, instructions)
  {
    var front := Join(lines, '\n');
    assert lines[|lines| - 1] in lines;
    FirstMarker(lines, instructions);
    LinesOfJoined(lines);
    assert (OPENING + (front + (CLOSING + instructions)))[|OPENING|..] == front + (CLOSING + instructions);
  }

  lemma LaidOutParsed(fields: seq<Field>, names: seq<string>, instructions: string)
    requires DistinctKeys(fields) && (forall f <- fields :: f.key != RequestedCapabilities && IsField(f.value))
    requires RequestedCapabilities !in Put(map[], fields) && AreWords(names)
    requires SchemaVersion in Put(map[], fields) && Put(map[], fields)[SchemaVersion] == "1"
    ensures Parsed(OPENING + (Join(FieldLines(fields) + ([LIST_LINE] + ItemLines(names)), '\n') + (CLOSING + instructions)))
         == Build(Put(map[], fields)[RequestedCapabilities := Joined(names)], instructions)
  {
    LayoutFits(fields, names);
    LayoutRead(fields, names);
    LinesParsed(FieldLines(fields) + ([LIST_LINE] + ItemLines(names)), instructions,
                Put(map[], fields)[RequestedCapabilities := Joined(names)]);
  }

  lemma RenderedIsBuilt(d: Definition)
    requires Renderable(d)
    ensures Parsed(Render(d)) == Build(Written(d), d.instructions)
  {
    hide Put, Parsed, Build, FieldsFrom, Renderable;
    var fields, names := Fields(d), Names(d.capabilities);
    assert DistinctKeys(fields) && (forall f <- fields :: f.key != RequestedCapabilities && IsField(f.value)) by {
      FieldsFit(d, 0);
    }
    assert SchemaVersion in Put(map[], fields) && Put(map[], fields)[SchemaVersion] == "1"
        && RequestedCapabilities !in Put(map[], fields) by {
      PutSays(d);
    }
    NamesReadBack(d.capabilities);
    LaidOutParsed(fields, names, d.instructions);
  }

  /**
   Rendering and parsing gives any renderable definition back, whatever its
   instructions contain and whatever capabilities it lists.
   */
  lemma ProfileReadsBack(d: Definition)
    requires Renderable(d)
    ensures Parsed(Render(d)) == Success(d)
  {
    RenderedIsBuilt(d);
    assert Says(Written(d), d) by {
      PutSays(d);
    }
    AssembledBack(Written(d), d);
  }

  // ---- What parsing can produce --------------------------------------------------------

  ghost predicate OnlyFields(values: Values) {
    forall key <- values | key != RequestedCapabilities :: IsField(values[key])
  }

  lemma LineKeepsFields(reading: Reading, line: string)
    requires OnlyFields(reading.values) && NoNewline(line) && ReadLine(reading, line).Success?
    ensures OnlyFields(ReadLine(reading, line).value.values)
  {
    if !(ITEM_MARK <= line) {
      SplitOnceJoins(line, ":");
      var value := SplitOnce(line, ":").value.1;
      assert forall c <- value :: c in line;
      TrimIsTrimmed(value);
    }
  }

  lemma {:induction false} LinesKeepFields(reading: Reading, lines: seq<string>)
    requires OnlyFields(reading.values) && (forall line <- lines :: NoNewline(line)) && ReadLines(reading, lines).Success?
    ensures OnlyFields(ReadLines(reading, lines).value.values)
    decreases |lines|
  {
    if lines != [] {
      LineKeepsFields(reading, lines[0]);
      LinesKeepFields(ReadLine(reading, lines[0]).value, lines[1..]);
    }
  }

  /** Nothing but renderable definitions comes out of the parser. */
  lemma ParsedIsRenderable(markdown: string)
    requires Parsed(markdown).Success?
    ensures Renderable(Parsed(markdown).value)
  {
    hide SplitOnce, Lines, ReadLines, Trim, IsTrimmed, Requested, LimitsOf;
    var parts := SplitOnce(markdown[|OPENING|..], CLOSING);
    var front := parts.value.0;
    NoLineHasANewline(front);
    LinesKeepFields(Reading(map[], false), Lines(front));
    TrimIsTrimmed(parts.value.1);
  }

  /** A definition is the result of parsing some text exactly when it is renderable. */
  lemma ParserRange(d: Definition)
    ensures (exists markdown :: Parsed(markdown) == Success(d)) <==> Renderable(d)
  {
    if Renderable(d) {
      ProfileReadsBack(d);
    }
    forall markdown | Parsed(markdown) == Success(d) ensures Renderable(d) {
      ParsedIsRenderable(markdown);
    }
  }
}
