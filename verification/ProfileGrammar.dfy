/**
 What a private agent profile is (`jarvis-core/src/lib.rs`), said of its text as
 a whole instead of line by line: which front matter is accepted, what it
 means, and which definition a text stands for.
 */
module ProfileGrammar {
  import opened Wrappers
  import opened Shared
  import opened Pieces
  import opened Text
  import opened AgentProfile

  // ---- One line ---------------------------------------------------------------------

  predicate IsItem(line: string) {
    ITEM_MARK <= line
  }

  function ItemOf(line: string): string
    requires IsItem(line)
  {
    Trim(line[|ITEM_MARK|..])
  }

  /** The line gives `key` this value: they stand before and after its first colon. */
  ghost predicate Sets(line: string, key: Key, value: string) {
    && !IsItem(line)
    && exists left, right ::
         line == left + ":" + right && ':' !in left && Trim(left) == KeyName(key) && Trim(right) == value
  }

  lemma NamesKey(name: string, key: Key)
    ensures KeyOf(name) == Some(key) <==> name == KeyName(key)
  {
    KeyReadBack(key);
  }

  /** The text before a first colon has none. */
  lemma NoColonBefore(line: string)
    requires SplitOnce(line, ":").Some?
    ensures var parts := SplitOnce(line, ":").value; line == parts.0 + ":" + parts.1 && ':' !in parts.0
  {
    SplitOnceFirst(line, ":");
    hide SplitOnce;
    var left := SplitOnce(line, ":").value.0;
    forall k | 0 <= k < |left| ensures left[k] != ':' {
      assert !(":" <= line[k..]) && line[k..][0] == left[k];
    }
  }

  lemma SplitAtFirst(left: string, right: string)
    requires ':' !in left
    ensures SplitOnce(left + ":" + right, ":") == Some((left, right))
  {
    SplitHere(right);
    SplitOnceSkips(left, ":" + right, ":");
    assert left + ":" + right == left + (":" + right) && left + "" == left;
  }

  /** What the line-by-line reading finds in a line is what the line sets. */
  lemma SetsExactly(line: string, key: Key, value: string)
    ensures Sets(line, key, value) <==>
            && !IsItem(line) && SplitOnce(line, ":").Some?
            && KeyOf(Trim(SplitOnce(line, ":").value.0)) == Some(key) && Trim(SplitOnce(line, ":").value.1) == value
  {
    hide Trim, KeyOf, KeyName, SplitOnce;
    if SplitOnce(line, ":").Some? {
      NoColonBefore(line);
      NamesKey(Trim(SplitOnce(line, ":").value.0), key);
    }
    if Sets(line, key, value) {
      var left, right :|
        line == left + ":" + right && ':' !in left && Trim(left) == KeyName(key) && Trim(right) == value;
      SplitAtFirst(left, right);
    }
  }

  lemma SplitHere(right: string)
    ensures SplitOnce(":" + right, ":") == Some(("", right))
  {
    assert (":" + right)[1..] == right;
  }

  lemma SetsOnce(line: string, key: Key, value: string, key': Key, value': string)
    requires Sets(line, key, value) && Sets(line, key', value')
    ensures key == key' && value == value'
  {
    SetsExactly(line, key, value);
    SetsExactly(line, key', value');
  }

  // ---- All lines -----------------------------------------------------------------------

  ghost predicate Said(lines: seq<string>, key: Key, value: string) {
    exists k | 0 <= k < |lines| :: Sets(lines[k], key, value)
  }

  ghost predicate Mentioned(lines: seq<string>, key: Key) {
    exists value :: Said(lines, key, value)
  }

  /** The last line that is no list item starts the list. */
  ghost predicate Listing(lines: seq<string>) {
    exists j | 0 <= j < |lines| ::
      Sets(lines[j], RequestedCapabilities, "") && forall m | j < m < |lines| :: IsItem(lines[m])
  }

  /**
   A line may follow these: an item with something in it inside the list, or a
   key not given yet, with a value unless it starts the list.
   */
  ghost predicate MayFollow(lines: seq<string>, line: string) {
    if IsItem(line) then ItemOf(line) != "" && Listing(lines)
    else
      exists key, value ::
        Sets(line, key, value) && (value == "" <==> key == RequestedCapabilities) && !Mentioned(lines, key)
  }

  ghost predicate WellFormed(lines: seq<string>) {
    forall k | 0 <= k < |lines| :: MayFollow(lines[..k], lines[k])
  }

  /** All items, each after a comma. */
  function Items(lines: seq<string>): string {
    if lines == [] then ""
    else
      var last := lines[|lines| - 1];
      Items(lines[..|lines| - 1]) + if IsItem(last) then "," + ItemOf(last) else ""
  }

  /** The values are what the lines say, and all of it. */
  ghost predicate Tells(values: Values, lines: seq<string>) {
    && (forall key: Key, value: string | key != RequestedCapabilities ::
          key in values && values[key] == value <==> Said(lines, key, value))
    && (RequestedCapabilities in values <==> Said(lines, RequestedCapabilities, ""))
    && (if RequestedCapabilities in values then values[RequestedCapabilities] == Items(lines) else Items(lines) == "")
  }

  /** A reading after well-formed lines. */
  ghost predicate Reads(reading: Reading, lines: seq<string>) {
    Tells(reading.values, lines) && (reading.list <==> Listing(lines))
  }

  lemma SaidNext(lines: seq<string>, line: string, key: Key, value: string)
    ensures Said(lines + [line], key, value) <==> Said(lines, key, value) || Sets(line, key, value)
  {
    hide Sets;
    var all := lines + [line];
    if Said(lines, key, value) {
      var k :| 0 <= k < |lines| && Sets(lines[k], key, value);
      assert all[k] == lines[k];
    }
    if Sets(line, key, value) {
      assert all[|lines|] == line;
    }
  }

  lemma ListingNext(lines: seq<string>, line: string)
    ensures Listing(lines + [line]) <==>
            Sets(line, RequestedCapabilities, "") || (IsItem(line) && Listing(lines))
  {
    hide Sets, IsItem;
    var all := lines + [line];
    assert all[|lines|] == line && forall k | 0 <= k < |lines| :: all[k] == lines[k];
    if IsItem(line) && Listing(lines) {
      var j :| 0 <= j < |lines| && Sets(lines[j], RequestedCapabilities, "") && forall m | j < m < |lines| :: IsItem(lines[m]);
      assert Sets(all[j], RequestedCapabilities, "");
    }
    if Listing(all) {
      var j :| 0 <= j < |all| && Sets(all[j], RequestedCapabilities, "") && forall m | j < m < |all| :: IsItem(all[m]);
      if j < |lines| {
        assert Sets(lines[j], RequestedCapabilities, "") && IsItem(all[|lines|]);
        forall m | j < m < |lines| ensures IsItem(lines[m]) {
          assert IsItem(all[m]);
        }
      }
    }
  }

  lemma ItemsNext(lines: seq<string>, line: string)
    ensures Items(lines + [line]) == Items(lines) + if IsItem(line) then "," + ItemOf(line) else ""
  {
    assert (lines + [line])[..|lines|] == lines;
  }

  lemma NoItemSets(line: string)
    requires IsItem(line)
    ensures forall key: Key, value: string :: !Sets(line, key, value)
  {
  }

  /** The list is open only when it was started. */
  lemma ListingIsSaid(lines: seq<string>)
    requires Listing(lines)
    ensures Said(lines, RequestedCapabilities, "")
  {
  }

  lemma ItemStep(reading: Reading, lines: seq<string>, line: string)
    requires Reads(reading, lines) && IsItem(line)
    ensures ReadLine(reading, line).Success? <==> MayFollow(lines, line)
    ensures ReadLine(reading, line).Success? ==> Reads(ReadLine(reading, line).value, lines + [line])
  {
    hide Sets, Said, Listing, Items, ItemOf, Trim;
    NoItemSets(line);
    ListingNext(lines, line);
    ItemsNext(lines, line);
    if Listing(lines) {
      ListingIsSaid(lines);
    }
    assert ItemOf(line) == Trim(line[|ITEM_MARK|..]) by {
      ItemIs(line);
    }
    if ReadLine(reading, line).Success? {
      var next := ReadLine(reading, line).value;
      forall key: Key, value: string | key != RequestedCapabilities
        ensures key in next.values && next.values[key] == value <==> Said(lines + [line], key, value)
      {
        SaidNext(lines, line, key, value);
      }
      SaidNext(lines, line, RequestedCapabilities, "");
      assert Items(lines) + ("," + ItemOf(line)) == Items(lines) + "," + ItemOf(line);
    }
  }

  lemma ItemIs(line: string)
    requires IsItem(line)
    ensures ItemOf(line) == Trim(line[|ITEM_MARK|..])
  {
  }

  /** Every mention of the list starts it. */
  lemma MentionedIsTold(values: Values, lines: seq<string>, key: Key)
    requires Tells(values, lines) && WellFormed(lines)
    ensures key in values <==> Mentioned(lines, key)
  {
    hide Sets, Items;
    if key in values && key != RequestedCapabilities {
      assert Said(lines, key, values[key]);
    }
    if Mentioned(lines, key) && key == RequestedCapabilities {
      var value :| Said(lines, key, value);
      var k :| 0 <= k < |lines| && Sets(lines[k], key, value);
      ListIsEmpty(lines[..k], lines[k], value);
    }
  }

  lemma ListIsEmpty(lines: seq<string>, line: string, value: string)
    requires MayFollow(lines, line) && Sets(line, RequestedCapabilities, value)
    ensures value == ""
  {
    var key', value' :|
      Sets(line, key', value') && (value' == "" <==> key' == RequestedCapabilities) && !Mentioned(lines, key');
    SetsOnce(line, RequestedCapabilities, value, key', value');
  }

  lemma FieldStep(reading: Reading, lines: seq<string>, line: string)
    requires Reads(reading, lines) && WellFormed(lines) && !IsItem(line)
    ensures ReadLine(reading, line).Success? <==> MayFollow(lines, line)
    ensures ReadLine(reading, line).Success? ==> Reads(ReadLine(reading, line).value, lines + [line])
  {
    hide Said, Listing, Items, Trim, SplitOnce, KeyOf, Sets, Mentioned;
    var parts := SplitOnce(line, ":");
    if MayFollow(lines, line) {
      var key, value :|
        Sets(line, key, value) && (value == "" <==> key == RequestedCapabilities) && !Mentioned(lines, key);
      SetsExactly(line, key, value);
      MentionedIsTold(reading.values, lines, key);
    }
    if ReadLine(reading, line).Success? {
      var key, value := KeyOf(Trim(parts.value.0)).value, Trim(parts.value.1);
      SetsExactly(line, key, value);
      MentionedIsTold(reading.values, lines, key);
      FieldTold(reading.values, lines, line, key, value);
      ListingNext(lines, line);
      if key != RequestedCapabilities && Sets(line, RequestedCapabilities, "") {
        SetsOnce(line, key, value, RequestedCapabilities, "");
      }
    }
  }

  lemma FieldTold(values: Values, lines: seq<string>, line: string, key: Key, value: string)
    requires Tells(values, lines) && Sets(line, key, value) && key !in values && !Mentioned(lines, key)
    requires !IsItem(line) && (value == "" <==> key == RequestedCapabilities)
    ensures Tells(values[key := value], lines + [line])
  {
    hide Sets, Said, Items;
    var next := values[key := value];
    ItemsNext(lines, line);
    assert Items(lines) + "" == Items(lines);
    forall k: Key, v: string ensures Said(lines + [line], k, v) <==> Said(lines, k, v) || (k == key && v == value) {
      SaidNext(lines, line, k, v);
      if Sets(line, k, v) {
        SetsOnce(line, key, value, k, v);
      }
    }
    forall v: string ensures !Said(lines, key, v) {
    }
  }

  lemma NothingRead()
    ensures Reads(Reading(map[], false), [])
  {
  }

  lemma WellFormedNext(lines: seq<string>, line: string)
    ensures WellFormed(lines + [line]) <==> WellFormed(lines) && MayFollow(lines, line)
  {
    hide MayFollow;
    var all := lines + [line];
    assert all[..|lines|] == lines && all[|lines|] == line;
    assert forall k | 0 <= k < |lines| :: all[..k] == lines[..k] && all[k] == lines[k];
    if WellFormed(all) {
      forall k | 0 <= k < |lines| ensures MayFollow(lines[..k], lines[k]) {
        assert MayFollow(all[..k], all[k]);
      }
      assert MayFollow(all[..|lines|], all[|lines|]);
    }
  }

  /** The lines are read exactly when they are well formed, as what they say. */
  lemma {:induction false} ReadExactly(lines: seq<string>)
    ensures ReadLines(Reading(map[], false), lines).Success? <==> WellFormed(lines)
    ensures WellFormed(lines) ==> Reads(ReadLines(Reading(map[], false), lines).value, lines)
    decreases |lines|
  {
    hide ReadLines, Reads, MayFollow, WellFormed;
    var start := Reading(map[], false);
    if lines == [] {
      ReadNothing(start);
      NothingRead();
      NoLines();
    } else {
      var before, line := lines[..|lines| - 1], lines[|lines| - 1];
      assert lines == before + [line];
      ReadExactly(before);
      ReadAppended(start, before, [line]);
      WellFormedNext(before, line);
      if WellFormed(before) {
        var reading := ReadLines(start, before).value;
        ReadOne(reading, line);
        if IsItem(line) {
          ItemStep(reading, before, line);
        } else {
          FieldStep(reading, before, line);
        }
      }
    }
  }

  lemma NoLines()
    ensures WellFormed([])
  {
  }

  lemma ReadOne(reading: Reading, line: string)
    ensures ReadLines(reading, [line]) == ReadLine(reading, line)
  {
    var next := ReadLine(reading, line);
    if next.Success? {
      assert [line][1..] == [];
    }
  }

  /** Front matter is accepted exactly when it is well formed and says version 1, and means what its lines say. */
  lemma FrontMatterExactly(input: string)
    ensures FrontMatter(input).Success? <==> WellFormed(Lines(input)) && Said(Lines(input), SchemaVersion, "1")
    ensures FrontMatter(input).Success? ==> Tells(FrontMatter(input).value, Lines(input))
  {
    hide Lines, Said, WellFormed, Items, ReadLines;
    ReadExactly(Lines(input));
  }

  // ---- The whole profile ------------------------------------------------------------------

  ghost predicate SaidNumber(lines: seq<string>, key: Key, n: nat, max: nat) {
    exists text :: Said(lines, key, text) && ParseNumber(text, max) == Some(n)
  }

  /** These lines and instructions describe `d`. */
  ghost predicate Describes(lines: seq<string>, instructions: string, d: Definition) {
    && WellFormed(lines) && Said(lines, SchemaVersion, "1")
    && Said(lines, Id, d.id) && Said(lines, Name, d.name)
    && Said(lines, Description, d.description) && Said(lines, ModelPolicy, d.modelPolicy)
    && (if d.group.Some? then Said(lines, Group, d.group.value) else !Mentioned(lines, Group))
    && SaidNumber(lines, MaxRuntimeSeconds, d.limits.maxRuntimeSeconds, U64_MAX)
    && SaidNumber(lines, MaxContextChars, d.limits.maxContextChars, U64_MAX)
    && SaidNumber(lines, MaxOutputChars, d.limits.maxOutputChars, U64_MAX)
    && SaidNumber(lines, MaxParallelRuns, d.limits.maxParallelRuns, U16_MAX)
    && CapabilitiesOf(SplitAll(Items(lines), ',')) == Some(d.capabilities)
    && d.allowedTools == [] && d.deniedActions == []
    && d.instructions == Trim(instructions)
  }

  /** The closing marker does not stand before its place after the front matter. */
  ghost predicate ClosesHere(front: string, instructions: string) {
    forall k | 0 <= k < |front| :: !(CLOSING <= (front + CLOSING + instructions)[k..])
  }

  lemma NumberSaid(values: Values, lines: seq<string>, key: Key, n: nat, max: nat)
    requires Tells(values, lines) && key != RequestedCapabilities
    ensures Number(values, key, max) == Some(n) <==> SaidNumber(lines, key, n, max)
  {
    hide Said, ParseNumber, Items;
    if Number(values, key, max) == Some(n) {
      assert Said(lines, key, values[key]);
    }
  }

  lemma NoCapabilities()
    ensures CapabilitiesOf(SplitAll("", ',')) == Some([])
  {
    NothingIsSplit();
  }

  lemma RequestedSaid(values: Values, lines: seq<string>)
    requires Tells(values, lines)
    ensures Requested(values) == CapabilitiesOf(SplitAll(Items(lines), ','))
  {
    NoCapabilities();
  }

  lemma DescribesExactly(lines: seq<string>, values: Values, instructions: string, d: Definition)
    requires WellFormed(lines) && Said(lines, SchemaVersion, "1") && Tells(values, lines)
    ensures Assembled(values, instructions) == Some(d) <==> Describes(lines, instructions, d)
  {
    hide Said, Items, WellFormed, SaidNumber, Number, Requested, CapabilitiesOf, SplitAll, Trim, Mentioned;
    MentionedIsTold(values, lines, Group);
    RequestedSaid(values, lines);
    NumberSaid(values, lines, MaxRuntimeSeconds, d.limits.maxRuntimeSeconds, U64_MAX);
    NumberSaid(values, lines, MaxContextChars, d.limits.maxContextChars, U64_MAX);
    NumberSaid(values, lines, MaxOutputChars, d.limits.maxOutputChars, U64_MAX);
    NumberSaid(values, lines, MaxParallelRuns, d.limits.maxParallelRuns, U16_MAX);
  }

  lemma MarkerSplits(front: string, instructions: string)
    requires ClosesHere(front, instructions)
    ensures SplitOnce(front + CLOSING + instructions, CLOSING) == Some((front, instructions))
  {
    var s := front + CLOSING + instructions;
    SplitOnceFirst(s, CLOSING);
    assert s[|front|..] == CLOSING + instructions && CLOSING <= s[|front|..];
    var parts := SplitOnce(s, CLOSING).value;
    assert s[|parts.0|..] == CLOSING + parts.1 && CLOSING <= s[|parts.0|..];
    assert |parts.0| == |front|;
    assert parts.0 == s[..|front|] == front && parts.1 == s[|front| + |CLOSING|..] == instructions;
  }

  /**
   A text is parsed to a definition exactly when it consists of the opening
   line, front matter, the first closing line after that, and instructions, which
   together describe that definition, and it is valid.
   */
  lemma ProfileExactly(markdown: string, d: Definition)
    ensures Parsed(markdown) == Success(d) <==>
            exists front, instructions ::
              && markdown == OPENING + (front + CLOSING + instructions) && ClosesHere(front, instructions)
              && Describes(Lines(front), instructions, d) && Fault(d).None?
  {
    hide Lines, FrontMatter, Describes, Fault, Said, WellFormed, Assembled, SplitOnce, Trim, Tells;
    if Parsed(markdown) == Success(d) {
      var rest := markdown[|OPENING|..];
      SplitOnceFirst(rest, CLOSING);
      var front, instructions := SplitOnce(rest, CLOSING).value.0, SplitOnce(rest, CLOSING).value.1;
      assert markdown == OPENING + (front + CLOSING + instructions);
      FrontMatterExactly(front);
      DescribesExactly(Lines(front), FrontMatter(front).value, instructions, d);
    }
    forall front, instructions
      | && markdown == OPENING + (front + CLOSING + instructions) && ClosesHere(front, instructions)
        && Describes(Lines(front), instructions, d) && Fault(d).None?
      ensures Parsed(markdown) == Success(d)
    {
      assert markdown[|OPENING|..] == front + CLOSING + instructions;
      MarkerSplits(front, instructions);
      DescribesIsAccepted(Lines(front), instructions, d);
      FrontMatterExactly(front);
      DescribesExactly(Lines(front), FrontMatter(front).value, instructions, d);
    }
  }

  lemma DescribesIsAccepted(lines: seq<string>, instructions: string, d: Definition)
    requires Describes(lines, instructions, d)
    ensures WellFormed(lines) && Said(lines, SchemaVersion, "1")
  {
  }
}
