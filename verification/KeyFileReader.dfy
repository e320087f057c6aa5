/** The streaming key-file reader against a specification of whole files. */
module KeyFileReader {
  import opened Bytes
  import opened KeyFileSyntax
  import opened Wrappers
  import Utf8

  const MAXIMUM_LINE_BYTES := 16 * 1024
  const MAXIMUM_TOTAL_BYTES := 1024 * 1024
  const MAXIMUM_LINE_COUNT := 4096

  type Values = map<ByteString, ByteString>

  datatype ReadResult = AllowedValues(values: Values) | Unreadable | Malformed

  /**
    A file as the reader finds it: whether it opens as a regular file, what it holds, and how far it can
    be read. A read that starts at or behind `readable` fails.
   */
  datatype File = File(opens: bool, content: ByteString, readable: nat)

  // ---- Whole files ----

  /** The length of the line a text begins with, its line feed included. */
  function LineLength(s: ByteString): (n: nat)
    ensures n <= |s| && (s != [] ==> n > 0)
  {
    var i := IndexOf(s, LINE_FEED);
    if i < |s| then i + 1 else |s|
  }

  function Lines(s: ByteString): seq<ByteString>
    decreases |s|
  {
    if s == [] then [] else [s[..LineLength(s)]] + Lines(s[LineLength(s)..])
  }

  ghost function ParsedLines(lines: seq<ByteString>, letterOrNumber: ByteString -> bool): (r: seq<Line>)
    ensures |r| == |lines|
  {
    seq(|lines|, i requires 0 <= i < |lines| => Parsed(WithoutLineEnd(lines[i]), letterOrNumber))
  }

  predicate HasHeader(parsed: seq<Line>) {
    exists i :: 0 <= i < |parsed| && parsed[i].Header?
  }

  /** Whether the last header of `parsed` names `section`. */
  predicate InSection(parsed: seq<Line>, section: ByteString) {
    parsed != [] &&
    var last := parsed[|parsed| - 1];
    if last.Header? then last.section == section else InSection(parsed[..|parsed| - 1], section)
  }

  /** The encoded value of the last assignment to `key` in any occurrence of `section`, searched from the end. */
  function LastValue(parsed: seq<Line>, section: ByteString, key: ByteString): Option<ByteString> {
    if parsed == [] then None
    else
      var last, before := parsed[|parsed| - 1], parsed[..|parsed| - 1];
      if last.Assignment? && last.key == key && InSection(before, section) then Some(last.value)
      else LastValue(before, section, key)
  }

  /** The header at `h` is the last one. */
  predicate IsLastHeader(parsed: seq<Line>, h: nat) {
    h < |parsed| && parsed[h].Header? && forall k :: h < k < |parsed| ==> !parsed[k].Header?
  }

  /** What follows is in a section exactly if the last header names it. */
  lemma {:induction false} InSectionExactly(parsed: seq<Line>, section: ByteString)
    ensures InSection(parsed, section) <==> exists h: nat :: IsLastHeader(parsed, h) && parsed[h] == Header(section)
  {
    if parsed != [] {
      var n := |parsed| - 1;
      var before := parsed[..n];
      InSectionExactly(before, section);
      if parsed[n].Header? {
        assert IsLastHeader(parsed, n);
      } else {
        forall h: nat | h < n
          ensures IsLastHeader(parsed, h) <==> IsLastHeader(before, h)
        {
          assert forall k :: 0 <= k < n ==> before[k] == parsed[k];
        }
      }
    }
  }

  /** The line at `i` assigns to the key in the section, and no later one does. */
  predicate IsLastAssignment(parsed: seq<Line>, section: ByteString, key: ByteString, i: nat) {
    i < |parsed| && Assigns(parsed, section, key, i) && forall k :: i < k < |parsed| ==> !Assigns(parsed, section, key, k)
  }

  /** A key has the value of its last assignment in the section. */
  lemma {:induction false} LastValueExactly(parsed: seq<Line>, section: ByteString, key: ByteString, value: ByteString)
    ensures LastValue(parsed, section, key) == Some(value) <==>
              exists i: nat :: IsLastAssignment(parsed, section, key, i) && parsed[i] == Assignment(key, value)
  {
    hide InSection;
    if parsed != [] {
      var n := |parsed| - 1;
      var before := parsed[..n];
      LastValueExactly(before, section, key, value);
      forall k | 0 <= k < n
        ensures before[k] == parsed[k] && (Assigns(before, section, key, k) <==> Assigns(parsed, section, key, k))
      {
        assert before[..k] == parsed[..k];
      }
      if Assigns(parsed, section, key, n) {
        assert IsLastAssignment(parsed, section, key, n);
      } else {
        forall i: nat | i < n
          ensures IsLastAssignment(parsed, section, key, i) <==> IsLastAssignment(before, section, key, i)
        {
        }
      }
    }
  }

  predicate Assigns(parsed: seq<Line>, section: ByteString, key: ByteString, k: nat)
    requires k < |parsed|
  {
    parsed[k].Assignment? && parsed[k].key == key && InSection(parsed[..k], section)
  }

  /** Where line `i` begins in the file. */
  function Offset(lines: seq<ByteString>, i: nat): nat
    requires i <= |lines|
  {
    |Concat(lines[..i])|
  }

  /** The limits and the syntax of line `i`, given the lines in front of it. */
  ghost predicate LineIsFine(lines: seq<ByteString>, letterOrNumber: ByteString -> bool, i: nat)
    requires i < |lines|
  {
    var parsed := ParsedLines(lines, letterOrNumber);
    && i < MAXIMUM_LINE_COUNT
    && |lines[i]| <= MAXIMUM_LINE_BYTES
    && Offset(lines, i + 1) <= MAXIMUM_TOTAL_BYTES
    && Utf8.IsText(lines[i])
    && !parsed[i].Bad?
    && (parsed[i].Assignment? ==> HasHeader(parsed[..i]))
  }

  /** The whole file keeps every limit, is text, and assigns nothing in front of its first section. */
  ghost predicate IsWellFormed(content: ByteString, letterOrNumber: ByteString -> bool) {
    var lines := Lines(content);
    var parsed := ParsedLines(lines, letterOrNumber);
    && |content| <= 1_048_576 && |lines| <= 4096 && (forall i :: 0 <= i < |lines| ==> |lines[i]| <= 16_384)
    && Utf8.IsText(content)
    && (forall i :: 0 <= i < |parsed| ==> !parsed[i].Bad? && (parsed[i].Assignment? ==> HasHeader(parsed[..i])))
  }

  ghost predicate LastValuesDecode(parsed: seq<Line>, section: ByteString, allowedKeys: set<ByteString>) {
    forall key | key in allowedKeys ::
      var last := LastValue(parsed, section, key);
      last.Some? ==> DecodedValue(last.value).Some?
  }

  /** What reading a whole file means. */
  ghost function Meaning(content: ByteString, section: ByteString, allowedKeys: set<ByteString>,
                         letterOrNumber: ByteString -> bool): ReadResult {
    var parsed := ParsedLines(Lines(content), letterOrNumber);
    if IsWellFormed(content, letterOrNumber) && Header(section) in parsed &&
       LastValuesDecode(parsed, section, allowedKeys) then
      AllowedValues(map key | key in allowedKeys && LastValue(parsed, section, key).Some? ::
                      DecodedValue(LastValue(parsed, section, key).value).value)
    else Malformed
  }

  // ---- Lines and the file they come from ----

  lemma {:induction false} LinesConcat(s: ByteString)
    ensures Concat(Lines(s)) == s
    decreases |s|
  {
    if s != [] {
      LinesConcat(s[LineLength(s)..]);
      assert s == s[..LineLength(s)] + s[LineLength(s)..];
    }
  }

  /** Checking line by line gives the verdict of checking the whole file. */
  lemma {:induction false} LinesAreText(s: ByteString)
    ensures Utf8.Valid(s) <==> forall line :: line in Lines(s) ==> Utf8.Valid(line)
    decreases |s|
  {
    hide Utf8.FrontLength;
    if s != [] {
      var n := LineLength(s);
      var front, rest := s[..n], s[n..];
      assert s == front + rest;
      LinesAreText(rest);
      if IndexOf(s, LINE_FEED) < |s| {
        assert front[|front| - 1] == LINE_FEED;
        Utf8.CutAfterAscii(front, rest);
      } else {
        assert rest == [] && front == s;
      }
    }
  }

  lemma {:induction false} ConcatSplits(a: seq<ByteString>, b: seq<ByteString>)
    ensures Concat(a + b) == Concat(a) + Concat(b)
  {
    if a == [] {
      assert a + b == b;
    } else {
      assert (a + b)[1..] == a[1..] + b;
      ConcatSplits(a[1..], b);
    }
  }

  lemma OffsetsGrow(lines: seq<ByteString>, i: nat)
    requires i <= |lines|
    ensures Offset(lines, i) <= Offset(lines, |lines|) == |Concat(lines)|
    ensures i < |lines| ==> Offset(lines, i + 1) == Offset(lines, i) + |lines[i]|
  {
    ConcatSplits(lines[..i], lines[i..]);
    assert lines == lines[..i] + lines[i..] == lines[..|lines|];
    if i < |lines| {
      assert lines[..i + 1] == lines[..i] + [lines[i]];
      ConcatSplits(lines[..i], [lines[i]]);
      assert Concat([lines[i]]) == lines[i] + Concat([]);
    }
  }

  lemma LinesAreTextIffWhole(content: ByteString)
    ensures Utf8.IsText(content) <==> forall line :: line in Lines(content) ==> Utf8.IsText(line)
  {
    hide Utf8.Valid, Utf8.IsText;
    LinesAreText(content);
    Utf8.TextIsValid(content);
    forall line | line in Lines(content)
      ensures Utf8.Valid(line) <==> Utf8.IsText(line)
    {
      Utf8.TextIsValid(line);
    }
  }

  /** A file is well formed exactly if each of its lines is fine where it stands. */
  lemma WellFormedLineByLine(content: ByteString, letterOrNumber: ByteString -> bool)
    ensures IsWellFormed(content, letterOrNumber) <==>
            forall i :: 0 <= i < |Lines(content)| ==> LineIsFine(Lines(content), letterOrNumber, i)
  {
    hide Utf8.IsText, Parsed, HasHeader, Lines, Concat, Offset;
    var lines := Lines(content);
    LinesConcat(content);
    LinesAreTextIffWhole(content);
    OffsetsGrow(lines, |lines|);
    if IsWellFormed(content, letterOrNumber) {
      forall i | 0 <= i < |lines|
        ensures LineIsFine(lines, letterOrNumber, i)
      {
        OffsetsGrow(lines, i + 1);
      }
    }
    if forall i :: 0 <= i < |lines| ==> LineIsFine(lines, letterOrNumber, i) {
      if lines == [] {
        LinesOfNothing(content);
      } else {
        assert LineIsFine(lines, letterOrNumber, |lines| - 1);
      }
      var parsed := ParsedLines(lines, letterOrNumber);
      forall i | 0 <= i < |lines|
        ensures |lines[i]| <= MAXIMUM_LINE_BYTES && Utf8.IsText(lines[i])
        ensures !parsed[i].Bad? && (parsed[i].Assignment? ==> HasHeader(parsed[..i]))
      {
        assert LineIsFine(lines, letterOrNumber, i);
      }
    }
  }

  lemma LinesOfNothing(content: ByteString)
    ensures Lines(content) == [] ==> content == []
  {
  }

  // ---- The reader ----

  /** `QFile::readLine`: the rest of the line, or its first `maximum` bytes. */
  function ReadLine(content: ByteString, position: nat, maximum: nat): ByteString
    requires position <= |content|
  {
    var n := LineLength(content[position..]);
    content[position..][..if n <= maximum then n else maximum]
  }

  /** Reading got to line `i` and every line before it was read and fine. */
  ghost predicate ReadsUpTo(file: File, letterOrNumber: ByteString -> bool, i: nat)
    requires i <= |Lines(file.content)|
  {
    var lines := Lines(file.content);
    forall j :: 0 <= j < i ==> Offset(lines, j) < file.readable && LineIsFine(lines, letterOrNumber, j)
  }

  ghost predicate FailsAt(file: File, letterOrNumber: ByteString -> bool, i: nat) {
    var lines := Lines(file.content);
    && i < |lines| && ReadsUpTo(file, letterOrNumber, i)
    && Offset(lines, i) >= file.readable
  }

  /** Whether the last assignment to `key` decodes says where `key` is: nowhere, invalid, or with its value. */
  ghost predicate KnowsKey(last: Option<ByteString>, key: ByteString, values: Values, invalidValues: set<ByteString>) {
    if last.None? then key !in values && key !in invalidValues
    else if DecodedValue(last.value).None? then key !in values && key in invalidValues
    else key in values && values[key] == DecodedValue(last.value).value && key !in invalidValues
  }

  /** What the reader knows of the lines it has read. */
  ghost predicate Knows(parsed: seq<Line>, section: ByteString, allowedKeys: set<ByteString>,
                        values: Values, invalidValues: set<ByteString>) {
    && values.Keys <= allowedKeys && invalidValues <= allowedKeys
    && forall key | key in allowedKeys :: KnowsKey(LastValue(parsed, section, key), key, values, invalidValues)
  }

  /** The reader's view of one line: a comment, a header, an assignment, or an error. */
  method Classify(line: ByteString, letterOrNumber: ByteString -> bool) returns (r: Line)
    ensures r == Parsed(line, letterOrNumber)
  {
    hide DropFront, DropBack, All, ParsedAssignment;
    var contentStart := FirstNonWhitespace(line);
    var content := line[contentStart..];
    if content == [] || content[0] == HASH {
      return Blank;
    }
    if content[0] == OPENING_BRACKET {
      var header := TrimmedGroupHeader(content);
      if |header| < 3 || header[|header| - 1] != CLOSING_BRACKET {
        return Bad;
      }
      var encodedSection := header[1..|header| - 1];
      var valid := IsValidGroupName(encodedSection);
      return if valid then Header(encodedSection) else Bad;
    }
    r := ClassifyAssignment(content, letterOrNumber);
  }

  /** The reader's view of a line that is neither empty nor a comment nor a header. */
  method ClassifyAssignment(content: ByteString, letterOrNumber: ByteString -> bool) returns (r: Line)
    ensures r == ParsedAssignment(content, letterOrNumber)
  {
    hide DropFront, DropBack, IndexOf, IsKeyName, All;
    var equals := IndexOf(content, EQUALS);
    if equals == |content| {
      return Bad;
    }
    var key := TrimmedKey(content[..equals]);
    if key == [] {
      return Bad;
    }
    var valid := IsValidKeyName(key, letterOrNumber);
    if !valid {
      return Bad;
    }
    var valueStart := FirstNonWhitespace(content[equals + 1..]);
    return Assignment(key, content[equals + 1..][valueStart..]);
  }

  /** One more line changes the section the reader is in, and at most one key's last value. */
  lemma OneMoreLine(parsed: seq<Line>, line: Line, section: ByteString)
    ensures var more := parsed + [line];
            && (HasHeader(more) <==> HasHeader(parsed) || line.Header?)
            && (InSection(more, section) <==> if line.Header? then line.section == section else InSection(parsed, section))
            && forall key :: LastValue(more, section, key) ==
                 if line.Assignment? && line.key == key && InSection(parsed, section) then Some(line.value)
                 else LastValue(parsed, section, key)
  {
    var more := parsed + [line];
    assert more[..|more| - 1] == parsed;
    if HasHeader(parsed) {
      var i :| 0 <= i < |parsed| && parsed[i].Header?;
      assert more[i].Header?;
    }
    if line.Header? {
      assert more[|parsed|].Header?;
    }
  }

  /** `ReadLine` reads the next line, or more than a line may have. */
  lemma ReadLineReadsLine(content: ByteString, position: nat)
    requires position < |content|
    ensures var line := ReadLine(content, position, MAXIMUM_LINE_BYTES + 1);
            var lines := Lines(content[position..]);
            && |line| > 0 && lines != []
            && if |line| > MAXIMUM_LINE_BYTES then |lines[0]| > MAXIMUM_LINE_BYTES
               else
                 && line == lines[0] && position + |line| <= |content|
                 && lines[1..] == Lines(content[position + |line|..])
                 && (line[|line| - 1] == LINE_FEED || position + |line| == |content|)
  {
    hide IndexOf;
    var rest := content[position..];
    var n := LineLength(rest);
    var line := ReadLine(content, position, MAXIMUM_LINE_BYTES + 1);
    assert Lines(rest) == [rest[..n]] + Lines(rest[n..]);
    assert |rest[..n]| == n;
    if |line| <= MAXIMUM_LINE_BYTES {
      assert line == rest[..n] && rest[n..] == content[position + n..];
    }
  }

  lemma NothingRead(lines: seq<ByteString>, section: ByteString, allowedKeys: set<ByteString>)
    ensures Offset(lines, 0) == 0
    ensures Tracks([], section, allowedKeys, false, false, false, map[], {})
  {
  }

  lemma FineLine(lines: seq<ByteString>, letterOrNumber: ByteString -> bool, i: nat)
    requires i < |lines|
    ensures var parsed := ParsedLines(lines, letterOrNumber);
            && parsed[i] == Parsed(WithoutLineEnd(lines[i]), letterOrNumber)
            && (LineIsFine(lines, letterOrNumber, i) <==>
                && i < MAXIMUM_LINE_COUNT && |lines[i]| <= MAXIMUM_LINE_BYTES
                && Offset(lines, i + 1) <= MAXIMUM_TOTAL_BYTES && Utf8.IsText(lines[i])
                && !parsed[i].Bad? && (parsed[i].Assignment? ==> HasHeader(parsed[..i])))
  {
    hide Utf8.IsText, Parsed, HasHeader;
  }

  lemma LinesLeft(content: ByteString, position: nat)
    requires position <= |content|
    ensures Lines(content[position..]) == [] <==> position == |content|
  {
  }

  /** A line that was read and is not fine ends the reading, and the file is not well formed. */
  lemma StopsAt(file: File, letterOrNumber: ByteString -> bool, i: nat)
    requires i < |Lines(file.content)| && ReadsUpTo(file, letterOrNumber, i)
    requires Offset(Lines(file.content), i) < file.readable
    requires !LineIsFine(Lines(file.content), letterOrNumber, i)
    ensures !(exists j :: FailsAt(file, letterOrNumber, j))
    ensures !IsWellFormed(file.content, letterOrNumber)
  {
    hide IsWellFormed, LineIsFine, Lines, Offset;
    WellFormedLineByLine(file.content, letterOrNumber);
  }

  /** What the reader knows of the sections it has seen, and of the keys. */
  ghost predicate Tracks(parsed: seq<Line>, section: ByteString, allowedKeys: set<ByteString>, hasSection: bool,
                         inRequestedSection: bool, hasRequestedSection: bool, values: Values,
                         invalidValues: set<ByteString>) {
    && (hasSection <==> HasHeader(parsed))
    && (inRequestedSection <==> InSection(parsed, section))
    && (hasRequestedSection <==> Header(section) in parsed)
    && Knows(parsed, section, allowedKeys, values, invalidValues)
  }

  /** The effect of one line on what the reader knows. */
  method Remember(line: Line, section: ByteString, allowedKeys: set<ByteString>, hasSection: bool,
                  inRequestedSection: bool, hasRequestedSection: bool, values: Values, invalidValues: set<ByteString>,
                  ghost parsed: seq<Line>)
    returns (hasSection': bool, inRequestedSection': bool, hasRequestedSection': bool, values': Values,
             invalidValues': set<ByteString>)
    requires Tracks(parsed, section, allowedKeys, hasSection, inRequestedSection, hasRequestedSection, values,
                    invalidValues)
    ensures Tracks(parsed + [line], section, allowedKeys, hasSection', inRequestedSection', hasRequestedSection',
                   values', invalidValues')
  {
    hide HasHeader, InSection, LastValue, DecodedValue;
    OneMoreLine(parsed, line, section);
    hasSection', inRequestedSection', hasRequestedSection' := hasSection, inRequestedSection, hasRequestedSection;
    values', invalidValues' := values, invalidValues;
    if line.Header? {
      hasSection' := true;
      inRequestedSection' := line.section == section;
      hasRequestedSection' := hasRequestedSection || inRequestedSection';
    } else if line.Assignment? && inRequestedSection && line.key in allowedKeys {
      var value := DecodeValue(line.value);
      if value == None {
        values' := values - {line.key};
        invalidValues' := invalidValues + {line.key};
      } else {
        invalidValues' := invalidValues - {line.key};
        values' := values[line.key := value.value];
      }
    }
  }

  /** `readAllowedKeyFileValuesWithError`. */
  method ReadAllowedKeyFileValues(file: File, section: ByteString, allowedKeys: set<ByteString>,
                                  letterOrNumber: ByteString -> bool) returns (r: ReadResult)
    ensures r.Unreadable? <==> !file.opens || exists i :: FailsAt(file, letterOrNumber, i)
    ensures r.Unreadable? || r == Meaning(file.content, section, allowedKeys, letterOrNumber)
  {
    hide Lines, Offset, Utf8.IsText, Parsed, ParsedLines, WithoutLineEnd, HasHeader, Tracks, IsWellFormed;
    hide LastValuesDecode, LineIsFine, ReadLine;
    if !file.opens {
      return Unreadable;
    }
    var values: Values, invalidValues: set<ByteString> := map[], {};
    var hasSection, inRequestedSection, hasRequestedSection := false, false, false;
    var totalBytes, lineCount, position := 0, 0, 0;
    ghost var lines := Lines(file.content);
    ghost var parsed := ParsedLines(lines, letterOrNumber);
    WellFormedLineByLine(file.content, letterOrNumber);
    NothingRead(lines, section, allowedKeys);
    assert parsed[..0] == [] && file.content[0..] == file.content;
    while position < |file.content|
      invariant 0 <= position <= |file.content| && 0 <= lineCount <= |lines|
      invariant totalBytes == position == Offset(lines, lineCount)
      invariant lines[lineCount..] == Lines(file.content[position..])
      invariant ReadsUpTo(file, letterOrNumber, lineCount)
      invariant Tracks(parsed[..lineCount], section, allowedKeys, hasSection, inRequestedSection, hasRequestedSection,
                       values, invalidValues)
      decreases |file.content| - position
    {
      ghost var i := lineCount;
      ReadLineReadsLine(file.content, position);
      assert lines[i..][0] == lines[i] && lines[i..][1..] == lines[i + 1..];
      if position >= file.readable {
        assert FailsAt(file, letterOrNumber, i);
        return Unreadable;
      }
      OffsetsGrow(lines, i);
      FineLine(lines, letterOrNumber, i);
      var line := ReadLine(file.content, position, MAXIMUM_LINE_BYTES + 1);
      lineCount := lineCount + 1;
      var endsWithLineFeed := line[|line| - 1] == LINE_FEED;
      if lineCount > MAXIMUM_LINE_COUNT || |line| > MAXIMUM_LINE_BYTES ||
         totalBytes > MAXIMUM_TOTAL_BYTES - |line| || (!endsWithLineFeed && position + |line| < |file.content|) {
        StopsAt(file, letterOrNumber, i);
        return Malformed;
      }
      position := position + |line|;
      totalBytes := totalBytes + |line|;
      var valid := Utf8.IsValidUtf8(line);
      if !valid {
        StopsAt(file, letterOrNumber, i);
        return Malformed;
      }
      var meaning := Classify(WithoutLineEnd(line), letterOrNumber);
      assert hasSection <==> HasHeader(parsed[..i]) by { TracksSections(parsed[..i], section, allowedKeys, hasSection,
        inRequestedSection, hasRequestedSection, values, invalidValues); }
      if meaning.Bad? || (meaning.Assignment? && !hasSection) {
        StopsAt(file, letterOrNumber, i);
        return Malformed;
      }
      hasSection, inRequestedSection, hasRequestedSection, values, invalidValues :=
        Remember(meaning, section, allowedKeys, hasSection, inRequestedSection, hasRequestedSection, values,
                 invalidValues, parsed[..i]);
      assert parsed[..i + 1] == parsed[..i] + [parsed[i]];
      assert LineIsFine(lines, letterOrNumber, i);
    }
    LinesLeft(file.content, position);
    assert parsed[..lineCount] == parsed;
    Concludes(parsed, section, allowedKeys, hasSection, inRequestedSection, hasRequestedSection, values, invalidValues);
    if !hasRequestedSection || invalidValues != {} {
      return Malformed;
    }
    return AllowedValues(values);
  }

  /** At the end of the file, what is known is what the file means. */
  lemma Concludes(parsed: seq<Line>, section: ByteString, allowedKeys: set<ByteString>, hasSection: bool,
                  inRequestedSection: bool, hasRequestedSection: bool, values: Values, invalidValues: set<ByteString>)
    requires Tracks(parsed, section, allowedKeys, hasSection, inRequestedSection, hasRequestedSection, values,
                    invalidValues)
    ensures hasRequestedSection <==> Header(section) in parsed
    ensures LastValuesDecode(parsed, section, allowedKeys) <==> invalidValues == {}
    ensures invalidValues == {} ==>
      values == map key | key in allowedKeys && LastValue(parsed, section, key).Some? ::
                  DecodedValue(LastValue(parsed, section, key).value).value
  {
    hide LastValue, DecodedValue, HasHeader, InSection;
    forall key | key in allowedKeys
      ensures KnowsKey(LastValue(parsed, section, key), key, values, invalidValues)
    {
    }
    if invalidValues != {} {
      var key :| key in invalidValues;
      assert KnowsKey(LastValue(parsed, section, key), key, values, invalidValues);
    }
  }

  lemma TracksSections(parsed: seq<Line>, section: ByteString, allowedKeys: set<ByteString>, hasSection: bool,
                       inRequestedSection: bool, hasRequestedSection: bool, values: Values,
                       invalidValues: set<ByteString>)
    requires Tracks(parsed, section, allowedKeys, hasSection, inRequestedSection, hasRequestedSection, values,
                    invalidValues)
    ensures hasSection <==> HasHeader(parsed)
  {
  }
}
