/**
  The escapes written into installed key files: the installer's two loops, the build's replacements,
  and what readers of those files make of the result.
 */
module Escaping {
  import opened Bytes
  import opened KeyFileSyntax
  import opened Wrappers

  // ---- The installer's escape of a Desktop Entry value ----

  function EscapedEntryByte(b: Byte): ByteString {
    if b == SPACE then [BACKSLASH, LETTER_S]
    else if b == TAB then [BACKSLASH, LETTER_T]
    else if b == BACKSLASH then [BACKSLASH, BACKSLASH]
    else [b]
  }

  function EscapedEntry(value: ByteString): ByteString {
    if value == [] then [] else EscapedEntryByte(value[0]) + EscapedEntry(value[1..])
  }

  /** `escape_desktop_entry_value`. */
  method EscapeDesktopEntryValue(value: ByteString) returns (result: ByteString)
    ensures result == EscapedEntry(value)
  {
    result := [];
    var index := 0;
    assert value[0..] == value;
    while index < |value|
      invariant index <= |value|
      invariant EscapedEntry(value) == result + EscapedEntry(value[index..])
    {
      assert value[index..][1..] == value[index + 1..];
      result := result + EscapedEntryByte(value[index]);
      index := index + 1;
    }
    assert result + [] == result;
  }

  /** A leading escape, or a leading plain byte, is decoded on its own. */
  lemma DecodesStep(b: Byte, rest: ByteString)
    ensures DecodedValue(EscapedEntryByte(b) + rest) == Before([b], DecodedValue(rest))
  {
    var s := EscapedEntryByte(b) + rest;
    assert s[|EscapedEntryByte(b)|..] == rest;
  }

  /** Decoding undoes the escape, for every value. */
  lemma {:induction false} EntryRoundTrip(value: ByteString)
    ensures DecodedValue(EscapedEntry(value)) == Some(value)
  {
    if value != [] {
      EntryRoundTrip(value[1..]);
      DecodesStep(value[0], EscapedEntry(value[1..]));
      assert [value[0]] + value[1..] == value;
    }
  }

  /** The line the installer writes for a key: `key=` and the escaped value. */
  function EntryLine(key: ByteString, value: ByteString): ByteString {
    key + [EQUALS] + EscapedEntry(value) + [LINE_FEED]
  }

  /** A key that is read back as it is written. */
  ghost predicate IsPlainKey(key: ByteString, letterOrNumber: ByteString -> bool) {
    && key != [] && key[0] != HASH && key[0] != OPENING_BRACKET && EQUALS !in key
    && !IsBlank(key[0]) && !IsBlank(key[|key| - 1]) && IsKeyName(key, letterOrNumber)
  }

  lemma {:induction false} EscapedShape(value: ByteString)
    ensures LINE_FEED in EscapedEntry(value) <==> LINE_FEED in value
    ensures EscapedEntry(value) == [] <==> value == []
    ensures value != [] ==>
              var e := EscapedEntry(value);
              && (e[|e| - 1] == CARRIAGE_RETURN <==> value[|value| - 1] == CARRIAGE_RETURN)
              && (IsBlank(e[0]) <==> value[0] == FORM_FEED)
  {
    if value != [] {
      var front, rest := EscapedEntryByte(value[0]), EscapedEntry(value[1..]);
      EscapedShape(value[1..]);
      assert value == [value[0]] + value[1..];
      assert EscapedEntry(value) == front + rest;
    }
  }

  lemma KeyIsTrimmed(key: ByteString)
    requires key != [] && !IsBlank(key[0]) && !IsBlank(key[|key| - 1])
    ensures Trim(key) == key
  {
    hide Trim;
    assert [] + key + [] == key;
    TrimIsExact([], key, []);
  }

  lemma LineIsNotTrimmed(key: ByteString, behind: ByteString)
    requires key != [] && !IsBlank(key[0])
    ensures DropFront(key + behind, IsBlank) == key + behind
  {
    assert (key + behind)[0] == key[0];
  }

  lemma KeyEndsAtEquals(key: ByteString, encoded: ByteString)
    requires EQUALS !in key
    ensures IndexOf(key + [EQUALS] + encoded, EQUALS) == |key|
  {
    hide IndexOf;
    var line := key + [EQUALS] + encoded;
    assert line[|key|] == EQUALS;
    IndexOfIs(line, EQUALS, |key|);
  }

  /** What the reader sees behind the `=` of the installer's line. */
  lemma {:induction false} WrittenLineIsAssignment(key: ByteString, encoded: ByteString,
                                                   letterOrNumber: ByteString -> bool)
    requires IsPlainKey(key, letterOrNumber)
    ensures Parsed(key + [EQUALS] + encoded, letterOrNumber) == Assignment(key, DropFront(encoded, IsBlank))
  {
    hide IndexOf, IsKeyName, DropFront, DropBack, Trim;
    var line := key + [EQUALS] + encoded;
    assert line == key + ([EQUALS] + encoded) && line[0] == key[0];
    LineIsNotTrimmed(key, [EQUALS] + encoded);
    KeyEndsAtEquals(key, encoded);
    KeyIsTrimmed(key);
    assert line[..|key|] == key && line[|key| + 1..] == encoded;
    assert ParsedAssignment(line, letterOrNumber) == Assignment(key, DropFront(encoded, IsBlank));
  }

  /**
    The whole line round trip, for every value that fits on a line: the reader gets the value back
    exactly if it neither begins with a form feed, which the reader trims, nor ends with a carriage
    return, which the reader takes for part of the line end.
   */
  lemma EntryLineRoundTrip(key: ByteString, value: ByteString, letterOrNumber: ByteString -> bool)
    requires IsPlainKey(key, letterOrNumber) && LINE_FEED !in value
    ensures var parsed := Parsed(WithoutLineEnd(EntryLine(key, value)), letterOrNumber);
            && parsed.Assignment? && parsed.key == key
            && (DecodedValue(parsed.value) == Some(value) <==>
                value == [] || (value[0] != FORM_FEED && value[|value| - 1] != CARRIAGE_RETURN))
  {
    hide IsKeyName, Parsed, DecodedValue, DropFront, EscapedEntry;
    var encoded := EscapedEntry(value);
    var unended := key + [EQUALS] + encoded;
    EscapedShape(value);
    EntryRoundTrip(value);
    assert EntryLine(key, value)[..|unended|] == unended;
    assert unended[|unended| - 1] == if encoded == [] then EQUALS else encoded[|encoded| - 1];
    if value != [] && value[|value| - 1] == CARRIAGE_RETURN {
      ReturnIsLost(key, value);
      var shorter := value[..|value| - 1];
      EntryRoundTrip(shorter);
      WrittenLineIsAssignment(key, EscapedEntry(shorter), letterOrNumber);
      TrimmedDecodesShorter(EscapedEntry(shorter));
    } else {
      assert WithoutLineEnd(EntryLine(key, value)) == unended;
      WrittenLineIsAssignment(key, encoded, letterOrNumber);
      TrimmedDecodesShorter(encoded);
    }
  }

  /** What `validate_path` demands of the bytes of a path: an absolute path on one line. */
  predicate IsOneLinePath(value: ByteString) {
    value != [] && value[0] == SLASH && LINE_FEED !in value && CARRIAGE_RETURN !in value
  }

  /** Every path that the installer accepts comes back from the line it writes. */
  lemma AcceptedPathsRoundTrip(key: ByteString, value: ByteString, letterOrNumber: ByteString -> bool)
    requires IsPlainKey(key, letterOrNumber) && IsOneLinePath(value)
    ensures var parsed := Parsed(WithoutLineEnd(EntryLine(key, value)), letterOrNumber);
            parsed.Assignment? && parsed.key == key && DecodedValue(parsed.value) == Some(value)
  {
    hide IsKeyName, Parsed, DecodedValue, EscapedEntry;
    EntryLineRoundTrip(key, value, letterOrNumber);
  }

  lemma ReturnIsLost(key: ByteString, value: ByteString)
    requires value != [] && value[|value| - 1] == CARRIAGE_RETURN
    ensures WithoutLineEnd(EntryLine(key, value)) == key + [EQUALS] + EscapedEntry(value[..|value| - 1])
  {
    hide EscapedEntry;
    var shorter := value[..|value| - 1];
    EscapedSplits(shorter, CARRIAGE_RETURN);
    assert value == shorter + [CARRIAGE_RETURN];
    var line, unended := EntryLine(key, value), key + [EQUALS] + EscapedEntry(value);
    assert line[..|line| - 1] == unended;
    assert unended == key + [EQUALS] + EscapedEntry(shorter) + [CARRIAGE_RETURN];
    assert unended[..|unended| - 1] == key + [EQUALS] + EscapedEntry(shorter);
  }

  lemma {:induction false} EscapedSplits(value: ByteString, last: Byte)
    ensures EscapedEntry(value + [last]) == EscapedEntry(value) + EscapedEntryByte(last)
  {
    if value == [] {
      assert value + [last] == [last] && [last][1..] == [];
    } else {
      assert (value + [last])[1..] == value[1..] + [last];
      EscapedSplits(value[1..], last);
    }
  }

  /** Trimming an encoded value takes away as many bytes of the decoded one. */
  lemma TrimmedDecodesShorter(encoded: ByteString)
    requires DecodedValue(encoded).Some?
    ensures var trimmed := DropFront(encoded, IsBlank);
            && DecodedValue(trimmed).Some?
            && |DecodedValue(trimmed).value| == |DecodedValue(encoded).value| - (|encoded| - |trimmed|)
            && (encoded == trimmed <==> encoded == [] || !IsBlank(encoded[0]))
  {
    hide DecodedValue;
    var trimmed := DropFront(encoded, IsBlank);
    var front := encoded[..|encoded| - |trimmed|];
    assert forall i :: 0 <= i < |front| ==> IsBlank(front[i]);
    assert encoded == front + trimmed;
    PlainDecodes(front, trimmed);
  }

  // ---- The escape of a D-Bus Exec argument ----

  function EscapedExecByte(b: Byte): ByteString {
    if b == BACKSLASH then [BACKSLASH, BACKSLASH, BACKSLASH, BACKSLASH]
    else if b == QUOTE then [BACKSLASH, BACKSLASH, QUOTE]
    else [b]
  }

  function EscapedExec(value: ByteString): ByteString {
    if value == [] then [] else EscapedExecByte(value[0]) + EscapedExec(value[1..])
  }

  /** `escape_dbus_exec_argument`. */
  method EscapeDBusExecArgument(value: ByteString) returns (result: ByteString)
    ensures result == EscapedExec(value)
  {
    result := [];
    var index := 0;
    assert value[0..] == value;
    while index < |value|
      invariant index <= |value|
      invariant EscapedExec(value) == result + EscapedExec(value[index..])
    {
      assert value[index..][1..] == value[index + 1..];
      result := result + EscapedExecByte(value[index]);
      index := index + 1;
    }
    assert result + [] == result;
  }

  /** The bytes a backslash quotes inside double quotes, in the shell's rules that D-Bus activation follows. */
  predicate IsQuotable(b: Byte) {
    b == QUOTE || b == BACKSLASH || b == DOLLAR || b == BACKTICK || b == LINE_FEED
  }

  /** The inside of a double-quoted argument, up to the closing quote, which must end the text. */
  function Unquoted(s: ByteString): Option<ByteString>
    decreases |s|
  {
    if s == [] then None
    else if s[0] == QUOTE then if |s| == 1 then Some([]) else None
    else if s[0] == BACKSLASH && |s| > 1 && IsQuotable(s[1]) then Before([s[1]], Unquoted(s[2..]))
    else Before([s[0]], Unquoted(s[1..]))
  }

  /** A whole argument in double quotes. */
  function ExecArgument(s: ByteString): Option<ByteString> {
    if s != [] && s[0] == QUOTE then Unquoted(s[1..]) else None
  }

  /** The argument that activation takes from the value of a service file's `Exec` line. */
  function ExecRead(encoded: ByteString): Option<ByteString> {
    match DecodedValue(encoded)
    case None => None
    case Some(decoded) => ExecArgument(decoded)
  }

  function QuotedByte(b: Byte): ByteString {
    if b == BACKSLASH || b == QUOTE then [BACKSLASH, b] else [b]
  }

  /** What one layer of decoding leaves of the escape: a backslash in front of `\` and of `"`. */
  function Quoted(value: ByteString): ByteString {
    if value == [] then [] else QuotedByte(value[0]) + Quoted(value[1..])
  }

  lemma ExecStep(b: Byte, rest: ByteString)
    ensures DecodedValue(EscapedExecByte(b) + rest) == Before(QuotedByte(b), DecodedValue(rest))
  {
    if b == BACKSLASH || b == QUOTE {
      var tail := EscapedEntryByte(b) + rest;
      assert EscapedExecByte(b) + rest == EscapedEntryByte(BACKSLASH) + tail;
      DecodesStep(BACKSLASH, tail);
      DecodesStep(b, rest);
      assert QuotedByte(b) == [BACKSLASH] + [b];
      assert DecodedValue(tail) == Before([b], DecodedValue(rest));
      BeforeJoins([BACKSLASH], [b], DecodedValue(rest));
    } else {
      assert ([b] + rest)[1..] == rest;
    }
  }

  lemma {:induction false} ExecDecodes(value: ByteString, rest: ByteString)
    ensures DecodedValue(EscapedExec(value) + rest) == Before(Quoted(value), DecodedValue(rest))
  {
    hide DecodedValue;
    if value == [] {
      assert [] + rest == rest;
      BeforeJoins([], [], DecodedValue(rest));
    } else {
      var tail := EscapedExec(value[1..]) + rest;
      ExecDecodes(value[1..], rest);
      assert EscapedExec(value) + rest == EscapedExecByte(value[0]) + tail;
      ExecStep(value[0], tail);
      BeforeJoins(QuotedByte(value[0]), Quoted(value[1..]), DecodedValue(rest));
    }
  }

  lemma {:induction false} QuotedUnquotes(value: ByteString)
    ensures Unquoted(Quoted(value) + [QUOTE]) == Some(value)
  {
    if value != [] {
      var s, tail := Quoted(value) + [QUOTE], Quoted(value[1..]) + [QUOTE];
      QuotedUnquotes(value[1..]);
      assert [value[0]] + value[1..] == value;
      assert s == QuotedByte(value[0]) + tail && s[|QuotedByte(value[0])|..] == tail;
    }
  }

  /** Key-file decoding and then unquoting the argument undo the escape, for every value. */
  lemma {:induction false} ExecRoundTrip(value: ByteString)
    ensures ExecRead([QUOTE] + EscapedExec(value) + [QUOTE]) == Some(value)
  {
    assert [QUOTE] + EscapedExec(value) + [QUOTE] == [QUOTE] + (EscapedExec(value) + [QUOTE]);
    PlainDecodes([QUOTE], EscapedExec(value) + [QUOTE]);
    ExecDecodes(value, [QUOTE]);
    PlainDecodes([QUOTE], []);
    assert [QUOTE] + [] == [QUOTE];
    QuotedUnquotes(value);
    assert ([QUOTE] + (Quoted(value) + [QUOTE]))[1..] == Quoted(value) + [QUOTE];
  }

  // ---- The build's replacements ----

  /** `string(REPLACE)` with a pattern of one byte. */
  function Replaced(s: ByteString, pattern: Byte, replacement: ByteString): ByteString {
    if s == [] then [] else (if s[0] == pattern then replacement else [s[0]]) + Replaced(s[1..], pattern, replacement)
  }

  /** `remmina_escape_dbus_exec_argument`: `None` is its fatal error for a path that is not absolute. */
  method EscapeDBusExec(absolute: bool, value: ByteString) returns (output: Option<ByteString>)
    ensures output == if absolute then Some([QUOTE] + EscapedExec(value) + [QUOTE]) else None
  {
    if !absolute {
      return None;
    }
    var escaped := value;
    escaped := Replaced(escaped, BACKSLASH, [BACKSLASH, BACKSLASH, BACKSLASH, BACKSLASH]);
    escaped := Replaced(escaped, QUOTE, [BACKSLASH, BACKSLASH, QUOTE]);
    TwoPassesAreOne(value);
    return Some([QUOTE] + escaped + [QUOTE]);
  }

  lemma {:induction false} ReplacedSplits(a: ByteString, b: ByteString, pattern: Byte, replacement: ByteString)
    ensures Replaced(a + b, pattern, replacement) == Replaced(a, pattern, replacement) + Replaced(b, pattern, replacement)
  {
    if a == [] {
      assert a + b == b;
    } else {
      assert (a + b)[1..] == a[1..] + b;
      ReplacedSplits(a[1..], b, pattern, replacement);
    }
  }

  lemma {:induction false} ReplacedKeeps(s: ByteString, pattern: Byte, replacement: ByteString)
    requires pattern !in s
    ensures Replaced(s, pattern, replacement) == s
  {
    if s != [] {
      ReplacedKeeps(s[1..], pattern, replacement);
    }
  }

  /** The build's two successive replacements are the installer's one pass. */
  lemma {:induction false} TwoPassesAreOne(value: ByteString)
    ensures Replaced(Replaced(value, BACKSLASH, [BACKSLASH, BACKSLASH, BACKSLASH, BACKSLASH]), QUOTE,
                     [BACKSLASH, BACKSLASH, QUOTE]) == EscapedExec(value)
  {
    var four, quote := [BACKSLASH, BACKSLASH, BACKSLASH, BACKSLASH], [BACKSLASH, BACKSLASH, QUOTE];
    if value != [] {
      TwoPassesAreOne(value[1..]);
      var front := if value[0] == BACKSLASH then four else [value[0]];
      ReplacedSplits(front, Replaced(value[1..], BACKSLASH, four), QUOTE, quote);
      if value[0] == QUOTE {
        assert [QUOTE][1..] == [] && quote + [] == quote;
      } else {
        ReplacedKeeps(front, QUOTE, quote);
      }
    }
  }

  /** The passes do not commute: quotes first goes wrong exactly on values that contain a quote. */
  lemma {:induction false} OrderOfPassesMatters(value: ByteString)
    ensures var four, quote := [BACKSLASH, BACKSLASH, BACKSLASH, BACKSLASH], [BACKSLASH, BACKSLASH, QUOTE];
            var swapped := Replaced(Replaced(value, QUOTE, quote), BACKSLASH, four);
            && |swapped| >= |EscapedExec(value)|
            && (|swapped| == |EscapedExec(value)| <==> QUOTE !in value)
            && (QUOTE !in value ==> swapped == EscapedExec(value))
  {
    var four, quote := [BACKSLASH, BACKSLASH, BACKSLASH, BACKSLASH], [BACKSLASH, BACKSLASH, QUOTE];
    if value != [] {
      OrderOfPassesMatters(value[1..]);
      assert value == [value[0]] + value[1..];
      var front := if value[0] == QUOTE then quote else [value[0]];
      ReplacedSplits(front, Replaced(value[1..], QUOTE, quote), BACKSLASH, four);
      assert [BACKSLASH][1..] == [] && four + [] == four;
      if value[0] == QUOTE {
        ReplacedSplits([BACKSLASH], [BACKSLASH, QUOTE], BACKSLASH, four);
        assert [BACKSLASH] + [BACKSLASH, QUOTE] == quote;
      } else if value[0] != BACKSLASH {
        ReplacedKeeps(front, BACKSLASH, four);
      }
    }
  }
}
