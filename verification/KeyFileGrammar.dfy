/** The lines of a key file, said as text is written and without the reader's tests on positions. */
module KeyFileGrammar {
  import opened Bytes
  import opened KeyFileSyntax
  import opened Wrappers
  import Utf8

  /** Spaces, tabs and form feeds. */
  ghost predicate AreBlanks(s: ByteString) {
    forall b :: b in s ==> b == 0x20 || b == 0x09 || b == 0x0C
  }

  ghost predicate AreSpacesAndTabs(s: ByteString) {
    forall b :: b in s ==> b == 0x20 || b == 0x09
  }

  ghost predicate BeginsUnblank(s: ByteString) {
    s == [] || !(s[0] == 0x20 || s[0] == 0x09 || s[0] == 0x0C)
  }

  ghost predicate EndsUnblank(s: ByteString) {
    s == [] || BeginsUnblank([s[|s| - 1]])
  }

  /** A name without brackets. */
  ghost predicate IsPlain(name: ByteString) {
    name != [] && 0x5B !in name && 0x5D !in name
  }

  /** The name of a section: no brackets and no control bytes. */
  ghost predicate IsSectionName(name: ByteString) {
    IsPlain(name) && forall b :: b in name ==> b >= 0x20 && b != 0x7F
  }

  /** A hyphen, an underscore, a full stop or an at sign. */
  ghost predicate IsLocaleMark(c: ByteString) {
    c == [0x2D] || c == [0x5F] || c == [0x2E] || c == [0x40]
  }

  /** The locale is made of these characters, each a letter, a digit or a mark. */
  ghost predicate IsLocaleOf(chars: seq<ByteString>, locale: ByteString, letterOrNumber: ByteString -> bool) {
    && Utf8.AreChars(chars) && Concat(chars) == locale
    && forall c :: c in chars ==> letterOrNumber(c) || IsLocaleMark(c)
  }

  /** The key is a plain name followed by a plain locale in brackets. */
  ghost predicate IsLocalizedText(key: ByteString, name: ByteString, locale: ByteString, letterOrNumber: ByteString -> bool) {
    && key == name + [0x5B] + locale + [0x5D] && IsPlain(name) && IsPlain(locale)
    && exists chars :: IsLocaleOf(chars, locale, letterOrNumber)
  }

  ghost predicate IsKeyText(key: ByteString, letterOrNumber: ByteString -> bool) {
    IsPlain(key) || exists name, locale :: IsLocalizedText(key, name, locale, letterOrNumber)
  }

  /** The line, behind the blanks at its front, is nothing or begins with a number sign. */
  ghost predicate IsComment(line: ByteString) {
    exists front, rest :: line == front + rest && AreBlanks(front) && (rest == [] || rest[0] == 0x23)
  }

  /** Blanks, the section's name in brackets, spaces and tabs. */
  ghost predicate AreHeaderParts(line: ByteString, front: ByteString, section: ByteString, back: ByteString) {
    line == front + ([0x5B] + section + [0x5D] + back) && AreBlanks(front) && AreSpacesAndTabs(back) && IsSectionName(section)
  }

  ghost predicate IsHeaderOf(line: ByteString, section: ByteString) {
    exists front, back :: AreHeaderParts(line, front, section, back)
  }

  /** A key that the reader takes for one: no blanks at its ends, no equals sign, and not like a comment or a header. */
  ghost predicate IsKey(key: ByteString, letterOrNumber: ByteString -> bool) {
    && IsKeyText(key, letterOrNumber) && key != [] && BeginsUnblank(key) && EndsUnblank(key)
    && 0x3D !in key && key[0] != 0x23 && key[0] != 0x5B
  }

  /** Blanks, the key, blanks, an equals sign, blanks, the value. */
  ghost predicate AreAssignmentParts(line: ByteString, front: ByteString, key: ByteString, back: ByteString, gap: ByteString,
                                     value: ByteString)
  {
    && line == front + (key + back + ([0x3D] + (gap + value)))
    && AreBlanks(front) && AreBlanks(back) && AreBlanks(gap) && BeginsUnblank(value)
  }

  ghost predicate Assigns(line: ByteString, key: ByteString, value: ByteString, letterOrNumber: ByteString -> bool) {
    IsKey(key, letterOrNumber) && exists front, back, gap :: AreAssignmentParts(line, front, key, back, gap, value)
  }

  // ---- The reader reads that ----

  lemma BlanksAre(s: ByteString)
    ensures AreBlanks(s) <==> All(s, IsBlank)
    ensures AreSpacesAndTabs(s) <==> All(s, IsTrailingHeaderBlank)
  {
    assert AreBlanks(s) ==> forall i :: 0 <= i < |s| ==> s[i] in s;
    assert AreSpacesAndTabs(s) ==> forall i :: 0 <= i < |s| ==> s[i] in s;
  }

  lemma SectionNamesAre(name: ByteString)
    ensures IsSectionName(name) <==> name != [] && All(name, IsGroupByte)
  {
    assert IsSectionName(name) ==> forall i :: 0 <= i < |name| ==> name[i] in name;
  }

  lemma {:induction false} LocalesAre(locale: ByteString, letterOrNumber: ByteString -> bool)
    ensures IsLocale(locale, letterOrNumber) <==> exists chars :: IsLocaleOf(chars, locale, letterOrNumber)
  {
    if IsLocale(locale, letterOrNumber) {
      var chars := CharsOfLocale(locale, letterOrNumber);
    }
    if chars :| IsLocaleOf(chars, locale, letterOrNumber) {
      CharsAreLocale(chars, letterOrNumber);
    }
  }

  lemma {:induction false} CharsOfLocale(locale: ByteString, letterOrNumber: ByteString -> bool) returns (chars: seq<ByteString>)
    requires IsLocale(locale, letterOrNumber)
    ensures IsLocaleOf(chars, locale, letterOrNumber)
    decreases |locale|
  {
    hide Utf8.IsChar;
    if locale == [] {
      chars := [];
    } else {
      var n := Utf8.FrontLength(locale);
      var rest := CharsOfLocale(locale[n..], letterOrNumber);
      chars := [locale[..n]] + rest;
      assert chars[1..] == rest && locale == locale[..n] + locale[n..];
    }
  }

  lemma {:induction false} CharsAreLocale(chars: seq<ByteString>, letterOrNumber: ByteString -> bool)
    requires IsLocaleOf(chars, Concat(chars), letterOrNumber)
    ensures IsLocale(Concat(chars), letterOrNumber)
  {
    hide Utf8.IsChar, Utf8.FrontLength;
    if chars != [] {
      var c, rest := chars[0], Concat(chars[1..]);
      CharsAreLocale(chars[1..], letterOrNumber);
      assert c in chars;
      Utf8.FrontIsUnique(c, rest);
      CharIsNotEmpty(c);
      assert (c + rest)[..|c|] == c && (c + rest)[|c|..] == rest;
    }
  }

  lemma CharIsNotEmpty(c: ByteString)
    ensures Utf8.IsChar(c) ==> c != []
  {
  }

  lemma LocalizedAre(key: ByteString, name: ByteString, locale: ByteString, letterOrNumber: ByteString -> bool)
    ensures IsLocalizedText(key, name, locale, letterOrNumber) <==> IsLocalized(key, name, locale, letterOrNumber)
  {
    hide IsLocale, IsLocaleOf;
    LocalesAre(locale, letterOrNumber);
  }

  lemma KeysAre(key: ByteString, letterOrNumber: ByteString -> bool)
    ensures IsKeyText(key, letterOrNumber) <==> IsKeyName(key, letterOrNumber)
  {
    hide IsLocalized, IsLocalizedText;
    forall name, locale
      ensures IsLocalizedText(key, name, locale, letterOrNumber) <==> IsLocalized(key, name, locale, letterOrNumber)
    {
      LocalizedAre(key, name, locale, letterOrNumber);
    }
  }

  /** What is left of a line without the blanks at its front. */
  lemma FrontDrops(front: ByteString, content: ByteString)
    requires AreBlanks(front) && BeginsUnblank(content)
    ensures DropFront(front + content, IsBlank) == content
  {
    hide DropFront;
    var line := front + content;
    BlanksAre(front);
    assert line[..|front|] == front && line[|front|..] == content;
    DropFrontIs(line, IsBlank, |front|);
  }

  lemma FrontSplits(line: ByteString) returns (front: ByteString)
    ensures line == front + DropFront(line, IsBlank) && AreBlanks(front) && BeginsUnblank(DropFront(line, IsBlank))
  {
    hide DropFront;
    front := line[..|line| - |DropFront(line, IsBlank)|];
    BlanksAre(front);
  }

  lemma CasesAreDisjoint(content: ByteString, letterOrNumber: ByteString -> bool)
    ensures ParsedHeader(content) != Blank && !ParsedHeader(content).Assignment?
    ensures ParsedAssignment(content, letterOrNumber) != Blank && !ParsedAssignment(content, letterOrNumber).Header?
  {
    hide DropBack, DropFront, IsKeyName, Trim, IndexOf;
  }

  lemma CommentsAre(line: ByteString, letterOrNumber: ByteString -> bool)
    ensures IsComment(line) <==> Parsed(line, letterOrNumber) == Blank
  {
    hide DropFront, ParsedHeader, ParsedAssignment;
    var front := FrontSplits(line);
    CasesAreDisjoint(DropFront(line, IsBlank), letterOrNumber);
    if other, rest :| line == other + rest && AreBlanks(other) && (rest == [] || rest[0] == 0x23) {
      FrontDrops(other, rest);
    }
  }

  lemma HeadersAre(line: ByteString, letterOrNumber: ByteString -> bool, section: ByteString)
    ensures IsHeaderOf(line, section) <==> Parsed(line, letterOrNumber) == Header(section)
  {
    hide DropFront, ParsedHeader, ParsedAssignment, IsSectionName, AreBlanks, AreSpacesAndTabs;
    var front := FrontSplits(line);
    CasesAreDisjoint(DropFront(line, IsBlank), letterOrNumber);
    if Parsed(line, letterOrNumber) == Header(section) {
      var back := HeaderSplits(DropFront(line, IsBlank), section);
      assert AreHeaderParts(line, front, section, back);
    }
    if other, back :| AreHeaderParts(line, other, section, back) {
      FrontDrops(other, [0x5B] + section + [0x5D] + back);
      HeaderJoins(section, back);
    }
  }

  lemma HeaderSplits(content: ByteString, section: ByteString) returns (back: ByteString)
    requires content != [] && content[0] == OPENING_BRACKET && ParsedHeader(content) == Header(section)
    ensures content == [0x5B] + section + [0x5D] + back && AreSpacesAndTabs(back) && IsSectionName(section)
  {
    hide DropBack;
    var header := DropBack(content, IsTrailingHeaderBlank);
    back := content[|header|..];
    BlanksAre(back);
    SectionNamesAre(section);
    assert header == [0x5B] + section + [0x5D];
  }

  lemma HeaderJoins(section: ByteString, back: ByteString)
    requires AreSpacesAndTabs(back) && IsSectionName(section)
    ensures ParsedHeader([0x5B] + section + [0x5D] + back) == Header(section)
  {
    hide DropBack;
    var header := [0x5B] + section + [0x5D];
    var content := header + back;
    BlanksAre(back);
    SectionNamesAre(section);
    assert forall i :: |header| <= i < |content| ==> content[i] == back[i - |header|];
    DropBackIs(content, IsTrailingHeaderBlank, |header|);
    assert content[..|header|] == header && header[1..|header| - 1] == section;
  }

  lemma AssignmentsAre(line: ByteString, letterOrNumber: ByteString -> bool, key: ByteString, value: ByteString)
    ensures Assigns(line, key, value, letterOrNumber) <==> Parsed(line, letterOrNumber) == Assignment(key, value)
  {
    hide DropFront, ParsedHeader, ParsedAssignment, IsKeyText, AreBlanks, EndsUnblank;
    var front := FrontSplits(line);
    var content := DropFront(line, IsBlank);
    CasesAreDisjoint(content, letterOrNumber);
    if Parsed(line, letterOrNumber) == Assignment(key, value) {
      var back, gap := AssignmentSplits(content, letterOrNumber, key, value);
      assert AreAssignmentParts(line, front, key, back, gap, value);
    }
    if Assigns(line, key, value, letterOrNumber) {
      var other, back, gap :| AreAssignmentParts(line, other, key, back, gap, value);
      var rest := key + back + ([0x3D] + (gap + value));
      assert rest[0] == key[0];
      FrontDrops(other, rest);
      AssignmentJoins(letterOrNumber, key, back, gap, value);
    }
  }

  lemma AssignmentSplits(content: ByteString, letterOrNumber: ByteString -> bool, key: ByteString, value: ByteString)
    returns (back: ByteString, gap: ByteString)
    requires content != [] && BeginsUnblank(content) && content[0] != HASH && content[0] != OPENING_BRACKET
    requires ParsedAssignment(content, letterOrNumber) == Assignment(key, value)
    ensures content == key + back + ([0x3D] + (gap + value)) && AreBlanks(back) && AreBlanks(gap)
    ensures BeginsUnblank(value) && IsKey(key, letterOrNumber)
  {
    hide IsKeyName, IsKeyText, DropFront, DropBack, Trim, AreBlanks;
    var equals := IndexOf(content, EQUALS);
    var before, after := content[..equals], content[equals + 1..];
    TrimIsExact([], [], []);
    var nothing: ByteString := [];
    assert nothing + nothing + nothing == nothing;
    back := KeySplits(before, key);
    gap := FrontSplits(after);
    KeysAre(key, letterOrNumber);
    assert content == before + ([0x3D] + after) && key[0] == content[0];
    assert forall i :: 0 <= i < |key| ==> key[i] == content[i];
  }

  /** A key is what is in front of the blanks behind it. */
  lemma KeySplits(before: ByteString, key: ByteString) returns (back: ByteString)
    requires before != [] && BeginsUnblank(before) && key == Trim(before)
    ensures before == key + back && AreBlanks(back) && key != [] && BeginsUnblank(key) && EndsUnblank(key)
  {
    hide DropFront, DropBack;
    assert before[..0] == [] && before[0..] == before;
    DropFrontIs(before, IsBlank, 0);
    back := before[|key|..];
    BlanksAre(back);
  }

  lemma AssignmentJoins(letterOrNumber: ByteString -> bool, key: ByteString, back: ByteString, gap: ByteString, value: ByteString)
    requires AreBlanks(back) && AreBlanks(gap) && BeginsUnblank(value) && IsKey(key, letterOrNumber)
    ensures ParsedAssignment(key + back + ([0x3D] + (gap + value)), letterOrNumber) == Assignment(key, value)
  {
    hide IsKeyName, IsKeyText, DropFront, DropBack, IndexOf, Trim;
    BlanksAre(back);
    var before, after := key + back, gap + value;
    KeysAre(key, letterOrNumber);
    EqualsIsBehind(key, back, after);
    TrimIsExact([], key, back);
    assert [] + key + back == before;
    FrontDrops(gap, value);
  }

  /** The first equals sign is the one behind the key and its blanks. */
  lemma EqualsIsBehind(key: ByteString, back: ByteString, after: ByteString)
    requires AreBlanks(back) && 0x3D !in key
    ensures var content := key + back + ([0x3D] + after);
            var n := |key| + |back|;
            IndexOf(content, EQUALS) == n && content[..n] == key + back && content[n + 1..] == after && n < |content|
  {
    hide IndexOf;
    var content := key + back + ([0x3D] + after);
    forall j | 0 <= j < |key| + |back|
      ensures content[j] != EQUALS
    {
      assert content[j] == if j < |key| then key[j] else back[j - |key|];
      assert j >= |key| ==> back[j - |key|] in back;
    }
    IndexOfIs(content, EQUALS, |key| + |back|);
  }

  /** Every line is read as what it is, and as an error exactly if it is none of these. */
  lemma LineExactly(line: ByteString, letterOrNumber: ByteString -> bool)
    ensures var r := Parsed(line, letterOrNumber);
            && (r == Blank <==> IsComment(line))
            && (forall section :: r == Header(section) <==> IsHeaderOf(line, section))
            && (forall key, value :: r == Assignment(key, value) <==> Assigns(line, key, value, letterOrNumber))
            && (r == Bad <==>
                  && !IsComment(line) && (forall section :: !IsHeaderOf(line, section))
                  && forall key, value :: !Assigns(line, key, value, letterOrNumber))
  {
    hide Parsed, IsComment, IsHeaderOf, Assigns;
    var r := Parsed(line, letterOrNumber);
    CommentsAre(line, letterOrNumber);
    forall section
      ensures r == Header(section) <==> IsHeaderOf(line, section)
    {
      HeadersAre(line, letterOrNumber, section);
    }
    forall key, value
      ensures r == Assignment(key, value) <==> Assigns(line, key, value, letterOrNumber)
    {
      AssignmentsAre(line, letterOrNumber, key, value);
    }
    match r
    case Header(section) => assert IsHeaderOf(line, section);
    case Assignment(key, value) => assert Assigns(line, key, value, letterOrNumber);
    case _ =>
  }

  /** A line ends in front of its line feed, or of the carriage return in front of that. */
  lemma LineEndExactly(line: ByteString)
    ensures var r := WithoutLineEnd(line);
            || (r == line && (line == [] || line[|line| - 1] != 0x0A))
            || (line == r + [0x0D, 0x0A])
            || (line == r + [0x0A] && (r == [] || r[|r| - 1] != 0x0D))
  {
  }
}
