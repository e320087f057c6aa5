/** One line of a key file: trimming, names, and the escapes of a value. */
module KeyFileSyntax {
  import opened Bytes
  import opened Wrappers
  import Utf8

  // ---- Trimming ----

  predicate IsBlank(b: Byte) { b == SPACE || b == TAB || b == FORM_FEED }

  predicate IsTrailingHeaderBlank(b: Byte) { b == SPACE || b == TAB }

  predicate All(s: ByteString, p: Byte -> bool) {
    forall i :: 0 <= i < |s| ==> p(s[i])
  }

  /** The length of the longest prefix of bytes satisfying `p`. */
  function FrontRun(s: ByteString, p: Byte -> bool): (n: nat)
    ensures n <= |s| && (forall i :: 0 <= i < n ==> p(s[i])) && (n < |s| ==> !p(s[n]))
  {
    if s == [] || !p(s[0]) then 0 else 1 + FrontRun(s[1..], p)
  }

  /** `s` without its longest prefix of bytes satisfying `p`. */
  function DropFront(s: ByteString, p: Byte -> bool): (r: ByteString)
    ensures |r| <= |s| && r == s[|s| - |r|..] && All(s[..|s| - |r|], p)
    ensures r != [] ==> !p(r[0])
  {
    s[FrontRun(s, p)..]
  }

  /** `s` without its longest suffix of bytes satisfying `p`. */
  function DropBack(s: ByteString, p: Byte -> bool): (r: ByteString)
    ensures r <= s && All(s[|r|..], p)
    ensures r != [] ==> !p(r[|r| - 1])
  {
    if s == [] || !p(s[|s| - 1]) then s
    else
      var r := DropBack(s[..|s| - 1], p);
      assert s[|r|..] == s[..|s| - 1][|r|..] + [s[|s| - 1]];
      r
  }

  function Trim(s: ByteString): ByteString { DropBack(DropFront(s, IsBlank), IsBlank) }

  lemma DropFrontIs(s: ByteString, p: Byte -> bool, k: nat)
    requires k <= |s| && All(s[..k], p) && (k < |s| ==> !p(s[k]))
    ensures DropFront(s, p) == s[k..]
  {
    hide DropFront;
    var dropped := |s| - |DropFront(s, p)|;
    assert forall j :: 0 <= j < k ==> s[..k][j] == s[j];
    assert forall j :: 0 <= j < dropped ==> s[..dropped][j] == s[j];
  }

  lemma {:induction false} DropBackIs(s: ByteString, p: Byte -> bool, k: nat)
    requires k <= |s| && (forall i :: k <= i < |s| ==> p(s[i])) && (k > 0 ==> !p(s[k - 1]))
    ensures DropBack(s, p) == s[..k]
  {
    if k == |s| {
      assert s[..k] == s;
    } else {
      DropBackIs(s[..|s| - 1], p, k);
      assert s[..|s| - 1][..k] == s[..k];
    }
  }

  /** Trimming takes away exactly the blanks around a core without blanks at its ends. */
  lemma TrimIsExact(front: ByteString, core: ByteString, back: ByteString)
    requires All(front, IsBlank) && All(back, IsBlank)
    requires core != [] ==> !IsBlank(core[0]) && !IsBlank(core[|core| - 1])
    ensures Trim(front + core + back) == core
  {
    var s := front + core + back;
    if core == [] {
      assert s == front + back && s[..|s|] == s;
      DropFrontIs(s, IsBlank, |s|);
    } else {
      assert s[..|front|] == front && s[|front|..] == core + back;
      DropFrontIs(s, IsBlank, |front|);
      assert (core + back)[..|core|] == core && (core + back)[|core|..] == back;
      DropBackIs(core + back, IsBlank, |core|);
    }
  }

  method FirstNonWhitespace(line: ByteString) returns (index: nat)
    ensures index == |line| - |DropFront(line, IsBlank)|
  {
    index := 0;
    while index < |line| && IsBlank(line[index])
      invariant index <= |line|
      invariant forall i :: 0 <= i < index ==> IsBlank(line[i])
    {
      index := index + 1;
    }
    DropFrontIs(line, IsBlank, index);
  }

  method TrimmedKey(value: ByteString) returns (r: ByteString)
    ensures r == Trim(value)
  {
    hide DropFront, DropBack;
    var start := FirstNonWhitespace(value);
    var end := |value|;
    while end > start && IsBlank(value[end - 1])
      invariant start <= end <= |value|
      invariant forall i :: end <= i < |value| ==> IsBlank(value[i])
    {
      end := end - 1;
    }
    DropBackIs(value[start..], IsBlank, end - start);
    assert value[start..][..end - start] == value[start..end];
    return value[start..end];
  }

  method TrimmedGroupHeader(value: ByteString) returns (r: ByteString)
    ensures r == DropBack(value, IsTrailingHeaderBlank)
  {
    var end := |value|;
    while end > 0 && IsTrailingHeaderBlank(value[end - 1])
      invariant 0 <= end <= |value|
      invariant forall i :: end <= i < |value| ==> IsTrailingHeaderBlank(value[i])
    {
      end := end - 1;
    }
    DropBackIs(value, IsTrailingHeaderBlank, end);
    return value[..end];
  }

  // ---- Names ----

  predicate IsLocaleChar(c: ByteString, letterOrNumber: ByteString -> bool) {
    letterOrNumber(c) || c == [MINUS] || c == [UNDERSCORE] || c == [FULL_STOP] || c == [AT_SIGN]
  }

  /** Every character of `locale` is one a locale may contain. */
  predicate IsLocale(locale: ByteString, letterOrNumber: ByteString -> bool)
    decreases |locale|
  {
    locale == [] ||
    var n := Utf8.FrontLength(locale);
    n > 0 && IsLocaleChar(locale[..n], letterOrNumber) && IsLocale(locale[n..], letterOrNumber)
  }

  predicate HasBracket(s: ByteString) { OPENING_BRACKET in s || CLOSING_BRACKET in s }

  /** A key is a nonempty name without brackets, or such a name and a nonempty locale in brackets. */
  ghost predicate IsKeyName(key: ByteString, letterOrNumber: ByteString -> bool) {
    || (key != [] && !HasBracket(key))
    || exists name, locale :: IsLocalized(key, name, locale, letterOrNumber)
  }

  function LocalizedKey(name: ByteString, locale: ByteString): ByteString {
    name + [OPENING_BRACKET] + locale + [CLOSING_BRACKET]
  }

  lemma LocalizedBrackets(name: ByteString, locale: ByteString)
    requires !HasBracket(name) && !HasBracket(locale)
    ensures var key := LocalizedKey(name, locale);
            && IndexOf(key, OPENING_BRACKET) == |name|
            && IndexOf(key, CLOSING_BRACKET) == |key| - 1
            && OPENING_BRACKET !in key[|name| + 1..]
            && locale == key[|name| + 1..|key| - 1]
  {
    hide IndexOf;
    var key := LocalizedKey(name, locale);
    forall j | 0 <= j < |key| - 1
      ensures key[j] != CLOSING_BRACKET && (key[j] == OPENING_BRACKET <==> j == |name|)
    {
      assert key[j] == if j < |name| then name[j] else if j == |name| then OPENING_BRACKET else locale[j - |name| - 1];
    }
    IndexOfIs(key, OPENING_BRACKET, |name|);
    IndexOfIs(key, CLOSING_BRACKET, |key| - 1);
    assert key[|name| + 1..] == locale + [CLOSING_BRACKET];
  }

  ghost predicate IsLocalized(key: ByteString, name: ByteString, locale: ByteString,
                              letterOrNumber: ByteString -> bool) {
    && key == LocalizedKey(name, locale)
    && name != [] && !HasBracket(name)
    && locale != [] && !HasBracket(locale) && IsLocale(locale, letterOrNumber)
  }

  /** The program's test of where the brackets stand, `o` being the place of the first opening one. */
  predicate BracketsEnclose(key: ByteString, o: nat) {
    && 0 < o < |key| && IndexOf(key, CLOSING_BRACKET) == |key| - 1
    && OPENING_BRACKET !in key[o + 1..]
    && o + 1 < |key| - 1
  }

  lemma NameHasNoBracket(key: ByteString, o: nat, c: nat)
    requires o <= c <= |key|
    requires forall i :: 0 <= i < o ==> key[i] != OPENING_BRACKET
    requires forall i :: 0 <= i < c ==> key[i] != CLOSING_BRACKET
    ensures !HasBracket(key[..o])
  {
  }

  lemma LocaleHasNoBracket(key: ByteString, o: nat, c: nat)
    requires o < c <= |key|
    requires OPENING_BRACKET !in key[o + 1..]
    requires forall i :: 0 <= i < c ==> key[i] != CLOSING_BRACKET
    ensures !HasBracket(key[o + 1..c])
  {
    forall i | o < i < c
      ensures key[i] != OPENING_BRACKET
    {
      assert key[i] == key[o + 1..][i - o - 1];
    }
  }

  lemma BracketsSplit(key: ByteString, o: nat)
    requires o < |key| - 1 && key[o] == OPENING_BRACKET && key[|key| - 1] == CLOSING_BRACKET
    ensures key == LocalizedKey(key[..o], key[o + 1..|key| - 1])
  {
  }

  lemma BracketsLocalize(key: ByteString, o: nat)
    requires BracketsEnclose(key, o) && IndexOf(key, OPENING_BRACKET) == o
    ensures var name, locale := key[..o], key[o + 1..|key| - 1];
            key == LocalizedKey(name, locale) && !HasBracket(name) && !HasBracket(locale)
  {
    hide HasBracket, IndexOf;
    BracketsSplit(key, o);
    NameHasNoBracket(key, o, |key| - 1);
    LocaleHasNoBracket(key, o, |key| - 1);
  }

  lemma BracketIsBracket(key: ByteString)
    requires OPENING_BRACKET in key
    ensures HasBracket(key)
  {
  }

  /** The one way to read a bracketed key, which is the way the program takes. */
  lemma {:induction false} KeyNameShape(key: ByteString, letterOrNumber: ByteString -> bool)
    requires OPENING_BRACKET in key
    ensures var o := IndexOf(key, OPENING_BRACKET);
            IsKeyName(key, letterOrNumber) <==>
            BracketsEnclose(key, o) && IsLocale(key[o + 1..|key| - 1], letterOrNumber)
  {
    hide IndexOf, IsLocale, HasBracket;
    var o := IndexOf(key, OPENING_BRACKET);
    assert HasBracket(key) by { BracketIsBracket(key); }
    if IsKeyName(key, letterOrNumber) {
      var name, locale :| IsLocalized(key, name, locale, letterOrNumber);
      LocalizedBrackets(name, locale);
      assert |key| == |name| + |locale| + 2;
    }
    if BracketsEnclose(key, o) && IsLocale(key[o + 1..|key| - 1], letterOrNumber) {
      BracketsLocalize(key, o);
      assert IsLocalized(key, key[..o], key[o + 1..|key| - 1], letterOrNumber);
    }
  }

  lemma PlainKeyName(key: ByteString, letterOrNumber: ByteString -> bool)
    requires key != [] && OPENING_BRACKET !in key
    ensures IsKeyName(key, letterOrNumber) <==> CLOSING_BRACKET !in key
  {
    forall name, locale
      ensures OPENING_BRACKET in LocalizedKey(name, locale)
    {
      assert LocalizedKey(name, locale)[|name|] == OPENING_BRACKET;
    }
  }

  method IsValidLocale(locale: ByteString, letterOrNumber: ByteString -> bool) returns (r: bool)
    ensures r <==> IsLocale(locale, letterOrNumber)
  {
    var index := 0;
    while index < |locale|
      invariant index <= |locale|
      invariant IsLocale(locale, letterOrNumber) <==> IsLocale(locale[index..], letterOrNumber)
    {
      var n := Utf8.FrontLength(locale[index..]);
      if n == 0 || !IsLocaleChar(locale[index..][..n], letterOrNumber) {
        return false;
      }
      assert locale[index..][n..] == locale[index + n..];
      index := index + n;
    }
    return true;
  }

  method IsValidKeyName(key: ByteString, letterOrNumber: ByteString -> bool) returns (r: bool)
    ensures r <==> IsKeyName(key, letterOrNumber)
  {
    if key == [] {
      return false;
    }
    var openingBracket := IndexOf(key, OPENING_BRACKET);
    var closingBracket := IndexOf(key, CLOSING_BRACKET);
    if openingBracket == |key| {
      PlainKeyName(key, letterOrNumber);
      return closingBracket == |key|;
    }
    KeyNameShape(key, letterOrNumber);
    if openingBracket == 0 || closingBracket != |key| - 1 || OPENING_BRACKET in key[openingBracket + 1..] {
      return false;
    }
    var locale := key[openingBracket + 1..closingBracket];
    if locale == [] {
      return false;
    }
    r := IsValidLocale(locale, letterOrNumber);
  }

  predicate IsGroupByte(b: Byte) {
    b != OPENING_BRACKET && b != CLOSING_BRACKET && b >= SPACE && b != DELETE
  }

  method IsValidGroupName(group: ByteString) returns (r: bool)
    ensures r <==> group != [] && All(group, IsGroupByte)
  {
    if group == [] {
      return false;
    }
    for index := 0 to |group|
      invariant forall i :: 0 <= i < index ==> IsGroupByte(group[i])
    {
      if !IsGroupByte(group[index]) {
        return false;
      }
    }
    return true;
  }

  // ---- Values ----

  function Unescaped(letter: Byte): Option<Byte> {
    if letter == LETTER_S then Some(SPACE)
    else if letter == LETTER_N then Some(LINE_FEED)
    else if letter == LETTER_T then Some(TAB)
    else if letter == LETTER_R then Some(CARRIAGE_RETURN)
    else if letter == BACKSLASH then Some(BACKSLASH)
    else None
  }

  function Before(front: ByteString, rest: Option<ByteString>): Option<ByteString> {
    if rest.Some? then Some(front + rest.value) else None
  }

  lemma BeforeJoins(a: ByteString, b: ByteString, rest: Option<ByteString>)
    ensures Before(a, Before(b, rest)) == Before(a + b, rest)
    ensures Before([], rest) == rest
  {
    if rest.Some? {
      assert a + (b + rest.value) == a + b + rest.value && [] + rest.value == rest.value;
    }
  }

  /** The meaning of an encoded value under the escapes of the Desktop Entry Specification; `None` is malformed. */
  function DecodedValue(encoded: ByteString): Option<ByteString>
    decreases |encoded|
  {
    if encoded == [] then Some([])
    else if encoded[0] != BACKSLASH then Before([encoded[0]], DecodedValue(encoded[1..]))
    else if |encoded| == 1 || Unescaped(encoded[1]).None? then None
    else Before([Unescaped(encoded[1]).value], DecodedValue(encoded[2..]))
  }

  method DecodeValue(encoded: ByteString) returns (r: Option<ByteString>)
    ensures r == DecodedValue(encoded)
  {
    var decoded: ByteString := [];
    var index := 0;
    BeforeJoins([], [], DecodedValue(encoded));
    while index < |encoded|
      invariant index <= |encoded|
      invariant DecodedValue(encoded) == Before(decoded, DecodedValue(encoded[index..]))
    {
      var current := encoded[index];
      ghost var rest := encoded[index..];
      if current != BACKSLASH {
        assert rest[1..] == encoded[index + 1..];
        BeforeJoins(decoded, [current], DecodedValue(rest[1..]));
        decoded := decoded + [current];
        index := index + 1;
        continue;
      }
      index := index + 1;
      if index == |encoded| {
        return None;
      }
      assert rest[1] == encoded[index] && rest[2..] == encoded[index + 1..];
      var character := Unescaped(encoded[index]);
      if character == None {
        return None;
      }
      BeforeJoins(decoded, [character.value], DecodedValue(rest[2..]));
      decoded := decoded + [character.value];
      index := index + 1;
    }
    assert decoded + [] == decoded;
    return Some(decoded);
  }

  /** What a piece of an encoded value stands for: a byte for itself, or an escape for another. */
  predicate StandsFor(piece: ByteString, b: Byte) {
    || (piece == [b] && piece != Ascii("\\"))
    || (piece == Ascii("\\s") && b == 0x20) || (piece == Ascii("\\n") && b == 0x0A) || (piece == Ascii("\\t") && b == 0x09)
    || (piece == Ascii("\\r") && b == 0x0D) || (piece == Ascii("\\\\") && [b] == Ascii("\\"))
  }

  /** The value is a row of such pieces, one for each byte that it stands for. */
  ghost predicate IsRow(pieces: seq<ByteString>, encoded: ByteString, decoded: ByteString) {
    && |pieces| == |decoded| && Concat(pieces) == encoded
    && forall i :: 0 <= i < |pieces| ==> StandsFor(pieces[i], decoded[i])
  }

  lemma PiecesAre(piece: ByteString, b: Byte)
    ensures StandsFor(piece, b) <==>
              || (piece == [b] && b != BACKSLASH)
              || (|piece| == 2 && piece[0] == BACKSLASH && Unescaped(piece[1]) == Some(b))
  {
    assert Ascii("\\") == [BACKSLASH] && Ascii("\\s") == [BACKSLASH, LETTER_S] && Ascii("\\n") == [BACKSLASH, LETTER_N];
    assert Ascii("\\t") == [BACKSLASH, LETTER_T] && Ascii("\\r") == [BACKSLASH, LETTER_R];
    assert Ascii("\\\\") == [BACKSLASH, BACKSLASH];
    assert |piece| == 2 ==> piece == [piece[0], piece[1]];
  }

  /** An encoded value decodes exactly if it is such a row, and then to what the row stands for. */
  lemma {:induction false} DecodedExactly(encoded: ByteString, decoded: ByteString)
    ensures DecodedValue(encoded) == Some(decoded) <==> exists pieces :: IsRow(pieces, encoded, decoded)
  {
    if DecodedValue(encoded) == Some(decoded) {
      var pieces := RowOf(encoded);
    }
    if pieces :| IsRow(pieces, encoded, decoded) {
      RowDecodes(pieces, encoded, decoded);
    }
  }

  lemma {:induction false} RowOf(encoded: ByteString) returns (pieces: seq<ByteString>)
    requires DecodedValue(encoded).Some?
    ensures IsRow(pieces, encoded, DecodedValue(encoded).value)
    decreases |encoded|
  {
    hide StandsFor, Unescaped;
    if encoded == [] {
      pieces := [];
    } else {
      var n := if encoded[0] == BACKSLASH then 2 else 1;
      var rest := RowOf(encoded[n..]);
      pieces := [encoded[..n]] + rest;
      PiecesAre(encoded[..n], DecodedValue(encoded).value[0]);
      assert pieces[1..] == rest && encoded == encoded[..n] + encoded[n..];
    }
  }

  lemma {:induction false} RowDecodes(pieces: seq<ByteString>, encoded: ByteString, decoded: ByteString)
    requires IsRow(pieces, encoded, decoded)
    ensures DecodedValue(encoded) == Some(decoded)
  {
    hide StandsFor, Unescaped;
    if pieces != [] {
      var rest := Concat(pieces[1..]);
      PiecesAre(pieces[0], decoded[0]);
      assert encoded == pieces[0] + rest && encoded[|pieces[0]|..] == rest;
      RowDecodes(pieces[1..], rest, decoded[1..]);
      assert decoded == [decoded[0]] + decoded[1..];
    }
  }

  /** Bytes without a backslash decode to themselves. */
  lemma {:induction false} PlainDecodes(plain: ByteString, rest: ByteString)
    requires BACKSLASH !in plain
    ensures DecodedValue(plain + rest) == Before(plain, DecodedValue(rest))
  {
    if plain == [] {
      assert plain + rest == rest;
      BeforeJoins([], [], DecodedValue(rest));
    } else {
      assert (plain + rest)[1..] == plain[1..] + rest;
      PlainDecodes(plain[1..], rest);
      assert [plain[0]] + plain[1..] == plain;
      BeforeJoins([plain[0]], plain[1..], DecodedValue(rest));
    }
  }

  // ---- Lines ----

  datatype Line =
    | Blank
    | Header(section: ByteString)
    | Assignment(key: ByteString, value: ByteString)
    | Bad

  /** The meaning of one line, without its end. */
  ghost function Parsed(line: ByteString, letterOrNumber: ByteString -> bool): Line {
    var content := DropFront(line, IsBlank);
    if content == [] || content[0] == HASH then Blank
    else if content[0] == OPENING_BRACKET then ParsedHeader(content)
    else ParsedAssignment(content, letterOrNumber)
  }

  function ParsedHeader(content: ByteString): Line {
    var header := DropBack(content, IsTrailingHeaderBlank);
    if |header| < 3 || header[|header| - 1] != CLOSING_BRACKET then Bad
    else
      var section := header[1..|header| - 1];
      if section != [] && All(section, IsGroupByte) then Header(section) else Bad
  }

  ghost function ParsedAssignment(content: ByteString, letterOrNumber: ByteString -> bool): Line {
    var equals := IndexOf(content, EQUALS);
    if equals == |content| then Bad
    else
      var key := Trim(content[..equals]);
      if key == [] || !IsKeyName(key, letterOrNumber) then Bad
      else Assignment(key, DropFront(content[equals + 1..], IsBlank))
  }

  /** A line without its line feed, and without a carriage return in front of that. */
  function WithoutLineEnd(line: ByteString): ByteString {
    if line == [] || line[|line| - 1] != LINE_FEED then line
    else
      var chopped := line[..|line| - 1];
      if chopped != [] && chopped[|chopped| - 1] == CARRIAGE_RETURN then chopped[..|chopped| - 1] else chopped
  }

  // ---- Everything cut out of text is text ----

  lemma FrontIsText(s: ByteString)
    requires Utf8.Valid(s) && s != []
    ensures var n := Utf8.FrontLength(s);
            n > 0 && Utf8.Valid(s[n..]) && Utf8.Valid(s[..n])
  {
    hide Utf8.IsChar, Utf8.FrontLength;
    Utf8.CharIsValid(s[..Utf8.FrontLength(s)]);
  }

  lemma FrontIsPlain(s: ByteString, n: nat)
    requires 0 < n <= |s| && Utf8.IsChar(s[..n]) && s[0] != BACKSLASH
    ensures BACKSLASH !in s[..n] && s[..n] + s[n..] == s
  {
    hide Utf8.IsChar;
    Utf8.OnlyTailsFollow(s, n);
  }

  /** An escape in text is two characters of it, and stands for one. */
  lemma EscapeIsText(s: ByteString)
    requires Utf8.Valid(s) && |s| >= 2 && s[0] == BACKSLASH && Unescaped(s[1]).Some?
    ensures Utf8.Valid(s[2..]) && Utf8.Valid([Unescaped(s[1]).value])
  {
    var byte := [Unescaped(s[1]).value];
    assert s == s[..1] + s[1..] && s[1..] == s[1..2] + s[2..];
    Utf8.CutAfterAscii(s[..1], s[1..]);
    Utf8.CutAfterAscii(s[1..2], s[2..]);
    assert Utf8.IsChar(byte) && byte[..1] == byte && byte[1..] == [];
  }

  /** A value escape replaces ASCII by ASCII, so a decoded value is text again. */
  lemma {:induction false} DecodedIsText(encoded: ByteString)
    requires Utf8.Valid(encoded) && DecodedValue(encoded).Some?
    ensures Utf8.Valid(DecodedValue(encoded).value)
    decreases |encoded|
  {
    hide Utf8.Valid, Utf8.IsChar, Utf8.FrontLength, Unescaped;
    if encoded == [] {
      assert DecodedValue(encoded).value == encoded;
    } else if encoded[0] == BACKSLASH {
      EscapeIsText(encoded);
      DecodedIsText(encoded[2..]);
      Utf8.ValidPrefix([Unescaped(encoded[1]).value], DecodedValue(encoded[2..]).value);
    } else {
      var n := Utf8.FrontLength(encoded);
      FrontIsText(encoded);
      FrontIsPlain(encoded, n);
      PlainDecodes(encoded[..n], encoded[n..]);
      DecodedIsText(encoded[n..]);
      Utf8.ValidPrefix(encoded[..n], DecodedValue(encoded[n..]).value);
    }
  }

  lemma DropFrontIsText(s: ByteString, p: Byte -> bool)
    requires Utf8.Valid(s) && forall b :: p(b) ==> b <= 0x7F
    ensures Utf8.Valid(DropFront(s, p))
  {
    var r := DropFront(s, p);
    var front := s[..|s| - |r|];
    assert s == front + r;
    if front == [] {
      assert r == s;
    } else {
      assert p(front[|front| - 1]);
      Utf8.CutAfterAscii(front, r);
    }
  }

  lemma DropBackIsText(s: ByteString, p: Byte -> bool)
    requires Utf8.Valid(s) && forall b :: p(b) ==> b <= 0x7F
    ensures Utf8.Valid(DropBack(s, p))
  {
    var r := DropBack(s, p);
    assert s == r + s[|r|..];
    assert s[|r|..] != [] ==> p(s[|r|..][0]);
    Utf8.CutBeforeNonTail(r, s[|r|..]);
  }

  lemma HeaderIsText(content: ByteString)
    requires Utf8.Valid(content) && content != [] && content[0] == OPENING_BRACKET
    ensures PartsAreValid(ParsedHeader(content))
  {
    hide Utf8.Valid;
    var header := DropBack(content, IsTrailingHeaderBlank);
    DropBackIsText(content, IsTrailingHeaderBlank);
    if |header| >= 3 && header[|header| - 1] == CLOSING_BRACKET {
      assert header == header[..|header| - 1] + [CLOSING_BRACKET];
      Utf8.CutBeforeNonTail(header[..|header| - 1], [CLOSING_BRACKET]);
      assert header[..|header| - 1] == [OPENING_BRACKET] + header[1..|header| - 1];
      Utf8.CutAfterAscii([OPENING_BRACKET], header[1..|header| - 1]);
    }
  }

  lemma CutAtEquals(content: ByteString, equals: nat)
    requires Utf8.Valid(content) && equals < |content| && content[equals] == EQUALS
    ensures Utf8.Valid(Trim(content[..equals]))
    ensures Utf8.Valid(DropFront(content[equals + 1..], IsBlank))
  {
    assert content == content[..equals] + ([EQUALS] + content[equals + 1..]);
    Utf8.CutBeforeNonTail(content[..equals], [EQUALS] + content[equals + 1..]);
    Utf8.CutAfterAscii([EQUALS], content[equals + 1..]);
    DropFrontIsText(content[..equals], IsBlank);
    DropBackIsText(DropFront(content[..equals], IsBlank), IsBlank);
    DropFrontIsText(content[equals + 1..], IsBlank);
  }

  /** The parts of a line that the reader keeps are text if the line is. */
  ghost predicate PartsAreValid(line: Line) {
    match line
    case Header(section) => Utf8.Valid(section)
    case Assignment(key, value) =>
      Utf8.Valid(key) && Utf8.Valid(value) && (DecodedValue(value).Some? ==> Utf8.Valid(DecodedValue(value).value))
    case _ => true
  }

  lemma BlankIsText()
    ensures PartsAreValid(Blank)
  {
  }

  lemma AssignmentIsText(content: ByteString, letterOrNumber: ByteString -> bool)
    requires Utf8.Valid(content)
    ensures PartsAreValid(ParsedAssignment(content, letterOrNumber))
  {
    hide Utf8.Valid, IsKeyName, DropFront, Trim, IndexOf;
    var equals := IndexOf(content, EQUALS);
    if equals < |content| {
      CutAtEquals(content, equals);
      var value := DropFront(content[equals + 1..], IsBlank);
      if DecodedValue(value).Some? {
        DecodedIsText(value);
      }
    }
  }

  /** Section names, keys, values and decoded values of text are text. */
  lemma {:induction false} PartsAreText(line: ByteString, letterOrNumber: ByteString -> bool)
    requires Utf8.Valid(line)
    ensures PartsAreValid(Parsed(line, letterOrNumber))
  {
    hide Utf8.Valid, DropFront, ParsedHeader, ParsedAssignment, PartsAreValid;
    var content := DropFront(line, IsBlank);
    DropFrontIsText(line, IsBlank);
    BlankIsText();
    if content != [] && content[0] == OPENING_BRACKET {
      HeaderIsText(content);
    }
    AssignmentIsText(content, letterOrNumber);
  }
}
