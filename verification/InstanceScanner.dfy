/** Finding Remmina installations: which Flatpak rows count, and why the ids of one scan are distinct. */
module InstanceScanner {
  import opened Bytes
  import opened InstanceRegistry
  import opened Instances
  import opened Ordering
  import opened Paths
  import opened SymlinkResolution
  import opened Wrappers
  import SymlinkSeparation
  import Utf8

  const COLON: Byte := 0x3A
  const UNIT_SEPARATOR: Byte := 0x1F

  const APPLICATION_ID: Text := Ascii("org.remmina.Remmina")
  const APP: Text := Ascii("app")
  const USER: Text := Ascii("user")
  const SYSTEM: Text := Ascii("system")

  // ---- Splitting ----

  /** The parts between the occurrences of `b`; there is always at least one. */
  function Split(s: ByteString, b: Byte): (parts: seq<ByteString>)
    ensures parts != []
  {
    if s == [] then [[]]
    else
      var rest := Split(s[1..], b);
      if s[0] == b then [[]] + rest else [[s[0]] + rest[0]] + rest[1..]
  }

  /** The parts with `b` between them. */
  function Interspersed(parts: seq<ByteString>, b: Byte): ByteString
    requires parts != []
  {
    if |parts| == 1 then parts[0] else parts[0] + [b] + Interspersed(parts[1..], b)
  }

  lemma ThreeParts(x: ByteString, y: ByteString, z: ByteString, b: Byte)
    ensures Interspersed([x, y, z], b) == x + [b] + y + [b] + z
  {
    assert [x, y, z][1..] == [y, z] && [y, z][1..] == [z];
    assert Interspersed([y, z], b) == y + [b] + z;
    assert x + [b] + (y + [b] + z) == x + [b] + y + [b] + z;
  }

  lemma FourParts(w: ByteString, x: ByteString, y: ByteString, z: ByteString, b: Byte)
    ensures Interspersed([w, x, y, z], b) == w + [b] + x + [b] + y + [b] + z
  {
    ThreeParts(x, y, z, b);
    assert [w, x, y, z][1..] == [x, y, z];
    assert w + [b] + (x + [b] + y + [b] + z) == w + [b] + x + [b] + y + [b] + z;
  }

  /** The parts are the only ones that have no separator and, with separators between them, are the text. */
  lemma {:induction false} SplitExactly(s: ByteString, b: Byte, parts: seq<ByteString>)
    requires parts != []
    ensures parts == Split(s, b) <==> Interspersed(parts, b) == s && forall part :: part in parts ==> b !in part
  {
    if Interspersed(parts, b) == s && forall part :: part in parts ==> b !in part {
      SplitOfInterspersed(b, parts);
    }
    SplitGivesBack(s, b);
  }

  lemma {:induction false} SplitGivesBack(s: ByteString, b: Byte)
    ensures Interspersed(Split(s, b), b) == s && forall part :: part in Split(s, b) ==> b !in part
  {
    if s != [] {
      SplitGivesBack(s[1..], b);
      var rest := Split(s[1..], b);
      assert s == [s[0]] + s[1..];
      if s[0] == b {
        assert ([[]] + rest)[1..] == rest;
      } else {
        assert ([[s[0]] + rest[0]] + rest[1..])[1..] == rest[1..];
      }
    }
  }

  lemma {:induction false} SplitOfInterspersed(b: Byte, parts: seq<ByteString>)
    requires parts != [] && forall part :: part in parts ==> b !in part
    ensures Split(Interspersed(parts, b), b) == parts
  {
    SplitOfPart(parts[0], b);
    assert parts[0] in parts;
    if |parts| > 1 {
      var rest := Interspersed(parts[1..], b);
      SplitOfInterspersed(b, parts[1..]);
      SplitJoins(parts[0], [b] + rest, b);
      assert ([b] + rest)[1..] == rest;
      assert parts[0] + [b] + rest == parts[0] + ([b] + rest);
      assert parts[0] + [] == parts[0];
    }
  }

  lemma {:induction false} SplitOfPart(part: ByteString, b: Byte)
    requires b !in part
    ensures Split(part, b) == [part]
  {
    if part != [] {
      SplitOfPart(part[1..], b);
      assert part == [part[0]] + part[1..];
    }
  }

  function Last(parts: seq<ByteString>): ByteString
    requires parts != []
  {
    parts[|parts| - 1]
  }

  function Joined(p: seq<ByteString>, q: seq<ByteString>): seq<ByteString>
    requires p != [] && q != []
  {
    p[..|p| - 1] + [Last(p) + q[0]] + q[1..]
  }

  lemma JoinedBehind(first: ByteString, p: seq<ByteString>, q: seq<ByteString>)
    requires p != [] && q != []
    ensures Joined([first] + p, q) == [first] + Joined(p, q)
  {
    assert ([first] + p)[..|p|] == [first] + p[..|p| - 1];
  }

  lemma JoinedGrows(b: Byte, p: seq<ByteString>, q: seq<ByteString>)
    requires p != [] && q != []
    ensures Joined([[b] + p[0]] + p[1..], q) == [[b] + Joined(p, q)[0]] + Joined(p, q)[1..]
  {
    var grown := [[b] + p[0]] + p[1..];
    if |p| == 1 {
      assert [b] + (p[0] + q[0]) == [b] + p[0] + q[0];
    } else {
      assert grown[..|p| - 1] == [[b] + p[0]] + p[1..|p| - 1];
      assert Joined(p, q)[1..] == p[1..|p| - 1] + [Last(p) + q[0]] + q[1..];
    }
  }

  /** Where two texts meet, their parts join. */
  lemma {:induction false} SplitJoins(x: ByteString, y: ByteString, b: Byte)
    ensures Split(x + y, b) == Joined(Split(x, b), Split(y, b))
  {
    var p, q := Split(x, b), Split(y, b);
    if x == [] {
      assert x + y == y && [] + q[0] == q[0];
    } else {
      assert (x + y)[1..] == x[1..] + y;
      SplitJoins(x[1..], y, b);
      JoinedBehind([], Split(x[1..], b), q);
      JoinedGrows(x[0], Split(x[1..], b), q);
    }
  }

  /** The last part of a text ends as the text does. */
  lemma {:induction false} LastPartEnds(x: ByteString, last: Byte, b: Byte)
    requires last != b
    ensures last in Last(Split(x + [last], b))
  {
    if x == [] {
      assert x + [last] == [last] && [last][1..] == [];
      assert Split([last], b) == [[last] + []];
    } else {
      assert (x + [last])[1..] == x[1..] + [last];
      LastPartEnds(x[1..], last, b);
    }
  }

  // ---- Refs ----

  /** `isRemminaApplicationRef`. */
  predicate IsRemminaRef(ref: Text) {
    var components := Split(ref, SLASH);
    && [] !in components
    && if |components| == 3 then components[0] == APPLICATION_ID
       else |components| == 4 && components[0] == APP && components[1] == APPLICATION_ID
  }

  predicate IsComponent(text: Text) { text != [] && SLASH !in text }

  predicate NamesRemmina(ref: Text, arch: Text, branch: Text) {
    && IsComponent(arch) && IsComponent(branch)
    && (|| ref == Ascii("org.remmina.Remmina/") + arch + Ascii("/") + branch
        || ref == Ascii("app/org.remmina.Remmina/") + arch + Ascii("/") + branch)
  }

  /** A ref names the application, an architecture and a branch, and may begin with its kind. */
  lemma RefExactly(ref: Text)
    ensures IsRemminaRef(ref) <==> exists arch, branch :: NamesRemmina(ref, arch, branch)
  {
    hide Split, Interspersed, Ascii;
    var components := Split(ref, SLASH);
    SplitExactly(ref, SLASH, components);
    if IsRemminaRef(ref) {
      var n := |components|;
      assert components[n - 2] in components && components[n - 1] in components;
      RefSpelled(components[n - 2], components[n - 1]);
      var arch, branch := components[n - 2], components[n - 1];
      assert IsComponent(arch) && IsComponent(branch);
      if n == 3 {
        assert components == [APPLICATION_ID, arch, branch];
      } else {
        assert components == [APP, APPLICATION_ID, arch, branch];
      }
      assert NamesRemmina(ref, arch, branch);
    }
    if arch, branch :| NamesRemmina(ref, arch, branch) {
      NamedIsRef(ref, arch, branch);
    }
  }

  lemma NamedIsRef(ref: Text, arch: Text, branch: Text)
    requires NamesRemmina(ref, arch, branch)
    ensures IsRemminaRef(ref)
  {
    hide Split, Interspersed, Ascii;
    RefSpelled(arch, branch);
    var short, long := [APPLICATION_ID, arch, branch], [APP, APPLICATION_ID, arch, branch];
    if ref == Ascii("org.remmina.Remmina/") + arch + Ascii("/") + branch {
      SplitExactly(ref, SLASH, short);
      assert short == Split(ref, SLASH);
    } else {
      SplitExactly(ref, SLASH, long);
      assert long == Split(ref, SLASH);
    }
  }

  lemma RefSpelled(arch: Text, branch: Text)
    ensures SLASH !in APP && SLASH !in APPLICATION_ID && APP != [] && APPLICATION_ID != []
    ensures Interspersed([APPLICATION_ID, arch, branch], SLASH) == Ascii("org.remmina.Remmina/") + arch + Ascii("/") + branch
    ensures Interspersed([APP, APPLICATION_ID, arch, branch], SLASH) ==
            Ascii("app/org.remmina.Remmina/") + arch + Ascii("/") + branch
  {
    hide Interspersed, Ascii;
    ThreeParts(APPLICATION_ID, arch, branch, SLASH);
    FourParts(APP, APPLICATION_ID, arch, branch, SLASH);
    FixedFronts();
    assert APPLICATION_ID + [SLASH] + arch + [SLASH] + branch == (APPLICATION_ID + [SLASH]) + arch + [SLASH] + branch;
    assert APP + [SLASH] + APPLICATION_ID + [SLASH] + arch + [SLASH] + branch ==
        (APP + [SLASH] + APPLICATION_ID + [SLASH]) + arch + [SLASH] + branch;
  }

  lemma FixedFronts()
    ensures SLASH !in APP && SLASH !in APPLICATION_ID && APP != [] && APPLICATION_ID != [] && Ascii("/") == [SLASH]
    ensures Ascii("org.remmina.Remmina/") == APPLICATION_ID + [SLASH]
    ensures Ascii("app/org.remmina.Remmina/") == APP + [SLASH] + APPLICATION_ID + [SLASH]
  {
    FixedComponentsHaveNoSlash();
    hide Ascii;
    assert "org.remmina.Remmina" + "/" == "org.remmina.Remmina/";
    AsciiAppends("org.remmina.Remmina", "/");
    assert "app" + "/" == "app/" && "app/" + "org.remmina.Remmina/" == "app/org.remmina.Remmina/";
    AsciiAppends("app", "/");
    AsciiAppends("app/", "org.remmina.Remmina/");
    assert APP + [SLASH] + APPLICATION_ID + [SLASH] == (APP + [SLASH]) + (APPLICATION_ID + [SLASH]);
  }

  lemma FixedComponentsHaveNoSlash()
    ensures SLASH !in APP && SLASH !in APPLICATION_ID && APP != [] && APPLICATION_ID != [] && Ascii("/") == [SLASH]
  {
  }

  lemma FixedComponentsHaveNoColon()
    ensures COLON !in APPLICATION_ID && COLON !in APP
  {
  }

  /** Behind a colon, a text of `n` components leaves the colon in the component `n` from the end. */
  lemma ColonIsInside(front: Text, inner: Text)
    ensures var q, r := Split(inner, SLASH), Split(front + [COLON] + inner, SLASH);
            |r| >= |q| && COLON in r[|r| - |q|]
  {
    var p, q := Split(front + [COLON], SLASH), Split(inner, SLASH);
    SplitJoins(front + [COLON], inner, SLASH);
    LastPartEnds(front, COLON, SLASH);
    assert Joined(p, q)[|p| - 1] == Last(p) + q[0];
  }

  /** No accepted ref is another one behind a colon. */
  lemma RefsDoNotNest(front: Text, inner: Text)
    requires IsRemminaRef(inner)
    ensures !IsRemminaRef(front + [COLON] + inner)
  {
    hide Split;
    ColonIsInside(front, inner);
    FixedComponentsHaveNoColon();
  }

  datatype FlatpakInstallation = FlatpakInstallation(installation: Text, ref: Text)

  function FlatpakId(i: FlatpakInstallation): Id {
    FLATPAK_PREFIX + i.installation + [COLON] + i.ref
  }

  lemma ShorterInstallation(a: FlatpakInstallation, b: FlatpakInstallation)
    requires IsRemminaRef(a.ref) && IsRemminaRef(b.ref) && |a.installation| < |b.installation|
    ensures FlatpakId(a) != FlatpakId(b)
  {
    hide IsRemminaRef;
    var x, y := a.installation + [COLON] + a.ref, b.installation + [COLON] + b.ref;
    assert FlatpakId(a)[|FLATPAK_PREFIX|..] == x && FlatpakId(b)[|FLATPAK_PREFIX|..] == y;
    if x == y {
      var n := |a.installation|;
      var front := b.installation[n + 1..];
      assert x[n + 1..] == a.ref && y[n + 1..] == front + [COLON] + b.ref;
      RefsDoNotNest(front, b.ref);
    }
  }

  /** Ids name installations, even if an installation's name contains a colon. */
  lemma FlatpakIdInjective(a: FlatpakInstallation, b: FlatpakInstallation)
    requires IsRemminaRef(a.ref) && IsRemminaRef(b.ref) && FlatpakId(a) == FlatpakId(b)
    ensures a == b
  {
    hide IsRemminaRef;
    if |a.installation| < |b.installation| {
      ShorterInstallation(a, b);
    } else if |b.installation| < |a.installation| {
      ShorterInstallation(b, a);
    } else {
      var p, n := |FLATPAK_PREFIX|, |a.installation|;
      assert FlatpakId(a)[p..p + n] == a.installation && FlatpakId(b)[p..p + n] == b.installation;
      assert FlatpakId(a)[p + n + 1..] == a.ref && FlatpakId(b)[p + n + 1..] == b.ref;
    }
  }

  // ---- Fields ----

  /** The characters of a text. */
  function CharsOf(s: ByteString): seq<ByteString>
    decreases |s|
  {
    var n := Utf8.FrontLength(s);
    if n == 0 then [] else [s[..n]] + CharsOf(s[n..])
  }

  /** Unicode's control characters: C0, DELETE and C1. */
  predicate IsControl(c: ByteString) {
    || (|c| == 1 && (c[0] < 0x20 || c[0] == DELETE))
    || (|c| == 2 && c[0] == 0xC2 && c[1] <= 0x9F)
  }

  /** Exactly the code points of Unicode's category of control characters. */
  lemma ControlExactly(v: nat)
    requires Utf8.IsScalar(v)
    ensures IsControl(Utf8.Encode(v)) <==> v <= 0x1F || 0x7F <= v <= 0x9F
  {
  }

  function TrimmedFront(chars: seq<ByteString>, isSpace: ByteString -> bool): seq<ByteString> {
    if chars != [] && isSpace(chars[0]) then TrimmedFront(chars[1..], isSpace) else chars
  }

  function TrimmedBack(chars: seq<ByteString>, isSpace: ByteString -> bool): seq<ByteString> {
    if chars != [] && isSpace(chars[|chars| - 1]) then TrimmedBack(chars[..|chars| - 1], isSpace) else chars
  }

  /** `decodeFlatpakField`. */
  function DecodedField(encoded: ByteString, isSpace: ByteString -> bool): Option<Text> {
    if !Utf8.Valid(encoded) then None
    else
      var chars := CharsOf(encoded);
      if exists k :: 0 <= k < |chars| && IsControl(chars[k]) then None
      else
        var field := TrimmedBack(TrimmedFront(chars, isSpace), isSpace);
        if field == [] then None else Some(Concat(field))
  }

  /** The text is made of these characters, none a control character, with spaces in front and behind. */
  ghost predicate IsFieldOf(encoded: ByteString, isSpace: ByteString -> bool, front: seq<ByteString>, chars: seq<ByteString>,
                            back: seq<ByteString>)
  {
    && Utf8.AreChars(front + chars + back) && Concat(front + chars + back) == encoded
    && (forall c :: c in front + chars + back ==> !IsControl(c))
    && (forall c :: c in front ==> isSpace(c)) && (forall c :: c in back ==> isSpace(c))
    && chars != [] && !isSpace(chars[0]) && !isSpace(chars[|chars| - 1])
  }

  /** A field is what is left of text without control characters when the spaces around it are taken away. */
  lemma DecodedExactly(encoded: ByteString, isSpace: ByteString -> bool, field: Text)
    ensures DecodedField(encoded, isSpace) == Some(field) <==>
              exists front, chars, back :: IsFieldOf(encoded, isSpace, front, chars, back) && Concat(chars) == field
  {
    hide Utf8.Valid, Utf8.IsChar, IsControl, CharsOf, TrimmedFront, TrimmedBack;
    if DecodedField(encoded, isSpace) == Some(field) {
      var all := CharsOf(encoded);
      CharsOfValid(encoded);
      var behind, front := FrontTrimmed(all, isSpace);
      var chars, back := BackTrimmed(behind, isSpace);
      assert all == front + chars + back;
      assert chars[0] == behind[0];
      assert IsFieldOf(encoded, isSpace, front, chars, back);
    }
    if front, chars, back :| IsFieldOf(encoded, isSpace, front, chars, back) && Concat(chars) == field {
      FieldIsDecoded(encoded, isSpace, front, chars, back);
    }
  }

  lemma FieldIsDecoded(encoded: ByteString, isSpace: ByteString -> bool, front: seq<ByteString>, chars: seq<ByteString>,
                       back: seq<ByteString>)
    requires IsFieldOf(encoded, isSpace, front, chars, back)
    ensures DecodedField(encoded, isSpace) == Some(Concat(chars))
  {
    hide Utf8.Valid, Utf8.IsChar, CharsOf, TrimmedFront, TrimmedBack;
    var all := front + chars + back;
    NotInPiecesIfControl(all);
    Utf8.ConcatIsValid(all);
    CharsOfConcat(all);
    TrimsFront(front, chars + back, isSpace);
    assert front + (chars + back) == all;
    TrimsBack(chars, back, isSpace);
  }

  lemma NotInPiecesIfControl(chars: seq<ByteString>)
    requires Utf8.AreChars(chars) && forall c :: c in chars ==> !IsControl(c)
    ensures 0 !in Concat(chars)
  {
    hide Utf8.IsChar, IsControl;
    forall c | c in chars
      ensures 0 !in c
    {
      NoControlByte(c, 0);
    }
    NotInPieces(chars, 0);
  }

  lemma {:induction false} CharsOfConcat(chars: seq<ByteString>)
    requires Utf8.AreChars(chars)
    ensures CharsOf(Concat(chars)) == chars
  {
    hide Utf8.IsChar, Utf8.FrontLength;
    if chars == [] {
      assert Utf8.FrontLength([]) == 0;
    } else {
      var rest := Concat(chars[1..]);
      assert chars[0] in chars;
      CharsOfConcat(chars[1..]);
      Utf8.FrontIsUnique(chars[0], rest);
      assert (chars[0] + rest)[..|chars[0]|] == chars[0] && (chars[0] + rest)[|chars[0]|..] == rest;
      CharIsNotEmpty(chars[0]);
    }
  }

  lemma CharIsNotEmpty(c: ByteString)
    ensures Utf8.IsChar(c) ==> c != []
  {
  }

  lemma {:induction false} CharsOfValid(s: ByteString)
    requires Utf8.Valid(s)
    ensures Utf8.AreChars(CharsOf(s)) && Concat(CharsOf(s)) == s
    decreases |s|
  {
    hide Utf8.IsChar;
    if s != [] {
      var n := Utf8.FrontLength(s);
      CharsOfValid(s[n..]);
      assert ([s[..n]] + CharsOf(s[n..]))[1..] == CharsOf(s[n..]);
      assert s == s[..n] + s[n..];
    }
  }

  lemma {:induction false} FrontTrimmed(chars: seq<ByteString>, isSpace: ByteString -> bool)
    returns (rest: seq<ByteString>, front: seq<ByteString>)
    ensures rest == TrimmedFront(chars, isSpace) && chars == front + rest && forall c :: c in front ==> isSpace(c)
    ensures rest != [] ==> !isSpace(rest[0])
  {
    if chars != [] && isSpace(chars[0]) {
      rest, front := FrontTrimmed(chars[1..], isSpace);
      assert chars == [chars[0]] + front + rest;
      front := [chars[0]] + front;
    } else {
      rest, front := chars, [];
    }
  }

  lemma {:induction false} BackTrimmed(chars: seq<ByteString>, isSpace: ByteString -> bool)
    returns (rest: seq<ByteString>, back: seq<ByteString>)
    ensures rest == TrimmedBack(chars, isSpace) && chars == rest + back && forall c :: c in back ==> isSpace(c)
    ensures rest != [] ==> !isSpace(rest[|rest| - 1])
  {
    if chars != [] && isSpace(chars[|chars| - 1]) {
      rest, back := BackTrimmed(chars[..|chars| - 1], isSpace);
      assert chars == rest + (back + [chars[|chars| - 1]]);
      back := back + [chars[|chars| - 1]];
    } else {
      rest, back := chars, [];
    }
  }

  lemma {:induction false} TrimsFront(front: seq<ByteString>, rest: seq<ByteString>, isSpace: ByteString -> bool)
    requires (forall c :: c in front ==> isSpace(c)) && rest != [] && !isSpace(rest[0])
    ensures TrimmedFront(front + rest, isSpace) == rest
  {
    if front != [] {
      TrimsFront(front[1..], rest, isSpace);
      assert (front + rest)[1..] == front[1..] + rest && front[0] in front;
    } else {
      assert front + rest == rest;
    }
  }

  lemma {:induction false} TrimsBack(rest: seq<ByteString>, back: seq<ByteString>, isSpace: ByteString -> bool)
    requires (forall c :: c in back ==> isSpace(c)) && rest != [] && !isSpace(rest[|rest| - 1])
    ensures TrimmedBack(rest + back, isSpace) == rest
  {
    if back != [] {
      var n := |back| - 1;
      TrimsBack(rest, back[..n], isSpace);
      assert (rest + back)[..|rest| + n] == rest + back[..n] && back[n] in back;
    } else {
      assert rest + back == rest;
    }
  }

  lemma {:induction false} TrimmingTakesAway(chars: seq<ByteString>, isSpace: ByteString -> bool)
    ensures forall c :: c in TrimmedFront(chars, isSpace) ==> c in chars
    ensures forall c :: c in TrimmedBack(chars, isSpace) ==> c in chars
  {
    if chars != [] {
      TrimmingTakesAway(chars[1..], isSpace);
      TrimmingTakesAway(chars[..|chars| - 1], isSpace);
    }
  }

  lemma {:induction false} CharsAreChars(s: ByteString)
    ensures forall c :: c in CharsOf(s) ==> Utf8.IsChar(c)
    decreases |s|
  {
    hide Utf8.IsChar;
    if Utf8.FrontLength(s) > 0 {
      CharsAreChars(s[Utf8.FrontLength(s)..]);
    }
  }

  lemma {:induction false} NotInPieces(pieces: seq<ByteString>, b: Byte)
    requires forall piece :: piece in pieces ==> b !in piece
    ensures b !in Concat(pieces)
  {
    if pieces != [] {
      assert pieces[0] in pieces;
      NotInPieces(pieces[1..], b);
    }
  }

  lemma NoControlByte(c: ByteString, b: Byte)
    requires Utf8.IsChar(c) && !IsControl(c) && b < 0x20
    ensures b !in c
  {
  }

  /** A decoded field holds no control byte. */
  lemma DecodedHasNoControl(encoded: ByteString, isSpace: ByteString -> bool, b: Byte)
    requires DecodedField(encoded, isSpace).Some? && b < 0x20
    ensures b !in DecodedField(encoded, isSpace).value
  {
    hide Utf8.Valid, Utf8.FrontLength, Utf8.IsChar, TrimmedFront, TrimmedBack, CharsOf, IsControl;
    var chars := CharsOf(encoded);
    var field := TrimmedBack(TrimmedFront(chars, isSpace), isSpace);
    CharsAreChars(encoded);
    TrimmingTakesAway(chars, isSpace);
    TrimmingTakesAway(TrimmedFront(chars, isSpace), isSpace);
    forall c | c in field
      ensures b !in c
    {
      assert c in chars;
      NoControlByte(c, b);
    }
    NotInPieces(field, b);
  }

  // ---- The installation list ----

  function Accepted(line: ByteString, isSpace: ByteString -> bool): Option<FlatpakInstallation> {
    var columns := Split(line, TAB);
    if |columns| != 3 then None
    else
      var application, ref, installation :=
        DecodedField(columns[0], isSpace), DecodedField(columns[1], isSpace), DecodedField(columns[2], isSpace);
      if application == Some(APPLICATION_ID) && ref.Some? && installation.Some? && IsRemminaRef(ref.value)
      then Some(FlatpakInstallation(installation.value, ref.value)) else None
  }

  function InstallationGroup(installation: Text): nat {
    if installation == USER then 0 else if installation == SYSTEM then 1 else 2
  }

  predicate InstallationLeq(a: FlatpakInstallation, b: FlatpakInstallation) {
    if InstallationGroup(a.installation) != InstallationGroup(b.installation)
      then InstallationGroup(a.installation) < InstallationGroup(b.installation)
    else if a.installation != b.installation then TextLeq(a.installation, b.installation)
    else TextLeq(a.ref, b.ref)
  }

  function DeduplicationKey(i: FlatpakInstallation): Text { i.installation + [UNIT_SEPARATOR] + i.ref }

  /** The key tells installations apart because neither text holds the separator. */
  lemma KeyIsInjective(a: FlatpakInstallation, b: FlatpakInstallation)
    requires UNIT_SEPARATOR !in a.installation && UNIT_SEPARATOR !in b.installation
    requires DeduplicationKey(a) == DeduplicationKey(b)
    ensures a == b
  {
    hide IndexOf;
    var x, y := DeduplicationKey(a), DeduplicationKey(b);
    assert x[|a.installation|] == UNIT_SEPARATOR && y[|b.installation|] == UNIT_SEPARATOR;
    IndexOfIs(x, UNIT_SEPARATOR, |a.installation|);
    IndexOfIs(y, UNIT_SEPARATOR, |b.installation|);
    assert x[..|a.installation|] == a.installation && y[..|b.installation|] == b.installation;
    assert x[|a.installation| + 1..] == a.ref && y[|b.installation| + 1..] == b.ref;
  }

  /** An accepted line has three columns: the application, a ref of it, and the installation. */
  lemma AcceptedExactly(line: ByteString, isSpace: ByteString -> bool, i: FlatpakInstallation)
    ensures Accepted(line, isSpace) == Some(i) <==> exists first, second, third ::
              && line == first + [TAB] + second + [TAB] + third && TAB !in first && TAB !in second && TAB !in third
              && DecodedField(first, isSpace) == Some(Ascii("org.remmina.Remmina"))
              && DecodedField(second, isSpace) == Some(i.ref) && IsRemminaRef(i.ref)
              && DecodedField(third, isSpace) == Some(i.installation)
  {
    hide Split, DecodedField, IsRemminaRef;
    var columns := Split(line, TAB);
    SplitExactly(line, TAB, columns);
    if Accepted(line, isSpace) == Some(i) {
      assert columns == [columns[0], columns[1], columns[2]];
      ThreeParts(columns[0], columns[1], columns[2], TAB);
      assert columns[0] in columns && columns[1] in columns && columns[2] in columns;
    }
    if first, second, third :|
      && line == first + [TAB] + second + [TAB] + third && TAB !in first && TAB !in second && TAB !in third
      && DecodedField(first, isSpace) == Some(Ascii("org.remmina.Remmina"))
      && DecodedField(second, isSpace) == Some(i.ref) && IsRemminaRef(i.ref)
      && DecodedField(third, isSpace) == Some(i.installation)
    {
      ThreeParts(first, second, third, TAB);
      SplitExactly(line, TAB, [first, second, third]);
    }
  }

  /** Some line of the output is accepted as `i`. */
  ghost predicate IsAccepted(lines: seq<ByteString>, isSpace: ByteString -> bool, i: FlatpakInstallation) {
    exists k :: 0 <= k < |lines| && Accepted(lines[k], isSpace) == Some(i)
  }

  lemma AcceptedIsClean(line: ByteString, isSpace: ByteString -> bool)
    requires Accepted(line, isSpace).Some?
    ensures IsRemminaRef(Accepted(line, isSpace).value.ref)
    ensures UNIT_SEPARATOR !in Accepted(line, isSpace).value.installation
  {
    hide Split, DecodedField, IsRemminaRef;
    DecodedHasNoControl(Split(line, TAB)[2], isSpace, UNIT_SEPARATOR);
  }

  /** The list a scan goes on with: the accepted rows, sorted, each once. */
  ghost predicate IsInstallationList(lines: seq<ByteString>, isSpace: ByteString -> bool,
                                     list: seq<FlatpakInstallation>) {
    && IsSorted(list, InstallationLeq) && AllDistinct(list)
    && forall i :: i in list <==> IsAccepted(lines, isSpace, i)
  }

  /** `parseFlatpakInstallations`. */
  method ParseFlatpakInstallations(output: ByteString, isSpace: ByteString -> bool)
    returns (list: seq<FlatpakInstallation>)
    ensures IsInstallationList(Split(output, LINE_FEED), isSpace, list)
    ensures forall i :: i in list ==> IsRemminaRef(i.ref)
  {
    hide Accepted, IsRemminaRef, Split, InstallationLeq, DeduplicationKey;
    var lines := Split(output, LINE_FEED);
    var installations: seq<FlatpakInstallation> := [];
    var seen: set<Text> := {};
    for k := 0 to |lines|
      invariant AllDistinct(installations)
      invariant forall i :: i in installations <==> IsAccepted(lines[..k], isSpace, i)
      invariant forall i :: i in installations ==> UNIT_SEPARATOR !in i.installation && IsRemminaRef(i.ref)
      invariant forall key :: key in seen <==> exists i :: i in installations && DeduplicationKey(i) == key
    {
      var accepted := Accepted(lines[k], isSpace);
      OneMoreLine(lines, k, isSpace);
      if accepted == None {
        continue;
      }
      AcceptedIsClean(lines[k], isSpace);
      var deduplicationKey := DeduplicationKey(accepted.value);
      if deduplicationKey in seen {
        var i :| i in installations && DeduplicationKey(i) == deduplicationKey;
        KeyIsInjective(i, accepted.value);
        continue;
      }
      seen := seen + {deduplicationKey};
      installations := installations + [accepted.value];
    }
    assert lines[..|lines|] == lines;
    list := Sort(installations, InstallationLeq);
    InstallationLeqIsTotalOrder();
    SortSorts(installations, InstallationLeq);
    DistinctKept(installations, list);
    forall i
      ensures i in list <==> i in installations
    {
      assert i in multiset(list) <==> i in multiset(installations);
    }
  }

  lemma OneMoreLine(lines: seq<ByteString>, k: nat, isSpace: ByteString -> bool)
    requires k < |lines|
    ensures forall i :: IsAccepted(lines[..k + 1], isSpace, i) <==>
              IsAccepted(lines[..k], isSpace, i) || Accepted(lines[k], isSpace) == Some(i)
  {
    hide Accepted;
    forall i
      ensures IsAccepted(lines[..k + 1], isSpace, i) <==>
                IsAccepted(lines[..k], isSpace, i) || Accepted(lines[k], isSpace) == Some(i)
    {
      assert forall m :: 0 <= m < k ==> lines[..k][m] == lines[..k + 1][m];
      assert lines[..k + 1][k] == lines[k];
    }
  }

  lemma InstallationLeqIsTotalOrder()
    ensures IsTotalPreorder(InstallationLeq)
    ensures forall a, b :: InstallationLeq(a, b) && InstallationLeq(b, a) ==> a == b
  {
    TextLeqIsTotalOrder();
    forall a, b, c | InstallationLeq(a, b) && InstallationLeq(b, c)
      ensures InstallationLeq(a, c)
    {
      assert TextLeq(a.installation, b.installation) && TextLeq(b.installation, c.installation) ==>
          TextLeq(a.installation, c.installation);
      assert TextLeq(a.ref, b.ref) && TextLeq(b.ref, c.ref) ==> TextLeq(a.ref, c.ref);
    }
  }

  /** The user's installation comes first, then the system's, then the others by name; one name's refs are in order. */
  lemma ListOrder(lines: seq<ByteString>, isSpace: ByteString -> bool, list: seq<FlatpakInstallation>, i: nat, j: nat)
    requires IsInstallationList(lines, isSpace, list) && i < j < |list|
    ensures var a, b := list[i].installation, list[j].installation;
            && (b == Ascii("user") ==> a == b)
            && (b == Ascii("system") ==> a == b || a == Ascii("user"))
            && (a !in [Ascii("user"), Ascii("system")] ==> b !in [Ascii("user"), Ascii("system")] && TextLeq(a, b))
            && (a == b ==> TextLeq(list[i].ref, list[j].ref) && list[i].ref != list[j].ref)
  {
    hide TextLeq, IsAccepted;
    TextLeqIsTotalOrder();
    assert InstallationLeq(list[i], list[j]);
    assert USER[0] != SYSTEM[0];
    assert list[i] != list[j];
  }

  /** The list depends on which rows are accepted, not on their order or number. */
  lemma ListIsDetermined(lines: seq<ByteString>, others: seq<ByteString>, isSpace: ByteString -> bool,
                         a: seq<FlatpakInstallation>, b: seq<FlatpakInstallation>)
    requires IsInstallationList(lines, isSpace, a) && IsInstallationList(others, isSpace, b)
    requires forall i :: IsAccepted(lines, isSpace, i) <==> IsAccepted(others, isSpace, i)
    ensures a == b
  {
    hide InstallationLeq, IsAccepted;
    InstallationLeqIsTotalOrder();
    SameElements(a, b);
    SortedIsUnique(a, b, InstallationLeq);
  }

  // ---- The scan ----

  /** A PATH entry's candidate: whether it is an executable file, and its canonical and its cleaned absolute path. */
  datatype PathCandidate = PathCandidate(executable: bool, canonical: Text, absolute: Text)

  /** The Snap launcher: its cleaned absolute path, empty if none is configured, and what is found there. */
  datatype SnapLauncher = SnapLauncher(path: Text, found: bool, isSymlink: bool, executable: bool, canonical: Text)

  /** The Flatpak executable's canonical path, empty if it cannot be run, and its listing, if the listing succeeds. */
  datatype FlatpakCommand = FlatpakCommand(canonical: Text, listing: Option<ByteString>)

  /** `isUnderSnapRoot`. */
  predicate IsUnderSnapRoot(canonical: Text, root: Text) {
    root != [] && if root == [SLASH] then canonical != [] && canonical[0] == SLASH
                  else canonical == root || root + [SLASH] <= canonical
  }

  const NATIVE_PREFIX: ByteString := Ascii("native:")
  const SNAP_ID: Id := Ascii("snap:remmina")

  function FlatpakLauncherPrefix(i: FlatpakInstallation): seq<Text> {
    [if i.installation == USER then Ascii("--user")
     else if i.installation == SYSTEM then Ascii("--system")
     else Ascii("--installation=") + i.installation, Ascii("run"), i.ref]
  }

  /** What a launch says of an installation: the user's and the system's by an option of their own, others by name. */
  lemma PrefixSelects(i: FlatpakInstallation)
    ensures var prefix := FlatpakLauncherPrefix(i);
            && |prefix| == 3 && prefix[1] == Ascii("run") && prefix[2] == i.ref
            && (prefix[0] == Ascii("--") + i.installation <==> i.installation in [Ascii("user"), Ascii("system")])
            && (prefix[0] == Ascii("--installation=") + i.installation <==> i.installation !in [Ascii("user"), Ascii("system")])
  {
    assert Ascii("--user") == Ascii("--") + USER && Ascii("--system") == Ascii("--") + SYSTEM;
    assert |Ascii("--installation=") + i.installation| > |Ascii("--") + i.installation|;
  }

  /** Different installations are launched differently. */
  lemma PrefixIsInjective(a: FlatpakInstallation, b: FlatpakInstallation)
    requires FlatpakLauncherPrefix(a) == FlatpakLauncherPrefix(b)
    ensures a == b
  {
    hide FlatpakLauncherPrefix;
    PrefixSelects(a);
    PrefixSelects(b);
    var own, named, p := Ascii("--"), Ascii("--installation="), FlatpakLauncherPrefix(a)[0];
    assert (own + a.installation)[2..] == a.installation && (own + b.installation)[2..] == b.installation;
    assert (named + a.installation)[15..] == a.installation && (named + b.installation)[15..] == b.installation;
    assert (named + a.installation)[2] == (named + b.installation)[2] == 0x69;
    assert USER[0] == 0x75 && SYSTEM[0] == 0x73;
    assert a.installation in [USER, SYSTEM] ==> (own + a.installation)[2] != 0x69;
    assert b.installation in [USER, SYSTEM] ==> (own + b.installation)[2] != 0x69;
  }

  /** A path is under the Snap root exactly if it is the root or goes on behind it with a separator; all are under `/`. */
  lemma UnderSnapRootExactly(canonical: Text, root: Text)
    ensures IsUnderSnapRoot(canonical, root) <==>
              && root != []
              && (|| canonical == root || (exists rest :: canonical == root + Ascii("/") + rest)
                  || (root == Ascii("/") && exists rest :: canonical == root + rest))
  {
    assert Ascii("/") == [SLASH];
    assert root + [SLASH] <= canonical ==> canonical == root + [SLASH] + canonical[|root| + 1..];
    assert root <= canonical ==> canonical == root + canonical[|root|..];
  }

  const PROGRAM: Name := "remmina"

  /** What the scan sees of files: the links, how a path is spelled, and which files can be executed. */
  datatype Files = Files(fs: Fs, spelled: Path -> Text, isExecutable: Path -> bool)

  /** The candidate of one PATH entry, given as the components of an absolute path. */
  function CandidateOf(files: Files, entry: seq<Name>): PathCandidate {
    var path := entry + [PROGRAM];
    var end := Resolve(files.fs, [], path, []);
    PathCandidate(end.Resolved? && files.isExecutable(end.path), if end.Resolved? then files.spelled(end.path) else [],
                  files.spelled(Clean([], path)))
  }

  function Candidates(files: Files, entries: seq<seq<Name>>): seq<PathCandidate> {
    seq(|entries|, k requires 0 <= k < |entries| => CandidateOf(files, entries[k]))
  }

  /** The components are what stands between separators. */
  ghost predicate AreComponents(components: seq<Name>) {
    forall n :: n in components ==> '/' !in n
  }

  /** The components are names, each of which stands between separators. */
  ghost predicate IsProper(path: Path) {
    AreComponents(path) && forall n :: n in path ==> IsName(n)
  }

  /** Different paths are spelled differently. */
  ghost predicate IsSpelling(spelled: Path -> Text) {
    forall p: Path, q: Path :: IsProper(p) && IsProper(q) && spelled(p) == spelled(q) ==> p == q
  }

  ghost predicate AreEntries(entries: seq<seq<Name>>) {
    forall k :: 0 <= k < |entries| ==> AreComponents(entries[k])
  }

  /** In each entry every `..` comes before every name. */
  ghost predicate AreDirect(entries: seq<seq<Name>>) {
    forall k :: 0 <= k < |entries| ==> DotDotsLead(entries[k])
  }

  /** One cleaned path is one file. */
  ghost predicate PathsNameFiles(candidates: seq<PathCandidate>) {
    forall i, j :: 0 <= i < |candidates| && 0 <= j < |candidates| && candidates[i].absolute == candidates[j].absolute ==>
      candidates[i].canonical == candidates[j].canonical
  }

  /** With PATH entries that have no `..` behind a name, one cleaned path is one file, whatever the links. */
  lemma CleanPathsNameFiles(files: Files, entries: seq<seq<Name>>)
    requires IsSpelling(files.spelled) && AreEntries(entries) && AreDirect(entries)
    ensures PathsNameFiles(Candidates(files, entries))
  {
    hide Resolve, Walk, Clean;
    forall i, j | 0 <= i < |entries| && 0 <= j < |entries|
      && Candidates(files, entries)[i].absolute == Candidates(files, entries)[j].absolute
      ensures Candidates(files, entries)[i].canonical == Candidates(files, entries)[j].canonical
    {
      EntryLeadsWhereCleaned(files.fs, entries[i]);
      EntryLeadsWhereCleaned(files.fs, entries[j]);
      CleanedIsProper(entries[i]);
      CleanedIsProper(entries[j]);
    }
  }

  lemma CleanedIsProper(entry: seq<Name>)
    requires AreComponents(entry)
    ensures IsProper(Clean([], entry + [PROGRAM]))
  {
    CleanIsNames([], entry + [PROGRAM]);
    SymlinkSeparation.CleanedFromRoot(entry + [PROGRAM]);
  }

  lemma EntryLeadsWhereCleaned(fs: Fs, entry: seq<Name>)
    requires DotDotsLead(entry)
    ensures Resolve(fs, [], entry + [PROGRAM], []) == Walk(fs, [], Clean([], entry + [PROGRAM]), [])
  {
    WalkIsResolve(fs, [], entry + [PROGRAM], []);
    WalkOfDirect(fs, entry + [PROGRAM], []);
  }

  ghost predicate IdsAreDistinct(instances: seq<Instance>) {
    forall i, j :: 0 <= i < j < |instances| ==> instances[i].id != instances[j].id
  }

  /** Whether a candidate is an installation of its own, and not the Snap's launcher or anything of the Snap. */
  predicate IsEligible(c: PathCandidate, snap: SnapLauncher, snapMountRoot: Text) {
    && c.executable && c.canonical != []
    && !(snap.path != [] && c.absolute == snap.path) && !(snap.canonical != [] && c.canonical == snap.canonical)
    && !IsUnderSnapRoot(c.canonical, snapMountRoot)
  }

  /** The candidate at `k` is the first eligible one that leads to its file. */
  predicate IsFirstOfItsFile(candidates: seq<PathCandidate>, snap: SnapLauncher, snapMountRoot: Text, k: nat) {
    && k < |candidates| && IsEligible(candidates[k], snap, snapMountRoot)
    && forall m :: 0 <= m < k && IsEligible(candidates[m], snap, snapMountRoot) ==> candidates[m].canonical != candidates[k].canonical
  }

  function NativeInstance(c: PathCandidate): Instance {
    Instance(NATIVE_PREFIX + c.absolute, Native, c.absolute, [])
  }

  /** The native instances among the first `n` candidates: one for each file, in the order of PATH. */
  function NativeInstances(candidates: seq<PathCandidate>, snap: SnapLauncher, snapMountRoot: Text,
                           n: nat): seq<Instance>
    requires n <= |candidates|
  {
    if n == 0 then []
    else
      NativeInstances(candidates, snap, snapMountRoot, n - 1) +
      if IsFirstOfItsFile(candidates, snap, snapMountRoot, n - 1) then [NativeInstance(candidates[n - 1])] else []
  }

  /** The first part of `scan`. */
  method ScanNative(candidates: seq<PathCandidate>, snap: SnapLauncher, snapMountRoot: Text)
    returns (instances: seq<Instance>)
    ensures instances == NativeInstances(candidates, snap, snapMountRoot, |candidates|)
  {
    instances := [];
    var nativeCanonicalPaths: set<Text> := {};
    for k := 0 to |candidates|
      invariant instances == NativeInstances(candidates, snap, snapMountRoot, k)
      invariant forall path :: path in nativeCanonicalPaths <==>
                  exists m :: 0 <= m < k && IsEligible(candidates[m], snap, snapMountRoot) && candidates[m].canonical == path
    {
      var candidate := candidates[k];
      if !candidate.executable || candidate.canonical == [] {
        continue;
      }
      if (snap.path != [] && candidate.absolute == snap.path) || (snap.canonical != [] && candidate.canonical == snap.canonical) ||
         IsUnderSnapRoot(candidate.canonical, snapMountRoot) || candidate.canonical in nativeCanonicalPaths {
        continue;
      }
      nativeCanonicalPaths := nativeCanonicalPaths + {candidate.canonical};
      instances := instances + [Instance(NATIVE_PREFIX + candidate.absolute, Native, candidate.absolute, [])];
    }
  }

  lemma {:induction false} NativesComeFrom(candidates: seq<PathCandidate>, snap: SnapLauncher, snapMountRoot: Text,
                                           n: nat)
    requires n <= |candidates|
    ensures forall i :: i in NativeInstances(candidates, snap, snapMountRoot, n) ==>
              && NATIVE_PREFIX <= i.id
              && exists m :: 0 <= m < n && IsFirstOfItsFile(candidates, snap, snapMountRoot, m) && i == NativeInstance(candidates[m])
  {
    if n > 0 {
      NativesComeFrom(candidates, snap, snapMountRoot, n - 1);
    }
  }

  /**
    The file of every candidate that can be executed and is neither the Snap's launcher nor a file of the Snap
    is listed, under the first such candidate.
   */
  lemma CandidatesAreListed(candidates: seq<PathCandidate>, snap: SnapLauncher, snapMountRoot: Text, m: nat)
    requires m < |candidates| && candidates[m].executable && candidates[m].canonical != []
    requires snap.path == [] || candidates[m].absolute != snap.path
    requires snap.canonical == [] || candidates[m].canonical != snap.canonical
    requires !IsUnderSnapRoot(candidates[m].canonical, snapMountRoot)
    ensures exists k :: 0 <= k <= m && IsFirstOfItsFile(candidates, snap, snapMountRoot, k)
                        && candidates[k].canonical == candidates[m].canonical
                        && NativeInstance(candidates[k]) in NativeInstances(candidates, snap, snapMountRoot, |candidates|)
  {
    hide NativeInstance, NativeInstances, IsUnderSnapRoot, IsFirstOfItsFile;
    EligibleAreListed(candidates, snap, snapMountRoot, m);
  }

  lemma {:induction false} EligibleAreListed(candidates: seq<PathCandidate>, snap: SnapLauncher, snapMountRoot: Text, m: nat)
    requires m < |candidates| && IsEligible(candidates[m], snap, snapMountRoot)
    ensures exists k :: 0 <= k <= m && IsFirstOfItsFile(candidates, snap, snapMountRoot, k)
                        && candidates[k].canonical == candidates[m].canonical
                        && NativeInstance(candidates[k]) in NativeInstances(candidates, snap, snapMountRoot, |candidates|)
  {
    hide IsEligible, NativeInstance;
    if IsFirstOfItsFile(candidates, snap, snapMountRoot, m) {
      FirstsAreListed(candidates, snap, snapMountRoot, m, |candidates|);
    } else {
      var k :| 0 <= k < m && IsEligible(candidates[k], snap, snapMountRoot) && candidates[k].canonical == candidates[m].canonical;
      EligibleAreListed(candidates, snap, snapMountRoot, k);
    }
  }

  lemma {:induction false} FirstsAreListed(candidates: seq<PathCandidate>, snap: SnapLauncher, snapMountRoot: Text, k: nat, n: nat)
    requires k < n <= |candidates| && IsFirstOfItsFile(candidates, snap, snapMountRoot, k)
    ensures NativeInstance(candidates[k]) in NativeInstances(candidates, snap, snapMountRoot, n)
  {
    hide IsFirstOfItsFile, NativeInstance;
    if k < n - 1 {
      FirstsAreListed(candidates, snap, snapMountRoot, k, n - 1);
    }
  }

  /** No native instance is the Snap's launcher or a file of the Snap, and each is an executable file. */
  lemma NativesAreNative(candidates: seq<PathCandidate>, snap: SnapLauncher, snapMountRoot: Text, i: Instance)
    requires i in NativeInstances(candidates, snap, snapMountRoot, |candidates|)
    ensures i.kind == Native && i.id == Ascii("native:") + i.executable && i.launcherPrefix == []
    ensures exists m :: && 0 <= m < |candidates| && candidates[m].absolute == i.executable && candidates[m].executable
                        && (snap.path != [] ==> i.executable != snap.path)
                        && (snap.canonical != [] ==> candidates[m].canonical != snap.canonical)
                        && !IsUnderSnapRoot(candidates[m].canonical, snapMountRoot)
  {
    hide IsUnderSnapRoot;
    NativesComeFrom(candidates, snap, snapMountRoot, |candidates|);
  }

  /** A further file has an id that no earlier one has. */
  lemma FurtherIdIsNew(candidates: seq<PathCandidate>, snap: SnapLauncher, snapMountRoot: Text, n: nat, i: Instance)
    requires PathsNameFiles(candidates) && IsFirstOfItsFile(candidates, snap, snapMountRoot, n)
    requires exists m :: 0 <= m < n && IsFirstOfItsFile(candidates, snap, snapMountRoot, m) && i == NativeInstance(candidates[m])
    ensures i.id != NativeInstance(candidates[n]).id
  {
    hide IsEligible;
    var m :| 0 <= m < n && IsFirstOfItsFile(candidates, snap, snapMountRoot, m) && i == NativeInstance(candidates[m]);
    SamePrefix(candidates[m].absolute, candidates[n].absolute);
  }

  /** If one path names one file, the native ids are distinct. */
  lemma {:induction false} NativeIdsAreDistinct(candidates: seq<PathCandidate>, snap: SnapLauncher,
                                                snapMountRoot: Text, n: nat)
    requires n <= |candidates| && PathsNameFiles(candidates)
    ensures IdsAreDistinct(NativeInstances(candidates, snap, snapMountRoot, n))
  {
    hide IsEligible, IsFirstOfItsFile, PathsNameFiles, NativeInstance;
    if n > 0 {
      NativeIdsAreDistinct(candidates, snap, snapMountRoot, n - 1);
      NativesComeFrom(candidates, snap, snapMountRoot, n - 1);
      var before := NativeInstances(candidates, snap, snapMountRoot, n - 1);
      if IsFirstOfItsFile(candidates, snap, snapMountRoot, n - 1) {
        forall i | i in before
          ensures i.id != NativeInstance(candidates[n - 1]).id
        {
          FurtherIdIsNew(candidates, snap, snapMountRoot, n - 1, i);
        }
        assert forall k :: 0 <= k < |before| ==> before[k] in before;
      }
    }
  }

  lemma SamePrefix(a: Text, b: Text)
    ensures NATIVE_PREFIX + a == NATIVE_PREFIX + b ==> a == b
  {
    assert (NATIVE_PREFIX + a)[|NATIVE_PREFIX|..] == a && (NATIVE_PREFIX + b)[|NATIVE_PREFIX|..] == b;
  }

  function FlatpakInstance(i: FlatpakInstallation, executable: Text): Instance {
    Instance(FlatpakId(i), Flatpak, executable, FlatpakLauncherPrefix(i))
  }

  /** The instances of a listing are those of the installations it lists, in their order. */
  ghost predicate AreFlatpakInstances(executable: Text, listing: ByteString, isSpace: ByteString -> bool,
                                      instances: seq<Instance>) {
    exists list :: IsInstallationList(Split(listing, LINE_FEED), isSpace, list) && AreInstancesOf(list, executable, instances)
  }

  ghost predicate AreInstancesOf(list: seq<FlatpakInstallation>, executable: Text, instances: seq<Instance>) {
    |instances| == |list| && forall k :: 0 <= k < |list| ==> instances[k] == FlatpakInstance(list[k], executable)
  }

  /** The second part of `scan`, when the listing succeeded. */
  method ScanFlatpak(executable: Text, listing: ByteString, isSpace: ByteString -> bool)
    returns (instances: seq<Instance>)
    ensures AreFlatpakInstances(executable, listing, isSpace, instances)
    ensures IdsAreDistinct(instances)
  {
    hide IsRemminaRef, IsAccepted, FlatpakLauncherPrefix;
    var list := ParseFlatpakInstallations(listing, isSpace);
    instances := [];
    for k := 0 to |list|
      invariant |instances| == k
      invariant forall i :: 0 <= i < k ==> instances[i] == FlatpakInstance(list[i], executable)
    {
      instances := instances + [Instance(FlatpakId(list[k]), Flatpak, executable, FlatpakLauncherPrefix(list[k]))];
    }
    assert AreInstancesOf(list, executable, instances);
    ListedIdsAreDistinct(list, executable, instances);
  }

  lemma ListedIdsAreDistinct(list: seq<FlatpakInstallation>, executable: Text, instances: seq<Instance>)
    requires AreInstancesOf(list, executable, instances)
    requires AllDistinct(list) && forall i :: i in list ==> IsRemminaRef(i.ref)
    ensures IdsAreDistinct(instances)
  {
    hide IsRemminaRef, FlatpakId, FlatpakLauncherPrefix;
    forall i, j | 0 <= i < j < |instances|
      ensures instances[i].id != instances[j].id
    {
      assert list[i] in list && list[j] in list;
      if FlatpakId(list[i]) == FlatpakId(list[j]) {
        FlatpakIdInjective(list[i], list[j]);
      }
    }
  }

  /** A failed backend excuses exactly the ids that its instances have. */
  lemma BackendsOfIds(i: FlatpakInstallation, c: PathCandidate)
    ensures BackendForStableId(FlatpakId(i)) == Some(FlatpakBackend)
    ensures BackendForStableId(SNAP_ID) == Some(SnapBackend)
    ensures BackendForStableId(NativeInstance(c).id) == None
    ensures FlatpakId(i) == Ascii("flatpak:") + i.installation + Ascii(":") + i.ref
  {
    assert Ascii(":") == [COLON];
    assert SNAP_ID[..5] == SNAP_PREFIX && SNAP_ID[0] != FLATPAK_PREFIX[0];
    assert NativeInstance(c).id[0] == 0x6E;
    assert FlatpakId(i) == FLATPAK_PREFIX + (i.installation + [COLON] + i.ref);
  }

  /** The instances of a scan by backend: natives, then Flatpaks, then the Snap. */
  ghost predicate AreScanned(natives: seq<Instance>, flatpaks: seq<Instance>, snaps: seq<Instance>,
                             flatpak: FlatpakCommand,
                             snap: SnapLauncher, isSpace: ByteString -> bool) {
    && (if flatpak.canonical != [] && flatpak.listing.Some?
        then AreFlatpakInstances(flatpak.canonical, flatpak.listing.value, isSpace, flatpaks) else flatpaks == [])
    && snaps == if snap.path != [] && snap.found && snap.executable && snap.canonical != []
                then [Instance(Ascii("snap:remmina"), Snap, snap.path, [])] else []
  }

  /** `scan`: what it lists, that all ids are distinct, and that a backend failed exactly if it could not be asked. */
  method ScanInstances(files: Files, entries: seq<seq<Name>>, flatpak: FlatpakCommand, snap: SnapLauncher,
                       snapMountRoot: Text,
                       isSpace: ByteString -> bool) returns (scan: Scan)
    requires IsSpelling(files.spelled) && AreEntries(entries)
    ensures var candidates := Candidates(files, entries);
            exists flatpaks, snaps ::
              && AreScanned(NativeInstances(candidates, snap, snapMountRoot, |candidates|), flatpaks, snaps, flatpak, snap, isSpace)
              && scan.instances == NativeInstances(candidates, snap, snapMountRoot, |candidates|) + flatpaks + snaps
    ensures AreDirect(entries) ==> IdsAreDistinct(scan.instances)
    ensures FlatpakBackend in scan.failedBackends <==> flatpak.canonical != [] && flatpak.listing == None
    ensures SnapBackend in scan.failedBackends <==>
              snap.path != [] && if snap.found then snap.executable && snap.canonical == [] else snap.isSymlink
  {
    hide NativeInstances, AreFlatpakInstances, IdsAreDistinct, PathsNameFiles, Candidates, IsSpelling, AreDirect, AreEntries;
    var candidates := Candidates(files, entries);
    var natives := ScanNative(candidates, snap, snapMountRoot);
    var flatpaks: seq<Instance> := [];
    var snaps: seq<Instance> := [];
    var failedBackends: seq<Backend> := [];
    if flatpak.canonical != [] {
      if flatpak.listing == None {
        failedBackends := failedBackends + [FlatpakBackend];
      } else {
        flatpaks := ScanFlatpak(flatpak.canonical, flatpak.listing.value, isSpace);
      }
    }
    if snap.path != [] {
      if !snap.found {
        if snap.isSymlink {
          failedBackends := failedBackends + [SnapBackend];
        }
      } else if snap.executable {
        if snap.canonical == [] {
          failedBackends := failedBackends + [SnapBackend];
        } else {
          snaps := [Instance(SNAP_ID, Snap, snap.path, [])];
        }
      }
    }
    assert AreScanned(natives, flatpaks, snaps, flatpak, snap, isSpace);
    if AreDirect(entries) {
      CleanPathsNameFiles(files, entries);
      NativeIdsAreDistinct(candidates, snap, snapMountRoot, |candidates|);
      NativesComeFrom(candidates, snap, snapMountRoot, |candidates|);
      FlatpaksAreFlatpaks(flatpak, isSpace, flatpaks);
      BackendsDiffer(natives, flatpaks, snaps);
    }
    return Scan(natives + flatpaks + snaps, failedBackends);
  }

  lemma FlatpaksAreFlatpaks(flatpak: FlatpakCommand, isSpace: ByteString -> bool, flatpaks: seq<Instance>)
    requires if flatpak.canonical != [] && flatpak.listing.Some?
             then AreFlatpakInstances(flatpak.canonical, flatpak.listing.value, isSpace, flatpaks) else flatpaks == []
    ensures (forall k :: 0 <= k < |flatpaks| ==> FLATPAK_PREFIX <= flatpaks[k].id)
    ensures flatpaks == [] ==> IdsAreDistinct(flatpaks)
  {
  }

  /** Ids of different backends begin differently. */
  lemma BackendsDiffer(natives: seq<Instance>, flatpaks: seq<Instance>, snaps: seq<Instance>)
    requires forall k :: 0 <= k < |natives| ==> NATIVE_PREFIX <= natives[k].id
    requires forall k :: 0 <= k < |flatpaks| ==> FLATPAK_PREFIX <= flatpaks[k].id
    requires |snaps| <= 1 && forall k :: 0 <= k < |snaps| ==> snaps[k].id == SNAP_ID
    ensures IdsAreDistinct(natives) && IdsAreDistinct(flatpaks) ==> IdsAreDistinct(natives + flatpaks + snaps)
  {
    assert NATIVE_PREFIX[0] == 0x6E && FLATPAK_PREFIX[0] == 0x66 && SNAP_ID[0] == 0x73;
    forall k | 0 <= k < |natives|
      ensures natives[k].id[0] == 0x6E
    {
    }
    forall k | 0 <= k < |flatpaks|
      ensures flatpaks[k].id[0] == 0x66
    {
    }
  }
}
