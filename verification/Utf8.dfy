/** The key-file reader's UTF-8 check against the grammar of section 4 of RFC 3629. */
module Utf8 {
  import opened Bytes

  // ---- The grammar ----

  predicate IsTail(b: Byte) { 0x80 <= b <= 0xBF }

  /** `UTF8-char` of section 4 of RFC 3629, one alternative a line. */
  predicate IsChar(c: ByteString) {
    || (|c| == 1 && c[0] <= 0x7F)
    || (|c| == 2 && 0xC2 <= c[0] <= 0xDF && IsTail(c[1]))
    || (|c| == 3 && c[0] == 0xE0 && 0xA0 <= c[1] <= 0xBF && IsTail(c[2]))
    || (|c| == 3 && 0xE1 <= c[0] <= 0xEC && IsTail(c[1]) && IsTail(c[2]))
    || (|c| == 3 && c[0] == 0xED && 0x80 <= c[1] <= 0x9F && IsTail(c[2]))
    || (|c| == 3 && 0xEE <= c[0] <= 0xEF && IsTail(c[1]) && IsTail(c[2]))
    || (|c| == 4 && c[0] == 0xF0 && 0x90 <= c[1] <= 0xBF && IsTail(c[2]) && IsTail(c[3]))
    || (|c| == 4 && 0xF1 <= c[0] <= 0xF3 && IsTail(c[1]) && IsTail(c[2]) && IsTail(c[3]))
    || (|c| == 4 && c[0] == 0xF4 && 0x80 <= c[1] <= 0x8F && IsTail(c[2]) && IsTail(c[3]))
  }

  ghost predicate AreChars(chars: seq<ByteString>) {
    forall c :: c in chars ==> IsChar(c)
  }

  /** `UTF8-octets`: a string that is a sequence of characters. */
  ghost predicate IsOctets(s: ByteString) {
    exists chars :: AreChars(chars) && Concat(chars) == s
  }

  /** What the reader accepts: well-formed text without NUL. */
  ghost predicate IsText(s: ByteString) {
    0 !in s && IsOctets(s)
  }

  // ---- Characters and code points ----

  /** Unicode scalar values: the code points without the surrogates. */
  predicate IsScalar(v: nat) { v <= 0xD7FF || 0xE000 <= v <= 0x10FFFF }

  /** The table of section 3 of RFC 3629. */
  function Encode(v: nat): ByteString
    requires IsScalar(v)
  {
    if v <= 0x7F then [v as Byte]
    else if v <= 0x7FF then [(0xC0 + v / 0x40) as Byte, (0x80 + v % 0x40) as Byte]
    else if v <= 0xFFFF then
      [(0xE0 + v / 0x1000) as Byte, (0x80 + v / 0x40 % 0x40) as Byte, (0x80 + v % 0x40) as Byte]
    else
      [(0xF0 + v / 0x40000) as Byte, (0x80 + v / 0x1000 % 0x40) as Byte, (0x80 + v / 0x40 % 0x40) as Byte,
       (0x80 + v % 0x40) as Byte]
  }

  function Decode(c: ByteString): nat
    requires IsChar(c)
  {
    if |c| == 1 then c[0] as nat
    else if |c| == 2 then (c[0] as nat - 0xC0) * 0x40 + (c[1] as nat - 0x80)
    else if |c| == 3 then (c[0] as nat - 0xE0) * 0x1000 + (c[1] as nat - 0x80) * 0x40 + (c[2] as nat - 0x80)
    else (c[0] as nat - 0xF0) * 0x40000 + (c[1] as nat - 0x80) * 0x1000 + (c[2] as nat - 0x80) * 0x40
         + (c[3] as nat - 0x80)
  }

  lemma TwoDigits(v: nat)
    ensures v == (v / 0x40) * 0x40 + v % 0x40
    ensures v / 0x40 == (v / 0x1000) * 0x40 + v / 0x40 % 0x40
    ensures v / 0x1000 == (v / 0x40000) * 0x40 + v / 0x1000 % 0x40
  {
    assert v / 0x40 / 0x40 == v / 0x1000 && v / 0x1000 / 0x40 == v / 0x40000;
  }

  lemma EncodeIsChar(v: nat)
    requires IsScalar(v)
    ensures IsChar(Encode(v)) && Decode(Encode(v)) == v
  {
    TwoDigits(v);
  }

  lemma DecodeTwo(c: ByteString)
    requires IsChar(c) && |c| == 2
    ensures IsScalar(Decode(c)) && Encode(Decode(c)) == c
  {
    DigitsAreUnique(c[0] as nat - 0xC0, c[1] as nat - 0x80);
  }

  lemma DecodeThree(c: ByteString)
    requires IsChar(c) && |c| == 3
    ensures IsScalar(Decode(c)) && Encode(Decode(c)) == c
  {
    var high := (c[0] as nat - 0xE0) * 0x40 + (c[1] as nat - 0x80);
    TwoDigits(Decode(c));
    DigitsAreUnique(c[0] as nat - 0xE0, c[1] as nat - 0x80);
    DigitsAreUnique(high, c[2] as nat - 0x80);
  }

  lemma DecodeFour(c: ByteString)
    requires IsChar(c) && |c| == 4
    ensures IsScalar(Decode(c)) && Encode(Decode(c)) == c
  {
    var top := (c[0] as nat - 0xF0) * 0x40 + (c[1] as nat - 0x80);
    var high := top * 0x40 + (c[2] as nat - 0x80);
    TwoDigits(Decode(c));
    DigitsAreUnique(c[0] as nat - 0xF0, c[1] as nat - 0x80);
    DigitsAreUnique(top, c[2] as nat - 0x80);
    DigitsAreUnique(high, c[3] as nat - 0x80);
  }

  lemma DecodeIsScalar(c: ByteString)
    requires IsChar(c)
    ensures IsScalar(Decode(c)) && Encode(Decode(c)) == c
  {
    if |c| == 2 {
      DecodeTwo(c);
    } else if |c| == 3 {
      DecodeThree(c);
    } else if |c| == 4 {
      DecodeFour(c);
    }
  }

  lemma DigitsAreUnique(high: nat, low: nat)
    requires low < 0x40
    ensures (high * 0x40 + low) / 0x40 == high && (high * 0x40 + low) % 0x40 == low
  {
  }

  /** The grammar's characters are exactly the encodings of the scalar values. */
  lemma CharsEncodeScalars(c: ByteString)
    ensures IsChar(c) <==> exists v: nat :: IsScalar(v) && Encode(v) == c
  {
    if IsChar(c) {
      DecodeIsScalar(c);
    }
    forall v: nat | IsScalar(v) && Encode(v) == c
      ensures IsChar(c)
    {
      EncodeIsChar(v);
    }
  }

  // ---- The front character ----

  /** The length of the character a string begins with, or 0. */
  function FrontLength(s: ByteString): (n: nat)
    ensures n <= |s| && n <= 4
    ensures n > 0 ==> IsChar(s[..n])
  {
    if |s| >= 1 && IsChar(s[..1]) then 1
    else if |s| >= 2 && IsChar(s[..2]) then 2
    else if |s| >= 3 && IsChar(s[..3]) then 3
    else if |s| >= 4 && IsChar(s[..4]) then 4
    else 0
  }

  /** No character is a proper prefix of another. */
  lemma FrontIsUnique(c: ByteString, rest: ByteString)
    requires IsChar(c)
    ensures FrontLength(c + rest) == |c|
  {
    var s := c + rest;
    assert s[..|c|] == c;
    assert forall i :: 0 <= i < |c| ==> s[i] == c[i];
  }

  /** `IsText`, character by character. */
  predicate Valid(s: ByteString)
    decreases |s|
  {
    s == [] || (FrontLength(s) > 0 && s[0] != 0 && Valid(s[FrontLength(s)..]))
  }

  lemma {:induction false} ConcatIsValid(chars: seq<ByteString>)
    requires AreChars(chars) && 0 !in Concat(chars)
    ensures Valid(Concat(chars))
  {
    if chars != [] {
      var s := Concat(chars);
      assert chars[0] in chars;
      FrontIsUnique(chars[0], Concat(chars[1..]));
      assert s[|chars[0]|..] == Concat(chars[1..]);
      assert s[0] in s;
      ConcatIsValid(chars[1..]);
    }
  }

  lemma {:induction false} ValidIsText(s: ByteString)
    ensures Valid(s) ==> IsText(s)
    decreases |s|
  {
    if s == [] {
      assert Concat([]) == s && AreChars([]);
    } else if Valid(s) {
      var n := FrontLength(s);
      ValidIsText(s[n..]);
      var chars :| AreChars(chars) && Concat(chars) == s[n..];
      assert s == s[..n] + s[n..];
      assert ([s[..n]] + chars)[1..] == chars;
      assert Concat([s[..n]] + chars) == s;
      assert 0 !in s[..n];
    }
  }

  lemma TextIsValid(s: ByteString)
    ensures Valid(s) <==> IsText(s)
  {
    ValidIsText(s);
    if IsText(s) {
      var chars :| AreChars(chars) && Concat(chars) == s;
      ConcatIsValid(chars);
    }
  }

  // ---- The program's check ----

  method HasContinuationBytes(input: ByteString, offset: nat, count: nat) returns (r: bool)
    ensures r <==> offset + count <= |input| && forall i :: offset <= i < offset + count ==> IsTail(input[i])
  {
    if offset + count > |input| {
      return false;
    }
    for index := 0 to count
      invariant forall i :: offset <= i < offset + index ==> IsTail(input[i])
    {
      if !IsTail(input[offset + index]) {
        return false;
      }
    }
    return true;
  }

  /** One step of the check: the branches on the lead byte recognise exactly the front character. */
  method FrontCharacter(input: ByteString, index: nat) returns (n: nat)
    requires index < |input|
    ensures n == FrontLength(input[index..])
  {
    var lead := input[index];
    ghost var s := input[index..];
    assert forall i :: 0 <= i < |s| ==> s[i] == input[index + i];
    if lead <= 0x7F {
      return 1;
    }
    if 0xC2 <= lead <= 0xDF {
      var tail := HasContinuationBytes(input, index + 1, 1);
      return if tail then 2 else 0;
    }
    if 0xE0 <= lead <= 0xEF {
      var tail := HasContinuationBytes(input, index + 1, 2);
      if !tail {
        return 0;
      }
      var second := input[index + 1];
      return if (lead == 0xE0 && second < 0xA0) || (lead == 0xED && second > 0x9F) then 0 else 3;
    }
    if 0xF0 <= lead <= 0xF4 {
      var tail := HasContinuationBytes(input, index + 1, 3);
      if !tail {
        return 0;
      }
      var second := input[index + 1];
      return if (lead == 0xF0 && second < 0x90) || (lead == 0xF4 && second > 0x8F) then 0 else 4;
    }
    return 0;
  }

  /** `isValidUtf8` accepts exactly the NUL-free strings of the grammar. */
  method IsValidUtf8(input: ByteString) returns (r: bool)
    ensures r <==> IsText(input)
  {
    TextIsValid(input);
    var index := 0;
    while index < |input|
      invariant index <= |input|
      invariant Valid(input) <==> Valid(input[index..])
    {
      if input[index] == 0 {
        return false;
      }
      var n := FrontCharacter(input, index);
      if n == 0 {
        return false;
      }
      assert input[index..][n..] == input[index + n..];
      index := index + n;
    }
    return true;
  }

  // ---- Cutting text ----

  /** A front character ends before the first byte that does not continue it; alone, such a byte is one. */
  lemma FrontEndsBefore(s: ByteString, k: nat)
    requires Valid(s) && k <= |s| && s != []
    requires k < |s| ==> !IsTail(s[k])
    ensures FrontLength(s) <= if k == 0 && s[0] <= 0x7F then 1 else if k == 0 then 4 else k
  {
    hide IsChar;
    var n := FrontLength(s);
    OnlyTailsFollow(s, n);
  }

  lemma OnlyTailsFollow(s: ByteString, n: nat)
    requires 0 < n <= |s| && IsChar(s[..n])
    ensures n <= 4 && (forall i :: 0 < i < n ==> IsTail(s[i])) && (s[0] <= 0x7F ==> n == 1)
  {
    assert forall i :: 0 <= i < n ==> s[..n][i] == s[i];
  }

  lemma CharIsValid(c: ByteString)
    requires IsChar(c) && c[0] != 0
    ensures Valid(c)
  {
    hide IsChar, FrontLength;
    FrontIsUnique(c, []);
    assert c + [] == c && c[|c|..] == [];
  }

  /** Text in front of text is text, and what follows text decides. */
  lemma {:induction false} ValidPrefix(a: ByteString, b: ByteString)
    requires Valid(a)
    ensures Valid(a + b) <==> Valid(b)
    decreases |a|
  {
    if a == [] {
      assert a + b == b;
    } else {
      var n := FrontLength(a);
      assert a + b == a[..n] + (a[n..] + b);
      FrontIsUnique(a[..n], a[n..] + b);
      assert (a + b)[n..] == a[n..] + b;
      ValidPrefix(a[n..], b);
    }
  }

  /** A front character that ends within the first part is the front of that part. */
  lemma FrontKept(a: ByteString, b: ByteString, n: nat)
    requires 0 < n == FrontLength(a + b) <= |a|
    ensures FrontLength(a) == n && (a + b)[n..] == a[n..] + b
  {
    hide IsChar;
    assert (a + b)[..n] == a[..n];
    assert a == a[..n] + a[n..];
    FrontIsUnique(a[..n], a[n..]);
  }

  /** Text may be cut before any byte that does not continue a character. */
  lemma {:induction false} CutBeforeNonTail(a: ByteString, b: ByteString)
    requires Valid(a + b) && (b == [] || !IsTail(b[0]))
    ensures Valid(a) && Valid(b)
    decreases |a|
  {
    hide IsChar, FrontLength;
    if a == [] {
      assert a + b == b;
    } else {
      var n := FrontLength(a + b);
      FrontEndsBefore(a + b, |a|);
      FrontKept(a, b, n);
      CutBeforeNonTail(a[n..], b);
    }
  }

  /** Text may be cut after any ASCII byte, and the two parts can be checked separately. */
  lemma {:induction false} CutAfterAscii(a: ByteString, b: ByteString)
    requires a != [] && a[|a| - 1] <= 0x7F
    ensures Valid(a + b) <==> Valid(a) && Valid(b)
    decreases |a|
  {
    hide IsChar, FrontLength;
    if Valid(a) {
      ValidPrefix(a, b);
    } else if Valid(a + b) {
      var n := FrontLength(a + b);
      FrontEndsBefore(a + b, |a| - 1);
      FrontKept(a, b, n);
      if n < |a| {
        CutAfterAscii(a[n..], b);
      }
    }
  }
}
