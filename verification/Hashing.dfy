/** The length-prefixed framing under which the repository hashes lists of texts. */
module Hashing {
  import opened Bytes

  /** The low 64 bits of `n`, `k` bytes of them, most significant first. */
  function BigEndian(n: nat, k: nat): (r: ByteString)
    ensures |r| == k
  {
    if k == 0 then [] else BigEndian(n / 0x100, k - 1) + [(n % 0x100) as Byte]
  }

  function Power256(k: nat): nat {
    if k == 0 then 1 else 0x100 * Power256(k - 1)
  }

  /** Numbers below 256^k are determined by their `k` bytes. */
  lemma {:induction false} BigEndianInjective(m: nat, n: nat, k: nat)
    requires BigEndian(m, k) == BigEndian(n, k) && m < Power256(k) && n < Power256(k)
    ensures m == n
  {
    if k > 0 {
      var a, b := BigEndian(m, k), BigEndian(n, k);
      assert a[..k - 1] == BigEndian(m / 0x100, k - 1) && b[..k - 1] == BigEndian(n / 0x100, k - 1);
      assert a[k - 1] == b[k - 1];
      BigEndianInjective(m / 0x100, n / 0x100, k - 1);
    }
  }

  /** `addLength`: the eight bytes it feeds to the hash. */
  method AddLength(data: ByteString, length: nat) returns (r: ByteString)
    ensures r == data + BigEndian(length, 8)
  {
    var encodedLength := new Byte[8];
    var rest := length;
    var index := 8;
    while index > 0
      invariant 0 <= index <= 8
      invariant BigEndian(length, 8) == BigEndian(rest, index) + encodedLength[index..]
    {
      index := index - 1;
      encodedLength[index] := (rest % 0x100) as Byte;
      rest := rest / 0x100;
      assert encodedLength[index..] == [encodedLength[index]] + encodedLength[index + 1..];
    }
    assert encodedLength[0..] == encodedLength[..];
    assert [] + encodedLength[..] == encodedLength[..];
    return data + encodedLength[..];
  }

  function FramedFields(fields: seq<ByteString>): ByteString {
    if fields == [] then [] else BigEndian(|fields[0]|, 8) + fields[0] + FramedFields(fields[1..])
  }

  /** The bytes that `hashTuple` hashes. */
  function Framed(fields: seq<ByteString>): ByteString {
    BigEndian(|fields|, 8) + FramedFields(fields)
  }

  type Digest = ByteString -> ByteString

  /** `hashTuple` under the digest `sha`. */
  function HashOf(sha: Digest, fields: seq<ByteString>): ByteString { sha(Framed(fields)) }

  lemma {:induction false} FramedFieldsAppends(fields: seq<ByteString>, field: ByteString)
    ensures FramedFields(fields + [field]) == FramedFields(fields) + (BigEndian(|field|, 8) + field)
  {
    if fields == [] {
      assert fields + [field] == [field] && [field][1..] == [];
    } else {
      assert (fields + [field])[1..] == fields[1..] + [field];
      FramedFieldsAppends(fields[1..], field);
    }
  }

  method HashTuple(sha: Digest, fields: seq<ByteString>) returns (r: ByteString)
    ensures r == HashOf(sha, fields)
  {
    hide BigEndian;
    var data := AddLength([], |fields|);
    ghost var start := data;
    assert start == BigEndian(|fields|, 8);
    for index := 0 to |fields|
      invariant data == start + FramedFields(fields[..index])
    {
      assert fields[..index + 1] == fields[..index] + [fields[index]];
      FramedFieldsAppends(fields[..index], fields[index]);
      data := AddLength(data, |fields[index]|);
      data := data + fields[index];
    }
    assert fields[..|fields|] == fields;
    return sha(data);
  }

  /** Lengths that fit the eight bytes. */
  ghost predicate AreFramable(fields: seq<ByteString>) {
    && |fields| < Power256(8)
    && forall i :: 0 <= i < |fields| ==> |fields[i]| < Power256(8)
  }

  lemma SplitFront(head: ByteString, field: ByteString, rest: ByteString)
    ensures var s := head + field + rest;
            && s[..|head|] == head && s[|head|..] == field + rest
            && (field + rest)[..|field|] == field && (field + rest)[|field|..] == rest
  {
  }

  lemma {:induction false} FramedFieldsInjective(a: seq<ByteString>, b: seq<ByteString>)
    requires AreFramable(a) && AreFramable(b) && |a| == |b| && FramedFields(a) == FramedFields(b)
    ensures a == b
  {
    hide Power256;
    if a != [] {
      SplitFront(BigEndian(|a[0]|, 8), a[0], FramedFields(a[1..]));
      SplitFront(BigEndian(|b[0]|, 8), b[0], FramedFields(b[1..]));
      BigEndianInjective(|a[0]|, |b[0]|, 8);
      FramedFieldsInjective(a[1..], b[1..]);
      assert a == [a[0]] + a[1..] && b == [b[0]] + b[1..];
    }
  }

  /** The framing is injective on lists of texts. */
  lemma FramedInjective(a: seq<ByteString>, b: seq<ByteString>)
    requires AreFramable(a) && AreFramable(b) && Framed(a) == Framed(b)
    ensures a == b
  {
    hide Power256, FramedFields;
    assert Framed(a)[..8] == BigEndian(|a|, 8) && Framed(b)[..8] == BigEndian(|b|, 8);
    BigEndianInjective(|a|, |b|, 8);
    assert Framed(a)[8..] == FramedFields(a) && Framed(b)[8..] == FramedFields(b);
    FramedFieldsInjective(a, b);
  }

  ghost predicate IsInjective(sha: Digest) {
    forall x, y :: sha(x) == sha(y) ==> x == y
  }

  // ---- The two hashes of the repository ----

  /** The domain labels. */
  const PROFILE_ID_LABEL: ByteString := Ascii("remmina-krunner-profile-id-v1")
  const CACHE_KEY_LABEL: ByteString := Ascii("remmina-krunner-profile-cache-v1")

  /** `opaqueProfileId`. */
  function OpaqueProfileId(sha: Digest, instanceId: ByteString, identity: ByteString): ByteString {
    HashOf(sha, [PROFILE_ID_LABEL, instanceId, identity])
  }

  /** `cacheKey`. */
  function CacheKey(sha: Digest, instanceId: ByteString, hostPath: ByteString, identity: ByteString): ByteString {
    HashOf(sha, [CACHE_KEY_LABEL, instanceId, hostPath, identity])
  }

  ghost predicate Fits(text: ByteString) { |text| < Power256(8) }

  lemma LabelsFit()
    ensures Fits(PROFILE_ID_LABEL) && Fits(CACHE_KEY_LABEL)
    ensures 4 < Power256(8)
  {
    assert Power256(1) == 0x100;
    assert Power256(2) == 0x1_0000;
    assert Power256(8) >= Power256(2) by { Power256Grows(2, 8); }
    assert |PROFILE_ID_LABEL| < 0x100 && |CACHE_KEY_LABEL| < 0x100;
  }

  lemma {:induction false} Power256Grows(a: nat, b: nat)
    requires a <= b
    ensures Power256(a) <= Power256(b)
    decreases b - a
  {
    if a < b {
      Power256Grows(a + 1, b);
    }
  }

  /** With a collision-free digest an opaque id names one instance and one file. */
  lemma OpaqueIdInjective(sha: Digest, instance: ByteString, identity: ByteString, instance': ByteString,
                          identity': ByteString)
    requires IsInjective(sha) && Fits(instance) && Fits(identity) && Fits(instance') && Fits(identity')
    requires OpaqueProfileId(sha, instance, identity) == OpaqueProfileId(sha, instance', identity')
    ensures instance == instance' && identity == identity'
  {
    hide Framed, Power256;
    LabelsFit();
    var a, b := [PROFILE_ID_LABEL, instance, identity], [PROFILE_ID_LABEL, instance', identity'];
    FramedInjective(a, b);
    assert a[1] == b[1] && a[2] == b[2];
  }

  /** And a cache key one instance, directory and file. */
  lemma CacheKeyInjective(sha: Digest, instance: ByteString, hostPath: ByteString, identity: ByteString,
                          instance': ByteString, hostPath': ByteString, identity': ByteString)
    requires IsInjective(sha) && Fits(instance) && Fits(hostPath) && Fits(identity)
    requires Fits(instance') && Fits(hostPath') && Fits(identity')
    requires CacheKey(sha, instance, hostPath, identity) == CacheKey(sha, instance', hostPath', identity')
    ensures instance == instance' && hostPath == hostPath' && identity == identity'
  {
    hide Framed, Power256;
    LabelsFit();
    var a, b := [CACHE_KEY_LABEL, instance, hostPath, identity], [CACHE_KEY_LABEL, instance', hostPath', identity'];
    FramedInjective(a, b);
    assert a[1] == b[1] && a[2] == b[2] && a[3] == b[3];
  }

  /** No cache key is an opaque id. */
  lemma KeysAreNotIds(sha: Digest, instance: ByteString, hostPath: ByteString, identity: ByteString,
                      instance': ByteString, identity': ByteString)
    requires IsInjective(sha) && Fits(instance) && Fits(hostPath) && Fits(identity) && Fits(instance') && Fits(identity')
    ensures CacheKey(sha, instance, hostPath, identity) != OpaqueProfileId(sha, instance', identity')
  {
    hide Framed, Power256;
    LabelsFit();
    var a, b := [CACHE_KEY_LABEL, instance, hostPath, identity], [PROFILE_ID_LABEL, instance', identity'];
    assert |a| != |b|;
    if Framed(a) == Framed(b) {
      FramedInjective(a, b);
    }
  }
}
