/** The values that pass between the profile repository and the catalog. */
module ProfileTypes {
  import opened Bytes

  /** What the parser takes from a profile's content. */
  datatype Fields = Fields(name: Text, server: Text, labels: seq<Text>, labelsDisplay: Text, protocol: Text)

  datatype ProfileRecord = ProfileRecord(opaqueId: Text, sourcePath: Text, launchPath: Text, fields: Fields)

  datatype Location = Location(hostPath: Text, launchPath: Text)

  datatype FileFingerprint = FileFingerprint(path: Text, size: int, modifiedMilliseconds: int)

  datatype DirectoryFingerprint =
    DirectoryFingerprint(canonicalPath: Text, device: nat, inode: nat, symlinkParentPaths: seq<Text>)

  datatype ProfileSnapshot = ProfileSnapshot(profiles: seq<ProfileRecord>, fingerprint: seq<FileFingerprint>,
                                             directory: Location, directoryFingerprint: DirectoryFingerprint)

  datatype RepositoryError = NoProfileDirectory | UnreadableDirectory

  datatype LoadResult = Loaded(snapshot: ProfileSnapshot) | LoadFailed(error: RepositoryError)

  // ---- Records with unambiguous ids ----

  function IdCount(profiles: seq<ProfileRecord>, id: Text): nat {
    if profiles == [] then 0
    else IdCount(profiles[..|profiles| - 1], id) + if profiles[|profiles| - 1].opaqueId == id then 1 else 0
  }

  predicate IsKept(all: seq<ProfileRecord>, record: ProfileRecord) {
    record.opaqueId != [] && IdCount(all, record.opaqueId) == 1
  }

  function Kept(all: seq<ProfileRecord>, profiles: seq<ProfileRecord>): seq<ProfileRecord> {
    if profiles == [] then []
    else
      var before, last := Kept(all, profiles[..|profiles| - 1]), profiles[|profiles| - 1];
      if IsKept(all, last) then before + [last] else before
  }

  /** The records with a nonempty id that no other record has. */
  function Sanitized(profiles: seq<ProfileRecord>): seq<ProfileRecord> { Kept(profiles, profiles) }

  /** `sanitizeRecords`: one pass counts the ids, one keeps the unambiguous records. */
  method SanitizeRecords(profiles: seq<ProfileRecord>) returns (sanitized: seq<ProfileRecord>)
    ensures sanitized == Sanitized(profiles)
  {
    var counts: map<Text, nat> := map[];
    for k := 0 to |profiles|
      invariant forall id :: id != [] ==> (if id in counts then counts[id] else 0) == IdCount(profiles[..k], id)
    {
      assert profiles[..k + 1][..k] == profiles[..k];
      var id := profiles[k].opaqueId;
      if id != [] {
        counts := counts[id := (if id in counts then counts[id] else 0) + 1];
      }
    }
    assert profiles[..|profiles|] == profiles;
    sanitized := [];
    for k := 0 to |profiles|
      invariant sanitized == Kept(profiles, profiles[..k])
    {
      assert profiles[..k + 1][..k] == profiles[..k];
      var record := profiles[k];
      if record.opaqueId != [] && (if record.opaqueId in counts then counts[record.opaqueId] else 0) == 1 {
        sanitized := sanitized + [record];
      }
    }
  }

  /** The record at `i` has a nonempty id that no record elsewhere has. */
  predicate IsUnambiguousAt(profiles: seq<ProfileRecord>, i: nat)
    requires i < |profiles|
  {
    profiles[i].opaqueId != [] && forall j :: 0 <= j < |profiles| && j != i ==> profiles[j].opaqueId != profiles[i].opaqueId
  }

  /** The records kept are at these places, which are those of all unambiguous ones in front of `n`. */
  ghost predicate AreKeptAt(profiles: seq<ProfileRecord>, n: nat, kept: seq<ProfileRecord>, at: seq<nat>)
    requires n <= |profiles|
  {
    && |at| == |kept| && (forall i, j :: 0 <= i < j < |at| ==> at[i] < at[j])
    && (forall i :: 0 <= i < |at| ==> at[i] < n && kept[i] == profiles[at[i]])
    && forall k :: 0 <= k < n ==> (k in at <==> IsUnambiguousAt(profiles, k))
  }

  /** Exactly the unambiguous records are kept, in their order. */
  lemma SanitizedPlaces(profiles: seq<ProfileRecord>) returns (at: seq<nat>)
    ensures AreKeptAt(profiles, |profiles|, Sanitized(profiles), at)
  {
    at := KeptPlaces(profiles, |profiles|);
    assert profiles[..|profiles|] == profiles;
  }

  lemma {:induction false} KeptPlaces(profiles: seq<ProfileRecord>, n: nat) returns (at: seq<nat>)
    requires n <= |profiles|
    ensures AreKeptAt(profiles, n, Kept(profiles, profiles[..n]), at)
  {
    hide IsUnambiguousAt, IsKept;
    if n == 0 {
      at := [];
    } else {
      at := KeptPlaces(profiles, n - 1);
      assert profiles[..n][..n - 1] == profiles[..n - 1];
      CountedOnce(profiles, n - 1);
      if IsKept(profiles, profiles[n - 1]) {
        at := at + [n - 1];
      }
    }
  }

  lemma CountedOnce(profiles: seq<ProfileRecord>, i: nat)
    requires i < |profiles|
    ensures IsKept(profiles, profiles[i]) <==> IsUnambiguousAt(profiles, i)
  {
    CountAtLeast(profiles, profiles[i].opaqueId);
    if IsUnambiguousAt(profiles, i) {
      CountAtMost(profiles, profiles[i].opaqueId, i);
    }
  }

  lemma {:induction false} CountAtMost(profiles: seq<ProfileRecord>, id: Text, i: nat)
    requires forall j :: 0 <= j < |profiles| && j != i ==> profiles[j].opaqueId != id
    ensures IdCount(profiles, id) <= if i < |profiles| then 1 else 0
  {
    if profiles != [] {
      CountAtMost(profiles[..|profiles| - 1], id, i);
    }
  }

  ghost predicate IdsAreDistinct(profiles: seq<ProfileRecord>) {
    && (forall i :: 0 <= i < |profiles| ==> profiles[i].opaqueId != [])
    && forall i, j :: 0 <= i < j < |profiles| ==> profiles[i].opaqueId != profiles[j].opaqueId
  }

  lemma {:induction false} CountOfDistinct(profiles: seq<ProfileRecord>, id: Text)
    requires IdsAreDistinct(profiles)
    ensures IdCount(profiles, id) == if exists i :: 0 <= i < |profiles| && profiles[i].opaqueId == id then 1 else 0
  {
    if profiles != [] {
      var before := profiles[..|profiles| - 1];
      CountOfDistinct(before, id);
      if exists i :: 0 <= i < |profiles| && profiles[i].opaqueId == id {
        var i :| 0 <= i < |profiles| && profiles[i].opaqueId == id;
        assert i < |before| ==> before[i].opaqueId == id;
      }
    }
  }

  lemma {:induction false} KeepsAll(all: seq<ProfileRecord>, profiles: seq<ProfileRecord>)
    requires forall i :: 0 <= i < |profiles| ==> IsKept(all, profiles[i])
    ensures Kept(all, profiles) == profiles
  {
    if profiles != [] {
      KeepsAll(all, profiles[..|profiles| - 1]);
    }
  }

  /** Nothing is dropped from records whose ids are distinct. */
  lemma DistinctSurvive(profiles: seq<ProfileRecord>)
    requires IdsAreDistinct(profiles)
    ensures Sanitized(profiles) == profiles
  {
    forall i | 0 <= i < |profiles|
      ensures IsKept(profiles, profiles[i])
    {
      CountOfDistinct(profiles, profiles[i].opaqueId);
    }
    KeepsAll(profiles, profiles);
  }

  lemma {:induction false} KeptIsKept(all: seq<ProfileRecord>, profiles: seq<ProfileRecord>)
    ensures forall record :: record in Kept(all, profiles) <==> record in profiles && IsKept(all, record)
  {
    if profiles != [] {
      KeptIsKept(all, profiles[..|profiles| - 1]);
      assert profiles == profiles[..|profiles| - 1] + [profiles[|profiles| - 1]];
    }
  }

  lemma {:induction false} CountAtLeast(profiles: seq<ProfileRecord>, id: Text)
    ensures (forall i :: 0 <= i < |profiles| && profiles[i].opaqueId == id ==> IdCount(profiles, id) >= 1)
    ensures forall i, j :: 0 <= i < j < |profiles| && profiles[i].opaqueId == profiles[j].opaqueId == id ==>
              IdCount(profiles, id) >= 2
  {
    if profiles != [] {
      CountAtLeast(profiles[..|profiles| - 1], id);
    }
  }

  /** Exactly the records with a nonempty id that occurs once are kept; so an id picks at most one record. */
  lemma SanitizedExactly(profiles: seq<ProfileRecord>, record: ProfileRecord, other: ProfileRecord)
    requires record in Sanitized(profiles)
    ensures record in profiles && record.opaqueId != []
    ensures other in profiles && other.opaqueId == record.opaqueId ==> other == record
  {
    KeptIsKept(profiles, profiles);
    CountAtLeast(profiles, record.opaqueId);
    if other in profiles && other.opaqueId == record.opaqueId {
      var i :| 0 <= i < |profiles| && profiles[i] == record;
      var j :| 0 <= j < |profiles| && profiles[j] == other;
    }
  }
}
