/**
  What a load gives, said of the file system alone: which files have a record, under which of their names,
  and in which order.  No step of a load occurs here.
 */
module ColdLoads {
  import opened Bytes
  import opened Hashing
  import opened Ordering
  import opened ProfileLoading
  import opened ProfileTypes
  import opened Wrappers

  /** The entry is named like a profile and leads to this file. */
  ghost predicate IsProfileOf(world: World, host: Text, name: Text, identity: Text) {
    && host in world.directories && name in world.directories[host].targets
    && world.directories[host].targets[name] == Some(identity) && identity in world.files
    && exists stem :: name == stem + Ascii(".remmina")
  }

  /** The least of the names under which the directory has this file as a profile. */
  ghost predicate IsFirstName(world: World, host: Text, name: Text, identity: Text) {
    && IsProfileOf(world, host, name, identity)
    && forall other :: IsProfileOf(world, host, other, identity) ==> TextLeq(name, other)
  }

  /** The least names of all files that are profiles, in order. */
  ghost predicate AreFirstNames(world: World, host: Text, names: seq<Text>) {
    && (forall i, j :: 0 <= i < j < |names| ==> TextLeq(names[i], names[j]) && names[i] != names[j])
    && forall name :: name in names <==> exists identity :: IsFirstName(world, host, name, identity)
  }

  ghost predicate IsFingerprintOf(world: World, host: Text, name: Text, file: FileFingerprint) {
    && IsProfileOf(world, host, name, file.path)
    && var signature := world.files[file.path].signature;
       && file.size == signature.size
       && file.modifiedMilliseconds == signature.modifiedSeconds * 1000 + signature.modifiedNanoseconds / 1000000
  }

  /** The record of a file that can be read and parses, under this name. */
  ghost predicate IsRecordOf(system: System, world: World, instanceId: Text, location: Location, unread: set<Text>,
                             name: Text, record: ProfileRecord)
  {
    exists identity, bytes, fields ::
      && IsProfileOf(world, location.hostPath, name, identity) && identity !in unread
      && world.files[identity].data == Content(bytes) && system.parser(bytes) == Good(fields)
      && record == ProfileRecord(OpaqueProfileId(system.sha, instanceId, identity), location.hostPath + [0x2F] + name,
                                 location.launchPath + [0x2F] + name, fields)
  }

  /** The records, in the order of their paths, are those of the least names. */
  ghost predicate AreRecords(system: System, world: World, instanceId: Text, location: Location, unread: set<Text>,
                             profiles: seq<ProfileRecord>)
  {
    && PathsRise(profiles)
    && forall record :: record in profiles <==> IsRecordOfFile(system, world, instanceId, location, unread, record)
  }

  ghost predicate PathsRise(profiles: seq<ProfileRecord>) {
    forall i, j :: 0 <= i < j < |profiles| ==>
      TextLeq(profiles[i].sourcePath, profiles[j].sourcePath) && profiles[i].sourcePath != profiles[j].sourcePath
  }

  ghost predicate IsRecordOfFile(system: System, world: World, instanceId: Text, location: Location, unread: set<Text>,
                                 record: ProfileRecord)
  {
    exists name, identity ::
      && IsFirstName(world, location.hostPath, name, identity)
      && IsRecordOf(system, world, instanceId, location, unread, name, record)
  }

  /** One fingerprint for each file that is a profile, and one record for each that can be read and parses. */
  ghost predicate IsSnapshotOf(system: System, world: World, instanceId: Text, location: Location, unread: set<Text>,
                               snapshot: ProfileSnapshot)
  {
    && location.hostPath in world.directories && snapshot.directory == location
    && snapshot.directoryFingerprint == world.directories[location.hostPath].fingerprint
    && AreRecords(system, world, instanceId, location, unread, snapshot.profiles)
    && exists names ::
         && AreFirstNames(world, location.hostPath, names) && |snapshot.fingerprint| == |names|
         && forall i :: 0 <= i < |names| ==> IsFingerprintOf(world, location.hostPath, names[i], snapshot.fingerprint[i])
  }

  /** What there is to load, but for the records of the files in `unread`. */
  ghost predicate IsWhatIsThere(system: System, world: World, instanceId: Text, unread: set<Text>, r: LoadResult) {
    match world.locate(instanceId)
    case NotFound => r == LoadFailed(NoProfileDirectory)
    case Unreadable => r == LoadFailed(UnreadableDirectory)
    case Located(location) =>
      if location.hostPath in world.directories
      then r.Loaded? && IsSnapshotOf(system, world, instanceId, location, unread, r.snapshot)
      else r == LoadFailed(UnreadableDirectory)
  }

  // ---- One file, one record ----

  /**
    Every file that is a profile, can be read and parses has exactly one record, under the least of its names,
    and every record is that of such a file.
   */
  lemma EachHasOneRecord(system: System, world: World, instanceId: Text, location: Location, unread: set<Text>,
                         snapshot: ProfileSnapshot, name: Text, identity: Text, bytes: ByteString, fields: Fields)
    requires IsSnapshotOf(system, world, instanceId, location, unread, snapshot)
    requires IsFirstName(world, location.hostPath, name, identity) && identity !in unread
    requires world.files[identity].data == Content(bytes) && system.parser(bytes) == Good(fields)
    ensures var record := ProfileRecord(OpaqueProfileId(system.sha, instanceId, identity), location.hostPath + [0x2F] + name,
                                        location.launchPath + [0x2F] + name, fields);
            && record in snapshot.profiles
            && forall other :: other in snapshot.profiles && other.sourcePath == record.sourcePath ==> other == record
  {
    hide OpaqueProfileId, TextLeq, AreFirstNames, IsFingerprintOf, IsRecordOfFile;
    var record := ProfileRecord(OpaqueProfileId(system.sha, instanceId, identity), location.hostPath + [0x2F] + name,
                                location.launchPath + [0x2F] + name, fields);
    RecordIsOf(system, world, instanceId, location, unread, name, identity, record, bytes);
    forall other | other in snapshot.profiles && other.sourcePath == record.sourcePath
      ensures other == record
    {
      OnePathOneRecord(snapshot.profiles, other, record);
    }
  }

  lemma RecordIsOf(system: System, world: World, instanceId: Text, location: Location, unread: set<Text>,
                   name: Text, identity: Text, record: ProfileRecord, bytes: ByteString)
    requires IsFirstName(world, location.hostPath, name, identity) && identity !in unread
    requires world.files[identity].data == Content(bytes) && system.parser(bytes) == Good(record.fields)
    requires record == ProfileRecord(OpaqueProfileId(system.sha, instanceId, identity), location.hostPath + [0x2F] + name,
                                     location.launchPath + [0x2F] + name, record.fields)
    ensures IsRecordOfFile(system, world, instanceId, location, unread, record)
  {
    hide OpaqueProfileId, TextLeq;
    assert IsRecordOf(system, world, instanceId, location, unread, name, record);
  }

  lemma OnePathOneRecord(profiles: seq<ProfileRecord>, a: ProfileRecord, b: ProfileRecord)
    requires PathsRise(profiles) && a in profiles && b in profiles && a.sourcePath == b.sourcePath
    ensures a == b
  {
    hide TextLeq;
    var i :| 0 <= i < |profiles| && profiles[i] == a;
    var j :| 0 <= j < |profiles| && profiles[j] == b;
  }

  lemma LeastNameIsUnique(world: World, host: Text, a: Text, b: Text, identity: Text)
    requires IsFirstName(world, host, a, identity) && IsFirstName(world, host, b, identity)
    ensures a == b
  {
    hide TextLeq, IsProfileOf;
    TextLeqIsTotalOrder();
  }

  /** The files of the world have different ids for the instance, none of which is empty. */
  ghost predicate IdsAreUnique(system: System, world: World, instanceId: Text) {
    && (forall p :: p in world.files ==> OpaqueProfileId(system.sha, instanceId, p) != [])
    && forall p, q | p in world.files && q in world.files ::
         OpaqueProfileId(system.sha, instanceId, p) == OpaqueProfileId(system.sha, instanceId, q) ==> p == q
  }

  /** With a collision-free digest they have. */
  lemma IdsDiffer(system: System, world: World, instanceId: Text)
    requires IsInjective(system.sha) && (forall x :: system.sha(x) != []) && Fits(instanceId)
    requires forall identity :: identity in world.files ==> Fits(identity)
    ensures IdsAreUnique(system, world, instanceId)
  {
    hide Fits, IsInjective, OpaqueProfileId;
    forall p
      ensures OpaqueProfileId(system.sha, instanceId, p) != []
    {
      HashIsNotEmpty(system, instanceId, p);
    }
    forall p, q | p in world.files && q in world.files &&
                  OpaqueProfileId(system.sha, instanceId, p) == OpaqueProfileId(system.sha, instanceId, q)
      ensures p == q
    {
      OpaqueIdInjective(system.sha, instanceId, p, instanceId, q);
    }
  }

  /** If files have different ids, so have the records, and none is dropped as ambiguous. */
  lemma NothingIsDropped(system: System, world: World, instanceId: Text, location: Location, snapshot: ProfileSnapshot)
    requires IsSnapshotOf(system, world, instanceId, location, {}, snapshot) && IdsAreUnique(system, world, instanceId)
    ensures Sanitized(snapshot.profiles) == snapshot.profiles
  {
    hide IsFirstName, IsRecordOf, TextLeq, Sanitized, OpaqueProfileId;
    var profiles := snapshot.profiles;
    forall i | 0 <= i < |profiles|
      ensures profiles[i].opaqueId != []
      ensures forall j :: i < j < |profiles| ==> profiles[i].opaqueId != profiles[j].opaqueId
    {
      assert profiles[i] in profiles;
      var name, identity := FileOfRecord(system, world, instanceId, location, {}, profiles[i]);
      forall j | i < j < |profiles|
        ensures profiles[i].opaqueId != profiles[j].opaqueId
      {
        assert profiles[j] in profiles;
        var other, second := FileOfRecord(system, world, instanceId, location, {}, profiles[j]);
        if profiles[i].opaqueId == profiles[j].opaqueId {
          LeastNameIsUnique(world, location.hostPath, name, other, identity);
        }
      }
    }
    DistinctSurvive(profiles);
  }

  lemma HashIsNotEmpty(system: System, instanceId: Text, identity: Text)
    requires forall x :: system.sha(x) != []
    ensures OpaqueProfileId(system.sha, instanceId, identity) != []
  {
  }

  lemma FileOfRecord(system: System, world: World, instanceId: Text, location: Location, unread: set<Text>,
                     record: ProfileRecord)
    returns (name: Text, identity: Text)
    requires IsRecordOfFile(system, world, instanceId, location, unread, record)
    ensures IsFirstName(world, location.hostPath, name, identity) && identity in world.files
    ensures record.sourcePath == location.hostPath + [0x2F] + name
    ensures record.opaqueId == OpaqueProfileId(system.sha, instanceId, identity)
  {
    hide TextLeq, OpaqueProfileId;
    name, identity :| && IsFirstName(world, location.hostPath, name, identity)
                      && IsRecordOf(system, world, instanceId, location, unread, name, record);
  }

  /** Every file that is a profile has a least name. */
  lemma {:induction false} FirstNameExists(world: World, host: Text, name: Text, identity: Text, names: set<Text>)
    returns (first: Text)
    requires IsProfileOf(world, host, name, identity)
    requires forall other :: IsProfileOf(world, host, other, identity) && !TextLeq(name, other) ==> other in names
    ensures IsFirstName(world, host, first, identity)
    decreases names
  {
    hide TextLeq, IsProfileOf;
    TextLeqIsTotalOrder();
    if other :| IsProfileOf(world, host, other, identity) && !TextLeq(name, other) {
      first := FirstNameExists(world, host, other, identity, names - {other});
    } else {
      first := name;
    }
  }

  // ---- A load gives that ----

  lemma SuffixIs(name: Text)
    ensures HasProfileSuffix(name) <==> exists stem :: name == stem + Ascii(".remmina")
  {
    if HasProfileSuffix(name) {
      assert name == name[..|name| - |SUFFIX|] + SUFFIX;
    }
    forall stem | name == stem + Ascii(".remmina")
      ensures HasProfileSuffix(name)
    {
      assert name[|name| - |SUFFIX|..] == SUFFIX;
    }
  }

  /** A candidate is what its name says. */
  lemma ListedIs(world: World, location: Location, candidate: Candidate)
    ensures IsListed(world, location, candidate) ==>
              && IsProfileOf(world, location.hostPath, candidate.entryName, candidate.identity)
              && candidate.signature == world.files[candidate.identity].signature
              && candidate.sourcePath == location.hostPath + [0x2F] + candidate.entryName
              && candidate.launchPath == location.launchPath + [0x2F] + candidate.entryName
              && IsFingerprintOf(world, location.hostPath, candidate.entryName, candidate.fingerprint)
              && candidate.fingerprint.path == candidate.identity
  {
    SuffixIs(candidate.entryName);
  }

  lemma ProfilesAreListed(world: World, location: Location, name: Text, identity: Text) returns (candidate: Candidate)
    requires IsProfileOf(world, location.hostPath, name, identity)
    ensures IsListed(world, location, candidate) && candidate.entryName == name && candidate.identity == identity
  {
    SuffixIs(name);
    candidate := CandidateFrom(location, name, identity, world.files[identity].signature);
  }

  predicate IsFirst(candidates: seq<Candidate>, k: nat)
    requires k < |candidates|
  {
    forall j :: 0 <= j < k ==> candidates[j].identity != candidates[k].identity
  }

  lemma FirstInFront(candidates: seq<Candidate>, n: nat, k: nat)
    requires k < n <= |candidates|
    ensures IsFirst(candidates[..n], k) <==> IsFirst(candidates, k)
  {
    var before := candidates[..n];
    assert forall j :: 0 <= j <= k ==> before[j] == candidates[j];
  }

  /** The candidates that the deduplication keeps: each is the first of its file, and the order is kept. */
  ghost predicate AreFirstAt(candidates: seq<Candidate>, kept: seq<Candidate>, at: seq<nat>) {
    && |at| == |kept| && (forall i, j :: 0 <= i < j < |at| ==> at[i] < at[j])
    && (forall i :: 0 <= i < |at| ==> at[i] < |candidates| && kept[i] == candidates[at[i]])
    && forall k :: 0 <= k < |candidates| ==> (k in at <==> IsFirst(candidates, k))
  }

  lemma {:induction false} FirstOfEachExactly(candidates: seq<Candidate>) returns (at: seq<nat>)
    ensures AreFirstAt(candidates, FirstOfEach(candidates), at)
  {
    hide AreFirstAt;
    if candidates == [] {
      at := [];
      NoneIsFirst();
    } else {
      var n := |candidates| - 1;
      at := FirstOfEachExactly(candidates[..n]);
      OneMoreCandidate(candidates, FirstOfEach(candidates[..n]), at);
      if candidates[n].identity !in Identities(FirstOfEach(candidates[..n])) {
        at := at + [n];
      }
    }
  }

  lemma NoneIsFirst()
    ensures AreFirstAt([], [], [])
  {
  }

  lemma OneMoreCandidate(candidates: seq<Candidate>, kept: seq<Candidate>, at: seq<nat>)
    requires candidates != [] && AreFirstAt(candidates[..|candidates| - 1], kept, at)
    ensures var n := |candidates| - 1;
            if candidates[n].identity in Identities(kept) then AreFirstAt(candidates, kept, at)
            else AreFirstAt(candidates, kept + [candidates[n]], at + [n])
  {
    hide AreFirstAt, Identities;
    var n := |candidates| - 1;
    FirstsCover(candidates[..n], kept, at, candidates[n].identity);
    if candidates[n].identity in Identities(kept) {
      NoNewFile(candidates, kept, at);
    } else {
      NewFile(candidates, kept, at);
    }
  }

  lemma NoNewFile(candidates: seq<Candidate>, kept: seq<Candidate>, at: seq<nat>)
    requires candidates != [] && AreFirstAt(candidates[..|candidates| - 1], kept, at)
    requires var n := |candidates| - 1; exists j :: 0 <= j < n && candidates[..n][j].identity == candidates[n].identity
    ensures AreFirstAt(candidates, kept, at)
  {
    var n := |candidates| - 1;
    var before := candidates[..n];
    var j :| 0 <= j < n && before[j].identity == candidates[n].identity;
    assert candidates[j].identity == candidates[n].identity && n !in at && !IsFirst(candidates, n);
    hide IsFirst;
    forall k | 0 <= k < |candidates|
      ensures k in at <==> IsFirst(candidates, k)
    {
      if k < n {
        FirstInFront(candidates, n, k);
      }
    }
  }

  lemma NewFile(candidates: seq<Candidate>, kept: seq<Candidate>, at: seq<nat>)
    requires candidates != [] && AreFirstAt(candidates[..|candidates| - 1], kept, at)
    requires var n := |candidates| - 1; forall j :: 0 <= j < n ==> candidates[..n][j].identity != candidates[n].identity
    ensures AreFirstAt(candidates, kept + [candidates[|candidates| - 1]], at + [|candidates| - 1])
  {
    var n := |candidates| - 1;
    var before := candidates[..n];
    assert IsFirst(candidates, n);
    hide IsFirst;
    assert forall k :: k in at + [n] <==> k in at || k == n;
    forall k | 0 <= k < |candidates|
      ensures k in at + [n] <==> IsFirst(candidates, k)
    {
      if k < n {
        FirstInFront(candidates, n, k);
      }
    }
  }

  /** Of each file some candidate is kept. */
  lemma FirstsCover(candidates: seq<Candidate>, kept: seq<Candidate>, at: seq<nat>, identity: Text)
    requires AreFirstAt(candidates, kept, at)
    ensures identity in Identities(kept) <==> exists j :: 0 <= j < |candidates| && candidates[j].identity == identity
  {
    if j :| 0 <= j < |candidates| && candidates[j].identity == identity {
      var k := Least(candidates, identity, j);
      assert k in at;
      var i :| 0 <= i < |at| && at[i] == k;
      assert Identities(kept)[i] == identity;
    }
    if identity in Identities(kept) {
      var i :| 0 <= i < |kept| && Identities(kept)[i] == identity;
      assert candidates[at[i]].identity == identity;
    }
  }

  lemma {:induction false} Least(candidates: seq<Candidate>, identity: Text, j: nat) returns (k: nat)
    requires j < |candidates| && candidates[j].identity == identity
    ensures k <= j && candidates[k].identity == identity && forall m :: 0 <= m < k ==> candidates[m].identity != identity
  {
    if m :| 0 <= m < j && candidates[m].identity == identity {
      k := Least(candidates, identity, m);
    } else {
      k := j;
    }
  }

  function NamesOf(candidates: seq<Candidate>): (names: seq<Text>)
    ensures |names| == |candidates| && forall i :: 0 <= i < |names| ==> names[i] == candidates[i].entryName
  {
    seq(|candidates|, i requires 0 <= i < |candidates| => candidates[i].entryName)
  }

  lemma KeptAreFirstNames(world: World, location: Location, all: seq<Candidate>, kept: seq<Candidate>, at: seq<nat>)
    requires IsEnumeration(world, location, all) && AreFirstAt(all, kept, at)
    ensures AreFirstNames(world, location.hostPath, NamesOf(kept))
  {
    hide IsFirstName, IsListed;
    var names := NamesOf(kept);
    forall i, j | 0 <= i < j < |names|
      ensures TextLeq(names[i], names[j]) && names[i] != names[j]
    {
      NamedApart(world, location, all, at[i], at[j]);
    }
    forall name
      ensures name in names <==> exists identity :: IsFirstName(world, location.hostPath, name, identity)
    {
      if name in names {
        var i :| 0 <= i < |names| && names[i] == name;
        assert at[i] in at;
        FirstIsFirstName(world, location, all, at[i]);
      }
      if identity :| IsFirstName(world, location.hostPath, name, identity) {
        var k := FirstNameIsFirst(world, location, all, name, identity);
        assert k in at;
        var i :| 0 <= i < |at| && at[i] == k;
        assert names[i] == name;
      }
    }
  }

  lemma NamedApart(world: World, location: Location, all: seq<Candidate>, i: nat, j: nat)
    requires IsEnumeration(world, location, all) && i < j < |all|
    ensures TextLeq(all[i].entryName, all[j].entryName) && all[i].entryName != all[j].entryName
  {
    hide IsSorted;
    assert CandidateLeq(all[i], all[j]) by { InOrder(all, i, j); }
    assert all[i] in all && all[j] in all && all[i] != all[j];
    assert IsListed(world, location, all[i]) && IsListed(world, location, all[j]);
  }

  lemma InOrder(all: seq<Candidate>, i: nat, j: nat)
    requires IsSorted(all, CandidateLeq) && i < j < |all|
    ensures CandidateLeq(all[i], all[j])
  {
  }

  /** The first candidate of a file has its least name. */
  lemma FirstIsFirstName(world: World, location: Location, all: seq<Candidate>, k: nat)
    requires IsEnumeration(world, location, all) && k < |all|
    requires forall j :: 0 <= j < k ==> all[j].identity != all[k].identity
    ensures IsFirstName(world, location.hostPath, all[k].entryName, all[k].identity)
  {
    hide IsSorted, IsProfileOf, IsListed, TextLeq;
    var c := all[k];
    assert c in all && IsListed(world, location, c);
    ListedIs(world, location, c);
    forall other | IsProfileOf(world, location.hostPath, other, c.identity)
      ensures TextLeq(c.entryName, other)
    {
      var d := ProfilesAreListed(world, location, other, c.identity);
      assert d in all;
      var j :| 0 <= j < |all| && all[j] == d;
      if j > k {
        InOrder(all, k, j);
      }
      TextLeqIsTotalOrder();
    }
  }

  lemma FirstNameIsFirst(world: World, location: Location, all: seq<Candidate>, name: Text, identity: Text)
    returns (k: nat)
    requires IsEnumeration(world, location, all) && IsFirstName(world, location.hostPath, name, identity)
    ensures k < |all| && all[k].entryName == name && forall j :: 0 <= j < k ==> all[j].identity != all[k].identity
  {
    hide IsSorted, IsProfileOf, IsListed, TextLeq;
    var d := ProfilesAreListed(world, location, name, identity);
    assert d in all;
    k :| 0 <= k < |all| && all[k] == d;
    forall j | 0 <= j < k
      ensures all[j].identity != all[k].identity
    {
      assert all[j] in all && IsListed(world, location, all[j]);
      ListedIs(world, location, all[j]);
      NamedApart(world, location, all, j, k);
      TextLeqIsTotalOrder();
    }
  }

  // ---- The cold result is what is there ----

  ghost predicate HasFaithfulFiles(system: System, world: World) {
    forall identity :: identity in world.files ==>
      world.files[identity].data == system.dataOf(identity, world.files[identity].signature)
  }

  /** What a candidate contributes is the record of its name. */
  lemma CandidateContributes(system: System, world: World, instanceId: Text, location: Location, unread: set<Text>,
                             candidate: Candidate)
    requires HasFaithfulFiles(system, world) && IsListed(world, location, candidate)
    ensures var result := SettledParse(system, instanceId, candidate, candidate.identity !in unread);
            forall record :: IsRecordOf(system, world, instanceId, location, unread, candidate.entryName, record) <==>
              result == Parsed(record)
    ensures var result := SettledParse(system, instanceId, candidate, candidate.identity !in unread);
            result.Parsed? ==> result.record.sourcePath == location.hostPath + [0x2F] + candidate.entryName
  {
    hide OpaqueProfileId;
    ListedIs(world, location, candidate);
  }

  lemma {:induction false} BehindPrefix(prefix: Text, a: Text, b: Text)
    ensures TextLeq(prefix + a, prefix + b) == TextLeq(a, b) && (prefix + a == prefix + b <==> a == b)
  {
    if prefix == [] {
      assert prefix + a == a && prefix + b == b;
    } else {
      assert (prefix + a)[1..] == prefix[1..] + a && (prefix + b)[1..] == prefix[1..] + b;
      assert (prefix + a)[0] == (prefix + b)[0] == prefix[0];
      BehindPrefix(prefix[1..], a, b);
      assert prefix + a == [prefix[0]] + (prefix[1..] + a) && prefix + b == [prefix[0]] + (prefix[1..] + b);
    }
  }

  predicate IsPathOf(location: Location, candidate: Candidate, path: Text) {
    path == location.hostPath + [0x2F] + candidate.entryName
  }

  /** The paths of records that come from candidates in the order of their names. */
  lemma {:induction false} RecordsAreSorted(system: System, world: World, instanceId: Text, location: Location,
                                            unread: set<Text>, kept: seq<Candidate>)
    requires HasFaithfulFiles(system, world) && forall c :: c in kept ==> IsListed(world, location, c)
    requires forall i, j :: 0 <= i < j < |kept| ==>
               TextLeq(kept[i].entryName, kept[j].entryName) && kept[i].entryName != kept[j].entryName
    ensures var profiles := Records(system, instanceId, kept, unread);
            PathsRise(profiles) && forall i :: 0 <= i < |profiles| ==>
              exists k :: 0 <= k < |kept| && IsPathOf(location, kept[k], profiles[i].sourcePath)
  {
    hide SettledParse, IsListed, IsRecordOf, HasFaithfulFiles, TextLeq;
    if kept != [] {
      var n := |kept| - 1;
      var before, last := kept[..n], kept[n];
      assert forall k :: 0 <= k < n ==> before[k] == kept[k];
      RecordsAreSorted(system, world, instanceId, location, unread, before);
      assert last in kept;
      CandidateContributes(system, world, instanceId, location, unread, last);
      var earlier := Records(system, instanceId, before, unread);
      forall i | 0 <= i < |earlier|
        ensures TextLeq(earlier[i].sourcePath, location.hostPath + [0x2F] + last.entryName)
        ensures earlier[i].sourcePath != location.hostPath + [0x2F] + last.entryName
        ensures exists k :: 0 <= k < |kept| && IsPathOf(location, kept[k], earlier[i].sourcePath)
      {
        var k :| 0 <= k < n && IsPathOf(location, before[k], earlier[i].sourcePath);
        BehindPrefix(location.hostPath + [0x2F], kept[k].entryName, last.entryName);
      }
      assert IsPathOf(location, kept[n], location.hostPath + [0x2F] + last.entryName);
    }
  }

  lemma {:induction false} RecordsAreThose(system: System, instanceId: Text, unread: set<Text>, kept: seq<Candidate>,
                                           record: ProfileRecord)
    ensures record in Records(system, instanceId, kept, unread) <==>
              exists c :: c in kept && SettledParse(system, instanceId, c, c.identity !in unread) == Parsed(record)
  {
    hide SettledParse;
    if kept != [] {
      var n := |kept| - 1;
      RecordsAreThose(system, instanceId, unread, kept[..n], record);
      assert kept == kept[..n] + [kept[n]];
    }
  }

  lemma KeptGiveRecords(system: System, world: World, instanceId: Text, location: Location, unread: set<Text>,
                        kept: seq<Candidate>)
    requires HasFaithfulFiles(system, world) && (forall c :: c in kept ==> IsListed(world, location, c))
    requires AreFirstNames(world, location.hostPath, NamesOf(kept))
    ensures AreRecords(system, world, instanceId, location, unread, Records(system, instanceId, kept, unread))
  {
    hide SettledParse, IsListed, IsRecordOf, HasFaithfulFiles, TextLeq, Records, IsFirstName;
    assert forall i, j :: 0 <= i < j < |kept| ==>
        TextLeq(NamesOf(kept)[i], NamesOf(kept)[j]) && NamesOf(kept)[i] != NamesOf(kept)[j];
    RecordsAreSorted(system, world, instanceId, location, unread, kept);
    forall record
      ensures record in Records(system, instanceId, kept, unread) <==>
                IsRecordOfFile(system, world, instanceId, location, unread, record)
    {
      RecordsAreThose(system, instanceId, unread, kept, record);
      RecordIsOfFile(system, world, instanceId, location, unread, kept, record);
    }
  }

  lemma RecordIsOfFile(system: System, world: World, instanceId: Text, location: Location, unread: set<Text>,
                       kept: seq<Candidate>, record: ProfileRecord)
    requires HasFaithfulFiles(system, world) && (forall c :: c in kept ==> IsListed(world, location, c))
    requires AreFirstNames(world, location.hostPath, NamesOf(kept))
    ensures IsRecordOfFile(system, world, instanceId, location, unread, record) <==>
              exists c :: c in kept && SettledParse(system, instanceId, c, c.identity !in unread) == Parsed(record)
  {
    hide SettledParse, IsListed, IsRecordOf, HasFaithfulFiles, TextLeq, IsFirstName;
    if c :| c in kept && SettledParse(system, instanceId, c, c.identity !in unread) == Parsed(record) {
      CandidateContributes(system, world, instanceId, location, unread, c);
      var k :| 0 <= k < |kept| && kept[k] == c;
      assert NamesOf(kept)[k] == c.entryName && c.entryName in NamesOf(kept);
    }
    if name, identity :| IsFirstName(world, location.hostPath, name, identity) &&
                         IsRecordOf(system, world, instanceId, location, unread, name, record) {
      assert name in NamesOf(kept);
      var k :| 0 <= k < |kept| && NamesOf(kept)[k] == name;
      assert kept[k] in kept;
      CandidateContributes(system, world, instanceId, location, unread, kept[k]);
    }
  }

  lemma ColdIsWhatIsThere(system: System, world: World, instanceId: Text, unread: set<Text>, r: LoadResult)
    requires HasFaithfulFiles(system, world) && IsColdResult(system, world, instanceId, unread, r)
    ensures IsWhatIsThere(system, world, instanceId, unread, r)
  {
    hide IsEnumeration, AreFirstNames, AreRecords, Records, FirstOfEach, IsFingerprintOf, HasFaithfulFiles, IsListed;
    if r.Loaded? {
      var location := world.locate(instanceId).location;
      var all :| && IsEnumeration(world, location, all)
                 && r == Loaded(ProfileSnapshot(Records(system, instanceId, FirstOfEach(all), unread),
                                                Fingerprints(FirstOfEach(all)), location,
                                                world.directories[location.hostPath].fingerprint));
      var kept := FirstOfEach(all);
      var places := FirstOfEachExactly(all);
      KeptAreFirstNames(world, location, all, kept, places);
      KeptAreListed(world, location, all, kept);
      KeptGiveRecords(system, world, instanceId, location, unread, kept);
      forall i | 0 <= i < |kept|
        ensures IsFingerprintOf(world, location.hostPath, NamesOf(kept)[i], Fingerprints(kept)[i])
      {
        assert kept[i] in kept;
        ListedIs(world, location, kept[i]);
      }
    }
  }

  lemma KeptAreListed(world: World, location: Location, all: seq<Candidate>, kept: seq<Candidate>)
    requires IsEnumeration(world, location, all) && kept == FirstOfEach(all)
    ensures forall c :: c in kept ==> IsListed(world, location, c)
  {
    FirstOfEachIsDistinct(all);
  }

  /** A load whose questions are all answered at one moment gives what is there, but for what it was told it cannot read. */
  lemma FreshIsWhatIsThere(system: System, instanceId: Text, answers: seq<Finding>, now: nat, r: LoadResult)
    requires SignaturesAreFaithful(system) && AreAnswers(system, instanceId, answers, AllAt(answers, now))
    requires Through(system, instanceId, answers) == Done(r)
    ensures IsWhatIsThere(system, system.world(now), instanceId, Unread(system, instanceId, answers, now), r)
    ensures !system.readsMayFail ==> Unread(system, instanceId, answers, now) == {}
  {
    hide AreAnswers, Through, Unread, IsColdResult;
    FreshIsCold(system, instanceId, answers, now, r);
    ColdIsWhatIsThere(system, system.world(now), instanceId, Unread(system, instanceId, answers, now), r);
  }

  /** If reads do not fail, it gives all that is there. */
  lemma ReliableIsWhatIsThere(system: System, instanceId: Text, now: nat, r: LoadResult)
    requires SignaturesAreFaithful(system) && IsFresh(system, instanceId, now, r) && !system.readsMayFail
    ensures IsWhatIsThere(system, system.world(now), instanceId, {}, r)
  {
    hide IsAt, IsColdResult;
    ReliableIsCold(system, instanceId, now, r);
    ColdIsWhatIsThere(system, system.world(now), instanceId, {}, r);
  }
}
