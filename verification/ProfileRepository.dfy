/**
  The profile repository: loads that reuse parses of earlier ones, while the file system changes.  Time
  passes at every system call; a load with a cache gives what a load without one may give.
 */
module ProfileRepository {
  import opened Bytes
  import opened ColdLoads
  import opened Hashing
  import opened Ordering
  import opened ParseWindows
  import opened ProfileLoading
  import opened ProfileTypes
  import opened Wrappers

  /** `normalizeRecord`. */
  function Normalized(result: ParseResult, candidate: Candidate, opaqueId: Text): ParseResult {
    if result.Failed? then result
    else Parsed(result.record.(opaqueId := opaqueId, sourcePath := candidate.sourcePath, launchPath := candidate.launchPath))
  }

  datatype CacheEntry =
    CacheEntry(instanceId: Text, directory: Text, identity: Text, signature: Signature, result: ParseResult)

  predicate IsEntryFor(entry: CacheEntry, instanceId: Text, host: Text, identity: Text, signature: Signature) {
    entry.instanceId == instanceId && entry.directory == host && entry.identity == identity && entry.signature == signature
  }

  predicate IsFingerprintFor(file: FileFingerprint, identity: Text, signature: Signature) {
    && file.path == identity && file.size == signature.size
    && file.modifiedMilliseconds == signature.modifiedSeconds * 1000 + signature.modifiedNanoseconds / 1000000
  }

  /** The entry is one of a file of the snapshot, as it was fingerprinted. */
  ghost predicate IsEntryOf(entry: CacheEntry, instanceId: Text, host: Text, fingerprint: seq<FileFingerprint>) {
    && entry.instanceId == instanceId && entry.directory == host
    && exists i :: 0 <= i < |fingerprint| && IsFingerprintFor(fingerprint[i], entry.identity, entry.signature)
  }

  /** All entries are of files of the snapshot. */
  ghost predicate OnlyOf(cache: map<Text, CacheEntry>, instanceId: Text, snapshot: ProfileSnapshot) {
    forall key :: key in cache ==> IsEntryOf(cache[key], instanceId, snapshot.directory.hostPath, snapshot.fingerprint)
  }

  /** The files of the world have different cache keys. */
  ghost predicate KeysAreDistinct(system: System, world: World, instanceId: Text, host: Text) {
    forall p, q | p in world.files && q in world.files ::
      CacheKey(system.sha, instanceId, host, p) == CacheKey(system.sha, instanceId, host, q) ==> p == q
  }

  /** The cache has an entry for the file as the candidate shows it. */
  ghost predicate Remembers(system: System, cache: map<Text, CacheEntry>, instanceId: Text, host: Text,
                            candidate: Candidate) {
    var key := CacheKey(system.sha, instanceId, host, candidate.identity);
    key in cache && IsEntryFor(cache[key], instanceId, host, candidate.identity, candidate.signature)
  }

  /** Every profile of the directory that can be opened is remembered. */
  ghost predicate IsWarm(system: System, world: World, cache: map<Text, CacheEntry>, instanceId: Text,
                         location: Location) {
    forall c :: IsListed(world, location, c) && CanBeOpened(world, location.hostPath, c.entryName) ==>
      Remembers(system, cache, instanceId, location.hostPath, c)
  }

  /** With a collision-free digest all files have different cache keys. */
  lemma KeysDiffer(system: System, world: World, instanceId: Text, host: Text)
    requires IsInjective(system.sha) && Fits(instanceId) && Fits(host)
    requires forall identity :: identity in world.files ==> Fits(identity)
    ensures KeysAreDistinct(system, world, instanceId, host)
  {
    hide Fits;
    forall p, q | p in world.files && q in world.files &&
                  CacheKey(system.sha, instanceId, host, p) == CacheKey(system.sha, instanceId, host, q)
      ensures p == q
    {
      CacheKeyInjective(system.sha, instanceId, host, p, instanceId, host, q);
    }
  }

  /** What `load` makes of one enumerated candidate. */
  datatype Outcome =
    | Recorded(candidate: Candidate, result: ParseResult)    // a fingerprint and, if it parsed, a record
    | FingerprintOnly(candidate: Candidate)                  // still changing: a fingerprint to notice it by
    | Skipped
    | Lost

  datatype StableParse =
    | Stable(candidate: Candidate, result: ParseResult)
    | Unsettled(candidate: Candidate)       // the candidate as last seen, still changing
    | Ineligible
    | DirectoryLost

  // ---- What snapshots promise ----

  ghost predicate HasPath(fingerprint: seq<FileFingerprint>, path: Text) {
    exists k :: 0 <= k < |fingerprint| && fingerprint[k].path == path
  }

  /** `identities` are the files of the records: distinct, fingerprinted, and behind the opaque ids. */
  ghost predicate AreIdentified(system: System, instanceId: Text, profiles: seq<ProfileRecord>,
                                fingerprint: seq<FileFingerprint>, identities: seq<Text>) {
    && |identities| == |profiles| && AllDistinct(identities)
    && (forall i :: 0 <= i < |identities| ==> HasPath(fingerprint, identities[i]))
    && forall i :: 0 <= i < |identities| ==> profiles[i].opaqueId == OpaqueProfileId(system.sha, instanceId, identities[i])
  }

  /** What every snapshot has: distinct fingerprint paths, and records that belong to distinct ones of them. */
  ghost predicate IsUnambiguous(system: System, instanceId: Text, snapshot: ProfileSnapshot) {
    && (forall i, j :: 0 <= i < j < |snapshot.fingerprint| ==> snapshot.fingerprint[i].path != snapshot.fingerprint[j].path)
    && exists identities :: AreIdentified(system, instanceId, snapshot.profiles, snapshot.fingerprint, identities)
  }

  /** The record is the right parse of a candidate that was shown at some moment between two. */
  ghost predicate IsRightRecord(system: System, instanceId: Text, location: Location, record: ProfileRecord, from: nat,
                                upto: nat) {
    exists c :: WasSeen(system, location, c, from, upto) && RightParse(system, instanceId, c) == Parsed(record)
  }

  ghost predicate AreRightRecords(system: System, instanceId: Text, location: Location, profiles: seq<ProfileRecord>,
                                  from: nat, upto: nat) {
    forall record :: record in profiles ==> IsRightRecord(system, instanceId, location, record, from, upto)
  }

  /** The fingerprint is that of a candidate that was shown at some moment between two. */
  ghost predicate IsSeenFingerprint(system: System, location: Location, file: FileFingerprint, from: nat, upto: nat) {
    exists c :: WasSeen(system, location, c, from, upto) && c.fingerprint == file
  }

  ghost predicate AreSeenFingerprints(system: System, location: Location, fingerprint: seq<FileFingerprint>, from: nat,
                                      upto: nat) {
    forall file :: file in fingerprint ==> IsSeenFingerprint(system, location, file, from, upto)
  }

  /** With a collision-free digest, sanitizing drops nothing of what the repository loads. */
  lemma NothingToSanitize(system: System, instanceId: Text, snapshot: ProfileSnapshot)
    requires IsUnambiguous(system, instanceId, snapshot)
    requires IsInjective(system.sha) && (forall x :: system.sha(x) != []) && Fits(instanceId)
    requires forall k :: 0 <= k < |snapshot.fingerprint| ==> Fits(snapshot.fingerprint[k].path)
    ensures Sanitized(snapshot.profiles) == snapshot.profiles
  {
    hide Framed, Fits;
    var identities :| AreIdentified(system, instanceId, snapshot.profiles, snapshot.fingerprint, identities);
    forall i, j | 0 <= i < j < |snapshot.profiles|
      ensures snapshot.profiles[i].opaqueId != snapshot.profiles[j].opaqueId
    {
      assert HasPath(snapshot.fingerprint, identities[i]) && HasPath(snapshot.fingerprint, identities[j]);
      if snapshot.profiles[i].opaqueId == snapshot.profiles[j].opaqueId {
        OpaqueIdInjective(system.sha, instanceId, identities[i], instanceId, identities[j]);
      }
    }
    DistinctSurvive(snapshot.profiles);
  }

  lemma WasSeenWidens(system: System, location: Location, from: nat, upto: nat, later: nat)
    requires upto <= later
    ensures forall c :: WasSeen(system, location, c, from, upto) ==> WasSeen(system, location, c, from, later)
  {
  }

  // ---- Single parses ----

  /** An entry holds, up to the paths of the alias it was parsed under, the parse of the data its signature names. */
  ghost predicate IsParseOf(system: System, result: ParseResult, identity: Text, signature: Signature) {
    forall candidate: Candidate, id: Text ::
      Normalized(result, candidate, id) ==
      ParseData(system.parser, system.dataOf(identity, signature), candidate.sourcePath, candidate.launchPath, id)
  }

  /** Normalizing a parse for another alias gives the parse under that alias. */
  lemma ParseCanBeShared(system: System, instanceId: Text, candidate: Candidate, result: ParseResult)
    requires result == RightParse(system, instanceId, candidate)
    ensures IsParseOf(system, result, candidate.identity, candidate.signature)
  {
  }

  /** What a cache entry gives an alias of its file is right, and could be opened when the alias was seen. */
  lemma SharedParse(system: System, instanceId: Text, location: Location, candidate: Candidate, result: ParseResult,
                    seen: nat)
    requires SignaturesAreFaithful(system) && Shows(system.world(seen), location, candidate)
    requires result != Failed(UnreadableFile) && IsParseOf(system, result, candidate.identity, candidate.signature)
    ensures Normalized(result, candidate, OpaqueProfileId(system.sha, instanceId, candidate.identity)) ==
            RightParse(system, instanceId, candidate)
    ensures CanBeOpened(system.world(seen), location.hostPath, candidate.entryName)
  {
    hide OpaqueProfileId;
  }

  /** The result carries the paths and the id of the candidate. */
  predicate IsParsedUnder(system: System, instanceId: Text, candidate: Candidate, result: ParseResult) {
    result.Parsed? ==>
      && result.record.opaqueId == OpaqueProfileId(system.sha, instanceId, candidate.identity)
      && result.record.sourcePath == candidate.sourcePath && result.record.launchPath == candidate.launchPath
  }

  /** Every candidate of the directory has one of the same file among these, which are all listed. */
  ghost predicate CoverAll(world: World, location: Location, candidates: seq<Candidate>) {
    && (forall c :: c in candidates ==> IsListed(world, location, c))
    && forall c :: IsListed(world, location, c) ==> IsCovered(candidates, c)
  }

  /** What is listed under these names was discovered, and nothing else. */
  ghost predicate HasDiscovered(world: World, location: Location, names: seq<Text>, discovered: seq<Candidate>) {
    forall c: Candidate :: c in discovered <==> IsListed(world, location, c) && c.entryName in names
  }

  ghost predicate IsCovered(candidates: seq<Candidate>, c: Candidate) {
    exists k :: 0 <= k < |candidates| && candidates[k].identity == c.identity
  }

  // ---- The repository ----

  class Repository {
    const system: System
    var now: nat

    var cache: map<Text, CacheEntry>
    var activeInstanceId: Text
    var activeDirectory: Text
    var hasActiveScope: bool

    ghost var openings: seq<(Text, Text)>     // the entries opened so far, by directory and name

    constructor (system: System)
      requires SignaturesAreFaithful(system)
      ensures Valid() && this.system == system && cache == map[] && CacheIsSound() && !hasActiveScope && openings == []
    {
      this.system := system;
      now, cache, activeInstanceId, activeDirectory, hasActiveScope, openings := 0, map[], [], [], false, [];
    }

    ghost predicate CacheIsSound()
      reads this`cache
    {
      forall key :: key in cache ==>
        && cache[key].result != Failed(UnreadableFile)
        && IsParseOf(system, cache[key].result, cache[key].identity, cache[key].signature)
    }

    /** The cache holds nothing wrong that a load for this instance may use: what it holds of another is dropped. */
    ghost predicate IsSoundFor(instanceId: Text)
      reads this`cache, this`activeInstanceId, this`hasActiveScope
    {
      CacheIsSound() || !hasActiveScope || activeInstanceId != instanceId
    }

    ghost predicate Valid() {
      SignaturesAreFaithful(system)
    }

    /** Time passes. */
    method Tick()
      modifies this`now
      ensures now >= old(now)
    {
      var passed: int := *;
      now := now + if passed > 0 then passed else 0;
    }

    /** `inspectCandidate`: what the entry shows at one moment. */
    method Inspect(location: Location, name: Text) returns (r: Inspection)
      modifies this`now
      ensures now >= old(now) && r == Inspected(system.world(now), location, name)
    {
      Tick();
      r := Inspected(system.world(now), location, name);
    }

    /**
      Opening an entry and reading the file takes time, in which the file may be rewritten.  The entry is
      opened or not, which may fail for a passing reason.
     */
    method Read(host: Text, name: Text) returns (data: FileData, ghost openedAt: nat, ghost couldOpen: bool)
      modifies this`now, this`openings
      ensures openings == old(openings) + [(host, name)]
      ensures old(now) <= openedAt <= now && IsAnswered(system, openedAt, CanOpen(host, name), Opens(couldOpen))
      ensures IsHeard(host, name, openedAt, now, data, couldOpen)
    {
      openings := openings + [(host, name)];
      Tick();
      var begun := now;
      openedAt := begun;
      var file := FileAt(system.world(begun), host, name);
      Tick();
      var fails: bool := *;
      if file == None || file.value.data == NoAccess || (fails && system.readsMayFail) {
        return NoAccess, openedAt, false;
      }
      couldOpen := true;
      var identity, signature := file.value.identity, file.value.signature;
      var isRewritten := exists t: nat | begun <= t <= now ::
        !(identity in system.world(t).files && system.world(t).files[identity].signature == signature);
      var mixed: FileData := *;
      data := if isRewritten then mixed else file.value.data;
    }

    /** What reading gives: what can be read, if the entry could be opened as the file system has it. */
    ghost predicate IsHeard(host: Text, name: Text, openedAt: nat, upto: nat, data: FileData, couldOpen: bool) {
      if couldOpen == CanBeOpened(system.world(openedAt), host, name) then IsReadAt(system, host, name, openedAt, upto, data)
      else data == NoAccess && !couldOpen && system.readsMayFail
    }

    /** One attempt: parse, and inspect again. */
    method ParseOnce(location: Location, instanceId: Text, candidate: Candidate, ghost from: nat, ghost seen: nat)
      returns (parsed: ParseResult, postParse: Inspection, ghost openedAt: nat, ghost couldOpen: bool)
      requires from <= seen <= now && IsListed(system.world(seen), location, candidate)
      modifies this`now, this`openings
      ensures openings == old(openings) + [(location.hostPath, candidate.entryName)]
      ensures old(now) <= openedAt <= now && IsParsedUnder(system, instanceId, candidate, parsed)
      ensures IsAnswered(system, openedAt, CanOpen(location.hostPath, candidate.entryName), Opens(couldOpen))
      ensures postParse == Inspected(system.world(now), location, candidate.entryName)
      ensures postParse.Found? && IsSameFile(postParse.candidate, candidate) ==>
                || MayParse(system, instanceId, location, candidate, seen, now, parsed)
                || (system.readsMayFail && !couldOpen && parsed == Failed(UnreadableFile))
      ensures (postParse.Found? && IsSameFile(postParse.candidate, candidate) &&
               NoEntryDeceives(system, location.hostPath, from, now)) ==>
                parsed == SettledParse(system, instanceId, candidate, couldOpen)
    {
      hide OpaqueProfileId, IsHeard, IsAnswered, SettledParse, NoEntryDeceives;
      var opaqueId := OpaqueProfileId(system.sha, instanceId, candidate.identity);
      var data;
      data, openedAt, couldOpen := Read(location.hostPath, candidate.entryName);
      ghost var done := now;
      parsed := Normalized(ParseData(system.parser, data, candidate.sourcePath, candidate.launchPath, opaqueId), candidate, opaqueId);
      assert parsed == ParseUnder(system, instanceId, candidate, data);
      postParse := Inspect(location, candidate.entryName);
      if postParse.Found? && IsSameFile(postParse.candidate, candidate) {
        AgreeingParse(location, instanceId, candidate, from, seen, openedAt, done, now, data, couldOpen);
      }
    }

    lemma ShownLeads(location: Location, candidate: Candidate, t: nat)
      requires Shows(system.world(t), location, candidate)
      ensures Leads(FileAt(system.world(t), location.hostPath, candidate.entryName), candidate.identity, candidate.signature)
    {
    }

    lemma SameFileIsShown(location: Location, candidate: Candidate, seen: nat, inspected: nat)
      requires Shows(system.world(seen), location, candidate)
      requires var again := Inspected(system.world(inspected), location, candidate.entryName);
               again.Found? && IsSameFile(again.candidate, candidate)
      ensures Shows(system.world(inspected), location, candidate)
    {
    }

    lemma NoAccessFails(instanceId: Text, candidate: Candidate)
      ensures ParseUnder(system, instanceId, candidate, NoAccess) == Failed(UnreadableFile)
    {
    }

    lemma AgreeingParse(location: Location, instanceId: Text, candidate: Candidate, from: nat, seen: nat, openedAt: nat,
                        done: nat, inspected: nat, data: FileData, couldOpen: bool)
      requires from <= seen <= openedAt <= done <= inspected && IsListed(system.world(seen), location, candidate)
      requires var again := Inspected(system.world(inspected), location, candidate.entryName);
               again.Found? && IsSameFile(again.candidate, candidate)
      requires IsHeard(location.hostPath, candidate.entryName, openedAt, done, data, couldOpen)
      ensures var parsed := ParseUnder(system, instanceId, candidate, data);
              && (|| MayParse(system, instanceId, location, candidate, seen, inspected, parsed)
                  || (system.readsMayFail && !couldOpen && parsed == Failed(UnreadableFile)))
              && (NoEntryDeceives(system, location.hostPath, from, inspected) ==>
                    parsed == SettledParse(system, instanceId, candidate, couldOpen))
    {
      hide OpaqueProfileId, IsReadAt, IsSafeWindow, Shows, Inspected, ParseData, FileAt;
      var host, name := location.hostPath, candidate.entryName;
      ShownLeads(location, candidate, seen);
      SameFileIsShown(location, candidate, seen, inspected);
      ShownLeads(location, candidate, inspected);
      NoAccessFails(instanceId, candidate);
      if IsReadAt(system, host, name, openedAt, done, data) {
        ReadLasts(system, host, name, openedAt, done, inspected, data);
        assert MayRead(system, host, name, seen, inspected, data);
        if NoEntryDeceives(system, host, from, inspected) && couldOpen == CanBeOpened(system.world(openedAt), host, name) {
          SafeOpenIsRight(system, host, name, system.dataOf(candidate.identity, candidate.signature), seen, inspected,
                          openedAt, done, data);
        }
      }
    }

    /** On a quiet file system the candidate is still what it was. */
    lemma QuietlySeen(location: Location, candidate: Candidate, from: nat, seen: nat, openedAt: nat, couldOpen: bool,
                      inspected: nat)
      requires IsAnswered(system, openedAt, CanOpen(location.hostPath, candidate.entryName), Opens(couldOpen))
      requires IsQuiet(system, from) && from <= seen && from <= openedAt && from <= inspected
      requires IsListed(system.world(seen), location, candidate)
      ensures Inspected(system.world(inspected), location, candidate.entryName) == Found(candidate)
      ensures !system.readsMayFail ==> couldOpen == CanBeOpened(system.world(from), location.hostPath, candidate.entryName)
    {
      assert system.world(seen) == system.world(from) == system.world(inspected) == system.world(openedAt);
    }

    /** One attempt as a part of a load. */
    method AttemptParse(location: Location, instanceId: Text, candidate: Candidate, attempt: nat, ghost from: nat,
                        ghost fingerprint: DirectoryFingerprint, ghost gathered: Gathered, ghost rest: seq<Candidate>)
      returns (r: StableParse, ghost couldOpen: bool)
      requires from <= now && WasSeen(system, location, candidate, from, now)
      requires IsAt(system, instanceId, Parsing(location, fingerprint, gathered, candidate, rest, attempt, None), from, now)
      modifies this`now, this`openings
      ensures now >= old(now)
      ensures openings == old(openings) + [(location.hostPath, candidate.entryName)]
      ensures IsQuiet(system, from) ==>
                r.Stable? && (!system.readsMayFail ==>
                                couldOpen == CanBeOpened(system.world(from), location.hostPath, candidate.entryName))
      ensures r.Unsettled? ==> WasSeen(system, location, r.candidate, from, now)
      ensures r.Stable? ==> r.candidate == candidate && IsParsedUnder(system, instanceId, candidate, r.result)
      ensures r.Stable? && NoEntryDeceives(system, location.hostPath, from, now) ==>
                r.result == SettledParse(system, instanceId, candidate, couldOpen)
      ensures IsAt(system, instanceId,
                   if r.Unsettled? && attempt == 0 then Parsing(location, fingerprint, gathered, r.candidate, rest, 1, None)
                   else AfterParse(instanceId, location, fingerprint, gathered, rest, r, couldOpen), from, now)
    {
      hide OpaqueProfileId, NoEntryDeceives, IsAt, Shows, SettledParse, MayParse, Continue, Settled, Noted, IsAnswered;
      ghost var seen: nat :| from <= seen <= now && IsListed(system.world(seen), location, candidate);
      ghost var asked := now;
      var parsed, postParse;
      ghost var openedAt;
      parsed, postParse, openedAt, couldOpen := ParseOnce(location, instanceId, candidate, from, seen);
      ParseAdvances(instanceId, location, fingerprint, gathered, candidate, rest, attempt, from, asked, openedAt, couldOpen, now);
      SeenNow(location, candidate.entryName, from, now);
      if IsQuiet(system, from) {
        QuietlySeen(location, candidate, from, seen, openedAt, couldOpen, now);
      }
      match postParse
      case DirectoryUnreadable => r := DirectoryLost;
      case NoCandidate => r := Ineligible;
      case Found(again) => r := if IsSameFile(again, candidate) then Stable(candidate, parsed) else Unsettled(again);
    }

    /** The two attempts of `load` to parse a candidate between two inspections that agree. */
    method ParseStably(location: Location, instanceId: Text, enumerated: Candidate, ghost from: nat,
                       ghost fingerprint: DirectoryFingerprint, ghost gathered: Gathered, ghost rest: seq<Candidate>)
      returns (r: StableParse, ghost couldOpen: bool)
      requires from <= now && WasSeen(system, location, enumerated, from, now)
      requires IsAt(system, instanceId, Parsing(location, fingerprint, gathered, enumerated, rest, 0, None), from, now)
      modifies this`now, this`cache, this`openings
      ensures now >= old(now) && (old(CacheIsSound()) ==> CacheIsSound())
      ensures forall key :: key in cache ==> key in old(cache) && cache[key] == old(cache)[key]
      ensures |old(openings)| < |openings| <= |old(openings)| + 2 && (r.Unsettled? ==> |openings| == |old(openings)| + 2)
      ensures r.Stable? || r.Unsettled? ==> CacheKey(system.sha, instanceId, location.hostPath, r.candidate.identity) !in cache
      ensures IsQuiet(system, from) ==>
                && r.Stable? && r.candidate == enumerated && openings == old(openings) + [(location.hostPath, enumerated.entryName)]
                && cache == old(cache) - {CacheKey(system.sha, instanceId, location.hostPath, enumerated.identity)}
                && (!system.readsMayFail ==>
                      couldOpen == CanBeOpened(system.world(from), location.hostPath, enumerated.entryName))
      ensures r.Stable? || r.Unsettled? ==> WasSeen(system, location, r.candidate, from, now)
      ensures r.Stable? ==> IsParsedUnder(system, instanceId, r.candidate, r.result)
      ensures r.Stable? && NoEntryDeceives(system, location.hostPath, from, now) ==>
                r.result == SettledParse(system, instanceId, r.candidate, couldOpen)
      ensures IsAt(system, instanceId, AfterParse(instanceId, location, fingerprint, gathered, rest, r, couldOpen), from, now)
    {
      hide IsQuiet, CanBeOpened, CacheKey, NoEntryDeceives, IsAt, SettledParse, IsParseOf, IsParsedUnder;
      hide Continue, Settled, Noted, WasSeen;
      var candidate := enumerated;
      var key := CacheKey(system.sha, instanceId, location.hostPath, candidate.identity);
      cache := cache - {key};
      for attempt := 0 to 2
        invariant now >= old(now) && (old(CacheIsSound()) ==> CacheIsSound())
        invariant forall key :: key in cache ==> key in old(cache) && cache[key] == old(cache)[key]
        invariant key == CacheKey(system.sha, instanceId, location.hostPath, candidate.identity) && key !in cache
        invariant IsQuiet(system, from) ==> attempt == 0 && candidate == enumerated && openings == old(openings)
                                            && cache == old(cache) - {key}
        invariant WasSeen(system, location, candidate, from, now) && |openings| == |old(openings)| + attempt
        invariant IsAt(system, instanceId,
                       if attempt < 2 then Parsing(location, fingerprint, gathered, candidate, rest, attempt, None)
                       else Continue(location, fingerprint, Noted(gathered, candidate), rest), from, now)
      {
        ghost var before := now;
        r, couldOpen := AttemptParse(location, instanceId, candidate, attempt, from, fingerprint, gathered, rest);
        WasSeenWidens(system, location, from, before, now);
        if !r.Unsettled? {
          return;
        }
        cache := cache - {key};
        candidate := r.candidate;
        key := CacheKey(system.sha, instanceId, location.hostPath, candidate.identity);
        cache := cache - {key};
      }
      return Unsettled(candidate), false;
    }

    /** How far a load has got when a candidate was parsed. */
    ghost function AfterParse(instanceId: Text, location: Location, fingerprint: DirectoryFingerprint,
                              gathered: Gathered,
                              rest: seq<Candidate>, r: StableParse, couldOpen: bool): Progress {
      match r
      case Stable(candidate, _) =>
        Continue(location, fingerprint, Settled(system, instanceId, gathered, candidate, couldOpen), rest)
      case Unsettled(candidate) => Continue(location, fingerprint, Noted(gathered, candidate), rest)
      case Ineligible => Continue(location, fingerprint, gathered, rest)
      case DirectoryLost => GIVEN_UP
    }

    lemma SeenNow(location: Location, name: Text, from: nat, upto: nat)
      requires from <= upto && HasProfileSuffix(name)
      ensures var inspection := Inspected(system.world(upto), location, name);
              inspection.Found? ==> inspection.candidate.entryName == name && WasSeen(system, location, inspection.candidate, from, upto)
    {
      var inspection := Inspected(system.world(upto), location, name);
      assert inspection.Found? ==> IsListed(system.world(upto), location, inspection.candidate);
    }

    /** A parse is two steps of a load: opening the entry, and looking at it again. */
    lemma ParseAdvances(instanceId: Text, location: Location, fingerprint: DirectoryFingerprint, gathered: Gathered,
                        candidate: Candidate, rest: seq<Candidate>, attempt: nat, from: nat, asked: nat, openedAt: nat,
                        couldOpen: bool, inspected: nat)
      requires IsAt(system, instanceId, Parsing(location, fingerprint, gathered, candidate, rest, attempt, None), from, asked)
      requires from <= asked <= openedAt <= inspected
      requires IsAnswered(system, openedAt, CanOpen(location.hostPath, candidate.entryName), Opens(couldOpen))
      ensures var p := Parsing(location, fingerprint, gathered, candidate, rest, attempt, Some(couldOpen));
              var look := Seen(Inspected(system.world(inspected), location, candidate.entryName));
              IsAt(system, instanceId, Advance(system, instanceId, p, look), from, inspected)
    {
      hide IsAt, Continue, Settled, Noted;
      var p := Parsing(location, fingerprint, gathered, candidate, rest, attempt, None);
      LoadAdvances(system, instanceId, p, from, asked, openedAt, Opens(couldOpen));
      var look := Seen(Inspected(system.world(inspected), location, candidate.entryName));
      LoadAdvances(system, instanceId, p.(couldOpen := Some(couldOpen)), from, openedAt, inspected, look);
    }

    /** How far a load has got when a candidate was dealt with. */
    ghost function AfterCandidate(instanceId: Text, location: Location, fingerprint: DirectoryFingerprint,
                                  gathered: Gathered,
                                  rest: seq<Candidate>, r: Outcome, couldOpen: bool): Progress {
      match r
      case Recorded(candidate, _) =>
        Continue(location, fingerprint, Settled(system, instanceId, gathered, candidate, couldOpen), rest)
      case FingerprintOnly(candidate) => Continue(location, fingerprint, Noted(gathered, candidate), rest)
      case Skipped => Continue(location, fingerprint, gathered, rest)
      case Lost => GIVEN_UP
    }

    /** Nothing comes into the cache but an entry of what was recorded, and no other entry stays under its key. */
    ghost predicate CacheFollows(instanceId: Text, host: Text, before: map<Text, CacheEntry>, cache: map<Text,
                                 CacheEntry>,
                                 r: Outcome)
    {
      && (forall key :: key in cache ==>
            || (key in before && cache[key] == before[key])
            || (r.Recorded? && key == CacheKey(system.sha, instanceId, host, r.candidate.identity)))
      && (r.Recorded? ==>
            var key := CacheKey(system.sha, instanceId, host, r.candidate.identity);
            key in cache ==> Remembers(system, cache, instanceId, host, r.candidate))
    }

    /** On a quiet file system, what is parsed of a file that can be opened is no failure to read it. */
    lemma ReadableIsRemembered(instanceId: Text, location: Location, candidate: Candidate, from: nat, upto: nat)
      requires SignaturesAreFaithful(system) && IsQuiet(system, from) && from <= upto
      requires WasSeen(system, location, candidate, from, upto)
      requires CanBeOpened(system.world(from), location.hostPath, candidate.entryName)
      ensures SettledParse(system, instanceId, candidate, true) != Failed(UnreadableFile)
      ensures NoEntryDeceives(system, location.hostPath, from, upto)
    {
      hide OpaqueProfileId;
      var seen: nat :| from <= seen <= upto && IsListed(system.world(seen), location, candidate);
      assert system.world(seen) == system.world(from);
      QuietDeceivesNobody(system, location.hostPath, from, upto);
    }

    /** One turn of the loop in `load`. */
    method LoadCandidate(location: Location, instanceId: Text, enumerated: Candidate, processedIdentities: set<Text>,
                         ghost from: nat, ghost fingerprint: DirectoryFingerprint, ghost gathered: Gathered,
                         ghost rest: seq<Candidate>)
      returns (r: Outcome, ghost couldOpen: bool)
      requires SignaturesAreFaithful(system) && gathered.processed == processedIdentities
      requires from <= now && WasSeen(system, location, enumerated, from, now)
      requires IsAt(system, instanceId, Continue(location, fingerprint, gathered, [enumerated] + rest), from, now)
      modifies this`now, this`cache, this`openings
      ensures now >= old(now) && (old(CacheIsSound()) && NoEntryDeceives(system, location.hostPath, from, now) ==> CacheIsSound())
      ensures CacheFollows(instanceId, location.hostPath, old(cache), cache, r)
      ensures IsQuiet(system, from) && enumerated.identity !in processedIdentities ==>
                && r.Recorded? && r.candidate == enumerated
                && IsQuietTurn(instanceId, location.hostPath, enumerated, from, old(cache), cache, old(openings), openings)
      ensures r.Recorded? || r.FingerprintOnly? ==>
                r.candidate.identity !in processedIdentities && WasSeen(system, location, r.candidate, from, now)
      ensures r.Recorded? ==> IsParsedUnder(system, instanceId, r.candidate, r.result)
      ensures r.Recorded? && old(CacheIsSound()) && NoEntryDeceives(system, location.hostPath, from, now) ==>
                r.result == SettledParse(system, instanceId, r.candidate, couldOpen)
      ensures IsAt(system, instanceId, AfterCandidate(instanceId, location, fingerprint, gathered, rest, r, couldOpen), from, now)
    {
      hide CacheKey, NoEntryDeceives, IsParseOf, Shows, OpaqueProfileId, IsAt, SettledParse, RightParse, Settled, Noted;
      hide SignaturesAreFaithful;
      couldOpen := true;
      ContinueOne(location, fingerprint, gathered, enumerated, rest);
      if enumerated.identity in processedIdentities {
        return Skipped, couldOpen;
      }
      var key := CacheKey(system.sha, instanceId, location.hostPath, enumerated.identity);
      if key in cache && cache[key].instanceId == instanceId && cache[key].directory == location.hostPath &&
         cache[key].identity == enumerated.identity && cache[key].signature == enumerated.signature {
        var opaqueId := OpaqueProfileId(system.sha, instanceId, enumerated.identity);
        var parsed := Normalized(cache[key].result, enumerated, opaqueId);
        couldOpen := CacheHitAdvances(instanceId, location, fingerprint, gathered, enumerated, rest, from, cache[key].result);
        return Recorded(enumerated, parsed), couldOpen;
      }
      r, couldOpen := ParseAndRemember(location, instanceId, enumerated, processedIdentities, from, fingerprint, gathered, rest);
    }

    /** What a turn does to the cache when nothing changes: an entry is used, or the file is opened and remembered. */
    ghost predicate IsQuietTurn(instanceId: Text, host: Text, candidate: Candidate, from: nat, before: map<Text,
                                CacheEntry>,
                                cache: map<Text, CacheEntry>, earlier: seq<(Text, Text)>, openings: seq<(Text, Text)>)
    {
      var key := CacheKey(system.sha, instanceId, host, candidate.identity);
      && (if key in before && IsEntryFor(before[key], instanceId, host, candidate.identity, candidate.signature)
          then cache == before && openings == earlier
          else openings == earlier + [(host, candidate.entryName)])
      && (!system.readsMayFail && CanBeOpened(system.world(from), host, candidate.entryName) ==> Remembers(system, cache, instanceId, host, candidate))
      && forall other :: other in before && other != key ==> other in cache && cache[other] == before[other]
    }

    /** The turn for a candidate that the cache does not know as it is. */
    method ParseAndRemember(location: Location, instanceId: Text, enumerated: Candidate, processedIdentities: set<Text>,
                            ghost from: nat, ghost fingerprint: DirectoryFingerprint, ghost gathered: Gathered,
                            ghost rest: seq<Candidate>)
      returns (r: Outcome, ghost couldOpen: bool)
      requires SignaturesAreFaithful(system) && gathered.processed == processedIdentities
      requires from <= now && WasSeen(system, location, enumerated, from, now)
      requires IsAt(system, instanceId, Parsing(location, fingerprint, gathered, enumerated, rest, 0, None), from, now)
      requires !Remembers(system, cache, instanceId, location.hostPath, enumerated)
      modifies this`now, this`cache, this`openings
      ensures now >= old(now) && (old(CacheIsSound()) && NoEntryDeceives(system, location.hostPath, from, now) ==> CacheIsSound())
      ensures CacheFollows(instanceId, location.hostPath, old(cache), cache, r)
      ensures IsQuiet(system, from) && enumerated.identity !in processedIdentities ==>
                && r.Recorded? && r.candidate == enumerated
                && IsQuietTurn(instanceId, location.hostPath, enumerated, from, old(cache), cache, old(openings), openings)
      ensures r.Recorded? || r.FingerprintOnly? ==>
                r.candidate.identity !in processedIdentities && WasSeen(system, location, r.candidate, from, now)
      ensures r.Recorded? ==> IsParsedUnder(system, instanceId, r.candidate, r.result)
      ensures r.Recorded? && NoEntryDeceives(system, location.hostPath, from, now) ==>
                r.result == SettledParse(system, instanceId, r.candidate, couldOpen)
      ensures IsAt(system, instanceId, AfterCandidate(instanceId, location, fingerprint, gathered, rest, r, couldOpen), from, now)
    {
      hide CacheKey, NoEntryDeceives, IsParseOf, Shows, OpaqueProfileId, IsAt, SettledParse, RightParse, Settled, Noted;
      hide SignaturesAreFaithful, IsQuiet, CanBeOpened, WasSeen, CacheFollows, IsQuietTurn, OutcomeOf;
      ghost var held, earlier := cache, openings;
      var key := CacheKey(system.sha, instanceId, location.hostPath, enumerated.identity);
      cache := cache - {key};
      var stable;
      stable, couldOpen := ParseStably(location, instanceId, enumerated, from, fingerprint, gathered, rest);
      if IsQuiet(system, from) && CanBeOpened(system.world(from), location.hostPath, enumerated.entryName) {
        ReadableIsRemembered(instanceId, location, enumerated, from, now);
      }
      OutcomesAgree(instanceId, location, fingerprint, gathered, rest, stable, couldOpen);
      r := OutcomeOf(processedIdentities, stable);
      ghost var parsed := cache;
      if stable.Stable? {
        Remember(location, instanceId, processedIdentities, stable.candidate, stable.result, from, couldOpen);
      }
      OutcomeIs(processedIdentities, stable);
      RememberingFollows(instanceId, location.hostPath, held, parsed, cache, processedIdentities, stable);
      if IsQuiet(system, from) && enumerated.identity !in processedIdentities {
        RememberingIsQuietTurn(instanceId, location.hostPath, enumerated, from, held, parsed, cache, earlier, openings, stable.result);
      }
    }

    lemma OutcomeIs(processedIdentities: set<Text>, stable: StableParse)
      ensures var r := OutcomeOf(processedIdentities, stable);
              && (r.Recorded? <==> stable.Stable? && stable.candidate.identity !in processedIdentities)
              && (r.Recorded? ==> r.candidate == stable.candidate && r.result == stable.result)
              && (r.FingerprintOnly? ==> stable.Unsettled? && r.candidate == stable.candidate && r.candidate.identity !in processedIdentities)
    {
    }

    /** What `Remember` leaves, of a cache without an entry under the key. */
    ghost predicate IsLeft(instanceId: Text, host: Text, parsed: map<Text, CacheEntry>, cache: map<Text, CacheEntry>,
                           processedIdentities: set<Text>, candidate: Candidate, result: ParseResult)
    {
      var key := CacheKey(system.sha, instanceId, host, candidate.identity);
      if candidate.identity in processedIdentities then cache == parsed - {key}
      else if result == Failed(UnreadableFile) then cache == parsed
      else cache == parsed[key := CacheEntry(instanceId, host, candidate.identity, candidate.signature, result)]
    }

    lemma RememberingFollows(instanceId: Text, host: Text, before: map<Text, CacheEntry>, parsed: map<Text, CacheEntry>,
                             cache: map<Text, CacheEntry>, processedIdentities: set<Text>, stable: StableParse)
      requires forall key :: key in parsed ==> key in before && parsed[key] == before[key]
      requires stable.Stable? || stable.Unsettled? ==> CacheKey(system.sha, instanceId, host, stable.candidate.identity) !in parsed
      requires if stable.Stable? then IsLeft(instanceId, host, parsed, cache, processedIdentities, stable.candidate, stable.result)
               else cache == parsed
      ensures CacheFollows(instanceId, host, before, cache, OutcomeOf(processedIdentities, stable))
    {
      hide CacheKey;
    }

    lemma RememberingIsQuietTurn(instanceId: Text, host: Text, candidate: Candidate, from: nat, before: map<Text, CacheEntry>,
                                 parsed: map<Text, CacheEntry>, cache: map<Text, CacheEntry>, earlier: seq<(Text, Text)>,
                                 openings: seq<(Text, Text)>, result: ParseResult)
      requires !Remembers(system, before, instanceId, host, candidate)
      requires parsed == before - {CacheKey(system.sha, instanceId, host, candidate.identity)}
      requires openings == earlier + [(host, candidate.entryName)]
      requires IsLeft(instanceId, host, parsed, cache, {}, candidate, result)
      requires !system.readsMayFail && CanBeOpened(system.world(from), host, candidate.entryName) ==> result != Failed(UnreadableFile)
      ensures IsQuietTurn(instanceId, host, candidate, from, before, cache, earlier, openings)
    {
      hide CacheKey, CanBeOpened;
    }

    /** What a stable parse leaves in the cache. */
    method Remember(location: Location, instanceId: Text, processedIdentities: set<Text>, candidate: Candidate,
                    result: ParseResult, ghost from: nat, ghost couldOpen: bool)
      requires NoEntryDeceives(system, location.hostPath, from, now) ==>
                 result == SettledParse(system, instanceId, candidate, couldOpen)
      modifies this`cache
      ensures old(CacheIsSound()) && NoEntryDeceives(system, location.hostPath, from, now) ==> CacheIsSound()
      ensures IsLeft(instanceId, location.hostPath, old(cache), cache, processedIdentities, candidate, result)
    {
      hide CacheKey, NoEntryDeceives, IsParseOf, SettledParse, RightParse;
      var key := CacheKey(system.sha, instanceId, location.hostPath, candidate.identity);
      if candidate.identity in processedIdentities {
        cache := cache - {key};
      } else if result != Failed(UnreadableFile) {
        SettledIsRight(instanceId, candidate, couldOpen);
        if result == RightParse(system, instanceId, candidate) {
          ParseCanBeShared(system, instanceId, candidate, result);
        }
        cache := cache[key := CacheEntry(instanceId, location.hostPath, candidate.identity, candidate.signature, result)];
      }
    }

    lemma ContinueOne(location: Location, fingerprint: DirectoryFingerprint, gathered: Gathered, candidate: Candidate,
                      rest: seq<Candidate>)
      ensures Continue(location, fingerprint, gathered, [candidate] + rest) ==
              if candidate.identity in gathered.processed then Continue(location, fingerprint, gathered, rest)
              else Parsing(location, fingerprint, gathered, candidate, rest, 0, None)
    {
      assert ([candidate] + rest)[1..] == rest;
    }

    lemma SettledIsRight(instanceId: Text, candidate: Candidate, couldOpen: bool)
      ensures var result := SettledParse(system, instanceId, candidate, couldOpen);
              result == RightParse(system, instanceId, candidate) || result == Failed(UnreadableFile)
    {
    }

    /** What a stable parse, or a failure to get one, comes to. */
    function OutcomeOf(processedIdentities: set<Text>, stable: StableParse): Outcome {
      match stable
      case DirectoryLost => Lost
      case Ineligible => Skipped
      case Unsettled(candidate) => if candidate.identity in processedIdentities then Skipped else FingerprintOnly(candidate)
      case Stable(candidate, result) =>
        if candidate.identity in processedIdentities then Skipped else Recorded(candidate, result)
    }

    lemma OutcomesAgree(instanceId: Text, location: Location, fingerprint: DirectoryFingerprint, gathered: Gathered,
                        rest: seq<Candidate>, stable: StableParse, couldOpen: bool)
      ensures AfterCandidate(instanceId, location, fingerprint, gathered, rest, OutcomeOf(gathered.processed, stable), couldOpen) ==
              AfterParse(instanceId, location, fingerprint, gathered, rest, stable, couldOpen)
    {
      hide Continue, SettledParse;
    }

    /**
      A cache hit stands for the two steps of a parse: the candidate could be opened, and was the same, when
      it was seen.
     */
    ghost method CacheHitAdvances(instanceId: Text, location: Location, fingerprint: DirectoryFingerprint,
                                  gathered: Gathered,
                                  candidate: Candidate, rest: seq<Candidate>, from: nat, result: ParseResult)
      returns (couldOpen: bool)
      requires SignaturesAreFaithful(system)
      requires IsAt(system, instanceId, Parsing(location, fingerprint, gathered, candidate, rest, 0, None), from, now)
      ensures IsAt(system, instanceId,
                   Continue(location, fingerprint, Settled(system, instanceId, gathered, candidate, couldOpen), rest), from, now)
      ensures var parsed := Normalized(result, candidate, OpaqueProfileId(system.sha, instanceId, candidate.identity));
              && IsParsedUnder(system, instanceId, candidate, parsed)
              && (result != Failed(UnreadableFile) && IsParseOf(system, result, candidate.identity, candidate.signature) ==>
                    && parsed == RightParse(system, instanceId, candidate)
                    && parsed == SettledParse(system, instanceId, candidate, couldOpen))
    {
      hide IsAt, Settled, Continue, OpaqueProfileId, SignaturesAreFaithful, IsParseOf, RightParse, CanBeOpened, Shows;
      var p := Parsing(location, fingerprint, gathered, candidate, rest, 0, None);
      var seen := HitAdvances(system, instanceId, p, from, now);
      couldOpen := CanBeOpened(system.world(seen), location.hostPath, candidate.entryName);
      if result != Failed(UnreadableFile) && IsParseOf(system, result, candidate.identity, candidate.signature) {
        SharedParse(system, instanceId, location, candidate, result, seen);
      }
    }

    /** One look of the enumeration. */
    lemma LookAdvances(location: Location, instanceId: Text, fingerprint: DirectoryFingerprint, names: seq<Text>,
                       k: nat,
                       discovered: seq<Candidate>, inspection: Inspection, from: nat, asked: nat, t: nat)
      requires from <= asked <= t && k < |names| && HasProfileSuffix(names[k])
      requires inspection == Inspected(system.world(t), location, names[k])
      requires IsAt(system, instanceId, Enumerate(location, fingerprint, names[k..], discovered), from, asked)
      ensures IsAt(system, instanceId,
                   match inspection
                   case DirectoryUnreadable => GIVEN_UP
                   case NoCandidate => Enumerate(location, fingerprint, names[k + 1..], discovered)
                   case Found(candidate) => Enumerate(location, fingerprint, names[k + 1..], discovered + [candidate]), from, t)
    {
      hide IsAt, Inspected, Continue;
      assert names[k..][0] == names[k] && names[k..][1..] == names[k + 1..];
      var p := Enumerating(location, fingerprint, names[k], names[k + 1..], discovered);
      LoadAdvances(system, instanceId, p, from, asked, t, Seen(inspection));
    }

    /** The directory as one enumeration finds it, if it can be read throughout. */
    method EnumerateCandidates(location: Location, instanceId: Text, ghost from: nat)
      returns (r: Option<(seq<Candidate>, DirectoryFingerprint)>)
      requires from <= now && IsAt(system, instanceId, Reading(location), from, now)
      modifies this`now
      ensures now >= old(now)
      ensures r.Some? ==>
                && AllDistinct(Identities(r.value.0))
                && (forall c :: c in r.value.0 ==> WasSeen(system, location, c, from, now))
                && IsAt(system, instanceId, Continue(location, r.value.1, NOTHING, r.value.0), from, now)
      ensures r == None ==> IsAt(system, instanceId, GIVEN_UP, from, now)
      ensures IsQuiet(system, from) ==>
                && (r.Some? <==> location.hostPath in system.world(from).directories)
                && (r.Some? ==> CoverAll(system.world(from), location, r.value.0))
    {
      hide IsAt, Shows, WasSeen, Sort, FirstOfEach, Inspected, HasProfileSuffix, IsQuiet, IsListed, CoverAll, HasDiscovered;
      ghost var begun := now;
      Tick();
      ghost var listed := now;
      QuietlySame(from, now);
      var listing := Answered(system.world(now), Names(location.hostPath));
      LoadAdvances(system, instanceId, Reading(location), from, begun, now, listing);
      if location.hostPath !in system.world(now).directories {
        return None;
      }
      var fingerprint := system.world(now).directories[location.hostPath].fingerprint;
      var names := system.world(now).directories[location.hostPath].names;
      var discovered: seq<Candidate> := [];
      assert names[0..] == names && names[..0] == [];
      NoneDiscovered(location, from);
      for k := 0 to |names|
        invariant now >= old(now)
        invariant forall c :: c in discovered ==> WasSeen(system, location, c, from, now)
        invariant IsQuiet(system, from) ==> HasDiscovered(system.world(from), location, names[..k], discovered)
        invariant IsAt(system, instanceId, Enumerate(location, fingerprint, names[k..], discovered), from, now)
      {
        var name := names[k];
        if IsQuiet(system, from) {
          QuietLookDiscovers(location, names, k, discovered, from, now);
        }
        if !HasProfileSuffix(name) {
          assert names[k..][0] == name && names[k..][1..] == names[k + 1..];
          continue;
        }
        ghost var asked := now;
        var inspection := Inspect(location, name);
        LookAdvances(location, instanceId, fingerprint, names, k, discovered, inspection, from, asked, now);
        WasSeenWidens(system, location, from, asked, now);
        SeenNow(location, name, from, now);
        if IsQuiet(system, from) {
          QuietLookDiscovers(location, names, k, discovered, from, now);
        }
        if inspection == DirectoryUnreadable {
          return None;
        }
        if inspection.Found? {
          discovered := discovered + [inspection.candidate];
        }
      }
      assert names[|names|..] == [] && names[..|names|] == names;
      var sorted := Sort(discovered, CandidateLeq);
      SortKeeps(discovered);
      var candidates;
      ghost var at;
      candidates, at := Deduplicate(sorted);
      FirstOfEachIsDistinct(sorted);
      if IsQuiet(system, from) {
        NamesAreAll(location, names, discovered, from, listed);
        AllAreCovered(location, sorted, candidates, at, from);
      }
      return Some((candidates, fingerprint));
    }

    lemma AllAreCovered(location: Location, discovered: seq<Candidate>, candidates: seq<Candidate>,
                        at: seq<nat>, from: nat)
      requires AreFirstAt(discovered, candidates, at)
      requires forall c :: c in discovered <==> IsListed(system.world(from), location, c)
      ensures CoverAll(system.world(from), location, candidates)
    {
      hide IsListed;
      forall c | c in candidates
        ensures IsListed(system.world(from), location, c)
      {
        var i :| 0 <= i < |candidates| && candidates[i] == c;
        assert discovered[at[i]] in discovered;
      }
      forall c | IsListed(system.world(from), location, c)
        ensures IsCovered(candidates, c)
      {
        var j :| 0 <= j < |discovered| && discovered[j] == c;
        FirstsCover(discovered, candidates, at, c.identity);
        assert c.identity in Identities(candidates);
        var k :| 0 <= k < |candidates| && Identities(candidates)[k] == c.identity;
        assert candidates[k].identity == c.identity;
      }
    }

    /** On a quiet file system one look discovers what is listed under the name. */
    lemma QuietLookDiscovers(location: Location, names: seq<Text>, k: nat, discovered: seq<Candidate>, from: nat,
                             t: nat)
      requires from <= t && IsQuiet(system, from) && k < |names|
      requires HasDiscovered(system.world(from), location, names[..k], discovered)
      ensures !HasProfileSuffix(names[k]) ==> HasDiscovered(system.world(from), location, names[..k + 1], discovered)
      ensures Inspected(system.world(t), location, names[k]) == DirectoryUnreadable <==>
                location.hostPath !in system.world(from).directories
      ensures var inspection := Inspected(system.world(t), location, names[k]);
              HasProfileSuffix(names[k]) && inspection != DirectoryUnreadable ==>
                HasDiscovered(system.world(from), location, names[..k + 1],
                              if inspection.Found? then discovered + [inspection.candidate] else discovered)
    {
      hide HasProfileSuffix, FileAt;
      assert names[..k + 1] == names[..k] + [names[k]];
      assert system.world(t) == system.world(from);
    }

    lemma NoneDiscovered(location: Location, from: nat)
      ensures HasDiscovered(system.world(from), location, [], [])
    {
    }

    lemma NamesAreAll(location: Location, names: seq<Text>, discovered: seq<Candidate>, from: nat, t: nat)
      requires from <= t && IsQuiet(system, from) && HasDiscovered(system.world(from), location, names, discovered)
      requires location.hostPath in system.world(t).directories && names == system.world(t).directories[location.hostPath].names
      ensures forall c :: c in discovered <==> IsListed(system.world(from), location, c)
    {
      hide HasProfileSuffix;
      assert system.world(t) == system.world(from);
      forall c | IsListed(system.world(from), location, c)
        ensures c.entryName in names
      {
        ListedIsNamed(system.world(from), location, c);
      }
    }

    /** The deduplication loop of the enumeration: of each file the first candidate is kept, and the order. */
    method Deduplicate(discovered: seq<Candidate>) returns (candidates: seq<Candidate>, ghost at: seq<nat>)
      ensures candidates == FirstOfEach(discovered) && AreFirstAt(discovered, candidates, at)
    {
      candidates := [];
      var seenIdentities: set<Text> := {};
      for k := 0 to |discovered|
        invariant candidates == FirstOfEach(discovered[..k])
        invariant forall identity :: identity in seenIdentities <==> identity in Identities(candidates)
      {
        assert discovered[..k + 1][..k] == discovered[..k];
        var candidate := discovered[k];
        if candidate.identity in seenIdentities {
          continue;
        }
        seenIdentities := seenIdentities + {candidate.identity};
        candidates := candidates + [candidate];
        assert Identities(candidates) == Identities(candidates[..|candidates| - 1]) + [candidate.identity];
        assert candidates[..|candidates| - 1] == FirstOfEach(discovered[..k]);
      }
      assert discovered[..|discovered|] == discovered;
      at := FirstOfEachExactly(discovered);
    }

    /** Cache entries that no candidate used are dropped. */
    method Prune(activeCacheKeys: set<Text>)
      modifies this`cache
      ensures old(CacheIsSound()) ==> CacheIsSound()
      ensures forall key :: key in cache <==> key in old(cache) && key in activeCacheKeys
      ensures forall key :: key in cache ==> cache[key] == old(cache)[key]
    {
      cache := map key | key in cache && key in activeCacheKeys :: cache[key];
    }

    method ForgetCache()
      modifies this`cache
      ensures cache == map[] && CacheIsSound()
    {
      cache := map[];
    }

    /** What the loop of `load` has gathered up to now, beside what a load without a cache would have. */
    ghost predicate HasGathered(instanceId: Text, location: Location, profiles: seq<ProfileRecord>,
                                fingerprint: seq<FileFingerprint>, identities: seq<Text>, gathered: Gathered, from: nat,
                                upto: nat, wasSound: bool) {
      && (forall i, j :: 0 <= i < j < |fingerprint| ==> fingerprint[i].path != fingerprint[j].path)
      && (forall path :: path in gathered.processed <==> HasPath(fingerprint, path))
      && AreIdentified(system, instanceId, profiles, fingerprint, identities)
      && AreSeenFingerprints(system, location, fingerprint, from, upto)
      && gathered.fingerprint == fingerprint
      && (wasSound && NoEntryDeceives(system, location.hostPath, from, upto) ==>
            AreRightRecords(system, instanceId, location, profiles, from, upto) && gathered.profiles == profiles)
    }

    lemma NothingGathered(instanceId: Text, location: Location, from: nat, upto: nat, wasSound: bool)
      ensures HasGathered(instanceId, location, [], [], [], NOTHING, from, upto, wasSound)
    {
    }

    lemma FingerprintsGrow(fingerprint: seq<FileFingerprint>, file: FileFingerprint)
      ensures forall path :: HasPath(fingerprint + [file], path) <==> HasPath(fingerprint, path) || path == file.path
    {
      var more := fingerprint + [file];
      forall path
        ensures HasPath(more, path) <==> HasPath(fingerprint, path) || path == file.path
      {
        if HasPath(fingerprint, path) {
          var k :| 0 <= k < |fingerprint| && fingerprint[k].path == path;
          assert more[k].path == path;
        }
        if path == file.path {
          assert more[|fingerprint|].path == path;
        }
      }
    }

    lemma SeenFingerprintsGrow(location: Location, fingerprint: seq<FileFingerprint>, candidate: Candidate,
                               from: nat, upto: nat,
                               later: nat)
      requires AreSeenFingerprints(system, location, fingerprint, from, upto) && upto <= later
      requires WasSeen(system, location, candidate, from, later)
      ensures AreSeenFingerprints(system, location, fingerprint + [candidate.fingerprint], from, later)
      ensures AreSeenFingerprints(system, location, fingerprint, from, later)
    {
      WasSeenWidens(system, location, from, upto, later);
      hide WasSeen;
    }

    lemma RightRecordsGrow(instanceId: Text, location: Location, profiles: seq<ProfileRecord>, candidate: Candidate,
                           result: ParseResult, from: nat, upto: nat, later: nat)
      requires AreRightRecords(system, instanceId, location, profiles, from, upto) && upto <= later
      requires WasSeen(system, location, candidate, from, later) && IsRight(system, instanceId, candidate, result)
      ensures AreRightRecords(system, instanceId, location, Append(profiles, result), from, later)
    {
      WasSeenWidens(system, location, from, upto, later);
      hide WasSeen, RightParse;
    }

    lemma RightRecordsLast(instanceId: Text, location: Location, profiles: seq<ProfileRecord>, from: nat, upto: nat,
                           later: nat)
      requires AreRightRecords(system, instanceId, location, profiles, from, upto) && upto <= later
      ensures AreRightRecords(system, instanceId, location, profiles, from, later)
    {
      WasSeenWidens(system, location, from, upto, later);
      hide WasSeen, RightParse;
    }

    lemma SeenFingerprintsLast(location: Location, fingerprint: seq<FileFingerprint>, from: nat, upto: nat, later: nat)
      requires AreSeenFingerprints(system, location, fingerprint, from, upto) && upto <= later
      ensures AreSeenFingerprints(system, location, fingerprint, from, later)
    {
      WasSeenWidens(system, location, from, upto, later);
      hide WasSeen;
    }

    lemma SeenIsFingerprinted(location: Location, candidate: Candidate, from: nat, upto: nat)
      requires WasSeen(system, location, candidate, from, upto)
      ensures candidate.fingerprint.path == candidate.identity
    {
    }

    /** What one candidate adds. */
    lemma GatherMore(instanceId: Text, location: Location, profiles: seq<ProfileRecord>,
                     fingerprint: seq<FileFingerprint>,
                     identities: seq<Text>, gathered: Gathered, from: nat, upto: nat, later: nat, wasSound: bool, r: Outcome,
                     couldOpen: bool)
      requires HasGathered(instanceId, location, profiles, fingerprint, identities, gathered, from, upto, wasSound) && upto <= later
      requires r.Recorded? || r.FingerprintOnly?
      requires r.candidate.identity !in gathered.processed && WasSeen(system, location, r.candidate, from, later)
      requires r.Recorded? ==> IsParsedUnder(system, instanceId, r.candidate, r.result)
      requires r.Recorded? && wasSound && NoEntryDeceives(system, location.hostPath, from, later) ==>
                 r.result == SettledParse(system, instanceId, r.candidate, couldOpen)
      ensures HasGathered(instanceId, location, if r.Recorded? then Append(profiles, r.result) else profiles,
                          fingerprint + [r.candidate.fingerprint],
                          if r.Recorded? && r.result.Parsed? then identities + [r.candidate.identity] else identities,
                          if r.Recorded? then Settled(system, instanceId, gathered, r.candidate, couldOpen)
                          else Noted(gathered, r.candidate), from, later, wasSound)
    {
      hide SettledParse, AreRightRecords, AreSeenFingerprints, RightParse, NoEntryDeceives, WasSeen, AreIdentified, HasPath;
      hide IsParsedUnder;
      var candidate := r.candidate;
      SeenIsFingerprinted(location, candidate, from, later);
      FingerprintsGrow(fingerprint, candidate.fingerprint);
      SeenFingerprintsGrow(location, fingerprint, candidate, from, upto, later);
      NarrowerIsSafer(system, location.hostPath, from, upto, later);
      if wasSound && NoEntryDeceives(system, location.hostPath, from, later) {
        RightRecordsLast(instanceId, location, profiles, from, upto, later);
        if r.Recorded? {
          SettledIsRight(instanceId, candidate, couldOpen);
          RightRecordsGrow(instanceId, location, profiles, candidate, r.result, from, upto, later);
        }
      }
      PathsStayDistinct(fingerprint, candidate.fingerprint);
      FailureIsParsedUnder(instanceId, candidate);
      MoreIdentified(instanceId, profiles, fingerprint, identities, candidate,
                     if r.Recorded? then r.result else Failed(UnreadableFile));
    }

    lemma FailureIsParsedUnder(instanceId: Text, candidate: Candidate)
      ensures IsParsedUnder(system, instanceId, candidate, Failed(UnreadableFile))
    {
    }

    lemma PathsStayDistinct(fingerprint: seq<FileFingerprint>, file: FileFingerprint)
      requires forall i, j :: 0 <= i < j < |fingerprint| ==> fingerprint[i].path != fingerprint[j].path
      requires !HasPath(fingerprint, file.path)
      ensures var more := fingerprint + [file]; forall i, j :: 0 <= i < j < |more| ==> more[i].path != more[j].path
    {
    }

    lemma MoreIdentified(instanceId: Text, profiles: seq<ProfileRecord>, fingerprint: seq<FileFingerprint>,
                         identities: seq<Text>, candidate: Candidate, result: ParseResult)
      requires AreIdentified(system, instanceId, profiles, fingerprint, identities)
      requires candidate.fingerprint.path == candidate.identity && !HasPath(fingerprint, candidate.identity)
      requires IsParsedUnder(system, instanceId, candidate, result)
      ensures AreIdentified(system, instanceId, Append(profiles, result), fingerprint + [candidate.fingerprint],
                            if result.Parsed? then identities + [candidate.identity] else identities)
    {
      hide OpaqueProfileId, HasPath;
      FingerprintsGrow(fingerprint, candidate.fingerprint);
      assert forall i :: 0 <= i < |identities| ==> HasPath(fingerprint, identities[i]);
      if result.Parsed? {
        assert Append(profiles, result) == profiles + [result.record];
      }
    }

    lemma GatheredLasts(instanceId: Text, location: Location, profiles: seq<ProfileRecord>,
                        fingerprint: seq<FileFingerprint>,
                        identities: seq<Text>, gathered: Gathered, from: nat, upto: nat, later: nat, wasSound: bool)
      requires HasGathered(instanceId, location, profiles, fingerprint, identities, gathered, from, upto, wasSound) && upto <= later
      ensures HasGathered(instanceId, location, profiles, fingerprint, identities, gathered, from, later, wasSound)
    {
      hide AreRightRecords, AreSeenFingerprints, NoEntryDeceives, AreIdentified;
      SeenFingerprintsLast(location, fingerprint, from, upto, later);
      NarrowerIsSafer(system, location.hostPath, from, upto, later);
      if wasSound && NoEntryDeceives(system, location.hostPath, from, later) {
        RightRecordsLast(instanceId, location, profiles, from, upto, later);
      }
    }

    /** What a load promises that began at `from`, with a cache that was sound or not. */
    ghost predicate IsPromised(instanceId: Text, r: LoadResult, from: nat, upto: nat, wasSound: bool) {
      && (r.Loaded? ==>
            && IsUnambiguous(system, instanceId, r.snapshot)
            && AreSeenFingerprints(system, r.snapshot.directory, r.snapshot.fingerprint, from, upto))
      && (wasSound && IsUndeceived(system, instanceId, from, upto) ==>
            && (r.Loaded? ==> AreRightRecords(system, instanceId, r.snapshot.directory, r.snapshot.profiles, from, upto))
            && IsLoad(system, instanceId, r, from, upto))
    }

    lemma GatheredIsPromised(instanceId: Text, snapshot: ProfileSnapshot, identities: seq<Text>, gathered: Gathered,
                             from: nat,
                             upto: nat, wasSound: bool)
      requires HasGathered(instanceId, snapshot.directory, snapshot.profiles, snapshot.fingerprint, identities, gathered, from,
                           upto, wasSound)
      requires MayBeRead(system, instanceId, snapshot.directory.hostPath, from, upto)
      requires IsAt(system, instanceId, Continue(snapshot.directory, snapshot.directoryFingerprint, gathered, []), from, upto)
      ensures IsPromised(instanceId, Loaded(snapshot), from, upto, wasSound)
    {
      hide IsAt, AreRightRecords, AreSeenFingerprints, NoEntryDeceives, AreIdentified;
    }

    lemma FailureIsPromised(instanceId: Text, error: RepositoryError, from: nat, upto: nat, wasSound: bool)
      requires IsAt(system, instanceId, Done(LoadFailed(error)), from, upto)
      ensures IsPromised(instanceId, LoadFailed(error), from, upto, wasSound)
    {
    }

    // ---- What a load leaves in the cache ----

    /** Those of the candidates in front of `k` that can be opened are remembered, under active keys. */
    ghost predicate IsWarmUpTo(cache: map<Text, CacheEntry>, instanceId: Text, host: Text,
                               candidates: seq<Candidate>, k: nat,
                               active: set<Text>, from: nat)
      requires k <= |candidates|
    {
      forall j :: 0 <= j < k && CanBeOpened(system.world(from), host, candidates[j].entryName) ==>
        IsActive(cache, instanceId, host, candidates[j], active)
    }

    ghost predicate IsActive(cache: map<Text, CacheEntry>, instanceId: Text, host: Text, candidate: Candidate,
                             active: set<Text>) {
      && Remembers(system, cache, instanceId, host, candidate)
      && CacheKey(system.sha, instanceId, host, candidate.identity) in active
    }

    /** Those from `k` on are remembered. */
    ghost predicate IsWarmFrom(cache: map<Text, CacheEntry>, instanceId: Text, host: Text,
                               candidates: seq<Candidate>, k: nat,
                               from: nat)
    {
      forall j :: k <= j < |candidates| && CanBeOpened(system.world(from), host, candidates[j].entryName) ==>
        Remembers(system, cache, instanceId, host, candidates[j])
    }

    /** Behind the first `n`, only entries were opened that cannot be. */
    ghost predicate OpensOnlyUnreadable(openings: seq<(Text, Text)>, n: nat, from: nat) {
      forall i :: n <= i < |openings| ==> !CanBeOpened(system.world(from), openings[i].0, openings[i].1)
    }

    /** How far a load has got while nothing changes. */
    ghost predicate IsQuietProgress(cache: map<Text, CacheEntry>, openings: seq<(Text, Text)>, instanceId: Text,
                                    host: Text,
                                    candidates: seq<Candidate>, k: nat, active: set<Text>, processed: set<Text>, from: nat, n: nat,
                                    wasWarm: bool)
      requires k <= |candidates|
    {
      && processed == (set j | 0 <= j < k :: candidates[j].identity) && n <= |openings|
      && (!system.readsMayFail ==> IsWarmUpTo(cache, instanceId, host, candidates, k, active, from))
      && (wasWarm ==> IsWarmFrom(cache, instanceId, host, candidates, k, from) && OpensOnlyUnreadable(openings, n, from))
    }

    /** A turn for one candidate keeps what is remembered of others. */
    lemma OthersAreKept(instanceId: Text, host: Text, before: map<Text, CacheEntry>, after: map<Text, CacheEntry>,
                        earlier: seq<(Text, Text)>, openings: seq<(Text, Text)>, candidate: Candidate, other: Candidate, from: nat)
      requires IsQuietTurn(instanceId, host, candidate, from, before, after, earlier, openings)
      requires KeysAreDistinct(system, system.world(from), instanceId, host) && candidate.identity != other.identity
      requires candidate.identity in system.world(from).files && other.identity in system.world(from).files
      requires Remembers(system, before, instanceId, host, other)
      ensures Remembers(system, after, instanceId, host, other)
    {
      hide CacheKey;
    }

    /** What a turn does to the state of the loop when nothing changes. */
    lemma QuietStep(instanceId: Text, host: Text, candidates: seq<Candidate>, k: nat, active: set<Text>,
                    processed: set<Text>,
                    from: nat, before: map<Text, CacheEntry>, after: map<Text, CacheEntry>, earlier: seq<(Text, Text)>,
                    openings: seq<(Text, Text)>, n: nat, wasWarm: bool)
      requires k < |candidates| && AllDistinct(Identities(candidates))
      requires forall c :: c in candidates ==> c.identity in system.world(from).files
      requires KeysAreDistinct(system, system.world(from), instanceId, host)
      requires IsQuietProgress(before, earlier, instanceId, host, candidates, k, active, processed, from, n, wasWarm)
      requires IsQuietTurn(instanceId, host, candidates[k], from, before, after, earlier, openings)
      ensures IsQuietProgress(after, openings, instanceId, host, candidates, k + 1,
                              active + {CacheKey(system.sha, instanceId, host, candidates[k].identity)},
                              processed + {candidates[k].identity}, from, n, wasWarm)
    {
      hide CacheKey, CanBeOpened, KeysAreDistinct;
      forall j | 0 <= j < |candidates| && j != k && Remembers(system, before, instanceId, host, candidates[j])
        ensures Remembers(system, after, instanceId, host, candidates[j])
      {
        assert Identities(candidates)[j] != Identities(candidates)[k];
        assert candidates[j] in candidates && candidates[k] in candidates;
        OthersAreKept(instanceId, host, before, after, earlier, openings, candidates[k], candidates[j], from);
      }
    }

    lemma NotProcessed(cache: map<Text, CacheEntry>, openings: seq<(Text, Text)>, instanceId: Text, host: Text,
                       candidates: seq<Candidate>, k: nat, active: set<Text>, processed: set<Text>, from: nat, n: nat,
                       wasWarm: bool)
      requires k < |candidates| && AllDistinct(Identities(candidates))
      requires IsQuietProgress(cache, openings, instanceId, host, candidates, k, active, processed, from, n, wasWarm)
      ensures candidates[k].identity !in processed
    {
      hide IsWarmUpTo, IsWarmFrom, OpensOnlyUnreadable;
      forall j | 0 <= j < k
        ensures candidates[j].identity != candidates[k].identity
      {
        assert Identities(candidates)[j] != Identities(candidates)[k];
      }
    }

    lemma QuietBegins(instanceId: Text, host: Text, candidates: seq<Candidate>, from: nat)
      ensures IsQuietProgress(cache, openings, instanceId, host, candidates, 0, {}, {}, from, |openings|,
                              IsWarmFrom(cache, instanceId, host, candidates, 0, from))
      ensures ActiveAreFingerprinted(cache, instanceId, host, {}, [])
    {
    }

    /** Dropping the entries under other keys leaves what is active. */
    lemma PruneKeeps(instanceId: Text, host: Text, candidates: seq<Candidate>, before: map<Text, CacheEntry>,
                     after: map<Text, CacheEntry>, active: set<Text>, fingerprint: seq<FileFingerprint>, from: nat)
      requires forall key :: key in after <==> key in before && key in active
      requires forall key :: key in after ==> after[key] == before[key]
      requires ActiveAreFingerprinted(before, instanceId, host, active, fingerprint)
      ensures forall key :: key in after ==> IsEntryOf(after[key], instanceId, host, fingerprint)
      ensures IsWarmUpTo(before, instanceId, host, candidates, |candidates|, active, from) ==>
                IsWarmFrom(after, instanceId, host, candidates, 0, from)
    {
      hide CacheKey, CanBeOpened, IsEntryOf;
    }

    /** Entries under active keys are of files of the snapshot. */
    ghost predicate ActiveAreFingerprinted(cache: map<Text, CacheEntry>, instanceId: Text, host: Text,
                                           active: set<Text>,
                                           fingerprint: seq<FileFingerprint>)
    {
      forall key :: key in cache && key in active ==> IsEntryOf(cache[key], instanceId, host, fingerprint)
    }

    lemma EntriesStay(entry: CacheEntry, instanceId: Text, host: Text, fingerprint: seq<FileFingerprint>,
                      file: FileFingerprint)
      requires IsEntryOf(entry, instanceId, host, fingerprint)
      ensures IsEntryOf(entry, instanceId, host, fingerprint + [file])
    {
      var i :| 0 <= i < |fingerprint| && IsFingerprintFor(fingerprint[i], entry.identity, entry.signature);
      assert (fingerprint + [file])[i] == fingerprint[i];
    }

    /** A turn keeps the entries under active keys fingerprinted, and makes the one it records so. */
    lemma FingerprintsFollow(location: Location, instanceId: Text, before: map<Text, CacheEntry>, after: map<Text,
                             CacheEntry>,
                             r: Outcome, active: set<Text>, fingerprint: seq<FileFingerprint>, from: nat, upto: nat)
      requires CacheFollows(instanceId, location.hostPath, before, after, r)
      requires r.Recorded? || r.FingerprintOnly? ==> WasSeen(system, location, r.candidate, from, upto)
      requires ActiveAreFingerprinted(before, instanceId, location.hostPath, active, fingerprint)
      ensures r.Skipped? || r.Lost? ==> ActiveAreFingerprinted(after, instanceId, location.hostPath, active, fingerprint)
      ensures r.FingerprintOnly? ==>
                ActiveAreFingerprinted(after, instanceId, location.hostPath, active, fingerprint + [r.candidate.fingerprint])
      ensures r.Recorded? ==>
                ActiveAreFingerprinted(after, instanceId, location.hostPath,
                                       active + {CacheKey(system.sha, instanceId, location.hostPath, r.candidate.identity)},
                                       fingerprint + [r.candidate.fingerprint])
    {
      hide CacheKey, WasSeen, IsEntryOf;
      if r.Recorded? || r.FingerprintOnly? {
        var more := fingerprint + [r.candidate.fingerprint];
        var recorded := CacheKey(system.sha, instanceId, location.hostPath, r.candidate.identity);
        forall key | key in before && key in active
          ensures IsEntryOf(before[key], instanceId, location.hostPath, more)
        {
          EntriesStay(before[key], instanceId, location.hostPath, fingerprint, r.candidate.fingerprint);
        }
        if r.Recorded? && recorded in after {
          RecordedIsFingerprinted(location, instanceId, after[recorded], r.candidate, fingerprint, from, upto);
        }
      }
    }

    lemma RecordedIsFingerprinted(location: Location, instanceId: Text, entry: CacheEntry, candidate: Candidate,
                                  fingerprint: seq<FileFingerprint>, from: nat, upto: nat)
      requires WasSeen(system, location, candidate, from, upto)
      requires IsEntryFor(entry, instanceId, location.hostPath, candidate.identity, candidate.signature)
      ensures IsEntryOf(entry, instanceId, location.hostPath, fingerprint + [candidate.fingerprint])
    {
      assert (fingerprint + [candidate.fingerprint])[|fingerprint|] == candidate.fingerprint;
    }

    /** The loop of `load` over the enumerated candidates. */
    method LoadCandidates(location: Location, instanceId: Text, candidates: seq<Candidate>,
                          directoryFingerprint: DirectoryFingerprint, ghost from: nat)
      returns (r: LoadResult)
      requires SignaturesAreFaithful(system) && from <= now
      requires forall c :: c in candidates ==> WasSeen(system, location, c, from, now)
      requires IsAt(system, instanceId, Continue(location, directoryFingerprint, NOTHING, candidates), from, now)
      requires MayBeRead(system, instanceId, location.hostPath, from, now)
      requires AllDistinct(Identities(candidates))
      requires IsQuiet(system, from) ==> forall c :: c in candidates ==> IsListed(system.world(from), location, c)
      modifies this`now, this`cache, this`openings
      ensures r.Loaded? ==> r.snapshot.directory == location && OnlyOf(cache, instanceId, r.snapshot)
      ensures r.LoadFailed? ==> r.error.UnreadableDirectory?
      ensures IsQuiet(system, from) && KeysAreDistinct(system, system.world(from), instanceId, location.hostPath) ==>
                && r.Loaded?
                && (!system.readsMayFail ==> IsWarmFrom(cache, instanceId, location.hostPath, candidates, 0, from))
                && (IsWarmFrom(old(cache), instanceId, location.hostPath, candidates, 0, from) ==>
                      OpensOnlyUnreadable(openings, |old(openings)|, from))
      ensures now >= old(now) && (old(CacheIsSound()) && IsUndeceived(system, instanceId, from, now) ==> CacheIsSound())
      ensures IsPromised(instanceId, r, from, now, old(CacheIsSound()))
    {
      hide NoEntryDeceives, CacheKey, OpaqueProfileId, IsAt, HasGathered, Settled, Noted;
      hide Continue, WasSeen, IsRight, SettledParse;
      hide SignaturesAreFaithful, IsPromised, IsParseOf, IsParsedUnder, IsQuiet;
      hide KeysAreDistinct, ActiveAreFingerprinted, IsListed;
      hide CacheIsSound, CacheFollows, IsQuietTurn, IsWarmFrom, IsWarmUpTo, OpensOnlyUnreadable, IsEntryOf;
      var fingerprint: seq<FileFingerprint>, profiles: seq<ProfileRecord> := [], [];
      var activeCacheKeys: set<Text>, processedIdentities: set<Text> := {}, {};
      ghost var identities: seq<Text>, gathered := [], NOTHING;
      ghost var wasSound, n, host := CacheIsSound(), |openings|, location.hostPath;
      ghost var isQuiet := IsQuiet(system, from) && KeysAreDistinct(system, system.world(from), instanceId, host);
      ghost var wasWarm := IsWarmFrom(cache, instanceId, host, candidates, 0, from);
      QuietBegins(instanceId, host, candidates, from);
      NothingGathered(instanceId, location, from, now, wasSound);
      assert candidates[0..] == candidates;
      for k := 0 to |candidates|
        invariant now >= old(now) && MayBeRead(system, instanceId, location.hostPath, from, now)
        invariant wasSound && NoEntryDeceives(system, location.hostPath, from, now) ==> CacheIsSound()
        invariant forall c :: c in candidates ==> WasSeen(system, location, c, from, now)
        invariant ActiveAreFingerprinted(cache, instanceId, host, activeCacheKeys, fingerprint)
        invariant isQuiet ==>
                    IsQuietProgress(cache, openings, instanceId, host, candidates, k, activeCacheKeys, processedIdentities, from, n,
                                    wasWarm)
        invariant gathered.processed == processedIdentities
        invariant HasGathered(instanceId, location, profiles, fingerprint, identities, gathered, from, now, wasSound)
        invariant IsAt(system, instanceId, Continue(location, directoryFingerprint, gathered, candidates[k..]), from, now)
      {
        ghost var before, rest, held, earlier, active := now, candidates[k + 1..], cache, openings, activeCacheKeys;
        if isQuiet {
          NotProcessed(cache, openings, instanceId, host, candidates, k, active, processedIdentities, from, n, wasWarm);
        }
        assert candidates[k..] == [candidates[k]] + rest && candidates[k] in candidates;
        var outcome;
        ghost var couldOpen;
        outcome, couldOpen := LoadCandidate(location, instanceId, candidates[k], processedIdentities, from,
                                            directoryFingerprint, gathered, rest);
        FingerprintsFollow(location, instanceId, held, cache, outcome, active, fingerprint, from, now);
        if isQuiet {
          ListedFiles(location, candidates, from);
          QuietStep(instanceId, host, candidates, k, active, processedIdentities, from, held, cache, earlier, openings, n, wasWarm);
        }
        WasSeenWidens(system, location, from, before, now);
        NarrowerIsSafer(system, location.hostPath, from, before, now);
        match outcome
        case Lost =>
          FailureIsPromised(instanceId, UnreadableDirectory, from, now, wasSound);
          return LoadFailed(UnreadableDirectory);
        case Skipped =>
          GatheredLasts(instanceId, location, profiles, fingerprint, identities, gathered, from, before, now, wasSound);
        case Recorded(candidate, result) =>
          GatherMore(instanceId, location, profiles, fingerprint, identities, gathered, from, before, now, wasSound, outcome, couldOpen);
          ProcessedGrows(instanceId, gathered, candidate, couldOpen);
          activeCacheKeys := activeCacheKeys + {CacheKey(system.sha, instanceId, location.hostPath, candidate.identity)};
          processedIdentities := processedIdentities + {candidate.identity};
          fingerprint := fingerprint + [candidate.fingerprint];
          profiles := Append(profiles, result);
          identities := if result.Parsed? then identities + [candidate.identity] else identities;
          gathered := Settled(system, instanceId, gathered, candidate, couldOpen);
        case FingerprintOnly(candidate) =>
          GatherMore(instanceId, location, profiles, fingerprint, identities, gathered, from, before, now, wasSound, outcome, couldOpen);
          ProcessedGrows(instanceId, gathered, candidate, couldOpen);
          processedIdentities := processedIdentities + {candidate.identity};
          fingerprint := fingerprint + [candidate.fingerprint];
          gathered := Noted(gathered, candidate);
      }
      assert candidates[|candidates|..] == [];
      ghost var unpruned := cache;
      Prune(activeCacheKeys);
      PruneKeeps(instanceId, host, candidates, unpruned, cache, activeCacheKeys, fingerprint, from);
      r := Loaded(ProfileSnapshot(profiles, fingerprint, location, directoryFingerprint));
      GatheredIsPromised(instanceId, r.snapshot, identities, gathered, from, now, wasSound);
    }

    lemma ListedFiles(location: Location, candidates: seq<Candidate>, from: nat)
      requires forall c :: c in candidates ==> IsListed(system.world(from), location, c)
      ensures forall c :: c in candidates ==> c.identity in system.world(from).files
    {
    }

    lemma ProcessedGrows(instanceId: Text, gathered: Gathered, candidate: Candidate, couldOpen: bool)
      ensures Settled(system, instanceId, gathered, candidate, couldOpen).processed == gathered.processed + {candidate.identity}
      ensures Noted(gathered, candidate).processed == gathered.processed + {candidate.identity}
    {
    }

    /** The profiles of the instance have different cache keys, wherever they are. */
    ghost predicate AreKeyedApart(instanceId: Text, at: nat) {
      var locating := system.world(at).locate(instanceId);
      locating.Located? ==> KeysAreDistinct(system, system.world(at), instanceId, locating.location.hostPath)
    }

    /** The next load for the instance needs to open no profile that can be opened. */
    ghost predicate IsPrepared(instanceId: Text, at: nat)
      reads this`cache, this`activeInstanceId, this`activeDirectory, this`hasActiveScope
    {
      var world := system.world(at);
      match world.locate(instanceId)
      case Located(location) =>
        location.hostPath in world.directories ==>
          && hasActiveScope && activeInstanceId == instanceId && activeDirectory == location.hostPath
          && IsWarm(system, world, cache, instanceId, location)
      case _ => true
    }

    /**
      `load`.  Whatever changes during it, the snapshot is unambiguous, its fingerprints are of files that were
      there, and the cache holds entries of these files only.  If the cache held nothing wrong and no entry
      deceived during this load, the cache is sound afterwards, every record is the right parse of a candidate
      that was there, and the result is one that a load without a cache may give in this time.  While nothing
      changes the result is what is there, all that can be opened is remembered, and nothing that was
      remembered is opened again.
     */
    method Load(instanceId: Text) returns (r: LoadResult)
      requires Valid()
      modifies this
      ensures now >= old(now)
      ensures old(IsSoundFor(instanceId)) && IsUndeceived(system, instanceId, old(now), now) ==> CacheIsSound()
      ensures IsPromised(instanceId, r, old(now), now, old(IsSoundFor(instanceId)))
      ensures r.Loaded? ==> OnlyOf(cache, instanceId, r.snapshot)
      ensures r.Loaded? ==> hasActiveScope && activeInstanceId == instanceId && activeDirectory == r.snapshot.directory.hostPath
      ensures r == LoadFailed(NoProfileDirectory) ==> !hasActiveScope && cache == map[]
      ensures IsQuiet(system, old(now)) && AreKeyedApart(instanceId, old(now)) ==>
                && (!system.readsMayFail ==> IsPrepared(instanceId, old(now)))
                && (old(IsPrepared(instanceId, now)) ==> OpensOnlyUnreadable(openings, |old(openings)|, old(now)))
      ensures IsQuiet(system, old(now)) && !system.readsMayFail && old(IsSoundFor(instanceId)) ==>
                IsWhatIsThere(system, system.world(old(now)), instanceId, {}, r)
    {
      hide NoEntryDeceives, IsUndeceived, IsAt, IsParseOf, SignaturesAreFaithful, IsQuiet, IsWarm, KeysAreDistinct;
      hide CacheIsSound, IsPromised, IsWhatIsThere, OpensOnlyUnreadable, OnlyOf;
      ghost var from, wasSound, n := now, IsSoundFor(instanceId), |openings|;
      LoadBegins(system, instanceId, from, from);
      Tick();
      LoadAdvances(system, instanceId, Beginning, from, from, now, Place(system.world(now).locate(instanceId)));
      QuietlySame(from, now);
      NothingOpened(from);
      var locating := system.world(now).locate(instanceId);
      if !locating.Located? {
        ForgetCache();
        activeInstanceId, activeDirectory, hasActiveScope := [], [], false;
        var error := if locating.Unreadable? then UnreadableDirectory else NoProfileDirectory;
        FailureIsPromised(instanceId, error, from, now, wasSound);
        QuietIsWhatIsThere(instanceId, LoadFailed(error), from, now, wasSound);
        return LoadFailed(error);
      }
      var location := locating.location;
      if !hasActiveScope || activeInstanceId != instanceId || activeDirectory != location.hostPath {
        ForgetCache();
        activeInstanceId, activeDirectory, hasActiveScope := instanceId, location.hostPath, true;
      }
      assert MayBeRead(system, instanceId, location.hostPath, from, now);
      ghost var isSound := CacheIsSound();
      r := LoadLocated(location, instanceId, from);
      PromisedForLess(instanceId, r, from, now, isSound, wasSound);
      QuietIsWhatIsThere(instanceId, r, from, now, wasSound);
    }

    /** The part of `load` that follows the selection of the directory. */
    method LoadLocated(location: Location, instanceId: Text, ghost from: nat) returns (r: LoadResult)
      requires SignaturesAreFaithful(system) && from <= now && IsAt(system, instanceId, Reading(location), from, now)
      requires MayBeRead(system, instanceId, location.hostPath, from, now)
      modifies this`now, this`cache, this`openings
      ensures now >= old(now) && (old(CacheIsSound()) && IsUndeceived(system, instanceId, from, now) ==> CacheIsSound())
      ensures IsPromised(instanceId, r, from, now, old(CacheIsSound()))
      ensures r.Loaded? ==> r.snapshot.directory == location && OnlyOf(cache, instanceId, r.snapshot)
      ensures r.LoadFailed? ==> r.error.UnreadableDirectory?
      ensures IsQuiet(system, from) && KeysAreDistinct(system, system.world(from), instanceId, location.hostPath) ==>
                && (location.hostPath in system.world(from).directories ==>
                      && (!system.readsMayFail ==> IsWarm(system, system.world(from), cache, instanceId, location))
                      && (IsWarm(system, system.world(from), old(cache), instanceId, location) ==>
                            OpensOnlyUnreadable(openings, |old(openings)|, from)))
                && (location.hostPath !in system.world(from).directories ==> openings == old(openings))
    {
      hide NoEntryDeceives, IsUndeceived, IsAt, IsParseOf, SignaturesAreFaithful, IsQuiet, IsWarm, IsWarmFrom, KeysAreDistinct;
      hide CacheIsSound, IsPromised, OpensOnlyUnreadable, OnlyOf, WasSeen, CoverAll;
      NothingOpened(from);
      ghost var held := cache;
      var enumeration := EnumerateCandidates(location, instanceId, from);
      if enumeration == None {
        FailureIsPromised(instanceId, UnreadableDirectory, from, now, CacheIsSound());
        return LoadFailed(UnreadableDirectory);
      }
      var candidates := enumeration.value.0;
      if IsQuiet(system, from) {
        CoveredAreWarm(instanceId, location, held, candidates, from);
      }
      r := LoadCandidates(location, instanceId, candidates, enumeration.value.1, from);
      if IsQuiet(system, from) {
        CoveredAreWarm(instanceId, location, cache, candidates, from);
      }
    }

    lemma PromisedForLess(instanceId: Text, r: LoadResult, from: nat, upto: nat, isSound: bool, wasSound: bool)
      requires IsPromised(instanceId, r, from, upto, isSound) && (wasSound ==> isSound)
      ensures IsPromised(instanceId, r, from, upto, wasSound)
    {
      hide IsUnambiguous, AreSeenFingerprints, IsUndeceived, AreRightRecords, IsAt;
    }

    lemma QuietlySame(from: nat, t: nat)
      requires from <= t
      ensures IsQuiet(system, from) ==> system.world(t) == system.world(from)
    {
    }

    lemma NothingOpened(from: nat)
      ensures OpensOnlyUnreadable(openings, |openings|, from)
    {
    }

    /** If one candidate of each file is remembered, all are. */
    lemma CoveredAreWarm(instanceId: Text, location: Location, cache: map<Text, CacheEntry>,
                         candidates: seq<Candidate>, from: nat)
      requires CoverAll(system.world(from), location, candidates)
      ensures forall c :: c in candidates ==> IsListed(system.world(from), location, c)
      ensures IsWarm(system, system.world(from), cache, instanceId, location) <==>
                IsWarmFrom(cache, instanceId, location.hostPath, candidates, 0, from)
    {
      hide CacheKey, HasProfileSuffix;
      if IsWarmFrom(cache, instanceId, location.hostPath, candidates, 0, from) {
        forall c | IsListed(system.world(from), location, c) && CanBeOpened(system.world(from), location.hostPath, c.entryName)
          ensures Remembers(system, cache, instanceId, location.hostPath, c)
        {
          assert IsCovered(candidates, c);
          var k :| 0 <= k < |candidates| && candidates[k].identity == c.identity;
          assert candidates[k] in candidates;
          AliasesAgree(location, c, candidates[k], from);
        }
      }
      forall k | 0 <= k < |candidates|
        ensures IsListed(system.world(from), location, candidates[k])
      {
        assert candidates[k] in candidates;
      }
    }

    lemma AliasesAgree(location: Location, a: Candidate, b: Candidate, t: nat)
      requires IsListed(system.world(t), location, a) && IsListed(system.world(t), location, b) && a.identity == b.identity
      ensures a.signature == b.signature
      ensures CanBeOpened(system.world(t), location.hostPath, a.entryName) <==>
                CanBeOpened(system.world(t), location.hostPath, b.entryName)
    {
      hide HasProfileSuffix;
    }

    lemma QuietIsWhatIsThere(instanceId: Text, r: LoadResult, from: nat, upto: nat, wasSound: bool)
      requires SignaturesAreFaithful(system) && IsPromised(instanceId, r, from, upto, wasSound) && from <= upto
      ensures IsQuiet(system, from) && !system.readsMayFail && wasSound ==>
                IsWhatIsThere(system, system.world(from), instanceId, {}, r)
    {
      hide IsAt, IsQuiet, IsUndeceived, SignaturesAreFaithful, IsWhatIsThere, IsUnambiguous, AreRightRecords, AreSeenFingerprints;
      if IsQuiet(system, from) && !system.readsMayFail && wasSound {
        QuietIsSafe(system, instanceId, from, upto);
        QuietLoad(system, instanceId, r, from, upto, from);
        ReliableIsWhatIsThere(system, instanceId, from, r);
      }
    }
  }

  /**
    Warm equals cold: on a quiet file system, a repository with any sound cache and one with an empty cache
    load the same, which is the cold result.
   */
  method LoadWarmAndCold(warm: Repository, cold: Repository, instanceId: Text) returns (a: LoadResult, b: LoadResult)
    requires warm != cold && warm.system == cold.system && warm.Valid() && !warm.system.readsMayFail
    requires warm.IsSoundFor(instanceId) && cold.cache == map[]
    requires warm.now == cold.now && IsQuiet(warm.system, warm.now)
    modifies warm, cold
    ensures a == b && IsWhatIsThere(warm.system, warm.system.world(old(warm.now)), instanceId, {}, a)
  {
    hide IsAt, NoEntryDeceives, SignaturesAreFaithful, IsQuiet, IsWhatIsThere;
    ghost var system, from := warm.system, warm.now;
    a := warm.Load(instanceId);
    QuietIsSafe(system, instanceId, from, warm.now);
    QuietLoad(system, instanceId, a, from, warm.now, from);
    b := cold.Load(instanceId);
    QuietIsSafe(system, instanceId, from, cold.now);
    QuietLoad(system, instanceId, b, from, cold.now, from);
    FreshIsUnique(system, instanceId, from, a, b);
  }
}
