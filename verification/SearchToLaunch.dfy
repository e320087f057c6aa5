/** The service from end to end: what a search shows is what is there, and what it shows can be started. */
module SearchToLaunch {
  import opened Bytes
  import opened ColdLoads
  import opened Hashing
  import InstanceRegistry
  import opened Instances
  import opened Matcher
  import opened Ordering
  import opened ProfileCatalog
  import ProfileLoading
  import opened ProfileTypes
  import opened RunnerService
  import opened Wrappers

  /** The text begins with a slash and has no NUL. */
  ghost predicate IsPathWithoutNul(path: Text) {
    (exists rest :: path == Ascii("/") + rest) && 0 !in path
  }

  /** The instance can be launched for the profiles of a directory. */
  ghost predicate CanLaunch(instance: Instance, directory: Location, world: ProfileLoading.World) {
    && IsPathWithoutNul(instance.executable) && (forall text: Text :: text in instance.launcherPrefix ==> 0 !in text)
    && IsPathWithoutNul(directory.launchPath)
    && forall name, identity :: IsProfileOf(world, directory.hostPath, name, identity) ==> 0 !in name
  }

  /** The ids of the files are 64 digits each, and different. */
  ghost predicate GivesIds(system: ProfileLoading.System, world: ProfileLoading.World, instance: Instance) {
    && IdsAreUnique(system, world, instance.id)
    && forall identity :: identity in world.files ==> IsOpaqueProfileId(OpaqueProfileId(system.sha, instance.id, identity))
  }

  /** What a launch that connects to a record looks like. */
  function Connection(instance: Instance, record: ProfileRecord): Launch {
    Launch(instance.executable, instance.launcherPrefix + [Ascii("--connect"), record.launchPath], [])
  }

  /** The record of a profile can be asked for, and connecting to it launched. */
  ghost predicate IsLaunchableRecord(instance: Instance, record: ProfileRecord) {
    && IsOpaqueProfileId(record.opaqueId) && record.opaqueId != [] && record.opaqueId != NEW_ACTION_ID
    && IsAbsolute(record.launchPath) && IsLaunchable(Connection(instance, record))
  }

  lemma RecordCanBeLaunched(system: ProfileLoading.System, world: ProfileLoading.World, instance: Instance, directory: Location,
                            record: ProfileRecord)
    requires GivesIds(system, world, instance) && CanLaunch(instance, directory, world)
    requires IsRecordOfFile(system, world, instance.id, directory, {}, record)
    ensures IsLaunchableRecord(instance, record)
  {
    hide IsLaunchable, IsOpaqueProfileId, OpaqueProfileId, IsAbsolute, TextLeq, IdsAreUnique;
    var name, identity :| && IsFirstName(world, directory.hostPath, name, identity)
                          && IsRecordOf(system, world, instance.id, directory, {}, name, record);
    IdsHaveNoPrefix(record.opaqueId);
    PathCanBeLaunched(instance, directory.launchPath, name, record);
  }

  lemma PathCanBeLaunched(instance: Instance, directory: Text, name: Text, record: ProfileRecord)
    requires IsPathWithoutNul(instance.executable) && IsPathWithoutNul(directory) && 0 !in name
    requires forall text: Text :: text in instance.launcherPrefix ==> 0 !in text
    requires record.launchPath == directory + [0x2F] + name
    ensures IsAbsolute(record.launchPath) && IsLaunchable(Connection(instance, record))
  {
    var rest :| directory == Ascii("/") + rest;
    assert Ascii("/") == [0x2F] && record.launchPath[0] == directory[0];
    var arguments := Connection(instance, record).arguments;
    forall i | 0 <= i < |arguments|
      ensures 0 !in arguments[i]
    {
      if i < |instance.launcherPrefix| {
        assert arguments[i] in instance.launcherPrefix;
      }
    }
  }

  /** All records of a list, and the matches shown of them, are those of what is there. */
  lemma ShownAreThere(system: ProfileLoading.System, world: ProfileLoading.World, instance: Instance, directory: Location,
                      records: seq<ProfileRecord>, fold: Fold, isSpace: Byte -> bool, query: Text, shown: seq<SearchMatch>,
                      record: ProfileRecord)
    requires GivesIds(system, world, instance) && CanLaunch(instance, directory, world)
    requires AreRecords(system, world, instance.id, directory, {}, records)
    requires ShowsAllOf(fold, isSpace, query, records, shown)
    ensures var tokens := Parsed(fold, isSpace, query).tokens;
            (exists relevance :: SearchMatch(record, relevance) in shown) <==>
              [] !in tokens && AreInFields(fold, record, tokens, Inside) && record in records
  {
    hide IsMatch, Parsed, AreInFields, IsRecordOfFile, GivesIds, CanLaunch, PathsRise;
    var tokens := Parsed(fold, isSpace, query).tokens;
    MatchMeans(fold, records, tokens, record);
    if record in records {
      RecordCanBeLaunched(system, world, instance, directory, record);
    }
    if relevance :| SearchMatch(record, relevance) in shown {
      assert IsMatch(fold, records, tokens, SearchMatch(record, relevance));
    }
    if relevance :| record in records && [] !in tokens && IsMatch(fold, records, tokens, SearchMatch(record, relevance)) {
      assert SearchMatch(record, relevance) in shown;
    }
  }

  /** Exactly the profiles that are there, can be read and match the words are shown. */
  ghost predicate ShowsWhatIsThere(system: ProfileLoading.System, world: ProfileLoading.World, instance: Instance, directory: Location,
                                   fold: Fold, isSpace: Byte -> bool, query: Text, shown: seq<SearchMatch>)
  {
    && Parsed(fold, isSpace, query).Lookup?
    && var tokens := Parsed(fold, isSpace, query).tokens;
       forall record :: (exists relevance :: SearchMatch(record, relevance) in shown) <==>
         && [] !in tokens && AreInFields(fold, record, tokens, Inside)
         && IsRecordOfFile(system, world, instance.id, directory, {}, record)
  }

  lemma AllShownAreThere(system: ProfileLoading.System, world: ProfileLoading.World, instance: Instance, directory: Location,
                         records: seq<ProfileRecord>, fold: Fold, isSpace: Byte -> bool, query: Text, shown: seq<SearchMatch>)
    requires GivesIds(system, world, instance) && CanLaunch(instance, directory, world)
    requires AreRecords(system, world, instance.id, directory, {}, records)
    requires ShowsAllOf(fold, isSpace, query, records, shown)
    ensures ShowsWhatIsThere(system, world, instance, directory, fold, isSpace, query, shown)
  {
    hide IsMatch, Parsed, AreInFields, IsRecordOfFile, GivesIds, CanLaunch, PathsRise;
    forall record
      ensures (exists relevance :: SearchMatch(record, relevance) in shown) <==>
                && [] !in Parsed(fold, isSpace, query).tokens && AreInFields(fold, record, Parsed(fold, isSpace, query).tokens, Inside)
                && IsRecordOfFile(system, world, instance.id, directory, {}, record)
    {
      ShownAreThere(system, world, instance, directory, records, fold, isSpace, query, shown, record);
    }
  }

  lemma PickedCanBeLaunched(system: ProfileLoading.System, world: ProfileLoading.World, instance: Instance, directory: Location,
                            records: seq<ProfileRecord>, fold: Fold, isSpace: Byte -> bool, query: Text, shown: seq<SearchMatch>,
                            pick: nat)
    requires GivesIds(system, world, instance) && CanLaunch(instance, directory, world) && pick < |shown|
    requires AreRecords(system, world, instance.id, directory, {}, records)
    requires ShowsAllOf(fold, isSpace, query, records, shown)
    ensures shown[pick].record in records && IsLaunchableRecord(instance, shown[pick].record)
  {
    hide IsMatch, Parsed, AreInFields, IsRecordOfFile, GivesIds, CanLaunch, PathsRise, IsLaunchableRecord;
    var record := shown[pick].record;
    assert shown[pick] == SearchMatch(record, shown[pick].relevance) && shown[pick] in shown;
    ShownAreThere(system, world, instance, directory, records, fold, isSpace, query, shown, record);
    RecordCanBeLaunched(system, world, instance, directory, record);
  }

  /** What is started for the id of a record that can be connected to is that connection. */
  lemma ConnectionIsStarted(opaqueProfileId: (Text, Text) -> Text, call: Call, snapshot: InstanceRegistry.Snapshot,
                            records: seq<ProfileRecord>, launched: Option<Launch>, instance: Instance, record: ProfileRecord)
    requires call.RunCall? && call.starts && call.actionId == [] && call.matchId == record.opaqueId
    requires IsStarted(opaqueProfileId, call, snapshot, Some((instance.id, records)), [], launched)
    requires IsSelected(snapshot, instance) && IsLaunchableRecord(instance, record)
    requires IsConnectable(instance.id, records, record.opaqueId, call.directoryMatches, call.identityOf, opaqueProfileId, record)
    requires forall a, b :: a in records && b in records && a.opaqueId == b.opaqueId ==> a == b
    ensures launched == Some(Connection(instance, record))
  {
    hide IsLaunchable, IsOpaqueProfileId, IsSelected, IsAbsolute;
    var l := Connection(instance, record);
    var list := Some((instance.id, records));
    SelectedHasId(snapshot, instance);
    assert Connects(snapshot, l, record, []);
    assert IsConnection(opaqueProfileId, call, snapshot, list, [], l);
    assert IsDue(opaqueProfileId, call, snapshot, list, [], l);
    OnlyThat(opaqueProfileId, call, snapshot, records, instance, record, launched.value);
  }

  lemma OnlyThat(opaqueProfileId: (Text, Text) -> Text, call: Call, snapshot: InstanceRegistry.Snapshot,
                 records: seq<ProfileRecord>, instance: Instance, record: ProfileRecord, l: Launch)
    requires call.RunCall? && call.matchId == record.opaqueId && record.opaqueId != NEW_ACTION_ID && record in records
    requires IsDue(opaqueProfileId, call, snapshot, Some((instance.id, records)), [], l) && IsSelected(snapshot, instance)
    requires forall a, b :: a in records && b in records && a.opaqueId == b.opaqueId ==> a == b
    ensures l == Connection(instance, record)
  {
    hide IsLaunchable, IsOpaqueProfileId, IsSelected, IsAbsolute;
    var r :| && Connects(snapshot, l, r, [])
             && IsConnectable(instance.id, records, call.matchId, call.directoryMatches, call.identityOf, opaqueProfileId, r);
    var selected :| && IsSelected(snapshot, selected)
                    && l == Launch(selected.executable, selected.launcherPrefix + [CONNECT_ARGUMENT, r.launchPath], []);
    SelectedIsUnique(snapshot, selected, instance);
  }

  /** After a search that listed what is there, a run connects to the record with the id. */
  method ConnectTo(service: Service, record: ProfileRecord, instance: Instance, identityOf: Text -> Option<Text>)
    returns (launched: Option<Launch>)
    requires service.Valid() && service.activationToken == [] && IsSelected(service.registry.snapshot, instance)
    requires service.catalog.IsFastFor(instance.id) && service.catalog.ListsWhatIsThere() && record in service.catalog.records
    requires IsTold(service.catalog.repository.system, service.catalog.repository.system.world(service.catalog.Now()),
                    service.catalog.cleanDirectory.value, service.catalog.cleanDirectoryFingerprint.value, true, identityOf,
                    service.opaqueProfileId)
    requires IsLaunchableRecord(instance, record)
    modifies service, service.catalog`sessionActive
    ensures launched == Some(Connection(instance, record))
  {
    hide IsTold, IsLaunchableRecord, IsSelected, IsStarted, IsConnectable;
    hide Catalog.Structured, Catalog.CleanIsWatched, Catalog.CleanWasGiven;
    hide Catalog.ListsWhatIsThere, TokensAreRight, AreRepeated;
    ghost var records := service.catalog.records;
    service.catalog.ListedResolve(true, identityOf, service.opaqueProfileId, record);
    forall a, b | a in records && b in records && a.opaqueId == b.opaqueId
      ensures a == b
    {
      service.catalog.CleanIdsAreUnambiguous(a, b);
    }
    TokenIsLatest(service.activationToken, service.history, service.launches);
    launched := service.Run(record.opaqueId, [], true, identityOf, true);
    ConnectionIsStarted(service.opaqueProfileId, RunCall(record.opaqueId, [], true, identityOf, true), service.registry.snapshot,
                        records, launched, instance, record);
  }

  lemma CalmIsLocated(system: ProfileLoading.System, clean: Text -> Option<Text>, instance: Text, t: nat)
    ensures CanBeWatched(system, clean, instance, t) ==> system.world(t).locate(instance).Located?
  {
  }

  /**
    From end to end.  If nothing fails and the file system does not change and can be watched, a search shows
    exactly the profiles that are there, can be read and match the words; and to whichever of them the user
    picks, a run connects the selected instance.
   */
  method SearchAndConnect(service: Service, query: Text, pick: nat, instance: Instance, identityOf: Text -> Option<Text>)
    returns (reply: Reply, launched: Option<Launch>)
    requires service.Valid() && service.IsFoundOut() && Parsed(service.fold, service.isSpace, query).Lookup?
    requires IsSelected(service.registry.snapshot, instance)
    requires var system, world := service.catalog.repository.system, service.catalog.repository.system.world(service.catalog.Now());
             var directory := world.locate(instance.id).location;
             && GivesIds(system, world, instance) && CanLaunch(instance, directory, world)
             && IsTold(system, world, directory, world.directories[directory.hostPath].fingerprint, true, identityOf,
                       service.opaqueProfileId)
    modifies service, service.catalog, service.catalog.watcher, service.catalog.repository
    ensures reply.Profiles?
    ensures var system, world := service.catalog.repository.system, service.catalog.repository.system.world(old(service.catalog.Now()));
            ShowsWhatIsThere(system, world, instance, world.locate(instance.id).location, service.fold, service.isSpace, query,
                             reply.matches)
    ensures pick < |reply.matches| ==> launched == Some(Connection(instance, reply.matches[pick].record))
  {
    hide IsTold, IdsAreUnique, CanLaunch, IsLaunchableRecord, IsSelected, Catalog.Structured, Catalog.CleanIsWatched;
    hide Catalog.CleanWasGiven, Catalog.ListsWhatIsThere, TokensAreRight, AreRepeated;
    hide ShowsAllOf, AreRecords, ProfileLoading.IsQuiet;
    hide PathsRise, Parsed, CanBeWatched, ShowsWhatIsThere, IsReply, ShowsAllMatches, Catalog.HitsAreDelivered;
    ghost var system, from := service.catalog.repository.system, service.catalog.Now();
    SelectedHasId(service.registry.snapshot, instance);
    CalmIsLocated(system, service.catalog.watcher.clean, instance.id, from);
    ghost var directory := system.world(from).locate(instance.id).location;
    reply := service.Match(query, true);
    QuietListIsComplete(service.catalog, instance.id, from);
    ghost var records := service.catalog.records;
    AllShownAreThere(system, system.world(from), instance, directory, records, service.fold, service.isSpace, query, reply.matches);
    launched := None;
    if pick < |reply.matches| {
      var record := reply.matches[pick].record;
      PickedCanBeLaunched(system, system.world(from), instance, directory, records, service.fold, service.isSpace, query,
                          reply.matches, pick);
      launched := ConnectTo(service, record, instance, identityOf);
    }
  }
}
