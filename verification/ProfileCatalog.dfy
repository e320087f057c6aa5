/**
  The catalog answers from a stored list while that list is known to be fresh.  It gets there in two
  steps, installing watches and then loading again, while files may change at any moment.
 */
module ProfileCatalog {
  import opened Bytes
  import opened ColdLoads
  import opened Hashing
  import opened Ordering
  import opened ParseWindows
  import opened ProfileLoading
  import opened ProfileRepository
  import opened ProfileTypes
  import opened ProfileWatcher
  import opened Wrappers

  // ---- What is watched ----

  function CleanedAll(clean: Text -> Option<Text>, paths: seq<Text>): Option<seq<Text>> {
    if paths == [] then Some([])
    else
      var before := CleanedAll(clean, paths[..|paths| - 1]);
      var last := clean(paths[|paths| - 1]);
      if before.Some? && last.Some? then Some(before.value + [last.value]) else None
  }

  /** The paths that are not in `seen`, each once. */
  function FirstNew(seen: set<Text>, paths: seq<Text>): seq<Text> {
    if paths == [] then []
    else
      var before, last := FirstNew(seen, paths[..|paths| - 1]), paths[|paths| - 1];
      if last in seen || last in before then before else before + [last]
  }

  function PathsOf(fingerprint: seq<FileFingerprint>): seq<Text> {
    seq(|fingerprint|, i requires 0 <= i < |fingerprint| => fingerprint[i].path)
  }

  /** The list of paths to watch: the directory, then the parents of its links, then the files, each part sorted. */
  function WatchList(clean: Text -> Option<Text>, directory: Location, directoryFingerprint: DirectoryFingerprint,
                     fingerprint: seq<FileFingerprint>): Option<seq<Text>> {
    var cleanDirectory := clean(directory.hostPath);
    var parents := CleanedAll(clean, directoryFingerprint.symlinkParentPaths);
    var files := CleanedAll(clean, PathsOf(fingerprint));
    if cleanDirectory == None || clean(directory.launchPath) == None || clean(directoryFingerprint.canonicalPath) == None ||
       directoryFingerprint.device == 0 || directoryFingerprint.inode == 0 || parents == None || files == None then None
    else
      var newParents := FirstNew({cleanDirectory.value}, parents.value);
      var newFiles := FirstNew({cleanDirectory.value} + (set p | p in newParents), files.value);
      Some([cleanDirectory.value] + Sort(newParents, TextLeq) + Sort(newFiles, TextLeq))
  }

  lemma CleanedGrows(clean: Text -> Option<Text>, paths: seq<Text>, k: nat)
    requires k < |paths| && CleanedAll(clean, paths[..k]).Some?
    ensures CleanedAll(clean, paths[..k + 1]) ==
            if clean(paths[k]).Some? then Some(CleanedAll(clean, paths[..k]).value + [clean(paths[k]).value]) else None
  {
    assert paths[..k + 1][..k] == paths[..k];
  }

  lemma NewGrows(seen: set<Text>, paths: seq<Text>, path: Text)
    ensures FirstNew(seen, paths + [path]) ==
            if path in seen || path in FirstNew(seen, paths) then FirstNew(seen, paths) else FirstNew(seen, paths) + [path]
  {
    assert (paths + [path])[..|paths|] == paths;
  }

  lemma NothingIsNew(clean: Text -> Option<Text>, seen: set<Text>)
    ensures CleanedAll(clean, []) == Some([]) && FirstNew(seen, []) == []
  {
  }

  /** The loop that appends to one part of the list. */
  method GatherNew(clean: Text -> Option<Text>, seen: set<Text>, paths: seq<Text>)
    returns (found: Option<seq<Text>>, seenPaths: set<Text>)
    ensures found == if CleanedAll(clean, paths).Some? then Some(FirstNew(seen, CleanedAll(clean, paths).value)) else None
    ensures found.Some? ==> forall p :: p in seenPaths <==> p in seen || p in found.value
  {
    hide CleanedAll, FirstNew;
    seenPaths := seen;
    var gathered: seq<Text> := [];
    NothingIsNew(clean, seen);
    assert paths[..0] == [];
    for k := 0 to |paths|
      invariant CleanedAll(clean, paths[..k]).Some?
      invariant gathered == FirstNew(seen, CleanedAll(clean, paths[..k]).value)
      invariant forall p :: p in seenPaths <==> p in seen || p in gathered
    {
      CleanedGrows(clean, paths, k);
      var cleanPath := clean(paths[k]);
      if cleanPath == None {
        UncleanStays(clean, paths, k);
        return None, seenPaths;
      }
      NewGrows(seen, CleanedAll(clean, paths[..k]).value, cleanPath.value);
      if cleanPath.value !in seenPaths {
        seenPaths := seenPaths + {cleanPath.value};
        gathered := gathered + [cleanPath.value];
      }
    }
    assert paths[..|paths|] == paths;
    return Some(gathered), seenPaths;
  }

  lemma {:induction false} UncleanStays(clean: Text -> Option<Text>, paths: seq<Text>, k: nat)
    requires k < |paths| && clean(paths[k]) == None
    ensures CleanedAll(clean, paths) == None
  {
    if k < |paths| - 1 {
      UncleanStays(clean, paths[..|paths| - 1], k);
    }
  }

  /** `watchPaths`. */
  method WatchPaths(clean: Text -> Option<Text>, directory: Location, directoryFingerprint: DirectoryFingerprint,
                    fingerprint: seq<FileFingerprint>) returns (r: Option<seq<Text>>)
    ensures r == WatchList(clean, directory, directoryFingerprint, fingerprint)
  {
    var cleanDirectory := clean(directory.hostPath);
    if cleanDirectory == None || clean(directory.launchPath) == None || clean(directoryFingerprint.canonicalPath) == None ||
       directoryFingerprint.device == 0 || directoryFingerprint.inode == 0 {
      return None;
    }
    var parents, seenPaths := GatherNew(clean, {cleanDirectory.value}, directoryFingerprint.symlinkParentPaths);
    if parents == None {
      return None;
    }
    assert seenPaths == {cleanDirectory.value} + set p | p in parents.value;
    var files, allPaths := GatherNew(clean, seenPaths, PathsOf(fingerprint));
    if files == None {
      return None;
    }
    return Some([cleanDirectory.value] + Sort(parents.value, TextLeq) + Sort(files.value, TextLeq));
  }

  // ---- What the list means ----

  lemma {:induction false} FirstNewExactly(seen: set<Text>, paths: seq<Text>)
    ensures forall p :: p in FirstNew(seen, paths) <==> p in paths && p !in seen
    ensures forall i, j :: 0 <= i < j < |FirstNew(seen, paths)| ==> FirstNew(seen, paths)[i] != FirstNew(seen, paths)[j]
  {
    if paths != [] {
      FirstNewExactly(seen, paths[..|paths| - 1]);
      assert paths == paths[..|paths| - 1] + [paths[|paths| - 1]];
    }
  }

  lemma {:induction false} CleanedExactly(clean: Text -> Option<Text>, paths: seq<Text>)
    ensures CleanedAll(clean, paths).Some? <==> forall i :: 0 <= i < |paths| ==> clean(paths[i]).Some?
    ensures CleanedAll(clean, paths).Some? ==>
              forall p :: p in CleanedAll(clean, paths).value <==> exists i :: 0 <= i < |paths| && clean(paths[i]) == Some(p)
  {
    if paths != [] {
      var before := paths[..|paths| - 1];
      CleanedExactly(clean, before);
      if CleanedAll(clean, paths).Some? {
        forall p | p in CleanedAll(clean, before).value
          ensures exists i :: 0 <= i < |paths| && clean(paths[i]) == Some(p)
        {
          var i :| 0 <= i < |before| && clean(before[i]) == Some(p);
          assert clean(paths[i]) == Some(p);
        }
        assert clean(paths[|paths| - 1]).Some?;
      }
    }
  }

  lemma SortHolds(s: seq<Text>)
    ensures forall p :: p in Sort(s, TextLeq) <==> p in s
  {
    forall p
      ensures p in Sort(s, TextLeq) <==> p in s
    {
      assert p in multiset(Sort(s, TextLeq)) <==> p in multiset(s);
    }
  }

  lemma FilesCleanedExactly(clean: Text -> Option<Text>, fingerprint: seq<FileFingerprint>)
    requires CleanedAll(clean, PathsOf(fingerprint)).Some?
    ensures forall p :: p in CleanedAll(clean, PathsOf(fingerprint)).value <==>
              exists i :: 0 <= i < |fingerprint| && clean(fingerprint[i].path) == Some(p)
  {
    var files := CleanedAll(clean, PathsOf(fingerprint)).value;
    CleanedExactly(clean, PathsOf(fingerprint));
    forall p
      ensures p in files <==> exists i :: 0 <= i < |fingerprint| && clean(fingerprint[i].path) == Some(p)
    {
      if p in files {
        var i :| 0 <= i < |PathsOf(fingerprint)| && clean(PathsOf(fingerprint)[i]) == Some(p);
        assert clean(fingerprint[i].path) == Some(p);
      }
      if i :| 0 <= i < |fingerprint| && clean(fingerprint[i].path) == Some(p) {
        assert clean(PathsOf(fingerprint)[i]) == Some(p);
      }
    }
  }

  lemma PartsHold(directory: Text, parents: seq<Text>, files: seq<Text>)
    ensures var newParents := FirstNew({directory}, parents);
            var newFiles := FirstNew({directory} + (set p | p in newParents), files);
            forall p :: p in [directory] + Sort(newParents, TextLeq) + Sort(newFiles, TextLeq) <==>
              p == directory || p in parents || p in files
  {
    hide FirstNew, Sort;
    var newParents := FirstNew({directory}, parents);
    var seen := {directory} + (set p | p in newParents);
    FirstNewExactly({directory}, parents);
    FirstNewExactly(seen, files);
    SortHolds(newParents);
    SortHolds(FirstNew(seen, files));
  }

  /** Watched are exactly the directory, the link parents and the profile files. */
  lemma WatchListExactly(clean: Text -> Option<Text>, directory: Location, directoryFingerprint: DirectoryFingerprint,
                         fingerprint: seq<FileFingerprint>)
    ensures var r := WatchList(clean, directory, directoryFingerprint, fingerprint);
            r.Some? ==>
              forall p :: p in r.value <==>
                || clean(directory.hostPath) == Some(p)
                || (exists i :: 0 <= i < |directoryFingerprint.symlinkParentPaths| &&
                                clean(directoryFingerprint.symlinkParentPaths[i]) == Some(p))
                || (exists i :: 0 <= i < |fingerprint| && clean(fingerprint[i].path) == Some(p))
  {
    hide CleanedAll, FirstNew, Sort, PathsOf;
    var r := WatchList(clean, directory, directoryFingerprint, fingerprint);
    if r.Some? {
      var d := clean(directory.hostPath).value;
      var parents := CleanedAll(clean, directoryFingerprint.symlinkParentPaths).value;
      var files := CleanedAll(clean, PathsOf(fingerprint)).value;
      PartsHold(d, parents, files);
      CleanedExactly(clean, directoryFingerprint.symlinkParentPaths);
      FilesCleanedExactly(clean, fingerprint);
    }
  }

  /** No path is watched twice; the directory comes first, then the link parents in order, then the files in order. */
  lemma WatchListOrder(clean: Text -> Option<Text>, directory: Location, directoryFingerprint: DirectoryFingerprint,
                       fingerprint: seq<FileFingerprint>) returns (n: nat)
    requires WatchList(clean, directory, directoryFingerprint, fingerprint).Some?
    ensures var paths := WatchList(clean, directory, directoryFingerprint, fingerprint).value;
            && AllDistinct(paths) && 1 <= n <= |paths| && Some(paths[0]) == clean(directory.hostPath)
            && IsSorted(paths[1..n], TextLeq) && IsSorted(paths[n..], TextLeq)
            && (forall p :: p in paths[1..n] ==> exists i :: 0 <= i < |directoryFingerprint.symlinkParentPaths| &&
                                                             clean(directoryFingerprint.symlinkParentPaths[i]) == Some(p))
            && (forall p :: p in paths[n..] ==> exists i :: 0 <= i < |fingerprint| && clean(fingerprint[i].path) == Some(p))
  {
    hide CleanedAll, FirstNew, Sort, PathsOf, TextLeq, IsSorted;
    var first := clean(directory.hostPath).value;
    var parents := CleanedAll(clean, directoryFingerprint.symlinkParentPaths).value;
    CleanedExactly(clean, directoryFingerprint.symlinkParentPaths);
    FilesCleanedExactly(clean, fingerprint);
    n := PartsInOrder(first, parents, CleanedAll(clean, PathsOf(fingerprint)).value);
  }

  /** The parts of the list are distinct and each in order. */
  lemma PartsInOrder(first: Text, parents: seq<Text>, files: seq<Text>) returns (n: nat)
    ensures var newParents := FirstNew({first}, parents);
            var newFiles := FirstNew({first} + (set p | p in newParents), files);
            var paths := [first] + Sort(newParents, TextLeq) + Sort(newFiles, TextLeq);
            && AllDistinct(paths) && 1 <= n <= |paths|
            && IsSorted(paths[1..n], TextLeq) && IsSorted(paths[n..], TextLeq)
            && (forall p :: p in paths[1..n] ==> p in parents) && (forall p :: p in paths[n..] ==> p in files)
  {
    hide FirstNew, Sort, TextLeq, IsSorted;
    var newParents := FirstNew({first}, parents);
    var newFiles := FirstNew({first} + (set p | p in newParents), files);
    FirstNewExactly({first}, parents);
    FirstNewExactly({first} + (set p | p in newParents), files);
    SortedParts(newParents);
    SortedParts(newFiles);
    n := 1 + |Sort(newParents, TextLeq)|;
    var paths := [first] + Sort(newParents, TextLeq) + Sort(newFiles, TextLeq);
    assert paths[1..n] == Sort(newParents, TextLeq) && paths[n..] == Sort(newFiles, TextLeq);
    DistinctParts(first, Sort(newParents, TextLeq), Sort(newFiles, TextLeq));
  }

  lemma DistinctParts(first: Text, a: seq<Text>, b: seq<Text>)
    requires AllDistinct(a) && AllDistinct(b) && first !in a && first !in b && forall p :: p in b ==> p !in a
    ensures AllDistinct([first] + a + b)
  {
    var all := [first] + a + b;
    forall i, j | 0 <= i < j < |all|
      ensures all[i] != all[j]
    {
      if j > |a| {
        assert all[j] == b[j - 1 - |a|] && all[j] in b;
        if i > |a| {
          assert all[i] == b[i - 1 - |a|];
        } else if i > 0 {
          assert all[i] == a[i - 1] && all[i] in a;
        }
      } else {
        assert all[j] == a[j - 1] && all[j] in a;
        assert i > 0 ==> all[i] == a[i - 1];
      }
    }
  }

  lemma SortedParts(s: seq<Text>)
    requires AllDistinct(s)
    ensures var sorted := Sort(s, TextLeq);
            IsSorted(sorted, TextLeq) && AllDistinct(sorted) && forall p :: p in sorted <==> p in s
  {
    hide TextLeq;
    TextLeqIsTotalOrder();
    SortSorts(s, TextLeq);
    SortHolds(s);
    DistinctKept(s, Sort(s, TextLeq));
  }

  /** The directory is at absolute paths, on a real device, and so are the parents of its links. */
  predicate IsWatchablePlace(clean: Text -> Option<Text>, directory: Location,
                             directoryFingerprint: DirectoryFingerprint) {
    && clean(directory.hostPath).Some? && clean(directory.launchPath).Some? && clean(directoryFingerprint.canonicalPath).Some?
    && directoryFingerprint.device > 0 && directoryFingerprint.inode > 0
    && forall parent :: parent in directoryFingerprint.symlinkParentPaths ==> clean(parent).Some?
  }

  /** There is a list of paths to watch exactly if the place and all files are at absolute paths, on a real device. */
  lemma WatchListExists(clean: Text -> Option<Text>, directory: Location, directoryFingerprint: DirectoryFingerprint,
                        fingerprint: seq<FileFingerprint>)
    ensures WatchList(clean, directory, directoryFingerprint, fingerprint).Some? <==>
              && IsWatchablePlace(clean, directory, directoryFingerprint)
              && forall file :: file in fingerprint ==> clean(file.path).Some?
  {
    hide CleanedAll, FirstNew, Sort;
    CleanedExactly(clean, directoryFingerprint.symlinkParentPaths);
    CleanedExactly(clean, PathsOf(fingerprint));
    assert forall i :: 0 <= i < |fingerprint| ==> PathsOf(fingerprint)[i] == fingerprint[i].path;
  }

  /** Two snapshots that agree in everything but their records. */
  predicate AreEquivalent(left: ProfileSnapshot, right: ProfileSnapshot) {
    && left.directory == right.directory && left.directoryFingerprint == right.directoryFingerprint
    && left.fingerprint == right.fingerprint
  }

  /** `equivalentSnapshot`. */
  method EquivalentSnapshot(left: ProfileSnapshot, right: ProfileSnapshot) returns (r: bool)
    ensures r <==> AreEquivalent(left, right)
  {
    if left.directory.hostPath != right.directory.hostPath || left.directory.launchPath != right.directory.launchPath ||
       left.directoryFingerprint != right.directoryFingerprint || |left.fingerprint| != |right.fingerprint| {
      return false;
    }
    for index := 0 to |left.fingerprint|
      invariant forall i :: 0 <= i < index ==> left.fingerprint[i] == right.fingerprint[i]
    {
      if left.fingerprint[index] != right.fingerprint[index] {
        return false;
      }
    }
    return true;
  }

  // ---- Loads and what a watcher sees ----

  /** What is clean already stays as it is. */
  ghost predicate IsIdempotent(clean: Text -> Option<Text>) {
    forall path, cleaned :: clean(path) == Some(cleaned) ==> clean(cleaned) == Some(cleaned)
  }

  function Watched(clean: Text -> Option<Text>, snapshot: ProfileSnapshot): Option<seq<Text>> {
    WatchList(clean, snapshot.directory, snapshot.directoryFingerprint, snapshot.fingerprint)
  }

  /** A sanitized snapshot from a load between two moments. */
  ghost predicate IsCandidate(system: System, instance: Text, candidate: ProfileSnapshot, from: nat, upto: nat) {
    exists loaded ::
      && IsLoad(system, instance, Loaded(loaded), from, upto)
      && candidate == loaded.(profiles := Sanitized(loaded.profiles))
  }

  /** The records of a load between two moments. */
  ghost predicate WereLoaded(system: System, instance: Text, records: seq<ProfileRecord>, from: nat, upto: nat) {
    exists candidate :: IsCandidate(system, instance, candidate, from, upto) && records == candidate.profiles
  }

  /** The error of a load between two moments. */
  ghost predicate HasFailed(system: System, instance: Text, error: CatalogError, from: nat, upto: nat) {
    exists failure :: IsLoad(system, instance, LoadFailed(failure), from, upto) && error == Mapped(failure)
  }

  /** `mapRepositoryError`. */
  function Mapped(error: RepositoryError): CatalogError {
    if error.UnreadableDirectory? then UnreadableProfiles else NoDirectory
  }

  /**
    The profiles of the instance are in a directory that can be read and is at absolute paths, on a real
    device, and so are the parents of its links and the files behind its profiles.
   */
  ghost predicate CanBeWatched(system: System, clean: Text -> Option<Text>, instance: Text, t: nat) {
    var world := system.world(t);
    var locating := world.locate(instance);
    && locating.Located? && locating.location.hostPath in world.directories
    && IsWatchablePlace(clean, locating.location, world.directories[locating.location.hostPath].fingerprint)
    && forall name, identity :: IsProfileOf(world, locating.location.hostPath, name, identity) ==> clean(identity).Some?
  }

  /** What is there can be loaded, and its paths watched, exactly if the world is so. */
  lemma WatchableExactly(system: System, clean: Text -> Option<Text>, instance: Text, unread: set<Text>,
                         r: LoadResult, t: nat)
    requires IsWhatIsThere(system, system.world(t), instance, unread, r)
    ensures CanBeWatched(system, clean, instance, t) <==> r.Loaded? && Watched(clean, r.snapshot).Some?
  {
    hide AreRecords, IsFirstName, IsProfileOf, WatchList, IsWatchablePlace;
    if r.Loaded? {
      var world := system.world(t);
      var location := world.locate(instance).location;
      var host, fingerprint := location.hostPath, r.snapshot.fingerprint;
      WatchListExists(clean, location, r.snapshot.directoryFingerprint, fingerprint);
      forall name, identity | IsProfileOf(world, host, name, identity)
        ensures exists file :: file in fingerprint && file.path == identity
      {
        ProfileIsFingerprinted(system, world, instance, location, unread, r.snapshot, name, identity);
      }
      forall file | file in fingerprint
        ensures exists name :: IsProfileOf(world, host, name, file.path)
      {
        FingerprintIsOfProfile(system, world, instance, location, unread, r.snapshot, file);
      }
    }
  }

  lemma ProfileIsFingerprinted(system: System, world: World, instance: Text, location: Location, unread: set<Text>,
                               snapshot: ProfileSnapshot, name: Text, identity: Text)
    requires IsSnapshotOf(system, world, instance, location, unread, snapshot)
    requires IsProfileOf(world, location.hostPath, name, identity)
    ensures exists file :: file in snapshot.fingerprint && file.path == identity
  {
    hide AreRecords, TextLeq;
    var host := location.hostPath;
    var names :| && AreFirstNames(world, host, names) && |snapshot.fingerprint| == |names|
                 && forall i :: 0 <= i < |names| ==> IsFingerprintOf(world, host, names[i], snapshot.fingerprint[i]);
    var first := FirstNameExists(world, host, name, identity, world.directories[host].targets.Keys);
    assert first in names;
    var i :| 0 <= i < |names| && names[i] == first;
    assert IsFingerprintOf(world, host, names[i], snapshot.fingerprint[i]);
    assert snapshot.fingerprint[i] in snapshot.fingerprint;
  }

  lemma FingerprintIsOfProfile(system: System, world: World, instance: Text, location: Location, unread: set<Text>,
                               snapshot: ProfileSnapshot, file: FileFingerprint)
    requires IsSnapshotOf(system, world, instance, location, unread, snapshot) && file in snapshot.fingerprint
    ensures exists name :: IsProfileOf(world, location.hostPath, name, file.path)
  {
    hide AreRecords, AreFirstNames, IsProfileOf;
    var names :| && AreFirstNames(world, location.hostPath, names) && |snapshot.fingerprint| == |names|
                 && forall i :: 0 <= i < |names| ==> IsFingerprintOf(world, location.hostPath, names[i], snapshot.fingerprint[i]);
    var i :| 0 <= i < |snapshot.fingerprint| && snapshot.fingerprint[i] == file;
    assert IsProfileOf(world, location.hostPath, names[i], file.path);
  }

  /** A load on a quiet file system gives what is there. */
  lemma QuietLoadIsWhatIsThere(system: System, instance: Text, r: LoadResult, from: nat, upto: nat)
    requires SignaturesAreFaithful(system) && !system.readsMayFail
    requires IsQuiet(system, from) && IsLoad(system, instance, r, from, upto)
    ensures IsFresh(system, instance, from, r) && IsWhatIsThere(system, system.world(from), instance, {}, r)
  {
    hide IsQuiet, IsAt, SignaturesAreFaithful, IsWhatIsThere;
    QuietLoad(system, instance, r, from, upto, from);
    ReliableIsWhatIsThere(system, instance, from, r);
  }

  /** On a quiet file system all loads give one candidate, which can be watched if the world is so. */
  lemma QuietCandidates(system: System, clean: Text -> Option<Text>, instance: Text, a: ProfileSnapshot, from: nat,
                        upto: nat)
    requires SignaturesAreFaithful(system) && !system.readsMayFail
    requires IsQuiet(system, from) && IsCandidate(system, instance, a, from, upto)
    ensures CanBeWatched(system, clean, instance, from) <==> Watched(clean, a).Some?
    ensures forall b, later :: IsCandidate(system, instance, b, from, later) ==> b == a
  {
    hide IsQuiet, IsAt, WatchList, Sanitized, CanBeWatched, SignaturesAreFaithful, IsWhatIsThere;
    var loaded :| IsLoad(system, instance, Loaded(loaded), from, upto) && a == loaded.(profiles := Sanitized(loaded.profiles));
    QuietLoadIsWhatIsThere(system, instance, Loaded(loaded), from, upto);
    WatchableExactly(system, clean, instance, {}, Loaded(loaded), from);
    forall other, later | IsLoad(system, instance, Loaded(other), from, later)
      ensures other == loaded
    {
      QuietLoad(system, instance, Loaded(other), from, later, from);
      FreshIsUnique(system, instance, from, Loaded(other), Loaded(loaded));
    }
  }

  /** On a quiet file system that can be watched, no load fails. */
  lemma QuietLoadsSucceed(system: System, clean: Text -> Option<Text>, instance: Text, r: LoadResult, from: nat,
                          upto: nat)
    requires SignaturesAreFaithful(system) && !system.readsMayFail
    requires IsQuiet(system, from) && CanBeWatched(system, clean, instance, from) && IsLoad(system, instance, r, from, upto)
    ensures r.Loaded?
  {
    hide IsQuiet, IsAt, WatchList, CanBeWatched, SignaturesAreFaithful, IsWhatIsThere;
    QuietLoadIsWhatIsThere(system, instance, r, from, upto);
    WatchableExactly(system, clean, instance, {}, r, from);
  }

  /** Some watched path was touched in this time. */
  predicate IsHit(touched: nat -> set<Text>, watched: set<Text>, from: nat, upto: nat) {
    exists t: nat, p :: from <= t < upto && p in watched && p in touched(t)
  }

  /** After it was given, the answer at `k` stopped being one that may be given at `t`, and no watched path was touched. */
  ghost predicate IsMissedChange(system: System, touched: nat -> set<Text>, instance: Text, answers: seq<Finding>,
                                 times: seq<nat>, watched: set<Text>, k: nat, t: nat)
    requires |answers| == |times|
  {
    && k < |answers| && times[k] <= t && (forall p :: p in watched ==> p !in touched(t))
    && var question := NextQuestion(system, instance, answers[..k]);
       && question.Some? && IsAnswered(system, t, question.value, answers[k])
       && !IsAnswered(system, t + 1, question.value, answers[k])
  }

  /** Some answer has changed since it was given without touching a watched path. */
  ghost predicate WasMissed(system: System, touched: nat -> set<Text>, instance: Text, answers: seq<Finding>,
                            times: seq<nat>,
                            watched: set<Text>, now: nat)
    requires |answers| == |times|
  {
    exists k: nat, t: nat :: t < now && IsMissedChange(system, touched, instance, answers, times, watched, k, t)
  }

  /** An answer may still be given while no watched path is touched and no change is missed. */
  lemma {:induction false} AnswerPersists(system: System, touched: nat -> set<Text>, instance: Text,
                                          answers: seq<Finding>,
                                          times: seq<nat>, watched: set<Text>, k: nat, t: nat, now: nat)
    requires AreAnswers(system, instance, answers, times) && k < |answers| && times[k] <= t <= now
    requires !IsHit(touched, watched, times[k], now) && !WasMissed(system, touched, instance, answers, times, watched, now)
    ensures NextQuestion(system, instance, answers[..k]).Some?
    ensures IsAnswered(system, t, NextQuestion(system, instance, answers[..k]).value, answers[k])
    decreases t
  {
    hide IsAnswered, NextQuestion;
    assert IsAnswer(system, instance, answers, times, k);
    if t > times[k] {
      AnswerPersists(system, touched, instance, answers, times, watched, k, t - 1, now);
      assert forall p :: p in watched ==> p !in touched(t - 1);
      assert !IsMissedChange(system, touched, instance, answers, times, watched, k, t - 1);
    }
  }

  lemma HitsNarrow(touched: nat -> set<Text>, watched: set<Text>, since: nat, later: nat, now: nat)
    requires since <= later && !IsHit(touched, watched, since, now)
    ensures !IsHit(touched, watched, later, now)
  {
    assert forall t: nat, p :: later <= t < now && p in watched ==> p !in touched(t);
  }

  /**
    The heart of the matter: answers gathered at any moments after the watches were installed, while files
    kept changing, are the answers of a fresh load, as long as no watched path was touched since, unless one
    of these very answers changed without touching one.
   */
  lemma UntouchedIsFresh(system: System, touched: nat -> set<Text>, instance: Text, r: LoadResult,
                         answers: seq<Finding>,
                         times: seq<nat>, watched: set<Text>, since: nat, now: nat)
    requires AreAnswers(system, instance, answers, times) && Through(system, instance, answers) == Done(r)
    requires AllWithin(times, since, now) && !IsHit(touched, watched, since, now)
    ensures || (IsFresh(system, instance, now, r) && AreAnswers(system, instance, answers, AllAt(answers, now)))
            || WasMissed(system, touched, instance, answers, times, watched, now)
  {
    hide WasMissed, IsHit, IsAnswered, NextQuestion, Through, AreInOrder;
    if !WasMissed(system, touched, instance, answers, times, watched, now) {
      forall k | 0 <= k < |answers|
        ensures IsAnswer(system, instance, answers, AllAt(answers, now), k)
      {
        HitsNarrow(touched, watched, since, times[k], now);
        AnswerPersists(system, touched, instance, answers, times, watched, k, now, now);
      }
      AnswersAreFresh(system, instance, answers, now, r);
    }
  }

  // ---- What the catalog answers ----

  datatype CatalogError = NoDirectory | UnreadableProfiles

  datatype CatalogResult = Answer(records: seq<ProfileRecord>) | Error(error: CatalogError) | Threw

  /**
    What a clean list rests on: the snapshot last loaded and the answers behind it, the paths watched
    meanwhile and since when, and the refresh it was loaded in, with the state of the cache at its beginning.
   */
  datatype Basis = Basis(snapshot: ProfileSnapshot, answers: seq<Finding>, times: seq<nat>, watched: set<Text>, since: nat,
                         from: nat, upto: nat, wasSound: bool)

  /** One answer of `records`: without loading, from a clean list, or after loading. */
  datatype Given =
    | FromClean(instance: Text, records: seq<ProfileRecord>, at: nat, basis: Basis, wereDelivered: bool)
    | FromLoads(instance: Text, result: CatalogResult, from: nat, upto: nat, wasSound: bool)

  function ResultOf(given: Given): CatalogResult {
    if given.FromClean? then Answer(given.records) else given.result
  }

  /** What was loaded between two moments can be relied on: the cache held nothing wrong, and no entry deceived. */
  ghost predicate IsHonest(system: System, instance: Text, from: nat, upto: nat, wasSound: bool) {
    wasSound && IsUndeceived(system, instance, from, upto)
  }

  /** The snapshot's own paths were watched, and all its answers were given after that. */
  ghost predicate IsBasis(system: System, clean: Text -> Option<Text>, instance: Text, basis: Basis) {
    && basis.from <= basis.since <= basis.upto
    && Watched(clean, basis.snapshot).Some? && basis.watched == (set p | p in Watched(clean, basis.snapshot).value)
    && (IsHonest(system, instance, basis.from, basis.upto, basis.wasSound) ==>
          LeadTo(system, instance, basis.answers, basis.times, Done(Loaded(basis.snapshot)), basis.since, basis.upto))
  }

  /** A change of an answer behind the snapshot touched no watched path. */
  ghost predicate ChangeWasMissed(system: System, touched: nat -> set<Text>, instance: Text, basis: Basis, at: nat) {
    |basis.answers| == |basis.times| && WasMissed(system, touched, instance, basis.answers, basis.times, basis.watched, at)
  }

  /** The snapshot is what there is to load at this moment, but for exactly the records of files that could not be read then. */
  ghost predicate IsStillFresh(system: System, instance: Text, basis: Basis, at: nat) {
    && IsFresh(system, instance, at, Loaded(basis.snapshot))
    && IsWhatIsThere(system, system.world(at), instance, Unread(system, instance, basis.answers, at), Loaded(basis.snapshot))
    && (!system.readsMayFail ==> Unread(system, instance, basis.answers, at) == {})
  }

  /**
    What may be said of an answer.  After loading it is what a load in this time may give.  Without loading it
    is still fresh, if every touch of a watched path has been delivered, or else a change was missed.
   */
  ghost predicate IsJustified(system: System, clean: Text -> Option<Text>, touched: nat -> set<Text>, given: Given) {
    match given
    case FromLoads(instance, result, from, upto, wasSound) =>
      IsHonest(system, instance, from, upto, wasSound) ==> CameFromLoads(system, instance, result, from, upto)
    case FromClean(instance, records, at, basis, wereDelivered) =>
      && IsBasis(system, clean, instance, basis) && records == Sanitized(basis.snapshot.profiles)
      && (wereDelivered && IsHonest(system, instance, basis.from, basis.upto, basis.wasSound) ==>
            IsStillFresh(system, instance, basis, at) || ChangeWasMissed(system, touched, instance, basis, at))
  }

  ghost predicate CameFromLoads(system: System, instance: Text, result: CatalogResult, from: nat, upto: nat) {
    match result
    case Answer(records) => WereLoaded(system, instance, records, from, upto)
    case Error(error) => HasFailed(system, instance, error, from, upto)
    case Threw => true
  }

  /** The answer that fits what is there. */
  ghost predicate TellsWhatIsThere(system: System, world: World, instance: Text, r: CatalogResult) {
    match world.locate(instance)
    case NotFound => r == Error(NoDirectory)
    case Unreadable => r == Error(UnreadableProfiles)
    case Located(location) =>
      if location.hostPath in world.directories
      then r.Answer? && exists snapshot ::
             IsSnapshotOf(system, world, instance, location, {}, snapshot) && r.records == Sanitized(snapshot.profiles)
      else r == Error(UnreadableProfiles)
  }

  /** On a quiet file system an answer from loads, records or error, fits what is there. */
  lemma QuietAnswerTells(system: System, instance: Text, r: CatalogResult, from: nat, upto: nat)
    requires SignaturesAreFaithful(system) && !system.readsMayFail && IsQuiet(system, from)
    requires CameFromLoads(system, instance, r, from, upto) && r != Threw
    ensures TellsWhatIsThere(system, system.world(from), instance, r)
  {
    hide IsQuiet, IsAt, SignaturesAreFaithful, IsSnapshotOf, Sanitized;
    match r
    case Answer(records) =>
      var candidate :| IsCandidate(system, instance, candidate, from, upto) && records == candidate.profiles;
      var loaded :| && IsLoad(system, instance, Loaded(loaded), from, upto)
                    && candidate == loaded.(profiles := Sanitized(loaded.profiles));
      QuietLoadIsWhatIsThere(system, instance, Loaded(loaded), from, upto);
    case Error(error) =>
      var failure :| IsLoad(system, instance, LoadFailed(failure), from, upto) && error == Mapped(failure);
      QuietLoadIsWhatIsThere(system, instance, LoadFailed(failure), from, upto);
  }

  /** A clean list with this basis is the one that was last answered. */
  predicate IsRepeatedIn(last: Given, instance: Text, records: seq<ProfileRecord>, basis: Basis) {
    && last.instance == instance && ResultOf(last) == Answer(records)
    && match last
       case FromClean(_, _, at, b, _) => b == basis
       case FromLoads(_, _, from, upto, wasSound) => from == basis.from && upto == basis.upto && wasSound == basis.wasSound
  }

  /** Answers without loading repeat the answer before them, back to the loads that it came from. */
  predicate AreRepeated(log: seq<Given>, from: nat) {
    forall i: nat :: from <= i < |log| && log[i].FromClean? ==>
      i > 0 && IsRepeatedIn(log[i - 1], log[i].instance, log[i].records, log[i].basis)
  }

  /** An answer without loading comes from loads that were once answered for this instance, with the same records. */
  lemma {:induction false} RepeatedWasLoaded(log: seq<Given>, i: nat)
    requires AreRepeated(log, 0) && i < |log| && log[i].FromClean?
    ensures exists j: nat :: j < i && log[j] ==
              FromLoads(log[i].instance, Answer(log[i].records), log[i].basis.from, log[i].basis.upto, log[i].basis.wasSound)
  {
    var last := log[i - 1];
    assert IsRepeatedIn(last, log[i].instance, log[i].records, log[i].basis);
    if last.FromClean? {
      RepeatedWasLoaded(log, i - 1);
    }
  }

  /** What a basis rests on is still fresh if no watched path was touched, unless a change was missed. */
  lemma BasisStaysFresh(system: System, clean: Text -> Option<Text>, touched: nat -> set<Text>, instance: Text,
                        basis: Basis,
                        now: nat)
    requires SignaturesAreFaithful(system) && IsBasis(system, clean, instance, basis) && basis.upto <= now
    requires IsHonest(system, instance, basis.from, basis.upto, basis.wasSound)
    requires !IsHit(touched, basis.watched, basis.since, now)
    ensures IsStillFresh(system, instance, basis, now) || ChangeWasMissed(system, touched, instance, basis, now)
  {
    hide IsHit, IsAt, WasMissed, AreAnswers, Through, AreInOrder, IsUndeceived;
    hide SignaturesAreFaithful, IsWhatIsThere, Unread, Watched;
    SameLength(system, instance, basis.answers, basis.times);
    UntouchedIsFresh(system, touched, instance, Loaded(basis.snapshot), basis.answers, basis.times, basis.watched, basis.since, now);
    if !ChangeWasMissed(system, touched, instance, basis, now) {
      FreshIsWhatIsThere(system, instance, basis.answers, now, Loaded(basis.snapshot));
    }
  }

  // ---- The catalog ----

  datatype Installing = Installed | NotInstalled | InstallThrew

  /** How one round of installing and verifying ends. */
  datatype Round = Ended(result: CatalogResult) | Committed | GaveUp | Again(verified: ProfileSnapshot)

  /** A record of the list with this id, whose source is still the file that the id was made of. */
  predicate IsConnectable(instance: Text, records: seq<ProfileRecord>, opaqueId: Text, directoryMatches: bool,
                          identityOf: Text -> Option<Text>, opaqueProfileId: (Text, Text) -> Text, record: ProfileRecord)
  {
    && directoryMatches && record in records && record.opaqueId == opaqueId
    && var identity := identityOf(record.sourcePath);
       identity.Some? && opaqueProfileId(instance, identity.value) == opaqueId
  }

  /** What is asked before connecting is answered as the directory shows it. */
  ghost predicate IsTold(system: System, world: World, directory: Location, fingerprint: DirectoryFingerprint,
                         directoryMatches: bool, identityOf: Text -> Option<Text>, opaqueProfileId: (Text, Text) -> Text)
  {
    && (directoryMatches <==>
          && directory.hostPath in world.directories
          && var current := world.directories[directory.hostPath].fingerprint;
             && current.canonicalPath == fingerprint.canonicalPath && current.device == fingerprint.device
             && current.inode == fingerprint.inode)
    && (forall name :: FileAt(world, directory.hostPath, name).Some? ==>
          identityOf(directory.hostPath + [0x2F] + name) == Some(FileAt(world, directory.hostPath, name).value.identity))
    && forall instance, identity :: opaqueProfileId(instance, identity) == OpaqueProfileId(system.sha, instance, identity)
  }

  /** Each record of what is there can be connected to. */
  lemma RecordIsConnectable(system: System, world: World, instance: Text, snapshot: ProfileSnapshot,
                            directoryMatches: bool,
                            identityOf: Text -> Option<Text>, opaqueProfileId: (Text, Text) -> Text, record: ProfileRecord)
    requires IsWhatIsThere(system, world, instance, {}, Loaded(snapshot)) && record in Sanitized(snapshot.profiles)
    requires IsTold(system, world, snapshot.directory, snapshot.directoryFingerprint, directoryMatches, identityOf, opaqueProfileId)
    ensures IsConnectable(instance, Sanitized(snapshot.profiles), record.opaqueId, directoryMatches, identityOf, opaqueProfileId,
                          record)
  {
    hide Sanitized, OpaqueProfileId, TextLeq, PathsRise, AreFirstNames;
    SanitizedExactly(snapshot.profiles, record, record);
    var name, identity := FileOfRecord(system, world, instance, snapshot.directory, {}, record);
    assert FileAt(world, snapshot.directory.hostPath, name).value.identity == identity;
  }

  datatype CatalogCall = EndSessionCall | ResetCall | MarkDirtyCall | RecordsCall(instance: Text)

  /** Who is asked for, in the order of the calls. */
  function Asked(calls: seq<CatalogCall>): seq<Text> {
    if calls == [] then []
    else
      var last := calls[|calls| - 1];
      Asked(calls[..|calls| - 1]) + if last.RecordsCall? then [last.instance] else []
  }

  /** Each question got its answer, which was logged, when all touches of watched paths had been delivered. */
  ghost predicate AreAnswered(calls: seq<CatalogCall>, results: seq<CatalogResult>, log: seq<Given>) {
    && |results| == |log| == |Asked(calls)|
    && forall i :: 0 <= i < |log| ==>
         && log[i].instance == Asked(calls)[i] && ResultOf(log[i]) == results[i]
         && (log[i].FromClean? ==> log[i].wereDelivered)
  }

  /** No entry deceived during the loads since `n`. */
  ghost predicate AllHonest(system: System, log: seq<Given>, n: nat) {
    forall i :: n <= i < |log| && log[i].FromLoads? ==> IsUndeceived(system, log[i].instance, log[i].from, log[i].upto)
  }

  /** All loads since `n` began with a cache that held nothing wrong. */
  predicate AllSound(log: seq<Given>, n: nat) {
    forall i :: n <= i < |log| && log[i].FromLoads? ==> log[i].wasSound
  }

  lemma NothingAnswered(log: seq<Given>)
    ensures AreAnswered([], [], []) && AreRepeated(log, |log|) && AllSound(log, |log|)
  {
  }

  lemma OtherCall(calls: seq<CatalogCall>, results: seq<CatalogResult>, log: seq<Given>, call: CatalogCall)
    requires AreAnswered(calls, results, log) && !call.RecordsCall?
    ensures AreAnswered(calls + [call], results, log)
  {
    assert (calls + [call])[..|calls|] == calls;
  }

  lemma OneMoreAnswered(calls: seq<CatalogCall>, results: seq<CatalogResult>, log: seq<Given>, instance: Text,
                        r: CatalogResult, given: Given)
    requires AreAnswered(calls, results, log) && given.instance == instance && ResultOf(given) == r
    requires given.FromClean? ==> given.wereDelivered
    ensures AreAnswered(calls + [RecordsCall(instance)], results + [r], log + [given])
  {
    assert (calls + [RecordsCall(instance)])[..|calls|] == calls;
  }

  lemma RepeatedGrow(log: seq<Given>, n: nat, given: Given)
    requires n <= |log| && AreRepeated(log, n) && AreRepeated(log + [given], |log|)
    ensures AreRepeated(log + [given], n)
  {
    hide IsRepeatedIn;
    var more := log + [given];
    forall i: nat | n <= i < |more| && more[i].FromClean?
      ensures i > 0 && IsRepeatedIn(more[i - 1], more[i].instance, more[i].records, more[i].basis)
    {
      if i < |log| {
        assert more[i] == log[i];
        assert i > 0 && IsRepeatedIn(log[i - 1], log[i].instance, log[i].records, log[i].basis);
        assert more[i - 1] == log[i - 1];
      }
    }
  }

  lemma SoundnessGrows(system: System, log: seq<Given>, n: nat, given: Given)
    requires n <= |log|
    ensures AllHonest(system, log + [given], n) <==>
              AllHonest(system, log, n) && (given.FromLoads? ==> IsUndeceived(system, given.instance, given.from, given.upto))
    ensures AllSound(log + [given], n) <==> AllSound(log, n) && (given.FromLoads? ==> given.wasSound)
  {
    hide IsUndeceived;
    var more := log + [given];
    assert more[|log|] == given;
    assert forall i :: n <= i < |log| ==> more[i] == log[i];
  }

  class Catalog {
    const repository: Repository
    const watcher: Watcher
    const touched: nat -> set<Text>        // the paths that are touched between a moment and the next

    var records: seq<ProfileRecord>
    var cleanDirectory: Option<Location>
    var cleanDirectoryFingerprint: Option<DirectoryFingerprint>
    var selectedInstanceId: Text
    var hasSelectedInstance: bool
    var sessionActive: bool
    var dirty: bool
    var hasCleanSnapshot: bool
    var activeLifetime: Option<Callback>   // the callback whose lifetime is active
    var nextCallback: Callback

    // Since when the paths are watched, which is the kernel's to know; what the clean snapshot rests on; and what was answered.
    var watchedSince: nat
    ghost var basis: Basis
    ghost var log: seq<Given>
    ghost var loads: nat                   // how often the repository was asked

    constructor (repository: Repository, clean: Text -> Option<Text>, touched: nat -> set<Text>)
      requires repository.Valid()
      requires IsIdempotent(clean)
      ensures this.repository == repository && this.touched == touched && Valid() && fresh(watcher) && watcher.clean == clean
      ensures !hasSelectedInstance && !hasCleanSnapshot && log == [] && loads == 0 && records == [] && cleanDirectory == None
      ensures cleanDirectoryFingerprint == None && !sessionActive && !dirty && activeLifetime == None
    {
      hide Repository.Valid, IsIdempotent, IsBasis, IsRepeatedIn;
      this.repository, this.touched := repository, touched;
      watcher := new Watcher(clean);
      records, cleanDirectory, cleanDirectoryFingerprint := [], None, None;
      selectedInstanceId, hasSelectedInstance, sessionActive, dirty, hasCleanSnapshot := [], false, false, false, false;
      activeLifetime, nextCallback := None, 0;
      log, watchedSince, loads := [], 0, 0;
    }

    function Now(): nat
      reads repository`now
    {
      repository.now
    }

    /** Callback numbers are new ones, and a live callback of the watcher is the active one. */
    ghost predicate Structured()
      reads this, watcher, repository
    {
      && repository.Valid() && watchedSince <= Now()
      && IsIdempotent(watcher.clean)
      && (watcher.callback.Some? ==> watcher.callback.value < nextCallback)
      && (activeLifetime.Some? ==> activeLifetime.value < nextCallback)
    }

    /** The clean snapshot's own paths were watched when it was loaded, and are still, unless it is dirty. */
    ghost predicate CleanIsWatched()
      reads this, watcher, repository
    {
      hasCleanSnapshot ==>
        && hasSelectedInstance && records == Sanitized(basis.snapshot.profiles)
        && cleanDirectory == Some(basis.snapshot.directory)
        && cleanDirectoryFingerprint == Some(basis.snapshot.directoryFingerprint)
        && IsBasis(repository.system, watcher.clean, selectedInstanceId, basis) && basis.upto <= Now()
        && (!dirty ==>
              && activeLifetime.Some? && watcher.callback == activeLifetime
              && watcher.watched == basis.watched && watchedSince == basis.since)
    }

    /** What would be answered without loading is what was last answered. */
    ghost predicate CleanWasGiven()
      reads this
    {
      hasCleanSnapshot ==> log != [] && IsRepeatedIn(log[|log| - 1], selectedInstanceId, records, basis)
    }

    ghost predicate Valid()
      reads this, watcher, repository
    {
      Structured() && CleanIsWatched() && CleanWasGiven()
    }

    /** Whether the next call for this instance is answered without loading. */
    ghost predicate IsFastFor(instance: Text)
      reads this
    {
      hasSelectedInstance && selectedInstanceId == instance && hasCleanSnapshot && sessionActive && !dirty
    }

    /** A watched path was touched since the watches were installed. */
    ghost predicate IsHitNow()
      reads this, watcher, repository`now
    {
      watcher.callback.Some? && IsHit(touched, watcher.watched, watchedSince, Now())
    }

    /** Every touch of a watched path has reached its callback. */
    ghost predicate HitsAreDelivered()
      reads this, watcher, repository`now
    {
      hasCleanSnapshot && IsHitNow() ==> dirty
    }

    /** The list is that of a snapshot that holds all that is there. */
    ghost predicate ListsWhatIsThere()
      reads this`records, this`selectedInstanceId, this`cleanDirectory, this`cleanDirectoryFingerprint, repository`now
    {
      exists snapshot ::
        && IsWhatIsThere(repository.system, repository.system.world(Now()), selectedInstanceId, {}, Loaded(snapshot))
        && records == Sanitized(snapshot.profiles)
        && cleanDirectory == Some(snapshot.directory) && cleanDirectoryFingerprint == Some(snapshot.directoryFingerprint)
    }

    /** What would be answered now without loading. */
    ghost function FromCleanNow(): Given
      reads this, watcher, repository`now
    {
      FromClean(selectedInstanceId, records, Now(), basis, HitsAreDelivered())
    }

    /** Whether what was loaded since `from` can be relied on. */
    ghost predicate IsHonestSince(instance: Text, from: nat, wasSound: bool)
      reads repository`now
    {
      IsHonest(repository.system, instance, from, Now(), wasSound)
    }

    /** As long as no entry deceives, the cache stays sound. */
    ghost predicate StaysSound(instance: Text, from: nat, wasSound: bool)
      reads repository
    {
      from <= Now() && (IsHonestSince(instance, from, wasSound) ==> repository.IsSoundFor(instance))
    }

    /** `markDirty`. */
    method MarkDirty()
      modifies this`dirty
      ensures dirty && (old(Valid()) ==> Valid())
    {
      hide Repository.Valid, IsIdempotent, IsBasis, IsRepeatedIn;
      dirty := true;
    }

    /** The callback numbered `callback` runs: it does something only while its lifetime is the active one. */
    method RunCallback(callback: Callback)
      modifies this`dirty
      ensures dirty == (old(dirty) || activeLifetime == Some(callback)) && (old(Valid()) ==> Valid())
    {
      hide Structured, CleanIsWatched;
      if activeLifetime == Some(callback) {
        MarkDirty();
      }
    }

    /** A signal arrives for a handler installed at `installedGeneration`, present or past. */
    method Signal(installedGeneration: nat)
      modifies this`dirty
      ensures old(Valid()) ==> Valid()
      ensures dirty == (old(dirty) || (installedGeneration == watcher.generation && watcher.callback.Some? &&
                                       activeLifetime == watcher.callback))
    {
      hide Repository.Valid, IsIdempotent, IsBasis, IsRepeatedIn;
      var run := watcher.OnChanged(installedGeneration);
      if run.Some? {
        RunCallback(run.value);
      }
    }

    /**
      The event loop turns between two calls: time passes, files change, signals for present and past
      handlers arrive, and by the end every touch of a watched path has been signalled.
     */
    method TurnEventLoop()
      requires Valid()
      modifies repository`now, this`dirty
      ensures Valid() && HitsAreDelivered() && Now() >= old(Now()) && (old(dirty) ==> dirty)
    {
      hide Repository.Valid, IsIdempotent, IsBasis, IsRepeatedIn;
      hide IsBasis, IsHit;
      var outdated: int := *;
      repository.Tick();
      Signal(if outdated > 0 then outdated else 0);
      var spurious: bool := *;
      if spurious || IsHit(touched, watcher.watched, watchedSince, Now()) {
        Signal(watcher.generation);
      }
    }

    // ---- Its own steps ----

    method DeactivateCallback()
      modifies this`activeLifetime
      ensures activeLifetime == None
    {
      activeLifetime := None;
    }

    /** `clearWatcherNoexcept`: the watcher may throw instead, and then keeps its callback. */
    method ClearWatcher(flawless: bool)
      modifies watcher
      ensures watcher.callback == None || (watcher.callback == old(watcher.callback) && !flawless)
    {
      var throws: bool := *;
      if !throws || flawless {
        watcher.Clear();
      }
    }

    method ClearSnapshotAndWatches(flawless: bool)
      requires Structured()
      modifies this`records, this`cleanDirectory, this`cleanDirectoryFingerprint, this`hasCleanSnapshot,
               this`activeLifetime, watcher
      ensures Structured() && records == [] && !hasCleanSnapshot && activeLifetime == None
      ensures flawless ==> watcher.callback == None
      ensures cleanDirectory == None && cleanDirectoryFingerprint == None
    {
      hide Repository.Valid, IsIdempotent, IsBasis, IsRepeatedIn;
      records, cleanDirectory, cleanDirectoryFingerprint, hasCleanSnapshot := [], None, None, false;
      DeactivateCallback();
      ClearWatcher(flawless);
    }

    method AbandonRefresh(flawless: bool)
      requires Structured()
      modifies this`hasCleanSnapshot, this`dirty, this`activeLifetime, watcher
      ensures Structured() && IsGivenUp(flawless)
    {
      hide Repository.Valid, IsIdempotent, IsBasis, IsRepeatedIn;
      hasCleanSnapshot, dirty := false, true;
      DeactivateCallback();
      ClearWatcher(flawless);
    }

    method RepositoryFailed(error: RepositoryError, instance: Text, flawless: bool) returns (r: CatalogResult)
      requires Structured()
      modifies this, watcher
      ensures Structured() && watchedSince == old(watchedSince) && log == old(log) && loads == old(loads)
      ensures records == [] && !hasCleanSnapshot && selectedInstanceId == instance && hasSelectedInstance
      ensures sessionActive && dirty && r == Error(Mapped(error))
      ensures IsGivenUp(flawless)
    {
      hide Repository.Valid, IsIdempotent, IsBasis, IsRepeatedIn;
      ClearSnapshotAndWatches(flawless);
      selectedInstanceId, hasSelectedInstance, sessionActive, dirty := instance, true, true, true;
      return Error(Mapped(error));
    }

    lemma WatchListIsClean(snapshot: ProfileSnapshot)
      requires Structured() && Watched(watcher.clean, snapshot).Some?
      ensures watcher.AreClean(Watched(watcher.clean, snapshot).value) && Watched(watcher.clean, snapshot).value != []
    {
      var paths := Watched(watcher.clean, snapshot).value;
      WatchListExactly(watcher.clean, snapshot.directory, snapshot.directoryFingerprint, snapshot.fingerprint);
      forall i | 0 <= i < |paths|
        ensures watcher.clean(paths[i]) == Some(paths[i])
      {
        assert paths[i] in paths;
      }
    }

    /** `installWatches`: the snapshot's own paths are watched for a new callback, as of now. */
    method InstallWatches(snapshot: ProfileSnapshot, flawless: bool) returns (r: Installing)
      requires Structured() && !hasCleanSnapshot
      modifies this`activeLifetime, this`nextCallback, this`dirty, this`watchedSince, watcher
      ensures Structured()
      ensures r.Installed? ==>
                && !dirty && activeLifetime.Some? && watcher.callback == activeLifetime && watchedSince == Now()
                && Watched(watcher.clean, snapshot).Some?
                && watcher.watched == set p | p in Watched(watcher.clean, snapshot).value
      ensures r.NotInstalled? ==> dirty && activeLifetime == None && (flawless ==> watcher.callback == None)
      ensures flawless ==> r == if Watched(watcher.clean, snapshot).Some? then Installed else NotInstalled
    {
      hide Repository.Valid, IsIdempotent, IsBasis, IsRepeatedIn;
      hide WatchList;
      var paths := WatchPaths(watcher.clean, snapshot.directory, snapshot.directoryFingerprint, snapshot.fingerprint);
      if paths == None {
        DeactivateCallback();
        ClearWatcher(flawless);
        dirty := true;
        return NotInstalled;
      }
      DeactivateCallback();
      activeLifetime := Some(nextCallback);
      nextCallback := nextCallback + 1;
      dirty := false;
      var throws: bool := *;
      if throws && !flawless {
        return InstallThrew;
      }
      WatchListIsClean(snapshot);
      watcher.CleanStays(paths.value);
      var installed := watcher.ReplacePaths(paths.value, activeLifetime.value, flawless);
      watchedSince := repository.now;
      if !installed {
        DeactivateCallback();
        dirty := true;
        return NotInstalled;
      }
      return Installed;
    }

    /** The repository loads, during which signals may arrive; `None` is an exception. */
    method LoadRepository(instance: Text, flawless: bool, ghost from: nat, ghost wasSound: bool)
      returns (r: Option<LoadResult>)
      requires Structured() && StaysSound(instance, from, wasSound)
      modifies repository, this`dirty, this`loads
      ensures loads == old(loads) + 1
      ensures Structured() && StaysSound(instance, from, wasSound) && Now() >= old(Now()) && (old(dirty) ==> dirty)
      ensures IsHonestSince(instance, from, wasSound) ==>
                && old(IsHonestSince(instance, from, wasSound)) && repository.CacheIsSound()
                && (r.Some? ==> IsLoad(repository.system, instance, r.value, old(Now()), Now()))
      ensures flawless ==> r.Some? && dirty == old(dirty)
    {
      hide Repository.Valid, IsIdempotent, IsBasis, IsRepeatedIn;
      hide IsAt, IsUndeceived, CleanIsWatched, Repository.CacheIsSound, IsUnambiguous, AreSeenFingerprints, AreRightRecords;
      ghost var begun := Now();
      loads := loads + 1;
      var loaded := repository.Load(instance);
      if IsHonestSince(instance, from, wasSound) {
        UndeceivedWithin(repository.system, instance, from, Now(), from, begun);
        UndeceivedWithin(repository.system, instance, from, Now(), begun, Now());
      }
      var signalled, throws: bool := *, *;
      if signalled && !flawless {
        Signal(watcher.generation);
      }
      return if throws && !flawless then None else Some(loaded);
    }

    /** A clean catalog whose watches were not hit is fresh, unless a change behind its snapshot was missed. */
    lemma CleanIsFresh()
      requires Valid() && hasCleanSnapshot && !dirty && !IsHitNow()
      requires IsHonest(repository.system, selectedInstanceId, basis.from, basis.upto, basis.wasSound)
      ensures || IsStillFresh(repository.system, selectedInstanceId, basis, Now())
              || ChangeWasMissed(repository.system, touched, selectedInstanceId, basis, Now())
    {
      hide IsHit, IsBasis, IsHonest, IsStillFresh, ChangeWasMissed, SignaturesAreFaithful;
      BasisStaysFresh(repository.system, watcher.clean, touched, selectedInstanceId, basis, Now());
    }

    /** What a clean catalog would answer without loading is justified. */
    lemma CleanIsJustified()
      requires Valid()
      ensures hasCleanSnapshot && !dirty ==> IsJustified(repository.system, watcher.clean, touched, FromCleanNow())
    {
      hide Structured, IsBasis, IsHonest, IsHitNow, IsStillFresh, ChangeWasMissed, Sanitized;
      if && hasCleanSnapshot && !dirty && HitsAreDelivered()
         && IsHonest(repository.system, selectedInstanceId, basis.from, basis.upto, basis.wasSound) {
        CleanIsFresh();
      }
    }

    /** For the record: how the snapshot that becomes the clean one was loaded. */
    ghost method RememberBasis(loaded: ProfileSnapshot, from: nat, wasSound: bool)
      requires from <= watchedSince <= Now() && Watched(watcher.clean, loaded).Some?
      requires watcher.watched == set p | p in Watched(watcher.clean, loaded).value
      requires IsHonestSince(selectedInstanceId, from, wasSound) ==>
                 IsLoad(repository.system, selectedInstanceId, Loaded(loaded), watchedSince, Now())
      modifies this`basis
      ensures IsBasis(repository.system, watcher.clean, selectedInstanceId, basis)
      ensures basis.snapshot == loaded && basis.watched == watcher.watched && basis.since == watchedSince
      ensures basis.from == from && basis.upto == Now() && basis.wasSound == wasSound
    {
      hide LeadTo, IsUndeceived, WatchList;
      var answers: seq<Finding>, times: seq<nat> := [], [];
      if IsHonestSince(selectedInstanceId, from, wasSound) {
        answers, times :| LeadTo(repository.system, selectedInstanceId, answers, times, Done(Loaded(loaded)), watchedSince, Now());
      }
      basis := Basis(loaded, answers, times, watcher.watched, watchedSince, from, Now(), wasSound);
    }

    /** The basis of the clean list is this refresh. */
    ghost predicate RestsOn(from: nat, wasSound: bool)
      reads this, repository`now
    {
      basis.from == from && basis.upto == Now() && basis.wasSound == wasSound
    }

    /** `installCleanSnapshot`: what was just verified under its own watches is the clean snapshot. */
    method InstallCleanSnapshot(verified: ProfileSnapshot, ghost loaded: ProfileSnapshot, ghost from: nat,
                                ghost wasSound: bool)
      requires Structured() && hasSelectedInstance && !dirty && from <= watchedSince
      requires IsHonestSince(selectedInstanceId, from, wasSound) ==>
                 IsLoad(repository.system, selectedInstanceId, Loaded(loaded), watchedSince, Now())
      requires verified == loaded.(profiles := Sanitized(loaded.profiles)) && records == verified.profiles
      requires activeLifetime.Some? && watcher.callback == activeLifetime && Watched(watcher.clean, loaded).Some?
      requires watcher.watched == set p | p in Watched(watcher.clean, loaded).value
      modifies this`basis, this`cleanDirectory, this`cleanDirectoryFingerprint, this`hasCleanSnapshot, this`dirty
      ensures Structured() && CleanIsWatched() && hasCleanSnapshot && !dirty && RestsOn(from, wasSound)
    {
      hide Repository.Valid, IsIdempotent, IsBasis, IsUndeceived, IsAt, Sanitized, Watched;
      RememberBasis(loaded, from, wasSound);
      cleanDirectory, cleanDirectoryFingerprint := Some(verified.directory), Some(verified.directoryFingerprint);
      hasCleanSnapshot, dirty := true, false;
    }

    /** What a round promises that belongs to a refresh since `from`. */
    ghost predicate IsRound(instance: Text, outcome: Round, from: nat, wasSound: bool)
      reads this, watcher, repository
    {
      && Structured() && StaysSound(instance, from, wasSound)
      && selectedInstanceId == instance && hasSelectedInstance && sessionActive
      && (outcome == Committed ==> CleanIsWatched() && hasCleanSnapshot && !dirty && RestsOn(from, wasSound))
      && (outcome.Ended? && outcome.result.Error? ==> records == [])
      && (IsHonestSince(instance, from, wasSound) ==>
            match outcome
            case Ended(result) => CameFromLoads(repository.system, instance, result, from, Now())
            case Again(verified) =>
              IsCandidate(repository.system, instance, verified, from, Now()) && records == verified.profiles
            case _ => WereLoaded(repository.system, instance, records, from, Now()))
    }

    /** Nothing changes from `from` on, reads do not fail, and a load can be watched. */
    ghost predicate IsCalm(instance: Text, from: nat) {
      && IsQuiet(repository.system, from) && !repository.system.readsMayFail
      && CanBeWatched(repository.system, watcher.clean, instance, from)
    }

    lemma CalmIsHonest(instance: Text, from: nat)
      requires repository.Valid() && IsCalm(instance, from)
      ensures IsHonestSince(instance, from, true) && SignaturesAreFaithful(repository.system)
    {
      QuietIsSafe(repository.system, instance, from, Now());
    }

    /** One round: install the candidate's watches, load again, and compare. */
    method InstallAndVerify(instance: Text, candidate: ProfileSnapshot, flawless: bool, ghost from: nat,
                            ghost wasSound: bool)
      returns (outcome: Round)
      requires Structured() && hasSelectedInstance && selectedInstanceId == instance && sessionActive
      requires StaysSound(instance, from, wasSound)
      requires IsHonestSince(instance, from, wasSound) ==> IsCandidate(repository.system, instance, candidate, from, Now())
      modifies this, watcher, repository
      ensures Now() >= old(Now()) && log == old(log) && IsRound(instance, outcome, from, wasSound)
      ensures old(loads) <= loads <= old(loads) + 1 && (outcome == Committed || outcome.Again? ==> loads == old(loads) + 1)
      ensures outcome.Ended? && outcome.result != Threw ==> IsGivenUp(flawless)
      ensures IsHonestSince(instance, from, wasSound) ==>
                && old(IsHonestSince(instance, from, wasSound))
                && (old(repository.CacheIsSound()) ==> repository.CacheIsSound())
      ensures flawless ==> outcome != Ended(Threw)
      ensures flawless && wasSound && IsCalm(instance, from) ==> outcome == Committed
    {
      hide Repository.Valid, IsIdempotent, Repository.IsSoundFor, Repository.CacheIsSound;
      hide WatchList, CleanIsWatched, Watched, Sanitized, IsAt, IsQuiet, CanBeWatched, IsCandidate, IsUndeceived;
      if wasSound && IsCalm(instance, from) {
        CalmIsHonest(instance, from);
        QuietCandidates(repository.system, watcher.clean, instance, candidate, from, Now());
      }
      records, hasCleanSnapshot := candidate.profiles, false;
      if IsHonestSince(instance, from, wasSound) {
        CandidateWasLoaded(instance, candidate, from);
      }
      var installing := InstallWatches(candidate, flawless);
      if installing == InstallThrew {
        return Ended(Threw);
      }
      if installing == NotInstalled {
        return Ended(Answer(records));
      }
      outcome := Verify(instance, candidate, flawless, from, wasSound);
    }

    /** The second half of a round: load again under the candidate's watches, and compare. */
    method Verify(instance: Text, candidate: ProfileSnapshot, flawless: bool, ghost from: nat, ghost wasSound: bool)
      returns (outcome: Round)
      requires Structured() && hasSelectedInstance && selectedInstanceId == instance && sessionActive
      requires StaysSound(instance, from, wasSound)
      requires IsHonestSince(instance, from, wasSound) ==> IsCandidate(repository.system, instance, candidate, from, Now())
      requires !dirty && activeLifetime.Some? && watcher.callback == activeLifetime && watchedSince == Now()
      requires Watched(watcher.clean, candidate).Some? && watcher.watched == set p | p in Watched(watcher.clean, candidate).value
      modifies this, watcher, repository
      ensures Now() >= old(Now()) && log == old(log) && IsRound(instance, outcome, from, wasSound)
      ensures loads == old(loads) + 1 && (outcome.Ended? && outcome.result != Threw ==> IsGivenUp(flawless))
      ensures IsHonestSince(instance, from, wasSound) ==> old(IsHonestSince(instance, from, wasSound)) && repository.CacheIsSound()
      ensures flawless ==> outcome != Ended(Threw)
      ensures flawless && wasSound && IsCalm(instance, from) ==> outcome == Committed
    {
      hide Repository.Valid, IsIdempotent, Repository.IsSoundFor, Repository.CacheIsSound;
      hide WatchList, CleanIsWatched, Watched, Sanitized, IsAt, IsQuiet, CanBeWatched;
      hide IsCandidate, IsUndeceived, WereLoaded, HasFailed;
      hide IsHonestSince, IsCalm;
      ghost var begun := Now();
      var verification := LoadRepository(instance, flawless, from, wasSound);
      if verification == None {
        return Ended(Threw);
      }
      if wasSound && IsCalm(instance, from) {
        CalmIsHonest(instance, from);
      }
      if IsHonestSince(instance, from, wasSound) {
        VerifiedIsLoad(instance, candidate, verification.value, from, begun);
      }
      if verification.value.LoadFailed? {
        var failed := RepositoryFailed(verification.value.error, instance, flawless);
        return Ended(failed);
      }
      outcome := Compare(instance, candidate, verification.value.snapshot, from, wasSound);
    }

    /** What was loaded under the candidate's watches becomes the clean snapshot if it is equivalent. */
    method Compare(instance: Text, candidate: ProfileSnapshot, loaded: ProfileSnapshot, ghost from: nat,
                   ghost wasSound: bool)
      returns (outcome: Round)
      requires Structured() && hasSelectedInstance && selectedInstanceId == instance && sessionActive && from <= watchedSince
      requires StaysSound(instance, from, wasSound) && activeLifetime.Some? && watcher.callback == activeLifetime
      requires Watched(watcher.clean, candidate).Some? && watcher.watched == set p | p in Watched(watcher.clean, candidate).value
      requires IsHonestSince(instance, from, wasSound) ==>
                 && IsLoad(repository.system, instance, Loaded(loaded), watchedSince, Now())
                 && IsCandidate(repository.system, instance, loaded.(profiles := Sanitized(loaded.profiles)), from, Now())
      modifies this`records, this`basis, this`cleanDirectory, this`cleanDirectoryFingerprint, this`hasCleanSnapshot,
               this`dirty
      ensures IsRound(instance, outcome, from, wasSound) && !outcome.Ended?
      ensures outcome == if old(dirty) then GaveUp else if AreEquivalent(candidate, loaded) then Committed
                         else Again(loaded.(profiles := Sanitized(loaded.profiles)))
    {
      hide Repository.Valid, IsIdempotent, Repository.IsSoundFor, Repository.CacheIsSound, IsHonestSince;
      hide WatchList, CleanIsWatched, Watched, Sanitized, IsAt, IsQuiet, IsCandidate, IsUndeceived, WereLoaded, HasFailed;
      var sanitized := SanitizeRecords(loaded.profiles);
      var verified := loaded.(profiles := sanitized);
      records := verified.profiles;
      var same := EquivalentSnapshot(candidate, verified);
      if IsHonestSince(instance, from, wasSound) {
        CandidateWasLoaded(instance, verified, from);
      }
      if dirty {
        return GaveUp;
      }
      if same {
        EquivalentAreWatchedAlike(candidate, loaded);
        InstallCleanSnapshot(verified, loaded, from, wasSound);
        return Committed;
      }
      return Again(verified);
    }

    /** A load since `begun` is one since `from`, and on a calm file system gives the candidate again. */
    lemma VerifiedIsLoad(instance: Text, candidate: ProfileSnapshot, r: LoadResult, from: nat, begun: nat)
      requires from <= begun <= Now() && IsLoad(repository.system, instance, r, begun, Now())
      requires IsCandidate(repository.system, instance, candidate, from, begun) && repository.Valid()
      ensures r.LoadFailed? ==> HasFailed(repository.system, instance, Mapped(r.error), from, Now())
      ensures r.Loaded? ==>
                IsCandidate(repository.system, instance, r.snapshot.(profiles := Sanitized(r.snapshot.profiles)), from, Now())
      ensures IsCalm(instance, from) ==>
                r.Loaded? && r.snapshot.(profiles := Sanitized(r.snapshot.profiles)) == candidate
    {
      hide IsAt, IsQuiet, CanBeWatched, Sanitized;
      LoadWidens(repository.system, instance, Done(r), begun, Now(), from, Now());
      if IsCalm(instance, from) {
        QuietCandidates(repository.system, watcher.clean, instance, candidate, from, begun);
        QuietLoadsSucceed(repository.system, watcher.clean, instance, r, from, Now());
      }
    }

    /** The slow path of `records`: load, watch what was loaded, load again, compare; at most twice. */
    method Refresh(instance: Text, flawless: bool) returns (r: CatalogResult, committed: bool)
      requires Structured() && hasSelectedInstance && selectedInstanceId == instance
      modifies this, watcher, repository
      ensures Now() >= old(Now()) && log == old(log)
      ensures IsRefreshed(instance, r, committed, old(Now()), old(repository.IsSoundFor(instance)))
      ensures old(loads) < loads <= old(loads) + 3 && (committed ==> loads > old(loads) + 1)
      ensures flawless ==> r != Threw
      ensures flawless && old(repository.IsSoundFor(instance)) && IsCalm(instance, old(Now())) ==> committed
    {
      hide Repository.Valid, IsIdempotent, Repository.IsSoundFor, Repository.CacheIsSound;
      hide WatchList, CleanIsWatched, Sanitized, IsAt, IsQuiet, CanBeWatched, IsUndeceived;
      ghost var from, wasSound := Now(), repository.IsSoundFor(instance);
      sessionActive := true;
      var initial := LoadRepository(instance, flawless, from, wasSound);
      if initial == None {
        return Threw, false;
      }
      if wasSound && IsCalm(instance, from) {
        CalmIsHonest(instance, from);
        QuietLoadsSucceed(repository.system, watcher.clean, instance, initial.value, from, Now());
      }
      if initial.value.LoadFailed? {
        r := RepositoryFailed(initial.value.error, instance, flawless);
        return r, false;
      }
      var sanitized := SanitizeRecords(initial.value.snapshot.profiles);
      var candidate := initial.value.snapshot.(profiles := sanitized);
      assert IsHonestSince(instance, from, wasSound) ==> IsCandidate(repository.system, instance, candidate, from, Now());
      r, committed := InstallRounds(instance, candidate, flawless, from, wasSound);
    }

    /** What the slow path promises. */
    ghost predicate IsRefreshed(instance: Text, r: CatalogResult, committed: bool, from: nat, wasSound: bool)
      reads this, watcher, repository
    {
      && Structured() && selectedInstanceId == instance && hasSelectedInstance && sessionActive
      && (committed ==> CleanIsWatched() && hasCleanSnapshot && !dirty && r == Answer(records) && RestsOn(from, wasSound))
      && (r.Error? ==> records == [] && !committed)
      && (IsHonestSince(instance, from, wasSound) ==>
            CameFromLoads(repository.system, instance, r, from, Now()) && repository.CacheIsSound())
    }

    /** The rounds of the slow path. */
    method InstallRounds(instance: Text, initial: ProfileSnapshot, flawless: bool, ghost from: nat,
                         ghost wasSound: bool)
      returns (r: CatalogResult, committed: bool)
      requires Structured() && hasSelectedInstance && selectedInstanceId == instance && sessionActive
      requires StaysSound(instance, from, wasSound)
      requires IsHonestSince(instance, from, wasSound) ==>
                 IsCandidate(repository.system, instance, initial, from, Now()) && repository.CacheIsSound()
      modifies this, watcher, repository
      ensures Now() >= old(Now()) && log == old(log) && IsRefreshed(instance, r, committed, from, wasSound)
      ensures old(loads) <= loads <= old(loads) + 2 && (committed ==> loads > old(loads))
      ensures !committed && r != Threw ==> IsGivenUp(flawless)
      ensures flawless ==> r != Threw
      ensures flawless && wasSound && IsCalm(instance, from) ==> committed
    {
      hide Repository.Valid, IsIdempotent, Repository.IsSoundFor, Repository.CacheIsSound, IsHonestSince, IsQuiet;
      hide WereLoaded, HasFailed, IsCandidate, IsCalm, CleanIsWatched, Sanitized;
      var candidate := initial;
      for round := 0 to 2
        invariant Structured() && Now() >= old(Now()) && log == old(log) && StaysSound(instance, from, wasSound)
        invariant selectedInstanceId == instance && hasSelectedInstance && sessionActive && loads == old(loads) + round
        invariant IsHonestSince(instance, from, wasSound) ==>
                    IsCandidate(repository.system, instance, candidate, from, Now()) && repository.CacheIsSound()
        invariant IsHonestSince(instance, from, wasSound) && round > 0 ==>
                    WereLoaded(repository.system, instance, records, from, Now())
        invariant flawless && wasSound && IsCalm(instance, from) ==> round == 0
      {
        var outcome := InstallAndVerify(instance, candidate, flawless, from, wasSound);
        match outcome
        case Ended(result) =>
          return result, false;
        case Committed =>
          return Answer(records), true;
        case GaveUp =>
          break;
        case Again(verified) =>
          candidate := verified;
          if IsHonestSince(instance, from, wasSound) {
            CandidateWasLoaded(instance, candidate, from);
          }
      }
      GiveUp(flawless);
      return Answer(records), false;
    }

    /** What `records` does when neither round committed. */
    method GiveUp(flawless: bool)
      requires Structured()
      modifies this`hasCleanSnapshot, this`dirty, this`activeLifetime, watcher
      ensures Structured() && IsGivenUp(flawless)
    {
      hide Repository.Valid, IsIdempotent, IsBasis, IsRepeatedIn;
      DeactivateCallback();
      ClearWatcher(flawless);
      hasCleanSnapshot, dirty := false, true;
    }

    /** Nothing is clean, and nothing is active or, if the watcher does not throw, watched. */
    ghost predicate IsGivenUp(flawless: bool)
      reads this, watcher
    {
      !hasCleanSnapshot && dirty && activeLifetime == None && (flawless ==> watcher.callback == None)
    }

    lemma CandidateWasLoaded(instance: Text, candidate: ProfileSnapshot, from: nat)
      requires IsCandidate(repository.system, instance, candidate, from, Now())
      ensures WereLoaded(repository.system, instance, candidate.profiles, from, Now())
    {
    }

    lemma EquivalentAreWatchedAlike(a: ProfileSnapshot, b: ProfileSnapshot)
      requires AreEquivalent(a, b)
      ensures Watched(watcher.clean, a) == Watched(watcher.clean, b)
    {
    }

    lemma QuietListsWhatIsThere(instance: Text, from: nat)
      requires Structured() && CleanIsWatched() && hasCleanSnapshot && selectedInstanceId == instance
      requires IsQuiet(repository.system, from) && !repository.system.readsMayFail && RestsOn(from, true)
      ensures ListsWhatIsThere()
    {
      hide IsQuiet, LeadTo, Sanitized, Watched, SignaturesAreFaithful, IsWhatIsThere, IsUndeceived;
      QuietIsSafe(repository.system, instance, from, Now());
      LoadWidens(repository.system, instance, Done(Loaded(basis.snapshot)), basis.since, Now(), from, Now());
      QuietLoadIsWhatIsThere(repository.system, instance, Loaded(basis.snapshot), from, Now());
      NowIsThen(from);
    }

    lemma NowIsThen(from: nat)
      requires IsQuiet(repository.system, from) && from <= Now()
      ensures repository.system.world(Now()) == repository.system.world(from)
    {
    }

    /**
      `records`.  It answers without loading exactly if the list for this instance is clean, and then with
      that list, which is the one last answered.  What is answered is logged, and is justified: see
      `IsJustified`.  If nothing fails and the file system is quiet, the list is left clean and fresh, so
      that the next call need not load.
     */
    method Records(instance: Text, flawless: bool) returns (r: CatalogResult)
      requires Valid()
      modifies this, watcher, repository
      ensures Valid() && Now() >= old(Now())
      ensures log == old(log) + [if old(IsFastFor(instance)) then old(FromCleanNow())
                                 else FromLoads(instance, r, old(Now()), Now(), old(repository.IsSoundFor(instance)))]
      ensures r == ResultOf(log[|old(log)|]) && IsJustified(repository.system, watcher.clean, touched, log[|old(log)|])
      ensures AreRepeated(log, |old(log)|)
      ensures old(IsFastFor(instance)) ==>
                && r == Answer(records) && records == old(records) && Now() == old(Now()) && IsFastFor(instance)
                && repository.CacheIsSound() == old(repository.CacheIsSound())
      ensures !old(IsFastFor(instance)) && IsHonestSince(instance, old(Now()), old(repository.IsSoundFor(instance))) ==>
                repository.CacheIsSound()
      ensures hasCleanSnapshot && !dirty ==> r == Answer(records) && selectedInstanceId == instance && hasSelectedInstance
      ensures r.Error? ==> records == [] && !hasCleanSnapshot
      ensures if old(IsFastFor(instance)) then loads == old(loads) else old(loads) < loads <= old(loads) + 3
      ensures flawless ==> r != Threw && ((hasCleanSnapshot && !dirty) || watcher.callback == None)
      ensures !old(IsFastFor(instance)) && old(repository.IsSoundFor(instance)) && r != Threw &&
              IsQuiet(repository.system, old(Now())) && !repository.system.readsMayFail ==>
                TellsWhatIsThere(repository.system, repository.system.world(old(Now())), instance, r)
      ensures flawless && old(repository.IsSoundFor(instance)) && IsCalm(instance, old(Now())) ==>
                r == Answer(records) && IsFastFor(instance) && (!old(IsFastFor(instance)) ==> ListsWhatIsThere())
    {
      hide Repository.Valid, IsIdempotent, IsBasis, IsRepeatedIn, Repository.IsSoundFor, Repository.CacheIsSound;
      hide CleanIsWatched, HitsAreDelivered, IsHonestSince, IsJustified, IsCalm, ListsWhatIsThere;
      CleanIsJustified();
      if !hasSelectedInstance {
        SelectFirst(instance);
      } else if selectedInstanceId != instance {
        SelectOther(instance, flawless);
      }
      if hasCleanSnapshot && sessionActive && !dirty {
        CleanRepeatsItself();
        Note(FromCleanNow());
        return Answer(records);
      }
      r := RecordsFromLoads(instance, flawless);
    }

    /** The slow path as a whole: refresh, and leave the list clean only if that committed one. */
    method RecordsFromLoads(instance: Text, flawless: bool) returns (r: CatalogResult)
      requires Structured() && hasSelectedInstance && selectedInstanceId == instance
      modifies this, watcher, repository
      ensures Valid() && Now() >= old(Now())
      ensures log == old(log) + [FromLoads(instance, r, old(Now()), Now(), old(repository.IsSoundFor(instance)))]
      ensures IsJustified(repository.system, watcher.clean, touched, log[|old(log)|])
      ensures IsHonestSince(instance, old(Now()), old(repository.IsSoundFor(instance))) ==> repository.CacheIsSound()
      ensures hasCleanSnapshot && !dirty ==> r == Answer(records) && selectedInstanceId == instance && hasSelectedInstance
      ensures r.Error? ==> records == [] && !hasCleanSnapshot
      ensures old(loads) < loads <= old(loads) + 3
      ensures flawless ==> r != Threw && ((hasCleanSnapshot && !dirty) || watcher.callback == None)
      ensures old(repository.IsSoundFor(instance)) && r != Threw &&
              IsQuiet(repository.system, old(Now())) && !repository.system.readsMayFail ==>
                TellsWhatIsThere(repository.system, repository.system.world(old(Now())), instance, r)
      ensures flawless && old(repository.IsSoundFor(instance)) && IsCalm(instance, old(Now())) ==>
                r == Answer(records) && IsFastFor(instance) && ListsWhatIsThere()
    {
      hide Repository.Valid, IsIdempotent, IsBasis, IsRepeatedIn, Repository.IsSoundFor, Repository.CacheIsSound;
      hide IsQuiet, CanBeWatched, WereLoaded, HasFailed, Sanitized, CleanIsWatched, IsJustified, IsUndeceived, ListsWhatIsThere;
      ghost var from, wasSound := Now(), repository.IsSoundFor(instance);
      var committed: bool;
      r, committed := Refresh(instance, flawless);
      LoadsAreJustified(instance, r, from, wasSound);
      QuietlyTold(instance, r, from, wasSound);
      if !committed {
        AbandonRefresh(flawless);
        NotCleanIsFine();
      } else {
        LoadsAreRepeated(instance, from, wasSound);
        if wasSound && IsCalm(instance, from) {
          CalmIsHonest(instance, from);
          QuietListsWhatIsThere(instance, from);
        }
      }
      Note(FromLoads(instance, r, from, Now(), wasSound));
    }

    /** An answer is logged. */
    ghost method Note(given: Given)
      requires Structured() && CleanIsWatched()
      requires hasCleanSnapshot ==> IsRepeatedIn(given, selectedInstanceId, records, basis)
      modifies this`log
      ensures Valid() && log == old(log) + [given]
    {
      hide Repository.Valid, IsIdempotent, IsBasis, IsRepeatedIn;
      log := log + [given];
    }

    lemma CleanRepeatsItself()
      ensures IsRepeatedIn(FromCleanNow(), selectedInstanceId, records, basis)
    {
    }

    lemma LoadsAreRepeated(instance: Text, from: nat, wasSound: bool)
      requires RestsOn(from, wasSound)
      ensures IsRepeatedIn(FromLoads(instance, Answer(records), from, Now(), wasSound), instance, records, basis)
    {
    }

    lemma LoadsAreJustified(instance: Text, r: CatalogResult, from: nat, wasSound: bool)
      requires IsHonestSince(instance, from, wasSound) ==> CameFromLoads(repository.system, instance, r, from, Now())
      ensures IsJustified(repository.system, watcher.clean, touched, FromLoads(instance, r, from, Now(), wasSound))
    {
      hide CameFromLoads, IsUndeceived;
    }

    lemma QuietlyTold(instance: Text, r: CatalogResult, from: nat, wasSound: bool)
      requires repository.Valid()
      requires IsHonestSince(instance, from, wasSound) ==> CameFromLoads(repository.system, instance, r, from, Now())
      ensures wasSound && IsQuiet(repository.system, from) && !repository.system.readsMayFail && r != Threw ==>
                TellsWhatIsThere(repository.system, repository.system.world(from), instance, r)
    {
      hide CameFromLoads, IsUndeceived, TellsWhatIsThere;
      if wasSound && IsQuiet(repository.system, from) && !repository.system.readsMayFail && r != Threw {
        QuietIsSafe(repository.system, instance, from, Now());
        QuietAnswerTells(repository.system, instance, r, from, Now());
      }
    }

    /** The first instance asked for is selected. */
    method SelectFirst(instance: Text)
      requires Valid() && !hasSelectedInstance
      modifies this`selectedInstanceId, this`hasSelectedInstance
      ensures Valid() && !hasCleanSnapshot && selectedInstanceId == instance && hasSelectedInstance
    {
      hide Repository.Valid, IsIdempotent, IsBasis, IsRepeatedIn;
      selectedInstanceId, hasSelectedInstance := instance, true;
    }

    /** Another instance than before is selected, and what was known of the one before is forgotten. */
    method SelectOther(instance: Text, flawless: bool)
      requires Valid() && hasSelectedInstance && selectedInstanceId != instance
      modifies this, watcher
      ensures Valid() && records == [] && !hasCleanSnapshot && cleanDirectory == None && cleanDirectoryFingerprint == None
      ensures selectedInstanceId == instance && hasSelectedInstance && !sessionActive && !dirty
      ensures activeLifetime == None && (flawless ==> watcher.callback == None)
      ensures watchedSince == old(watchedSince) && log == old(log) && loads == old(loads)
    {
      hide Repository.Valid, IsIdempotent, IsBasis, IsRepeatedIn;
      ClearSnapshotAndWatches(flawless);
      selectedInstanceId, hasSelectedInstance, sessionActive, dirty := instance, true, false, false;
    }

    lemma NotCleanIsFine()
      ensures !hasCleanSnapshot ==> CleanIsWatched()
    {
    }

    /** `endSession`. */
    method EndSession()
      requires Valid()
      modifies this`sessionActive
      ensures Valid() && !sessionActive
    {
      hide Repository.Valid, IsIdempotent, IsBasis, IsRepeatedIn;
      sessionActive := false;
    }

    /** `reset`. */
    method Reset(flawless: bool)
      requires Valid()
      modifies this, watcher
      ensures Valid() && records == [] && !hasSelectedInstance && !hasCleanSnapshot && !sessionActive && !dirty
      ensures activeLifetime == None && (flawless ==> watcher.callback == None)
      ensures log == old(log) && loads == old(loads)
    {
      hide Repository.Valid, IsIdempotent, IsBasis, IsRepeatedIn;
      ClearSnapshotAndWatches(flawless);
      selectedInstanceId, hasSelectedInstance, sessionActive, dirty := [], false, false, false;
    }

    /** A record that may be connected to, for the instance that is expected. */
    predicate Resolves(expectedInstanceId: Text, opaqueId: Text, directoryMatches: bool,
                       identityOf: Text -> Option<Text>,
                       opaqueProfileId: (Text, Text) -> Text, record: ProfileRecord)
      reads this
    {
      && hasSelectedInstance && selectedInstanceId == expectedInstanceId && !dirty && hasCleanSnapshot
      && IsConnectable(selectedInstanceId, records, opaqueId, directoryMatches, identityOf, opaqueProfileId, record)
    }

    /** A record of a clean list that holds what is there resolves, if the file system answers as it is. */
    lemma ListedResolve(directoryMatches: bool, identityOf: Text -> Option<Text>, opaqueProfileId: (Text, Text) -> Text,
                        record: ProfileRecord)
      requires ListsWhatIsThere() && hasSelectedInstance && hasCleanSnapshot && !dirty && record in records
      requires IsTold(repository.system, repository.system.world(Now()), cleanDirectory.value, cleanDirectoryFingerprint.value,
                      directoryMatches, identityOf, opaqueProfileId)
      ensures Resolves(selectedInstanceId, record.opaqueId, directoryMatches, identityOf, opaqueProfileId, record)
    {
      hide IsTold, Sanitized, IsWhatIsThere, IsConnectable;
      var system, world := repository.system, repository.system.world(Now());
      var snapshot :| && IsWhatIsThere(system, world, selectedInstanceId, {}, Loaded(snapshot))
                      && records == Sanitized(snapshot.profiles)
                      && cleanDirectory == Some(snapshot.directory) && cleanDirectoryFingerprint == Some(snapshot.directoryFingerprint);
      RecordIsConnectable(system, world, selectedInstanceId, snapshot, directoryMatches, identityOf, opaqueProfileId, record);
    }

    /** An id picks at most one record of a clean list. */
    lemma CleanIdsAreUnambiguous(a: ProfileRecord, b: ProfileRecord)
      requires Valid() && hasCleanSnapshot && a in records && b in records && a.opaqueId == b.opaqueId
      ensures a == b
    {
      hide Sanitized;
      SanitizedExactly(basis.snapshot.profiles, b, b);
      SanitizedExactly(basis.snapshot.profiles, a, b);
    }

    /**
      `resolve`, given whether the clean directory is still the same, and the canonical identity of a
      record's source if that is an existing regular file.
     */
    method Resolve(expectedInstanceId: Text, opaqueId: Text, directoryMatches: bool, identityOf: Text -> Option<Text>,
                   opaqueProfileId: (Text, Text) -> Text) returns (r: Option<ProfileRecord>)
      requires Valid()
      ensures r.Some? ==> Resolves(expectedInstanceId, opaqueId, directoryMatches, identityOf, opaqueProfileId, r.value)
      ensures r == None ==>
                forall record :: !Resolves(expectedInstanceId, opaqueId, directoryMatches, identityOf, opaqueProfileId, record)
    {
      hide CleanIsWatched, Structured;
      if !hasSelectedInstance || selectedInstanceId != expectedInstanceId || dirty || !hasCleanSnapshot || !directoryMatches {
        return None;
      }
      for k := 0 to |records|
        invariant forall m :: 0 <= m < k ==> records[m].opaqueId != opaqueId
      {
        if records[k].opaqueId == opaqueId {
          forall record | record in records && record.opaqueId == opaqueId
            ensures record == records[k]
          {
            CleanIdsAreUnambiguous(record, records[k]);
          }
          var identity := identityOf(records[k].sourcePath);
          if identity == None {
            return None;
          }
          return if opaqueProfileId(selectedInstanceId, identity.value) == records[k].opaqueId then Some(records[k]) else None;
        }
      }
      return None;
    }

    /** From a clean list that holds what is there exactly the record with the id is resolved, if there is one. */
    method ResolveListed(opaqueId: Text, directoryMatches: bool, identityOf: Text -> Option<Text>,
                         opaqueProfileId: (Text, Text) -> Text) returns (found: Option<ProfileRecord>)
      requires Valid() && ListsWhatIsThere() && hasSelectedInstance && hasCleanSnapshot && !dirty
      requires IsTold(repository.system, repository.system.world(Now()), cleanDirectory.value, cleanDirectoryFingerprint.value,
                      directoryMatches, identityOf, opaqueProfileId)
      ensures forall record :: record in records && record.opaqueId == opaqueId ==> found == Some(record)
      ensures found.Some? ==> found.value in records && found.value.opaqueId == opaqueId
    {
      hide Structured, CleanIsWatched, CleanWasGiven, IsTold, ListsWhatIsThere;
      found := Resolve(selectedInstanceId, opaqueId, directoryMatches, identityOf, opaqueProfileId);
      forall record | record in records && record.opaqueId == opaqueId
        ensures found == Some(record)
      {
        ListedResolve(directoryMatches, identityOf, opaqueProfileId, record);
        if found.Some? {
          CleanIdsAreUnambiguous(record, found.value);
        }
      }
    }

    /**
      Whole runs: any calls in any order, before each of which the event loop turns while files change and
      present and past handlers are signalled.  The log grows by one answer for each question, which is not
      an exception if nothing throws; every one is justified, with all touches of watched paths delivered; an
      answer without loading repeats the answer before it; and as long as no entry deceives, the cache stays
      sound.
     */
    method RunMany(calls: seq<CatalogCall>, flawless: bool) returns (results: seq<CatalogResult>)
      requires Valid()
      modifies this, watcher, repository
      ensures Valid() && old(log) <= log
      ensures AreAnswered(calls, results, log[|old(log)|..]) && (flawless ==> Threw !in results)
      ensures forall i :: |old(log)| <= i < |log| ==> IsJustified(repository.system, watcher.clean, touched, log[i])
      ensures AreRepeated(log, |old(log)|)
      ensures old(repository.CacheIsSound()) && AllHonest(repository.system, log, |old(log)|) ==> AllSound(log, |old(log)|)
    {
      hide Valid, IsJustified, Repository.CacheIsSound, HitsAreDelivered, AreRepeated, AreAnswered, AllHonest, AllSound;
      results := [];
      ghost var n, begun := |log|, log;
      NothingAnswered(log);
      assert calls[..0] == [] && log[n..] == [];
      for k := 0 to |calls|
        invariant Valid() && n <= |log| && log[..n] == begun
        invariant AreAnswered(calls[..k], results, log[n..]) && (flawless ==> Threw !in results)
        invariant forall i :: n <= i < |log| ==> IsJustified(repository.system, watcher.clean, touched, log[i])
        invariant AreRepeated(log, n)
        invariant old(repository.CacheIsSound()) && AllHonest(repository.system, log, n) ==>
                    repository.CacheIsSound() && AllSound(log, n)
      {
        ghost var before, held, given := log, results, log[n..];
        assert calls[..k + 1] == calls[..k] + [calls[k]];
        TurnEventLoop();
        match calls[k]
        case EndSessionCall => EndSession(); OtherCall(calls[..k], results, given, calls[k]);
        case ResetCall => Reset(flawless); OtherCall(calls[..k], results, given, calls[k]);
        case MarkDirtyCall => MarkDirty(); OtherCall(calls[..k], results, given, calls[k]);
        case RecordsCall(instance) =>
          var r := Records(instance, flawless);
          results := results + [r];
          assert log[n..] == given + [log[|before|]];
          OneMoreAnswered(calls[..k], held, given, instance, r, log[|before|]);
          RepeatedGrow(before, n, log[|before|]);
          SoundnessGrows(repository.system, before, n, log[|before|]);
      }
      assert calls[..|calls|] == calls;
    }
  }
  /**
    On a quiet file system that can be watched, if nothing fails: `records` lists a record for every profile
    that can be read and parses, and no other, and `resolve` finds each of them by its id.
   */
  method ListAndResolve(catalog: Catalog, instance: Text, opaqueId: Text, identityOf: Text -> Option<Text>,
                        opaqueProfileId: (Text, Text) -> Text) returns (listed: CatalogResult, found: Option<ProfileRecord>)
    requires catalog.Valid() && !catalog.IsFastFor(instance) && catalog.repository.IsSoundFor(instance)
    requires catalog.IsCalm(instance, catalog.Now())
    requires var system, world := catalog.repository.system, catalog.repository.system.world(catalog.Now());
             var location := world.locate(instance).location;
             && IdsAreUnique(system, world, instance)
             && IsTold(system, world, location, world.directories[location.hostPath].fingerprint, true, identityOf, opaqueProfileId)
    modifies catalog, catalog.watcher, catalog.repository
    ensures listed.Answer?
    ensures var system, world := catalog.repository.system, catalog.repository.system.world(old(catalog.Now()));
            AreRecords(system, world, instance, world.locate(instance).location, {}, listed.records)
    ensures forall record :: record in listed.records && record.opaqueId == opaqueId ==> found == Some(record)
    ensures found.Some? ==> found.value in listed.records && found.value.opaqueId == opaqueId
  {
    hide Catalog.Structured, Catalog.CleanIsWatched, Catalog.CleanWasGiven, IsTold, IdsAreUnique, IsQuiet, AreRecords, Sanitized;
    hide IsJustified, Catalog.ListsWhatIsThere, Repository.IsSoundFor, Repository.CacheIsSound, CanBeWatched, AreRepeated;
    ghost var from := catalog.Now();
    listed := catalog.Records(instance, true);
    QuietListIsComplete(catalog, instance, from);
    found := catalog.ResolveListed(opaqueId, true, identityOf, opaqueProfileId);
  }

  lemma QuietListIsComplete(catalog: Catalog, instance: Text, from: nat)
    requires catalog.ListsWhatIsThere() && IsQuiet(catalog.repository.system, from) && from <= catalog.Now()
    requires catalog.selectedInstanceId == instance
    requires IdsAreUnique(catalog.repository.system, catalog.repository.system.world(from), instance)
    ensures var system, world := catalog.repository.system, catalog.repository.system.world(from);
            && world == system.world(catalog.Now()) && world.locate(instance).Located?
            && world.locate(instance).location.hostPath in world.directories
            && AreRecords(system, world, instance, world.locate(instance).location, {}, catalog.records)
            && catalog.cleanDirectory == Some(world.locate(instance).location)
            && catalog.cleanDirectoryFingerprint == Some(world.directories[world.locate(instance).location.hostPath].fingerprint)
  {
    hide AreRecords, AreFirstNames, Sanitized;
    var system, world := catalog.repository.system, catalog.repository.system.world(from);
    assert world == system.world(catalog.Now());
    var snapshot :| && IsWhatIsThere(system, world, instance, {}, Loaded(snapshot)) && catalog.records == Sanitized(snapshot.profiles)
                    && catalog.cleanDirectory == Some(snapshot.directory)
                    && catalog.cleanDirectoryFingerprint == Some(snapshot.directoryFingerprint);
    NothingIsDropped(system, world, instance, world.locate(instance).location, snapshot);
  }
}
