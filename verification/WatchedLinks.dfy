/**
  Why the links are watched: retargeting links, wherever they are, cannot move the directory that a clean
  list was read from unless a watched path is touched.
 */
module WatchedLinks {
  import opened Bytes
  import Ordering
  import opened Paths
  import opened ProfileCatalog
  import opened ProfileLoading
  import opened ProfileTypes
  import opened SymlinkResolution
  import opened Wrappers

  // ---- The tree of links behind the file system ----

  /** How paths are spelled; a spelled path is clean. */
  ghost predicate IsCleanSpelling(clean: Text -> Option<Text>, spelled: Path -> Text) {
    forall p: Path :: clean(spelled(p)) == Some(spelled(p))
  }

  function SpelledAll(spelled: Path -> Text, paths: seq<Path>): (r: seq<Text>)
    ensures |r| == |paths| && forall i :: 0 <= i < |r| ==> r[i] == spelled(paths[i])
  {
    seq(|paths|, i requires 0 <= i < |paths| => spelled(paths[i]))
  }

  /** Where a directory is, and which links lead there. */
  function WalkTo(fs: Fs, components: seq<Name>): Outcome {
    Walk(fs, [], Clean([], components), [])
  }

  /** The fingerprint says where the directory is, and lists the parents of the links that lead there. */
  ghost predicate IsSeenThrough(fs: Fs, spelled: Path -> Text, components: seq<Name>,
                                fingerprint: DirectoryFingerprint) {
    var r := WalkTo(fs, components);
    && r.Resolved? && fingerprint.canonicalPath == spelled(r.path)
    && fingerprint.symlinkParentPaths == SpelledAll(spelled, LinkParents(r.links))
  }

  /** The directory is seen through the tree whenever it can be read. */
  ghost predicate AreSeenThrough(system: System, fsAt: nat -> Fs, spelled: Path -> Text, host: Text,
                                 components: seq<Name>) {
    forall t: nat :: host in system.world(t).directories ==>
      IsSeenThrough(fsAt(t), spelled, components, system.world(t).directories[host].fingerprint)
  }

  /** At most the targets of links change. */
  ghost predicate AreRetargets(before: Fs, after: Fs) {
    forall p: Path :: before(p) == after(p) || (before(p).IsLink() && after(p).IsLink())
  }

  /** Retargeting a link touches the directory that it is in. */
  ghost predicate RetargetsTouch(fsAt: nat -> Fs, touched: nat -> set<Text>, spelled: Path -> Text) {
    forall t: nat :: AreTouched(fsAt(t), fsAt(t + 1), touched(t), spelled)
  }

  ghost predicate AreTouched(before: Fs, after: Fs, touched: set<Text>, spelled: Path -> Text) {
    forall p: Path :: before(p).IsLink() && after(p).IsLink() && before(p) != after(p) ==> spelled(Parent(p)) in touched
  }

  // ---- One step, and many ----

  /** If no watched path is touched, links that change are none of those that lead to the directory. */
  lemma UntouchedAreOutside(clean: Text -> Option<Text>, spelled: Path -> Text, fsAt: nat -> Fs,
                            touched: nat -> set<Text>,
                            components: seq<Name>, snapshot: ProfileSnapshot, t: nat)
    requires IsCleanSpelling(clean, spelled) && RetargetsTouch(fsAt, touched, spelled)
    requires AreRetargets(fsAt(t), fsAt(t + 1)) && IsSeenThrough(fsAt(t), spelled, components, snapshot.directoryFingerprint)
    requires Watched(clean, snapshot).Some? && forall p :: p in Watched(clean, snapshot).value ==> p !in touched(t)
    ensures RetargetedOutside(fsAt(t), fsAt(t + 1), LinkParents(WalkTo(fsAt(t), components).links))
  {
    hide Walk, Clean, WatchList, LinkParents;
    var parents := LinkParents(WalkTo(fsAt(t), components).links);
    assert AreTouched(fsAt(t), fsAt(t + 1), touched(t), spelled);
    WatchListExactly(clean, snapshot.directory, snapshot.directoryFingerprint, snapshot.fingerprint);
    forall p: Path
      ensures fsAt(t)(p) == fsAt(t + 1)(p) || (fsAt(t)(p).IsLink() && fsAt(t + 1)(p).IsLink() && Parent(p) !in parents)
    {
      if Parent(p) in parents {
        var i :| 0 <= i < |parents| && parents[i] == Parent(p);
        assert clean(snapshot.directoryFingerprint.symlinkParentPaths[i]) == Some(spelled(Parent(p)));
        assert spelled(Parent(p)) in Watched(clean, snapshot).value;
      }
    }
  }

  /** As long as no watched path is touched, retargeting links leaves the directory where it is. */
  lemma {:induction false} DirectoryStays(clean: Text -> Option<Text>, spelled: Path -> Text, fsAt: nat -> Fs,
                                          touched: nat -> set<Text>, components: seq<Name>, snapshot: ProfileSnapshot,
                                          since: nat, now: nat)
    requires IsCleanSpelling(clean, spelled) && RetargetsTouch(fsAt, touched, spelled) && since <= now
    requires forall t: nat :: since <= t < now ==> AreRetargets(fsAt(t), fsAt(t + 1))
    requires IsSeenThrough(fsAt(since), spelled, components, snapshot.directoryFingerprint)
    requires Watched(clean, snapshot).Some?
    requires !IsHit(touched, (set p | p in Watched(clean, snapshot).value), since, now)
    ensures WalkTo(fsAt(now), components) == WalkTo(fsAt(since), components)
    decreases now
  {
    hide Walk, Clean, AreRetargets, IsCleanSpelling, RetargetsTouch, Watched;
    if since < now {
      var watched, t := (set p | p in Watched(clean, snapshot).value), now - 1;
      assert !IsHit(touched, watched, since, t);
      DirectoryStays(clean, spelled, fsAt, touched, components, snapshot, since, t);
      assert forall p :: p in watched ==> p !in touched(t);
      assert forall p :: p in Watched(clean, snapshot).value ==> p in watched;
      UntouchedAreOutside(clean, spelled, fsAt, touched, components, snapshot, t);
      RetargetOutsideIsInvisible(fsAt(t), fsAt(now), [], Clean([], components), []);
    }
  }

  // ---- Where a load has its fingerprint from ----

  /** A load at `p` reads the directory that was listed with this fingerprint. */
  predicate IsReadingFrom(p: Progress, host: Text, fingerprint: DirectoryFingerprint) {
    match p
    case Enumerating(location, f, _, _, _) => location.hostPath == host && f == fingerprint
    case Parsing(location, f, _, _, _, _, _) => location.hostPath == host && f == fingerprint
    case Done(Loaded(snapshot)) => snapshot.directory.hostPath == host && snapshot.directoryFingerprint == fingerprint
    case _ => false
  }

  lemma {:induction false} ContinuesReading(location: Location, f: DirectoryFingerprint, gathered: Gathered,
                                            rest: seq<Candidate>, host: Text, fingerprint: DirectoryFingerprint)
    ensures IsReadingFrom(Continue(location, f, gathered, rest), host, fingerprint) <==>
            location.hostPath == host && f == fingerprint
    decreases |rest|
  {
    if rest != [] && rest[0].identity in gathered.processed {
      ContinuesReading(location, f, gathered, rest[1..], host, fingerprint);
    }
  }

  lemma {:induction false} EnumeratesReading(location: Location, f: DirectoryFingerprint, names: seq<Text>,
                                             discovered: seq<Candidate>, host: Text, fingerprint: DirectoryFingerprint)
    ensures IsReadingFrom(Enumerate(location, f, names, discovered), host, fingerprint) <==>
            location.hostPath == host && f == fingerprint
    decreases |names|
  {
    hide Continue;
    if names == [] {
      ContinuesReading(location, f, NOTHING, FirstOfEach(Ordering.Sort(discovered, CandidateLeq)), host, fingerprint);
    } else if !HasProfileSuffix(names[0]) {
      EnumeratesReading(location, f, names[1..], discovered, host, fingerprint);
    }
  }

  /** A step keeps what is read from, but for the one that lists it. */
  lemma ReadingBegins(system: System, instance: Text, p: Progress, answer: Finding, host: Text,
                      fingerprint: DirectoryFingerprint)
    requires IsReadingFrom(Advance(system, instance, p, answer), host, fingerprint)
    ensures || IsReadingFrom(p, host, fingerprint)
            || (p.Reading? && p.location.hostPath == host && answer.Listing? && answer.directory.Some?
                && answer.directory.value.0 == fingerprint)
  {
    hide Continue, Enumerate, Settled, Noted;
    match (p, answer)
    case (Reading(l), Listing(Some(directory))) =>
      EnumeratesReading(l, directory.0, directory.1, [], host, fingerprint);
    case (Enumerating(l, f, name, left, discovered), Seen(Found(found))) =>
      EnumeratesReading(l, f, left, discovered + [found], host, fingerprint);
    case (Enumerating(l, f, name, left, discovered), Seen(NoCandidate)) =>
      EnumeratesReading(l, f, left, discovered, host, fingerprint);
    case (Parsing(l, f, gathered, current, rest, attempt, Some(couldOpen)), Seen(Found(again))) =>
      if IsSameFile(again, current) {
        ContinuesReading(l, f, Settled(system, instance, gathered, current, couldOpen), rest, host, fingerprint);
      } else if attempt != 0 {
        ContinuesReading(l, f, Noted(gathered, again), rest, host, fingerprint);
      }
    case (Parsing(l, f, gathered, _, rest, _, Some(_)), Seen(NoCandidate)) =>
      ContinuesReading(l, f, gathered, rest, host, fingerprint);
    case _ =>
  }

  /** The fingerprint of what is read is that of the directory at the moment of its listing. */
  lemma {:induction false} WasListed(system: System, instance: Text, answers: seq<Finding>, times: seq<nat>, k: nat,
                                     host: Text, fingerprint: DirectoryFingerprint)
    requires AreAnswers(system, instance, answers, times) && k <= |answers|
    requires IsReadingFrom(Through(system, instance, answers[..k]), host, fingerprint)
    ensures exists j :: 0 <= j < k && IsListedAt(system, times[j], host, fingerprint)
  {
    hide Advance, IsReadingFrom, Through;
    if k == 0 {
      NothingRead(system, instance, answers, host, fingerprint);
    } else {
      var p := Through(system, instance, answers[..k - 1]);
      LastStep(system, instance, answers, k);
      ReadingBegins(system, instance, p, answers[k - 1], host, fingerprint);
      if IsReadingFrom(p, host, fingerprint) {
        WasListed(system, instance, answers, times, k - 1, host, fingerprint);
      } else {
        assert IsAnswer(system, instance, answers, times, k - 1);
        assert IsListedAt(system, times[k - 1], host, fingerprint);
      }
    }
  }

  predicate IsListedAt(system: System, t: nat, host: Text, fingerprint: DirectoryFingerprint) {
    host in system.world(t).directories && system.world(t).directories[host].fingerprint == fingerprint
  }

  lemma LastStep(system: System, instance: Text, answers: seq<Finding>, k: nat)
    requires 0 < k <= |answers|
    ensures Through(system, instance, answers[..k]) ==
            Advance(system, instance, Through(system, instance, answers[..k - 1]), answers[k - 1])
  {
    hide Advance;
    assert answers[..k][..k - 1] == answers[..k - 1];
  }

  lemma NothingRead(system: System, instance: Text, answers: seq<Finding>, host: Text,
                    fingerprint: DirectoryFingerprint)
    ensures !IsReadingFrom(Through(system, instance, answers[..0]), host, fingerprint)
  {
  }

  // ---- The clean list ----

  /**
    The directory that a clean list was read from is still where it was, behind the same links, as long as
    no watched path is touched, whatever links are retargeted.
   */
  lemma CleanDirectoryStays(system: System, clean: Text -> Option<Text>, touched: nat -> set<Text>, fsAt: nat -> Fs,
                            spelled: Path -> Text, components: seq<Name>, instance: Text, basis: Basis, now: nat)
    requires IsCleanSpelling(clean, spelled) && RetargetsTouch(fsAt, touched, spelled)
    requires AreSeenThrough(system, fsAt, spelled, basis.snapshot.directory.hostPath, components)
    requires IsBasis(system, clean, instance, basis) && basis.upto <= now
    requires IsHonest(system, instance, basis.from, basis.upto, basis.wasSound)
    requires forall t: nat :: basis.since <= t < now ==> AreRetargets(fsAt(t), fsAt(t + 1))
    requires !IsHit(touched, basis.watched, basis.since, now)
    ensures IsSeenThrough(fsAt(now), spelled, components, basis.snapshot.directoryFingerprint)
  {
    hide AreAnswers, AreInOrder, Through, IsHonest, Watched, IsHit, RetargetsTouch, IsCleanSpelling, WalkTo, AreRetargets;
    var host, fingerprint := basis.snapshot.directory.hostPath, basis.snapshot.directoryFingerprint;
    SameLength(system, instance, basis.answers, basis.times);
    assert basis.answers[..|basis.answers|] == basis.answers;
    WasListed(system, instance, basis.answers, basis.times, |basis.answers|, host, fingerprint);
    var j :| 0 <= j < |basis.answers| && IsListedAt(system, basis.times[j], host, fingerprint);
    var listed := basis.times[j];
    HitsNarrow(touched, basis.watched, basis.since, listed, now);
    DirectoryStays(clean, spelled, fsAt, touched, components, basis.snapshot, listed, now);
  }
}
