/**
  The release script's two-asset swap: a resumable protocol against a remote draft whose calls may
  fail, with or without having taken effect.
 */
module ReleasePublisher {
  import opened Wrappers

  /** The asset names that occur: the two final ones, their pending forms for one nonce, and any other. */
  datatype Name = Archive | Checksum | PendingArchive | PendingChecksum | Foreign(text: string)

  datatype Asset = Asset(id: nat, name: Name)

  type Assets = map<nat, Name>

  /** What a run does, as far as the guarantees speak of it. */
  datatype Event =
    | Checked                          // a successful check of identity, draft state and tag
    | TagSeen                          // a successful check of the tag alone
    | LookedUp                         // the release was looked up by its tag
    | Created                          // the creation of a draft was sent
    | Uploaded(name: Name)             // an upload, a deletion or a rename was sent
    | Deleted(id: nat, name: Name)
    | Renamed(id: nat, name: Name)
    | Listed(listing: seq<Asset>)
  {
    predicate IsChange() { Uploaded? || Deleted? || Renamed? }
  }

  // ---- Traces ----

  /** Whether an identity check succeeded since the last change. */
  function IsArmed(trace: seq<Event>): bool {
    trace != [] &&
    var last := trace[|trace| - 1];
    last.Checked? || (!last.IsChange() && IsArmed(trace[..|trace| - 1]))
  }

  /** Whether a listing since the last change shows the asset under this name. */
  predicate IsShown(trace: seq<Event>, id: nat, name: Name) {
    trace != [] &&
    var last := trace[|trace| - 1];
    Lists(last, id, name) || (!last.IsChange() && IsShown(trace[..|trace| - 1], id, name))
  }

  predicate IsAbsentIn(listing: seq<Asset>, name: Name) {
    forall k :: 0 <= k < |listing| ==> listing[k].name != name
  }

  /** Whether a listing shows no asset of this name, since the run last uploaded or deleted one. */
  predicate IsSeenAbsent(trace: seq<Event>, name: Name) {
    trace != [] &&
    var last := trace[|trace| - 1];
    (last.Listed? && IsAbsentIn(last.listing, name)) ||
    (!Concerns(last, name) && IsSeenAbsent(trace[..|trace| - 1], name))
  }

  /**
    What must come before an event: before a change an identity check, before a deletion also a listing that
    shows the asset under the name it is deleted for, before an upload one that shows its name to be free,
    and before the creation of a draft, directly, a check of the tag.
   */
  predicate IsAllowed(before: seq<Event>, event: Event) {
    match event
    case Uploaded(name) => IsArmed(before) && IsSeenAbsent(before, name)
    case Deleted(id, name) => IsArmed(before) && IsShown(before, id, name)
    case Renamed(_, _) => IsArmed(before)
    case Created => before != [] && before[|before| - 1].TagSeen?
    case _ => true
  }

  ghost predicate IsGuarded(trace: seq<Event>) {
    forall k :: 0 <= k < |trace| ==> IsAllowed(trace[..k], trace[k])
  }

  ghost predicate NoChange(trace: seq<Event>) {
    forall m :: 0 <= m < |trace| ==> !trace[m].IsChange()
  }

  function LastListing(trace: seq<Event>): seq<Asset> {
    if trace == [] then []
    else if trace[|trace| - 1].Listed? then trace[|trace| - 1].listing
    else LastListing(trace[..|trace| - 1])
  }

  /** The last thing done was a successful identity check. */
  predicate EndsChecked(trace: seq<Event>) {
    trace != [] && trace[|trace| - 1].Checked?
  }

  lemma ChangeFreeGrows(trace: seq<Event>, j: nat)
    requires j < |trace| - 1 && NoChange(trace[..|trace| - 1][j + 1..]) && !trace[|trace| - 1].IsChange()
    ensures NoChange(trace[j + 1..])
  {
    assert trace[j + 1..] == trace[..|trace| - 1][j + 1..] + [trace[|trace| - 1]];
  }

  /** There is a check that no change follows. */
  lemma {:induction false} ArmedMeansChecked(trace: seq<Event>)
    requires IsArmed(trace)
    ensures exists j :: 0 <= j < |trace| && trace[j].Checked? && NoChange(trace[j + 1..])
  {
    var last := |trace| - 1;
    if trace[last].Checked? {
      assert trace[last + 1..] == [];
    } else {
      var before := trace[..last];
      ArmedMeansChecked(before);
      var j :| 0 <= j < last && before[j].Checked? && NoChange(before[j + 1..]);
      ChangeFreeGrows(trace, j);
      assert trace[j].Checked?;
    }
  }

  /** There is a listing that shows the asset and that no change follows. */
  lemma {:induction false} ShownMeansListed(trace: seq<Event>, id: nat, name: Name)
    requires IsShown(trace, id, name)
    ensures exists j :: 0 <= j < |trace| && Lists(trace[j], id, name) && NoChange(trace[j + 1..])
  {
    var last := |trace| - 1;
    if Lists(trace[last], id, name) {
      assert trace[last + 1..] == [];
    } else {
      var before := trace[..last];
      ShownMeansListed(before, id, name);
      var j :| 0 <= j < last && Lists(before[j], id, name) && NoChange(before[j + 1..]);
      ChangeFreeGrows(trace, j);
      assert Lists(trace[j], id, name);
    }
  }

  predicate Lists(event: Event, id: nat, name: Name) {
    event.Listed? && Asset(id, name) in event.listing
  }

  /** There is a listing without the name, behind which the run neither uploads nor deletes one. */
  lemma {:induction false} AbsentMeansListed(trace: seq<Event>, name: Name)
    requires IsSeenAbsent(trace, name)
    ensures exists j :: 0 <= j < |trace| && trace[j].Listed? && IsAbsentIn(trace[j].listing, name) &&
                        forall m :: j < m < |trace| ==> !Concerns(trace[m], name)
  {
    var last := |trace| - 1;
    if !(trace[last].Listed? && IsAbsentIn(trace[last].listing, name)) {
      var before := trace[..last];
      AbsentMeansListed(before, name);
      var j :| 0 <= j < last && before[j].Listed? && IsAbsentIn(before[j].listing, name) &&
               forall m :: j < m < last ==> !Concerns(before[m], name);
      assert trace[j] == before[j] && forall m :: j < m < last ==> trace[m] == before[m];
    }
  }

  predicate Concerns(event: Event, name: Name) {
    (event.Uploaded? || event.Deleted?) && event.name == name
  }

  /** A trace stays guarded if what is added is allowed there. */
  lemma GuardedGrows(trace: seq<Event>, event: Event)
    requires IsGuarded(trace) && IsAllowed(trace, event)
    ensures IsGuarded(trace + [event])
    ensures IsArmed(trace + [event]) == (event.Checked? || (!event.IsChange() && IsArmed(trace)))
    ensures LastListing(trace + [event]) == if event.Listed? then event.listing else LastListing(trace)
    ensures EndsChecked(trace + [event]) == event.Checked?
  {
    hide IsAllowed;
    var more := trace + [event];
    assert more[..|trace|] == trace;
    forall k | 0 <= k < |more|
      ensures IsAllowed(more[..k], more[k])
    {
      assert more[..k] == trace[..k];
      assert trace[..|trace|] == trace;
    }
  }

  /** What more events leave of what was shown. */
  lemma ShownGrows(trace: seq<Event>, event: Event)
    ensures forall id, name :: IsShown(trace + [event], id, name) <==>
              (event.Listed? && Asset(id, name) in event.listing) || (!event.IsChange() && IsShown(trace, id, name))
    ensures forall name :: IsSeenAbsent(trace + [event], name) <==>
              || (event.Listed? && IsAbsentIn(event.listing, name))
              || (!Concerns(event, name) && IsSeenAbsent(trace, name))
  {
    assert (trace + [event])[..|trace|] == trace;
  }

  // ---- Listings ----

  /** The service lists every asset once, in some order. */
  ghost predicate IsListing(listing: seq<Asset>, assets: Assets) {
    && (forall k :: 0 <= k < |listing| ==> listing[k].id in assets && assets[listing[k].id] == listing[k].name)
    && (forall id :: id in assets ==> Asset(id, assets[id]) in listing)
    && (forall k, m :: 0 <= k < m < |listing| ==> listing[k].id != listing[m].id)
    && |listing| == |assets|
  }

  method Listing(assets: Assets) returns (listing: seq<Asset>)
    ensures IsListing(listing, assets)
  {
    listing := [];
    var left := assets.Keys;
    while left != {}
      invariant left <= assets.Keys && |listing| + |left| == |assets.Keys|
      invariant forall id :: id in assets && id !in left ==> Asset(id, assets[id]) in listing
      invariant forall k :: 0 <= k < |listing| ==>
                  listing[k].id in assets && listing[k].id !in left && assets[listing[k].id] == listing[k].name
      invariant forall k, m :: 0 <= k < m < |listing| ==> listing[k].id != listing[m].id
      decreases left
    {
      var id :| id in left;
      listing := listing + [Asset(id, assets[id])];
      left := left - {id};
    }
  }

  // ---- The draft ----

  /** `index` says under which id each name occurs: the names are the four known ones, and none occurs twice. */
  ghost predicate Holds(assets: Assets, index: map<Name, nat>) {
    && (forall id :: id in assets ==> !assets[id].Foreign? && assets[id] in index && index[assets[id]] == id)
    && forall name :: name in index ==> index[name] in assets && assets[index[name]] == name
  }

  /** What `Holds` means without the index. */
  ghost predicate NamesAreKnownAndUnique(assets: Assets) {
    && (forall id :: id in assets ==> !assets[id].Foreign?)
    && forall i, j :: i in assets && j in assets && assets[i] == assets[j] ==> i == j
  }

  lemma HoldsIffKnownAndUnique(assets: Assets)
    ensures NamesAreKnownAndUnique(assets) <==> exists index: map<Name, nat> :: Holds(assets, index)
  {
    if NamesAreKnownAndUnique(assets) {
      var names := set id | id in assets :: assets[id];
      var index := map name | name in names :: IdOf(assets, name);
      assert forall id :: id in assets ==> assets[id] in names;
      assert Holds(assets, index);
    }
  }

  ghost function IdOf(assets: Assets, name: Name): (id: nat)
    requires exists id :: id in assets && assets[id] == name
    ensures id in assets && assets[id] == name
  {
    var id :| id in assets && assets[id] == name;
    id
  }

  ghost function At(index: map<Name, nat>, name: Name): Option<nat> {
    if name in index then Some(index[name]) else None
  }

  ghost function Without(index: map<Name, nat>, id: nat): map<Name, nat> {
    map name | name in index && index[name] != id :: index[name]
  }

  lemma RenameHolds(assets: Assets, index: map<Name, nat>, id: nat, name: Name)
    requires Holds(assets, index) && id in assets && name !in index && !name.Foreign?
    ensures Holds(assets[id := name], Without(index, id)[name := id])
  {
  }

  lemma DeleteHolds(assets: Assets, index: map<Name, nat>, id: nat)
    requires Holds(assets, index) && id in assets
    ensures Holds(assets - {id}, Without(index, id))
  {
  }

  lemma WithoutIdIsWithoutName(assets: Assets, index: map<Name, nat>, name: Name, id: nat)
    requires Holds(assets, index) && At(index, name) == Some(id)
    ensures Without(index, id) == index - {name}
  {
  }

  lemma WithoutShownId(assets: Assets, index: map<Name, nat>, name: Name, id: nat)
    requires Holds(assets, index) && id in assets && assets[id] == name
    ensures Without(index, id) == index - {name}
  {
    WithoutIdIsWithoutName(assets, index, name, id);
  }

  lemma ShownIsIndexed(assets: Assets, index: map<Name, nat>, name: Name, id: nat)
    requires Holds(assets, index)
    ensures id in assets && assets[id] == name <==> At(index, name) == Some(id)
  {
  }

  lemma IndexedAreThere(assets: Assets, index: map<Name, nat>)
    requires Holds(assets, index)
    ensures forall name :: name in index ==> index[name] in assets
  {
  }

  lemma PairIndexed(assets: Assets, index: map<Name, nat>)
    requires Holds(assets, index) && index.Keys == {Archive, Checksum}
    ensures IsPair(assets, index[Archive], index[Checksum])
  {
  }

  lemma HoldsWithOneMore(assets: Assets, index: map<Name, nat>, id: nat, name: Name)
    requires Holds(assets, index) && id !in assets && name !in index && !name.Foreign?
    ensures Holds(assets[id := name], index[name := id])
    ensures forall n :: n in index ==> index[n] in assets && index[n] != id
  {
  }

  /** Exactly the two final names, under the ids `a` and `c`. */
  predicate IsPair(assets: Assets, a: nat, c: nat) {
    a != c && assets == map[a := Archive, c := Checksum]
  }

  predicate ListsPair(listing: seq<Asset>, a: nat, c: nat) {
    |listing| == 2 && Asset(a, Archive) in listing && Asset(c, Checksum) in listing
  }

  /** The assets of a new draft: some of the pair. */
  method FirstAssets(withArchive: bool, withChecksum: bool, a: nat, c: nat)
    returns (assets: Assets, ghost index: map<Name, nat>)
    requires a != c
    ensures Holds(assets, index) && index.Keys <= {Archive, Checksum} && assets.Keys <= {a, c}
    ensures withArchive && withChecksum ==> IsPair(assets, a, c)
  {
    assets, index := map[], map[];
    if withArchive {
      assets, index := assets[a := Archive], index[Archive := a];
    }
    if withChecksum {
      assets, index := assets[c := Checksum], index[Checksum := c];
    }
  }

  /** The final loop over a listing: the ids of the pair, if the listing is exactly the pair. */
  method ReadFinalPair(listing: seq<Asset>) returns (pair: Option<(nat, nat)>)
    ensures pair.Some? ==> ListsPair(listing, pair.value.0, pair.value.1)
    ensures pair == None ==> forall a, c :: !ListsPair(listing, a, c)
  {
    var archiveId, checksumId: Option<nat> := None, None;
    var count := 0;
    for k := 0 to |listing|
      invariant count == k
      invariant archiveId == None <==> forall m :: 0 <= m < k ==> listing[m].name != Archive
      invariant checksumId == None <==> forall m :: 0 <= m < k ==> listing[m].name != Checksum
      invariant archiveId.Some? ==> Asset(archiveId.value, Archive) in listing[..k]
      invariant checksumId.Some? ==> Asset(checksumId.value, Checksum) in listing[..k]
    {
      count := count + 1;
      match listing[k].name
      case Archive =>
        if archiveId.Some? {
          NotThePair(listing, k, archiveId.value, Archive);
          return None;
        }
        archiveId := Some(listing[k].id);
      case Checksum =>
        if checksumId.Some? {
          NotThePair(listing, k, checksumId.value, Checksum);
          return None;
        }
        checksumId := Some(listing[k].id);
      case _ =>
        NotThePair(listing, k, listing[k].id, listing[k].name);
        return None;
    }
    if count != 2 || archiveId == None || checksumId == None {
      return None;
    }
    return Some((archiveId.value, checksumId.value));
  }

  lemma NotThePair(listing: seq<Asset>, k: nat, id: nat, name: Name)
    requires k < |listing| && listing[k].name == name
    requires (name.Archive? || name.Checksum?) ==> Asset(id, name) in listing[..k]
    ensures forall a, c :: !ListsPair(listing, a, c)
  {
    if |listing| == 2 {
      assert listing == [listing[0], listing[1]];
    }
  }

  /** A listing of exactly the pair is a listing of a draft that holds exactly the pair. */
  lemma PairsAreListed(assets: Assets, listing: seq<Asset>)
    requires IsListing(listing, assets)
    ensures forall a, c :: ListsPair(listing, a, c) <==> IsPair(assets, a, c)
    ensures forall a, c, m, n :: ListsPair(listing, a, c) && ListsPair(listing, m, n) ==> a == m && c == n
    ensures forall a, c :: ListsPair(listing, a, c) ==> a in assets && c in assets
  {
    forall a, c
      ensures ListsPair(listing, a, c) <==> IsPair(assets, a, c)
    {
      PairListing(assets, listing, a, c);
    }
    forall a, c, m, n | ListsPair(listing, a, c) && ListsPair(listing, m, n)
      ensures a == m && c == n
    {
      assert a in map[m := Archive, n := Checksum] && c in map[m := Archive, n := Checksum];
    }
  }

  lemma PairListing(assets: Assets, listing: seq<Asset>, a: nat, c: nat)
    requires IsListing(listing, assets)
    ensures ListsPair(listing, a, c) <==> IsPair(assets, a, c)
  {
    if ListsPair(listing, a, c) {
      assert listing == [listing[0], listing[1]];
      assert forall id :: id in assets ==> Asset(id, assets[id]) in listing;
    }
    if IsPair(assets, a, c) {
      assert Asset(a, assets[a]) in listing && Asset(c, assets[c]) in listing;
    }
  }

  /** What a listing shows under one name. */
  ghost predicate Finds(listing: seq<Asset>, name: Name, id: Option<nat>) {
    if id.Some? then Asset(id.value, name) in listing
    else forall m :: 0 <= m < |listing| ==> listing[m].name != name
  }

  lemma FindsIsIndex(assets: Assets, index: map<Name, nat>, listing: seq<Asset>, name: Name, id: Option<nat>)
    requires IsListing(listing, assets) && Holds(assets, index) && Finds(listing, name, id)
    ensures At(index, name) == id
  {
    if name in index {
      assert Asset(index[name], name) in listing;
    }
  }

  lemma FoundIsIndex(assets: Assets, index: map<Name, nat>, listing: seq<Asset>)
    requires IsListing(listing, assets) && Holds(assets, index)
    ensures forall name, id :: Finds(listing, name, id) ==> At(index, name) == id
  {
    forall name, id | Finds(listing, name, id)
      ensures At(index, name) == id
    {
      FindsIsIndex(assets, index, listing, name, id);
    }
  }

  /** A draft that only this script changed is never refused. */
  lemma KnownDraftIsAccepted(assets: Assets, index: map<Name, nat>, listing: seq<Asset>)
    requires IsListing(listing, assets) && Holds(assets, index)
    ensures forall k :: 0 <= k < |listing| ==> !listing[k].name.Foreign?
    ensures forall k, m :: 0 <= k < m < |listing| ==> listing[k].name != listing[m].name
    ensures index.Keys <= {Archive, Checksum, PendingArchive, PendingChecksum}
  {
    forall k, m | 0 <= k < m < |listing|
      ensures listing[k].name != listing[m].name
    {
      assert listing[k].id in assets && listing[m].id in assets;
    }
  }

  /** The listing loop of the main sequence: the ids under the four names, or a refusal. */
  method Classify(listing: seq<Asset>)
    returns (ok: bool, archive: Option<nat>, checksum: Option<nat>, pendingArchive: Option<nat>, pendingChecksum: Option<nat>)
    ensures ok ==> && Finds(listing, Archive, archive) && Finds(listing, Checksum, checksum)
                   && Finds(listing, PendingArchive, pendingArchive) && Finds(listing, PendingChecksum, pendingChecksum)
                   && forall k :: 0 <= k < |listing| ==> !listing[k].name.Foreign?
    ensures !ok ==> || (exists k :: 0 <= k < |listing| && listing[k].name.Foreign?)
                    || exists k, m :: 0 <= k < m < |listing| && listing[k].name == listing[m].name
  {
    archive, checksum, pendingArchive, pendingChecksum := None, None, None, None;
    for k := 0 to |listing|
      invariant Finds(listing[..k], Archive, archive) && Finds(listing[..k], Checksum, checksum)
      invariant Finds(listing[..k], PendingArchive, pendingArchive) && Finds(listing[..k], PendingChecksum, pendingChecksum)
      invariant forall m :: 0 <= m < k ==> !listing[m].name.Foreign?
    {
      var id := listing[k].id;
      assert listing[..k + 1] == listing[..k] + [listing[k]];
      match listing[k].name
      case Archive =>
        if archive.Some? {
          return false, None, None, None, None;
        }
        archive := Some(id);
      case Checksum =>
        if checksum.Some? {
          return false, None, None, None, None;
        }
        checksum := Some(id);
      case PendingArchive =>
        if pendingArchive.Some? {
          return false, None, None, None, None;
        }
        pendingArchive := Some(id);
      case PendingChecksum =>
        if pendingChecksum.Some? {
          return false, None, None, None, None;
        }
        pendingChecksum := Some(id);
      case Foreign(_) =>
        return false, None, None, None, None;
    }
    assert listing[..|listing|] == listing;
    ok := true;
  }

  class Publisher {
    // The remote side.
    const exclusive: bool          // whether nobody else changes the draft or its tag
    const archiveBytes: nat        // the local archive, and so for the checksum
    const checksumBytes: nat
    var releaseExists: bool              // the release that carries the tag
    var draft: bool
    var tagMatches: bool           // whether the tag resolves to the expected commit
    var assets: Assets
    var contents: map<nat, nat>    // the bytes behind an asset id never change

    // The script's variables.
    var captured: bool             // whether the release id is known
    var pendingNamed: bool         // whether the pending names are known
    var archivePendingId: Option<nat>
    var checksumPendingId: Option<nat>

    ghost var index: map<Name, nat>
    ghost var trace: seq<Event>
    ghost var knownUploads: map<Name, nat>     // the uploads of this run whose ids were reported

    constructor (exclusive: bool, archiveBytes: nat, checksumBytes: nat, releaseExists: bool, draft: bool, tagMatches: bool,
                 assets: Assets, contents: map<nat, nat>, ghost index: map<Name, nat>)
      ensures this.exclusive == exclusive && this.archiveBytes == archiveBytes && this.checksumBytes == checksumBytes
      ensures this.releaseExists == releaseExists && this.draft == draft && this.tagMatches == tagMatches
      ensures this.assets == assets && this.contents == contents && this.index == index && trace == []
      ensures knownUploads == map[] && IdsAreRecorded()
    {
      this.exclusive, this.archiveBytes, this.checksumBytes := exclusive, archiveBytes, checksumBytes;
      this.releaseExists, this.draft, this.tagMatches := releaseExists, draft, tagMatches;
      this.assets, this.contents, this.index, trace := assets, contents, index, [];
      captured, pendingNamed, archivePendingId, checksumPendingId := false, false, None, None;
      knownUploads := map[];
    }

    /** What the script remembers of its upload under a pending name. */
    function RecordedId(name: Name): Option<nat>
      reads this`archivePendingId, this`checksumPendingId
    {
      if name.PendingArchive? then archivePendingId else if name.PendingChecksum? then checksumPendingId else None
    }

    /** What the exit handler relies on: each upload with a known id is remembered until it has another name. */
    ghost predicate IdsAreRecorded()
      reads this`archivePendingId, this`checksumPendingId, this`captured, this`pendingNamed, this`knownUploads, this`index
    {
      && (archivePendingId.Some? || checksumPendingId.Some? ==> captured && pendingNamed)
      && knownUploads.Keys <= {PendingArchive, PendingChecksum}
      && (exclusive ==> forall name :: name in knownUploads ==>
            RecordedId(name) == Some(knownUploads[name]) || At(index, name) != Some(knownUploads[name]))
    }

    lemma NothingRecorded()
      requires archivePendingId == None && checksumPendingId == None && knownUploads == map[]
      ensures IdsAreRecorded()
    {
    }

    /** The id is known, and the bytes behind it are these. */
    ghost predicate HasBytes(id: Option<nat>, bytes: nat)
      reads this`contents
    {
      id.Some? && id.value in contents && contents[id.value] == bytes
    }

    /** Both staged assets are known to hold the local files. */
    ghost predicate StagedAreVerified()
      reads this`contents, this`archivePendingId, this`checksumPendingId
    {
      HasBytes(archivePendingId, archiveBytes) && HasBytes(checksumPendingId, checksumBytes)
    }

    /** The bytes that belong under a name. */
    function LocalBytes(name: Name): nat {
      if name.Archive? || name.PendingArchive? then archiveBytes else checksumBytes
    }

    /** What every run keeps: known, unique names, and only whole local files under pending names. */
    ghost predicate Recoverable()
      reads this`assets, this`contents, this`index
    {
      && Holds(assets, index) && assets.Keys <= contents.Keys
      && (PendingArchive in index ==> contents[index[PendingArchive]] == archiveBytes)
      && (PendingChecksum in index ==> contents[index[PendingChecksum]] == checksumBytes)
    }

    /** The draft holds exactly the two correct assets. */
    ghost predicate IsComplete()
      reads this`assets, this`contents
    {
      exists a, c ::
        && IsPair(assets, a, c)
        && a in contents && contents[a] == archiveBytes && c in contents && contents[c] == checksumBytes
    }

    /** A listing that shows exactly the two names, with the local bytes behind both ids. */
    ghost predicate ShowsPair(listing: seq<Asset>)
      reads this`contents
    {
      exists a, c ::
        && ListsPair(listing, a, c)
        && a in contents && contents[a] == archiveBytes && c in contents && contents[c] == checksumBytes
    }

    twostate predicate RemoteSame()
      reads this
    {
      && releaseExists == old(releaseExists) && draft == old(draft) && tagMatches == old(tagMatches)
      && assets == old(assets) && contents == old(contents) && index == old(index)
    }

    /** The bytes behind an id and the events so far stay. */
    twostate predicate ContentsKept()
      reads this
    {
      old(trace) <= trace &&
      forall id :: id in old(contents) ==> id in contents && contents[id] == old(contents[id])
    }

    // ---- Single calls ----

    /** What was shown, or shown to be free, still counts. */
    twostate predicate KeepsSightings()
      reads this`trace
    {
      && (forall id, name :: old(IsShown(trace, id, name)) ==> IsShown(trace, id, name))
      && (forall name :: old(IsSeenAbsent(trace, name)) ==> IsSeenAbsent(trace, name))
    }

    /** An event is put on record. */
    ghost method Log(event: Event)
      requires IsGuarded(trace) && IsAllowed(trace, event)
      modifies this`trace
      ensures IsGuarded(trace) && trace == old(trace) + [event]
      ensures IsArmed(trace) == (event.Checked? || (!event.IsChange() && old(IsArmed(trace))))
      ensures LastListing(trace) == if event.Listed? then event.listing else old(LastListing(trace))
      ensures EndsChecked(trace) == event.Checked?
      ensures !event.IsChange() ==> KeepsSightings()
      ensures event.Listed? ==> forall id, name :: Asset(id, name) in event.listing ==> IsShown(trace, id, name)
      ensures event.Listed? ==> forall name :: IsAbsentIn(event.listing, name) ==> IsSeenAbsent(trace, name)
      ensures event.Uploaded? ==>
                forall other :: other != event.name && old(IsSeenAbsent(trace, other)) ==> IsSeenAbsent(trace, other)
    {
      hide IsGuarded, IsArmed, LastListing, IsShown, IsSeenAbsent, IsAbsentIn, IsAllowed;
      GuardedGrows(trace, event);
      ShownGrows(trace, event);
      trace := trace + [event];
    }

    /** What others do before a call. */
    method Interfere()
      modifies this`releaseExists, this`draft, this`tagMatches, this`assets, this`contents
      ensures exclusive ==> RemoteSame()
      ensures ContentsKept()
    {
      if !exclusive {
        releaseExists, draft, tagMatches, assets := *, *, *, *;
        var more: map<nat, nat> := *;
        contents := more + contents;
      }
    }

    /** `tag_matches_expected_commit`. */
    method CheckTag(flawless: bool) returns (ok: bool)
      requires IsGuarded(trace)
      modifies this`releaseExists, this`draft, this`tagMatches, this`assets, this`contents, this`trace
      ensures exclusive ==> RemoteSame()
      ensures ContentsKept()
      ensures ok ==> tagMatches
      ensures IsGuarded(trace) && trace == old(trace) + if ok then [TagSeen] else []
      ensures IsArmed(trace) == old(IsArmed(trace)) && LastListing(trace) == old(LastListing(trace)) && KeepsSightings()
      ensures exclusive && flawless ==> ok == tagMatches
    {
      hide IsShown, IsSeenAbsent, EndsChecked, IsGuarded, IsArmed, LastListing;
      Interfere();
      var fails: bool := *;
      ok := tagMatches && (flawless || !fails);
      if ok {
        Log(TagSeen);
      }
    }

    /** `ensure_publication_identity`. */
    method CheckIdentity(flawless: bool) returns (ok: bool)
      requires IsGuarded(trace)
      modifies this`releaseExists, this`draft, this`tagMatches, this`assets, this`contents, this`trace
      ensures IsGuarded(trace) && ContentsKept()
      ensures exclusive ==> RemoteSame()
      ensures trace == old(trace) || trace == old(trace) + [TagSeen] || trace == old(trace) + [TagSeen, Checked]
      ensures ok ==> EndsChecked(trace) && IsArmed(trace) && tagMatches
      ensures exclusive && ok ==> IdentityHolds()
      ensures LastListing(trace) == old(LastListing(trace))
      ensures KeepsSightings()
      ensures exclusive && flawless && IdentityHolds() ==> ok
    {
      hide IsShown, IsSeenAbsent, EndsChecked, IsGuarded, IsArmed, LastListing, IsShown, IsSeenAbsent;
      Interfere();
      var fails: bool := *;
      ok := releaseExists && draft && (flawless || !fails);
      if ok {
        ok := CheckTag(flawless);
      }
      if ok {
        Log(Checked);
        assert old(trace) + [TagSeen] + [Checked] == old(trace) + [TagSeen, Checked];
      }
    }

    /** `list_assets`. */
    method ListAssets(flawless: bool) returns (r: Option<seq<Asset>>)
      requires IsGuarded(trace)
      modifies this`releaseExists, this`draft, this`tagMatches, this`assets, this`contents, this`trace
      ensures IsGuarded(trace) && ContentsKept()
      ensures exclusive ==> RemoteSame()
      ensures IsArmed(trace) == old(IsArmed(trace))
      ensures r.Some? ==> IsListing(r.value, assets) && LastListing(trace) == r.value
      ensures r.Some? ==> trace == old(trace) + [Listed(r.value)]
      ensures r.Some? ==> forall id, name :: Asset(id, name) in r.value ==> IsShown(trace, id, name)
      ensures r.Some? ==> forall name :: IsAbsentIn(r.value, name) ==> IsSeenAbsent(trace, name)
      ensures KeepsSightings()
      ensures exclusive && flawless ==> r.Some?
    {
      hide IsShown, IsSeenAbsent, EndsChecked, IsGuarded, IsArmed, LastListing, IsShown, IsSeenAbsent, IsListing, IsAbsentIn;
      Interfere();
      var fails: bool := *;
      if fails && !flawless {
        return None;
      }
      var listing := Listing(assets);
      Log(Listed(listing));
      return Some(listing);
    }

    /** `lookup_asset_name_by_id` and the comparison every caller makes: does the listing show `id` as `name`? */
    method ShowsAs(id: nat, name: Name, flawless: bool) returns (ok: bool)
      requires IsGuarded(trace)
      modifies this`releaseExists, this`draft, this`tagMatches, this`assets, this`contents, this`trace
      ensures IsGuarded(trace) && ContentsKept()
      ensures exclusive ==> RemoteSame()
      ensures IsArmed(trace) == old(IsArmed(trace))
      ensures ok ==> id in assets && assets[id] == name && IsShown(trace, id, name)
      ensures KeepsSightings()
      ensures exclusive && flawless && id in assets && assets[id] == name ==> ok
    {
      hide IsGuarded, IsArmed, IsShown, IsSeenAbsent;
      var listed := ListAssets(flawless);
      if listed == None {
        return false;
      }
      var listing := listed.value;
      var found: Option<Name> := None;
      for k := 0 to |listing|
        invariant found == None <==> forall m :: 0 <= m < k ==> listing[m].id != id
        invariant found.Some? ==> Asset(id, found.value) in listing[..k]
      {
        if listing[k].id == id {
          if found.Some? {
            return false;
          }
          found := Some(listing[k].name);
        }
      }
      ok := found == Some(name);
    }

    /** `lookup_asset_id_by_name`: status 0 with an id, 1 for none, 2 for a failed listing, 3 for two. */
    method LookUpByName(name: Name, flawless: bool) returns (status: int, id: nat)
      requires IsGuarded(trace)
      modifies this`releaseExists, this`draft, this`tagMatches, this`assets, this`contents, this`trace
      ensures IsGuarded(trace) && ContentsKept()
      ensures exclusive ==> RemoteSame()
      ensures IsArmed(trace) == old(IsArmed(trace))
      ensures status == 0 ==> id in assets && assets[id] == name && forall i :: i in assets && assets[i] == name ==> i == id
      ensures status == 0 ==> IsShown(trace, id, name)
      ensures status == 1 ==> (forall i :: i in assets ==> assets[i] != name) && IsSeenAbsent(trace, name)
      ensures KeepsSightings()
      ensures status == 3 ==> exists i, j :: i in assets && j in assets && i != j && assets[i] == assets[j] == name
      ensures status in {0, 1, 2, 3} && (exclusive && flawless ==> status != 2)
    {
      hide IsGuarded, IsArmed, IsShown, IsSeenAbsent;
      id := 0;
      var listed := ListAssets(flawless);
      if listed == None {
        return 2, 0;
      }
      var listing := listed.value;
      status := 1;
      for k := 0 to |listing|
        invariant status == 1 || status == 0
        invariant status == 1 ==> forall m :: 0 <= m < k ==> listing[m].name != name
        invariant status == 0 ==> Asset(id, name) in listing[..k] &&
                                  forall m :: 0 <= m < k && listing[m].name == name ==> listing[m].id == id
      {
        if listing[k].name == name {
          if status == 0 {
            var m :| 0 <= m < k && listing[m] == Asset(id, name);
            assert listing[m].id in assets && listing[k].id in assets;
            return 3, 0;
          }
          status, id := 0, listing[k].id;
        }
      }
      forall i | i in assets && assets[i] == name
        ensures status == 0 && i == id
      {
        assert Asset(i, name) in listing;
      }
    }

    /** `verify_asset_bytes`. */
    method VerifyBytes(id: nat, bytes: nat, flawless: bool) returns (ok: bool)
      modifies this`releaseExists, this`draft, this`tagMatches, this`assets, this`contents
      ensures ContentsKept()
      ensures exclusive ==> RemoteSame()
      ensures ok ==> id in contents && contents[id] == bytes
      ensures exclusive && flawless && id in assets && id in contents && contents[id] == bytes ==> ok
    {
      Interfere();
      var fails: bool := *;
      ok := id in assets && id in contents && contents[id] == bytes && (flawless || !fails);
    }

    /** The upload of a local file under a pending name that is free. */
    method SendUpload(name: Name, flawless: bool) returns (ok: bool, id: nat)
      requires IsGuarded(trace) && IsArmed(trace) && IsSeenAbsent(trace, name) && (name.PendingArchive? || name.PendingChecksum?)
      requires exclusive ==> Recoverable() && name !in index
      modifies this`releaseExists, this`draft, this`tagMatches, this`assets, this`contents, this`index, this`trace,
               this`knownUploads
      ensures IsGuarded(trace) && ContentsKept() && trace == old(trace) + [Uploaded(name)]
      ensures forall other :: other != name && old(IsSeenAbsent(trace, other)) ==> IsSeenAbsent(trace, other)
      ensures knownUploads == (if ok then old(knownUploads)[name := id] else old(knownUploads))
      ensures exclusive ==> Recoverable() && releaseExists == old(releaseExists) && draft == old(draft) && tagMatches == old(tagMatches)
      ensures exclusive ==> forall other :: other != name ==> At(index, other) == At(old(index), other)
      ensures ok && exclusive ==> HasBytes(Some(id), LocalBytes(name))
      ensures ok && exclusive ==> id !in old(contents) && assets == old(assets)[id := name] && index == old(index)[name := id]
      ensures exclusive && flawless ==> ok
    {
      hide Holds, IsGuarded, IsArmed, LastListing, IsSeenAbsent, IsShown;
      Interfere();
      Log(Uploaded(name));
      var happens, reported: bool := *, *;
      ok := false;
      id := FreshId(contents.Keys + assets.Keys);
      if happens || flawless {
        Receive(id, name);
        ok := reported || flawless;
      }
      // With others at work the reported id is taken on trust until it is confirmed.
      var reportedId: int := *;
      if !exclusive && reportedId >= 0 {
        id := reportedId;
      }
      knownUploads := if ok then knownUploads[name := id] else knownUploads;
    }

    /** The service stores an upload. */
    method Receive(id: nat, name: Name)
      requires id !in contents && id !in assets && (name.PendingArchive? || name.PendingChecksum?)
      requires exclusive ==> Recoverable() && name !in index
      modifies this`assets, this`contents, this`index
      ensures ContentsKept() && assets == old(assets)[id := name] && index == old(index)[name := id]
      ensures contents == old(contents)[id := LocalBytes(name)]
      ensures exclusive ==> Recoverable()
    {
      hide Holds;
      if exclusive {
        HoldsWithOneMore(assets, index, id, name);
      }
      assets, contents, index := assets[id := name], contents[id := LocalBytes(name)], index[name := id];
    }

    method FreshId(used: set<nat>) returns (id: nat)
      ensures id !in used
    {
      id := 0;
      var left := used;
      while id in used
        invariant left <= used && forall i: nat :: i in used && i >= id ==> i in left
        decreases left
      {
        left := left - {id};
        id := id + 1;
      }
    }

    /** The deletion of an asset. */
    method SendDelete(id: nat, ghost name: Name, flawless: bool) returns (ok: bool)
      requires IsGuarded(trace) && IsArmed(trace) && IsShown(trace, id, name)
      requires exclusive ==> Recoverable() && id in assets
      modifies this`releaseExists, this`draft, this`tagMatches, this`assets, this`contents, this`index, this`trace
      ensures IsGuarded(trace) && ContentsKept() && trace == old(trace) + [Deleted(id, name)]
      ensures exclusive ==> Recoverable() && releaseExists == old(releaseExists) && draft == old(draft) && tagMatches == old(tagMatches)
      ensures exclusive ==> contents == old(contents)
      ensures exclusive ==> (assets == old(assets) && index == old(index)) ||
                            (assets == old(assets) - {id} && index == Without(old(index), id))
      ensures ok && exclusive ==> assets == old(assets) - {id} && index == Without(old(index), id)
      ensures exclusive && flawless ==> ok
    {
      hide IsGuarded, Holds, IsArmed, LastListing, IsShown, IsSeenAbsent;
      Interfere();
      Log(Deleted(id, name));
      var happens, reported: bool := *, *;
      ok := false;
      if exclusive {
        DeleteHolds(assets, index, id);
      }
      if happens || flawless {
        assets, index := assets - {id}, Without(index, id);
        ok := reported || flawless;
      }
    }

    /** The renaming of a pending asset to its final name, which is free. */
    method SendRename(id: nat, name: Name, flawless: bool) returns (ok: bool)
      requires IsGuarded(trace) && IsArmed(trace) && (name.Archive? || name.Checksum?)
      requires exclusive ==> Recoverable() && id in assets && name !in index
      modifies this`releaseExists, this`draft, this`tagMatches, this`assets, this`contents, this`index, this`trace
      ensures IsGuarded(trace) && ContentsKept() && trace == old(trace) + [Renamed(id, name)]
      ensures exclusive ==> Recoverable() && releaseExists == old(releaseExists) && draft == old(draft) && tagMatches == old(tagMatches)
      ensures exclusive ==> contents == old(contents)
      ensures exclusive ==> (assets == old(assets) && index == old(index)) ||
                            (assets == old(assets)[id := name] && index == Without(old(index), id)[name := id])
      ensures ok && exclusive ==> assets == old(assets)[id := name] && index == Without(old(index), id)[name := id]
      ensures exclusive && flawless ==> ok
    {
      hide IsGuarded, Holds, IsArmed, LastListing, IsShown, IsSeenAbsent;
      Interfere();
      Log(Renamed(id, name));
      var happens, reported: bool := *, *;
      ok := false;
      if exclusive {
        RenameHolds(assets, index, id, name);
      }
      if (happens || flawless) && id in assets {
        assets, index := assets[id := name], Without(index, id)[name := id];
        ok := reported || flawless;
      }
    }

    // ---- The protocol ----

    /** What each part of the protocol keeps, whoever else acts and whatever fails. */
    ghost predicate Sound()
      reads this
    {
      IsGuarded(trace) && (exclusive ==> Recoverable())
    }

    /** The draft is there, is a draft, and its tag is right. */
    ghost predicate IdentityHolds()
      reads this`releaseExists, this`draft, this`tagMatches
    {
      releaseExists && draft && tagMatches
    }

    twostate predicate IdentitySame()
      reads this
    {
      releaseExists == old(releaseExists) && draft == old(draft) && tagMatches == old(tagMatches)
    }

    /** `delete_pending_during_cleanup`.  If its calls work, the upload does not stay under its pending name. */
    method DeletePending(pendingId: Option<nat>, name: Name, reliable: bool)
      requires Sound()
      modifies this`releaseExists, this`draft, this`tagMatches, this`assets, this`contents, this`index, this`trace
      ensures Sound() && ContentsKept()
      ensures exclusive ==> IdentitySame() && contents == old(contents)
      ensures exclusive ==> index == old(index) || (index == old(index) - {name} && At(old(index), name) == pendingId)
      ensures exclusive && reliable && IdentityHolds() && captured && pendingNamed && pendingId.Some? ==>
                At(index, name) != pendingId
    {
      hide Holds, IsGuarded, IsArmed, IsShown, IsSeenAbsent;
      if !captured || pendingId == None || !pendingNamed {
        return;
      }
      if exclusive {
        ShownIsIndexed(assets, index, name, pendingId.value);
      }
      var ok := CheckIdentity(reliable);
      if !ok {
        return;
      }
      ok := ShowsAs(pendingId.value, name, reliable);
      if !ok {
        return;
      }
      if exclusive {
        WithoutShownId(assets, index, name, pendingId.value);
      }
      ok := SendDelete(pendingId.value, name, reliable);
      if !ok {
        return;
      }
      ok := CheckIdentity(reliable);
    }

    /** No upload whose id was reported in this run is left under its pending name. */
    ghost predicate NoUploadRemains()
      reads this`index, this`knownUploads
    {
      forall name :: name in knownUploads ==> At(index, name) != Some(knownUploads[name])
    }

    /**
      `cleanup`: at most the two pending assets disappear, and after a failure, if the handler's calls work
      (`reliable`), every upload whose id was reported does.
     */
    method CleanUp(ok: bool, reliable: bool)
      requires Sound() && IdsAreRecorded()
      modifies this`releaseExists, this`draft, this`tagMatches, this`assets, this`contents, this`index, this`trace
      ensures Sound() && ContentsKept()
      ensures exclusive ==> IdentitySame() && contents == old(contents)
      ensures exclusive ==> index - {PendingArchive, PendingChecksum} == old(index) - {PendingArchive, PendingChecksum}
      ensures exclusive && reliable && IdentityHolds() && !ok ==> NoUploadRemains()
      ensures ok ==> RemoteSame() && trace == old(trace)
    {
      hide IsGuarded, Recoverable;
      if !ok {
        DeletePending(archivePendingId, PendingArchive, reliable);
        DeletePending(checksumPendingId, PendingChecksum, reliable);
      }
    }

    /** `verify_final_pair`. */
    method VerifyFinalPair(flawless: bool) returns (ok: bool)
      requires Sound()
      modifies this`releaseExists, this`draft, this`tagMatches, this`assets, this`contents, this`trace
      ensures Sound() && ContentsKept()
      ensures exclusive ==> RemoteSame()
      ensures ok ==> ShowsPair(LastListing(trace)) && EndsChecked(trace)
      ensures ok && exclusive ==> IsComplete()
      ensures exclusive && flawless && IdentityHolds() && IsComplete() ==> ok
    {
      hide IsShown, IsSeenAbsent, EndsChecked, IsGuarded, IsArmed, LastListing, Holds, IsListing, IsPair, ListsPair;
      ok := CheckIdentity(flawless);
      if !ok {
        return;
      }
      var listed := ListAssets(flawless);
      if listed == None {
        return false;
      }
      var pair := ReadFinalPair(listed.value);
      PairsAreListed(assets, listed.value);
      if pair == None {
        return false;
      }
      ok := VerifyBytes(pair.value.0, archiveBytes, flawless);
      if !ok {
        return;
      }
      ok := VerifyBytes(pair.value.1, checksumBytes, flawless);
      if !ok {
        return;
      }
      ok := CheckIdentity(flawless);
    }

    /** The first part of the main sequence: what is on the draft, and that nothing foreign is. */
    method VerifyRecovery(recoveryArchiveId: Option<nat>, recoveryChecksumId: Option<nat>, flawless: bool)
      returns (ok: bool)
      requires Sound()
      modifies this`releaseExists, this`draft, this`tagMatches, this`assets, this`contents, this`trace
      ensures Sound() && ContentsKept()
      ensures exclusive ==> RemoteSame()
      ensures exclusive && flawless && IdentityHolds() && Recoverable() &&
              recoveryArchiveId == At(index, PendingArchive) && recoveryChecksumId == At(index, PendingChecksum)
              ==> ok
      ensures ok && recoveryArchiveId.Some? ==> HasBytes(recoveryArchiveId, archiveBytes)
      ensures ok && recoveryChecksumId.Some? ==> HasBytes(recoveryChecksumId, checksumBytes)
      ensures ok && (recoveryArchiveId.Some? || recoveryChecksumId.Some?) ==> EndsChecked(trace)
      ensures KeepsSightings()
    {
      hide IsShown, IsSeenAbsent, EndsChecked, IsGuarded, IsArmed, LastListing;
      for k := 0 to 2
        invariant Sound() && ContentsKept()
        invariant k > 0 && recoveryArchiveId.Some? ==> HasBytes(recoveryArchiveId, archiveBytes)
        invariant k > 1 && recoveryChecksumId.Some? ==> HasBytes(recoveryChecksumId, checksumBytes)
        invariant exclusive ==> RemoteSame()
        invariant (k > 0 && recoveryArchiveId.Some?) || (k > 1 && recoveryChecksumId.Some?) ==> EndsChecked(trace)
        invariant KeepsSightings()
      {
        var id := if k == 0 then recoveryArchiveId else recoveryChecksumId;
        if id.Some? {
          ok := CheckIdentity(flawless);
          if !ok {
            return;
          }
          ok := VerifyBytes(id.value, if k == 0 then archiveBytes else checksumBytes, flawless);
          if !ok {
            return;
          }
          ok := CheckIdentity(flawless);
          if !ok {
            return;
          }
        }
      }
      ok := true;
    }

    /** The deletion of one verified interrupted upload. */
    method RemoveRecovery(id: nat, name: Name, flawless: bool) returns (ok: bool)
      requires Sound() && HasBytes(Some(id), LocalBytes(name)) && (exclusive ==> At(index, name) == Some(id))
      modifies this`releaseExists, this`draft, this`tagMatches, this`assets, this`contents, this`index, this`trace
      ensures Sound() && ContentsKept()
      ensures exclusive ==> IdentitySame()
      ensures ok && exclusive ==> index == old(index) - {name}
      ensures ok ==> EndsChecked(trace)
      ensures old(IdsAreRecorded()) ==> IdsAreRecorded()
      ensures exclusive && flawless && IdentityHolds() ==> ok
    {
      hide IsShown, IsSeenAbsent, EndsChecked, IsGuarded, IsArmed, LastListing;
      if exclusive {
        WithoutIdIsWithoutName(assets, index, name, id);
      }
      ok := CheckIdentity(flawless);
      if !ok {
        return;
      }
      var status, found := LookUpByName(name, flawless);
      if status != 0 || found != id {
        return false;
      }
      ok := SendDelete(id, name, flawless);
      if !ok {
        return;
      }
      ok := CheckIdentity(flawless);
    }

    /** `require_asset_name_absent`. */
    method RequireAbsent(name: Name, flawless: bool) returns (ok: bool)
      requires Sound()
      modifies this`releaseExists, this`draft, this`tagMatches, this`assets, this`contents, this`trace
      ensures Sound() && ContentsKept()
      ensures exclusive ==> RemoteSame()
      ensures ok ==> IsSeenAbsent(trace, name)
      ensures ok && exclusive ==> name !in index
      ensures KeepsSightings()
      ensures exclusive && flawless && name !in index ==> ok
    {
      hide IsShown, IsSeenAbsent, EndsChecked, IsGuarded, IsArmed, LastListing;
      var status, found := LookUpByName(name, flawless);
      ok := status == 1;
    }

    /** `upload_pending_asset` and the verification of its bytes; the id is recorded as soon as it is known. */
    method StageAsset(name: Name, flawless: bool) returns (ok: bool)
      requires Sound() && (name.PendingArchive? || name.PendingChecksum?)
      requires IdsAreRecorded() && captured && pendingNamed && name !in knownUploads
      requires IsSeenAbsent(trace, name) && (exclusive ==> name !in index)
      modifies this
      ensures Sound() && ContentsKept()
      ensures exclusive ==> IdentitySame()
      ensures captured == old(captured) && pendingNamed == old(pendingNamed)
      ensures IdsAreRecorded() && knownUploads.Keys <= old(knownUploads).Keys + {name}
      ensures forall other :: other != name && old(IsSeenAbsent(trace, other)) ==> IsSeenAbsent(trace, other)
      ensures ok ==> RecordedId(name).Some? && IsShown(trace, RecordedId(name).value, name)
      ensures name.PendingArchive? ==> checksumPendingId == old(checksumPendingId)
      ensures name.PendingChecksum? ==> archivePendingId == old(archivePendingId)
      ensures ok ==> exists id ::
                && RecordedId(name) == Some(id)
                && HasBytes(Some(id), LocalBytes(name)) && (exclusive ==> index == old(index)[name := id])
      ensures exclusive && flawless && IdentityHolds() ==> ok
    {
      hide IsShown, IsSeenAbsent, EndsChecked, IsGuarded, IsArmed, LastListing, Holds;
      ok := CheckIdentity(flawless);
      if !ok {
        return;
      }
      ghost var before := index;
      var id: nat;
      ok, id := SendUpload(name, flawless);
      if !ok {
        return;
      }
      if name.PendingArchive? {
        archivePendingId := Some(id);
      } else {
        checksumPendingId := Some(id);
      }
      ok := ConfirmStaged(id, name, flawless);
      assert exclusive ==> index == before[name := id];
    }

    /** What is asked of an upload whose id is known. */
    method ConfirmStaged(id: nat, name: Name, flawless: bool) returns (ok: bool)
      requires Sound() && (name.PendingArchive? || name.PendingChecksum?)
      modifies this`releaseExists, this`draft, this`tagMatches, this`assets, this`contents, this`trace
      ensures Sound() && ContentsKept()
      ensures exclusive ==> RemoteSame()
      ensures (exclusive && flawless && IdentityHolds() && id in assets && assets[id] == name &&
               contents[id] == LocalBytes(name)) ==> ok
      ensures ok ==> HasBytes(Some(id), LocalBytes(name)) && IsShown(trace, id, name)
      ensures KeepsSightings()
    {
      hide IsShown, IsSeenAbsent, EndsChecked, IsGuarded, IsArmed, LastListing, Holds;
      ok := CheckIdentity(flawless);
      if !ok {
        return;
      }
      ok := ShowsAs(id, name, flawless);
      if !ok {
        return;
      }
      ok := VerifyBytes(id, LocalBytes(name), flawless);
    }

    /** The deletion of one prior asset. */
    method RemovePrior(id: nat, name: Name, flawless: bool) returns (ok: bool)
      requires Sound() && StagedAreVerified() && (exclusive ==> At(index, name) == Some(id))
      modifies this`releaseExists, this`draft, this`tagMatches, this`assets, this`contents, this`index, this`trace
      ensures Sound() && ContentsKept()
      ensures exclusive ==> IdentitySame()
      ensures ok && exclusive ==> index == old(index) - {name}
      ensures ok ==> EndsChecked(trace)
      ensures old(IdsAreRecorded()) ==> IdsAreRecorded()
      ensures exclusive && flawless && IdentityHolds() ==> ok
    {
      hide IsShown, IsSeenAbsent, EndsChecked, IsGuarded, IsArmed, LastListing;
      if exclusive {
        WithoutIdIsWithoutName(assets, index, name, id);
      }
      ok := CheckIdentity(flawless);
      if !ok {
        return;
      }
      ok := ShowsAs(id, name, flawless);
      if !ok {
        return;
      }
      ok := SendDelete(id, name, flawless);
      if !ok {
        return;
      }
      ok := CheckIdentity(flawless);
    }

    /** The renaming of one staged asset, with the checks around it; afterwards its id is forgotten. */
    method RenameStaged(pending: Name, name: Name, flawless: bool) returns (ok: bool)
      requires Sound() && (name.Archive? || name.Checksum?)
      requires pending == if name.Archive? then PendingArchive else PendingChecksum
      requires if name.Archive? then archivePendingId.Some? else checksumPendingId.Some?
      requires exclusive ==> name !in index
      requires exclusive ==> At(index, pending) == if name.Archive? then archivePendingId else checksumPendingId
      modifies this
      ensures Sound() && ContentsKept()
      ensures exclusive ==> IdentitySame() && contents == old(contents)
      ensures captured == old(captured) && pendingNamed == old(pendingNamed)
      ensures name.Archive? ==> checksumPendingId == old(checksumPendingId)
      ensures name.Checksum? ==> archivePendingId == old(archivePendingId)
      ensures ok && exclusive ==>
                index == (old(index) - {pending})[name := old(index)[pending]]
      ensures knownUploads == old(knownUploads) && (old(IdsAreRecorded()) ==> IdsAreRecorded())
      ensures ok ==> EndsChecked(trace) && RecordedId(pending) == None
      ensures exclusive && flawless && IdentityHolds() ==> ok
    {
      hide IsShown, IsSeenAbsent, EndsChecked, IsGuarded, IsArmed, LastListing, Holds;
      if exclusive {
        WithoutIdIsWithoutName(assets, index, pending, index[pending]);
        IndexedAreThere(assets, index);
      }
      ok := CheckIdentity(flawless);
      if !ok {
        return;
      }
      var id := if name.Archive? then archivePendingId.value else checksumPendingId.value;
      ok := SendRename(id, name, flawless);
      if !ok {
        return;
      }
      if name.Archive? {
        archivePendingId := None;
      } else {
        checksumPendingId := None;
      }
      ok := CheckIdentity(flawless);
    }

    /** The listing of the draft and what it shows under the four names. */
    method ReadDraft(flawless: bool)
      returns (ok: bool, archive: Option<nat>, checksum: Option<nat>, pendingArchive: Option<nat>, pendingChecksum: Option<nat>)
      requires Sound()
      modifies this`releaseExists, this`draft, this`tagMatches, this`assets, this`contents, this`trace,
               this`pendingNamed
      ensures Sound() && ContentsKept()
      ensures exclusive ==> RemoteSame()
      ensures ok && exclusive ==>
                && At(index, Archive) == archive && At(index, Checksum) == checksum
                && At(index, PendingArchive) == pendingArchive && At(index, PendingChecksum) == pendingChecksum
                && index.Keys <= {Archive, Checksum, PendingArchive, PendingChecksum}
      ensures ok ==> pendingNamed
      ensures exclusive && flawless && IdentityHolds() ==> ok
    {
      hide IsShown, IsSeenAbsent, EndsChecked, IsGuarded, IsArmed, LastListing, IsListing, Finds, Holds;
      archive, checksum, pendingArchive, pendingChecksum := None, None, None, None;
      ok := CheckIdentity(flawless);
      if !ok {
        return;
      }
      var listed := ListAssets(flawless);
      if listed == None {
        ok := false;
        return;
      }
      pendingNamed := true;
      ok, archive, checksum, pendingArchive, pendingChecksum := Classify(listed.value);
      if exclusive {
        KnownDraftIsAccepted(assets, index, listed.value);
        FoundIsIndex(assets, index, listed.value);
      }
    }

    /** Both deletions of interrupted uploads. */
    method RemoveRecoveries(recoveryArchiveId: Option<nat>, recoveryChecksumId: Option<nat>, flawless: bool)
      returns (ok: bool)
      requires Sound()
      requires recoveryArchiveId.Some? ==> HasBytes(recoveryArchiveId, archiveBytes)
      requires recoveryChecksumId.Some? ==> HasBytes(recoveryChecksumId, checksumBytes)
      requires exclusive ==>
                 At(index, PendingArchive) == recoveryArchiveId && At(index, PendingChecksum) == recoveryChecksumId
      modifies this`releaseExists, this`draft, this`tagMatches, this`assets, this`contents, this`index, this`trace
      ensures Sound() && ContentsKept()
      ensures exclusive ==> IdentitySame()
      ensures ok && exclusive ==> index == old(index) - {PendingArchive, PendingChecksum}
      ensures old(IdsAreRecorded()) ==> IdsAreRecorded()
      ensures exclusive && flawless && IdentityHolds() ==> ok
    {
      hide IsShown, IsSeenAbsent, EndsChecked, IsGuarded, IsArmed, LastListing, Holds;
      ok := true;
      if recoveryArchiveId.Some? {
        ok := RemoveRecovery(recoveryArchiveId.value, PendingArchive, flawless);
        if !ok {
          return;
        }
      }
      if recoveryChecksumId.Some? {
        ok := RemoveRecovery(recoveryChecksumId.value, PendingChecksum, flawless);
      }
    }

    /** The main sequence on a draft that is already there. */
    method Swap(flawless: bool) returns (ok: bool)
      requires Sound() && archivePendingId == None && checksumPendingId == None && captured && knownUploads == map[]
      modifies this
      ensures Sound() && ContentsKept()
      ensures exclusive ==> IdentitySame()
      ensures IdsAreRecorded() && captured
      ensures ok ==> ShowsPair(LastListing(trace)) && EndsChecked(trace)
      ensures ok && exclusive ==> IsComplete()
      ensures exclusive && flawless && IdentityHolds() ==> ok
    {
      hide IsShown, IsSeenAbsent, EndsChecked, IsGuarded, IsArmed, LastListing, IsComplete, ShowsPair, Holds;
      var priorArchiveId, priorChecksumId, recoveryArchiveId, recoveryChecksumId: Option<nat>;
      ok, priorArchiveId, priorChecksumId, recoveryArchiveId, recoveryChecksumId := ReadDraft(flawless);
      if !ok {
        return;
      }
      ok := VerifyRecovery(recoveryArchiveId, recoveryChecksumId, flawless);
      if !ok {
        return;
      }
      ok := RemoveRecoveries(recoveryArchiveId, recoveryChecksumId, flawless);
      if !ok {
        return;
      }
      ok := ReplacePair(priorArchiveId, priorChecksumId, flawless);
    }

    /** Both uploads. */
    method StagePair(flawless: bool) returns (ok: bool)
      requires Sound() && (exclusive ==> PendingArchive !in index && PendingChecksum !in index)
      requires IdsAreRecorded() && captured && pendingNamed && knownUploads == map[]
      requires IsSeenAbsent(trace, PendingArchive) && IsSeenAbsent(trace, PendingChecksum)
      modifies this
      ensures Sound() && ContentsKept()
      ensures exclusive ==> IdentitySame()
      ensures IdsAreRecorded() && captured == old(captured) && pendingNamed == old(pendingNamed)
      ensures ok ==> StagedAreVerified()
      ensures ok && exclusive ==>
                index == old(index)[PendingArchive := archivePendingId.value][PendingChecksum := checksumPendingId.value]
      ensures exclusive && flawless && IdentityHolds() ==> ok
    {
      hide IsShown, IsSeenAbsent, EndsChecked, IsGuarded, IsArmed, LastListing, Holds;
      ok := StageAsset(PendingArchive, flawless);
      if !ok {
        return;
      }
      ok := StageAsset(PendingChecksum, flawless);
    }

    /** Both deletions of prior assets, only when the bytes of both staged ones are verified. */
    method RemovePriors(priorArchiveId: Option<nat>, priorChecksumId: Option<nat>, flawless: bool) returns (ok: bool)
      requires Sound() && StagedAreVerified()
      requires exclusive ==> At(index, Archive) == priorArchiveId && At(index, Checksum) == priorChecksumId
      modifies this`releaseExists, this`draft, this`tagMatches, this`assets, this`contents, this`index, this`trace
      ensures Sound() && ContentsKept()
      ensures exclusive ==> IdentitySame()
      ensures ok && exclusive ==> index == old(index) - {Archive, Checksum}
      ensures old(IdsAreRecorded()) ==> IdsAreRecorded()
      ensures exclusive && flawless && IdentityHolds() ==> ok
    {
      hide IsShown, IsSeenAbsent, EndsChecked, IsGuarded, IsArmed, LastListing, Holds;
      ok := true;
      if priorArchiveId.Some? {
        ok := RemovePrior(priorArchiveId.value, Archive, flawless);
        if !ok {
          return;
        }
      }
      if priorChecksumId.Some? {
        ok := RemovePrior(priorChecksumId.value, Checksum, flawless);
      }
    }

    /** Both renames, after which the draft is complete. */
    method RenamePair(flawless: bool) returns (ok: bool)
      requires Sound() && archivePendingId.Some? && checksumPendingId.Some?
      requires exclusive ==>
                 index == map[PendingArchive := archivePendingId.value, PendingChecksum := checksumPendingId.value]
      modifies this
      ensures Sound() && ContentsKept()
      ensures exclusive ==> IdentitySame()
      ensures (old(IdsAreRecorded()) ==> IdsAreRecorded()) && captured == old(captured)
      ensures ok ==> EndsChecked(trace) && archivePendingId == None && checksumPendingId == None
      ensures ok && exclusive ==> IsComplete()
      ensures exclusive && flawless && IdentityHolds() ==> ok
    {
      hide IsShown, IsSeenAbsent, EndsChecked, IsGuarded, IsArmed, LastListing, Holds, IsPair;
      ghost var a, c := archivePendingId.value, checksumPendingId.value;
      assert exclusive ==> a in assets && c in assets && contents[a] == archiveBytes && contents[c] == checksumBytes by {
        if exclusive {
          IndexedAreThere(assets, index);
        }
      }
      ok := RenameStaged(PendingArchive, Archive, flawless);
      if !ok {
        return;
      }
      ok := RenameStaged(PendingChecksum, Checksum, flawless);
      if ok && exclusive {
        assert index == map[Archive := a, Checksum := c];
        PairIndexed(assets, index);
      }
    }

    /** The main sequence from where no upload is pending. */
    method ReplacePair(priorArchiveId: Option<nat>, priorChecksumId: Option<nat>, flawless: bool) returns (ok: bool)
      requires Sound() && archivePendingId == None && checksumPendingId == None && captured && pendingNamed && knownUploads == map[]
      requires exclusive ==>
                 && index.Keys <= {Archive, Checksum}
                 && At(index, Archive) == priorArchiveId && At(index, Checksum) == priorChecksumId
      modifies this
      ensures Sound() && ContentsKept()
      ensures exclusive ==> IdentitySame()
      ensures IdsAreRecorded() && captured
      ensures ok ==> ShowsPair(LastListing(trace)) && EndsChecked(trace)
      ensures ok && exclusive ==> IsComplete()
      ensures exclusive && flawless && IdentityHolds() ==> ok
    {
      hide IsShown, IsSeenAbsent, EndsChecked, IsGuarded, IsArmed, LastListing, Recoverable, IsComplete, ShowsPair;
      hide IdsAreRecorded;
      NothingRecorded();
      ok := RequireAbsent(PendingArchive, flawless);
      if !ok {
        return;
      }
      ok := RequireAbsent(PendingChecksum, flawless);
      if !ok {
        return;
      }
      ok := StagePair(flawless);
      if !ok {
        return;
      }
      ok := RemovePriors(priorArchiveId, priorChecksumId, flawless);
      if !ok {
        return;
      }
      assert exclusive ==>
          index == map[PendingArchive := archivePendingId.value, PendingChecksum := checksumPendingId.value];
      ok := RenamePair(flawless);
      if !ok {
        return;
      }
      ok := VerifyFinalPair(flawless);
    }

    /** `lookup_release_by_tag`: status 0 with the draft state, 1 for none, 2 for a failed call, above for a bad listing. */
    method LookUpRelease(flawless: bool) returns (status: int, isDraft: bool)
      requires IsGuarded(trace)
      modifies this`releaseExists, this`draft, this`tagMatches, this`assets, this`contents, this`trace
      ensures ContentsKept() && IsGuarded(trace) && trace == old(trace) + [LookedUp]
      ensures exclusive ==> RemoteSame()
      ensures exclusive && flawless ==> status == if releaseExists then 0 else 1
      ensures exclusive && status == 0 ==> releaseExists && isDraft == draft
      ensures exclusive && status == 1 ==> !releaseExists
    {
      hide IsGuarded, IsArmed, LastListing, IsShown, IsSeenAbsent;
      Log(LookedUp);
      Interfere();
      var fails: bool := *;
      var malformed: bool := *;
      isDraft := draft;
      if fails && !flawless {
        return 2, isDraft;
      }
      if malformed && !exclusive {
        return 3, isDraft;
      }
      status := if releaseExists then 0 else 1;
    }

    /** `gh release create --draft` with the two files: a failure leaves no draft, or one with some of them. */
    method CreateDraft(flawless: bool) returns (ok: bool)
      requires Sound() && (exclusive ==> !releaseExists) && trace != [] && trace[|trace| - 1].TagSeen?
      modifies this`releaseExists, this`draft, this`tagMatches, this`assets, this`contents, this`index, this`trace
      ensures Sound() && ContentsKept() && trace == old(trace) + [Created]
      ensures exclusive && releaseExists ==> draft && tagMatches == old(tagMatches)
      ensures exclusive && !releaseExists ==> RemoteSame()
      ensures ok && exclusive ==> releaseExists && IsComplete()
      ensures exclusive && flawless ==> ok
    {
      hide Holds, IsGuarded, IsPair, IsArmed, LastListing, IsShown, IsSeenAbsent;
      Log(Created);
      Interfere();
      var happens, withArchive, withChecksum, reported: bool := *, *, *, *;
      if !happens && !flawless {
        return false;
      }
      ok := (withArchive && withChecksum && reported) || flawless;
      PutFirstAssets(withArchive || ok, withChecksum || ok);
    }

    /** The service creates the draft, with those of the two files that arrive. */
    method PutFirstAssets(withArchive: bool, withChecksum: bool)
      modifies this`releaseExists, this`draft, this`assets, this`contents, this`index
      ensures releaseExists && draft && Recoverable() && ContentsKept()
      ensures withArchive && withChecksum ==> IsComplete()
    {
      hide Holds;
      var a := FreshId(contents.Keys);
      var c := FreshId(contents.Keys + {a});
      releaseExists, draft := true, true;
      contents := contents[a := archiveBytes][c := checksumBytes];
      assets, index := FirstAssets(withArchive, withChecksum, a, c);
    }

    /** The script where no release carries the tag yet. */
    method PublishNew(flawless: bool) returns (ok: bool)
      requires Sound() && (exclusive ==> !releaseExists)
      modifies this`releaseExists, this`draft, this`tagMatches, this`assets, this`contents, this`index, this`trace,
               this`captured
      ensures Sound() && ContentsKept()
      ensures exclusive && releaseExists ==> draft
      ensures exclusive ==> tagMatches == old(tagMatches)
      ensures ok ==> ShowsPair(LastListing(trace)) && EndsChecked(trace) && captured
      ensures ok && exclusive ==> releaseExists && IsComplete()
      ensures captured || captured == old(captured)
      ensures exclusive && flawless && tagMatches ==> ok
    {
      hide IsShown, IsSeenAbsent, EndsChecked, IsGuarded, IsArmed, LastListing, Holds, IsPair;
      ok := CheckTag(flawless);
      if !ok {
        return;
      }
      ok := CreateDraft(flawless);
      if !ok {
        return;
      }
      var status, isDraft := LookUpRelease(flawless);
      if status != 0 {
        return false;
      }
      captured := true;
      if !isDraft {
        return false;
      }
      ok := CheckIdentity(flawless);
      if !ok {
        return;
      }
      ok := VerifyFinalPair(flawless);
    }

    /** The script without its exit handler. */
    method Publish(flawless: bool) returns (ok: bool)
      requires Sound() && archivePendingId == None && checksumPendingId == None && knownUploads == map[]
      modifies this
      ensures Sound() && ContentsKept()
      ensures exclusive && old(releaseExists) ==> IdentitySame()
      ensures exclusive && releaseExists ==> draft == if old(releaseExists) then old(draft) else true
      ensures exclusive ==> tagMatches == old(tagMatches)
      ensures IdsAreRecorded() && (old(trace) < trace ==> trace[|old(trace)|].TagSeen?)
      ensures ok ==> ShowsPair(LastListing(trace)) && EndsChecked(trace) && captured
      ensures ok && exclusive ==> releaseExists && IsComplete()
      ensures exclusive && flawless && tagMatches && (releaseExists ==> draft) ==> ok
    {
      hide IsShown, IsSeenAbsent, EndsChecked, IsGuarded, IsArmed, LastListing, Holds, IsPair;
      ok := CheckTag(flawless);
      if !ok {
        return;
      }
      var status, isDraft := LookUpRelease(flawless);
      if status == 1 {
        ok := PublishNew(flawless);
        return;
      }
      if status != 0 {
        return false;
      }
      captured := true;
      if !isDraft {
        return false;
      }
      ok := Swap(flawless);
    }

    /**
      A whole run with its exit handler.  Whoever else acts and whatever fails, every change in the trace is
      guarded, and success means that the last listing showed exactly the pair with the local bytes.  If
      only the script changes the draft, a run keeps it recoverable, and a run without failures completes it.
     */
    method Run(flawless: bool, reliable: bool) returns (ok: bool)
      requires Sound()
      modifies this
      ensures Sound() && ContentsKept()
      ensures exclusive && old(releaseExists) ==> IdentitySame()
      ensures exclusive && releaseExists ==> draft == if old(releaseExists) then old(draft) else true
      ensures exclusive ==> tagMatches == old(tagMatches)
      ensures ok ==> ShowsPair(LastListing(trace)) && EndsChecked(trace)
      ensures exclusive && reliable && IdentityHolds() && !ok ==> NoUploadRemains()
      ensures ok && exclusive ==> releaseExists && IsComplete()
      ensures exclusive && flawless && old(tagMatches && (releaseExists ==> draft)) ==> ok
    {
      hide IsGuarded, Recoverable, ShowsPair, IsComplete, LastListing, EndsChecked, NoUploadRemains, IdsAreRecorded;
      captured, pendingNamed, archivePendingId, checksumPendingId := false, false, None, None;
      knownUploads := map[];
      ok := Publish(flawless);
      CleanUp(ok, reliable);
    }

    /**
      Convergence: after any number of runs, each cut short by any call failing with or without its
      effect, the names are known and unique, and one run without failures ends with the two correct assets.
     */
    method Converge(runs: nat)
      requires exclusive && Sound() && tagMatches && (releaseExists ==> draft)
      modifies this
      ensures Sound() && NamesAreKnownAndUnique(assets) && IsComplete()
    {
      for run := 0 to runs
        invariant Sound() && tagMatches && (releaseExists ==> draft)
      {
        var completed := Run(false, false);
        HoldsIffKnownAndUnique(assets);
        assert NamesAreKnownAndUnique(assets);
      }
      var completed := Run(true, false);
      HoldsIffKnownAndUnique(assets);
    }
  }
}
