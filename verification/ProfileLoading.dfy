/**
  What one load of profiles asks of a file system that changes meanwhile, and what it makes of the
  answers.  No cache occurs here: this is what the caching repository is measured against.
 */
module ProfileLoading {
  import opened Bytes
  import opened Hashing
  import opened Ordering
  import opened ProfileTypes
  import opened Wrappers

  // ---- The file system ----

  datatype Signature = Signature(device: nat, inode: nat, size: int, modifiedSeconds: int, modifiedNanoseconds: int,
                                 changedSeconds: int, changedNanoseconds: int)

  /** What opening and reading a file gives. */
  datatype FileData = NoAccess | Content(bytes: ByteString)

  datatype FileState = FileState(signature: Signature, data: FileData)

  /** A directory that can be read: its names in the order of reading, and the regular files behind them. */
  datatype AnyDirectory = Directory(fingerprint: DirectoryFingerprint, names: seq<Text>, targets: map<Text, Option<Text>>)

  type Directory = d: AnyDirectory | AllDistinct(d.names) && forall name :: name in d.names <==> name in d.targets
    witness Directory(DirectoryFingerprint([], 0, 0, []), [], map[])

  datatype Locating = Located(location: Location) | NotFound | Unreadable

  /** The file system at one moment: where profiles are located, the readable directories, and the files by identity. */
  datatype World = World(locate: Text -> Locating, directories: map<Text, Directory>, files: map<Text, FileState>)

  /** The regular file that an entry leads to. */
  datatype File = File(identity: Text, signature: Signature, data: FileData)

  function FileAt(world: World, host: Text, name: Text): Option<File> {
    if host in world.directories && name in world.directories[host].targets then
      match world.directories[host].targets[name]
      case Some(identity) =>
        if identity in world.files
        then Some(File(identity, world.files[identity].signature, world.files[identity].data)) else None
      case None => None
    else None
  }

  /** Whether an entry leads to the file with this identity and signature. */
  predicate Leads(file: Option<File>, identity: Text, signature: Signature) {
    file.Some? && file.value.identity == identity && file.value.signature == signature
  }

  /**
    What loads depend on: the file system over time, the data each signature names, whether opening a file
    may fail for no reason of the file's, the parser and the digest.
   */
  datatype System = System(world: nat -> World, dataOf: (Text, Signature) -> FileData, readsMayFail: bool,
                           parser: Parser, sha: Digest)

  /** No signature is ever reused for different data. */
  ghost predicate SignaturesAreFaithful(system: System) {
    forall t: nat, identity :: identity in system.world(t).files ==>
      system.world(t).files[identity].data == system.dataOf(identity, system.world(t).files[identity].signature)
  }

  /** From `from` on nothing changes. */
  ghost predicate IsQuiet(system: System, from: nat) {
    forall t: nat :: t >= from ==> system.world(t) == system.world(from)
  }

  // ---- Candidates ----

  const SUFFIX: ByteString := Ascii(".remmina")

  /** `cleanChildPath`, for a clean directory. */
  function EntryPath(directory: Text, name: Text): Text { directory + [SLASH] + name }

  predicate HasProfileSuffix(name: Text) {
    |name| >= |SUFFIX| && name[|name| - |SUFFIX|..] == SUFFIX
  }

  datatype Candidate = Candidate(entryName: Text, sourcePath: Text, launchPath: Text, identity: Text,
                                 fingerprint: FileFingerprint, signature: Signature)

  function CandidateFrom(location: Location, name: Text, identity: Text, signature: Signature): Candidate {
    Candidate(name, EntryPath(location.hostPath, name), EntryPath(location.launchPath, name), identity,
              FileFingerprint(identity, signature.size,
                              signature.modifiedSeconds * 1000 + signature.modifiedNanoseconds / 1000000),
              signature)
  }

  datatype Inspection = Found(candidate: Candidate) | NoCandidate | DirectoryUnreadable

  function Inspected(world: World, location: Location, name: Text): Inspection {
    if location.hostPath !in world.directories then DirectoryUnreadable
    else
      match FileAt(world, location.hostPath, name)
      case Some(file) => Found(CandidateFrom(location, name, file.identity, file.signature))
      case None => NoCandidate
  }

  /** The candidate is what the file system shows under its name. */
  predicate Shows(world: World, location: Location, candidate: Candidate) {
    Inspected(world, location, candidate.entryName) == Found(candidate)
  }

  /** The candidate is shown under the name of a profile. */
  ghost predicate IsListed(world: World, location: Location, candidate: Candidate) {
    HasProfileSuffix(candidate.entryName) && Shows(world, location, candidate)
  }

  /** The candidate was listed at some moment between two. */
  ghost predicate WasSeen(system: System, location: Location, candidate: Candidate, from: nat, upto: nat) {
    exists t: nat :: from <= t <= upto && IsListed(system.world(t), location, candidate)
  }

  predicate IsSameFile(a: Candidate, b: Candidate) { a.identity == b.identity && a.signature == b.signature }

  predicate CandidateLeq(a: Candidate, b: Candidate) { TextLeq(a.entryName, b.entryName) }

  function Identities(candidates: seq<Candidate>): (r: seq<Text>)
    ensures |r| == |candidates| && forall i :: 0 <= i < |r| ==> r[i] == candidates[i].identity
  {
    seq(|candidates|, i requires 0 <= i < |candidates| => candidates[i].identity)
  }

  /** The first candidate of each identity. */
  function FirstOfEach(candidates: seq<Candidate>): (r: seq<Candidate>) {
    if candidates == [] then []
    else
      var before, last := FirstOfEach(candidates[..|candidates| - 1]), candidates[|candidates| - 1];
      if last.identity in Identities(before) then before else before + [last]
  }

  lemma {:induction false} FirstOfEachIsDistinct(candidates: seq<Candidate>)
    ensures AllDistinct(Identities(FirstOfEach(candidates)))
    ensures forall c :: c in FirstOfEach(candidates) ==> c in candidates
  {
    if candidates != [] {
      FirstOfEachIsDistinct(candidates[..|candidates| - 1]);
    }
  }

  // ---- Parsing ----

  datatype ParseError = UnreadableFile | Malformed | MissingName

  datatype ParseResult = Parsed(record: ProfileRecord) | Failed(error: ParseError)

  datatype ContentMeaning = Good(fields: Fields) | BadSyntax | NoName

  /** What the parser makes of a profile's content. */
  type Parser = ByteString -> ContentMeaning

  function ParseData(parser: Parser, data: FileData, sourcePath: Text, launchPath: Text, opaqueId: Text): ParseResult {
    match data
    case NoAccess => Failed(UnreadableFile)
    case Content(bytes) =>
      match parser(bytes)
      case Good(fields) => Parsed(ProfileRecord(opaqueId, sourcePath, launchPath, fields))
      case BadSyntax => Failed(Malformed)
      case NoName => Failed(MissingName)
  }

  /** The parse of some data under a candidate's paths and id. */
  function ParseUnder(system: System, instanceId: Text, candidate: Candidate, data: FileData): ParseResult {
    ParseData(system.parser, data, candidate.sourcePath, candidate.launchPath,
              OpaqueProfileId(system.sha, instanceId, candidate.identity))
  }

  /** The parse of the data that the candidate's signature names. */
  function RightParse(system: System, instanceId: Text, candidate: Candidate): ParseResult {
    ParseUnder(system, instanceId, candidate, system.dataOf(candidate.identity, candidate.signature))
  }

  /** The parse of a candidate that did not change, if it could be opened. */
  function SettledParse(system: System, instanceId: Text, candidate: Candidate, couldOpen: bool): ParseResult {
    if couldOpen then RightParse(system, instanceId, candidate) else Failed(UnreadableFile)
  }

  function Append(profiles: seq<ProfileRecord>, result: ParseResult): seq<ProfileRecord> {
    if result.Parsed? then profiles + [result.record] else profiles
  }

  // ---- What a load on a quiet file system gives ----

  /** All candidates of the directory in the order of their names. */
  ghost predicate IsEnumeration(world: World, location: Location, candidates: seq<Candidate>) {
    && IsSorted(candidates, CandidateLeq)
    && (forall c :: c in candidates <==> IsListed(world, location, c))
    && AllDistinct(candidates)
  }

  function Fingerprints(candidates: seq<Candidate>): seq<FileFingerprint> {
    seq(|candidates|, i requires 0 <= i < |candidates| => candidates[i].fingerprint)
  }

  /** The records of the candidates whose data parses, but for those that could not be read. */
  function Records(system: System, instanceId: Text, candidates: seq<Candidate>,
                   unread: set<Text>): seq<ProfileRecord> {
    if candidates == [] then []
    else
      var last := candidates[|candidates| - 1];
      Append(Records(system, instanceId, candidates[..|candidates| - 1], unread),
             SettledParse(system, instanceId, last, last.identity !in unread))
  }

  /**
    What a load gives while the file system is `world` and the files in `unread` cannot be read: no cache, no
    order of reading and no step of a load occur here.
   */
  ghost predicate IsColdResult(system: System, world: World, instanceId: Text, unread: set<Text>, r: LoadResult) {
    match world.locate(instanceId)
    case NotFound => r == LoadFailed(NoProfileDirectory)
    case Unreadable => r == LoadFailed(UnreadableDirectory)
    case Located(location) =>
      if location.hostPath !in world.directories then r == LoadFailed(UnreadableDirectory)
      else exists all ::
        && IsEnumeration(world, location, all)
        && var candidates := FirstOfEach(all);
           r == Loaded(ProfileSnapshot(Records(system, instanceId, candidates, unread), Fingerprints(candidates), location,
                                       world.directories[location.hostPath].fingerprint))
  }

  lemma EnumerationIsUnique(world: World, location: Location, a: seq<Candidate>, b: seq<Candidate>)
    requires IsEnumeration(world, location, a) && IsEnumeration(world, location, b)
    ensures a == b
  {
    SameElements(a, b);
    TextLeqIsTotalOrder();
    assert HasNoTies(multiset(a), CandidateLeq) by {
      forall x, y | x in multiset(a) && y in multiset(a) && CandidateLeq(x, y) && CandidateLeq(y, x)
        ensures x == y
      {
        assert x.entryName == y.entryName;
        assert IsListed(world, location, x) && IsListed(world, location, y);
      }
    }
    SortedIsUnique(a, b, CandidateLeq);
  }

  // ---- The steps of a load ----

  datatype Question =
    | Where(instanceId: Text)
    | Names(host: Text)
    | Look(location: Location, name: Text)
    | CanOpen(host: Text, name: Text)

  datatype Finding =
    | Place(locating: Locating)
    | Listing(directory: Option<(DirectoryFingerprint, seq<Text>)>)
    | Seen(inspection: Inspection)
    | Opens(opens: bool)

  predicate CanBeOpened(world: World, host: Text, name: Text) {
    var file := FileAt(world, host, name);
    file.Some? && file.value.data.Content?
  }

  /** What the file system answers at one moment. */
  function Answered(world: World, question: Question): Finding {
    match question
    case Where(instanceId) => Place(world.locate(instanceId))
    case Names(host) =>
      Listing(if host in world.directories
              then Some((world.directories[host].fingerprint, world.directories[host].names)) else None)
    case Look(location, name) => Seen(Inspected(world, location, name))
    case CanOpen(host, name) => Opens(CanBeOpened(world, host, name))
  }

  /** What a question may be answered at one moment: the truth, or, if reads may fail, that a file cannot be opened. */
  predicate IsAnswered(system: System, t: nat, question: Question, answer: Finding) {
    answer == Answered(system.world(t), question) || (system.readsMayFail && question.CanOpen? && answer == Opens(false))
  }

  /** What a load has gathered: records, fingerprints and the identities of both. */
  datatype Gathered = Gathered(profiles: seq<ProfileRecord>, fingerprint: seq<FileFingerprint>, processed: set<Text>)

  const NOTHING := Gathered([], [], {})

  /** How far a load has got. */
  datatype Progress =
    | Beginning
    | Reading(location: Location)
    | Enumerating(location: Location, fingerprint: DirectoryFingerprint, name: Text, left: seq<Text>,
                  discovered: seq<Candidate>)
    | Parsing(location: Location, fingerprint: DirectoryFingerprint, gathered: Gathered, current: Candidate,
              rest: seq<Candidate>, attempt: nat, couldOpen: Option<bool>)
    | Done(result: LoadResult)

  function QuestionOf(instanceId: Text, p: Progress): Option<Question> {
    match p
    case Beginning => Some(Where(instanceId))
    case Reading(location) => Some(Names(location.hostPath))
    case Enumerating(location, _, name, _, _) => Some(Look(location, name))
    case Parsing(location, _, _, current, _, _, None) => Some(CanOpen(location.hostPath, current.entryName))
    case Parsing(location, _, _, current, _, _, Some(_)) => Some(Look(location, current.entryName))
    case Done(_) => None
  }

  /** Goes on with the names that are left. */
  function Enumerate(location: Location, fingerprint: DirectoryFingerprint, names: seq<Text>,
                     discovered: seq<Candidate>): Progress
    decreases |names|
  {
    if names == [] then Continue(location, fingerprint, NOTHING, FirstOfEach(Sort(discovered, CandidateLeq)))
    else if !HasProfileSuffix(names[0]) then Enumerate(location, fingerprint, names[1..], discovered)
    else Enumerating(location, fingerprint, names[0], names[1..], discovered)
  }

  /** Goes on with the candidates that are left. */
  function Continue(location: Location, fingerprint: DirectoryFingerprint, gathered: Gathered,
                    rest: seq<Candidate>): Progress
    decreases |rest|
  {
    if rest == [] then
      Done(Loaded(ProfileSnapshot(gathered.profiles, gathered.fingerprint, location, fingerprint)))
    else if rest[0].identity in gathered.processed then Continue(location, fingerprint, gathered, rest[1..])
    else Parsing(location, fingerprint, gathered, rest[0], rest[1..], 0, None)
  }

  /** A candidate that settled contributes a fingerprint and, if it parses, a record. */
  function Settled(system: System, instanceId: Text, gathered: Gathered, candidate: Candidate,
                   couldOpen: bool): Gathered {
    if candidate.identity in gathered.processed then gathered
    else Gathered(Append(gathered.profiles, SettledParse(system, instanceId, candidate, couldOpen)),
                  gathered.fingerprint + [candidate.fingerprint], gathered.processed + {candidate.identity})
  }

  /** A candidate that keeps changing contributes a fingerprint, to notice it by. */
  function Noted(gathered: Gathered, candidate: Candidate): Gathered {
    if candidate.identity in gathered.processed then gathered
    else Gathered(gathered.profiles, gathered.fingerprint + [candidate.fingerprint], gathered.processed + {candidate.identity})
  }

  const GIVEN_UP := Done(LoadFailed(UnreadableDirectory))

  /** One step of a load; an answer to another question does not occur. */
  function Advance(system: System, instanceId: Text, p: Progress, answer: Finding): Progress {
    match (p, answer)
    case (Beginning, Place(Located(location))) => Reading(location)
    case (Beginning, Place(NotFound)) => Done(LoadFailed(NoProfileDirectory))
    case (Reading(location), Listing(Some(directory))) => Enumerate(location, directory.0, directory.1, [])
    case (Enumerating(location, fingerprint, name, left, discovered), Seen(Found(candidate))) =>
      Enumerate(location, fingerprint, left, discovered + [candidate])
    case (Enumerating(location, fingerprint, name, left, discovered), Seen(NoCandidate)) =>
      Enumerate(location, fingerprint, left, discovered)
    case (Parsing(_, _, _, _, _, _, None), Opens(opens)) => p.(couldOpen := Some(opens))
    case (Parsing(location, fingerprint, gathered, current, rest, attempt, Some(couldOpen)), Seen(Found(candidate))) =>
      if IsSameFile(candidate, current) then
        Continue(location, fingerprint, Settled(system, instanceId, gathered, current, couldOpen), rest)
      else if attempt == 0 then p.(current := candidate, attempt := 1, couldOpen := None)
      else Continue(location, fingerprint, Noted(gathered, candidate), rest)
    case (Parsing(location, fingerprint, gathered, _, rest, _, Some(_)), Seen(NoCandidate)) =>
      Continue(location, fingerprint, gathered, rest)
    case _ => GIVEN_UP
  }

  /** How far the answers so far have brought a load. */
  function Through(system: System, instanceId: Text, answers: seq<Finding>): Progress {
    if answers == [] then Beginning
    else Advance(system, instanceId, Through(system, instanceId, answers[..|answers| - 1]), answers[|answers| - 1])
  }

  function NextQuestion(system: System, instanceId: Text, answers: seq<Finding>): Option<Question> {
    QuestionOf(instanceId, Through(system, instanceId, answers))
  }

  /** The answers that a load got, in the order of its questions; the one at `k` was given at `times[k]`. */
  ghost predicate AreAnswers(system: System, instanceId: Text, answers: seq<Finding>, times: seq<nat>) {
    && |times| == |answers|
    && forall k :: 0 <= k < |answers| ==> IsAnswer(system, instanceId, answers, times, k)
  }

  ghost predicate IsAnswer(system: System, instanceId: Text, answers: seq<Finding>, times: seq<nat>, k: nat)
    requires k < |answers| == |times|
  {
    var question := NextQuestion(system, instanceId, answers[..k]);
    question.Some? && IsAnswered(system, times[k], question.value, answers[k])
  }

  /** The answer at `j` is the look in which the enumeration found the candidate. */
  ghost predicate IsSighting(system: System, instanceId: Text, answers: seq<Finding>, j: nat, location: Location,
                             candidate: Candidate)
  {
    && j < |answers| && answers[j] == Seen(Found(candidate))
    && var p := Through(system, instanceId, answers[..j]);
       p.Enumerating? && p.location == location && HasProfileSuffix(p.name)
  }

  /**
    A cache hit: the answers at `k` and behind it, that the candidate can be opened and is still the same, go
    back to the look in which the enumeration found it.
   */
  ghost predicate IsHitAt(system: System, instanceId: Text, answers: seq<Finding>, times: seq<nat>, k: nat)
    requires |answers| == |times|
  {
    && k + 1 < |answers| && times[k + 1] == times[k]
    && var p := Through(system, instanceId, answers[..k]);
       && p.Parsing? && p.attempt == 0 && p.couldOpen == None
       && exists j: nat :: j < k && times[j] == times[k] && IsSighting(system, instanceId, answers, j, p.location, p.current)
  }

  /** One answer comes after another, but for the two of a cache hit. */
  ghost predicate AreInOrder(system: System, instanceId: Text, answers: seq<Finding>, times: seq<nat>)
    requires |answers| == |times|
  {
    forall i: nat, k: nat :: i < k < |times| ==>
      || times[i] <= times[k]
      || IsHitAt(system, instanceId, answers, times, k) || IsHitAt(system, instanceId, answers, times, k - 1)
  }

  ghost predicate AllWithin(times: seq<nat>, from: nat, upto: nat) {
    forall k :: 0 <= k < |times| ==> from <= times[k] <= upto
  }

  /** These answers bring a load to `p`, between two moments. */
  ghost predicate LeadTo(system: System, instanceId: Text, answers: seq<Finding>, times: seq<nat>, p: Progress,
                         from: nat,
                         upto: nat) {
    && AreAnswers(system, instanceId, answers, times) && AreInOrder(system, instanceId, answers, times)
    && AllWithin(times, from, upto) && Through(system, instanceId, answers) == p
  }

  /** A load may have got to `p`, all of it between two moments. */
  ghost predicate IsAt(system: System, instanceId: Text, p: Progress, from: nat, upto: nat) {
    exists answers, times :: LeadTo(system, instanceId, answers, times, p, from, upto)
  }

  /** What a load may give that lasts from one moment to another. */
  ghost predicate IsLoad(system: System, instanceId: Text, r: LoadResult, from: nat, upto: nat) {
    IsAt(system, instanceId, Done(r), from, upto)
  }

  /** What a load gives whose questions are all answered at `now`. */
  ghost predicate IsFresh(system: System, instanceId: Text, now: nat, r: LoadResult) {
    IsLoad(system, instanceId, r, now, now)
  }

  lemma LoadBegins(system: System, instanceId: Text, from: nat, upto: nat)
    ensures IsAt(system, instanceId, Beginning, from, upto)
  {
    assert LeadTo(system, instanceId, [], [], Beginning, from, upto);
  }

  lemma SameLength(system: System, instanceId: Text, answers: seq<Finding>, times: seq<nat>)
    requires AreAnswers(system, instanceId, answers, times)
    ensures |answers| == |times|
  {
  }

  /** One more question is asked. */
  lemma LoadAdvances(system: System, instanceId: Text, p: Progress, from: nat, upto: nat, t: nat, answer: Finding)
    requires IsAt(system, instanceId, p, from, upto) && QuestionOf(instanceId, p).Some?
    requires from <= upto <= t && IsAnswered(system, t, QuestionOf(instanceId, p).value, answer)
    ensures IsAt(system, instanceId, Advance(system, instanceId, p, answer), from, t)
  {
    hide Advance, IsAnswered, QuestionOf, AreInOrder, AreAnswers;
    var answers, times :| LeadTo(system, instanceId, answers, times, p, from, upto);
    SameLength(system, instanceId, answers, times);
    OneMoreAnswer(system, instanceId, answers, times, t, answer);
    OrderGrows(system, instanceId, answers, times, t, answer);
    assert (answers + [answer])[..|answers|] == answers;
    assert LeadTo(system, instanceId, answers + [answer], times + [t], Advance(system, instanceId, p, answer), from, t);
  }

  lemma OneMoreAnswer(system: System, instanceId: Text, answers: seq<Finding>, times: seq<nat>, t: nat, answer: Finding)
    requires AreAnswers(system, instanceId, answers, times) && NextQuestion(system, instanceId, answers).Some?
    requires IsAnswered(system, t, NextQuestion(system, instanceId, answers).value, answer)
    ensures AreAnswers(system, instanceId, answers + [answer], times + [t])
  {
    hide NextQuestion, IsAnswered;
    var more, at := answers + [answer], times + [t];
    forall k | 0 <= k < |more|
      ensures IsAnswer(system, instanceId, more, at, k)
    {
      assert more[..k] == answers[..k];
      assert answers[..|answers|] == answers;
      assert k < |answers| ==> IsAnswer(system, instanceId, answers, times, k);
    }
  }

  /** A cache hit stays one, whatever is asked later. */
  lemma HitStays(system: System, instanceId: Text, answers: seq<Finding>, times: seq<nat>, more: seq<Finding>,
                 moreTimes: seq<nat>, k: nat)
    requires |answers| == |times| && |more| == |moreTimes| && IsHitAt(system, instanceId, answers, times, k)
    ensures IsHitAt(system, instanceId, answers + more, times + moreTimes, k)
  {
    hide Through;
    var p := Through(system, instanceId, answers[..k]);
    var j: nat :| j < k && times[j] == times[k] && IsSighting(system, instanceId, answers, j, p.location, p.current);
    assert (answers + more)[..k] == answers[..k] && (answers + more)[..j] == answers[..j];
    assert IsSighting(system, instanceId, answers + more, j, p.location, p.current);
  }

  lemma OrderGrows(system: System, instanceId: Text, answers: seq<Finding>, times: seq<nat>, t: nat, answer: Finding)
    requires |answers| == |times| && AreInOrder(system, instanceId, answers, times)
    requires forall k :: 0 <= k < |times| ==> times[k] <= t
    ensures AreInOrder(system, instanceId, answers + [answer], times + [t])
  {
    hide IsHitAt;
    forall k: nat | IsHitAt(system, instanceId, answers, times, k)
      ensures IsHitAt(system, instanceId, answers + [answer], times + [t], k)
    {
      HitStays(system, instanceId, answers, times, [answer], [t], k);
    }
  }

  /** A cache hit asks two questions, which the look in the enumeration has already answered. */
  lemma HitAdvances(system: System, instanceId: Text, p: Progress, from: nat, upto: nat) returns (seen: nat)
    requires IsAt(system, instanceId, p, from, upto) && p.Parsing? && p.attempt == 0 && p.couldOpen == None
    ensures from <= seen <= upto && Shows(system.world(seen), p.location, p.current)
    ensures var asked := p.(couldOpen := Some(CanBeOpened(system.world(seen), p.location.hostPath, p.current.entryName)));
            IsAt(system, instanceId, Advance(system, instanceId, asked, Seen(Found(p.current))), from, upto)
  {
    hide AreInOrder, AreAnswers, Through, CanBeOpened, Shows;
    var answers, times :| LeadTo(system, instanceId, answers, times, p, from, upto);
    SameLength(system, instanceId, answers, times);
    assert answers[..|answers|] == answers;
    WasSighted(system, instanceId, answers, times, |answers|, p.location, p.current);
    var j: nat :| j < |answers| && IsSighting(system, instanceId, answers, j, p.location, p.current);
    seen := times[j];
    SightingShows(system, instanceId, answers, times, j, p.location, p.current);
    HitLeadsTo(system, instanceId, answers, times, p, from, upto, j);
  }

  lemma SightingShows(system: System, instanceId: Text, answers: seq<Finding>, times: seq<nat>, j: nat,
                      location: Location,
                      candidate: Candidate)
    requires AreAnswers(system, instanceId, answers, times) && IsSighting(system, instanceId, answers, j, location, candidate)
    requires j < |times|
    ensures IsListed(system.world(times[j]), location, candidate)
  {
    hide Through;
    assert IsAnswer(system, instanceId, answers, times, j);
  }

  lemma HitLeadsTo(system: System, instanceId: Text, answers: seq<Finding>, times: seq<nat>, p: Progress, from: nat,
                   upto: nat, j: nat)
    requires LeadTo(system, instanceId, answers, times, p, from, upto)
    requires p.Parsing? && p.attempt == 0 && p.couldOpen == None
    requires IsSighting(system, instanceId, answers, j, p.location, p.current) && j < |times|
    requires Shows(system.world(times[j]), p.location, p.current)
    ensures var asked := p.(couldOpen := Some(CanBeOpened(system.world(times[j]), p.location.hostPath, p.current.entryName)));
            IsAt(system, instanceId, Advance(system, instanceId, asked, Seen(Found(p.current))), from, upto)
  {
    hide AreInOrder, AreAnswers, Advance, CanBeOpened, IsSighting;
    SameLength(system, instanceId, answers, times);
    var t := times[j];
    var couldOpen := CanBeOpened(system.world(t), p.location.hostPath, p.current.entryName);
    var asked := p.(couldOpen := Some(couldOpen));
    var one, look := Opens(couldOpen), Seen(Found(p.current));
    OneMoreAnswer(system, instanceId, answers, times, t, one);
    assert (answers + [one])[..|answers|] == answers;
    assert Through(system, instanceId, answers + [one]) == asked by { OpensIsNoted(system, instanceId, p, couldOpen); }
    OneMoreAnswer(system, instanceId, answers + [one], times + [t], t, look);
    assert answers + [one] + [look] == answers + [one, look] && times + [t] + [t] == times + [t, t];
    assert (answers + [one, look])[..|answers| + 1] == answers + [one];
    HitKeepsOrder(system, instanceId, answers, times, p, j, one, look);
    assert LeadTo(system, instanceId, answers + [one, look], times + [t, t], Advance(system, instanceId, asked, look), from, upto);
  }

  lemma OpensIsNoted(system: System, instanceId: Text, p: Progress, couldOpen: bool)
    requires p.Parsing? && p.couldOpen == None
    ensures Advance(system, instanceId, p, Opens(couldOpen)) == p.(couldOpen := Some(couldOpen))
  {
  }

  lemma HitKeepsOrder(system: System, instanceId: Text, answers: seq<Finding>, times: seq<nat>, p: Progress, j: nat,
                      one: Finding, look: Finding)
    requires |answers| == |times| && AreInOrder(system, instanceId, answers, times)
    requires Through(system, instanceId, answers) == p && p.Parsing? && p.attempt == 0 && p.couldOpen == None
    requires IsSighting(system, instanceId, answers, j, p.location, p.current)
    ensures AreInOrder(system, instanceId, answers + [one, look], times + [times[j], times[j]])
  {
    hide Through;
    var more, at, n := answers + [one, look], times + [times[j], times[j]], |answers|;
    assert more[..n] == answers && more[..j] == answers[..j];
    assert IsSighting(system, instanceId, more, j, p.location, p.current);
    assert IsHitAt(system, instanceId, more, at, n);
    forall k: nat | IsHitAt(system, instanceId, answers, times, k)
      ensures IsHitAt(system, instanceId, more, at, k)
    {
      HitStays(system, instanceId, answers, times, [one, look], [times[j], times[j]], k);
    }
    hide IsHitAt, IsSighting;
    forall i: nat, k: nat | i < k < |at|
      ensures at[i] <= at[k] || IsHitAt(system, instanceId, more, at, k) || IsHitAt(system, instanceId, more, at, k - 1)
    {
      if k < n {
        assert at[i] == times[i] && at[k] == times[k];
      }
    }
  }

  // ---- Where candidates come from ----

  /** The candidate is one that a load at `p` has found and not yet parsed. */
  predicate IsPending(p: Progress, location: Location, candidate: Candidate) {
    match p
    case Enumerating(l, _, _, _, discovered) => l == location && candidate in discovered
    case Parsing(l, _, _, current, rest, attempt, _) =>
      l == location && (candidate in rest || (attempt == 0 && candidate == current))
    case _ => false
  }

  lemma {:induction false} ContinuesWithRest(location: Location, fingerprint: DirectoryFingerprint, gathered: Gathered,
                                             rest: seq<Candidate>, place: Location, candidate: Candidate)
    requires IsPending(Continue(location, fingerprint, gathered, rest), place, candidate)
    ensures place == location && candidate in rest
    decreases |rest|
  {
    if rest != [] && rest[0].identity in gathered.processed {
      ContinuesWithRest(location, fingerprint, gathered, rest[1..], place, candidate);
    }
  }

  lemma {:induction false} EnumeratesDiscovered(location: Location, fingerprint: DirectoryFingerprint, names: seq<Text>,
                                                discovered: seq<Candidate>, place: Location, candidate: Candidate)
    requires IsPending(Enumerate(location, fingerprint, names, discovered), place, candidate)
    ensures place == location && candidate in discovered
    decreases |names|
  {
    hide FirstOfEach, Sort, Continue;
    if names == [] {
      var sorted := Sort(discovered, CandidateLeq);
      ContinuesWithRest(location, fingerprint, NOTHING, FirstOfEach(sorted), place, candidate);
      FirstOfEachIsDistinct(sorted);
      SortKeeps(discovered);
    } else if !HasProfileSuffix(names[0]) {
      EnumeratesDiscovered(location, fingerprint, names[1..], discovered, place, candidate);
    }
  }

  /** A step adds at most the candidate that it finds. */
  lemma PendingGrows(system: System, instanceId: Text, p: Progress, answer: Finding, location: Location,
                     candidate: Candidate)
    requires IsPending(Advance(system, instanceId, p, answer), location, candidate)
    ensures || IsPending(p, location, candidate)
            || (p.Enumerating? && p.location == location && answer == Seen(Found(candidate)))
  {
    hide Continue, Enumerate, Settled, Noted;
    match (p, answer)
    case (Reading(l), Listing(Some(directory))) =>
      EnumeratesDiscovered(l, directory.0, directory.1, [], location, candidate);
    case (Enumerating(l, fingerprint, name, left, discovered), Seen(Found(found))) =>
      EnumeratesDiscovered(l, fingerprint, left, discovered + [found], location, candidate);
    case (Enumerating(l, fingerprint, name, left, discovered), Seen(NoCandidate)) =>
      EnumeratesDiscovered(l, fingerprint, left, discovered, location, candidate);
    case (Parsing(l, fingerprint, gathered, current, rest, attempt, Some(couldOpen)), Seen(Found(again))) =>
      if IsSameFile(again, current) {
        ContinuesWithRest(l, fingerprint, Settled(system, instanceId, gathered, current, couldOpen), rest, location, candidate);
      } else if attempt != 0 {
        ContinuesWithRest(l, fingerprint, Noted(gathered, again), rest, location, candidate);
      }
    case (Parsing(l, fingerprint, gathered, _, rest, _, Some(_)), Seen(NoCandidate)) =>
      ContinuesWithRest(l, fingerprint, gathered, rest, location, candidate);
    case _ =>
  }

  lemma {:induction false} EnumeratesNamed(location: Location, fingerprint: DirectoryFingerprint, names: seq<Text>,
                                           discovered: seq<Candidate>)
    ensures var p := Enumerate(location, fingerprint, names, discovered); p.Enumerating? ==> HasProfileSuffix(p.name)
    decreases |names|
  {
    if names == [] {
      NotEnumerating(location, fingerprint, NOTHING, FirstOfEach(Sort(discovered, CandidateLeq)));
    } else if !HasProfileSuffix(names[0]) {
      EnumeratesNamed(location, fingerprint, names[1..], discovered);
    }
  }

  lemma {:induction false} NotEnumerating(location: Location, fingerprint: DirectoryFingerprint, gathered: Gathered,
                                          rest: seq<Candidate>)
    ensures !Continue(location, fingerprint, gathered, rest).Enumerating?
    decreases |rest|
  {
    if rest != [] && rest[0].identity in gathered.processed {
      NotEnumerating(location, fingerprint, gathered, rest[1..]);
    }
  }

  /** Only names of profiles are looked at. */
  lemma LooksAtProfiles(system: System, instanceId: Text, p: Progress, answer: Finding)
    ensures var next := Advance(system, instanceId, p, answer); next.Enumerating? ==> HasProfileSuffix(next.name)
  {
    hide Continue, Enumerate, Settled, Noted;
    match (p, answer)
    case (Reading(l), Listing(Some(directory))) => EnumeratesNamed(l, directory.0, directory.1, []);
    case (Enumerating(l, fingerprint, name, left, discovered), Seen(Found(found))) =>
      EnumeratesNamed(l, fingerprint, left, discovered + [found]);
    case (Enumerating(l, fingerprint, name, left, discovered), Seen(NoCandidate)) =>
      EnumeratesNamed(l, fingerprint, left, discovered);
    case (Parsing(l, fingerprint, gathered, current, rest, attempt, Some(couldOpen)), Seen(Found(again))) =>
      NotEnumerating(l, fingerprint, Settled(system, instanceId, gathered, current, couldOpen), rest);
      NotEnumerating(l, fingerprint, Noted(gathered, again), rest);
    case (Parsing(l, fingerprint, gathered, _, rest, _, Some(_)), Seen(NoCandidate)) =>
      NotEnumerating(l, fingerprint, gathered, rest);
    case _ =>
  }

  /** What is not yet parsed was found by the enumeration. */
  lemma {:induction false} WasSighted(system: System, instanceId: Text, answers: seq<Finding>, times: seq<nat>, k: nat,
                                      location: Location, candidate: Candidate)
    requires AreAnswers(system, instanceId, answers, times) && k <= |answers|
    requires IsPending(Through(system, instanceId, answers[..k]), location, candidate)
    ensures exists j: nat :: j < k && IsSighting(system, instanceId, answers, j, location, candidate)
  {
    hide Advance, IsPending;
    if k == 0 {
      NothingPending(location, candidate);
    } else {
      assert answers[..k][..k - 1] == answers[..k - 1];
      var p := Through(system, instanceId, answers[..k - 1]);
      PendingGrows(system, instanceId, p, answers[k - 1], location, candidate);
      if IsPending(p, location, candidate) {
        WasSighted(system, instanceId, answers, times, k - 1, location, candidate);
      } else {
        if k > 1 {
          assert answers[..k - 1][..k - 2] == answers[..k - 2];
          LooksAtProfiles(system, instanceId, Through(system, instanceId, answers[..k - 2]), answers[k - 2]);
        }
        assert IsSighting(system, instanceId, answers, k - 1, location, candidate);
      }
    }
  }

  lemma NothingPending(location: Location, candidate: Candidate)
    ensures !IsPending(Beginning, location, candidate)
  {
  }

  lemma LoadWidens(system: System, instanceId: Text, p: Progress, from: nat, upto: nat, earlier: nat, later: nat)
    requires IsAt(system, instanceId, p, from, upto) && earlier <= from && upto <= later
    ensures IsAt(system, instanceId, p, earlier, later)
  {
    hide AreAnswers, AreInOrder, Through;
    var answers, times :| LeadTo(system, instanceId, answers, times, p, from, upto);
    assert LeadTo(system, instanceId, answers, times, p, earlier, later);
  }

  // ---- Fresh loads ----

  lemma {:induction false} AnswersAgree(system: System, instanceId: Text, a: seq<Finding>, b: seq<Finding>, s: seq<nat>,
                                        t: seq<nat>, now: nat, k: nat)
    requires AreAnswers(system, instanceId, a, s) && AreAnswers(system, instanceId, b, t)
    requires AllWithin(s, now, now) && AllWithin(t, now, now) && k <= |a| && k <= |b| && !system.readsMayFail
    ensures a[..k] == b[..k]
  {
    hide NextQuestion, Answered;
    if k > 0 {
      AnswersAgree(system, instanceId, a, b, s, t, now, k - 1);
      assert IsAnswer(system, instanceId, a, s, k - 1) && IsAnswer(system, instanceId, b, t, k - 1);
      assert a[..k] == a[..k - 1] + [a[k - 1]] && b[..k] == b[..k - 1] + [b[k - 1]];
    }
  }

  /** If reads do not fail, a load whose questions are all answered at one moment has one result. */
  lemma FreshIsUnique(system: System, instanceId: Text, now: nat, x: LoadResult, y: LoadResult)
    requires IsFresh(system, instanceId, now, x) && IsFresh(system, instanceId, now, y) && !system.readsMayFail
    ensures x == y
  {
    hide Advance, Answered, AreInOrder;
    var a, s :| LeadTo(system, instanceId, a, s, Done(x), now, now);
    var b, t :| LeadTo(system, instanceId, b, t, Done(y), now, now);
    var k := if |a| <= |b| then |a| else |b|;
    AnswersAgree(system, instanceId, a, b, s, t, now, k);
    assert a[..|a|] == a && b[..|b|] == b;
    DoneEnds(system, instanceId, a, s, k);
    DoneEnds(system, instanceId, b, t, k);
  }

  /** Nothing is asked when a load is done. */
  lemma DoneEnds(system: System, instanceId: Text, answers: seq<Finding>, times: seq<nat>, k: nat)
    requires AreAnswers(system, instanceId, answers, times) && k <= |answers|
    ensures Through(system, instanceId, answers[..k]).Done? ==> k == |answers|
  {
    if k < |answers| {
      IsAsked(system, instanceId, answers, times, k);
    }
  }

  lemma IsAsked(system: System, instanceId: Text, answers: seq<Finding>, times: seq<nat>, k: nat)
    requires AreAnswers(system, instanceId, answers, times) && k < |answers|
    ensures NextQuestion(system, instanceId, answers[..k]).Some?
  {
    assert IsAnswer(system, instanceId, answers, times, k);
  }

  /** One moment for all answers. */
  function AllAt(answers: seq<Finding>, now: nat): (times: seq<nat>)
    ensures |times| == |answers| && forall k :: 0 <= k < |times| ==> times[k] == now
  {
    seq(|answers|, _ => now)
  }

  /** Answers that may all be given at one moment are those of a fresh load. */
  lemma AnswersAreFresh(system: System, instanceId: Text, answers: seq<Finding>, now: nat, r: LoadResult)
    requires AreAnswers(system, instanceId, answers, AllAt(answers, now)) && Through(system, instanceId, answers) == Done(r)
    ensures IsFresh(system, instanceId, now, r)
  {
    hide AreAnswers, Through;
    assert LeadTo(system, instanceId, answers, AllAt(answers, now), Done(r), now, now);
  }

  /** On a quiet file system a load at any time is a fresh one at any other. */
  lemma QuietLoad(system: System, instanceId: Text, r: LoadResult, from: nat, upto: nat, now: nat)
    requires IsQuiet(system, from) && IsLoad(system, instanceId, r, from, upto) && from <= now
    ensures IsFresh(system, instanceId, now, r)
  {
    hide Through, NextQuestion, Answered, AreInOrder;
    var answers, times :| LeadTo(system, instanceId, answers, times, Done(r), from, upto);
    forall k | 0 <= k < |answers|
      ensures IsAnswer(system, instanceId, answers, AllAt(answers, now), k)
    {
      assert IsAnswer(system, instanceId, answers, times, k);
      assert system.world(times[k]) == system.world(from) == system.world(now);
    }
    AnswersAreFresh(system, instanceId, answers, now, r);
  }

  // ---- A fresh load gives the cold result ----

  /** The directory that a load at this moment reads. */
  predicate IsReading(world: World, instanceId: Text, location: Location, fingerprint: DirectoryFingerprint) {
    && world.locate(instanceId) == Located(location) && location.hostPath in world.directories
    && world.directories[location.hostPath].fingerprint == fingerprint
  }

  /** What enumerating the names in `done` has discovered. */
  ghost predicate AreDiscovered(world: World, location: Location, done: seq<Text>, discovered: seq<Candidate>) {
    && (forall c :: c in discovered <==> c.entryName in done && IsListed(world, location, c))
    && forall i, j :: 0 <= i < j < |discovered| ==> discovered[i].entryName != discovered[j].entryName
  }

  /** What the candidates in front of `k` contribute. */
  function GatheredFrom(system: System, instanceId: Text, candidates: seq<Candidate>, unread: set<Text>,
                        k: nat): Gathered
    requires k <= |candidates|
  {
    Gathered(Records(system, instanceId, candidates[..k], unread), Fingerprints(candidates[..k]),
             set i | 0 <= i < k :: candidates[i].identity)
  }

  /** The candidates that are left are those of the directory from `k` on. */
  ghost predicate IsPartOf(system: System, world: World, instanceId: Text, location: Location, gathered: Gathered,
                           rest: seq<Candidate>, all: seq<Candidate>, unread: set<Text>, k: nat) {
    && IsEnumeration(world, location, all) && k <= |FirstOfEach(all)|
    && FirstOfEach(all)[k..] == rest && gathered == GatheredFrom(system, instanceId, FirstOfEach(all), unread, k)
  }

  /** How far a load can get whose questions are all answered by `world`, but that could not read some files. */
  ghost predicate IsFreshProgress(system: System, world: World, instanceId: Text, unread: set<Text>, p: Progress) {
    match p
    case Beginning => unread == {}
    case Reading(location) => unread == {} && world.locate(instanceId) == Located(location)
    case Enumerating(location, fingerprint, name, left, discovered) =>
      && unread == {} && IsReading(world, instanceId, location, fingerprint) && HasProfileSuffix(name)
      && exists done :: AreDiscovered(world, location, done, discovered)
                        && world.directories[location.hostPath].names == done + [name] + left
    case Parsing(location, fingerprint, gathered, current, rest, attempt, couldOpen) =>
      && IsReading(world, instanceId, location, fingerprint) && attempt == 0
      && (couldOpen.Some? ==>
            couldOpen.value == (CanBeOpened(world, location.hostPath, current.entryName) && current.identity !in unread))
      && (forall u :: u in unread ==> u in gathered.processed || (couldOpen.Some? && u == current.identity))
      && exists all, k :: IsPartOf(system, world, instanceId, location, gathered, [current] + rest, all, unread, k)
    case Done(r) => IsColdResult(system, world, instanceId, unread, r)
  }

  lemma {:induction false} ContinuesFresh(system: System, world: World, instanceId: Text, location: Location,
                                          fingerprint: DirectoryFingerprint, gathered: Gathered, rest: seq<Candidate>,
                                          all: seq<Candidate>, unread: set<Text>, k: nat)
    requires IsReading(world, instanceId, location, fingerprint)
    requires IsPartOf(system, world, instanceId, location, gathered, rest, all, unread, k)
    requires unread <= gathered.processed
    ensures IsFreshProgress(system, world, instanceId, unread, Continue(location, fingerprint, gathered, rest))
  {
    hide Records, FirstOfEach, IsEnumeration;
    var candidates := FirstOfEach(all);
    FirstOfEachIsDistinct(all);
    if rest == [] {
      assert candidates[..k] == candidates;
    } else {
      assert rest[0] == candidates[k] && Identities(candidates)[k] == candidates[k].identity;
      forall i | 0 <= i < k
        ensures candidates[i].identity != candidates[k].identity
      {
        assert Identities(candidates)[i] != Identities(candidates)[k];
      }
      assert rest == [rest[0]] + rest[1..];
    }
  }

  lemma SortKeeps(discovered: seq<Candidate>)
    ensures forall c :: c in Sort(discovered, CandidateLeq) <==> c in discovered
  {
    forall c
      ensures c in Sort(discovered, CandidateLeq) <==> c in discovered
    {
      assert c in multiset(Sort(discovered, CandidateLeq)) <==> c in multiset(discovered);
    }
  }

  lemma CandidatesAreOrdered()
    ensures IsTotalPreorder(CandidateLeq)
  {
    TextLeqIsTotalOrder();
  }

  lemma SortedIsEnumeration(world: World, location: Location, discovered: seq<Candidate>)
    requires forall c :: c in discovered <==> IsListed(world, location, c)
    requires forall i, j :: 0 <= i < j < |discovered| ==> discovered[i].entryName != discovered[j].entryName
    ensures IsEnumeration(world, location, Sort(discovered, CandidateLeq))
  {
    hide IsSorted, TextLeq, Sort, IsListed;
    CandidatesAreOrdered();
    SortSorts(discovered, CandidateLeq);
    SortKeeps(discovered);
    assert AllDistinct(discovered);
    DistinctKept(discovered, Sort(discovered, CandidateLeq));
  }

  lemma ListedIsNamed(world: World, location: Location, candidate: Candidate)
    requires Shows(world, location, candidate)
    ensures location.hostPath in world.directories && candidate.entryName in world.directories[location.hostPath].names
  {
    assert candidate.entryName in world.directories[location.hostPath].targets;
  }

  lemma {:induction false} EnumeratesFresh(system: System, world: World, instanceId: Text, location: Location,
                                           fingerprint: DirectoryFingerprint, done: seq<Text>, names: seq<Text>,
                                           discovered: seq<Candidate>)
    requires IsReading(world, instanceId, location, fingerprint)
    requires AreDiscovered(world, location, done, discovered)
    requires world.directories[location.hostPath].names == done + names
    ensures IsFreshProgress(system, world, instanceId, {}, Enumerate(location, fingerprint, names, discovered))
    decreases |names|
  {
    hide IsEnumeration, FirstOfEach, Sort, Shows;
    if names == [] {
      assert done + names == done;
      forall c
        ensures c in discovered <==> IsListed(world, location, c)
      {
        if IsListed(world, location, c) {
          ListedIsNamed(world, location, c);
        }
      }
      SortedIsEnumeration(world, location, discovered);
      var all := Sort(discovered, CandidateLeq);
      assert FirstOfEach(all)[0..] == FirstOfEach(all) && NOTHING == GatheredFrom(system, instanceId, FirstOfEach(all), {}, 0);
      ContinuesFresh(system, world, instanceId, location, fingerprint, NOTHING, FirstOfEach(all), all, {}, 0);
    } else {
      assert done + names == done + [names[0]] + names[1..];
      if !HasProfileSuffix(names[0]) {
        EnumeratesFresh(system, world, instanceId, location, fingerprint, done + [names[0]], names[1..], discovered);
      }
    }
  }

  /** One look at an entry discovers its candidate, if it has one. */
  lemma LookDiscovers(world: World, location: Location, done: seq<Text>, name: Text, left: seq<Text>,
                      discovered: seq<Candidate>, inspection: Inspection)
    requires location.hostPath in world.directories && world.directories[location.hostPath].names == done + [name] + left
    requires AreDiscovered(world, location, done, discovered) && HasProfileSuffix(name)
    requires inspection == Inspected(world, location, name)
    ensures inspection != DirectoryUnreadable
    ensures AreDiscovered(world, location, done + [name],
                          if inspection.Found? then discovered + [inspection.candidate] else discovered)
  {
    var names := world.directories[location.hostPath].names;
    assert names[|done|] == name && forall i :: 0 <= i < |done| ==> names[i] == done[i];
    assert name !in done;
  }

  lemma SettledIsGathered(system: System, instanceId: Text, candidates: seq<Candidate>, unread: set<Text>, k: nat,
                          couldOpen: bool)
    requires k < |candidates| && AllDistinct(Identities(candidates))
    requires couldOpen ==
             (system.dataOf(candidates[k].identity, candidates[k].signature).Content? && candidates[k].identity !in unread)
    ensures Settled(system, instanceId, GatheredFrom(system, instanceId, candidates, unread, k), candidates[k], couldOpen) ==
            GatheredFrom(system, instanceId, candidates, unread, k + 1)
    ensures GatheredFrom(system, instanceId, candidates, unread, k + 1).processed ==
            GatheredFrom(system, instanceId, candidates, unread, k).processed + {candidates[k].identity}
  {
    hide OpaqueProfileId;
    assert candidates[..k + 1][..k] == candidates[..k];
    forall i | 0 <= i < k
      ensures candidates[i].identity != candidates[k].identity
    {
      assert Identities(candidates)[i] != Identities(candidates)[k];
    }
    assert Fingerprints(candidates[..k + 1]) == Fingerprints(candidates[..k]) + [candidates[k].fingerprint];
  }

  /** A file that comes later takes nothing away from the records so far. */
  lemma {:induction false} LaterUnread(system: System, instanceId: Text, candidates: seq<Candidate>, unread: set<Text>,
                                       identity: Text)
    requires forall c :: c in candidates ==> c.identity != identity
    ensures Records(system, instanceId, candidates, unread + {identity}) == Records(system, instanceId, candidates, unread)
  {
    if candidates != [] {
      assert candidates[|candidates| - 1] in candidates;
      LaterUnread(system, instanceId, candidates[..|candidates| - 1], unread, identity);
    }
  }

  /** The entry is opened, or cannot be read. */
  lemma OpeningStaysFresh(system: System, world: World, instanceId: Text, unread: set<Text>, p: Progress, opens: bool)
    requires p.Parsing? && p.couldOpen == None && IsFreshProgress(system, world, instanceId, unread, p)
    requires opens ==> CanBeOpened(world, p.location.hostPath, p.current.entryName)
    ensures var missed := if !opens && CanBeOpened(world, p.location.hostPath, p.current.entryName) then {p.current.identity} else {};
            IsFreshProgress(system, world, instanceId, unread + missed, p.(couldOpen := Some(opens)))
  {
    hide IsEnumeration, FirstOfEach, OpaqueProfileId, Records, CanBeOpened;
    var all, k: nat :| IsPartOf(system, world, instanceId, p.location, p.gathered, [p.current] + p.rest, all, unread, k);
    var candidates := FirstOfEach(all);
    FirstOfEachIsDistinct(all);
    assert k < |candidates|;
    assert candidates[k..][0] == p.current;
    forall c | c in candidates[..k]
      ensures c.identity != p.current.identity
    {
      var i :| 0 <= i < k && candidates[i] == c;
      assert Identities(candidates)[i] != Identities(candidates)[k];
    }
    LaterUnread(system, instanceId, candidates[..k], unread, p.current.identity);
    var missed := if !opens && CanBeOpened(world, p.location.hostPath, p.current.entryName) then {p.current.identity} else {};
    assert missed == {} ==> unread + missed == unread;
    assert IsPartOf(system, world, instanceId, p.location, p.gathered, [p.current] + p.rest, all, unread + missed, k);
    assert p.current.identity !in p.gathered.processed;
  }

  /** The look after a parse, when nothing changes. */
  lemma ParseSettlesFresh(system: System, world: World, instanceId: Text, unread: set<Text>, p: Progress,
                          all: seq<Candidate>, k: nat)
    requires p.Parsing? && p.couldOpen.Some? && IsFreshProgress(system, world, instanceId, unread, p)
    requires IsPartOf(system, world, instanceId, p.location, p.gathered, [p.current] + p.rest, all, unread, k)
    requires forall identity :: identity in world.files ==>
               world.files[identity].data == system.dataOf(identity, world.files[identity].signature)
    ensures var answer := Answered(world, QuestionOf(instanceId, p).value);
            IsFreshProgress(system, world, instanceId, unread, Advance(system, instanceId, p, answer))
  {
    hide IsEnumeration, FirstOfEach, OpaqueProfileId, Records, GatheredFrom, Settled;
    var candidates := FirstOfEach(all);
    FirstOfEachIsDistinct(all);
    assert candidates[k] == p.current;
    assert IsListed(world, p.location, p.current) by { IsOneOfAll(world, p.location, all, p.current); }
    SettledIsGathered(system, instanceId, candidates, unread, k, p.couldOpen.value);
    assert candidates[k + 1..] == p.rest;
    ContinuesFresh(system, world, instanceId, p.location, p.fingerprint,
                   GatheredFrom(system, instanceId, candidates, unread, k + 1), p.rest, all, unread, k + 1);
  }

  lemma IsOneOfAll(world: World, location: Location, all: seq<Candidate>, candidate: Candidate)
    requires IsEnumeration(world, location, all) && candidate in FirstOfEach(all)
    ensures IsListed(world, location, candidate)
  {
    FirstOfEachIsDistinct(all);
  }

  /** The file that this answer keeps a load from reading, if it is untrue. */
  function KeptUnread(world: World, p: Progress, answer: Finding): set<Text> {
    if p.Parsing? && p.couldOpen == None && answer == Opens(false) && CanBeOpened(world, p.location.hostPath, p.current.entryName)
    then {p.current.identity} else {}
  }

  lemma LookStaysFresh(system: System, world: World, instanceId: Text, p: Progress)
    requires p.Enumerating? && IsFreshProgress(system, world, instanceId, {}, p)
    ensures IsFreshProgress(system, world, instanceId, {},
                            Advance(system, instanceId, p, Seen(Inspected(world, p.location, p.name))))
  {
    hide Enumerate, Continue, AreDiscovered;
    var directory := world.directories[p.location.hostPath];
    var done :| AreDiscovered(world, p.location, done, p.discovered) && directory.names == done + [p.name] + p.left;
    var inspection := Inspected(world, p.location, p.name);
    LookDiscovers(world, p.location, done, p.name, p.left, p.discovered, inspection);
    EnumeratesFresh(system, world, instanceId, p.location, p.fingerprint, done + [p.name], p.left,
                    if inspection.Found? then p.discovered + [inspection.candidate] else p.discovered);
  }

  lemma StaysFresh(system: System, now: nat, instanceId: Text, unread: set<Text>, p: Progress, answer: Finding)
    requires var world := system.world(now);
             && IsFreshProgress(system, world, instanceId, unread, p)
             && forall identity :: identity in world.files ==>
                  world.files[identity].data == system.dataOf(identity, world.files[identity].signature)
    requires QuestionOf(instanceId, p).Some? && IsAnswered(system, now, QuestionOf(instanceId, p).value, answer)
    ensures IsFreshProgress(system, system.world(now), instanceId, unread + KeptUnread(system.world(now), p, answer),
                            Advance(system, instanceId, p, answer))
  {
    hide IsPartOf, Enumerate, Continue, AreDiscovered;
    var world := system.world(now);
    match p
    case Beginning => assert unread + {} == unread;
    case Reading(location) =>
      assert {} + {} == unread;
      if location.hostPath in world.directories {
        var directory := world.directories[location.hostPath];
        assert [] + directory.names == directory.names;
        NothingDiscovered(world, location);
        EnumeratesFresh(system, world, instanceId, location, directory.fingerprint, [], directory.names, []);
      }
    case Enumerating(_, _, _, _, _) =>
      assert {} + {} == unread;
      LookStaysFresh(system, world, instanceId, p);
    case Parsing(location, fingerprint, gathered, current, rest, attempt, couldOpen) =>
      if couldOpen.Some? {
        assert unread + {} == unread;
        var all, k :| IsPartOf(system, world, instanceId, location, gathered, [current] + rest, all, unread, k);
        ParseSettlesFresh(system, world, instanceId, unread, p, all, k);
      } else {
        OpeningStaysFresh(system, world, instanceId, unread, p, answer.opens);
      }
    case Done(_) =>
  }

  lemma NothingDiscovered(world: World, location: Location)
    ensures AreDiscovered(world, location, [], [])
  {
  }

  /** The files that can be opened at this moment and that the load was told it could not open. */
  function Unread(system: System, instanceId: Text, answers: seq<Finding>, now: nat): set<Text> {
    if answers == [] then {}
    else
      var before, last := answers[..|answers| - 1], answers[|answers| - 1];
      Unread(system, instanceId, before, now) + KeptUnread(system.world(now), Through(system, instanceId, before), last)
  }

  lemma {:induction false} AnswersStayFresh(system: System, instanceId: Text, answers: seq<Finding>, now: nat, k: nat)
    requires SignaturesAreFaithful(system) && AreAnswers(system, instanceId, answers, AllAt(answers, now)) && k <= |answers|
    ensures IsFreshProgress(system, system.world(now), instanceId, Unread(system, instanceId, answers[..k], now),
                            Through(system, instanceId, answers[..k]))
  {
    hide IsFreshProgress, Advance, IsAnswered, QuestionOf, KeptUnread;
    if k > 0 {
      AnswersStayFresh(system, instanceId, answers, now, k - 1);
      assert IsAnswer(system, instanceId, answers, AllAt(answers, now), k - 1);
      var before := answers[..k - 1];
      StaysFresh(system, now, instanceId, Unread(system, instanceId, before, now), Through(system, instanceId, before), answers[k - 1]);
      assert answers[..k][..k - 1] == before;
    } else {
      BeginningIsFresh(system, system.world(now), instanceId);
    }
  }

  lemma BeginningIsFresh(system: System, world: World, instanceId: Text)
    ensures IsFreshProgress(system, world, instanceId, {}, Beginning)
  {
  }

  /**
    A load at one moment gives the cold result, in whatever order the directory is read, but for exactly the
    records of the files that could be opened and that it was told it could not open.
   */
  lemma FreshIsCold(system: System, instanceId: Text, answers: seq<Finding>, now: nat, r: LoadResult)
    requires SignaturesAreFaithful(system) && AreAnswers(system, instanceId, answers, AllAt(answers, now))
    requires Through(system, instanceId, answers) == Done(r)
    ensures IsColdResult(system, system.world(now), instanceId, Unread(system, instanceId, answers, now), r)
    ensures !system.readsMayFail ==> Unread(system, instanceId, answers, now) == {}
  {
    hide Through, SignaturesAreFaithful, AreAnswers, IsColdResult, Unread;
    AnswersStayFresh(system, instanceId, answers, now, |answers|);
    assert answers[..|answers|] == answers;
    if !system.readsMayFail {
      NothingUnread(system, instanceId, answers, now, |answers|);
    }
  }

  lemma {:induction false} NothingUnread(system: System, instanceId: Text, answers: seq<Finding>, now: nat, k: nat)
    requires AreAnswers(system, instanceId, answers, AllAt(answers, now)) && k <= |answers| && !system.readsMayFail
    ensures Unread(system, instanceId, answers[..k], now) == {}
  {
    hide Through, CanBeOpened;
    if k > 0 {
      NothingUnread(system, instanceId, answers, now, k - 1);
      assert IsAnswer(system, instanceId, answers, AllAt(answers, now), k - 1);
      assert answers[..k][..k - 1] == answers[..k - 1];
    }
  }

  /** If reads do not fail, a load at one moment gives the cold result. */
  lemma ReliableIsCold(system: System, instanceId: Text, now: nat, r: LoadResult)
    requires SignaturesAreFaithful(system) && IsFresh(system, instanceId, now, r) && !system.readsMayFail
    ensures IsColdResult(system, system.world(now), instanceId, {}, r)
  {
    hide Through, SignaturesAreFaithful, AreAnswers, AreInOrder, IsColdResult;
    var answers, times :| LeadTo(system, instanceId, answers, times, Done(r), now, now);
    SameLength(system, instanceId, answers, times);
    assert times == AllAt(answers, now);
    FreshIsCold(system, instanceId, answers, now, r);
  }
}
