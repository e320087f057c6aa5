/**
  What a parse between two agreeing inspections may return, and when every such parse is right.  A parse
  opens the entry at one moment and reads the file it then leads to, which may meanwhile be rewritten.
 */
module ParseWindows {
  import opened Bytes
  import opened Hashing
  import opened ProfileLoading
  import opened ProfileTypes
  import opened Wrappers

  /** Some time between two moments the file is gone or has another signature. */
  ghost predicate IsRewritten(system: System, identity: Text, signature: Signature, from: nat, upto: nat) {
    exists t: nat :: from <= t <= upto &&
      !(identity in system.world(t).files && system.world(t).files[identity].signature == signature)
  }

  /** What reading an entry until `upto` may give that was opened at `m`. */
  ghost predicate IsReadAt(system: System, host: Text, name: Text, m: nat, upto: nat, data: FileData) {
    match FileAt(system.world(m), host, name)
    case None => data == NoAccess
    case Some(file) => data == file.data || IsRewritten(system, file.identity, file.signature, m, upto)
  }

  ghost predicate MayRead(system: System, host: Text, name: Text, from: nat, upto: nat, data: FileData) {
    exists m: nat :: from <= m <= upto && IsReadAt(system, host, name, m, upto, data)
  }

  /** Both inspections show the candidate. */
  ghost predicate AreAgreeing(system: System, location: Location, candidate: Candidate, seen: nat, inspected: nat) {
    && seen <= inspected
    && Shows(system.world(seen), location, candidate) && Shows(system.world(inspected), location, candidate)
  }

  /** What parsing the candidate between two agreeing inspections may return. */
  ghost predicate MayParse(system: System, instanceId: Text, location: Location, candidate: Candidate, seen: nat,
                           inspected: nat, result: ParseResult) {
    && AreAgreeing(system, location, candidate, seen, inspected)
    && exists data :: MayRead(system, location.hostPath, candidate.entryName, seen, inspected, data)
                      && result == ParseUnder(system, instanceId, candidate, data)
  }

  /** The parse of the data that the signature names, or a failure to open the file, which no cache keeps. */
  predicate IsRight(system: System, instanceId: Text, candidate: Candidate, result: ParseResult) {
    result == RightParse(system, instanceId, candidate) || result == Failed(UnreadableFile)
  }

  /** At no readable moment does the entry lead to other data, or to a file that is rewritten before the end. */
  ghost predicate IsSafeWindow(system: System, host: Text, name: Text, data: FileData, from: nat, upto: nat) {
    forall m: nat :: from <= m <= upto ==> IsSafeMoment(system, host, name, data, m, upto)
  }

  ghost predicate IsSafeMoment(system: System, host: Text, name: Text, data: FileData, m: nat, upto: nat) {
    match FileAt(system.world(m), host, name)
    case None => true
    case Some(file) =>
      && (file.data == NoAccess || file.data == data)
      && !IsRewritten(system, file.identity, file.signature, m, upto)
  }

  /** A parser that tells any two contents apart. */
  function Verbatim(): Parser { (bytes: ByteString) => Good(Fields(bytes, [], [], [], [])) }

  /** Whatever the parser, all parses are right. */
  ghost predicate AllParsesAreRight(system: System, instanceId: Text, location: Location, candidate: Candidate,
                                    seen: nat,
                                    inspected: nat) {
    forall parser: Parser, result :: MayParse(system.(parser := parser), instanceId, location, candidate, seen, inspected, result)
      ==> IsRight(system.(parser := parser), instanceId, candidate, result)
  }

  lemma SafeReadIsRight(system: System, host: Text, name: Text, right: FileData, from: nat, upto: nat, data: FileData)
    requires IsSafeWindow(system, host, name, right, from, upto) && MayRead(system, host, name, from, upto, data)
    ensures data == right || data == NoAccess
  {
    var m: nat :| from <= m <= upto && IsReadAt(system, host, name, m, upto, data);
    assert IsSafeMoment(system, host, name, right, m, upto);
  }

  lemma ReadLasts(system: System, host: Text, name: Text, m: nat, done: nat, upto: nat, data: FileData)
    requires done <= upto && IsReadAt(system, host, name, m, done, data)
    ensures IsReadAt(system, host, name, m, upto, data)
  {
  }

  /** In a safe window, what an open entry gives is the right data if it can be opened at all. */
  lemma SafeOpenIsRight(system: System, host: Text, name: Text, right: FileData, from: nat, upto: nat, m: nat,
                        done: nat,
                        data: FileData)
    requires IsSafeWindow(system, host, name, right, from, upto) && from <= m <= done <= upto
    requires IsReadAt(system, host, name, m, done, data)
    ensures data == if CanBeOpened(system.world(m), host, name) then right else NoAccess
  {
    assert IsSafeMoment(system, host, name, right, m, upto);
  }

  /** Some data is neither this nor inaccessible. */
  function OtherThan(data: FileData): (other: FileData)
    ensures other != data && other.Content?
  {
    if data == Content([]) then Content([0]) else Content([])
  }

  lemma UnsafeReadIsWrong(system: System, host: Text, name: Text, right: FileData, from: nat, upto: nat)
    returns (data: FileData)
    requires !IsSafeWindow(system, host, name, right, from, upto)
    ensures MayRead(system, host, name, from, upto, data) && data.Content? && data != right
  {
    var m: nat :| from <= m <= upto && !IsSafeMoment(system, host, name, right, m, upto);
    var file := FileAt(system.world(m), host, name).value;
    data := if IsRewritten(system, file.identity, file.signature, m, upto) then OtherThan(right) else file.data;
    assert IsReadAt(system, host, name, m, upto, data);
  }

  lemma WorldsAgree(system: System, parser: Parser, host: Text, name: Text, from: nat, upto: nat, data: FileData)
    ensures MayRead(system.(parser := parser), host, name, from, upto, data) <==> MayRead(system, host, name, from, upto, data)
  {
    forall m: nat
      ensures IsReadAt(system.(parser := parser), host, name, m, upto, data) <==> IsReadAt(system, host, name, m, upto, data)
    {
      forall identity, signature
        ensures IsRewritten(system.(parser := parser), identity, signature, m, upto) <==>
                IsRewritten(system, identity, signature, m, upto)
      {
      }
    }
  }

  /**
    The exact condition: every parse between two agreeing inspections is right, whatever the parser, if and
    only if at no readable moment in between the entry leads to a file with other data, or to one that is
    rewritten before the second inspection.
   */
  lemma ParsesAreRightExactly(system: System, instanceId: Text, location: Location, candidate: Candidate, seen: nat,
                              inspected: nat)
    requires AreAgreeing(system, location, candidate, seen, inspected)
    ensures AllParsesAreRight(system, instanceId, location, candidate, seen, inspected) <==>
            IsSafeWindow(system, location.hostPath, candidate.entryName,
                         system.dataOf(candidate.identity, candidate.signature), seen, inspected)
  {
    hide MayRead, IsSafeWindow;
    var host, name := location.hostPath, candidate.entryName;
    var right := system.dataOf(candidate.identity, candidate.signature);
    if IsSafeWindow(system, host, name, right, seen, inspected) {
      forall parser: Parser, result
        | MayParse(system.(parser := parser), instanceId, location, candidate, seen, inspected, result)
        ensures IsRight(system.(parser := parser), instanceId, candidate, result)
      {
        var data :| MayRead(system.(parser := parser), host, name, seen, inspected, data)
                    && result == ParseUnder(system.(parser := parser), instanceId, candidate, data);
        WorldsAgree(system, parser, host, name, seen, inspected, data);
        SafeReadIsRight(system, host, name, right, seen, inspected, data);
      }
    } else {
      var data := UnsafeReadIsWrong(system, host, name, right, seen, inspected);
      WorldsAgree(system, Verbatim(), host, name, seen, inspected, data);
      var wrong := ParseUnder(system.(parser := Verbatim()), instanceId, candidate, data);
      assert MayParse(system.(parser := Verbatim()), instanceId, location, candidate, seen, inspected, wrong);
      assert !IsRight(system.(parser := Verbatim()), instanceId, candidate, wrong);
    }
  }

  // ---- Whole loads ----

  /**
    Between two moments, whenever an entry for a profile in this directory leads twice to the same unchanged
    file, a parse in between is right.  Entries may leave a file and come back to it, as long as that is not
    within these moments, or as long as nothing else can be read through the entry meanwhile.
   */
  ghost predicate NoEntryDeceives(system: System, host: Text, from: nat, upto: nat) {
    forall a: nat, c: nat, name, identity, signature ::
      && from <= a <= c <= upto && HasProfileSuffix(name)
      && Leads(FileAt(system.world(a), host, name), identity, signature)
      && Leads(FileAt(system.world(c), host, name), identity, signature) ==>
        IsSafeWindow(system, host, name, system.dataOf(identity, signature), a, c)
  }

  /** Where the profiles of the instance are at some moment between two. */
  ghost predicate MayBeRead(system: System, instanceId: Text, host: Text, from: nat, upto: nat) {
    exists t: nat, location :: from <= t <= upto && system.world(t).locate(instanceId) == Located(location) && location.hostPath == host
  }

  /** No entry deceives a load between these moments, in any directory that it may read. */
  ghost predicate IsUndeceived(system: System, instanceId: Text, from: nat, upto: nat) {
    forall host :: MayBeRead(system, instanceId, host, from, upto) ==> NoEntryDeceives(system, host, from, upto)
  }

  lemma NarrowerIsSafer(system: System, host: Text, from: nat, upto: nat, later: nat)
    requires upto <= later
    ensures NoEntryDeceives(system, host, from, later) ==> NoEntryDeceives(system, host, from, upto)
  {
  }

  lemma UndeceivedWithin(system: System, instanceId: Text, from: nat, upto: nat, a: nat, c: nat)
    requires from <= a && c <= upto && IsUndeceived(system, instanceId, from, upto)
    ensures IsUndeceived(system, instanceId, a, c)
  {
    hide NoEntryDeceives;
    forall host | MayBeRead(system, instanceId, host, a, c)
      ensures NoEntryDeceives(system, host, a, c)
    {
      var t: nat, location :| a <= t <= c && system.world(t).locate(instanceId) == Located(location) && location.hostPath == host;
      assert MayBeRead(system, instanceId, host, from, upto);
      InsideIsSafer(system, host, from, upto, a, c);
    }
  }

  lemma InsideIsSafer(system: System, host: Text, from: nat, upto: nat, a: nat, c: nat)
    requires from <= a && c <= upto && NoEntryDeceives(system, host, from, upto)
    ensures NoEntryDeceives(system, host, a, c)
  {
    hide IsSafeWindow;
  }

  /** Within these moments no entry for a profile leads to a file, then elsewhere, and then to the unchanged file again. */
  ghost predicate NoEntryReturns(system: System, host: Text, from: nat, upto: nat) {
    forall a: nat, b: nat, c: nat, name, identity, signature ::
      && from <= a <= b <= c <= upto && HasProfileSuffix(name)
      && Leads(FileAt(system.world(a), host, name), identity, signature)
      && Leads(FileAt(system.world(c), host, name), identity, signature) ==>
        Leads(FileAt(system.world(b), host, name), identity, signature)
  }

  lemma NoReturnNoDeception(system: System, host: Text, from: nat, upto: nat)
    requires SignaturesAreFaithful(system) && NoEntryReturns(system, host, from, upto)
    ensures NoEntryDeceives(system, host, from, upto)
  {
    forall a: nat, c: nat, name, identity, signature
      | from <= a <= c <= upto && HasProfileSuffix(name) && Leads(FileAt(system.world(a), host, name), identity, signature)
        && Leads(FileAt(system.world(c), host, name), identity, signature)
      ensures IsSafeWindow(system, host, name, system.dataOf(identity, signature), a, c)
    {
      forall m: nat | a <= m <= c
        ensures Leads(FileAt(system.world(m), host, name), identity, signature)
      {
      }
      LeadingIsSafe(system, host, name, identity, signature, a, c);
    }
  }

  lemma LeadingIsSafe(system: System, host: Text, name: Text, identity: Text, signature: Signature, a: nat, c: nat)
    requires SignaturesAreFaithful(system)
    requires forall m: nat :: a <= m <= c ==> Leads(FileAt(system.world(m), host, name), identity, signature)
    ensures IsSafeWindow(system, host, name, system.dataOf(identity, signature), a, c)
  {
    forall m: nat | a <= m <= c
      ensures IsSafeMoment(system, host, name, system.dataOf(identity, signature), m, c)
    {
      assert Leads(FileAt(system.world(m), host, name), identity, signature);
      forall t: nat | m <= t <= c
        ensures identity in system.world(t).files && system.world(t).files[identity].signature == signature
      {
        assert Leads(FileAt(system.world(t), host, name), identity, signature);
      }
    }
  }

  /** A quiet file system deceives nobody. */
  lemma QuietDeceivesNobody(system: System, host: Text, from: nat, upto: nat)
    requires SignaturesAreFaithful(system) && IsQuiet(system, from)
    ensures NoEntryDeceives(system, host, from, upto)
  {
    assert forall t: nat :: t >= from ==> system.world(t) == system.world(from);
    assert NoEntryReturns(system, host, from, upto);
    NoReturnNoDeception(system, host, from, upto);
  }

  lemma QuietIsSafe(system: System, instanceId: Text, from: nat, upto: nat)
    requires SignaturesAreFaithful(system) && IsQuiet(system, from)
    ensures IsUndeceived(system, instanceId, from, upto)
  {
    forall host
      ensures NoEntryDeceives(system, host, from, upto)
    {
      QuietDeceivesNobody(system, host, from, upto);
    }
  }

  // ---- A deception ----

  /** A directory whose only entry leads to one file, at time 1 to another, and then to the first again. */
  function SwappedAway(location: Location, fingerprint: DirectoryFingerprint, name: Text, file: File,
                       other: File): nat -> World {
    (t: nat) =>
      World(_ => Located(location),
            map[location.hostPath := Directory(fingerprint, [name],
                                               map[name := Some(if t == 1 then other.identity else file.identity)])],
            map[file.identity := FileState(file.signature, file.data), other.identity := FileState(other.signature, other.data)])
  }

  function SwappedSystem(location: Location, fingerprint: DirectoryFingerprint, name: Text, file: File, other: File,
                         parser: Parser, sha: Digest): System {
    System(SwappedAway(location, fingerprint, name, file, other),
           (identity: Text, signature: Signature) => if identity == file.identity then file.data else other.data, false,
           parser, sha)
  }

  lemma SwappedFiles(location: Location, fingerprint: DirectoryFingerprint, name: Text, file: File, other: File,
                     parser: Parser, sha: Digest)
    requires file.identity != other.identity
    ensures var system := SwappedSystem(location, fingerprint, name, file, other, parser, sha);
            && SignaturesAreFaithful(system) && system.dataOf(file.identity, file.signature) == file.data
            && forall t: nat :: FileAt(system.world(t), location.hostPath, name) == Some(if t == 1 then other else file)
  {
  }

  lemma SwappedMayRead(location: Location, fingerprint: DirectoryFingerprint, name: Text, file: File, other: File,
                       parser: Parser, sha: Digest)
    requires file.identity != other.identity
    ensures var system := SwappedSystem(location, fingerprint, name, file, other, parser, sha);
            && MayRead(system, location.hostPath, name, 0, 2, other.data)
            && AreAgreeing(system, location, CandidateFrom(location, name, file.identity, file.signature), 0, 2)
  {
    var system := SwappedSystem(location, fingerprint, name, file, other, parser, sha);
    SwappedFiles(location, fingerprint, name, file, other, parser, sha);
    assert IsReadAt(system, location.hostPath, name, 1, 2, other.data);
  }

  lemma SwappedIsRead(location: Location, fingerprint: DirectoryFingerprint, name: Text, file: File, other: File,
                      parser: Parser, sha: Digest, instanceId: Text)
    ensures var system := SwappedSystem(location, fingerprint, name, file, other, parser, sha);
            MayBeRead(system, instanceId, location.hostPath, 0, 2)
  {
    var system := SwappedSystem(location, fingerprint, name, file, other, parser, sha);
    assert system.world(0).locate(instanceId) == Located(location);
  }

  /**
    Signatures that are never reused do not suffice.  If an alias is retargeted to another file and back, the
    inspections before and after a parse agree, and the parse may be that of the other file; a cache that
    kept it would hold for the first file what is not its parse.
   */
  lemma ReturningEntryDefeatsInspection(location: Location, fingerprint: DirectoryFingerprint, name: Text, file: File,
                                        other: File, parser: Parser, sha: Digest, instanceId: Text)
    requires file.identity != other.identity && other.data.Content? && HasProfileSuffix(name)
    requires var system := SwappedSystem(location, fingerprint, name, file, other, parser, sha);
             var candidate := CandidateFrom(location, name, file.identity, file.signature);
             ParseUnder(system, instanceId, candidate, other.data) != ParseUnder(system, instanceId, candidate, file.data)
    ensures var system := SwappedSystem(location, fingerprint, name, file, other, parser, sha);
            var candidate := CandidateFrom(location, name, file.identity, file.signature);
            var wrong := ParseUnder(system, instanceId, candidate, other.data);
            && SignaturesAreFaithful(system) && !IsUndeceived(system, instanceId, 0, 2)
            && MayParse(system, instanceId, location, candidate, 0, 2, wrong) && !IsRight(system, instanceId, candidate, wrong)
  {
    hide ParseUnder, SwappedSystem, MayRead, AreAgreeing, SignaturesAreFaithful, FileAt;
    var system := SwappedSystem(location, fingerprint, name, file, other, parser, sha);
    var candidate := CandidateFrom(location, name, file.identity, file.signature);
    SwappedFiles(location, fingerprint, name, file, other, parser, sha);
    SwappedMayRead(location, fingerprint, name, file, other, parser, sha);
    ReadableParses(system, instanceId, candidate, other.data);
    assert Leads(FileAt(system.world(0), location.hostPath, name), file.identity, file.signature);
    assert Leads(FileAt(system.world(2), location.hostPath, name), file.identity, file.signature);
    assert !IsSafeMoment(system, location.hostPath, name, file.data, 1, 2);
    assert !NoEntryDeceives(system, location.hostPath, 0, 2);
    SwappedIsRead(location, fingerprint, name, file, other, parser, sha, instanceId);
  }

  /** Content that can be read is never reported as unreadable. */
  lemma ReadableParses(system: System, instanceId: Text, candidate: Candidate, data: FileData)
    requires data.Content?
    ensures ParseUnder(system, instanceId, candidate, data) != Failed(UnreadableFile)
  {
  }
}
