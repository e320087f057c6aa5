/**
  The installer's transaction: four files are staged, the old ones moved aside, the new ones moved in.
  Every command may fail, with or without its effect, and a signal may come between any two commands;
  the exit handler infers from the recorded intents and from what exists how far the script got.
 */
module Installer {
  import opened Paths
  import opened Wrappers

  const COUNT := 4

  /** What a file holds: the user's file, nothing yet, part of a payload, or the whole payload `index`. */
  datatype Content = Users | Nothing | Partial | Payload(index: nat)

  /** A file; `identity` is its device and inode number. */
  datatype File = File(identity: nat, content: Content)

  datatype Role = Destination | Stage | Backup

  /** The three paths that belong to one destination. */
  datatype Place = Place(destination: Option<File>, stage: Option<File>, backup: Option<File>) {
    function At(role: Role): Option<File> {
      match role
      case Destination => destination
      case Stage => stage
      case Backup => backup
    }

    function Put(role: Role, file: Option<File>): Place {
      match role
      case Destination => this.(destination := file)
      case Stage => this.(stage := file)
      case Backup => this.(backup := file)
    }
  }

  /** The script's variables for one destination; a path variable is either empty or the path of its role. */
  datatype Entry = Entry(stagedPath: bool, backupPath: bool, hadOriginal: bool, backupIntended: bool,
                         replacementIntended: bool, replacementIdentity: Option<nat>)

  const EMPTY_ENTRY := Entry(false, false, false, false, false, None)

  ghost function Elements<T>(s: seq<T>): set<T> { set x | x in s }

  // ---- One destination: its files, its variables, and the original ----

  /** The temporary files that exist are the ones the script knows of. */
  predicate TemporariesKnown(p: Place, e: Entry) {
    && (p.stage.Some? ==> e.stagedPath)
    && (p.backup.Some? ==> e.backupPath)
  }

  /** Nothing was done to the destination, except that a placeholder may stand at its backup path. */
  predicate Untouched(p: Place, e: Entry, original: Option<File>) {
    && p.destination == original
    && !e.backupIntended && !e.replacementIntended
    && (e.hadOriginal ==> original.Some?)
  }

  /** The file is the new one, and the identity taken of it before the transaction says so. */
  predicate IsReplacement(file: Option<File>, e: Entry, i: nat) {
    file.Some? && file.value.content == Payload(i) && e.replacementIdentity == Some(file.value.identity)
  }

  /** An original was there; it is still in place, or it is at its backup path and nothing or the new file in place. */
  predicate MovedAside(p: Place, e: Entry, original: Option<File>, i: nat) {
    && e.hadOriginal && e.backupIntended && e.backupPath && original.Some?
    && if p.backup == None then p.destination == original && !e.replacementIntended
       else p.backup == original &&
            (p.destination == None || (e.replacementIntended && IsReplacement(p.destination, e, i)))
  }

  /** No original was there; the new file is at its staging path or in place. */
  predicate MovedIn(p: Place, e: Entry, original: Option<File>, i: nat) {
    && !e.hadOriginal && !e.backupIntended && e.replacementIntended
    && original == None && p.backup == None
    && if p.stage.Some? then p.destination == None && e.stagedPath else IsReplacement(p.destination, e, i)
  }

  /** The payload waits at the staging path, its identity taken. */
  predicate Staged(p: Place, e: Entry, i: nat) {
    e.stagedPath && IsReplacement(p.stage, e, i)
  }

  /** The original, if any, is moved aside, and the way is free for the payload. */
  predicate Vacated(p: Place, e: Entry, original: Option<File>, i: nat) {
    && p.destination == None && p.backup == original && Staged(p, e, i)
    && !e.replacementIntended
    && e.hadOriginal == e.backupIntended == original.Some?
    && (original.Some? ==> e.backupPath)
  }

  /** Where the rollback may find the destination. */
  predicate Recoverable(p: Place, e: Entry, original: Option<File>, i: nat) {
    TemporariesKnown(p, e) && (Untouched(p, e, original) || MovedAside(p, e, original, i) || MovedIn(p, e, original, i))
  }

  /** Status of a failed rollback or a failed removal. */
  const CLEANUP_FAILED := 74

  class Transaction {
    // The file system.
    var place: seq<Place>
    var directories: set<Path>
    var nextIdentity: nat
    const parents: seq<Path>      // the directory of each destination
    const obstacles: set<Path>    // what exists without being a real directory

    // The script's variables.
    var entry: seq<Entry>
    var createdDirectories: seq<Path>
    var transactionActive: bool

    ghost var failures: nat       // the commands on files that have reported a failure

    // How things stood before.
    ghost const original: seq<Option<File>>
    ghost const originalDirectories: set<Path>

    // ---- What holds between commands ----

    ghost predicate Shape()
      reads this`place, this`entry
    {
      |place| == |entry| == |parents| == |original| == COUNT
    }

    /** Files in a directory exist only if the directory does; directories have parents. */
    ghost predicate SoundStart() {
      && |parents| == |original| == COUNT
      && (forall i :: 0 <= i < COUNT && original[i].Some? ==>
            parents[i] in originalDirectories && original[i].value.content == Users)
      && [] in originalDirectories
      && forall d :: d in originalDirectories ==> Parent(d) in originalDirectories
    }

    /** The recorded directories were new when they were created, and were created parents first. */
    ghost predicate CreatedInOrder()
      reads this`createdDirectories
    {
      forall k :: 0 <= k < |createdDirectories| ==>
        && createdDirectories[k] !in originalDirectories + Elements(createdDirectories[..k])
        && Parent(createdDirectories[k]) in originalDirectories + Elements(createdDirectories[..k])
    }

    /** The directories are the old ones and the recorded ones. */
    ghost predicate DirectoriesRecorded()
      reads this`directories, this`createdDirectories
    {
      directories == originalDirectories + Elements(createdDirectories) && CreatedInOrder()
    }

    ghost predicate AllOriginal()
      requires Shape()
      reads this`place, this`entry
    {
      forall i :: 0 <= i < COUNT ==> place[i].destination == original[i]
    }

    ghost predicate AllNew()
      requires Shape()
      reads this`place, this`entry
    {
      forall i :: 0 <= i < COUNT ==> place[i].destination.Some? && place[i].destination.value.content == Payload(i)
    }

    ghost predicate NoTemporaries()
      requires Shape()
      reads this`place, this`entry
    {
      forall i :: 0 <= i < COUNT ==> place[i].stage == None && place[i].backup == None
    }

    /** Every original is in place or at its backup path. */
    ghost predicate NothingLost()
      requires Shape()
      reads this`place, this`entry
    {
      forall i :: 0 <= i < COUNT && original[i].Some? ==>
        place[i].destination == original[i] || place[i].backup == original[i]
    }

    /** What the exit handler relies on. */
    ghost predicate ReadyForCleanup()
      requires Shape()
      reads this`place, this`entry, this`transactionActive
    {
      if transactionActive then forall i :: 0 <= i < COUNT ==> Recoverable(place[i], entry[i], original[i], i)
      else (AllOriginal() || AllNew()) && forall i :: 0 <= i < COUNT ==> TemporariesKnown(place[i], entry[i])
    }

    constructor (place: seq<Place>, parents: seq<Path>, directories: set<Path>, obstacles: set<Path>, nextIdentity: nat)
      requires |place| == |parents| == COUNT
      requires forall i :: 0 <= i < COUNT ==> place[i].stage == None && place[i].backup == None
      requires forall i :: 0 <= i < COUNT && place[i].destination.Some? ==>
                 parents[i] in directories && place[i].destination.value.content == Users
      requires [] in directories && forall d :: d in directories ==> Parent(d) in directories
      ensures Shape() && SoundStart() && DirectoriesRecorded() && ReadyForCleanup()
      ensures AllOriginal() && NoTemporaries() && createdDirectories == [] && !transactionActive
      ensures Staging()
      ensures forall i :: 0 <= i < COUNT ==> original[i] == place[i].destination
      ensures this.place == place && this.parents == parents && originalDirectories == directories
    {
      this.place, this.parents, this.directories, this.obstacles := place, parents, directories, obstacles;
      this.nextIdentity := nextIdentity;
      entry := seq(COUNT, _ => EMPTY_ENTRY);
      createdDirectories, transactionActive, failures := [], false, 0;
      original := seq(COUNT, i requires 0 <= i < COUNT => place[i].destination);
      originalDirectories := directories;
    }

    // ---- Commands, each of which may fail, and fail with or without its effect ----

    /** `mv -fT`: one rename. */
    method Move(i: nat, from: Role, to: Role, reliable: bool) returns (ok: bool)
      requires Shape() && i < COUNT && from != to
      modifies this`place, this`failures
      ensures var moved := old(place)[i := old(place[i]).Put(from, None).Put(to, old(place[i]).At(from))];
              && (place == old(place) || (place == moved && old(place[i]).At(from).Some?))
              && (ok ==> place == moved && old(place[i]).At(from).Some?)
      ensures reliable && old(place[i]).At(from).Some? ==> ok
      ensures failures == old(failures) + if ok then 0 else 1
    {
      var happens, reported: bool := *, *;
      ok := false;
      if (happens || reliable) && place[i].At(from).Some? {
        place := place[i := place[i].Put(from, None).Put(to, place[i].At(from))];
        ok := reported || reliable;
      }
      failures := if ok then failures else failures + 1;
    }

    /** `rm -f`. */
    method Remove(i: nat, role: Role, reliable: bool) returns (ok: bool)
      requires Shape() && i < COUNT
      modifies this`place, this`failures
      ensures var removed := old(place)[i := old(place[i]).Put(role, None)];
              (place == old(place) || place == removed) && (ok ==> place == removed)
      ensures reliable ==> ok
      ensures failures == old(failures) + if ok then 0 else 1
    {
      var happens, reported: bool := *, *;
      ok := false;
      if happens || reliable {
        place := place[i := place[i].Put(role, None)];
        ok := reported || reliable;
      }
      failures := if ok then failures else failures + 1;
    }

    /** `mktemp` beside the destination: an empty file at a path that did not exist. */
    method MakeTemporary(i: nat, role: Role, reliable: bool) returns (ok: bool)
      requires Shape() && i < COUNT && place[i].At(role) == None
      modifies this`failures, this`place, this`nextIdentity
      ensures if ok then exists file: File :: file.content == Nothing && place == old(place)[i := old(place[i]).Put(role, Some(file))]
              else place == old(place)
      ensures reliable && parents[i] in directories ==> ok
      ensures failures == old(failures) + if ok then 0 else 1
    {
      var happens: bool := *;
      ok := (happens || reliable) && parents[i] in directories;
      if ok {
        var file := File(nextIdentity, Nothing);
        place := place[i := place[i].Put(role, Some(file))];
        nextIdentity := nextIdentity + 1;
      }
      failures := if ok then failures else failures + 1;
    }

    /** `install` or an append to the staged file: the path then holds `content`, or whatever a failure leaves. */
    method WriteStage(i: nat, content: Content, reliable: bool) returns (ok: bool)
      requires Shape() && i < COUNT && entry[i].stagedPath
      modifies this`failures, this`place, this`nextIdentity
      ensures exists file: Option<File> ::
                && place == old(place)[i := old(place[i]).(stage := file)]
                && (ok ==> file.Some? && file.value.content == content)
      ensures reliable ==> ok
      ensures failures == old(failures) + if ok then 0 else 1
    {
      var happens, kept: bool := *, *;
      ok := happens || reliable;
      var file := if ok then Some(File(nextIdentity, content))
                  else if kept then Some(File(nextIdentity, Partial)) else None;
      place := place[i := place[i].(stage := file)];
      nextIdentity := nextIdentity + 1;
      failures := if ok then failures else failures + 1;
    }

    /** `mkdir`: succeeds only below a directory and where nothing is. */
    method MakeDirectory(d: Path, reliable: bool) returns (ok: bool)
      modifies this`directories
      ensures ok ==> Parent(d) in old(directories) && d !in old(directories) && directories == old(directories) + {d}
      ensures !ok ==> directories == old(directories)
      ensures reliable && Parent(d) in old(directories) && d !in old(directories) && d !in obstacles ==> ok
    {
      var happens: bool := *;
      ok := (happens || reliable) && Parent(d) in directories && d !in directories && d !in obstacles;
      if ok {
        directories := directories + {d};
      }
    }

    ghost predicate IsEmptyDirectory(d: Path)
      requires Shape()
      reads this`place, this`entry, this`directories
    {
      && (forall e :: e in directories && e != [] ==> Parent(e) != d)
      && forall i :: 0 <= i < COUNT && parents[i] == d ==> place[i] == Place(None, None, None)
    }

    /** `rmdir`: removes an empty directory, or nothing. */
    method RemoveDirectory(d: Path, reliable: bool)
      requires Shape()
      modifies this`directories
      ensures directories == old(directories) || (old(IsEmptyDirectory(d)) && directories == old(directories) - {d})
      ensures reliable && old(IsEmptyDirectory(d)) ==> directories == old(directories) - {d}
    {
      var happens: bool := *;
      var noChildren := forall e :: e in directories && e != [] ==> Parent(e) != d;
      var noFiles := forall i :: 0 <= i < COUNT && parents[i] == d ==> place[i] == Place(None, None, None);
      if (happens || reliable) && noChildren && noFiles {
        directories := directories - {d};
      }
    }

    // ---- The exit handler ----

    /** One turn of the loop in `rollback_transaction`. */
    method RollBackOne(i: nat, reliable: bool) returns (ok: bool)
      requires Shape() && i < COUNT && Recoverable(place[i], entry[i], original[i], i)
      modifies this`failures, this`place, this`entry
      ensures Shape() && place == old(place)[i := place[i]] && entry == old(entry)[i := entry[i]]
      ensures TemporariesKnown(place[i], entry[i])
      ensures ok ==> place[i].destination == original[i]
      ensures original[i].Some? ==> place[i].destination == original[i] || place[i].backup == original[i]
      ensures failures >= old(failures) && (ok <==> failures == old(failures))
      ensures reliable ==> ok
    {
      ok := true;
      if entry[i].backupIntended {
        if place[i].backup.Some? {
          if place[i].destination.Some? {
            var removed := Remove(i, Destination, reliable);
            if !removed {
              ok := false;
            }
          }
          var restored := false;
          if place[i].destination == None {
            restored := Move(i, Backup, Destination, reliable);
          }
          if restored {
            entry := entry[i := entry[i].(backupPath := false, backupIntended := false)];
          } else {
            ok := false;
          }
        } else if place[i].destination.Some? {
          entry := entry[i := entry[i].(backupPath := false, backupIntended := false)];
        } else {
          ok := false;
        }
      } else if !entry[i].hadOriginal && entry[i].replacementIntended {
        var stageExists := entry[i].stagedPath && place[i].stage.Some?;
        if !stageExists && place[i].destination.Some? {
          var statFails: bool := *;
          var currentIdentity := if statFails && !reliable then None else Some(place[i].destination.value.identity);
          failures := if currentIdentity.Some? then failures else failures + 1;
          if currentIdentity.Some? && currentIdentity == entry[i].replacementIdentity {
            var removed := Remove(i, Destination, reliable);
            if !removed {
              ok := false;
            }
          } else {
            ok := false;
          }
        }
      }
      entry := entry[i := entry[i].(replacementIntended := false)];
    }

    /** `rollback_transaction`. */
    method RollBack(reliable: bool) returns (ok: bool)
      requires Shape() && forall i :: 0 <= i < COUNT ==> Recoverable(place[i], entry[i], original[i], i)
      modifies this`failures, this`place, this`entry
      ensures Shape() && NothingLost() && forall i :: 0 <= i < COUNT ==> TemporariesKnown(place[i], entry[i])
      ensures ok ==> AllOriginal()
      ensures failures >= old(failures) && (ok <==> failures == old(failures))
      ensures reliable ==> ok
    {
      ok := true;
      var index := COUNT;
      while index > 0
        invariant 0 <= index <= COUNT && Shape()
        invariant forall i :: 0 <= i < index ==> Recoverable(place[i], entry[i], original[i], i)
        invariant forall i :: index <= i < COUNT ==> TemporariesKnown(place[i], entry[i])
        invariant ok ==> forall i :: index <= i < COUNT ==> place[i].destination == original[i]
        invariant forall i :: index <= i < COUNT && original[i].Some? ==>
                    place[i].destination == original[i] || place[i].backup == original[i]
        invariant failures >= old(failures) && (ok <==> failures == old(failures))
        invariant reliable ==> ok
      {
        index := index - 1;
        var turned := RollBackOne(index, reliable);
        ok := ok && turned;
      }
    }

    /** The handler's loop over the temporary files; `CLEANUP_FAILED` takes the place of the status exactly if a removal fails. */
    method RemoveTemporaries(preserveBackups: bool, status: int, reliable: bool) returns (exit: int)
      requires Shape() && forall i :: 0 <= i < COUNT ==> TemporariesKnown(place[i], entry[i])
      modifies this`failures, this`place
      ensures Shape()
      ensures forall i :: 0 <= i < COUNT ==> place[i].destination == old(place[i].destination)
      ensures preserveBackups ==> forall i :: 0 <= i < COUNT ==> place[i].backup == old(place[i].backup)
      ensures failures >= old(failures) && exit == if failures == old(failures) then status else CLEANUP_FAILED
      ensures failures == old(failures) && !preserveBackups ==> NoTemporaries()
      ensures reliable || old(NoTemporaries()) ==> failures == old(failures)
    {
      exit := status;
      for index := 0 to COUNT
        invariant Shape()
        invariant forall i :: 0 <= i < COUNT ==> place[i].destination == old(place[i].destination)
        invariant preserveBackups ==> forall i :: 0 <= i < COUNT ==> place[i].backup == old(place[i].backup)
        invariant forall i :: index <= i < COUNT ==> place[i] == old(place[i])
        invariant forall i :: 0 <= i < COUNT ==> TemporariesKnown(place[i], entry[i])
        invariant failures >= old(failures) && exit == if failures == old(failures) then status else CLEANUP_FAILED
        invariant failures == old(failures) && !preserveBackups ==>
                    forall i :: 0 <= i < index ==> place[i].stage == place[i].backup == None
        invariant reliable || old(NoTemporaries()) ==> failures == old(failures)
      {
        if entry[index].stagedPath && place[index].stage.Some? {
          var removed := Remove(index, Stage, reliable);
          exit := if removed then exit else CLEANUP_FAILED;
        }
        if !preserveBackups {
          if entry[index].backupPath && place[index].backup.Some? {
            var removed := Remove(index, Backup, reliable);
            exit := if removed then exit else CLEANUP_FAILED;
          }
        }
      }
    }

    /** The handler's loop over the created directories, last created first. */
    method RemoveCreatedDirectories(reliable: bool)
      requires Shape() && SoundStart() && (createdDirectories == [] || DirectoriesRecorded())
      modifies this`directories
      ensures old(DirectoriesRecorded()) ==> originalDirectories <= directories
      ensures createdDirectories == [] ==> directories == old(directories)
      ensures old(DirectoriesRecorded()) && reliable && AllOriginal() && NoTemporaries() ==>
                directories == originalDirectories
    {
      hide *;
      var k := |createdDirectories|;
      ghost var recorded, undone := DirectoriesRecorded(), DirectoriesRecorded() && reliable && AllOriginal() && NoTemporaries();
      if recorded {
        RecordedParts();
      }
      while k > 0
        invariant 0 <= k <= |createdDirectories|
        invariant createdDirectories == [] ==> directories == old(directories)
        invariant recorded ==> originalDirectories <= directories
        invariant undone ==> directories == originalDirectories + Elements(createdDirectories[..k])
      {
        k := k - 1;
        var directory := createdDirectories[k];
        if undone {
          CreatedLastIsEmpty(k);
        }
        if recorded {
          CreatedIsNew(k);
        }
        if directory in directories {
          RemoveDirectory(directory, reliable);
        }
      }
      assert Elements(createdDirectories[..0]) == {} by { NoElements(); }
    }

    lemma NoElements()
      ensures Elements(createdDirectories[..0]) == {}
    {
    }

    lemma RecordedParts()
      requires DirectoriesRecorded()
      ensures CreatedInOrder() && originalDirectories <= directories
      ensures directories == originalDirectories + Elements(createdDirectories[..|createdDirectories|])
    {
      assert createdDirectories[..|createdDirectories|] == createdDirectories;
    }

    lemma CreatedIsNew(k: nat)
      requires CreatedInOrder() && k < |createdDirectories|
      ensures createdDirectories[k] !in originalDirectories
    {
    }

    lemma LastIsRemoved(k: nat)
      requires CreatedInOrder() && k < |createdDirectories|
      requires directories == originalDirectories + Elements(createdDirectories[..k + 1])
      ensures createdDirectories[k] in directories
      ensures directories - {createdDirectories[k]} == originalDirectories + Elements(createdDirectories[..k])
    {
      assert createdDirectories[..k + 1] == createdDirectories[..k] + [createdDirectories[k]];
    }

    lemma LastHasNoChild(k: nat, e: Path)
      requires SoundStart() && CreatedInOrder() && k < |createdDirectories| && e != []
      requires e in originalDirectories + Elements(createdDirectories[..k + 1])
      ensures Parent(e) != createdDirectories[k]
    {
      if e !in originalDirectories {
        var j :| 0 <= j <= k && createdDirectories[j] == e;
        assert createdDirectories[..j] == createdDirectories[..k][..j];
      }
    }

    /** With everything put back, the directory created last among those that remain is empty. */
    lemma CreatedLastIsEmpty(k: nat)
      requires Shape() && SoundStart() && AllOriginal() && NoTemporaries() && k < |createdDirectories|
      requires CreatedInOrder()
      requires directories == originalDirectories + Elements(createdDirectories[..k + 1])
      ensures IsEmptyDirectory(createdDirectories[k]) && createdDirectories[k] in directories
      ensures directories - {createdDirectories[k]} == originalDirectories + Elements(createdDirectories[..k])
    {
      hide Elements;
      var d := createdDirectories[k];
      LastIsRemoved(k);
      forall e | e in directories && e != []
        ensures Parent(e) != d
      {
        LastHasNoChild(k, e);
      }
      forall i | 0 <= i < COUNT && parents[i] == d
        ensures place[i] == Place(None, None, None)
      {
        assert original[i] == None;
      }
    }

    /**
      `cleanup`: what the script leaves behind, from wherever it stopped.  Once all files are new and the
      transaction is closed they stay; otherwise no original is lost.  The exit status is `CLEANUP_FAILED` exactly
      if one of the handler's own commands failed; if none did, everything is as it was.
     */
    method CleanUp(status: int, reliable: bool) returns (exit: int)
      requires Shape() && SoundStart() && ReadyForCleanup()
      requires DirectoriesRecorded() || (createdDirectories == [] && !transactionActive && AllNew())
      modifies this`failures, this`place, this`entry, this`directories
      ensures Shape()
      ensures old(DirectoriesRecorded()) ==> originalDirectories <= directories
      ensures createdDirectories == [] ==> directories == old(directories)
      ensures old(!transactionActive && AllNew()) ==> AllNew()
      ensures !old(!transactionActive && AllNew()) ==> NothingLost()
      ensures failures >= old(failures) && exit == if failures == old(failures) then status else 74
      ensures failures == old(failures) ==> NoTemporaries() && (old(!transactionActive && AllNew()) || AllOriginal())
      ensures reliable || old(!transactionActive && NoTemporaries()) ==> failures == old(failures)
      ensures reliable && !old(!transactionActive && AllNew()) ==> AllOriginal() && directories == originalDirectories
    {
      var preserveBackups := false;
      exit := status;
      if transactionActive {
        var rolledBack := RollBack(reliable);
        if !rolledBack {
          preserveBackups := true;
          exit := CLEANUP_FAILED;
        }
      }
      exit := RemoveTemporaries(preserveBackups, exit, reliable);
      RemoveCreatedDirectories(reliable);
    }

    // ---- The script ----

    /** The script's variables and files before the transaction. */
    ghost predicate Staging()
      reads this`place, this`entry, this`transactionActive
    {
      Shape() && !transactionActive &&
      forall i :: 0 <= i < COUNT ==>
        && TemporariesKnown(place[i], entry[i]) && Untouched(place[i], entry[i], original[i])
        && place[i].backup == None && !entry[i].backupPath && !entry[i].hadOriginal
    }

    /** Nothing but real directories stands on the way to `destination`. */
    ghost predicate IsClear(destination: Path) {
      forall d :: d in obstacles ==> !(d <= destination)
    }

    /** `ensure_destination_directory`; `false` is its exit with status 68, or a signal. */
    method EnsureDestinationDirectory(destination: Path, flawless: bool) returns (ok: bool)
      requires SoundStart() && DirectoriesRecorded()
      modifies this`directories, this`createdDirectories
      ensures DirectoriesRecorded() && old(directories) <= directories
      ensures ok ==> destination in directories
      ensures flawless && IsClear(destination) ==> ok
    {
      hide CreatedInOrder, Elements;
      var candidate := destination;
      var pending: seq<Path> := [];
      while candidate != []
        invariant pending == [] ==> candidate == destination
        invariant pending != [] ==> pending[|pending| - 1] == destination && Parent(pending[0]) == candidate
        invariant forall j :: 0 < j < |pending| ==> Parent(pending[j]) == pending[j - 1]
        invariant candidate <= destination && forall j :: 0 <= j < |pending| ==> pending[j] <= destination
        decreases |candidate|
      {
        if candidate in directories {
          break;
        }
        if candidate in obstacles {
          return false;
        }
        pending := [candidate] + pending;
        candidate := Parent(candidate);
      }
      for k := 0 to |pending|
        invariant DirectoriesRecorded() && old(directories) <= directories
        invariant forall j :: 0 <= j < k ==> pending[j] in directories
        invariant k < |pending| ==> Parent(pending[k]) in directories
      {
        var interrupted: bool := *;
        if interrupted && !flawless {
          return false;
        }
        var there := CreateDirectory(pending[k], flawless);
        if !there {
          return false;
        }
      }
      return destination in directories;
    }

    /** One `mkdir` of that loop; a directory that exists by now will do, one that was made is recorded. */
    method CreateDirectory(d: Path, flawless: bool) returns (there: bool)
      requires SoundStart() && DirectoriesRecorded()
      modifies this`directories, this`createdDirectories
      ensures DirectoriesRecorded() && old(directories) <= directories
      ensures there ==> d in directories
      ensures flawless && Parent(d) in old(directories) && d !in obstacles ==> there
    {
      var made := MakeDirectory(d, flawless);
      if made {
        ghost var before := createdDirectories;
        createdDirectories := createdDirectories + [d];
        assert forall j :: 0 <= j <= |before| ==> createdDirectories[..j] == before[..j];
        assert before[..|before|] == before;
      }
      return d in directories;
    }

    method EnsureDestinationDirectories(flawless: bool) returns (ok: bool)
      requires SoundStart() && DirectoriesRecorded() && Shape()
      modifies this`directories, this`createdDirectories
      ensures DirectoriesRecorded() && old(directories) <= directories
      ensures ok ==> forall i :: 0 <= i < COUNT ==> parents[i] in directories
      ensures flawless && (forall i :: 0 <= i < COUNT ==> IsClear(parents[i])) ==> ok
    {
      for index := 0 to COUNT
        invariant DirectoriesRecorded() && old(directories) <= directories
        invariant forall i :: 0 <= i < index ==> parents[i] in directories
      {
        var interrupted: bool := *;
        if interrupted && !flawless {
          return false;
        }
        var ensured := EnsureDestinationDirectory(parents[index], flawless);
        if !ensured {
          return false;
        }
      }
      return true;
    }

    /** `mktemp` for the four staging paths, then their contents, then their identities. */
    method StageFiles(flawless: bool) returns (ok: bool)
      requires Staging() && NoTemporaries()
      modifies this`failures, this`place, this`entry, this`nextIdentity
      ensures Staging()
      ensures ok ==> forall i :: 0 <= i < COUNT ==> Staged(place[i], entry[i], i)
      ensures flawless && (forall i :: 0 <= i < COUNT ==> parents[i] in directories) ==> ok
      ensures ok ==> failures == old(failures)
    {
      for index := 0 to COUNT
        invariant failures == old(failures)
        invariant Staging()
        invariant forall i :: 0 <= i < index ==> entry[i].stagedPath
        invariant forall i :: index <= i < COUNT ==> place[i].stage == None
      {
        var interrupted: bool := *;
        if interrupted && !flawless {
          return false;
        }
        var made := MakeTemporary(index, Stage, flawless);
        if !made {
          return false;
        }
        entry := entry[index := entry[index].(stagedPath := true)];
      }
      for index := 0 to COUNT
        invariant failures == old(failures)
        invariant Staging()
        invariant forall i :: 0 <= i < COUNT ==> entry[i].stagedPath
        invariant forall i :: 0 <= i < index ==> place[i].stage.Some? && place[i].stage.value.content == Payload(i)
      {
        var filled := FillStage(index, flawless);
        if !filled {
          return false;
        }
      }
      for index := 0 to COUNT
        invariant failures == old(failures)
        invariant Staging()
        invariant forall i :: 0 <= i < COUNT ==>
                    entry[i].stagedPath && place[i].stage.Some? && place[i].stage.value.content == Payload(i)
        invariant forall i :: 0 <= i < index ==> Staged(place[i], entry[i], i)
      {
        var failed: bool := *;
        if failed && !flawless {
          failures := failures + 1;
          return false;
        }
        entry := entry[index := entry[index].(replacementIdentity := Some(place[index].stage.value.identity))];
      }
      return true;
    }

    /** The content of one staged file. */
    method FillStage(index: nat, flawless: bool) returns (ok: bool)
      requires Staging() && index < COUNT && entry[index].stagedPath
      modifies this`failures, this`place, this`nextIdentity
      ensures Staging()
      ensures exists file ::
                && place == old(place)[index := old(place[index]).(stage := file)]
                && (ok ==> file.Some? && file.value.content == Payload(index))
      ensures flawless ==> ok
      ensures ok ==> failures == old(failures)
    {
      var interrupted: bool;
      // The metadata files start empty and are written line by line.
      if index >= 2 {
        var emptied := WriteStage(index, Nothing, flawless);
        interrupted := *;
        if !emptied || (interrupted && !flawless) {
          return false;
        }
      }
      var written := WriteStage(index, Payload(index), flawless);
      interrupted := *;
      return written && (!interrupted || flawless);
    }

    /** The backup loop. */
    method BackUpOriginals(flawless: bool) returns (ok: bool)
      requires Shape() && transactionActive && SoundStart()
      requires forall i :: 0 <= i < COUNT ==>
                 && Staged(place[i], entry[i], i) && TemporariesKnown(place[i], entry[i]) && Untouched(place[i], entry[i], original[i])
                 && place[i].backup == None && !entry[i].hadOriginal
      modifies this`failures, this`place, this`entry, this`nextIdentity
      ensures Shape() && ReadyForCleanup()
      ensures ok ==> forall i :: 0 <= i < COUNT ==> Vacated(place[i], entry[i], original[i], i)
      ensures flawless && (forall i :: 0 <= i < COUNT ==> parents[i] in directories) ==> ok
      ensures ok ==> failures == old(failures)
    {
      for index := 0 to COUNT
        invariant failures == old(failures)
        invariant Shape() && ReadyForCleanup()
        invariant forall i :: 0 <= i < index ==> Vacated(place[i], entry[i], original[i], i)
        invariant forall i :: index <= i < COUNT ==>
                    && Staged(place[i], entry[i], i) && Untouched(place[i], entry[i], original[i])
                    && place[i].backup == None && !entry[i].hadOriginal
      {
        var interrupted: bool := *;
        if interrupted && !flawless {
          return false;
        }
        var done := BackUpOne(index, flawless);
        if !done {
          return false;
        }
      }
      return true;
    }

    /** One turn of the backup loop. */
    method BackUpOne(index: nat, flawless: bool) returns (ok: bool)
      requires Shape() && SoundStart() && index < COUNT && place[index].backup == None && !entry[index].hadOriginal
      requires Staged(place[index], entry[index], index) && TemporariesKnown(place[index], entry[index])
      requires Untouched(place[index], entry[index], original[index])
      modifies this`failures, this`place, this`entry, this`nextIdentity
      ensures Shape() && place == old(place)[index := place[index]] && entry == old(entry)[index := entry[index]]
      ensures Recoverable(place[index], entry[index], original[index], index)
      ensures ok ==> Vacated(place[index], entry[index], original[index], index)
      ensures flawless && parents[index] in directories ==> ok
      ensures ok ==> failures == old(failures)
    {
      var interrupted: bool;
      if place[index].destination.Some? {
        entry := entry[index := entry[index].(hadOriginal := true)];
        interrupted := *;
        if interrupted && !flawless {
          return false;
        }
        var made := MakeTemporary(index, Backup, flawless);
        if !made {
          return false;
        }
        entry := entry[index := entry[index].(backupPath := true)];
        interrupted := *;
        if interrupted && !flawless {
          return false;
        }
        var removed := Remove(index, Backup, flawless);
        interrupted := *;
        if !removed || (interrupted && !flawless) {
          return false;
        }
        entry := entry[index := entry[index].(backupIntended := true)];
        interrupted := *;
        if interrupted && !flawless {
          return false;
        }
        var moved := Move(index, Destination, Backup, flawless);
        if !moved {
          return false;
        }
      }
      return true;
    }

    /** The replacement loop. */
    method MoveReplacementsIn(flawless: bool) returns (ok: bool)
      requires Shape() && transactionActive && ReadyForCleanup()
      requires forall i :: 0 <= i < COUNT ==> Vacated(place[i], entry[i], original[i], i)
      modifies this`failures, this`place, this`entry
      ensures Shape() && ReadyForCleanup()
      ensures ok ==> AllNew() && forall i :: 0 <= i < COUNT ==> place[i].stage == None
      ensures flawless ==> ok
      ensures ok ==> failures == old(failures)
    {
      for index := 0 to COUNT
        invariant failures == old(failures)
        invariant Shape() && ReadyForCleanup()
        invariant forall i :: 0 <= i < index ==> place[i].stage == None && IsReplacement(place[i].destination, entry[i], i)
        invariant forall i :: index <= i < COUNT ==> Vacated(place[i], entry[i], original[i], i)
      {
        var interrupted: bool := *;
        if interrupted && !flawless {
          return false;
        }
        entry := entry[index := entry[index].(replacementIntended := true)];
        interrupted := *;
        if interrupted && !flawless {
          return false;
        }
        var moved := Move(index, Stage, Destination, flawless);
        interrupted := *;
        if !moved || (interrupted && !flawless) {
          return false;
        }
        entry := entry[index := entry[index].(stagedPath := false)];
      }
      return true;
    }

    /** The commit loop, after the transaction is closed. */
    method DropBackups(flawless: bool) returns (ok: bool)
      requires Shape() && !transactionActive && AllNew()
      requires forall i :: 0 <= i < COUNT ==> TemporariesKnown(place[i], entry[i]) && place[i].stage == None
      modifies this`failures, this`place, this`entry
      ensures Shape() && AllNew() && ReadyForCleanup()
      ensures ok ==> NoTemporaries()
      ensures flawless ==> ok
      ensures ok ==> failures == old(failures)
    {
      for index := 0 to COUNT
        invariant failures == old(failures)
        invariant Shape() && AllNew()
        invariant forall i :: 0 <= i < COUNT ==> TemporariesKnown(place[i], entry[i]) && place[i].stage == None
        invariant forall i :: 0 <= i < index ==> place[i].backup == None
      {
        var interrupted: bool := *;
        if interrupted && !flawless {
          return false;
        }
        if entry[index].backupPath {
          var removed := Remove(index, Backup, flawless);
          interrupted := *;
          if !removed || (interrupted && !flawless) {
            return false;
          }
        }
        entry := entry[index := entry[index].(backupPath := false)];
      }
      return true;
    }

    /** The script up to its end or to the command at which it stops, without the exit handler. */
    method Forward(flawless: bool) returns (completed: bool)
      requires Shape() && SoundStart() && DirectoriesRecorded() && Staging() && NoTemporaries()
      modifies this`failures, this`place, this`entry, this`nextIdentity, this`directories, this`createdDirectories,
               this`transactionActive
      ensures Shape() && ReadyForCleanup()
      ensures completed ==> !transactionActive && AllNew() && NoTemporaries() && createdDirectories == []
      ensures completed ==> forall i :: 0 <= i < COUNT ==> parents[i] in directories
      ensures !completed ==> DirectoriesRecorded()
      ensures flawless && (forall i :: 0 <= i < COUNT ==> IsClear(parents[i])) ==> completed
      ensures completed ==> failures == old(failures)
    {
      completed := false;
      var ok := EnsureDestinationDirectories(flawless);
      if !ok {
        return;
      }
      ok := StageFiles(flawless);
      var interrupted: bool := *;
      if !ok || (interrupted && !flawless) {
        return;
      }
      transactionActive := true;
      ok := BackUpOriginals(flawless);
      if !ok {
        return;
      }
      ok := MoveReplacementsIn(flawless);
      interrupted := *;
      if !ok || (interrupted && !flawless) {
        return;
      }
      transactionActive := false;
      ok := DropBackups(flawless);
      interrupted := *;
      if !ok || (interrupted && !flawless) {
        return;
      }
      createdDirectories := [];
      return true;
    }

    /**
      Atomicity of a whole run, over every interruption point, every failing command and every subset of
      destinations that existed.  If the handler's own commands succeed (`reliable`), the four destinations
      are all the new files, or all as they were with no created directory left, and no temporary file
      remains.  Whatever the handler's commands do, an unfinished replacement loses no original, and the exit
      status is 74 unless all of them succeeded, so that any other status can be relied on. A run in which no
      command fails and no signal comes (`flawless`) completes, if nothing stands in the way of a destination
      directory.
     */
    method Run(status: int, flawless: bool, reliable: bool) returns (completed: bool, exit: int)
      requires Shape() && SoundStart() && DirectoriesRecorded() && Staging() && NoTemporaries()
      modifies this`failures, this`place, this`entry, this`nextIdentity, this`directories, this`createdDirectories,
               this`transactionActive
      ensures Shape()
      ensures completed ==> AllNew() && forall i :: 0 <= i < COUNT ==> parents[i] in directories
      ensures flawless && (forall i :: 0 <= i < COUNT ==> IsClear(parents[i])) ==> completed
      ensures AllNew() || NothingLost()
      ensures reliable ==> NoTemporaries() && (AllNew() || (AllOriginal() && directories == originalDirectories))
      ensures status != 0 && exit == 0 ==> completed
      ensures completed ==> failures == old(failures)
      ensures exit == 74 || exit == if completed then 0 else status
      ensures exit != 74 ==> NoTemporaries() && (AllNew() || AllOriginal())
      ensures reliable || completed ==> exit == if completed then 0 else status
    {
      completed := Forward(flawless);
      exit := CleanUp(if completed then 0 else status, reliable);
    }
  }
}
