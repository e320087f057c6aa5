# Verified models of remmina-krunner

This project models the parts of remmina-krunner whose correctness depends on order, on failures, or on
files that change while they are read, and proves what those parts promise. `dafny verify dfyconfig.toml`
checks everything.

| module | models | main results |
|---|---|---|
| `ProfileCatalog` (over `ProfileWatcher` and `ProfileRepository`) | the catalog that answers from a list while it is clean | `Catalog.Records`, `Catalog.RunMany`: an answer given without loading is what a load at that moment would give; any other answer comes from a load during the call. `WatchableExactly`, `ListAndResolve`: on a quiet file system whose directory can be watched the catalog becomes clean, lists every profile there is, and finds each by its id |
| `WatchedLinks` | how the watched paths and the links belong together | `CleanDirectoryStays` |
| `ProfileRepository` (over `ProfileLoading`, `ColdLoads`, `ParseWindows`, `ProfileTypes`, `Hashing`) | the parse cache over a file system that changes during a load | `Repository.Load`: a load with a cache gives what one without a cache may give, the two answers of a cache hit being as old as the look that found the file; `ParsesAreRightExactly`: when a parse between two inspections is right; `LoadWarmAndCold`, `ColdIsWhatIsThere`, `EachHasOneRecord`: while nothing changes every profile has exactly one record |
| `SymlinkResolution`, `SymlinkSeparation` (over `Paths`) | the two bounded symbolic-link algorithms | `ResolutionsAgree`, `DirectTargetsExactly`, `WalkIsResolve`, `RetargetOutsideIsInvisible` |
| `ProfileLocator`, `Containment` | the confinement of a sandbox's custom directory, and the search for a profile directory | `SnapCustomIsConfined`, `ContainedIsReallyBelow`, `ContainmentExactly`, `LocateProfileDirectory` |
| `Installer` | the four-file replacement in `install.sh` `Transaction.Run`: all new, or all as before, or exit 74, from every interruption point and failing command
| `ReleasePublisher` | the resumable asset swap in `publish_release.sh` | `Publisher.Run`, `Publisher.Converge` |
| `KeyFileReader`, `KeyFileGrammar` (over `Utf8`, `KeyFileSyntax`) | the streaming key-file reader | `ReadAllowedKeyFileValues` equals a whole-file meaning, whose lines are those of a written grammar (`LineExactly`); `Utf8.IsValidUtf8` is section 4 of RFC 3629 |
| `Escaping` | the encoders of the installer and of the build | the round trips, `TwoPassesAreOne` |
| `InstanceScanner`, `NativeIds`, `InstanceRegistry`, `Matcher` (over `Ordering`, `Instances`) | ids, the persistent selection, the ranking | `FlatpakIdInjective`, `DirectEntriesExactly`, `ListIsDetermined`, `AcceptedExactly`, `SavedChoiceSurvives`, `MatchMeans`, `RankingIsDetermined` |
| `RunnerService`, `SearchToLaunch` | service, launcher, registry and catalog composed | `SearchAndConnect`: a search shows exactly the matching profiles there are, and each of them can be started; `Service.RunMany`, `TokensAreUsedOnce` |

Conventions. A text is the sequence of its UTF-8 bytes. What the program learns from outside (a command
that fails with or without its effect, a signal, passing time, another process) is a nondeterministic
choice inside a method; a parameter `flawless` or `reliable` rules the failures out, for results of the form
"if nothing fails, it succeeds". What the program takes from Qt, from the kernel or from a user-supplied
function (case folding, white space, letters and digits, path cleaning, the digest, the profile parser)
is a parameter, and the results hold for every such function unless a hypothesis is named.

Some properties do not hold of every input. Each is proved with the exact condition under which it does:

- Taken as a function alone, the whole written key-file line round-trips exactly the values that neither begin with a
  form feed nor end with a carriage return (`Escaping.EntryLineRoundTrip`). The installer never writes
  another one: every path it accepts round-trips (`Escaping.AcceptedPathsRoundTrip`).
- A parse between two agreeing inspections is right, whatever the parser, exactly if at no readable moment in
  between the entry leads to other data or to a file that is being rewritten
  (`ParseWindows.ParsesAreRightExactly`; `ReturningEntryDefeatsInspection` is an input on which it is wrong).
  The results about loads and refreshes ask for this of the profiles in the directory that is read, during that load
  or refresh, and that the cache held nothing wrong when it began (`ParseWindows.IsUndeceived`,
  `ProfileRepository.Repository.IsSoundFor`); they ask for nothing at any other time.
- The two link algorithms can disagree through a link exactly if its target has `..` behind a name
  (`SymlinkSeparation.DirectTargetsExactly`), and exactly through such a link an allowed custom directory can lie
  outside every sandbox root (`Containment.ContainmentExactly`).
- Exactly a PATH entry with `..` behind a name can make a scan list one native id twice
  (`NativeIds.DirectEntriesExactly`).

What a load sees it sees at different moments, in order, with one exception: that a cached file can be opened and
is still the same are answers as old as the look in which the enumeration found it
(`ProfileLoading.AreInOrder`). So a load with a cache may give a record as it was before a change beside one
as it was after it. Reads may fail for a passing reason, unless `readsMayFail` rules it out. Two failing reads in
one refresh commit a list without the record, which is then answered without loading; `Catalog.Records` says
that it lacks exactly the records that the load was told it could not read.

## Model

| member | source | states |
|---|---|---|
| SymlinkResolution.SymlinkParentPaths | src/core/profile_repository.cpp:156-230 | the worklist loop lists the parents of exactly the links that the walk follows, each once, or fails where the walk fails; terminates by (40 - links followed, pending components) |
| SymlinkResolution.WalkIsResolve | src/core/profile_repository.cpp:164-228 | putting a target in front of what is pending follows the same links in the same order as resolving each target completely first, and ends alike |
| SymlinkResolution.WalkSplits | src/core/profile_repository.cpp:221-226 | working through two stretches of components is working through the first and, from where it ends, the second |
| SymlinkResolution.WalkEnds | src/core/profile_repository.cpp:189-228 | a walk ends at a link-free path; it gives up for too many links exactly before the forty-first; every followed link lies in a link-free directory |
| SymlinkResolution.LinkParentsExact | src/core/profile_repository.cpp:217-220 | the list holds exactly the directories of followed links, none twice |
| SymlinkResolution.RetargetOutsideIsInvisible | src/core/profile_repository.cpp:156-230 | retargeting any links outside the listed directories changes neither the resolved directory nor the list |
| SymlinkResolution.ResolvedPathForContainment | src/core/profile_locator.cpp:124-164 | the restart-from-root loop computes the restart resolution of the cleaned path, or fails where that fails; terminates |
| SymlinkResolution.AppendRest | src/core/profile_locator.cpp:150-152 | the components behind a link are put behind its target in order |
| SymlinkResolution.WalkAgreesWithRestart | src/core/profile_locator.cpp:130-161 | from any link-free directory and any direct pending components, in a tree of direct targets, walk and restart loop follow the same links and give up at the same place |
| SymlinkResolution.ResolutionsAgree | src/core/profile_locator.cpp:124-164 | for every path, if `..` leads every target of the tree: same links in the same order, both give up before the same link, or both reach the same link-free path, unless the path does not exist; `SymlinkSeparation.DirectTargetsExactly` shows that no target can be let off |
| SymlinkResolution.WalkOfClean | src/core/profile_repository.cpp:157-177 | without `..`, a path as written leads where its cleaned form leads, whatever the links |
| SymlinkResolution.WalkOfDirect | src/core/profile_repository.cpp:157-177 | from the root, a path in which every `..` comes before every name leads where its cleaned form leads, whatever the links |
| SymlinkSeparation.MixedTargetSeparates | src/core/profile_locator.cpp:146-154 | for every target that has `..` behind a name there is a tree, all of whose other targets are direct, on which the two algorithms disagree through a link with that target |
| SymlinkSeparation.DirectTargetsExactly | src/core/profile_locator.cpp:124-164 | exactly the targets in which every `..` comes before every name cannot make the two algorithms disagree |
| ProfileLocator.RootBeforeSuffix | src/core/profile_locator.cpp:166-173 | gives the one nonempty root from which the path continues with the suffix, if there is one |
| ProfileLocator.ConsistentModeledSandboxRoot | src/core/profile_locator.cpp:175-206 | finds exactly the root below which all three homes are at their places, which is unique |
| ProfileLocator.ModeledRootExactly | src/core/profile_locator.cpp:175-206 | a modelled root is the application's directory below some home as Flatpak and Snap lay it out, with the three homes at their places below it |
| ProfileLocator.VerifiedSnapRoots | src/core/profile_locator.cpp:221-253 | gives exactly the roots of the one version that `current` leads to and of the common directory |
| ProfileLocator.VerifiedSandboxRoots | src/core/profile_locator.cpp:208-254 | gives exactly the roots of a consistent sandbox layout, and none otherwise |
| ProfileLocator.IsCustomPathContained | src/core/profile_locator.cpp:272-292 | accepts exactly the paths that are below one and the same root both as written and as resolved |
| ProfileLocator.SnapCustomIsConfined | src/core/profile_locator.cpp:237-288 | a Snap's custom directory is allowed if and only if it is written below the current version and leads into that version, or is written below and leads into the common directory |
| ProfileLocator.RootsLeadThere | src/core/profile_locator.cpp:208-254 | where `..` leads every link target, each sandbox root, followed as the system follows it, leads to the place the locator recorded for it |
| ProfileLocator.ContainedIsReallyBelow | src/core/profile_locator.cpp:272-292 | where `..` leads every link target, an allowed custom directory, followed as the system follows it, is below the place that a sandbox root leads to for the system |
| Containment.MixedTargetEscapes | src/core/profile_locator.cpp:272-292 | for every target that has `..` behind a name there is a tree, all of whose other targets are direct, and a sandbox, in which the locator allows a custom directory that for the system lies below no sandbox root |
| Containment.ContainmentExactly | src/core/profile_locator.cpp:124-292 | exactly the targets in which every `..` comes before every name cannot make the locator allow a directory outside every sandbox root, whatever the other direct links |
| Containment.TrapWalk | src/core/profile_locator.cpp:146-154 | in that tree the system, following the links, goes up from where the cancelled name leads, and ends outside |
| Containment.TrapRestart | src/core/profile_locator.cpp:124-164 | in that tree the restart loop, cleaning the name away with the `..` behind it, stays below the place that the root leads to |
| ProfileLocator.SearchConventional | src/core/profile_locator.cpp:333-353 | the first conventional place that is a directory decides, as found or as unreadable |
| ProfileLocator.ConventionalOrder | src/core/profile_locator.cpp:333-353 | the legacy directory decides if there is one, else the one for data, else, for a native installation only, the first of the system's; else there is none |
| ProfileLocator.LocateProfileDirectory | src/core/profile_locator.cpp:315-354 | the first directory among an allowed custom one and the conventional places decides; a readable one further down never hides an unreadable one |
| Utf8.CharsEncodeScalars | src/core/key_file_reader.cpp:44-90 | the accepted characters are exactly the encodings of the Unicode scalar values |
| Utf8.HasContinuationBytes | src/core/key_file_reader.cpp:32-42 | true exactly if that many bytes are there and all continue a character |
| Utf8.FrontCharacter | src/core/key_file_reader.cpp:46-87 | the branches on the lead byte find exactly the character of the grammar that the rest begins with |
| Utf8.TextIsValid | src/core/key_file_reader.cpp:44-90 | reading character by character accepts exactly the NUL-free concatenations of characters of section 4 of RFC 3629 |
| Utf8.IsValidUtf8 | src/core/key_file_reader.cpp:44-90 | accepts exactly the NUL-free strings of section 4 of RFC 3629 |
| Utf8.CutBeforeNonTail | src/core/key_file_reader.cpp:285-334 | text cut before a byte that continues no character gives two texts |
| Utf8.CutAfterAscii | src/core/key_file_reader.cpp:274-276 | a string cut after an ASCII byte is text exactly if both parts are |
| KeyFileSyntax.FirstNonWhitespace | src/core/key_file_reader.cpp:94-100 | skips exactly the leading blanks |
| KeyFileSyntax.TrimmedKey | src/core/key_file_reader.cpp:102-113 | takes away exactly the blanks at both ends |
| KeyFileSyntax.TrimIsExact | src/core/key_file_reader.cpp:102-113 | a core without blanks at its ends comes back from between any blanks |
| KeyFileSyntax.TrimmedGroupHeader | src/core/key_file_reader.cpp:115-121 | takes away exactly the trailing spaces and tabs |
| KeyFileSyntax.KeyNameShape | src/core/key_file_reader.cpp:133-144 | the tests on bracket positions hold exactly for a name followed by one bracketed locale, read in the only possible way |
| KeyFileSyntax.IsValidLocale | src/core/key_file_reader.cpp:146-151 | accepts exactly the locales all of whose characters are allowed |
| KeyFileGrammar.LocalesAre | src/core/key_file_reader.cpp:146-151 | the locales accepted are exactly the rows of characters that are letters, digits, or one of the four marks |
| KeyFileSyntax.IsValidKeyName | src/core/key_file_reader.cpp:128-153 | accepts exactly nonempty names without brackets, alone or with one nonempty bracketed locale |
| KeyFileGrammar.KeysAre | src/core/key_file_reader.cpp:128-153 | the keys accepted are exactly the plain names, alone or with a plain locale in brackets |
| KeyFileSyntax.IsValidGroupName | src/core/key_file_reader.cpp:155-166 | accepts exactly nonempty names without brackets and control bytes |
| KeyFileGrammar.LineExactly | src/core/key_file_reader.cpp:285-343 | every line is read as what it is as written: a comment, the header of a section between blanks, the assignment of a value to a key with blanks around the key and in front of the value; and as malformed exactly if it is none of these |
| KeyFileGrammar.LineEndExactly | src/core/key_file_reader.cpp:278-283 | a line ends in front of its line feed, and of a carriage return in front of that |
| KeyFileSyntax.DecodeValue | src/core/key_file_reader.cpp:168-207 | the loop computes the meaning of the value escapes of the Desktop Entry Specification, malformed escapes included |
| KeyFileSyntax.DecodedExactly | src/core/key_file_reader.cpp:168-207 | a value decodes exactly if it is a row of plain bytes and of the five escapes, and then to what these stand for |
| KeyFileSyntax.PlainDecodes | src/core/key_file_reader.cpp:171-176 | a stretch without backslashes decodes to itself in front of anything |
| KeyFileSyntax.DecodedIsText | src/core/key_file_reader.cpp:168-207 | what text decodes to is text |
| KeyFileSyntax.PartsAreText | src/core/key_file_reader.cpp:285-334 | section names, keys, values and decoded values cut out of text are text |
| KeyFileReader.LinesAreText | src/core/key_file_reader.cpp:274-276 | checking line by line gives the verdict of checking the whole file |
| KeyFileReader.LinesAreTextIffWhole | src/core/key_file_reader.cpp:274-276 | a file is NUL-free text of the grammar of section 4 of RFC 3629 exactly if each of its lines is |
| KeyFileReader.WellFormedLineByLine | src/core/key_file_reader.cpp:261-343 | a file meets the limits on its size, lines and syntax as a whole exactly if each line is fine where it stands |
| KeyFileReader.InSectionExactly | src/core/key_file_reader.cpp:303-309 | a line is in a section exactly if the last header in front of it names the section |
| KeyFileReader.LastValueExactly | src/core/key_file_reader.cpp:315-343 | a key has a value exactly if the last line that assigns to it in the section does so with this value |
| KeyFileReader.ReadLineReadsLine | src/core/key_file_reader.cpp:262-272 | a bounded line read gives the next whole line, or shows that it is too long |
| KeyFileReader.Classify | src/core/key_file_reader.cpp:285-334 | the branches on a line's content compute its meaning: blank, header, assignment or malformed |
| KeyFileReader.ClassifyAssignment | src/core/key_file_reader.cpp:315-333 | the assignment branch finds exactly the key and the encoded value, or the defect |
| KeyFileReader.Remember | src/core/key_file_reader.cpp:303-343 | one line changes the reader's flags and maps so that they again say, for every allowed key, how its last assignment in the section decodes; valid and invalid keys stay disjoint |
| KeyFileReader.Concludes | src/core/key_file_reader.cpp:346-352 | at the end, the section was seen exactly if it occurs, nothing is invalid exactly if all last assignments decode, and then the values are exactly those |
| KeyFileReader.ReadAllowedKeyFileValues | src/core/key_file_reader.cpp:246-353 | the streaming reader gives the whole-file meaning for every file, section and key set; it reports unreadable exactly if the file does not open or a read fails before a malformed line |
| Escaping.EscapeDesktopEntryValue | packaging/install.sh:401-413 | gives the escaped value from which decoding recovers every value (`EntryRoundTrip`) |
| Escaping.EntryRoundTrip | packaging/install.sh:401-413 | decoding undoes the escape, for every value |
| Escaping.WrittenLineIsAssignment | packaging/install.sh:415-421 | the written line is read as an assignment to the same key |
| Escaping.EntryLineRoundTrip | packaging/install.sh:415-421 | through a whole written line the value comes back if and only if it does not begin with a form feed nor end with a carriage return |
| Escaping.ReturnIsLost | packaging/install.sh:415-421 | a carriage return at the end of a value is taken for part of the line end |
| Escaping.AcceptedPathsRoundTrip | packaging/install.sh:7-18 | every path that the installer accepts, one that begins with a slash and has no line break, comes back from the whole written line |
| Escaping.EscapeDBusExecArgument | packaging/install.sh:422-433 | gives the escaped argument from which decoding and unquoting recover every value (`ExecRoundTrip`) |
| Escaping.ExecRoundTrip | packaging/install.sh:422-441 | key-file decoding and then double-quote unescaping (D-Bus Specification, activation) undo the escape, for every value |
| Escaping.EscapeDBusExec | cmake/EscapeDBusExec.cmake:4-14 | the build's two replacements give, between quotes, what the installer's loop gives, and a relative path is refused |
| Escaping.TwoPassesAreOne | cmake/EscapeDBusExec.cmake:11-12 | replacing backslashes and then quotes equals one pass over the characters |
| Escaping.OrderOfPassesMatters | cmake/EscapeDBusExec.cmake:11-12 | the passes in the other order go wrong exactly on the values that contain a quote |
| Installer.Transaction.Move | packaging/install.sh:455-461 | a rename takes effect completely or not at all, whatever it reports |
| Installer.Transaction.RollBackOne | packaging/install.sh:284-323 | from every state an interruption can leave, one turn puts the original back or reports failure and loses nothing; it reports failure exactly if one of its commands failed |
| Installer.Transaction.RollBack | packaging/install.sh:282-325 | success means that all destinations are as before, and it succeeds exactly if no command of it failed; in any case every original is in place or at its backup path |
| Installer.Transaction.RemoveTemporaries | packaging/install.sh:340-345 | no destination is touched, kept backups stay; if every removal works no temporary file is left and the status is kept, and otherwise it becomes 74 |
| Installer.Transaction.RemoveCreatedDirectories | packaging/install.sh:346-354 | no directory that was there before goes; if everything works, all that the run created go |
| Installer.Transaction.CleanUp | packaging/install.sh:327-356 | the script exits with its status exactly if no command of the handler failed, and then all is new or all as before and no temporary file is left; otherwise it exits with 74, so half a rollback is never taken for either; a finished replacement stays and no original is lost |
| Installer.Transaction.EnsureDestinationDirectory | packaging/install.sh:362-388 | every directory made is recorded, parents first; success means that the destination's directory is there, and it succeeds if nothing fails and nothing else stands in the way |
| Installer.Transaction.CreateDirectory | packaging/install.sh:377-385 | one directory is made and recorded, or was there |
| Installer.Transaction.StageFiles | packaging/install.sh:394-445 | no original is touched; success means that all four payloads are staged and their identities taken |
| Installer.Transaction.BackUpOne | packaging/install.sh:449-458 | every stop in one turn leaves the destination recoverable; success means that its place is free and the original at its backup path |
| Installer.Transaction.BackUpOriginals | packaging/install.sh:449-458 | every stop leaves all destinations recoverable; success means that all originals are moved aside |
| Installer.Transaction.MoveReplacementsIn | packaging/install.sh:459-464 | every stop leaves all destinations recoverable; success means that all are new |
| Installer.Transaction.DropBackups | packaging/install.sh:465-469 | after the commit all destinations stay new; success means that no temporary file is left |
| Installer.Transaction.Forward | packaging/install.sh:390-470 | wherever the script stops, the exit handler finds what it relies on; it goes on to the commit only if no command failed; without failures it completes |
| Installer.Transaction.Run | packaging/install.sh:282-470 | for every interruption point, failing command and subset of existing destinations: all new or all as before and no temporary file left, or exit 74; exit 0 after a stop only with a completed replacement; no created directory left if the handler's commands work; no original lost in any case; completion if nothing fails |
| ReleasePublisher.ArmedMeansChecked | scripts/publish_release.sh:135-138 | where the trace shows a check as the last event that counts, no change has come since that check |
| ReleasePublisher.ShownMeansListed | scripts/publish_release.sh:166-181 | where the trace counts an id as shown under a name, a listing of it shows that, and no change has come since |
| ReleasePublisher.AbsentMeansListed | scripts/publish_release.sh:343-365 | where the trace counts a name as absent, a listing of it lacks the name, and no event of that name has come since |
| ReleasePublisher.GuardedGrows | scripts/publish_release.sh:135-138 | adding a change that is allowed keeps every change of the trace guarded: behind a check and behind the listing that it relies on |
| ReleasePublisher.HoldsIffKnownAndUnique | scripts/publish_release.sh:450-474 | the names can be indexed exactly if all are among the four known ones and none occurs twice |
| ReleasePublisher.Publisher.CheckIdentity | scripts/publish_release.sh:125-138 | success means that a check is the last event of the trace and, while no one else changes the release, that the draft is the one with this tag; if nothing fails, a draft with its tag is recognised |
| ReleasePublisher.Publisher.ListAssets | scripts/publish_release.sh:140-146 | shows every asset once, in some order |
| ReleasePublisher.Publisher.LookUpByName | scripts/publish_release.sh:148-164 | distinguishes the only asset of that name, none, several, and a failed listing |
| ReleasePublisher.Publisher.ShowsAs | scripts/publish_release.sh:166-181 | true only if the asset is there under that name |
| ReleasePublisher.Publisher.DeletePending | scripts/publish_release.sh:183-196 | the exit handler deletes at most the asset of that pending name, after a check and only if it was just shown under that name; if the handler's commands work and the draft is still the one of the run, a recorded upload is gone from its pending name |
| ReleasePublisher.Publisher.CleanUp | scripts/publish_release.sh:198-213 | at most the two pending assets disappear; after success nothing changes; after a failure with working commands no recorded upload remains under a pending name |
| ReleasePublisher.Publisher.VerifyBytes | scripts/publish_release.sh:289-308 | success means that the bytes behind the id are the local ones |
| ReleasePublisher.ReadFinalPair | scripts/publish_release.sh:317-336 | accepts a listing exactly if it shows the two final names once each and nothing else |
| ReleasePublisher.Publisher.VerifyFinalPair | scripts/publish_release.sh:310-341 | success means that the last listing shows exactly the pair, with the local bytes behind both; a complete draft is accepted if nothing fails |
| ReleasePublisher.Publisher.RequireAbsent | scripts/publish_release.sh:343-365 | success means that no asset has the name |
| ReleasePublisher.Publisher.StageAsset | scripts/publish_release.sh:367-394 | success means that the recorded id holds the local bytes and only that pending name is new; the id is kept for the exit handler |
| ReleasePublisher.Publisher.ConfirmStaged | scripts/publish_release.sh:389-394 | an upload counts only when its id is shown under its name and its bytes are the local ones |
| ReleasePublisher.Classify | scripts/publish_release.sh:450-474 | finds the id under each of the four names, or refuses because of a foreign or repeated name |
| ReleasePublisher.KnownDraftIsAccepted | scripts/publish_release.sh:450-474 | a draft that only this script changed is never refused |
| ReleasePublisher.Publisher.ReadDraft | scripts/publish_release.sh:444-474 | success means that the recorded ids are those of the draft, and that nothing foreign is on it |
| ReleasePublisher.Publisher.VerifyRecovery | scripts/publish_release.sh:478-494 | nothing is changed; success means that what an interrupted upload left holds the local bytes |
| ReleasePublisher.Publisher.RemoveRecoveries | scripts/publish_release.sh:496-513 | deletes verified leftovers only; success means that exactly the pending names are gone |
| ReleasePublisher.Publisher.StagePair | scripts/publish_release.sh:518-530 | success means that both uploads are verified |
| ReleasePublisher.Publisher.RemovePriors | scripts/publish_release.sh:536-551 | a prior asset is deleted only when both staged ones are verified; success means that exactly the prior names are gone |
| ReleasePublisher.Publisher.RenamePair | scripts/publish_release.sh:553-575 | success means that exactly the two correct assets are left |
| ReleasePublisher.Publisher.Swap | scripts/publish_release.sh:444-577 | every stop keeps known and unique names and whole pending files; success completes the draft |
| ReleasePublisher.Publisher.CreateDraft | scripts/publish_release.sh:399-408 | creation may stop halfway with either file missing; what it leaves can be resumed |
| ReleasePublisher.Publisher.Publish | scripts/publish_release.sh:396-577 | the whole script without its exit handler: guarded changes, verified success, resumable stops |
| ReleasePublisher.Publisher.PublishNew | scripts/publish_release.sh:396-442 | a new draft is published with the two files, verified |
| ReleasePublisher.Publisher.Run | scripts/publish_release.sh:183-577 | in every trace each change, the exit handler's included, has a successful check since the change before, each deletion a listing that showed the asset under the name it is deleted for, each upload one that showed its name to be free, and a successful run ends with a listing of the pair and a check; success means the verified pair; after a failed run with a working handler no upload that the run recorded remains under a pending name; without failures a run succeeds |
| ReleasePublisher.Publisher.Converge | scripts/publish_release.sh:367-577 | after any number of runs cut short anywhere the names are known and unique, and one run without failures leaves exactly the two correct assets |
| Hashing.AddLength | src/core/profile_repository.cpp:99-106 | feeds the eight bytes of the length, most significant first |
| Hashing.HashTuple | src/core/profile_repository.cpp:108-118 | hashes the framing of the list |
| Hashing.BigEndianInjective | src/core/profile_repository.cpp:99-106 | lengths of eight bytes are determined by those bytes |
| Hashing.FramedInjective | src/core/profile_repository.cpp:108-118 | the framing is injective on lists of fields, whatever the fields contain |
| Hashing.OpaqueIdInjective | src/core/profile_repository.cpp:444-450 | with a collision-free digest an opaque id names one instance and one file |
| Hashing.CacheKeyInjective | src/core/profile_repository.cpp:120-128 | with a collision-free digest a cache key names one instance, directory and file |
| Hashing.KeysAreNotIds | src/core/profile_repository.cpp:120-128 | no cache key is an opaque id |
| ProfileTypes.SanitizeRecords | src/core/profile_catalog.cpp:100-115 | the counting pass and the filtering pass keep the records whose id is nonempty and counted once |
| ProfileTypes.SanitizedPlaces | src/core/profile_catalog.cpp:100-115 | exactly the records with a nonempty id that no record elsewhere has are kept, in their order |
| ProfileTypes.SanitizedExactly | src/core/profile_catalog.cpp:100-115 | an id picks at most one of the kept records, and none of the others |
| ProfileTypes.DistinctSurvive | src/core/profile_catalog.cpp:100-115 | nothing is dropped from records with distinct ids |
| ProfileLoading.EnumerationIsUnique | src/core/profile_repository.cpp:411-417 | a directory has one enumeration, whatever the order in which it was read |
| ProfileLoading.FirstOfEachIsDistinct | src/core/profile_repository.cpp:419-427 | what is left after the deduplication has distinct identities |
| ProfileLoading.LoadAdvances | src/core/profile_repository.cpp:483-627 | a load asks one question after another: where, which names, what is behind a name, can it be opened, what is behind it now; each answered at its own moment, not before the one before it |
| ProfileLoading.WasSighted | src/core/profile_repository.cpp:379-427 | whatever a load has yet to parse was found by a look of its enumeration, under the name of a profile |
| ProfileLoading.HitAdvances | src/core/profile_repository.cpp:523-544 | a cache hit asks two questions whose answers are those of the look that found the candidate; all other answers stay in order of time |
| ProfileLoading.FreshIsUnique | src/core/profile_repository.cpp:483-627 | if reads do not fail, a load whose questions are all answered at one moment has one result |
| ProfileLoading.QuietLoad | src/core/profile_repository.cpp:483-627 | on a quiet file system a load at any time gives what one at any other moment gives |
| ProfileLoading.FreshIsCold | src/core/profile_repository.cpp:483-627 | answers that may all be given at one moment give the declarative result: the parses and fingerprints of the first candidate of each file in the order of names, in whatever order the directory is read, without exactly the records of the files that could be opened and that the load was told it could not open |
| ProfileLoading.ReliableIsCold | src/core/profile_repository.cpp:483-627 | if reads do not fail, a load at one moment gives the declarative result in full |
| ColdLoads.FirstOfEachExactly | src/core/profile_repository.cpp:419-427 | a candidate is kept exactly if none in front of it is of the same file, and the kept ones stay in order |
| ColdLoads.EachHasOneRecord | src/core/profile_repository.cpp:411-626 | in what there is to load, every file that is a profile, can be read and parses has exactly one record, under the least of its names |
| ColdLoads.FirstNameExists | src/core/profile_repository.cpp:411-427 | every profile of the directory has a least name, under which it is loaded |
| ColdLoads.IdsDiffer | src/core/profile_repository.cpp:444-450 | with a collision-free digest the files have different ids, none of which is empty |
| ColdLoads.NothingIsDropped | src/core/profile_catalog.cpp:100-115 | if the files have different ids, all records of what there is to load have different ids, and sanitizing drops none |
| ColdLoads.ColdIsWhatIsThere | src/core/profile_repository.cpp:483-627 | the declarative result is, said of the file system alone: one fingerprint for each file that is a profile, one record for each that can be read and parses, under the least name of the file, in the order of the names, and no other; and the error otherwise |
| ColdLoads.FreshIsWhatIsThere | src/core/profile_repository.cpp:483-627 | a load whose answers may all be given at one moment gives that, without exactly the records of the files that it was told it could not open |
| ColdLoads.ReliableIsWhatIsThere | src/core/profile_repository.cpp:483-627 | if reads do not fail it gives all of that |
| ParseWindows.ParsesAreRightExactly | src/core/profile_repository.cpp:553-570 | every parse between two agreeing inspections is right, whatever the parser, if and only if at no readable moment in between the entry leads to a file with other data or to one that is rewritten before the second inspection |
| ParseWindows.SafeOpenIsRight | src/core/profile_repository.cpp:553-570 | in such a window the open file gives exactly the data that the signature names, or cannot be opened |
| ParseWindows.NoReturnNoDeception | src/core/profile_repository.cpp:553-570 | within a time in which no entry for a profile of the directory leaves a file and comes back to it unchanged, all windows of the directory are safe |
| ParseWindows.QuietIsSafe | src/core/profile_repository.cpp:553-570 | on a quiet file system no load is deceived |
| ParseWindows.QuietDeceivesNobody | src/core/profile_repository.cpp:553-570 | while nothing changes no entry deceives |
| ParseWindows.UndeceivedWithin | src/core/profile_repository.cpp:553-570 | a load is not deceived within a time in which none is |
| ParseWindows.ReturningEntryDefeatsInspection | src/core/profile_repository.cpp:553-570 | signatures that are never reused do not suffice: with an alias retargeted and put back in between, the inspections agree and the parse may be that of the other file |
| ProfileRepository.Repository.Deduplicate | src/core/profile_repository.cpp:419-427 | keeps exactly the candidates that are the first of their file, in order |
| ProfileRepository.Repository.EnumerateCandidates | src/core/profile_repository.cpp:347-432 | each candidate was seen during the load, all are distinct files, and the load has got as far as one without a cache may get; while nothing changes, every profile of a readable directory has a candidate of the same file |
| ProfileRepository.Repository.Read | src/core/profile_repository.cpp:553 | what is read is the data of the file that the entry led to when it was opened, unless that file was rewritten meanwhile |
| ProfileRepository.Repository.ParseOnce | src/core/profile_repository.cpp:553-570 | a parse between agreeing inspections returns what such a parse may return; if no profile entry of the directory deceived since the load began, it is the parse of the content that the signature names if the entry could be opened, and a failure if not |
| ProfileRepository.Repository.ParseStably | src/core/profile_repository.cpp:546-579 | after at most two attempts, and at an unstable end exactly two, a stable result is right for the candidate it is reported for, under the same condition, and a sound cache stays sound |
| ProfileRepository.ParseCanBeShared | src/core/profile_repository.cpp:434-440 | a right parse, its paths and id rewritten, is the parse under any alias of the file |
| ProfileRepository.SharedParse | src/core/profile_repository.cpp:532-542 | what a sound cache gives an alias is right, and the alias could be opened when it was seen |
| ProfileRepository.Repository.CacheHitAdvances | src/core/profile_repository.cpp:523-544 | a cache hit stands for the opening and the second look of a load without a cache, and what a sound cache holds is what that load would have parsed |
| ProfileRepository.Repository.LoadCandidate | src/core/profile_repository.cpp:517-616 | a hit and a parse record the same for a candidate; no identity is recorded twice, even if a candidate changes identity |
| ProfileRepository.Repository.ParseAndRemember | src/core/profile_repository.cpp:546-604 | of a candidate that was parsed an entry under its own key and with its own signature is left in the cache, and no other under that key; while nothing changes the file is opened once, and is remembered if it could be |
| ProfileRepository.Repository.LoadCandidates | src/core/profile_repository.cpp:509-626 | whatever changes, fingerprint paths are distinct and of files seen in this load, and records belong to distinct ones of them; if the cache was sound and no entry deceived in this load, every record is right, the cache stays sound, and the snapshot is one of a load without a cache |
| ProfileRepository.Repository.Prune | src/core/profile_repository.cpp:618-624 | exactly the entries under active keys stay, as they are |
| ProfileRepository.Repository.Load | src/core/profile_repository.cpp:483-627 | if the cache held nothing wrong of this instance when it began and no profile entry of the directory it reads deceived during it, the cache is sound afterwards, whatever happened to it before, and the result is one of a load without a cache, even if reads fail. The cache then holds entries of the files of the snapshot only, for this instance and directory, and nothing if there is no directory. While nothing changes: the result is what is there, so that every profile that can be read and parses has exactly one record, under the least name of its file; all files that can be opened are remembered; and a file that was remembered is not opened again |
| ProfileRepository.LoadWarmAndCold | src/core/profile_repository.cpp:523-544 | on a quiet file system any sound cache, or one of another instance, and an empty one load the same: what is there |
| ProfileRepository.KeysDiffer | src/core/profile_repository.cpp:120-128 | with a collision-free digest the files of a directory have different cache keys |
| ProfileRepository.NothingToSanitize | src/core/profile_repository.cpp:514-616 | with a collision-free digest all opaque ids of a snapshot are distinct, and sanitizing drops nothing |
| ProfileWatcher.Watcher.Clear | src/platform/qt_profile_watcher.cpp:72-85 | nothing is watched, and all handlers installed so far are outdated |
| ProfileWatcher.Watcher.ReplacePaths | src/platform/qt_profile_watcher.cpp:15-70 | all the paths, made clean, are watched for the new callback, or none for any |
| ProfileWatcher.Watcher.RunMany | src/platform/qt_profile_watcher.cpp:48-74 | a handler installed before any clearing or replacing runs nothing afterwards, however often the watcher was cleared and given paths in between |
| ProfileCatalog.WatchPaths | src/core/profile_catalog.cpp:28-75 | the loops and sorts compute the list to watch of `WatchListExists` and `WatchListExactly`, or refuse |
| ProfileCatalog.WatchListExists | src/core/profile_catalog.cpp:28-75 | there is a list exactly if host, launch and canonical path, the parents of all links and the paths of all files can be made clean, and device and inode are not zero |
| ProfileCatalog.WatchListExactly | src/core/profile_catalog.cpp:38-74 | watched are exactly the directory, the parents of its links and the profile files, cleaned |
| ProfileCatalog.WatchListOrder | src/core/profile_catalog.cpp:38-74 | no path is watched twice; the directory comes first, then the parents of links in order, then the files in order |
| ProfileCatalog.WatchableExactly | src/core/profile_catalog.cpp:28-75 | what there is to load can be watched exactly if the directory is there and readable, it and the parents of its links are at absolute paths, on a real device, and so are the files behind its profiles |
| ProfileCatalog.EquivalentSnapshot | src/core/profile_catalog.cpp:86-98 | true exactly if the snapshots agree in all but their records |
| ProfileCatalog.Catalog.EquivalentAreWatchedAlike | src/core/profile_catalog.cpp:185-197 | equivalent snapshots have the same paths to watch |
| ProfileCatalog.AnswerPersists | src/core/profile_catalog.cpp:185-197 | an answer that a load was given may still be given while no watched path is touched and no change of that load's answers goes untouched |
| ProfileCatalog.UntouchedIsFresh | src/core/profile_catalog.cpp:178-202 | answers gathered at different moments, all after the watches were installed, are those of a load at this moment, if no watched path was touched since, or else one of these very answers changed after it was given without touching one |
| ProfileCatalog.BasisStaysFresh | src/core/profile_catalog.cpp:178-202 | what a clean list rests on is what a load at this moment gives, and is what is there without exactly the records it was told it could not read, if no watched path was touched since the watches were installed, or else one of its answers changed without touching one |
| ProfileCatalog.RepeatedWasLoaded | src/core/profile_catalog.cpp:164-166 | in any log whose answers without loading repeat the answer before them, each of them comes from loads that were answered for this instance with the same records |
| ProfileCatalog.QuietCandidates | src/core/profile_catalog.cpp:175-196 | on a quiet file system all loads give the same candidate, and its paths can be watched exactly if the world is as in `WatchableExactly` |
| ProfileCatalog.QuietAnswerTells | src/core/profile_catalog.cpp:117-120 | on a quiet file system what is answered after loading, records or either error, is what the file system calls for |
| ProfileCatalog.Catalog.RunCallback | src/core/profile_catalog.cpp:269-276 | a callback does something only while its lifetime is the active one |
| ProfileCatalog.Catalog.Signal | src/platform/qt_profile_watcher.cpp:50-68 | a signal marks the catalog dirty exactly if it belongs to the present generation and the active callback |
| ProfileCatalog.Catalog.InstallWatches | src/core/profile_catalog.cpp:255-283 | success means that the snapshot's own paths are watched for the active callback, as of now; refusal, that no callback is active and the catalog dirty; if nothing fails it succeeds exactly if there is a list to watch |
| ProfileCatalog.Catalog.LoadRepository | src/core/profile_catalog.cpp:185-189 | the caching repository loads once while files change and signals arrive; if the cache held nothing wrong when the refresh began and no entry deceived in it so far, the result is one of a load without a cache in this time, and the cache is sound |
| ProfileCatalog.Catalog.InstallCleanSnapshot | src/core/profile_catalog.cpp:285-290 | what was loaded under its own watches becomes the clean snapshot, with the refresh, the answers and the watches that it rests on |
| ProfileCatalog.Catalog.Verify | src/core/profile_catalog.cpp:185-202 | loads once, and commits only what was loaded again under the candidate's watches without a signal and is equivalent; if the refresh was not deceived so far, whatever it ends with was loaded in it; commits if nothing fails and nothing changes |
| ProfileCatalog.Catalog.Compare | src/core/profile_catalog.cpp:190-202 | what was loaded under the watches is committed if no signal came and it is equivalent, tried once more if only it differs, and given up if a signal came |
| ProfileCatalog.Catalog.InstallAndVerify | src/core/profile_catalog.cpp:178-202 | a round that first installs the candidate's watches: it commits only what was loaded again under them, and ends with the loaded records if they cannot be installed; it throws only if something fails |
| ProfileCatalog.Catalog.Refresh | src/core/profile_catalog.cpp:168-209 | if the cache held nothing wrong when it began and no entry deceived in it, any answer comes from a load during the call, any error from a failed one, and the cache is sound; after at most two rounds and three loads the catalog is clean or given up |
| ProfileCatalog.Catalog.CleanIsFresh | src/core/profile_catalog.cpp:164-166 | a clean catalog whose watches were not hit holds what a load at this moment gives, without exactly the records that its own refresh was told it could not read, unless a change behind them was missed; asked of that refresh alone is that it was not deceived |
| ProfileCatalog.Catalog.Records | src/core/profile_catalog.cpp:152-209 | answers without loading exactly if the list for the instance is clean, with the list answered before, and logs what it answers with the moment, the refresh behind it, its answers, their times and the watched paths; otherwise it loads one to three times. Without loading it is fresh if every touch was delivered and that refresh was not deceived, or a change was missed; after loading it comes from loads during the call if they were not deceived. On a quiet file system the answer is what is there, or the error that fits; if it can be watched, said of the file system alone, and nothing fails, the list is left clean and complete, and the next call need not load. If nothing throws, nothing stays watched for a list that is not clean |
| ProfileCatalog.Catalog.RecordsFromLoads | src/core/profile_catalog.cpp:168-209 | the same for the slow path, which leaves the list clean only if the refresh committed it |
| ProfileCatalog.Catalog.SelectOther | src/core/profile_catalog.cpp:156-162 | another instance is selected, and what was known of the one before is forgotten and no longer watched |
| ProfileCatalog.Catalog.AbandonRefresh | src/core/profile_catalog.cpp:300-305 | nothing is left clean, no callback is active and, if the watcher does not throw, nothing is watched |
| ProfileCatalog.Catalog.Reset | src/core/profile_catalog.cpp:238-244 | everything is forgotten, and nothing watched if the watcher does not throw |
| ProfileCatalog.Catalog.CleanIdsAreUnambiguous | src/core/profile_catalog.cpp:216-229 | an id picks at most one record of a clean list |
| ProfileCatalog.Catalog.Resolve | src/core/profile_catalog.cpp:211-232 | resolves exactly the id of a record in a clean list of the expected instance whose source is still the file its id was made of |
| ProfileCatalog.Catalog.ListedResolve | src/core/profile_catalog.cpp:211-232 | every record of a clean list that holds what is there resolves, if the file system answers as it is |
| ProfileCatalog.ListAndResolve | src/core/profile_catalog.cpp:152-232 | on a quiet file system that can be watched, if nothing fails: `records` lists exactly one record for every profile that can be read and parses, and `resolve` finds each of them by its id |
| ProfileCatalog.Catalog.RunMany | src/core/profile_catalog.cpp:152-305 | over all runs mixing calls, signals to present and past callbacks and file changes, each question gets one answer in the log, and each new entry of the log is justified: fresh at its moment or a change was missed, and the same as the entry before, if it was answered without loading; from loads in its time otherwise. If no load is deceived the cache stays sound, and if nothing throws no answer is an exception |
| WatchedLinks.UntouchedAreOutside | src/core/profile_catalog.cpp:48-60 | if no watched path is touched, links that change are none of those that lead to the directory |
| WatchedLinks.DirectoryStays | src/core/profile_repository.cpp:156-230 | however often links anywhere are retargeted, the directory stays where it is, behind the same links, as long as no watched path is touched |
| WatchedLinks.WasListed | src/core/profile_repository.cpp:347-376 | the fingerprint in a loaded snapshot is that of its directory at the moment when it was listed |
| WatchedLinks.CleanDirectoryStays | src/core/profile_catalog.cpp:28-75 | the directory that a clean list was read from is still where its fingerprint says, behind the links listed there, as long as no path watched for that list is touched, whatever links are retargeted |
| InstanceRegistry.ValidateSelection | src/core/selection_policy.cpp:6-29 | a listed choice is kept; whatever is selected is listed |
| InstanceRegistry.FallbackIsBest | src/core/selection_policy.cpp:13-28 | an unlisted choice gives way to the first instance of the best kind there is, reported as a change |
| InstanceRegistry.BackendExactly | src/core/instance_registry.cpp:12-20 | an id belongs to a backend exactly if it begins with that backend's name and a colon |
| InstanceRegistry.Registry.RescanAndRepair | src/core/instance_registry.cpp:27-47 | a choice is written over exactly if the scan lists another fallback and could ask the choice's backend; the flag says that the stored choice is the selected one |
| InstanceRegistry.Registry.Select | src/core/instance_registry.cpp:51-76 | selects exactly a listed id whose write, if one is needed, succeeds, and changes nothing otherwise |
| InstanceRegistry.SavedChoiceSurvives | src/core/instance_registry.cpp:33-39 | in every run a saved choice survives any number of scans that list it or could not ask its backend, however writes go, and the next scan that lists it selects it again |
| InstanceRegistry.Registry.RunMany | src/core/instance_registry.cpp:27-76 | any mix of scans and selections goes through states that may follow each other, call by call; the synchronisation flag implies that the stored choice is the selected one |
| InstanceRegistry.UnsparedIsReplaced | src/core/instance_registry.cpp:37-38 | a choice that is neither listed nor excused is replaced by a different one |
| InstanceScanner.RefsDoNotNest | src/core/instance_scanner.cpp:99-111 | no accepted ref ends in a colon followed by an accepted ref |
| InstanceScanner.SplitExactly | src/core/instance_scanner.cpp:99-150 | the parts are the only ones without a separator that, with separators between them, are the text |
| InstanceScanner.RefExactly | src/core/instance_scanner.cpp:99-111 | a ref is accepted exactly if it is the application, an architecture and a branch, with or without its kind in front |
| InstanceScanner.FlatpakIdInjective | src/core/instance_scanner.cpp:251 | an id names one installation and one ref, even if installation names contain colons |
| InstanceScanner.ControlExactly | src/core/instance_scanner.cpp:119-120 | exactly the code points 0 to 1F and 7F to 9F are control characters |
| InstanceScanner.DecodedExactly | src/core/instance_scanner.cpp:113-129 | a field is exactly what is left of text without control characters when the spaces around it are taken away, if anything is |
| InstanceScanner.DecodedHasNoControl | src/core/instance_scanner.cpp:113-129 | no decoded field contains a control byte |
| InstanceScanner.AcceptedExactly | src/core/instance_scanner.cpp:145-156 | a line is accepted exactly if it has three columns: the application, a ref of it, and the installation |
| InstanceScanner.KeyIsInjective | src/core/instance_scanner.cpp:158 | the deduplication key determines the row |
| InstanceScanner.ParseFlatpakInstallations | src/core/instance_scanner.cpp:141-180 | gives exactly the accepted rows, sorted, each once |
| InstanceScanner.ListOrder | src/core/instance_scanner.cpp:166-178 | the user's installation comes first, then the system's, then the others by name; refs of one are in order |
| InstanceScanner.ListIsDetermined | src/core/instance_scanner.cpp:141-180 | the list depends only on which rows are accepted, not on their order or number |
| InstanceScanner.PrefixSelects | src/core/instance_scanner.cpp:182-192 | a launch names the user's and the system's installation by an option of their own and every other by its name |
| InstanceScanner.PrefixIsInjective | src/core/instance_scanner.cpp:182-192 | different installations are launched differently |
| InstanceScanner.UnderSnapRootExactly | src/core/instance_scanner.cpp:37-45 | a path is under the Snap root exactly if it is the root or goes on behind it with a separator; every absolute path is under `/` |
| InstanceScanner.ScanNative | src/core/instance_scanner.cpp:209-236 | lists the first eligible candidate of each file, in the order of PATH |
| InstanceScanner.CandidatesAreListed | src/core/instance_scanner.cpp:209-236 | the file of every candidate that can be executed and is neither the Snap's launcher nor a file of the Snap is listed, under the first such candidate |
| InstanceScanner.NativesAreNative | src/core/instance_scanner.cpp:218-234 | no native instance is the Snap's launcher or a file of the Snap, and each is an executable file |
| InstanceScanner.CleanPathsNameFiles | src/core/instance_scanner.cpp:210-220 | with PATH entries that have no `..` behind a name, candidates with the same cleaned path have the same canonical path, whatever the links |
| InstanceScanner.NativeIdsAreDistinct | src/core/instance_scanner.cpp:209-236 | native ids are distinct if one cleaned path names one file |
| InstanceScanner.ScanFlatpak | src/core/instance_scanner.cpp:248-258 | gives the instances of the listed installations in order, with distinct ids |
| InstanceScanner.BackendsOfIds | src/core/instance_registry.cpp:12-20 | the backend of an id is that of the instance it was made for; a Flatpak's id is its backend, installation and ref with colons between |
| InstanceScanner.ScanInstances | src/core/instance_scanner.cpp:199-285 | lists natives, Flatpaks and the Snap; with PATH entries that have no `..` behind a name all ids are distinct; a backend is reported as failed exactly if it could not be asked |
| NativeIds.EndsDiffer | src/core/instance_scanner.cpp:210-220 | for every entry that has `..` behind a name there is a tree in which the entry and its cleaned form lead to different files |
| NativeIds.MixedEntryDoubles | src/core/instance_scanner.cpp:209-236 | in such a tree the scan of the entry and its cleaned form lists one id twice |
| NativeIds.DirectEntriesExactly | src/core/instance_scanner.cpp:209-236 | exactly the entries in which every `..` comes before every name can make no scan list a native id twice, whatever the links and the other direct entries |
| Matcher.ContainsExactly | src/core/matcher.cpp:23 | a field contains a token exactly if it is a front, the token and a back |
| Matcher.ScoresMean | src/core/matcher.cpp:14-27 | all tokens score 1, at least 0.9, or anything exactly if each is some searched field, its beginning, or a part of it; there are no scores but 1, 0.9, 0.75 and 0 |
| Matcher.FieldsAre | src/core/matcher.cpp:29-39 | the searched fields are exactly the name, the server and the labels, folded |
| Matcher.BestScore | src/core/matcher.cpp:101-104 | the greatest score of any field, or zero |
| Matcher.Score | src/core/matcher.cpp:96-110 | a profile matches exactly if every token scores, with the least of the tokens' best scores |
| Matcher.MatchMeans | src/core/matcher.cpp:93-112 | a profile matches exactly if every token is in some searched field, with relevance 1 if each is a whole field, 0.9 if each begins one, and 0.75 otherwise |
| Matcher.MatchProfiles | src/core/matcher.cpp:79-135 | gives exactly the profiles that match all tokens, each with its relevance, in order |
| Matcher.RankedInOrder | src/core/matcher.cpp:117-132 | of two matches the more relevant comes first, then the one whose folded name, then folded server, then source path comes first |
| Matcher.RankingIsDetermined | src/core/matcher.cpp:93-134 | with distinct source paths, permuting the profiles and reordering or repeating tokens changes nothing |
| Matcher.TiesAreEqual | src/core/matcher.cpp:117-132 | two matches that neither precedes are the same match |
| Matcher.FoldedTokens | src/core/matcher.cpp:55-68 | the loop reads the maximal runs without separators, folded |
| Matcher.SpacedWordsAreRead | src/core/matcher.cpp:55-68 | however words are spaced, exactly they are read |
| Matcher.ParseRunnerQuery | src/core/matcher.cpp:42-77 | the early returns and the loop decide as the trigger, the separator and the words do; a lookup has tokens |
| Matcher.QueryMeans | src/core/matcher.cpp:42-77 | the trigger and a separator followed by words, however spaced, ask for nothing without a word, for creation with the one word `new`, and for a lookup of the folded words otherwise |
| Matcher.OthersAreIgnored | src/core/matcher.cpp:42-53 | without the trigger and a separator behind it a query asks for nothing |
| Ordering.SortSorts | src/core/matcher.cpp:117-132 | a stable sort by a total preorder sorts |
| Ordering.TextLeqExactly | src/core/profile_repository.cpp:411-417 | a text comes before another exactly if it is its beginning or has the smaller byte at the first difference |
| Ordering.SortedIsUnique | src/core/instance_scanner.cpp:166-178 | without ties a sorted list is determined by its elements |
| RunnerService.TokenWasSetSince | src/dbus/runner_service.cpp:206-208 | a token at hand was set after the last launch |
| RunnerService.TokensAreUsedOnce | src/dbus/runner_service.cpp:206-208 | over every history of calls, between two launches a token was set for the second, if that had one |
| RunnerService.SelectedInstance | src/core/remmina_launcher.cpp:88-112 | finds the one instance with the selected id, and none if there are two |
| RunnerService.OpaqueIdExactly | src/dbus/runner_service.cpp:119-131 | an id is 64 digits to the base 16 with small letters |
| RunnerService.LaunchableExactly | src/core/remmina_launcher.cpp:24-35 | what is launched is an absolute path, and nothing that is passed on has a NUL |
| RunnerService.ShownExactly | src/dbus/runner_service.cpp:182-196 | a match is shown exactly if it is a match of the answered list and its id is not empty |
| RunnerService.RepliesShowAllMatches | src/dbus/runner_service.cpp:166-199 | every profile of the answered list that has an id and matches all tokens is shown in the reply to the query |
| RunnerService.Service.LookUp | src/dbus/runner_service.cpp:166-199 | shows exactly those matches of the list that `records` just answered for the selected instance that have an id, each as often and in the order of the ranking, or the error that it answered, and that answer is justified; every error ends the session; on a quiet file system that can be watched that list is complete |
| RunnerService.Service.Match | src/dbus/runner_service.cpp:155-203 | a query asks for nothing, for creation or for a lookup, and the reply is that of the query: every profile of the answered list that has an id and in some field of which each token occurs is shown, and nothing else; the token is gone |
| RunnerService.Service.SetActivationToken | src/dbus/runner_service.cpp:237-243 | the token is the latest one set |
| RunnerService.Service.Teardown | src/dbus/runner_service.cpp:260-268 | token and session are gone, in every state |
| RunnerService.Service.ExpireIdle | src/dbus/runner_service.cpp:245-258 | when the idle timer fires token and session are gone |
| RunnerService.Service.Config | src/dbus/runner_service.cpp:224-235 | the token is gone and the catalog's list forgotten, whether or not the rescan works; if nothing throws the registry has rescanned and nothing is watched |
| RunnerService.Service.CreateNew | src/core/remmina_launcher.cpp:50-62 | starts the selected instance with the creation argument whenever that can be launched |
| RunnerService.Service.Connect | src/core/remmina_launcher.cpp:64-86 | starts the selected instance on the launch path of the record that the id resolves to, whenever there is one that can be launched |
| RunnerService.DueWasAnswered | src/dbus/runner_service.cpp:210-217 | what is connected to is a record of the list that `records` answered last, for the instance now selected, from a clean catalog |
| RunnerService.Service.Dispatch | src/dbus/runner_service.cpp:210-217 | launches what is due and nothing else |
| RunnerService.Service.Run | src/dbus/runner_service.cpp:206-220 | launches what is due, with the token that the calls before it left, and nothing else; a profile only from the list that `records` answered last, which is justified, as it is for `Records`, if all touches were delivered |
| RunnerService.Service.Take | src/dbus/runner_service.cpp:155-268 | one call, with the event loop turning before it, is on record with what came of it, and that is right |
| RunnerService.Service.RunMany | src/dbus/runner_service.cpp:155-268 | over all sequences of calls, every call is on record with what came of it: a search has the reply to its query from what `records` answered in it for the selected instance; a run has launched what was due, with the latest token, from the list that `records` answered last, or nothing if nothing was due; and these answers are justified |
| SearchToLaunch.ShownAreThere | src/dbus/runner_service.cpp:166-199 | of a complete list, exactly the records in some field of which every word occurs are shown |
| SearchToLaunch.RecordCanBeLaunched | src/core/remmina_launcher.cpp:64-86 | the id of a profile's record can be asked for, and connecting to it can be launched |
| SearchToLaunch.ConnectTo | src/dbus/runner_service.cpp:206-220 | after a search that listed what is there, a run starts the selected instance on the launch path of the record that has the id |
| SearchToLaunch.SearchAndConnect | src/dbus/runner_service.cpp:155-220 | from end to end, on a file system that does not change and can be watched, if nothing fails: a search shows exactly the profiles that are there, can be read and match the words, and to whichever of them the user picks a run connects the selected instance |

## Left out

- Text is compared, trimmed and ordered by its UTF-8 bytes, where the program compares UTF-16 units; the two orders differ only between characters beyond U+FFFF and those from U+E000 on.
- `QString::fromUtf8` is taken as lossless; that Qt drops a byte order mark at the start of a decoded piece is not modelled.
- Matching and white space work byte by byte with a given predicate; characters of several bytes as separators, and the length of the trigger in UTF-16 units, are not modelled.
- Case folding, `QChar::isSpace`, `QChar::isLetterOrNumber`, path cleaning, SHA-256 and the profile parser are parameters. `QDir::cleanPath` is idempotent by hypothesis.
- Wiping of buffers, and everything about secrecy.
- KeyFileReader.ReadAllowedKeyFileValues: an input or output error happens between lines, not within one.
- ProfileRepository.Repository.EnumerateCandidates: the names of a directory, in the order of reading, are one observation; entries that appear or vanish between two `readdir` calls are seen or not as a whole. Each entry is inspected at its own moment, by the path of the directory, where the program inspects through the descriptor it has open: when the path comes to lead elsewhere during an enumeration, the model follows it and the program does not.
- ProfileRepository.Repository.Load: that no signature is reused for other data is a hypothesis. A file that another process rewrites through a handle after its path is gone is not seen as rewritten by its path; a path that is gone counts as rewritten. A failing read is the answer that an entry cannot be opened, as of the moment it was tried.
- ProfileRepository.Repository.Inspect: one inspection is one observation, where the program calls `fstatat`, `openat` and `fstat` in turn and falls back to the canonical path of a file it may not open.
- ProfileCatalog.Catalog.Records: that every touch of a watched path is delivered before the next call is a hypothesis of the freshness clauses. An exception from a load comes after a whole load, or not at all; one from the watcher is modelled, running out of memory elsewhere is not.
- ProfileLocator.LocateProfileDirectory: the status of each directory is taken at one moment, and the custom path is what the preferences give.
- WatchedLinks.CleanDirectoryStays: how the file system that loads see and the tree of links belong together is a hypothesis; directories that are moved, created or removed, as opposed to links that are retargeted, are changes that may be missed.
- Homes of sandboxes are taken as the scanner builds them; display names and the profile environment of an instance are not modelled.
- Installer.Transaction.Run: a second signal during the exit handler, a signal between `mkdir` and the recording of the directory or between `mktemp` and the assignment of its path, other processes writing the same destinations, locks, platform checks, `ldd`, the stopping of the running service and the steps after the commit are not modelled. A failing `mktemp` leaves no file. The variables `original_moved` and `replacement_moved`, which are written and never read, are left out.
- The installer's metadata files are written line by line; the model has one write for each file, which may fail halfway.
- ReleasePublisher.Publisher.Run: listings are complete and current (no paging, no delayed visibility), ids are well formed, and an upload is whole or absent. The validation of arguments and of the local checksum, and the temporary directory, are not modelled.
- ReleasePublisher.Publisher.CreateDraft: the creation of the draft is guarded by a check of the tag alone, since there is no release yet whose identity could be checked; it is not part of the trace of changes.
- InstanceScanner.ScanInstances: links, executability and the listing are given for the time of the scan; relative PATH entries are taken with the working directory in front.
- InstanceRegistry.Registry: other writers of the stored choice are not modelled.
- RunnerService.Service: what a match shows besides its record and relevance, the length of the idle time, the notifier and the environment apart from the token are not modelled.
- `profile_parser.cpp`, `instance_settings_model.cpp`, the settings module, the process probe, command-line output, and the container, packaging and continuous-integration scripts: wrappers and smaller copies of the parts above.
