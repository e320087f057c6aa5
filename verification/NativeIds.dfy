/**
  Which PATH entries can make a scan list one native id twice: exactly those in which `..` comes behind a
  name.  For each of them there is a tree in which that name is a link.
 */
module NativeIds {
  import opened Bytes
  import opened InstanceScanner
  import opened Instances
  import opened Paths
  import opened SymlinkResolution
  import opened SymlinkSeparation

  /** What a scan lists natively. */
  function Natives(files: Files, entries: seq<seq<Name>>, snap: SnapLauncher, snapMountRoot: Text): seq<Instance> {
    NativeInstances(Candidates(files, entries), snap, snapMountRoot, |entries|)
  }

  /** With this spelling of paths, a scan can list an id twice because of this entry, all other entries being direct. */
  ghost predicate CanDouble(spelled: Path -> Text, entry: seq<Name>) {
    exists files: Files, others, snap, snapMountRoot ::
      && files.spelled == spelled && AreEntries([entry] + others) && AreDirect(others)
      && !IdsAreDistinct(Natives(files, [entry] + others, snap, snapMountRoot))
  }

  const NO_SNAP := SnapLauncher([], false, false, false, [])

  /** Everything is there and plain, but for one link. */
  function OneLink(joint: Path, deep: Path): Fs {
    (p: Path) => if p == joint then Link(true, deep) else Plain
  }

  /** The tree: the name behind `f` leads deep into a plain place below `y`, and there are no other links. */
  ghost predicate IsJoint(fs: Fs, f: Path, name: Name, deep: Path, y: Name, n: nat) {
    && fs(f + [name]) == Link(true, deep) && (forall p: Path :: p != f + [name] ==> fs(p) == Plain)
    && (f + [name])[0] != y && |deep| > n && (forall i :: 0 <= i < |deep| ==> deep[i] == y)
    && Clean([], deep) == deep && DOTDOT !in deep
  }

  /** As cleaned, the path is as it is, or goes through the link and ends below the deep path. */
  lemma CleanedEnds(fs: Fs, path: Path, f: Path, name: Name, deep: Path, y: Name)
    requires IsJoint(fs, f, name, deep, y, |path|) && IsName(name) && forall n :: n in path ==> IsName(n)
    requires forall n :: n in f ==> IsName(n)
    ensures var end := Walk(fs, [], path, []); end.Resolved? && (end.path == path || deep <= end.path)
    ensures forall n :: n in Walk(fs, [], path, []).path ==> n == y || n in path
  {
    hide Clean, Walk, DotDotsLead;
    PlainIsDirect(path);
    CleanOfNames([], path);
    assert [] + path == path;
    if f + [name] <= path {
      var rest := path[|f| + 1..];
      assert path == f + [name] + rest;
      assert forall n :: n in rest ==> n in path;
      PlainIsDirect(f);
      CleanOfNames([], f);
      assert [] + f == f;
      WalkThroughJoint(fs, f, name, rest, deep, y, []);
      CleanOfNames(deep, rest);
    } else {
      DirectWalk(fs, [], path, []);
    }
  }

  /** As written, the path goes through the link and back up above it. */
  lemma WrittenEnds(fs: Fs, path: seq<Name>, front: seq<Name>, name: Name, blanks: seq<Name>, tail: seq<Name>,
                    deep: Path,
                    y: Name)
    requires IsCut(path, front, name, blanks, tail) && y !in path
    requires IsJoint(fs, Clean([], front), name, deep, y, |path|)
    ensures Walk(fs, [], path, []) == Resolved([Clean([], front) + [name]], Clean(Parent(deep), tail))
    ensures !(deep <= Clean(Parent(deep), tail)) && y in Clean(Parent(deep), tail)
  {
    hide Clean, Walk, DotDotsLead, AreBlank;
    var behind := blanks + [DOTDOT] + tail;
    assert path == front + [name] + behind;
    WalkThroughJoint(fs, front, name, behind, deep, y, []);
    BehindCleans(deep, blanks, tail);
    assert forall i :: 0 <= i < |tail| ==> tail[i] == path[|path| - |tail| + i];
    WalkEndsElsewhere(path, tail, deep, y);
    DeepStays(Parent(deep), tail);
    assert Parent(deep)[0] == y;
  }

  /** Cleaning takes away at most one component for each that it reads. */
  lemma {:induction false} DeepStays(base: Path, components: seq<Name>)
    requires |base| > |components|
    ensures base[..|base| - |components|] <= Clean(base, components)
    decreases |components|
  {
    if components != [] {
      DeepStays(if components[0] == DOTDOT then Parent(base) else if IsName(components[0]) then base + [components[0]] else base,
                components[1..]);
    }
  }

  lemma {:induction false} CleanIsShort(base: Path, components: seq<Name>)
    ensures |Clean(base, components)| <= |base| + |components|
    decreases |components|
  {
    if components != [] {
      CleanIsShort(if components[0] == DOTDOT then Parent(base) else if IsName(components[0]) then base + [components[0]] else base,
                   components[1..]);
    }
  }

  lemma {:induction false} LongNameIsComponent(components: seq<Name>)
    requires AreComponents(components)
    ensures '/' !in LongName(components)
  {
    if components != [] {
      LongNameIsComponent(components[1..]);
      assert components[0] in components;
    }
  }

  /** What cleaning makes of components is proper. */
  lemma {:induction false} CleanedIsProperFrom(base: Path, components: seq<Name>)
    requires IsProper(base) && AreComponents(components)
    ensures IsProper(Clean(base, components))
    decreases |components|
  {
    if components != [] {
      var name, rest := components[0], components[1..];
      assert name in components && forall n :: n in rest ==> n in components;
      assert forall n :: n in Parent(base) ==> n in base;
      CleanedIsProperFrom(if name == DOTDOT then Parent(base) else if IsName(name) then base + [name] else base, rest);
    }
  }

  /** Two candidates that lead to different files and are cleaned alike are listed with one id. */
  lemma {:induction false} TwoAreListed(candidates: seq<PathCandidate>)
    requires |candidates| == 2 && candidates[0].executable && candidates[1].executable
    requires candidates[0].canonical != [] && candidates[1].canonical != []
    requires candidates[0].canonical != candidates[1].canonical && candidates[0].absolute == candidates[1].absolute
    ensures !IdsAreDistinct(NativeInstances(candidates, NO_SNAP, [], 2))
  {
    var natives := NativeInstances(candidates, NO_SNAP, [], 2);
    assert IsFirstOfItsFile(candidates, NO_SNAP, [], 0) && IsFirstOfItsFile(candidates, NO_SNAP, [], 1);
    assert NativeInstances(candidates, NO_SNAP, [], 1) == NativeInstances(candidates, NO_SNAP, [], 0) + [NativeInstance(candidates[0])];
    assert natives == [NativeInstance(candidates[0]), NativeInstance(candidates[1])];
    assert natives[0].id == natives[1].id;
  }

  lemma OneLinkIsJoint(path: seq<Name>, front: seq<Name>, name: Name, behind: seq<Name>, y: Name)
    requires path == front + [name] + behind && IsName(y) && y !in path
    ensures var f, deep := Clean([], front), Repeated(y, |path| + 1);
            IsJoint(OneLink(f + [name], deep), f, name, deep, y, |path|)
  {
    hide Clean;
    var f, deep := Clean([], front), Repeated(y, |path| + 1);
    CleanedFromRoot(front);
    assert (f + [name])[0] in path by {
      if f == [] {
        assert path[|front|] == name;
      } else {
        assert f[0] in front;
      }
    }
    CleanOfNames([], deep);
    assert [] + deep == deep;
  }

  lemma CutBehind(entry: seq<Name>, front: seq<Name>, name: Name, blanks: seq<Name>, tail: seq<Name>)
    requires IsCut(entry, front, name, blanks, tail)
    ensures IsCut(entry + [PROGRAM], front, name, blanks, tail + [PROGRAM]) && IsName(name)
    ensures entry + [PROGRAM] == front + [name] + (blanks + [DOTDOT] + (tail + [PROGRAM]))
    ensures forall c :: c in tail ==> c in entry
  {
    assert forall i :: 0 <= i < |tail| ==> tail[i] == entry[|entry| - |tail| + i];
  }

  lemma ShorterJoint(fs: Fs, f: Path, name: Name, deep: Path, y: Name, n: nat, m: nat)
    requires IsJoint(fs, f, name, deep, y, n) && m <= n
    ensures IsJoint(fs, f, name, deep, y, m)
    ensures forall c :: c in Parent(deep) ==> c == y
  {
  }

  lemma CleanedAgain(entry: seq<Name>)
    ensures Clean([], Clean([], entry) + [PROGRAM]) == Clean([], entry + [PROGRAM]) == Clean([], entry) + [PROGRAM]
    ensures DotDotsLead(Clean([], entry))
  {
    var short := Clean([], entry);
    CleanIsNames([], entry);
    CleanSplits([], entry, [PROGRAM]);
    assert [PROGRAM][1..] == [] && Clean(short, [PROGRAM]) == short + [PROGRAM];
    CleanOfNames([], short + [PROGRAM]);
    assert [] + (short + [PROGRAM]) == short + [PROGRAM];
    PlainIsDirect(short);
  }

  lemma CandidateIs(files: Files, entry: seq<Name>)
    ensures var end := Walk(files.fs, [], entry + [PROGRAM], []);
            end.Resolved? && files.isExecutable(end.path) ==>
              CandidateOf(files, entry) == PathCandidate(true, files.spelled(end.path), files.spelled(Clean([], entry + [PROGRAM])))
  {
    hide Walk, Resolve, Clean;
    WalkIsResolve(files.fs, [], entry + [PROGRAM], []);
  }

  /** As written and as cleaned, the entry leads to different files. */
  lemma EndsDiffer(fs: Fs, entry: seq<Name>, front: seq<Name>, name: Name, blanks: seq<Name>, tail: seq<Name>,
                   deep: Path,
                   y: Name)
    requires IsCut(entry, front, name, blanks, tail) && AreComponents(entry)
    requires var path := entry + [PROGRAM];
             IsName(y) && y !in path && '/' !in y && IsJoint(fs, Clean([], front), name, deep, y, |path|)
    ensures var written := Walk(fs, [], entry + [PROGRAM], []);
            var cleaned := Walk(fs, [], Clean([], entry) + [PROGRAM], []);
            && written.Resolved? && cleaned.Resolved? && written.path != cleaned.path
            && IsProper(written.path) && IsProper(cleaned.path)
  {
    hide Walk, Clean, IsCut, IsJoint;
    var path, more, f := entry + [PROGRAM], tail + [PROGRAM], Clean([], front);
    CutBehind(entry, front, name, blanks, tail);
    WrittenEnds(fs, path, front, name, blanks, more, deep, y);
    CleanedAgain(entry);
    var cleaned := Clean([], path);
    CleanIsNames([], path);
    CleanIsNames([], front);
    CleanIsShort([], path);
    CleanedFromRoot(path);
    ShorterJoint(fs, f, name, deep, y, |path|, |cleaned|);
    CleanedEnds(fs, cleaned, f, name, deep, y);
    CleanedIsProperFrom(Parent(deep), more);
  }

  /** An entry with `..` behind a name, and its cleaned form, are listed with one id in some tree. */
  lemma MixedEntryDoubles(spelled: Path -> Text, entry: seq<Name>)
    requires IsSpelling(spelled) && (forall p: Path :: spelled(p) != []) && AreComponents(entry) && !DotDotsLead(entry)
    ensures CanDouble(spelled, entry)
  {
    hide Walk, Clean, DotDotsLead, IsCut, IsJoint, OneLink, Repeated, NativeInstances, CandidateOf, IsSpelling, IdsAreDistinct;
    var path, short := entry + [PROGRAM], Clean([], entry);
    var front, name, blanks, tail := CutExists(entry);
    CutBehind(entry, front, name, blanks, tail);
    var y := LongName(path);
    LongNameIsComponent(path);
    var f, deep := Clean([], front), Repeated(y, |path| + 1);
    var fs := OneLink(f + [name], deep);
    OneLinkIsJoint(path, front, name, blanks + [DOTDOT] + (tail + [PROGRAM]), y);
    EndsDiffer(fs, entry, front, name, blanks, tail, deep, y);
    var files := Files(fs, spelled, _ => true);
    CandidateIs(files, entry);
    CandidateIs(files, short);
    CleanedAgain(entry);
    CleanedFromRoot(entry);
    assert spelled(Walk(fs, [], path, []).path) != spelled(Walk(fs, [], short + [PROGRAM], []).path) by {
      SpellingsDiffer(spelled, Walk(fs, [], path, []).path, Walk(fs, [], short + [PROGRAM], []).path);
    }
    var entries := [entry] + [short];
    TwoAreListed(Candidates(files, entries));
    assert Natives(files, entries, NO_SNAP, []) == NativeInstances(Candidates(files, entries), NO_SNAP, [], 2);
    assert AreDirect([short]);
    assert AreEntries(entries);
  }

  lemma SpellingsDiffer(spelled: Path -> Text, p: Path, q: Path)
    requires IsSpelling(spelled) && IsProper(p) && IsProper(q) && p != q
    ensures spelled(p) != spelled(q)
  {
  }

  /**
    The exact condition on an entry: it can make no scan list an id twice, whatever the links and whatever
    other direct entries there are, if and only if every `..` in it comes before every name.
   */
  lemma DirectEntriesExactly(spelled: Path -> Text, entry: seq<Name>)
    requires IsSpelling(spelled) && (forall p: Path :: spelled(p) != []) && AreComponents(entry)
    ensures DotDotsLead(entry) <==> !CanDouble(spelled, entry)
  {
    hide IsSpelling, DotDotsLead, IdsAreDistinct;
    if DotDotsLead(entry) {
      forall files: Files, others, snap, snapMountRoot
        | files.spelled == spelled && AreEntries([entry] + others) && AreDirect(others)
        ensures IdsAreDistinct(Natives(files, [entry] + others, snap, snapMountRoot))
      {
        CleanPathsNameFiles(files, [entry] + others);
        NativeIdsAreDistinct(Candidates(files, [entry] + others), snap, snapMountRoot, |[entry] + others|);
      }
    } else {
      MixedEntryDoubles(spelled, entry);
    }
  }
}
