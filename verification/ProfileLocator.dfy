/**
  Where the profiles of an installation are, and the confinement of a sandboxed installation's custom
  directory: below a sandbox root both as it is written and as it resolves.
 */
module ProfileLocator {
  import opened Instances
  import opened Paths
  import opened SymlinkResolution
  import opened Wrappers

  /** A path as it is given: absolute or not, and its components. */
  datatype Given = Given(absolute: bool, components: seq<Name>)

  datatype Homes = Homes(configHome: Given, dataHome: Given, legacyHome: Given, systemDataHomes: seq<Given>)

  /** What `directoryStatus` says of a path. */
  datatype Status = Invalid | NotReadable | Readable

  /** One place a sandbox may write to: where it is written to be, and where that leads. */
  datatype Root = Root(lexical: Path, resolved: Path)

  datatype Located = Found(path: Path) | UnreadableDirectory | NotFound

  const COMMON: Name := "common"
  const REMMINA: Name := "remmina"
  const FLATPAK_ROOT: Path := [".var", "app", "org.remmina.Remmina"]
  const SNAP_ROOT: Path := ["snap", "remmina", "current"]

  // ---- Paths ----

  /** `cleanAbsolutePath`. */
  function CleanAbsolute(given: Given): (r: Option<Path>)
    ensures r.Some? ==> forall n :: n in r.value ==> IsName(n)
  {
    if !given.absolute then None
    else
      CleanIsNames([], given.components);
      Some(Clean([], given.components))
  }

  /** `childPath`. */
  function ChildPath(parent: Given, child: Name): Option<Path> {
    if CleanAbsolute(parent).None? then None else Some(Clean(CleanAbsolute(parent).value, [child]))
  }

  predicate EndsWith(path: Path, suffix: Path) {
    |suffix| <= |path| && path[|path| - |suffix|..] == suffix
  }

  /** `rootBeforeSuffix`: what is in front of the suffix, unless that is nothing. */
  function RootBeforeSuffix(path: Option<Path>, suffix: Path): (r: Option<Path>)
    ensures forall root :: r == Some(root) <==> root != [] && path == Some(root + suffix)
  {
    if path.Some? && |path.value| > |suffix| && EndsWith(path.value, suffix)
    then
      var root := path.value[..|path.value| - |suffix|];
      assert path.value == root + suffix;
      Some(root)
    else
      assert forall root :: root != [] && path == Some(root + suffix) ==> EndsWith(root + suffix, suffix);
      None
  }

  /** `pathBelow`. */
  function PathBelow(path: Path, root: Path): Option<Path> {
    if root <= path then Some(path[|root|..]) else None
  }

  /** What `resolvedPathForContainment` gives for a clean path. */
  function ResolvedFor(fs: Fs, path: Path): Option<Path> {
    var outcome := Restart(fs, Clean([], path), []);
    if outcome.Resolved? then Some(outcome.path) else None
  }

  // ---- The roots of a sandbox ----

  function ApplicationRoot(kind: Kind): Path {
    if kind == Flatpak then FLATPAK_ROOT else SNAP_ROOT
  }

  function ConfigSuffix(kind: Kind): Path { if kind == Flatpak then ["config"] else [".config"] }

  function DataSuffix(kind: Kind): Path { if kind == Flatpak then ["data"] else [".local", "share"] }

  const LEGACY_SUFFIX: Path := [".remmina"]

  /** All three homes are at their places below `root`, which is an application root of this kind. */
  ghost predicate IsModeledRoot(kind: Kind, homes: Homes, root: Path) {
    && kind != Native && root != [] && EndsWith(root, ApplicationRoot(kind))
    && CleanAbsolute(homes.configHome) == Some(root + ConfigSuffix(kind))
    && CleanAbsolute(homes.dataHome) == Some(root + DataSuffix(kind))
    && CleanAbsolute(homes.legacyHome) == Some(root + LEGACY_SUFFIX)
  }

  /** The three homes are at these places below `root`. */
  ghost predicate AreHomesBelow(homes: Homes, root: Path, config: Path, data: Path) {
    && CleanAbsolute(homes.configHome) == Some(root + config) && CleanAbsolute(homes.dataHome) == Some(root + data)
    && CleanAbsolute(homes.legacyHome) == Some(root + [".remmina"])
  }

  /** A modeled root is the application's directory below some home, as Flatpak and Snap lay it out. */
  lemma ModeledRootExactly(kind: Kind, homes: Homes, root: Path)
    ensures IsModeledRoot(kind, homes, root) <==>
              match kind
              case Native => false
              case Flatpak =>
                (exists home :: root == home + [".var", "app", "org.remmina.Remmina"]) && AreHomesBelow(homes, root, ["config"], ["data"])
              case Snap =>
                && (exists home :: root == home + ["snap", "remmina", "current"])
                && AreHomesBelow(homes, root, [".config"], [".local", "share"])
  {
    hide CleanAbsolute;
    if kind != Native {
      var suffix := ApplicationRoot(kind);
      if EndsWith(root, suffix) {
        assert root == root[..|root| - |suffix|] + suffix;
      }
      forall home | root == home + suffix
        ensures EndsWith(root, suffix)
      {
      }
    }
  }

  /** `consistentModeledSandboxRoot`. */
  method ConsistentModeledSandboxRoot(kind: Kind, homes: Homes) returns (r: Option<Path>)
    ensures forall root :: r == Some(root) <==> IsModeledRoot(kind, homes, root)
  {
    if kind == Native {
      return None;
    }
    var roots := [(CleanAbsolute(homes.configHome), ConfigSuffix(kind)), (CleanAbsolute(homes.dataHome), DataSuffix(kind)),
                  (CleanAbsolute(homes.legacyHome), LEGACY_SUFFIX)];
    var commonRoot: Option<Path> := None;
    for k := 0 to |roots|
      invariant k > 0 <==> commonRoot.Some?
      invariant commonRoot.Some? ==> commonRoot.value != [] && EndsWith(commonRoot.value, ApplicationRoot(kind))
      invariant forall m :: 0 <= m < k ==> roots[m].0 == Some(commonRoot.value + roots[m].1)
    {
      var candidateRoot := RootBeforeSuffix(roots[k].0, roots[k].1);
      if candidateRoot == None || !EndsWith(candidateRoot.value, ApplicationRoot(kind)) ||
         (commonRoot.Some? && commonRoot != candidateRoot) {
        NoOtherRoot(kind, homes, roots, k, commonRoot);
        return None;
      }
      commonRoot := candidateRoot;
    }
    assert roots[0].0 == Some(commonRoot.value + roots[0].1);
    assert roots[1].0 == Some(commonRoot.value + roots[1].1);
    assert roots[2].0 == Some(commonRoot.value + roots[2].1);
    forall root | IsModeledRoot(kind, homes, root)
      ensures root == commonRoot.value
    {
      ModeledRootIsUnique(kind, homes, root, commonRoot.value);
    }
    return commonRoot;
  }

  lemma ModeledRootIsUnique(kind: Kind, homes: Homes, a: Path, b: Path)
    requires IsModeledRoot(kind, homes, a) && IsModeledRoot(kind, homes, b)
    ensures a == b
  {
    SameFront(a, b, LEGACY_SUFFIX);
  }

  lemma SameFront(a: Path, b: Path, suffix: Path)
    ensures a + suffix == b + suffix ==> a == b
  {
    if a + suffix == b + suffix {
      assert |a| == |b|;
      assert a == (a + suffix)[..|a|] && b == (b + suffix)[..|b|];
    }
  }

  /** A home that is not below the root of those before it leaves no root. */
  lemma NoOtherRoot(kind: Kind, homes: Homes, roots: seq<(Option<Path>, Path)>, k: nat, commonRoot: Option<Path>)
    requires kind != Native && k < 3
    requires roots == [(CleanAbsolute(homes.configHome), ConfigSuffix(kind)), (CleanAbsolute(homes.dataHome), DataSuffix(kind)),
                       (CleanAbsolute(homes.legacyHome), LEGACY_SUFFIX)]
    requires k > 0 ==> commonRoot.Some? && roots[0].0 == Some(commonRoot.value + roots[0].1)
    requires k == 0 ==> commonRoot == None
    requires var candidateRoot := RootBeforeSuffix(roots[k].0, roots[k].1);
             candidateRoot == None || !EndsWith(candidateRoot.value, ApplicationRoot(kind)) ||
             (commonRoot.Some? && commonRoot != candidateRoot)
    ensures forall root :: !IsModeledRoot(kind, homes, root)
  {
    forall root
      ensures !IsModeledRoot(kind, homes, root)
    {
      if IsModeledRoot(kind, homes, root) {
        if commonRoot.Some? {
          SameFront(root, commonRoot.value, roots[0].1);
        }
      }
    }
  }

  /**
    The store of a Snap: `current` leads to one version directly below where the store leads, which is not
    the common directory, and the common directory leads to itself there.
   */
  ghost predicate IsStore(fs: Fs, root: Path, store: Path, version: Name) {
    && ResolvedFor(fs, Parent(root)) == Some(store)
    && ResolvedFor(fs, root) == Some(store + [version]) && version != COMMON
    && ResolvedFor(fs, Clean(Parent(root), [COMMON])) == Some(store + [COMMON])
  }

  function SnapRoots(root: Path, store: Path, version: Name): seq<Root> {
    var active := Clean(Parent(root), [version]);
    [Root(root, store + [version])] +
    (if active == root then [] else [Root(active, store + [version])]) +
    [Root(Clean(Parent(root), [COMMON]), store + [COMMON])]
  }

  ghost predicate AreSandboxRoots(fs: Fs, kind: Kind, root: Path, roots: seq<Root>) {
    if kind == Snap then exists store, version :: IsStore(fs, root, store, version) && roots == SnapRoots(root, store, version)
    else ResolvedFor(fs, root).Some? && roots == [Root(root, ResolvedFor(fs, root).value)]
  }

  /** The roots of an installation, if it is a sandbox with a consistent layout. */
  ghost predicate HasRoots(fs: Fs, kind: Kind, homes: Homes, roots: seq<Root>) {
    exists root :: IsModeledRoot(kind, homes, root) && AreSandboxRoots(fs, kind, root, roots)
  }

  lemma RootsOf(fs: Fs, kind: Kind, homes: Homes, root: Path)
    requires IsModeledRoot(kind, homes, root)
    ensures forall roots :: HasRoots(fs, kind, homes, roots) <==> AreSandboxRoots(fs, kind, root, roots)
  {
    hide AreSandboxRoots, IsModeledRoot;
    forall other | IsModeledRoot(kind, homes, other)
      ensures other == root
    {
      ModeledRootIsUnique(kind, homes, other, root);
    }
  }

  /** The store and the version are determined by where the store, `current` and the common directory lead. */
  lemma StoreIs(fs: Fs, root: Path, store: Path, resolved: Path)
    requires ResolvedFor(fs, Parent(root)) == Some(store) && ResolvedFor(fs, root) == Some(resolved)
    ensures forall s, v :: IsStore(fs, root, s, v) <==>
              && s == store && PathBelow(resolved, store) == Some([v]) && v != COMMON
              && ResolvedFor(fs, Clean(Parent(root), [COMMON])) == Some(store + [COMMON])
  {
    hide ResolvedFor, Clean;
    forall v
      ensures resolved == store + [v] <==> PathBelow(resolved, store) == Some([v])
    {
      assert (store + [v])[|store|..] == [v];
      assert store <= resolved ==> resolved == store + resolved[|store|..];
    }
  }

  /** The Snap part of `verifiedSandboxRoots`. */
  method VerifiedSnapRoots(fs: Fs, root: Path, resolvedRoot: Path) returns (r: Option<seq<Root>>)
    requires ResolvedFor(fs, root) == Some(resolvedRoot)
    ensures forall roots :: r == Some(roots) <==> AreSandboxRoots(fs, Snap, root, roots)
  {
    hide Clean, ResolvedFor, PathBelow;
    var snapRoot := Parent(root);
    var store := ResolvedDirectory(fs, snapRoot);
    if store == None {
      return None;
    }
    StoreIs(fs, root, store.value, resolvedRoot);
    var revision := PathBelow(resolvedRoot, store.value);
    if revision == None || |revision.value| != 1 || revision.value[0] == COMMON {
      return None;
    }
    var version := revision.value[0];
    assert revision.value == [version];
    var activeRevisionRoot := Clean(snapRoot, [version]);
    var commonRoot := Clean(snapRoot, [COMMON]);
    var resolvedCommonRoot := ResolvedDirectory(fs, commonRoot);
    if resolvedCommonRoot == None {
      return None;
    }
    IsBelowAs(resolvedCommonRoot.value, store.value, COMMON);
    if PathBelow(resolvedCommonRoot.value, store.value) != Some([COMMON]) {
      return None;
    }
    assert IsStore(fs, root, store.value, version);
    var roots := [Root(root, resolvedRoot), Root(activeRevisionRoot, resolvedRoot), Root(commonRoot, resolvedCommonRoot.value)];
    if roots[0].lexical == roots[1].lexical {
      roots := [roots[0], roots[2]];
    }
    assert roots == SnapRoots(root, store.value, version);
    forall others | AreSandboxRoots(fs, Snap, root, others)
      ensures others == roots
    {
      var s, v :| IsStore(fs, root, s, v) && others == SnapRoots(root, s, v);
      assert Some([v]) == Some([version]);
      assert [v][0] == [version][0];
    }
    return Some(roots);
  }

  lemma IsBelowAs(path: Path, root: Path, name: Name)
    ensures PathBelow(path, root) == Some([name]) <==> path == root + [name]
  {
    assert (root + [name])[|root|..] == [name];
    assert root <= path ==> path == root + path[|root|..];
  }

  method ResolvedDirectory(fs: Fs, path: Path) returns (r: Option<Path>)
    ensures r == ResolvedFor(fs, path)
  {
    r := ResolvedPathForContainment(fs, true, path);
  }

  /** `verifiedSandboxRoots`. */
  method VerifiedSandboxRoots(fs: Fs, kind: Kind, homes: Homes) returns (r: Option<seq<Root>>)
    ensures forall roots :: r == Some(roots) <==> HasRoots(fs, kind, homes, roots)
  {
    hide ResolvedFor, IsModeledRoot, Clean;
    var modeledRoot := ConsistentModeledSandboxRoot(kind, homes);
    if modeledRoot == None {
      return None;
    }
    var root := modeledRoot.value;
    RootsOf(fs, kind, homes, root);
    var resolvedRoot := ResolvedDirectory(fs, root);
    if resolvedRoot == None {
      return None;
    }
    if kind == Snap {
      r := VerifiedSnapRoots(fs, root, resolvedRoot.value);
    } else {
      r := Some([Root(root, resolvedRoot.value)]);
    }
  }

  // ---- A custom directory ----

  /** Below one root both as written and as resolved. */
  ghost predicate IsContained(fs: Fs, roots: seq<Root>, path: Path) {
    exists k :: 0 <= k < |roots| && IsBelowBoth(roots[k], path, ResolvedFor(fs, path))
  }

  predicate IsBelowBoth(root: Root, path: Path, resolved: Option<Path>) {
    root.lexical <= path && resolved.Some? && root.resolved <= resolved.value
  }

  /** Whether a custom directory may be used: always by a native installation, by a sandbox if it is contained. */
  ghost predicate IsAllowed(fs: Fs, kind: Kind, homes: Homes, path: Path) {
    kind == Native || exists roots :: HasRoots(fs, kind, homes, roots) && IsContained(fs, roots, path)
  }

  /** `sandboxCustomLocation`, up to the look at the directory itself. */
  method IsCustomPathContained(fs: Fs, customPath: Path, sandboxRoots: Option<seq<Root>>) returns (r: bool)
    ensures r <==> sandboxRoots.Some? && IsContained(fs, sandboxRoots.value, customPath)
  {
    if sandboxRoots == None {
      return false;
    }
    var resolvedCustom := ResolvedPathForContainment(fs, true, customPath);
    assert resolvedCustom == ResolvedFor(fs, customPath);
    if resolvedCustom == None {
      return false;
    }
    for k := 0 to |sandboxRoots.value|
      invariant forall m :: 0 <= m < k ==> !IsBelowBoth(sandboxRoots.value[m], customPath, resolvedCustom)
    {
      var root := sandboxRoots.value[k];
      if PathBelow(customPath, root.lexical).Some? && PathBelow(resolvedCustom.value, root.resolved).Some? {
        assert IsBelowBoth(root, customPath, resolvedCustom);
        return true;
      }
    }
    return false;
  }

  /**
    Written below the store as the current version and leading into that version, or written below the
    common directory and leading into that.
   */
  ghost predicate IsConfined(fs: Fs, root: Path, store: Path, version: Name, path: Path) {
    var resolved := ResolvedFor(fs, path);
    resolved.Some? &&
    if store + ["common"] <= resolved.value then Clean(Parent(root), ["common"]) <= path
    else store + [version] <= resolved.value && (root <= path || Clean(Parent(root), [version]) <= path)
  }

  /** What an allowed custom directory of a Snap is: never in another version, nor anywhere else. */
  lemma SnapCustomIsConfined(fs: Fs, homes: Homes, path: Path)
    ensures IsAllowed(fs, Snap, homes, path) <==> exists root, store, version ::
              IsModeledRoot(Snap, homes, root) && IsStore(fs, root, store, version) && IsConfined(fs, root, store, version, path)
  {
    hide Clean, ResolvedFor, IsModeledRoot, IsContained, IsConfined;
    if IsAllowed(fs, Snap, homes, path) {
      var roots: seq<Root> :| HasRoots(fs, Snap, homes, roots) && IsContained(fs, roots, path);
      var root :| IsModeledRoot(Snap, homes, root) && AreSandboxRoots(fs, Snap, root, roots);
      var store, version :| IsStore(fs, root, store, version) && roots == SnapRoots(root, store, version);
      ContainedIsConfined(fs, root, store, version, path);
    }
    forall root, store, version | IsModeledRoot(Snap, homes, root) && IsStore(fs, root, store, version) &&
                                  IsConfined(fs, root, store, version, path)
      ensures IsAllowed(fs, Snap, homes, path)
    {
      ContainedIsConfined(fs, root, store, version, path);
      assert AreSandboxRoots(fs, Snap, root, SnapRoots(root, store, version));
      assert HasRoots(fs, Snap, homes, SnapRoots(root, store, version));
    }
  }

  lemma ContainedIsConfined(fs: Fs, root: Path, store: Path, version: Name, path: Path)
    requires version != COMMON
    ensures IsContained(fs, SnapRoots(root, store, version), path) <==> IsConfined(fs, root, store, version, path)
  {
    hide Clean, ResolvedFor;
    var roots, resolved := SnapRoots(root, store, version), ResolvedFor(fs, path);
    if resolved.Some? {
      NotBoth(store, version, COMMON, resolved.value);
    }
    assert IsContained(fs, roots, path) <==>
           IsBelowBoth(Root(root, store + [version]), path, resolved) ||
           IsBelowBoth(Root(Clean(Parent(root), [version]), store + [version]), path, resolved) ||
           IsBelowBoth(Root(Clean(Parent(root), [COMMON]), store + [COMMON]), path, resolved) by {
      InSnapRoots(root, store, version);
      ContainedInSome(fs, roots, path);
    }
  }

  lemma NotBoth(store: Path, a: Name, b: Name, path: Path)
    requires a != b
    ensures !(store + [a] <= path && store + [b] <= path)
  {
    if store + [a] <= path {
      assert path[|store|] == (store + [a])[|store|];
      assert (store + [b])[|store|] != path[|store|];
    }
  }

  lemma InSnapRoots(root: Path, store: Path, version: Name)
    ensures forall r :: r in SnapRoots(root, store, version) <==>
              r in {Root(root, store + [version]), Root(Clean(Parent(root), [version]), store + [version]),
                    Root(Clean(Parent(root), [COMMON]), store + [COMMON])}
  {
    hide Clean;
  }

  lemma ContainedInSome(fs: Fs, roots: seq<Root>, path: Path)
    ensures IsContained(fs, roots, path) <==> exists r :: r in roots && IsBelowBoth(r, path, ResolvedFor(fs, path))
  {
  }

  // ---- What containment means for the system ----

  lemma RestartIsNames(fs: Fs, path: Path, links: seq<Path>)
    requires |links| <= MAXIMUM_LINKS && forall n :: n in path ==> IsName(n)
    ensures var r := Restart(fs, path, links);
            r.Resolved? ==> (forall n :: n in r.path ==> IsName(n)) && forall p: Path :: p != [] && p <= r.path ==> !fs(p).IsLink()
    decreases MAXIMUM_LINKS - |links|
  {
    var i := FirstLink(fs, path, 0);
    if i == |path| {
      forall p: Path | p != [] && p <= path
        ensures !fs(p).IsLink()
      {
        assert p == path[..|p| - 1 + 1] && !LinkAt(fs, path, |p| - 1);
      }
    } else if |links| < MAXIMUM_LINKS && fs(path[..i + 1]).Link? {
      var link := fs(path[..i + 1]);
      CleanIsNames(if link.absolute then [] else path[..i], link.target);
      RestartIsNames(fs, Follow(fs, path, i), links + [path[..i + 1]]);
    }
  }

  /** Where a path leads for the system, if it leads anywhere, is what the restart loop says. */
  lemma ResolvedForIsReal(fs: Fs, path: Path)
    requires TargetsAreDirect(fs) && MissingIsClosed(fs)
    ensures var end := Resolve(fs, [], Clean([], path), []);
            end.Resolved? ==> ResolvedFor(fs, path) == Some(end.path) && LinkFree(fs, end.path)
  {
    hide Walk, Restart, Resolve, Clean;
    WalkIsResolve(fs, [], Clean([], path), []);
    ResolutionsAgree(fs, path);
  }

  /** Below a link-free place a plain name leads to itself. */
  lemma StepFromStore(fs: Fs, above: Path, store: Path, version: Name)
    requires TargetsAreDirect(fs) && MissingIsClosed(fs) && forall n :: n in above ==> IsName(n)
    requires ResolvedFor(fs, above) == Some(store) && IsName(version) && !fs(store + [version]).IsLink()
    ensures var end := Resolve(fs, [], Clean([], above + [version]), []);
            end.Resolved? ==> end.path == store + [version]
  {
    assert forall n :: n in above + [version] ==> IsName(n);
    CleanOfNames([], above);
    CleanOfNames([], above + [version]);
    assert [] + above == above && [] + (above + [version]) == above + [version];
    WalkIsResolve(fs, [], above + [version], []);
    WalkIsResolve(fs, [], above, []);
    WalkSplits(fs, [], above, [version], []);
    ResolvedForIsReal(fs, above);
    assert [version][1..] == [];
  }

  /** The components of a modeled root are names. */
  lemma ModeledRootIsNames(kind: Kind, homes: Homes, root: Path)
    requires IsModeledRoot(kind, homes, root)
    ensures forall n :: n in root ==> IsName(n)
    ensures forall n :: n in Parent(root) ==> IsName(n)
  {
    var home := CleanAbsolute(homes.legacyHome).value;
    assert forall i :: 0 <= i < |root| ==> root[i] == home[i] && home[i] in home;
  }

  /** Each sandbox root, followed as the system follows it, leads to where it is said to lead. */
  lemma RootsLeadThere(fs: Fs, kind: Kind, homes: Homes, roots: seq<Root>, k: nat)
    requires TargetsAreDirect(fs) && MissingIsClosed(fs) && HasRoots(fs, kind, homes, roots) && k < |roots|
    ensures var end := Resolve(fs, [], Clean([], roots[k].lexical), []);
            end.Resolved? ==> end.path == roots[k].resolved
  {
    hide Clean, Restart, Walk, Resolve, CleanAbsolute, ResolvedFor, TargetsAreDirect, MissingIsClosed, LinkFree, IsModeledRoot;
    var root :| IsModeledRoot(kind, homes, root) && AreSandboxRoots(fs, kind, root, roots);
    ModeledRootIsNames(kind, homes, root);
    ResolvedForIsReal(fs, roots[k].lexical);
    if kind == Snap {
      var store, version :| IsStore(fs, root, store, version) && roots == SnapRoots(root, store, version);
      StoreVersionIsPlain(fs, root, store, version);
      OneMoreName(Parent(root), version);
      OneMoreName(Parent(root), COMMON);
      StepFromStore(fs, Parent(root), store, version);
    }
  }

  lemma OneMoreName(base: Path, name: Name)
    requires IsName(name)
    ensures Clean(base, [name]) == base + [name]
  {
    assert [name][1..] == [];
  }

  lemma StoreVersionIsPlain(fs: Fs, root: Path, store: Path, version: Name)
    requires ResolvedFor(fs, root) == Some(store + [version])
    ensures IsName(version) && !fs(store + [version]).IsLink()
  {
    CleanIsNames([], root);
    RestartIsNames(fs, Clean([], root), []);
    assert version in store + [version];
  }

  /**
    Containment is real: where no link target mixes `..` with names, the directory that an allowed custom
    path leads to, followed as the system follows it, is below the one that a sandbox root leads to, if that
    root is there at all.
   */
  lemma ContainedIsReallyBelow(fs: Fs, kind: Kind, homes: Homes, path: Path)
    requires TargetsAreDirect(fs) && MissingIsClosed(fs) && kind != Native
    requires IsAllowed(fs, kind, homes, path)
    requires Resolve(fs, [], Clean([], path), []).Resolved?
    ensures exists roots: seq<Root>, k :: HasRoots(fs, kind, homes, roots) && 0 <= k < |roots| && IsReallyBelow(fs, roots[k], path)
    ensures LinkFree(fs, Resolve(fs, [], Clean([], path), []).path)
  {
    hide Clean, Restart, Walk, Resolve, HasRoots;
    ResolvedForIsReal(fs, path);
    var roots: seq<Root> :| HasRoots(fs, kind, homes, roots) && IsContained(fs, roots, path);
    var k :| 0 <= k < |roots| && IsBelowBoth(roots[k], path, ResolvedFor(fs, path));
    RootsLeadThere(fs, kind, homes, roots, k);
    assert IsReallyBelow(fs, roots[k], path);
  }

  /** Below the root as written, and, for the system, below where the root leads. */
  ghost predicate IsReallyBelow(fs: Fs, root: Root, path: Path) {
    var end, above := Resolve(fs, [], Clean([], path), []), Resolve(fs, [], Clean([], root.lexical), []);
    && root.lexical <= path && end.Resolved? && root.resolved <= end.path
    && (above.Resolved? ==> above.path == root.resolved)
  }

  // ---- The search ----

  /** The places where an installation keeps profiles by convention, in the order of the search. */
  function Conventional(kind: Kind, homes: Homes): seq<Option<Path>> {
    [CleanAbsolute(homes.legacyHome), ChildPath(homes.dataHome, REMMINA)] +
    if kind == Native then SystemPlaces(homes.systemDataHomes) else []
  }

  function SystemPlaces(given: seq<Given>): (r: seq<Option<Path>>)
    ensures |r| == |given|
  {
    seq(|given|, i requires 0 <= i < |given| => ChildPath(given[i], REMMINA))
  }

  /** Everywhere the search looks: a custom directory only if it is allowed. */
  ghost function Places(fs: Fs, kind: Kind, homes: Homes, custom: Option<Path>): seq<Option<Path>> {
    (if custom.Some? && IsAllowed(fs, kind, homes, custom.value) then [custom] else []) + Conventional(kind, homes)
  }

  predicate IsDecisive(status: Path -> Status, place: Option<Path>) {
    place.Some? && status(place.value) != Invalid
  }

  /** The place `k` decides: it is the first that is a directory. */
  ghost predicate Decides(status: Path -> Status, places: seq<Option<Path>>, k: nat, r: Located) {
    && k < |places| && IsDecisive(status, places[k])
    && (forall m :: 0 <= m < k ==> !IsDecisive(status, places[m]))
    && r == if status(places[k].value) == Readable then Found(places[k].value) else UnreadableDirectory
  }

  ghost predicate IsFirst(status: Path -> Status, places: seq<Option<Path>>, r: Located) {
    if r == NotFound then forall k :: 0 <= k < |places| ==> !IsDecisive(status, places[k])
    else exists k: nat :: Decides(status, places, k, r)
  }

  /** What a place comes to that is a directory. */
  function Outcome(status: Path -> Status, path: Path): Located {
    if status(path) == Readable then Found(path) else UnreadableDirectory
  }

  /**
    Without a custom directory the legacy one decides if there is one; else the one for data; else, for a
    native installation, the first of the system's; and else there is none.
   */
  lemma ConventionalOrder(status: Path -> Status, kind: Kind, homes: Homes, r: Located)
    requires IsFirst(status, Conventional(kind, homes), r)
    ensures var legacy, data, system := CleanAbsolute(homes.legacyHome), ChildPath(homes.dataHome, "remmina"), homes.systemDataHomes;
            if IsDecisive(status, legacy) then r == Outcome(status, legacy.value)
            else if IsDecisive(status, data) then r == Outcome(status, data.value)
            else if exists k :: 0 <= k < |system| && IsDecisive(status, ChildPath(system[k], "remmina")) then
              if kind != Native then r == NotFound
              else exists k :: && 0 <= k < |system| && IsDecisive(status, ChildPath(system[k], "remmina"))
                               && r == Outcome(status, ChildPath(system[k], "remmina").value)
                               && forall m :: 0 <= m < k ==> !IsDecisive(status, ChildPath(system[m], "remmina"))
            else r == NotFound
  {
    hide CleanAbsolute, ChildPath;
    var places, system := Conventional(kind, homes), homes.systemDataHomes;
    assert places[0] == CleanAbsolute(homes.legacyHome) && places[1] == ChildPath(homes.dataHome, "remmina");
    assert kind == Native ==> forall k :: 0 <= k < |system| ==> places[k + 2] == ChildPath(system[k], "remmina");
    if r != NotFound {
      var k: nat :| Decides(status, places, k, r);
      if k >= 2 {
        forall m | 0 <= m < k - 2
          ensures !IsDecisive(status, ChildPath(system[m], "remmina"))
        {
          assert !IsDecisive(status, places[m + 2]);
        }
        assert places[k - 2 + 2] == ChildPath(system[k - 2], "remmina");
      }
    }
  }

  /** `existingLocation`. */
  method ExistingLocation(status: Path -> Status, place: Option<Path>) returns (r: Option<Path>, isUnreadable: bool)
    ensures r.Some? <==> IsDecisive(status, place) && status(place.value) == Readable
    ensures isUnreadable <==> IsDecisive(status, place) && status(place.value) == NotReadable
    ensures r.Some? ==> r == place
  {
    if place == None {
      return None, false;
    }
    isUnreadable := status(place.value) == NotReadable;
    r := if status(place.value) == Readable then place else None;
  }

  /** The custom directory, if the installation may use it. */
  method AllowedCustom(fs: Fs, kind: Kind, homes: Homes, custom: Option<Path>) returns (r: Option<Path>)
    ensures r == if custom.Some? && IsAllowed(fs, kind, homes, custom.value) then custom else None
  {
    hide HasRoots, IsContained;
    var sandboxRoots := VerifiedSandboxRoots(fs, kind, homes);
    if custom == None || kind == Native {
      return custom;
    }
    var contained := IsCustomPathContained(fs, custom.value, sandboxRoots);
    return if contained then custom else None;
  }

  /** The list of conventional places and the search through it. */
  method SearchConventional(status: Path -> Status, kind: Kind, homes: Homes) returns (r: Located)
    ensures IsFirst(status, Conventional(kind, homes), r)
  {
    hide CleanAbsolute, ChildPath;
    var candidates := [CleanAbsolute(homes.legacyHome), ChildPath(homes.dataHome, REMMINA)];
    if kind == Native {
      for k := 0 to |homes.systemDataHomes|
        invariant candidates == Conventional(kind, homes)[..2 + k]
      {
        candidates := candidates + [ChildPath(homes.systemDataHomes[k], REMMINA)];
      }
    }
    assert candidates == Conventional(kind, homes);
    for k := 0 to |candidates|
      invariant forall m :: 0 <= m < k ==> !IsDecisive(status, candidates[m])
    {
      var location, isUnreadable := ExistingLocation(status, candidates[k]);
      if location.Some? {
        assert Decides(status, candidates, k, Found(location.value));
        return Found(location.value);
      }
      if isUnreadable {
        assert Decides(status, candidates, k, UnreadableDirectory);
        return UnreadableDirectory;
      }
    }
    return NotFound;
  }

  lemma FirstOfMore(status: Path -> Status, first: Option<Path>, rest: seq<Option<Path>>, r: Located)
    requires !IsDecisive(status, first) && IsFirst(status, rest, r)
    ensures IsFirst(status, [first] + rest, r)
  {
    var places := [first] + rest;
    assert forall k :: 0 <= k < |places| ==> places[k] == if k == 0 then first else rest[k - 1];
    if r != NotFound {
      var k: nat :| Decides(status, rest, k, r);
      assert Decides(status, places, k + 1, r);
    }
  }

  /** `locateProfileDirectoryDetailed`, given the custom directory that the preferences name, if any. */
  method LocateProfileDirectory(fs: Fs, status: Path -> Status, kind: Kind, homes: Homes, custom: Option<Path>)
    returns (r: Located)
    ensures IsFirst(status, Places(fs, kind, homes, custom), r)
  {
    hide IsAllowed, Conventional;
    var allowed := AllowedCustom(fs, kind, homes, custom);
    if allowed.Some? {
      var location, isUnreadable := ExistingLocation(status, allowed);
      ghost var places := Places(fs, kind, homes, custom);
      assert places[0] == allowed;
      if location.Some? {
        assert Decides(status, places, 0, Found(location.value));
        return Found(location.value);
      }
      if isUnreadable {
        assert Decides(status, places, 0, UnreadableDirectory);
        return UnreadableDirectory;
      }
    }
    r := SearchConventional(status, kind, homes);
    if allowed.Some? {
      FirstOfMore(status, allowed, Conventional(kind, homes), r);
    } else {
      assert [] + Conventional(kind, homes) == Conventional(kind, homes);
    }
  }
}
