/**
  Which link targets can make the locator allow a directory that lies outside the sandbox: exactly those in
  which `..` comes behind a name.  For each of them there is a trap, a tree in which the sandbox root and
  that name are links as well.
 */
module Containment {
  import opened Instances
  import opened Paths
  import opened ProfileLocator
  import opened SymlinkResolution
  import opened SymlinkSeparation
  import opened Wrappers

  /**
    The locator allows a custom directory that is, followed as the system follows it, below no sandbox root,
    neither as the locator recorded it nor as the system finds it.
   */
  ghost predicate Escapes(fs: Fs, kind: Kind, homes: Homes, path: Path) {
    var end := Resolve(fs, [], Clean([], path), []);
    && kind != Native && IsAllowed(fs, kind, homes, path) && end.Resolved?
    && forall roots: seq<Root>, k :: HasRoots(fs, kind, homes, roots) && 0 <= k < |roots| ==> IsOutside(fs, roots[k], end.path)
  }

  ghost predicate IsOutside(fs: Fs, root: Root, path: Path) {
    var above := Resolve(fs, [], Clean([], root.lexical), []);
    !(root.resolved <= path) && (above.Resolved? ==> !(above.path <= path))
  }

  /** Some tree lets a custom directory escape through a link with this target, all other targets being direct. */
  ghost predicate CanEscape(target: seq<Name>) {
    exists fs: Fs, link: Path, kind, homes, path :: IsOnlyAt(fs, link, target) && Escapes(fs, kind, homes, path)
  }

  /** The homes of a Flatpak below this root. */
  function FlatpakHomes(root: Path): Homes {
    Homes(Given(true, root + ConfigSuffix(Flatpak)), Given(true, root + DataSuffix(Flatpak)), Given(true, root + LEGACY_SUFFIX), [])
  }

  lemma FlatpakHomesAreModeled(home: Path)
    requires home != [] && forall n :: n in home ==> IsName(n)
    ensures IsModeledRoot(Flatpak, FlatpakHomes(home + FLATPAK_ROOT), home + FLATPAK_ROOT)
    ensures forall n :: n in home + FLATPAK_ROOT ==> IsName(n)
  {
    var root := home + FLATPAK_ROOT;
    forall suffix: Path | suffix in {ConfigSuffix(Flatpak), DataSuffix(Flatpak), LEGACY_SUFFIX}
      ensures Clean([], root + suffix) == root + suffix
    {
      assert forall n :: n in root + suffix ==> IsName(n);
      CleanOfNames([], root + suffix);
      assert [] + (root + suffix) == root + suffix;
    }
    assert root[|root| - |FLATPAK_ROOT|..] == FLATPAK_ROOT;
  }

  // ---- The trap ----

  /** Everything is there and plain, but for three links. */
  function ThreeLinks(root: Path, place: Name, link: Path, target: seq<Name>, joint: Path): Fs {
    (p: Path) =>
      if p == root then Link(true, [place])
      else if p == link then Link(false, target)
      else if p == joint then Link(true, [place])
      else Plain
  }

  /** Names that occur neither in the target nor in each other's place. */
  ghost predicate AreNew(target: seq<Name>, h: Name, s: Name, z: Name, x: Name) {
    && IsName(h) && IsName(s) && IsName(z) && IsName(x)
    && h != s && h != z && h != x && s != z && s != x && z != x
    && h !in target && s !in target && z !in target && x !in target
  }

  /**
    The root below `h` leads to `s`; deep below `s`, the entry `x` of `base` leads to the target; and the name
    that the target cancels, behind `f`, leads to `s` again.
   */
  ghost predicate IsTrap(fs: Fs, root: Path, base: Path, target: seq<Name>, f: Path, name: Name, h: Name, s: Name,
                         z: Name,
                         x: Name)
  {
    && fs(root) == Link(true, [s]) && fs(base + [x]) == Link(false, target) && fs(f + [name]) == Link(true, [s])
    && (forall p: Path :: p != root && p != base + [x] && p != f + [name] ==> fs(p) == Plain)
    && root != [] && root[0] == h && (forall n :: n in root ==> IsName(n))
    && |base| == |target| + 3 && base[0] == s && (forall i :: 0 < i < |base| ==> base[i] == z)
    && name in target && |f| >= 2 && f[0] == s && f[1] == z && (forall n :: n in f ==> n == s || n == z || n in target)
  }

  /** Cleaning leaves the front of the base, and puts names behind it that it reads. */
  lemma {:induction false} CleanCuts(base: Path, components: seq<Name>) returns (m: nat, behind: Path)
    ensures m <= |base| <= m + |components| && Clean(base, components) == base[..m] + behind
    ensures forall n :: n in behind ==> n in components
    decreases |components|
  {
    if components == [] {
      m, behind := |base|, [];
    } else {
      var rest := components[1..];
      if components[0] == DOTDOT {
        m, behind := CleanCuts(Parent(base), rest);
        if base == [] {
          m := 0;
        }
      } else if IsName(components[0]) {
        m, behind := CleanCuts(base + [components[0]], rest);
        if m == |base| + 1 {
          m, behind := |base|, [components[0]] + behind;
        }
      } else {
        m, behind := CleanCuts(base, rest);
      }
    }
  }

  // ---- The walk in the trap ----

  lemma {:induction false} BlankWalk(fs: Fs, current: Path, blanks: seq<Name>, rest: seq<Name>, links: seq<Path>)
    requires |links| <= MAXIMUM_LINKS && AreBlank(blanks)
    ensures Walk(fs, current, blanks + rest, links) == Walk(fs, current, rest, links)
  {
    if blanks == [] {
      assert blanks + rest == rest;
    } else {
      assert (blanks + rest)[1..] == blanks[1..] + rest;
      BlankWalk(fs, current, blanks[1..], rest, links);
    }
  }

  /** Among names that lead nowhere else, a walk ends where cleaning does. */
  lemma {:induction false} NamesWalk(fs: Fs, current: Path, pending: seq<Name>, links: seq<Path>, names: seq<Name>)
    requires |links| <= MAXIMUM_LINKS && (forall n :: n in current ==> n in names) && forall n :: n in pending ==> n in names
    requires forall p: Path :: p != [] && p[0] in names ==> fs(p) == Plain
    ensures Walk(fs, current, pending, links) == Resolved(links, Clean(current, pending))
    decreases |pending|
  {
    if pending != [] {
      var next := if pending[0] == DOTDOT then Parent(current) else if IsName(pending[0]) then current + [pending[0]] else current;
      NamesWalk(fs, next, pending[1..], links, names);
    }
  }

  /** To the root, and from there to where it leads. */
  lemma WalkFromRoot(fs: Fs, root: Path, base: Path, target: seq<Name>, f: Path, name: Name, h: Name, s: Name, z: Name,
                     x: Name, rest: seq<Name>)
    requires IsTrap(fs, root, base, target, f, name, h, s, z, x) && AreNew(target, h, s, z, x)
    ensures Walk(fs, [], root + rest, []) == Walk(fs, [], [s] + rest, [root])
  {
    hide Walk, Clean, DotDotsLead;
    var above, last := Parent(root), root[|root| - 1];
    assert root + rest == above + ([last] + rest) && above + [last] == root && [] + [root] == [root];
    assert forall n :: n in above ==> n in root;
    CleanOfNames([], above);
    assert [] + above == above;
    PlainIsDirect(above);
    forall p: Path | p != [] && p <= above
      ensures fs(p) == Plain
    {
      assert p[0] == root[0];
    }
    DirectWalk(fs, [], above, []);
    WalkSplits(fs, [], above, [last] + rest, []);
    assert last in root;
    LinkSteps(fs, above, last, rest, []);
  }

  lemma BaseIsFree(fs: Fs, root: Path, base: Path, target: seq<Name>, f: Path, name: Name, h: Name, s: Name, z: Name,
                   x: Name)
    requires IsTrap(fs, root, base, target, f, name, h, s, z, x) && AreNew(target, h, s, z, x)
    ensures LinkFree(fs, base) && LinkFree(fs, f) && fs([s]) == Plain
  {
    forall p: Path | p != [] && (p <= base || p <= f)
      ensures fs(p) == Plain
    {
      assert p[0] == s;
      if p <= base {
        assert p[|p| - 1] == base[|p| - 1];
      } else {
        assert p[|p| - 1] == f[|p| - 1] && f[|p| - 1] in f;
      }
    }
    assert [s] <= base;
  }

  /** The walk ends outside. */
  lemma TrapWalk(fs: Fs, root: Path, base: Path, target: seq<Name>, front: seq<Name>, name: Name, blanks: seq<Name>,
                 tail: seq<Name>, h: Name, s: Name, z: Name, x: Name)
    requires IsCut(target, front, name, blanks, tail) && AreNew(target, h, s, z, x)
    requires IsTrap(fs, root, base, target, Clean(base, front), name, h, s, z, x)
    ensures var links := [root, base + [x], Clean(base, front) + [name]];
            Walk(fs, [], root + base[1..] + [x], []) == Resolved(links, Clean([], tail))
  {
    hide Walk, Clean, DotDotsLead, AreBlank;
    var f, behind := Clean(base, front), blanks + [DOTDOT] + tail;
    BaseIsFree(fs, root, base, target, f, name, h, s, z, x);
    assert root + base[1..] + [x] == root + (base[1..] + [x]) && [s] + (base[1..] + [x]) == base + [x];
    WalkFromRoot(fs, root, base, target, f, name, h, s, z, x, base[1..] + [x]);
    WalkToTarget(fs, root, base, target, x, s, z);
    DirectWalk(fs, base, front, [root, base + [x]]);
    assert target == front + ([name] + behind);
    WalkSplits(fs, base, front, [name] + behind, [root, base + [x]]);
    LinkSteps(fs, f, name, behind, [root, base + [x]]);
    var links := [root, base + [x], f + [name]];
    assert [root, base + [x]] + [f + [name]] == links;
    assert [] + [s] == [s] && Parent([s]) == [];
    PlainSteps(fs, [], s, behind, links);
    assert behind == blanks + ([DOTDOT] + tail);
    BlankWalk(fs, [s], blanks, [DOTDOT] + tail, links);
    UpStep(fs, [s], tail, links);
    assert forall i :: 0 <= i < |tail| ==> tail[i] == target[|target| - |tail| + i];
    NamesWalk(fs, [], tail, links, target);
  }

  lemma WalkToTarget(fs: Fs, root: Path, base: Path, target: seq<Name>, x: Name, s: Name, z: Name)
    requires LinkFree(fs, base) && fs(base + [x]) == Link(false, target) && IsName(x) && IsName(s) && IsName(z)
    requires base != [] && base[0] == s && forall i :: 0 < i < |base| ==> base[i] == z
    ensures Walk(fs, [], base + [x], [root]) == Walk(fs, base, target, [root, base + [x]])
  {
    hide Walk, Clean, DotDotsLead, LinkFree;
    assert forall n :: n in base ==> n == s || n == z;
    PlainIsDirect(base);
    NamesStay(base);
    DirectWalk(fs, [], base, [root]);
    WalkSplits(fs, [], base, [x], [root]);
    LastLink(fs, base, x, target, root);
  }

  lemma LastLink(fs: Fs, base: Path, x: Name, target: seq<Name>, root: Path)
    requires fs(base + [x]) == Link(false, target) && IsName(x)
    ensures Walk(fs, base, [x], [root]) == Walk(fs, base, target, [root, base + [x]])
  {
    hide Walk;
    assert [x] + [] == [x] && target + [] == target && [root] + [base + [x]] == [root, base + [x]];
    LinkSteps(fs, base, x, [], [root]);
  }

  // ---- The restart loop in the trap ----

  /** The restart loop stays below `s`. */
  lemma TrapRestart(fs: Fs, root: Path, base: Path, target: seq<Name>, f: Path, name: Name, h: Name, s: Name, z: Name,
                    x: Name)
    requires IsTrap(fs, root, base, target, f, name, h, s, z, x) && AreNew(target, h, s, z, x)
    ensures var r := Restart(fs, root + base[1..] + [x], []); r.Resolved? && [s] <= r.path
    ensures Restart(fs, root, []) == Resolved([root], [s])
  {
    hide Restart, Clean;
    RootRestarts(fs, root, base, target, f, name, h, s, z, x, base[1..] + [x]);
    RootRestarts(fs, root, base, target, f, name, h, s, z, x, []);
    BaseIsFree(fs, root, base, target, f, name, h, s, z, x);
    assert root + [] == root && [s] + [] == [s] && root + base[1..] + [x] == root + (base[1..] + [x]);
    assert [s] + (base[1..] + [x]) == base + [x];
    NoLinks(fs, [s], [root]);
    LinkRestarts(fs, root, base, target, x);
    TargetRestarts(fs, root, base, target, f, name, h, s, z, x);
  }

  lemma RootRestarts(fs: Fs, root: Path, base: Path, target: seq<Name>, f: Path, name: Name, h: Name, s: Name, z: Name,
                     x: Name, rest: Path)
    requires IsTrap(fs, root, base, target, f, name, h, s, z, x) && AreNew(target, h, s, z, x)
    ensures Restart(fs, root + rest, []) == Restart(fs, [s] + rest, [root])
  {
    var path, at := root + rest, |root| - 1;
    assert path[..at + 1] == root && path[at + 1..] == rest && [] + [root] == [root];
    assert forall p: Path :: p != [] && p <= path ==> p[0] == path[0] == h;
    FirstIsAt(fs, path, at);
    CleanOfNames([], [s]);
    assert [] + [s] == [s];
    assert Follow(fs, path, at) == [s] + rest;
  }

  lemma LinkRestarts(fs: Fs, root: Path, base: Path, target: seq<Name>, x: Name)
    requires LinkFree(fs, base) && fs(base + [x]) == Link(false, target)
    ensures Restart(fs, base + [x], [root]) == Restart(fs, Clean(base, target), [root, base + [x]])
  {
    hide Clean;
    var path, at := base + [x], |base|;
    assert path[..at + 1] == path && path[..at] == base && path[at + 1..] == [] && [root] + [path] == [root, path];
    forall p: Path | p != [] && p <= path && fs(p).IsLink()
      ensures p == path
    {
      assert p == path || p <= base;
    }
    FirstIsAt(fs, path, at);
    assert Follow(fs, path, at) == Clean(base, target) + [] == Clean(base, target);
  }

  lemma TargetRestarts(fs: Fs, root: Path, base: Path, target: seq<Name>, f: Path, name: Name, h: Name, s: Name,
                       z: Name,
                       x: Name)
    requires IsTrap(fs, root, base, target, f, name, h, s, z, x) && AreNew(target, h, s, z, x)
    ensures var r := Restart(fs, Clean(base, target), [root, base + [x]]); r.Resolved? && [s] <= r.path
  {
    hide Clean, Restart;
    var q, links := Clean(base, target), [root, base + [x]];
    var m, behind := CleanCuts(base, target);
    assert forall i :: 0 <= i < |q| ==> q[i] == if i < m then base[i] else behind[i - m];
    assert forall i :: m <= i < |q| ==> q[i] in behind;
    assert forall i :: 0 <= i < |q| ==> q[i] == s || q[i] == z || q[i] in target;
    assert q[0] == s;
    forall p: Path | p != [] && p <= q && fs(p).IsLink()
      ensures p == f + [name]
    {
      assert p[0] == q[0] && p[|p| - 1] == q[|p| - 1];
    }
    if f + [name] <= q {
      assert q[|f|] == (f + [name])[|f|] == name;
      assert |f| >= m;
      BelowIsFree(fs, root, base, target, f, name, h, s, z, x, q[|f| + 1..]);
      JointRestarts(fs, f, name, s, q, links);
    } else {
      NoLinks(fs, q, links);
    }
  }

  lemma JointRestarts(fs: Fs, f: Path, name: Name, s: Name, q: Path, links: seq<Path>)
    requires f + [name] <= q && |links| < MAXIMUM_LINKS && IsName(s) && fs(f + [name]) == Link(true, [s])
    requires forall p: Path :: p != [] && p <= q && fs(p).IsLink() ==> p == f + [name]
    requires forall p: Path :: p != [] && p <= [s] + q[|f| + 1..] ==> !fs(p).IsLink()
    ensures var r := Restart(fs, q, links); r.Resolved? && [s] <= r.path
  {
    var at, joint := |f|, f + [name];
    assert q[..at + 1] == joint;
    FirstIsAt(fs, q, at);
    NamesStay([s]);
    hide Clean;
    var path := [s] + q[at + 1..];
    assert Follow(fs, q, at) == path;
    NoLinks(fs, path, links + [joint]);
  }

  /** Below `s`, names of the target lead to no link. */
  lemma BelowIsFree(fs: Fs, root: Path, base: Path, target: seq<Name>, f: Path, name: Name, h: Name, s: Name, z: Name,
                    x: Name, rest: Path)
    requires IsTrap(fs, root, base, target, f, name, h, s, z, x) && AreNew(target, h, s, z, x)
    requires forall i :: 0 <= i < |rest| ==> rest[i] in target
    ensures forall p: Path :: p != [] && p <= [s] + rest ==> !fs(p).IsLink()
  {
    var path := [s] + rest;
    assert forall i :: 0 < i < |path| ==> path[i] == rest[i - 1];
    assert (f + [name])[1] == z && (base + [x])[1] == z;
    forall p: Path | p != [] && p <= path
      ensures !fs(p).IsLink()
    {
      assert p[0] == path[0] == s && (|p| > 1 ==> p[1] == path[1]);
    }
  }

  // ---- The exact condition ----

  lemma TrapIsOnlyAt(root: Path, s: Name, link: Path, target: seq<Name>, joint: Path)
    requires root != link && joint != link && s != DOTDOT
    ensures IsOnlyAt(ThreeLinks(root, s, link, target, joint), link, target)
  {
    PlainIsDirect([s]);
  }

  lemma ThreeLinksAreTrap(root: Path, base: Path, target: seq<Name>, front: seq<Name>, name: Name, behind: seq<Name>,
                          h: Name,
                          s: Name, z: Name, x: Name)
    requires target == front + [name] + behind && AreNew(target, h, s, z, x)
    requires root != [] && root[0] == h && (forall n :: n in root ==> IsName(n))
    requires |base| == |target| + 3 && base[0] == s && forall i :: 0 < i < |base| ==> base[i] == z
    ensures var f := Clean(base, front);
            && IsTrap(ThreeLinks(root, s, base + [x], target, f + [name]), root, base, target, f, name, h, s, z, x)
            && root != base + [x] && f + [name] != base + [x]
  {
    hide Clean;
    var f := Clean(base, front);
    var m, cut := CleanCuts(base, front);
    assert forall i :: 0 <= i < |f| ==> f[i] == if i < m then base[i] else cut[i - m];
    assert forall n :: n in cut ==> n in target;
    assert target[|front|] == name;
    assert (f + [name])[|f|] == name && (base + [x])[|base|] == x;
    assert |f| == |base| ==> (f + [name])[|base|] == name;
  }

  lemma NamesAreNew(target: seq<Name>, h: Name)
    requires h == LongName(target)
    ensures AreNew(target, h, h + "a", h + "b", h + "c")
  {
    assert (h + "a")[|h|] == 'a' && (h + "b")[|h|] == 'b' && (h + "c")[|h|] == 'c';
  }

  lemma CutIsTarget(target: seq<Name>, front: seq<Name>, name: Name, blanks: seq<Name>, tail: seq<Name>)
    requires IsCut(target, front, name, blanks, tail)
    ensures target == front + [name] + (blanks + [DOTDOT] + tail)
    ensures forall n :: n in tail ==> n in target
  {
    assert forall i :: 0 <= i < |tail| ==> tail[i] == target[|target| - |tail| + i];
  }

  lemma RootWalks(fs: Fs, root: Path, base: Path, target: seq<Name>, f: Path, name: Name, h: Name, s: Name, z: Name,
                  x: Name)
    requires IsTrap(fs, root, base, target, f, name, h, s, z, x) && AreNew(target, h, s, z, x)
    ensures Walk(fs, [], root, []) == Resolved([root], [s])
  {
    hide Walk;
    assert root + [] == root && [s] + [] == [s] && [] + [s] == [s];
    WalkFromRoot(fs, root, base, target, f, name, h, s, z, x, []);
    BaseIsFree(fs, root, base, target, f, name, h, s, z, x);
    PlainSteps(fs, [], s, [], [root]);
    WalkStops(fs, [s], [root]);
  }

  lemma TailIsOutside(target: seq<Name>, tail: seq<Name>, s: Name)
    requires (forall n :: n in tail ==> n in target) && s !in target
    ensures !([s] <= Clean([], tail))
  {
    CleanedFromRoot(tail);
    var path := Clean([], tail);
    assert path != [] ==> path[0] in path;
  }

  lemma NamesStay(path: Path)
    requires forall n :: n in path ==> IsName(n)
    ensures Clean([], path) == path
  {
    CleanOfNames([], path);
    assert [] + path == path;
  }

  /** The pieces together: the locator sees both below the root, and the system sees the end outside. */
  lemma TrapEscapes(fs: Fs, root: Path, path: Path, s: Name, end: Path)
    requires IsModeledRoot(Flatpak, FlatpakHomes(root), root) && Clean([], root) == root <= path == Clean([], path)
    requires Restart(fs, root, []) == Resolved([root], [s]) && Walk(fs, [], root, []) == Resolved([root], [s])
    requires var r := Restart(fs, path, []); r.Resolved? && [s] <= r.path
    requires var r := Walk(fs, [], path, []); r.Resolved? && r.path == end && !([s] <= end)
    ensures Escapes(fs, Flatpak, FlatpakHomes(root), path)
  {
    hide Walk, Restart, Resolve, Clean, IsModeledRoot;
    var homes, roots := FlatpakHomes(root), [Root(root, [s])];
    WalkIsResolve(fs, [], path, []);
    WalkIsResolve(fs, [], root, []);
    assert AreSandboxRoots(fs, Flatpak, root, roots);
    RootsOf(fs, Flatpak, homes, root);
    assert IsBelowBoth(roots[0], path, ResolvedFor(fs, path));
    assert IsContained(fs, roots, path);
    forall others: seq<Root>, k | HasRoots(fs, Flatpak, homes, others) && 0 <= k < |others|
      ensures IsOutside(fs, others[k], end)
    {
      assert others == roots;
    }
  }

  /** The trap works. */
  lemma TrapIsEscaped(fs: Fs, root: Path, base: Path, target: seq<Name>, front: seq<Name>, name: Name,
                      blanks: seq<Name>,
                      tail: seq<Name>, h: Name, s: Name, z: Name, x: Name)
    requires IsCut(target, front, name, blanks, tail) && AreNew(target, h, s, z, x)
    requires IsTrap(fs, root, base, target, Clean(base, front), name, h, s, z, x)
    requires IsModeledRoot(Flatpak, FlatpakHomes(root), root)
    ensures Escapes(fs, Flatpak, FlatpakHomes(root), root + base[1..] + [x])
  {
    hide Walk, Restart, Clean, DotDotsLead, IsCut, IsModeledRoot, Escapes;
    var path := root + base[1..] + [x];
    CutIsTarget(target, front, name, blanks, tail);
    TrapWalk(fs, root, base, target, front, name, blanks, tail, h, s, z, x);
    TrapRestart(fs, root, base, target, Clean(base, front), name, h, s, z, x);
    RootWalks(fs, root, base, target, Clean(base, front), name, h, s, z, x);
    TailIsOutside(target, tail, s);
    assert forall n :: n in base[1..] ==> n == z;
    NamesStay(root);
    NamesStay(path);
    TrapEscapes(fs, root, path, s, Clean([], tail));
  }

  /** The trap is there. */
  lemma TrapIsSet(target: seq<Name>, front: seq<Name>, name: Name, blanks: seq<Name>, tail: seq<Name>, h: Name, s: Name,
                  z: Name, x: Name)
    requires IsCut(target, front, name, blanks, tail) && AreNew(target, h, s, z, x)
    ensures CanEscape(target)
  {
    hide Clean, DotDotsLead, IsTrap, IsCut, IsModeledRoot, ThreeLinks, IsOnlyAt, Escapes;
    var root, base := [h] + FLATPAK_ROOT, [s] + Repeated(z, |target| + 2);
    var joint := Clean(base, front) + [name];
    var fs := ThreeLinks(root, s, base + [x], target, joint);
    FlatpakHomesAreModeled([h]);
    CutIsTarget(target, front, name, blanks, tail);
    ThreeLinksAreTrap(root, base, target, front, name, blanks + [DOTDOT] + tail, h, s, z, x);
    TrapIsOnlyAt(root, s, base + [x], target, joint);
    TrapIsEscaped(fs, root, base, target, front, name, blanks, tail, h, s, z, x);
  }

  /** A target with `..` behind a name lets a custom directory escape from some sandbox. */
  lemma MixedTargetEscapes(target: seq<Name>)
    requires !DotDotsLead(target)
    ensures CanEscape(target)
  {
    hide *;
    var front, name, blanks, tail := CutExists(target);
    var h := LongName(target);
    NamesAreNew(target, h);
    TrapIsSet(target, front, name, blanks, tail, h, h + "a", h + "b", h + "c");
  }

  /**
    The exact condition on a target: no tree whose other targets are direct lets the locator allow a directory
    outside every sandbox root through a link with this target, if and only if every `..` in it comes before
    every name.
   */
  lemma ContainmentExactly(target: seq<Name>)
    ensures DotDotsLead(target) <==> !CanEscape(target)
  {
    hide DotDotsLead, Resolve, Clean, IsAllowed, HasRoots;
    if DotDotsLead(target) {
      forall fs: Fs, link: Path, kind, homes, path | IsOnlyAt(fs, link, target)
        ensures !Escapes(fs, kind, homes, path)
      {
        assert TargetsAreDirect(fs);
        if kind != Native && IsAllowed(fs, kind, homes, path) && Resolve(fs, [], Clean([], path), []).Resolved? {
          ContainedIsReallyBelow(fs, kind, homes, path);
        }
      }
    } else {
      MixedTargetEscapes(target);
    }
  }
}
