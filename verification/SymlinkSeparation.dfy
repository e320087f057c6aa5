/**
  Exactly which link targets can make the two resolution algorithms disagree: those in which `..` comes
  behind a name.  For each of them there is a tree in which that name is a link itself.
 */
module SymlinkSeparation {
  import opened Paths
  import opened SymlinkResolution

  /** Every target in the tree but that of `link` is direct, and that one is `target`. */
  ghost predicate IsOnlyAt(fs: Fs, link: Path, target: seq<Name>) {
    && MissingIsClosed(fs) && fs(link).Link? && fs(link).target == target
    && forall p: Path :: p != link && fs(p).Link? ==> DotDotsLead(fs(p).target)
  }

  /** The walk and the restart loop disagree on some path. */
  ghost predicate Separates(fs: Fs, rawComponents: seq<Name>) {
    var path := Clean([], rawComponents);
    !Agree(Walk(fs, [], path, []), Restart(fs, path, []))
  }

  /** Some tree separates the two through a link with this target, all other targets being direct. */
  ghost predicate CanSeparate(target: seq<Name>) {
    exists fs: Fs, link: Path, rawComponents: seq<Name> :: IsOnlyAt(fs, link, target) && Separates(fs, rawComponents)
  }

  // ---- The tree ----

  /** Everything is there and plain, but for two links: `[x]` to the target, and `joint` to `deep`. */
  function TwoLinks(x: Name, target: seq<Name>, joint: Path, deep: Path): Fs {
    (p: Path) => if p == [x] then Link(true, target) else if p == joint then Link(true, deep) else Plain
  }

  function Repeated(y: Name, n: nat): Path { seq(n, _ => y) }

  predicate IsBlankName(component: Name) { component == "" || component == DOT }

  predicate AreBlank(components: seq<Name>) {
    forall i :: 0 <= i < |components| ==> IsBlankName(components[i])
  }

  /** `..` comes behind a name, with only blanks in between, and nothing of the kind comes before. */
  ghost predicate IsCut(target: seq<Name>, front: seq<Name>, name: Name, blanks: seq<Name>, tail: seq<Name>) {
    && target == front + [name] + (blanks + [DOTDOT] + tail)
    && DotDotsLead(front) && IsName(name) && AreBlank(blanks)
  }

  /** Some `..` comes behind a name. */
  predicate IsMixedAt(target: seq<Name>, j: nat) {
    j < |target| && target[j] == DOTDOT && exists i :: 0 <= i < j && IsName(target[i])
  }

  lemma {:induction false} LeastMixed(target: seq<Name>, j: nat) returns (least: nat)
    requires IsMixedAt(target, j)
    ensures IsMixedAt(target, least) && forall k: nat :: k < least ==> !IsMixedAt(target, k)
  {
    if k: nat :| k < j && IsMixedAt(target, k) {
      least := LeastMixed(target, k);
    } else {
      least := j;
    }
  }

  lemma {:induction false} LastName(target: seq<Name>, i: nat, j: nat) returns (last: nat)
    requires i < j <= |target| && IsName(target[i])
    ensures i <= last < j && IsName(target[last]) && forall k :: last < k < j ==> !IsName(target[k])
    decreases j - i
  {
    if k: nat :| i < k < j && IsName(target[k]) {
      last := LastName(target, k, j);
    } else {
      last := i;
    }
  }

  /** A target that is not direct can be cut at its first `..` behind a name. */
  lemma CutExists(target: seq<Name>) returns (front: seq<Name>, name: Name, blanks: seq<Name>, tail: seq<Name>)
    requires !DotDotsLead(target)
    ensures IsCut(target, front, name, blanks, tail)
  {
    var i, j :| 0 <= i < j < |target| && target[j] == DOTDOT && IsName(target[i]);
    assert IsMixedAt(target, j);
    j := LeastMixed(target, j);
    i :| 0 <= i < j && IsName(target[i]);
    i := LastName(target, i, j);
    front, name, blanks, tail := target[..i], target[i], target[i + 1..j], target[j + 1..];
    CutIsMade(target, i, j);
  }

  lemma CutIsMade(target: seq<Name>, i: nat, j: nat)
    requires i < j < |target| && IsName(target[i]) && target[j] == DOTDOT
    requires (forall k :: i < k < j ==> !IsName(target[k])) && forall k: nat :: k < j ==> !IsMixedAt(target, k)
    ensures IsCut(target, target[..i], target[i], target[i + 1..j], target[j + 1..])
  {
    hide IsName;
    var front, blanks := target[..i], target[i + 1..j];
    assert target == front + [target[i]] + (blanks + [DOTDOT] + target[j + 1..]);
    forall k | i < k < j
      ensures IsBlankName(target[k])
    {
      assert !IsMixedAt(target, k);
      NoNameIsBlank(target[k]);
    }
    assert forall k :: 0 <= k < |blanks| ==> blanks[k] == target[i + 1 + k];
    forall a, b | 0 <= a < b < |front| && front[b] == DOTDOT
      ensures !IsName(front[a])
    {
      assert !IsMixedAt(target, b);
    }
  }

  lemma NoNameIsBlank(component: Name)
    ensures IsName(component) || component == DOTDOT || IsBlankName(component)
  {
  }

  /** Names longer than all components of a target, and so different from them. */
  function LongName(target: seq<Name>): (name: Name)
    ensures IsName(name) && |name| >= 3 && forall c :: c in target ==> |c| < |name|
  {
    if target == [] then "aaa"
    else
      var name := LongName(target[1..]);
      assert forall c :: c in target ==> c == target[0] || c in target[1..];
      if |target[0]| < |name| then name else target[0] + "aaa"
  }

  // ---- What cleaning makes of paths ----

  lemma {:induction false} BlanksVanish(base: Path, blanks: seq<Name>)
    requires AreBlank(blanks)
    ensures Clean(base, blanks) == base
  {
    if blanks != [] {
      BlanksVanish(base, blanks[1..]);
    }
  }

  /** Each component of a cleaned path is where it was in the base, or comes from what was read. */
  lemma {:induction false} CleanedComponents(base: Path, components: seq<Name>)
    ensures var path := Clean(base, components);
            forall i :: 0 <= i < |path| ==> (i < |base| && path[i] == base[i]) || path[i] in components
    decreases |components|
  {
    if components != [] {
      CleanedComponents(if components[0] == DOTDOT then Parent(base) else if IsName(components[0]) then base + [components[0]] else base,
                        components[1..]);
    }
  }

  /** A path cleaned from the root has no other components than those that were read. */
  lemma CleanedFromRoot(components: seq<Name>)
    ensures forall c :: c in Clean([], components) ==> c in components
  {
    var path := Clean([], components);
    CleanedComponents([], components);
    forall c | c in path
      ensures c in components
    {
      var i :| 0 <= i < |path| && path[i] == c;
    }
  }

  // ---- Walking and restarting where there are no links ----

  lemma {:induction false} NoLinks(fs: Fs, path: Path, links: seq<Path>)
    requires |links| <= MAXIMUM_LINKS && forall p: Path :: p != [] && p <= path ==> !fs(p).IsLink()
    ensures Restart(fs, path, links) == Resolved(links, path)
  {
    FirstLinkSkips(fs, path, 0, |path|);
  }

  /** Deep in a plain place, a walk ends where cleaning does. */
  lemma {:induction false} DeepWalk(fs: Fs, current: Path, pending: seq<Name>, links: seq<Path>, y: Name)
    requires |links| <= MAXIMUM_LINKS && forall p: Path :: p != [] && p[0] == y ==> fs(p) == Plain
    requires |current| > |pending| && current[0] == y
    ensures Walk(fs, current, pending, links) == Resolved(links, Clean(current, pending))
    decreases |pending|
  {
    if pending != [] {
      DeepWalk(fs, if pending[0] == DOTDOT then Parent(current) else if IsName(pending[0]) then current + [pending[0]] else current,
               pending[1..], links, y);
    }
  }

  /** A direct walk that meets no link ends where cleaning does. */
  lemma {:induction false} DirectWalk(fs: Fs, current: Path, pending: seq<Name>, links: seq<Path>)
    requires |links| <= MAXIMUM_LINKS && DotDotsLead(pending) && LinkFree(fs, Clean(current, pending))
    ensures Walk(fs, current, pending, links) == Resolved(links, Clean(current, pending))
    decreases |pending|
  {
    if pending != [] {
      var rest := pending[1..];
      assert forall j :: 0 <= j < |rest| ==> rest[j] == pending[j + 1];
      if IsName(pending[0]) {
        NamePending(current, pending);
        var next := current + [pending[0]];
        CleanAppends(next, rest);
        assert next <= Clean(current, pending);
        DirectWalk(fs, next, rest, links);
      } else {
        DirectWalk(fs, if pending[0] == DOTDOT then Parent(current) else current, rest, links);
      }
    }
  }

  // ---- The two algorithms in the tree ----

  /** The names of the tree: two that occur nowhere in the target. */
  ghost predicate AreFresh(target: seq<Name>, x: Name, y: Name) {
    IsName(x) && IsName(y) && x != y && x !in target && y !in target
  }

  /** The tree: `[x]` leads to the target, and the name behind `f` leads deep into a plain place below `y`. */
  ghost predicate IsTree(fs: Fs, target: seq<Name>, f: Path, name: Name, deep: Path, x: Name, y: Name) {
    && fs([x]) == Link(true, target) && fs(f + [name]) == Link(true, deep)
    && (forall p: Path :: p != [] && p <= f ==> fs(p) == Plain)
    && (forall p: Path :: p != [] && p[0] == y ==> fs(p) == Plain)
    && (forall p: Path :: fs(p).IsLink() ==> p == [x] || p == f + [name])
    && |deep| == |target| + 2 && (forall i :: 0 <= i < |deep| ==> deep[i] == y)
    && Clean([], deep) == deep && DOTDOT !in deep
  }

  /** Through the front, to the name that is a link, through the deep path that it leads to, and on from there. */
  lemma WalkThroughJoint(fs: Fs, front: seq<Name>, name: Name, behind: seq<Name>, deep: Path, y: Name, links: seq<Path>)
    requires |links| < MAXIMUM_LINKS && DotDotsLead(front) && IsName(name) && LinkFree(fs, Clean([], front))
    requires fs(Clean([], front) + [name]) == Link(true, deep)
    requires DOTDOT !in deep && Clean([], deep) == deep && |deep| > |behind| && deep[0] == y
    requires forall p: Path :: p != [] && p[0] == y ==> fs(p) == Plain
    ensures Walk(fs, [], front + [name] + behind, links) ==
            Resolved(links + [Clean([], front) + [name]], Clean(deep, behind))
  {
    hide DotDotsLead, Clean, Walk;
    var f := Clean([], front);
    DirectWalk(fs, [], front, links);
    assert front + [name] + behind == front + ([name] + behind);
    WalkSplits(fs, [], front, [name] + behind, links);
    LinkSteps(fs, f, name, behind, links);
    WalkThroughDeep(fs, deep, behind, links + [f + [name]], y);
  }

  /** Through the deep path, and on from there. */
  lemma WalkThroughDeep(fs: Fs, deep: Path, behind: seq<Name>, links: seq<Path>, y: Name)
    requires |links| <= MAXIMUM_LINKS && DOTDOT !in deep && Clean([], deep) == deep && |deep| > |behind| && deep[0] == y
    requires forall p: Path :: p != [] && p[0] == y ==> fs(p) == Plain
    ensures Walk(fs, [], deep + behind, links) == Resolved(links, Clean(deep, behind))
  {
    hide DotDotsLead, Clean, Walk;
    PlainIsDirect(deep);
    forall p: Path | p != [] && p <= deep
      ensures fs(p) == Plain
    {
      assert p[0] == deep[0];
    }
    DirectWalk(fs, [], deep, links);
    WalkSplits(fs, [], deep, behind, links);
    DeepWalk(fs, deep, behind, links, y);
  }

  /** The walk follows both links, and ends where cleaning the tail from above the deep path ends. */
  lemma CutWalk(fs: Fs, target: seq<Name>, front: seq<Name>, name: Name, blanks: seq<Name>, tail: seq<Name>, deep: Path,
                x: Name, y: Name)
    requires IsCut(target, front, name, blanks, tail) && AreFresh(target, x, y)
    requires IsTree(fs, target, Clean([], front), name, deep, x, y)
    ensures Walk(fs, [], [x], []) == Resolved([[x], Clean([], front) + [name]], Clean(Parent(deep), tail))
  {
    hide DotDotsLead, Clean, AreBlank, Walk;
    var f, behind := Clean([], front), blanks + [DOTDOT] + tail;
    assert [] + [x] == [x] && [x] + [] == [x] && target + [] == target && [] + [[x]] == [[x]];
    LinkSteps(fs, [], x, [], []);
    WalkThroughJoint(fs, front, name, behind, deep, y, [[x]]);
    assert [[x]] + [f + [name]] == [[x], f + [name]];
    BehindCleans(deep, blanks, tail);
  }

  lemma PlainIsDirect(components: seq<Name>)
    requires DOTDOT !in components
    ensures DotDotsLead(components)
  {
  }

  lemma BehindCleans(base: Path, blanks: seq<Name>, tail: seq<Name>)
    requires AreBlank(blanks)
    ensures Clean(base, blanks + [DOTDOT] + tail) == Clean(Parent(base), tail)
  {
    BlanksVanish(base, blanks);
    assert blanks + [DOTDOT] + tail == blanks + ([DOTDOT] + tail);
    CleanSplits(base, blanks, [DOTDOT] + tail);
    assert ([DOTDOT] + tail)[1..] == tail;
  }

  /** The restart loop either misses the second link, or ends below the deep path. */
  lemma CutRestart(fs: Fs, target: seq<Name>, f: Path, name: Name, deep: Path, x: Name, y: Name)
    requires AreFresh(target, x, y) && IsTree(fs, target, f, name, deep, x, y)
    ensures var r := Restart(fs, [x], []);
            r.Resolved? && (r.links == [[x]] || (r.links == [[x], f + [name]] && deep <= r.path))
  {
    hide Clean, Restart;
    var q := Clean([], target);
    FollowsTarget(fs, target, x);
    CleanedFromRoot(target);
    assert forall i :: 0 <= i < |q| ==> q[i] in q;
    assert forall p: Path :: p != [] && p <= q && fs(p).IsLink() ==> p == f + [name];
    if f + [name] <= q {
      ThroughJoint(fs, q, f, name, deep, y, [[x]]);
      assert [[x]] + [f + [name]] == [[x], f + [name]];
    } else {
      NoLinks(fs, q, [[x]]);
    }
  }

  /** A path through the joint is restarted below the deep path, where there are no links. */
  lemma ThroughJoint(fs: Fs, q: Path, f: Path, name: Name, deep: Path, y: Name, links: seq<Path>)
    requires |links| < MAXIMUM_LINKS && f + [name] <= q && deep != [] && deep[0] == y
    requires fs(f + [name]) == Link(true, deep) && Clean([], deep) == deep
    requires forall p: Path :: p != [] && p <= q && fs(p).IsLink() ==> p == f + [name]
    requires forall p: Path :: p != [] && p[0] == y ==> fs(p) == Plain
    ensures var r := Restart(fs, q, links);
            r.Resolved? && r.links == links + [f + [name]] && deep <= r.path
  {
    hide Clean;
    var at := |f|;
    assert q[..at + 1] == f + [name] && LinkAt(fs, q, at);
    FirstIsAt(fs, q, at);
    var path := deep + q[at + 1..];
    assert Follow(fs, q, at) == path;
    assert forall p: Path :: p != [] && p <= path ==> p[0] == path[0] == y;
    NoLinks(fs, path, links + [f + [name]]);
  }

  lemma FollowsTarget(fs: Fs, target: seq<Name>, x: Name)
    requires fs([x]) == Link(true, target)
    ensures Restart(fs, [x], []) == Restart(fs, Clean([], target), [[x]])
  {
    assert [x][..1] == [x] && [x][1..] == [] && LinkAt(fs, [x], 0) && [] + [[x]] == [[x]];
    assert Follow(fs, [x], 0) == Clean([], target);
  }

  lemma FirstIsAt(fs: Fs, path: Path, at: nat)
    requires at < |path| && LinkAt(fs, path, at)
    requires forall p: Path :: p != [] && p <= path && fs(p).IsLink() ==> p == path[..at + 1]
    ensures FirstLink(fs, path, 0) == at
  {
    forall j | 0 <= j < at
      ensures !LinkAt(fs, path, j)
    {
      assert |path[..j + 1]| != |path[..at + 1]|;
    }
    FirstLinkSkips(fs, path, 0, at);
  }

  /** Where the walk ends is not below the deep path. */
  lemma WalkEndsElsewhere(target: seq<Name>, tail: seq<Name>, deep: Path, y: Name)
    requires y !in target && (forall c :: c in tail ==> c in target)
    requires deep != [] && forall i :: 0 <= i < |deep| ==> deep[i] == y
    ensures !(deep <= Clean(Parent(deep), tail))
  {
    var path := Clean(Parent(deep), tail);
    CleanedComponents(Parent(deep), tail);
    if |path| >= |deep| {
      var i := |deep| - 1;
      assert !(i < |Parent(deep)|);
      assert path[i] in tail;
    }
  }

  lemma TwoLinksAreTree(target: seq<Name>, front: seq<Name>, name: Name, behind: seq<Name>, x: Name, y: Name)
    requires target == front + [name] + behind && AreFresh(target, x, y)
    ensures var f, deep := Clean([], front), Repeated(y, |target| + 2);
            IsTree(TwoLinks(x, target, f + [name], deep), target, f, name, deep, x, y)
  {
    hide Clean;
    var f, deep := Clean([], front), Repeated(y, |target| + 2);
    CleanedFromRoot(front);
    forall i | 0 <= i < |f|
      ensures f[i] in target
    {
      assert f[i] in f;
      var k :| 0 <= k < |front| && front[k] == f[i];
      assert target[k] == f[i];
    }
    assert target[|front|] == name;
    assert (f + [name])[0] in target;
    CleanOfNames([], deep);
    assert [] + deep == deep;
  }

  lemma TreeIsOnlyAt(target: seq<Name>, joint: Path, deep: Path, x: Name)
    requires joint != [x] && DOTDOT !in deep
    ensures IsOnlyAt(TwoLinks(x, target, joint, deep), [x], target)
  {
    PlainIsDirect(deep);
  }

  lemma MixedTargetSeparates(target: seq<Name>)
    requires !DotDotsLead(target)
    ensures CanSeparate(target)
  {
    hide Walk, Restart, Clean, DotDotsLead, TwoLinks, Repeated, IsOnlyAt;
    var front, name, blanks, tail := CutExists(target);
    var x := LongName(target);
    var y := x + "a";
    assert AreFresh(target, x, y);
    var f, deep := Clean([], front), Repeated(y, |target| + 2);
    var fs := TwoLinks(x, target, f + [name], deep);
    TwoLinksAreTree(target, front, name, blanks + [DOTDOT] + tail, x, y);
    CutWalk(fs, target, front, name, blanks, tail, deep, x, y);
    CutRestart(fs, target, f, name, deep, x, y);
    WalkEndsElsewhere(target, tail, deep, y);
    TreeIsOnlyAt(target, f + [name], deep, x);
    OneNameIsClean(x);
    assert Separates(fs, [x]);
  }

  lemma OneNameIsClean(x: Name)
    requires IsName(x)
    ensures Clean([], [x]) == [x]
  {
    CleanOfNames([], [x]);
    assert [] + [x] == [x];
  }

  /**
    The exact condition on a target: no tree whose other targets are direct separates the two algorithms
    through a link with this target, if and only if every `..` in it comes before every name.
   */
  lemma DirectTargetsExactly(target: seq<Name>)
    ensures DotDotsLead(target) <==> !CanSeparate(target)
  {
    hide DotDotsLead, Walk, Restart;
    if DotDotsLead(target) {
      forall fs: Fs, link: Path, rawComponents: seq<Name> | IsOnlyAt(fs, link, target)
        ensures !Separates(fs, rawComponents)
      {
        assert TargetsAreDirect(fs);
        ResolutionsAgree(fs, rawComponents);
      }
    } else {
      MixedTargetSeparates(target);
    }
  }
}
