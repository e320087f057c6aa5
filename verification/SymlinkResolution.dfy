/**
  Symbolic-link resolution, which the program does in two ways.  The repository walks a worklist of
  components and records the directories whose links it followed; the locator rewrites the whole path
  at its first link and starts again from the root.  Both are bounded by forty links.
 */
module SymlinkResolution {
  import opened Paths
  import opened Wrappers

  const DOT := "."
  const DOTDOT := ".."
  const MAXIMUM_LINKS := 40

  /** What `lstat` and `readlink` say of one path whose parent contains no link. */
  datatype Entry = Missing | Plain | UnreadableLink | Link(absolute: bool, target: seq<Name>) {
    predicate IsLink() { Link? || UnreadableLink? }
  }

  type Fs = Path -> Entry

  predicate IsName(component: Name) {
    component != "" && component != DOT && component != DOTDOT
  }

  /** The lexical cleaning of `components` read from the directory `base`. */
  function Clean(base: Path, components: seq<Name>): Path
    decreases |components|
  {
    if components == [] then base
    else if components[0] == "" || components[0] == DOT then Clean(base, components[1..])
    else if components[0] == DOTDOT then Clean(Parent(base), components[1..])
    else Clean(base + [components[0]], components[1..])
  }

  /** How a resolution ends; `links` are the links it followed, in order. */
  datatype Outcome =
    | Resolved(links: seq<Path>, path: Path)
    | TooManyLinks(links: seq<Path>, next: Path)
    | Unreadable(links: seq<Path>, next: Path)
    | Absent(links: seq<Path>, next: Path)

  // ---- The reference: nested resolution, one link target at a time ----

  /** Resolves `components` from `current`, resolving a link's target completely before going on. */
  function Resolve(fs: Fs, current: Path, components: seq<Name>, links: seq<Path>): (r: Outcome)
    requires |links| <= MAXIMUM_LINKS
    ensures links <= r.links && |r.links| <= MAXIMUM_LINKS
    decreases MAXIMUM_LINKS - |links|, |components|
  {
    if components == [] then Resolved(links, current)
    else
      var rest := components[1..];
      if components[0] == "" || components[0] == DOT then Resolve(fs, current, rest, links)
      else if components[0] == DOTDOT then Resolve(fs, Parent(current), rest, links)
      else
        var next := current + [components[0]];
        match fs(next)
        case Missing => Absent(links, next)
        case Plain => Resolve(fs, next, rest, links)
        case UnreadableLink => if |links| == MAXIMUM_LINKS then TooManyLinks(links, next) else Unreadable(links, next)
        case Link(absolute, target) =>
          if |links| == MAXIMUM_LINKS then TooManyLinks(links, next)
          else
            var inner := Resolve(fs, if absolute then [] else current, target, links + [next]);
            if inner.Resolved? then Resolve(fs, inner.path, rest, inner.links) else inner
  }

  // ---- The repository's worklist ----

  /** The worklist loop as a function: a link's target is put in front of what is still pending. */
  function Walk(fs: Fs, current: Path, pending: seq<Name>, links: seq<Path>): (r: Outcome)
    requires |links| <= MAXIMUM_LINKS
    ensures links <= r.links && |r.links| <= MAXIMUM_LINKS
    decreases MAXIMUM_LINKS - |links|, |pending|
  {
    if pending == [] then Resolved(links, current)
    else
      var rest := pending[1..];
      if pending[0] == "" || pending[0] == DOT then Walk(fs, current, rest, links)
      else if pending[0] == DOTDOT then Walk(fs, Parent(current), rest, links)
      else
        var next := current + [pending[0]];
        match fs(next)
        case Missing => Absent(links, next)
        case Plain => Walk(fs, next, rest, links)
        case UnreadableLink => if |links| == MAXIMUM_LINKS then TooManyLinks(links, next) else Unreadable(links, next)
        case Link(absolute, target) =>
          if |links| == MAXIMUM_LINKS then TooManyLinks(links, next)
          else Walk(fs, if absolute then [] else current, target + rest, links + [next])
  }

  /** The directories that hold the followed links, each once, in order of first use. */
  function LinkParents(links: seq<Path>): seq<Path> {
    if links == [] then []
    else
      var before := LinkParents(links[..|links| - 1]);
      var parent := Parent(links[|links| - 1]);
      if parent in before then before else before + [parent]
  }

  /** `symlinkParentPaths`; `None` is its empty result for a relative, dangling, looping or unreadable path. */
  method SymlinkParentPaths(fs: Fs, absolute: bool, components: seq<Name>) returns (r: Option<seq<Path>>)
    ensures r == if !absolute then None else
                 var outcome := Walk(fs, [], Clean([], components), []);
                 if outcome.Resolved? then Some(LinkParents(outcome.links)) else None
  {
    if !absolute {
      return None;
    }
    var parents: seq<Path>, seenParents: set<Path> := [], {};
    var current: Path := [];
    var pending := Clean([], components);
    var followedLinks := 0;
    ghost var links: seq<Path> := [];
    while pending != []
      invariant followedLinks == |links| <= MAXIMUM_LINKS
      invariant Walk(fs, current, pending, links) == Walk(fs, [], Clean([], components), [])
      invariant parents == LinkParents(links)
      invariant forall p :: p in seenParents <==> p in parents
      decreases MAXIMUM_LINKS - followedLinks, |pending|
    {
      var component := pending[0];
      pending := pending[1..];
      if component == "" || component == DOT {
        continue;
      }
      if component == DOTDOT {
        current := Parent(current);
        continue;
      }
      var candidate := current + [component];
      var entry := fs(candidate);
      if entry == Missing {
        return None;
      }
      if !entry.IsLink() {
        current := candidate;
        continue;
      }
      if followedLinks == MAXIMUM_LINKS || entry == UnreadableLink {
        return None;
      }
      links := links + [candidate];
      assert links[..|links| - 1] == links[..followedLinks];
      assert Parent(candidate) == current;
      if current !in seenParents {
        seenParents := seenParents + {current};
        parents := parents + [current];
      }
      pending := entry.target + pending;
      if entry.absolute {
        current := [];
      }
      followedLinks := followedLinks + 1;
    }
    return Some(parents);
  }

  /** Working through `first + second` is working through `first` and then, from there, `second`. */
  lemma {:induction false} WalkSplits(fs: Fs, current: Path, first: seq<Name>, second: seq<Name>, links: seq<Path>)
    requires |links| <= MAXIMUM_LINKS
    ensures var r := Walk(fs, current, first, links);
            Walk(fs, current, first + second, links) ==
            if r.Resolved? then Walk(fs, r.path, second, r.links) else r
    decreases MAXIMUM_LINKS - |links|, |first|
  {
    if first == [] {
      assert first + second == second;
    } else {
      assert (first + second)[1..] == first[1..] + second;
      var next := current + [first[0]];
      if first[0] == "" || first[0] == DOT {
        WalkSplits(fs, current, first[1..], second, links);
      } else if first[0] == DOTDOT {
        WalkSplits(fs, Parent(current), first[1..], second, links);
      } else if fs(next) == Plain {
        WalkSplits(fs, next, first[1..], second, links);
      } else if fs(next).Link? && |links| < MAXIMUM_LINKS {
        var base := if fs(next).absolute then [] else current;
        assert fs(next).target + (first[1..] + second) == (fs(next).target + first[1..]) + second;
        WalkSplits(fs, base, fs(next).target + first[1..], second, links + [next]);
      }
    }
  }

  /** The worklist refines nested resolution: same links in the same order, same end. */
  lemma {:induction false} WalkIsResolve(fs: Fs, current: Path, components: seq<Name>, links: seq<Path>)
    requires |links| <= MAXIMUM_LINKS
    ensures Walk(fs, current, components, links) == Resolve(fs, current, components, links)
    decreases MAXIMUM_LINKS - |links|, |components|
  {
    if components != [] {
      var rest, next := components[1..], current + [components[0]];
      if components[0] == "" || components[0] == DOT {
        WalkIsResolve(fs, current, rest, links);
      } else if components[0] == DOTDOT {
        WalkIsResolve(fs, Parent(current), rest, links);
      } else if fs(next) == Plain {
        WalkIsResolve(fs, next, rest, links);
      } else if fs(next).Link? && |links| < MAXIMUM_LINKS {
        var base := if fs(next).absolute then [] else current;
        WalkIsResolve(fs, base, fs(next).target, links + [next]);
        WalkSplits(fs, base, fs(next).target, rest, links + [next]);
        var inner := Resolve(fs, base, fs(next).target, links + [next]);
        if inner.Resolved? {
          WalkIsResolve(fs, inner.path, rest, inner.links);
        }
      }
    }
  }

  /** No component of the path is a link. */
  ghost predicate LinkFree(fs: Fs, path: Path) {
    forall p: Path :: p != [] && p <= path ==> fs(p) == Plain
  }

  lemma LinkFreeExtends(fs: Fs, path: Path, name: Name)
    requires LinkFree(fs, path) && fs(path + [name]) == Plain
    ensures LinkFree(fs, path + [name])
  {
    forall p: Path | p != [] && p <= path + [name]
      ensures fs(p) == Plain
    {
      assert p == path + [name] || p <= path;
    }
  }

  lemma LinkFreeParent(fs: Fs, path: Path)
    requires LinkFree(fs, path)
    ensures LinkFree(fs, Parent(path))
  {
    forall p: Path | p != [] && p <= Parent(path)
      ensures fs(p) == Plain
    {
      assert p <= path;
    }
  }

  /**
    Where the walk ends, no link is left; where it gives up, it has followed exactly forty links and
    stands before the forty-first; and every followed path is a link below a link-free directory.
   */
  lemma {:induction false} WalkEnds(fs: Fs, current: Path, pending: seq<Name>, links: seq<Path>)
    requires |links| <= MAXIMUM_LINKS && LinkFree(fs, current)
    requires forall link :: link in links ==> fs(link).Link? && LinkFree(fs, Parent(link))
    ensures var r := Walk(fs, current, pending, links);
            && (forall link :: link in r.links ==> fs(link).Link? && LinkFree(fs, Parent(link)))
            && (r.Resolved? ==> LinkFree(fs, r.path))
            && (!r.Resolved? ==> r.next != [] && LinkFree(fs, Parent(r.next)))
            && (r.TooManyLinks? ==> |r.links| == MAXIMUM_LINKS && fs(r.next).IsLink())
            && (r.Unreadable? ==> |r.links| < MAXIMUM_LINKS && fs(r.next) == UnreadableLink)
            && (r.Absent? ==> fs(r.next) == Missing)
    decreases MAXIMUM_LINKS - |links|, |pending|
  {
    if pending != [] {
      var rest, next := pending[1..], current + [pending[0]];
      assert Parent(next) == current;
      if pending[0] == "" || pending[0] == DOT {
        WalkEnds(fs, current, rest, links);
      } else if pending[0] == DOTDOT {
        LinkFreeParent(fs, current);
        WalkEnds(fs, Parent(current), rest, links);
      } else if fs(next) == Plain {
        LinkFreeExtends(fs, current, pending[0]);
        WalkEnds(fs, next, rest, links);
      } else if fs(next).Link? && |links| < MAXIMUM_LINKS {
        WalkEnds(fs, if fs(next).absolute then [] else current, fs(next).target + rest, links + [next]);
      }
    }
  }

  // ---- Single steps ----

  lemma LinkSteps(fs: Fs, current: Path, name: Name, rest: seq<Name>, links: seq<Path>)
    requires |links| < MAXIMUM_LINKS && IsName(name) && fs(current + [name]).Link?
    ensures var link := fs(current + [name]);
            Walk(fs, current, [name] + rest, links) ==
            Walk(fs, if link.absolute then [] else current, link.target + rest, links + [current + [name]])
  {
    assert ([name] + rest)[1..] == rest;
  }

  lemma PlainSteps(fs: Fs, current: Path, name: Name, rest: seq<Name>, links: seq<Path>)
    requires |links| <= MAXIMUM_LINKS && IsName(name) && fs(current + [name]) == Plain
    ensures Walk(fs, current, [name] + rest, links) == Walk(fs, current + [name], rest, links)
  {
    assert ([name] + rest)[1..] == rest;
  }

  lemma UpStep(fs: Fs, current: Path, rest: seq<Name>, links: seq<Path>)
    requires |links| <= MAXIMUM_LINKS
    ensures Walk(fs, current, [DOTDOT] + rest, links) == Walk(fs, Parent(current), rest, links)
  {
    assert ([DOTDOT] + rest)[1..] == rest;
  }

  lemma WalkStops(fs: Fs, current: Path, links: seq<Path>)
    requires |links| <= MAXIMUM_LINKS
    ensures Walk(fs, current, [], links) == Resolved(links, current)
  {
  }

  // ---- Watching the link parents is enough ----

  /** `after` differs from `before` at most in the targets of links outside the `watched` directories. */
  ghost predicate RetargetedOutside(before: Fs, after: Fs, watched: seq<Path>) {
    forall p: Path ::
      before(p) == after(p) || (before(p).IsLink() && after(p).IsLink() && Parent(p) !in watched)
  }

  lemma {:induction false} LinkParentsHold(links: seq<Path>, link: Path)
    requires link in links
    ensures Parent(link) in LinkParents(links)
  {
    var last := links[|links| - 1];
    if link != last {
      LinkParentsHold(links[..|links| - 1], link);
    }
  }

  /** `LinkParents` lists exactly the parents of the links, and none of them twice. */
  lemma {:induction false} LinkParentsExact(links: seq<Path>)
    ensures forall p :: p in LinkParents(links) <==> exists link :: link in links && Parent(link) == p
    ensures forall i, j :: 0 <= i < j < |LinkParents(links)| ==> LinkParents(links)[i] != LinkParents(links)[j]
  {
    if links != [] {
      var before, last := links[..|links| - 1], links[|links| - 1];
      LinkParentsExact(before);
      assert links == before + [last];
      forall p | p in LinkParents(links)
        ensures exists link :: link in links && Parent(link) == p
      {
        if p == Parent(last) {
          assert last in links;
        } else {
          var link :| link in before && Parent(link) == p;
          assert link in links;
        }
      }
      forall link | link in links
        ensures Parent(link) in LinkParents(links)
      {
        LinkParentsHold(links, link);
      }
    }
  }

  /** Retargeting any links outside the listed directories changes neither the end of the walk nor the list. */
  lemma {:induction false} RetargetOutsideIsInvisible(before: Fs, after: Fs, current: Path, pending: seq<Name>,
                                                      links: seq<Path>)
    requires |links| <= MAXIMUM_LINKS
    requires Walk(before, current, pending, links).Resolved?
    requires RetargetedOutside(before, after, LinkParents(Walk(before, current, pending, links).links))
    ensures Walk(after, current, pending, links) == Walk(before, current, pending, links)
    decreases MAXIMUM_LINKS - |links|, |pending|
  {
    if pending != [] {
      var rest, next := pending[1..], current + [pending[0]];
      var r := Walk(before, current, pending, links);
      if pending[0] == "" || pending[0] == DOT {
        RetargetOutsideIsInvisible(before, after, current, rest, links);
      } else if pending[0] == DOTDOT {
        RetargetOutsideIsInvisible(before, after, Parent(current), rest, links);
      } else if before(next) == Plain {
        RetargetOutsideIsInvisible(before, after, next, rest, links);
      } else {
        assert before(next).Link?;
        assert next in r.links by {
          assert links + [next] <= r.links;
          assert r.links[|links|] == next;
        }
        LinkParentsHold(r.links, next);
        assert after(next) == before(next);
        RetargetOutsideIsInvisible(before, after, if before(next).absolute then [] else current,
                                   before(next).target + rest, links + [next]);
      }
    }
  }

  // ---- The locator's restart loop ----

  predicate LinkAt(fs: Fs, path: Path, i: nat)
    requires i < |path|
  {
    fs(path[..i + 1]).IsLink()
  }

  /** The first component, from `from` on, at which the path is a link; `|path|` if there is none. */
  function FirstLink(fs: Fs, path: Path, from: nat): (i: nat)
    requires from <= |path|
    ensures from <= i <= |path|
    ensures forall j :: from <= j < i ==> !LinkAt(fs, path, j)
    ensures i < |path| ==> LinkAt(fs, path, i)
    decreases |path| - from
  {
    if from == |path| || LinkAt(fs, path, from) then from else FirstLink(fs, path, from + 1)
  }

  /** The path with its link at `i` replaced by the link's target. */
  function Follow(fs: Fs, path: Path, i: nat): Path
    requires i < |path| && fs(path[..i + 1]).Link?
  {
    var link := fs(path[..i + 1]);
    Clean(if link.absolute then [] else path[..i], link.target) + path[i + 1..]
  }

  /** The restart loop as a function; a path without links, existing or not, is its own answer. */
  function Restart(fs: Fs, path: Path, links: seq<Path>): (r: Outcome)
    requires |links| <= MAXIMUM_LINKS
    decreases MAXIMUM_LINKS - |links|
  {
    var i := FirstLink(fs, path, 0);
    if i == |path| then Resolved(links, path)
    else
      var next := path[..i + 1];
      if |links| == MAXIMUM_LINKS then TooManyLinks(links, next)
      else if fs(next).Link? then Restart(fs, Follow(fs, path, i), links + [next])
      else Unreadable(links, next)
  }

  /** `resolvedPathForContainment`. */
  method ResolvedPathForContainment(fs: Fs, absolute: bool, rawComponents: seq<Name>) returns (r: Option<Path>)
    ensures r == if !absolute then None else
                 var outcome := Restart(fs, Clean([], rawComponents), []);
                 if outcome.Resolved? then Some(outcome.path) else None
  {
    if !absolute {
      return None;
    }
    var path := Clean([], rawComponents);
    var followedLinks := 0;
    ghost var links: seq<Path> := [];
    ghost var answer := Restart(fs, path, []);
    while true
      invariant followedLinks == |links| <= MAXIMUM_LINKS
      invariant Restart(fs, path, links) == answer
      decreases MAXIMUM_LINKS - followedLinks
    {
      var current: Path := [];
      var followedLink := false;
      var index := 0;
      while index < |path|
        invariant 0 <= index <= |path|
        invariant current == path[..index]
        invariant FirstLink(fs, path, index) == FirstLink(fs, path, 0)
      {
        current := current + [path[index]];
        assert current == path[..index + 1];
        if !fs(current).IsLink() {
          index := index + 1;
          continue;
        }
        assert FirstLink(fs, path, 0) == index;
        if followedLinks == MAXIMUM_LINKS || fs(current) == UnreadableLink {
          return None;
        }
        var target := Clean(if fs(current).absolute then [] else path[..index], fs(current).target);
        target := AppendRest(target, path, index + 1);
        assert target == Follow(fs, path, index);
        links := links + [current];
        path := target;
        followedLinks := followedLinks + 1;
        followedLink := true;
        break;
      }
      if !followedLink {
        return Some(path);
      }
    }
  }

  /** The locator's inner loop: the components behind the link, put one by one behind its target. */
  method AppendRest(target: Path, components: Path, from: nat) returns (path: Path)
    requires from <= |components|
    ensures path == target + components[from..]
  {
    path := target;
    var index := from;
    while index < |components|
      invariant from <= index <= |components|
      invariant path == target + components[from..index]
    {
      path := path + [components[index]];
      index := index + 1;
    }
  }

  // ---- The two algorithms agree ----

  /** Every `..` comes before every name, so that cleaning it away lexically is harmless. */
  predicate DotDotsLead(components: seq<Name>) {
    forall i, j :: 0 <= i < j < |components| && components[j] == DOTDOT ==> !IsName(components[i])
  }

  ghost predicate TargetsAreDirect(fs: Fs) {
    forall p: Path :: fs(p).Link? ==> DotDotsLead(fs(p).target)
  }

  /** Below a missing path everything is missing. */
  ghost predicate MissingIsClosed(fs: Fs) {
    forall p: Path, q: Path :: fs(p) == Missing && p <= q ==> fs(q) == Missing
  }

  lemma {:induction false} CleanSplits(base: Path, first: seq<Name>, second: seq<Name>)
    ensures Clean(base, first + second) == Clean(Clean(base, first), second)
    decreases |first|
  {
    if first == [] {
      assert first + second == second;
    } else {
      assert (first + second)[1..] == first[1..] + second;
      CleanSplits(if first[0] == DOTDOT then Parent(base) else if IsName(first[0]) then base + [first[0]] else base,
                  first[1..], second);
    }
  }

  /** Without `..`, cleaning appends: the same names, whatever the base. */
  lemma {:induction false} CleanAppends(base: Path, components: seq<Name>)
    requires DOTDOT !in components
    ensures Clean(base, components) == base + Clean([], components)
    decreases |components|
  {
    if components != [] {
      if IsName(components[0]) {
        CleanAppends(base + [components[0]], components[1..]);
        CleanAppends([components[0]], components[1..]);
        assert [] + [components[0]] == [components[0]];
      } else {
        CleanAppends(base, components[1..]);
      }
    }
  }

  /** Without `..`, a path leads where its cleaned form leads. */
  lemma {:induction false} WalkOfClean(fs: Fs, current: Path, components: seq<Name>, links: seq<Path>)
    requires |links| <= MAXIMUM_LINKS && DOTDOT !in components
    ensures Walk(fs, current, components, links) == Walk(fs, current, Clean([], components), links)
    decreases MAXIMUM_LINKS - |links|, |components|
  {
    if components != [] {
      var name, rest := components[0], components[1..];
      if IsName(name) {
        var next, cleaned := current + [name], Clean([], rest);
        CleanAppends([] + [name], rest);
        assert Clean([], components) == [name] + cleaned && components == [name] + rest;
        if fs(next) == Plain {
          PlainSteps(fs, current, name, rest, links);
          PlainSteps(fs, current, name, cleaned, links);
          WalkOfClean(fs, next, rest, links);
        } else if fs(next).Link? && |links| < MAXIMUM_LINKS {
          LinkSteps(fs, current, name, rest, links);
          LinkSteps(fs, current, name, cleaned, links);
          var base, target := if fs(next).absolute then [] else current, fs(next).target;
          WalkSplits(fs, base, target, rest, links + [next]);
          WalkSplits(fs, base, target, cleaned, links + [next]);
          var r := Walk(fs, base, target, links + [next]);
          if r.Resolved? {
            WalkOfClean(fs, r.path, rest, r.links);
          }
        }
      } else {
        WalkOfClean(fs, current, rest, links);
      }
    }
  }

  /** From the root, a path in which every `..` comes before every name leads where its cleaned form leads. */
  lemma {:induction false} WalkOfDirect(fs: Fs, components: seq<Name>, links: seq<Path>)
    requires |links| <= MAXIMUM_LINKS && DotDotsLead(components)
    ensures Walk(fs, [], components, links) == Walk(fs, [], Clean([], components), links)
    decreases |components|
  {
    if components != [] {
      var rest := components[1..];
      assert forall j :: 0 <= j < |rest| ==> rest[j] == components[j + 1];
      if IsName(components[0]) {
        assert forall j :: 0 <= j < |components| ==> components[j] != DOTDOT;
        WalkOfClean(fs, [], components, links);
      } else {
        WalkOfDirect(fs, rest, links);
      }
    }
  }

  /** A scan that starts with a link-free prefix stops at the first link behind it. */
  lemma {:induction false} FirstLinkSkips(fs: Fs, path: Path, from: nat, upto: nat)
    requires from <= upto <= |path|
    requires forall j :: from <= j < upto ==> !LinkAt(fs, path, j)
    ensures FirstLink(fs, path, from) == FirstLink(fs, path, upto)
    decreases upto - from
  {
    if from < upto {
      FirstLinkSkips(fs, path, from + 1, upto);
    }
  }

  lemma FirstLinkBehind(fs: Fs, prefix: Path, path: Path)
    requires LinkFree(fs, prefix) && prefix <= path
    ensures FirstLink(fs, path, 0) == FirstLink(fs, path, |prefix|)
  {
    forall j | 0 <= j < |prefix|
      ensures !LinkAt(fs, path, j)
    {
      assert path[..j + 1] <= prefix;
    }
    FirstLinkSkips(fs, path, 0, |prefix|);
  }

  /** Once a name is pending, no `..` is: what cleaning makes of the rest no longer depends on the base. */
  lemma NamePending(current: Path, pending: seq<Name>)
    requires pending != [] && IsName(pending[0]) && DotDotsLead(pending)
    ensures DOTDOT !in pending[1..]
    ensures Clean(current, pending) == current + [pending[0]] + Clean([], pending[1..])
  {
    assert forall j :: 0 <= j < |pending[1..]| ==> pending[1..][j] == pending[j + 1];
    CleanAppends(current + [pending[0]], pending[1..]);
  }

  /** The restart loop, standing before a missing path behind a link-free directory, finds no link. */
  lemma RestartAtMissing(fs: Fs, current: Path, next: Path, path: Path, links: seq<Path>)
    requires |links| <= MAXIMUM_LINKS && MissingIsClosed(fs) && LinkFree(fs, current)
    requires next != [] && current == Parent(next) && next <= path && fs(next) == Missing
    ensures Restart(fs, path, links) == Resolved(links, path)
  {
    FirstLinkBehind(fs, current, path);
    forall j | |current| <= j < |path|
      ensures !LinkAt(fs, path, j)
    {
      assert next <= path[..j + 1];
    }
    FirstLinkSkips(fs, path, |current|, |path|);
  }

  /** The restart loop finds the link that the walk stands before, and replaces it as the walk does. */
  lemma RestartAtLink(fs: Fs, current: Path, name: Name, rest: seq<Name>, links: seq<Path>)
    requires |links| < MAXIMUM_LINKS && LinkFree(fs, current) && DOTDOT !in rest
    requires fs(current + [name]).Link?
    ensures var link := fs(current + [name]);
            Restart(fs, current + [name] + Clean([], rest), links) ==
            Restart(fs, Clean(if link.absolute then [] else current, link.target + rest), links + [current + [name]])
  {
    var next, tail := current + [name], Clean([], rest);
    var path := next + tail;
    var base := if fs(next).absolute then [] else current;
    assert path[..|current|] == current && path[..|current| + 1] == next && path[|current| + 1..] == tail;
    FirstLinkBehind(fs, current, path);
    assert LinkAt(fs, path, |current|);
    CleanSplits(base, fs(next).target, rest);
    CleanAppends(Clean(base, fs(next).target), rest);
    assert Follow(fs, path, |current|) == Clean(base, fs(next).target + rest);
  }

  /**
    The worklist walk and the restart loop follow the same links in the same order and give up at the
    same place.  They differ only on a missing path: the walk reports it, the restart loop answers with
    the link-free path it has.
   */
  lemma {:induction false} WalkAgreesWithRestart(fs: Fs, current: Path, pending: seq<Name>, links: seq<Path>)
    requires |links| <= MAXIMUM_LINKS
    requires TargetsAreDirect(fs) && MissingIsClosed(fs)
    requires LinkFree(fs, current) && DotDotsLead(pending)
    ensures Agree(Walk(fs, current, pending, links), Restart(fs, Clean(current, pending), links))
    decreases MAXIMUM_LINKS - |links|, |pending|
  {
    if pending == [] {
      FirstLinkBehind(fs, current, current);
    } else {
      var name, rest := pending[0], pending[1..];
      assert DotDotsLead(rest);
      if name == "" || name == DOT {
        WalkAgreesWithRestart(fs, current, rest, links);
      } else if name == DOTDOT {
        LinkFreeParent(fs, current);
        WalkAgreesWithRestart(fs, Parent(current), rest, links);
      } else {
        var next := current + [name];
        NamePending(current, pending);
        var path := next + Clean([], rest);
        assert path[..|next|] == next;
        if fs(next) == Plain {
          LinkFreeExtends(fs, current, name);
          CleanAppends(next, rest);
          WalkAgreesWithRestart(fs, next, rest, links);
        } else if fs(next) == Missing {
          RestartAtMissing(fs, current, next, path, links);
        } else if fs(next).Link? && |links| < MAXIMUM_LINKS {
          RestartAtLink(fs, current, name, rest, links);
          assert DotDotsLead(fs(next).target + rest);
          WalkAgreesWithRestart(fs, if fs(next).absolute then [] else current, fs(next).target + rest, links + [next]);
        } else {
          FirstLinkBehind(fs, current, path);
          assert path[..|current| + 1] == next;
          assert LinkAt(fs, path, |current|);
        }
      }
    }
  }

  /** Two outcomes with the same links, equal except that a walk may end at a missing path. */
  predicate Agree(walk: Outcome, restart: Outcome) {
    && restart.links == walk.links
    && if walk.Absent? then restart.Resolved? && walk.next <= restart.path else restart == walk
  }

  lemma {:induction false} CleanIsNames(base: Path, components: seq<Name>)
    requires forall n :: n in base ==> IsName(n)
    ensures forall n :: n in Clean(base, components) ==> IsName(n)
    decreases |components|
  {
    if components != [] {
      CleanIsNames(if components[0] == DOTDOT then Parent(base) else if IsName(components[0]) then base + [components[0]] else base,
                   components[1..]);
    }
  }

  lemma {:induction false} CleanOfNames(base: Path, names: seq<Name>)
    requires forall n :: n in names ==> IsName(n)
    ensures Clean(base, names) == base + names
    decreases |names|
  {
    if names != [] {
      assert names[0] in names;
      CleanOfNames(base + [names[0]], names[1..]);
    }
  }

  /**
    The main result, for any path either method is given: both resolve it to the same link-free path,
    or both give up before the same link, or the path does not exist.
   */
  lemma ResolutionsAgree(fs: Fs, rawComponents: seq<Name>)
    requires TargetsAreDirect(fs) && MissingIsClosed(fs)
    ensures var w := Walk(fs, [], Clean([], rawComponents), []);
            var r := Restart(fs, Clean([], rawComponents), []);
            && Agree(w, r)
            && (w.Absent? ==> fs(w.next) == Missing)
            && (w.Resolved? ==> LinkFree(fs, r.path))
  {
    hide Clean, Walk, Restart;
    var path := Clean([], rawComponents);
    CleanIsNames([], rawComponents);
    CleanOfNames([], path);
    assert [] + path == path;
    assert forall i :: 0 <= i < |path| ==> path[i] in path;
    WalkAgreesWithRestart(fs, [], path, []);
    WalkEnds(fs, [], path, []);
  }
}
