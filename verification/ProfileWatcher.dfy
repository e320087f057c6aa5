/** The watcher contract the catalog relies on: one callback at a time, and none from the past. */
module ProfileWatcher {
  import opened Bytes
  import opened Wrappers

  /** Callbacks are known by number; a number is never reused. */
  type Callback = nat

  class Watcher {
    const clean: Text -> Option<Text>      // a path made clean and absolute, if it can be
    var generation: nat
    var callback: Option<Callback>
    var watched: set<Text>

    constructor (clean: Text -> Option<Text>)
      ensures this.clean == clean && callback == None && watched == {}
    {
      this.clean, generation, callback, watched := clean, 0, None, {};
    }

    /** `clear`: nothing is watched, and every signal handler installed so far is outdated. */
    method Clear()
      modifies this
      ensures callback == None && watched == {} && generation == old(generation) + 1
    {
      generation := generation + 1;
      callback := None;
      watched := {};
    }

    ghost predicate AreClean(paths: seq<Text>) {
      forall i :: 0 <= i < |paths| ==> clean(paths[i]) == Some(paths[i])
    }

    /** What watching these paths watches: each made clean. */
    ghost function Cleaned(paths: seq<Text>): set<Text> {
      set i | 0 <= i < |paths| && clean(paths[i]).Some? :: clean(paths[i]).value
    }

    lemma CleanStays(paths: seq<Text>)
      requires AreClean(paths)
      ensures Cleaned(paths) == set p | p in paths
    {
      forall p | p in paths
        ensures p in Cleaned(paths)
      {
        var i :| 0 <= i < |paths| && paths[i] == p;
        assert clean(paths[i]) == Some(p);
      }
    }

    /** `replacePaths` with a callback: all paths, made clean, are watched for it from now on, or nothing is watched at all. */
    method ReplacePaths(paths: seq<Text>, newCallback: Callback, flawless: bool) returns (installed: bool)
      modifies this
      ensures generation > old(generation)
      ensures installed ==> callback == Some(newCallback) && watched == Cleaned(paths)
      ensures installed ==> paths != [] && forall i :: 0 <= i < |paths| ==> clean(paths[i]).Some?
      ensures !installed ==> callback == None && watched == {}
      ensures flawless && paths != [] && (forall i :: 0 <= i < |paths| ==> clean(paths[i]).Some?) ==> installed
    {
      Clear();
      if paths == [] {
        return false;
      }
      var normalizedPaths: seq<Text> := [];
      var seenPaths: set<Text> := {};
      for k := 0 to |paths|
        invariant seenPaths == Cleaned(paths[..k])
        invariant forall path :: path in normalizedPaths <==> path in seenPaths
        invariant forall i :: 0 <= i < k ==> clean(paths[i]).Some?
        invariant callback == None && watched == {} && generation > old(generation)
      {
        var normalized := clean(paths[k]);
        if normalized == None {
          return false;
        }
        assert Cleaned(paths[..k + 1]) == Cleaned(paths[..k]) + {normalized.value} by { OneMoreCleaned(paths, k); }
        if normalized.value !in seenPaths {
          seenPaths := seenPaths + {normalized.value};
          normalizedPaths := normalizedPaths + [normalized.value];
        }
      }
      assert paths[..|paths|] == paths;
      var addingFails: bool := *;
      if addingFails && !flawless {
        Clear();
        return false;
      }
      watched := set path | path in normalizedPaths;
      callback := Some(newCallback);
      return true;
    }

    lemma OneMoreCleaned(paths: seq<Text>, k: nat)
      requires k < |paths| && clean(paths[k]).Some?
      ensures Cleaned(paths[..k + 1]) == Cleaned(paths[..k]) + {clean(paths[k]).value}
    {
      var more := paths[..k + 1];
      assert more[k] == paths[k];
      forall i | 0 <= i < k && clean(paths[i]).Some?
        ensures clean(paths[i]).value in Cleaned(more)
      {
        assert more[i] == paths[i];
      }
      forall p | p in Cleaned(more)
        ensures p in Cleaned(paths[..k]) + {clean(paths[k]).value}
      {
        var i :| 0 <= i < |more| && clean(more[i]) == Some(p);
        assert i < k ==> paths[..k][i] == more[i];
      }
    }

    /** A change signal reaches the handler that was installed at `installedGeneration`: which callback runs? */
    method OnChanged(installedGeneration: nat) returns (run: Option<Callback>)
      ensures run == if installedGeneration == generation then callback else None
    {
      run := None;
      if installedGeneration == generation && callback.Some? {
        run := callback;
      }
    }

    /**
      A handler from before any clearing or replacing is inert: a signal that reaches it afterwards runs
      nothing, however often the watcher was cleared and given paths in between.
     */
    method RunMany(replacements: seq<Option<(seq<Text>, Callback)>>, installedGeneration: nat)
      returns (run: Option<Callback>)
      requires replacements != [] && installedGeneration <= generation
      modifies this
      ensures run == None
    {
      for k := 0 to |replacements|
        invariant generation >= old(generation) && (k > 0 ==> generation > old(generation))
      {
        match replacements[k]
        case None => Clear();
        case Some((paths, newCallback)) =>
          var installed := ReplacePaths(paths, newCallback, false);
      }
      run := OnChanged(installedGeneration);
    }
  }
}
