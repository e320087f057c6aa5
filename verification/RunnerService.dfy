/**
  The D-Bus service over registry, catalog and launcher: what gets started, from which list, and with
  which activation token.
 */
module RunnerService {
  import opened Bytes
  import opened InstanceRegistry
  import opened Instances
  import opened Matcher
  import opened ProfileCatalog
  import ProfileLoading
  import opened ProfileRepository
  import opened ProfileTypes
  import opened Wrappers

  const NUL: Byte := 0x00

  const NEW_ACTION_ID: Text := Ascii("action:new")
  const ACTION_PREFIX: Text := Ascii("action:")
  const ERROR_PREFIX: Text := Ascii("error:")
  const CONNECT_ARGUMENT: Text := Ascii("--connect")
  const NEW_ARGUMENT: Text := Ascii("--new")

  /** A started process; an empty token stands for an environment without one. */
  datatype Launch = Launch(program: Text, arguments: seq<Text>, token: Text)

  datatype Reply =
    | Nothing
    | Creation
    | NoInstance
    | NoProfiles
    | UnreadableReply
    | Internal
    | Profiles(matches: seq<SearchMatch>)

  /** The calls and timer events the service sees, with what a run asks of the file system. */
  datatype Call =
    | MatchCall(query: Text)
    | ActionsCall
    | RunCall(matchId: Text, actionId: Text, directoryMatches: bool, identityOf: Text -> Option<Text>, starts: bool)
    | TeardownCall
    | ConfigCall(scan: Scan)
    | SetActivationTokenCall(token: Text)
    | IdleExpired

  /**
    A call and what came of it: for a search the selection at that moment, what `records` answered if it was
    asked, and the reply; for a run the selection, the clean list, and the launch.
   */
  datatype Past =
    | Matched(query: Text, snapshot: Snapshot, given: Option<Given>, reply: Reply)
    | Ran(call: Call, snapshot: Snapshot, clean: Option<Given>, launched: Option<Launch>)
    | Other(call: Call)

  ghost function CallOf(past: Past): Call {
    if past.Matched? then MatchCall(past.query) else past.call
  }

  /** The calls that come over the bus, without the events of the timer. */
  ghost function FromBus(calls: seq<Call>): seq<Call> {
    if calls == [] then []
    else
      var last := calls[|calls| - 1];
      FromBus(calls[..|calls| - 1]) + if last.IdleExpired? then [] else [last]
  }

  ghost function CallsOf(history: seq<Past>): seq<Call> {
    seq(|history|, i requires 0 <= i < |history| => CallOf(history[i]))
  }

  /** What was started, in order. */
  ghost function LaunchesOf(history: seq<Past>): seq<Launch> {
    if history == [] then []
    else
      var last := history[|history| - 1];
      LaunchesOf(history[..|history| - 1]) + if last.Ran? && last.launched.Some? then [last.launched.value] else []
  }

  /** What `records` answered, in order. */
  ghost function GivensOf(history: seq<Past>): seq<Given> {
    if history == [] then []
    else
      var last := history[|history| - 1];
      GivensOf(history[..|history| - 1]) + if last.Matched? && last.given.Some? then [last.given.value] else []
  }

  /** What `records` answered last. */
  ghost function LatestGiven(history: seq<Past>): Option<Given> {
    var givens := GivensOf(history);
    if givens == [] then None else Some(givens[|givens| - 1])
  }

  /** The token that a run at the end of `history` may use: the last one set, unless something cleared it. */
  ghost function LatestToken(history: seq<Past>): Text {
    if history == [] then []
    else
      match CallOf(history[|history| - 1])
      case SetActivationTokenCall(token) => token
      case ActionsCall => LatestToken(history[..|history| - 1])
      case _ => []
  }

  /** A token that survives to the end of `history` was set after everything that clears tokens. */
  lemma {:induction false} TokenWasSetSince(history: seq<Past>, k: nat)
    requires k < |history| && CallOf(history[k]).RunCall? && LatestToken(history) != []
    ensures exists m :: k < m < |history| && CallOf(history[m]) == SetActivationTokenCall(LatestToken(history))
    decreases |history|
  {
    var last := |history| - 1;
    if CallOf(history[last]).SetActivationTokenCall? {
      assert CallOf(history[last]) == SetActivationTokenCall(LatestToken(history));
    } else {
      TokenWasSetSince(history[..last], k);
      var m :| k < m < last && CallOf(history[..last][m]) == SetActivationTokenCall(LatestToken(history));
      assert CallOf(history[m]) == SetActivationTokenCall(LatestToken(history));
    }
  }

  /** A run started what it started with the token that the calls before it left. */
  ghost predicate HadToken(history: seq<Past>, i: nat)
    requires i < |history|
  {
    var past := history[i];
    past.Ran? ==> past.call.RunCall? && (past.launched.Some? ==> past.launched.value.token == LatestToken(history[..i]))
  }

  /** The token is the one the history leaves, now and at every run so far. */
  ghost predicate TokensAreRight(token: Text, history: seq<Past>, launches: seq<Launch>) {
    && token == LatestToken(history) && launches == LaunchesOf(history)
    && forall i :: 0 <= i < |history| ==> HadToken(history, i)
  }

  /** Over every sequence of calls a token reaches at most one launch: between two launches with a token, one was set. */
  lemma TokensAreUsedOnce(token: Text, history: seq<Past>, launches: seq<Launch>, i: nat, j: nat)
    requires TokensAreRight(token, history, launches) && i < j < |history|
    requires history[i].Ran? && history[i].launched.Some? && history[j].Ran? && history[j].launched.Some?
    requires history[j].launched.value.token != []
    ensures exists m :: i < m < j && CallOf(history[m]) == SetActivationTokenCall(history[j].launched.value.token)
  {
    hide LatestToken;
    var before := history[..j];
    assert HadToken(history, i) && HadToken(history, j) && before[i] == history[i];
    TokenWasSetSince(before, i);
    var m :| i < m < |before| && CallOf(before[m]) == SetActivationTokenCall(LatestToken(before));
    assert history[m] == before[m];
  }

  lemma TokenIsLatest(token: Text, history: seq<Past>, launches: seq<Launch>)
    requires TokensAreRight(token, history, launches)
    ensures token == LatestToken(history)
  {
  }

  /** The token after one more call. */
  function TokenAfter(token: Text, call: Call): Text {
    match call
    case SetActivationTokenCall(t) => t
    case ActionsCall => token
    case _ => []
  }

  lemma TokenGrows(history: seq<Past>, past: Past)
    ensures LatestToken(history + [past]) == TokenAfter(LatestToken(history), CallOf(past))
    ensures LaunchesOf(history + [past]) ==
            LaunchesOf(history) + if past.Ran? && past.launched.Some? then [past.launched.value] else []
    ensures GivensOf(history + [past]) ==
            GivensOf(history) + if past.Matched? && past.given.Some? then [past.given.value] else []
  {
    assert (history + [past])[..|history|] == history;
  }

  lemma HistoryGrows(token: Text, history: seq<Past>, launches: seq<Launch>, past: Past)
    requires TokensAreRight(token, history, launches)
    requires past.Ran? ==> past.call.RunCall? && (past.launched.Some? ==> past.launched.value.token == token)
    ensures TokensAreRight(TokenAfter(token, CallOf(past)), history + [past],
                           launches + if past.Ran? && past.launched.Some? then [past.launched.value] else [])
  {
    hide CallOf, LatestToken, LaunchesOf;
    var more := history + [past];
    TokenGrows(history, past);
    forall i | 0 <= i < |more|
      ensures HadToken(more, i)
    {
      assert more[..i] == history[..i];
      if i < |history| {
        assert HadToken(history, i);
      } else {
        assert more[..i] == history;
      }
    }
  }

  lemma NothingCalled()
    ensures FromBus(CallsOf([])) == FromBus([])
  {
  }

  lemma OneMoreCall(calls: seq<Call>, call: Call)
    ensures FromBus(calls + [call]) == FromBus(calls) + if call.IdleExpired? then [] else [call]
  {
    assert (calls + [call])[..|calls|] == calls;
  }

  lemma BusGrows(history: seq<Past>, past: Past, calls: seq<Call>)
    requires FromBus(CallsOf(history)) == FromBus(calls)
    ensures FromBus(CallsOf(history + [past])) == FromBus(calls + [CallOf(past)])
  {
    hide FromBus, CallOf;
    assert CallsOf(history + [past]) == CallsOf(history) + [CallOf(past)];
    OneMoreCall(CallsOf(history), CallOf(past));
    OneMoreCall(calls, CallOf(past));
  }

  // ---- Pure parts ----

  /** Exactly one instance has the selected id. */
  ghost predicate IsSelected(snapshot: Snapshot, instance: Instance) {
    && snapshot.selectedId != [] && instance.id == snapshot.selectedId
    && exists k :: 0 <= k < |snapshot.instances| && snapshot.instances[k] == instance
         && forall m :: 0 <= m < |snapshot.instances| && snapshot.instances[m].id == snapshot.selectedId ==> m == k
  }

  ghost predicate SelectsOne(snapshot: Snapshot) {
    exists instance :: IsSelected(snapshot, instance)
  }

  /** `selectedInstance`. */
  method SelectedInstance(snapshot: Snapshot) returns (r: Option<Instance>)
    ensures r.Some? ==> IsSelected(snapshot, r.value)
    ensures r == None ==> forall instance :: !IsSelected(snapshot, instance)
  {
    if snapshot.selectedId == [] {
      return None;
    }
    r := None;
    ghost var at := 0;
    for k := 0 to |snapshot.instances|
      invariant r == None ==> forall m :: 0 <= m < k ==> snapshot.instances[m].id != snapshot.selectedId
      invariant r.Some? ==> 0 <= at < k && snapshot.instances[at] == r.value && r.value.id == snapshot.selectedId
                            && forall m :: 0 <= m < k && snapshot.instances[m].id == snapshot.selectedId ==> m == at
    {
      if snapshot.instances[k].id != snapshot.selectedId {
        continue;
      }
      if r.Some? {
        return None;
      }
      r, at := Some(snapshot.instances[k]), k;
    }
  }

  predicate IsHexDigit(b: Byte) { (0x30 <= b <= 0x39) || (0x61 <= b <= 0x66) }

  /** `isOpaqueProfileId`. */
  predicate IsOpaqueProfileId(id: Text) {
    |id| == 64 && forall i :: 0 <= i < |id| ==> IsHexDigit(id[i])
  }

  /** An id is 64 digits to the base 16, with small letters. */
  lemma OpaqueIdExactly(id: Text)
    ensures IsOpaqueProfileId(id) <==> |id| == 64 && forall b :: b in id ==> b in Ascii("0123456789abcdef")
  {
    forall b: Byte
      ensures IsHexDigit(b) <==> b in Ascii("0123456789abcdef")
    {
      HexDigits(b);
    }
    assert |id| == 64 && (forall b :: b in id ==> IsHexDigit(b)) ==> forall i :: 0 <= i < |id| ==> id[i] in id;
  }

  lemma HexDigits(b: Byte)
    ensures IsHexDigit(b) <==> b in Ascii("0123456789abcdef")
  {
    var digits := Ascii("0123456789abcdef");
    assert forall i :: 0 <= i < 10 ==> digits[i] as int == 0x30 + i;
    assert forall i :: 10 <= i < 16 ==> digits[i] as int == 0x57 + i;
    if IsHexDigit(b) {
      var i := if b <= 0x39 then b as int - 0x30 else b as int - 0x61 + 10;
      assert digits[i] == b;
    }
  }

  predicate IsAbsolute(path: Text) { path != [] && path[0] == SLASH }

  /** What `launch` demands of program, arguments and token. */
  predicate IsLaunchable(l: Launch) {
    && IsAbsolute(l.program) && NUL !in l.program && NUL !in l.token
    && forall i :: 0 <= i < |l.arguments| ==> NUL !in l.arguments[i]
  }

  /** The program is an absolute path, and nothing that is passed on has a NUL. */
  lemma LaunchableExactly(l: Launch)
    ensures IsLaunchable(l) <==>
              && (exists rest :: l.program == Ascii("/") + rest) && 0 !in l.program && 0 !in l.token
              && forall argument: Text :: argument in l.arguments ==> 0 !in argument
  {
    assert Ascii("/") == [SLASH];
    assert IsAbsolute(l.program) ==> l.program == Ascii("/") + l.program[1..];
    assert (forall argument: Text :: argument in l.arguments ==> 0 !in argument) ==>
        forall i :: 0 <= i < |l.arguments| ==> l.arguments[i] in l.arguments;
  }

  // ---- What is shown and what is started ----

  /** What is shown are the elements of `ranked` that have an opaque id, each as often as there, in their order. */
  ghost predicate AreThoseWithId(ranked: seq<SearchMatch>, shown: seq<SearchMatch>) {
    exists at: seq<nat> :: ArePlaces(ranked, shown, at)
  }

  /** The elements shown are at these places, which are those of all elements that have an opaque id. */
  ghost predicate ArePlaces(ranked: seq<SearchMatch>, shown: seq<SearchMatch>, at: seq<nat>) {
    && |at| == |shown| && (forall i, j :: 0 <= i < j < |at| ==> at[i] < at[j])
    && (forall i :: 0 <= i < |at| ==> at[i] < |ranked| && shown[i] == ranked[at[i]])
    && forall k :: 0 <= k < |ranked| ==> (k in at <==> ranked[k].record.opaqueId != [])
  }

  /** What is shown for a list of records: those matches that have an opaque id, in their order. */
  ghost predicate Shows(fold: Fold, records: seq<ProfileRecord>, tokens: seq<Text>, shown: seq<SearchMatch>) {
    exists ranked :: (if [] in tokens then ranked == [] else IsRanking(fold, records, tokens, ranked)) && AreThoseWithId(ranked, shown)
  }

  /** Every record of the list that has an id and matches the words is shown, with its relevance, and nothing else is. */
  lemma ShownExactly(fold: Fold, records: seq<ProfileRecord>, tokens: seq<Text>, shown: seq<SearchMatch>,
                     m: SearchMatch)
    requires Shows(fold, records, tokens, shown)
    ensures m in shown <==> [] !in tokens && m.record.opaqueId != [] && IsMatch(fold, records, tokens, m)
  {
    hide IsMatch;
    var ranked :| (if [] in tokens then ranked == [] else IsRanking(fold, records, tokens, ranked)) && AreThoseWithId(ranked, shown);
    var at: seq<nat> :| ArePlaces(ranked, shown, at);
    if m in shown {
      var i :| 0 <= i < |shown| && shown[i] == m;
      assert at[i] in at && ranked[at[i]] == m;
    }
    if m in ranked && m.record.opaqueId != [] {
      var k :| 0 <= k < |ranked| && ranked[k] == m;
      assert k in at;
      var i :| 0 <= i < |at| && at[i] == k;
      assert shown[i] == m;
    }
  }

  /** The reply to a search for some words: from what `records` answered for the selected instance, if there is one. */
  ghost predicate IsLookedUp(fold: Fold, tokens: seq<Text>, snapshot: Snapshot, given: Option<Given>, reply: Reply) {
    if forall instance :: !IsSelected(snapshot, instance) then given == None && reply == NoInstance
    else
      && given.Some? && given.value.instance == snapshot.selectedId
      && match ResultOf(given.value)
         case Threw => reply == Internal
         case Error(NoDirectory) => reply == NoProfiles
         case Error(UnreadableProfiles) => reply == UnreadableReply
         case Answer(records) => reply.Profiles? && Shows(fold, records, tokens, reply.matches)
  }

  /** The reply to a query. */
  ghost predicate IsReply(fold: Fold, isSpace: Byte -> bool, query: Text, snapshot: Snapshot, given: Option<Given>,
                          reply: Reply)
  {
    match Parsed(fold, isSpace, query)
    case Ignore => given == None && reply == Nothing
    case Create => given == None && reply == Creation
    case Lookup(tokens) => IsLookedUp(fold, tokens, snapshot, given, reply)
  }

  /** Of the answered list, exactly the records that have an id and match the words of the query are shown. */
  ghost predicate ShowsAllMatches(fold: Fold, isSpace: Byte -> bool, query: Text, given: Option<Given>,
                                  shown: seq<SearchMatch>)
  {
    && given.Some? && ResultOf(given.value).Answer?
    && ShowsAllOf(fold, isSpace, query, ResultOf(given.value).records, shown)
  }

  /** Of these records, exactly those that have an id and match the words of the query are shown. */
  ghost predicate ShowsAllOf(fold: Fold, isSpace: Byte -> bool, query: Text, records: seq<ProfileRecord>,
                             shown: seq<SearchMatch>)
  {
    && Parsed(fold, isSpace, query).Lookup?
    && var tokens := Parsed(fold, isSpace, query).tokens;
       forall m :: m in shown <==> [] !in tokens && m.record.opaqueId != [] && IsMatch(fold, records, tokens, m)
  }

  lemma RepliesShowAllMatches(fold: Fold, isSpace: Byte -> bool, query: Text, snapshot: Snapshot, given: Option<Given>,
                              reply: Reply)
    requires IsReply(fold, isSpace, query, snapshot, given, reply) && reply.Profiles?
    ensures ShowsAllMatches(fold, isSpace, query, given, reply.matches)
  {
    hide IsMatch, IsSelected, Shows, Parsed;
    var records, tokens := ResultOf(given.value).records, Parsed(fold, isSpace, query).tokens;
    forall m
      ensures m in reply.matches <==> [] !in tokens && m.record.opaqueId != [] && IsMatch(fold, records, tokens, m)
    {
      ShownExactly(fold, records, tokens, reply.matches, m);
    }
  }

  /** The launch opens a new connection with the selected instance. */
  ghost predicate Creates(snapshot: Snapshot, l: Launch, token: Text) {
    exists instance ::
      && IsSelected(snapshot, instance)
      && l == Launch(instance.executable, instance.launcherPrefix + [Ascii("--new")], token)
  }

  /** The launch connects to `record` with the selected instance. */
  ghost predicate Connects(snapshot: Snapshot, l: Launch, record: ProfileRecord, token: Text) {
    exists instance ::
      && IsSelected(snapshot, instance)
      && l == Launch(instance.executable, instance.launcherPrefix + [Ascii("--connect"), record.launchPath], token)
      && IsAbsolute(record.launchPath)
  }

  /** The launch connects to the record of the list, which is for the selected instance, that the id resolves to. */
  ghost predicate IsConnection(opaqueProfileId: (Text, Text) -> Text, call: Call, snapshot: Snapshot,
                               list: Option<(Id, seq<ProfileRecord>)>, token: Text, l: Launch)
    requires call.RunCall?
  {
    list.Some? && list.value.0 == snapshot.selectedId &&
    exists record ::
      && Connects(snapshot, l, record, token)
      && IsConnectable(list.value.0, list.value.1, call.matchId, call.directoryMatches, call.identityOf, opaqueProfileId, record)
  }

  /** What a run is to start: a new connection window, or a connection to the profile that the id resolves to. */
  ghost predicate IsDue(opaqueProfileId: (Text, Text) -> Text, call: Call, snapshot: Snapshot,
                        list: Option<(Id, seq<ProfileRecord>)>, token: Text, l: Launch)
    requires call.RunCall?
  {
    && call.actionId == [] && IsLaunchable(l)
    && (|| (call.matchId == Ascii("action:new") && Creates(snapshot, l, token))
        || (IsOpaqueProfileId(call.matchId) && IsConnection(opaqueProfileId, call, snapshot, list, token, l)))
  }

  function ListOf(clean: Option<Given>): Option<(Id, seq<ProfileRecord>)> {
    if clean.Some? && clean.value.FromClean? then Some((clean.value.instance, clean.value.records)) else None
  }

  /** What is due is started, unless its start fails, and nothing else. */
  ghost predicate IsStarted(opaqueProfileId: (Text, Text) -> Text, call: Call, snapshot: Snapshot,
                            list: Option<(Id, seq<ProfileRecord>)>, token: Text, launched: Option<Launch>)
    requires call.RunCall?
  {
    && (launched.Some? ==> call.starts && IsDue(opaqueProfileId, call, snapshot, list, token, launched.value))
    && (launched == None && call.starts ==> forall l :: !IsDue(opaqueProfileId, call, snapshot, list, token, l))
  }

  lemma SelectedIsUnique(snapshot: Snapshot, a: Instance, b: Instance)
    requires IsSelected(snapshot, a) && IsSelected(snapshot, b)
    ensures a == b
  {
  }

  lemma SelectedHasId(snapshot: Snapshot, instance: Instance)
    requires IsSelected(snapshot, instance)
    ensures instance.id == snapshot.selectedId
  {
  }

  lemma IdsHaveNoPrefix(matchId: Text)
    ensures IsOpaqueProfileId(matchId) ==> matchId != [] && !(ERROR_PREFIX <= matchId) && !(ACTION_PREFIX <= matchId)
    ensures NEW_ACTION_ID != [] && !(ERROR_PREFIX <= NEW_ACTION_ID) && !IsOpaqueProfileId(NEW_ACTION_ID)
  {
    assert ERROR_PREFIX[1] == 0x72 && ACTION_PREFIX[2] == 0x74 && ERROR_PREFIX[0] == 0x65 && NEW_ACTION_ID[0] == 0x61;
    assert |NEW_ACTION_ID| == 10;
  }

  /** A list that is justified, and is the one that was answered last. */
  ghost predicate IsLastAnswered(system: ProfileLoading.System, clean: Text -> Option<Text>,
                                 touched: nat -> set<Text>, list: Given,
                                 last: Option<Given>)
  {
    && list.FromClean? && IsJustified(system, clean, touched, list)
    && last.Some? && IsRepeatedIn(last.value, list.instance, list.records, list.basis)
  }

  /** What is connected to is a record of the list that `records` answered last, for the instance that is selected. */
  lemma DueWasAnswered(system: ProfileLoading.System, clean: Text -> Option<Text>, touched: nat -> set<Text>,
                       opaqueProfileId: (Text, Text) -> Text, history: seq<Past>, past: Past, token: Text, l: Launch)
    requires past.Ran? && past.call.RunCall? && past.call.matchId != NEW_ACTION_ID
    requires IsDue(opaqueProfileId, past.call, past.snapshot, ListOf(past.clean), token, l)
    requires past.clean.Some? ==> IsLastAnswered(system, clean, touched, past.clean.value, LatestGiven(history))
    ensures var last := LatestGiven(history);
            && past.clean.Some? && last.Some? && last.value.instance == past.snapshot.selectedId
            && ResultOf(last.value).Answer?
            && exists record :: record in ResultOf(last.value).records && record.opaqueId == past.call.matchId &&
                                Connects(past.snapshot, l, record, token)
  {
    hide IsJustified, IsSelected, IsLaunchable;
  }

  /** The selection at the time of the call. */
  ghost predicate WasSelecting(past: Past, snapshot: Snapshot) {
    past.Other? || past.snapshot == snapshot
  }

  // ---- The service ----

  class Service {
    const catalog: Catalog
    const registry: Registry
    const fold: Fold
    const isSpace: Byte -> bool
    const opaqueProfileId: (Text, Text) -> Text

    var activationToken: Text
    var sessionActive: bool
    var timerArmed: bool
    var launches: seq<Launch>

    ghost var history: seq<Past>

    constructor (catalog: Catalog, registry: Registry, fold: Fold, isSpace: Byte -> bool, opaqueProfileId: (Text, Text) -> Text)
      requires catalog.Valid() && registry.Valid() && catalog.log == []
      ensures Valid() && this.catalog == catalog && this.registry == registry && launches == [] && history == []
      ensures this.fold == fold && this.isSpace == isSpace && this.opaqueProfileId == opaqueProfileId
      ensures activationToken == [] && !sessionActive && !timerArmed
    {
      this.catalog, this.registry, this.fold, this.isSpace := catalog, registry, fold, isSpace;
      this.opaqueProfileId := opaqueProfileId;
      activationToken, sessionActive, timerArmed, launches := [], false, false, [];
      history := [];
    }

    ghost predicate Valid()
      reads this, catalog, catalog.watcher, catalog.repository, registry
    {
      && catalog.Valid() && registry.Valid() && TokensAreRight(activationToken, history, launches)
      && catalog.log == GivensOf(history) && AreRepeated(catalog.log, 0)
    }

    ghost predicate IsGood(given: Given) {
      IsJustified(catalog.repository.system, catalog.watcher.clean, catalog.touched, given)
    }

    /**
      What came of a call is right.  A search shows what `records` answered in it, and a run starts what is
      due, with the token that the calls before it left; both for the instance that is selected, and from a
      list that is justified, which for a run is the one that `records` answered last.
     */
    ghost predicate IsRight(before: seq<Past>, past: Past) {
      match past
      case Matched(query, snapshot, given, reply) =>
        && IsReply(fold, isSpace, query, snapshot, given, reply)
        && (given.Some? ==> IsGood(given.value) && WasDelivered(given.value))
      case Ran(call, snapshot, clean, launched) =>
        && call.RunCall? && IsStarted(opaqueProfileId, call, snapshot, ListOf(clean), LatestToken(before), launched)
        && (clean.Some? ==>
              && IsLastAnswered(catalog.repository.system, catalog.watcher.clean, catalog.touched, clean.value, LatestGiven(before))
              && WasDelivered(clean.value))
      case Other(call) => !call.MatchCall? && !call.RunCall?
    }

    /** Every touch of a watched path had been delivered. */
    ghost predicate WasDelivered(given: Given) {
      given.FromClean? ==> given.wereDelivered
    }

    /** The list from which a profile could be connected to. */
    ghost function CleanNow(): Option<Given>
      reads catalog, catalog.watcher, catalog.repository`now
    {
      if catalog.hasSelectedInstance && catalog.hasCleanSnapshot && !catalog.dirty then Some(catalog.FromCleanNow()) else None
    }

    ghost function ListNow(): Option<(Id, seq<ProfileRecord>)>
      reads catalog
    {
      if catalog.hasSelectedInstance && catalog.hasCleanSnapshot && !catalog.dirty
      then Some((catalog.selectedInstanceId, catalog.records)) else None
    }

    /** The call is over, and what came of it is on record. */
    ghost method Note(past: Past, token: Text, before: seq<Launch>)
      requires TokensAreRight(token, history, before) && activationToken == TokenAfter(token, CallOf(past))
      requires past.Ran? ==> past.call.RunCall? && (past.launched.Some? ==> past.launched.value.token == token)
      requires launches == before + if past.Ran? && past.launched.Some? then [past.launched.value] else []
      modifies this`history
      ensures history == old(history) + [past] && TokensAreRight(activationToken, history, launches)
      ensures GivensOf(history) == GivensOf(old(history)) + if past.Matched? && past.given.Some? then [past.given.value] else []
    {
      hide TokensAreRight, GivensOf, LatestToken, LaunchesOf;
      HistoryGrows(token, history, before, past);
      TokenGrows(history, past);
      history := history + [past];
    }

    /** `endActiveSession`, without its effect on the token. */
    method EndActiveSession()
      requires catalog.Valid()
      modifies this`sessionActive, this`timerArmed, catalog`sessionActive
      ensures catalog.Valid() && !sessionActive && !timerArmed && (old(sessionActive) ==> !catalog.sessionActive)
    {
      hide Catalog.Valid;
      timerArmed := false;
      if !sessionActive {
        return;
      }
      sessionActive := false;
      catalog.EndSession();
    }

    /** The loop over the matches. */
    method Presentable(matches: seq<SearchMatch>) returns (shown: seq<SearchMatch>)
      ensures AreThoseWithId(matches, shown)
    {
      shown := [];
      ghost var at: seq<nat> := [];
      for k := 0 to |matches|
        invariant ArePlaces(matches[..k], shown, at)
      {
        if matches[k].record.opaqueId != [] {
          shown, at := shown + [matches[k]], at + [k];
        }
      }
      assert matches[..|matches|] == matches;
    }

    /** The next search loads, and finds a file system that does not change and can be watched, and a sound cache. */
    ghost predicate IsFoundOut()
      reads catalog, catalog.watcher, catalog.repository, registry
    {
      var id := registry.snapshot.selectedId;
      !catalog.IsFastFor(id) && catalog.repository.IsSoundFor(id) && catalog.IsCalm(id, catalog.Now())
    }

    /** The search proper, for the selected instance. */
    method LookUp(tokens: seq<Text>, flawless: bool) returns (reply: Reply, ghost given: Option<Given>)
      requires catalog.Valid() && tokens != []
      modifies this`sessionActive, this`timerArmed, catalog, catalog.watcher, catalog.repository
      ensures catalog.Valid() && IsLookedUp(fold, tokens, registry.snapshot, given, reply)
      ensures catalog.log == old(catalog.log) + if given.Some? then [given.value] else []
      ensures AreRepeated(catalog.log, |old(catalog.log)|)
      ensures given.Some? ==> IsGood(given.value) && (old(catalog.HitsAreDelivered()) ==> WasDelivered(given.value))
      ensures reply.Profiles? == sessionActive && reply.Profiles? == timerArmed && (flawless ==> reply != Internal)
      ensures flawless && old(IsFoundOut()) && given.Some? ==>
                && catalog.IsFastFor(registry.snapshot.selectedId) && catalog.ListsWhatIsThere() && reply.Profiles?
                && ResultOf(given.value) == Answer(catalog.records) && catalog.Now() >= old(catalog.Now())
    {
      hide IsRanking, Catalog.Valid, Catalog.IsCalm, Catalog.HitsAreDelivered, IsJustified, IsSelected, IsRepeatedIn;
      hide Repository.IsSoundFor, Catalog.IsHonestSince, Catalog.ListsWhatIsThere, AreThoseWithId;
      hide Repository.CacheIsSound, TellsWhatIsThere;
      var instance := SelectedInstance(registry.snapshot);
      if instance == None {
        EndActiveSession();
        return NoInstance, None;
      }
      SelectedHasId(registry.snapshot, instance.value);
      sessionActive := true;
      ghost var n := |catalog.log|;
      var result := catalog.Records(instance.value.id, flawless);
      given := Some(catalog.log[n]);
      if !result.Answer? {
        EndActiveSession();
        reply := if result.Threw? then Internal else if result.error.NoDirectory? then NoProfiles else UnreadableReply;
        return;
      }
      var matches := MatchProfiles(fold, result.records, tokens);
      var shown := Presentable(matches);
      timerArmed := true;
      reply := Profiles(shown);
    }

    /** `Match`. */
    method Match(query: Text, flawless: bool) returns (reply: Reply)
      requires Valid()
      modifies this`activationToken, this`sessionActive, this`timerArmed, this`history, catalog, catalog.watcher,
               catalog.repository
      ensures Valid() && activationToken == [] && (flawless ==> reply != Internal)
      ensures exists given ::
                && history == old(history) + [Matched(query, registry.snapshot, given, reply)]
                && IsReply(fold, isSpace, query, registry.snapshot, given, reply)
                && (reply.Profiles? ==> ShowsAllMatches(fold, isSpace, query, given, reply.matches))
      ensures old(catalog.HitsAreDelivered()) ==> IsRight(old(history), history[|old(history)|])
      ensures flawless && old(IsFoundOut()) && Parsed(fold, isSpace, query).Lookup? && SelectsOne(registry.snapshot) ==>
                && catalog.IsFastFor(registry.snapshot.selectedId) && catalog.ListsWhatIsThere()
                && catalog.Now() >= old(catalog.Now())
                && reply.Profiles? && ShowsAllOf(fold, isSpace, query, catalog.records, reply.matches)
    {
      hide GivensOf, LatestToken, TokensAreRight, Parsed, Shows, IsSelected, IsJustified, Catalog.Valid, AreRepeated;
      hide IsFoundOut, Catalog.ListsWhatIsThere, ShowsAllOf;
      ghost var log := catalog.log;
      ghost var token, given: Option<Given> := activationToken, None;
      activationToken := [];
      var parsed := ParseRunnerQuery(fold, isSpace, query);
      match parsed {
        case Ignore => reply := Nothing;
        case Create => reply := Creation;
        case Lookup(tokens) => reply, given := LookUp(tokens, flawless);
      }
      if given.Some? {
        RepeatedGrow(log, 0, given.value);
      } else {
        assert catalog.log == log;
      }
      Note(Matched(query, registry.snapshot, given, reply), token, launches);
      assert IsReply(fold, isSpace, query, registry.snapshot, given, reply);
      if reply.Profiles? {
        RepliesShowAllMatches(fold, isSpace, query, registry.snapshot, given, reply);
      }
    }

    method Actions()
      requires Valid()
      modifies this`history
      ensures Valid() && history == old(history) + [Other(ActionsCall)] && activationToken == old(activationToken)
    {
      hide GivensOf, LatestToken, TokensAreRight, AreRepeated, Catalog.Valid;
      Note(Other(ActionsCall), activationToken, launches);
    }

    method SetActivationToken(token: Text)
      requires Valid()
      modifies this`activationToken, this`history
      ensures Valid() && history == old(history) + [Other(SetActivationTokenCall(token))] && activationToken == token
    {
      hide GivensOf, LatestToken, TokensAreRight, AreRepeated, Catalog.Valid;
      ghost var before := activationToken;
      activationToken := token;
      Note(Other(SetActivationTokenCall(token)), before, launches);
    }

    method Teardown()
      requires Valid()
      modifies this`activationToken, this`sessionActive, this`timerArmed, this`history, catalog`sessionActive
      ensures Valid() && history == old(history) + [Other(TeardownCall)] && activationToken == [] && !sessionActive
      ensures !timerArmed && !catalog.sessionActive
    {
      hide GivensOf, LatestToken, TokensAreRight, AreRepeated, Catalog.Valid;
      ghost var token := activationToken;
      timerArmed, activationToken, sessionActive := false, [], false;
      catalog.EndSession();
      Note(Other(TeardownCall), token, launches);
    }

    /** The idle timer fires. */
    method ExpireIdle()
      requires Valid() && timerArmed
      modifies this`activationToken, this`sessionActive, this`timerArmed, this`history, catalog`sessionActive
      ensures Valid() && history == old(history) + [Other(IdleExpired)] && activationToken == [] && !sessionActive && !timerArmed
      ensures old(sessionActive) ==> !catalog.sessionActive
    {
      hide GivensOf, LatestToken, TokensAreRight, AreRepeated, Catalog.Valid;
      ghost var token := activationToken;
      activationToken := [];
      EndActiveSession();
      Note(Other(IdleExpired), token, launches);
    }

    /** `Config`: rescans, given what the scan finds, unless that throws, and forgets the catalog's list. */
    method Config(scan: Scan, flawless: bool)
      requires Valid()
      modifies this`activationToken, this`sessionActive, this`timerArmed, this`history, catalog, catalog.watcher,
               registry
      ensures Valid() && history == old(history) + [Other(ConfigCall(scan))] && activationToken == []
      ensures !catalog.hasCleanSnapshot && catalog.log == old(catalog.log) && !sessionActive && !timerArmed
      ensures flawless ==> catalog.watcher.callback == None && MayFollow(old(registry.Now()), Rescan(scan), registry.Now())
      ensures registry.Now() == old(registry.Now()) || MayFollow(old(registry.Now()), Rescan(scan), registry.Now())
    {
      hide GivensOf, LatestToken, TokensAreRight, AreRepeated, Catalog.Valid;
      ghost var token := activationToken;
      activationToken := [];
      EndActiveSession();
      var throws: bool := *;
      if !throws || flawless {
        registry.RescanAndRepair(scan);
      }
      catalog.Reset(flawless);
      Note(Other(ConfigCall(scan)), token, launches);
    }

    /** `launch`: the process is started unless something about it is unfit or the start fails. */
    method StartProcess(l: Launch, starts: bool) returns (launched: Option<Launch>)
      modifies this`launches
      ensures launched == if IsLaunchable(l) && starts then Some(l) else None
      ensures launches == old(launches) + if launched.Some? then [launched.value] else []
    {
      if IsLaunchable(l) && starts {
        launches := launches + [l];
        return Some(l);
      }
      return None;
    }

    /** `create`. */
    method CreateNew(token: Text, starts: bool) returns (launched: Option<Launch>)
      modifies this`launches
      ensures launched.Some? ==> Creates(registry.snapshot, launched.value, token) && IsLaunchable(launched.value) && starts
      ensures launched == None && starts ==> forall l :: Creates(registry.snapshot, l, token) ==> !IsLaunchable(l)
      ensures launches == old(launches) + if launched.Some? then [launched.value] else []
    {
      hide IsSelected, IsLaunchable;
      var instance := SelectedInstance(registry.snapshot);
      if instance == None {
        return None;
      }
      var l := Launch(instance.value.executable, instance.value.launcherPrefix + [NEW_ARGUMENT], token);
      forall other | Creates(registry.snapshot, other, token)
        ensures other == l
      {
        var selected :| IsSelected(registry.snapshot, selected)
                        && other == Launch(selected.executable, selected.launcherPrefix + [NEW_ARGUMENT], token);
        SelectedIsUnique(registry.snapshot, selected, instance.value);
      }
      assert Creates(registry.snapshot, l, token);
      launched := StartProcess(l, starts);
    }

    /** `connect`. */
    method Connect(opaqueId: Text, token: Text, directoryMatches: bool, identityOf: Text -> Option<Text>, starts: bool)
      returns (launched: Option<Launch>)
      requires catalog.Valid()
      modifies this`launches
      ensures var call := RunCall(opaqueId, [], directoryMatches, identityOf, starts);
              && (launched.Some? ==>
                    && IsLaunchable(launched.value) && starts
                    && IsConnection(opaqueProfileId, call, registry.snapshot, ListNow(), token, launched.value))
              && (launched == None && starts ==> forall l ::
                    IsConnection(opaqueProfileId, call, registry.snapshot, ListNow(), token, l) ==> !IsLaunchable(l))
      ensures launches == old(launches) + if launched.Some? then [launched.value] else []
    {
      hide IsSelected, IsConnection, IsLaunchable, Catalog.Valid, Catalog.Resolves;
      ghost var call := RunCall(opaqueId, [], directoryMatches, identityOf, starts);
      var instance := SelectedInstance(registry.snapshot);
      if instance == None {
        ConnectionsResolve(call, token);
        return None;
      }
      SelectedHasId(registry.snapshot, instance.value);
      var record := catalog.Resolve(instance.value.id, opaqueId, directoryMatches, identityOf, opaqueProfileId);
      if record == None {
        assert forall r :: !IsResolved(call, r);
        ConnectionsResolve(call, token);
        return None;
      }
      var launchPath := record.value.launchPath;
      var l := Launch(instance.value.executable, instance.value.launcherPrefix + [CONNECT_ARGUMENT, launchPath], token);
      OnlyConnection(instance.value, record.value, l, call, token);
      if !IsAbsolute(launchPath) || NUL in launchPath {
        return None;
      }
      launched := StartProcess(l, starts);
    }

    /** The id of this call resolves to the record. */
    ghost predicate IsResolved(call: Call, record: ProfileRecord)
      requires call.RunCall?
      reads catalog, registry
    {
      catalog.Resolves(registry.snapshot.selectedId, call.matchId, call.directoryMatches, call.identityOf, opaqueProfileId, record)
    }

    lemma ConnectionResolves(call: Call, token: Text, l: Launch)
      requires call.RunCall? && IsConnection(opaqueProfileId, call, registry.snapshot, ListNow(), token, l)
      ensures exists record :: IsResolved(call, record) && Connects(registry.snapshot, l, record, token)
      ensures exists instance :: IsSelected(registry.snapshot, instance)
    {
      hide IsSelected;
      var record :| Connects(registry.snapshot, l, record, token) &&
                    IsConnectable(ListNow().value.0, ListNow().value.1, call.matchId, call.directoryMatches, call.identityOf,
                                  opaqueProfileId, record);
      assert IsResolved(call, record);
    }

    lemma ConnectionsResolve(call: Call, token: Text)
      requires call.RunCall?
      ensures (exists l :: IsConnection(opaqueProfileId, call, registry.snapshot, ListNow(), token, l)) ==>
                (exists record :: IsResolved(call, record)) && exists instance :: IsSelected(registry.snapshot, instance)
    {
      hide IsSelected, IsConnection, IsResolved, Connects;
      if l :| IsConnection(opaqueProfileId, call, registry.snapshot, ListNow(), token, l) {
        ConnectionResolves(call, token, l);
      }
    }

    /** There is one way to connect, and none if the path is not absolute; a path with a NUL cannot be launched. */
    lemma OnlyConnection(instance: Instance, record: ProfileRecord, l: Launch, call: Call, token: Text)
      requires catalog.Valid() && IsSelected(registry.snapshot, instance) && call.RunCall? && IsResolved(call, record)
      requires l == Launch(instance.executable, instance.launcherPrefix + [CONNECT_ARGUMENT, record.launchPath], token)
      ensures forall other :: IsConnection(opaqueProfileId, call, registry.snapshot, ListNow(), token, other) <==>
                other == l && IsAbsolute(record.launchPath)
      ensures NUL in record.launchPath ==> !IsLaunchable(l)
    {
      hide IsSelected, Catalog.Structured, Catalog.CleanIsWatched, Catalog.CleanWasGiven;
      var snapshot := registry.snapshot;
      forall other, r | Connects(snapshot, other, r, token) && IsResolved(call, r)
        ensures other == l && IsAbsolute(record.launchPath)
      {
        catalog.CleanIdsAreUnambiguous(record, r);
        var selected :| IsSelected(snapshot, selected) && IsAbsolute(r.launchPath) &&
                        other == Launch(selected.executable, selected.launcherPrefix + [CONNECT_ARGUMENT, r.launchPath], token);
        SelectedIsUnique(snapshot, selected, instance);
      }
      forall other | IsConnection(opaqueProfileId, call, snapshot, ListNow(), token, other)
        ensures other == l && IsAbsolute(record.launchPath)
      {
        ConnectionResolves(call, token, other);
      }
      if IsAbsolute(record.launchPath) {
        assert Connects(snapshot, l, record, token);
        assert IsConnection(opaqueProfileId, call, snapshot, ListNow(), token, l);
      }
      assert l.arguments[|l.arguments| - 1] == record.launchPath;
    }

    /** The choice between the launcher's two operations. */
    method Dispatch(matchId: Text, actionId: Text, token: Text, directoryMatches: bool,
                    identityOf: Text -> Option<Text>,
                    starts: bool) returns (launched: Option<Launch>)
      requires catalog.Valid()
      modifies this`launches
      ensures IsStarted(opaqueProfileId, RunCall(matchId, actionId, directoryMatches, identityOf, starts), registry.snapshot,
                        ListNow(), token, launched)
      ensures launches == old(launches) + if launched.Some? then [launched.value] else []
    {
      hide IsSelected, IsLaunchable, IsOpaqueProfileId, Catalog.Valid, Creates, Connects, IsConnectable;
      IdsHaveNoPrefix(matchId);
      if actionId == [] && matchId != [] && !(ERROR_PREFIX <= matchId) {
        if matchId == NEW_ACTION_ID {
          launched := CreateNew(token, starts);
          return;
        }
        if !(ACTION_PREFIX <= matchId) && IsOpaqueProfileId(matchId) {
          launched := Connect(matchId, token, directoryMatches, identityOf, starts);
          return;
        }
      }
      return None;
    }

    /**
      `Run`.  What is due is started, unless its start fails, and nothing else, with the latest token; and for
      a profile only from the list last answered, while the catalog is clean and that list is justified.
     */
    method Run(matchId: Text, actionId: Text, directoryMatches: bool, identityOf: Text -> Option<Text>, starts: bool)
      returns (launched: Option<Launch>)
      requires Valid()
      modifies this`activationToken, this`sessionActive, this`timerArmed, this`launches, this`history,
               catalog`sessionActive
      ensures Valid() && activationToken == [] && !sessionActive && (old(sessionActive) ==> !catalog.sessionActive)
      ensures history == old(history) + [Ran(RunCall(matchId, actionId, directoryMatches, identityOf, starts),
                                             registry.snapshot, old(CleanNow()), launched)]
      ensures launches == old(launches) + if launched.Some? then [launched.value] else []
      ensures IsStarted(opaqueProfileId, RunCall(matchId, actionId, directoryMatches, identityOf, starts), registry.snapshot,
                        old(ListNow()), LatestToken(old(history)), launched)
      ensures old(catalog.HitsAreDelivered()) ==> IsRight(old(history), history[|old(history)|])
    {
      hide GivensOf, LatestToken, TokensAreRight, AreRepeated, IsStarted, Catalog.Valid;
      hide IsJustified, IsRepeatedIn, Catalog.HitsAreDelivered;
      ghost var call, clean := RunCall(matchId, actionId, directoryMatches, identityOf, starts), CleanNow();
      ghost var before := launches;
      TokenIsLatest(activationToken, history, launches);
      CleanIsLastAnswered();
      var token := activationToken;
      activationToken := [];
      assert ListNow() == ListOf(clean);
      launched := Dispatch(matchId, actionId, token, directoryMatches, identityOf, starts);
      StartedHasToken(call, registry.snapshot, ListOf(clean), token, launched);
      EndActiveSession();
      Note(Ran(call, registry.snapshot, clean, launched), token, before);
    }

    lemma CleanIsLastAnswered()
      requires catalog.Valid() && catalog.log == GivensOf(history)
      ensures CleanNow().Some? ==>
                IsLastAnswered(catalog.repository.system, catalog.watcher.clean, catalog.touched, CleanNow().value,
                               LatestGiven(history))
    {
      hide Catalog.Structured, Catalog.CleanIsWatched, IsJustified, IsRepeatedIn;
      catalog.CleanIsJustified();
    }

    lemma StartedHasToken(call: Call, snapshot: Snapshot, list: Option<(Id, seq<ProfileRecord>)>, token: Text,
                          launched: Option<Launch>)
      requires call.RunCall? && IsStarted(opaqueProfileId, call, snapshot, list, token, launched)
      ensures launched.Some? ==> launched.value.token == token
    {
      hide IsSelected, IsLaunchable, IsConnectable;
    }

    lemma OthersAreRight(before: seq<Past>, call: Call)
      ensures !call.MatchCall? && !call.RunCall? ==> IsRight(before, Other(call))
    {
    }

    lemma RightGrows(before: seq<Past>, past: Past, n: nat)
      requires forall i :: n <= i < |before| ==> IsRight(before[..i], before[i])
      requires IsRight(before, past)
      ensures forall i :: n <= i <= |before| ==> IsRight((before + [past])[..i], (before + [past])[i])
    {
      hide IsRight;
      forall i | n <= i <= |before|
        ensures IsRight((before + [past])[..i], (before + [past])[i])
      {
        assert (before + [past])[..i] == before[..i];
        assert before[..|before|] == before;
      }
    }

    /** Between calls the event loop turns. */
    method TurnEventLoop()
      requires Valid()
      modifies catalog.repository`now, catalog`dirty
      ensures Valid() && catalog.HitsAreDelivered()
    {
      hide TokensAreRight, GivensOf, AreRepeated, Catalog.Valid, Catalog.HitsAreDelivered;
      catalog.TurnEventLoop();
    }

    /** What came of a call, if it was one: the timer fires only while it is armed. */
    ghost predicate IsTaken(before: seq<Past>, history: seq<Past>, call: Call, snapshot: Snapshot, flawless: bool) {
      if history == before then call.IdleExpired?
      else
        && |history| == |before| + 1 && history == before + [history[|before|]]
        && var past := history[|before|];
           && CallOf(past) == call && IsRight(before, past)
           && (past.Matched? && flawless ==> past.reply != Internal) && WasSelecting(past, snapshot)
    }

    /** The event loop turns, and one call comes. */
    method Take(call: Call, flawless: bool)
      requires Valid()
      modifies this, catalog, catalog.watcher, catalog.repository, registry
      ensures Valid() && IsTaken(old(history), history, call, registry.snapshot, flawless)
      ensures !call.ConfigCall? ==> registry.snapshot == old(registry.snapshot)
      ensures call.ConfigCall? && flawless ==> MayFollow(old(registry.Now()), Rescan(call.scan), registry.Now())
      ensures old(timerArmed) ==> history != old(history)
    {
      hide GivensOf, LatestToken, TokensAreRight, AreRepeated, Catalog.Valid, Catalog.HitsAreDelivered, IsRight;
      TurnEventLoop();
      OthersAreRight(history, call);
      match call {
        case MatchCall(query) => var reply := Match(query, flawless);
        case ActionsCall => Actions();
        case TeardownCall => Teardown();
        case ConfigCall(scan) => Config(scan, flawless);
        case SetActivationTokenCall(token) => SetActivationToken(token);
        case IdleExpired =>
          if timerArmed {
            ExpireIdle();
          }
        case RunCall(matchId, actionId, directoryMatches, identityOf, starts) =>
          var launched := Run(matchId, actionId, directoryMatches, identityOf, starts);
      }
    }

    /** The calls since `n` are on record, and what came of them is right. */
    ghost predicate AreTaken(history: seq<Past>, n: nat, calls: seq<Call>, flawless: bool) {
      && n <= |history| && FromBus(CallsOf(history[n..])) == FromBus(calls)
      && (forall i :: n <= i < |history| ==> IsRight(history[..i], history[i]))
      && (forall i :: n <= i < |history| && history[i].Matched? && flawless ==> history[i].reply != Internal)
    }

    lemma TakenGrow(before: seq<Past>, history: seq<Past>, n: nat, calls: seq<Call>, call: Call, snapshot: Snapshot,
                    flawless: bool)
      requires AreTaken(before, n, calls, flawless) && IsTaken(before, history, call, snapshot, flawless)
      ensures AreTaken(history, n, calls + [call], flawless)
    {
      hide IsRight, FromBus, CallsOf, WasSelecting;
      OneMoreCall(calls, call);
      if history != before {
        assert history[n..] == before[n..] + [history[|before|]];
        BusGrows(before[n..], history[|before|], calls);
        RightGrows(before, history[|before|], n);
      }
    }

    /**
      Whole runs: any calls in any order, the event loop turning before each while files change.  Every call
      is on record with what came of it, and that is right: each search shows what `records` answered in it,
      and each run starts exactly what is due, with the latest token, and for a profile from the list last
      answered for the selected instance; and these lists are justified, with all touches delivered.  If
      nothing throws, no reply is an internal error; and the selection changes by a rescan only.
     */
    method RunMany(calls: seq<Call>, flawless: bool)
      requires Valid()
      modifies this, catalog, catalog.watcher, catalog.repository, registry
      ensures Valid() && old(history) <= history && AreTaken(history, |old(history)|, calls, flawless)
      ensures (forall call :: call in calls ==> !call.ConfigCall?) ==>
                && registry.snapshot == old(registry.snapshot)
                && forall i :: |old(history)| <= i < |history| ==> WasSelecting(history[i], registry.snapshot)
    {
      hide Valid, IsRight, FromBus, CallsOf, AreTaken;
      ghost var n, before := |history|, history;
      NothingTaken(before, flawless);
      assert calls[..0] == [];
      for k := 0 to |calls|
        invariant Valid() && n <= |history| && history[..n] == before && AreTaken(history, n, calls[..k], flawless)
        invariant (forall call :: call in calls ==> !call.ConfigCall?) ==>
                    && registry.snapshot == old(registry.snapshot)
                    && forall i :: n <= i < |history| ==> WasSelecting(history[i], registry.snapshot)
      {
        assert calls[k] in calls && calls[..k + 1] == calls[..k] + [calls[k]];
        ghost var held := history;
        Take(calls[k], flawless);
        TakenGrow(held, history, n, calls[..k], calls[k], registry.snapshot, flawless);
      }
      assert calls[..|calls|] == calls;
    }

    lemma NothingTaken(history: seq<Past>, flawless: bool)
      ensures AreTaken(history, |history|, [], flawless)
    {
      NothingCalled();
      assert history[|history|..] == [];
    }
  }
}
