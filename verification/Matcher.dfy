/** Reading a runner query, and finding and ranking the profiles that match it. */
module Matcher {
  import opened Bytes
  import opened Ordering
  import opened ProfileTypes

  // ---- Texts in texts ----

  /** Whether a text occurs in another. */
  predicate Contains(field: Text, token: Text) {
    token <= field || (field != [] && Contains(field[1..], token))
  }

  lemma {:induction false} ContainsExactly(field: Text, token: Text)
    ensures Contains(field, token) <==> exists front, back :: field == front + token + back
  {
    if token <= field {
      assert field == [] + token + field[|token|..];
    } else if field != [] {
      ContainsExactly(field[1..], token);
      if Contains(field[1..], token) {
        var front, back :| field[1..] == front + token + back;
        assert field == ([field[0]] + front) + token + back;
      }
      forall front, back | field == front + token + back
        ensures Contains(field[1..], token)
      {
        assert [] + token + back == token + back;
        assert field[1..] == front[1..] + token + back;
      }
    }
  }

  const EXACT_SCORE := 1.0
  const PREFIX_SCORE := 0.90
  const SUBSTRING_SCORE := 0.75

  function RelationshipScore(field: Text, token: Text): real {
    if field == token then EXACT_SCORE
    else if token <= field then PREFIX_SCORE
    else if Contains(field, token) then SUBSTRING_SCORE
    else 0.0
  }

  /** Case folding. */
  type Fold = Text -> Text

  function FoldAll(fold: Fold, texts: seq<Text>): (r: seq<Text>)
    ensures |r| == |texts|
  {
    seq(|texts|, i requires 0 <= i < |texts| => fold(texts[i]))
  }

  function SearchableFields(fold: Fold, record: ProfileRecord): seq<Text> {
    [fold(record.fields.name), fold(record.fields.server)] + FoldAll(fold, record.fields.labels)
  }

  // ---- What a match is ----

  /** `score` is the best score of any field for the token, or zero if there is no field. */
  ghost predicate IsBestScore(fields: seq<Text>, token: Text, score: real) {
    && score >= 0.0
    && (forall i :: 0 <= i < |fields| ==> RelationshipScore(fields[i], token) <= score)
    && (score == 0.0 || exists i :: 0 <= i < |fields| && RelationshipScore(fields[i], token) == score)
  }

  function BestScore(fields: seq<Text>, token: Text): (score: real)
    ensures IsBestScore(fields, token, score)
  {
    if fields == [] then 0.0
    else
      var last := fields[|fields| - 1];
      var before := BestScore(fields[..|fields| - 1], token);
      if RelationshipScore(last, token) > before then RelationshipScore(last, token) else before
  }

  /** Every token is found in some field, and `relevance` is the least of the tokens' best scores. */
  ghost predicate IsRelevance(fields: seq<Text>, tokens: seq<Text>, relevance: real) {
    && (forall t :: t in tokens ==> BestScore(fields, t) > 0.0 && relevance <= BestScore(fields, t))
    && relevance <= EXACT_SCORE
    && (relevance == EXACT_SCORE || exists t :: t in tokens && relevance == BestScore(fields, t))
  }

  datatype SearchMatch = SearchMatch(record: ProfileRecord, relevance: real)

  /** The matching order, as "not after": relevance falling, then name, server and path. */
  predicate MatchLeq(fold: Fold, a: SearchMatch, b: SearchMatch) {
    if a.relevance != b.relevance then a.relevance > b.relevance
    else if fold(a.record.fields.name) != fold(b.record.fields.name)
      then TextLeq(fold(a.record.fields.name), fold(b.record.fields.name))
    else if fold(a.record.fields.server) != fold(b.record.fields.server)
      then TextLeq(fold(a.record.fields.server), fold(b.record.fields.server))
    else TextLeq(a.record.sourcePath, b.record.sourcePath)
  }

  function Order(fold: Fold): (SearchMatch, SearchMatch) -> bool {
    (a, b) => MatchLeq(fold, a, b)
  }

  /** A profile matches all the tokens, with this relevance. */
  ghost predicate IsMatch(fold: Fold, profiles: seq<ProfileRecord>, tokens: seq<Text>, m: SearchMatch) {
    m.record in profiles && IsRelevance(SearchableFields(fold, m.record), FoldAll(fold, tokens), m.relevance)
  }

  /** The loop over the fields. */
  method BestOf(fields: seq<Text>, token: Text) returns (bestScore: real)
    ensures bestScore == BestScore(fields, token)
  {
    bestScore := 0.0;
    for f := 0 to |fields|
      invariant bestScore == BestScore(fields[..f], token)
    {
      assert fields[..f + 1][..f] == fields[..f];
      var score := RelationshipScore(fields[f], token);
      bestScore := if score > bestScore then score else bestScore;
    }
    assert fields[..|fields|] == fields;
  }

  /** The scoring of one profile: does it match all the tokens, and how well? */
  method Score(fields: seq<Text>, foldedTokens: seq<Text>) returns (matches: bool, relevance: real)
    ensures matches <==> forall t :: t in foldedTokens ==> BestScore(fields, t) > 0.0
    ensures matches ==> IsRelevance(fields, foldedTokens, relevance)
  {
    hide RelationshipScore;
    relevance := EXACT_SCORE;
    for k := 0 to |foldedTokens|
      invariant IsRelevance(fields, foldedTokens[..k], relevance)
    {
      var token := foldedTokens[k];
      var bestScore := BestOf(fields, token);
      if bestScore == 0.0 {
        return false, relevance;
      }
      assert foldedTokens[..k + 1] == foldedTokens[..k] + [token];
      relevance := if bestScore < relevance then bestScore else relevance;
    }
    assert foldedTokens[..|foldedTokens|] == foldedTokens;
    return true, relevance;
  }

  lemma RelevanceIsUnique(fields: seq<Text>, tokens: seq<Text>, others: seq<Text>, a: real, b: real)
    requires forall t :: t in tokens <==> t in others
    requires IsRelevance(fields, tokens, a) && IsRelevance(fields, others, b)
    ensures a == b
  {
  }

  /** No record is given twice if no path is. */
  ghost predicate PathsAreDistinct(profiles: seq<ProfileRecord>) {
    forall i, j :: 0 <= i < j < |profiles| ==> profiles[i].sourcePath != profiles[j].sourcePath
  }

  /** The result of matching: exactly the matches, in order, none twice. */
  ghost predicate IsRanking(fold: Fold, profiles: seq<ProfileRecord>, tokens: seq<Text>, matches: seq<SearchMatch>) {
    && IsSorted(matches, Order(fold))
    && (forall m :: m in matches <==> IsMatch(fold, profiles, tokens, m))
    && (PathsAreDistinct(profiles) ==> AllDistinct(matches))
  }

  lemma OrderIsTotal(fold: Fold)
    ensures IsTotalPreorder(Order(fold))
  {
    TextLeqIsTotalOrder();
    forall a, b, c | Order(fold)(a, b) && Order(fold)(b, c)
      ensures Order(fold)(a, c)
    {
      var x, y, z := fold(a.record.fields.name), fold(b.record.fields.name), fold(c.record.fields.name);
      var u, v, w := fold(a.record.fields.server), fold(b.record.fields.server), fold(c.record.fields.server);
      assert TextLeq(x, y) && TextLeq(y, z) ==> TextLeq(x, z);
      assert TextLeq(u, v) && TextLeq(v, w) ==> TextLeq(u, w);
    }
  }

  /** `matchProfiles`; without tokens, or with an empty one, nothing matches. */
  method MatchProfiles(fold: Fold, profiles: seq<ProfileRecord>, tokens: seq<Text>) returns (matches: seq<SearchMatch>)
    ensures tokens == [] || [] in tokens ==> matches == []
    ensures tokens != [] && [] !in tokens ==> IsRanking(fold, profiles, tokens, matches)
  {
    if tokens == [] {
      return [];
    }
    var foldedTokens: seq<Text> := [];
    for k := 0 to |tokens|
      invariant foldedTokens == FoldAll(fold, tokens)[..k] && [] !in tokens[..k]
    {
      if tokens[k] == [] {
        return [];
      }
      foldedTokens := foldedTokens + [fold(tokens[k])];
    }
    assert foldedTokens == FoldAll(fold, tokens);
    matches := [];
    for k := 0 to |profiles|
      invariant forall m :: m in matches <==> IsMatch(fold, profiles[..k], tokens, m)
      invariant PathsAreDistinct(profiles) ==> AllDistinct(matches)
    {
      var profile := profiles[k];
      var matchesAllTokens, relevance := Score(SearchableFields(fold, profile), foldedTokens);
      OneMoreProfile(fold, profiles, k, tokens, relevance, matchesAllTokens);
      if matchesAllTokens {
        matches := matches + [SearchMatch(profile, relevance)];
      }
    }
    assert profiles[..|profiles|] == profiles;
    var sorted := Sort(matches, Order(fold));
    OrderIsTotal(fold);
    SortSorts(matches, Order(fold));
    SortedRanks(fold, profiles, tokens, matches);
    return sorted;
  }

  lemma OneMoreProfile(fold: Fold, profiles: seq<ProfileRecord>, k: nat, tokens: seq<Text>, relevance: real,
                       matches: bool)
    requires k < |profiles|
    requires var fields := SearchableFields(fold, profiles[k]);
             && (matches <==> forall t :: t in FoldAll(fold, tokens) ==> BestScore(fields, t) > 0.0)
             && (matches ==> IsRelevance(fields, FoldAll(fold, tokens), relevance))
    ensures forall m :: IsMatch(fold, profiles[..k + 1], tokens, m) <==>
              IsMatch(fold, profiles[..k], tokens, m) || (matches && m == SearchMatch(profiles[k], relevance))
    ensures PathsAreDistinct(profiles) ==> !IsMatch(fold, profiles[..k], tokens, SearchMatch(profiles[k], relevance))
  {
    hide BestScore, SearchableFields, FoldAll;
    assert profiles[..k + 1] == profiles[..k] + [profiles[k]];
    forall m: SearchMatch | m.record == profiles[k] && IsMatch(fold, profiles[..k + 1], tokens, m)
      ensures matches && m.relevance == relevance
    {
      RelevanceIsUnique(SearchableFields(fold, profiles[k]), FoldAll(fold, tokens), FoldAll(fold, tokens), m.relevance, relevance);
    }
  }

  lemma SortedRanks(fold: Fold, profiles: seq<ProfileRecord>, tokens: seq<Text>, matches: seq<SearchMatch>)
    requires forall m :: m in matches <==> IsMatch(fold, profiles, tokens, m)
    requires PathsAreDistinct(profiles) ==> AllDistinct(matches)
    requires IsSorted(Sort(matches, Order(fold)), Order(fold))
    ensures IsRanking(fold, profiles, tokens, Sort(matches, Order(fold)))
  {
    var sorted := Sort(matches, Order(fold));
    forall m
      ensures m in sorted <==> m in matches
    {
      assert m in multiset(sorted) <==> m in multiset(matches);
    }
    if PathsAreDistinct(profiles) {
      DistinctKept(matches, sorted);
    }
  }

  /**
    The ranking is determined by which profiles and which tokens there are: permuting the profiles, and
    reordering or repeating tokens, changes nothing, as long as no two profiles share a source path.
   */
  lemma RankingIsDetermined(fold: Fold, profiles: seq<ProfileRecord>, permuted: seq<ProfileRecord>, tokens: seq<Text>,
                            reordered: seq<Text>, a: seq<SearchMatch>, b: seq<SearchMatch>)
    requires PathsAreDistinct(profiles) && PathsAreDistinct(permuted)
    requires forall p :: p in profiles <==> p in permuted
    requires forall t :: t in tokens <==> t in reordered
    requires IsRanking(fold, profiles, tokens, a) && IsRanking(fold, permuted, reordered, b)
    ensures a == b
  {
    hide SearchableFields, BestScore;
    assert forall t :: t in FoldAll(fold, tokens) <==> t in FoldAll(fold, reordered) by {
      FoldedTokensAgree(fold, tokens, reordered);
      FoldedTokensAgree(fold, reordered, tokens);
    }
    forall m
      ensures m in a <==> m in b
    {
      assert IsMatch(fold, profiles, tokens, m) <==> IsMatch(fold, permuted, reordered, m);
    }
    SameElements(a, b);
    assert HasNoTies(multiset(a), Order(fold)) by {
      forall x, y | x in multiset(a) && y in multiset(a) && Order(fold)(x, y) && Order(fold)(y, x)
        ensures x == y
      {
        TiesAreEqual(fold, profiles, tokens, x, y);
      }
    }
    SortedIsUnique(a, b, Order(fold));
  }

  lemma FoldedTokensAgree(fold: Fold, tokens: seq<Text>, others: seq<Text>)
    requires forall t :: t in tokens ==> t in others
    ensures forall t :: t in FoldAll(fold, tokens) ==> t in FoldAll(fold, others)
  {
    forall t | t in FoldAll(fold, tokens)
      ensures t in FoldAll(fold, others)
    {
      var i :| 0 <= i < |tokens| && FoldAll(fold, tokens)[i] == t;
      assert tokens[i] in others;
      var j :| 0 <= j < |others| && others[j] == tokens[i];
      assert FoldAll(fold, others)[j] == t;
    }
  }

  /** Two matches that neither precedes have the same path, so they are the same match of the same profile. */
  lemma TiesAreEqual(fold: Fold, profiles: seq<ProfileRecord>, tokens: seq<Text>, x: SearchMatch, y: SearchMatch)
    requires PathsAreDistinct(profiles)
    requires IsMatch(fold, profiles, tokens, x) && IsMatch(fold, profiles, tokens, y)
    requires MatchLeq(fold, x, y) && MatchLeq(fold, y, x)
    ensures x == y
  {
    TextLeqIsTotalOrder();
    var i :| 0 <= i < |profiles| && profiles[i] == x.record;
    var j :| 0 <= j < |profiles| && profiles[j] == y.record;
    assert x.record.sourcePath == y.record.sourcePath;
  }

  // ---- Reading a query ----

  datatype ParsedQuery = Ignore | Create | Lookup(tokens: seq<Text>)

  ghost predicate IsWord(isSpace: Byte -> bool, word: Text) {
    word != [] && forall i :: 0 <= i < |word| ==> !isSpace(word[i])
  }

  /** The maximal runs without separators. */
  function Words(isSpace: Byte -> bool, text: Text): seq<Text>
    decreases |text|
  {
    if text == [] then []
    else if isSpace(text[0]) then Words(isSpace, text[1..])
    else
      var n := WordLength(isSpace, text);
      [text[..n]] + Words(isSpace, text[n..])
  }

  function WordLength(isSpace: Byte -> bool, text: Text): (n: nat)
    ensures n <= |text| && (forall i :: 0 <= i < n ==> !isSpace(text[i])) && (n < |text| ==> isSpace(text[n]))
    ensures text != [] && !isSpace(text[0]) ==> n > 0
  {
    if text == [] || isSpace(text[0]) then 0 else 1 + WordLength(isSpace, text[1..])
  }

  lemma {:induction false} SeparatorsSkip(isSpace: Byte -> bool, separator: Text, text: Text)
    requires forall i :: 0 <= i < |separator| ==> isSpace(separator[i])
    ensures Words(isSpace, separator + text) == Words(isSpace, text)
  {
    if separator == [] {
      assert separator + text == text;
    } else {
      assert (separator + text)[1..] == separator[1..] + text;
      SeparatorsSkip(isSpace, separator[1..], text);
    }
  }

  datatype Piece = Piece(separator: Text, word: Text)

  ghost predicate IsSeparator(isSpace: Byte -> bool, text: Text) {
    forall i :: 0 <= i < |text| ==> isSpace(text[i])
  }

  function Spaced(pieces: seq<Piece>, tail: Text): Text {
    if pieces == [] then tail else pieces[0].separator + pieces[0].word + Spaced(pieces[1..], tail)
  }

  function WordsOf(pieces: seq<Piece>): seq<Text> {
    if pieces == [] then [] else [pieces[0].word] + WordsOf(pieces[1..])
  }

  lemma WordIsRead(isSpace: Byte -> bool, word: Text, rest: Text)
    requires IsWord(isSpace, word) && (rest != [] ==> isSpace(rest[0]))
    ensures Words(isSpace, word + rest) == [word] + Words(isSpace, rest)
  {
    var s := word + rest;
    assert forall i :: 0 <= i < |word| ==> s[i] == word[i];
    WordEnds(isSpace, s, |word|);
    assert s[..|word|] == word && s[|word|..] == rest;
  }

  /** However words are spaced, they are what is read. */
  lemma {:induction false} SpacedWordsAreRead(isSpace: Byte -> bool, pieces: seq<Piece>, tail: Text)
    requires forall k :: 0 <= k < |pieces| ==>
               IsSeparator(isSpace, pieces[k].separator) && IsWord(isSpace, pieces[k].word) && (k > 0 ==> pieces[k].separator != [])
    requires IsSeparator(isSpace, tail)
    ensures Words(isSpace, Spaced(pieces, tail)) == WordsOf(pieces)
  {
    if pieces == [] {
      SeparatorsSkip(isSpace, tail, []);
      assert tail + [] == tail;
    } else {
      var rest := Spaced(pieces[1..], tail);
      SpacedWordsAreRead(isSpace, pieces[1..], tail);
      assert rest != [] ==> isSpace(rest[0]);
      assert Spaced(pieces, tail) == pieces[0].separator + (pieces[0].word + rest);
      SeparatorsSkip(isSpace, pieces[0].separator, pieces[0].word + rest);
      WordIsRead(isSpace, pieces[0].word, rest);
    }
  }

  /** The trigger and the reserved command, folded. */
  const TRIGGER: Text := [0x72, 0x65, 0x6D]
  const NEW_COMMAND: Text := [0x6E, 0x65, 0x77]

  /** The tokenizing loop. */
  method FoldedTokens(fold: Fold, isSpace: Byte -> bool, query: Text, from: nat) returns (tokens: seq<Text>)
    requires from <= |query|
    ensures tokens == FoldAll(fold, Words(isSpace, query[from..]))
  {
    hide Words, FoldAll;
    assert FoldAll(fold, []) == [] && query[from..] == query[from..] by { FoldMore(fold, [], []); }
    tokens := [];
    ghost var words: seq<Text> := [];
    var position := from;
    while position < |query|
      invariant from <= position <= |query|
      invariant tokens == FoldAll(fold, words)
      invariant Words(isSpace, query[from..]) == words + Words(isSpace, query[position..])
      decreases |query| - position
    {
      var begun := position;
      position := SkipSpaces(isSpace, query, begun);
      var tokenStart := position;
      while position < |query| && !isSpace(query[position])
        invariant tokenStart <= position <= |query|
        invariant forall i :: tokenStart <= i < position ==> !isSpace(query[i])
      {
        position := position + 1;
      }
      if position > tokenStart {
        ghost var token, rest := query[tokenStart..position], query[position..];
        assert query[tokenStart..] == token + rest;
        WordIsRead(isSpace, token, rest);
        FoldMore(fold, words, token);
        words := words + [token];
        tokens := tokens + [fold(query[tokenStart..position])];
      }
    }
    assert query[position..] == [];
    assert Words(isSpace, []) == [] by { NoWords(isSpace); }
    assert words + [] == words;
  }

  lemma NoWords(isSpace: Byte -> bool)
    ensures Words(isSpace, []) == []
  {
  }

  lemma FoldMore(fold: Fold, words: seq<Text>, word: Text)
    ensures FoldAll(fold, words + [word]) == FoldAll(fold, words) + [fold(word)]
    ensures FoldAll(fold, []) == []
  {
  }

  method SkipSpaces(isSpace: Byte -> bool, query: Text, from: nat) returns (position: nat)
    requires from < |query|
    ensures from <= position <= |query| && Words(isSpace, query[from..]) == Words(isSpace, query[position..])
    ensures position < |query| ==> !isSpace(query[position])
  {
    position := from;
    while position < |query| && isSpace(query[position])
      invariant from <= position <= |query|
      invariant Words(isSpace, query[from..]) == Words(isSpace, query[position..])
    {
      assert query[position..][1..] == query[position + 1..];
      position := position + 1;
    }
  }

  /** What a query asks for: nothing unless the trigger and a separator begin it and words follow. */
  function Parsed(fold: Fold, isSpace: Byte -> bool, query: Text): ParsedQuery {
    var tokens := if |query| < 3 then [] else FoldAll(fold, Words(isSpace, query[3..]));
    if |query| < 4 || fold(query[..3]) != TRIGGER || !isSpace(query[3]) || tokens == [] then Ignore
    else if tokens == [NEW_COMMAND] then Create
    else Lookup(tokens)
  }

  /** `parseRunnerQuery`. */
  method ParseRunnerQuery(fold: Fold, isSpace: Byte -> bool, query: Text) returns (r: ParsedQuery)
    ensures r == Parsed(fold, isSpace, query)
    ensures r.Lookup? ==> r.tokens != []
  {
    if |query| < 3 || fold(query[..3]) != TRIGGER {
      return Ignore;
    }
    if |query| == 3 {
      return Ignore;
    }
    if !isSpace(query[3]) {
      return Ignore;
    }
    var tokens := FoldedTokens(fold, isSpace, query, 3);
    if tokens == [] {
      return Ignore;
    }
    if |tokens| == 1 && tokens[0] == NEW_COMMAND {
      return Create;
    }
    return Lookup(tokens);
  }

  lemma WordEnds(isSpace: Byte -> bool, text: Text, n: nat)
    requires n <= |text| && (forall i :: 0 <= i < n ==> !isSpace(text[i])) && (n < |text| ==> isSpace(text[n]))
    ensures WordLength(isSpace, text) == n
  {
  }

  /** A query that does not begin with the trigger and a separator asks for nothing. */
  lemma OthersAreIgnored(fold: Fold, isSpace: Byte -> bool, query: Text)
    ensures (|query| < 4 || fold(query[..3]) != Ascii("rem") || !isSpace(query[3])) ==> Parsed(fold, isSpace, query) == Ignore
  {
    if |query| < 4 {
      assert |query| == 3 ==> query[3..] == [];
    }
  }

  /** Behind the trigger, words apart are looked up, folded; the one word `new` asks for a new connection; no word for nothing. */
  lemma QueryMeans(fold: Fold, isSpace: Byte -> bool, head: Text, pieces: seq<Piece>, tail: Text)
    requires |head| == 3 && fold(head) == Ascii("rem")
    requires IsSeparator(isSpace, tail) && (if pieces == [] then tail != [] else pieces[0].separator != [])
    requires forall k :: 0 <= k < |pieces| ==>
               IsSeparator(isSpace, pieces[k].separator) && IsWord(isSpace, pieces[k].word) && (k > 0 ==> pieces[k].separator != [])
    ensures var r := Parsed(fold, isSpace, head + Spaced(pieces, tail));
            if pieces == [] then r == Ignore
            else if |pieces| == 1 && fold(pieces[0].word) == Ascii("new") then r == Create
            else r.Lookup? && |r.tokens| == |pieces| && forall k :: 0 <= k < |pieces| ==> r.tokens[k] == fold(pieces[k].word)
  {
    hide Words, IsSeparator, IsWord;
    var query, words := head + Spaced(pieces, tail), WordsOf(pieces);
    SpacedWordsAreRead(isSpace, pieces, tail);
    assert query[..3] == head && query[3..] == Spaced(pieces, tail);
    assert isSpace(query[3]) by { SpacedBegins(isSpace, pieces, tail); }
    WordsAreThose(pieces);
    assert Ascii("new") == NEW_COMMAND;
    assert |pieces| == 1 ==> FoldAll(fold, words) == [fold(pieces[0].word)];
  }

  lemma SpacedBegins(isSpace: Byte -> bool, pieces: seq<Piece>, tail: Text)
    requires IsSeparator(isSpace, tail) && (if pieces == [] then tail != [] else pieces[0].separator != [])
    requires pieces != [] ==> IsSeparator(isSpace, pieces[0].separator)
    ensures Spaced(pieces, tail) != [] && isSpace(Spaced(pieces, tail)[0])
  {
  }

  lemma {:induction false} WordsAreThose(pieces: seq<Piece>)
    ensures |WordsOf(pieces)| == |pieces| && forall k :: 0 <= k < |pieces| ==> WordsOf(pieces)[k] == pieces[k].word
  {
    if pieces != [] {
      WordsAreThose(pieces[1..]);
    }
  }

  // ---- What a ranking means ----

  /** How a text may be in a field: it is the field, begins it, or occurs in it. */
  datatype Way = Whole | Beginning | Inside

  ghost predicate IsIn(field: Text, token: Text, way: Way) {
    match way
    case Whole => field == token
    case Beginning => token <= field
    case Inside => exists front, back :: field == front + token + back
  }

  /** The text is in the folded name, the folded server or a folded label. */
  ghost predicate IsInSomeField(fold: Fold, record: ProfileRecord, token: Text, way: Way) {
    || IsIn(fold(record.fields.name), token, way) || IsIn(fold(record.fields.server), token, way)
    || exists text :: text in record.fields.labels && IsIn(fold(text), token, way)
  }

  /** Every token, folded, is in some field. */
  ghost predicate AreInFields(fold: Fold, record: ProfileRecord, tokens: seq<Text>, way: Way) {
    forall t :: t in tokens ==> IsInSomeField(fold, record, fold(t), way)
  }

  lemma FieldsAre(fold: Fold, record: ProfileRecord, token: Text, way: Way)
    ensures IsInSomeField(fold, record, token, way) <==>
              exists i :: 0 <= i < |SearchableFields(fold, record)| && IsIn(SearchableFields(fold, record)[i], token, way)
  {
    hide IsIn;
    var fields, labels := SearchableFields(fold, record), record.fields.labels;
    assert fields[0] == fold(record.fields.name) && fields[1] == fold(record.fields.server);
    assert forall k :: 0 <= k < |labels| ==> fields[k + 2] == fold(labels[k]);
    if text :| text in labels && IsIn(fold(text), token, way) {
      var k :| 0 <= k < |labels| && labels[k] == text;
      assert IsIn(fields[k + 2], token, way);
    }
    if i :| 0 <= i < |fields| && IsIn(fields[i], token, way) {
      assert i >= 2 ==> labels[i - 2] in labels;
    }
  }

  /** What the best score of a token says: whether some field is the token, begins with it, or contains it. */
  lemma BestScoreMeans(fold: Fold, record: ProfileRecord, token: Text)
    ensures var score := BestScore(SearchableFields(fold, record), token);
            && score in {1.0, 0.9, 0.75, 0.0}
            && (score >= 1.0 <==> IsInSomeField(fold, record, token, Whole))
            && (score >= 0.9 <==> IsInSomeField(fold, record, token, Beginning))
            && (score > 0.0 <==> IsInSomeField(fold, record, token, Inside))
  {
    hide SearchableFields;
    var fields := SearchableFields(fold, record);
    FieldsAre(fold, record, token, Whole);
    FieldsAre(fold, record, token, Beginning);
    FieldsAre(fold, record, token, Inside);
    assert IsBestScore(fields, token, BestScore(fields, token));
    forall i | 0 <= i < |fields|
      ensures IsIn(fields[i], token, Inside) <==> Contains(fields[i], token)
      ensures token <= fields[i] ==> Contains(fields[i], token)
    {
      ContainsExactly(fields[i], token);
    }
  }

  lemma FoldedTokensAre(fold: Fold, tokens: seq<Text>)
    ensures forall t :: t in tokens ==> fold(t) in FoldAll(fold, tokens)
    ensures forall u :: u in FoldAll(fold, tokens) ==> exists t :: t in tokens && fold(t) == u
  {
    forall t | t in tokens
      ensures fold(t) in FoldAll(fold, tokens)
    {
      var k :| 0 <= k < |tokens| && tokens[k] == t;
      assert FoldAll(fold, tokens)[k] == fold(t);
    }
    forall u | u in FoldAll(fold, tokens)
      ensures exists t :: t in tokens && fold(t) == u
    {
      var k :| 0 <= k < |tokens| && FoldAll(fold, tokens)[k] == u;
      assert tokens[k] in tokens;
    }
  }

  lemma {:induction false} SomeRelevance(fields: seq<Text>, tokens: seq<Text>) returns (relevance: real)
    requires forall t :: t in tokens ==> BestScore(fields, t) > 0.0
    ensures IsRelevance(fields, tokens, relevance)
  {
    if tokens == [] {
      relevance := EXACT_SCORE;
    } else {
      var before := SomeRelevance(fields, tokens[1..]);
      var score := BestScore(fields, tokens[0]);
      assert tokens == [tokens[0]] + tokens[1..];
      relevance := if score < before then score else before;
    }
  }

  /** With every token found, the relevance is the least of a few scores. */
  lemma RelevanceMeans(fields: seq<Text>, tokens: seq<Text>, relevance: real, least: real)
    requires IsRelevance(fields, tokens, relevance) && least <= 1.0
    requires forall t :: t in tokens ==> BestScore(fields, t) in {1.0, 0.9, 0.75, 0.0}
    ensures relevance in {1.0, 0.9, 0.75}
    ensures relevance >= least <==> forall t :: t in tokens ==> BestScore(fields, t) >= least
  {
  }

  /**
    A profile matches exactly if each token, folded, occurs in its folded name, server or a label; the
    relevance says whether each is such a field, or begins one, or only occurs.
   */
  lemma MatchMeans(fold: Fold, profiles: seq<ProfileRecord>, tokens: seq<Text>, record: ProfileRecord)
    ensures (exists relevance :: IsMatch(fold, profiles, tokens, SearchMatch(record, relevance))) <==>
              record in profiles && AreInFields(fold, record, tokens, Inside)
    ensures forall relevance :: IsMatch(fold, profiles, tokens, SearchMatch(record, relevance)) ==>
              && relevance in {1.0, 0.9, 0.75}
              && (relevance == 1.0 <==> AreInFields(fold, record, tokens, Whole))
              && (relevance >= 0.9 <==> AreInFields(fold, record, tokens, Beginning))
  {
    hide BestScore, SearchableFields, FoldAll, IsInSomeField, RelationshipScore, IsRelevance;
    var fields, folded := SearchableFields(fold, record), FoldAll(fold, tokens);
    FoldedTokensAre(fold, tokens);
    ScoresMean(fold, record, tokens);
    if record in profiles && AreInFields(fold, record, tokens, Inside) {
      var relevance := SomeRelevance(fields, folded);
      assert IsMatch(fold, profiles, tokens, SearchMatch(record, relevance));
    }
    forall relevance | IsMatch(fold, profiles, tokens, SearchMatch(record, relevance))
      ensures && relevance in {1.0, 0.9, 0.75}
              && (forall t :: t in folded ==> BestScore(fields, t) >= 0.75)
              && (relevance == 1.0 <==> forall t :: t in folded ==> BestScore(fields, t) >= 1.0)
              && (relevance >= 0.9 <==> forall t :: t in folded ==> BestScore(fields, t) >= 0.9)
    {
      RelevanceMeans(fields, folded, relevance, 1.0);
      RelevanceMeans(fields, folded, relevance, 0.9);
      RelevanceMeans(fields, folded, relevance, 0.75);
    }
  }

  /** What the scores of all tokens say. */
  lemma ScoresMean(fold: Fold, record: ProfileRecord, tokens: seq<Text>)
    ensures var fields, folded := SearchableFields(fold, record), FoldAll(fold, tokens);
            && (forall t :: t in folded ==> BestScore(fields, t) in {1.0, 0.9, 0.75, 0.0})
            && ((forall t :: t in folded ==> BestScore(fields, t) >= 1.0) <==>
                  AreInFields(fold, record, tokens, Whole))
            && ((forall t :: t in folded ==> BestScore(fields, t) >= 0.9) <==>
                  AreInFields(fold, record, tokens, Beginning))
            && ((forall t :: t in folded ==> BestScore(fields, t) > 0.0) <==>
                  AreInFields(fold, record, tokens, Inside))
  {
    hide BestScore, SearchableFields, FoldAll, IsInSomeField, RelationshipScore;
    FoldedTokensAre(fold, tokens);
    forall t | t in tokens
      ensures var score := BestScore(SearchableFields(fold, record), fold(t));
              && score in {1.0, 0.9, 0.75, 0.0}
              && (score >= 1.0 <==> IsInSomeField(fold, record, fold(t), Whole))
              && (score >= 0.9 <==> IsInSomeField(fold, record, fold(t), Beginning))
              && (score > 0.0 <==> IsInSomeField(fold, record, fold(t), Inside))
    {
      BestScoreMeans(fold, record, fold(t));
    }
  }

  /** In a ranking the relevance never rises; below that folded names, folded servers and paths never fall. */
  lemma RankedInOrder(fold: Fold, profiles: seq<ProfileRecord>, tokens: seq<Text>, matches: seq<SearchMatch>, i: nat,
                      j: nat)
    requires IsRanking(fold, profiles, tokens, matches) && i < j < |matches|
    ensures matches[i].relevance >= matches[j].relevance
    ensures matches[i].relevance == matches[j].relevance ==>
              var a, b := matches[i].record, matches[j].record;
              && TextLeq(fold(a.fields.name), fold(b.fields.name))
              && (fold(a.fields.name) == fold(b.fields.name) ==>
                    && TextLeq(fold(a.fields.server), fold(b.fields.server))
                    && (fold(a.fields.server) == fold(b.fields.server) ==> TextLeq(a.sourcePath, b.sourcePath)))
  {
    TextLeqIsTotalOrder();
    assert MatchLeq(fold, matches[i], matches[j]);
  }
}
