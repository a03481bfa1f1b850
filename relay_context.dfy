/** The relay context: the relays the application talks to, taken from the
    user's NIP-65 relay list (kind 10002) when there is one. */
module RelayContext {

  import opened Nostr
  import opened StableSort
  import opened FetchFile

  /** src/nostr/relayPool.ts. A relay URL read from a tag may be undefined,
      hence `Option`. */
  const DEFAULT_RELAYS: seq<Option<string>> :=
    [Some("wss://relay.damus.io"), Some("wss://relay.primal.net"), Some("wss://nos.lol")]

  /** The outcome of `querySync`: the delivered events, or a rejection. */
  datatype QueryResult = QueryOk(results: seq<Event>) | QueryError

  /** `tags.filter((tag) => tag[0] === "r").map((tag) => tag[1])`. */
  function UserRelayUrls(tags: seq<Tag>): (urls: seq<Option<string>>)
    ensures |urls| <= |tags|
  {
    if |tags| == 0 then []
    else
      var rest := UserRelayUrls(tags[1..]);
      var t := tags[0];
      if |t| > 0 && t[0] == "r" then [if |t| >= 2 then Some(t[1]) else None] + rest else rest
  }

  predicate IsRelayTag(t: Tag)
  {
    |t| > 0 && t[0] == "r"
  }

  /** The relay tags are read in tag order: the urls of a concatenation are
      the concatenation of the urls. */
  lemma {:induction false} UserRelayUrlsAppend(a: seq<Tag>, b: seq<Tag>)
    ensures UserRelayUrls(a + b) == UserRelayUrls(a) + UserRelayUrls(b)
  {
    if |a| > 0 {
      assert (a + b)[1..] == a[1..] + b;
      UserRelayUrlsAppend(a[1..], b);
    } else {
      assert a + b == b;
    }
  }

  /** One url per relay tag: the list is empty exactly when there is no "r" tag. */
  lemma {:induction false} UserRelayUrlsEmpty(tags: seq<Tag>)
    ensures |UserRelayUrls(tags)| == 0 <==> forall i :: 0 <= i < |tags| ==> !IsRelayTag(tags[i])
  {
    if |tags| > 0 {
      UserRelayUrlsEmpty(tags[1..]);
      assert forall i :: 1 <= i < |tags| ==> tags[i] == tags[1..][i - 1];
    }
  }

  /** The sort key of `(a, b) => b.created_at - a.created_at`: newest first. */
  function NegCreatedAt(e: Event): (k: int)
  {
    -e.createdAt
  }

  /** `results[0]` after the stable descending sort is the newest event, the
      earliest delivered on ties: the same event the fetch callbacks keep. */
  lemma {:induction false} NewestFirstHeadIsLatest(s: seq<Event>)
    requires |s| > 0
    ensures SortBy(s, NegCreatedAt)[0] == LatestOf(s).value
  {
    var init := s[..|s| - 1];
    var x := s[|s| - 1];
    var t := SortBy(init, NegCreatedAt);
    assert SortBy(s, NegCreatedAt) == InsertAfter(t, x, NegCreatedAt);
    assert LatestOf(s) == LatestStep(LatestOf(init), x);
    if |s| == 1 {
      assert init == [];
    } else {
      NewestFirstHeadIsLatest(init);
      HeadOfInsertAfter(t, x, NegCreatedAt);
    }
  }

  /** The relays and the flag a relay-list query leads to. */
  function SelectRelays(query: QueryResult): (r: (seq<Option<string>>, bool))
  {
    match query
    case QueryError => (DEFAULT_RELAYS, false)
    case QueryOk(results) =>
      if |results| == 0 then (DEFAULT_RELAYS, false)
      else
        var sorted := SortBy(results, NegCreatedAt);
        var userRelays := UserRelayUrls(sorted[0].tags);
        if |userRelays| > 0 then (userRelays, true) else (DEFAULT_RELAYS, false)
  }

  /** The selection rule: the relays of the newest relay list when it names
      any, and otherwise (also on a failed query) the defaults, with the flag
      saying which. */
  lemma SelectRelaysRule(query: QueryResult)
    ensures var r := SelectRelays(query);
            && (r.1 <==> query.QueryOk? && |query.results| > 0
                         && exists i :: 0 <= i < |LatestOf(query.results).value.tags|
                                        && IsRelayTag(LatestOf(query.results).value.tags[i]))
            && (r.1 ==> r.0 == UserRelayUrls(LatestOf(query.results).value.tags))
            && (!r.1 ==> r.0 == DEFAULT_RELAYS)
  {
    if query.QueryOk? && |query.results| > 0 {
      NewestFirstHeadIsLatest(query.results);
      UserRelayUrlsEmpty(LatestOf(query.results).value.tags);
    }
  }

  /** The provider state and its effect on a change of user. */
  class RelayProvider {
    var relays: seq<Option<string>>
    var isUsingUserRelays: bool

    constructor ()
      ensures relays == DEFAULT_RELAYS && !isUsingUserRelays
    {
      relays := DEFAULT_RELAYS;
      isUsingUserRelays := false;
    }

    /** The effect on `[user]`: logged out resets to the defaults; logged in
      runs the query, `query` being its outcome. */
    method UserChanged(loggedIn: bool, query: QueryResult)
      modifies this
      ensures !loggedIn ==> relays == DEFAULT_RELAYS && !isUsingUserRelays
      ensures loggedIn ==> (relays, isUsingUserRelays) == SelectRelays(query)
      ensures isUsingUserRelays ==> |relays| > 0
    {
      if !loggedIn {
        relays := DEFAULT_RELAYS;
        isUsingUserRelays := false;
        return;
      }
      if query.QueryOk? && |query.results| > 0 {
        var results := SortBy(query.results, NegCreatedAt);
        var userRelays := UserRelayUrls(results[0].tags);
        if |userRelays| > 0 {
          relays := userRelays;
          isUsingUserRelays := true;
          return;
        }
      }
      relays := DEFAULT_RELAYS;
      isUsingUserRelays := false;
    }
  }
}
