/** Fetching documents: a subscription delivers a finite sequence of events
    before end-of-stored-events; the callbacks forward each one and keep the
    latest, overall or per `d` identifier. */
module FetchFile {

  import opened Nostr

  /** One step of `if (!latest || e.created_at > latest.created_at) latest = e`. */
  function LatestStep(latest: Option<Event>, e: Event): Option<Event>
  {
    if latest.None? || e.createdAt > latest.value.createdAt then Some(e) else latest
  }

  /** The latest event of a delivery: the fold of LatestStep from null. */
  function LatestOf(s: seq<Event>): (r: Option<Event>)
    ensures r.Some? <==> |s| > 0
  {
    if |s| == 0 then None else LatestStep(LatestOf(s[..|s| - 1]), s[|s| - 1])
  }

  /** The latest event is delivered and no delivered event is newer. */
  lemma {:induction false} LatestOfIsMaximal(s: seq<Event>)
    requires |s| > 0
    ensures LatestOf(s).value in s
    ensures forall j :: 0 <= j < |s| ==> s[j].createdAt <= LatestOf(s).value.createdAt
  {
    if |s| > 1 {
      var init := s[..|s| - 1];
      LatestOfIsMaximal(init);
      assert forall j :: 0 <= j < |init| ==> s[j] == init[j];
    }
  }

  /** On ties the earliest delivered event wins: if `s[k]` is newest and every
      event before it is strictly older, it is the one kept. */
  lemma {:induction false} LatestOfKeepsFirstOnTies(s: seq<Event>, k: nat)
    requires k < |s|
    requires forall j :: 0 <= j < |s| ==> s[j].createdAt <= s[k].createdAt
    requires forall j :: 0 <= j < k ==> s[j].createdAt < s[k].createdAt
    ensures LatestOf(s) == Some(s[k])
  {
    var init := s[..|s| - 1];
    if k < |s| - 1 {
      LatestOfKeepsFirstOnTies(init, k);
    } else if |s| > 1 {
      LatestOfIsMaximal(init);
      var p := LatestOf(init).value;
      var i :| 0 <= i < |init| && init[i] == p;
      assert s[i] == p;
    }
  }

  /** The first tag of at least two elements named "d" gives the identifier. */
  function FetchDTag(tags: seq<Tag>): Option<string>
  {
    if |tags| == 0 then None
    else if |tags[0]| >= 2 && tags[0][0] == "d" then Some(tags[0][1])
    else FetchDTag(tags[1..])
  }

  /** One iteration of the grouping loop over `documents`. */
  function GroupStep(grouped: map<string, Event>, e: Event): map<string, Event>
  {
    match FetchDTag(e.tags)
    case None => grouped
    case Some(d) =>
      if d != "" && (d !in grouped || e.createdAt > grouped[d].createdAt)
      then grouped[d := e] else grouped
  }

  /** The record built at end-of-stored-events. */
  function GroupLatest(s: seq<Event>): map<string, Event>
  {
    if |s| == 0 then map[] else GroupStep(GroupLatest(s[..|s| - 1]), s[|s| - 1])
  }

  /** The delivered events whose identifier is `d`, in delivery order. */
  function WithD(s: seq<Event>, d: string): (r: seq<Event>)
    ensures forall e :: e in r ==> e in s && FetchDTag(e.tags) == Some(d)
  {
    if |s| == 0 then []
    else WithD(s[..|s| - 1], d) + (if FetchDTag(s[|s| - 1].tags) == Some(d) then [s[|s| - 1]] else [])
  }

  /** Per identifier, the grouping keeps exactly LatestOf of that identifier's
      events: an identifier is a key iff it is non-empty and some event
      carries it, and its value is the newest such event, first on ties. */
  lemma {:induction false} GroupLatestIsLatestPerIdentifier(s: seq<Event>, d: string)
    ensures d in GroupLatest(s) <==> d != "" && |WithD(s, d)| > 0
    ensures d in GroupLatest(s) ==> GroupLatest(s)[d] == LatestOf(WithD(s, d)).value
  {
    if |s| > 0 {
      var init := s[..|s| - 1];
      var e := s[|s| - 1];
      GroupLatestIsLatestPerIdentifier(init, d);
      var w := WithD(init, d);
      if FetchDTag(e.tags) == Some(d) {
        assert WithD(s, d) == w + [e];
        assert (w + [e])[..|w|] == w;
      } else {
        assert WithD(s, d) == w;
      }
    }
  }

  /** Every kept event is delivered and carries its key as identifier; so an
      event without a non-empty identifier is never in the result. */
  lemma GroupedEventsCarryTheirKey(s: seq<Event>, d: string)
    requires d in GroupLatest(s)
    ensures GroupLatest(s)[d] in s
    ensures FetchDTag(GroupLatest(s)[d].tags) == Some(d) && d != ""
    ensures forall j :: 0 <= j < |s| && FetchDTag(s[j].tags) == Some(d) ==>
              s[j].createdAt <= GroupLatest(s)[d].createdAt
  {
    GroupLatestIsLatestPerIdentifier(s, d);
    var w := WithD(s, d);
    LatestOfIsMaximal(w);
    forall j | 0 <= j < |s| && FetchDTag(s[j].tags) == Some(d)
      ensures s[j] in w
    {
      WithDContains(s, d, j);
    }
  }

  lemma {:induction false} WithDContains(s: seq<Event>, d: string, j: nat)
    requires j < |s| && FetchDTag(s[j].tags) == Some(d)
    ensures s[j] in WithD(s, d)
  {
    if j < |s| - 1 {
      WithDContains(s[..|s| - 1], d, j);
    }
  }

  /** fetchAllDocuments: `forwarded` are the addDocument callbacks, `grouped`
      the record whose values resolve the promise. */
  method FetchAllDocuments(delivered: seq<Event>) returns (forwarded: seq<Event>, grouped: map<string, Event>)
    ensures forwarded == delivered
    ensures grouped == GroupLatest(delivered)
  {
    // onevent
    var documents: seq<Event> := [];
    forwarded := [];
    for i := 0 to |delivered|
      invariant documents == delivered[..i] && forwarded == delivered[..i]
    {
      documents := documents + [delivered[i]];
      forwarded := forwarded + [delivered[i]];
    }
    assert documents == delivered;
    // oneose
    grouped := map[];
    for i := 0 to |documents|
      invariant grouped == GroupLatest(documents[..i])
    {
      var event := documents[i];
      var dTag: Option<string> := None;
      var j := 0;
      while j < |event.tags|
        invariant 0 <= j <= |event.tags|
        invariant FetchDTag(event.tags) == FetchDTag(event.tags[j..])
        invariant dTag == None
      {
        var tag := event.tags[j];
        assert event.tags[j..][1..] == event.tags[j + 1..];
        if |tag| >= 2 && tag[0] == "d" {
          dTag := Some(tag[1]);
          break;
        }
        j := j + 1;
      }
      assert dTag == FetchDTag(event.tags);
      if dTag.Some? && dTag.value != "" {
        var d := dTag.value;
        if d !in grouped || event.createdAt > grouped[d].createdAt {
          grouped := grouped[d := event];
        }
      }
      assert documents[..i + 1][..i] == documents[..i];
    }
    assert documents[..|documents|] == documents;
  }

  /** The shared callback of fetchDocumentByNaddr and fetchEventsByKind:
      forwards every event and keeps the latest, resolving with it (None for
      null) at end-of-stored-events. */
  method CollectLatest(delivered: seq<Event>) returns (forwarded: seq<Event>, latest: Option<Event>)
    ensures forwarded == delivered
    ensures latest == LatestOf(delivered)
  {
    latest := None;
    forwarded := [];
    for i := 0 to |delivered|
      invariant forwarded == delivered[..i]
      invariant latest == LatestOf(delivered[..i])
    {
      var event := delivered[i];
      if latest.None? || event.createdAt > latest.value.createdAt {
        latest := Some(event);
      }
      forwarded := forwarded + [event];
      assert delivered[..i + 1][..i] == delivered[..i];
    }
    assert delivered[..|delivered|] == delivered;
  }
}
