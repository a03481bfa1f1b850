/** The shared-documents store: the list of shared-document entries
    `[address, viewKeyHex, editKeyHex?]` kept in the user's encrypted kind-11234
    event, and the version history per address that the live subscription
    builds from incoming kind-33457 events. */
module SharedDocs {

  import opened Nostr
  import opened Strings
  import opened StableSort
  import opened Helpers
  import opened FetchFile

  /** Entries of the shared-documents list: element 0 is the address. */
  type EntryList = seq<seq<string>>

  /** `t[0]`, which is undefined for an empty entry. */
  function Head(t: seq<string>): Option<string>
  {
    if |t| > 0 then Some(t[0]) else None
  }

  /** `findIndex((t) => t[0] === key)`, with None for -1. */
  function FindIndex(entries: EntryList, key: Option<string>): (r: Option<nat>)
    ensures r.Some? ==> r.value < |entries| && Head(entries[r.value]) == key
    ensures r.Some? ==> forall j :: 0 <= j < r.value ==> Head(entries[j]) != key
    ensures r.None? ==> forall j :: 0 <= j < |entries| ==> Head(entries[j]) != key
  {
    if |entries| == 0 then None
    else if Head(entries[0]) == key then Some(0)
    else
      var rest := FindIndex(entries[1..], key);
      if rest.None? then None else Some(rest.value + 1)
  }

  /** getKeys: the keys after element 0 of the first entry for `id`, or []. */
  function GetKeys(entries: EntryList, id: string): (r: seq<string>)
    ensures (forall i :: 0 <= i < |entries| ==> Head(entries[i]) != Some(id)) ==> r == []
    ensures forall i :: (0 <= i < |entries| && Head(entries[i]) == Some(id)
              && (forall j :: 0 <= j < i ==> Head(entries[j]) != Some(id))) ==> r == entries[i][1..]
  {
    var k := FindIndex(entries, Some(id));
    if k.None? then [] else entries[k.value][1..]
  }

  /** The add-or-update step of addSharedDoc: the first entry with the same
      address is replaced in place, otherwise the tag is appended. */
  function AddOrReplace(entries: EntryList, tag: seq<string>): (r: EntryList)
    ensures |entries| <= |r| <= |entries| + 1
    ensures (forall i :: 0 <= i < |entries| ==> Head(entries[i]) != Head(tag)) ==> r == entries + [tag]
    ensures forall i :: (0 <= i < |entries| && Head(entries[i]) == Head(tag)
              && (forall j :: 0 <= j < i ==> Head(entries[j]) != Head(tag))) ==>
              |r| == |entries| && r[i] == tag
              && forall j :: 0 <= j < |r| && j != i ==> r[j] == entries[j]
  {
    var k := FindIndex(entries, Head(tag));
    if k.Some? then entries[k.value := tag] else entries + [tag]
  }

  /** Adding an entry makes getKeys return its keys. */
  lemma AddThenGetKeys(entries: EntryList, tag: seq<string>)
    requires |tag| > 0
    ensures GetKeys(AddOrReplace(entries, tag), tag[0]) == tag[1..]
  {
    var r := AddOrReplace(entries, tag);
    var k := FindIndex(entries, Head(tag));
    if k.None? {
      assert r == entries + [tag];
      assert forall j :: 0 <= j < |entries| ==> r[j] == entries[j];
      assert Head(r[|entries|]) == Some(tag[0]);
      assert forall j :: 0 <= j < |entries| ==> Head(r[j]) != Some(tag[0]);
    }
  }

  /** Adding an entry leaves getKeys of every other address unchanged. */
  lemma AddLeavesOtherKeys(entries: EntryList, tag: seq<string>, id: string)
    requires Head(tag) != Some(id)
    ensures GetKeys(AddOrReplace(entries, tag), id) == GetKeys(entries, id)
  {
    var r := AddOrReplace(entries, tag);
    var k := FindIndex(entries, Head(tag));
    if k.None? {
      assert r == entries + [tag];
      assert forall j :: 0 <= j < |entries| ==> r[j] == entries[j];
    }
    var m := FindIndex(entries, Some(id));
    if m.Some? {
      assert forall j :: 0 <= j <= m.value ==> r[j] == entries[j] || (k.Some? && j == k.value);
    }
  }

  // ---------------------------------------------------------------------
  // Ingestion of incoming revisions

  function VersionTime(v: Version): int
  {
    v.event.createdAt
  }

  predicate HasEventId(versions: seq<Version>, id: string)
  {
    exists i :: 0 <= i < |versions| && versions[i].event.id == id
  }

  /** The admission checks of the onevent callback. Some((address, plaintext))
      when the event has a non-empty first "d" value, an entry for
      `33457:<event.pubkey>:<d>` exists with a non-empty key at index 1, and
      the content decrypts under that key's conversation key. */
  function Admit(entries: EntryList, c: Crypto, e: Event): (r: Option<(string, string)>)
    ensures r.None? <==>
              || !Present(DTagValue(e.tags))
              || FindIndex(entries, Some(FormatAddress(KIND_FILE, e.pubkey, DTagValue(e.tags).value))).None?
              || (var k := FindIndex(entries, Some(FormatAddress(KIND_FILE, e.pubkey, DTagValue(e.tags).value))).value;
                  |entries[k]| < 2 || entries[k][1] == ""
                  || c.decrypt(e.content, SelfConversationKey(c, c.hexToBytes(entries[k][1]))).None?)
    ensures r.Some? ==> r.value.0 == FormatAddress(KIND_FILE, e.pubkey, DTagValue(e.tags).value)
  {
    var dTag := DTagValue(e.tags);
    if !Present(dTag) then None
    else
      var address := FormatAddress(KIND_FILE, e.pubkey, dTag.value);
      var k := FindIndex(entries, Some(address));
      if k.None? then None
      else
        var keys := entries[k.value];
        if |keys| < 2 || keys[1] == "" then None
        else
          match c.decrypt(e.content, SelfConversationKey(c, c.hexToBytes(keys[1])))
          case None => None
          case Some(plain) => Some((address, plain))
  }

  /** The state update passed to setSharedDocuments for an admitted event. */
  function AddVersion(prev: map<string, History>, address: string, v: Version): map<string, History>
  {
    var history := if address in prev then prev[address] else History(address, []);
    if HasEventId(history.versions, v.event.id) then prev
    else prev[address := history.(versions := SortBy(history.versions + [v], VersionTime))]
  }

  /** The onevent callback: an event that is not admitted leaves the map as it was. */
  function IngestEvent(prev: map<string, History>, entries: EntryList, c: Crypto, e: Event): (r: map<string, History>)
    ensures Admit(entries, c, e).None? ==> r == prev
  {
    var admitted := Admit(entries, c, e);
    if admitted.None? then prev else AddVersion(prev, admitted.value.0, Version(e, admitted.value.1))
  }

  /** The history an admitted event goes to, before the update. */
  function PriorVersions(prev: map<string, History>, address: string): seq<Version>
  {
    if address in prev then prev[address].versions else []
  }

  /** For a kind-33457 event the map key is its getEventAddress. */
  lemma IngestKeyIsEventAddress(entries: EntryList, c: Crypto, e: Event)
    requires e.kind == KIND_FILE && Admit(entries, c, e).Some?
    ensures GetEventAddress(e) == Some(Admit(entries, c, e).value.0)
  {
  }

  /** Redelivery of an event whose id is already in its history is a no-op. */
  lemma IngestDuplicateIsNoop(prev: map<string, History>, entries: EntryList, c: Crypto, e: Event)
    requires Admit(entries, c, e).Some?
    requires HasEventId(PriorVersions(prev, Admit(entries, c, e).value.0), e.id)
    ensures IngestEvent(prev, entries, c, e) == prev
  {
  }

  /** Adding a version puts it into its address's history. */
  lemma AddVersionContains(prev: map<string, History>, address: string, v: Version)
    ensures var r := AddVersion(prev, address, v);
            address in r && HasEventId(r[address].versions, v.event.id)
  {
    var old_ := PriorVersions(prev, address);
    if !HasEventId(old_, v.event.id) {
      var sorted := SortBy(old_ + [v], VersionTime);
      assert v in multiset(old_ + [v]);
      assert v in multiset(sorted);
      var i :| 0 <= i < |sorted| && sorted[i] == v;
    } else {
      assert address in prev;
    }
  }

  /** Ingestion is idempotent. */
  lemma IngestIdempotent(prev: map<string, History>, entries: EntryList, c: Crypto, e: Event)
    ensures IngestEvent(IngestEvent(prev, entries, c, e), entries, c, e) == IngestEvent(prev, entries, c, e)
  {
    var a := Admit(entries, c, e);
    if a.Some? {
      var v := Version(e, a.value.1);
      var once := AddVersion(prev, a.value.0, v);
      IngestIsAddVersion(prev, entries, c, e);
      IngestIsAddVersion(once, entries, c, e);
      AddVersionIdempotent(prev, a.value.0, v);
    }
  }

  /** An admitted event goes through AddVersion. */
  lemma IngestIsAddVersion(prev: map<string, History>, entries: EntryList, c: Crypto, e: Event)
    requires Admit(entries, c, e).Some?
    ensures IngestEvent(prev, entries, c, e)
            == AddVersion(prev, Admit(entries, c, e).value.0, Version(e, Admit(entries, c, e).value.1))
  {
    var admitted := Admit(entries, c, e);
    assert IngestEvent(prev, entries, c, e) == AddVersion(prev, admitted.value.0, Version(e, admitted.value.1));
  }

  /** Adding the same version twice is adding it once. */
  lemma AddVersionIdempotent(prev: map<string, History>, address: string, v: Version)
    ensures AddVersion(AddVersion(prev, address, v), address, v) == AddVersion(prev, address, v)
  {
    var once := AddVersion(prev, address, v);
    AddVersionContains(prev, address, v);
    assert PriorVersions(once, address) == once[address].versions;
  }

  /** A new event adds exactly one version to its address (keeping all the
      old ones) and leaves every other address untouched. */
  lemma IngestNewAddsOneVersion(prev: map<string, History>, entries: EntryList, c: Crypto, e: Event)
    requires Admit(entries, c, e).Some?
    requires !HasEventId(PriorVersions(prev, Admit(entries, c, e).value.0), e.id)
    ensures var address := Admit(entries, c, e).value.0;
            var r := IngestEvent(prev, entries, c, e);
            && r.Keys == prev.Keys + {address}
            && (forall a :: a in prev && a != address ==> r[a] == prev[a])
            && multiset(r[address].versions)
               == multiset(PriorVersions(prev, address)) + multiset{Version(e, Admit(entries, c, e).value.1)}
            && |r[address].versions| == |PriorVersions(prev, address)| + 1
  {
    var address := Admit(entries, c, e).value.0;
    var v := Version(e, Admit(entries, c, e).value.1);
    IngestIsAddVersion(prev, entries, c, e);
    AddFreshVersion(prev, address, v);
  }

  lemma AddFreshVersion(prev: map<string, History>, address: string, v: Version)
    requires !HasEventId(PriorVersions(prev, address), v.event.id)
    ensures var r := AddVersion(prev, address, v);
            && r.Keys == prev.Keys + {address}
            && (forall a :: a in prev && a != address ==> r[a] == prev[a])
            && multiset(r[address].versions) == multiset(PriorVersions(prev, address)) + multiset{v}
            && |r[address].versions| == |PriorVersions(prev, address)| + 1
  {
    var history := if address in prev then prev[address] else History(address, []);
    assert history.versions == PriorVersions(prev, address);
    var sorted := SortBy(history.versions + [v], VersionTime);
    assert AddVersion(prev, address, v) == prev[address := history.(versions := sorted)];
    assert multiset(sorted) == multiset(history.versions) + multiset{v};
  }

  /** After ingestion the history is sorted by created_at; when it was sorted
      before, the new version lands after every version with a timestamp not
      greater than its own, in particular after equal timestamps (stable sort). */
  lemma IngestKeepsTimestampOrder(prev: map<string, History>, entries: EntryList, c: Crypto, e: Event)
    requires Admit(entries, c, e).Some?
    requires !HasEventId(PriorVersions(prev, Admit(entries, c, e).value.0), e.id)
    requires SortedBy(PriorVersions(prev, Admit(entries, c, e).value.0), VersionTime)
    ensures var address := Admit(entries, c, e).value.0;
            var v := Version(e, Admit(entries, c, e).value.1);
            var old_ := PriorVersions(prev, address);
            var r := IngestEvent(prev, entries, c, e)[address].versions;
            var k := InsertionPoint(old_, v, VersionTime);
            && SortedBy(r, VersionTime)
            && r == old_[..k] + [v] + old_[k..]
            && (forall i :: 0 <= i < k ==> old_[i].event.createdAt <= e.createdAt)
            && (forall i :: k <= i < |old_| ==> old_[i].event.createdAt > e.createdAt)
  {
    var address := Admit(entries, c, e).value.0;
    var v := Version(e, Admit(entries, c, e).value.1);
    var old_ := PriorVersions(prev, address);
    SortByAppend(old_, v, VersionTime);
    InsertAfterShape(old_, v, VersionTime);
    InsertionPointSplits(old_, v, VersionTime);
  }

  /** The store invariant: each history is filed under its own address, is
      non-empty, sorted by created_at, and holds no event id twice. */
  ghost predicate StoreValid(m: map<string, History>)
  {
    forall a :: a in m ==> HistoryValid(m[a], a)
  }

  ghost predicate HistoryValid(h: History, a: string)
  {
    && h.address == a
    && |h.versions| > 0
    && SortedBy(h.versions, VersionTime)
    && DistinctIds(h.versions)
  }

  ghost predicate DistinctIds(vs: seq<Version>)
  {
    forall i, j :: 0 <= i < j < |vs| ==> vs[i].event.id != vs[j].event.id
  }

  /** Inserting a version with a fresh id into a sorted, duplicate-free
      history keeps it so. */
  lemma InsertFreshKeepsHistoryValid(old_: seq<Version>, v: Version)
    requires SortedBy(old_, VersionTime) && DistinctIds(old_) && !HasEventId(old_, v.event.id)
    ensures var r := SortBy(old_ + [v], VersionTime);
            |r| > 0 && SortedBy(r, VersionTime) && DistinctIds(r)
  {
    SortByAppend(old_, v, VersionTime);
    InsertAfterShape(old_, v, VersionTime);
    InsertFreshDistinct(old_, InsertionPoint(old_, v, VersionTime), v);
  }

  lemma InsertFreshDistinct(s: seq<Version>, k: nat, v: Version)
    requires k <= |s| && DistinctIds(s) && !HasEventId(s, v.event.id)
    ensures DistinctIds(s[..k] + [v] + s[k..])
  {
    var r := s[..k] + [v] + s[k..];
    forall i | 0 <= i < |r|
      ensures r[i] == (if i < k then s[i] else if i == k then v else s[i - 1])
    {
      if i < k {
        assert r[i] == s[..k][i];
      } else if i > k {
        assert r[i] == s[k..][i - k - 1];
      }
    }
    forall i, j | 0 <= i < j < |r|
      ensures r[i].event.id != r[j].event.id
    {
      if i == k {
        assert r[j] == s[j - 1];
      } else if j == k {
        assert r[i] == s[i];
      }
    }
  }

  /** Adding a version preserves the store invariant. */
  lemma AddVersionPreservesStoreValid(prev: map<string, History>, address: string, v: Version)
    requires StoreValid(prev)
    ensures StoreValid(AddVersion(prev, address, v))
  {
    var history := if address in prev then prev[address] else History(address, []);
    if !HasEventId(history.versions, v.event.id) {
      var updated := history.(versions := SortBy(history.versions + [v], VersionTime));
      UpdatedHistoryValid(prev, address, history, v);
      StoreValidUpdate(prev, address, updated);
    }
  }

  lemma UpdatedHistoryValid(prev: map<string, History>, address: string, history: History, v: Version)
    requires StoreValid(prev)
    requires history == if address in prev then prev[address] else History(address, [])
    requires !HasEventId(history.versions, v.event.id)
    ensures HistoryValid(history.(versions := SortBy(history.versions + [v], VersionTime)), address)
  {
    if address in prev {
      assert HistoryValid(prev[address], address);
    }
    InsertFreshKeepsHistoryValid(history.versions, v);
  }

  lemma StoreValidUpdate(prev: map<string, History>, address: string, h: History)
    requires StoreValid(prev) && HistoryValid(h, address)
    ensures StoreValid(prev[address := h])
  {
    var r := prev[address := h];
    forall a | a in r
      ensures HistoryValid(r[a], a)
    {
      if a != address {
        assert r[a] == prev[a];
      }
    }
  }

  /** Ingestion preserves the store invariant. */
  lemma IngestPreservesStoreValid(prev: map<string, History>, entries: EntryList, c: Crypto, e: Event)
    requires StoreValid(prev)
    ensures StoreValid(IngestEvent(prev, entries, c, e))
  {
    match Admit(entries, c, e)
    case None =>
    case Some((address, plain)) =>
      AddVersionPreservesStoreValid(prev, address, Version(e, plain));
  }

  /** In a valid store the latest version of a history is its newest. */
  lemma LatestVersionIsNewest(m: map<string, History>, address: string)
    requires StoreValid(m) && address in m
    ensures GetLatestVersion(m[address]).Some?
    ensures forall v :: v in m[address].versions ==>
              v.event.createdAt <= GetLatestVersion(m[address]).value.event.createdAt
  {
    assert HistoryValid(m[address], address);
    var vs := m[address].versions;
    forall v | v in vs
      ensures v.event.createdAt <= vs[|vs| - 1].event.createdAt
    {
      var i :| 0 <= i < |vs| && vs[i] == v;
      if i < |vs| - 1 {
        assert VersionTime(vs[i]) <= VersionTime(vs[|vs| - 1]);
      }
    }
  }

  // ---------------------------------------------------------------------
  // The subscription and the refresh of the shared-documents list

  /** The relay filter of fetchSharedDocuments. `d` and `authors` hold
      `a.split(":")[2]` and `[1]` of every entry with an element 0, undefined
      (None) when the address has too few parts. */
  datatype Filter = Filter(dTags: seq<Option<string>>, authors: seq<Option<string>>, kinds: seq<nat>)

  /** An open subscription and the entry list its callback captured. */
  datatype Subscription = Subscription(entries: EntryList, filter: Filter)

  /** The entries that have an element 0, in order. */
  function NonEmptyEntries(entries: EntryList): (r: EntryList)
    ensures |r| <= |entries|
    ensures forall k :: 0 <= k < |r| ==> |r[k]| > 0
  {
    if |entries| == 0 then []
    else if |entries[0]| == 0 then NonEmptyEntries(entries[1..])
    else [entries[0]] + NonEmptyEntries(entries[1..])
  }

  /** Part `i` of the address in element 0 of an entry, None when too few parts. */
  function PartOf(entry: seq<string>, i: nat): Option<string>
    requires |entry| > 0
  {
    var parts := Split(entry[0], ':');
    if i < |parts| then Some(parts[i]) else None
  }

  /** `entries.filter(e => e[0]).map(e => e[0].split(":")[i])`: one part per
      entry with an element 0, in the order of the list. */
  function AddressPart(entries: EntryList, i: nat): (r: seq<Option<string>>)
    ensures |r| == |NonEmptyEntries(entries)|
    ensures forall k :: 0 <= k < |r| ==> r[k] == PartOf(NonEmptyEntries(entries)[k], i)
  {
    if |entries| == 0 then []
    else
      var rest := AddressPart(entries[1..], i);
      if |entries[0]| == 0 then rest
      else
        var parts := Split(entries[0][0], ':');
        [if i < |parts| then Some(parts[i]) else None] + rest
  }

  /** Whether fetchSharedDocuments opens a subscription for this list, and with what filter. */
  function SubscriptionFor(entries: EntryList): (r: Option<Subscription>)
    ensures r.Some? ==> r.value.entries == entries
    ensures r.Some? ==> r.value.filter == Filter(AddressPart(entries, 2), AddressPart(entries, 1), [KIND_FILE])
  {
    if |entries| == 0 then None
    else
      var dTags := AddressPart(entries, 2);
      var pubkeys := AddressPart(entries, 1);
      if |dTags| == 0 || |pubkeys| == 0 then None
      else Some(Subscription(entries, Filter(dTags, pubkeys, [KIND_FILE])))
  }

  /** `split` never fails on a string, so every entry with an element 0
      contributes to the filter; a subscription opens exactly when one exists. */
  lemma {:induction false} AddressPartCount(entries: EntryList, i: nat)
    ensures |AddressPart(entries, i)| == 0 <==> forall j :: 0 <= j < |entries| ==> |entries[j]| == 0
  {
    if |entries| > 0 {
      AddressPartCount(entries[1..], i);
      assert forall j :: 1 <= j < |entries| ==> entries[j] == entries[1..][j - 1];
    }
  }

  lemma SubscriptionOpensIffSomeEntry(entries: EntryList)
    ensures SubscriptionFor(entries).Some? <==> exists j :: 0 <= j < |entries| && |entries[j]| > 0
  {
    AddressPartCount(entries, 1);
    AddressPartCount(entries, 2);
  }

  /** `events.reduce((prev, curr) => curr.created_at > prev.created_at ? curr : prev)`. */
  function ReduceLatest(s: seq<Event>): (e: Event)
    requires |s| > 0
  {
    if |s| == 1 then s[0]
    else
      var prev := ReduceLatest(s[..|s| - 1]);
      if s[|s| - 1].createdAt > prev.createdAt then s[|s| - 1] else prev
  }

  /** The reduce in refresh picks the same event as the fetch callbacks:
      the newest, the earliest delivered on ties. */
  lemma {:induction false} ReduceLatestIsLatestOf(s: seq<Event>)
    requires |s| > 0
    ensures LatestOf(s) == Some(ReduceLatest(s))
  {
    if |s| > 1 {
      ReduceLatestIsLatestOf(s[..|s| - 1]);
    } else {
      assert s[..0] == [];
    }
  }

  /** The list and the subscription refresh leaves, from the list `docs` and
      the subscription `sub` it starts with. A rejected getSigner or a failed
      decryption (both caught) change nothing; no event, or an empty
      plaintext, empties the list; otherwise the decoded list (empty when
      JSON.parse throws) is adopted and fetched. */
  function RefreshOutcome(signer: Option<Signer>, delivered: seq<Event>, decode: string -> Option<EntryList>,
                          docs: EntryList, sub: Option<Subscription>): (EntryList, Option<Subscription>)
  {
    if signer.None? then (docs, sub)
    else if |delivered| == 0 then ([], sub)
    else
      var s := signer.value;
      match s.nip44Decrypt(s.pubkey, LatestOf(delivered).value.content)
      case None => (docs, sub)
      case Some(plain) =>
        if plain == "" then ([], sub)
        else
          var parsed := if decode(plain).Some? then decode(plain).value else [];
          (parsed, SubscriptionFor(parsed))
  }

  /** Whatever refresh does, the subscription it leaves is the one it started
      with or the one for the list it leaves, and a subscription it opens
      captures that list. */
  lemma RefreshKeepsSubscriptionInStep(signer: Option<Signer>, delivered: seq<Event>,
                                       decode: string -> Option<EntryList>, docs: EntryList, sub: Option<Subscription>)
    ensures var (docs', sub') := RefreshOutcome(signer, delivered, decode, docs, sub);
            && (sub' == sub || sub' == SubscriptionFor(docs'))
            && (sub' != sub ==> sub'.None? || sub'.value.entries == docs')
  {
  }

  /** The new-state part of the shared-documents provider. */
  class SharedPagesProvider {
    const crypto: Crypto
    var sharedDocs: EntryList
    var loading: bool
    var sharedDocuments: map<string, History>
    var subscription: Option<Subscription>

    ghost predicate Valid()
      reads this
    {
      && StoreValid(sharedDocuments)
      && (subscription.Some? ==> SubscriptionFor(subscription.value.entries) == subscription)
    }

    constructor (c: Crypto)
      ensures Valid() && crypto == c
      ensures sharedDocs == [] && loading && sharedDocuments == map[] && subscription.None?
    {
      crypto := c;
      sharedDocs := [];
      loading := true;
      sharedDocuments := map[];
      subscription := None;
    }

    /** An event delivered to the open subscription; with none open nothing arrives. */
    method OnEvent(e: Event)
      requires Valid()
      modifies this`sharedDocuments
      ensures Valid()
      ensures subscription.None? ==> sharedDocuments == old(sharedDocuments)
      ensures subscription.Some? ==>
                sharedDocuments == IngestEvent(old(sharedDocuments), subscription.value.entries, crypto, e)
    {
      if subscription.Some? {
        IngestPreservesStoreValid(sharedDocuments, subscription.value.entries, crypto, e);
        sharedDocuments := IngestEvent(sharedDocuments, subscription.value.entries, crypto, e);
      }
    }

    /** fetchSharedDocuments: the previous subscription is closed first, then
      a new one is opened when the list allows it. */
    method FetchSharedDocuments(entries: EntryList)
      requires Valid()
      modifies this`subscription
      ensures Valid()
      ensures subscription == SubscriptionFor(entries)
    {
      subscription := None;
      if |entries| == 0 {
        return;
      }
      var dTags := AddressPart(entries, 2);
      var pubkeys := AddressPart(entries, 1);
      if |dTags| == 0 || |pubkeys| == 0 {
        return;
      }
      subscription := Some(Subscription(entries, Filter(dTags, pubkeys, [KIND_FILE])));
    }

    /** refresh. `signer` None: getSigner rejected; `delivered`: the kind-11234
      events of the user; `decode`: JSON.parse, None when it throws. */
    method Refresh(signer: Option<Signer>, delivered: seq<Event>, decode: string -> Option<EntryList>)
      requires Valid()
      modifies this`sharedDocs, this`loading, this`subscription
      ensures Valid() && !loading
      ensures (sharedDocs, subscription)
              == RefreshOutcome(signer, delivered, decode, old(sharedDocs), old(subscription))
    {
      loading := true;
      if signer.None? {
        loading := false;
        return;
      }
      var s := signer.value;
      var events, _ := CollectLatest(delivered);
      if |events| == 0 {
        sharedDocs := [];
        loading := false;
        return;
      }
      var latestEvent := ReduceLatest(events);
      ReduceLatestIsLatestOf(events);
      var decrypted := s.nip44Decrypt(s.pubkey, latestEvent.content);
      if decrypted.None? {
        loading := false;
        return;
      }
      if decrypted.value == "" {
        sharedDocs := [];
        loading := false;
        return;
      }
      var parsed: EntryList := [];
      var result := decode(decrypted.value);
      if result.Some? {
        parsed := result.value;
      }
      sharedDocs := parsed;
      FetchSharedDocuments(parsed);
      loading := false;
    }

    /** addSharedDoc: the updated list is encrypted to the user, signed as a
      kind-11234 event and published, and only then adopted. */
    method AddSharedDoc(tag: seq<string>, signer: Option<Signer>, stringify: EntryList -> string, nowMs: int)
      returns (r: Result<()>, effects: seq<Effect>)
      requires Valid()
      modifies this`sharedDocs
      ensures Valid()
      ensures r.Err? ==> sharedDocs == old(sharedDocs) && !PublishesAnything(effects)
      ensures r.Ok? ==> sharedDocs == AddOrReplace(old(sharedDocs), tag)
      ensures signer.None? ==> r == Err(NoSigner) && effects == []
      ensures signer.Some? ==>
                var s := signer.value;
                var enc := s.nip44Encrypt(s.pubkey, stringify(AddOrReplace(old(sharedDocs), tag)));
                if enc.None? then r == Err(SignerFailed) && effects == []
                else
                  var t := Template(KIND_SHARED_LIST, None, Seconds(nowMs), [], enc.value);
                  if s.signEvent(t).None? then r == Err(SignerFailed) && effects == [SignRequest(t)]
                  else r == Ok(()) && effects == [SignRequest(t), Publish(s.signEvent(t).value)]
    {
      effects := [];
      if signer.None? {
        return Err(NoSigner), effects;
      }
      var s := signer.value;
      var updatedDocs := AddOrReplace(sharedDocs, tag);
      var serialized := stringify(updatedDocs);
      var encrypted := s.nip44Encrypt(s.pubkey, serialized);
      if encrypted.None? {
        return Err(SignerFailed), effects;
      }
      var event := Template(KIND_SHARED_LIST, None, Seconds(nowMs), [], encrypted.value);
      effects := effects + [SignRequest(event)];
      var signed := s.signEvent(event);
      if signed.None? {
        return Err(SignerFailed), effects;
      }
      effects := effects + [Publish(signed.value)];
      sharedDocs := updatedDocs;
      r := Ok(());
    }

    /** The provider's effect on a session change: the cleanup closes the
      subscription, then a signed-in user refreshes and a signed-out one
      clears both lists. */
    method SessionChanged(signedIn: bool, signer: Option<Signer>, delivered: seq<Event>, decode: string -> Option<EntryList>)
      requires Valid()
      modifies this`sharedDocs, this`loading, this`subscription, this`sharedDocuments
      ensures Valid() && !loading
      ensures !signedIn ==> sharedDocs == [] && sharedDocuments == map[] && subscription.None?
      ensures signedIn ==> sharedDocuments == old(sharedDocuments)
      ensures signedIn ==> (sharedDocs, subscription)
                           == RefreshOutcome(signer, delivered, decode, old(sharedDocs), None)
    {
      subscription := None;
      if signedIn {
        Refresh(signer, delivered, decode);
      } else {
        sharedDocs := [];
        sharedDocuments := map[];
        loading := false;
      }
    }
  }
}
