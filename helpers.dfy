/** Address helpers: the `kind:pubkey:d` coordinate of an addressable event
    (NIP-01, kinds 30000-39999) and the latest entry of a history. */
module Helpers {

  import opened Nostr
  import opened Strings

  /** `tags.find((t) => t[0] === "d")?.[1]`: the value of the FIRST tag named
      "d", absent when there is no such tag or it has no value. */
  function DTagValue(tags: seq<Tag>): Option<string>
  {
    if |tags| == 0 then None
    else if |tags[0]| > 0 && tags[0][0] == "d" then
      (if |tags[0]| >= 2 then Some(tags[0][1]) else None)
    else DTagValue(tags[1..])
  }

  /** The address string `${kind}:${pubkey}:${d}`. */
  function FormatAddress(kind: int, pubkey: string, d: string): string
  {
    IntToString(kind) + ":" + pubkey + ":" + d
  }

  /** getEventAddress: null unless the first "d" tag has a non-empty value;
      otherwise the event's OWN kind and pubkey with that value. */
  function GetEventAddress(e: Event): (r: Option<string>)
    ensures r.None? <==> !Present(DTagValue(e.tags))
    ensures r.Some? ==> r.value == FormatAddress(e.kind, e.pubkey, DTagValue(e.tags).value)
  {
    var d := DTagValue(e.tags);
    if !Present(d) then None else Some(FormatAddress(e.kind, e.pubkey, d.value))
  }

  /** getLatestVersion: `versions.at(-1) ?? null`. */
  function GetLatestVersion(h: History): (r: Option<Version>)
    ensures r.None? <==> |h.versions| == 0
    ensures r.Some? ==> r.value in h.versions && r.value == h.versions[|h.versions| - 1]
  {
    if |h.versions| == 0 then None else Some(h.versions[|h.versions| - 1])
  }

  /** Only the first "d" tag matters: whatever follows it is ignored, even a
      "d" tag with a value after a first one without. */
  lemma {:induction false} OnlyFirstDTagCounts(before: seq<Tag>, t: Tag, after: seq<Tag>)
    requires forall i :: 0 <= i < |before| ==> |before[i]| == 0 || before[i][0] != "d"
    requires |t| > 0 && t[0] == "d"
    ensures DTagValue(before + [t] + after) == (if |t| >= 2 then Some(t[1]) else None)
    decreases |before|
  {
    if |before| > 0 {
      assert (before + [t] + after)[1..] == before[1..] + [t] + after;
      OnlyFirstDTagCounts(before[1..], t, after);
    }
  }

  /** The address has exactly the three colon-separated parts that went into it
      when neither pubkey nor identifier contains a colon. */
  lemma FormatAddressSplits(kind: int, pubkey: string, d: string)
    requires ':' !in pubkey && ':' !in d
    ensures Split(FormatAddress(kind, pubkey, d), ':') == [IntToString(kind), pubkey, d]
  {
    IntToStringHasNoColon(kind);
    assert FormatAddress(kind, pubkey, d) == IntToString(kind) + [':'] + pubkey + [':'] + d;
    SplitThree(IntToString(kind), pubkey, d, ':');
  }
}
