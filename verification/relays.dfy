/** Relay lists: the NIP-65 kind 10002 parser, the NIP-02 kind 3 content
    (decoded by a JSON decoder passed in), and selection by usage. */
module Relays {
  import opened Wrappers
  import opened Seqs
  import opened Events
  import opened OrderedMap

  datatype Usage = Usage(read: bool, write: bool)

  /** `Record<string, {read, write}>`, keyed by relay URL in insertion order. */
  type RelayList = OMap<Usage>

  datatype UsageKind = Read | Write

  predicate Allows(u: Usage, kind: UsageKind) {
    match kind
    case Read => u.read
    case Write => u.write
  }

  /** The usage an `r` tag of a kind 10002 event declares, or `None` when the
      tag is skipped (no URL, or a marker other than absent, "", "read" and
      "write"). */
  function MarkerUsage(t: Tag): (r: Option<Usage>)
    ensures r.Some? <==> |t| >= 2 && (|t| == 2 || t[2] == "" || t[2] == "read" || t[2] == "write")
    ensures r.Some? ==> (r.value.read <==> |t| == 2 || t[2] != "write")
    ensures r.Some? ==> (r.value.write <==> |t| == 2 || t[2] != "read")
  {
    if |t| < 2 then None
    else if |t| == 2 || t[2] == "" then Some(Usage(true, true))
    else if t[2] == "read" then Some(Usage(true, false))
    else if t[2] == "write" then Some(Usage(false, true))
    else None
  }

  /** The loop of `parseRelayListInKind10002` over the `r` tags, one tag after
      the other. */
  function CollectRelays(rtags: seq<Tag>): OMap<Usage> {
    if |rtags| == 0 then []
    else
      var acc := CollectRelays(rtags[..|rtags| - 1]);
      var t := rtags[|rtags| - 1];
      match MarkerUsage(t)
      case None => acc
      case Some(u) => Put(acc, t[1], u)
  }

  /** The usage declared by the last accepted tag for `url`. */
  function LastUsage(rtags: seq<Tag>, url: string): Option<Usage> {
    if |rtags| == 0 then None
    else
      var t := rtags[|rtags| - 1];
      if MarkerUsage(t).Some? && t[1] == url then MarkerUsage(t)
      else LastUsage(rtags[..|rtags| - 1], url)
  }

  /** Every URL ends with the usage of its last accepted tag: a later duplicate
      overwrites an earlier one, and a URL without an accepted tag is absent. */
  lemma {:induction false} CollectRelaysLastWins(rtags: seq<Tag>, url: string)
    ensures Get(CollectRelays(rtags), url) == LastUsage(rtags, url)
    ensures KeysUnique(CollectRelays(rtags))
  {
    if |rtags| > 0 {
      var init := rtags[..|rtags| - 1];
      CollectRelaysLastWins(init, url);
      var t := rtags[|rtags| - 1];
      if MarkerUsage(t).Some? {
        PutGet(CollectRelays(init), t[1], MarkerUsage(t).value, url);
        PutKeysUnique(CollectRelays(init), t[1], MarkerUsage(t).value);
      }
    }
  }

  lemma {:induction false} CollectRelaysEmpty(rtags: seq<Tag>)
    ensures CollectRelays(rtags) == [] <==> forall k :: 0 <= k < |rtags| ==> MarkerUsage(rtags[k]).None?
  {
    if |rtags| > 0 {
      var init := rtags[..|rtags| - 1];
      CollectRelaysEmpty(init);
      var t := rtags[|rtags| - 1];
      if MarkerUsage(t).Some? {
        PutGet(CollectRelays(init), t[1], MarkerUsage(t).value, t[1]);
      } else {
        assert forall k :: 0 <= k < |init| ==> init[k] == rtags[k];
      }
    }
  }

  /** `parseRelayListInKind10002`. */
  function ParseKind10002(ev: Event): (r: Option<RelayList>)
    ensures var rtags := TagsByName(ev, "r");
            r.None? <==> forall k :: 0 <= k < |rtags| ==> MarkerUsage(rtags[k]).None?
    ensures r.Some? ==> KeysUnique(r.value)
    ensures r.Some? ==> forall url :: Get(r.value, url) == LastUsage(TagsByName(ev, "r"), url)
  {
    var rtags := TagsByName(ev, "r");
    var res := CollectRelays(rtags);
    CollectRelaysEmpty(rtags);
    CollectRelaysLastWins(rtags, "");
    forall url
      ensures Get(res, url) == LastUsage(rtags, url)
    {
      CollectRelaysLastWins(rtags, url);
    }
    if |res| == 0 then None else Some(res)
  }

  /** `parseRelayListInEvent`: kind 3 content goes through the JSON decoder
      unless it is empty, kind 10002 through its tags, other kinds give
      nothing. */
  function ParseRelayListInEvent(ev: Event, decodeKind3: string -> Option<RelayList>): (r: Option<RelayList>)
    ensures ev.kind != KindContacts && ev.kind != KindRelayList ==> r.None?
    ensures ev.kind == KindContacts && ev.content == "" ==> r.None?
    ensures ev.kind == KindContacts && ev.content != "" ==> r == decodeKind3(ev.content)
    ensures ev.kind == KindRelayList ==> r == ParseKind10002(ev)
  {
    if ev.kind == KindContacts then
      if ev.content == "" then None else decodeKind3(ev.content)
    else if ev.kind == KindRelayList then ParseKind10002(ev)
    else None
  }

  /** Some entry of `list` has key `url` and allows `kind`. */
  ghost predicate Declares(list: RelayList, url: string, kind: UsageKind) {
    exists i :: 0 <= i < |list| && list[i].key == url && Allows(list[i].value, kind)
  }

  /** `selectRelaysByUsage`: the URLs whose flag for that usage is set, in key
      order. */
  function SelectRelaysByUsage(list: RelayList, kind: UsageKind): (r: seq<string>)
    ensures forall url :: url in r <==> Declares(list, url, kind)
    ensures IsSubsequence(r, Keys(list))
    ensures |r| <= |list|
  {
    if |list| == 0 then []
    else
      var rest := SelectRelaysByUsage(list[1..], kind);
      assert Keys(list) == [list[0].key] + Keys(list[1..]);
      assert forall url :: Declares(list[1..], url, kind) ==> Declares(list, url, kind) by {
        forall url | Declares(list[1..], url, kind)
          ensures Declares(list, url, kind)
        {
          var i :| 0 <= i < |list| - 1 && list[1..][i].key == url && Allows(list[1..][i].value, kind);
          assert list[i + 1] == list[1..][i];
        }
      }
      assert forall url :: Declares(list, url, kind) && url != list[0].key ==> Declares(list[1..], url, kind) by {
        forall url | Declares(list, url, kind) && url != list[0].key
          ensures Declares(list[1..], url, kind)
        {
          var i :| 0 <= i < |list| && list[i].key == url && Allows(list[i].value, kind);
          assert list[1..][i - 1] == list[i];
        }
      }
      if Allows(list[0].value, kind) then [list[0].key] + rest
      else
        SubsequenceExtend(rest, Keys(list[1..]), list[0].key);
        rest
  }
}
