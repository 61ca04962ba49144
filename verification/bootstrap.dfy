/** Bootstrapping the user's own account data: which relays to ask, which
    relay-list event to believe, when to retry on the default relays and
    when the cached copy is still good. Fetching is passed in as a function
    of the relays and the kind; the clock as `now`. */
module Bootstrap {
  import opened Wrappers
  import opened Events
  import opened OrderedMap
  import opened Relays
  import opened Models

  const DefaultBootstrapRelays: seq<string> := ["wss://relay.nostr.band", "wss://relayable.org", "wss://yabu.me"]

  /** `fallbackRelayList`, in the order of its object literal. */
  const FallbackRelayList: RelayList := [
    Entry("wss://relay.nostr.band", Usage(true, true)),
    Entry("wss://relayable.org", Usage(true, true)),
    Entry("wss://relay.damus.io", Usage(false, true)),
    Entry("wss://yabu.me", Usage(true, false))
  ]

  /* ---- relays to bootstrap from ---- */

  /** `getBootstrapRelays`. `nip07` is the relay list of the browser
      extension, `None` when there is no extension, no `getRelays` or it
      returned nothing. The flag says whether the defaults were chosen. */
  function GetBootstrapRelays(nip07: Option<RelayList>): (r: (seq<string>, bool))
    ensures r.1 <==> nip07.None? || forall url :: !Declares(nip07.value, url, Read)
    ensures r.1 ==> r.0 == DefaultBootstrapRelays
    ensures !r.1 ==> |r.0| > 0 && forall url :: url in r.0 <==> Declares(nip07.value, url, Read)
  {
    if nip07.None? then (DefaultBootstrapRelays, true)
    else
      var readRelays := SelectRelaysByUsage(nip07.value, Read);
      if |readRelays| > 0 then
        assert readRelays[0] in readRelays;
        (readRelays, false)
      else (DefaultBootstrapRelays, true)
  }

  /* ---- choosing the relay list ---- */

  /** The defined events of kind 3 or 10002, in order. */
  function RelayListEvents(evs: seq<Option<Event>>): (r: seq<Event>)
    ensures forall e :: e in r <==> Some(e) in evs && (e.kind == KindContacts || e.kind == KindRelayList)
  {
    if |evs| == 0 then []
    else
      var rest := RelayListEvents(evs[1..]);
      assert evs == [evs[0]] + evs[1..];
      if evs[0].Some? && (evs[0].value.kind == KindContacts || evs[0].value.kind == KindRelayList) then
        [evs[0].value] + rest
      else rest
  }

  /** Filtering keeps the order: the relay-list events of a concatenation are
      those of its first part followed by those of its second. */
  lemma {:induction false} RelayListEventsOfConcat(a: seq<Option<Event>>, b: seq<Option<Event>>)
    ensures RelayListEvents(a + b) == RelayListEvents(a) + RelayListEvents(b)
    decreases |a|
  {
    if |a| == 0 {
      assert a + b == b;
    } else {
      assert (a + b)[0] == a[0] && (a + b)[1..] == a[1..] + b;
      RelayListEventsOfConcat(a[1..], b);
    }
  }

  /** The one call site passes the kind 3 event before the kind 10002 one,
      and both are kept in that order. */
  lemma RelayListEventsOfPair(k3: Event, k10002: Event)
    requires k3.kind == KindContacts && k10002.kind == KindRelayList
    ensures RelayListEvents([Some(k3), Some(k10002)]) == [k3, k10002]
  {
    RelayListEventsOfConcat([Some(k3)], [Some(k10002)]);
    assert [Some(k3)][1..] == [] && [Some(k10002)][1..] == [];
    assert [Some(k3)] + [Some(k10002)] == [Some(k3), Some(k10002)];
  }

  predicate NewestFirst(s: seq<Event>) {
    forall i, j :: 0 <= i < j < |s| ==> s[i].createdAt >= s[j].createdAt
  }

  /** Inserting `x` into a newest-first sequence, in front of every event
      that is not newer than it. */
  function InsertByTime(x: Event, s: seq<Event>): (r: seq<Event>)
    requires NewestFirst(s)
    ensures multiset(r) == multiset(s) + multiset{x}
    ensures NewestFirst(r)
  {
    if |s| == 0 || s[0].createdAt <= x.createdAt then
      NewestFirstHead(x, s);
      NewestFirstCons(x, s);
      [x] + s
    else
      var rest := InsertByTime(x, s[1..]);
      NewestFirstTail(s);
      NoNewerAfter(s[0], s[1..], x, rest);
      NewestFirstCons(s[0], rest);
      assert multiset([s[0]] + rest) == multiset(s) + multiset{x} by {
        assert s == [s[0]] + s[1..];
      }
      [s[0]] + rest
  }

  /** An event at least as new as the head of a newest-first sequence is at
      least as new as all of it. */
  lemma NewestFirstHead(x: Event, s: seq<Event>)
    requires NewestFirst(s)
    requires |s| > 0 ==> s[0].createdAt <= x.createdAt
    ensures forall j :: 0 <= j < |s| ==> x.createdAt >= s[j].createdAt
  {
  }

  lemma NewestFirstTail(s: seq<Event>)
    requires |s| > 0 && NewestFirst(s)
    ensures NewestFirst(s[1..])
    ensures forall k :: 0 <= k < |s[1..]| ==> s[0].createdAt >= s[1..][k].createdAt
  {
  }

  /** An event at least as new as every element of `s` and as `x` is at least
      as new as every element of any arrangement of `s` and `x`. */
  lemma NoNewerAfter(h: Event, s: seq<Event>, x: Event, r: seq<Event>)
    requires forall k :: 0 <= k < |s| ==> h.createdAt >= s[k].createdAt
    requires h.createdAt >= x.createdAt
    requires multiset(r) == multiset(s) + multiset{x}
    ensures forall j :: 0 <= j < |r| ==> h.createdAt >= r[j].createdAt
  {
    forall j | 0 <= j < |r|
      ensures h.createdAt >= r[j].createdAt
    {
      assert r[j] in multiset(r);
      if r[j] != x {
        assert r[j] in multiset(s);
        var k :| 0 <= k < |s| && s[k] == r[j];
      }
    }
  }

  lemma NewestFirstCons(h: Event, s: seq<Event>)
    requires NewestFirst(s)
    requires forall j :: 0 <= j < |s| ==> h.createdAt >= s[j].createdAt
    ensures NewestFirst([h] + s)
  {
    assert forall j :: 0 < j <= |s| ==> ([h] + s)[j] == s[j - 1];
  }

  /** `relayListEvs.sort((a, b) => b.created_at - a.created_at)`: newest
      first; the sort is stable, so equally old events keep their order,
      which this insertion sort does by putting the earlier one in front. */
  function SortNewestFirst(s: seq<Event>): (r: seq<Event>)
    ensures multiset(r) == multiset(s)
    ensures NewestFirst(r)
  {
    if |s| == 0 then []
    else
      assert s == [s[0]] + s[1..];
      InsertByTime(s[0], SortNewestFirst(s[1..]))
  }

  predicate Parses(ev: Event, decodeKind3: string -> Option<RelayList>) {
    ParseRelayListInEvent(ev, decodeKind3).Some?
  }

  /** The first event of `s` whose relay list parses. */
  function FirstParsed(s: seq<Event>, decodeKind3: string -> Option<RelayList>): (r: Option<Event>)
    ensures r.Some? ==> r.value in s && Parses(r.value, decodeKind3)
    ensures r.None? <==> forall j :: 0 <= j < |s| ==> !Parses(s[j], decodeKind3)
  {
    if |s| == 0 then None
    else if Parses(s[0], decodeKind3) then Some(s[0])
    else
      var rest := FirstParsed(s[1..], decodeKind3);
      assert forall j :: 0 < j < |s| ==> s[j] == s[1..][j - 1];
      rest
  }

  /** The event the source ends up with, defined without sorting: of the
      events that parse, the newest, and of equally new ones the earliest. */
  function BestParse(s: seq<Event>, decodeKind3: string -> Option<RelayList>): (r: Option<Event>)
    ensures r.None? <==> forall j :: 0 <= j < |s| ==> !Parses(s[j], decodeKind3)
    ensures r.Some? ==> exists i :: 0 <= i < |s| && s[i] == r.value && IsBestAt(s, decodeKind3, i)
  {
    if |s| == 0 then None
    else
      var rest := BestParse(s[1..], decodeKind3);
      if Parses(s[0], decodeKind3) && (rest.None? || rest.value.createdAt <= s[0].createdAt) then
        BestAtHead(s, decodeKind3, rest);
        Some(s[0])
      else if rest.Some? then
        var i :| 0 <= i < |s[1..]| && s[1..][i] == rest.value && IsBestAt(s[1..], decodeKind3, i);
        BestAtShift(s, decodeKind3, i);
        rest
      else
        NoneParses(s, decodeKind3);
        rest
  }

  /** The head wins when it parses and the best of the rest, if any, is not
      newer. */
  lemma BestAtHead(s: seq<Event>, decodeKind3: string -> Option<RelayList>, rest: Option<Event>)
    requires |s| > 0 && Parses(s[0], decodeKind3)
    requires rest.None? ==> forall j :: 0 <= j < |s[1..]| ==> !Parses(s[1..][j], decodeKind3)
    requires rest.Some? ==> exists i :: 0 <= i < |s[1..]| && s[1..][i] == rest.value && IsBestAt(s[1..], decodeKind3, i)
    requires rest.Some? ==> rest.value.createdAt <= s[0].createdAt
    ensures IsBestAt(s, decodeKind3, 0)
  {
    forall j | 0 < j < |s| && Parses(s[j], decodeKind3)
      ensures s[j].createdAt <= s[0].createdAt
    {
      assert s[j] == s[1..][j - 1];
    }
  }

  /** The best of the rest stays best when the head loses to it. */
  lemma BestAtShift(s: seq<Event>, decodeKind3: string -> Option<RelayList>, i: nat)
    requires |s| > 0 && i < |s[1..]| && IsBestAt(s[1..], decodeKind3, i)
    requires Parses(s[0], decodeKind3) ==> s[1..][i].createdAt > s[0].createdAt
    ensures IsBestAt(s, decodeKind3, i + 1)
  {
    ShiftedBound(s, decodeKind3, i, false);
    ShiftedBound(s, decodeKind3, i, true);
  }

  /** Past the head, every event of `s` that parses is no newer than
      `s[i + 1]`, and strictly older when it comes first (`strict`). */
  lemma ShiftedBound(s: seq<Event>, decodeKind3: string -> Option<RelayList>, i: nat, strict: bool)
    requires |s| > 0 && i < |s[1..]| && IsBestAt(s[1..], decodeKind3, i)
    ensures forall j :: 0 < j < |s| && Parses(s[j], decodeKind3) && (strict ==> j < i + 1) ==>
              if strict then s[j].createdAt < s[i + 1].createdAt else s[j].createdAt <= s[i + 1].createdAt
  {
    var t := s[1..];
    forall j | 0 < j < |s| && Parses(s[j], decodeKind3) && (strict ==> j < i + 1)
      ensures if strict then s[j].createdAt < s[i + 1].createdAt else s[j].createdAt <= s[i + 1].createdAt
    {
      assert s[j] == t[j - 1];
    }
  }

  lemma NoneParses(s: seq<Event>, decodeKind3: string -> Option<RelayList>)
    requires |s| > 0 && !Parses(s[0], decodeKind3)
    requires forall j :: 0 <= j < |s[1..]| ==> !Parses(s[1..][j], decodeKind3)
    ensures forall j :: 0 <= j < |s| ==> !Parses(s[j], decodeKind3)
  {
    forall j | 0 < j < |s|
      ensures !Parses(s[j], decodeKind3)
    {
      assert s[j] == s[1..][j - 1];
    }
  }

  /** `s[i]` parses, no event that parses is newer, and every earlier one
      that parses is strictly older. */
  predicate IsBestAt(s: seq<Event>, decodeKind3: string -> Option<RelayList>, i: nat) {
    && i < |s| && Parses(s[i], decodeKind3)
    && (forall j :: 0 <= j < |s| && Parses(s[j], decodeKind3) ==> s[j].createdAt <= s[i].createdAt)
    && (forall j :: 0 <= j < i && Parses(s[j], decodeKind3) ==> s[j].createdAt < s[i].createdAt)
  }

  /** Scanning after inserting `x`: `x` wins exactly when it parses and the
      scan of the rest finds nothing newer. */
  lemma FirstParsedInsert(x: Event, t: seq<Event>, decodeKind3: string -> Option<RelayList>)
    requires NewestFirst(t)
    ensures var rest := FirstParsed(t, decodeKind3);
            FirstParsed(InsertByTime(x, t), decodeKind3) ==
              if Parses(x, decodeKind3) && (rest.None? || rest.value.createdAt <= x.createdAt) then Some(x) else rest
  {
    var rest := FirstParsed(t, decodeKind3);
    if |t| == 0 || t[0].createdAt <= x.createdAt {
      assert ([x] + t)[1..] == t;
      if rest.Some? {
        var k :| 0 <= k < |t| && t[k] == rest.value;
        assert t[0].createdAt >= t[k].createdAt;
      }
    } else {
      FirstParsedInsert(x, t[1..], decodeKind3);
      assert ([t[0]] + InsertByTime(x, t[1..]))[1..] == InsertByTime(x, t[1..]);
    }
  }

  /** Sorting and then scanning finds the best event. */
  lemma {:induction false} FirstParsedOfSort(s: seq<Event>, decodeKind3: string -> Option<RelayList>)
    ensures FirstParsed(SortNewestFirst(s), decodeKind3) == BestParse(s, decodeKind3)
  {
    if |s| > 0 {
      FirstParsedOfSort(s[1..], decodeKind3);
      FirstParsedInsert(s[0], SortNewestFirst(s[1..]), decodeKind3);
    }
  }

  /** `extractRelayListOrDefault`: the relay list of the newest kind 3 or
      kind 10002 event that parses (the earliest of equally new ones), the
      fallback list when none does. */
  function ExtractRelayListOrDefault(evs: seq<Option<Event>>, decodeKind3: string -> Option<RelayList>): (r: RelayList)
    ensures var es := RelayListEvents(evs);
            (forall j :: 0 <= j < |es| ==> !Parses(es[j], decodeKind3)) ==> r == FallbackRelayList
    ensures var es := RelayListEvents(evs);
            (exists j :: 0 <= j < |es| && Parses(es[j], decodeKind3)) ==>
              exists i: nat :: IsBestAt(es, decodeKind3, i) && Some(r) == ParseRelayListInEvent(es[i], decodeKind3)
  {
    var es := RelayListEvents(evs);
    if |es| == 0 then FallbackRelayList
    else
      FirstParsedOfSort(es, decodeKind3);
      match FirstParsed(SortNewestFirst(es), decodeKind3)
      case Some(e) => ParseRelayListInEvent(e, decodeKind3).value
      case None => FallbackRelayList
  }

  /* ---- fetching the account data ---- */

  datatype AccountMetadata = AccountMetadata(
    profile: UserProfile,
    followings: seq<string>,
    relayList: RelayList,
    lastFetchedAt: int)

  /** The last event of kinds 0, 3 and 10002, each `None` when not found. */
  datatype Fetched = Fetched(k0: Option<Event>, k3: Option<Event>, k10002: Option<Event>)

  /** Fetching from some relays for one author: the last event of a kind. */
  type Fetcher = (seq<string>, nat) -> Option<Event>

  function FetchAll(fetch: Fetcher, relays: seq<string>): Fetched {
    Fetched(fetch(relays, KindMetadata), fetch(relays, KindContacts), fetch(relays, KindRelayList))
  }

  /** What makes a fetch from the extension's relays worth repeating on the
      defaults: no profile, or neither kind of relay list. */
  predicate Incomplete(f: Fetched) {
    f.k0.None? || (f.k3.None? && f.k10002.None?)
  }

  /** The account data built from one round of fetching. */
  function AccountFromFetched(
    pubkey: string, f: Fetched,
    decodeProfile: string -> Option<map<string, string>>,
    decodeKind3: string -> Option<RelayList>,
    now: int): (r: AccountMetadata)
    ensures f.k0.None? ==> r.profile.srcEventId == "undefined" && r.profile.pubkey == pubkey && r.profile.name.None?
    ensures f.k0.Some? ==> r.profile.srcEventId == f.k0.value.id && r.profile.pubkey == f.k0.value.pubkey
    ensures f.k3.None? ==> r.followings == []
    ensures f.k0.Some? ==> r.profile == ProfileFromEvent(f.k0.value, decodeProfile)
    ensures f.k3.Some? ==> r.followings == TagValuesByName(f.k3.value, "p")
    ensures f.k3.Some? ==> |r.followings| == CountNamed(f.k3.value.tags, "p")
    ensures r.relayList == ExtractRelayListOrDefault([f.k3, f.k10002], decodeKind3)
    ensures r.lastFetchedAt == now
  {
    var profile := if f.k0.Some? then ProfileFromEvent(f.k0.value, decodeProfile) else StubProfile(pubkey);
    var followings := if f.k3.Some? then TagValuesByName(f.k3.value, "p") else [];
    var relayList := ExtractRelayListOrDefault([f.k3, f.k10002], decodeKind3);
    AccountMetadata(profile, followings, relayList, now)
  }

  /** When the kind 3 and kind 10002 events are equally new and the kind 3
      one parses, the stable sort leaves kind 3 in front and its relay list
      is used. */
  lemma EqualAgeContactsWin(
    pubkey: string, f: Fetched,
    decodeProfile: string -> Option<map<string, string>>,
    decodeKind3: string -> Option<RelayList>,
    now: int)
    requires f.k3.Some? && f.k10002.Some?
    requires f.k3.value.kind == KindContacts && f.k10002.value.kind == KindRelayList
    requires Parses(f.k3.value, decodeKind3) && f.k3.value.createdAt >= f.k10002.value.createdAt
    ensures Some(AccountFromFetched(pubkey, f, decodeProfile, decodeKind3, now).relayList)
            == ParseRelayListInEvent(f.k3.value, decodeKind3)
  {
    var es := RelayListEvents([f.k3, f.k10002]);
    RelayListEventsOfPair(f.k3.value, f.k10002.value);
    assert es == [f.k3.value, f.k10002.value];
    assert Parses(es[0], decodeKind3);
    var r := ExtractRelayListOrDefault([f.k3, f.k10002], decodeKind3);
    var i: nat :| IsBestAt(es, decodeKind3, i) && Some(r) == ParseRelayListInEvent(es[i], decodeKind3);
    assert i == 0;
  }

  /** The outcome of `fetchBody`: the data and the relay sets asked, in
      order. */
  datatype FetchOutcome = FetchOutcome(data: AccountMetadata, attempts: seq<seq<string>>)

  /** `fetchBody(bootstrapRelays, isDefault)`. */
  function FetchBody(
    pubkey: string, relays: seq<string>, isDefault: bool, fetch: Fetcher,
    decodeProfile: string -> Option<map<string, string>>,
    decodeKind3: string -> Option<RelayList>,
    now: int): (r: FetchOutcome)
    ensures 1 <= |r.attempts| <= 2 && r.attempts[0] == relays
    ensures |r.attempts| == 2 <==> !isDefault && Incomplete(FetchAll(fetch, relays))
    ensures |r.attempts| == 2 ==> r.attempts[1] == DefaultBootstrapRelays
    ensures r.data == AccountFromFetched(pubkey, FetchAll(fetch, r.attempts[|r.attempts| - 1]), decodeProfile, decodeKind3, now)
    decreases if isDefault then 0 else 1
  {
    var f := FetchAll(fetch, relays);
    if !isDefault && Incomplete(f) then
      var again := FetchBody(pubkey, DefaultBootstrapRelays, true, fetch, decodeProfile, decodeKind3, now);
      FetchOutcome(again.data, [relays] + again.attempts)
    else
      FetchOutcome(AccountFromFetched(pubkey, f, decodeProfile, decodeKind3, now), [relays])
  }

  /** `fetchAccountData(pubkey)`: bootstrap relays, then `fetchBody`. */
  function FetchAccountData(
    pubkey: string, nip07: Option<RelayList>, fetch: Fetcher,
    decodeProfile: string -> Option<map<string, string>>,
    decodeKind3: string -> Option<RelayList>,
    now: int): (r: FetchOutcome)
    ensures 1 <= |r.attempts| <= 2 && r.attempts[0] == GetBootstrapRelays(nip07).0
    ensures |r.attempts| == 2 ==> r.attempts[1] == DefaultBootstrapRelays && !GetBootstrapRelays(nip07).1
    ensures r.data == AccountFromFetched(pubkey, FetchAll(fetch, r.attempts[|r.attempts| - 1]), decodeProfile, decodeKind3, now)
    ensures r.data.lastFetchedAt == now
  {
    var (relays, isDefault) := GetBootstrapRelays(nip07);
    FetchBody(pubkey, relays, isDefault, fetch, decodeProfile, decodeKind3, now)
  }

  /** Without a usable extension relay list there is never a second round. */
  lemma DefaultsAreAskedOnce(
    pubkey: string, fetch: Fetcher,
    decodeProfile: string -> Option<map<string, string>>,
    decodeKind3: string -> Option<RelayList>,
    now: int)
    ensures FetchAccountData(pubkey, None, fetch, decodeProfile, decodeKind3, now).attempts == [DefaultBootstrapRelays]
  {
  }

  /* ---- the account cache ---- */

  /** `ACCT_DATA_CACHE_TTL`: twelve hours, in seconds. */
  const AcctDataCacheTtl: int := 12 * 60 * 60

  /** The data `myAccountDataAtom` yields and whether it came from the
      cache. */
  datatype AccountData = AccountData(data: AccountMetadata, fromCache: bool)

  /** `myAccountDataAtom`: nothing when logged out; the cached data when it
      is at most twelve hours old and belongs to the user; otherwise a fresh
      fetch (`fetchAccount`, whose result the source then saves). */
  function MyAccountData(pubkey: Option<string>, cache: Option<AccountMetadata>, now: int,
                         fetchAccount: string -> AccountMetadata): (r: Option<AccountData>)
    ensures pubkey.None? <==> r.None?
    ensures r.Some? && r.value.fromCache ==> Some(r.value.data) == cache
    ensures r.Some? && !r.value.fromCache ==> r.value.data == fetchAccount(pubkey.value)
    ensures r.Some? ==> (r.value.fromCache <==>
              cache.Some? && now - cache.value.lastFetchedAt <= 43200 && cache.value.profile.pubkey == pubkey.value)
  {
    if pubkey.None? then None
    else if cache.Some? && now - cache.value.lastFetchedAt <= AcctDataCacheTtl && cache.value.profile.pubkey == pubkey.value then
      Some(AccountData(cache.value, true))
    else Some(AccountData(fetchAccount(pubkey.value), false))
  }

  /** Data fetched for the user at `t` is reused exactly until `t` plus
      twelve hours, provided the profile event found (if any) is the user's
      own. */
  lemma FetchedDataReusedForTwelveHours(
    pubkey: string, nip07: Option<RelayList>, fetch: Fetcher,
    decodeProfile: string -> Option<map<string, string>>,
    decodeKind3: string -> Option<RelayList>,
    t: int, now: int, fetchAccount: string -> AccountMetadata)
    requires var o := FetchAccountData(pubkey, nip07, fetch, decodeProfile, decodeKind3, t);
             var f := FetchAll(fetch, o.attempts[|o.attempts| - 1]);
             f.k0.Some? ==> f.k0.value.pubkey == pubkey
    ensures var cache := FetchAccountData(pubkey, nip07, fetch, decodeProfile, decodeKind3, t).data;
            MyAccountData(Some(pubkey), Some(cache), now, fetchAccount).value.fromCache <==> now <= t + 43200
  {
    var o := FetchAccountData(pubkey, nip07, fetch, decodeProfile, decodeKind3, t);
    var f := FetchAll(fetch, o.attempts[|o.attempts| - 1]);
    assert o.data == AccountFromFetched(pubkey, f, decodeProfile, decodeKind3, t);
    assert o.data.profile.pubkey == pubkey && o.data.lastFetchedAt == t;
  }
}
