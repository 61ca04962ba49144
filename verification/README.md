# nostatus status engine, in Dafny

A model of the state logic of nostatus, a browser client that shows the
NIP-38 user statuses (kind 30315, categories `general` and `music`) of the
accounts a Nostr user follows. The model covers:

- **the status reducer**: `applyStatusUpdate`, `invalidateStatus` and the
  `StatusInvalidationScheduler`. It is a pure transition on a state of two
  maps: statuses keyed by pubkey, and expiry timers keyed by (pubkey,
  category) holding their fire time. It is proved to keep the invariants
  the code relies on: no empty status is ever stored, and a timer exists
  exactly for a stored entry that carries an expiration.
- **the derived view**: the pubkeys ordered by last update time, with ties
  broken by pubkey. It is an insertion sort proved sorted and a
  permutation, so the view does not depend on the map's iteration order.
- **the data model**: `StatusData.fromEvent`, `UserProfile.fromEvent` and
  the `UserStatus` helpers.
- **the event helpers**: the tag accessors; the NIP-30 `:shortcode:`
  content tokenizer, as a hand-written leftmost scanner checked against a
  declarative description of the split; the NIP-65 kind 10002 and kind 3
  relay-list parsers with read/write selection; and the hex pubkey check.
- **bootstrap and caches**: the relay fallback; the choice of the newest
  relay-list event that parses (kind 3 of NIP-02, or kind 10002); the
  `fetchBody` retry rule; the twelve-hour account cache; the profile-cache
  partition and save.
- **the user's own status event**: the event `updateMyStatus` builds, and
  its local echo through the reducer.
- **the legacy reducer** of `atoms.ts`, whose clear keeps an empty status.
  It is compared with the current reducer.
- **small pure helpers of the dialogs and the status card**.

Time is a parameter (`now`), JSON decoding and bech32 decoding are function
parameters, and fetching is a function from (relays, kind) to the last event
found. A JavaScript `Map` or a plain object with string keys is an
insertion-ordered association list (`OrderedMap`).

Points of the code's behaviour worth knowing:

- the code uses one twelve-hour threshold for account data and for
  profiles: data at most twelve hours old is used, older data is fetched
  again;
- the code retries on the default relays when the profile is missing **or**
  both relay-list kinds are missing;
- a clear leaves no tombstone, so an older status that arrives after a
  clear is stored again (`Engine.ClearLeavesNoTombstone`), and the reducer
  is not order-independent across clears.

`updateMyStatus` writes the `d` tag `general`, while `ShareMusicDialog`
passes `category: "music"`. The model takes the category as a parameter:
`general` for the update dialog, `music` for the music dialog.

## Model

| member | source | states |
|---|---|---|
| Strings.TrimIsSlice | src/states/nostrModels.ts:46 | `trim()` removes exactly a run of whitespace on each side: the result is a slice of the input with only whitespace around it |
| Strings.TrimEmptyIffAllSpace | src/components/UpdateStatusDialog.tsx:51-52 | content trims to "" exactly when it is all whitespace |
| Strings.TrimIdempotent | src/components/UpdateStatusDialog.tsx:56 | trimming twice (the dialog, then `fromEvent`) is trimming once |
| Strings.ParseNumberOfDigits | src/states/nostrModels.ts:54-55 | `Number` of a string of decimal digits is its value |
| Strings.ParseNumberOfBlank | src/states/nostrModels.ts:54-55 | `Number` of a whitespace-only string is 0, not NaN |
| Strings.ParseNumberRejects | src/states/nostrModels.ts:54-55 | a trimmed string holding a character that no ECMAScript numeric literal contains is NaN |
| Strings.ParseNumberOfNatToString | src/states/nostr.ts:579 | `Number(String(n)) == n` for the expiration written into the event |
| Strings.LexLessTotal | src/states/nostr.ts:138 | the tie-break order separates any two different pubkeys |
| Strings.LexLessTransitive | src/states/nostr.ts:138 | the tie-break order is transitive |
| Strings.Contains | src/components/status/UserStatusCard.tsx:139 | `includes` holds exactly when the text occurs at some position |
| Events.FirstTagByName | src/nostr.ts:6 | the first tag with the name, or `[]` exactly when none has it |
| Events.FirstTagValueByName | src/nostr.ts:8-9 | element 1 of the first tag with the name; "" when there is none |
| Events.FirstTagValueIgnoresLaterTags | src/nostr.ts:8-9 | a first tag without a value gives "" even when a later tag of that name has one |
| Events.TagsByName | src/nostr.ts:11 | exactly the tags with the name, in tag order, counted |
| Events.TagValuesByName | src/nostr.ts:13-14 | one value per matching tag, in order, "" for a missing value |
| Content.MatchLengthIsPattern | src/nostr.ts:17 | the scanner reports a match exactly where `:[_a-zA-Z0-9]+:` matches, with its length |
| Content.ScanWellSplit | src/nostr.ts:55-57 | the scanner cuts the input into the leftmost split by the pattern, dropping empty pieces |
| Content.Split | src/nostr.ts:55-57 | `split(pattern).filter(non-empty)` yields a well-formed split |
| Content.WellSplitConcat | src/nostr.ts:55-57 | the pieces are non-empty and concatenate back to the input |
| Content.WellSplitUnique | src/nostr.ts:55-57 | only one split meets the description, so the scanner computes it |
| Content.EmojiImgUrl | src/nostr.ts:70-71 | undefined when no `emoji` tag has the shortcode; otherwise element 2 of the first such tag, undefined when that tag has none |
| Content.ParsePartAsWritten | src/nostr.ts:58-87 | as written: every piece that starts and ends with `:` is looked up by its inner text, and is verbatim text when the lookup fails |
| Content.ParseEventContentAsWritten | src/nostr.ts:39-87 | as written: [] for empty input, one text part without an event, otherwise one as-written part per piece of the split |
| Content.WholeMatchIsReference | src/nostr.ts:17 | the pattern matches a whole piece exactly when the piece is `:` + shortcode characters + `:` |
| Content.ParsePart | src/nostr.ts:58-87 | corrected: a piece is an emoji exactly when it is a whole match of the pattern and an `emoji` tag gives its shortcode an image, and is verbatim text otherwise |
| Content.ParsePartAsWrittenAgrees | src/nostr.ts:58-87 | when every `emoji` tag names a well-formed shortcode, the as-written classifier equals the corrected one on every piece |
| Content.ParseEventContentAsWrittenAgrees | src/nostr.ts:39-87 | when every `emoji` tag names a well-formed shortcode, `parseEventContent` as written gives the corrected parts |
| Content.ParseEventContent | src/nostr.ts:39-68 | [] for empty input, a single text part without an event; text parts are never empty and all parts render back to the input |
| Content.ParseEventContentParts | src/nostr.ts:55-67 | part k is the classification of piece k of the split |
| Content.RenderParts | src/nostr.ts:55-87 | rendering the classified pieces, with an emoji as `:code:`, gives their concatenation |
| Content.LoneColonBecomesEmoji | src/nostr.ts:73-87 | as written, a lone `:` with an empty-shortcode `emoji` tag becomes an emoji that renders as `::` |
| Content.NonMatchingPiecesBecomeEmoji | src/nostr.ts:60-61 | as written, `:a b:` and the lone `:` become emoji, while the corrected parser keeps both as text |
| Relays.MarkerUsage | src/nostr.ts:121-142 | no marker or "" is read+write, "read" and "write" are one-way, other markers and URL-less tags are skipped |
| Relays.CollectRelaysLastWins | src/nostr.ts:118-143 | a later tag for the same URL overwrites an earlier one; keys stay unique |
| Relays.CollectRelaysEmpty | src/nostr.ts:145-147 | the list is empty exactly when no `r` tag is accepted |
| Relays.ParseKind10002 | src/nostr.ts:117-149 | undefined exactly when no `r` tag is accepted, otherwise each URL maps to its last accepted usage |
| Relays.ParseRelayListInEvent | src/nostr.ts:92-115 | kind 3 decodes non-empty content, kind 10002 reads its tags, other kinds give undefined |
| Relays.SelectRelaysByUsage | src/nostr.ts:151-154 | exactly the URLs whose flag for the usage is set, in key order |
| Keys.ParsePubkey | src/nostr.ts:159-174 | without the `npub1` prefix the input is returned exactly when it is 64 lower-case hex digits; with it, the decoded npub payload |
| Keys.ParseSeckey | src/nostr.ts:176-191 | input without the `nsec1` prefix is rejected; with it, the payload exactly when it decodes as an nsec |
| Keys.HexKeyIsNotNpub | src/nostr.ts:159-173 | a hex key never takes the npub branch |
| Models.IsSupportedUserStatusCategory | src/states/nostrModels.ts:87-91 | true for exactly "general" and "music" |
| Models.ParseCategory | src/states/nostrModels.ts:87-91 | a category exactly for the supported names, and its name is the input |
| Models.ParseExpiration | src/states/nostrModels.ts:49-56 | no expiration when the tag is absent or empty |
| Models.ParseExpirationOfDigits | src/states/nostrModels.ts:49-56 | a digit string gives its value |
| Models.ParseExpirationOfNaN | src/states/nostrModels.ts:54-55 | a value holding a character that no numeric literal contains gives no expiration |
| Models.StatusFromEvent | src/states/nostrModels.ts:45-59 | trimmed content, `createdAt` = `created_at`, link = first `r` value or "", source event kept |
| Models.With | src/states/nostr.ts:489 | `{ ...prev, [category]: v }` sets one category and keeps the other and the pubkey |
| Models.LastUpdateTime | src/states/nostrModels.ts:76-78 | at least each present `createdAt`, equal to one of them, 0 when both are absent |
| Models.ContentIdDependsOnIdsOnly | src/states/nostrModels.ts:79-81 | `contentId`: statuses with the same source-event ids have the same content id |
| Models.ContentIdInjective | src/states/nostrModels.ts:79-81 | `contentId`: with 64-character event ids, equal content ids mean the same source events in both categories |
| Models.IsEmpty | src/states/nostrModels.ts:82-84 | empty exactly when both categories are absent |
| Models.ProfileFromEvent | src/states/nostrModels.ts:14-33 | id and pubkey always; the four fields only for a decodable kind 0, `display_name` before `displayName` |
| Scheduler.InvalidationKeyInjective | src/states/nostr.ts:426-428 | distinct (pubkey, category) pairs give distinct `pubkey:category` keys |
| Scheduler.Schedule | src/states/nostr.ts:440-450 | the key's old timer is replaced by one at `now + ttl`; other timers are kept |
| Scheduler.Cancel | src/states/nostr.ts:430-456 | the key is removed, others are kept, and an absent key changes nothing |
| Scheduler.CancelAll | src/states/nostr.ts:459-464 | no timer is left |
| Scheduler.ScheduleLastWins | src/states/nostr.ts:440-450 | the last schedule of a key wins |
| Scheduler.CancelIdempotent | src/states/nostr.ts:430-456 | cancelling twice, or after scheduling, is cancelling once |
| Engine.InitialValid | src/states/nostr.ts:403 | the empty state meets the invariants |
| Engine.InvalidateStatus | src/states/nostr.ts:406-420 | no-op without publishing when the entry is absent; otherwise removes it, drops the pubkey when the other category is absent too, and touches nothing else |
| Engine.Fire | src/states/nostr.ts:445-448 | a fired timer invalidates its entry and removes only its own key |
| Engine.Reset | src/states/nostr.ts:523-528 | logout empties the statuses and the timers |
| Engine.ApplyContent | src/states/nostr.ts:488-498 | the slot takes the status; its timer is set to the expiration (at least 1 s ahead) or cancelled; nothing else changes |
| Engine.ApplyClear | src/states/nostr.ts:499-503 | the timer is cancelled and the slot cleared, the pubkey dropped when nothing is left; publishes exactly when the slot was set |
| Engine.Apply | src/states/nostr.ts:468-504 | expired, unsupported and not-newer events change nothing; otherwise content stores and empty content clears |
| Engine.ApplyPublishedIffChanged | src/states/nostr.ts:468-504 | a snapshot is published exactly when the map changed |
| Engine.ClearKeepsWellFormed | src/states/nostr.ts:406-420 | a clear never leaves an empty status in the map |
| Engine.ApplyPreservesValid | src/states/nostr.ts:468-504 | every event keeps both invariants: no empty status, and timers match expiring entries |
| Engine.FirePreservesValid | src/states/nostr.ts:445-448 | a firing timer keeps both invariants |
| Engine.FireAfterClearIsNoop | src/states/nostr.ts:406-411 | a timer firing after its entry was cleared changes nothing |
| Engine.ClearLeavesNoTombstone | src/states/nostr.ts:481-491 | an older status arriving after a clear is stored again |
| Engine.ApplyAllPreservesValid | src/states/nostr.ts:542-544 | the loop over past statuses keeps both invariants, whatever the events |
| Engine.ApplyAllKeepsNewest | src/states/nostr.ts:542-544 | folding unexpired statuses of one slot in any order leaves the newest, the first one applied among equals |
| Engine.FoldKeepsNewest | src/states/nostr.ts:481-491 | the same for any step that keeps the newer of the entry and the event |
| Engine.ApplyIgnoresNotNewer | src/states/nostr.ts:481-486 | an event not newer than the stored entry of its slot changes nothing, ties keeping the stored one |
| Engine.ApplyStoresNewer | src/states/nostr.ts:488-491 | an unexpired newer status is stored in its slot |
| Engine.ApplyStep | src/states/nostr.ts:481-491 | one event leaves its slot either unchanged or holding the event |
| Engine.ApplyClearCase | src/states/nostr.ts:499-503 | an unexpired clear is dropped as not newer, or clears its slot |
| Engine.ClearsAgree | src/states/nostr.ts:499-503 | two clears of the same slot at the same time have the same effect |
| Engine.ApplyKeepsOtherCategory | src/states/nostr.ts:481-503 | an event never changes the other category of its author |
| Ordering.BeforeAsymmetric | src/states/nostr.ts:133-139 | the comparator never orders two statuses both ways |
| Ordering.BeforeTotal | src/states/nostr.ts:133-139 | on distinct pubkeys the comparator never returns 0 |
| Ordering.Sort | src/states/nostr.ts:132-139 | the sort is a permutation and its result is ordered by the comparator |
| Ordering.OrderByLastUpdate | src/states/nostr.ts:130-141 | the view lists the pubkeys of an ordered arrangement of the statuses |
| Ordering.OrderByLastUpdateMembers | src/states/nostr.ts:130-141 | the view lists exactly the statuses' pubkeys |
| Ordering.OrderByLastUpdateDistinct | src/states/nostr.ts:130-141 | no pubkey appears twice |
| Ordering.SortedUnique | src/states/nostr.ts:133-139 | two ordered sequences with the same elements are equal |
| Ordering.OrderIndependent | src/states/nostr.ts:130-141 | the view does not depend on the iteration order of the map |
| Ordering.ViewListsKeys | src/states/nostr.ts:130-141 | for a map filed by pubkey, the view lists exactly its keys |
| OrderedMap.PutGet | src/states/nostr.ts:354 | after `set(k, v)`, k maps to v and every other key keeps its value |
| OrderedMap.GetFromEntries | src/states/nostr.ts:329 | `new Map(entries)` keeps the last value given for each key |
| OrderedMap.FromEntriesOfUnique | src/states/nostr.ts:356 | entries with distinct keys rebuild the same map, in the same order |
| Bootstrap.GetBootstrapRelays | src/states/nostr.ts:211-218 | the extension's read relays, flagged non-default, exactly when there is at least one; otherwise the defaults |
| Bootstrap.RelayListEvents | src/states/nostr.ts:221 | exactly the defined events of kind 3 or 10002 |
| Bootstrap.RelayListEventsOfConcat | src/states/nostr.ts:221 | the filter keeps order and multiplicity: it distributes over concatenation |
| Bootstrap.RelayListEventsOfPair | src/states/nostr.ts:221 | at the call site the kind 3 event comes first and the kind 10002 one second |
| Bootstrap.SortNewestFirst | src/states/nostr.ts:230 | the sort is a permutation, newest first |
| Bootstrap.BestParse | src/states/nostr.ts:227-239 | reference: nothing exactly when no event parses; otherwise the newest that parses, the earliest of equals |
| Bootstrap.FirstParsedOfSort | src/states/nostr.ts:230-237 | the first event of the stable sort that parses is the reference choice |
| Bootstrap.ExtractRelayListOrDefault | src/states/nostr.ts:220-240 | the fallback list when nothing parses, otherwise the list of the best parsing event |
| Bootstrap.AccountFromFetched | src/states/nostr.ts:263-266 | the kind 0 profile or a stub; the `p` tag values of kind 3 in order, or none; the relay list chosen from the kind 3 and kind 10002 events; stamped `now` |
| Bootstrap.EqualAgeContactsWin | src/states/nostr.ts:220-266 | when the kind 3 and kind 10002 events are equally new and kind 3 parses, the account uses the kind 3 relay list |
| Bootstrap.FetchBody | src/states/nostr.ts:244-267 | one or two rounds, a second one on the defaults exactly when the relays were not the defaults and the profile or both relay lists are missing |
| Bootstrap.FetchAccountData | src/states/nostr.ts:243-276 | the first round uses the bootstrap relays, the data comes from the last round and is stamped `now` |
| Bootstrap.DefaultsAreAskedOnce | src/states/nostr.ts:257-261 | without an extension relay list there is a single round |
| Bootstrap.MyAccountData | src/states/nostr.ts:69-86 | nothing when logged out; the cache exactly when it is at most 12 h old and the user's; a fetch otherwise |
| Bootstrap.FetchedDataReusedForTwelveHours | src/states/nostr.ts:50-86 | fetched data is served from the cache exactly until twelve hours have passed |
| Caches.CacheMapLastWins | src/states/nostr.ts:329 | the cache map holds the last record of each pubkey |
| Caches.Partition | src/states/nostr.ts:334-342 | each requested pubkey is a hit or a miss, misses in request order, hits' profiles returned |
| Caches.GetProfilesFromCache | src/states/nostr.ts:322-347 | no cache means all misses; otherwise fresh records are hits whose profiles are returned, and the rest are misses in request order |
| Caches.GetPutProfiles | src/states/nostr.ts:353-355 | pubkeys with a new profile map to the last one stamped `now`, others keep their record |
| Caches.SaveProfilesCache | src/states/nostr.ts:348-357 | the saved records have distinct pubkeys |
| Caches.SaveThenLoad | src/states/nostr.ts:348-357 | reading back the saved cache gives the new profiles and leaves other records unchanged |
| Caches.SavedProfileIsHit | src/states/nostr.ts:320-357 | a profile just saved is a hit at the same time |
| Publisher.ExpirationFor | src/states/nostr.ts:570 | an expiration exactly when a ttl is given, not before `created_at` |
| Publisher.MyStatusEvent | src/states/nostr.ts:568-581 | kind 30315 at `now`, the `d` tag first, one more tag for a link and one for a ttl |
| Publisher.MyStatusEventRoundTrip | src/states/nostr.ts:568-584 | `fromEvent` reads back the category, trimmed content, link and `now + ttl` |
| Publisher.UpdateMyStatus | src/states/nostr.ts:568-586 | the local echo touches only the user's own slot: other pubkeys, the other category and other timers are unchanged |
| Publisher.BlankEventIsClear | src/states/nostr.ts:568-581 | blank content with no ttl or a positive one makes an unexpired clear |
| Publisher.EchoStoresOwnStatus | src/states/nostr.ts:582-584 | the local echo stores the new status with its link and expiry timer |
| Publisher.EchoClearsOwnStatus | src/states/nostr.ts:582-584 | the echo of a clear removes the entry and its timer |
| Publisher.SameSecondUpdateIgnored | src/states/nostr.ts:568-584 | a second update in the same second is dropped locally |
| Legacy.IsSupportedCategory | src/states/atoms.ts:197-200 | true for exactly "general" and "music" |
| Legacy.SetCategory | src/states/atoms.ts:220-248 | the category is set, the other kept, other pubkeys untouched |
| Legacy.ApplyContent | src/states/atoms.ts:220-233 | stores when the category is absent or strictly older, otherwise nothing |
| Legacy.ApplyClear | src/states/atoms.ts:234-248 | blanks the category when it holds a strictly older status, otherwise nothing |
| Legacy.ApplyStatusUpdate | src/states/atoms.ts:202-252 | publishes exactly when accepted; otherwise unchanged |
| Legacy.PublishedIffChanged | src/states/atoms.ts:220-251 | a snapshot is published exactly when the map changed |
| Legacy.ClearKeepsEmptyStatus | src/states/atoms.ts:234-248 | a clear can leave an empty status, which the current reducer removes |
| Legacy.AgreesWithEngine | src/states/atoms.ts:202-252 | both reducers publish for the same events and agree except on kept empty statuses |
| Legacy.EmptyStatusSortsLast | src/states/atoms.ts:57-68 | an empty status sorts after any updated one |
| StatusCard.OrUnknown | src/components/status/UserStatusCard.tsx:133 | `name \|\| "???"` is never empty |
| StatusCard.ExtractNames | src/components/status/UserStatusCard.tsx:130-149 | display name never empty; falls back to the name; sub-name only when not contained in the display name |
| StatusCard.SameNameShownOnce | src/components/status/UserStatusCard.tsx:139-143 | a name equal to the display name up to spaces is not repeated |
| StatusCard.TimeToStatusUpdateStaled | src/components/status/UserStatusCard.tsx:152-153 | the time to stale is the largest of the categories' remaining times to one hour, and equals one of them |
| StatusCard.RecentlyUpdatedIffFreshCategory | src/components/status/UserStatusCard.tsx:25-34 | the badge (`recentlyUpdated`) is on exactly when some category was updated less than an hour ago |
| UpdateDialog.LabelsMatchTable | src/components/UpdateStatusDialog.tsx:12-32 | the labels have exactly the keys of the ttl table, seven of them |
| UpdateDialog.Ttl | src/components/UpdateStatusDialog.tsx:12-20 | each option the select offers gives its entry of the ttl table, "never" none, and every ttl is between 10 minutes and a day |
| UpdateDialog.UntouchedFormIsClean | src/components/UpdateStatusDialog.tsx:51 | `isDirty`: an untouched form is clean, and without a stored status only typed content makes it dirty |
| UpdateDialog.ClearStatusIffBlanked | src/components/UpdateStatusDialog.tsx:52 | `isClearStatus`: exactly a stored status and an all-whitespace field |
| UpdateDialog.ClearIsDirty | src/components/UpdateStatusDialog.tsx:51-52 | blanking an existing status is always a change |
| UpdateDialog.UpdateRequest | src/components/UpdateStatusDialog.tsx:54-56 | sends trimmed content and link and the chosen ttl |
| UpdateDialog.BlankUpdateActsAsClear | src/components/UpdateStatusDialog.tsx:54-66 | updating with blank content has exactly the effect of the clear button |
| ShareMusic.LangCodeToCountry | src/components/ShareMusicDialog.tsx:23-32 | "JP" exactly for "ja", "US" otherwise |
| ShareMusic.NewMusicStatus | src/components/ShareMusicDialog.tsx:75-83 | nothing until loaded; then title (or "???") first, artist (or "???") last, linking to the song |
| ShareMusic.MusicStatusNotBlank | src/components/ShareMusicDialog.tsx:79-82 | the music text is never blank, so sharing is never a clear |
| ShareMusic.ShareRequest | src/components/ShareMusicDialog.tsx:102-108 | no request without a status; otherwise its text and link, no ttl |
| ShareMusic.ShareStoresMusicOnly | src/components/ShareMusicDialog.tsx:102-111 | sharing stores the music status and leaves the general one alone |
| ShareMusic.StopSharingClearsMusicOnly | src/components/ShareMusicDialog.tsx:113-117 | stopping clears the music status and leaves the general one alone |

## Left out

- Transport, subscriptions and async orchestration: the fetchers, `rx-nostr`, `switchRelays`, abort controllers and the jotai store pipelines. Only the per-event reducer, folded over a sequence, is modelled.
- `localStorage` and `JSON.parse`/`stringify`: caches are in-memory sequences, and a stored cache that fails to parse is `None`. `saveProfilesCache` throws on a corrupt cache; the model reads that case as an empty cache.
- JSON decoding of kind 0 profiles and kind 3 relay lists: these are function parameters, and a decode that throws is `None`. JSON `null` values and schema validation are not modelled.
- nip19 bech32 decoding and event signing: decoding is a parameter; the signed event's id and pubkey are parameters.
- The NIP-07 extension: its relay list is an `Option` input, and the availability polling is not modelled.
- Bootstrap.GetBootstrapRelays: a rejected `window.nostr.getRelays()` promise makes `fetchAccountData` reject; an `Option` input cannot express that error path, so it is not modelled.
- Real time: `currUnixtime` is one `now` per operation, so the ttl passed to the scheduler is at least one second. The 32-bit `setTimeout` delay limit is not modelled. Timers are fire times in a map.
- Models.ParseExpiration: `Number()` is modelled for blank strings and for signed decimal integers only. A value such as `1.7e9`, `0x1f`, `1.5` or `Infinity` is a number to the source but NaN (no expiration) to the model. `Strings.ParseNumberRejects` and `Models.ParseExpirationOfNaN` are stated only for values that no numeric literal could be.
- Strings.LexLessTotal: `localeCompare` is modelled as code-point order, which agrees with it on lower-case hex pubkeys only.
- UpdateDialog.Ttl: a key outside the table reads as no ttl. In the source such a key would read whatever the object literal inherits, such as `toString`; the select only offers the table's keys.
- Integer-like keys: JavaScript lists them first in plain-object key order. `OrderedMap` keeps plain insertion order, which matches for relay URLs.
- ShareMusic.NewMusicStatus: states the title prefix and artist suffix of the text, not the whole "title - artist" string.
- The legacy `fetchAccountData` in `atoms.ts`: it depends on `parseReadRelayList` and `./models`, which are not part of this model. The legacy ordering atom is the same sort as the current one.
- Legacy.ApplyStatusUpdate: `atoms.ts` takes `StatusData` from `./models`, which is not part of this model. The model assumes it reads an event like `StatusData.fromEvent` of `nostrModels.ts`: trimmed content, the first `r` value and the same expiration parsing.
- `myMusicStatusAtom`, which `ShareMusicDialog` reads, is not part of this model. `updateMyStatus` ignores the `category` field that the music dialog passes; `Publisher.MyStatusEvent` takes the category as a parameter.
- Rendering, styling, `animatedScroll`, i18n and configuration have no state logic to model.

## Findings

| source | as written | input that shows it | evidently intended | confidence | as-written member | corrected member |
|---|---|---|---|---|---|---|
| src/nostr.ts:60-61 | every split piece that starts and ends with `:` is looked up as an emoji, including text pieces the content pattern did not match. One such piece is the lone `:`, whose `slice(1, -1)` shortcode is "" | content `":"` with the tag `["emoji", "", "https://img"]` gives an emoji part with shortcode "", which renders as `::` instead of `:`. Content `":a b:"` with the tag `["emoji", "a b", "https://img"]` gives an emoji for a shortcode the pattern does not allow | only a whole `:shortcode:` match of the content pattern becomes an emoji, so parts render back to the content | not executed | Content.NonMatchingPiecesBecomeEmoji | Content.ParseEventContent |
