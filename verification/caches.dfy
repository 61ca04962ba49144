/** The profile cache: an array of (profile, fetch time) records, read into
    a map keyed by pubkey, split into fresh hits and misses, and rewritten
    with newly fetched profiles. Storage and JSON are left out: the stored
    array is an input (`None` when there is none or it does not parse). */
module Caches {
  import opened Wrappers
  import opened Seqs
  import opened OrderedMap
  import Models

  datatype ProfileCacheEntry = ProfileCacheEntry(profile: Models.UserProfile, lastFetchedAt: int)

  /** `PROFILE_CACHE_TTL`: twelve hours, in seconds. */
  const ProfileCacheTtl: int := 12 * 60 * 60

  function EntriesOf(cache: seq<ProfileCacheEntry>): (r: seq<Entry<ProfileCacheEntry>>)
    ensures |r| == |cache|
    ensures forall i :: 0 <= i < |cache| ==> r[i] == Entry(cache[i].profile.pubkey, cache[i])
  {
    seq(|cache|, i requires 0 <= i < |cache| => Entry(cache[i].profile.pubkey, cache[i]))
  }

  /** `new Map(cache.map((c) => [c.profile.pubkey, c]))`. */
  function CacheMap(cache: seq<ProfileCacheEntry>): OMap<ProfileCacheEntry> {
    FromEntries(EntriesOf(cache))
  }

  /** Of several records for one pubkey the last one is kept. */
  lemma CacheMapLastWins(cache: seq<ProfileCacheEntry>, i: nat)
    requires i < |cache|
    requires forall j :: i < j < |cache| ==> cache[j].profile.pubkey != cache[i].profile.pubkey
    ensures Get(CacheMap(cache), cache[i].profile.pubkey) == Some(cache[i])
  {
    GetFromEntries(EntriesOf(cache), cache[i].profile.pubkey);
    LastValueAt(EntriesOf(cache), cache[i].profile.pubkey, i);
  }

  /** A pubkey with no record has no entry. */
  lemma CacheMapAbsent(cache: seq<ProfileCacheEntry>, p: string)
    requires forall j :: 0 <= j < |cache| ==> cache[j].profile.pubkey != p
    ensures Get(CacheMap(cache), p) == None
  {
    GetFromEntries(EntriesOf(cache), p);
    LastValueAbsent(EntriesOf(cache), p);
  }

  /** The cache holds a record of `p` fetched at most twelve hours before
      `now`. */
  predicate Hit(m: OMap<ProfileCacheEntry>, p: string, now: int) {
    Get(m, p).Some? && now - Get(m, p).value.lastFetchedAt <= ProfileCacheTtl
  }

  /** The loop of `getProfilesFromCache` over `pubkeys`: the profiles of the
      hits and the pubkeys of the misses, each in request order. */
  function Partition(m: OMap<ProfileCacheEntry>, pubkeys: seq<string>, now: int): (r: (seq<Models.UserProfile>, seq<string>))
    ensures |r.0| + |r.1| == |pubkeys|
    ensures forall p :: p in r.1 <==> p in pubkeys && !Hit(m, p, now)
    ensures IsSubsequence(r.1, pubkeys)
    ensures forall p :: p in pubkeys && Hit(m, p, now) ==> Get(m, p).value.profile in r.0
    ensures forall q :: q in r.0 ==> exists p :: p in pubkeys && Hit(m, p, now) && Get(m, p).value.profile == q
  {
    if |pubkeys| == 0 then ([], [])
    else
      var rest := Partition(m, pubkeys[1..], now);
      var p := pubkeys[0];
      assert pubkeys == [p] + pubkeys[1..];
      if Hit(m, p, now) then
        SubsequenceExtend(rest.1, pubkeys[1..], p);
        ([Get(m, p).value.profile] + rest.0, rest.1)
      else
        assert ([p] + rest.1)[1..] == rest.1;
        (rest.0, [p] + rest.1)
  }

  /** `getProfilesFromCache(pubkeys)`: without a stored cache every pubkey
      is a miss; with one, the fresh records are hits and return their
      profiles, the rest are misses in request order. */
  function GetProfilesFromCache(stored: Option<seq<ProfileCacheEntry>>, pubkeys: seq<string>, now: int): (r: (seq<Models.UserProfile>, seq<string>))
    ensures stored.None? ==> r == ([], pubkeys)
    ensures |r.0| + |r.1| == |pubkeys|
    ensures stored.Some? ==> forall p :: p in r.1 <==> p in pubkeys && !Hit(CacheMap(stored.value), p, now)
    ensures stored.Some? ==> forall p :: p in pubkeys && Hit(CacheMap(stored.value), p, now) ==>
              Get(CacheMap(stored.value), p).value.profile in r.0
    ensures stored.Some? ==> forall q :: q in r.0 ==>
              exists p :: p in pubkeys && Hit(CacheMap(stored.value), p, now) && Get(CacheMap(stored.value), p).value.profile == q
    ensures IsSubsequence(r.1, pubkeys)
  {
    if stored.None? then
      SubsequenceReflexive(pubkeys);
      ([], pubkeys)
    else Partition(CacheMap(stored.value), pubkeys, now)
  }

  /** The last profile in `profiles` with pubkey `p`. */
  function LastProfileFor(profiles: seq<Models.UserProfile>, p: string): Option<Models.UserProfile> {
    if |profiles| == 0 then None
    else if profiles[|profiles| - 1].pubkey == p then Some(profiles[|profiles| - 1])
    else LastProfileFor(profiles[..|profiles| - 1], p)
  }

  /** The loop of `saveProfilesCache`: each new profile set with `now`. */
  function PutProfiles(m: OMap<ProfileCacheEntry>, profiles: seq<Models.UserProfile>, now: int): OMap<ProfileCacheEntry> {
    if |profiles| == 0 then m
    else
      var last := profiles[|profiles| - 1];
      Put(PutProfiles(m, profiles[..|profiles| - 1], now), last.pubkey, ProfileCacheEntry(last, now))
  }

  /** After the loop, a pubkey with a new profile maps to its last new
      profile stamped `now`; every other pubkey keeps its record. */
  lemma {:induction false} GetPutProfiles(m: OMap<ProfileCacheEntry>, profiles: seq<Models.UserProfile>, now: int, p: string)
    ensures Get(PutProfiles(m, profiles, now), p) ==
              match LastProfileFor(profiles, p)
              case Some(q) => Some(ProfileCacheEntry(q, now))
              case None => Get(m, p)
  {
    if |profiles| > 0 {
      var last := profiles[|profiles| - 1];
      GetPutProfiles(m, profiles[..|profiles| - 1], now, p);
      PutGet(PutProfiles(m, profiles[..|profiles| - 1], now), last.pubkey, ProfileCacheEntry(last, now), p);
    }
  }

  /** Every entry is filed under the pubkey of its profile. */
  ghost predicate KeysMatch(m: OMap<ProfileCacheEntry>) {
    forall i :: 0 <= i < |m| ==> m[i].key == m[i].value.profile.pubkey
  }

  lemma {:induction false} CacheMapKeysMatch(cache: seq<ProfileCacheEntry>)
    ensures KeysMatch(CacheMap(cache)) && KeysUnique(CacheMap(cache))
  {
    FromEntriesKeysUnique(EntriesOf(cache));
    FromEntriesKeysMatch(EntriesOf(cache));
  }

  lemma {:induction false} FromEntriesKeysMatch(es: seq<Entry<ProfileCacheEntry>>)
    requires KeysMatch(es)
    ensures KeysMatch(FromEntries(es))
  {
    if |es| > 0 {
      var init := es[..|es| - 1];
      FromEntriesKeysMatch(init);
      PutKeysMatch(FromEntries(init), es[|es| - 1].key, es[|es| - 1].value);
    }
  }

  lemma PutKeysMatch(m: OMap<ProfileCacheEntry>, k: string, v: ProfileCacheEntry)
    requires KeysMatch(m) && k == v.profile.pubkey
    ensures KeysMatch(Put(m, k, v))
  {
    var r := Put(m, k, v);
    forall i | 0 <= i < |r|
      ensures r[i].key == r[i].value.profile.pubkey
    {
      if IndexOf(m, k).Some? && i == IndexOf(m, k).value {
      } else if i < |m| {
        assert r[i] == m[i];
      }
    }
  }

  lemma {:induction false} PutProfilesKeys(m: OMap<ProfileCacheEntry>, profiles: seq<Models.UserProfile>, now: int)
    requires KeysMatch(m) && KeysUnique(m)
    ensures KeysMatch(PutProfiles(m, profiles, now)) && KeysUnique(PutProfiles(m, profiles, now))
  {
    if |profiles| > 0 {
      var last := profiles[|profiles| - 1];
      PutProfilesKeys(m, profiles[..|profiles| - 1], now);
      PutKeysMatch(PutProfiles(m, profiles[..|profiles| - 1], now), last.pubkey, ProfileCacheEntry(last, now));
      PutKeysUnique(PutProfiles(m, profiles[..|profiles| - 1], now), last.pubkey, ProfileCacheEntry(last, now));
    }
  }

  /** `saveProfilesCache(newProfiles)`: the stored records (none when there
      is no cache) with the new profiles set, written back as an array. */
  function SaveProfilesCache(stored: Option<seq<ProfileCacheEntry>>, newProfiles: seq<Models.UserProfile>, now: int): (r: seq<ProfileCacheEntry>)
    ensures forall i, j :: 0 <= i < j < |r| ==> r[i].profile.pubkey != r[j].profile.pubkey
  {
    var m := PutProfiles(CacheMap(stored.GetOr([])), newProfiles, now);
    CacheMapKeysMatch(stored.GetOr([]));
    PutProfilesKeys(CacheMap(stored.GetOr([])), newProfiles, now);
    Values(m)
  }

  /** Reading back what was saved: the new profiles' pubkeys map to their
      last new profile stamped `now`, and every other pubkey to the record it
      had before. */
  lemma SaveThenLoad(stored: Option<seq<ProfileCacheEntry>>, newProfiles: seq<Models.UserProfile>, now: int, p: string)
    ensures Get(CacheMap(SaveProfilesCache(stored, newProfiles, now)), p) ==
              match LastProfileFor(newProfiles, p)
              case Some(q) => Some(ProfileCacheEntry(q, now))
              case None => Get(CacheMap(stored.GetOr([])), p)
  {
    var m := PutProfiles(CacheMap(stored.GetOr([])), newProfiles, now);
    CacheMapKeysMatch(stored.GetOr([]));
    PutProfilesKeys(CacheMap(stored.GetOr([])), newProfiles, now);
    assert EntriesOf(Values(m)) == m;
    FromEntriesOfUnique(m);
    GetPutProfiles(CacheMap(stored.GetOr([])), newProfiles, now, p);
  }

  /** A profile just saved is a cache hit when asked for at the same time. */
  lemma SavedProfileIsHit(stored: Option<seq<ProfileCacheEntry>>, newProfiles: seq<Models.UserProfile>, now: int, p: string)
    requires LastProfileFor(newProfiles, p).Some?
    ensures var saved := SaveProfilesCache(stored, newProfiles, now);
            p !in GetProfilesFromCache(Some(saved), [p], now).1
  {
    SaveThenLoad(stored, newProfiles, now, p);
  }
}
