/** The pure helpers of the status card: which names to show and whether
    the "recently updated" badge is on. */
module StatusCard {
  import opened Wrappers
  import opened Strings
  import opened Models

  /** `s || "???"` on an optional string: absent and empty alike fall back. */
  function OrUnknown(s: Option<string>): (r: string)
    ensures r != ""
    ensures s.Some? && s.value != "" ==> r == s.value
    ensures s.None? || s.value == "" ==> r == "???"
  {
    if s.Some? && s.value != "" then s.value else "???"
  }

  datatype Names = Names(displayName: string, subName: Option<string>)

  /** `extractNames`: the display name, falling back to the name; the name
      shown beneath it only when the display name does not already contain
      it. */
  function ExtractNames(profile: UserProfile): (r: Names)
    ensures r.displayName != ""
    ensures profile.displayName.None? || profile.displayName.value == "" ==>
              r.displayName == OrUnknown(profile.name) && r.subName.None?
    ensures profile.displayName.Some? && profile.displayName.value != "" ==>
              && r.displayName == profile.displayName.value
              && (r.subName.None? <==> profile.name.None? || Contains(profile.displayName.value, Trim(profile.name.value)))
    ensures r.subName.Some? ==> r.subName == profile.name
  {
    if profile.displayName.None? || profile.displayName.value == "" then
      Names(OrUnknown(profile.name), None)
    else if profile.name.None? || Contains(profile.displayName.value, Trim(profile.name.value)) then
      Names(profile.displayName.value, None)
    else
      Names(profile.displayName.value, profile.name)
  }

  /** A name equal to the display name, up to surrounding spaces, is never
      shown twice. */
  lemma SameNameShownOnce(profile: UserProfile)
    requires profile.displayName.Some? && profile.name.Some?
    requires Trim(profile.name.value) == Trim(profile.displayName.value)
    ensures ExtractNames(profile).subName.None?
  {
    var d := profile.displayName.value;
    TrimIsSlice(d);
    var i :| 0 <= i <= |d| - |Trim(d)| && Trim(d) == d[i..i + |Trim(d)|];
    assert OccursAt(d, Trim(d), i);
  }

  /** `RECENT_UPDATE_THRESHOLD_SEC`: one hour. */
  const RecentUpdateThresholdSec: int := 60 * 60

  /** `timeToStatusUpdateStaled`: seconds until the status is an hour old. */
  function TimeToStatusUpdateStaled(us: UserStatus, now: int): (r: int)
    ensures forall c :: Get(us, c).Some? ==> r >= RecentUpdateThresholdSec - (now - Get(us, c).value.createdAt)
    ensures !IsEmpty(us) ==>
              exists c :: Get(us, c).Some? && r == RecentUpdateThresholdSec - (now - Get(us, c).value.createdAt)
  {
    if IsEmpty(us) then RecentUpdateThresholdSec - (now - LastUpdateTime(us))
    else
      LatestIsSomeCategory(us);
      RecentUpdateThresholdSec - (now - LastUpdateTime(us))
  }

  /** The last update time of a non-empty status is that of one of its
      categories. */
  lemma LatestIsSomeCategory(us: UserStatus)
    requires !IsEmpty(us)
    ensures exists c :: Get(us, c).Some? && Get(us, c).value.createdAt == LastUpdateTime(us)
  {
    if LastUpdateTime(us) == 0 {
      var c := if us.general.Some? then General else Music;
      assert Get(us, c).Some?;
    }
  }

  /** The badge: set when a status is shown and its time to stale is
      positive. */
  predicate RecentlyUpdated(status: Option<UserStatus>, now: int) {
    status.Some? && TimeToStatusUpdateStaled(status.value, now) > 0
  }

  /** For a stored (non-empty) status, the badge is on exactly when some
      category was updated less than an hour ago. */
  lemma RecentlyUpdatedIffFreshCategory(us: UserStatus, now: int)
    requires !IsEmpty(us)
    ensures RecentlyUpdated(Some(us), now) <==>
              exists c :: Get(us, c).Some? && now - Get(us, c).value.createdAt < 3600
  {
    var c :| Get(us, c).Some? && TimeToStatusUpdateStaled(us, now) == RecentUpdateThresholdSec - (now - Get(us, c).value.createdAt);
  }
}
