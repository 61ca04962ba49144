/** The data model: profiles (NIP-01 kind 0), statuses (NIP-38 kind 30315,
    with a NIP-40 `expiration` tag) and the per-user aggregate of the two
    status categories. */
module Models {
  import opened Wrappers
  import opened Strings
  import opened Events

  /* ---- categories ---- */

  datatype Category = General | Music

  function CategoryName(c: Category): string {
    match c
    case General => "general"
    case Music => "music"
  }

  /** The category that is not `c`. */
  function Other(c: Category): (r: Category)
    ensures r != c
  {
    match c
    case General => Music
    case Music => General
  }

  /** `userStatusCategories`. */
  const UserStatusCategories: seq<string> := ["general", "music"]

  /** `isSupportedUserStatusCategory`: membership in the category list. */
  predicate IsSupportedUserStatusCategory(s: string)
    ensures IsSupportedUserStatusCategory(s) <==> s == "general" || s == "music"
  {
    s in UserStatusCategories
  }

  /** The category a `d` tag value names, if it is a supported one. */
  function ParseCategory(s: string): (r: Option<Category>)
    ensures r.Some? <==> IsSupportedUserStatusCategory(s)
    ensures r.Some? ==> CategoryName(r.value) == s
  {
    if s == "general" then Some(General)
    else if s == "music" then Some(Music)
    else None
  }

  /* ---- statuses ---- */

  datatype StatusData = StatusData(
    srcEvent: Event,
    content: string,
    linkUrl: string,
    createdAt: nat,
    expiration: Option<int>)

  /** The `expiration` tag: undefined when absent or empty, otherwise
      `Number(value)` unless that is NaN. */
  function ParseExpiration(ev: Event): (r: Option<int>)
    ensures FirstTagValueByName(ev, "expiration") == "" ==> r.None?
  {
    var expStr := FirstTagValueByName(ev, "expiration");
    if expStr == "" then None else ParseNumber(expStr)
  }

  /** A decimal expiration value is read as its number. */
  lemma ParseExpirationOfDigits(ev: Event)
    requires var v := FirstTagValueByName(ev, "expiration"); |v| > 0 && AllDigits(v)
    ensures ParseExpiration(ev) == Some(DigitsValue(FirstTagValueByName(ev, "expiration")))
  {
    ParseNumberOfDigits(FirstTagValueByName(ev, "expiration"));
  }

  /** A value whose trimmed text holds a character that no numeric literal
      contains is NaN and gives no expiration. */
  lemma ParseExpirationOfNaN(ev: Event, k: nat)
    requires var t := Trim(FirstTagValueByName(ev, "expiration"));
             k < |t| && !IsNumericLiteralChar(t[k])
    ensures ParseExpiration(ev) == None
  {
    ParseNumberRejects(FirstTagValueByName(ev, "expiration"), k);
  }

  /** `StatusData.fromEvent`. */
  function StatusFromEvent(ev: Event): (r: StatusData)
    ensures r.srcEvent == ev && r.createdAt == ev.createdAt
    ensures r.content == Trim(ev.content)
    ensures r.content == [] || (!IsSpace(r.content[0]) && !IsSpace(r.content[|r.content| - 1]))
    ensures (forall j :: 0 <= j < |ev.tags| ==> !Named(ev.tags[j], "r")) ==> r.linkUrl == ""
    ensures forall i :: FirstNamedAt(ev.tags, "r", i) ==> r.linkUrl == ValueOf(ev.tags[i])
    ensures (forall j :: 0 <= j < |ev.tags| ==> !Named(ev.tags[j], "expiration")) ==> r.expiration.None?
  {
    StatusData(ev, Trim(ev.content), FirstTagValueByName(ev, "r"), ev.createdAt, ParseExpiration(ev))
  }

  /** The statuses of one user, one optional entry per category. */
  datatype UserStatus = UserStatus(pubkey: string, general: Option<StatusData>, music: Option<StatusData>)

  /** `us[category]`. */
  function Get(us: UserStatus, c: Category): Option<StatusData> {
    match c
    case General => us.general
    case Music => us.music
  }

  /** `{ ...us, [category]: v }`: the entry of `c` replaced, the other
      category and the pubkey kept. */
  function With(us: UserStatus, c: Category, v: Option<StatusData>): (r: UserStatus)
    ensures Get(r, c) == v
    ensures forall c' :: c' != c ==> Get(r, c') == Get(us, c')
    ensures r.pubkey == us.pubkey
  {
    match c
    case General => us.(general := v)
    case Music => us.(music := v)
  }

  function CreatedAtOr0(s: Option<StatusData>): nat {
    if s.Some? then s.value.createdAt else 0
  }

  /** `UserStatus.lastUpdateTime`: the newest `createdAt` of the present
      categories, 0 when both are absent. */
  function LastUpdateTime(us: UserStatus): (r: nat)
    ensures forall c :: Get(us, c).Some? ==> Get(us, c).value.createdAt <= r
    ensures r == 0 || exists c :: Get(us, c).Some? && Get(us, c).value.createdAt == r
    ensures us.general.None? && us.music.None? ==> r == 0
  {
    var g := CreatedAtOr0(us.general);
    var m := CreatedAtOr0(us.music);
    if g >= m then
      assert g > 0 ==> Get(us, General).Some?;
      g
    else
      assert Get(us, Music).Some?;
      m
  }

  /** `UserStatus.contentId`: the two source event ids, each absent category
      replaced by a fixed placeholder. */
  function ContentId(us: UserStatus): string {
    KeyPart(us.general, "general_undefined") + KeyPart(us.music, "music_undefined")
  }

  /** `s?.srcEvent.id ?? placeholder`. */
  function KeyPart(s: Option<StatusData>, placeholder: string): string {
    if s.Some? then s.value.srcEvent.id else placeholder
  }

  /** Event ids are 32 bytes written as 64 hex characters. */
  predicate HasEventIds(us: UserStatus) {
    && (us.general.Some? ==> |us.general.value.srcEvent.id| == 64)
    && (us.music.Some? ==> |us.music.value.srcEvent.id| == 64)
  }

  /** With 64-character event ids the key also determines both ids: the
      four combinations of id and placeholder have four different lengths,
      so equal keys cut at the same place. */
  lemma ContentIdInjective(a: UserStatus, b: UserStatus)
    requires HasEventIds(a) && HasEventIds(b)
    requires ContentId(a) == ContentId(b)
    ensures SourceId(a.general) == SourceId(b.general) && SourceId(a.music) == SourceId(b.music)
  {
    var ga, ma := KeyPart(a.general, "general_undefined"), KeyPart(a.music, "music_undefined");
    var gb, mb := KeyPart(b.general, "general_undefined"), KeyPart(b.music, "music_undefined");
    assert |ga| == |gb| && |ma| == |mb|;
    assert ga == ContentId(a)[..|ga|] && gb == ContentId(b)[..|gb|];
    assert ma == ContentId(a)[|ga|..] && mb == ContentId(b)[|gb|..];
  }

  function SourceId(s: Option<StatusData>): Option<string> {
    if s.Some? then Some(s.value.srcEvent.id) else None
  }

  /** The key depends on nothing but the two source event ids: statuses whose
      entries come from the same events get the same key, whatever else
      differs. */
  lemma ContentIdDependsOnIdsOnly(a: UserStatus, b: UserStatus)
    requires SourceId(a.general) == SourceId(b.general) && SourceId(a.music) == SourceId(b.music)
    ensures ContentId(a) == ContentId(b)
  {
  }

  /** `UserStatus.isEmpty`. */
  predicate IsEmpty(us: UserStatus)
    ensures IsEmpty(us) <==> forall c :: Get(us, c).None?
  {
    assert Get(us, General) == us.general && Get(us, Music) == us.music;
    us.general.None? && us.music.None?
  }

  /* ---- profiles ---- */

  datatype UserProfile = UserProfile(
    srcEventId: string,
    pubkey: string,
    displayName: Option<string>,
    name: Option<string>,
    nip05: Option<string>,
    picture: Option<string>)

  function Lookup(m: map<string, string>, k: string): Option<string> {
    if k in m then Some(m[k]) else None
  }

  /** `UserProfile.fromEvent`, with the JSON decoding of the content passed
      in (`None` when it throws). */
  function ProfileFromEvent(ev: Event, decode: string -> Option<map<string, string>>): (r: UserProfile)
    ensures r.srcEventId == ev.id && r.pubkey == ev.pubkey
    ensures ev.kind != KindMetadata || decode(ev.content).None? ==>
              r.displayName.None? && r.name.None? && r.nip05.None? && r.picture.None?
    ensures ev.kind == KindMetadata && decode(ev.content).Some? ==>
              var m := decode(ev.content).value;
              && ("display_name" in m ==> r.displayName == Some(m["display_name"]))
              && ("display_name" !in m ==> r.displayName == Lookup(m, "displayName"))
              && r.name == Lookup(m, "name") && r.nip05 == Lookup(m, "nip05")
              && r.picture == Lookup(m, "picture")
  {
    if ev.kind != KindMetadata then UserProfile(ev.id, ev.pubkey, None, None, None, None)
    else match decode(ev.content)
      case None => UserProfile(ev.id, ev.pubkey, None, None, None, None)
      case Some(m) =>
        var displayName := if "display_name" in m then Some(m["display_name"]) else Lookup(m, "displayName");
        UserProfile(ev.id, ev.pubkey, displayName, Lookup(m, "name"), Lookup(m, "nip05"), Lookup(m, "picture"))
  }

  /** The placeholder profile `{ srcEventId: "undefined", pubkey }`. */
  function StubProfile(pubkey: string): UserProfile {
    UserProfile("undefined", pubkey, None, None, None, None)
  }
}
