/** The share-music dialog: the storefront country, the status text built
    from the song data, and what sharing and stopping send. */
module ShareMusic {
  import opened Wrappers
  import opened Strings
  import opened Models
  import opened Publisher
  import opened Engine
  import StatusCard

  /** `langCodeToCountry`. */
  function LangCodeToCountry(lang: string): (r: string)
    ensures r == "JP" <==> lang == "ja"
    ensures r == "JP" || r == "US"
  {
    match lang
    case "ja" => "JP"
    case "en" => "US"
    case _ => "US"
  }

  /** `SongData`: title and artist may be missing. */
  datatype SongData = SongData(url: string, title: Option<string>, artist: Option<string>)

  datatype MusicStatus = MusicStatus(content: string, linkUrl: string)

  /** `newMusicStatus`: nothing until the song data is loaded; then
      "title - artist", each part "???" when missing or empty, linking to
      the song. */
  function NewMusicStatus(song: Option<SongData>): (r: Option<MusicStatus>)
    ensures r.Some? <==> song.Some?
    ensures r.Some? ==> r.value.linkUrl == song.value.url
    ensures r.Some? ==> StartsWith(r.value.content, StatusCard.OrUnknown(song.value.title))
    ensures r.Some? ==> EndsWith(r.value.content, StatusCard.OrUnknown(song.value.artist))
  {
    match song
    case None => None
    case Some(data) =>
      var title := StatusCard.OrUnknown(data.title);
      var artist := StatusCard.OrUnknown(data.artist);
      var content := title + " - " + artist;
      assert content[..|title|] == title;
      assert content[|content| - |artist|..] == artist;
      Some(MusicStatus(content, data.url))
  }

  /** The music text is never blank, so sharing never reads as a clear. */
  lemma MusicStatusNotBlank(song: SongData)
    ensures Trim(NewMusicStatus(Some(song)).value.content) != ""
  {
    var title := StatusCard.OrUnknown(song.title);
    var content := NewMusicStatus(Some(song)).value.content;
    assert content[|title| + 1] == '-';
    TrimEmptyIffAllSpace(content);
  }

  /** `handleClickShare`: nothing without a loaded song; otherwise the
      music status with no expiry. */
  function ShareRequest(status: Option<MusicStatus>): (r: Option<UpdateStatusInput>)
    ensures r.Some? <==> status.Some?
    ensures r.Some? ==> r.value.content == status.value.content && r.value.linkUrl == status.value.linkUrl
    ensures r.Some? ==> r.value.ttl.None?
  {
    match status
    case None => None
    case Some(s) => Some(UpdateStatusInput(s.content, s.linkUrl, None))
  }

  /** `handleClickStopSharing`: a music status with empty content. */
  const StopSharingRequest: UpdateStatusInput := UpdateStatusInput("", "", None)

  /** Category sent by both buttons. */
  const MusicCategory: Category := Music

  /** Sharing a loaded song stores it as the user's music status when
      nothing as new is stored, and never touches the general status. */
  lemma ShareStoresMusicOnly(st: State, song: SongData, now: nat, id: string, pubkey: string)
    requires Entry(st.statuses, pubkey, Music).Some? ==> Entry(st.statuses, pubkey, Music).value.createdAt < now
    ensures var req := ShareRequest(NewMusicStatus(Some(song))).value;
            var r := UpdateMyStatus(st, req, MusicCategory, now, id, pubkey);
            && Entry(r.state.statuses, pubkey, Music).Some?
            && Entry(r.state.statuses, pubkey, Music).value.linkUrl == song.url
            && Entry(r.state.statuses, pubkey, General) == Entry(st.statuses, pubkey, General)
  {
    var req := ShareRequest(NewMusicStatus(Some(song))).value;
    MusicStatusNotBlank(song);
    EchoStoresOwnStatus(st, req, Music, now, id, pubkey);
    MyStatusEventCategory(req, Music, now, id, pubkey);
    ApplyKeepsOtherCategory(st, MyStatusEvent(req, Music, now, id, pubkey), now, Music);
  }

  /** Stopping clears the music status when it is older, and never touches
      the general status. */
  lemma StopSharingClearsMusicOnly(st: State, now: nat, id: string, pubkey: string)
    ensures var r := UpdateMyStatus(st, StopSharingRequest, MusicCategory, now, id, pubkey);
            && Entry(r.state.statuses, pubkey, General) == Entry(st.statuses, pubkey, General)
            && (Entry(st.statuses, pubkey, Music).Some? ==> Entry(st.statuses, pubkey, Music).value.createdAt < now ==>
                  Entry(r.state.statuses, pubkey, Music).None?)
  {
    var ev := MyStatusEvent(StopSharingRequest, Music, now, id, pubkey);
    BlankEventIsClear(StopSharingRequest, Music, now, id, pubkey);
    ApplyClearCase(st, ev, now, Music);
    ApplyKeepsOtherCategory(st, ev, now, Music);
  }
}
