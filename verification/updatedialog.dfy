/** The update-status dialog: the expiry choices, the dirty and clear
    predicates, and what it asks `updateMyStatus` to publish. */
module UpdateDialog {
  import opened Wrappers
  import opened Strings
  import opened Models
  import opened Publisher
  import opened Engine

  /** `ttlTable`: seconds for each choice, `None` for "never". */
  const TtlTable: map<string, Option<nat>> := map[
    "never" := None,
    "10min" := Some(10 * 60),
    "30min" := Some(30 * 60),
    "1hr" := Some(60 * 60),
    "4hr" := Some(4 * 60 * 60),
    "8hr" := Some(8 * 60 * 60),
    "1day" := Some(24 * 60 * 60)
  ]

  /** `ttlLabels`. */
  const TtlLabels: map<string, string> := map[
    "never" := "Never",
    "10min" := "10 Minutes",
    "30min" := "30 Minutes",
    "1hr" := "1 Hour",
    "4hr" := "4 Hours",
    "8hr" := "8 Hours",
    "1day" := "1 Day"
  ]

  /** Every choice has a label and every label a choice. */
  lemma LabelsMatchTable()
    ensures TtlLabels.Keys == TtlTable.Keys
    ensures |TtlTable| == 7
  {
    assert TtlTable.Keys == {"never", "10min", "30min", "1hr", "4hr", "8hr", "1day"};
    assert TtlLabels.Keys == {"never", "10min", "30min", "1hr", "4hr", "8hr", "1day"};
  }

  /** `ttlTable[ttlKey]` for the keys the select offers, which are the keys
      of the table; "never" reads as undefined. Any other key is read as
      undefined too. */
  function Ttl(ttlKey: string): (r: Option<nat>)
    ensures ttlKey in TtlTable ==> r == TtlTable[ttlKey]
    ensures ttlKey !in TtlTable || ttlKey == "never" ==> r.None?
    ensures r.Some? ==> 600 <= r.value <= 86400
  {
    if ttlKey in TtlTable then TtlTable[ttlKey] else None
  }

  /** `isDirty`: the trimmed content differs from the current status, or a
      status exists and the link was edited. */
  predicate IsDirty(initContent: string, initLinkUrl: string, content: string, linkUrl: string) {
    Trim(content) != initContent || (initContent != "" && linkUrl != initLinkUrl)
  }

  /** `isClearStatus`: a status exists and the field was blanked. */
  predicate IsClearStatus(initContent: string, content: string) {
    initContent != "" && Trim(content) == ""
  }

  /** An untouched form is not dirty (the stored content is already
      trimmed), and without a stored status only typed content makes the
      form dirty: editing the link alone does not. */
  lemma UntouchedFormIsClean(initContent: string, initLinkUrl: string, content: string, linkUrl: string)
    ensures Trim(initContent) == initContent ==> !IsDirty(initContent, initLinkUrl, initContent, initLinkUrl)
    ensures initContent == "" ==> (IsDirty(initContent, initLinkUrl, content, linkUrl) <==> !AllSpace(content))
  {
    TrimEmptyIffAllSpace(content);
  }

  /** The clear case is exactly a stored status and an all-whitespace field. */
  lemma ClearStatusIffBlanked(initContent: string, content: string)
    ensures IsClearStatus(initContent, content) <==> initContent != "" && AllSpace(content)
  {
    TrimEmptyIffAllSpace(content);
  }

  /** Blanking an existing status is always a change. */
  lemma ClearIsDirty(initContent: string, initLinkUrl: string, content: string, linkUrl: string)
    requires IsClearStatus(initContent, content)
    ensures IsDirty(initContent, initLinkUrl, content, linkUrl)
  {
  }

  /** What the update button sends: trimmed content and link, and the
      chosen ttl. */
  function UpdateRequest(content: string, linkUrl: string, ttlKey: string): (r: UpdateStatusInput)
    ensures r.content == Trim(content) && r.linkUrl == Trim(linkUrl)
    ensures Trim(r.content) == r.content && Trim(r.linkUrl) == r.linkUrl
    ensures r.ttl == Ttl(ttlKey)
  {
    TrimIdempotent(content);
    TrimIdempotent(linkUrl);
    UpdateStatusInput(Trim(content), Trim(linkUrl), Ttl(ttlKey))
  }

  /** What the clear button sends. */
  const ClearRequest: UpdateStatusInput := UpdateStatusInput("", "", None)

  /** Updating with blank content publishes a clear: whatever link and ttl
      were chosen, the reducer does exactly what the clear button makes it
      do. */
  lemma BlankUpdateActsAsClear(st: State, content: string, linkUrl: string, ttlKey: string, now: nat, id: string, pubkey: string)
    requires Trim(content) == ""
    ensures UpdateMyStatus(st, UpdateRequest(content, linkUrl, ttlKey), General, now, id, pubkey)
            == UpdateMyStatus(st, ClearRequest, General, now, id, pubkey)
  {
    var ev1 := MyStatusEvent(UpdateRequest(content, linkUrl, ttlKey), General, now, id, pubkey);
    var ev2 := MyStatusEvent(ClearRequest, General, now, id, pubkey);
    BlankEventIsClear(UpdateRequest(content, linkUrl, ttlKey), General, now, id, pubkey);
    BlankEventIsClear(ClearRequest, General, now, id, pubkey);
    ClearsAgree(st, ev1, ev2, now, General);
  }
}
