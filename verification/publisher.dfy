/** Publishing the user's own status: the kind 30315 event `updateMyStatus`
    builds, and its local echo through the reducer before it is sent.
    Signing is left out: the signed event's id and pubkey are parameters. */
module Publisher {
  import opened Wrappers
  import opened Strings
  import opened Events
  import opened Models
  import opened Scheduler
  import opened Engine

  /** `UpdateStatusInput`: the ttl in seconds, `None` for no expiry. */
  datatype UpdateStatusInput = UpdateStatusInput(content: string, linkUrl: string, ttl: Option<nat>)

  /** The expiration time, `created_at + ttl` when a ttl is given. */
  function ExpirationFor(ttl: Option<nat>, createdAt: nat): (r: Option<nat>)
    ensures r.Some? <==> ttl.Some?
    ensures r.Some? ==> r.value >= createdAt
  {
    if ttl.Some? then Some(createdAt + ttl.value) else None
  }

  /** The event of `updateMyStatus`, created at `now`, for `category`.
      `updateMyStatus` writes the `d` tag `general`, while `ShareMusicDialog`
      passes `category: "music"`; the category is a parameter here. */
  function MyStatusEvent(input: UpdateStatusInput, category: Category, now: nat, id: string, pubkey: string): (r: Event)
    ensures r.kind == KindUserStatus && r.createdAt == now
    ensures r.content == input.content && r.id == id && r.pubkey == pubkey
    ensures |r.tags| == 1 + (if input.linkUrl != "" then 1 else 0) + (if input.ttl.Some? then 1 else 0)
    ensures r.tags[0] == ["d", CategoryName(category)]
  {
    var exp := ExpirationFor(input.ttl, now);
    var tags :=
      [["d", CategoryName(category)]]
      + (if input.linkUrl != "" then [["r", input.linkUrl]] else [])
      + (if exp.Some? then [["expiration", NatToString(exp.value)]] else []);
    Event(id, pubkey, KindUserStatus, input.content, now, tags)
  }

  lemma MyStatusEventCategory(input: UpdateStatusInput, category: Category, now: nat, id: string, pubkey: string)
    ensures EventCategory(MyStatusEvent(input, category, now, id, pubkey)) == Some(category)
  {
    var ev := MyStatusEvent(input, category, now, id, pubkey);
    assert FirstNamedAt(ev.tags, "d", 0);
  }

  lemma MyStatusEventLink(input: UpdateStatusInput, category: Category, now: nat, id: string, pubkey: string)
    ensures FirstTagValueByName(MyStatusEvent(input, category, now, id, pubkey), "r") == input.linkUrl
  {
    var tags := MyStatusEvent(input, category, now, id, pubkey).tags;
    if input.linkUrl != "" {
      assert FirstNamedAt(tags, "r", 1);
    } else {
      assert forall j :: 0 <= j < |tags| ==> tags[j][0] != "r";
    }
  }

  lemma MyStatusEventExpirationTag(input: UpdateStatusInput, category: Category, now: nat, id: string, pubkey: string)
    ensures var v := FirstTagValueByName(MyStatusEvent(input, category, now, id, pubkey), "expiration");
            if input.ttl.Some? then v == NatToString(now + input.ttl.value) else v == ""
  {
    var tags := MyStatusEvent(input, category, now, id, pubkey).tags;
    if input.ttl.Some? {
      assert FirstNamedAt(tags, "expiration", |tags| - 1);
    } else {
      assert forall j :: 0 <= j < |tags| ==> tags[j][0] != "expiration";
    }
  }

  /** Reading the event back gives what was put in: its category, the
      trimmed content, the link (or none) and the expiration `now + ttl`. */
  lemma MyStatusEventRoundTrip(input: UpdateStatusInput, category: Category, now: nat, id: string, pubkey: string)
    ensures var ev := MyStatusEvent(input, category, now, id, pubkey);
            var s := StatusFromEvent(ev);
            && EventCategory(ev) == Some(category)
            && s.content == Trim(input.content)
            && s.linkUrl == input.linkUrl
            && s.expiration == (if input.ttl.Some? then Some(now + input.ttl.value) else None)
  {
    MyStatusEventCategory(input, category, now, id, pubkey);
    MyStatusEventLink(input, category, now, id, pubkey);
    MyStatusEventExpirationTag(input, category, now, id, pubkey);
    if input.ttl.Some? {
      ParseNumberOfNatToString(now + input.ttl.value);
    }
  }

  /** An event built from blank content with no ttl or a positive one is an
      unexpired clear of its category. */
  lemma BlankEventIsClear(input: UpdateStatusInput, category: Category, now: nat, id: string, pubkey: string)
    requires Trim(input.content) == ""
    requires input.ttl.Some? ==> input.ttl.value > 0
    ensures var ev := MyStatusEvent(input, category, now, id, pubkey);
            && EventCategory(ev) == Some(category) && StatusFromEvent(ev).content == ""
            && !Expired(ev, now) && ev.pubkey == pubkey && ev.createdAt == now
  {
    MyStatusEventRoundTrip(input, category, now, id, pubkey);
  }

  /** `updateMyStatus`: the event is applied locally at `now` (and then
      sent, which is not modelled). */
  function UpdateMyStatus(st: State, input: UpdateStatusInput, category: Category, now: nat, id: string, pubkey: string): (r: Step)
    ensures SameElsewhere(st.statuses, r.state.statuses, pubkey)
    ensures Entry(r.state.statuses, pubkey, Other(category)) == Entry(st.statuses, pubkey, Other(category))
    ensures TimersElsewhere(st.timers, r.state.timers, TimerKey(pubkey, category))
  {
    MyStatusEventCategory(input, category, now, id, pubkey);
    Apply(st, MyStatusEvent(input, category, now, id, pubkey), now)
  }

  /** The local echo of a new status: when nothing as new is stored, the
      user's own entry becomes the status just sent, with its link and its
      expiry timer. */
  lemma EchoStoresOwnStatus(st: State, input: UpdateStatusInput, category: Category, now: nat, id: string, pubkey: string)
    requires Trim(input.content) != ""
    requires input.ttl.Some? ==> input.ttl.value > 0
    requires Entry(st.statuses, pubkey, category).Some? ==> Entry(st.statuses, pubkey, category).value.createdAt < now
    ensures var r := UpdateMyStatus(st, input, category, now, id, pubkey);
            var e := Entry(r.state.statuses, pubkey, category);
            && r.published
            && e.Some? && e.value.content == Trim(input.content) && e.value.linkUrl == input.linkUrl
            && e.value.createdAt == now
            && (input.ttl.None? ==> TimerKey(pubkey, category) !in r.state.timers)
            && (input.ttl.Some? ==>
                  TimerKey(pubkey, category) in r.state.timers
                  && r.state.timers[TimerKey(pubkey, category)] == now + input.ttl.value)
  {
    MyStatusEventRoundTrip(input, category, now, id, pubkey);
  }

  /** The local echo of a clear: the user's entry of that category and its
      timer are gone. */
  lemma EchoClearsOwnStatus(st: State, category: Category, now: nat, id: string, pubkey: string)
    requires Entry(st.statuses, pubkey, category).Some? ==> Entry(st.statuses, pubkey, category).value.createdAt < now
    ensures var r := UpdateMyStatus(st, UpdateStatusInput("", "", None), category, now, id, pubkey);
            && Entry(r.state.statuses, pubkey, category).None?
            && TimerKey(pubkey, category) !in r.state.timers
            && (r.published <==> Entry(st.statuses, pubkey, category).Some?)
  {
    MyStatusEventRoundTrip(UpdateStatusInput("", "", None), category, now, id, pubkey);
  }

  /** A second update in the same second as the stored one is dropped
      locally: the reducer keeps the first of two equally new events. */
  lemma SameSecondUpdateIgnored(st: State, input: UpdateStatusInput, category: Category, now: nat, id: string, pubkey: string)
    requires Entry(st.statuses, pubkey, category).Some? && Entry(st.statuses, pubkey, category).value.createdAt >= now
    ensures UpdateMyStatus(st, input, category, now, id, pubkey) == Step(st, false)
  {
    MyStatusEventRoundTrip(input, category, now, id, pubkey);
    ApplyIgnoresNotNewer(st, MyStatusEvent(input, category, now, id, pubkey), now, category);
  }
}
