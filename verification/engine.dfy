/** The status reconciliation engine: user-status events (NIP-38 kind 30315)
    are folded into a map from pubkey to `UserStatus`, next to a registry of
    expiry timers (NIP-40). Every transition is a pure function of the state,
    the event and the current time `now` in Unix seconds. */
module Engine {
  import opened Wrappers
  import opened Events
  import opened Models
  import opened Scheduler

  /** `statusesMap`. */
  type Statuses = map<string, UserStatus>

  datatype State = State(statuses: Statuses, timers: Timers)

  /** The state after a transition and whether `followingsStatusesAtom` was
      set (a new snapshot published to the views). */
  datatype Step = Step(state: State, published: bool)

  const Initial: State := State(map[], map[])

  /** The entry of category `c` stored for `pubkey`, if any. */
  function Entry(statuses: Statuses, pubkey: string, c: Category): Option<StatusData> {
    if pubkey in statuses then Get(statuses[pubkey], c) else None
  }

  /** `a` and `b` agree on every pubkey other than `pubkey`. */
  predicate SameElsewhere(a: Statuses, b: Statuses, pubkey: string) {
    a.Keys - {pubkey} == b.Keys - {pubkey}
    && forall p :: p in a && p in b && p != pubkey ==> a[p] == b[p]
  }

  /** `a` and `b` agree on every timer other than that of `key`. */
  predicate TimersElsewhere(a: Timers, b: Timers, key: TimerKey) {
    a.Keys - {key} == b.Keys - {key}
    && forall k :: k in a && k in b && k != key ==> a[k] == b[k]
  }

  /* ---- invariant ---- */

  /** An entry stored under category `c` for `p`: the parse of a status event
      by `p` naming category `c`, with non-empty content. */
  predicate WellFormedEntry(p: string, c: Category, s: StatusData) {
    s.content != "" && s.srcEvent.pubkey == p && s == StatusFromEvent(s.srcEvent)
    && EventCategory(s.srcEvent) == Some(c)
  }

  predicate EntryOk(p: string, c: Category, e: Option<StatusData>) {
    e.Some? ==> WellFormedEntry(p, c, e.value)
  }

  /** What every stored `UserStatus` satisfies: it is filed under its own
      pubkey, is not empty, and each of its entries is well formed. */
  predicate WellFormedStatus(p: string, us: UserStatus) {
    us.pubkey == p && !IsEmpty(us) && EntryOk(p, General, us.general) && EntryOk(p, Music, us.music)
  }

  /** Replacing one category's entry by a well-formed one, or by nothing
      while the other stays, leaves a well-formed status. */
  lemma WithKeepsWellFormed(p: string, us: UserStatus, c: Category, v: Option<StatusData>)
    requires us.pubkey == p
    requires EntryOk(p, c, v) && EntryOk(p, Other(c), Get(us, Other(c)))
    requires v.Some? || Get(us, Other(c)).Some?
    ensures WellFormedStatus(p, With(us, c, v))
  {
    match c
    case General =>
    case Music =>
  }

  ghost predicate StatusesWellFormed(statuses: Statuses) {
    forall p :: p in statuses ==> WellFormedStatus(p, statuses[p])
  }

  /** A timer exists exactly for the entries that carry an expiration, and
      is due at that expiration. */
  ghost predicate TimersMatch(st: State) {
    && (forall k :: k in st.timers ==>
          Entry(st.statuses, k.pubkey, k.category).Some?
          && Entry(st.statuses, k.pubkey, k.category).value.expiration == Some(st.timers[k]))
    && (forall p, c :: Entry(st.statuses, p, c).Some? && Entry(st.statuses, p, c).value.expiration.Some?
          ==> TimerKey(p, c) in st.timers)
  }

  /** The engine's invariant. */
  ghost predicate Valid(st: State) {
    StatusesWellFormed(st.statuses) && TimersMatch(st)
  }

  lemma InitialValid()
    ensures Valid(Initial)
  {
  }

  /* ---- invalidation ---- */

  /** `invalidateStatus`: the category's entry is removed and the pubkey
      dropped once both are gone; a no-op without publishing when there is
      no such entry. Timers are not touched. */
  function InvalidateStatus(st: State, pubkey: string, c: Category): (r: Step)
    ensures r.state.timers == st.timers
    ensures r.published <==> Entry(st.statuses, pubkey, c).Some?
    ensures !r.published ==> r.state == st
    ensures Entry(r.state.statuses, pubkey, c).None?
    ensures Entry(r.state.statuses, pubkey, Other(c)) == Entry(st.statuses, pubkey, Other(c))
    ensures r.published ==> (pubkey in r.state.statuses <==> Entry(st.statuses, pubkey, Other(c)).Some?)
    ensures pubkey in r.state.statuses ==> pubkey in st.statuses && r.state.statuses[pubkey].pubkey == st.statuses[pubkey].pubkey
    ensures SameElsewhere(st.statuses, r.state.statuses, pubkey)
  {
    if Entry(st.statuses, pubkey, c).None? then Step(st, false)
    else
      var updated := With(st.statuses[pubkey], c, None);
      assert Get(updated, Other(c)) == Get(st.statuses[pubkey], Other(c));
      var statuses := if IsEmpty(updated) then st.statuses - {pubkey} else st.statuses[pubkey := updated];
      Step(State(statuses, st.timers), true)
  }

  /** A timer firing: `invalidateStatus` for its key, then the key leaves the
      registry. Firing after the entry was cleared changes nothing else. */
  function Fire(st: State, key: TimerKey): (r: Step)
    ensures r.state.timers.Keys == st.timers.Keys - {key}
    ensures forall k :: k in r.state.timers ==> r.state.timers[k] == st.timers[k]
    ensures r.published <==> Entry(st.statuses, key.pubkey, key.category).Some?
    ensures !r.published ==> r.state.statuses == st.statuses
    ensures Entry(r.state.statuses, key.pubkey, key.category).None?
    ensures SameElsewhere(st.statuses, r.state.statuses, key.pubkey)
  {
    var s := InvalidateStatus(st, key.pubkey, key.category);
    Step(State(s.state.statuses, Cancel(s.state.timers, key)), s.published)
  }

  /** Logging out: the map is cleared and every timer cancelled. */
  function Reset(st: State): (r: State)
    ensures Valid(r)
    ensures forall p :: p !in r.statuses
    ensures forall k :: k !in r.timers
  {
    State(map[], CancelAll(st.timers))
  }

  /* ---- applying an event ---- */

  /** The event carries an expiration that is not in the future. */
  predicate Expired(ev: Event, now: int) {
    var e := StatusFromEvent(ev).expiration;
    e.Some? && now >= e.value
  }

  /** The category named by the first `d` tag, if supported. */
  function EventCategory(ev: Event): Option<Category> {
    ParseCategory(FirstTagValueByName(ev, "d"))
  }

  /** The stored entry of that category is at least as new as the event. */
  predicate NotNewer(statuses: Statuses, ev: Event, c: Category) {
    var prev := Entry(statuses, ev.pubkey, c);
    prev.Some? && ev.createdAt <= prev.value.createdAt
  }

  /** The three cases in which an event is dropped. */
  predicate Ignored(st: State, ev: Event, now: int) {
    Expired(ev, now) || EventCategory(ev).None? || NotNewer(st.statuses, ev, EventCategory(ev).value)
  }

  /** The non-empty-content branch, for the parsed status `s` of category
      `c` by `pubkey`: the category's entry is replaced and its timer
      rescheduled for the expiration, or cancelled when there is none. */
  function ApplyContent(st: State, pubkey: string, c: Category, s: StatusData, now: int): (r: Step)
    requires s.expiration.Some? ==> now < s.expiration.value
    ensures r.published
    ensures Entry(r.state.statuses, pubkey, c) == Some(s)
    ensures Entry(r.state.statuses, pubkey, Other(c)) == Entry(st.statuses, pubkey, Other(c))
    ensures r.state.statuses[pubkey].pubkey == if pubkey in st.statuses then st.statuses[pubkey].pubkey else pubkey
    ensures SameElsewhere(st.statuses, r.state.statuses, pubkey)
    ensures TimersElsewhere(st.timers, r.state.timers, TimerKey(pubkey, c))
    ensures s.expiration.None? ==> TimerKey(pubkey, c) !in r.state.timers
    ensures s.expiration.Some? ==>
              && TimerKey(pubkey, c) in r.state.timers
              && r.state.timers[TimerKey(pubkey, c)] == s.expiration.value
              && r.state.timers[TimerKey(pubkey, c)] - now >= 1
  {
    var base := if pubkey in st.statuses then st.statuses[pubkey] else UserStatus(pubkey, None, None);
    var updated := With(base, c, Some(s));
    assert Get(updated, Other(c)) == Entry(st.statuses, pubkey, Other(c));
    var key := TimerKey(pubkey, c);
    var timers :=
      if s.expiration.None? then Cancel(st.timers, key)
      else Schedule(st.timers, key, now, s.expiration.value - now);
    Step(State(st.statuses[pubkey := updated], timers), true)
  }

  /** The empty-content branch: the timer of category `c` of `pubkey` is
      cancelled and the entry invalidated. */
  function ApplyClear(st: State, pubkey: string, c: Category): (r: Step)
    ensures TimerKey(pubkey, c) !in r.state.timers
    ensures TimersElsewhere(st.timers, r.state.timers, TimerKey(pubkey, c))
    ensures r.published <==> Entry(st.statuses, pubkey, c).Some?
    ensures !r.published ==> r.state.statuses == st.statuses
    ensures Entry(r.state.statuses, pubkey, c).None?
    ensures Entry(r.state.statuses, pubkey, Other(c)) == Entry(st.statuses, pubkey, Other(c))
    ensures r.published ==> (pubkey in r.state.statuses <==> Entry(st.statuses, pubkey, Other(c)).Some?)
    ensures SameElsewhere(st.statuses, r.state.statuses, pubkey)
  {
    InvalidateStatus(State(st.statuses, Cancel(st.timers, TimerKey(pubkey, c))), pubkey, c)
  }

  /** `applyStatusUpdate` at time `now`: dropped in the three ignored cases,
      otherwise the content branch or the clear branch for the event's
      category. */
  function Apply(st: State, ev: Event, now: int): (r: Step)
    ensures Ignored(st, ev, now) ==> r == Step(st, false)
    ensures !Ignored(st, ev, now) && StatusFromEvent(ev).content != "" ==>
              r == ApplyContent(st, ev.pubkey, EventCategory(ev).value, StatusFromEvent(ev), now)
    ensures !Ignored(st, ev, now) && StatusFromEvent(ev).content == "" ==>
              r == ApplyClear(st, ev.pubkey, EventCategory(ev).value)
  {
    var newStatus := StatusFromEvent(ev);
    if newStatus.expiration.Some? && now >= newStatus.expiration.value then Step(st, false)
    else match ParseCategory(FirstTagValueByName(ev, "d"))
      case None => Step(st, false)
      case Some(c) =>
        var prev := Entry(st.statuses, ev.pubkey, c);
        if prev.Some? && newStatus.createdAt <= prev.value.createdAt then Step(st, false)
        else if newStatus.content != "" then ApplyContent(st, ev.pubkey, c, newStatus, now)
        else ApplyClear(st, ev.pubkey, c)
  }

  /** A snapshot is published exactly when the statuses map changed. */
  lemma ApplyPublishedIffChanged(st: State, ev: Event, now: int)
    ensures Apply(st, ev, now).published <==> Apply(st, ev, now).state.statuses != st.statuses
  {
    if !Ignored(st, ev, now) && StatusFromEvent(ev).content != "" {
      var c := EventCategory(ev).value;
      var r := ApplyContent(st, ev.pubkey, c, StatusFromEvent(ev), now);
      assert Entry(r.state.statuses, ev.pubkey, c) != Entry(st.statuses, ev.pubkey, c);
    }
  }

  /** Clearing keeps every stored status well formed. */
  lemma ClearKeepsWellFormed(st: State, pubkey: string, c: Category)
    requires StatusesWellFormed(st.statuses)
    ensures StatusesWellFormed(ApplyClear(st, pubkey, c).state.statuses)
  {
    var r := ApplyClear(st, pubkey, c).state.statuses;
    if pubkey in r {
      var us := st.statuses[pubkey];
      assert EntryOk(pubkey, Other(c), Get(us, Other(c))) by {
        assert WellFormedStatus(pubkey, us);
        match c
        case General =>
        case Music =>
      }
      if Entry(st.statuses, pubkey, c).Some? {
        WithKeepsWellFormed(pubkey, us, c, None);
        assert r[pubkey] == With(us, c, None);
      }
    }
    forall p | p in r
      ensures WellFormedStatus(p, r[p])
    {
      if p != pubkey {
        assert r[p] == st.statuses[p];
      }
    }
  }

  /** A transition that touches only slot (`pubkey`, `c`) leaves every
      other slot's entry as it was. */
  lemma EntryElsewhere(a: Statuses, b: Statuses, pubkey: string, c: Category, p: string, c': Category)
    requires SameElsewhere(a, b, pubkey)
    requires Entry(b, pubkey, Other(c)) == Entry(a, pubkey, Other(c))
    requires TimerKey(p, c') != TimerKey(pubkey, c)
    ensures Entry(b, p, c') == Entry(a, p, c')
  {
    if p == pubkey {
      assert c' == Other(c) by {
        match c
        case General =>
        case Music =>
      }
    } else {
      assert p in a.Keys - {pubkey} <==> p in b.Keys - {pubkey};
    }
  }

  /** A transition that touches only slot `key` and leaves a timer for it
      exactly when its new entry has an expiration keeps `TimersMatch`. */
  lemma SlotKeepsTimersMatch(st: State, r: State, key: TimerKey)
    requires TimersMatch(st)
    requires SameElsewhere(st.statuses, r.statuses, key.pubkey)
    requires Entry(r.statuses, key.pubkey, Other(key.category)) == Entry(st.statuses, key.pubkey, Other(key.category))
    requires TimersElsewhere(st.timers, r.timers, key)
    requires var e := Entry(r.statuses, key.pubkey, key.category);
             (key in r.timers <==> e.Some? && e.value.expiration.Some?)
             && (key in r.timers ==> e.value.expiration == Some(r.timers[key]))
    ensures TimersMatch(r)
  {
    forall k | k in r.timers
      ensures Entry(r.statuses, k.pubkey, k.category).Some?
      ensures Entry(r.statuses, k.pubkey, k.category).value.expiration == Some(r.timers[k])
    {
      if k != key {
        assert k in r.timers.Keys - {key};
        EntryElsewhere(st.statuses, r.statuses, key.pubkey, key.category, k.pubkey, k.category);
      }
    }
    forall p, c | Entry(r.statuses, p, c).Some? && Entry(r.statuses, p, c).value.expiration.Some?
      ensures TimerKey(p, c) in r.timers
    {
      if TimerKey(p, c) != key {
        EntryElsewhere(st.statuses, r.statuses, key.pubkey, key.category, p, c);
        assert TimerKey(p, c) in st.timers.Keys - {key};
      }
    }
  }

  /** Clearing keeps a timer exactly for the entries with an expiration. */
  lemma ClearKeepsTimersMatch(st: State, pubkey: string, c: Category)
    requires TimersMatch(st)
    ensures TimersMatch(ApplyClear(st, pubkey, c).state)
  {
    SlotKeepsTimersMatch(st, ApplyClear(st, pubkey, c).state, TimerKey(pubkey, c));
  }

  lemma ClearPreservesValid(st: State, pubkey: string, c: Category)
    requires Valid(st)
    ensures Valid(ApplyClear(st, pubkey, c).state)
  {
    ClearKeepsWellFormed(st, pubkey, c);
    ClearKeepsTimersMatch(st, pubkey, c);
  }

  /** Storing a well-formed entry keeps every stored status well formed. */
  lemma ContentKeepsWellFormed(st: State, pubkey: string, c: Category, s: StatusData, now: int)
    requires StatusesWellFormed(st.statuses)
    requires s.expiration.Some? ==> now < s.expiration.value
    requires WellFormedEntry(pubkey, c, s)
    ensures StatusesWellFormed(ApplyContent(st, pubkey, c, s, now).state.statuses)
  {
    var r := ApplyContent(st, pubkey, c, s, now).state.statuses;
    var base := if pubkey in st.statuses then st.statuses[pubkey] else UserStatus(pubkey, None, None);
    assert EntryOk(pubkey, Other(c), Get(base, Other(c))) by {
      if pubkey in st.statuses {
        assert WellFormedStatus(pubkey, base);
        match c
        case General =>
        case Music =>
      }
    }
    WithKeepsWellFormed(pubkey, base, c, Some(s));
    assert r[pubkey] == With(base, c, Some(s));
    forall p | p in r
      ensures WellFormedStatus(p, r[p])
    {
      if p != pubkey {
        assert r[p] == st.statuses[p];
      }
    }
  }

  /** Storing an entry keeps a timer exactly for the entries with an
      expiration. */
  lemma ContentKeepsTimersMatch(st: State, pubkey: string, c: Category, s: StatusData, now: int)
    requires TimersMatch(st)
    requires s.expiration.Some? ==> now < s.expiration.value
    ensures TimersMatch(ApplyContent(st, pubkey, c, s, now).state)
  {
    SlotKeepsTimersMatch(st, ApplyContent(st, pubkey, c, s, now).state, TimerKey(pubkey, c));
  }

  lemma ContentPreservesValid(st: State, pubkey: string, c: Category, s: StatusData, now: int)
    requires Valid(st)
    requires s.expiration.Some? ==> now < s.expiration.value
    requires WellFormedEntry(pubkey, c, s)
    ensures Valid(ApplyContent(st, pubkey, c, s, now).state)
  {
    ContentKeepsWellFormed(st, pubkey, c, s, now);
    ContentKeepsTimersMatch(st, pubkey, c, s, now);
  }

  /** Applying any event keeps the invariant. */
  lemma ApplyPreservesValid(st: State, ev: Event, now: int)
    requires Valid(st)
    ensures Valid(Apply(st, ev, now).state)
  {
    if !Ignored(st, ev, now) {
      var c := EventCategory(ev).value;
      if StatusFromEvent(ev).content != "" {
        ContentPreservesValid(st, ev.pubkey, c, StatusFromEvent(ev), now);
      } else {
        ClearPreservesValid(st, ev.pubkey, c);
      }
    }
  }

  /** A timer firing keeps the invariant. */
  lemma FirePreservesValid(st: State, key: TimerKey)
    requires Valid(st)
    ensures Valid(Fire(st, key).state)
  {
    ClearPreservesValid(st, key.pubkey, key.category);
    assert Fire(st, key).state == ApplyClear(st, key.pubkey, key.category).state;
  }

  /** A timer that fires after its entry was cleared changes nothing. */
  lemma FireAfterClearIsNoop(st: State, pubkey: string, c: Category)
    ensures var cleared := ApplyClear(st, pubkey, c).state;
            Fire(cleared, TimerKey(pubkey, c)) == Step(State(cleared.statuses, cleared.timers), false)
  {
  }

  /** `ev` is a status event by `pubkey` for category `c`. */
  predicate InSlot(ev: Event, pubkey: string, c: Category) {
    ev.pubkey == pubkey && EventCategory(ev) == Some(c)
  }

  /** A clear leaves no tombstone: after an accepted clear, an event older
      than the clear is stored again. */
  lemma ClearLeavesNoTombstone(st: State, clear: Event, older: Event, now: int, pubkey: string, c: Category)
    requires InSlot(clear, pubkey, c) && InSlot(older, pubkey, c)
    requires !Ignored(st, clear, now) && StatusFromEvent(clear).content == ""
    requires !Expired(older, now) && StatusFromEvent(older).content != ""
    requires older.createdAt < clear.createdAt
    ensures var after := Apply(Apply(st, clear, now).state, older, now);
            after.published && Entry(after.state.statuses, pubkey, c) == Some(StatusFromEvent(older))
  {
    var mid := Apply(st, clear, now).state;
    assert Entry(mid.statuses, pubkey, c).None?;
    assert !Ignored(mid, older, now);
  }

  /** Applying events one after the other with `step`. */
  function Fold(step: (State, Event) -> State, st: State, evs: seq<Event>): State {
    if |evs| == 0 then st
    else step(Fold(step, st, evs[..|evs| - 1]), evs[|evs| - 1])
  }

  /** Applying events one after the other, all at time `now`. */
  function ApplyAll(st: State, evs: seq<Event>, now: int): State {
    Fold((s, e) => Apply(s, e, now).state, st, evs)
  }

  /** Any sequence of events keeps both invariants. */
  lemma {:induction false} ApplyAllPreservesValid(st: State, evs: seq<Event>, now: int)
    requires Valid(st)
    ensures Valid(ApplyAll(st, evs, now))
    decreases |evs|
  {
    if |evs| > 0 {
      var prefix := evs[..|evs| - 1];
      ApplyAllPreservesValid(st, prefix, now);
      assert ApplyAll(st, evs, now) == Apply(ApplyAll(st, prefix, now), evs[|evs| - 1], now).state;
      ApplyPreservesValid(ApplyAll(st, prefix, now), evs[|evs| - 1], now);
    }
  }

  /** The position of the first event with the greatest `createdAt`. */
  function FirstNewest(evs: seq<Event>): (r: nat)
    requires |evs| > 0
    ensures r < |evs|
    ensures forall k :: 0 <= k < |evs| ==> evs[k].createdAt <= evs[r].createdAt
    ensures forall k :: 0 <= k < r ==> evs[k].createdAt < evs[r].createdAt
  {
    if |evs| == 1 then 0
    else
      var i := FirstNewest(evs[..|evs| - 1]);
      assert forall k :: 0 <= k < |evs| - 1 ==> evs[k] == evs[..|evs| - 1][k];
      if evs[|evs| - 1].createdAt > evs[i].createdAt then |evs| - 1 else i
  }

  /** A step that, on events by `pubkey`, keeps the entry of slot `c`
      unless the event is newer, and then stores the event's parse. */
  ghost predicate KeepsNewer(step: (State, Event) -> State, evs: seq<Event>, pubkey: string, c: Category) {
    forall s, k :: 0 <= k < |evs| ==>
      Entry(step(s, evs[k]).statuses, pubkey, c)
      == if NotNewer(s.statuses, evs[k], c) then Entry(s.statuses, pubkey, c) else Some(StatusFromEvent(evs[k]))
  }

  /** Folding such a step over events by `pubkey` from an empty slot leaves
      the first of the newest events in the slot. */
  lemma {:induction false} FoldKeepsNewest(step: (State, Event) -> State, st: State, evs: seq<Event>, pubkey: string, c: Category)
    requires |evs| > 0
    requires Entry(st.statuses, pubkey, c).None?
    requires forall k :: 0 <= k < |evs| ==> evs[k].pubkey == pubkey
    requires KeepsNewer(step, evs, pubkey, c)
    ensures Entry(Fold(step, st, evs).statuses, pubkey, c) == Some(StatusFromEvent(evs[FirstNewest(evs)]))
  {
    var n := |evs|;
    var init := evs[..n - 1];
    var last := evs[n - 1];
    var mid := Fold(step, st, init);
    assert Fold(step, st, evs) == step(mid, last);
    if n > 1 {
      assert forall k :: 0 <= k < n - 1 ==> init[k] == evs[k];
      KeepsNewerPrefix(step, evs, pubkey, c);
      FoldKeepsNewest(step, st, init, pubkey, c);
      var i := FirstNewest(init);
      assert evs[i] == init[i];
      assert FirstNewest(evs) == if last.createdAt > evs[i].createdAt then n - 1 else i;
    } else {
      assert mid == st;
    }
  }

  lemma KeepsNewerPrefix(step: (State, Event) -> State, evs: seq<Event>, pubkey: string, c: Category)
    requires |evs| > 0
    requires KeepsNewer(step, evs, pubkey, c)
    ensures KeepsNewer(step, evs[..|evs| - 1], pubkey, c)
  {
    var init := evs[..|evs| - 1];
    forall s, k | 0 <= k < |init|
      ensures Entry(step(s, init[k]).statuses, pubkey, c)
           == if NotNewer(s.statuses, init[k], c) then Entry(s.statuses, pubkey, c) else Some(StatusFromEvent(init[k]))
    {
      assert init[k] == evs[k];
    }
  }

  /** Folding status events with content for one slot, none of them
      expired, into a state without that slot: the stored entry is the first
      of the newest events, in whatever order the others arrive. */
  lemma ApplyAllKeepsNewest(st: State, evs: seq<Event>, now: int, pubkey: string, c: Category)
    requires |evs| > 0
    requires Entry(st.statuses, pubkey, c).None?
    requires forall k :: 0 <= k < |evs| ==>
               InSlot(evs[k], pubkey, c) && !Expired(evs[k], now) && StatusFromEvent(evs[k]).content != ""
    ensures Entry(ApplyAll(st, evs, now).statuses, pubkey, c) == Some(StatusFromEvent(evs[FirstNewest(evs)]))
  {
    var step := (s, e) => Apply(s, e, now).state;
    forall s, k | 0 <= k < |evs|
      ensures Entry(step(s, evs[k]).statuses, pubkey, c)
           == if NotNewer(s.statuses, evs[k], c) then Entry(s.statuses, pubkey, c) else Some(StatusFromEvent(evs[k]))
    {
      ApplyStep(s, evs[k], now, pubkey, c);
    }
    FoldKeepsNewest(step, st, evs, pubkey, c);
  }

  /** One step of the fold for a slot: the event replaces the entry exactly
      when the slot is empty or older. */
  lemma ApplyStep(st: State, ev: Event, now: int, pubkey: string, c: Category)
    requires InSlot(ev, pubkey, c) && !Expired(ev, now) && StatusFromEvent(ev).content != ""
    ensures Entry(Apply(st, ev, now).state.statuses, pubkey, c)
         == if NotNewer(st.statuses, ev, c) then Entry(st.statuses, pubkey, c) else Some(StatusFromEvent(ev))
  {
    if NotNewer(st.statuses, ev, c) {
      ApplyIgnoresNotNewer(st, ev, now, c);
    } else {
      ApplyStoresNewer(st, ev, now, pubkey, c);
    }
  }

  /** An event no newer than the stored entry of its slot changes nothing. */
  lemma ApplyIgnoresNotNewer(st: State, ev: Event, now: int, c: Category)
    requires EventCategory(ev) == Some(c) && NotNewer(st.statuses, ev, c)
    ensures Apply(st, ev, now) == Step(st, false)
  {
  }

  /** An unexpired status event with content whose slot is empty or older is
      stored. */
  lemma ApplyStoresNewer(st: State, ev: Event, now: int, pubkey: string, c: Category)
    requires InSlot(ev, pubkey, c) && !Expired(ev, now) && StatusFromEvent(ev).content != ""
    requires !NotNewer(st.statuses, ev, c)
    ensures Entry(Apply(st, ev, now).state.statuses, pubkey, c) == Some(StatusFromEvent(ev))
  {
    assert !Ignored(st, ev, now);
  }

  /** An unexpired clear is either dropped as not newer or clears its slot;
      nothing else about the event matters. */
  lemma ApplyClearCase(st: State, ev: Event, now: int, c: Category)
    requires EventCategory(ev) == Some(c) && !Expired(ev, now) && StatusFromEvent(ev).content == ""
    ensures Apply(st, ev, now) == if NotNewer(st.statuses, ev, c) then Step(st, false) else ApplyClear(st, ev.pubkey, c)
  {
  }

  /** Two unexpired clears of the same slot at the same time have the same
      effect, whatever else they carry. */
  lemma ClearsAgree(st: State, e1: Event, e2: Event, now: int, c: Category)
    requires EventCategory(e1) == Some(c) && !Expired(e1, now) && StatusFromEvent(e1).content == ""
    requires EventCategory(e2) == Some(c) && !Expired(e2, now) && StatusFromEvent(e2).content == ""
    requires e1.pubkey == e2.pubkey && e1.createdAt == e2.createdAt
    ensures Apply(st, e1, now) == Apply(st, e2, now)
  {
    ApplyClearCase(st, e1, now, c);
    ApplyClearCase(st, e2, now, c);
  }

  /** An event never changes the other category of its author. */
  lemma ApplyKeepsOtherCategory(st: State, ev: Event, now: int, c: Category)
    requires EventCategory(ev) == Some(c)
    ensures Entry(Apply(st, ev, now).state.statuses, ev.pubkey, Other(c)) == Entry(st.statuses, ev.pubkey, Other(c))
  {
  }
}
