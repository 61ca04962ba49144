/** The older status reducer kept in `atoms.ts`. It takes the same three
    reasons to drop an event, but a clear only blanks the category: the
    pubkey stays in the map even when neither category is left. It keeps no
    expiry timers. */
module Legacy {
  import opened Wrappers
  import opened Events
  import opened Models
  import Engine
  import Ordering

  /** The map after an event and whether a snapshot was published. */
  datatype Update = Update(statuses: Engine.Statuses, published: bool)

  /** `isSupportedCategory`. */
  predicate IsSupportedCategory(s: string)
    ensures IsSupportedCategory(s) <==> s == "general" || s == "music"
  {
    s in ["general", "music"]
  }

  /** The legacy reducer accepts the event: it is not expired, names a
      supported category, and is either a status for a category with no
      entry or one strictly newer than the entry, or a clear strictly newer
      than an existing entry. */
  predicate Accepts(statuses: Engine.Statuses, ev: Event, now: int) {
    && !Engine.Expired(ev, now)
    && Engine.EventCategory(ev).Some?
    && var prev := Engine.Entry(statuses, ev.pubkey, Engine.EventCategory(ev).value);
       if StatusFromEvent(ev).content != "" then prev.None? || ev.createdAt > prev.value.createdAt
       else prev.Some? && ev.createdAt > prev.value.createdAt
  }

  /** `statusesMap.set(pubkey, { ...prev, [category]: v })`, where a missing
      `prev` stands for `{ pubkey }`. */
  function SetCategory(statuses: Engine.Statuses, pubkey: string, c: Category, v: Option<StatusData>): (r: Engine.Statuses)
    ensures pubkey in r
    ensures Engine.Entry(r, pubkey, c) == v
    ensures Engine.Entry(r, pubkey, Other(c)) == Engine.Entry(statuses, pubkey, Other(c))
    ensures r[pubkey].pubkey == (if pubkey in statuses then statuses[pubkey].pubkey else pubkey)
    ensures Engine.SameElsewhere(statuses, r, pubkey)
  {
    var base := if pubkey in statuses then statuses[pubkey] else UserStatus(pubkey, None, None);
    statuses[pubkey := With(base, c, v)]
  }

  /** The non-empty-content branch: insert when the pubkey is absent,
      replace when the category is absent or the status strictly newer. */
  function ApplyContent(statuses: Engine.Statuses, pubkey: string, c: Category, s: StatusData): (r: Update)
    ensures var prev := Engine.Entry(statuses, pubkey, c);
            r.published <==> prev.None? || s.createdAt > prev.value.createdAt
    ensures !r.published ==> r.statuses == statuses
    ensures r.published ==> r.statuses == SetCategory(statuses, pubkey, c, Some(s))
  {
    var prevSame := Engine.Entry(statuses, pubkey, c);
    if pubkey !in statuses then Update(SetCategory(statuses, pubkey, c, Some(s)), true)
    else if prevSame.None? || s.createdAt > prevSame.value.createdAt then
      Update(SetCategory(statuses, pubkey, c, Some(s)), true)
    else Update(statuses, false)
  }

  /** The empty-content branch: blank the category when it holds an older
      entry. */
  function ApplyClear(statuses: Engine.Statuses, pubkey: string, c: Category, s: StatusData): (r: Update)
    ensures var prev := Engine.Entry(statuses, pubkey, c);
            r.published <==> prev.Some? && s.createdAt > prev.value.createdAt
    ensures !r.published ==> r.statuses == statuses
    ensures r.published ==> r.statuses == SetCategory(statuses, pubkey, c, None)
  {
    var prevSame := Engine.Entry(statuses, pubkey, c);
    if pubkey in statuses && prevSame.Some? && s.createdAt > prevSame.value.createdAt then
      Update(SetCategory(statuses, pubkey, c, None), true)
    else Update(statuses, false)
  }

  /** `applyStatusUpdate` of `atoms.ts` at time `now`. */
  function ApplyStatusUpdate(statuses: Engine.Statuses, ev: Event, now: int): (r: Update)
    ensures r.published <==> Accepts(statuses, ev, now)
    ensures !r.published ==> r.statuses == statuses
    ensures r.published ==>
              var c := Engine.EventCategory(ev).value;
              var s := StatusFromEvent(ev);
              r.statuses == SetCategory(statuses, ev.pubkey, c, if s.content != "" then Some(s) else None)
  {
    var newStatus := StatusFromEvent(ev);
    if newStatus.expiration.Some? && now >= newStatus.expiration.value then
      assert Engine.Expired(ev, now);
      Update(statuses, false)
    else
      var category := FirstTagValueByName(ev, "d");
      assert Engine.EventCategory(ev) == ParseCategory(category);
      if !IsSupportedCategory(category) then Update(statuses, false)
      else
        var c := ParseCategory(category).value;
        if newStatus.content != "" then ApplyContent(statuses, ev.pubkey, c, newStatus)
        else ApplyClear(statuses, ev.pubkey, c, newStatus)
  }

  /** A snapshot is published exactly when the map changed. */
  lemma PublishedIffChanged(statuses: Engine.Statuses, ev: Event, now: int)
    ensures var r := ApplyStatusUpdate(statuses, ev, now);
            r.published <==> r.statuses != statuses
  {
    var r := ApplyStatusUpdate(statuses, ev, now);
    if r.published {
      var c := Engine.EventCategory(ev).value;
      assert Engine.Entry(r.statuses, ev.pubkey, c) != Engine.Entry(statuses, ev.pubkey, c);
    }
  }

  /** An accepted clear keeps the pubkey: the status left behind may hold
      neither category, which the current reducer never stores. */
  lemma ClearKeepsEmptyStatus(statuses: Engine.Statuses, ev: Event, now: int, c: Category)
    requires ev.pubkey in statuses && Get(statuses[ev.pubkey], Other(c)).None?
    requires Accepts(statuses, ev, now) && Engine.EventCategory(ev) == Some(c)
    requires StatusFromEvent(ev).content == ""
    ensures var r := ApplyStatusUpdate(statuses, ev, now).statuses;
            ev.pubkey in r && IsEmpty(r[ev.pubkey])
    ensures var e := Engine.Apply(Engine.State(statuses, map[]), ev, now).state.statuses;
            ev.pubkey !in e
  {
    var r := ApplyStatusUpdate(statuses, ev, now).statuses;
    assert Get(r[ev.pubkey], c).None? && Get(r[ev.pubkey], Other(c)).None?;
  }

  /** Compared with the current reducer on the same map: both publish for the
      same events, and their maps agree except that the legacy one may keep
      an empty status the current one drops. */
  lemma AgreesWithEngine(st: Engine.State, ev: Event, now: int)
    ensures var l := ApplyStatusUpdate(st.statuses, ev, now);
            var e := Engine.Apply(st, ev, now);
            && l.published == e.published
            && (forall p :: p in e.state.statuses ==> p in l.statuses && l.statuses[p] == e.state.statuses[p])
            && (forall p :: p in l.statuses && p !in e.state.statuses ==> IsEmpty(l.statuses[p]))
  {
    var l := ApplyStatusUpdate(st.statuses, ev, now);
    var e := Engine.Apply(st, ev, now);
    if !Engine.Ignored(st, ev, now) {
      var c := Engine.EventCategory(ev).value;
      var pubkey := ev.pubkey;
      if StatusFromEvent(ev).content != "" {
        AgreeOnSlot(st.statuses, l.statuses, e.state.statuses, pubkey, c);
      } else if l.published {
        AgreeOnSlot(st.statuses, l.statuses, e.state.statuses, pubkey, c);
      }
    }
  }

  /** Two maps that differ from `a` only at `pubkey`, and agree on both of
      its categories and its pubkey field there, agree everywhere but may
      differ on whether an empty status is kept. */
  lemma AgreeOnSlot(a: Engine.Statuses, l: Engine.Statuses, e: Engine.Statuses, pubkey: string, c: Category)
    requires Engine.SameElsewhere(a, l, pubkey) && Engine.SameElsewhere(a, e, pubkey)
    requires Engine.Entry(l, pubkey, c) == Engine.Entry(e, pubkey, c)
    requires Engine.Entry(l, pubkey, Other(c)) == Engine.Entry(e, pubkey, Other(c))
    requires pubkey in l
    requires pubkey in e ==> l[pubkey].pubkey == e[pubkey].pubkey
    requires pubkey !in e ==> Engine.Entry(l, pubkey, c).None? && Engine.Entry(l, pubkey, Other(c)).None?
    ensures forall p :: p in e ==> p in l && l[p] == e[p]
    ensures forall p :: p in l && p !in e ==> IsEmpty(l[p])
  {
    forall p | p in e
      ensures p in l && l[p] == e[p]
    {
      if p == pubkey {
        var x := l[pubkey];
        var y := e[pubkey];
        assert Get(x, c) == Get(y, c) && Get(x, Other(c)) == Get(y, Other(c));
        assert x.general == Get(x, General) && y.general == Get(y, General);
        assert x.music == Get(x, Music) && y.music == Get(y, Music);
      } else {
        assert p in e.Keys - {pubkey};
        assert p in l.Keys - {pubkey};
      }
    }
    forall p | p in l && p != pubkey
      ensures p in e
    {
      assert p in l.Keys - {pubkey};
    }
    forall p | p in l && p !in e
      ensures IsEmpty(l[p])
    {
      assert p == pubkey;
      assert Get(l[p], c).None? && Get(l[p], Other(c)).None?;
    }
  }

  /** In the view, an empty status sorts after any status updated at a
      positive time. */
  lemma EmptyStatusSortsLast(a: UserStatus, b: UserStatus)
    requires IsEmpty(a) && LastUpdateTime(b) > 0
    ensures Ordering.Before(b, a) && !Ordering.Before(a, b)
  {
    Ordering.BeforeAsymmetric(b, a);
  }
}
