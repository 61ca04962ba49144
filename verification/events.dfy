/** Nostr events (NIP-01) and the tag accessors the client uses to read them. */
module Events {
  import opened Wrappers
  import opened Seqs

  /** A tag is a list of strings whose element 0 is its name. */
  type Tag = seq<string>

  /** A signed event as received from a relay; the signature is checked by the
      transport layer and is not part of the model. */
  datatype Event = Event(
    id: string,
    pubkey: string,
    kind: nat,
    content: string,
    createdAt: nat,
    tags: seq<Tag>)

  const KindMetadata: nat := 0
  const KindContacts: nat := 3
  const KindRelayList: nat := 10002
  const KindUserStatus: nat := 30315

  predicate Named(t: Tag, name: string) {
    |t| > 0 && t[0] == name
  }

  /** `t[1] ?? ""`: the tag's value, or the empty string when it has none. */
  function ValueOf(t: Tag): string {
    if |t| > 1 then t[1] else ""
  }

  /** `i` is the position of the first tag named `name`. */
  ghost predicate FirstNamedAt(tags: seq<Tag>, name: string, i: int) {
    0 <= i < |tags| && Named(tags[i], name)
    && forall j :: 0 <= j < i ==> !Named(tags[j], name)
  }

  /** `tags.find(t => t[0] === name)`, as a position. */
  function FindNamed(tags: seq<Tag>, name: string): (r: Option<nat>)
    ensures r.Some? ==> FirstNamedAt(tags, name, r.value)
    ensures r.None? <==> forall j :: 0 <= j < |tags| ==> !Named(tags[j], name)
  {
    if |tags| == 0 then None
    else if Named(tags[0], name) then Some(0)
    else match FindNamed(tags[1..], name)
      case None => None
      case Some(i) => Some(i + 1)
  }

  /** `getFirstTagByName`: the first tag with that name, or `[]`. */
  function FirstTagByName(ev: Event, name: string): (r: Tag)
    ensures r == [] <==> forall j :: 0 <= j < |ev.tags| ==> !Named(ev.tags[j], name)
    ensures r != [] ==> exists i :: FirstNamedAt(ev.tags, name, i) && r == ev.tags[i]
  {
    match FindNamed(ev.tags, name)
    case None => []
    case Some(i) => ev.tags[i]
  }

  /** `getFirstTagValueByName`: element 1 of the first tag with that name;
      the empty string when there is no such tag or it has no value, even if
      a later tag of that name carries one. */
  function FirstTagValueByName(ev: Event, name: string): (r: string)
    ensures (forall j :: 0 <= j < |ev.tags| ==> !Named(ev.tags[j], name)) ==> r == ""
    ensures forall i :: FirstNamedAt(ev.tags, name, i) ==> r == ValueOf(ev.tags[i])
  {
    match FindNamed(ev.tags, name)
    case None => ""
    case Some(i) => ValueOf(ev.tags[i])
  }

  /** The number of tags with that name. */
  function CountNamed(tags: seq<Tag>, name: string): nat {
    if |tags| == 0 then 0
    else (if Named(tags[0], name) then 1 else 0) + CountNamed(tags[1..], name)
  }

  function FilterNamed(tags: seq<Tag>, name: string): (r: seq<Tag>)
    ensures |r| == CountNamed(tags, name)
    ensures forall k :: 0 <= k < |r| ==> Named(r[k], name)
    ensures forall t :: t in r <==> t in tags && Named(t, name)
    ensures IsSubsequence(r, tags)
  {
    if |tags| == 0 then []
    else if Named(tags[0], name) then [tags[0]] + FilterNamed(tags[1..], name)
    else FilterNamed(tags[1..], name)
  }

  /** `getTagsByName`: every tag with that name, in tag order. */
  function TagsByName(ev: Event, name: string): (r: seq<Tag>)
    ensures |r| == CountNamed(ev.tags, name)
    ensures forall t :: t in r <==> t in ev.tags && Named(t, name)
    ensures IsSubsequence(r, ev.tags)
  {
    FilterNamed(ev.tags, name)
  }

  /** `getTagValuesByName`: one value per tag with that name, in tag order,
      `""` standing for a missing value. */
  function TagValuesByName(ev: Event, name: string): (r: seq<string>)
    ensures |r| == CountNamed(ev.tags, name)
    ensures forall k :: 0 <= k < |r| ==> r[k] == ValueOf(TagsByName(ev, name)[k])
  {
    var ts := TagsByName(ev, name);
    seq(|ts|, k requires 0 <= k < |ts| => ValueOf(ts[k]))
  }

  /** A first tag without a value hides the value of a later tag of the same
      name. */
  lemma FirstTagValueIgnoresLaterTags(ev: Event, name: string, i: nat, j: nat)
    requires FirstNamedAt(ev.tags, name, i) && |ev.tags[i]| == 1
    requires i < j < |ev.tags| && Named(ev.tags[j], name) && |ev.tags[j]| > 1
    ensures FirstTagValueByName(ev, name) == ""
  {
  }
}
