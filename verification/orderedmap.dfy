/** An insertion-ordered map keyed by strings, the shape of both a JavaScript `Map` and a
    plain object with string keys: entries keep the position of the first
    insertion of their key, and setting an existing key replaces its value in
    place. */
module OrderedMap {
  import opened Wrappers

  datatype Entry<V> = Entry(key: string, value: V)

  type OMap<V> = seq<Entry<V>>

  ghost predicate KeysUnique<V>(m: OMap<V>) {
    forall i, j :: 0 <= i < j < |m| ==> m[i].key != m[j].key
  }

  /** The keys in iteration order (`Object.keys` / `Map.prototype.keys`). */
  function Keys<V>(m: OMap<V>): (r: seq<string>)
    ensures |r| == |m|
    ensures forall i :: 0 <= i < |m| ==> r[i] == m[i].key
  {
    if |m| == 0 then [] else [m[0].key] + Keys(m[1..])
  }

  /** The position of the entry holding `k`, if any. */
  function IndexOf<V>(m: OMap<V>, k: string): (r: Option<nat>)
    ensures r.Some? ==> r.value < |m| && m[r.value].key == k
    ensures r.Some? ==> forall j :: 0 <= j < r.value ==> m[j].key != k
    ensures r.None? <==> k !in Keys(m)
  {
    if |m| == 0 then None
    else if m[0].key == k then Some(0)
    else match IndexOf(m[1..], k)
      case None => None
      case Some(i) => Some(i + 1)
  }

  function Get<V>(m: OMap<V>, k: string): (r: Option<V>)
    ensures r.None? <==> k !in Keys(m)
  {
    match IndexOf(m, k)
    case None => None
    case Some(i) => Some(m[i].value)
  }

  /** In a map with unique keys, the value of the entry holding a key is the
      value `Get` finds. */
  lemma GetOfEntry<V>(m: OMap<V>, i: nat)
    requires KeysUnique(m) && i < |m|
    ensures Get(m, m[i].key) == Some(m[i].value)
  {
    var j := IndexOf(m, m[i].key);
    assert Keys(m)[i] == m[i].key;
  }

  /** Two maps with the same keys in the same order and the same value
      under `k` agree on `Get(., k)`. */
  lemma GetSameKeys<V>(m: OMap<V>, m': OMap<V>, k: string, i: nat)
    requires |m| == |m'| && forall j :: 0 <= j < |m| ==> m[j].key == m'[j].key
    requires i < |m| && m[i].key == k
    ensures IndexOf(m, k) == IndexOf(m', k)
  {
    assert Keys(m)[i] == k && Keys(m')[i] == k;
  }

  /** `m.set(k, v)` / `obj[k] = v`: replace the value in place when `k` is
      present, append a new entry otherwise. */
  function Put<V>(m: OMap<V>, k: string, v: V): (r: OMap<V>)
    ensures k in Keys(m) ==> Keys(r) == Keys(m)
    ensures k !in Keys(m) ==> Keys(r) == Keys(m) + [k]
  {
    match IndexOf(m, k)
    case Some(i) =>
      var r := m[i := Entry(k, v)];
      assert forall j :: 0 <= j < |m| ==> m[j].key == r[j].key;
      r
    case None =>
      m + [Entry(k, v)]
  }

  /** After `Put(m, k, v)`, `k` maps to `v` and every other key keeps its
      value. */
  lemma PutGet<V>(m: OMap<V>, k: string, v: V, k': string)
    ensures Get(Put(m, k, v), k') == if k' == k then Some(v) else Get(m, k')
  {
    match IndexOf(m, k)
    case Some(i) => PutGetPresent(m, k, v, k', i);
    case None => PutGetAbsent(m, k, v, k');
  }

  lemma PutGetPresent<V>(m: OMap<V>, k: string, v: V, k': string, i: nat)
    requires IndexOf(m, k) == Some(i)
    ensures Get(Put(m, k, v), k') == if k' == k then Some(v) else Get(m, k')
  {
    var r := Put(m, k, v);
    assert r == m[i := Entry(k, v)];
    assert forall j :: 0 <= j < |m| ==> m[j].key == r[j].key;
    GetSameKeys(m, r, k, i);
    if k' != k && k' in Keys(m) {
      GetSameKeys(m, r, k', IndexOf(m, k').value);
    }
  }

  lemma PutGetAbsent<V>(m: OMap<V>, k: string, v: V, k': string)
    requires IndexOf(m, k).None?
    ensures Get(Put(m, k, v), k') == if k' == k then Some(v) else Get(m, k')
  {
    var r := Put(m, k, v);
    assert r == m + [Entry(k, v)];
    if k' == k {
      assert Keys(r)[|m|] == k;
    } else if k' in Keys(m) {
      var j := IndexOf(m, k').value;
      assert r[j] == m[j];
    } else {
      assert k' !in Keys(r);
    }
  }

  /** Setting a key keeps the keys of a map unique. */
  lemma PutKeysUnique<V>(m: OMap<V>, k: string, v: V)
    requires KeysUnique(m)
    ensures KeysUnique(Put(m, k, v))
  {
    var r := Put(m, k, v);
    if IndexOf(m, k).None? {
      forall i | 0 <= i < |m|
        ensures r[i].key != k
      {
        assert Keys(m)[i] == m[i].key;
      }
    }
  }

  /** The value of the last entry of `es` whose key is `k`. */
  function LastValue<V>(es: seq<Entry<V>>, k: string): Option<V> {
    if |es| == 0 then None
    else if es[|es| - 1].key == k then Some(es[|es| - 1].value)
    else LastValue(es[..|es| - 1], k)
  }

  /** `new Map(entries)`: the entries set one after the other. */
  function FromEntries<V>(es: seq<Entry<V>>): OMap<V> {
    if |es| == 0 then [] else Put(FromEntries(es[..|es| - 1]), es[|es| - 1].key, es[|es| - 1].value)
  }

  lemma {:induction false} FromEntriesKeysUnique<V>(es: seq<Entry<V>>)
    ensures KeysUnique(FromEntries(es))
  {
    if |es| > 0 {
      FromEntriesKeysUnique(es[..|es| - 1]);
      PutKeysUnique(FromEntries(es[..|es| - 1]), es[|es| - 1].key, es[|es| - 1].value);
    }
  }

  /** Building a map from entries keeps, for every key, the last value
      given for it, and holds no other key. */
  lemma {:induction false} GetFromEntries<V>(es: seq<Entry<V>>, k: string)
    ensures Get(FromEntries(es), k) == LastValue(es, k)
  {
    if |es| > 0 {
      GetFromEntries(es[..|es| - 1], k);
      PutGet(FromEntries(es[..|es| - 1]), es[|es| - 1].key, es[|es| - 1].value, k);
    }
  }

  /** The values in iteration order (`[...m.values()]`). */
  function Values<V>(m: OMap<V>): (r: seq<V>)
    ensures |r| == |m|
    ensures forall i :: 0 <= i < |m| ==> r[i] == m[i].value
  {
    if |m| == 0 then [] else [m[0].value] + Values(m[1..])
  }

  /** Entries whose keys are already distinct build the map that lists them
      in the same order. */
  lemma {:induction false} FromEntriesOfUnique<V>(es: seq<Entry<V>>)
    requires KeysUnique(es)
    ensures FromEntries(es) == es
  {
    if |es| > 0 {
      var init := es[..|es| - 1];
      var last := es[|es| - 1];
      PrefixKeysUnique(es);
      FromEntriesOfUnique(init);
      assert FromEntries(es) == Put(init, last.key, last.value);
      PutNew(init, last.key, last.value);
      assert init + [Entry(last.key, last.value)] == es;
    }
  }

  /** Dropping the last entry keeps the keys unique, and its key is not
      among the others. */
  lemma PrefixKeysUnique<V>(es: seq<Entry<V>>)
    requires |es| > 0 && KeysUnique(es)
    ensures KeysUnique(es[..|es| - 1])
    ensures es[|es| - 1].key !in Keys(es[..|es| - 1])
  {
    var init := es[..|es| - 1];
    forall i | 0 <= i < |init|
      ensures Keys(init)[i] != es[|es| - 1].key
    {
      assert init[i] == es[i];
    }
  }

  /** Setting a new key appends it. */
  lemma PutNew<V>(m: OMap<V>, k: string, v: V)
    requires k !in Keys(m)
    ensures Put(m, k, v) == m + [Entry(k, v)]
  {
  }

  /** The last entry holding `k` gives `LastValue`. */
  lemma {:induction false} LastValueAt<V>(es: seq<Entry<V>>, k: string, i: nat)
    requires i < |es| && es[i].key == k
    requires forall j :: i < j < |es| ==> es[j].key != k
    ensures LastValue(es, k) == Some(es[i].value)
  {
    if i < |es| - 1 {
      LastValueAt(es[..|es| - 1], k, i);
    }
  }

  lemma {:induction false} LastValueAbsent<V>(es: seq<Entry<V>>, k: string)
    requires forall j :: 0 <= j < |es| ==> es[j].key != k
    ensures LastValue(es, k) == None
  {
    if |es| > 0 {
      LastValueAbsent(es[..|es| - 1], k);
    }
  }
}
