/**
 * A JavaScript `Map` keyed by strings: lookups by key, and iteration in the
 * order in which keys were first inserted (`Array.from(m.values())`,
 * `for (const [k, v] of m)`).
 */
module Table {
  import opened Seqs

  datatype Table<V> = Table(keys: seq<string>, rows: map<string, V>) {

    /** Every key is listed once, in insertion order, and only keys with a row are listed. */
    ghost predicate Valid() {
      && NoDup(keys)
      && (forall k :: k in rows <==> k in keys)
    }

    /** `m.set(k, v)`: an existing key keeps its place, a new key goes last. */
    function Set(k: string, v: V): (t: Table<V>)
      requires Valid()
      ensures t.Valid()
      ensures t.rows == rows[k := v]
      ensures t.keys == if k in rows then keys else keys + [k]
    {
      Table(if k in rows then keys else keys + [k], rows[k := v])
    }

    /** `Array.from(m.values())`. */
    function Values(): (r: seq<V>)
      requires Valid()
      ensures |r| == |keys|
      ensures forall i :: 0 <= i < |keys| ==> r[i] == rows[keys[i]]
    {
      seq(|keys|, i requires 0 <= i < |keys| => rows[keys[i]])
    }
  }

  function Empty<V>(): (t: Table<V>)
    ensures t.Valid() && t.keys == [] && t.rows == map[]
  {
    Table([], map[])
  }

  /** Every row is stored under its own key. */
  ghost predicate KeyedBy<V>(t: Table<V>, key: V -> string) {
    forall k :: k in t.rows ==> key(t.rows[k]) == k
  }

  /** The keys of the elements of `s`. */
  function KeySet<V>(s: seq<V>, key: V -> string): (ks: set<string>)
    ensures forall i :: 0 <= i < |s| ==> key(s[i]) in ks
  {
    if s == [] then {} else KeySet(s[..|s| - 1], key) + {key(s[|s| - 1])}
  }

  /** `new Map(s.map((x) => [key(x), x]))`: a later element with a key already seen replaces the row in place. */
  function FromList<V>(s: seq<V>, key: V -> string): (t: Table<V>)
    ensures t.Valid()
    ensures KeyedBy(t, key)
    ensures t.rows.Keys == KeySet(s, key)
  {
    if s == [] then Empty()
    else FromList(s[..|s| - 1], key).Set(key(s[|s| - 1]), s[|s| - 1])
  }

  /** A list whose keys are all different passes through the map unchanged. */
  lemma {:induction false} FromDistinctList<V>(s: seq<V>, key: V -> string)
    requires forall i, j :: 0 <= i < j < |s| ==> key(s[i]) != key(s[j])
    ensures |FromList(s, key).keys| == |s|
    ensures FromList(s, key).Values() == s
  {
    if s != [] {
      var init := s[..|s| - 1];
      FromDistinctList(init, key);
      var t := FromList(init, key);
      forall i | 0 <= i < |init|
        ensures key(init[i]) != key(s[|s| - 1])
      {
        assert key(s[i]) != key(s[|s| - 1]);
      }
      assert key(s[|s| - 1]) !in t.rows;
      var r := FromList(s, key);
      assert r.keys == t.keys + [key(s[|s| - 1])];
      forall i | 0 <= i < |s|
        ensures r.Values()[i] == s[i]
      {
        if i < |s| - 1 {
          assert t.Values()[i] == init[i];
          assert t.keys[i] != key(s[|s| - 1]);
        }
      }
    }
  }
}
