/**
 * Python's insertion-ordered `dict` with string keys, as a sequence of
 * key/value entries. Assigning to a key that is present replaces its value
 * where it stands; assigning to a new key appends it. `dict.update` assigns
 * entry by entry.
 */
module OrderedMap {
  import opened Wrappers

  type Entries<V> = seq<(string, V)>

  function Keys<V>(m: Entries<V>): (ks: seq<string>)
    ensures |ks| == |m|
    ensures forall i :: 0 <= i < |m| ==> ks[i] == m[i].0
  {
    if m == [] then [] else Keys(m[..|m| - 1]) + [m[|m| - 1].0]
  }

  /** No key occurs twice. */
  predicate Distinct(ks: seq<string>) {
    forall i, j :: 0 <= i < j < |ks| ==> ks[i] != ks[j]
  }

  /** Python's `d.get(k)`: the value of the last entry with key `k`. */
  function Lookup<V>(m: Entries<V>, k: string): (r: Option<V>)
    ensures r.None? <==> k !in Keys(m)
    ensures r.Some? ==> (k, r.value) in m
  {
    if m == [] then None
    else if m[|m| - 1].0 == k then Some(m[|m| - 1].1)
    else Lookup(m[..|m| - 1], k)
  }

  /**
   * Python's `d[k] = v`: a key already present keeps its position and takes
   * the new value; a new key goes at the end.
   */
  function Put<V>(m: Entries<V>, k: string, v: V): (r: Entries<V>)
    ensures |r| == if k in Keys(m) then |m| else |m| + 1
  {
    if k !in Keys(m) then m + [(k, v)]
    else if m[|m| - 1].0 == k then m[..|m| - 1] + [(k, v)]
    else Put(m[..|m| - 1], k, v) + [m[|m| - 1]]
  }

  /** Python's `d.update(ps)`: the entries of `ps` are assigned in order. */
  function PutAll<V>(m: Entries<V>, ps: Entries<V>): (r: Entries<V>)
    ensures |m| <= |r| <= |m| + |ps|
  {
    if ps == [] then m
    else Put(PutAll(m, ps[..|ps| - 1]), ps[|ps| - 1].0, ps[|ps| - 1].1)
  }

  /** The first occurrence of every element, in order (the order a dict's keys are met in). */
  function FirstOccurrences(ks: seq<string>): seq<string>
  {
    if ks == [] then []
    else
      var init := ks[..|ks| - 1];
      var last := ks[|ks| - 1];
      FirstOccurrences(init) + if last in init then [] else [last]
  }

  /** Applies `f` to every value; the keys and their order stay. */
  function MapValues<V, W>(m: Entries<V>, f: V -> W): (r: Entries<W>)
    ensures |r| == |m|
    ensures forall i :: 0 <= i < |m| ==> r[i] == (m[i].0, f(m[i].1))
  {
    if m == [] then [] else MapValues(m[..|m| - 1], f) + [(m[|m| - 1].0, f(m[|m| - 1].1))]
  }

  // ---------------------------------------------------------------- lemmas

  /** `d[k] = v` keeps the keys and their order when `k` is present, and otherwise appends `k`. */
  lemma {:induction false} PutKeys<V>(m: Entries<V>, k: string, v: V)
    ensures Keys(Put(m, k, v)) == if k in Keys(m) then Keys(m) else Keys(m) + [k]
    decreases |m|
  {
    var r := Put(m, k, v);
    if k !in Keys(m) {
      assert r[..|m|] == m;
    } else if m[|m| - 1].0 != k {
      var init := m[..|m| - 1];
      PutKeys(init, k, v);
      assert r[..|r| - 1] == Put(init, k, v);
      assert Keys(m) == Keys(init) + [m[|m| - 1].0];
    }
  }

  /** After `d[k] = v`, `k` gives `v` and every other key gives what it gave before. */
  lemma {:induction false} PutLookup<V>(m: Entries<V>, k: string, v: V, j: string)
    ensures Lookup(Put(m, k, v), j) == if j == k then Some(v) else Lookup(m, j)
    decreases |m|
  {
    var r := Put(m, k, v);
    if k !in Keys(m) {
      assert r[..|m|] == m;
    } else if m[|m| - 1].0 == k {
      assert r[..|m| - 1] == m[..|m| - 1];
    } else {
      var init := m[..|m| - 1];
      PutLookup(init, k, v, j);
      assert r[..|r| - 1] == Put(init, k, v);
    }
  }

  /**
   * After `d.update(ps)`, a key of `ps` gives the last value `ps` has for it;
   * any other key gives what it gave before.
   */
  lemma {:induction false} PutAllLookup<V>(m: Entries<V>, ps: Entries<V>, k: string)
    ensures Lookup(PutAll(m, ps), k) == if k in Keys(ps) then Lookup(ps, k) else Lookup(m, k)
    decreases |ps|
  {
    if ps != [] {
      var init := ps[..|ps| - 1];
      var (j, v) := ps[|ps| - 1];
      PutAllLookup(m, init, k);
      PutLookup(PutAll(m, init), j, v, k);
      assert Keys(ps) == Keys(init) + [j];
    }
  }

  /**
   * The keys after `d.update(ps)` are the keys of `d`, then those of `ps`
   * not yet present in the order they are first met: a key that is assigned
   * again stays where it was first inserted, and no key occurs twice.
   */
  lemma {:induction false} PutAllKeys<V>(m: Entries<V>, ps: Entries<V>)
    requires Distinct(Keys(m))
    ensures Keys(PutAll(m, ps)) == FirstOccurrences(Keys(m) + Keys(ps))
  {
    DistinctFirstOccurrences(Keys(m));
    PutAllFirstOccurrences(m, Keys(m), ps);
  }

  /** `d.update(ps)` on a dict whose keys are the first occurrences of `seen` adds those of `ps`. */
  lemma {:induction false} PutAllFirstOccurrences<V>(m: Entries<V>, seen: seq<string>, ps: Entries<V>)
    requires Keys(m) == FirstOccurrences(seen)
    ensures Keys(PutAll(m, ps)) == FirstOccurrences(seen + Keys(ps))
    decreases |ps|
  {
    if ps == [] {
      assert seen + Keys(ps) == seen;
    } else {
      var init := ps[..|ps| - 1];
      var (k, v) := ps[|ps| - 1];
      PutAllFirstOccurrences(m, seen, init);
      PutFirstOccurrences(PutAll(m, init), seen + Keys(init), k, v);
      KeysSnoc(ps);
      assert seen + Keys(ps) == seen + Keys(init) + [k];
    }
  }

  /** The keys of `d` stay at the front, in their order, through `d.update(ps)`. */
  lemma {:induction false} PutAllPrefix<V>(m: Entries<V>, ps: Entries<V>)
    ensures |m| <= |PutAll(m, ps)| && Keys(PutAll(m, ps))[..|m|] == Keys(m)
    decreases |ps|
  {
    if ps != [] {
      var init := ps[..|ps| - 1];
      var r0 := PutAll(m, init);
      PutAllPrefix(m, init);
      PutPrefix(r0, ps[|ps| - 1].0, ps[|ps| - 1].1);
      var ks := Keys(Put(r0, ps[|ps| - 1].0, ps[|ps| - 1].1));
      PrefixOfPrefix(ks, |r0|, |m|);
    }
  }

  /** Mapping the values keeps the keys, and each key gives its mapped value. */
  lemma {:induction false} MapValuesLookup<V, W>(m: Entries<V>, f: V -> W, k: string)
    ensures Keys(MapValues(m, f)) == Keys(m)
    ensures Lookup(MapValues(m, f), k) == if k in Keys(m) then Some(f(Lookup(m, k).value)) else None
    decreases |m|
  {
    if m != [] {
      var init := m[..|m| - 1];
      MapValuesLookup(init, f, k);
      var r := MapValues(m, f);
      assert r[..|r| - 1] == MapValues(init, f);
      assert Keys(m) == Keys(init) + [m[|m| - 1].0];
    }
  }

  /** Updating an empty dict with entries whose keys are distinct gives those entries. */
  lemma {:induction false} DistinctPutAll<V>(ps: Entries<V>)
    requires Distinct(Keys(ps))
    ensures PutAll([], ps) == ps
    decreases |ps|
  {
    if ps != [] {
      var init := ps[..|ps| - 1];
      var (k, v) := ps[|ps| - 1];
      assert Keys(init) == Keys(ps)[..|ps| - 1];
      DistinctPutAll(init);
      assert k !in Keys(init) by {
        forall i | 0 <= i < |init| ensures Keys(init)[i] != k {
          assert Keys(ps)[i] != Keys(ps)[|ps| - 1];
        }
      }
      assert init + [(k, v)] == ps;
    }
  }

  /** Assigning `k` to a dict whose keys are the first occurrences of `seen` gives those of `seen + [k]`. */
  lemma PutFirstOccurrences<V>(m: Entries<V>, seen: seq<string>, k: string, v: V)
    requires Keys(m) == FirstOccurrences(seen)
    ensures Keys(Put(m, k, v)) == FirstOccurrences(seen + [k])
  {
    FirstOccurrencesMembers(seen);
    PutKeys(m, k, v);
    FirstOccurrencesSnoc(seen, k);
  }

  /** `d[k] = v` keeps the keys of `d` at the front. */
  lemma PutPrefix<V>(m: Entries<V>, k: string, v: V)
    ensures |m| <= |Put(m, k, v)| && Keys(Put(m, k, v))[..|m|] == Keys(m)
  {
    PutKeys(m, k, v);
  }

  lemma PrefixOfPrefix(ks: seq<string>, n: nat, j: nat)
    requires j <= n <= |ks|
    ensures ks[..j] == ks[..n][..j]
  {
  }

  lemma KeysSnoc<V>(ps: Entries<V>)
    requires ps != []
    ensures Keys(ps) == Keys(ps[..|ps| - 1]) + [ps[|ps| - 1].0]
  {
  }

  /** The first occurrences contain exactly the elements met, each once. */
  lemma {:induction false} FirstOccurrencesMembers(ks: seq<string>)
    ensures forall k :: k in FirstOccurrences(ks) <==> k in ks
    ensures Distinct(FirstOccurrences(ks))
    decreases |ks|
  {
    if ks != [] {
      var init := ks[..|ks| - 1];
      var last := ks[|ks| - 1];
      var r0 := FirstOccurrences(init);
      FirstOccurrencesMembers(init);
      assert ks == init + [last];
      if last !in init {
        var r := r0 + [last];
        forall i, j | 0 <= i < j < |r| ensures r[i] != r[j] {
          if j == |r0| {
            assert r[i] in r0;
          }
        }
      }
    }
  }

  lemma FirstOccurrencesSnoc(seen: seq<string>, k: string)
    ensures FirstOccurrences(seen + [k]) == FirstOccurrences(seen) + if k in seen then [] else [k]
  {
    assert (seen + [k])[..|seen|] == seen;
  }

  /** A sequence without repetitions is its own first occurrences. */
  lemma {:induction false} DistinctFirstOccurrences(ks: seq<string>)
    requires Distinct(ks)
    ensures FirstOccurrences(ks) == ks
    decreases |ks|
  {
    if ks != [] {
      var init := ks[..|ks| - 1];
      DistinctFirstOccurrences(init);
      assert ks == init + [ks[|ks| - 1]];
    }
  }
}
