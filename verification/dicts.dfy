/**
 * Python dictionaries: a map together with the insertion order of its keys.
 * Assigning to a key that is already present keeps its position; a new key goes last.
 */
module Dicts {
  import opened Wrappers

  datatype Dict<V> = Dict(keys: seq<string>, values: map<string, V>) {
    /** The keys are distinct and are exactly the domain of the map. */
    predicate Valid() {
      && (forall i, j :: 0 <= i < j < |keys| ==> keys[i] != keys[j])
      && (forall k :: k in values ==> k in keys)
      && (forall i :: 0 <= i < |keys| ==> keys[i] in values)
    }
  }

  function Empty<V>(): (r: Dict<V>)
    ensures r.Valid() && r.keys == [] && r.values == map[]
  {
    Dict([], map[])
  }

  /** `d[k] = v`. */
  function Put<V>(d: Dict<V>, k: string, v: V): (r: Dict<V>)
    requires d.Valid()
    ensures r.Valid()
    ensures |r.keys| == if k in d.values then |d.keys| else |d.keys| + 1
    ensures r.keys[..|d.keys|] == d.keys
    ensures k !in d.values ==> r.keys[|d.keys|] == k
    ensures r.values == d.values[k := v]
  {
    if k in d.values then Dict(d.keys, d.values[k := v])
    else Dict(d.keys + [k], d.values[k := v])
  }

  /** A prefix of a prefix of a key list is a prefix of that list. */
  lemma PrefixOfPrefix(a: seq<string>, b: seq<string>, c: seq<string>)
    requires |a| >= |b| && a[..|b|] == b && |b| >= |c| && b[..|c|] == c
    ensures a[..|c|] == c
  {
    assert a[..|c|] == a[..|b|][..|c|];
  }

  /** An assignment keeps any prefix of the keys. */
  lemma PutKeepsPrefix<V>(d: Dict<V>, k: string, v: V, p: seq<string>)
    requires d.Valid() && |d.keys| >= |p| && d.keys[..|p|] == p
    ensures |Put(d, k, v).keys| >= |p| && Put(d, k, v).keys[..|p|] == p
  {
    PrefixOfPrefix(Put(d, k, v).keys, d.keys, p);
  }

  /** `d.get(k)`. */
  function Get<V>(d: Dict<V>, k: string): Option<V> {
    if k in d.values then Some(d.values[k]) else None
  }

  /**
   * `d[k] = v` for each item in turn, where each value may instead be the error raised while
   * computing it: the first such error aborts the loop.
   */
  function PutEach<V, E>(d: Dict<V>, items: seq<(string, Result<V, E>)>): (r: Result<Dict<V>, E>)
    requires d.Valid()
    ensures r.Success? ==> r.value.Valid()
  {
    if |items| == 0 then Success(d)
    else
      match PutEach(d, items[..|items| - 1])
      case Failure(e) => Failure(e)
      case Success(m) =>
        match items[|items| - 1].1
        case Failure(e) => Failure(e)
        case Success(v) => Success(Put(m, items[|items| - 1].0, v))
  }

  /** Index of the first item carrying an error, or -1 when none does. */
  function FirstFailure<V, E>(items: seq<(string, Result<V, E>)>): (r: int)
    ensures -1 <= r < |items|
    ensures r >= 0 ==> items[r].1.Failure?
    ensures forall j :: 0 <= j < |items| && (r < 0 || j < r) ==> items[j].1.Success?
  {
    if |items| == 0 then -1
    else
      var k := FirstFailure(items[..|items| - 1]);
      if k >= 0 then k
      else if items[|items| - 1].1.Failure? then |items| - 1
      else -1
  }

  /** The keys the items assign to. */
  ghost function KeysOf<V, E>(items: seq<(string, Result<V, E>)>): set<string> {
    if |items| == 0 then {} else KeysOf(items[..|items| - 1]) + {items[|items| - 1].0}
  }

  /** The loop fails exactly when some item carries an error, and then with the first one. */
  lemma {:induction false} PutEachFailure<V, E>(d: Dict<V>, items: seq<(string, Result<V, E>)>)
    requires d.Valid()
    ensures PutEach(d, items).Failure? <==> FirstFailure(items) >= 0
    ensures PutEach(d, items).Failure? ==> PutEach(d, items).error == items[FirstFailure(items)].1.error
  {
    if |items| > 0 {
      PutEachFailure(d, items[..|items| - 1]);
    }
  }

  /** After a successful loop the keys are the old ones plus those assigned. */
  lemma {:induction false} PutEachKeys<V, E>(d: Dict<V>, items: seq<(string, Result<V, E>)>)
    requires d.Valid() && PutEach(d, items).Success?
    ensures PutEach(d, items).value.values.Keys == d.values.Keys + KeysOf(items)
  {
    if |items| > 0 {
      PutEachKeys(d, items[..|items| - 1]);
    }
  }

  /** The old keys keep their positions at the front. */
  lemma {:induction false} PutEachKeepsOrder<V, E>(d: Dict<V>, items: seq<(string, Result<V, E>)>)
    requires d.Valid() && PutEach(d, items).Success?
    ensures |PutEach(d, items).value.keys| >= |d.keys|
    ensures PutEach(d, items).value.keys[..|d.keys|] == d.keys
  {
    if |items| > 0 {
      var init := items[..|items| - 1];
      PutEachKeepsOrder(d, init);
      var m := PutEach(d, init).value;
      var r := PutEach(d, items).value;
      assert r.keys[..|m.keys|] == m.keys;
      assert r.keys[..|d.keys|] == r.keys[..|m.keys|][..|d.keys|];
    }
  }

  /** A key holds the value of the last item assigning to it. */
  lemma {:induction false} PutEachLastWins<V, E>(d: Dict<V>, items: seq<(string, Result<V, E>)>, i: nat)
    requires d.Valid() && PutEach(d, items).Success?
    requires i < |items| && forall j :: i < j < |items| ==> items[j].0 != items[i].0
    ensures items[i].1.Success?
    ensures items[i].0 in PutEach(d, items).value.values
    ensures PutEach(d, items).value.values[items[i].0] == items[i].1.value
  {
    var init := items[..|items| - 1];
    if i < |items| - 1 {
      PutEachLastWins(d, init, i);
    }
  }

  /** A key no item assigns to keeps its old value. */
  lemma {:induction false} PutEachUntouched<V, E>(d: Dict<V>, items: seq<(string, Result<V, E>)>, k: string)
    requires d.Valid() && PutEach(d, items).Success?
    requires k !in KeysOf(items)
    ensures k in d.values <==> k in PutEach(d, items).value.values
    ensures k in d.values ==> PutEach(d, items).value.values[k] == d.values[k]
  {
    if |items| > 0 {
      PutEachUntouched(d, items[..|items| - 1], k);
    }
  }

  /** A key is assigned to exactly when some item names it. */
  lemma {:induction false} KeysOfMembers<V, E>(items: seq<(string, Result<V, E>)>)
    ensures forall i :: 0 <= i < |items| ==> items[i].0 in KeysOf(items)
    ensures forall k :: k in KeysOf(items) ==> exists i :: 0 <= i < |items| && items[i].0 == k
  {
    if |items| > 0 {
      var init := items[..|items| - 1];
      KeysOfMembers(init);
      assert forall i :: 0 <= i < |init| ==> init[i] == items[i];
    }
  }

  /** When item `i` assigns to `f(src[i])`, every key a successful loop adds is `f` of some source key. */
  lemma KeysFrom<V, E>(d: Dict<V>, items: seq<(string, Result<V, E>)>, f: string -> string, src: seq<string>)
    requires d.Valid() && PutEach(d, items).Success?
    requires |items| == |src| && forall i :: 0 <= i < |items| ==> items[i].0 == f(src[i])
    ensures forall k :: k in PutEach(d, items).value.values ==>
              k in d.values || exists i :: 0 <= i < |src| && f(src[i]) == k
  {
    PutEachKeys(d, items);
    KeysOfMembers(items);
  }

  /** When item `i` assigns to `src[i]`, a successful loop leaves exactly the old keys and those of `src`. */
  lemma KeysExactly<V, E>(d: Dict<V>, items: seq<(string, Result<V, E>)>, src: seq<string>)
    requires d.Valid() && PutEach(d, items).Success?
    requires |items| == |src| && forall i :: 0 <= i < |items| ==> items[i].0 == src[i]
    ensures forall k :: k in PutEach(d, items).value.values <==> k in d.values || k in src
  {
    PutEachKeys(d, items);
    KeysOfMembers(items);
  }

  /** One more item extends the loop by one assignment, or by its error. */
  lemma PutEachStep<V, E>(d: Dict<V>, items: seq<(string, Result<V, E>)>, n: nat)
    requires d.Valid() && n < |items| && PutEach(d, items[..n]).Success?
    ensures items[n].1.Failure? ==> PutEach(d, items[..n + 1]) == Failure(items[n].1.error)
    ensures items[n].1.Success? ==>
              PutEach(d, items[..n + 1]) == Success(Put(PutEach(d, items[..n]).value, items[n].0, items[n].1.value))
  {
    assert items[..n + 1][..n] == items[..n];
  }

  /** Once a prefix of the items has failed, the whole loop fails with the same error. */
  lemma {:induction false} PutEachFailurePersists<V, E>(d: Dict<V>, items: seq<(string, Result<V, E>)>, n: nat)
    requires d.Valid() && n <= |items| && PutEach(d, items[..n]).Failure?
    ensures PutEach(d, items) == PutEach(d, items[..n])
    decreases |items| - n
  {
    if n < |items| {
      assert items[..n + 1][..n] == items[..n];
      PutEachFailurePersists(d, items, n + 1);
    } else {
      assert items[..n] == items;
    }
  }

  /** When every item assigns to a key already present, the key order is unchanged. */
  lemma {:induction false} PutEachExistingKeys<V, E>(d: Dict<V>, items: seq<(string, Result<V, E>)>)
    requires d.Valid() && PutEach(d, items).Success?
    requires forall i :: 0 <= i < |items| ==> items[i].0 in d.values
    ensures PutEach(d, items).value.keys == d.keys
  {
    if |items| > 0 {
      var init := items[..|items| - 1];
      assert forall i :: 0 <= i < |init| ==> init[i] == items[i];
      PutEachExistingKeys(d, init);
      PutEachKeys(d, init);
    }
  }

  /** A property every value assigned to `k`, and its old value, has is kept by the value `k` ends with. */
  lemma {:induction false} PutEachKeepsProperty<V, E>(d: Dict<V>, items: seq<(string, Result<V, E>)>, k: string, p: V -> bool)
    requires d.Valid() && PutEach(d, items).Success?
    requires k in d.values ==> p(d.values[k])
    requires forall i :: 0 <= i < |items| && items[i].0 == k && items[i].1.Success? ==> p(items[i].1.value)
    ensures k in PutEach(d, items).value.values ==> p(PutEach(d, items).value.values[k])
  {
    if |items| > 0 {
      var init := items[..|items| - 1];
      assert forall i :: 0 <= i < |init| ==> init[i] == items[i];
      PutEachKeepsProperty(d, init, k, p);
    }
  }

  /** `d.update({k: v for k in keys})`: every key in `keys` is given the same value `v`. */
  function PutAll<V>(d: Dict<V>, keys: seq<string>, v: V): (r: Dict<V>)
    requires d.Valid()
    ensures r.Valid()
    ensures |r.keys| >= |d.keys| && r.keys[..|d.keys|] == d.keys
    decreases |keys|
  {
    if |keys| == 0 then d
    else
      var m := Put(d, keys[0], v);
      var r := PutAll(m, keys[1..], v);
      PrefixOfPrefix(r.keys, m.keys, d.keys);
      r
  }

  /** After the update the listed keys hold `v`, and every other key is as it was. */
  lemma {:induction false} PutAllValues<V>(d: Dict<V>, keys: seq<string>, v: V)
    requires d.Valid()
    ensures forall k :: k in PutAll(d, keys, v).values <==> k in d.values || k in keys
    ensures forall k :: k in keys ==> PutAll(d, keys, v).values[k] == v
    ensures forall k :: k in d.values && k !in keys ==> PutAll(d, keys, v).values[k] == d.values[k]
    decreases |keys|
  {
    if |keys| > 0 {
      PutAllValues(Put(d, keys[0], v), keys[1..], v);
      assert forall k :: k in keys <==> k == keys[0] || k in keys[1..];
    }
  }
}
