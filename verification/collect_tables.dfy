/** The `collect_tables` render: which configuration values name the folders to collect from. */
module CollectTables {
  import opened Strings
  import opened Dicts

  /** A key whose lower-case form starts with `infolder`. */
  predicate IsInfolderKey(k: string) {
    StartsWith(Lower(k), "infolder")
  }

  /** The values of the `infolder` keys among `keys`, in key order. */
  function Infolders(keys: seq<string>, values: map<string, string>): (r: seq<string>)
    requires forall i :: 0 <= i < |keys| ==> keys[i] in values
    ensures |r| <= |keys|
  {
    if |keys| == 0 then []
    else
      var last := keys[|keys| - 1];
      Infolders(keys[..|keys| - 1], values) + (if IsInfolderKey(last) then [values[last]] else [])
  }

  /** `_parse_infolders`. */
  function ParseInfolders(config: Dict<string>): (r: seq<string>)
    requires config.Valid()
    ensures |r| <= |config.keys|
  {
    Infolders(config.keys, config.values)
  }

  /** Every `infolder` value is collected, and nothing else is. */
  lemma {:induction false} InfoldersMembers(keys: seq<string>, values: map<string, string>)
    requires forall i :: 0 <= i < |keys| ==> keys[i] in values
    ensures forall i :: 0 <= i < |keys| && IsInfolderKey(keys[i]) ==> values[keys[i]] in Infolders(keys, values)
    ensures forall v :: v in Infolders(keys, values) ==>
              exists i :: 0 <= i < |keys| && IsInfolderKey(keys[i]) && values[keys[i]] == v
  {
    if |keys| > 0 {
      var init := keys[..|keys| - 1];
      InfoldersMembers(init, values);
      assert forall i :: 0 <= i < |init| ==> init[i] == keys[i];
    }
  }

  /** The result is empty exactly when no key is an `infolder` key. */
  lemma {:induction false} InfoldersEmpty(keys: seq<string>, values: map<string, string>)
    requires forall i :: 0 <= i < |keys| ==> keys[i] in values
    ensures Infolders(keys, values) == [] <==> forall i :: 0 <= i < |keys| ==> !IsInfolderKey(keys[i])
  {
    InfoldersMembers(keys, values);
    if Infolders(keys, values) == [] {
      assert forall i :: 0 <= i < |keys| ==> !IsInfolderKey(keys[i]);
    } else {
      assert Infolders(keys, values)[0] in Infolders(keys, values);
    }
  }

  /** Collecting over two runs of keys gives the two results one after the other: key order is kept. */
  lemma {:induction false} InfoldersAppend(a: seq<string>, b: seq<string>, values: map<string, string>)
    requires forall i :: 0 <= i < |a| ==> a[i] in values
    requires forall i :: 0 <= i < |b| ==> b[i] in values
    ensures Infolders(a + b, values) == Infolders(a, values) + Infolders(b, values)
    decreases |b|
  {
    if |b| == 0 {
      assert a + b == a;
    } else {
      var b' := b[..|b| - 1];
      assert (a + b)[..|a + b| - 1] == a + b';
      InfoldersAppend(a, b', values);
    }
  }
}
