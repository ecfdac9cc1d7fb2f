/**
 * One `[DATA ...]` section of the configuration, before any file is opened: the title is split
 * into series and progressive number, and the body keys are sorted into metadata, the dataset
 * type and the remaining configuration.
 */
module Datasets {
  import opened Wrappers
  import opened Errors
  import opened Strings
  import opened Dicts

  datatype Dataset = Dataset(
    name: string,
    series: string,
    prog: Option<string>,
    dtype: string,
    meta: Dict<string>,
    config: Dict<string>)

  /** A body key whose lower-case form starts with `meta_`. */
  predicate IsMetaKey(k: string) {
    StartsWith(Lower(k), "meta_")
  }

  /** A body key equal to `type` in any letter case. */
  predicate IsTypeKey(k: string) {
    Lower(k) == "type"
  }

  predicate IsConfigKey(k: string) {
    !IsMetaKey(k) && !IsTypeKey(k)
  }

  /** The metadata name a `meta_` key is stored under: `k[5:]`, the key without its first five characters. */
  function MetaName(k: string): string {
    if |k| >= 5 then k[5..] else ""
  }

  function Same(k: string): string {
    k
  }

  /** `title.split(' ')[0]` and, when there is a second piece, that piece. */
  function SeriesAndProg(title: string): (r: (string, Option<string>))
    ensures ' ' !in r.0 && StartsWith(title, r.0)
    ensures r.1.None? <==> ' ' !in title
    ensures r.1.None? ==> r.0 == title
    ensures r.1.Some? ==>
              var after := title[|r.0| + 1..];
              && |title| > |r.0| && title[|r.0|] == ' '
              && ' ' !in r.1.value && StartsWith(after, r.1.value)
              && (|after| == |r.1.value| || after[|r.1.value|] == ' ')
  {
    var pieces := Split(title, ' ');
    if |pieces| > 1 then
      JoinPrepend(pieces[0], pieces[1..], " ");
      assert [pieces[0]] + pieces[1..] == pieces;
      var rest := Join(pieces[1..], " ");
      if |pieces| > 2 then
        JoinPrepend(pieces[1], pieces[2..], " ");
        assert [pieces[1]] + pieces[2..] == pieces[1..];
        assert title[|pieces[0]| + 1..] == rest;
        (pieces[0], Some(pieces[1]))
      else
        assert title[|pieces[0]| + 1..] == rest;
        (pieces[0], Some(pieces[1]))
    else
      CountAbsent(title, ' ');
      (pieces[0], None)
  }

  /** Two consecutive spaces right after the series give an empty progressive number. */
  lemma DoubleSpaceGivesEmptyProg(series: string, rest: string)
    requires ' ' !in series
    ensures SeriesAndProg(series + "  " + rest).1 == Some("")
  {
    var title := series + "  " + rest;
    assert title[..|series|] == series;
    assert title[|series|] == ' ' && title[|series| + 1] == ' ';
  }

  /**
   * The body loop touches one of three accumulators per key, so each is written as its own fold
   * over the first `n` keys: the type, the metadata and the configuration.
   */
  function TypeOf(body: Dict<string>, n: nat): Option<string>
    requires body.Valid() && n <= |body.keys|
  {
    if n == 0 then None
    else if IsTypeKey(body.keys[n - 1]) then Some(body.values[body.keys[n - 1]])
    else TypeOf(body, n - 1)
  }

  /**
   * The metadata and the configuration are both built the same way: every key `keep` accepts is
   * stored, in body order, under `name` of the key.
   */
  function Collect(body: Dict<string>, n: nat, keep: string -> bool, name: string -> string): (m: Dict<string>)
    requires body.Valid() && n <= |body.keys|
    ensures m.Valid()
  {
    if n == 0 then Empty()
    else if keep(body.keys[n - 1]) then
      Put(Collect(body, n - 1, keep, name), name(body.keys[n - 1]), body.values[body.keys[n - 1]])
    else Collect(body, n - 1, keep, name)
  }

  function MetaOf(body: Dict<string>, n: nat): (m: Dict<string>)
    requires body.Valid() && n <= |body.keys|
    ensures m.Valid()
  {
    Collect(body, n, IsMetaKey, MetaName)
  }

  function ConfigOf(body: Dict<string>, n: nat): (c: Dict<string>)
    requires body.Valid() && n <= |body.keys|
    ensures c.Valid()
  {
    Collect(body, n, IsConfigKey, Same)
  }

  /** The first `n` keys that `keep` accepts, in order. */
  function Kept(keys: seq<string>, n: nat, keep: string -> bool): (r: seq<string>)
    requires n <= |keys|
    ensures forall k :: k in r ==> exists i :: 0 <= i < n && keys[i] == k && keep(k)
  {
    if n == 0 then []
    else Kept(keys, n - 1, keep) + (if keep(keys[n - 1]) then [keys[n - 1]] else [])
  }

  /** Body keys `0..n` that are neither metadata nor the type, in body order. */
  function ConfigKeys(keys: seq<string>, n: nat): (r: seq<string>)
    requires n <= |keys|
    ensures forall k :: k in r ==> exists i :: 0 <= i < n && keys[i] == k && IsConfigKey(k)
  {
    Kept(keys, n, IsConfigKey)
  }

  /** Index of the last of the first `n` keys that names the type, or -1 when none does. */
  function LastTypeKey(keys: seq<string>, n: nat): (r: int)
    requires n <= |keys|
    ensures -1 <= r < n
    ensures r >= 0 ==> IsTypeKey(keys[r])
    ensures forall j :: r < j < n ==> !IsTypeKey(keys[j])
  {
    if n == 0 then -1
    else if IsTypeKey(keys[n - 1]) then n - 1
    else LastTypeKey(keys, n - 1)
  }

  /** The type accumulator holds the value of the last key naming the type, if any. */
  lemma {:induction false} TypeOfLast(body: Dict<string>, n: nat)
    requires body.Valid() && n <= |body.keys|
    ensures var last := LastTypeKey(body.keys, n);
            TypeOf(body, n) == if last < 0 then None else Some(body.values[body.keys[last]])
  {
    if n > 0 && !IsTypeKey(body.keys[n - 1]) {
      TypeOfLast(body, n - 1);
      assert LastTypeKey(body.keys, n) == LastTypeKey(body.keys, n - 1);
    }
  }

  /** The names the first `n` keys accepted by `keep` are stored under. */
  ghost function Names(body: Dict<string>, n: nat, keep: string -> bool, name: string -> string): set<string>
    requires body.Valid() && n <= |body.keys|
  {
    if n == 0 then {}
    else Names(body, n - 1, keep, name) + (if keep(body.keys[n - 1]) then {name(body.keys[n - 1])} else {})
  }

  lemma {:induction false} NamesContain(body: Dict<string>, n: nat, keep: string -> bool, name: string -> string, i: nat)
    requires body.Valid() && i < n <= |body.keys| && keep(body.keys[i])
    ensures name(body.keys[i]) in Names(body, n, keep, name)
  {
    if i < n - 1 {
      NamesContain(body, n - 1, keep, name, i);
    }
  }

  /** The fold stores exactly the names of the accepted keys. */
  lemma {:induction false} CollectNames(body: Dict<string>, n: nat, keep: string -> bool, name: string -> string)
    requires body.Valid() && n <= |body.keys|
    ensures Collect(body, n, keep, name).values.Keys == Names(body, n, keep, name)
  {
    if n > 0 {
      CollectNames(body, n - 1, keep, name);
    }
  }

  /** Key `i` is accepted and no later accepted key among the first `n` is stored under the same name. */
  ghost predicate LastWithName(body: Dict<string>, n: nat, keep: string -> bool, name: string -> string, i: nat)
    requires body.Valid() && i < n <= |body.keys|
  {
    && keep(body.keys[i])
    && forall j :: i < j < n && keep(body.keys[j]) ==> name(body.keys[j]) != name(body.keys[i])
  }

  /** The map the fold builds, without the key order. */
  function CollectMap(body: Dict<string>, n: nat, keep: string -> bool, name: string -> string): map<string, string>
    requires body.Valid() && n <= |body.keys|
  {
    if n == 0 then map[]
    else if keep(body.keys[n - 1]) then
      CollectMap(body, n - 1, keep, name)[name(body.keys[n - 1]) := body.values[body.keys[n - 1]]]
    else CollectMap(body, n - 1, keep, name)
  }

  lemma {:induction false} CollectHasMap(body: Dict<string>, n: nat, keep: string -> bool, name: string -> string)
    requires body.Valid() && n <= |body.keys|
    ensures Collect(body, n, keep, name).values == CollectMap(body, n, keep, name)
  {
    if n > 0 {
      CollectHasMap(body, n - 1, keep, name);
    }
  }

  lemma {:induction false} CollectMapValueAt(body: Dict<string>, n: nat, keep: string -> bool, name: string -> string, i: nat)
    requires body.Valid() && i < n <= |body.keys| && LastWithName(body, n, keep, name, i)
    ensures name(body.keys[i]) in CollectMap(body, n, keep, name)
    ensures CollectMap(body, n, keep, name)[name(body.keys[i])] == body.values[body.keys[i]]
  {
    if i < n - 1 {
      assert LastWithName(body, n - 1, keep, name, i);
      CollectMapValueAt(body, n - 1, keep, name, i);
    }
  }

  /** A name holds the value of the last accepted key stored under it. */
  lemma CollectValueAt(body: Dict<string>, n: nat, keep: string -> bool, name: string -> string, i: nat)
    requires body.Valid() && i < n <= |body.keys| && LastWithName(body, n, keep, name, i)
    ensures name(body.keys[i]) in Collect(body, n, keep, name).values
    ensures Collect(body, n, keep, name).values[name(body.keys[i])] == body.values[body.keys[i]]
  {
    CollectHasMap(body, n, keep, name);
    CollectMapValueAt(body, n, keep, name, i);
  }

  /** When keys are stored under their own name, the fold keeps the accepted keys in body order. */
  lemma {:induction false} CollectKeys(body: Dict<string>, n: nat, keep: string -> bool)
    requires body.Valid() && n <= |body.keys|
    ensures Collect(body, n, keep, Same).keys == Kept(body.keys, n, keep)
  {
    if n > 0 {
      CollectKeys(body, n - 1, keep);
      var k := body.keys[n - 1];
      if keep(k) {
        assert k !in Kept(body.keys, n - 1, keep) by {
          assert k !in body.keys[..n - 1] by {
            forall i | 0 <= i < n - 1
              ensures body.keys[i] != k
            {
            }
          }
          KeptFromPrefix(body.keys, n - 1, keep);
        }
      }
    }
  }

  /** When keys are stored under their own name, each keeps its value. */
  lemma {:induction false} CollectValues(body: Dict<string>, n: nat, keep: string -> bool)
    requires body.Valid() && n <= |body.keys|
    ensures forall k :: k in Collect(body, n, keep, Same).values ==>
              k in body.values && Collect(body, n, keep, Same).values[k] == body.values[k]
  {
    if n > 0 {
      CollectValues(body, n - 1, keep);
    }
  }

  lemma {:induction false} KeptFromPrefix(keys: seq<string>, n: nat, keep: string -> bool)
    requires n <= |keys|
    ensures forall k :: k in Kept(keys, n, keep) ==> k in keys[..n]
  {
    if n > 0 {
      KeptFromPrefix(keys, n - 1, keep);
      assert keys[..n] == keys[..n - 1] + [keys[n - 1]];
    }
  }

  lemma {:induction false} KeptContain(keys: seq<string>, n: nat, keep: string -> bool, i: nat)
    requires i < n <= |keys| && keep(keys[i])
    ensures keys[i] in Kept(keys, n, keep)
  {
    if i < n - 1 {
      KeptContain(keys, n - 1, keep, i);
    }
  }

  /** The metadata names of the first `n` body keys. */
  ghost function MetaNames(body: Dict<string>, n: nat): set<string>
    requires body.Valid() && n <= |body.keys|
  {
    Names(body, n, IsMetaKey, MetaName)
  }

  /** Key `i` is a `meta_` key and no later key among the first `n` has the same metadata name. */
  ghost predicate LastMeta(body: Dict<string>, n: nat, i: nat)
    requires body.Valid() && i < n <= |body.keys|
  {
    LastWithName(body, n, IsMetaKey, MetaName, i)
  }

  /** `Dataset(title, body)`: fails when no key names the dataset type. */
  function Make(title: string, body: Dict<string>): (r: Result<Dataset, Error>)
    requires body.Valid()
    ensures r.Failure? <==> forall i :: 0 <= i < |body.keys| ==> !IsTypeKey(body.keys[i])
    ensures r.Failure? ==> r.error == ValueError("Missing \"type\" field for dataset: " + title)
    ensures r.Success? ==> r.value.name == title && (r.value.series, r.value.prog) == SeriesAndProg(title)
    ensures r.Success? ==> r.value.dtype == body.values[body.keys[LastTypeKey(body.keys, |body.keys|)]]
    ensures r.Success? ==> r.value.meta.Valid() && r.value.config.Valid()
  {
    var (series, prog) := SeriesAndProg(title);
    var n := |body.keys|;
    TypeOfLast(body, n);
    match TypeOf(body, n)
    case None => Failure(ValueError("Missing \"type\" field for dataset: " + title))
    case Some(t) => Success(Dataset(title, series, prog, t, MetaOf(body, n), ConfigOf(body, n)))
  }

  /**
   * The metadata of a constructed dataset: one entry per `meta_` key, named without the prefix,
   * holding the value of the last key with that name.
   */
  lemma MakeMeta(title: string, body: Dict<string>)
    requires body.Valid() && Make(title, body).Success?
    ensures Make(title, body).value.meta.values.Keys == MetaNames(body, |body.keys|)
    ensures forall i :: 0 <= i < |body.keys| && LastMeta(body, |body.keys|, i) ==>
              var meta := Make(title, body).value.meta;
              MetaName(body.keys[i]) in meta.values && meta.values[MetaName(body.keys[i])] == body.values[body.keys[i]]
  {
    var n := |body.keys|;
    CollectNames(body, n, IsMetaKey, MetaName);
    forall i | 0 <= i < n && LastMeta(body, n, i)
      ensures MetaName(body.keys[i]) in MetaOf(body, n).values
      ensures MetaOf(body, n).values[MetaName(body.keys[i])] == body.values[body.keys[i]]
    {
      CollectValueAt(body, n, IsMetaKey, MetaName, i);
    }
  }

  /** The configuration of a constructed dataset: the remaining keys, in body order, values unchanged. */
  lemma MakeConfig(title: string, body: Dict<string>)
    requires body.Valid() && Make(title, body).Success?
    ensures Make(title, body).value.config.keys == ConfigKeys(body.keys, |body.keys|)
    ensures forall k :: k in Make(title, body).value.config.values ==>
              Make(title, body).value.config.values[k] == body.values[k]
  {
    CollectKeys(body, |body.keys|, IsConfigKey);
    CollectValues(body, |body.keys|, IsConfigKey);
  }

  /** Every body key lands in exactly one of metadata, the type, or the configuration. */
  lemma KeysPartitioned(title: string, body: Dict<string>, i: nat)
    requires body.Valid() && Make(title, body).Success?
    requires i < |body.keys|
    ensures var d := Make(title, body).value;
            var k := body.keys[i];
            && (IsMetaKey(k) ==> !IsTypeKey(k) && MetaName(k) in d.meta.values && k !in d.config.values)
            && (IsTypeKey(k) ==> !IsMetaKey(k) && k !in d.config.values)
            && (IsConfigKey(k) ==> k in d.config.values && d.config.values[k] == body.values[k])
  {
    var n := |body.keys|;
    var k := body.keys[i];
    MakeMeta(title, body);
    MakeConfig(title, body);
    if IsMetaKey(k) {
      NamesContain(body, n, IsMetaKey, MetaName, i);
    }
    if IsConfigKey(k) {
      KeptContain(body.keys, n, IsConfigKey, i);
    }
  }

  /** `to_string()`: the name followed by the type in parentheses. */
  function ToString(d: Dataset): (r: string)
    ensures StartsWith(r, d.name)
    ensures r[|d.name|..] == " (" + d.dtype + ")"
  {
    d.name + " (" + d.dtype + ")"
  }

  /**
   * The type is read back after the last `(`, and the name before the space that precedes it,
   * as long as the type itself has no `(`.
   */
  lemma ToStringRoundTrip(d: Dataset)
    requires '(' !in d.dtype
    ensures var r := ToString(d);
            var k := LastIndexOf(r, '(');
            && k >= 1 && r[k - 1] == ' ' && r[|r| - 1] == ')'
            && r[..k - 1] == d.name && r[k + 1..|r| - 1] == d.dtype
  {
    var r := ToString(d);
    var p := |d.name| + 1;
    assert r[p] == '(';
    assert forall j :: p < j < |r| - 1 ==> r[j] == d.dtype[j - p - 1];
  }
}
