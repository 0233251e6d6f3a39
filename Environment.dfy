/**
 * mergeEnvs (core/app/executor.go:139-161): the process environment of a group.
 * Base `K=V` strings are split at their first '=' (entries without one are dropped),
 * then each override map is copied over the result, and the result is written back
 * as `k=v` strings in map-iteration order.
 */
module Environment {

  import opened Wrappers
  import opened GoStrings

  type Env = map<string, string>

  /** `raw` is a base entry that sets `key`. */
  predicate DefinesKey(raw: string, key: string) {
    Cut(raw, '=').Some? && Cut(raw, '=').value.0 == key
  }

  /** Lines 142-148: the base entries read in order; a later entry for a key replaces an earlier one. */
  function BaseEnv(base: seq<string>): Env
    decreases |base|
  {
    if base == [] then map[]
    else
      var prev := BaseEnv(base[..|base| - 1]);
      match Cut(base[|base| - 1], '=')
      case None => prev
      case Some((k, v)) => prev[k := v]
  }

  /** Lines 150-153: each layer copied over the result in turn (maps.Copy). */
  function Overlay(m: Env, layers: seq<Env>): Env
    decreases |layers|
  {
    if layers == [] then m else Overlay(m, layers[..|layers| - 1]) + layers[|layers| - 1]
  }

  /** The key/value view of what mergeEnvs returns. */
  function Merged(base: seq<string>, layers: seq<Env>): Env {
    Overlay(BaseEnv(base), layers)
  }

  /** The `%s=%s` string written for one key. */
  function Entry(key: string, value: string): string {
    key + "=" + value
  }

  /** The keys `ks` are pairwise different. */
  predicate Distinct(ks: seq<string>) {
    forall i, j :: 0 <= i < j < |ks| ==> ks[i] != ks[j]
  }

  /** `final` writes the `k=v` string of each key in `ks`, in that order, and `ks`
      lists every key of `env` exactly once. */
  ghost predicate EnumeratesVia(final: seq<string>, env: Env, ks: seq<string>) {
    && |ks| == |final|
    && Distinct(ks)
    && (forall k :: k in env <==> k in ks)
    && (forall i :: 0 <= i < |final| ==> ks[i] in env && final[i] == Entry(ks[i], env[ks[i]]))
  }

  /** `final` holds one `k=v` string for each key of `env`, in some order, and nothing else. */
  ghost predicate EnumeratesEnv(final: seq<string>, env: Env) {
    exists ks :: EnumeratesVia(final, env, ks)
  }

  /** A list of distinct keys has as many elements as the set of its keys. */
  lemma {:induction false} DistinctCard(ks: seq<string>)
    requires Distinct(ks)
    ensures |set k | k in ks| == |ks|
    decreases |ks|
  {
    if ks != [] {
      var last := ks[|ks| - 1];
      var init := ks[..|ks| - 1];
      DistinctCard(init);
      assert (set k | k in ks) == (set k | k in init) + {last};
      assert last !in init;
    }
  }

  /** Distinct keys listing exactly the keys of a map are as many as its entries. */
  lemma KeysSize(env: Env, ks: seq<string>)
    requires Distinct(ks)
    requires forall k :: k in env <==> k in ks
    ensures |ks| == |env|
  {
    DistinctCard(ks);
    var keys := set k | k in ks;
    assert keys == env.Keys;
  }

  /** The written list has exactly one entry per key. */
  lemma EnumeratesEnvSize(final: seq<string>, env: Env)
    requires EnumeratesEnv(final, env)
    ensures |final| == |env|
  {
    var ks :| EnumeratesVia(final, env, ks);
    KeysSize(env, ks);
  }

  /** Lines 140-153: the loops that fill the `result` map. */
  method MergeLayers(base: seq<string>, overrides: seq<Env>) returns (result: Env)
    ensures result == Merged(base, overrides)
  {
    result := map[];
    for i := 0 to |base|
      invariant result == BaseEnv(base[..i])
    {
      assert base[..i + 1][..i] == base[..i];
      var parts := Cut(base[i], '=');
      if parts.Some? {
        result := result[parts.value.0 := parts.value.1];
      }
    }
    assert base[..|base|] == base;
    for j := 0 to |overrides|
      invariant result == Overlay(BaseEnv(base), overrides[..j])
    {
      assert overrides[..j + 1][..j] == overrides[..j];
      result := result + overrides[j];
    }
    assert overrides[..|overrides|] == overrides;
  }

  /** Lines 155-160: one entry per key, in the map's (unspecified) iteration order. */
  method Flatten(result: Env) returns (final: seq<string>)
    ensures EnumeratesEnv(final, result)
  {
    final := [];
    ghost var ks: seq<string> := [];
    var rest := result.Keys;
    while rest != {}
      invariant rest <= result.Keys
      invariant |ks| == |final| && Distinct(ks)
      invariant forall k :: k in result ==> (k in ks <==> k !in rest)
      invariant forall k :: k in ks ==> k in result
      invariant forall i :: 0 <= i < |final| ==> ks[i] in result && final[i] == Entry(ks[i], result[ks[i]])
      decreases |rest|
    {
      var k :| k in rest;
      final := final + [Entry(k, result[k])];
      ks := ks + [k];
      rest := rest - {k};
    }
    assert EnumeratesVia(final, result, ks);
  }

  /** mergeEnvs */
  method MergeEnvs(base: seq<string>, overrides: seq<Env>) returns (final: seq<string>)
    ensures EnumeratesEnv(final, Merged(base, overrides))
  {
    var result := MergeLayers(base, overrides);
    final := Flatten(result);
  }

  /** The last base entry adds its key, if it has one, to what the earlier ones set. */
  lemma BaseEnvLast(base: seq<string>, key: string)
    requires base != []
    ensures key in BaseEnv(base)
            <==> key in BaseEnv(base[..|base| - 1]) || DefinesKey(base[|base| - 1], key)
  {
  }

  /** A key is in the base environment exactly when some entry sets it. */
  lemma {:induction false} BaseEnvKeys(base: seq<string>, key: string)
    ensures key in BaseEnv(base) <==> exists i :: 0 <= i < |base| && DefinesKey(base[i], key)
    decreases |base|
  {
    if base == [] {
      assert BaseEnv(base) == map[];
    } else {
      var init, n := base[..|base| - 1], |base| - 1;
      BaseEnvKeys(init, key);
      BaseEnvLast(base, key);
      assert forall i :: 0 <= i < n ==> init[i] == base[i];
      if key in BaseEnv(base) {
        if DefinesKey(base[n], key) {
          assert 0 <= n < |base| && DefinesKey(base[n], key);
        } else {
          var j :| 0 <= j < |init| && DefinesKey(init[j], key);
          assert DefinesKey(base[j], key);
        }
      }
      if exists i :: 0 <= i < |base| && DefinesKey(base[i], key) {
        var i :| 0 <= i < |base| && DefinesKey(base[i], key);
        if i < n {
          assert DefinesKey(init[i], key);
        }
      }
    }
  }

  /** The last entry that sets a key gives its value. */
  lemma {:induction false} BaseEnvLastWins(base: seq<string>, key: string, i: nat)
    requires i < |base| && DefinesKey(base[i], key)
    requires forall j :: i < j < |base| ==> !DefinesKey(base[j], key)
    ensures key in BaseEnv(base) && BaseEnv(base)[key] == Cut(base[i], '=').value.1
    decreases |base|
  {
    if i < |base| - 1 {
      var init := base[..|base| - 1];
      assert !DefinesKey(base[|base| - 1], key);
      assert forall j :: i < j < |init| ==> init[j] == base[j];
      BaseEnvLastWins(init, key, i);
    }
  }

  /** When every entry that sets a key gives it the same value, that is its value. */
  lemma {:induction false} BaseEnvUniform(base: seq<string>, key: string, value: string)
    requires key in BaseEnv(base)
    requires forall i :: 0 <= i < |base| && DefinesKey(base[i], key) ==> Cut(base[i], '=').value.1 == value
    ensures BaseEnv(base)[key] == value
    decreases |base|
  {
    var init := base[..|base| - 1];
    if !DefinesKey(base[|base| - 1], key) {
      assert forall i :: 0 <= i < |init| ==> init[i] == base[i];
      BaseEnvUniform(init, key, value);
    }
  }

  /** A key is set by the merge exactly when the base or some layer sets it, and its
      value comes from the last layer that sets it, else from the base. */
  lemma {:induction false} OverlayLookup(m: Env, layers: seq<Env>, key: string)
    ensures key in Overlay(m, layers) <==> key in m || exists i :: 0 <= i < |layers| && key in layers[i]
    ensures (forall i :: 0 <= i < |layers| ==> key !in layers[i]) && key in m ==> Overlay(m, layers)[key] == m[key]
    ensures forall i :: 0 <= i < |layers| && key in layers[i] && (forall j :: i < j < |layers| ==> key !in layers[j])
              ==> Overlay(m, layers)[key] == layers[i][key]
    decreases |layers|
  {
    if layers != [] {
      var init := layers[..|layers| - 1];
      OverlayLookup(m, init, key);
      assert forall i :: 0 <= i < |init| ==> init[i] == layers[i];
    }
  }

  /** The three layers of a group run: group env over global env over the process env. */
  lemma EnvLayering(base: seq<string>, global: Env, group: Env, key: string)
    ensures var m := Merged(base, [global, group]);
      && (key in m <==> key in BaseEnv(base) || key in global || key in group)
      && (key in group ==> m[key] == group[key])
      && (key !in group && key in global ==> m[key] == global[key])
      && (key !in group && key !in global && key in BaseEnv(base) ==> m[key] == BaseEnv(base)[key])
  {
    OverlayLookup(BaseEnv(base), [global, group], key);
  }

  /** Cutting a written entry at its first '=' gives back its key and value. */
  lemma EntryRoundTrip(key: string, value: string)
    requires '=' !in key
    ensures Cut(Entry(key, value), '=') == Some((key, value))
  {
    CutJoined(key, '=', value);
  }

  /** A written list sets exactly the keys of the map it enumerates. */
  lemma FlattenReadBackKeys(final: seq<string>, env: Env, key: string)
    requires EnumeratesEnv(final, env)
    requires forall k :: k in env ==> '=' !in k
    ensures key in BaseEnv(final) <==> key in env
  {
    var ks :| EnumeratesVia(final, env, ks);
    BaseEnvKeys(final, key);
    if key in env {
      var i :| 0 <= i < |ks| && ks[i] == key;
      assert final[i] == Entry(key, env[key]);
      EntryRoundTrip(key, env[key]);
      assert Cut(final[i], '=') == Some((key, env[key]));
      assert DefinesKey(final[i], key);
    }
    if exists i :: 0 <= i < |final| && DefinesKey(final[i], key) {
      var i :| 0 <= i < |final| && DefinesKey(final[i], key);
      assert final[i] == Entry(ks[i], env[ks[i]]);
      EntryRoundTrip(ks[i], env[ks[i]]);
    }
  }

  /** Every entry of a written list that sets `key` carries the map's value for it. */
  lemma FlattenReadBackValue(final: seq<string>, env: Env, key: string)
    requires EnumeratesEnv(final, env)
    requires forall k :: k in env ==> '=' !in k
    requires key in env
    ensures key in BaseEnv(final) && BaseEnv(final)[key] == env[key]
  {
    FlattenReadBackKeys(final, env, key);
    var ks :| EnumeratesVia(final, env, ks);
    forall i | 0 <= i < |final| && DefinesKey(final[i], key)
      ensures Cut(final[i], '=').value.1 == env[key]
    {
      EntryRoundTrip(ks[i], env[ks[i]]);
    }
    BaseEnvUniform(final, key, env[key]);
  }

  /** A written list sets exactly the keys of the map it enumerates, taken over all keys. */
  lemma FlattenReadBackKeySet(final: seq<string>, env: Env)
    requires EnumeratesEnv(final, env)
    requires forall k :: k in env ==> '=' !in k
    ensures BaseEnv(final).Keys == env.Keys
  {
    forall key ensures key in BaseEnv(final) <==> key in env {
      FlattenReadBackKeys(final, env, key);
    }
  }

  /** Two maps with the same keys and the same value at each key are equal. */
  lemma MapExt(a: Env, b: Env)
    requires a.Keys == b.Keys
    requires forall k :: k in b ==> a[k] == b[k]
    ensures a == b
  {
  }

  /** Reading the written entries back as a base environment gives the merged map,
      provided no key holds '='. */
  lemma FlattenReadBack(final: seq<string>, env: Env)
    requires EnumeratesEnv(final, env)
    requires forall k :: k in env ==> '=' !in k
    ensures BaseEnv(final) == env
  {
    FlattenReadBackKeySet(final, env);
    forall key | key in env ensures BaseEnv(final)[key] == env[key] {
      FlattenReadBackValue(final, env, key);
    }
    MapExt(BaseEnv(final), env);
  }
}
