/**
 * The environment list of the deployment's first container, and how the
 * script merges the input mapping and the secret references into it
 * (update_env.py, lines 78-106).
 *
 * The list is ordered and may hold several entries with the same name.  Each
 * input (name, value) overwrites the FIRST entry with that name where it
 * stands, or is appended when there is none; afterwards one entry referring
 * to the Secret is appended for every secret key, with no check for an
 * existing entry of that name.
 */
module EnvMerge {
  import opened Wrappers
  import opened Dicts

  /** Where an environment variable takes its value from. */
  datatype EnvSource =
    | Value(text: string)                          // V1EnvVar(value=...)
    | FromSecret(secretName: string, key: string)  // V1EnvVar(value_from=secret_key_ref(...))
    | Other(encoded: string)                       // any other value_from (config map, field, resource)

  datatype EnvVar = EnvVar(name: string, source: EnvSource)

  /** The first container of the deployment's pod template; `env` is None until the script sets it. */
  class Container {
    var env: Option<seq<EnvVar>>

    constructor (env: Option<seq<EnvVar>>)
      ensures this.env == env
    {
      this.env := env;
    }
  }

  function Plain(name: string, value: string): EnvVar {
    EnvVar(name, Value(value))
  }

  function SecretRef(secretName: string, key: string): EnvVar {
    EnvVar(key, FromSecret(secretName, key))
  }

  function Names(env: seq<EnvVar>): seq<string> {
    seq(|env|, i requires 0 <= i < |env| => env[i].name)
  }

  predicate DistinctNames(env: seq<EnvVar>) {
    forall i, j :: 0 <= i < j < |env| ==> env[i].name != env[j].name
  }

  /** Entry j is the first one in the list carrying its name. */
  predicate IsFirstOfName(env: seq<EnvVar>, j: nat)
    requires j < |env|
  {
    forall i :: 0 <= i < j ==> env[i].name != env[j].name
  }

  /** The index the inner scan stops at (the `break`), if any entry has the name. */
  function FirstMatch(env: seq<EnvVar>, name: string): (r: Option<nat>)
    ensures r.Some? ==> r.value < |env| && env[r.value].name == name && IsFirstOfName(env, r.value)
    ensures r.None? <==> name !in Names(env)
  {
    if env == [] then None
    else if env[0].name == name then
      assert Names(env)[0] == name;
      Some(0)
    else
      assert Names(env) == [env[0].name] + Names(env[1..]);
      match FirstMatch(env[1..], name)
      case None => None
      case Some(i) => Some(i + 1)
  }

  /** An entry with the name and none before it is where the scan stops. */
  lemma FirstMatchAt(env: seq<EnvVar>, name: string, i: nat)
    requires i < |env| && env[i].name == name
    requires forall j :: 0 <= j < i ==> env[j].name != name
    ensures FirstMatch(env, name) == Some(i)
  {
    assert Names(env)[i] == name;
  }

  /** One iteration of the outer loop: overwrite the first entry named `name`, or append. */
  function Upsert(env: seq<EnvVar>, name: string, value: string): seq<EnvVar> {
    match FirstMatch(env, name)
    case Some(i) => env[i := Plain(name, value)]
    case None => env + [Plain(name, value)]
  }

  /** The whole outer loop: upsert every input pair, in the input's order. */
  function UpsertAll(env: seq<EnvVar>, vars: Dict<string>): seq<EnvVar>
    decreases |vars|
  {
    if vars == [] then env
    else
      var n := |vars| - 1;
      Upsert(UpsertAll(env, vars[..n]), vars[n].0, vars[n].1)
  }

  /** The secret-reference entries for the given keys, in key order. */
  function SecretRefs(secretName: string, keys: seq<string>): seq<EnvVar> {
    seq(|keys|, i requires 0 <= i < |keys| => SecretRef(secretName, keys[i]))
  }

  /** The container's env list after lines 78-106 ran on it. */
  function UpdatedEnv(env: Option<seq<EnvVar>>, vars: Dict<string>, secretData: Dict<string>,
                      secretName: string): seq<EnvVar>
  {
    UpsertAll(env.GetOr([]), vars) + SecretRefs(secretName, Keys(secretData))
  }

  /**
   * Lines 78-106 as the script runs them, on the container object: nested
   * loops, an index assignment, appends and a `found` flag.
   */
  method MergeEnv(container: Container, vars: Dict<string>, secretData: Dict<string>, secretName: string)
    modifies container
    ensures container.env == Some(UpdatedEnv(old(container.env), vars, secretData, secretName))
  {
    if container.env == None {
      container.env := Some([]);
    }
    ghost var start := container.env.value;
    assert start == old(container.env).GetOr([]);

    var k := 0;
    while k < |vars|
      invariant 0 <= k <= |vars|
      invariant container.env == Some(UpsertAll(start, vars[..k]))
    {
      var name, value := vars[k].0, vars[k].1;
      var entry := Plain(name, value);
      ghost var before := container.env.value;
      var found := false;
      var i := 0;
      while i < |container.env.value|
        invariant 0 <= i <= |before|
        invariant container.env == Some(before)
        invariant !found
        invariant forall j :: 0 <= j < i ==> before[j].name != name
      {
        if container.env.value[i].name == name {
          container.env := Some(container.env.value[i := entry]);
          found := true;
          break;
        }
        i := i + 1;
      }
      if !found {
        assert name !in Names(before);
        container.env := Some(container.env.value + [entry]);
        assert container.env.value == before + [entry];
      } else {
        FirstMatchAt(before, name, i);
        assert container.env.value == before[i := entry];
      }
      assert container.env == Some(Upsert(before, name, value));
      assert vars[..k + 1][..k] == vars[..k];
      k := k + 1;
    }
    assert vars[..k] == vars;

    ghost var plain := container.env.value;
    assert SecretRefs(secretName, Keys(secretData)[..0]) == [];
    assert plain + [] == plain;
    var m := 0;
    while m < |secretData|
      invariant 0 <= m <= |secretData|
      invariant container.env == Some(plain + SecretRefs(secretName, Keys(secretData)[..m]))
    {
      ghost var done := SecretRefs(secretName, Keys(secretData)[..m]);
      container.env := Some(container.env.value + [SecretRef(secretName, secretData[m].0)]);
      assert container.env.value == plain + (done + [SecretRef(secretName, secretData[m].0)]);
      assert Keys(secretData)[..m + 1] == Keys(secretData)[..m] + [secretData[m].0];
      assert SecretRefs(secretName, Keys(secretData)[..m + 1])
          == SecretRefs(secretName, Keys(secretData)[..m]) + [SecretRef(secretName, secretData[m].0)];
      m := m + 1;
    }
    assert Keys(secretData)[..m] == Keys(secretData);
  }
}
