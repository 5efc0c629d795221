/**
 * What the env-list merge of update_env.py (lines 78-106) guarantees, proved
 * about the functions that specify it.
 *
 * The central fact is an independent description of the plain merge: the
 * original entries stay where they are, the first entry of each input name
 * takes the input value, and the input pairs whose names were absent are
 * appended in input order (UpsertAllShape).  The other properties follow.
 */
module EnvMergeFacts {
  import opened Wrappers
  import opened Dicts
  import opened EnvMerge

  /** What original entry j becomes: the input value if it is the first entry of an input name. */
  function Overwrite(env: seq<EnvVar>, vars: Dict<string>, j: nat): EnvVar
    requires j < |env|
  {
    var g := Get(vars, env[j].name);
    if g.Some? && IsFirstOfName(env, j) then Plain(env[j].name, g.value) else env[j]
  }

  /** The original entries, each overwritten where the merge overwrites it. */
  function Overwritten(env: seq<EnvVar>, vars: Dict<string>): seq<EnvVar> {
    seq(|env|, j requires 0 <= j < |env| => Overwrite(env, vars, j))
  }

  /** The input pairs whose names the original list lacks; the recursion keeps them in input order. */
  function Absent(env: seq<EnvVar>, vars: Dict<string>): (r: Dict<string>)
    ensures forall i :: 0 <= i < |r| ==> r[i] in vars && r[i].0 !in Names(env)
    ensures forall i :: 0 <= i < |vars| && vars[i].0 !in Names(env) ==> vars[i] in r
    decreases |vars|
  {
    if vars == [] then []
    else
      var n := |vars| - 1;
      assert forall i :: 0 <= i < n ==> vars[i] == vars[..n][i];
      Absent(env, vars[..n]) + (if vars[n].0 in Names(env) then [] else [vars[n]])
  }

  function PlainEntries(vars: Dict<string>): seq<EnvVar> {
    seq(|vars|, i requires 0 <= i < |vars| => Plain(vars[i].0, vars[i].1))
  }

  lemma InKeys<V>(d: Dict<V>, x: (string, V))
    requires x in d
    ensures x.0 in Keys(d)
  {
    var t :| 0 <= t < |d| && d[t] == x;
    assert Keys(d)[t] == x.0;
  }

  lemma NotInNames(env: seq<EnvVar>, name: string)
    requires name !in Names(env)
    ensures forall j :: 0 <= j < |env| ==> env[j].name != name
  {
    forall j | 0 <= j < |env| ensures env[j].name != name {
      assert Names(env)[j] == env[j].name;
    }
  }

  /** The names of the merged list before one more upsert: the original names, then new input names. */
  lemma NamesBeforeStep(env: seq<EnvVar>, p: Dict<string>, k: string)
    requires k !in Keys(p)
    ensures var cur := Overwritten(env, p) + PlainEntries(Absent(env, p));
      && (forall j :: 0 <= j < |env| ==> cur[j].name == env[j].name)
      && (forall j :: |env| <= j < |cur| ==> cur[j].name != k)
  {
    var cur := Overwritten(env, p) + PlainEntries(Absent(env, p));
    forall j | 0 <= j < |env| ensures cur[j].name == env[j].name {
      assert cur[j] == Overwrite(env, p, j);
    }
    forall j | |env| <= j < |cur| ensures cur[j].name != k {
      var x := Absent(env, p)[j - |env|];
      InKeys(p, x);
    }
  }

  /** Adding a present name to the input changes only the entry at its first index. */
  lemma OverwrittenStepPresent(env: seq<EnvVar>, p: Dict<string>, k: string, v: string, i: nat)
    requires k !in Keys(p) && i < |env| && FirstMatch(env, k) == Some(i)
    ensures Overwritten(env, p)[i := Plain(k, v)] == Overwritten(env, p + [(k, v)])
  {
    var vars := p + [(k, v)];
    forall j | 0 <= j < |env|
      ensures Overwritten(env, p)[i := Plain(k, v)][j] == Overwrite(env, vars, j)
    {
      GetAppend(p, k, v, env[j].name);
      if env[j].name == k && j != i {
        assert !IsFirstOfName(env, j);
      }
    }
  }

  /** Overwriting keeps every name where it stands. */
  lemma OverwrittenNames(env: seq<EnvVar>, vars: Dict<string>)
    ensures forall j :: 0 <= j < |env| ==> Overwritten(env, vars)[j].name == env[j].name
  {
    forall j | 0 <= j < |env| ensures Overwritten(env, vars)[j].name == env[j].name {
      assert Overwritten(env, vars)[j] == Overwrite(env, vars, j);
    }
  }

  /** Lists with the same names at the same indices have the same first matches. */
  lemma FirstMatchSameNames(env: seq<EnvVar>, other: seq<EnvVar>, name: string)
    requires |other| == |env| && forall j :: 0 <= j < |env| ==> other[j].name == env[j].name
    ensures FirstMatch(other, name) == FirstMatch(env, name)
  {
    match FirstMatch(env, name)
    case Some(i) => FirstMatchAt(other, name, i);
    case None =>
      NotInNames(env, name);
  }

  /** A first match in the head of a list is the first match in the whole list. */
  lemma FirstMatchInHead(head: seq<EnvVar>, tail: seq<EnvVar>, name: string)
    requires FirstMatch(head, name).Some?
    ensures FirstMatch(head + tail, name) == FirstMatch(head, name)
  {
    FirstMatchAt(head + tail, name, FirstMatch(head, name).value);
  }

  /** One more upsert of a name the original list has. */
  lemma ShapeStepPresent(env: seq<EnvVar>, p: Dict<string>, k: string, v: string)
    requires k !in Keys(p) && k in Names(env)
    ensures var vars := p + [(k, v)];
      Upsert(Overwritten(env, p) + PlainEntries(Absent(env, p)), k, v)
        == Overwritten(env, vars) + PlainEntries(Absent(env, vars))
  {
    var vars := p + [(k, v)];
    assert vars[..|p|] == p;
    assert Absent(env, vars) == Absent(env, p);
    var over, added := Overwritten(env, p), PlainEntries(Absent(env, p));
    var i := FirstMatch(env, k).value;
    OverwrittenNames(env, p);
    FirstMatchSameNames(env, over, k);
    FirstMatchInHead(over, added, k);
    assert Upsert(over + added, k, v) == (over + added)[i := Plain(k, v)];
    assert (over + added)[i := Plain(k, v)] == over[i := Plain(k, v)] + added;
    OverwrittenStepPresent(env, p, k, v, i);
  }

  /** Adding a name the original list lacks to the input overwrites nothing more. */
  lemma OverwrittenStepAbsent(env: seq<EnvVar>, p: Dict<string>, k: string, v: string)
    requires k !in Keys(p) && k !in Names(env)
    ensures Overwritten(env, p + [(k, v)]) == Overwritten(env, p)
  {
    NotInNames(env, k);
    forall j | 0 <= j < |env| ensures Overwrite(env, p + [(k, v)], j) == Overwrite(env, p, j) {
      GetAppend(p, k, v, env[j].name);
    }
  }

  /** One more upsert of a name the original list lacks. */
  lemma ShapeStepAbsent(env: seq<EnvVar>, p: Dict<string>, k: string, v: string)
    requires k !in Keys(p) && k !in Names(env)
    ensures var vars := p + [(k, v)];
      Upsert(Overwritten(env, p) + PlainEntries(Absent(env, p)), k, v)
        == Overwritten(env, vars) + PlainEntries(Absent(env, vars))
  {
    var vars := p + [(k, v)];
    assert vars[..|p|] == p;
    var over, added := Overwritten(env, p), PlainEntries(Absent(env, p));
    NamesBeforeStep(env, p, k);
    NotInNames(env, k);
    forall j | 0 <= j < |over + added| ensures Names(over + added)[j] != k {
    }
    assert k !in Names(over + added);
    assert Upsert(over + added, k, v) == over + added + [Plain(k, v)];
    OverwrittenStepAbsent(env, p, k, v);
    assert Absent(env, vars) == Absent(env, p) + [(k, v)];
    assert PlainEntries(Absent(env, vars)) == added + [Plain(k, v)];
  }

  /**
   * The plain merge (lines 83-93) keeps every original entry at its index,
   * overwrites the first entry of each input name with the input value, and
   * appends the input pairs with new names in input order.
   */
  lemma {:induction false} UpsertAllShape(env: seq<EnvVar>, vars: Dict<string>)
    requires DistinctKeys(vars)
    ensures UpsertAll(env, vars) == Overwritten(env, vars) + PlainEntries(Absent(env, vars))
    decreases |vars|
  {
    if vars == [] {
      assert Overwritten(env, vars) == env;
    } else {
      var n := |vars| - 1;
      var p := vars[..n];
      KeysOfPrefix(vars, n);
      UpsertAllShape(env, p);
      assert vars == p + [vars[n]];
      if vars[n].0 in Names(env) {
        ShapeStepPresent(env, p, vars[n].0, vars[n].1);
      } else {
        ShapeStepAbsent(env, p, vars[n].0, vars[n].1);
      }
    }
  }

  /** A list with no two input-derived entries under one name keeps that property. */
  lemma {:induction false} AbsentDistinct(env: seq<EnvVar>, vars: Dict<string>)
    requires DistinctKeys(vars)
    ensures DistinctKeys(Absent(env, vars))
    decreases |vars|
  {
    if vars != [] {
      var n := |vars| - 1;
      KeysOfPrefix(vars, n);
      AbsentDistinct(env, vars[..n]);
      var a := Absent(env, vars[..n]);
      forall i | 0 <= i < |a| ensures a[i].0 != vars[n].0 {
        InKeys(vars[..n], a[i]);
      }
    }
  }

  /** Every input name is found in the list, and its first entry holds the input value. */
  ghost predicate HoldsInputs(env: seq<EnvVar>, vars: Dict<string>) {
    forall i :: 0 <= i < |vars| ==>
      var m := FirstMatch(env, vars[i].0);
      m.Some? && env[m.value] == Plain(vars[i].0, vars[i].1)
  }

  /** Coverage for one input name the original list has: its first entry is overwritten. */
  lemma CoversPresent(env: seq<EnvVar>, vars: Dict<string>, i: nat)
    requires DistinctKeys(vars) && i < |vars| && vars[i].0 in Names(env)
    ensures var r := Overwritten(env, vars) + PlainEntries(Absent(env, vars));
      var m := FirstMatch(r, vars[i].0);
      m.Some? && r[m.value] == Plain(vars[i].0, vars[i].1)
  {
    var r := Overwritten(env, vars) + PlainEntries(Absent(env, vars));
    var name := vars[i].0;
    GetAt(vars, i);
    var f := FirstMatch(env, name).value;
    forall j | 0 <= j < f ensures r[j].name != name {
      assert r[j] == Overwrite(env, vars, j);
    }
    assert r[f] == Overwrite(env, vars, f);
    FirstMatchAt(r, name, f);
  }

  /** The first match of a name the head lacks lies in the tail. */
  lemma FirstMatchInTail(head: seq<EnvVar>, tail: seq<EnvVar>, name: string, q: nat)
    requires forall j :: 0 <= j < |head| ==> head[j].name != name
    requires q < |tail| && tail[q].name == name
    requires forall j :: 0 <= j < q ==> tail[j].name != name
    ensures FirstMatch(head + tail, name) == Some(|head| + q)
  {
    FirstMatchAt(head + tail, name, |head| + q);
  }

  /** Coverage for one input name the original list lacks: it is appended, once. */
  lemma CoversAbsent(env: seq<EnvVar>, vars: Dict<string>, i: nat)
    requires DistinctKeys(vars) && i < |vars| && vars[i].0 !in Names(env)
    ensures var r := Overwritten(env, vars) + PlainEntries(Absent(env, vars));
      var m := FirstMatch(r, vars[i].0);
      m.Some? && r[m.value] == Plain(vars[i].0, vars[i].1)
  {
    var name := vars[i].0;
    var over := Overwritten(env, vars);
    AbsentDistinct(env, vars);
    var a := Absent(env, vars);
    var added := PlainEntries(a);
    var q :| 0 <= q < |a| && a[q] == vars[i];
    NotInNames(env, name);
    forall j | 0 <= j < |over| ensures over[j].name != name {
      assert over[j] == Overwrite(env, vars, j);
    }
    forall j | 0 <= j < q ensures added[j].name != name {
      assert added[j].name == a[j].0;
    }
    FirstMatchInTail(over, added, name, q);
  }

  /**
   * After the plain merge every input name has an entry, and the first entry
   * of that name holds the input's literal value (lines 83-93).
   */
  lemma UpsertAllCovers(env: seq<EnvVar>, vars: Dict<string>)
    requires DistinctKeys(vars)
    ensures HoldsInputs(UpsertAll(env, vars), vars)
  {
    UpsertAllShape(env, vars);
    forall i | 0 <= i < |vars|
      ensures var r := Overwritten(env, vars) + PlainEntries(Absent(env, vars));
              var m := FirstMatch(r, vars[i].0);
              m.Some? && r[m.value] == Plain(vars[i].0, vars[i].1)
    {
      if vars[i].0 in Names(env) {
        CoversPresent(env, vars, i);
      } else {
        CoversAbsent(env, vars, i);
      }
    }
  }

  /** A list whose first entries already hold every input value is left unchanged by the plain merge. */
  lemma UpsertAllNoOp(env: seq<EnvVar>, vars: Dict<string>)
    requires DistinctKeys(vars) && HoldsInputs(env, vars)
    ensures UpsertAll(env, vars) == env
  {
    UpsertAllShape(env, vars);
    assert Absent(env, vars) == [];
    forall j | 0 <= j < |env| ensures Overwrite(env, vars, j) == env[j] {
      var name := env[j].name;
      var g := Get(vars, name);
      if g.Some? && IsFirstOfName(env, j) {
        var t :| 0 <= t < |vars| && vars[t] == (name, g.value);
        FirstMatchAt(env, name, j);
      }
    }
    assert Overwritten(env, vars) == env;
  }

  /** Re-running the plain merge with the same input changes nothing (lines 83-93). */
  lemma UpsertAllIdempotent(env: seq<EnvVar>, vars: Dict<string>)
    requires DistinctKeys(vars)
    ensures UpsertAll(UpsertAll(env, vars), vars) == UpsertAll(env, vars)
  {
    UpsertAllCovers(env, vars);
    UpsertAllNoOp(UpsertAll(env, vars), vars);
  }

  /** Appending entries after the list does not move any first match that already exists. */
  lemma HoldsInputsAppend(env: seq<EnvVar>, tail: seq<EnvVar>, vars: Dict<string>)
    requires HoldsInputs(env, vars)
    ensures HoldsInputs(env + tail, vars)
  {
    forall i | 0 <= i < |vars|
      ensures var m := FirstMatch(env + tail, vars[i].0);
              m.Some? && (env + tail)[m.value] == Plain(vars[i].0, vars[i].1)
    {
      var f := FirstMatch(env, vars[i].0).value;
      FirstMatchAt(env + tail, vars[i].0, f);
    }
  }

  /**
   * The plain merge grows the list by exactly the input pairs whose names
   * were absent (lines 92-93), and that is the number of such names.
   */
  lemma UpsertAllLength(env: seq<EnvVar>, vars: Dict<string>)
    requires DistinctKeys(vars)
    ensures |UpsertAll(env, vars)| == |env| + |Absent(env, vars)|
    ensures |Absent(env, vars)| == |NewNames(env, vars)|
  {
    UpsertAllShape(env, vars);
    AbsentCount(env, vars);
  }

  /** The input names that the original list lacks. */
  ghost function NewNames(env: seq<EnvVar>, vars: Dict<string>): set<string> {
    set k | k in Keys(vars) && k !in Names(env)
  }

  lemma NewNamesStep(env: seq<EnvVar>, p: Dict<string>, x: (string, string))
    ensures NewNames(env, p + [x]) == NewNames(env, p) + (if x.0 in Names(env) then {} else {x.0})
  {
    assert Keys(p + [x]) == Keys(p) + [x.0];
  }

  lemma {:induction false} AbsentCount(env: seq<EnvVar>, vars: Dict<string>)
    requires DistinctKeys(vars)
    ensures |Absent(env, vars)| == |NewNames(env, vars)|
    decreases |vars|
  {
    if vars == [] {
      assert NewNames(env, vars) == {};
    } else {
      var n := |vars| - 1;
      var p := vars[..n];
      KeysOfPrefix(vars, n);
      AbsentCount(env, p);
      assert vars == p + [vars[n]];
      NewNamesStep(env, p, vars[n]);
      assert vars[n].0 !in NewNames(env, p);
    }
  }

  /** If the original names are distinct, so are the names after the plain merge. */
  lemma UpsertAllDistinct(env: seq<EnvVar>, vars: Dict<string>)
    requires DistinctNames(env) && DistinctKeys(vars)
    ensures DistinctNames(UpsertAll(env, vars))
  {
    var r := UpsertAll(env, vars);
    UpsertAllShape(env, vars);
    AbsentDistinct(env, vars);
    var a := Absent(env, vars);
    forall i, j | 0 <= i < j < |r| ensures r[i].name != r[j].name {
      if j < |env| {
        assert r[i] == Overwrite(env, vars, i) && r[j] == Overwrite(env, vars, j);
      } else if i < |env| {
        assert r[i] == Overwrite(env, vars, i);
        assert r[j] == Plain(a[j - |env|].0, a[j - |env|].1);
        NotInNames(env, a[j - |env|].0);
      } else {
        assert r[i] == Plain(a[i - |env|].0, a[i - |env|].1);
        assert r[j] == Plain(a[j - |env|].0, a[j - |env|].1);
      }
    }
  }

  /** With no env list yet (None, line 79-80), the input is appended in input order. */
  lemma {:induction false} MergeIntoEmpty(vars: Dict<string>)
    requires DistinctKeys(vars)
    ensures UpsertAll([], vars) == PlainEntries(vars)
  {
    UpsertAllShape([], vars);
    AbsentOfEmpty(vars);
  }

  lemma {:induction false} AbsentOfEmpty(vars: Dict<string>)
    ensures Absent([], vars) == vars
    decreases |vars|
  {
    if vars != [] {
      var n := |vars| - 1;
      AbsentOfEmpty(vars[..n]);
      var e: seq<EnvVar> := [];
      assert vars[n].0 !in Names(e);
      assert Absent(e, vars) == Absent(e, vars[..n]) + [vars[n]];
      assert vars == vars[..n] + [vars[n]];
    }
  }

  /**
   * The secret references are appended without a check (lines 96-106): the
   * final list has distinct names exactly when no secret key is already the
   * name of a plain entry.
   */
  lemma SecretRefsDistinctIff(plain: seq<EnvVar>, secretName: string, secretData: Dict<string>)
    requires DistinctNames(plain) && DistinctKeys(secretData)
    ensures DistinctNames(plain + SecretRefs(secretName, Keys(secretData)))
        <==> forall i :: 0 <= i < |secretData| ==> secretData[i].0 !in Names(plain)
  {
    var r := plain + SecretRefs(secretName, Keys(secretData));
    if forall i :: 0 <= i < |secretData| ==> secretData[i].0 !in Names(plain) {
      forall i, j | 0 <= i < j < |r| ensures r[i].name != r[j].name {
        if i < |plain| && |plain| <= j {
          NotInNames(plain, secretData[j - |plain|].0);
        }
      }
    } else {
      var i :| 0 <= i < |secretData| && secretData[i].0 in Names(plain);
      var j :| 0 <= j < |plain| && Names(plain)[j] == secretData[i].0;
      assert r[j].name == r[|plain| + i].name;
    }
  }

  /**
   * Running the whole update a second time with the same input leaves every
   * entry as it was and appends the secret references once more: with a
   * secret payload, the list then names the same key twice.
   */
  lemma RerunAppendsRefsAgain(env: Option<seq<EnvVar>>, vars: Dict<string>, secretData: Dict<string>,
                              secretName: string)
    requires DistinctKeys(vars)
    ensures var once := UpdatedEnv(env, vars, secretData, secretName);
      UpdatedEnv(Some(once), vars, secretData, secretName)
        == once + SecretRefs(secretName, Keys(secretData))
    ensures secretData != [] ==> !DistinctNames(UpdatedEnv(Some(UpdatedEnv(env, vars, secretData, secretName)),
                                                           vars, secretData, secretName))
  {
    var plain := UpsertAll(env.GetOr([]), vars);
    var refs := SecretRefs(secretName, Keys(secretData));
    var once := plain + refs;
    UpsertAllCovers(env.GetOr([]), vars);
    HoldsInputsAppend(plain, refs, vars);
    UpsertAllNoOp(once, vars);
    if secretData != [] {
      var twice := once + refs;
      assert twice[|plain|].name == twice[|once|].name;
    }
  }

  /** Merging {"A": "1"} into A=0, B=2 replaces A where it stands and leaves B alone. */
  lemma ReplaceInPlaceExample()
    ensures UpsertAll([Plain("A", "0"), Plain("B", "2")], [("A", "1")]) == [Plain("A", "1"), Plain("B", "2")]
  {
    FirstMatchAt([Plain("A", "0"), Plain("B", "2")], "A", 0);
    var vars: Dict<string> := [("A", "1")];
    assert vars[..0] == [];
  }
}
