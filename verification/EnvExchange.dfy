/**
 * Handing secrets and config map values to the executor pod through its environment, and reading them back there:
 * PrepareSecrets, PrepareEnvs, GetSecretEnvs and GetReferenceVars of pkg/executor/env/manager.go.
 */
module EnvExchange {
  import opened Collections

  const SECRET_ENV_PREFIX := "RUNNER_SECRET_ENV"
  const SECRET_VAR_PREFIX := "RUNNER_SECRET_VAR_"

  const CONFIGMAP_VAR_PREFIX := "RUNNER_CONFIGMAP_VAR_"

  /** A key of a secret or of a config map. */
  datatype Ref = Ref(name: string, key: string)

  datatype Variable = Variable(value: string, isSecret: bool, secretRef: Option<Ref>, configMapRef: Option<Ref>)

  /** Where the pod gets the value of an environment variable from. */
  datatype Source = Literal(value: string) | SecretKey(ref: Ref) | ConfigMapKey(ref: Ref)

  datatype EnvVar = EnvVar(name: string, source: Source)

  // ---------- names

  function Digit(d: nat): char
    requires d < 10
  {
    '0' + d as char
  }

  function Decimal(n: nat): string {
    if n < 10 then [Digit(n)] else Decimal(n / 10) + [Digit(n % 10)]
  }

  lemma DecimalIsNotEmpty(n: nat)
    ensures |Decimal(n)| > 0
  {
  }

  lemma {:induction false} DecimalIsInjective(m: nat, n: nat)
    requires Decimal(m) == Decimal(n)
    ensures m == n
  {
    assert Decimal(m)[|Decimal(m)| - 1] == Digit(m % 10) && Decimal(n)[|Decimal(n)| - 1] == Digit(n % 10);
    if m >= 10 && n >= 10 {
      assert Decimal(m / 10) == Decimal(m)[..|Decimal(m)| - 1] && Decimal(n / 10) == Decimal(n)[..|Decimal(n)| - 1];
      DecimalIsInjective(m / 10, n / 10);
    } else if m >= 10 {
      DecimalIsNotEmpty(m / 10);
    } else if n >= 10 {
      DecimalIsNotEmpty(n / 10);
    }
  }

  function Numbered(i: nat): string { SECRET_ENV_PREFIX + Decimal(i) }

  lemma NumberedIsInjective(i: nat, j: nat)
    requires Numbered(i) == Numbered(j)
    ensures i == j
  {
    assert Decimal(i) == Numbered(i)[|SECRET_ENV_PREFIX|..] && Decimal(j) == Numbered(j)[|SECRET_ENV_PREFIX|..];
    DecimalIsInjective(i, j);
  }

  /** The three kinds of reserved names do not overlap. */
  lemma PrefixesDiffer(i: nat, a: string, b: string)
    ensures Numbered(i) != SECRET_VAR_PREFIX + a && Numbered(i) != CONFIGMAP_VAR_PREFIX + a
    ensures SECRET_VAR_PREFIX + a != CONFIGMAP_VAR_PREFIX + b
    ensures SECRET_VAR_PREFIX + a == SECRET_VAR_PREFIX + b ==> a == b
    ensures CONFIGMAP_VAR_PREFIX + a == CONFIGMAP_VAR_PREFIX + b ==> a == b
  {
    assert Numbered(i)[14] == 'E' && (SECRET_VAR_PREFIX + a)[14] == 'V';
    assert Numbered(i)[7] == 'S' && (SECRET_VAR_PREFIX + a)[7] == 'S' && (CONFIGMAP_VAR_PREFIX + b)[7] == 'C';
    assert (CONFIGMAP_VAR_PREFIX + a)[7] == 'C';
    assert (SECRET_VAR_PREFIX + a)[18..] == a && (SECRET_VAR_PREFIX + b)[18..] == b;
    assert (CONFIGMAP_VAR_PREFIX + a)[21..] == a && (CONFIGMAP_VAR_PREFIX + b)[21..] == b;
  }

  // ---------- what is published

  /** The entries for the i-th of a series of secrets. */
  type EntriesOf = (string, Ref, nat) -> seq<EnvVar>

  /** A secret env, as itself and under its number. */
  function EnvEntries(name: string, ref: Ref, i: nat): seq<EnvVar> {
    [EnvVar(name, SecretKey(ref)), EnvVar(Numbered(i), SecretKey(ref))]
  }

  /** A secret reference among the variables: as itself, under its number, and under its reserved name. */
  function VarEntries(name: string, ref: Ref, i: nat): seq<EnvVar> {
    var source := SecretKey(ref);
    [EnvVar(name, source), EnvVar(Numbered(i), source), EnvVar(SECRET_VAR_PREFIX + name, source)]
  }

  /** The entries for the secrets, taken in this order and counted from 1. */
  function Series(order: seq<string>, refs: map<string, Ref>, entriesOf: EntriesOf): seq<EnvVar>
    requires forall name | name in order :: name in refs
  {
    if order == [] then []
    else
      var n := |order| - 1;
      Series(order[..n], refs, entriesOf) + entriesOf(order[n], refs[order[n]], n + 1)
  }

  /** The secret envs name the secret, and their own name is the key in it. */
  function EnvRefs(secretEnvs: map<string, string>): map<string, Ref> {
    map name | name in secretEnvs :: Ref(secretEnvs[name], name)
  }

  function VarRefs(variables: map<string, Variable>): map<string, Ref> {
    map name | name in variables && variables[name].isSecret && variables[name].secretRef.Some? ::
      variables[name].secretRef.value
  }

  /** The entries for all the secrets, in whatever order their map was iterated. */
  ghost predicate IsSeries(entries: seq<EnvVar>, refs: map<string, Ref>, entriesOf: EntriesOf) {
    exists order :: Orders(order, refs.Keys) && entries == Series(order, refs, entriesOf)
  }

  /** The loop has published the secrets in taken, in this order. */
  ghost predicate Published(
      entries: seq<EnvVar>, order: seq<string>, taken: set<string>, refs: map<string, Ref>, entriesOf: EntriesOf,
      i: nat)
  {
    taken <= refs.Keys && Orders(order, taken) && entries == Series(order, refs, entriesOf) && i == |order| + 1
  }

  lemma PublishedOneMore(
      entries: seq<EnvVar>, order: seq<string>, taken: set<string>, refs: map<string, Ref>, entriesOf: EntriesOf,
      i: nat, name: string)
    requires Published(entries, order, taken, refs, entriesOf, i) && name in refs && name !in taken
    ensures Published(
      entries + entriesOf(name, refs[name], i), order + [name], taken + {name}, refs, entriesOf, i + 1)
  {
    assert (order + [name])[..|order|] == order;
  }

  /** The first loop of PrepareSecrets. */
  method PublishSecretEnvs(secretEnvs: map<string, string>) returns (entries: seq<EnvVar>)
    ensures IsSeries(entries, EnvRefs(secretEnvs), EnvEntries)
  {
    entries := [];
    ghost var order: seq<string> := [];
    ghost var refs, taken := EnvRefs(secretEnvs), {};
    var i, rest := 1, secretEnvs.Keys;
    while rest != {}
      invariant rest <= secretEnvs.Keys && forall name :: name in taken <==> name in refs && name !in rest
      invariant Published(entries, order, taken, refs, EnvEntries, i)
    {
      var secretVar :| secretVar in rest;
      PublishedOneMore(entries, order, taken, refs, EnvEntries, i, secretVar);
      entries := entries + EnvEntries(secretVar, Ref(secretEnvs[secretVar], secretVar), i);
      order, taken := order + [secretVar], taken + {secretVar};
      i, rest := i + 1, rest - {secretVar};
    }
    assert taken == refs.Keys;
  }

  /** The second loop of PrepareSecrets, which counts from 1 again. */
  method PublishSecretVars(variables: map<string, Variable>) returns (entries: seq<EnvVar>)
    ensures IsSeries(entries, VarRefs(variables), VarEntries)
  {
    entries := [];
    ghost var order: seq<string> := [];
    ghost var refs, taken := VarRefs(variables), {};
    var i, rest := 1, variables.Keys;
    while rest != {}
      invariant rest <= variables.Keys && forall name :: name in taken <==> name in refs && name !in rest
      invariant Published(entries, order, taken, refs, VarEntries, i)
    {
      var name :| name in rest;
      rest := rest - {name};
      var variable := variables[name];
      if !variable.isSecret || variable.secretRef.None? {
        continue;
      }
      PublishedOneMore(entries, order, taken, refs, VarEntries, i, name);
      entries := entries + VarEntries(name, variable.secretRef.value, i);
      order, taken := order + [name], taken + {name};
      i := i + 1;
    }
    assert taken == refs.Keys;
  }

  ghost predicate PreparedIn(
      entries: seq<EnvVar>, envRefs: map<string, Ref>, varRefs: map<string, Ref>, envOrder: seq<string>,
      varOrder: seq<string>)
  {
    && Orders(envOrder, envRefs.Keys) && Orders(varOrder, varRefs.Keys)
    && entries == Series(envOrder, envRefs, EnvEntries) + Series(varOrder, varRefs, VarEntries)
  }

  /** The two series of secrets in some order each, one after the other, each counted from 1. */
  ghost predicate ArePrepared(
      entries: seq<EnvVar>, secretEnvs: map<string, string>, variables: map<string, Variable>)
  {
    exists envOrder, varOrder :: PreparedIn(entries, EnvRefs(secretEnvs), VarRefs(variables), envOrder, varOrder)
  }

  method PrepareSecrets(secretEnvs: map<string, string>, variables: map<string, Variable>)
    returns (secretEnvVars: seq<EnvVar>)
    ensures ArePrepared(secretEnvVars, secretEnvs, variables)
  {
    var first := PublishSecretEnvs(secretEnvs);
    var second := PublishSecretVars(variables);
    secretEnvVars := first + second;
    ghost var envRefs, varRefs := EnvRefs(secretEnvs), VarRefs(variables);
    ghost var envOrder :| Orders(envOrder, envRefs.Keys) && first == Series(envOrder, envRefs, EnvEntries);
    ghost var varOrder :| Orders(varOrder, varRefs.Keys) && second == Series(varOrder, varRefs, VarEntries);
    assert PreparedIn(secretEnvVars, envRefs, varRefs, envOrder, varOrder);
  }

  ghost predicate IsConfigMapEntry(e: EnvVar, name: string, variables: map<string, Variable>) {
    && name in variables && !variables[name].isSecret && variables[name].configMapRef.Some?
    && e.name in {name, CONFIGMAP_VAR_PREFIX + name} && e.source == ConfigMapKey(variables[name].configMapRef.value)
  }

  /** An entry that PrepareEnvs makes of an env or of a variable that is no secret. */
  ghost predicate IsPlainEntry(e: EnvVar, envs: map<string, string>, variables: map<string, Variable>) {
    || (e.name in envs && e.source == Literal(envs[e.name]))
    || (e.name in variables && !variables[e.name].isSecret && variables[e.name].configMapRef.None?
        && e.source == Literal(variables[e.name].value))
    || exists name :: IsConfigMapEntry(e, name, variables)
  }

  lemma PlainEntryOfOneMore(
      e: EnvVar, envs: map<string, string>, dealt: map<string, Variable>, name: string, variable: Variable)
    requires name !in dealt
    ensures IsPlainEntry(e, envs, dealt[name := variable]) <==>
      || IsPlainEntry(e, envs, dealt)
      || (!variable.isSecret && variable.configMapRef.None? && e == EnvVar(name, Literal(variable.value)))
      || (!variable.isSecret && variable.configMapRef.Some? && e.name in {name, CONFIGMAP_VAR_PREFIX + name}
          && e.source == ConfigMapKey(variable.configMapRef.value))
  {
    var more := dealt[name := variable];
    forall other | other != name ensures IsConfigMapEntry(e, other, more) <==> IsConfigMapEntry(e, other, dealt) {}
    assert !IsConfigMapEntry(e, name, dealt);
    assert IsConfigMapEntry(e, name, more) ==> IsPlainEntry(e, envs, more);
  }

  method PrepareEnvs(envs: map<string, string>, variables: map<string, Variable>) returns (env: seq<EnvVar>)
    ensures forall e :: e in env <==> IsPlainEntry(e, envs, variables)
  {
    env := [];
    var rest := envs.Keys;
    while rest != {}
      invariant rest <= envs.Keys
      invariant forall e :: e in env <==> e.name in envs.Keys - rest && e.source == Literal(envs[e.name])
    {
      var k :| k in rest;
      env := env + [EnvVar(k, Literal(envs[k]))];
      rest := rest - {k};
    }
    rest := variables.Keys;
    ghost var dealt: map<string, Variable> := map[];
    while rest != {}
      invariant rest <= variables.Keys && dealt == variables - rest
      invariant forall e :: e in env <==> IsPlainEntry(e, envs, dealt)
    {
      var name :| name in rest;
      var variable := variables[name];
      ghost var env0, dealt0 := env, dealt;
      rest, dealt := rest - {name}, dealt[name := variable];
      if variable.isSecret {
      } else if variable.configMapRef.None? {
        env := env + [EnvVar(name, Literal(variable.value))];
      } else {
        var source := ConfigMapKey(variable.configMapRef.value);
        env := env + [EnvVar(name, source)];
        env := env + [EnvVar(CONFIGMAP_VAR_PREFIX + name, source)];
      }
      forall e ensures e in env <==> IsPlainEntry(e, envs, dealt) {
        PlainEntryOfOneMore(e, envs, dealt0, name, variable);
      }
    }
    assert dealt == variables;
  }

  // ---------- what is read back

  /** The names RUNNER_SECRET_ENV1 to RUNNER_SECRET_ENVn. */
  function NumberedNames(n: nat): set<string> {
    set i | 1 <= i <= n :: Numbered(i)
  }

  lemma NumberedNamesGrow(n: nat)
    requires n >= 1
    ensures NumberedNames(n) == NumberedNames(n - 1) + {Numbered(n)} && Numbered(n) !in NumberedNames(n - 1)
  {
    if i :| 1 <= i <= n - 1 && Numbered(i) == Numbered(n) {
      NumberedIsInjective(i, n);
    }
  }

  lemma {:induction false} AsManyNumberedNames(n: nat)
    ensures |NumberedNames(n)| == n
  {
    if n == 0 {
    } else {
      AsManyNumberedNames(n - 1);
      NumberedNamesGrow(n);
    }
  }

  lemma OneMoreNumberedName(i: nat, names: set<string>)
    requires i >= 1 && NumberedNames(i - 1) <= names && Numbered(i) in names
    ensures NumberedNames(i) == NumberedNames(i - 1) + {Numbered(i)} && Numbered(i) !in NumberedNames(i - 1)
    ensures i <= |names|
  {
    NumberedNamesGrow(i);
    AsManyNumberedNames(i);
    SubsetIsSmaller(NumberedNames(i), names);
  }

  /** Reads the numbered names up to the first that is not set. */
  method GetSecretEnvs(env: map<string, string>) returns (secretEnvs: map<string, string>)
    ensures Numbered(|secretEnvs| + 1) !in env
    ensures secretEnvs.Keys == NumberedNames(|secretEnvs|)
    ensures forall name | name in secretEnvs :: name in env && secretEnvs[name] == env[name]
  {
    secretEnvs := map[];
    var i := 1;
    while Numbered(i) in env
      invariant |secretEnvs| == i - 1 && secretEnvs.Keys == NumberedNames(i - 1)
      invariant forall name | name in secretEnvs :: name in env && secretEnvs[name] == env[name]
      decreases |env.Keys| + 1 - i
    {
      OneMoreNumberedName(i, env.Keys);
      secretEnvs := secretEnvs[Numbered(i) := env[Numbered(i)]];
      i := i + 1;
    }
  }

  function Restored(name: string, variable: Variable, env: map<string, string>): Variable {
    var key := (if variable.isSecret then SECRET_VAR_PREFIX else CONFIGMAP_VAR_PREFIX) + name;
    if key in env then variable.(value := env[key]) else variable
  }

  method GetReferenceVars(variables: map<string, Variable>, env: map<string, string>)
    returns (restored: map<string, Variable>)
    ensures restored == map name | name in variables :: Restored(name, variables[name], env)
  {
    restored := variables;
    var rest := variables.Keys;
    while rest != {}
      invariant rest <= variables.Keys && restored.Keys == variables.Keys
      invariant forall name | name in variables ::
        restored[name] == if name in rest then variables[name] else Restored(name, variables[name], env)
    {
      var name :| name in rest;
      rest := rest - {name};
      var variable := variables[name];
      if variable.isSecret {
        if SECRET_VAR_PREFIX + name !in env {
          continue;
        }
        restored := restored[name := variable.(value := env[SECRET_VAR_PREFIX + name])];
      } else {
        if CONFIGMAP_VAR_PREFIX + name !in env {
          continue;
        }
        restored := restored[name := variable.(value := env[CONFIGMAP_VAR_PREFIX + name])];
      }
    }
  }

  // ---------- round trips

  /** The entry is one of those for the k-th secret of the series. */
  predicate IsSeriesEntry(order: seq<string>, refs: map<string, Ref>, entriesOf: EntriesOf, e: EnvVar, k: nat) {
    k < |order| && order[k] in refs && e in entriesOf(order[k], refs[order[k]], k + 1)
  }

  lemma {:induction false} SeriesMeaning(order: seq<string>, refs: map<string, Ref>, entriesOf: EntriesOf, e: EnvVar)
    requires forall name | name in order :: name in refs
    ensures e in Series(order, refs, entriesOf) <==> exists k: nat :: IsSeriesEntry(order, refs, entriesOf, e, k)
  {
    if order == [] {
    } else {
      var n := |order| - 1;
      assert order[n] in order;
      SeriesMeaning(order[..n], refs, entriesOf, e);
      forall k: nat | k < n
        ensures IsSeriesEntry(order, refs, entriesOf, e, k) <==> IsSeriesEntry(order[..n], refs, entriesOf, e, k)
      {
        assert order[..n][k] == order[k];
      }
      assert e in entriesOf(order[n], refs[order[n]], n + 1) <==> IsSeriesEntry(order, refs, entriesOf, e, n);
    }
  }

  /** What is handed to the pod, and the orders in which the secrets were taken. */
  datatype Publication = Publication(
    secretEnvs: map<string, string>, envs: map<string, string>, variables: map<string, Variable>,
    envOrder: seq<string>, varOrder: seq<string>, list: seq<EnvVar>)
  {
    function Envs(): map<string, Ref> { EnvRefs(secretEnvs) }

    function Refs(): map<string, Ref> { VarRefs(variables) }

    /** The entry is for the k-th secret env, or for the k-th secret reference among the variables. */
    predicate IsEnvEntry(e: EnvVar, k: nat) { IsSeriesEntry(envOrder, Envs(), EnvEntries, e, k) }

    predicate IsVarEntry(e: EnvVar, k: nat) { IsSeriesEntry(varOrder, Refs(), VarEntries, e, k) }

    /** The list holds what PrepareSecrets and PrepareEnvs return, in any order. */
    ghost predicate Valid() {
      && Orders(envOrder, Envs().Keys) && Orders(varOrder, Refs().Keys)
      && forall e :: e in list <==>
           || e in Series(envOrder, Envs(), EnvEntries)
           || e in Series(varOrder, Refs(), VarEntries)
           || IsPlainEntry(e, envs, variables)
    }

    /** The name is not one of those the exchange itself uses. */
    ghost predicate IsFree(name: string) {
      && (forall i: nat :: name != Numbered(i))
      && (forall v | v in variables :: name != SECRET_VAR_PREFIX + v && name != CONFIGMAP_VAR_PREFIX + v)
    }

    ghost predicate NamesAreFree() {
      forall name | name in secretEnvs || name in envs || name in variables :: IsFree(name)
    }
  }

  /**
   * The pod's environment: every name published has a value, and under a name of the exchange that is the value of an
   * entry of that name. Which entry decides when there are several, and what else the job adds, is left open.
   */
  ghost predicate IsEnvironment(env: map<string, string>, p: Publication, lookup: Source -> string) {
    && (forall e | e in p.list :: e.name in env)
    && (forall name | name in env && !p.IsFree(name) ::
          exists e :: e in p.list && e.name == name && env[name] == lookup(e.source))
  }

  lemma JoinedIsValid(p: Publication, secretEnvVars: seq<EnvVar>, env: seq<EnvVar>)
    requires PreparedIn(secretEnvVars, p.Envs(), p.Refs(), p.envOrder, p.varOrder)
    requires forall e :: e in env <==> IsPlainEntry(e, p.envs, p.variables)
    requires p.list == secretEnvVars + env
    ensures p.Valid()
  {
  }

  /** Both kinds of entries, as the job specification joins them. */
  method Publish(secretEnvs: map<string, string>, envs: map<string, string>, variables: map<string, Variable>)
    returns (list: seq<EnvVar>)
    ensures exists p: Publication ::
      p.Valid() && p.list == list && p.secretEnvs == secretEnvs && p.envs == envs && p.variables == variables
  {
    var secretEnvVars := PrepareSecrets(secretEnvs, variables);
    var env := PrepareEnvs(envs, variables);
    list := secretEnvVars + env;
    ghost var envOrder, varOrder :|
      PreparedIn(secretEnvVars, EnvRefs(secretEnvs), VarRefs(variables), envOrder, varOrder);
    ghost var p := Publication(secretEnvs, envs, variables, envOrder, varOrder, list);
    JoinedIsValid(p, secretEnvVars, env);
  }

  /** Where a published entry can come from. */
  lemma Origin(p: Publication, e: EnvVar)
    requires p.Valid()
    ensures e in p.list <==>
      || (exists k: nat :: p.IsEnvEntry(e, k))
      || (exists k: nat :: p.IsVarEntry(e, k))
      || IsPlainEntry(e, p.envs, p.variables)
  {
    SeriesMeaning(p.envOrder, p.Envs(), EnvEntries, e);
    SeriesMeaning(p.varOrder, p.Refs(), VarEntries, e);
    assert forall k: nat :: p.IsEnvEntry(e, k) <==> IsSeriesEntry(p.envOrder, p.Envs(), EnvEntries, e, k);
    assert forall k: nat :: p.IsVarEntry(e, k) <==> IsSeriesEntry(p.varOrder, p.Refs(), VarEntries, e, k);
  }

  lemma SecretEnvEntryName(p: Publication, e: EnvVar, k: nat)
    requires p.NamesAreFree() && p.IsEnvEntry(e, k)
    ensures p.IsFree(e.name) || e.name == Numbered(k + 1)
  {
  }

  lemma SecretVarEntryName(p: Publication, e: EnvVar, k: nat)
    requires p.NamesAreFree() && p.IsVarEntry(e, k)
    ensures p.IsFree(e.name) || e.name == Numbered(k + 1) || e.name == SECRET_VAR_PREFIX + p.varOrder[k]
  {
  }

  lemma PlainEntryName(p: Publication, e: EnvVar)
    requires p.NamesAreFree() && IsPlainEntry(e, p.envs, p.variables)
    ensures p.IsFree(e.name)
      || exists name :: e.name == CONFIGMAP_VAR_PREFIX + name && IsConfigMapEntry(e, name, p.variables)
  {
  }

  lemma NeitherEnvNorPlain(p: Publication, name: string, e: EnvVar)
    requires p.NamesAreFree() && name in p.variables && e.name == SECRET_VAR_PREFIX + name
    ensures !IsPlainEntry(e, p.envs, p.variables)
    ensures forall k: nat :: !p.IsEnvEntry(e, k)
  {
    assert !p.IsFree(e.name);
    if IsPlainEntry(e, p.envs, p.variables) {
      PlainEntryName(p, e);
      var other :| e.name == CONFIGMAP_VAR_PREFIX + other;
      PrefixesDiffer(0, name, other);
    }
    if k: nat :| p.IsEnvEntry(e, k) {
      SecretEnvEntryName(p, e, k);
      PrefixesDiffer(k + 1, name, name);
    }
  }

  lemma OwnSecretRef(p: Publication, name: string, e: EnvVar, k: nat)
    requires p.NamesAreFree() && name in p.variables && e.name == SECRET_VAR_PREFIX + name
    requires p.IsVarEntry(e, k)
    ensures p.varOrder[k] == name && e.source == SecretKey(p.Refs()[name])
  {
    assert !p.IsFree(e.name);
    SecretVarEntryName(p, e, k);
    PrefixesDiffer(k + 1, name, name);
    PrefixesDiffer(0, name, p.varOrder[k]);
  }

  /** Under a variable's reserved secret name there is its secret reference, and nothing else. */
  lemma UnderSecretName(p: Publication, name: string, e: EnvVar)
    requires p.Valid() && p.NamesAreFree() && name in p.variables && e.name == SECRET_VAR_PREFIX + name
    ensures var v := p.variables[name];
      e in p.list <==> v.isSecret && v.secretRef.Some? && e.source == SecretKey(v.secretRef.value)
  {
    Origin(p, e);
    NeitherEnvNorPlain(p, name, e);
    if k: nat :| p.IsVarEntry(e, k) {
      OwnSecretRef(p, name, e, k);
    }
    if name in p.Refs() && e.source == SecretKey(p.Refs()[name]) {
      var k :| 0 <= k < |p.varOrder| && p.varOrder[k] == name;
      assert e == VarEntries(name, p.Refs()[name], k + 1)[2];
      assert p.IsVarEntry(e, k);
    }
  }

  lemma ConfigMapEntryOnly(p: Publication, name: string, e: EnvVar)
    requires p.Valid() && p.NamesAreFree() && name in p.variables && e.name == CONFIGMAP_VAR_PREFIX + name
    ensures e in p.list <==> IsConfigMapEntry(e, name, p.variables)
  {
    Origin(p, e);
    assert !p.IsFree(e.name);
    if k: nat :| p.IsEnvEntry(e, k) {
      SecretEnvEntryName(p, e, k);
      PrefixesDiffer(k + 1, name, name);
    }
    if k: nat :| p.IsVarEntry(e, k) {
      SecretVarEntryName(p, e, k);
      PrefixesDiffer(k + 1, name, name);
      PrefixesDiffer(0, p.varOrder[k], name);
    }
    if IsPlainEntry(e, p.envs, p.variables) {
      PlainEntryName(p, e);
      var other :| e.name == CONFIGMAP_VAR_PREFIX + other && IsConfigMapEntry(e, other, p.variables);
      PrefixesDiffer(0, name, other);
    }
  }

  /** Under a variable's reserved config map name there is its config map reference, and nothing else. */
  lemma UnderConfigMapName(p: Publication, name: string, e: EnvVar)
    requires p.Valid() && p.NamesAreFree() && name in p.variables && e.name == CONFIGMAP_VAR_PREFIX + name
    ensures var v := p.variables[name];
      e in p.list <==> !v.isSecret && v.configMapRef.Some? && e.source == ConfigMapKey(v.configMapRef.value)
  {
    ConfigMapEntryOnly(p, name, e);
  }

  lemma NumberOfSecretEnv(p: Publication, i: nat, e: EnvVar, k: nat)
    requires p.NamesAreFree() && e.name == Numbered(i) && p.IsEnvEntry(e, k)
    ensures k + 1 == i
  {
    SecretEnvEntryName(p, e, k);
    NumberedIsInjective(i, k + 1);
  }

  lemma NumberOfSecretRef(p: Publication, i: nat, e: EnvVar, k: nat)
    requires p.NamesAreFree() && e.name == Numbered(i) && p.IsVarEntry(e, k)
    ensures k + 1 == i
  {
    SecretVarEntryName(p, e, k);
    PrefixesDiffer(i, p.varOrder[k], "");
    NumberedIsInjective(i, k + 1);
  }

  lemma NoPlainNumber(p: Publication, i: nat, e: EnvVar)
    requires p.NamesAreFree() && e.name == Numbered(i)
    ensures !IsPlainEntry(e, p.envs, p.variables)
  {
    if IsPlainEntry(e, p.envs, p.variables) {
      PlainEntryName(p, e);
      var other :| e.name == CONFIGMAP_VAR_PREFIX + other;
      PrefixesDiffer(i, other, "");
    }
  }

  lemma EnvEntryAtNumber(p: Publication, i: nat, e: EnvVar)
    requires p.Valid() && p.NamesAreFree() && 1 <= i <= |p.envOrder| && e.name == Numbered(i)
    ensures p.envOrder[i - 1] in p.secretEnvs
    ensures p.IsEnvEntry(e, i - 1) <==>
      e.source == SecretKey(Ref(p.secretEnvs[p.envOrder[i - 1]], p.envOrder[i - 1]))
  {
    var name := p.envOrder[i - 1];
    assert name in p.envOrder;
    assert p.IsFree(name);
    assert EnvEntries(name, p.Envs()[name], i)[1].name == e.name;
  }

  lemma VarEntryAtNumber(p: Publication, i: nat, e: EnvVar)
    requires p.Valid() && p.NamesAreFree() && 1 <= i <= |p.varOrder| && e.name == Numbered(i)
    ensures p.varOrder[i - 1] in p.variables
    ensures var v := p.variables[p.varOrder[i - 1]];
      v.isSecret && v.secretRef.Some? && (p.IsVarEntry(e, i - 1) <==> e.source == SecretKey(v.secretRef.value))
  {
    var name := p.varOrder[i - 1];
    assert name in p.varOrder;
    assert p.IsFree(name);
    PrefixesDiffer(i, name, name);
    assert VarEntries(name, p.Refs()[name], i)[1].name == e.name;
  }

  lemma NumberedEntryOnly(p: Publication, i: nat, e: EnvVar)
    requires p.Valid() && p.NamesAreFree() && i >= 1 && e.name == Numbered(i)
    ensures e in p.list <==> p.IsEnvEntry(e, i - 1) || p.IsVarEntry(e, i - 1)
  {
    Origin(p, e);
    NoPlainNumber(p, i, e);
    forall k: nat | p.IsEnvEntry(e, k) ensures k + 1 == i {
      NumberOfSecretEnv(p, i, e, k);
    }
    forall k: nat | p.IsVarEntry(e, k) ensures k + 1 == i {
      NumberOfSecretRef(p, i, e, k);
    }
  }

  /** Under a number there are the secret env and the secret reference that were counted with it, if they exist. */
  lemma UnderNumber(p: Publication, i: nat, e: EnvVar)
    requires p.Valid() && p.NamesAreFree() && i >= 1 && e.name == Numbered(i)
    ensures e in p.list <==>
      || (i <= |p.envOrder| && p.envOrder[i - 1] in p.secretEnvs
          && e.source == SecretKey(Ref(p.secretEnvs[p.envOrder[i - 1]], p.envOrder[i - 1])))
      || (i <= |p.varOrder| && p.varOrder[i - 1] in p.variables && p.variables[p.varOrder[i - 1]].secretRef.Some?
          && e.source == SecretKey(p.variables[p.varOrder[i - 1]].secretRef.value))
  {
    NumberedEntryOnly(p, i, e);
    if i <= |p.envOrder| { EnvEntryAtNumber(p, i, e); }
    if i <= |p.varOrder| { VarEntryAtNumber(p, i, e); }
  }

  lemma OwnEnvEntry(p: Publication, e: EnvVar)
    requires p.Valid() && p.IsFree(e.name)
    ensures (exists k: nat :: p.IsEnvEntry(e, k)) <==>
      e.name in p.secretEnvs && e.source == SecretKey(Ref(p.secretEnvs[e.name], e.name))
  {
    if e.name in p.secretEnvs && e.source == SecretKey(Ref(p.secretEnvs[e.name], e.name)) {
      assert e.name in p.envOrder;
      var k :| 0 <= k < |p.envOrder| && p.envOrder[k] == e.name;
      assert e == EnvEntries(e.name, p.Envs()[e.name], k + 1)[0];
      assert p.IsEnvEntry(e, k);
    }
  }

  lemma OwnVarEntry(p: Publication, e: EnvVar)
    requires p.Valid() && p.IsFree(e.name)
    ensures (exists k: nat :: p.IsVarEntry(e, k)) <==>
      && e.name in p.variables && p.variables[e.name].isSecret && p.variables[e.name].secretRef.Some?
      && e.source == SecretKey(p.variables[e.name].secretRef.value)
  {
    if e.name in p.Refs() && e.source == SecretKey(p.Refs()[e.name]) {
      assert e.name in p.varOrder;
      var k :| 0 <= k < |p.varOrder| && p.varOrder[k] == e.name;
      assert e == VarEntries(e.name, p.Refs()[e.name], k + 1)[0];
      assert p.IsVarEntry(e, k);
    }
  }

  lemma OwnPlainEntry(p: Publication, e: EnvVar)
    requires p.IsFree(e.name)
    ensures IsPlainEntry(e, p.envs, p.variables) <==>
      || (e.name in p.envs && e.source == Literal(p.envs[e.name]))
      || (e.name in p.variables && !p.variables[e.name].isSecret &&
            e.source == if p.variables[e.name].configMapRef.None? then Literal(p.variables[e.name].value)
                        else ConfigMapKey(p.variables[e.name].configMapRef.value))
  {
    if name :| IsConfigMapEntry(e, name, p.variables) {
      assert e.name == name;
    }
    assert IsConfigMapEntry(e, e.name, p.variables) ==> IsPlainEntry(e, p.envs, p.variables);
  }

  /** Under a name of the user's there is what the user gave that name to, and nothing else. */
  lemma UnderOwnName(p: Publication, e: EnvVar)
    requires p.Valid() && p.IsFree(e.name)
    ensures e in p.list <==>
      || (e.name in p.secretEnvs && e.source == SecretKey(Ref(p.secretEnvs[e.name], e.name)))
      || (e.name in p.envs && e.source == Literal(p.envs[e.name]))
      || (e.name in p.variables &&
            var v := p.variables[e.name];
            if v.isSecret then v.secretRef.Some? && e.source == SecretKey(v.secretRef.value)
            else if v.configMapRef.Some? then e.source == ConfigMapKey(v.configMapRef.value)
            else e.source == Literal(v.value))
  {
    Origin(p, e);
    OwnEnvEntry(p, e);
    OwnVarEntry(p, e);
    OwnPlainEntry(p, e);
  }

  /**
   * The variables' round trip: in the pod, every variable gets back the value of its secret or config map, and one
   * without such a reference keeps its own.
   */
  lemma ReferenceVarsRoundTrip(p: Publication, env: map<string, string>, lookup: Source -> string, name: string)
    requires p.Valid() && p.NamesAreFree() && IsEnvironment(env, p, lookup) && name in p.variables
    ensures var v, restored := p.variables[name], Restored(name, p.variables[name], env);
      && restored.isSecret == v.isSecret
      && restored.secretRef == v.secretRef && restored.configMapRef == v.configMapRef
      && restored.value ==
           if v.isSecret && v.secretRef.Some? then lookup(SecretKey(v.secretRef.value))
           else if !v.isSecret && v.configMapRef.Some? then lookup(ConfigMapKey(v.configMapRef.value))
           else v.value
  {
    var v := p.variables[name];
    var key := (if v.isSecret then SECRET_VAR_PREFIX else CONFIGMAP_VAR_PREFIX) + name;
    forall e: EnvVar | e.name == key
      ensures v.isSecret ==> (e in p.list <==> v.secretRef.Some? && e.source == SecretKey(v.secretRef.value))
      ensures !v.isSecret ==> (e in p.list <==> v.configMapRef.Some? && e.source == ConfigMapKey(v.configMapRef.value))
    {
      if v.isSecret { UnderSecretName(p, name, e); } else { UnderConfigMapName(p, name, e); }
    }
    if v.isSecret && v.secretRef.Some? {
      assert EnvVar(key, SecretKey(v.secretRef.value)) in p.list;
    } else if !v.isSecret && v.configMapRef.Some? {
      assert EnvVar(key, ConfigMapKey(v.configMapRef.value)) in p.list;
    }
  }

  function Max(m: nat, n: nat): nat { if m < n then n else m }

  lemma AsManyEnvRefs(secretEnvs: map<string, string>)
    ensures |EnvRefs(secretEnvs)| == |secretEnvs| && EnvRefs(secretEnvs).Keys == secretEnvs.Keys
  {
    assert EnvRefs(secretEnvs).Keys == secretEnvs.Keys;
    assert |EnvRefs(secretEnvs).Keys| == |EnvRefs(secretEnvs)| && |secretEnvs.Keys| == |secretEnvs|;
  }

  lemma SecretEnvIsPublished(p: Publication, i: nat)
    requires p.Valid() && 1 <= i <= |p.envOrder|
    ensures exists e :: e in p.list && e.name == Numbered(i)
  {
    var name := p.envOrder[i - 1];
    assert name in p.envOrder;
    var e := EnvVar(Numbered(i), SecretKey(p.Envs()[name]));
    assert e == EnvEntries(name, p.Envs()[name], i)[1];
    assert p.IsEnvEntry(e, i - 1);
    Origin(p, e);
  }

  lemma SecretRefIsPublished(p: Publication, i: nat)
    requires p.Valid() && 1 <= i <= |p.varOrder|
    ensures exists e :: e in p.list && e.name == Numbered(i)
  {
    var name := p.varOrder[i - 1];
    assert name in p.varOrder;
    var e := EnvVar(Numbered(i), SecretKey(p.Refs()[name]));
    assert e == VarEntries(name, p.Refs()[name], i)[1];
    assert p.IsVarEntry(e, i - 1);
    Origin(p, e);
  }

  lemma NumberIsSet(p: Publication, env: map<string, string>, lookup: Source -> string, i: nat)
    requires p.Valid() && p.NamesAreFree() && IsEnvironment(env, p, lookup) && i >= 1
    ensures Numbered(i) in env <==> i <= Max(|p.Envs()|, |p.Refs()|)
  {
    assert |p.Envs().Keys| == |p.Envs()| && |p.Refs().Keys| == |p.Refs()|;
    if i <= |p.Envs()| {
      SecretEnvIsPublished(p, i);
    } else if i <= |p.Refs()| {
      SecretRefIsPublished(p, i);
    } else if Numbered(i) in env {
      var e :| e in p.list && e.name == Numbered(i);
      NumberedEntryOnly(p, i, e);
    }
  }

  /**
   * The secret envs' round trip: of the numbered entries, whose count restarts at the variables, GetSecretEnvs returns
   * as many as the longer of the two series has; so all of them come back exactly when one of the series is empty.
   */
  lemma SecretEnvsRoundTripIff(p: Publication, env: map<string, string>, lookup: Source -> string, returned: nat)
    requires p.Valid() && p.NamesAreFree() && IsEnvironment(env, p, lookup)
    requires NumberedNames(returned) <= env.Keys && Numbered(returned + 1) !in env
    ensures returned == Max(|p.secretEnvs|, |p.Refs()|)
    ensures returned == |p.secretEnvs| + |p.Refs()| <==> p.secretEnvs == map[] || p.Refs() == map[]
  {
    AsManyEnvRefs(p.secretEnvs);
    NumberIsSet(p, env, lookup, returned + 1);
    if returned > 0 {
      assert Numbered(returned) in NumberedNames(returned);
      NumberIsSet(p, env, lookup, returned);
    }
  }

  /** Without secret references among the variables, every secret env comes back with its value. */
  lemma SecretEnvsComeBack(p: Publication, env: map<string, string>, lookup: Source -> string, i: nat)
    requires p.Valid() && p.NamesAreFree() && IsEnvironment(env, p, lookup) && p.Refs() == map[]
    requires 1 <= i <= |p.envOrder|
    ensures Numbered(i) in env && p.envOrder[i - 1] in p.secretEnvs
    ensures env[Numbered(i)] == lookup(SecretKey(Ref(p.secretEnvs[p.envOrder[i - 1]], p.envOrder[i - 1])))
  {
    assert |p.Envs().Keys| == |p.Envs()| && p.envOrder[i - 1] in p.envOrder;
    NumberIsSet(p, env, lookup, i);
    var e :| e in p.list && e.name == Numbered(i) && env[Numbered(i)] == lookup(e.source);
    NumberedEntryOnly(p, i, e);
  }
}
