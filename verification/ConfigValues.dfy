/**
  Which value is in force: what somebody set, the default, or what is computed
  from the settings before; at any moment of any run the saved value first, then
  the environment's.
 */
module ConfigValues {
  import opened Text
  import opened Wrappers
  import opened ConfigStore

  // ---------- the built values ----------

  /** What a setting that computes its value is shown: the values before it, and the zero values from it on. */
  ghost predicate ShownTo(schema: Schema, values: Items, k: nat, config: Items)
    requires k < |schema|
  {
    && config.Keys == Names(schema)
    && forall j :: 0 <= j < |schema| ==>
         Get(config, schema[j].name) == if j < k then Get(values, schema[j].name) else schema[j].zero
  }

  /** Setting k has the value it should have among these values. */
  ghost predicate Right(schema: Schema, b: Builder, values: Items, k: nat)
    requires k < |schema|
  {
    var name, value := schema[k].name, Get(values, schema[k].name);
    match schema[k].action
    case Optional => value == if name in b then Some(b[name]) else None
    case Default(v) => value == Some(if name in b then b[name] else v)
    case Auto(f) =>
      if name in b then value == Some(b[name]) else exists config :: ShownTo(schema, values, k, config) && value == Some(f(config))
    case Generated(f) => exists config :: ShownTo(schema, values, k, config) && value == Some(f(config))
  }

  ghost predicate AllRight(schema: Schema, b: Builder, values: Items) {
    values.Keys == Names(schema) && forall k :: 0 <= k < |schema| ==> Right(schema, b, values, k)
  }

  lemma {:induction false} ZeroValues(schema: Schema, k: nat)
    requires DistinctNames(schema)
    ensures Zero(schema).Keys == Names(schema)
    ensures k < |schema| ==> Get(Zero(schema), schema[k].name) == schema[k].zero
  {
    if schema != [] {
      var n := |schema| - 1;
      assert forall i :: 0 <= i < n ==> schema[..n][i] == schema[i];
      assert Names(schema) == Names(schema[..n]) + {schema[n].name};
      if k < n {
        ZeroValues(schema[..n], k);
        assert schema[k].name != schema[n].name;
      } else {
        ZeroValues(schema[..n], 0);
      }
    }
  }

  lemma {:induction false} NotYetBuilt(schema: Schema, b: Builder, n: nat, k: nat)
    requires DistinctNames(schema) && n <= |schema|
    ensures BuildUpTo(schema, b, n).Keys == Names(schema)
    ensures n <= k < |schema| ==> Get(BuildUpTo(schema, b, n), schema[k].name) == schema[k].zero
  {
    if n == 0 {
      ZeroValues(schema, k);
    } else {
      hide BuildOne;
      NotYetBuilt(schema, b, n - 1, k);
      assert schema[n - 1].name in Names(schema);
      if n <= k < |schema| {
        assert schema[k].name != schema[n - 1].name;
      }
    }
  }

  lemma ShownWhileBuilding(schema: Schema, b: Builder, k: nat)
    requires DistinctNames(schema) && k < |schema|
    ensures ShownTo(schema, BuildUpTo(schema, b, |schema|), k, BuildUpTo(schema, b, k))
  {
    hide BuildUpTo, BuildOne;
    NotYetBuilt(schema, b, k, k);
    forall j | 0 <= j < |schema|
      ensures Get(BuildUpTo(schema, b, k), schema[j].name)
        == if j < k then Get(BuildUpTo(schema, b, |schema|), schema[j].name) else schema[j].zero
    {
      if j < k {
        BuiltValue(schema, b, k, j);
        BuiltValue(schema, b, |schema|, j);
      } else {
        NotYetBuilt(schema, b, k, j);
      }
    }
  }

  lemma SameShown(schema: Schema, values: Items, k: nat, x: Items, y: Items)
    requires k < |schema| && ShownTo(schema, values, k, x) && ShownTo(schema, values, k, y)
    ensures x == y
  {
    forall name | name in x ensures x[name] == y[name] {
      assert name in Names(schema);
      var j :| 0 <= j < |schema| && schema[j].name == name;
      assert Get(x, schema[j].name) == Get(y, schema[j].name);
    }
  }

  /** The build loop finds values that are all right, given one another. */
  lemma BuildIsRight(schema: Schema, b: Builder)
    requires DistinctNames(schema)
    ensures AllRight(schema, b, BuildUpTo(schema, b, |schema|))
  {
    hide BuildUpTo, ShownTo;
    var values := BuildUpTo(schema, b, |schema|);
    NotYetBuilt(schema, b, |schema|, |schema|);
    forall k | 0 <= k < |schema| ensures Right(schema, b, values, k) {
      BuiltValue(schema, b, |schema|, k);
      ShownWhileBuilding(schema, b, k);
    }
  }

  /** And the only ones. */
  lemma OnlyOneRight(schema: Schema, b: Builder, values: Items)
    requires DistinctNames(schema) && AllRight(schema, b, values)
    ensures values == BuildUpTo(schema, b, |schema|)
  {
    var built := BuildUpTo(schema, b, |schema|);
    BuildIsRight(schema, b);
    hide BuildUpTo;
    forall name | name in values ensures values[name] == built[name] {
      assert name in Names(schema);
      var j :| 0 <= j < |schema| && schema[j].name == name;
      SameSoFar(schema, b, values, built, j + 1);
      assert Get(values, schema[j].name) == Get(built, schema[j].name);
    }
  }

  lemma {:induction false} SameSoFar(schema: Schema, b: Builder, x: Items, y: Items, n: nat)
    requires n <= |schema| && AllRight(schema, b, x) && AllRight(schema, b, y)
    ensures forall j :: 0 <= j < n ==> Get(x, schema[j].name) == Get(y, schema[j].name)
  {
    if n > 0 {
      var k := n - 1;
      SameSoFar(schema, b, x, y, k);
      assert Right(schema, b, x, k) && Right(schema, b, y, k);
      ShownAlike(schema, x, y, k);
    }
  }

  lemma ShownAlike(schema: Schema, x: Items, y: Items, k: nat)
    requires k < |schema| && forall j :: 0 <= j < k ==> Get(x, schema[j].name) == Get(y, schema[j].name)
    ensures forall c, d :: ShownTo(schema, x, k, c) && ShownTo(schema, y, k, d) ==> c == d
  {
    forall c, d | ShownTo(schema, x, k, c) && ShownTo(schema, y, k, d) ensures c == d {
      assert ShownTo(schema, x, k, d);
      SameShown(schema, x, k, c, d);
    }
  }

  // ---------- the configuration ----------

  /** The four settings the last touches concern. */
  predicate Touched(name: Name) {
    name in {"domain_set", "domain", "signups_domains_whitelist", "http_request_block_regex"}
  }

  /** The configuration holds the one assignment of right values, but for the last touches. */
  lemma BuildExact(schema: Schema, tidy: Tidy, b: Builder, values: Items)
    requires DistinctNames(schema) && AllRight(schema, b, values)
    ensures var c := Build(schema, tidy, b);
      && (forall name :: !Touched(name) ==> Get(c, name) == Get(values, name))
      && Get(c, "domain_set") == Some(Flag("domain" in b))
      && Get(c, "http_request_block_regex")
           == (if Get(values, "http_request_block_regex").Some? then Get(values, "http_request_block_regex") else Get(values, "icon_blacklist_regex"))
      && Get(c, "signups_domains_whitelist") == Mapped(Get(values, "signups_domains_whitelist"), tidy)
      && Cut(Get(values, "domain"), Get(c, "domain"))
  {
    OnlyOneRight(schema, b, values);
    hide BuildUpTo, TrimSlashes, AllRight, Cut;
    if Get(values, "domain").Some? && Get(values, "domain").value.Str? {
      CutAt(Get(values, "domain").value.text);
    } else {
      CutOther(Get(values, "domain"));
    }
  }

  function Mapped(v: Option<Value>, f: string -> string): Option<Value> {
    match v
    case Some(Str(text)) => Some(Str(f(text)))
    case _ => v
  }

  /** A text lost the slashes at its end, all of them and nothing else; anything else is the same. */
  ghost predicate Cut(before: Option<Value>, after: Option<Value>) {
    match before
    case Some(Str(text)) =>
      && after.Some? && after.value.Str? && after.value.text <= text
      && (after.value.text != "" ==> after.value.text[|after.value.text| - 1] != '/')
      && forall i :: |after.value.text| <= i < |text| ==> text[i] == '/'
    case _ => after == before
  }

  lemma CutOther(v: Option<Value>)
    requires v.None? || !v.value.Str?
    ensures Cut(v, v)
  {
  }

  lemma CutAt(text: string)
    ensures Cut(Some(Str(text)), Some(Str(TrimSlashes(text))))
  {
    TrimEndExact(text, '/');
  }

  /** What a setting that nothing computes and no last touch concerns is: the value given, else the default, else nothing. */
  lemma SettingExact(schema: Schema, tidy: Tidy, b: Builder, k: nat)
    requires DistinctNames(schema) && k < |schema| && !Touched(schema[k].name)
    ensures var value := Get(Build(schema, tidy, b), schema[k].name);
      && (!schema[k].action.Generated? && schema[k].name in b ==> value == Some(b[schema[k].name]))
      && (schema[k].action.Optional? && schema[k].name !in b ==> value == None)
      && (schema[k].action.Default? && schema[k].name !in b ==> value == Some(schema[k].action.value))
  {
    hide BuildUpTo, ShownTo;
    BuildIsRight(schema, b);
    assert Right(schema, b, BuildUpTo(schema, b, |schema|), k);
    BuildExact(schema, tidy, b, BuildUpTo(schema, b, |schema|));
  }

  // ---------- the value in force ----------

  /** In every state of every run: the saved value, else the environment's, else the default, else nothing. */
  lemma ValueInForce(r: Rules, env: Builder, file: Option<seq<Pair>>, states: seq<State>, ops: seq<Op>, io: seq<bool>, i: nat, k: nat)
    requires DistinctNames(r.schema) && WellKeyed(r, env) && Execution(r, env, file, states, ops, io) && i < |states|
    requires k < |r.schema| && !Touched(r.schema[k].name) && !r.schema[k].action.Generated?
    ensures var name, value := r.schema[k].name, Get(states[i].config, r.schema[k].name);
      if name in states[i].usr then value == Some(states[i].usr[name])
      else if name in env then value == Some(env[name])
      else if r.schema[k].action.Optional? then value == None
      else r.schema[k].action.Default? ==> value == Some(r.schema[k].action.value)
  {
    ReachableCoherent(r, env, file, states, ops, io, i);
    hide Execution, Build;
    SettingExact(r.schema, r.tidy, Merge(env, states[i].usr), k);
  }

  /** What an update saves: all it was given, or of that the editable settings. */
  ghost predicate Saves(schema: Schema, other: Builder, ignoreNonEditable: bool, usr: Builder) {
    && (forall name :: name in usr <==> name in other && (ignoreNonEditable ==> IsEditable(schema, name)))
    && (forall name :: name in usr ==> usr[name] == other[name])
  }

  predicate IsEditable(schema: Schema, name: Name) {
    forall j :: 0 <= j < |schema| && schema[j].name == name ==> schema[j].editable
  }

  /**
    An update that validation refuses changes nothing. Any other is in force and
    saved in memory, whether or not its write succeeds; if it does, the file
    holds what was saved.
   */
  lemma UpdateExact(r: Rules, s: State, other: Builder, ignore: bool, writeOk: bool) returns (usr: Builder)
    requires DistinctNames(r.schema) && WellKeyed(r, other)
    ensures Saves(r.schema, other, ignore, usr)
    ensures var (s', result) := Apply(r, s, Save(other, ignore), writeOk);
      var config := Build(r.schema, r.tidy, s.env + usr);
      && (result.Done? <==> r.valid(config, true) && writeOk)
      && (!r.valid(config, true) ==> s' == s)
      && (r.valid(config, true) ==> s'.usr == usr && s'.config == config && s'.env == s.env)
      && (r.valid(config, true) ==> if writeOk then SavedLayer(Names(r.schema), s'.file) == usr else s'.file == s.file)
  {
    usr := if ignore then Editable(r.schema, other) else other;
    EditableExact(r.schema, other);
    FileRoundTrip(r.schema, usr);
    hide Build, ToPairs, SavedLayer, Overrides, Editable;
  }

  /** A partial update is the update that sends what is saved with the new values over it, editable or not. */
  lemma PartialExact(r: Rules, s: State, other: Builder, writeOk: bool)
    ensures Apply(r, s, SavePart(other), writeOk) == Apply(r, s, Save(s.usr + other, false), writeOk)
  {
    hide Build, Overrides, ToPairs;
  }

  /** Deleting the saved configuration leaves the environment alone in force; if the file cannot be deleted nothing changes. */
  lemma ForgetExact(r: Rules, s: State, deleteOk: bool)
    ensures var (s', result) := Apply(r, s, Forget, deleteOk);
      && (result.Done? <==> deleteOk) && (!deleteOk ==> s' == s)
      && (deleteOk ==> s'.usr == map[] && s'.file == None && s'.env == s.env && s'.config == Build(r.schema, r.tidy, s.env) && s'.overrides == [])
  {
  }

  /** Start-up takes the environment and what the file sets, and fails exactly if the result is invalid and validation is on. */
  lemma LoadExact(r: Rules, env: Builder, file: Option<seq<Pair>>) returns (usr: Builder)
    ensures if file.None? || Repeats(Names(r.schema), file.value) then usr == map[]
      else forall name :: name in usr <==> Sets(Names(r.schema), file.value, name)
    ensures forall name :: name in usr ==> file.Some? && Pair(name, Some(usr[name])) in file.value
    ensures var config := Build(r.schema, r.tidy, env + usr);
      if r.skipValidation || r.valid(config, false)
      then Load(r, env, file) == Some(State(env, usr, config, Overrides(r.schema, env, usr), file))
      else Load(r, env, file).None?
  {
    hide Build, Repeats, Sets;
    usr := SavedLayer(Names(r.schema), file);
    if file.Some? {
      RefusedForRepetition(Names(r.schema), file.value);
    }
  }
}
