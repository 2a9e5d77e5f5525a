/**
  Layered configuration: values from the environment overridden by values the
  administrator saved, the configuration built from the two, and the saved
  file it is reloaded from. The table of settings is a parameter.
 */
module ConfigStore {
  import opened Text
  import opened Wrappers

  type Name = string

  datatype Value = Str(text: string) | Flag(on: bool) | Num(n: int)

  /** A configuration under construction: every setting has a slot, optional ones may stay empty. */
  type Items = map<Name, Option<Value>>

  /** A layer: the settings somebody gave a value. */
  type Builder = map<Name, Value>

  /** What happens to a setting nobody gave a value. */
  datatype Action = Optional | Default(value: Value) | Auto(compute: Items -> Value) | Generated(compute: Items -> Value)

  datatype Setting = Setting(name: Name, editable: bool, action: Action, zero: Option<Value>)

  type Schema = seq<Setting>

  /** Names occur once. */
  ghost predicate DistinctNames(schema: Schema) {
    forall i, j :: 0 <= i < j < |schema| ==> schema[i].name != schema[j].name
  }

  function Names(schema: Schema): set<Name> { set i | 0 <= i < |schema| :: schema[i].name }

  // ---------- layers ----------

  /** If both layers set a name, the second wins. */
  function Merge(a: Builder, b: Builder): Builder { a + b }

  /** The names set in both layers, in the order of the table. */
  function Overrides(schema: Schema, a: Builder, b: Builder): seq<Name> {
    if schema == [] then [] else
    var n := |schema| - 1;
    Overrides(schema[..n], a, b) + (if schema[n].name in a && schema[n].name in b then [schema[n].name] else [])
  }

  function Editable(schema: Schema, b: Builder): Builder {
    b - set i | 0 <= i < |schema| && !schema[i].editable :: schema[i].name
  }

  // ---------- building ----------

  function BuildOne(s: Setting, b: Builder, config: Items): Option<Value> {
    match s.action
    case Optional => if s.name in b then Some(b[s.name]) else None
    case Default(v) => Some(if s.name in b then b[s.name] else v)
    case Auto(f) => Some(if s.name in b then b[s.name] else f(config))
    case Generated(f) => Some(f(config))
  }

  function Zero(schema: Schema): Items {
    if schema == [] then map[] else
    var n := |schema| - 1;
    Zero(schema[..n])[schema[n].name := schema[n].zero]
  }

  /** The settings one after the other; each sees the ones before it, and the zero values of those after. */
  function BuildUpTo(schema: Schema, b: Builder, n: nat): Items
    requires n <= |schema|
  {
    if n == 0 then Zero(schema) else
    var config := BuildUpTo(schema, b, n - 1);
    config[schema[n - 1].name := BuildOne(schema[n - 1], b, config)]
  }

  function TrimSlashes(s: string): string { TrimEnd(s, '/') }

  /** Trimming and lowercasing as the standard library does it. */
  type Tidy = string -> string

  function OnText(v: Option<Value>, f: string -> string): Option<Value> {
    if v.Some? && v.value.Str? then Some(Str(f(v.value.text))) else v
  }

  function Get(config: Items, name: Name): Option<Value> { if name in config then config[name] else None }

  /** The last touches: the domain flag and spelling, the whitelist, and a deprecated setting. */
  function Finish(tidy: Tidy, config: Items, domainSet: bool): Items {
    var c1 := config["domain_set" := Some(Flag(domainSet))];
    var c2 := c1["domain" := OnText(Get(c1, "domain"), TrimSlashes)];
    var c3 := c2["signups_domains_whitelist" := OnText(Get(c2, "signups_domains_whitelist"), tidy)];
    if Get(c3, "http_request_block_regex").None? then c3["http_request_block_regex" := Get(c3, "icon_blacklist_regex")] else c3
  }

  function Build(schema: Schema, tidy: Tidy, b: Builder): Items {
    Finish(tidy, BuildUpTo(schema, b, |schema|), "domain" in b)
  }

  // ---------- the saved file ----------

  datatype Pair = Pair(name: Name, value: Option<Value>)

  function ToPairs(schema: Schema, b: Builder): seq<Pair> {
    if schema == [] then [] else
    var n := |schema| - 1;
    ToPairs(schema[..n], b) + (if schema[n].name in b then [Pair(schema[n].name, Some(b[schema[n].name]))] else [])
  }

  /** Unknown names are skipped, null leaves a setting unset, and a name already set is an error. */
  function FromPairs(known: set<Name>, pairs: seq<Pair>): (r: Option<Builder>)
    ensures r.Some? ==> r.value.Keys <= known
  {
    if pairs == [] then Some(map[]) else
    var p := pairs[|pairs| - 1];
    match FromPairs(known, pairs[..|pairs| - 1])
    case None => None
    case Some(b) =>
      if p.name !in known then Some(b)
      else if p.name in b then None
      else Some(if p.value.Some? then b[p.name := p.value.value] else b)
  }

  /** A missing or unreadable file counts as one that sets nothing. */
  function SavedLayer(known: set<Name>, file: Option<seq<Pair>>): Builder {
    match file
    case None => map[]
    case Some(pairs) => match FromPairs(known, pairs)
      case None => map[]
      case Some(b) => b
  }

  // ---------- the running configuration ----------

  /** The table, the text tidying, and the validation, which is asked differently at start-up and on updates. */
  datatype Rules = Rules(schema: Schema, tidy: Tidy, valid: (Items, bool) -> bool, skipValidation: bool)

  datatype State = State(env: Builder, usr: Builder, config: Items, overrides: seq<Name>, file: Option<seq<Pair>>)

  datatype Result = Done | Failed

  function Load(r: Rules, env: Builder, file: Option<seq<Pair>>): Option<State> {
    var usr := SavedLayer(Names(r.schema), file);
    var config := Build(r.schema, r.tidy, Merge(env, usr));
    if r.skipValidation || r.valid(config, false) then Some(State(env, usr, config, Overrides(r.schema, env, usr), file)) else None
  }

  /** Memory is changed before the file is written; a failed write leaves the old file. */
  function Update(r: Rules, s: State, other: Builder, ignoreNonEditable: bool, writeOk: bool): (State, Result) {
    var usr := if ignoreNonEditable then Editable(r.schema, other) else other;
    var config := Build(r.schema, r.tidy, Merge(s.env, usr));
    if !r.valid(config, true) then (s, Failed) else
    var s' := s.(usr := usr, config := config, overrides := Overrides(r.schema, s.env, usr));
    if writeOk then (s'.(file := Some(ToPairs(r.schema, usr))), Done) else (s', Failed)
  }

  function UpdatePartial(r: Rules, s: State, other: Builder, writeOk: bool): (State, Result) {
    Update(r, s, Merge(s.usr, other), false, writeOk)
  }

  /** The file goes first; without it there is nothing to validate, and nothing is validated. */
  function DeleteUserConfig(r: Rules, s: State, deleteOk: bool): (State, Result) {
    if !deleteOk then (s, Failed)
    else (s.(usr := map[], config := Build(r.schema, r.tidy, s.env), overrides := [], file := None), Done)
  }

  datatype Op =
    | Save(other: Builder, ignoreNonEditable: bool)
    | SavePart(other: Builder)
    | Forget

  function Apply(r: Rules, s: State, op: Op, ioOk: bool): (State, Result) {
    match op
    case Save(other, ignore) => Update(r, s, other, ignore, ioOk)
    case SavePart(other) => UpdatePartial(r, s, other, ioOk)
    case Forget => DeleteUserConfig(r, s, ioOk)
  }

  // ---------- the file round trip ----------

  lemma {:induction false} ToPairsNames(schema: Schema, b: Builder)
    ensures forall p :: p in ToPairs(schema, b) ==> p.name in Names(schema)
  {
    if schema != [] {
      var n := |schema| - 1;
      ToPairsNames(schema[..n], b);
      assert forall i :: 0 <= i < n ==> schema[..n][i] == schema[i];
      assert Names(schema[..n]) <= Names(schema);
      assert schema[n].name in Names(schema);
    }
  }

  lemma FromPairsSnoc(known: set<Name>, pairs: seq<Pair>, p: Pair)
    ensures FromPairs(known, pairs + [p]) ==
      match FromPairs(known, pairs)
      case None => None
      case Some(b) =>
        if p.name !in known then Some(b)
        else if p.name in b then None
        else Some(if p.value.Some? then b[p.name := p.value.value] else b)
  {
    assert (pairs + [p])[..|pairs|] == pairs;
  }

  /** The part of a layer that concerns the first settings of the table. */
  function Restrict(b: Builder, names: set<Name>): Builder { map n | n in b && n in names :: b[n] }

  lemma RestrictAdd(b: Builder, names: set<Name>, name: Name)
    ensures Restrict(b, names + {name}) == if name in b then Restrict(b, names)[name := b[name]] else Restrict(b, names)
  {
  }

  lemma {:induction false} FromToPairs(known: set<Name>, schema: Schema, b: Builder)
    requires DistinctNames(schema) && Names(schema) <= known
    ensures FromPairs(known, ToPairs(schema, b)) == Some(Restrict(b, Names(schema)))
  {
    if schema == [] {
      assert Restrict(b, Names(schema)) == map[];
    } else {
      var n := |schema| - 1;
      var front, last := schema[..n], schema[n];
      assert forall i :: 0 <= i < n ==> front[i] == schema[i];
      assert Names(schema) == Names(front) + {last.name};
      assert last.name !in Names(front);
      FromToPairs(known, front, b);
      RestrictAdd(b, Names(front), last.name);
      assert last.name !in Restrict(b, Names(front));
      hide Restrict, Names;
      if last.name in b {
        FromPairsSnoc(known, ToPairs(front, b), Pair(last.name, Some(b[last.name])));
      } else {
        assert ToPairs(schema, b) == ToPairs(front, b);
      }
    }
  }

  /** What is saved is what is read back. */
  lemma FileRoundTrip(schema: Schema, b: Builder)
    requires DistinctNames(schema) && b.Keys <= Names(schema)
    ensures SavedLayer(Names(schema), Some(ToPairs(schema, b))) == b
  {
    FromToPairs(Names(schema), schema, b);
    assert Restrict(b, Names(schema)) == b;
  }

  /** A known name occurs again after it was given a value. */
  ghost predicate Repeats(known: set<Name>, pairs: seq<Pair>) {
    exists i, j :: 0 <= i < j < |pairs| && pairs[i].name == pairs[j].name && pairs[i].name in known && pairs[i].value.Some?
  }

  ghost predicate Sets(known: set<Name>, pairs: seq<Pair>, name: Name) {
    name in known && exists i :: 0 <= i < |pairs| && pairs[i].name == name && pairs[i].value.Some?
  }

  lemma RepetitionStep(known: set<Name>, pairs: seq<Pair>)
    requires pairs != []
    ensures var n := |pairs| - 1;
      && (Repeats(known, pairs) <==> Repeats(known, pairs[..n]) || Sets(known, pairs[..n], pairs[n].name))
      && (forall name :: Sets(known, pairs, name) <==>
            Sets(known, pairs[..n], name) || (name == pairs[n].name && name in known && pairs[n].value.Some?))
  {
    var n := |pairs| - 1;
    var front := pairs[..n];
    assert forall i :: 0 <= i < n ==> front[i] == pairs[i];
  }

  /**
    A hand-edited file is refused as a whole exactly when it repeats a known
    name that has a value; otherwise it sets exactly the known names it gives a
    value, to that value.
   */
  lemma {:induction false} RefusedForRepetition(known: set<Name>, pairs: seq<Pair>)
    ensures FromPairs(known, pairs).None? <==> Repeats(known, pairs)
    ensures FromPairs(known, pairs).Some? ==>
      forall name :: name in FromPairs(known, pairs).value <==> Sets(known, pairs, name)
    ensures FromPairs(known, pairs).Some? ==>
      forall name :: name in FromPairs(known, pairs).value ==> Pair(name, Some(FromPairs(known, pairs).value[name])) in pairs
  {
    if pairs != [] {
      RefusedForRepetition(known, pairs[..|pairs| - 1]);
      RepetitionStep(known, pairs);
      hide Repeats, Sets;
      assert pairs == pairs[..|pairs| - 1] + [pairs[|pairs| - 1]];
    }
  }

  // ---------- layers ----------

  lemma MergeAssociative(a: Builder, b: Builder, c: Builder)
    ensures Merge(Merge(a, b), c) == Merge(a, Merge(b, c))
  {
  }

  /** A name is reported as overridden exactly when both layers set it. */
  lemma {:induction false} OverridesExact(schema: Schema, a: Builder, b: Builder, name: Name)
    ensures name in Overrides(schema, a, b) <==> name in Names(schema) && name in a && name in b
  {
    if schema != [] {
      var n := |schema| - 1;
      OverridesExact(schema[..n], a, b, name);
      assert forall i :: 0 <= i < n ==> schema[..n][i] == schema[i];
      assert Names(schema) == Names(schema[..n]) + {schema[n].name};
    }
  }

  /** The report of a table begins with the report of its beginning: names come in table order. */
  lemma {:induction false} OverridesInOrder(schema: Schema, a: Builder, b: Builder, k: nat)
    requires k <= |schema|
    ensures Overrides(schema[..k], a, b) <= Overrides(schema, a, b)
  {
    if k == |schema| {
      assert schema[..k] == schema;
    } else {
      var n := |schema| - 1;
      OverridesInOrder(schema[..n], a, b, k);
      assert schema[..n][..k] == schema[..k];
    }
  }

  // ---------- coherence ----------

  ghost predicate WellKeyed(r: Rules, b: Builder) { b.Keys <= Names(r.schema) }

  /** Memory: the configuration and the override list are those of the two layers. */
  ghost predicate MemoryCoherent(r: Rules, s: State) {
    && WellKeyed(r, s.env) && WellKeyed(r, s.usr)
    && s.config == Build(r.schema, r.tidy, Merge(s.env, s.usr))
    && s.overrides == Overrides(r.schema, s.env, s.usr)
  }

  /** The file holds the user layer. */
  ghost predicate FileCoherent(r: Rules, s: State) { SavedLayer(Names(r.schema), s.file) == s.usr }

  ghost predicate WellFormed(r: Rules, op: Op) { !op.Forget? ==> WellKeyed(r, op.other) }

  lemma {:induction false} NoOverrides(schema: Schema, a: Builder)
    ensures Overrides(schema, a, map[]) == []
  {
    if schema != [] {
      NoOverrides(schema[..|schema| - 1], a);
    }
  }

  lemma LoadCoherent(r: Rules, env: Builder, file: Option<seq<Pair>>)
    requires WellKeyed(r, env) && Load(r, env, file).Some?
    ensures MemoryCoherent(r, Load(r, env, file).value) && FileCoherent(r, Load(r, env, file).value)
    ensures Load(r, env, file).value.env == env
  {
  }

  lemma UpdateCoherent(r: Rules, s: State, other: Builder, ignore: bool, ioOk: bool)
    requires DistinctNames(r.schema) && MemoryCoherent(r, s) && WellKeyed(r, other)
    ensures var (s', result) := Update(r, s, other, ignore, ioOk);
      && MemoryCoherent(r, s') && s'.env == s.env
      && (ioOk && FileCoherent(r, s) ==> FileCoherent(r, s'))
      && (result.Done? ==> FileCoherent(r, s'))
  {
    hide Build, SavedLayer, ToPairs, Overrides, Editable;
    EditableKnown(r, other);
    FileRoundTrip(r.schema, if ignore then Editable(r.schema, other) else other);
  }

  lemma EditableKnown(r: Rules, other: Builder)
    requires WellKeyed(r, other)
    ensures WellKeyed(r, Editable(r.schema, other))
  {
  }

  /** Every operation keeps memory coherent, whether its write succeeds or not; a successful one makes the file agree. */
  lemma ApplyCoherent(r: Rules, s: State, op: Op, ioOk: bool)
    requires DistinctNames(r.schema) && MemoryCoherent(r, s) && WellFormed(r, op)
    ensures var (s', result) := Apply(r, s, op, ioOk);
      && MemoryCoherent(r, s') && s'.env == s.env
      && (ioOk && FileCoherent(r, s) ==> FileCoherent(r, s'))
      && (result.Done? ==> FileCoherent(r, s'))
  {
    hide Build, FromPairs, ToPairs, Overrides, Update;
    match op
    case Forget =>
      NoOverrides(r.schema, s.env);
      assert Merge(s.env, map[]) == s.env;
    case Save(other, ignore) => UpdateCoherent(r, s, other, ignore, ioOk);
    case SavePart(other) => UpdateCoherent(r, s, Merge(s.usr, other), false, ioOk);
  }

  /** Exactly when an operation leaves the file behind: an update accepted in memory whose write failed and was not a repetition. */
  lemma FileLeftBehind(r: Rules, s: State, op: Op, ioOk: bool)
    requires DistinctNames(r.schema) && MemoryCoherent(r, s) && FileCoherent(r, s) && WellFormed(r, op)
    ensures FileCoherent(r, Apply(r, s, op, ioOk).0) <==> ioOk || Apply(r, s, op, ioOk).0.usr == s.usr
  {
    hide Build, FromPairs, ToPairs;
    ApplyCoherent(r, s, op, ioOk);
  }

  /** A run from start-up; the environment is read once. */
  ghost predicate Execution(r: Rules, env: Builder, file: Option<seq<Pair>>, states: seq<State>, ops: seq<Op>, io: seq<bool>) {
    && |states| == |ops| + 1 && |io| == |ops|
    && Load(r, env, file) == Some(states[0])
    && forall i {:trigger ops[i]} :: 0 <= i < |ops| ==> WellFormed(r, ops[i]) && states[i + 1] == Apply(r, states[i], ops[i], io[i]).0
  }

  lemma {:induction false} ReachableCoherent(r: Rules, env: Builder, file: Option<seq<Pair>>, states: seq<State>, ops: seq<Op>, io: seq<bool>, i: nat)
    requires DistinctNames(r.schema) && WellKeyed(r, env) && Execution(r, env, file, states, ops, io) && i < |states|
    ensures MemoryCoherent(r, states[i]) && states[i].env == env
    ensures (forall j :: 0 <= j < i ==> io[j]) ==> FileCoherent(r, states[i])
  {
    if i == 0 {
      LoadCoherent(r, env, file);
    } else {
      hide Apply, MemoryCoherent, FileCoherent, Load;
      ReachableCoherent(r, env, file, states, ops, io, i - 1);
      assert WellFormed(r, ops[i - 1]);
      ApplyCoherent(r, states[i - 1], ops[i - 1], io[i - 1]);
    }
  }

  // ---------- restart ----------

  /** An update accepts no configuration that a start-up would refuse. */
  ghost predicate Stricter(r: Rules) {
    forall c :: r.valid(c, true) ==> r.valid(c, false)
  }

  /**
    After any run whose writes succeeded, a restart in the same environment
    starts exactly when the running configuration passes start-up validation,
    and then with the same layers, configuration and overrides.
   */
  lemma RestartIsTheSame(r: Rules, env: Builder, file: Option<seq<Pair>>, states: seq<State>, ops: seq<Op>, io: seq<bool>, i: nat)
    requires DistinctNames(r.schema) && WellKeyed(r, env) && Execution(r, env, file, states, ops, io) && i < |states|
    requires forall j :: 0 <= j < i ==> io[j]
    ensures Load(r, env, states[i].file) ==
      if r.skipValidation || r.valid(states[i].config, false) then Some(states[i]) else None
  {
    hide Build, FromPairs, Overrides, Execution;
    ReachableCoherent(r, env, file, states, ops, io, i);
  }

  /** Step k deleted the saved configuration, the environment alone is invalid, and the configuration has stayed what step k made it. */
  ghost predicate LeftByDeletion(r: Rules, env: Builder, states: seq<State>, ops: seq<Op>, io: seq<bool>, k: int, i: nat)
    requires |states| == |ops| + 1 && |io| == |ops| && i < |states|
  {
    && 0 <= k < i && ops[k].Forget? && io[k]
    && !r.valid(Build(r.schema, r.tidy, env), false)
    && forall m :: k < m <= i ==> states[m].config == Build(r.schema, r.tidy, env)
  }

  /** A step leaves the configuration alone, or makes a valid one, or deletes the saved configuration. */
  lemma StepIsChecked(r: Rules, s: State, op: Op, ioOk: bool)
    requires DistinctNames(r.schema) && Stricter(r) && !r.skipValidation && MemoryCoherent(r, s) && WellFormed(r, op)
    ensures var s' := Apply(r, s, op, ioOk).0;
      if op.Forget? && ioOk then s'.config == Build(r.schema, r.tidy, s.env)
      else s'.config == s.config || r.valid(s'.config, false)
  {
    hide Build, Overrides, ToPairs, FromPairs;
  }

  /**
    In any run, writes failing or not, a configuration that start-up would
    refuse is one that some deletion of the saved configuration left and that
    nothing has changed since: validation on updates is the stricter one.
   */
  lemma {:induction false} RefusedOnlyAfterDeletion(r: Rules, env: Builder, file: Option<seq<Pair>>, states: seq<State>, ops: seq<Op>, io: seq<bool>, i: nat)
    returns (k: int)
    requires DistinctNames(r.schema) && WellKeyed(r, env) && Execution(r, env, file, states, ops, io) && i < |states|
    requires Stricter(r) && !r.skipValidation && !r.valid(states[i].config, false)
    ensures LeftByDeletion(r, env, states, ops, io, k, i)
  {
    hide Build, Overrides, Apply, MemoryCoherent, WellKeyed, DistinctNames;
    assert i > 0;
    var n := i - 1;
    assert WellFormed(r, ops[n]);
    ReachableCoherent(r, env, file, states, ops, io, n);
    StepIsChecked(r, states[n], ops[n], io[n]);
    if ops[n].Forget? && io[n] {
      k := n;
    } else {
      assert states[i].config == states[n].config;
      k := RefusedOnlyAfterDeletion(r, env, file, states, ops, io, n);
    }
  }

  /** Deleting the saved configuration is not validated: it succeeds even if the environment alone would not start. */
  lemma ForgetIsUnchecked(r: Rules, s: State)
    ensures var (s', result) := DeleteUserConfig(r, s, true);
      result.Done? && (Load(r, s.env, s'.file).Some? <==> r.skipValidation || r.valid(Build(r.schema, r.tidy, s.env), false))
  {
    assert Merge(s.env, map[]) == s.env;
  }

  // ---------- what an update changes ----------

  /** A partial update is the new layer on top of everything, and leaves the other saved values alone. */
  lemma PartialIsOneMoreLayer(r: Rules, s: State, other: Builder, writeOk: bool)
    requires UpdatePartial(r, s, other, writeOk).0 != s
    ensures var s' := UpdatePartial(r, s, other, writeOk).0;
      && s'.usr == s.usr + other
      && s'.config == Build(r.schema, r.tidy, Merge(Merge(s.env, s.usr), other))
  {
    hide Build, Overrides, ToPairs;
    MergeAssociative(s.env, s.usr, other);
  }

  /** What the last touches make of a setting follows from what was built for it, but for the flag and the fallback. */
  lemma FinishFrom(tidy: Tidy, c: Items, cSet: bool, d: Items, dSet: bool, name: Name)
    requires if name == "domain_set" then cSet == dSet else Get(c, name) == Get(d, name)
    requires name == "http_request_block_regex" ==>
      Get(Finish(tidy, c, cSet), "icon_blacklist_regex") == Get(Finish(tidy, d, dSet), "icon_blacklist_regex")
    ensures Get(Finish(tidy, c, cSet), name) == Get(Finish(tidy, d, dSet), name)
  {
  }

  /** The flag says whether the domain was set by anybody, not what it is. */
  lemma DomainSetExact(schema: Schema, tidy: Tidy, a: Builder, b: Builder)
    ensures Get(Build(schema, tidy, a), "domain_set") == Get(Build(schema, tidy, b), "domain_set")
       <==> ("domain" in a <==> "domain" in b)
  {
    hide BuildUpTo;
  }

  /** Position k of the table decides its own setting, and later ones do not touch it. */
  lemma {:induction false} BuiltValue(schema: Schema, b: Builder, n: nat, k: nat)
    requires DistinctNames(schema) && k < n <= |schema|
    ensures Get(BuildUpTo(schema, b, n), schema[k].name) == BuildOne(schema[k], b, BuildUpTo(schema, b, k))
    decreases n
  {
    if k < n - 1 {
      BuiltValue(schema, b, n - 1, k);
      assert schema[k].name != schema[n - 1].name;
    }
  }

  /** Two layers that build the first settings of the table alike. */
  ghost predicate SameUpTo(schema: Schema, a: Builder, b: Builder, n: nat)
    requires n <= |schema|
  {
    forall j :: 0 <= j < n ==>
      Get(BuildUpTo(schema, a, |schema|), schema[j].name) == Get(BuildUpTo(schema, b, |schema|), schema[j].name)
  }

  lemma BuildSnoc(schema: Schema, b: Builder, n: nat)
    requires 0 < n <= |schema|
    ensures BuildUpTo(schema, b, n) ==
      BuildUpTo(schema, b, n - 1)[schema[n - 1].name := BuildOne(schema[n - 1], b, BuildUpTo(schema, b, n - 1))]
  {
  }

  lemma {:induction false} SamePrefix(schema: Schema, a: Builder, b: Builder, n: nat)
    requires DistinctNames(schema) && n <= |schema| && SameUpTo(schema, a, b, n)
    ensures BuildUpTo(schema, a, n) == BuildUpTo(schema, b, n)
  {
    if n == 0 {
      assert BuildUpTo(schema, a, 0) == Zero(schema) == BuildUpTo(schema, b, 0);
    } else {
      hide BuildOne, BuildUpTo;
      SamePrefix(schema, a, b, n - 1);
      BuildSnoc(schema, a, n);
      BuildSnoc(schema, b, n);
      BuiltValue(schema, a, |schema|, n - 1);
      BuiltValue(schema, b, |schema|, n - 1);
    }
  }

  predicate Plain(s: Setting) { s.action.Optional? || s.action.Default? }

  /** What building a setting looks at: its own entry, unless it is always generated, and the settings before it, unless it is plain. */
  ghost predicate SameInputs(schema: Schema, a: Builder, b: Builder, k: nat)
    requires k < |schema|
  {
    var name := schema[k].name;
    && (schema[k].action.Generated? || ((name in a <==> name in b) && (name in a ==> a[name] == b[name])))
    && (Plain(schema[k]) || SameUpTo(schema, a, b, k))
  }

  lemma BuiltFromInputs(schema: Schema, a: Builder, b: Builder, k: nat)
    requires DistinctNames(schema) && k < |schema| && SameInputs(schema, a, b, k)
    ensures Get(BuildUpTo(schema, a, |schema|), schema[k].name) == Get(BuildUpTo(schema, b, |schema|), schema[k].name)
  {
    hide BuildUpTo;
    BuiltValue(schema, a, |schema|, k);
    BuiltValue(schema, b, |schema|, k);
    if !Plain(schema[k]) {
      SamePrefix(schema, a, b, k);
    }
  }

  /**
    Two layers give a setting the same value if they agree on what building it
    looks at; the request filter looks at the deprecated setting it falls back
    to as well. The flag looks at nothing but whether the domain is named.
   */
  lemma ComputedFromEarlier(schema: Schema, tidy: Tidy, a: Builder, b: Builder, k: nat)
    requires DistinctNames(schema) && k < |schema|
    requires if schema[k].name == "domain_set" then "domain" in a <==> "domain" in b else SameInputs(schema, a, b, k)
    requires schema[k].name == "http_request_block_regex" ==>
      Get(Build(schema, tidy, a), "icon_blacklist_regex") == Get(Build(schema, tidy, b), "icon_blacklist_regex")
    ensures Get(Build(schema, tidy, a), schema[k].name) == Get(Build(schema, tidy, b), schema[k].name)
  {
    hide BuildUpTo, Finish, SameInputs;
    if schema[k].name != "domain_set" {
      BuiltFromInputs(schema, a, b, k);
    }
    FinishFrom(tidy, BuildUpTo(schema, a, |schema|), "domain" in a, BuildUpTo(schema, b, |schema|), "domain" in b, schema[k].name);
  }

  /** A layer that names none of the first settings leaves what is built for them alone, whatever their kind. */
  lemma {:induction false} UnnamedPrefix(schema: Schema, b: Builder, other: Builder, n: nat)
    requires DistinctNames(schema) && n <= |schema| && forall j :: 0 <= j < n ==> schema[j].name !in other
    ensures BuildUpTo(schema, Merge(b, other), n) == BuildUpTo(schema, b, n)
  {
    if n > 0 {
      UnnamedPrefix(schema, b, other, n - 1);
      assert schema[n - 1].name !in other;
    }
  }

  /**
    What a partial update can change: a plain setting only by naming it, an
    automatic or generated one only by naming it or one before it in the
    table, and the request filter also through the deprecated setting it falls
    back to; the flag only by naming the domain.
   */
  lemma PartialChangesOnly(r: Rules, s: State, other: Builder, writeOk: bool, k: nat)
    requires DistinctNames(r.schema) && MemoryCoherent(r, s) && k < |r.schema|
    requires if r.schema[k].name == "domain_set" then "domain" !in other else
      r.schema[k].name !in other && (Plain(r.schema[k]) || forall j :: 0 <= j < k ==> r.schema[j].name !in other)
    requires r.schema[k].name == "http_request_block_regex" ==>
      Get(UpdatePartial(r, s, other, writeOk).0.config, "icon_blacklist_regex") == Get(s.config, "icon_blacklist_regex")
    ensures Get(UpdatePartial(r, s, other, writeOk).0.config, r.schema[k].name) == Get(s.config, r.schema[k].name)
  {
    hide Build, BuildUpTo;
    var old_ := Merge(s.env, s.usr);
    MergeAssociative(s.env, s.usr, other);
    if !Plain(r.schema[k]) && r.schema[k].name != "domain_set" {
      UnnamedBefore(r.schema, old_, other, k);
    }
    if UpdatePartial(r, s, other, writeOk).0.config != s.config {
      ComputedFromEarlier(r.schema, r.tidy, Merge(old_, other), old_, k);
    }
  }

  lemma UnnamedBefore(schema: Schema, b: Builder, other: Builder, k: nat)
    requires DistinctNames(schema) && k < |schema| && forall j :: 0 <= j < k ==> schema[j].name !in other
    ensures SameUpTo(schema, Merge(b, other), b, k)
  {
    forall j | 0 <= j < k
      ensures Get(BuildUpTo(schema, Merge(b, other), |schema|), schema[j].name) == Get(BuildUpTo(schema, b, |schema|), schema[j].name)
    {
      UnnamedPrefix(schema, b, other, j);
      BuiltValue(schema, b, |schema|, j);
      BuiltValue(schema, Merge(b, other), |schema|, j);
    }
  }

  lemma EditableExact(schema: Schema, b: Builder)
    requires DistinctNames(schema)
    ensures forall name :: name in Editable(schema, b) <==>
      name in b && forall i :: 0 <= i < |schema| && schema[i].name == name ==> schema[i].editable
    ensures forall name :: name in Editable(schema, b) ==> Editable(schema, b)[name] == b[name]
  {
  }

  /**
    An update from the admin page replaces the saved layer by its editable
    part: a saved value of a non-editable setting is gone after any such
    update, even one that repeats it.
   */
  lemma AdminUpdateForgets(r: Rules, s: State, other: Builder, writeOk: bool, k: nat)
    requires DistinctNames(r.schema) && k < |r.schema| && !r.schema[k].editable
    requires Update(r, s, other, true, writeOk).1.Done?
    ensures r.schema[k].name !in Update(r, s, other, true, writeOk).0.usr
    ensures Update(r, s, other, true, writeOk).0.usr == other <==>
      forall i :: 0 <= i < |r.schema| && !r.schema[i].editable ==> r.schema[i].name !in other
  {
    hide Build, Overrides, ToPairs;
    EditableExact(r.schema, other);
  }

  // ---------- the configuration object ----------

  class Config {
    const rules: Rules
    const env: Builder
    var usr: Builder
    var config: Items
    var overrides: seq<Name>
    var file: Option<seq<Pair>>

    function Snapshot(): State
      reads this
    {
      State(env, usr, config, overrides, file)
    }

    /** A configuration that start-up accepted. */
    constructor (rules: Rules, env: Builder, file: Option<seq<Pair>>)
      requires Load(rules, env, file).Some?
      ensures this.rules == rules && Load(rules, env, file) == Some(Snapshot())
    {
      this.rules, this.env, this.file := rules, env, file;
      usr := SavedLayer(Names(rules.schema), file);
      config := Build(rules.schema, rules.tidy, Merge(env, SavedLayer(Names(rules.schema), file)));
      overrides := Overrides(rules.schema, env, SavedLayer(Names(rules.schema), file));
    }

    /** Field by field: a value of `b` replaces one of `a` and is reported. */
    static method MergeLayers(schema: Schema, a: Builder, b: Builder) returns (merged: Builder, reported: seq<Name>)
      requires b.Keys <= Names(schema)
      ensures merged == Merge(a, b) && reported == Overrides(schema, a, b)
    {
      hide Restrict, Names;
      merged, reported := a, [];
      MergeNothing(schema, a, b);
      for i := 0 to |schema|
        invariant merged == Merge(a, Restrict(b, Names(schema[..i])))
        invariant reported == Overrides(schema[..i], a, b)
      {
        var name := schema[i].name;
        assert schema[..i + 1][..i] == schema[..i];
        NamesSnoc(schema, i);
        if name in b {
          merged := merged[name := b[name]];
          if name in a {
            reported := reported + [name];
          }
        }
        MergeSnoc(a, b, Names(schema[..i]), name);
      }
      assert schema[..|schema|] == schema;
      RestrictAll(b, Names(schema));
    }

    static method BuildItems(schema: Schema, tidy: Tidy, b: Builder) returns (items: Items)
      ensures items == Build(schema, tidy, b)
    {
      items := Zero(schema);
      for i := 0 to |schema|
        invariant items == BuildUpTo(schema, b, i)
      {
        items := items[schema[i].name := BuildOne(schema[i], b, items)];
      }
      items := Finish(tidy, items, "domain" in b);
    }

    static method ClearNonEditable(schema: Schema, b: Builder) returns (kept: Builder)
      ensures kept == Editable(schema, b)
    {
      kept := b;
      ghost var gone: set<Name> := {};
      for i := 0 to |schema|
        invariant gone == set j | 0 <= j < i && !schema[j].editable :: schema[j].name
        invariant kept == b - gone
      {
        if !schema[i].editable {
          kept := kept - {schema[i].name};
          gone := gone + {schema[i].name};
        }
      }
    }

    method UpdateConfig(other: Builder, ignoreNonEditable: bool, writeOk: bool) returns (result: Result)
      requires WellKeyed(rules, other)
      modifies this
      ensures (Snapshot(), result) == Update(rules, old(Snapshot()), other, ignoreNonEditable, writeOk)
    {
      hide Build, Overrides, Editable, ToPairs;
      var builder := other;
      EditableKnown(rules, other);
      if ignoreNonEditable {
        builder := ClearNonEditable(rules.schema, builder);
      }
      var serialized := ToPairs(rules.schema, builder);
      var merged, reported := MergeLayers(rules.schema, env, builder);
      var items := BuildItems(rules.schema, rules.tidy, merged);
      if !rules.valid(items, true) {
        return Failed;
      }
      config := items;
      usr := builder;
      overrides := reported;
      if !writeOk {
        return Failed;
      }
      file := Some(serialized);
      return Done;
    }

    method UpdateConfigPartial(other: Builder, writeOk: bool) returns (result: Result)
      requires WellKeyed(rules, other) && WellKeyed(rules, usr)
      modifies this
      ensures (Snapshot(), result) == UpdatePartial(rules, old(Snapshot()), other, writeOk)
    {
      hide Update;
      var builder, reported := MergeLayers(rules.schema, usr, other);
      result := UpdateConfig(builder, false, writeOk);
    }

    method DeleteUser(deleteOk: bool) returns (result: Result)
      modifies this
      ensures (Snapshot(), result) == DeleteUserConfig(rules, old(Snapshot()), deleteOk)
    {
      if !deleteOk {
        return Failed;
      }
      file := None;
      config := BuildItems(rules.schema, rules.tidy, env);
      usr := map[];
      overrides := [];
      return Done;
    }
  }

  lemma NamesSnoc(schema: Schema, i: nat)
    requires i < |schema|
    ensures Names(schema[..i + 1]) == Names(schema[..i]) + {schema[i].name}
  {
    assert forall j :: 0 <= j < i ==> schema[..i + 1][j] == schema[..i][j];
    assert schema[..i + 1][i] == schema[i];
  }

  lemma MergeNothing(schema: Schema, a: Builder, b: Builder)
    ensures Merge(a, Restrict(b, Names(schema[..0]))) == a
  {
    assert Restrict(b, Names(schema[..0])) == map[];
  }

  lemma MergeSnoc(a: Builder, b: Builder, names: set<Name>, name: Name)
    ensures Merge(a, Restrict(b, names + {name})) ==
      if name in b then Merge(a, Restrict(b, names))[name := b[name]] else Merge(a, Restrict(b, names))
  {
    RestrictAdd(b, names, name);
  }

  lemma RestrictAll(b: Builder, names: set<Name>)
    requires b.Keys <= names
    ensures Restrict(b, names) == b
  {
  }
}
