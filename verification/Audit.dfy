/** The falsifiability audit: can each item's test notice a wrong implementation? */
module Audit {
  import opened Wrappers

  type Value = nat

  datatype Location = Location(mod: string, attr: string)

  /** An item's specification object; id is its identity. */
  datatype Spec = Spec(id: nat, adapter: bool)

  datatype Resolution = Raises | Absent | Found(value: Value)

  /** What the audit patches: module attributes, and resolvers set on specification objects, with what they give. */
  datatype Env = Env(attrs: map<Location, Value>, overrides: map<nat, Resolution>)

  datatype Verdict = Pass | Fail | Neither

  /** The code the audit calls. None of it changes what the audit patches. */
  datatype Harness = Harness(
    resolve: (Env, Spec) -> Resolution,
    evaluate: (Env, Spec) -> Verdict,
    wrongify: Value -> Value,
    locate: string -> Option<Location>,
    settable: Location -> bool)

  /** resolve_ionp: a resolver set on the specification object takes the place of the class's own. */
  function Resolve(h: Harness, env: Env, spec: Spec): Resolution {
    if spec.id in env.overrides then env.overrides[spec.id] else h.resolve(env, spec)
  }

  datatype Strategy = ViaModule(loc: Location, basis: Value) | ViaResolve(basis: Value)

  /** What a strategy hands back to undo itself. */
  datatype Restore = SetAttribute(loc: Location, original: Value) | DeleteOverride(id: nat)

  datatype Reason = ResolveRaised | NothingThere | BaselineFails | Unaudited

  datatype Outcome = Caught | Unfalsifiable | Skipped(reason: Reason)

  datatype Report = Report(caught: seq<string>, unfalsifiable: seq<string>, skipped: seq<(string, Reason)>)

  function Add(r: Report, name: string, o: Outcome): Report {
    match o
    case Caught => r.(caught := r.caught + [name])
    case Unfalsifiable => r.(unfalsifiable := r.unfalsifiable + [name])
    case Skipped(reason) => r.(skipped := r.skipped + [(name, reason)])
  }

  // ----- what one item's audit does -----

  /** The environment a strategy's wrong object is seen in, or nothing if it cannot be installed. */
  function Sabotaged(h: Harness, env: Env, spec: Spec, s: Strategy): Option<Env> {
    match s
    case ViaModule(loc, basis) =>
      if loc in env.attrs && h.settable(loc) then Some(env.(attrs := env.attrs[loc := h.wrongify(basis)])) else None
    case ViaResolve(basis) => Some(env.(overrides := env.overrides[spec.id := Found(h.wrongify(basis))]))
  }

  /** The environment after a strategy that was installed has been undone. */
  function Undone(env: Env, spec: Spec, s: Strategy): Env {
    match s
    case ViaModule(_, _) => env
    case ViaResolve(_) => env.(overrides := env.overrides - {spec.id})
  }

  datatype Tried = Tried(effective: bool, noticed: bool, env: Env)

  /** Strategies one after the other, until the test notices one. */
  function Try(h: Harness, env: Env, spec: Spec, strategies: seq<Strategy>): Tried
    decreases |strategies|
  {
    if strategies == [] then Tried(false, false, env)
    else
      match Sabotaged(h, env, spec, strategies[0])
      case None => Try(h, env, spec, strategies[1..])
      case Some(wrong) =>
        var after := Undone(env, spec, strategies[0]);
        if h.evaluate(wrong, spec) == Fail then Tried(true, true, after)
        else Try(h, after, spec, strategies[1..]).(effective := true)
  }

  /** The attribute an item's name leads to, if it is there. */
  function Attribute(h: Harness, env: Env, name: string): (loc: Option<Location>)
    ensures loc.Some? ==> loc.value in env.attrs
  {
    match h.locate(name)
    case Some(loc) => if loc in env.attrs then Some(loc) else None
    case None => None
  }

  function Strategies(h: Harness, env: Env, spec: Spec, name: string, original: Value): seq<Strategy> {
    var loc := Attribute(h, env, name);
    (if loc.Some? then [ViaModule(loc.value, env.attrs[loc.value])] else []) +
    (if spec.adapter then [] else [ViaResolve(original)])
  }

  datatype Audited = Audited(outcome: Outcome, env: Env)

  function AuditOne(h: Harness, env: Env, spec: Spec, name: string): Audited {
    match Resolve(h, env, spec)
    case Raises => Audited(Skipped(ResolveRaised), env)
    case Absent => Audited(Skipped(NothingThere), env)
    case Found(original) =>
      if h.evaluate(env, spec) != Pass then Audited(Skipped(BaselineFails), env)
      else
        var t := Try(h, env, spec, Strategies(h, env, spec, name, original));
        Audited(if !t.effective then Skipped(Unaudited) else if t.noticed then Caught else Unfalsifiable, t.env)
  }

  // ----- the audit itself -----

  /** The real modules and specification objects. */
  class World {
    var attrs: map<Location, Value>
    var overrides: map<nat, Resolution>

    function Now(): Env
      reads this
    {
      Env(attrs, overrides)
    }

    constructor (env: Env)
      ensures Now() == env
    {
      attrs, overrides := env.attrs, env.overrides;
    }

    /** _sub_resolve */
    method SubResolve(spec: Spec, wrong: Value) returns (restore: Option<Restore>)
      modifies this`overrides
      ensures restore == Some(DeleteOverride(spec.id))
      ensures overrides == old(overrides)[spec.id := Found(wrong)]
    {
      overrides := overrides[spec.id := Found(wrong)];
      return Some(DeleteOverride(spec.id));
    }

    /** _sub_module: refused for a missing attribute, and by classes that cannot be assigned to. */
    method SubModule(h: Harness, loc: Location, wrong: Value) returns (restore: Option<Restore>)
      modifies this`attrs
      ensures if loc in old(attrs) && h.settable(loc)
              then restore == Some(SetAttribute(loc, old(attrs)[loc])) && attrs == old(attrs)[loc := wrong]
              else restore == None && attrs == old(attrs)
    {
      if loc !in attrs {
        return None;
      }
      var original := attrs[loc];
      if !h.settable(loc) {
        return None;
      }
      attrs := attrs[loc := wrong];
      return Some(SetAttribute(loc, original));
    }

    method Undo(restore: Restore)
      modifies this
      ensures match restore
              case SetAttribute(loc, original) => attrs == old(attrs)[loc := original] && overrides == old(overrides)
              case DeleteOverride(id) => attrs == old(attrs) && overrides == old(overrides) - {id}
    {
      match restore
      case SetAttribute(loc, original) => attrs := attrs[loc := original];
      case DeleteOverride(id) => overrides := overrides - {id};
    }

    /** One strategy installed, the test evaluated, and the strategy undone. */
    method Attempt(h: Harness, spec: Spec, s: Strategy) returns (took: bool, noticed: bool)
      modifies this
      ensures var wrong := Sabotaged(h, old(Now()), spec, s);
              && took == wrong.Some?
              && noticed == (took && h.evaluate(wrong.value, spec) == Fail)
              && Now() == if took then Undone(old(Now()), spec, s) else old(Now())
    {
      var restore;
      match s {
        case ViaModule(loc, basis) => restore := SubModule(h, loc, h.wrongify(basis));
        case ViaResolve(basis) => restore := SubResolve(spec, h.wrongify(basis));
      }
      if restore.None? {
        return false, false;
      }
      noticed := h.evaluate(Now(), spec) == Fail;
      Undo(restore.value);
      assert old(attrs) == attrs;
      return true, noticed;
    }

    /** audit. names is the registry's names in the order they are visited. */
    method Audit(h: Harness, registry: map<string, Spec>, names: seq<string>) returns (r: Report)
      requires forall n :: 0 <= n < |names| ==> names[n] in registry
      modifies this
      ensures Ran(r, Now()) == Run(h, old(Now()), registry, names)
    {
      r := Report([], [], []);
      for n := 0 to |names|
        invariant Ran(r, Now()) == Run(h, old(Now()), registry, names[..n])
      {
        var name, spec := names[n], registry[names[n]];
        assert names[..n + 1][..n] == names[..n];
        var outcome;
        match Resolve(h, Now(), spec) {
          case Raises => outcome := Skipped(ResolveRaised);
          case Absent => outcome := Skipped(NothingThere);
          case Found(original) =>
            if h.evaluate(Now(), spec) != Pass {
              outcome := Skipped(BaselineFails);
            } else {
              outcome := Sabotage(h, spec, name, original);
            }
        }
        r := Add(r, name, outcome);
      }
      assert names[..|names|] == names;
    }

    method Sabotage(h: Harness, spec: Spec, name: string, original: Value) returns (outcome: Outcome)
      requires Resolve(h, Now(), spec) == Found(original) && h.evaluate(Now(), spec) == Pass
      modifies this
      ensures Audited(outcome, Now()) == AuditOne(h, old(Now()), spec, name)
    {
      var strategies := Strategies(h, Now(), spec, name, original);
      var effective, noticed := false, false;
      for k := 0 to |strategies|
        invariant !noticed
        invariant var all, rest := Try(h, old(Now()), spec, strategies), Try(h, Now(), spec, strategies[k..]);
                  all == rest.(effective := effective || rest.effective)
      {
        var took, seen := Attempt(h, spec, strategies[k]);
        assert strategies[k..][0] == strategies[k] && strategies[k..][1..] == strategies[k + 1..];
        effective, noticed := effective || took, seen;
        if noticed {
          break;
        }
      }
      outcome := if !effective then Skipped(Unaudited) else if noticed then Caught else Unfalsifiable;
    }
  }

  datatype RunResult = Ran(report: Report, env: Env)

  /** The whole audit, item after item. */
  function Run(h: Harness, env: Env, registry: map<string, Spec>, names: seq<string>): RunResult
    requires forall n :: 0 <= n < |names| ==> names[n] in registry
  {
    if names == [] then Ran(Report([], [], []), env)
    else
      var n := |names| - 1;
      var before := Run(h, env, registry, names[..n]);
      var one := AuditOne(h, before.env, registry[names[n]], names[n]);
      Ran(Add(before.report, names[n], one.outcome), one.env)
  }

  // ----- what the outcome of one item means -----

  /** The item resolves, and its test passes as things are. */
  predicate Gradable(h: Harness, env: Env, spec: Spec) {
    Resolve(h, env, spec).Found? && h.evaluate(env, spec) == Pass
  }

  /** A wrong object can be put where the item's name leads. */
  predicate Replaceable(h: Harness, env: Env, name: string) {
    var loc := h.locate(name);
    loc.Some? && loc.value in env.attrs && h.settable(loc.value)
  }

  /** With the wrong object where the item's name leads, the test fails. */
  predicate ModuleNoticed(h: Harness, env: Env, spec: Spec, name: string) {
    && Replaceable(h, env, name)
    && var loc := h.locate(name).value;
       h.evaluate(env.(attrs := env.attrs[loc := h.wrongify(env.attrs[loc])]), spec) == Fail
  }

  /** With the wrong object resolved for the item, the test fails. */
  predicate ResolveNoticed(h: Harness, env: Env, spec: Spec) {
    var original := if spec.id in env.overrides then env.overrides[spec.id] else h.resolve(env, spec);
    && !spec.adapter && original.Found?
    && h.evaluate(env.(overrides := env.overrides[spec.id := Found(h.wrongify(original.value))]), spec) == Fail
  }

  /** The audit of the item sets, and so in the end deletes, the resolver on its specification object. */
  predicate Overridden(h: Harness, env: Env, spec: Spec, name: string) {
    Gradable(h, env, spec) && !spec.adapter && !ModuleNoticed(h, env, spec, name)
  }

  /**
    Caught: some wrong object that could be installed made a passing test fail. Unfalsifiable: some
    could be installed, and none did. All else is skipped. Nothing but the item's own override changes.
   */
  lemma OutcomeMeans(h: Harness, env: Env, spec: Spec, name: string)
    ensures var one := AuditOne(h, env, spec, name);
            && (one.outcome == Caught <==>
                  Gradable(h, env, spec) && (ModuleNoticed(h, env, spec, name) || ResolveNoticed(h, env, spec)))
            && (one.outcome == Unfalsifiable <==>
                  && Gradable(h, env, spec)
                  && (Replaceable(h, env, name) || !spec.adapter)
                  && !ModuleNoticed(h, env, spec, name) && !ResolveNoticed(h, env, spec))
            && one.env == if Overridden(h, env, spec, name)
                          then env.(overrides := env.overrides - {spec.id}) else env
  {
    if Gradable(h, env, spec) {
      var original := Resolve(h, env, spec).value;
      var strategies := Strategies(h, env, spec, name, original);
      if spec.adapter {
        TryOne(h, env, spec, strategies);
      } else if Attribute(h, env, name).None? {
        TryOne(h, env, spec, strategies);
      } else {
        assert strategies[1..] == [ViaResolve(original)];
        TryOne(h, env, spec, strategies[1..]);
      }
    }
  }

  /**
    Why an item is skipped: resolving it raised, or gave nothing; or its test does not pass as things
    are; or it has an adapter and its name leads to no attribute that can be assigned to.
   */
  lemma SkippedMeans(h: Harness, env: Env, spec: Spec, name: string)
    ensures var outcome := AuditOne(h, env, spec, name).outcome;
            var found := if spec.id in env.overrides then env.overrides[spec.id] else h.resolve(env, spec);
            var passes := h.evaluate(env, spec) == Pass;
            var loc := h.locate(name);
            && (outcome == Skipped(ResolveRaised) <==> found == Raises)
            && (outcome == Skipped(NothingThere) <==> found == Absent)
            && (outcome == Skipped(BaselineFails) <==> found.Found? && !passes)
            && (outcome == Skipped(Unaudited) <==>
                  && found.Found? && passes && spec.adapter
                  && (loc == None || loc.value !in env.attrs || !h.settable(loc.value)))
  {
    OutcomeMeans(h, env, spec, name);
    if Gradable(h, env, spec) && spec.adapter {
      TryOne(h, env, spec, Strategies(h, env, spec, name, Resolve(h, env, spec).value));
    } else if Gradable(h, env, spec) {
      assert AuditOne(h, env, spec, name).outcome == Caught || AuditOne(h, env, spec, name).outcome == Unfalsifiable;
    }
  }

  lemma TryOne(h: Harness, env: Env, spec: Spec, strategies: seq<Strategy>)
    requires |strategies| <= 1
    ensures Try(h, env, spec, strategies) ==
            if strategies == [] || Sabotaged(h, env, spec, strategies[0]).None? then Tried(false, false, env)
            else Tried(true, h.evaluate(Sabotaged(h, env, spec, strategies[0]).value, spec) == Fail,
                       Undone(env, spec, strategies[0]))
  {
    if strategies != [] {
      assert strategies[1..] == [];
    }
  }

  // ----- the whole registry -----

  /** No item with a resolver of its own comes to have it overridden. */
  ghost predicate Untouched(h: Harness, env: Env, registry: map<string, Spec>, names: seq<string>) {
    forall n :: 0 <= n < |names| && names[n] in registry ==>
      registry[names[n]].id in env.overrides ==> !Overridden(h, env, registry[names[n]], names[n])
  }

  /** The items that, each audited alone, have the given outcome. */
  ghost function Those(h: Harness, env: Env, registry: map<string, Spec>, names: seq<string>, o: Outcome): seq<string>
    requires forall n :: 0 <= n < |names| ==> names[n] in registry
  {
    if names == [] then []
    else
      var n := |names| - 1;
      Those(h, env, registry, names[..n], o) +
      if AuditOne(h, env, registry[names[n]], names[n]).outcome == o then [names[n]] else []
  }

  ghost function SkippedAlone(h: Harness, env: Env, registry: map<string, Spec>, names: seq<string>)
    : seq<(string, Reason)>
    requires forall n :: 0 <= n < |names| ==> names[n] in registry
  {
    if names == [] then []
    else
      var n := |names| - 1;
      var o := AuditOne(h, env, registry[names[n]], names[n]).outcome;
      SkippedAlone(h, env, registry, names[..n]) + if o.Skipped? then [(names[n], o.reason)] else []
  }

  /** The report in which every item is graded as if it were audited alone. */
  ghost function AloneReport(h: Harness, env: Env, registry: map<string, Spec>, names: seq<string>): Report
    requires forall n :: 0 <= n < |names| ==> names[n] in registry
  {
    Report(Those(h, env, registry, names, Caught), Those(h, env, registry, names, Unfalsifiable),
           SkippedAlone(h, env, registry, names))
  }

  lemma AloneStep(h: Harness, env: Env, registry: map<string, Spec>, names: seq<string>, n: nat)
    requires (forall n :: 0 <= n < |names| ==> names[n] in registry) && |names| == n + 1
    ensures AloneReport(h, env, registry, names) ==
            Add(AloneReport(h, env, registry, names[..n]), names[n],
                AuditOne(h, env, registry[names[n]], names[n]).outcome)
  {
  }

  /** Module attributes are always put back, and no resolver is added or changed; one can be lost. */
  lemma {:induction false} RunRestores(h: Harness, env: Env, registry: map<string, Spec>, names: seq<string>)
    requires forall n :: 0 <= n < |names| ==> names[n] in registry
    ensures var after := Run(h, env, registry, names).env;
            && after.attrs == env.attrs
            && forall id :: id in after.overrides ==> id in env.overrides && after.overrides[id] == env.overrides[id]
  {
    if names == [] {
    } else {
      var n := |names| - 1;
      RunRestores(h, env, registry, names[..n]);
      OutcomeMeans(h, Run(h, env, registry, names[..n]).env, registry[names[n]], names[n]);
    }
  }

  /**
    Everything is left as found exactly if no resolver set beforehand is overridden, and then each
    item is graded as if alone.
   */
  lemma {:induction false} AuditedAsAlone(h: Harness, env: Env, registry: map<string, Spec>, names: seq<string>)
    requires forall n :: 0 <= n < |names| ==> names[n] in registry
    ensures Run(h, env, registry, names).env == env <==> Untouched(h, env, registry, names)
    ensures Untouched(h, env, registry, names) ==>
              Run(h, env, registry, names).report == AloneReport(h, env, registry, names)
  {
    if names == [] {
    } else {
      var n := |names| - 1;
      var name, spec := names[n], registry[names[n]];
      var before := Run(h, env, registry, names[..n]);
      AuditedAsAlone(h, env, registry, names[..n]);
      UntouchedSplit(h, env, registry, names, n);
      OutcomeMeans(h, before.env, spec, name);
      if before.env == env {
        if spec.id !in env.overrides {
          assert env.overrides - {spec.id} == env.overrides;
        }
      } else {
        RunRestores(h, env, registry, names[..n]);
        Shrunk(env.overrides, before.env.overrides);
        var lost :| lost in env.overrides && lost !in before.env.overrides;
        assert lost !in Run(h, env, registry, names).env.overrides;
      }
    }
  }

  // ----- which registries are always graded as if alone -----

  /** The specification object has a resolver of its own that gives something, and no adapter: an audit can lose it. */
  predicate Exposed(env: Env, spec: Spec) {
    !spec.adapter && spec.id in env.overrides && env.overrides[spec.id].Found?
  }

  /** Nothing set on the specification object keeps the item from being graded. */
  predicate Resolvable(env: Env, spec: Spec) {
    spec.id in env.overrides ==> env.overrides[spec.id].Found?
  }

  /** No exposed item is followed by one that can be graded. */
  ghost predicate ExposedLast(env: Env, registry: map<string, Spec>, names: seq<string>)
    requires forall n :: 0 <= n < |names| ==> names[n] in registry
  {
    forall n, m :: 0 <= n < m < |names| ==> !(Exposed(env, registry[names[n]]) && Resolvable(env, registry[names[m]]))
  }

  /** Whatever the code the audit calls, every item is graded as if it were audited alone. */
  ghost predicate AlwaysAsAlone(env: Env, registry: map<string, Spec>, names: seq<string>)
    requires forall n :: 0 <= n < |names| ==> names[n] in registry
  {
    forall h: Harness :: Run(h, env, registry, names).report == AloneReport(h, env, registry, names)
  }

  /** Grading as if alone is certain exactly if no item whose resolver can be lost comes before a gradable one. */
  lemma AlwaysAsAloneIff(env: Env, registry: map<string, Spec>, names: seq<string>)
    requires forall n :: 0 <= n < |names| ==> names[n] in registry
    ensures AlwaysAsAlone(env, registry, names) <==> ExposedLast(env, registry, names)
  {
    if ExposedLast(env, registry, names) {
      forall h: Harness
        ensures Run(h, env, registry, names).report == AloneReport(h, env, registry, names)
      {
        ExposedLastSuffices(h, env, registry, names);
      }
    } else {
      var n, m :| 0 <= n < m < |names| && Exposed(env, registry[names[n]]) && Resolvable(env, registry[names[m]]);
      var f := FirstExposed(env, registry, names, n);
      var h := Watching(registry[names[f]].id, env.overrides[registry[names[f]].id]);
      WatchedIsLost(h, env, registry, names, f, m);
      assert Run(h, env, registry, names).report != AloneReport(h, env, registry, names);
    }
  }

  lemma {:induction false} ExposedLastSuffices(h: Harness, env: Env, registry: map<string, Spec>, names: seq<string>)
    requires forall n :: 0 <= n < |names| ==> names[n] in registry
    requires ExposedLast(env, registry, names)
    ensures Run(h, env, registry, names).report == AloneReport(h, env, registry, names)
  {
    if names == [] {
    } else {
      var n := |names| - 1;
      var start, spec := names[..n], registry[names[n]];
      assert forall i :: 0 <= i < n ==> start[i] == names[i];
      ExposedLastSuffices(h, env, registry, start);
      AloneStep(h, env, registry, names, n);
      var before := Run(h, env, registry, start).env;
      if Resolvable(env, spec) {
        NoneExposed(h, env, registry, start);
      } else {
        UnresolvableKept(h, env, registry, start, spec.id);
        assert Resolve(h, before, spec) == Resolve(h, env, spec);
      }
    }
  }

  lemma NoneExposed(h: Harness, env: Env, registry: map<string, Spec>, names: seq<string>)
    requires forall n :: 0 <= n < |names| ==> names[n] in registry && !Exposed(env, registry[names[n]])
    ensures Run(h, env, registry, names).env == env
  {
    AuditedAsAlone(h, env, registry, names);
  }

  /** A resolver that gives nothing is never lost: its item is skipped. */
  lemma {:induction false} UnresolvableKept(h: Harness, env: Env, registry: map<string, Spec>, names: seq<string>,
                                            id: nat)
    requires forall n :: 0 <= n < |names| ==> names[n] in registry
    requires id in env.overrides && !env.overrides[id].Found?
    ensures var after := Run(h, env, registry, names).env;
            id in after.overrides && after.overrides[id] == env.overrides[id]
  {
    if names == [] {
    } else {
      var n := |names| - 1;
      UnresolvableKept(h, env, registry, names[..n], id);
      OutcomeMeans(h, Run(h, env, registry, names[..n]).env, registry[names[n]], names[n]);
    }
  }

  lemma {:induction false} FirstExposed(env: Env, registry: map<string, Spec>, names: seq<string>, n: nat)
    returns (f: nat)
    requires forall n :: 0 <= n < |names| ==> names[n] in registry
    requires n < |names| && Exposed(env, registry[names[n]])
    ensures f <= n && Exposed(env, registry[names[f]])
    ensures forall i :: 0 <= i < f ==> !Exposed(env, registry[names[i]])
    decreases n
  {
    if i :| 0 <= i < n && Exposed(env, registry[names[i]]) {
      f := FirstExposed(env, registry, names, i);
    } else {
      f := n;
    }
  }

  /** Code whose tests pass only as long as one resolver is there. */
  function Watching(id: nat, there: Resolution): Harness {
    Harness((e, s) => Found(0),
            (e: Env, s: Spec) => if id in e.overrides && e.overrides[id] == there then Pass else Fail,
            v => v + 1, name => None, loc => false)
  }

  /** The audit of the first k items. */
  ghost function After(h: Harness, env: Env, registry: map<string, Spec>, names: seq<string>, k: nat): RunResult
    requires (forall n :: 0 <= n < |names| ==> names[n] in registry) && k <= |names|
    decreases k
  {
    if k == 0 then Ran(Report([], [], []), env)
    else
      var before := After(h, env, registry, names, k - 1);
      var one := AuditOne(h, before.env, registry[names[k - 1]], names[k - 1]);
      Ran(Add(before.report, names[k - 1], one.outcome), one.env)
  }

  lemma {:induction false} AfterIsRun(h: Harness, env: Env, registry: map<string, Spec>, names: seq<string>, k: nat)
    requires (forall n :: 0 <= n < |names| ==> names[n] in registry) && k <= |names|
    ensures After(h, env, registry, names, k) == Run(h, env, registry, names[..k])
    decreases k
  {
    if k == 0 {
    } else {
      AfterIsRun(h, env, registry, names, k - 1);
      assert names[..k][..k - 1] == names[..k - 1];
    }
  }

  /** Then the run loses the resolver at item f, and item m, which passes alone, fails its baseline. */
  lemma WatchedIsLost(h: Harness, env: Env, registry: map<string, Spec>, names: seq<string>, f: nat, m: nat)
    requires forall n :: 0 <= n < |names| ==> names[n] in registry
    requires f < m < |names| && Exposed(env, registry[names[f]]) && Resolvable(env, registry[names[m]])
    requires forall i :: 0 <= i < f ==> !Exposed(env, registry[names[i]])
    requires h == Watching(registry[names[f]].id, env.overrides[registry[names[f]].id])
    ensures Run(h, env, registry, names).report != AloneReport(h, env, registry, names)
  {
    var id, entry := registry[names[f]].id, (names[m], BaselineFails);
    LostAt(h, env, registry, names, f);
    FailsLater(h, env, registry, names, id, f + 1, m);
    NoBaselineFails(h, env, registry, names, id, names[m]);
    assert entry in Run(h, env, registry, names).report.skipped;
    assert entry !in AloneReport(h, env, registry, names).skipped;
  }

  /** Once the resolver is lost, an item that can be graded fails its baseline. */
  lemma FailsLater(h: Harness, env: Env, registry: map<string, Spec>, names: seq<string>, id: nat, k: nat, m: nat)
    requires forall n :: 0 <= n < |names| ==> names[n] in registry
    requires k <= m < |names| && Resolvable(env, registry[names[m]])
    requires id in env.overrides && h == Watching(id, env.overrides[id])
    requires id !in After(h, env, registry, names, k).env.overrides
    ensures (names[m], BaselineFails) in Run(h, env, registry, names).report.skipped
  {
    StaysLost(h, env, registry, names, id, k, m);
    FailsBaseline(h, env, registry, names, id, m);
    SkippedStays(h, env, registry, names, (names[m], BaselineFails), m + 1, |names|);
    AfterIsRun(h, env, registry, names, |names|);
    assert names[..|names|] == names;
  }

  lemma LostAt(h: Harness, env: Env, registry: map<string, Spec>, names: seq<string>, f: nat)
    requires forall n :: 0 <= n < |names| ==> names[n] in registry
    requires f < |names| && Exposed(env, registry[names[f]])
    requires forall i :: 0 <= i < f ==> !Exposed(env, registry[names[i]])
    requires h == Watching(registry[names[f]].id, env.overrides[registry[names[f]].id])
    ensures registry[names[f]].id !in After(h, env, registry, names, f + 1).env.overrides
  {
    var spec := registry[names[f]];
    AfterIsRun(h, env, registry, names, f);
    NoneExposed(h, env, registry, names[..f]);
    OutcomeMeans(h, env, spec, names[f]);
    assert Overridden(h, env, spec, names[f]);
  }

  lemma {:induction false} StaysLost(h: Harness, env: Env, registry: map<string, Spec>, names: seq<string>,
                                     id: nat, k: nat, m: nat)
    requires forall n :: 0 <= n < |names| ==> names[n] in registry
    requires k <= m <= |names| && id !in After(h, env, registry, names, k).env.overrides
    ensures id !in After(h, env, registry, names, m).env.overrides
    decreases m
  {
    if m == k {
    } else {
      StaysLost(h, env, registry, names, id, k, m - 1);
      OutcomeMeans(h, After(h, env, registry, names, m - 1).env, registry[names[m - 1]], names[m - 1]);
    }
  }

  lemma FailsBaseline(h: Harness, env: Env, registry: map<string, Spec>, names: seq<string>, id: nat, m: nat)
    requires forall n :: 0 <= n < |names| ==> names[n] in registry
    requires m < |names| && Resolvable(env, registry[names[m]])
    requires id in env.overrides && h == Watching(id, env.overrides[id])
    requires id !in After(h, env, registry, names, m).env.overrides
    ensures (names[m], BaselineFails) in After(h, env, registry, names, m + 1).report.skipped
  {
    var now := After(h, env, registry, names, m);
    AfterIsRun(h, env, registry, names, m);
    RunRestores(h, env, registry, names[..m]);
    assert AuditOne(h, now.env, registry[names[m]], names[m]).outcome == Skipped(BaselineFails);
    assert (now.report.skipped + [(names[m], BaselineFails)])[|now.report.skipped|] == (names[m], BaselineFails);
  }

  lemma {:induction false} SkippedStays(h: Harness, env: Env, registry: map<string, Spec>, names: seq<string>,
                                        entry: (string, Reason), k: nat, m: nat)
    requires forall n :: 0 <= n < |names| ==> names[n] in registry
    requires k <= m <= |names| && entry in After(h, env, registry, names, k).report.skipped
    ensures entry in After(h, env, registry, names, m).report.skipped
    decreases m
  {
    if m == k {
    } else {
      SkippedStays(h, env, registry, names, entry, k, m - 1);
      var before := After(h, env, registry, names, m - 1);
      var one := AuditOne(h, before.env, registry[names[m - 1]], names[m - 1]);
      AddKeepsSkipped(before.report, names[m - 1], one.outcome, entry);
    }
  }

  lemma AddKeepsSkipped(r: Report, name: string, o: Outcome, entry: (string, Reason))
    requires entry in r.skipped
    ensures entry in Add(r, name, o).skipped
  {
  }

  /** Alone, nothing fails its baseline. */
  lemma {:induction false} NoBaselineFails(h: Harness, env: Env, registry: map<string, Spec>, names: seq<string>,
                                           id: nat, name: string)
    requires forall n :: 0 <= n < |names| ==> names[n] in registry
    requires id in env.overrides && h == Watching(id, env.overrides[id])
    ensures (name, BaselineFails) !in SkippedAlone(h, env, registry, names)
  {
    if names == [] {
    } else {
      var n := |names| - 1;
      NoBaselineFails(h, env, registry, names[..n], id, name);
      PassesAlone(h, env, registry[names[n]], names[n], id);
    }
  }

  lemma PassesAlone(h: Harness, env: Env, spec: Spec, name: string, id: nat)
    requires id in env.overrides && h == Watching(id, env.overrides[id])
    ensures AuditOne(h, env, spec, name).outcome != Skipped(BaselineFails)
  {
  }

  lemma UntouchedSplit(h: Harness, env: Env, registry: map<string, Spec>, names: seq<string>, n: nat)
    requires |names| == n + 1 && names[n] in registry
    ensures Untouched(h, env, registry, names) <==>
            && Untouched(h, env, registry, names[..n])
            && (registry[names[n]].id in env.overrides ==> !Overridden(h, env, registry[names[n]], names[n]))
  {
    var start := names[..n];
    assert forall i :: 0 <= i < n ==> names[i] == start[i];
  }

  /** A map with some of the entries of another, and not equal to it, lacks one of its keys. */
  lemma Shrunk(m: map<nat, Resolution>, part: map<nat, Resolution>)
    requires part != m
    requires forall id :: id in part ==> id in m && part[id] == m[id]
    ensures exists id :: id in m && id !in part
  {
    var id :| (id in part) != (id in m) || (id in m && part[id] != m[id]);
    assert id in m && id !in part;
  }

  /** Whatever the state, every item ends up in one of the three lists, as often as it was visited. */
  lemma {:induction false} AuditPartitions(h: Harness, env: Env, registry: map<string, Spec>, names: seq<string>)
    requires forall n :: 0 <= n < |names| ==> names[n] in registry
    ensures Listed(Run(h, env, registry, names).report) == multiset(names)
  {
    if names == [] {
    } else {
      var n := |names| - 1;
      AuditPartitions(h, env, registry, names[..n]);
      var before := Run(h, env, registry, names[..n]);
      AddKeeps(before.report, names[n], AuditOne(h, before.env, registry[names[n]], names[n]).outcome);
      assert names == names[..n] + [names[n]];
    }
  }

  /** The outcome of the n-th item visited, audited in the state the items before it have left. */
  function OutcomeAt(h: Harness, env: Env, registry: map<string, Spec>, names: seq<string>, n: nat): Outcome
    requires n < |names| && forall k :: 0 <= k < |names| ==> names[k] in registry
  {
    AuditOne(h, Run(h, env, registry, names[..n]).env, registry[names[n]], names[n]).outcome
  }

  /** An item was visited with that outcome. */
  ghost predicate Visited(h: Harness, env: Env, registry: map<string, Spec>, names: seq<string>, x: string, o: Outcome)
    requires forall k :: 0 <= k < |names| ==> names[k] in registry
  {
    exists n :: 0 <= n < |names| && names[n] == x && OutcomeAt(h, env, registry, names, n) == o
  }

  /** Each list holds the items with its outcome, and the skipped ones with their reason. */
  lemma {:induction false} ListsMean(h: Harness, env: Env, registry: map<string, Spec>, names: seq<string>,
                                     x: string, reason: Reason)
    requires forall n :: 0 <= n < |names| ==> names[n] in registry
    ensures var r := Run(h, env, registry, names).report;
            && (x in r.caught <==> Visited(h, env, registry, names, x, Caught))
            && (x in r.unfalsifiable <==> Visited(h, env, registry, names, x, Unfalsifiable))
            && ((x, reason) in r.skipped <==> Visited(h, env, registry, names, x, Skipped(reason)))
  {
    if names == [] {
    } else {
      var n := |names| - 1;
      ListsMean(h, env, registry, names[..n], x, reason);
      VisitedLast(h, env, registry, names, x, Caught);
      VisitedLast(h, env, registry, names, x, Unfalsifiable);
      VisitedLast(h, env, registry, names, x, Skipped(reason));
      AddMeans(Run(h, env, registry, names[..n]).report, names[n], OutcomeAt(h, env, registry, names, n), x, reason);
    }
  }

  lemma AddMeans(r: Report, name: string, o: Outcome, x: string, reason: Reason)
    ensures var more := Add(r, name, o);
            && (x in more.caught <==> x in r.caught || (x == name && o == Caught))
            && (x in more.unfalsifiable <==> x in r.unfalsifiable || (x == name && o == Unfalsifiable))
            && ((x, reason) in more.skipped <==> (x, reason) in r.skipped || (x == name && o == Skipped(reason)))
  {
  }

  lemma VisitedLast(h: Harness, env: Env, registry: map<string, Spec>, names: seq<string>, x: string, o: Outcome)
    requires names != [] && forall k :: 0 <= k < |names| ==> names[k] in registry
    ensures var n := |names| - 1;
            Visited(h, env, registry, names, x, o) <==>
              Visited(h, env, registry, names[..n], x, o)
              || (names[n] == x && OutcomeAt(h, env, registry, names, n) == o)
  {
    var n := |names| - 1;
    if Visited(h, env, registry, names[..n], x, o) {
      var k :| 0 <= k < n && names[..n][k] == x && OutcomeAt(h, env, registry, names[..n], k) == o;
      VisitedEarlier(h, env, registry, names, k);
    }
    if k: nat :| k < |names| && names[k] == x && OutcomeAt(h, env, registry, names, k) == o {
      if k < n {
        VisitedEarlier(h, env, registry, names, k);
      }
    }
  }

  lemma VisitedEarlier(h: Harness, env: Env, registry: map<string, Spec>, names: seq<string>, k: nat)
    requires k < |names| - 1 && forall n :: 0 <= n < |names| ==> names[n] in registry
    ensures var start, o := names[..|names| - 1], OutcomeAt(h, env, registry, names, k);
            && OutcomeAt(h, env, registry, start, k) == o && start[k] == names[k]
            && Visited(h, env, registry, start, names[k], o) && Visited(h, env, registry, names, names[k], o)
  {
    SameOutcome(h, env, registry, names, k);
  }

  lemma SameOutcome(h: Harness, env: Env, registry: map<string, Spec>, names: seq<string>, k: nat)
    requires k < |names| - 1 && forall n :: 0 <= n < |names| ==> names[n] in registry
    ensures OutcomeAt(h, env, registry, names[..|names| - 1], k) == OutcomeAt(h, env, registry, names, k)
  {
    assert names[..|names| - 1][..k] == names[..k];
  }

  lemma AddKeeps(r: Report, name: string, o: Outcome)
    ensures Listed(Add(r, name, o)) == Listed(r) + multiset{name}
  {
    if o.Skipped? {
      assert Names(r.skipped + [(name, o.reason)]) == Names(r.skipped) + [name];
    }
  }

  /** Every name in a report, as often as it is there. */
  ghost function Listed(r: Report): multiset<string> {
    multiset(r.caught) + multiset(r.unfalsifiable) + multiset(Names(r.skipped))
  }

  function Names(skipped: seq<(string, Reason)>): (names: seq<string>)
    ensures |names| == |skipped| && forall k :: 0 <= k < |skipped| ==> names[k] == skipped[k].0
  {
    seq(|skipped|, k requires 0 <= k < |skipped| => skipped[k].0)
  }

  lemma RunTwo(h: Harness, env: Env, registry: map<string, Spec>, first: string, second: string)
    requires first in registry && second in registry
    ensures var one := AuditOne(h, env, registry[first], first);
            var two := AuditOne(h, one.env, registry[second], second);
            Run(h, env, registry, [first, second]) ==
            Ran(Add(Add(Report([], [], []), first, one.outcome), second, two.outcome), two.env)
  {
    var names := [first, second];
    assert names[..1] == [first] && [first][..0] == [];
    assert Run(h, env, registry, []) == Ran(Report([], [], []), env);
  }

  /** One object with a resolver of its own: its audit catches the wrong one, and without it the baseline fails. */
  lemma WatchedOutcomes(h: Harness, spec: Spec, env: Env, lost: Env, name: string)
    requires h == Watching(0, Found(1)) && spec == Spec(0, false)
    requires env == Env(map[], map[0 := Found(1)]) && lost == Env(map[], map[])
    ensures AuditOne(h, env, spec, name) == Audited(Caught, lost)
    ensures AuditOne(h, lost, spec, name) == Audited(Skipped(BaselineFails), lost)
  {
    assert env.overrides - {0} == map[];
    OutcomeMeans(h, env, spec, name);
  }

  /** A resolver set beforehand is lost, and the same object's second item is then graded differently than alone. */
  lemma LostResolver(h: Harness, env: Env, registry: map<string, Spec>)
    requires h == Watching(0, Found(1)) && env == Env(map[], map[0 := Found(1)])
    requires registry == map["a" := Spec(0, false), "b" := Spec(0, false)]
    ensures Run(h, env, registry, ["a", "b"]) == Ran(Report(["a"], [], [("b", BaselineFails)]), Env(map[], map[]))
    ensures AuditOne(h, env, registry["b"], "b").outcome == Caught
  {
    var lost := Env(map[], map[]);
    WatchedOutcomes(h, Spec(0, false), env, lost, "a");
    WatchedOutcomes(h, Spec(0, false), env, lost, "b");
    RunTwo(h, env, registry, "a", "b");
  }
}
