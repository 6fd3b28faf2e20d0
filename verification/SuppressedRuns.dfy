/** Programs over several suppress_warnings contexts, entered and left in any nesting. */
module SuppressedRuns {
  import opened Wrappers
  import opened SuppressWarnings

  /** A program over the contexts: warnings, new filters, and with-blocks. */
  datatype Step =
    | Warn(x: Warning)
    | Filtering(i: nat, category: nat, message: string, moduleFile: Option<string>, record: bool)
    | With(i: nat, body: seq<Step>)

  // ----- the meaning of a program -----

  /** What one context notes of a warning that reaches it. */
  ghost function Noting(c: Ctx, x: Warning): (n: Notes)
    ensures ShownOne(c.oracle, c.InForce(), c.rule, c.notes, x, c.LetsPass(x), n)
  {
    var r, a := RecordOf(c.oracle, c.InForce(), x), c.notes;
    Notes(if c.LetsPass(x) && c.rule != Always then a.forwarded + {KeyOf(c.rule, x)} else a.forwarded,
          if r.Some? then a.log + [x] else a.log,
          seq(|a.records|, k requires 0 <= k < |a.records| =>
            if r == Some(k) then a.records[k] + [x] else a.records[k]))
  }

  lemma NotingIs(c: Ctx, x: Warning, forward: bool, n: Notes)
    requires ShownOne(c.oracle, c.InForce(), c.rule, c.notes, x, forward, n)
    ensures forward == c.LetsPass(x) && n == Noting(c, x)
  {
    assert n.records == Noting(c, x).records;
  }

  function Filtered(c: Ctx, category: nat, message: string, moduleFile: Option<string>, record: bool): Ctx {
    var records := c.notes.records;
    var f := Filter(category, message, moduleFile, if record then Some(|records|) else None);
    var more := c.(notes := c.notes.(records := if record then records + [[]] else records));
    if c.entered then more.(tmpSuppressions := c.tmpSuppressions + [f])
    else more.(suppressions := c.suppressions + [f])
  }

  ghost function Entered(c: Ctx): Ctx {
    c.(entered := true, tmpSuppressions := [], notes := Notes({}, [], ClearedLists(c.notes.records, c.suppressions)))
  }

  ghost function ClearedLists(records: seq<seq<Warning>>, filters: seq<Filter>): (r: seq<seq<Warning>>)
    ensures Cleared(records, filters, r)
  {
    seq(|records|, k requires 0 <= k < |records| => if Records(filters, k) then [] else records[k])
  }

  lemma ClearedIs(records: seq<seq<Warning>>, filters: seq<Filter>, after: seq<seq<Warning>>)
    requires Cleared(records, filters, after)
    ensures after == ClearedLists(records, filters)
  {
    assert forall k :: 0 <= k < |after| ==> after[k] == ClearedLists(records, filters)[k];
  }

  /** The contexts by identity, and the warnings shown so far. */
  datatype Scene<!C> = Scene(ctxs: map<C, Ctx>, shown: seq<Warning>)

  /** The contexts are asked innermost first, until one keeps the warning; it is shown if none does. */
  ghost function AfterWarning<C>(s: Scene<C>, stack: seq<C>, x: Warning): (t: Scene<C>)
    requires forall c :: c in stack ==> c in s.ctxs
    ensures t.ctxs.Keys == s.ctxs.Keys
    decreases |stack|
  {
    if stack == [] then s.(shown := s.shown + [x])
    else
      var n := |stack| - 1;
      var c := s.ctxs[stack[n]];
      var noted := s.(ctxs := s.ctxs[stack[n] := c.(notes := Noting(c, x))]);
      if c.LetsPass(x) then AfterWarning(noted, stack[..n], x) else noted
  }

  datatype Outcome<!C> = Outcome(scene: Scene<C>, ok: bool)

  /** What a program does when the contexts of the stack are entered. */
  ghost function Interp<C>(s: Scene<C>, names: seq<C>, stack: seq<C>, steps: seq<Step>): (r: Outcome<C>)
    requires (forall c :: c in stack ==> c in s.ctxs) && (forall c :: c in names ==> c in s.ctxs)
    ensures r.scene.ctxs.Keys == s.ctxs.Keys
    decreases steps, 0
  {
    if steps == [] then Outcome(s, true)
    else
      var first := One(s, names, stack, steps[0]);
      if first.ok then Interp(first.scene, names, stack, steps[1..]) else first
  }

  ghost function One<C>(s: Scene<C>, names: seq<C>, stack: seq<C>, step: Step): (r: Outcome<C>)
    requires (forall c :: c in stack ==> c in s.ctxs) && (forall c :: c in names ==> c in s.ctxs)
    ensures r.scene.ctxs.Keys == s.ctxs.Keys
    decreases step, 2
  {
    match step
    case Warn(x) => Outcome(AfterWarning(s, stack, x), true)
    case Filtering(i, category, message, moduleFile, record) =>
      if i >= |names| then Outcome(s, true)
      else
        var c := Filtered(s.ctxs[names[i]], category, message, moduleFile, record);
        Outcome(s.(ctxs := s.ctxs[names[i] := c]), true)
    case With(i, body) =>
      if i >= |names| then Outcome(s, true) else Inside(s, names, stack, names[i], body)
  }

  /** A with-block. Entering a context that is entered is an error, which ends the program. */
  ghost function Inside<C>(s: Scene<C>, names: seq<C>, stack: seq<C>, name: C, body: seq<Step>): (r: Outcome<C>)
    requires (forall c :: c in stack ==> c in s.ctxs) && (forall c :: c in names ==> c in s.ctxs) && name in s.ctxs
    ensures r.scene.ctxs.Keys == s.ctxs.Keys
    decreases body, 1
  {
    if s.ctxs[name].entered then Outcome(s, false)
    else
      var inner := Interp(s.(ctxs := s.ctxs[name := Entered(s.ctxs[name])]), names, stack + [name], body);
      Outcome(Left(inner.scene, name), inner.ok)
  }

  function Left<C>(s: Scene<C>, name: C): Scene<C>
    requires name in s.ctxs
  {
    s.(ctxs := s.ctxs[name := s.ctxs[name].(entered := false)])
  }

  // ----- what this means for a warning, and for warnings in one block -----

  /** The warning gets to context k of the stack: all contexts entered after it let it pass. */
  ghost predicate Reaches<C>(s: Scene<C>, stack: seq<C>, x: Warning, k: int)
    requires k >= -1 && forall c :: c in stack ==> c in s.ctxs
  {
    forall j :: k < j < |stack| ==> s.ctxs[stack[j]].LetsPass(x)
  }

  ghost predicate Stack<C>(s: Scene<C>, stack: seq<C>) {
    && (forall c :: c in stack ==> c in s.ctxs)
    && (forall i, j :: 0 <= i < j < |stack| ==> stack[i] != stack[j])
  }

  /** The scene after the innermost context has been asked. */
  ghost function Asked<C>(s: Scene<C>, stack: seq<C>, x: Warning): Scene<C>
    requires stack != [] && forall c :: c in stack ==> c in s.ctxs
  {
    var name := stack[|stack| - 1];
    s.(ctxs := s.ctxs[name := s.ctxs[name].(notes := Noting(s.ctxs[name], x))])
  }

  /** A warning is shown if and only if all entered contexts let it pass. */
  lemma {:induction false} WarningShown<C>(s: Scene<C>, stack: seq<C>, x: Warning)
    requires Stack(s, stack)
    ensures AfterWarning(s, stack, x).shown == s.shown + if Reaches(s, stack, x, -1) then [x] else []
    decreases |stack|
  {
    if stack == [] {
    } else {
      var n := |stack| - 1;
      if s.ctxs[stack[n]].LetsPass(x) {
        WarningShown(Asked(s, stack, x), stack[..n], x);
        ReachesBelow(s, Asked(s, stack, x), stack, x, -1);
      } else {
        assert !Reaches(s, stack, x, -1);
      }
    }
  }

  /** Exactly the contexts a warning reaches note it, and no other context of the stack changes. */
  lemma {:induction false} WarningNoted<C>(s: Scene<C>, stack: seq<C>, x: Warning, k: nat)
    requires Stack(s, stack) && k < |stack|
    ensures var c := s.ctxs[stack[k]];
            AfterWarning(s, stack, x).ctxs[stack[k]] ==
            if Reaches(s, stack, x, k) then c.(notes := Noting(c, x)) else c
    decreases |stack|
  {
    var n := |stack| - 1;
    if k == n {
      if s.ctxs[stack[n]].LetsPass(x) {
        WarningElsewhere(Asked(s, stack, x), stack[..n], x, stack[n]);
      }
    } else if s.ctxs[stack[n]].LetsPass(x) {
      WarningNoted(Asked(s, stack, x), stack[..n], x, k);
      ReachesBelow(s, Asked(s, stack, x), stack, x, k);
    } else {
      assert !Reaches(s, stack, x, k);
    }
  }

  /** A context that is not entered notes nothing. */
  lemma {:induction false} WarningElsewhere<C>(s: Scene<C>, stack: seq<C>, x: Warning, c: C)
    requires Stack(s, stack) && c in s.ctxs && c !in stack
    ensures AfterWarning(s, stack, x).ctxs[c] == s.ctxs[c]
    decreases |stack|
  {
    if stack == [] {
    } else if s.ctxs[stack[|stack| - 1]].LetsPass(x) {
      WarningElsewhere(Asked(s, stack, x), stack[..|stack| - 1], x, c);
    }
  }

  lemma ReachesBelow<C>(s: Scene<C>, t: Scene<C>, stack: seq<C>, x: Warning, k: int)
    requires stack != [] && (forall c :: c in stack ==> c in s.ctxs && c in t.ctxs)
    requires s.ctxs[stack[|stack| - 1]].LetsPass(x)
    requires forall j :: 0 <= j < |stack| - 1 ==> t.ctxs[stack[j]] == s.ctxs[stack[j]]
    requires -1 <= k < |stack| - 1
    ensures Reaches(s, stack, x, k) <==> Reaches(t, stack[..|stack| - 1], x, k)
  {
    var n := |stack| - 1;
    var below := stack[..n];
    assert forall j :: 0 <= j < n ==> below[j] == stack[j];
  }

  function Warns(ws: seq<Warning>): (steps: seq<Step>)
    ensures |steps| == |ws| && forall k :: 0 <= k < |ws| ==> steps[k] == Warn(ws[k])
  {
    seq(|ws|, k requires 0 <= k < |ws| => Warn(ws[k]))
  }

  /** The scene after one more warning, with one context entered. */
  ghost function Warned<C>(s: Scene<C>, name: C, x: Warning): Scene<C>
    requires name in s.ctxs
  {
    var c := s.ctxs[name];
    Scene(s.ctxs[name := c.(notes := Noting(c, x))], if c.LetsPass(x) then s.shown + [x] else s.shown)
  }

  lemma OneContext<C>(s: Scene<C>, names: seq<C>, name: C, x: Warning)
    requires name in s.ctxs && forall c :: c in names ==> c in s.ctxs
    ensures One(s, names, [name], Warn(x)) == Outcome(Warned(s, name, x), true)
  {
    var c := s.ctxs[name];
    var noted := s.(ctxs := s.ctxs[name := c.(notes := Noting(c, x))]);
    assert [name][..0] == [] && [name][0] == name;
    assert AfterWarning(noted, [], x) == noted.(shown := s.shown + [x]);
    assert AfterWarning(s, [name], x) == Warned(s, name, x);
  }

  /**
    The scene after these warnings: shown are exactly the ones no filter applies to, or the first of
    each kind among them, and every record list got exactly those whose newest filter records into it.
   */
  ghost predicate AfterAll<C>(s: Scene<C>, name: C, ws: seq<Warning>, t: Scene<C>)
    requires name in s.ctxs
  {
    var c := s.ctxs[name];
    var out := Forwarded(c.oracle, c.InForce(), c.rule, c.notes.forwarded, ws);
    && name in t.ctxs && t.ctxs == s.ctxs[name := c.(notes := t.ctxs[name].notes)]
    && t.shown == s.shown + out
    && ShownAll(c.oracle, c.InForce(), c.rule, c.notes, ws, out, t.ctxs[name].notes)
  }

  lemma AfterOneMore<C>(s: Scene<C>, name: C, ws: seq<Warning>, n: nat, t: Scene<C>)
    requires name in s.ctxs && |ws| == n + 1 && AfterAll(s, name, ws[..n], t)
    ensures AfterAll(s, name, ws, Warned(t, name, ws[n]))
  {
    var c, now := s.ctxs[name], t.ctxs[name];
    OneMoreShown(s.shown, Forwarded(c.oracle, c.InForce(), c.rule, c.notes.forwarded, ws[..n]), ws[n]);
    ShownStep(c.oracle, c.InForce(), c.rule, c.notes, ws, n,
              Forwarded(c.oracle, c.InForce(), c.rule, c.notes.forwarded, ws[..n]), now.notes,
              now.LetsPass(ws[n]), Noting(now, ws[n]));
  }

  lemma OneMoreShown(shown: seq<Warning>, out: seq<Warning>, x: Warning)
    ensures shown + out + [x] == shown + (out + [x])
  {
  }

  /** Warnings while one context is entered, as a program. */
  lemma {:induction false} WarningsInBlock<C>(s: Scene<C>, names: seq<C>, name: C, ws: seq<Warning>)
    requires name in s.ctxs && forall c :: c in names ==> c in s.ctxs
    ensures Interp(s, names, [name], Warns(ws)).ok && AfterAll(s, name, ws, Interp(s, names, [name], Warns(ws)).scene)
    decreases |ws|
  {
    if ws == [] {
      assert s.ctxs == s.ctxs[name := s.ctxs[name].(notes := s.ctxs[name].notes)];
    } else {
      var n := |ws| - 1;
      var before := Interp(s, names, [name], Warns(ws[..n])).scene;
      WarningsInBlock(s, names, name, ws[..n]);
      assert Warns(ws) == Warns(ws[..n]) + [Warn(ws[n])];
      InterpSnoc(s, names, [name], Warns(ws[..n]), Warn(ws[n]));
      OneContext(before, names, name, ws[n]);
      AfterOneMore(s, name, ws, n, before);
    }
  }

  /** Warnings in a context that has forwarded nothing yet: shown are those that go on, judged by the warnings alone. */
  lemma FirstsInBlock<C>(s: Scene<C>, names: seq<C>, name: C, ws: seq<Warning>)
    requires name in s.ctxs && (forall c :: c in names ==> c in s.ctxs) && s.ctxs[name].notes.forwarded == {}
    ensures var c := s.ctxs[name];
            Interp(s, names, [name], Warns(ws)).scene.shown
            == s.shown + Firsts(c.oracle, c.suppressions + c.tmpSuppressions, c.rule, ws)
  {
    var c := s.ctxs[name];
    WarningsInBlock(s, names, name, ws);
    ForwardedIsFirsts(c.oracle, c.suppressions + c.tmpSuppressions, c.rule, ws);
  }

  /** A program followed by one more step. */
  lemma {:induction false} InterpSnoc<C>(s: Scene<C>, names: seq<C>, stack: seq<C>, steps: seq<Step>, step: Step)
    requires (forall c :: c in stack ==> c in s.ctxs) && (forall c :: c in names ==> c in s.ctxs)
    ensures var r := Interp(s, names, stack, steps);
            Interp(s, names, stack, steps + [step]) == if r.ok then One(r.scene, names, stack, step) else r
    decreases |steps|
  {
    var all := steps + [step];
    if steps == [] {
      assert all[0] == step && all[1..] == [];
      var first := One(s, names, stack, step);
      assert Interp(first.scene, names, stack, []) == Outcome(first.scene, true);
    } else {
      assert all[0] == steps[0] && all[1..] == steps[1..] + [step];
      var first := One(s, names, stack, steps[0]);
      if first.ok {
        InterpSnoc(first.scene, names, stack, steps[1..], step);
      }
    }
  }

  // ----- the contexts on the heap -----

  /** Following the handlers from h goes through these contexts, innermost last, and ends at the original one. */
  ghost predicate Chain(h: Handler, stack: seq<Suppress>)
    reads stack`origShow
    decreases |stack|
  {
    if stack == [] then h == Original
    else
      var n := |stack| - 1;
      h == Context(stack[n]) && stack[n] !in stack[..n] && Chain(stack[n].origShow, stack[..n])
  }

  /** The entered contexts, outermost first, form the chain of handlers. */
  ghost predicate Stacked(w: Warnings, ctxs: seq<Suppress>, stack: seq<Suppress>)
    reads w`show, ctxs`entered, stack`origShow
  {
    && Chain(w.show, stack)
    && (forall c :: c in stack ==> c in ctxs)
    && (forall c :: c in ctxs ==> (c.entered <==> c in stack))
  }

  ghost predicate AllValid(ctxs: seq<Suppress>)
    reads ctxs
  {
    forall c :: c in ctxs ==> c.Valid()
  }

  ghost function Now(w: Warnings, ctxs: seq<Suppress>): (s: Scene<Suppress>)
    reads w`shown, ctxs
  {
    Scene(map c | c in ctxs :: c.State(), w.shown)
  }

  /** Showing a warning: each handler that passes it on hands it to the one it found on entering. */
  method Show(h: Handler, w: Warnings, ghost ctxs: seq<Suppress>, ghost stack: seq<Suppress>, x: Warning)
    requires Chain(h, stack) && AllValid(ctxs) && forall c :: c in stack ==> c in ctxs
    modifies w`shown, ctxs`forwarded, ctxs`log, ctxs`records
    decreases |stack|
    ensures AllValid(ctxs)
    ensures Now(w, ctxs) == AfterWarning(old(Now(w, ctxs)), stack, x)
  {
    match h
    case Original =>
      w.shown := w.shown + [x];
    case Context(c) =>
      assert c in stack;
      var forward := Ask(c, w, ctxs, x);
      if forward {
        Show(c.origShow, w, ctxs, stack[..|stack| - 1], x);
      }
  }

  /** One context asked. */
  method Ask(c: Suppress, ghost w: Warnings, ghost ctxs: seq<Suppress>, x: Warning) returns (forward: bool)
    requires c in ctxs && AllValid(ctxs)
    modifies c`forwarded, c`log, c`records
    ensures AllValid(ctxs) && forward == old(c.State()).LetsPass(x)
    ensures var was := old(Now(w, ctxs));
            Now(w, ctxs) == was.(ctxs := was.ctxs[c := was.ctxs[c].(notes := Noting(was.ctxs[c], x))])
  {
    ghost var was, one := Now(w, ctxs), c.State();
    forward := c.ShowWarning(x);
    assert c.State() == one.(notes := c.Noted());
    NotingIs(one, x, forward, c.Noted());
    assert Now(w, ctxs) == was.(ctxs := was.ctxs[c := c.State()]);
  }

  /**
    Any program, with blocks nested in any way: what is shown and what every context notes is as the
    program means. Afterwards the handler, the entered contexts and, outside all blocks, the filter
    list are what they were, also if the program ended early.
   */
  method Execute(w: Warnings, ctxs: seq<Suppress>, ghost stack: seq<Suppress>, steps: seq<Step>) returns (ok: bool)
    requires Stacked(w, ctxs, stack) && AllValid(ctxs)
    modifies w, ctxs
    decreases steps, 0
    ensures Stacked(w, ctxs, stack) && AllValid(ctxs) && w.show == old(w.show)
    ensures stack == [] ==> w.filters == old(w.filters)
    ensures forall c :: c in stack ==> c.savedFilters == old(c.savedFilters)
    ensures Outcome(Now(w, ctxs), ok) == Interp(old(Now(w, ctxs)), ctxs, stack, steps)
  {
    if steps == [] {
      return true;
    }
    ok := ExecuteOne(w, ctxs, stack, steps[0]);
    if ok {
      ok := Execute(w, ctxs, stack, steps[1..]);
    }
  }

  method ExecuteOne(w: Warnings, ctxs: seq<Suppress>, ghost stack: seq<Suppress>, step: Step) returns (ok: bool)
    requires Stacked(w, ctxs, stack) && AllValid(ctxs)
    modifies w, ctxs
    decreases step, 2
    ensures Stacked(w, ctxs, stack) && AllValid(ctxs) && w.show == old(w.show)
    ensures stack == [] ==> w.filters == old(w.filters)
    ensures forall c :: c in stack ==> c.savedFilters == old(c.savedFilters)
    ensures Outcome(Now(w, ctxs), ok) == One(old(Now(w, ctxs)), ctxs, stack, step)
  {
    ok := true;
    match step {
      case Warn(x) =>
        Show(w.show, w, ctxs, stack, x);
      case Filtering(i, category, message, moduleFile, record) =>
        if i < |ctxs| {
          AddTo(w, ctxs, stack, ctxs[i], category, message, moduleFile, record);
        }
      case With(i, body) =>
        if i < |ctxs| {
          ok := Block(w, ctxs, stack, ctxs[i], body);
        }
    }
  }

  method AddTo(w: Warnings, ghost ctxs: seq<Suppress>, ghost stack: seq<Suppress>, ctx: Suppress,
               category: nat, message: string, moduleFile: Option<string>, record: bool)
    requires ctx in ctxs && AllValid(ctxs) && Stacked(w, ctxs, stack)
    modifies ctx`suppressions, ctx`tmpSuppressions, ctx`records, w`filters
    ensures AllValid(ctxs) && Stacked(w, ctxs, stack) && (stack == [] ==> w.filters == old(w.filters))
    ensures var was := old(Now(w, ctxs));
            Now(w, ctxs) ==
            was.(ctxs := was.ctxs[ctx := Filtered(was.ctxs[ctx], category, message, moduleFile, record)])
  {
    ghost var was := Now(w, ctxs);
    var list := ctx.AddFilter(w, category, message, moduleFile, record);
    assert ctx.State() == Filtered(was.ctxs[ctx], category, message, moduleFile, record);
    assert Now(w, ctxs) == was.(ctxs := was.ctxs[ctx := ctx.State()]);
  }

  /** One with-block. */
  method Block(w: Warnings, ctxs: seq<Suppress>, ghost stack: seq<Suppress>, ctx: Suppress, body: seq<Step>)
    returns (ok: bool)
    requires Stacked(w, ctxs, stack) && AllValid(ctxs) && ctx in ctxs
    modifies w, ctxs
    decreases body, 1
    ensures Stacked(w, ctxs, stack) && AllValid(ctxs) && w.show == old(w.show) && w.filters == old(w.filters)
    ensures forall c :: c in stack ==> c.savedFilters == old(c.savedFilters)
    ensures Outcome(Now(w, ctxs), ok) == Inside(old(Now(w, ctxs)), ctxs, stack, ctx, body)
  {
    ok := EnterOne(w, ctxs, stack, ctx);
    if ok {
      ok := Execute(w, ctxs, stack + [ctx], body);
      LeaveOne(w, ctxs, stack, ctx);
    }
  }

  method EnterOne(w: Warnings, ghost ctxs: seq<Suppress>, ghost stack: seq<Suppress>, ctx: Suppress) returns (ok: bool)
    requires Stacked(w, ctxs, stack) && AllValid(ctxs) && ctx in ctxs
    modifies ctx, w`show, w`filters
    ensures AllValid(ctxs) && ok == !old(ctx.entered)
    ensures !ok ==> Stacked(w, ctxs, stack) && w.show == old(w.show) && w.filters == old(w.filters)
                    && Now(w, ctxs) == old(Now(w, ctxs)) && ctx.savedFilters == old(ctx.savedFilters)
    ensures ok ==> ctx !in stack && Stacked(w, ctxs, stack + [ctx])
                   && ctx.origShow == old(w.show) && ctx.savedFilters == old(w.filters)
    ensures ok ==> var was := old(Now(w, ctxs)); Now(w, ctxs) == was.(ctxs := was.ctxs[ctx := Entered(was.ctxs[ctx])])
  {
    ghost var was := Now(w, ctxs);
    ok := ctx.Enter(w);
    assert Now(w, ctxs) == was.(ctxs := was.ctxs[ctx := ctx.State()]);
    if ok {
      ClearedIs(was.ctxs[ctx].notes.records, ctx.suppressions, ctx.records);
      assert (stack + [ctx])[..|stack|] == stack;
    }
  }

  method LeaveOne(w: Warnings, ghost ctxs: seq<Suppress>, ghost stack: seq<Suppress>, ctx: Suppress)
    requires Stacked(w, ctxs, stack + [ctx]) && AllValid(ctxs) && ctx in ctxs
    modifies ctx`entered, w`show, w`filters
    ensures Stacked(w, ctxs, stack) && AllValid(ctxs)
    ensures w.show == ctx.origShow && w.filters == ctx.savedFilters
    ensures Now(w, ctxs) == Left(old(Now(w, ctxs)), ctx)
  {
    ghost var was, inner := Now(w, ctxs), stack + [ctx];
    assert inner[..|stack|] == stack && inner[|stack|] == ctx;
    ctx.Exit(w);
    assert Now(w, ctxs) == was.(ctxs := was.ctxs[ctx := ctx.State()]);
  }
}
