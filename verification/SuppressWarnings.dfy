/** suppress_warnings: filtering, recording and forwarding of warnings while contexts are entered. */
module SuppressWarnings {
  import opened Wrappers

  datatype Warning = Warning(message: string, category: nat, filename: string, lineno: int)

  /** What issubclass and a compiled pattern answer. */
  datatype Oracle = Oracle(subclass: (nat, nat) -> bool, matches: (string, string) -> bool)

  /** A suppression; record is the number of the list it records into, if it records. */
  datatype Filter = Filter(category: nat, message: string, moduleFile: Option<string>, record: Option<nat>)

  datatype Rule = Always | ByModule | Once | ByLocation

  datatype Key = ModuleKey(category: nat, filename: string) | OnceKey(category: nat)
               | LocationKey(category: nat, filename: string, lineno: int)

  function KeyOf(rule: Rule, w: Warning): Key {
    match rule
    case ByModule => ModuleKey(w.category, w.filename)
    case ByLocation => LocationKey(w.category, w.filename, w.lineno)
    case _ => OnceKey(w.category)
  }

  /** Two warnings are of one kind: for "once" of one category, for the others also of one file, or file and line. */
  lemma KeyMeans(v: Warning, w: Warning)
    ensures KeyOf(Once, v) == KeyOf(Once, w) <==> v.category == w.category
    ensures KeyOf(ByModule, v) == KeyOf(ByModule, w) <==> v.category == w.category && v.filename == w.filename
    ensures KeyOf(ByLocation, v) == KeyOf(ByLocation, w) <==>
              v.category == w.category && v.filename == w.filename && v.lineno == w.lineno
  {
  }

  /** The filter applies: category and message match, and so does the module if one is given. */
  predicate Applies(o: Oracle, f: Filter, w: Warning) {
    && o.subclass(w.category, f.category)
    && o.matches(f.message, w.message)
    && (f.moduleFile.None? || w.filename <= f.moduleFile.value)
  }

  /** The position of the newest filter that applies. */
  ghost predicate IsNewest(o: Oracle, filters: seq<Filter>, w: Warning, k: nat) {
    && k < |filters| && Applies(o, filters[k], w)
    && forall j :: k < j < |filters| ==> !Applies(o, filters[j], w)
  }

  /** Every record number is below n. */
  ghost predicate Recordable(filters: seq<Filter>, n: nat) {
    forall k :: 0 <= k < |filters| && filters[k].record.Some? ==> filters[k].record.value < n
  }

  ghost predicate Unmatched(o: Oracle, filters: seq<Filter>, w: Warning) {
    forall k :: 0 <= k < |filters| ==> !Applies(o, filters[k], w)
  }

  /** Where the newest filter that applies records w, if it exists and records. */
  function RecordOf(o: Oracle, filters: seq<Filter>, w: Warning): (r: Option<nat>)
    ensures Unmatched(o, filters, w) ==> r == None
    ensures forall k: nat :: IsNewest(o, filters, w, k) ==> r == filters[k].record
  {
    if filters == [] then None
    else
      var n := |filters| - 1;
      assert forall k: nat :: IsNewest(o, filters, w, k) && k < n ==> IsNewest(o, filters[..n], w, k);
      if Applies(o, filters[n], w) then filters[n].record else RecordOf(o, filters[..n], w)
  }

  lemma {:induction false} NewestExists(o: Oracle, filters: seq<Filter>, w: Warning)
    requires !Unmatched(o, filters, w)
    ensures exists k: nat :: IsNewest(o, filters, w, k)
  {
    var n := |filters| - 1;
    if Applies(o, filters[n], w) {
      assert IsNewest(o, filters, w, n);
    } else {
      NewestExists(o, filters[..n], w);
      var k: nat :| IsNewest(o, filters[..n], w, k);
      assert IsNewest(o, filters, w, k);
    }
  }

  /** The warnings module: its filter list, and who is asked to show a warning. */
  class Warnings {
    var show: Handler
    var filters: seq<Filter>
    var shown: seq<Warning>

    constructor ()
      ensures show == Original && filters == [] && shown == []
    {
      show := Original;
      filters := [];
      shown := [];
    }
  }

  datatype Handler = Original | Context(sup: Suppress)

  class Suppress {
    const oracle: Oracle
    const rule: Rule
    var entered: bool
    var suppressions: seq<Filter>
    var tmpSuppressions: seq<Filter>
    var forwarded: set<Key>
    var log: seq<Warning>
    /** The record lists handed out so far. */
    var records: seq<seq<Warning>>
    var origShow: Handler
    var savedFilters: seq<Filter>

    /** The filters in force, oldest first. */
    function InForce(): seq<Filter>
      reads this
    {
      suppressions + tmpSuppressions
    }

    ghost predicate Valid()
      reads this
    {
      Recordable(suppressions, |records|) && Recordable(tmpSuppressions, |records|)
    }

    constructor (oracle: Oracle, rule: Rule)
      ensures Valid() && !entered && InForce() == [] && records == []
      ensures this.oracle == oracle && this.rule == rule
    {
      this.oracle, this.rule := oracle, rule;
      entered, suppressions, tmpSuppressions := false, [], [];
      forwarded, log, records := {}, [], [];
      origShow, savedFilters := Original, [];
    }

    /** _filter: a new suppression, in force for this entry only if made while entered. */
    method AddFilter(w: Warnings, category: nat, message: string, moduleFile: Option<string>, record: bool)
      returns (list: Option<nat>)
      requires Valid()
      modifies this`suppressions, this`tmpSuppressions, this`records, w`filters
      ensures Valid()
      ensures list == if record then Some(|old(records)|) else None
      ensures records == if record then old(records) + [[]] else old(records)
      ensures var f := Filter(category, message, moduleFile, list);
              if entered then suppressions == old(suppressions) && tmpSuppressions == old(tmpSuppressions) + [f]
              else suppressions == old(suppressions) + [f] && tmpSuppressions == old(tmpSuppressions)
      ensures w.filters == (if entered then [Filter(category, message, moduleFile, list)] else []) + old(w.filters)
    {
      list := None;
      if record {
        list := Some(|records|);
        records := records + [[]];
      }
      var f := Filter(category, message, moduleFile, list);
      if entered {
        w.filters := [f] + w.filters;
        tmpSuppressions := tmpSuppressions + [f];
      } else {
        suppressions := suppressions + [f];
      }
    }

    /** __enter__: refused while entered; otherwise this context becomes the handler, with its record lists cleared. */
    method Enter(w: Warnings) returns (ok: bool)
      requires Valid()
      modifies this, w`show, w`filters
      ensures Valid() && ok == !old(entered) && entered
      ensures !ok ==> w.show == old(w.show) && w.filters == old(w.filters) && origShow == old(origShow)
                      && savedFilters == old(savedFilters) && State() == old(State())
      ensures ok ==>
                && w.show == Context(this) && origShow == old(w.show) && savedFilters == old(w.filters)
                && suppressions == old(suppressions) && tmpSuppressions == [] && forwarded == {} && log == []
                && w.filters == Pushed(old(w.filters), suppressions) && Cleared(old(records), suppressions, records)
    {
      if entered {
        return false;
      }
      origShow := w.show;
      savedFilters := w.filters;
      entered := true;
      tmpSuppressions := [];
      forwarded := {};
      log := [];
      for k := 0 to |suppressions|
        invariant tmpSuppressions == [] && suppressions == old(suppressions) && Valid()
        invariant Cleared(old(records), suppressions[..k], records)
        invariant w.filters == Pushed(old(w.filters), suppressions[..k])
        invariant entered && forwarded == {} && log == [] && origShow == old(w.show) && savedFilters == old(w.filters)
      {
        ClearedAdd(old(records), suppressions, k, records);
        if suppressions[k].record.Some? {
          records := records[suppressions[k].record.value := []];
        }
        w.filters := [suppressions[k]] + w.filters;
      }
      assert suppressions[..|suppressions|] == suppressions;
      w.show := Context(this);
      return true;
    }

    /** __exit__: what was found on entering is put back. */
    method Exit(w: Warnings)
      requires Valid() && entered
      modifies this`entered, w`show, w`filters
      ensures Valid() && !entered
      ensures w.show == origShow && w.filters == savedFilters
    {
      w.show := origShow;
      w.filters := savedFilters;
      entered := false;
    }

    /** Everything about the context but what it found on entering. */
    ghost function State(): Ctx
      reads this
    {
      Ctx(oracle, rule, entered, suppressions, tmpSuppressions, Noted())
    }

    /** What has been noted since entering. */
    ghost function Noted(): Notes
      reads this
    {
      Notes(forwarded, log, records)
    }

    /**
      _showwarning. A warning some filter applies to is recorded under the newest such filter, if
      that one records, and goes no further; any other goes on to the handler found on entering,
      unless the rule forwards only the first of its kind.
     */
    method ShowWarning(w: Warning) returns (forward: bool)
      requires Valid()
      modifies this`forwarded, this`log, this`records
      ensures Valid()
      ensures ShownOne(oracle, InForce(), rule, old(Noted()), w, forward, Noted())
      ensures forward ==> NoFilter(oracle, suppressions + tmpSuppressions, w)
      ensures rule == Always && NoFilter(oracle, suppressions + tmpSuppressions, w) ==> forward
    {
      UnmatchedIff(oracle, InForce(), w);
      var filters := suppressions + tmpSuppressions;
      for k := |filters| downto 0
        invariant filters == InForce() && Valid()
        invariant forall j :: k <= j < |filters| ==> !Applies(oracle, filters[j], w)
        invariant log == old(log) && records == old(records) && forwarded == old(forwarded)
      {
        var f := filters[k];
        if oracle.subclass(w.category, f.category) && oracle.matches(f.message, w.message) {
          if f.moduleFile.None? || w.filename <= f.moduleFile.value {
            assert IsNewest(oracle, filters, w, k);
            if f.record.Some? {
              log := log + [w];
              records := records[f.record.value := records[f.record.value] + [w]];
            }
            return false;
          }
        }
      }
      if rule == Always {
        return true;
      }
      var key := KeyOf(rule, w);
      if key !in forwarded {
        forwarded := forwarded + {key};
        return true;
      }
      return false;
    }

    /**
      Any sequence of warnings shown to this context: forwarded are the ones no filter applies to,
      or the first of each kind among them; every other one is recorded under its newest filter
      and under no other, in the order shown.
     */
    method ShowAll(ws: seq<Warning>) returns (out: seq<Warning>)
      requires Valid()
      modifies this`forwarded, this`log, this`records
      ensures Valid()
      ensures ShownAll(oracle, InForce(), rule, old(Noted()), ws, out, Noted())
      ensures old(forwarded) == {} ==> out == Firsts(oracle, suppressions + tmpSuppressions, rule, ws)
      decreases |ws|
    {
      ForwardedIsFirsts(oracle, suppressions + tmpSuppressions, rule, ws);
      if ws == [] {
        return [];
      }
      ghost var before, filters := Noted(), InForce();
      var n := |ws| - 1;
      out := ShowAll(ws[..n]);
      ghost var noted := Noted();
      var forward := ShowWarning(ws[n]);
      ShownStep(oracle, filters, rule, before, ws, n, out, noted, forward, Noted());
      if forward {
        out := out + [ws[n]];
      }
    }
  }

  /** The warnings module's filter list after these filters were put in front of it one after the other. */
  ghost function Pushed(base: seq<Filter>, filters: seq<Filter>): seq<Filter> {
    if filters == [] then base
    else [filters[|filters| - 1]] + Pushed(base, filters[..|filters| - 1])
  }

  /** The last filter comes first, and the list as it was behind all of them. */
  lemma {:induction false} PushedMeans(base: seq<Filter>, filters: seq<Filter>)
    ensures |Pushed(base, filters)| == |filters| + |base|
    ensures forall k :: 0 <= k < |filters| ==> Pushed(base, filters)[k] == filters[|filters| - 1 - k]
    ensures forall k :: 0 <= k < |base| ==> Pushed(base, filters)[|filters| + k] == base[k]
  {
    if filters == [] {
    } else {
      PushedMeans(base, filters[..|filters| - 1]);
    }
  }

  /** The record lists of the filters are empty, and all others as before. */
  ghost predicate Cleared(before: seq<seq<Warning>>, filters: seq<Filter>, after: seq<seq<Warning>>) {
    && |after| == |before|
    && forall r: nat :: r < |after| ==> after[r] == if Records(filters, r) then [] else before[r]
  }

  ghost predicate Records(filters: seq<Filter>, r: nat) {
    exists k :: 0 <= k < |filters| && filters[k].record == Some(r)
  }

  lemma ClearedAdd(before: seq<seq<Warning>>, filters: seq<Filter>, k: nat, now: seq<seq<Warning>>)
    requires k < |filters| && Cleared(before, filters[..k], now) && Recordable(filters, |now|)
    ensures var rec := filters[k].record;
            Cleared(before, filters[..k + 1], if rec.Some? then now[rec.value := []] else now)
    ensures filters[..k + 1][..k] == filters[..k]
  {
    var start, more := filters[..k], filters[..k + 1];
    assert more == start + [filters[k]];
    forall r: nat
      ensures Records(more, r) <==> Records(start, r) || filters[k].record == Some(r)
    {
      if Records(start, r) {
        var j :| 0 <= j < k && start[j].record == Some(r);
        assert more[j].record == Some(r);
      }
      if filters[k].record == Some(r) {
        assert more[k].record == Some(r);
      }
    }
  }

  /** What a context notes: the kinds it has forwarded, its log, and its record lists. */
  datatype Notes = Notes(forwarded: set<Key>, log: seq<Warning>, records: seq<seq<Warning>>)

  /** A context as a value. */
  datatype Ctx = Ctx(oracle: Oracle, rule: Rule, entered: bool, suppressions: seq<Filter>, tmpSuppressions: seq<Filter>,
                     notes: Notes)
  {
    function InForce(): seq<Filter> {
      suppressions + tmpSuppressions
    }

    ghost predicate LetsPass(w: Warning) {
      Passes(oracle, InForce(), rule, notes.forwarded, w)
    }
  }

  /** No filter applies, and the rule does not hold the warning back. */
  ghost predicate Passes(o: Oracle, filters: seq<Filter>, rule: Rule, seen: set<Key>, w: Warning) {
    Unmatched(o, filters, w) && (rule == Always || KeyOf(rule, w) !in seen)
  }

  /** One warning shown: it is forwarded, or appended to the list of its newest filter and the log, or dropped. */
  ghost predicate ShownOne(o: Oracle, filters: seq<Filter>, rule: Rule, a: Notes, w: Warning, forward: bool, b: Notes)
  {
    var r := RecordOf(o, filters, w);
    && (forward <==> Passes(o, filters, rule, a.forwarded, w))
    && b.forwarded == (if forward && rule != Always then a.forwarded + {KeyOf(rule, w)} else a.forwarded)
    && b.log == (if r.Some? then a.log + [w] else a.log)
    && |b.records| == |a.records|
    && forall k :: 0 <= k < |b.records| ==>
         b.records[k] == if r == Some(k) then a.records[k] + [w] else a.records[k]
  }

  ghost predicate ShownAll(o: Oracle, filters: seq<Filter>, rule: Rule, a: Notes, ws: seq<Warning>,
                           out: seq<Warning>, b: Notes)
  {
    && out == Forwarded(o, filters, rule, a.forwarded, ws)
    && b.forwarded == a.forwarded + (if rule == Always then {} else Kinds(o, filters, rule, ws))
    && b.log == a.log + Logged(o, filters, ws)
    && |b.records| == |a.records|
    && forall k :: 0 <= k < |b.records| ==> b.records[k] == a.records[k] + Recorded(o, filters, ws, k)
  }

  lemma ShownStep(o: Oracle, filters: seq<Filter>, rule: Rule, a: Notes, ws: seq<Warning>, n: nat, out: seq<Warning>,
                  b: Notes, forward: bool, c: Notes)
    requires |ws| == n + 1
    requires ShownAll(o, filters, rule, a, ws[..n], out, b) && ShownOne(o, filters, rule, b, ws[n], forward, c)
    ensures ShownAll(o, filters, rule, a, ws, if forward then out + [ws[n]] else out, c)
  {
    ForwardedStep(o, filters, rule, a.forwarded, ws, n, out, b.forwarded, forward, c.forwarded);
    LoggedStep(o, filters, ws, n, a.log);
    RecordedStep(o, filters, a.records, ws, n, b.records, c.records);
  }

  lemma ForwardedStep(o: Oracle, filters: seq<Filter>, rule: Rule, a: set<Key>, ws: seq<Warning>, n: nat,
                      out: seq<Warning>, b: set<Key>, forward: bool, c: set<Key>)
    requires |ws| == n + 1 && out == Forwarded(o, filters, rule, a, ws[..n])
    requires b == a + (if rule == Always then {} else Kinds(o, filters, rule, ws[..n]))
    requires forward <==> Passes(o, filters, rule, b, ws[n])
    requires c == if forward && rule != Always then b + {KeyOf(rule, ws[n])} else b
    ensures (if forward then out + [ws[n]] else out) == Forwarded(o, filters, rule, a, ws)
    ensures c == a + (if rule == Always then {} else Kinds(o, filters, rule, ws))
  {
    KindsStep(o, filters, rule, ws, n);
  }

  lemma LoggedStep(o: Oracle, filters: seq<Filter>, ws: seq<Warning>, n: nat, log: seq<Warning>)
    requires |ws| == n + 1
    ensures log + Logged(o, filters, ws) ==
            log + Logged(o, filters, ws[..n]) + if RecordOf(o, filters, ws[n]).Some? then [ws[n]] else []
  {
  }

  lemma RecordedStep(o: Oracle, filters: seq<Filter>, a: seq<seq<Warning>>, ws: seq<Warning>, n: nat,
                     b: seq<seq<Warning>>, c: seq<seq<Warning>>)
    requires |ws| == n + 1 && |a| == |b| == |c|
    requires forall k :: 0 <= k < |b| ==> b[k] == a[k] + Recorded(o, filters, ws[..n], k)
    requires forall k :: 0 <= k < |c| ==>
               c[k] == if RecordOf(o, filters, ws[n]) == Some(k) then b[k] + [ws[n]] else b[k]
    ensures forall k :: 0 <= k < |c| ==> c[k] == a[k] + Recorded(o, filters, ws, k)
  {
    forall k | 0 <= k < |c|
      ensures c[k] == a[k] + Recorded(o, filters, ws, k)
    {
      assert b[k] == a[k] + Recorded(o, filters, ws[..n], k);
    }
  }

  lemma KindsStep(o: Oracle, filters: seq<Filter>, rule: Rule, ws: seq<Warning>, n: nat)
    requires |ws| == n + 1
    ensures Kinds(o, filters, rule, ws) ==
            Kinds(o, filters, rule, ws[..n]) + if Unmatched(o, filters, ws[n]) then {KeyOf(rule, ws[n])} else {}
  {
    KindsAppend(o, filters, rule, ws[..n], ws[n]);
    assert ws[..n] + [ws[n]] == ws;
  }

  /** The kinds of the warnings no filter applies to. */
  ghost function Kinds(o: Oracle, filters: seq<Filter>, rule: Rule, ws: seq<Warning>): set<Key> {
    set k | 0 <= k < |ws| && Unmatched(o, filters, ws[k]) :: KeyOf(rule, ws[k])
  }

  lemma KindsAppend(o: Oracle, filters: seq<Filter>, rule: Rule, ws: seq<Warning>, w: Warning)
    ensures Kinds(o, filters, rule, ws + [w]) ==
            Kinds(o, filters, rule, ws) + if Unmatched(o, filters, w) then {KeyOf(rule, w)} else {}
  {
    var all := ws + [w];
    var kinds := Kinds(o, filters, rule, all);
    assert forall k :: 0 <= k < |ws| ==> all[k] == ws[k];
    assert all[|ws|] == w;
    forall key | key in Kinds(o, filters, rule, ws)
      ensures key in kinds
    {
      var k :| 0 <= k < |ws| && Unmatched(o, filters, ws[k]) && KeyOf(rule, ws[k]) == key;
      assert Unmatched(o, filters, all[k]) && KeyOf(rule, all[k]) == key;
    }
    if Unmatched(o, filters, w) {
      assert Unmatched(o, filters, all[|ws|]) && KeyOf(rule, all[|ws|]) == KeyOf(rule, w);
    }
  }

  /** Of the warnings no filter applies to: all, or the first of each kind not seen before. */
  ghost function Forwarded(o: Oracle, filters: seq<Filter>, rule: Rule, seen: set<Key>, ws: seq<Warning>)
    : (out: seq<Warning>)
  {
    if ws == [] then []
    else
      var n := |ws| - 1;
      Forwarded(o, filters, rule, seen, ws[..n]) +
      if Unmatched(o, filters, ws[n]) &&
         (rule == Always || KeyOf(rule, ws[n]) !in seen + Kinds(o, filters, rule, ws[..n]))
      then [ws[n]] else []
  }

  /** No filter has a class above the warning's, a matching pattern and, if it names one, a fitting module file. */
  ghost predicate NoFilter(o: Oracle, filters: seq<Filter>, w: Warning) {
    forall k :: 0 <= k < |filters| ==>
      var f := filters[k];
      !(o.subclass(w.category, f.category) && o.matches(f.message, w.message)
        && (f.moduleFile == None || w.filename <= f.moduleFile.value))
  }

  lemma UnmatchedIff(o: Oracle, filters: seq<Filter>, w: Warning)
    ensures Unmatched(o, filters, w) <==> NoFilter(o, filters, w)
  {
    forall k | 0 <= k < |filters|
      ensures Applies(o, filters[k], w) <==>
                && o.subclass(w.category, filters[k].category) && o.matches(filters[k].message, w.message)
                && (filters[k].moduleFile == None || w.filename <= filters[k].moduleFile.value)
    {
    }
  }

  /** Warning n goes on: no filter applies to it, nor to any earlier one that would hold it back. */
  ghost predicate GoesOn(o: Oracle, filters: seq<Filter>, rule: Rule, ws: seq<Warning>, n: nat)
    requires n < |ws|
  {
    && NoFilter(o, filters, ws[n])
    && forall k :: 0 <= k < n && NoFilter(o, filters, ws[k]) ==>
         match rule
         case Always => true
         case Once => ws[k].category != ws[n].category
         case ByModule => ws[k].category != ws[n].category || ws[k].filename != ws[n].filename
         case ByLocation =>
           ws[k].category != ws[n].category || ws[k].filename != ws[n].filename || ws[k].lineno != ws[n].lineno
  }

  /** The warnings that go on, in order. */
  ghost function Firsts(o: Oracle, filters: seq<Filter>, rule: Rule, ws: seq<Warning>): (out: seq<Warning>) {
    if ws == [] then []
    else
      var n := |ws| - 1;
      Firsts(o, filters, rule, ws[..n]) + if GoesOn(o, filters, rule, ws, n) then [ws[n]] else []
  }

  lemma GoesOnIff(o: Oracle, filters: seq<Filter>, rule: Rule, ws: seq<Warning>, n: nat)
    requires n < |ws|
    ensures GoesOn(o, filters, rule, ws, n) <==>
            && Unmatched(o, filters, ws[n])
            && (rule == Always || KeyOf(rule, ws[n]) !in Kinds(o, filters, rule, ws[..n]))
  {
    forall k | 0 <= k <= n
      ensures Unmatched(o, filters, ws[k]) <==> NoFilter(o, filters, ws[k])
    {
      UnmatchedIff(o, filters, ws[k]);
    }
    if GoesOn(o, filters, rule, ws, n) && rule != Always && KeyOf(rule, ws[n]) in Kinds(o, filters, rule, ws[..n]) {
      var k :| 0 <= k < n && Unmatched(o, filters, ws[..n][k]) && KeyOf(rule, ws[..n][k]) == KeyOf(rule, ws[n]);
      assert NoFilter(o, filters, ws[k]);
      KeyMeans(ws[k], ws[n]);
      assert false;
    }
    if Unmatched(o, filters, ws[n]) && (rule == Always || KeyOf(rule, ws[n]) !in Kinds(o, filters, rule, ws[..n])) {
      forall k | 0 <= k < n && NoFilter(o, filters, ws[k]) && rule != Always
        ensures KeyOf(rule, ws[k]) != KeyOf(rule, ws[n])
      {
        assert ws[..n][k] == ws[k];
        assert KeyOf(rule, ws[k]) in Kinds(o, filters, rule, ws[..n]);
      }
    }
  }

  /** What a context that has forwarded nothing yet forwards, in terms of the warnings alone. */
  lemma {:induction false} ForwardedIsFirsts(o: Oracle, filters: seq<Filter>, rule: Rule, ws: seq<Warning>)
    ensures Forwarded(o, filters, rule, {}, ws) == Firsts(o, filters, rule, ws)
  {
    if ws == [] {
    } else {
      var n := |ws| - 1;
      ForwardedIsFirsts(o, filters, rule, ws[..n]);
      GoesOnIff(o, filters, rule, ws, n);
      assert {} + Kinds(o, filters, rule, ws[..n]) == Kinds(o, filters, rule, ws[..n]);
    }
  }

  /** The warnings whose newest applicable filter records into list r. */
  ghost function Recorded(o: Oracle, filters: seq<Filter>, ws: seq<Warning>, r: nat): (out: seq<Warning>) {
    if ws == [] then []
    else
      var n := |ws| - 1;
      Recorded(o, filters, ws[..n], r) + if RecordOf(o, filters, ws[n]) == Some(r) then [ws[n]] else []
  }

  ghost function Logged(o: Oracle, filters: seq<Filter>, ws: seq<Warning>): (out: seq<Warning>) {
    if ws == [] then []
    else
      var n := |ws| - 1;
      Logged(o, filters, ws[..n]) + if RecordOf(o, filters, ws[n]).Some? then [ws[n]] else []
  }

  /** No two of the warnings are of one kind, and theirs are exactly these kinds. */
  ghost predicate OnceEach(rule: Rule, out: seq<Warning>, kinds: set<Key>) {
    && (forall i, j :: 0 <= i < j < |out| ==> KeyOf(rule, out[i]) != KeyOf(rule, out[j]))
    && (forall i :: 0 <= i < |out| ==> KeyOf(rule, out[i]) in kinds)
    && (forall key :: key in kinds ==> exists i :: 0 <= i < |out| && KeyOf(rule, out[i]) == key)
  }

  lemma OnceEachAdd(rule: Rule, out: seq<Warning>, kinds: set<Key>, w: Warning)
    requires OnceEach(rule, out, kinds) && KeyOf(rule, w) !in kinds
    ensures OnceEach(rule, out + [w], kinds + {KeyOf(rule, w)})
  {
    var more := out + [w];
    forall key | key in kinds + {KeyOf(rule, w)}
      ensures exists i :: 0 <= i < |more| && KeyOf(rule, more[i]) == key
    {
      if key in kinds {
        var i :| 0 <= i < |out| && KeyOf(rule, out[i]) == key;
        assert more[i] == out[i];
      } else {
        assert more[|out|] == w;
      }
    }
  }

  /** Under a rule other than 'always' exactly one warning of each kind no filter applies to is forwarded. */
  lemma {:induction false} ForwardedOnce(o: Oracle, filters: seq<Filter>, rule: Rule, ws: seq<Warning>)
    requires rule != Always
    ensures OnceEach(rule, Forwarded(o, filters, rule, {}, ws), Kinds(o, filters, rule, ws))
  {
    if ws == [] {
    } else {
      var n := |ws| - 1;
      var out, kinds := Forwarded(o, filters, rule, {}, ws[..n]), Kinds(o, filters, rule, ws[..n]);
      ForwardedOnce(o, filters, rule, ws[..n]);
      KindsStep(o, filters, rule, ws, n);
      assert {} + kinds == kinds;
      if Unmatched(o, filters, ws[n]) && KeyOf(rule, ws[n]) !in kinds {
        OnceEachAdd(rule, out, kinds, ws[n]);
      } else {
        assert Kinds(o, filters, rule, ws) == kinds;
        assert Forwarded(o, filters, rule, {}, ws) == out + [] == out;
      }
    }
  }
}
