/** The coverage ledger: what a test report, the declared states and the item list add up to. */
module Ledger {
  import opened Wrappers

  // ----- the items -----

  datatype Members = Members(public: seq<string>, dunder: seq<string>)

  /** The surface manifest; a class entry without members is malformed. */
  datatype Surface = Surface(names: seq<string>, exploded: seq<(string, Option<Members>)>)

  datatype Fatal =
    | MalformedSurface(cls: string)
    | DuplicateItems(items: set<string>)
    | UnknownMechanism(item: string)
    | BucketsDisagree
    | CountsDisagree

  predicate WellFormed(entry: (string, Option<Members>)) {
    entry.0 != "" && entry.1.Some?
  }

  function Prefixed(cls: string, names: seq<string>): (items: seq<string>)
    ensures |items| == |names|
  {
    seq(|names|, k requires 0 <= k < |names| => cls + "." + names[k])
  }

  function MembersOf(entry: (string, Option<Members>)): seq<string> {
    if entry.1.None? then []
    else Prefixed(entry.0, entry.1.value.public) + Prefixed(entry.0, entry.1.value.dunder)
  }

  /** The items of the exploded classes, class after class. */
  function Exploded(entries: seq<(string, Option<Members>)>): seq<string> {
    if entries == [] then []
    else
      var n := |entries| - 1;
      Exploded(entries[..n]) + MembersOf(entries[n])
  }

  function Items(surface: Surface): seq<string> {
    surface.names + Exploded(surface.exploded)
  }

  /** The items are the listed names and, for every class entry, its name, a dot and one of its members. */
  lemma ItemsAre(surface: Surface, x: string)
    ensures x in Items(surface) <==>
            x in surface.names || exists e, m :: e in surface.exploded && MemberItem(e, m, x)
  {
    ExplodedAre(surface.exploded, x);
  }

  ghost predicate MemberItem(entry: (string, Option<Members>), m: string, x: string) {
    entry.1.Some? && (m in entry.1.value.public || m in entry.1.value.dunder) && x == entry.0 + "." + m
  }

  lemma MembersAre(entry: (string, Option<Members>), x: string)
    ensures x in MembersOf(entry) <==> exists m :: MemberItem(entry, m, x)
  {
    if entry.1.Some? {
      var public, dunder := entry.1.value.public, entry.1.value.dunder;
      if x in MembersOf(entry) {
        var k :| 0 <= k < |public| + |dunder| && MembersOf(entry)[k] == x;
        assert MemberItem(entry, if k < |public| then public[k] else dunder[k - |public|], x);
      }
      if m :| MemberItem(entry, m, x) {
        if m in public {
          var k :| 0 <= k < |public| && public[k] == m;
          assert MembersOf(entry)[k] == x;
        } else {
          var k :| 0 <= k < |dunder| && dunder[k] == m;
          assert MembersOf(entry)[|public| + k] == x;
        }
      }
    }
  }

  lemma {:induction false} ExplodedAre(entries: seq<(string, Option<Members>)>, x: string)
    ensures x in Exploded(entries) <==> exists e, m :: e in entries && MemberItem(e, m, x)
  {
    if entries == [] {
    } else {
      var n := |entries| - 1;
      ExplodedAre(entries[..n], x);
      MembersAre(entries[n], x);
      if e, m :| e in entries && MemberItem(e, m, x) {
        assert e in entries[..n] || e == entries[n];
      }
      assert forall e :: e in entries[..n] ==> e in entries;
      assert entries[n] in entries;
    }
  }

  ghost predicate Distinct(items: seq<string>) {
    forall i, j :: 0 <= i < j < |items| ==> items[i] != items[j]
  }

  /** The items a surface lists: refused exactly if a class entry is malformed or an item is there twice. */
  method AllItems(surface: Surface) returns (r: Result<seq<string>, Fatal>)
    ensures r.Success? <==>
              (forall e :: e in surface.exploded ==> WellFormed(e)) && Distinct(Items(surface))
    ensures r.Success? ==> r.value == Items(surface)
    ensures r.Failure? ==>
              match r.error
              case MalformedSurface(cls) => exists e :: e in surface.exploded && !WellFormed(e) && e.0 == cls
              case DuplicateItems(items) =>
                items != {} && forall x :: x in items <==> Twice(Items(surface), x)
              case _ => false
  {
    var exploded := [];
    for k := 0 to |surface.exploded|
      invariant exploded == Exploded(surface.exploded[..k])
      invariant forall e :: e in surface.exploded[..k] ==> WellFormed(e)
    {
      var entry := surface.exploded[k];
      if entry.0 == "" || entry.1.None? {
        assert entry in surface.exploded && !WellFormed(entry);
        return Failure(MalformedSurface(entry.0));
      }
      ghost var next := surface.exploded[..k + 1];
      assert next == surface.exploded[..k] + [entry];
      assert next[..k] == surface.exploded[..k] && next[k] == entry;
      exploded := exploded + (Prefixed(entry.0, entry.1.value.public) + Prefixed(entry.0, entry.1.value.dunder));
    }
    assert surface.exploded[..|surface.exploded|] == surface.exploded;
    var items := surface.names + exploded;
    var duplicates := set x | x in items && multiset(items)[x] > 1;
    DuplicatesMean(items, duplicates);
    if duplicates != {} {
      return Failure(DuplicateItems(duplicates));
    }
    return Success(items);
  }

  /** x is in the list at two places. */
  ghost predicate Twice(items: seq<string>, x: string) {
    exists i, j :: 0 <= i < j < |items| && items[i] == x == items[j]
  }

  lemma DuplicatesMean(items: seq<string>, duplicates: set<string>)
    requires duplicates == set x | x in items && multiset(items)[x] > 1
    ensures forall x :: x in duplicates <==> Twice(items, x)
    ensures duplicates == {} <==> Distinct(items)
  {
    forall x
      ensures x in duplicates <==> Twice(items, x)
    {
      TwiceIff(items, x);
    }
    if !Distinct(items) {
      var i, j :| 0 <= i < j < |items| && items[i] == items[j];
      assert Twice(items, items[i]);
    }
    if duplicates != {} {
      var x :| x in duplicates;
      assert Twice(items, x);
    }
  }

  lemma {:induction false} OnceIff(items: seq<string>, x: string)
    ensures multiset(items)[x] > 0 <==> exists i :: 0 <= i < |items| && items[i] == x
  {
    assert multiset(items)[x] > 0 <==> x in items;
  }

  lemma {:induction false} TwiceIff(items: seq<string>, x: string)
    ensures multiset(items)[x] > 1 <==> Twice(items, x)
  {
    if items == [] {
    } else {
      var n := |items| - 1;
      var start := items[..n];
      assert items == start + [items[n]];
      TwiceIff(start, x);
      OnceIff(start, x);
      if multiset(items)[x] > 1 {
        if multiset(start)[x] > 1 {
          var i, j :| 0 <= i < j < n && start[i] == x == start[j];
          assert items[i] == x == items[j];
        } else {
          var i :| 0 <= i < n && start[i] == x;
          assert items[i] == x == items[n];
        }
      }
      if i, j :| 0 <= i < j < |items| && items[i] == x == items[j] {
        assert start[i] == x;
        if j < n {
          assert start[i] == x == start[j];
        }
      }
    }
  }

  // ----- the test report -----

  datatype Kind = Ulp | Epsilon | TieExempt | MessagePair

  /** The mechanism an entry names, if it has that key at all. */
  datatype Mechanism = Missing | Known(kind: Kind) | Other

  datatype Entry = Graded(pass: bool, tolerant: bool, mechanism: Mechanism, maxUlp: Option<real>) | Legacy(pass: bool)

  type Bounds = map<string, Option<real>>

  datatype Results = Results(passed: set<string>, failed: set<string>,
                             ulp: Bounds, epsilon: Bounds, tieExempt: Bounds, messagePair: Bounds)

  /** A tolerant pass under a mechanism there is no bucket for. */
  predicate Unscorable(e: Entry) {
    e.Graded? && e.pass && e.tolerant && e.mechanism == Other
  }

  /** The tolerance an entry passed under. */
  function Tolerance(e: Entry): (kind: Option<Kind>) {
    if e.Legacy? || !e.pass || !e.tolerant then None
    else match e.mechanism
         case Missing => Some(Ulp)
         case Known(k) => Some(k)
         case Other => None
  }

  ghost function Under(report: map<string, Entry>, kind: Kind): Bounds {
    map k | k in report && Tolerance(report[k]) == Some(kind) :: report[k].maxUlp
  }

  ghost function Scored(report: map<string, Entry>): Results {
    Results((set k | k in report && report[k].pass), (set k | k in report && !report[k].pass),
            Under(report, Ulp), Under(report, Epsilon), Under(report, TieExempt), Under(report, MessagePair))
  }

  /** load_test_results. Without a report nothing is tested; an entry that cannot be scored stops everything. */
  method LoadTestResults(report: Option<map<string, Entry>>) returns (r: Result<Results, Fatal>)
    ensures report.None? ==> r == Success(Scored(map[]))
    ensures report.Some? ==>
              if exists k :: k in report.value && Unscorable(report.value[k])
              then r.Failure? && r.error.UnknownMechanism?
                   && r.error.item in report.value && Unscorable(report.value[r.error.item])
              else r == Success(Scored(report.value))
  {
    var passed, failed := {}, {};
    var ulp: Bounds, epsilon: Bounds, tieExempt: Bounds, messagePair: Bounds := map[], map[], map[], map[];
    ScoredNothing();
    if report.None? {
      return Success(Results(passed, failed, ulp, epsilon, tieExempt, messagePair));
    }
    var data := report.value;
    var left := data.Keys;
    ghost var done: map<string, Entry> := map[];
    while left != {}
      invariant left <= data.Keys && done == map k | k in data && k !in left :: data[k]
      invariant forall k :: k in done ==> !Unscorable(data[k])
      invariant Results(passed, failed, ulp, epsilon, tieExempt, messagePair) == Scored(done)
      decreases left
    {
      var k :| k in left;
      var v := data[k];
      left := left - {k};
      if Unscorable(v) {
        return Failure(UnknownMechanism(k));
      }
      ghost var before := done;
      done := map j | j in data && j !in left :: data[j];
      ScoredAdd(before, k, v, done);
      match v {
        case Graded(pass, tolerant, mechanism, maxUlp) =>
          if pass {
            passed := passed + {k};
            if tolerant {
              match mechanism {
                case Known(Epsilon) => epsilon := epsilon[k := maxUlp];
                case Known(TieExempt) => tieExempt := tieExempt[k := maxUlp];
                case Known(MessagePair) => messagePair := messagePair[k := maxUlp];
                case _ => ulp := ulp[k := maxUlp];
              }
            }
          } else {
            failed := failed + {k};
          }
        case Legacy(pass) =>
          if pass {
            passed := passed + {k};
          } else {
            failed := failed + {k};
          }
      }
    }
    assert done == data;
    return Success(Results(passed, failed, ulp, epsilon, tieExempt, messagePair));
  }

  lemma ScoredNothing()
    ensures Scored(map[]) == Results({}, {}, map[], map[], map[], map[])
  {
    forall kind
      ensures Under(map[], kind) == map[]
    {
    }
    assert Scored(map[]).passed == {} && Scored(map[]).failed == {};
  }

  lemma UnderAdd(before: map<string, Entry>, k: string, v: Entry, after: map<string, Entry>, kind: Kind)
    requires k !in before && after == before[k := v]
    ensures Under(after, kind) ==
            if Tolerance(v) == Some(kind) then Under(before, kind)[k := v.maxUlp] else Under(before, kind)
  {
  }

  lemma ScoredAdd(before: map<string, Entry>, k: string, v: Entry, after: map<string, Entry>)
    requires k !in before && after == before[k := v]
    ensures var a, b := Scored(before), Scored(after);
            && b.passed == (if v.pass then a.passed + {k} else a.passed)
            && b.failed == (if v.pass then a.failed else a.failed + {k})
            && b.ulp == (if Tolerance(v) == Some(Ulp) then a.ulp[k := v.maxUlp] else a.ulp)
            && b.epsilon == (if Tolerance(v) == Some(Epsilon) then a.epsilon[k := v.maxUlp] else a.epsilon)
            && b.tieExempt == (if Tolerance(v) == Some(TieExempt) then a.tieExempt[k := v.maxUlp] else a.tieExempt)
            && b.messagePair == (if Tolerance(v) == Some(MessagePair) then a.messagePair[k := v.maxUlp]
                                 else a.messagePair)
  {
    UnderAdd(before, k, v, after, Ulp);
    UnderAdd(before, k, v, after, Epsilon);
    UnderAdd(before, k, v, after, TieExempt);
    UnderAdd(before, k, v, after, MessagePair);
  }

  // ----- failures of axis cases -----

  /** The text after the last slash. */
  function LastPart(key: string): (part: string)
    requires '/' in key
    ensures '/' !in part && |part| < |key|
    ensures key[|key| - |part|..] == part && key[|key| - |part| - 1] == '/'
  {
    var n := |key| - 1;
    if key[n] == '/' then []
    else
      assert key == key[..n] + [key[n]];
      LastPart(key[..n]) + [key[n]]
  }

  /** The failure of a key counts against this item: it is the item's own, or an axis case named after it. */
  predicate Blames(key: string, item: string) {
    key == item || ('/' in key && LastPart(key) == item)
  }

  /** The item is the whole key, or the part of it behind a slash and itself without one. */
  lemma BlamesMeans(key: string, item: string)
    ensures Blames(key, item) <==>
            key == item || ('/' !in item && exists start: string :: key == start + "/" + item)
  {
    if '/' in key && LastPart(key) == item {
      assert key == key[..|key| - |item| - 1] + "/" + item;
    }
    if start: string :| '/' !in item && key == start + "/" + item {
      assert key[|start|] == '/';
      LastPartUnique(key, start, item);
    }
  }

  lemma LastPartUnique(key: string, start: string, item: string)
    requires '/' !in item && key == start + "/" + item && '/' in key
    ensures LastPart(key) == item
  {
    var part := LastPart(key);
    assert key[|start|] == '/' && key[|start| + 1..] == item;
    assert forall k :: 0 <= k < |item| ==> key[|start| + 1 + k] == item[k];
    assert forall k :: 0 <= k < |part| ==> key[|key| - |part| + k] == part[k];
    if |part| < |item| {
      assert false;
    } else if |part| > |item| {
      assert false;
    }
  }

  /** fold_axis_failures: a failed axis case counts as a failure of the item it ends in, if there is one. */
  method FoldAxisFailures(failed: set<string>, items: seq<string>) returns (folded: set<string>)
    ensures forall x :: x in folded <==> x in failed || (x in items && exists key :: key in failed && Blames(key, x))
  {
    var surface := set x | x in items;
    folded := failed;
    var left := failed;
    while left != {}
      invariant left <= failed
      invariant forall x :: x in folded <==>
                  x in failed || (x in items && exists key :: key in failed - left && Blames(key, x))
      decreases left
    {
      var key :| key in left;
      ghost var before := left;
      left := left - {key};
      assert failed - left == failed - before + {key};
      if '/' in key {
        var candidate := LastPart(key);
        if candidate in surface {
          assert Blames(key, candidate);
          folded := folded + {candidate};
        }
      }
    }
    assert failed - left == failed;
  }

  // ----- the ledger -----

  datatype State = Ion | Exact

  datatype Verdict = Undeclared | Absent | Phantom | Failing | Untested | Credited(state: State)

  datatype Reason = ReasonFor(verdict: Verdict) | OkUnder(kind: Kind, maxUlp: Option<real>)

  /** The package as imported: the states it declares, and what resolves on it. */
  datatype Root = Root(states: map<string, string>, resolves: string -> bool)

  datatype Row = Row(verdict: Verdict, declared: Option<string>, reason: Reason, tolerant: bool,
                     kind: Option<Kind>, maxUlp: Option<real>)

  function StateOf(declared: Option<string>): Option<State> {
    match declared
    case Some(s) => if s == "ion" then Some(Ion) else if s == "exact" then Some(Exact) else None
    case None => None
  }

  function Declared(root: Option<Root>, item: string): Option<string> {
    if root.Some? && item in root.value.states then Some(root.value.states[item]) else None
  }

  predicate Present(root: Option<Root>, item: string) {
    root.Some? && root.value.resolves(item)
  }

  function VerdictOf(root: Option<Root>, passed: set<string>, failed: set<string>, item: string): Verdict {
    var state := StateOf(Declared(root, item));
    if state.None? then
      if Present(root, item) then Undeclared else Absent
    else if !Present(root, item) then Phantom
    else if item in failed then Failing
    else if item !in passed then Untested
    else Credited(state.value)
  }

  function KindOf(r: Results, item: string): Option<Kind> {
    if item in r.ulp then Some(Ulp)
    else if item in r.epsilon then Some(Epsilon)
    else if item in r.tieExempt then Some(TieExempt)
    else if item in r.messagePair then Some(MessagePair)
    else None
  }

  function MaxUlpOf(r: Results, item: string): Option<real> {
    if item in r.ulp then r.ulp[item]
    else if item in r.epsilon then r.epsilon[item]
    else if item in r.tieExempt then r.tieExempt[item]
    else if item in r.messagePair then r.messagePair[item]
    else None
  }

  function RowOf(root: Option<Root>, r: Results, failed: set<string>, item: string): Row {
    var verdict := VerdictOf(root, r.passed, failed, item);
    var kind := KindOf(r, item);
    Row(verdict, Declared(root, item),
        if kind.Some? then OkUnder(kind.value, MaxUlpOf(r, item)) else ReasonFor(verdict),
        kind.Some?, kind, MaxUlpOf(r, item))
  }

  datatype Ledger = Ledger(total: nat, covered: nat, counts: map<Verdict, nat>, rows: map<string, Row>,
                           exactPass: nat, ulp: nat, epsilon: nat, tieExempt: nat, messagePair: nat)

  function WithVerdict(rows: map<string, Row>, v: Verdict): set<string> {
    set k | k in rows && rows[k].verdict == v
  }

  /** The credited items whose row has the given tolerance, or none. */
  function CreditedUnder(rows: map<string, Row>, kind: Option<Kind>): set<string> {
    set k | k in rows && rows[k].verdict.Credited? && rows[k].kind == kind
  }

  function AllCredited(rows: map<string, Row>): set<string> {
    set k | k in rows && rows[k].verdict.Credited?
  }

  ghost predicate Tallied(counts: map<Verdict, nat>, rows: map<string, Row>) {
    && (forall v :: v in counts ==> counts[v] == |WithVerdict(rows, v)|)
    && (forall k :: k in rows ==> rows[k].verdict in counts)
  }

  function Get(counts: map<Verdict, nat>, v: Verdict): nat {
    if v in counts then counts[v] else 0
  }

  method Tally(rows: map<string, Row>) returns (counts: map<Verdict, nat>)
    ensures Tallied(counts, rows)
  {
    counts := map[];
    var left := rows.Keys;
    ghost var done: map<string, Row> := map[];
    while left != {}
      invariant left <= rows.Keys && done == map k | k in rows && k !in left :: rows[k]
      invariant Tallied(counts, done)
      decreases left
    {
      var k :| k in left;
      left := left - {k};
      ghost var before := done;
      done := map j | j in rows && j !in left :: rows[j];
      var v := rows[k].verdict;
      assert done == before[k := rows[k]];
      TalliedAdd(counts, before, k, rows[k], done);
      counts := counts[v := Get(counts, v) + 1];
    }
    assert done == rows;
  }

  lemma TalliedAdd(counts: map<Verdict, nat>, before: map<string, Row>, k: string, row: Row, after: map<string, Row>)
    requires Tallied(counts, before) && k !in before && after == before[k := row]
    ensures Tallied(counts[row.verdict := Get(counts, row.verdict) + 1], after)
  {
    var more := counts[row.verdict := Get(counts, row.verdict) + 1];
    forall v | v in more
      ensures more[v] == |WithVerdict(after, v)|
    {
      WithVerdictAdd(before, k, row, after, v);
      if v == row.verdict && v !in counts {
        assert WithVerdict(before, v) == {};
      }
    }
  }

  lemma WithVerdictAdd(before: map<string, Row>, k: string, row: Row, after: map<string, Row>, v: Verdict)
    requires k !in before && after == before[k := row]
    ensures |WithVerdict(after, v)| == |WithVerdict(before, v)| + if v == row.verdict then 1 else 0
  {
    if v == row.verdict {
      assert WithVerdict(after, v) == WithVerdict(before, v) + {k};
    } else {
      assert WithVerdict(after, v) == WithVerdict(before, v);
    }
  }

  method Sum(counts: map<Verdict, nat>, ghost rows: map<string, Row>) returns (total: nat)
    requires Tallied(counts, rows)
    ensures total == |rows|
  {
    total := 0;
    var left := counts.Keys;
    ghost var done: set<string> := {};
    while left != {}
      invariant left <= counts.Keys
      invariant done == set k | k in rows && rows[k].verdict !in left
      invariant total == |done|
      decreases left
    {
      var v :| v in left;
      assert (set k | k in rows && rows[k].verdict !in left - {v}) == done + WithVerdict(rows, v);
      assert done !! WithVerdict(rows, v);
      done := done + WithVerdict(rows, v);
      total := total + counts[v];
      left := left - {v};
    }
    assert done == rows.Keys;
  }

  /** The items of the two states are the credited ones. */
  lemma CreditedByState(rows: map<string, Row>)
    ensures |AllCredited(rows)| == |WithVerdict(rows, Credited(Ion))| + |WithVerdict(rows, Credited(Exact))|
  {
    forall k | k in AllCredited(rows)
      ensures k in WithVerdict(rows, Credited(Ion)) + WithVerdict(rows, Credited(Exact))
    {
      match rows[k].verdict.state
      case Ion =>
      case Exact =>
    }
    assert AllCredited(rows) == WithVerdict(rows, Credited(Ion)) + WithVerdict(rows, Credited(Exact));
  }

  /** Every credited item falls under one tolerance or none. */
  lemma CreditedByKind(rows: map<string, Row>)
    ensures |AllCredited(rows)| ==
            |CreditedUnder(rows, None)| + |CreditedUnder(rows, Some(Ulp))| + |CreditedUnder(rows, Some(Epsilon))|
            + |CreditedUnder(rows, Some(TieExempt))| + |CreditedUnder(rows, Some(MessagePair))|
  {
    var one: set<Option<Kind>> := {} + {None};
    var two := one + {Some(Ulp)};
    var three := two + {Some(Epsilon)};
    var four := three + {Some(TieExempt)};
    AddKind(rows, {}, None);
    AddKind(rows, one, Some(Ulp));
    AddKind(rows, two, Some(Epsilon));
    AddKind(rows, three, Some(TieExempt));
    AddKind(rows, four, Some(MessagePair));
    assert CreditedAmong(rows, {}) == {};
    forall k | k in rows
      ensures rows[k].kind in four + {Some(MessagePair)}
    {
      match rows[k].kind
      case None =>
      case Some(kind) => match kind { case Ulp => case Epsilon => case TieExempt => case MessagePair => }
    }
    assert AllCredited(rows) == CreditedAmong(rows, four + {Some(MessagePair)});
  }

  ghost function CreditedAmong(rows: map<string, Row>, kinds: set<Option<Kind>>): set<string> {
    set k | k in rows && rows[k].verdict.Credited? && rows[k].kind in kinds
  }

  lemma AddKind(rows: map<string, Row>, kinds: set<Option<Kind>>, kind: Option<Kind>)
    requires kind !in kinds
    ensures |CreditedAmong(rows, kinds + {kind})| == |CreditedAmong(rows, kinds)| + |CreditedUnder(rows, kind)|
  {
    assert CreditedAmong(rows, kinds + {kind}) == CreditedAmong(rows, kinds) + CreditedUnder(rows, kind);
    assert CreditedAmong(rows, kinds) !! CreditedUnder(rows, kind);
  }

  lemma DistinctSize(items: seq<string>)
    requires Distinct(items)
    ensures |set x | x in items| == |items|
  {
    if items == [] {
    } else {
      var n := |items| - 1;
      DistinctSize(items[..n]);
      assert items == items[..n] + [items[n]];
      assert (set x | x in items) == (set x | x in items[..n]) + {items[n]};
    }
  }

  /** An item is credited: declared, resolvable, its own test passed, and no failure, own or axis, blames it. */
  ghost predicate Earned(root: Option<Root>, report: map<string, Entry>, item: string) {
    && StateOf(Declared(root, item)).Some? && Present(root, item)
    && item in report && report[item].pass
    && forall key :: key in report && Blames(key, item) ==> report[key].pass
  }

  ghost function Covered(root: Option<Root>, report: map<string, Entry>, items: seq<string>): set<string> {
    set item | item in items && Earned(root, report, item)
  }

  /** What a row says of an item, in terms of the package and the report alone. */
  ghost predicate RowMeans(row: Row, root: Option<Root>, report: map<string, Entry>, x: string) {
    var declared := if root.Some? && x in root.value.states then Some(root.value.states[x]) else None;
    var claimed := declared == Some("ion") || declared == Some("exact");
    var there := root.Some? && root.value.resolves(x);
    var failing := exists key :: key in report && Blames(key, x) && !report[key].pass;
    && row.declared == declared
    && (row.verdict == Undeclared <==> !claimed && there)
    && (row.verdict == Absent <==> !claimed && !there)
    && (row.verdict == Phantom <==> claimed && !there)
    && (row.verdict == Failing <==> claimed && there && failing)
    && (row.verdict == Untested <==> claimed && there && !failing && x !in report)
    && (row.verdict == Credited(Ion) <==> declared == Some("ion") && there && !failing && x in report)
    && (row.verdict == Credited(Exact) <==> declared == Some("exact") && there && !failing && x in report)
    && row.tolerant == row.kind.Some?
    && row.maxUlp == (if row.kind.Some? && x in report && report[x].Graded? then report[x].maxUlp else None)
    && row.reason == if row.kind.Some? then OkUnder(row.kind.value, row.maxUlp) else ReasonFor(row.verdict)
  }

  /** An item is tolerated under a kind exactly if its test passed under it, a missing kind counting as ulp. */
  ghost predicate KindIs(row: Row, report: map<string, Entry>, x: string) {
    && (row.kind == Some(Ulp) <==> PassedUnder(report, x, Known(Ulp)) || PassedUnder(report, x, Missing))
    && (row.kind == Some(Epsilon) <==> PassedUnder(report, x, Known(Epsilon)))
    && (row.kind == Some(TieExempt) <==> PassedUnder(report, x, Known(TieExempt)))
    && (row.kind == Some(MessagePair) <==> PassedUnder(report, x, Known(MessagePair)))
  }

  predicate PassedUnder(report: map<string, Entry>, x: string, mechanism: Mechanism) {
    && x in report && report[x].Graded? && report[x].pass && report[x].tolerant && report[x].mechanism == mechanism
  }

  lemma RowIs(root: Option<Root>, report: map<string, Entry>, failed: set<string>, x: string)
    requires x !in failed <==> forall key :: key in report && Blames(key, x) ==> report[key].pass
    ensures RowMeans(RowOf(root, Scored(report), failed, x), root, report, x)
  {
    assert Blames(x, x);
    KindMeans(report, x);
    MaxUlpMeans(report, x);
  }

  lemma KindOfRow(root: Option<Root>, report: map<string, Entry>, failed: set<string>, x: string)
    ensures KindIs(RowOf(root, Scored(report), failed, x), report, x)
  {
    KindMeans(report, x);
  }

  lemma MaxUlpMeans(report: map<string, Entry>, x: string)
    ensures MaxUlpOf(Scored(report), x) ==
            if x in report && Tolerance(report[x]).Some? then report[x].maxUlp else None
  {
    UnderMeans(report, x, Ulp);
    UnderMeans(report, x, Epsilon);
    UnderMeans(report, x, TieExempt);
    UnderMeans(report, x, MessagePair);
    if x in report && Tolerance(report[x]).Some? {
      match Tolerance(report[x]).value { case Ulp => case Epsilon => case TieExempt => case MessagePair => }
    }
  }

  /** One row for every item; verdict counts are those of the rows; tolerance counts add up to the covered ones. */
  ghost predicate AddsUp(l: Ledger, items: seq<string>) {
    && l.total == |items| == |l.rows| && (forall x :: x in l.rows <==> x in items)
    && Tallied(l.counts, l.rows)
    && l.covered == |AllCredited(l.rows)|
    && l.covered == l.exactPass + l.ulp + l.epsilon + l.tieExempt + l.messagePair
    && l.exactPass == |CreditedUnder(l.rows, None)| && l.ulp == |CreditedUnder(l.rows, Some(Ulp))|
    && l.epsilon == |CreditedUnder(l.rows, Some(Epsilon))| && l.tieExempt == |CreditedUnder(l.rows, Some(TieExempt))|
    && l.messagePair == |CreditedUnder(l.rows, Some(MessagePair))|
  }

  /**
    build_ledger. It is refused only for a bad surface or an entry that cannot be scored: its two
    checks on its own sums never fail. The verdict counts add up to the items, the five tolerance
    counts to the covered items, and these are the ones that earned it.
   */
  method BuildLedger(surface: Surface, root: Option<Root>, report: Option<map<string, Entry>>)
    returns (r: Result<Ledger, Fatal>)
    ensures r.Failure? ==> !r.error.BucketsDisagree? && !r.error.CountsDisagree?
    ensures r.Success? <==>
              && (forall e :: e in surface.exploded ==> WellFormed(e)) && Distinct(Items(surface))
              && (report.Some? ==> forall k :: k in report.value ==> !Unscorable(report.value[k]))
    ensures r.Success? ==>
              var l := r.value;
              var entries := if report.Some? then report.value else map[];
              && AddsUp(l, Items(surface))
              && AllCredited(l.rows) == Covered(root, entries, Items(surface))
              && (forall x :: x in l.rows ==>
                    && l.rows[x].kind == (if x in entries then Tolerance(entries[x]) else None)
                    && RowMeans(l.rows[x], root, entries, x) && KindIs(l.rows[x], entries, x))
  {
    var all := AllItems(surface);
    if all.Failure? {
      return Failure(all.error);
    }
    var loaded := LoadTestResults(report);
    if loaded.Failure? {
      return Failure(loaded.error);
    }
    ghost var entries := if report.Some? then report.value else map[];
    var rows := BuildRows(all.value, root, entries, loaded.value);
    r := Total(all.value, rows);
  }

  /** One row for every item. */
  method BuildRows(items: seq<string>, root: Option<Root>, ghost entries: map<string, Entry>, results: Results)
    returns (rows: map<string, Row>)
    requires results == Scored(entries)
    ensures forall x :: x in rows <==> x in items
    ensures AllCredited(rows) == Covered(root, entries, items)
    ensures forall x :: x in items ==>
              && rows[x].kind == (if x in entries then Tolerance(entries[x]) else None)
              && RowMeans(rows[x], root, entries, x) && KindIs(rows[x], entries, x)
  {
    var failed := FoldAxisFailures(results.failed, items);
    rows := map[];
    for k := 0 to |items|
      invariant rows == map x | x in items[..k] :: RowOf(root, results, failed, x)
    {
      assert items[..k + 1] == items[..k] + [items[k]];
      rows := rows[items[k] := RowOf(root, results, failed, items[k])];
    }
    assert items[..|items|] == items;
    RowsMean(root, entries, items, failed, rows);
  }

  /** The counts over the rows, and the two checks on their sums. */
  method Total(items: seq<string>, rows: map<string, Row>) returns (r: Result<Ledger, Fatal>)
    requires Distinct(items) && forall x :: x in rows <==> x in items
    ensures r.Success? && r.value.rows == rows
    ensures AddsUp(r.value, items)
  {
    var counts := Tally(rows);
    var ulp, epsilon := |CreditedUnder(rows, Some(Ulp))|, |CreditedUnder(rows, Some(Epsilon))|;
    var tieExempt, messagePair := |CreditedUnder(rows, Some(TieExempt))|, |CreditedUnder(rows, Some(MessagePair))|;
    var exactPass := |CreditedUnder(rows, None)|;
    var covered := CountCredited(rows, counts);
    CreditedByKind(rows);
    if exactPass + ulp + epsilon + tieExempt + messagePair != covered {
      return Failure(BucketsDisagree);
    }
    DistinctSize(items);
    var sum := Sum(counts, rows);
    assert rows.Keys == set x | x in items;
    if sum != |items| {
      return Failure(CountsDisagree);
    }
    return Success(Ledger(|items|, covered, counts, rows, exactPass, ulp, epsilon, tieExempt, messagePair));
  }

  method CountCredited(rows: map<string, Row>, counts: map<Verdict, nat>) returns (covered: nat)
    requires Tallied(counts, rows)
    ensures covered == |AllCredited(rows)|
  {
    CreditedByState(rows);
    assert Credited(Ion) !in counts ==> WithVerdict(rows, Credited(Ion)) == {};
    assert Credited(Exact) !in counts ==> WithVerdict(rows, Credited(Exact)) == {};
    covered := Get(counts, Credited(Ion)) + Get(counts, Credited(Exact));
  }

  lemma RowsMean(root: Option<Root>, report: map<string, Entry>, items: seq<string>, failed: set<string>,
                 rows: map<string, Row>)
    requires forall x :: x in failed <==>
               x in Scored(report).failed
               || (x in items && exists key :: key in Scored(report).failed && Blames(key, x))
    requires rows == map x | x in items :: RowOf(root, Scored(report), failed, x)
    ensures AllCredited(rows) == Covered(root, report, items)
    ensures forall x :: x in items ==> rows[x].kind == if x in report then Tolerance(report[x]) else None
    ensures forall x :: x in items ==> RowMeans(rows[x], root, report, x) && KindIs(rows[x], report, x)
  {
    forall x | x in items
      ensures rows[x].verdict.Credited? <==> Earned(root, report, x)
      ensures rows[x].kind == if x in report then Tolerance(report[x]) else None
    {
      FailedMeans(report, items, failed, x);
      KindMeans(report, x);
    }
    forall x | x in items
      ensures RowMeans(rows[x], root, report, x) && KindIs(rows[x], report, x)
    {
      FailedMeans(report, items, failed, x);
      RowIs(root, report, failed, x);
      KindOfRow(root, report, failed, x);
    }
  }

  lemma KindMeans(report: map<string, Entry>, x: string)
    ensures KindOf(Scored(report), x) == if x in report then Tolerance(report[x]) else None
  {
    UnderMeans(report, x, Ulp);
    UnderMeans(report, x, Epsilon);
    UnderMeans(report, x, TieExempt);
    UnderMeans(report, x, MessagePair);
    if x in report && Tolerance(report[x]).Some? {
      match Tolerance(report[x]).value { case Ulp => case Epsilon => case TieExempt => case MessagePair => }
    }
  }

  lemma UnderMeans(report: map<string, Entry>, x: string, kind: Kind)
    ensures x in Under(report, kind) <==> x in report && Tolerance(report[x]) == Some(kind)
  {
  }

  lemma FailedMeans(report: map<string, Entry>, items: seq<string>, failed: set<string>, x: string)
    requires x in items
    requires x in failed <==>
               x in Scored(report).failed
               || (x in items && exists key :: key in Scored(report).failed && Blames(key, x))
    ensures x !in failed <==> forall key :: key in report && Blames(key, x) ==> report[key].pass
  {
    if key :| key in report && Blames(key, x) && !report[key].pass {
      assert key in Scored(report).failed && Blames(key, x);
    }
    if x in Scored(report).failed {
      assert Blames(x, x);
    }
  }

  // ----- what a failure does to the ledger -----

  /** The items some failing key blames. */
  ghost function Blamed(failures: map<string, Entry>, items: seq<string>): set<string> {
    set x, key | x in items && key in failures && Blames(key, x) :: x
  }

  /**
    Turning any entries into failures, or adding failing ones, takes exactly the items they are the
    tests of and the items their axis names end in out of the covered ones, and never adds any.
   */
  lemma FailuresUncover(root: Option<Root>, report: map<string, Entry>, items: seq<string>,
                        failures: map<string, Entry>)
    requires forall key :: key in failures ==> !failures[key].pass
    ensures var after := Covered(root, report + failures, items);
            && after == Covered(root, report, items) - Blamed(failures, items)
            && |after| <= |Covered(root, report, items)|
  {
    var worse := report + failures;
    forall x | x in items
      ensures Earned(root, worse, x) <==> Earned(root, report, x) && x !in Blamed(failures, items)
    {
      if Earned(root, worse, x) {
        forall key | key in report && Blames(key, x)
          ensures report[key].pass
        {
          assert key in worse;
        }
        assert forall key :: key in failures ==> key in worse && !worse[key].pass;
      }
      assert Blames(x, x);
    }
    assert Covered(root, worse, items) == Covered(root, report, items) - Blamed(failures, items);
    SubsetSize(Covered(root, worse, items), Covered(root, report, items));
  }

  lemma SubsetSize(a: set<string>, b: set<string>)
    requires a <= b
    ensures |a| <= |b|
  {
    assert b == a + (b - a);
  }

  /** The item would be credited if it were not for the failure of key k. */
  ghost predicate EarnedButFor(root: Option<Root>, report: map<string, Entry>, item: string, k: string) {
    && StateOf(Declared(root, item)).Some? && Present(root, item)
    && item in report && report[item].pass
    && forall key :: key in report && key != k && Blames(key, item) ==> report[key].pass
  }

  /** Turning a failed axis case into a passing one adds exactly the items that nothing else kept from being covered. */
  lemma AxisPassCovers(root: Option<Root>, report: map<string, Entry>, items: seq<string>, k: string, e: Entry)
    requires k !in items && e.pass
    ensures var blocked := set x | x in items && Blames(k, x) && k in report && !report[k].pass
                                   && EarnedButFor(root, report, x, k);
            Covered(root, report[k := e], items) == Covered(root, report, items) + blocked
  {
    var more := report[k := e];
    forall x | x in items
      ensures Earned(root, more, x) <==> EarnedButFor(root, report, x, k)
      ensures Earned(root, report, x) <==>
                EarnedButFor(root, report, x, k) && (Blames(k, x) && k in report ==> report[k].pass)
    {
      assert forall key :: key in report && key != k ==> key in more && more[key] == report[key];
    }
  }

  /** A new axis case earns nothing: entries under other names cover no item that was not covered. */
  lemma PassingAxisEarnsNothing(root: Option<Root>, report: map<string, Entry>, items: seq<string>, k: string, e: Entry)
    requires k !in report && k !in items
    ensures Covered(root, report[k := e], items) <= Covered(root, report, items)
  {
  }

  /** A row's reason reads "ok" although the item is not credited exactly if its own test passed under a tolerance. */
  lemma ReasonMisleadsIff(root: Option<Root>, report: map<string, Entry>, failed: set<string>, item: string)
    ensures var row := RowOf(root, Scored(report), failed, item);
            && row.reason.OkUnder? && !row.verdict.Credited? <==>
               && item in report && Tolerance(report[item]).Some?
               && (StateOf(Declared(root, item)).None? || !Present(root, item) || item in failed)
  {
    KindMeans(report, item);
  }

  /** An item that was never implemented reads "ok" if the report has it pass under a tolerance. */
  lemma PhantomReadsOk()
    ensures var root := Some(Root(map["sin" := "exact"], name => false));
            var report := map["sin" := Graded(true, true, Known(Ulp), Some(1.0))];
            var row := RowOf(root, Scored(report), {}, "sin");
            row.verdict == Phantom && row.reason.OkUnder?
  {
    var report := map["sin" := Graded(true, true, Known(Ulp), Some(1.0))];
    assert Tolerance(report["sin"]) == Some(Ulp);
    KindMeans(report, "sin");
  }
}
