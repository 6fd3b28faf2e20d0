/** The two-line layout that lifts exponents above their bases. */
module RaisePower {
  import opened Sequences
  import opened Wrappers

  // ----- the search for `**digits` -----

  predicate IsDigit(c: char) {
    '0' <= c <= '9'
  }

  predicate StarsAt(s: string, i: nat) {
    i + 2 <= |s| && s[i] == '*' && s[i + 1] == '*'
  }

  /** The end of the run of digits starting at i. */
  function DigitsEnd(s: string, i: nat): (j: nat)
    requires i <= |s|
    ensures i <= j <= |s|
    ensures forall k :: i <= k < j ==> IsDigit(s[k])
    ensures j < |s| ==> !IsDigit(s[j])
    decreases |s| - i
  {
    if i < |s| && IsDigit(s[i]) then DigitsEnd(s, i + 1) else i
  }

  /** The first match of \*\*([0-9]*) at or after n. */
  function Search(s: string, n: nat): (m: Option<nat>)
    requires n <= |s|
    ensures m.Some? ==> n <= m.value && StarsAt(s, m.value)
    ensures m.Some? ==> forall k :: n <= k < m.value ==> !StarsAt(s, k)
    ensures m.None? ==> forall k :: n <= k < |s| ==> !StarsAt(s, k)
    decreases |s| - n
  {
    if n == |s| then None else if StarsAt(s, n) then Some(n) else Search(s, n + 1)
  }

  // ----- terms -----

  /** A base text followed by two stars and its exponent. */
  datatype Term = Term(part: string, power: string)

  function TermText(t: Term): string {
    t.part + "**" + t.power
  }

  function TermsText(ts: seq<Term>): string {
    if ts == [] then "" else TermText(ts[0]) + TermsText(ts[1..])
  }

  function Spaces(n: int): string {
    Repeat(' ', n)
  }

  /** What a term adds to the exponent line and to the base line. */
  function Upper(t: Term): string {
    Spaces(|t.part| - 1) + t.power
  }

  function Lower(t: Term): string {
    t.part + Spaces(|t.power| - 1)
  }

  /** One pair of output lines. */
  datatype Lines = Lines(upper: string, lower: string)

  function Render(ts: seq<Term>): (l: Lines) {
    if ts == [] then Lines("", "")
    else
      var l := Render(ts[..|ts| - 1]);
      Lines(l.upper + Upper(ts[|ts| - 1]), l.lower + Lower(ts[|ts| - 1]))
  }

  function Output(done: seq<Lines>, last: Lines, tail: string): string {
    OutputDone(done) + last.upper + "\n" + last.lower + tail
  }

  function OutputDone(done: seq<Lines>): string {
    if done == [] then " "
    else OutputDone(done[..|done| - 1]) + done[|done| - 1].upper + "\n" + done[|done| - 1].lower + "\n "
  }

  function Joined(rows: seq<seq<Term>>): seq<Term> {
    if rows == [] then [] else Joined(rows[..|rows| - 1]) + rows[|rows| - 1]
  }

  /** Every exponent is a run of digits that is not empty, and so is every base. */
  ghost predicate Proper(ts: seq<Term>) {
    forall k :: 0 <= k < |ts| ==> ProperTerm(ts[k])
  }

  ghost predicate ProperTerm(t: Term) {
    t.part != "" && t.power != "" && forall k :: 0 <= k < |t.power| ==> IsDigit(t.power[k])
  }

  /** There is room on the row for one more term. */
  predicate HasRoom(row: seq<Term>, t: Term, wrap: int) {
    |Render(row).lower| + |Lower(t)| <= wrap && |Render(row).upper| + |Upper(t)| <= wrap
  }

  predicate Within(row: seq<Term>, wrap: int) {
    |Render(row).lower| <= wrap && |Render(row).upper| <= wrap
  }

  /** The rows when every term goes on the last row if there is room, and starts the next one otherwise. */
  function Layout(ts: seq<Term>, wrap: int): (rows: seq<seq<Term>>)
    ensures |rows| > 0
  {
    if ts == [] then [[]]
    else
      var rows := Layout(ts[..|ts| - 1], wrap);
      var t, last := ts[|ts| - 1], |rows| - 1;
      if HasRoom(rows[last], t, wrap) then rows[..last] + [rows[last] + [t]] else rows + [[t]]
  }

  /**
    The row may follow these rows: it could not have begun on the last of them, and it is within
    the width unless it is a single term. Before the first row there is none to begin on; it may be
    empty, if the first term overflows it.
   */
  predicate MayFollow(done: seq<seq<Term>>, row: seq<Term>, wrap: int) {
    if done == [] then row == [] || Within(row, wrap)
    else row != [] && (|row| == 1 || Within(row, wrap)) && !HasRoom(done[|done| - 1], row[0], wrap)
  }

  predicate Wrapped(rows: seq<seq<Term>>, wrap: int) {
    rows == [] || (Wrapped(rows[..|rows| - 1], wrap) && MayFollow(rows[..|rows| - 1], rows[|rows| - 1], wrap))
  }

  /** The rows hold the terms in order, and every row may follow the rows before it. */
  ghost predicate IsLayout(rows: seq<seq<Term>>, ts: seq<Term>, wrap: int) {
    rows != [] && Joined(rows) == ts && Wrapped(rows, wrap)
  }

  /** The terms and the tail found by searching repeatedly from position n on. */
  function Split(s: string, n: nat): (r: (seq<Term>, string))
    requires n <= |s|
    decreases |s| - n
  {
    match Search(s, n)
    case None => ([], s[n..])
    case Some(i) =>
      var j := DigitsEnd(s, i + 2);
      var rest := Split(s, j);
      ([Term(s[n..i], s[i + 2..j])] + rest.0, rest.1)
  }

  lemma Chain<T>(x: seq<T>, a: seq<T>, r: seq<T>, b: seq<T>, y: seq<T>)
    requires x == a + r && r == b && y == a + b
    ensures x == y
  {
  }

  lemma CutTerm(s: string, n: nat, i: nat, j: nat)
    requires n <= i && StarsAt(s, i) && i + 2 <= j <= |s|
    ensures s[n..] == TermText(Term(s[n..i], s[i + 2..j])) + s[j..]
  {
    assert s[i..i + 2] == "**";
    assert s[n..] == s[n..i] + s[i..i + 2] + s[i + 2..j] + s[j..];
  }

  lemma SplitStep(s: string, n: nat)
    requires n <= |s| && Search(s, n).Some?
    ensures var i := Search(s, n).value;
            var j := DigitsEnd(s, i + 2);
            Split(s, n) == ([Term(s[n..i], s[i + 2..j])] + Split(s, j).0, Split(s, j).1)
  {
  }

  lemma TermsTextCons(t: Term, ts: seq<Term>, tail: string)
    ensures TermsText([t] + ts) + tail == TermText(t) + (TermsText(ts) + tail)
  {
    assert ([t] + ts)[1..] == ts;
    Assoc(TermText(t), TermsText(ts), tail);
  }

  lemma SplitTextCons(s: string, n: nat, i: nat, j: nat, rest: (seq<Term>, string), all: (seq<Term>, string))
    requires n <= i && StarsAt(s, i) && i + 2 <= j <= |s|
    requires s[j..] == TermsText(rest.0) + rest.1
    requires all == ([Term(s[n..i], s[i + 2..j])] + rest.0, rest.1)
    ensures s[n..] == TermsText(all.0) + all.1
  {
    var t, ts, tail := Term(s[n..i], s[i + 2..j]), rest.0, rest.1;
    CutTerm(s, n, i, j);
    TermsTextCons(t, ts, tail);
    Chain(s[n..], TermText(t), s[j..], TermsText(ts) + tail, TermsText([t] + ts) + tail);
  }

  /** The terms and the tail put together are the text. */
  lemma {:induction false} SplitText(s: string, n: nat)
    requires n <= |s|
    ensures s[n..] == TermsText(Split(s, n).0) + Split(s, n).1
    decreases |s| - n
  {
    if Search(s, n).Some? {
      var i := Search(s, n).value;
      var j := DigitsEnd(s, i + 2);
      SplitText(s, j);
      SplitStep(s, n);
      SplitTextCons(s, n, i, j, Split(s, j), Split(s, n));
    } else {
      SplitTextNone(s, n);
    }
  }

  lemma SplitTextNone(s: string, n: nat)
    requires n <= |s| && Search(s, n).None?
    ensures s[n..] == TermsText(Split(s, n).0) + Split(s, n).1
  {
    assert Split(s, n) == ([], s[n..]);
    assert TermsText([]) + s[n..] == s[n..];
  }

  // ----- which terms these are -----

  ghost predicate NoStars(s: string) {
    forall k :: 0 <= k < |s| ==> !StarsAt(s, k)
  }

  /**
    Every base ends at the first two stars, every exponent is all the digits behind them, and the
    tail has no two stars.
   */
  ghost predicate Cut(ts: seq<Term>, tail: string) {
    if ts == [] then NoStars(tail)
    else
      var t, rest := ts[0], TermsText(ts[1..]) + tail;
      && (forall k :: 0 <= k < |t.part| ==> !StarsAt(t.part + "**", k))
      && (forall k :: 0 <= k < |t.power| ==> IsDigit(t.power[k]))
      && (rest == "" || !IsDigit(rest[0]))
      && Cut(ts[1..], tail)
  }

  /** The terms and the tail found are the only way to cut the text like that. */
  lemma {:induction false} SplitIff(s: string, n: nat, ts: seq<Term>, tail: string)
    requires n <= |s|
    ensures Split(s, n) == (ts, tail) <==> s[n..] == TermsText(ts) + tail && Cut(ts, tail)
  {
    SplitText(s, n);
    SplitIsCut(s, n);
    if s[n..] == TermsText(ts) + tail && Cut(ts, tail) {
      CutUnique(s, n, ts, tail);
    }
  }

  lemma {:induction false} SplitIsCut(s: string, n: nat)
    requires n <= |s|
    ensures Cut(Split(s, n).0, Split(s, n).1)
    decreases |s| - n
  {
    if Search(s, n).Some? {
      var i := Search(s, n).value;
      var j := DigitsEnd(s, i + 2);
      SplitIsCut(s, j);
      SplitText(s, j);
      SplitStep(s, n);
      FirstCut(s, n, i, j, Split(s, j).0, Split(s, j).1, Split(s, n));
    } else {
      StarsShift(s, n, s[n..]);
    }
  }

  /** Stars of the text from n on are stars of the text. */
  lemma StarsShift(s: string, n: nat, rest: string)
    requires n <= |s| && rest == s[n..]
    ensures forall k :: 0 <= k < |rest| ==> (StarsAt(rest, k) <==> StarsAt(s, n + k))
  {
  }

  lemma FirstCut(s: string, n: nat, i: nat, j: nat, ts: seq<Term>, tail: string, all: (seq<Term>, string))
    requires n <= i && StarsAt(s, i) && i + 2 <= j == DigitsEnd(s, i + 2)
    requires forall k :: n <= k < i ==> !StarsAt(s, k)
    requires s[j..] == TermsText(ts) + tail && Cut(ts, tail)
    requires all == ([Term(s[n..i], s[i + 2..j])] + ts, tail)
    ensures Cut(all.0, all.1)
  {
    var t := Term(s[n..i], s[i + 2..j]);
    assert ([t] + ts)[1..] == ts;
    assert t.part + "**" == s[n..i + 2];
    forall k | 0 <= k < |t.part|
      ensures !StarsAt(t.part + "**", k)
    {
      assert !StarsAt(s, n + k);
    }
    assert s[j..] == "" || s[j..][0] == s[j];
  }

  lemma {:induction false} CutUnique(s: string, n: nat, ts: seq<Term>, tail: string)
    requires n <= |s| && s[n..] == TermsText(ts) + tail && Cut(ts, tail)
    ensures Split(s, n) == (ts, tail)
    decreases |ts|
  {
    if ts == [] {
      NothingToCut(s, n, tail);
    } else {
      var t, rest := ts[0], TermsText(ts[1..]) + tail;
      TermsTextHead(ts, tail);
      var j := CutHead(s, n, t, rest);
      CutUnique(s, j, ts[1..], tail);
      assert ts == [t] + ts[1..];
    }
  }

  lemma CutHead(s: string, n: nat, t: Term, rest: string) returns (j: nat)
    requires n <= |s| && s[n..] == TermText(t) + rest
    requires forall k :: 0 <= k < |t.part| ==> !StarsAt(t.part + "**", k)
    requires forall k :: 0 <= k < |t.power| ==> IsDigit(t.power[k])
    requires rest == "" || !IsDigit(rest[0])
    ensures j <= |s| && s[j..] == rest
    ensures Split(s, n) == ([t] + Split(s, j).0, Split(s, j).1)
  {
    HeadFound(s, n, t, rest);
    j := n + |t.part| + 2 + |t.power|;
    SplitStepAt(s, n, n + |t.part|, j, t);
  }

  lemma SplitStepAt(s: string, n: nat, i: nat, j: nat, t: Term)
    requires n <= |s| && Search(s, n) == Some(i) && DigitsEnd(s, i + 2) == j && Term(s[n..i], s[i + 2..j]) == t
    ensures Split(s, n) == ([t] + Split(s, j).0, Split(s, j).1)
  {
  }

  lemma NothingToCut(s: string, n: nat, tail: string)
    requires n <= |s| && s[n..] == TermsText([]) + tail && NoStars(tail)
    ensures Split(s, n) == ([], tail)
  {
    assert s[n..] == tail;
    StarsShift(s, n, tail);
    if Search(s, n).Some? {
      assert StarsAt(tail, Search(s, n).value - n);
    }
  }

  lemma TermsTextHead(ts: seq<Term>, tail: string)
    requires ts != []
    ensures TermsText(ts) + tail == TermText(ts[0]) + (TermsText(ts[1..]) + tail)
  {
    Assoc(TermText(ts[0]), TermsText(ts[1..]), tail);
  }

  /** What a search finds when the text goes on with this term. */
  lemma HeadFound(s: string, n: nat, t: Term, rest: string)
    requires n <= |s| && s[n..] == TermText(t) + rest
    requires forall k :: 0 <= k < |t.part| ==> !StarsAt(t.part + "**", k)
    requires forall k :: 0 <= k < |t.power| ==> IsDigit(t.power[k])
    requires rest == "" || !IsDigit(rest[0])
    ensures var i := n + |t.part|;
            var j := i + 2 + |t.power|;
            && j <= |s| && Search(s, n) == Some(i) && DigitsEnd(s, i + 2) == j
            && Term(s[n..i], s[i + 2..j]) == t && s[j..] == rest
  {
    var i := n + |t.part|;
    var j := i + 2 + |t.power|;
    TermPlaces(s, n, t, rest);
    SearchIs(s, n, t, rest);
    forall k | i + 2 <= k < j
      ensures IsDigit(s[k])
    {
      assert s[k] == s[i + 2..j][k - i - 2];
    }
    DigitsEndIs(s, i + 2, j);
  }

  lemma TermPlaces(s: string, n: nat, t: Term, rest: string)
    requires n <= |s| && s[n..] == TermText(t) + rest
    ensures var i := n + |t.part|;
            var j := i + 2 + |t.power|;
            && j <= |s| && StarsAt(s, i) && s[n..i] == t.part && s[i + 2..j] == t.power && s[j..] == rest
            && s[n..i + 2] == t.part + "**"
  {
    var u, i := s[n..], |t.part|;
    var j := i + 2 + |t.power|;
    assert u[..i] == t.part && u[i..i + 2] == "**" && u[i + 2..j] == t.power && u[j..] == rest;
    assert u[..i + 2] == t.part + "**";
    SliceShift(s, n, i, i + 2);
    SliceShift(s, n, i + 2, j);
    assert u[i] == s[n + i] && u[i + 1] == s[n + i + 1];
  }

  lemma SliceShift(s: string, n: nat, lo: nat, hi: nat)
    requires n <= |s| && lo <= hi <= |s| - n
    ensures s[n..][lo..hi] == s[n + lo..n + hi] && s[n..][..lo] == s[n..n + lo] && s[n..][hi..] == s[n + hi..]
    ensures s[n..][..hi] == s[n..n + hi]
  {
  }

  lemma SearchIs(s: string, n: nat, t: Term, rest: string)
    requires n <= |s| && s[n..] == TermText(t) + rest
    requires forall k :: 0 <= k < |t.part| ==> !StarsAt(t.part + "**", k)
    ensures Search(s, n) == Some(n + |t.part|)
  {
    TermPlaces(s, n, t, rest);
    var i := n + |t.part|;
    forall k | n <= k < i
      ensures !StarsAt(s, k)
    {
      assert !StarsAt(s[n..i + 2], k - n);
    }
  }

  lemma DigitsEndIs(s: string, i: nat, j: nat)
    requires i <= j <= |s| && (forall k :: i <= k < j ==> IsDigit(s[k])) && (s[j..] == "" || !IsDigit(s[j..][0]))
    ensures DigitsEnd(s, i) == j
  {
    assert j < |s| ==> s[j..][0] == s[j];
  }

  /** The rows written, the row being filled, and the text from n on still to be laid out. */
  ghost predicate Laying(astr: string, wrap: int, n: nat, laid: seq<Term>, done: seq<seq<Term>>, row: seq<Term>) {
    && n <= |astr|
    && laid + Split(astr, n).0 == Split(astr, 0).0
    && Split(astr, n).1 == Split(astr, 0).1
    && done + [row] == Layout(laid, wrap)
  }

  lemma LayOne(astr: string, wrap: int, n: nat, laid: seq<Term>, done: seq<seq<Term>>, row: seq<Term>,
               t: Term, end: nat)
    requires Laying(astr, wrap, n, laid, done, row) && end <= |astr|
    requires Split(astr, n) == ([t] + Split(astr, end).0, Split(astr, end).1)
    ensures HasRoom(row, t, wrap) ==> Laying(astr, wrap, end, laid + [t], done, row + [t])
    ensures !HasRoom(row, t, wrap) ==> Laying(astr, wrap, end, laid + [t], done + [row], [t])
  {
    LayoutNext(laid, t, wrap, done, row);
    Assoc(laid, [t], Split(astr, end).0);
  }

  lemma LayoutNext(laid: seq<Term>, t: Term, wrap: int, done: seq<seq<Term>>, row: seq<Term>)
    requires done + [row] == Layout(laid, wrap)
    ensures Layout(laid + [t], wrap) ==
            if HasRoom(row, t, wrap) then done + [row + [t]] else done + [row] + [[t]]
  {
    assert (laid + [t])[..|laid|] == laid;
    assert (done + [row])[..|done|] == done;
  }

  lemma RenderAppend(row: seq<Term>, t: Term)
    ensures Render(row + [t]) == Lines(Render(row).upper + Upper(t), Render(row).lower + Lower(t))
  {
    assert (row + [t])[..|row|] == row;
  }

  /**
    A row grows by the exponent, over the last character of its base, on one line, and by the base
    followed by blanks under the rest of the exponent on the other.
   */
  lemma RowGrows(row: seq<Term>, t: Term)
    ensures Render([]) == Lines("", "")
    ensures Render(row + [t]) == Lines(Render(row).upper + (Spaces(|t.part| - 1) + t.power),
                                       Render(row).lower + (t.part + Spaces(|t.power| - 1)))
  {
    RenderAppend(row, t);
  }

  lemma RenderOne(t: Term)
    ensures Render([t]) == Lines(Upper(t), Lower(t))
  {
    assert [t][..0] == [];
  }

  lemma OutputAppend(done: seq<seq<Term>>, row: seq<Term>)
    ensures OutputDone(RenderAll(done + [row])) ==
            OutputDone(RenderAll(done)) + Render(row).upper + "\n" + Render(row).lower + "\n "
  {
    assert RenderAll(done + [row])[..|done|] == RenderAll(done);
  }

  /** What the loop variables stand for when the text up to n has been laid out. */
  ghost predicate LaidOut(astr: string, wrap: int, n: nat, line1: string, line2: string, output: string,
                          laid: seq<Term>, done: seq<seq<Term>>, row: seq<Term>) {
    && Laying(astr, wrap, n, laid, done, row)
    && Render(row) == Lines(line1, line2)
    && output == OutputDone(RenderAll(done))
  }

  /** One term: appended to the current pair of lines, or starting the next pair if it would not fit. */
  method PlaceTerm(ghost astr: string, wrap: int, ghost n: nat, line1: string, line2: string, output: string,
                   ghost laid: seq<Term>, ghost done: seq<seq<Term>>, ghost row: seq<Term>,
                   partstr: string, power: string, ghost end: nat)
    returns (line1': string, line2': string, output': string, ghost done': seq<seq<Term>>, ghost row': seq<Term>)
    requires LaidOut(astr, wrap, n, line1, line2, output, laid, done, row) && end <= |astr|
    requires Split(astr, n) == ([Term(partstr, power)] + Split(astr, end).0, Split(astr, end).1)
    ensures LaidOut(astr, wrap, end, line1', line2', output', laid + [Term(partstr, power)], done', row')
  {
    ghost var t := Term(partstr, power);
    LayOne(astr, wrap, n, laid, done, row, t, end);
    var toadd2 := partstr + Spaces(|power| - 1);
    var toadd1 := Spaces(|partstr| - 1) + power;
    if |line2| + |toadd2| > wrap || |line1| + |toadd1| > wrap {
      OutputAppend(done, row);
      RenderOne(t);
      output' := output + line1 + "\n" + line2 + "\n ";
      line1' := toadd1;
      line2' := toadd2;
      done', row' := done + [row], [t];
    } else {
      RenderAppend(row, t);
      output' := output;
      line2' := line2 + (partstr + Spaces(|power| - 1));
      line1' := line1 + (Spaces(|partstr| - 1) + power);
      done', row' := done, row + [t];
    }
  }

  /** One round of the loop, with the match found at position at. */
  method NextTerm(astr: string, wrap: int, n: nat, at: nat, line1: string, line2: string, output: string,
                  ghost laid: seq<Term>, ghost done: seq<seq<Term>>, ghost row: seq<Term>)
    returns (end: nat, line1': string, line2': string, output': string,
             ghost laid': seq<Term>, ghost done': seq<seq<Term>>, ghost row': seq<Term>)
    requires LaidOut(astr, wrap, n, line1, line2, output, laid, done, row) && Search(astr, n) == Some(at)
    ensures LaidOut(astr, wrap, end, line1', line2', output', laid', done', row') && n < end
  {
    end := DigitsEnd(astr, at + 2);
    var power := astr[at + 2..end];
    var partstr := astr[n..at];
    SplitStep(astr, n);
    laid' := laid + [Term(partstr, power)];
    line1', line2', output', done', row' :=
      PlaceTerm(astr, wrap, n, line1, line2, output, laid, done, row, partstr, power, end);
  }

  lemma NothingLaid(astr: string, wrap: int)
    ensures LaidOut(astr, wrap, 0, "", "", " ", [], [], [])
  {
    assert [] + Split(astr, 0).0 == Split(astr, 0).0;
    assert RenderAll([]) == [];
    assert [] + [[]] == Layout([], wrap);
  }

  /** The output for rows of terms and a tail. */
  function Written(rows: seq<seq<Term>>, tail: string): string
    requires rows != []
  {
    Output(RenderAll(rows[..|rows| - 1]), Render(rows[|rows| - 1]), tail)
  }

  lemma Finished(astr: string, wrap: int, n: nat, line1: string, line2: string, output: string,
                 laid: seq<Term>, done: seq<seq<Term>>, row: seq<Term>)
    requires LaidOut(astr, wrap, n, line1, line2, output, laid, done, row) && Search(astr, n) == None
    ensures output + line1 + "\n" + line2 + astr[n..] ==
            Written(Layout(Split(astr, 0).0, wrap), Split(astr, 0).1)
  {
    assert Split(astr, n) == ([], astr[n..]);
    assert laid + [] == laid;
    assert (done + [row])[..|done|] == done;
  }

  function Opening(l: Lines): string {
    " " + l.upper + "\n" + l.lower
  }

  lemma {:induction false} OutputDoneCons(l: Lines, done: seq<Lines>)
    ensures OutputDone([l] + done) == Opening(l) + ("\n" + OutputDone(done))
  {
    var all := [l] + done;
    if done == [] {
      assert all[..0] == [] && all == [l];
      assert OutputDone(all) == " " + l.upper + "\n" + l.lower + "\n ";
    } else {
      var m := |done| - 1;
      OutputDoneCons(l, done[..m]);
      assert all[..|all| - 1] == [l] + done[..m];
      Regroup(Opening(l), OutputDone(done[..m]), done[m].upper, done[m].lower, "\n ");
    }
  }

  lemma Regroup(x: string, y: string, upper: string, lower: string, tail: string)
    ensures x + ("\n" + y) + upper + "\n" + lower + tail == x + ("\n" + (y + upper + "\n" + lower + tail))
  {
  }

  /** The text written: a blank, the exponent line, the base line, and on new lines the other rows; then the tail. */
  lemma WrittenMeans(row: seq<Term>, rows: seq<seq<Term>>, tail: string)
    ensures Written([row] + rows, tail) ==
            " " + Render(row).upper + "\n" + Render(row).lower + if rows == [] then tail else "\n" + Written(rows, tail)
  {
    var all, m := [row] + rows, |rows|;
    if rows == [] {
      assert all[..0] == [] && RenderAll([]) == [];
    } else {
      assert all[..m] == [row] + rows[..m - 1] && all[m] == rows[m - 1];
      assert RenderAll(all[..m]) == [Render(row)] + RenderAll(rows[..m - 1]);
      OutputDoneCons(Render(row), RenderAll(rows[..m - 1]));
      Regroup(Opening(Render(row)), OutputDone(RenderAll(rows[..m - 1])),
              Render(all[m]).upper, Render(all[m]).lower, tail);
    }
  }

  /** _raise_power: the terms of the text, laid out and written. */
  method RaisePower(astr: string, wrap: int) returns (output: string)
    ensures output == Written(Layout(Split(astr, 0).0, wrap), Split(astr, 0).1)
  {
    var n := 0;
    var line1, line2 := "", "";
    output := " ";
    ghost var laid: seq<Term> := [];
    ghost var done: seq<seq<Term>> := [];
    ghost var row: seq<Term> := [];
    NothingLaid(astr, wrap);
    while true
      invariant LaidOut(astr, wrap, n, line1, line2, output, laid, done, row)
      decreases |astr| - n
    {
      var mat := Search(astr, n);
      if mat.None? {
        break;
      }
      n, line1, line2, output, laid, done, row :=
        NextTerm(astr, wrap, n, mat.value, line1, line2, output, laid, done, row);
    }
    Finished(astr, wrap, n, line1, line2, output, laid, done, row);
    output := output + line1 + "\n" + line2;
    output := output + astr[n..];
  }

  // ----- which rows these are -----

  lemma Snoc(done: seq<seq<Term>>, row: seq<Term>, wrap: int)
    ensures Joined(done + [row]) == Joined(done) + row
    ensures Wrapped(done + [row], wrap) <==> Wrapped(done, wrap) && MayFollow(done, row, wrap)
  {
    assert (done + [row])[..|done|] == done;
  }

  /** The rows are a layout that never wraps too early or too late, and there is no other such layout. */
  lemma {:induction false} LayoutIff(rows: seq<seq<Term>>, ts: seq<Term>, wrap: int)
    ensures IsLayout(rows, ts, wrap) <==> rows == Layout(ts, wrap)
    decreases |ts|
  {
    LayoutIs(ts, wrap);
    if IsLayout(rows, ts, wrap) {
      LayoutUnique(rows, ts, wrap);
    }
  }

  lemma {:induction false} LayoutIs(ts: seq<Term>, wrap: int)
    ensures IsLayout(Layout(ts, wrap), ts, wrap)
  {
    if ts == [] {
      Snoc([], [], wrap);
      assert [] + [[]] == Layout(ts, wrap);
    } else {
      var start, t := ts[..|ts| - 1], ts[|ts| - 1];
      LayoutIs(start, wrap);
      var before := Layout(start, wrap);
      var done, row := before[..|before| - 1], before[|before| - 1];
      assert before == done + [row] && ts == start + [t];
      LayoutNext(start, t, wrap, done, row);
      LayoutKeeps(done, row, start, t, wrap);
    }
  }

  /** The row would be wider than wrap with the term at its end. */
  ghost predicate TooWide(row: seq<Term>, t: Term, wrap: int) {
    || |Render(row).lower + t.part + Spaces(|t.power| - 1)| > wrap
    || |Render(row).upper + Spaces(|t.part| - 1) + t.power| > wrap
  }

  /**
    A row of more than one term is within the width, and so is the first one; the first term of a
    later row would have made the row before it too wide.
   */
  ghost predicate RowFits(rows: seq<seq<Term>>, wrap: int, k: nat)
    requires k < |rows|
  {
    && ((k == 0 && rows[k] != []) || |rows[k]| >= 2 ==>
          |Render(rows[k]).lower| <= wrap && |Render(rows[k]).upper| <= wrap)
    && (k > 0 ==> rows[k] != [] && TooWide(rows[k - 1], rows[k][0], wrap))
  }

  lemma LayoutFits(ts: seq<Term>, wrap: int, k: nat)
    requires k < |Layout(ts, wrap)|
    ensures RowFits(Layout(ts, wrap), wrap, k)
  {
    LayoutIs(ts, wrap);
    RowsFit(Layout(ts, wrap), wrap, k);
  }

  lemma RowsFit(rows: seq<seq<Term>>, wrap: int, k: nat)
    requires Wrapped(rows, wrap) && k < |rows|
    ensures RowFits(rows, wrap, k)
  {
    WrappedAt(rows, wrap, k);
    FollowFacts(rows[..k], rows[k], wrap);
    if k > 0 {
      assert rows[..k][k - 1] == rows[k - 1];
    }
  }

  lemma FollowFacts(done: seq<seq<Term>>, row: seq<Term>, wrap: int)
    requires MayFollow(done, row, wrap)
    ensures (done == [] && row != []) || |row| >= 2 ==> |Render(row).lower| <= wrap && |Render(row).upper| <= wrap
    ensures done != [] ==> row != [] && TooWide(done[|done| - 1], row[0], wrap)
  {
  }

  lemma {:induction false} WrappedAt(rows: seq<seq<Term>>, wrap: int, k: nat)
    requires Wrapped(rows, wrap) && k < |rows|
    ensures MayFollow(rows[..k], rows[k], wrap)
  {
    var m := |rows| - 1;
    if k == m {
      assert rows[..k] == rows[..m];
    } else {
      WrappedAt(rows[..m], wrap, k);
      assert rows[..m][..k] == rows[..k] && rows[..m][k] == rows[k];
    }
  }

  lemma LayoutKeeps(done: seq<seq<Term>>, row: seq<Term>, start: seq<Term>, t: Term, wrap: int)
    requires IsLayout(done + [row], start, wrap)
    ensures HasRoom(row, t, wrap) ==> IsLayout(done + [row + [t]], start + [t], wrap)
    ensures !HasRoom(row, t, wrap) ==> IsLayout(done + [row] + [[t]], start + [t], wrap)
  {
    Snoc(done, row, wrap);
    if HasRoom(row, t, wrap) {
      Snoc(done, row + [t], wrap);
      Assoc(Joined(done), row, [t]);
      RenderAppend(row, t);
    } else {
      Snoc(done + [row], [t], wrap);
    }
  }

  /** A row stays acceptable when its last term is taken away, unless none is left. */
  lemma Shorter(done: seq<seq<Term>>, row: seq<Term>, t: Term, wrap: int)
    requires MayFollow(done, row + [t], wrap) && (done == [] || row != [])
    ensures MayFollow(done, row, wrap) && HasRoom(row, t, wrap)
  {
    RenderAppend(row, t);
  }

  lemma {:induction false} LayoutUnique(rows: seq<seq<Term>>, ts: seq<Term>, wrap: int)
    requires IsLayout(rows, ts, wrap)
    ensures rows == Layout(ts, wrap)
    decreases |ts|
  {
    var m := |rows| - 1;
    var done, row := rows[..m], rows[m];
    assert rows == done + [row];
    Snoc(done, row, wrap);
    if row == [] {
    } else {
      var shorter, t := row[..|row| - 1], row[|row| - 1];
      assert row == shorter + [t];
      Assoc(Joined(done), shorter, [t]);
      if done != [] && shorter == [] {
        LayoutUnique(done, Joined(done), wrap);
        assert done == done[..m - 1] + [done[m - 1]];
        LayoutNext(Joined(done), t, wrap, done[..m - 1], done[m - 1]);
      } else {
        Shorter(done, shorter, t, wrap);
        Snoc(done, shorter, wrap);
        LayoutUnique(done + [shorter], Joined(done) + shorter, wrap);
        LayoutNext(Joined(done) + shorter, t, wrap, done, shorter);
      }
    }
  }

  function RenderAll(rows: seq<seq<Term>>): (r: seq<Lines>)
    ensures |r| == |rows|
  {
    seq(|rows|, k requires 0 <= k < |rows| => Render(rows[k]))
  }

  // ----- what the layout shows -----

  lemma {:induction false} RenderCons(t: Term, ts: seq<Term>)
    ensures Render([t] + ts) == Lines(Upper(t) + Render(ts).upper, Lower(t) + Render(ts).lower)
  {
    if ts == [] {
      assert [t] + ts == [t];
      RenderOne(t);
    } else {
      var n := |ts| - 1;
      RenderCons(t, ts[..n]);
      assert ([t] + ts)[..n + 1] == [t] + ts[..n];
      Assoc(Upper(t), Render(ts[..n]).upper, Upper(ts[n]));
      Assoc(Lower(t), Render(ts[..n]).lower, Lower(ts[n]));
    }
  }

  /** The exponent line and the base line of a row have the same length. */
  lemma {:induction false} RowAligned(row: seq<Term>)
    requires Proper(row)
    ensures |Render(row).upper| == |Render(row).lower|
  {
    if row == [] {
    } else {
      RowAligned(row[..|row| - 1]);
      assert ProperTerm(row[|row| - 1]);
    }
  }

  /** The term stands at column col: its base below, its exponent starting over the last character of the base. */
  ghost predicate Shows(l: Lines, col: nat, t: Term) {
    && t.part != "" && t.power != ""
    && col + |t.part| - 1 + |t.power| <= |l.upper| == |l.lower|
    && l.lower[col..col + |t.part|] == t.part
    && l.upper[col + |t.part| - 1..col + |t.part| - 1 + |t.power|] == t.power
    && (forall c :: col <= c < col + |t.part| - 1 ==> l.upper[c] == ' ')
    && (forall c :: col + |t.part| <= c < col + |t.part| - 1 + |t.power| ==> l.lower[c] == ' ')
  }

  lemma StillShows(l: Lines, col: nat, t: Term, upper: string, lower: string)
    requires Shows(l, col, t) && |upper| == |lower|
    ensures Shows(Lines(l.upper + upper, l.lower + lower), col, t)
  {
    var u, d := l.upper + upper, l.lower + lower;
    assert d[col..col + |t.part|] == l.lower[col..col + |t.part|];
    assert u[col + |t.part| - 1..col + |t.part| - 1 + |t.power|] ==
           l.upper[col + |t.part| - 1..col + |t.part| - 1 + |t.power|];
  }

  lemma ColumnsGrow(row: seq<Term>, col: nat, t: Term)
    requires row != [] && ProperTerm(row[|row| - 1]) && Shows(Render(row[..|row| - 1]), col, t)
    ensures Shows(Render(row), col, t)
  {
    var n := |row| - 1;
    StillShows(Render(row[..n]), col, t, Upper(row[n]), Lower(row[n]));
  }

  /**
    Every base stands at its column of the base line, and its exponent starts over its last
    character; the blank that opens the output and every later pair of lines moves the exponent
    line one column to the right of that.
   */
  lemma {:induction false} TermColumns(row: seq<Term>, k: nat)
    requires Proper(row) && k < |row|
    ensures |Render(row[..k]).upper| == |Render(row[..k]).lower|
    ensures Shows(Render(row), |Render(row[..k]).lower|, row[k])
    decreases |row|
  {
    var n := |row| - 1;
    RowAligned(row[..k]);
    assert ProperTerm(row[n]);
    if k < n {
      TermColumns(row[..n], k);
      assert row[..n][..k] == row[..k] && row[..n][k] == row[k];
      ColumnsGrow(row, |Render(row[..k]).lower|, row[k]);
    } else {
      LastTermColumns(row);
    }
  }

  lemma LastTermColumns(row: seq<Term>)
    requires row != [] && ProperTerm(row[|row| - 1])
    requires |Render(row[..|row| - 1]).upper| == |Render(row[..|row| - 1]).lower|
    ensures Shows(Render(row), |Render(row[..|row| - 1]).lower|, row[|row| - 1])
  {
    var t, before := row[|row| - 1], Render(row[..|row| - 1]);
    assert Render(row).upper == before.upper + Spaces(|t.part| - 1) + t.power;
    assert Render(row).lower == before.lower + t.part + Spaces(|t.power| - 1);
  }

  // ----- reading the terms back from a pair of lines -----

  function LeadingSpaces(u: string): (n: nat)
    ensures n <= |u|
    ensures forall k :: 0 <= k < n ==> u[k] == ' '
    ensures n < |u| ==> u[n] != ' '
  {
    if u == "" || u[0] != ' ' then 0 else 1 + LeadingSpaces(u[1..])
  }

  /** The end of an exponent: where the upper line has no digit or the lower line is not blank. */
  function PowerEnd(u: string, l: string, c: nat): (e: nat)
    requires c <= |u| == |l|
    ensures c <= e <= |u|
    ensures forall k :: c <= k < e ==> IsDigit(u[k]) && l[k] == ' '
    ensures e < |u| ==> !IsDigit(u[e]) || l[e] != ' '
    decreases |u| - c
  {
    if c < |u| && IsDigit(u[c]) && l[c] == ' ' then PowerEnd(u, l, c + 1) else c
  }

  /** The terms a pair of lines seems to show. */
  function ReadBack(u: string, l: string): (ts: seq<Term>)
    requires |u| == |l|
    decreases |u|
  {
    var s := LeadingSpaces(u);
    if s == |u| then []
    else
      var e := PowerEnd(u, l, s + 1);
      [Term(l[..s + 1], u[s..e])] + ReadBack(u[e..], l[e..])
  }

  /** No base after the first one on the row is a single blank. */
  ghost predicate Legible(row: seq<Term>) {
    forall k :: 1 <= k < |row| ==> row[k].part != " "
  }

  lemma FirstTermColumns(t: Term, upper: string, lower: string, u: string, l: string)
    requires ProperTerm(t) && |upper| == |lower|
    requires u == Upper(t) + upper && l == Lower(t) + lower
    ensures |u| == |l| && |Upper(t)| == |Lower(t)| == |t.part| - 1 + |t.power|
    ensures LeadingSpaces(u) == |t.part| - 1 < |u|
    ensures |Upper(t)| <= PowerEnd(u, l, |t.part|)
  {
    var p, n := |t.part|, |Upper(t)|;
    assert u[p - 1] == t.power[0];
    LeadingSpacesIs(u, p - 1);
    forall k | p <= k < n
      ensures IsDigit(u[k]) && l[k] == ' '
    {
      assert u[k] == t.power[k - p + 1];
    }
    PowerEndAtLeast(u, l, p, n);
  }

  /** The first term is read back exactly unless a lone blank follows it. */
  lemma FirstTermRead(t: Term, rest: seq<Term>, u: string, l: string)
    requires ProperTerm(t) && Proper(rest)
    requires u == Upper(t) + Render(rest).upper && l == Lower(t) + Render(rest).lower
    requires |Render(rest).upper| == |Render(rest).lower|
    ensures |u| == |l| && LeadingSpaces(u) == |t.part| - 1 < |u|
    ensures |Upper(t)| == |Lower(t)| <= PowerEnd(u, l, |t.part|)
    ensures PowerEnd(u, l, |t.part|) == |Upper(t)| <==> rest == [] || rest[0].part != " "
  {
    FirstTermColumns(t, Render(rest).upper, Render(rest).lower, u, l);
    var n := |Upper(t)|;
    if rest != [] {
      NextHead(rest);
      assert u[n] == Render(rest).upper[0] && l[n] == Render(rest).lower[0];
    }
  }

  lemma {:induction false} LeadingSpacesIs(u: string, n: nat)
    requires n < |u| && u[n] != ' ' && forall k :: 0 <= k < n ==> u[k] == ' '
    ensures LeadingSpaces(u) == n
  {
    if n == 0 {
    } else {
      LeadingSpacesIs(u[1..], n - 1);
    }
  }

  lemma {:induction false} PowerEndAtLeast(u: string, l: string, c: nat, n: nat)
    requires c <= n <= |u| == |l|
    requires forall k :: c <= k < n ==> IsDigit(u[k]) && l[k] == ' '
    ensures PowerEnd(u, l, c) >= n
    decreases n - c
  {
    if c == n {
    } else {
      PowerEndAtLeast(u, l, c + 1, n);
    }
  }

  /** The first column of a row is a digit over a blank exactly if its first base is a single blank. */
  lemma NextHead(row: seq<Term>)
    requires row != [] && Proper(row)
    ensures |Render(row).upper| > 0 && |Render(row).lower| > 0
    ensures IsDigit(Render(row).upper[0]) && Render(row).lower[0] == ' ' <==> row[0].part == " "
  {
    assert ProperTerm(row[0]);
    assert row == [row[0]] + row[1..];
    RenderCons(row[0], row[1..]);
    var t := row[0];
    if |t.part| == 1 {
      assert Render(row).upper[0] == t.power[0] && Render(row).lower[0] == t.part[0];
      assert t.part == [t.part[0]];
    } else {
      assert Render(row).upper[0] == ' ';
    }
  }

  lemma ReadBackStep(u: string, l: string, s: nat, e: nat)
    requires |u| == |l| && s == LeadingSpaces(u) < |u| && e == PowerEnd(u, l, s + 1)
    ensures ReadBack(u, l) == [Term(l[..s + 1], u[s..e])] + ReadBack(u[e..], l[e..])
  {
  }

  /** The first step of reading back: exact, or with too long an exponent. */
  lemma ReadFirst(t: Term, rest: seq<Term>, u: string, l: string)
    requires ProperTerm(t) && Proper(rest) && |Render(rest).upper| == |Render(rest).lower|
    requires u == Upper(t) + Render(rest).upper && l == Lower(t) + Render(rest).lower
    ensures |u| == |l|
    ensures rest == [] || rest[0].part != " " ==>
              ReadBack(u, l) == [t] + ReadBack(Render(rest).upper, Render(rest).lower)
    ensures rest != [] && rest[0].part == " " ==> ReadBack(u, l) != [] && ReadBack(u, l)[0] != t
  {
    FirstTermRead(t, rest, u, l);
    var s, e := |t.part| - 1, PowerEnd(u, l, |t.part|);
    ReadBackStep(u, l, s, e);
    if rest == [] || rest[0].part != " " {
      CutFirst(t, Render(rest).upper, Render(rest).lower, u, l);
    } else {
      assert |u[s..e]| > |t.power|;
    }
  }

  lemma CutFirst(t: Term, upper: string, lower: string, u: string, l: string)
    requires ProperTerm(t) && u == Upper(t) + upper && l == Lower(t) + lower
    ensures var e := |Upper(t)|;
            && e <= |u| && |t.part| <= |l| && e <= |l| && |t.part| - 1 <= e
            && l[..|t.part|] == t.part && u[|t.part| - 1..e] == t.power
            && u[e..] == upper && l[e..] == lower
  {
  }

  /** A row of proper terms can be read back from its two lines if and only if it is legible. */
  lemma {:induction false} ReadBackIff(row: seq<Term>)
    requires Proper(row)
    ensures |Render(row).upper| == |Render(row).lower|
    ensures ReadBack(Render(row).upper, Render(row).lower) == row <==> Legible(row)
    decreases |row|
  {
    if row == [] {
    } else {
      var t, rest := row[0], row[1..];
      assert row == [t] + rest;
      RenderCons(t, rest);
      ReadBackIff(rest);
      assert ProperTerm(t);
      ReadFirst(t, rest, Render(row).upper, Render(row).lower);
      if rest != [] && rest[0].part == " " {
        assert row[1].part == " ";
      } else {
        var read := ReadBack(Render(rest).upper, Render(rest).lower);
        assert ([t] + read)[1..] == read;
        LegibleTail(t, rest);
      }
    }
  }

  lemma LegibleTail(t: Term, rest: seq<Term>)
    requires rest == [] || rest[0].part != " "
    ensures Legible([t] + rest) <==> Legible(rest)
  {
    var row := [t] + rest;
    assert forall k :: 1 <= k < |row| ==> row[k] == rest[k - 1];
    if Legible(row) {
      assert forall k :: 1 <= k < |rest| ==> rest[k] == row[k + 1];
    }
  }

  function ReadRows(pairs: seq<Lines>): (rows: seq<seq<Term>>)
    requires forall k :: 0 <= k < |pairs| ==> |pairs[k].upper| == |pairs[k].lower|
    ensures |rows| == |pairs|
  {
    seq(|pairs|, k requires 0 <= k < |pairs| => ReadBack(pairs[k].upper, pairs[k].lower))
  }

  lemma {:induction false} RowsProper(rows: seq<seq<Term>>, ts: seq<Term>)
    requires Joined(rows) == ts && Proper(ts)
    ensures forall k :: 0 <= k < |rows| ==> Proper(rows[k])
  {
    if rows == [] {
    } else {
      var m := |rows| - 1;
      var start := Joined(rows[..m]);
      assert ts == start + rows[m];
      assert forall k :: 0 <= k < |start| ==> start[k] == ts[k];
      assert forall k :: 0 <= k < |rows[m]| ==> rows[m][k] == ts[|start| + k];
      RowsProper(rows[..m], start);
    }
  }

  // ----- what two lines can tell -----

  /** A base that is a lone blank disappears: its exponent continues the exponent before it. */
  function Merged(row: seq<Term>): (m: seq<Term>)
    ensures row != [] ==> m != []
  {
    if |row| <= 1 then row
    else
      MergeOne(Merged(row[..|row| - 1]), row[|row| - 1])
  }

  function MergeOne(m: seq<Term>, t: Term): (more: seq<Term>)
    requires m != []
    ensures more != []
  {
    if t.part == " " then m[..|m| - 1] + [Longer(m[|m| - 1], t.power)] else m + [t]
  }

  lemma MergedSnoc(start: seq<Term>, t: Term)
    requires start != []
    ensures Merged(start + [t]) == MergeOne(Merged(start), t)
  {
    assert (start + [t])[..|start|] == start;
  }

  function Longer(t: Term, power: string): Term {
    Term(t.part, t.power + power)
  }

  lemma LongerLines(t: Term, power: string)
    requires ProperTerm(t) && power != ""
    ensures Upper(Longer(t, power)) == Upper(t) + Upper(Term(" ", power))
    ensures Lower(Longer(t, power)) == Lower(t) + Lower(Term(" ", power))
    ensures |TermText(Longer(t, power))| < |TermText(t)| + |TermText(Term(" ", power))|
  {
    SpacesAdd(|t.power|, |power|);
    assert Spaces(0) == "" && Upper(Term(" ", power)) == power;
    Assoc(Spaces(|t.part| - 1), t.power, power);
    Assoc(t.part, Spaces(|t.power| - 1), " " + Spaces(|power| - 1));
  }

  lemma SpacesAdd(m: nat, n: nat)
    requires m > 0 && n > 0
    ensures Spaces(m + n - 1) == Spaces(m - 1) + (" " + Spaces(n - 1))
  {
  }

  lemma ProperLonger(m: seq<Term>, power: string)
    requires m != [] && Proper(m) && ProperTerm(Term(" ", power))
    ensures ProperTerm(m[|m| - 1]) && Proper(m[..|m| - 1] + [Longer(m[|m| - 1], power)])
  {
    assert ProperTerm(m[|m| - 1]);
  }

  /** Merging shows the same two lines, and leaves no lone blank to merge. */
  lemma {:induction false} MergedFacts(row: seq<Term>)
    requires Proper(row)
    ensures Proper(Merged(row)) && Legible(Merged(row)) && Render(Merged(row)) == Render(row)
    ensures Legible(row) ==> Merged(row) == row
    decreases |row|
  {
    if |row| <= 1 {
    } else {
      var start, t := row[..|row| - 1], row[|row| - 1];
      assert row == start + [t];
      MergedFacts(start);
      MergedSnoc(start, t);
      assert ProperTerm(t);
      MergedOne(Merged(start), t);
      RenderAppend(start, t);
      LegibleSnoc(start, t);
    }
  }

  lemma LegibleSnoc(start: seq<Term>, t: Term)
    requires start != []
    ensures Legible(start + [t]) <==> Legible(start) && t.part != " "
  {
    var row := start + [t];
    assert forall k :: 0 <= k < |start| ==> start[k] == row[k];
    assert row[|start|] == t;
  }

  lemma MergedOne(m: seq<Term>, t: Term)
    requires m != [] && Proper(m) && Legible(m) && ProperTerm(t)
    ensures Proper(MergeOne(m, t)) && Legible(MergeOne(m, t))
    ensures Render(MergeOne(m, t)) == Lines(Render(m).upper + Upper(t), Render(m).lower + Lower(t))
  {
    var start, last := m[..|m| - 1], m[|m| - 1];
    assert m == start + [last];
    if t.part == " " {
      assert t == Term(" ", t.power);
      ProperLonger(m, t.power);
      LongerLines(last, t.power);
      RenderAppend(start, last);
      RenderAppend(start, Longer(last, t.power));
      Assoc(Render(start).upper, Upper(last), Upper(t));
      Assoc(Render(start).lower, Lower(last), Lower(t));
      if start != [] {
        LegibleSnoc(start, last);
        LegibleSnoc(start, Longer(last, t.power));
      }
    } else {
      RenderAppend(m, t);
      LegibleSnoc(m, t);
    }
  }

  /** Whatever the row, what its two lines are read back as is the row merged. */
  lemma ReadBackMerges(row: seq<Term>)
    requires Proper(row)
    ensures |Render(row).upper| == |Render(row).lower|
    ensures ReadBack(Render(row).upper, Render(row).lower) == Merged(row)
  {
    MergedFacts(row);
    ReadBackIff(Merged(row));
  }

  /**
    Two rows have the same two lines exactly if they merge into the same row. So the two lines
    determine the row among the legible ones, and no way of reading could tell more.
   */
  lemma SameLinesIff(row: seq<Term>, row': seq<Term>)
    requires Proper(row) && Proper(row')
    ensures Render(row) == Render(row') <==> Merged(row) == Merged(row')
    ensures Legible(row) && Legible(row') ==> (Render(row) == Render(row') <==> row == row')
  {
    ReadBackMerges(row);
    ReadBackMerges(row');
    MergedFacts(row);
    MergedFacts(row');
  }

  lemma {:induction false} TermsTextConcat(a: seq<Term>, b: seq<Term>)
    ensures TermsText(a + b) == TermsText(a) + TermsText(b)
  {
    if a == [] {
      assert [] + b == b;
    } else {
      assert (a + b)[0] == a[0] && (a + b)[1..] == a[1..] + b;
      TermsTextConcat(a[1..], b);
      Assoc(TermText(a[0]), TermsText(a[1..]), TermsText(b));
    }
  }

  lemma TermsTextSnoc(ts: seq<Term>, t: Term)
    ensures |TermsText(ts + [t])| == |TermsText(ts)| + |TermText(t)|
  {
    TermsTextConcat(ts, [t]);
    assert [t][1..] == [];
  }

  /** Merging shortens the text of every row that is not legible. */
  lemma {:induction false} MergedShortens(row: seq<Term>)
    requires Proper(row)
    ensures |TermsText(Merged(row))| <= |TermsText(row)|
    ensures !Legible(row) ==> |TermsText(Merged(row))| < |TermsText(row)|
    decreases |row|
  {
    if |row| <= 1 {
    } else {
      var start, t := row[..|row| - 1], row[|row| - 1];
      assert row == start + [t];
      MergedShortens(start);
      MergedSnoc(start, t);
      MergedFacts(start);
      assert ProperTerm(t);
      MergeOneShortens(Merged(start), t);
      TermsTextSnoc(start, t);
      LegibleSnoc(start, t);
    }
  }

  lemma MergeOneShortens(m: seq<Term>, t: Term)
    requires m != [] && Proper(m) && ProperTerm(t)
    ensures |TermsText(MergeOne(m, t))| <= |TermsText(m)| + |TermText(t)|
    ensures t.part == " " ==> |TermsText(MergeOne(m, t))| < |TermsText(m)| + |TermText(t)|
  {
    var start, last := m[..|m| - 1], m[|m| - 1];
    assert m == start + [last];
    if t.part == " " {
      assert t == Term(" ", t.power);
      ProperLonger(m, t.power);
      LongerLines(last, t.power);
      TermsTextSnoc(start, last);
      TermsTextSnoc(start, Longer(last, t.power));
    } else {
      TermsTextSnoc(m, t);
    }
  }

  /** Over all rows the merged text is as long as the text only if every row is legible. */
  lemma {:induction false} AllMerged(rows: seq<seq<Term>>, merged: seq<seq<Term>>)
    requires |merged| == |rows| && forall k :: 0 <= k < |rows| ==> Proper(rows[k]) && merged[k] == Merged(rows[k])
    ensures |TermsText(Joined(merged))| <= |TermsText(Joined(rows))|
    ensures |TermsText(Joined(merged))| == |TermsText(Joined(rows))| ==>
              forall k :: 0 <= k < |rows| ==> Legible(rows[k])
  {
    if rows == [] {
    } else {
      var m := |rows| - 1;
      AllMerged(rows[..m], merged[..m]);
      MergedShortens(rows[m]);
      TermsTextConcat(Joined(rows[..m]), rows[m]);
      TermsTextConcat(Joined(merged[..m]), merged[m]);
      if |TermsText(Joined(merged))| == |TermsText(Joined(rows))| {
        assert forall k :: 0 <= k < m ==> rows[k] == rows[..m][k];
      }
    }
  }

  /** Rows of proper terms read back as text exactly if every one of them is legible. */
  lemma RowsRead(rows: seq<seq<Term>>)
    requires forall k :: 0 <= k < |rows| ==> Proper(rows[k])
    ensures forall k :: 0 <= k < |rows| ==> |Render(rows[k]).upper| == |Render(rows[k]).lower|
    ensures TermsText(Joined(ReadRows(RenderAll(rows)))) == TermsText(Joined(rows))
       <==> forall k :: 0 <= k < |rows| ==> Legible(rows[k])
  {
    forall k | 0 <= k < |rows|
      ensures |Render(rows[k]).upper| == |Render(rows[k]).lower|
      ensures ReadBack(Render(rows[k]).upper, Render(rows[k]).lower) == Merged(rows[k])
      ensures Legible(rows[k]) ==> Merged(rows[k]) == rows[k]
    {
      ReadBackMerges(rows[k]);
      MergedFacts(rows[k]);
    }
    var read := ReadRows(RenderAll(rows));
    AllMerged(rows, read);
    if forall k :: 0 <= k < |rows| ==> Legible(rows[k]) {
      assert read == rows;
    }
  }

  /** If all terms are proper, the pairs of lines and the tail give the text back exactly if every row is legible. */
  lemma RebuildIff(astr: string, wrap: int)
    requires Proper(Split(astr, 0).0)
    ensures var rows := Layout(Split(astr, 0).0, wrap);
            var pairs := RenderAll(rows);
            && (forall k :: 0 <= k < |pairs| ==> |pairs[k].upper| == |pairs[k].lower|)
            && (astr == TermsText(Joined(ReadRows(pairs))) + Split(astr, 0).1
                <==> forall k :: 0 <= k < |rows| ==> Legible(rows[k]))
  {
    var terms, tail := Split(astr, 0).0, Split(astr, 0).1;
    var rows := Layout(terms, wrap);
    LayoutIs(terms, wrap);
    RowsProper(rows, terms);
    RowsRead(rows);
    SplitText(astr, 0);
    assert astr[0..] == astr;
    SameFront(TermsText(Joined(ReadRows(RenderAll(rows)))), TermsText(terms), tail);
  }

  lemma SameFront(a: string, b: string, tail: string)
    ensures a + tail == b + tail <==> a == b
  {
    if a + tail == b + tail {
      assert a == (a + tail)[..|a|] && b == (b + tail)[..|b|];
    }
  }

  /** One search step, with the match and the end of its digits given. */
  lemma SplitAt(s: string, n: nat, i: nat, j: nat, part: string, power: string)
    requires n <= i && StarsAt(s, i) && i + 2 <= j <= |s|
    requires Search(s, n) == Some(i) && DigitsEnd(s, i + 2) == j
    requires s[n..i] == part && s[i + 2..j] == power
    ensures Split(s, n) == ([Term(part, power)] + Split(s, j).0, Split(s, j).1)
  {
  }

  lemma SplitEnd(s: string)
    ensures Split(s, |s|) == ([], "")
  {
    assert s[|s|..] == "";
  }

  lemma SplitTwoTerms()
    ensures Split("x**1 **2", 0) == ([Term("x", "1")] + [Term(" ", "2")], "")
  {
    var s := "x**1 **2";
    assert |s| == 8 && s[0] == 'x' && s[1] == '*' && s[2] == '*' && s[3] == '1';
    assert s[4] == ' ' && s[5] == '*' && s[6] == '*' && s[7] == '2';
    assert Search(s, 1) == Some(1) && Search(s, 5) == Some(5);
    assert DigitsEnd(s, 4) == 4 && DigitsEnd(s, 8) == 8;
    SplitEnd(s);
    SplitAt(s, 4, 5, 8, " ", "2");
    assert [Term(" ", "2")] + [] == [Term(" ", "2")];
    SplitAt(s, 0, 1, 4, "x", "1");
  }

  lemma SplitOneTerm()
    ensures Split("x**12", 0) == ([Term("x", "12")], "")
  {
    var s := "x**12";
    assert |s| == 5 && s[0] == 'x' && s[1] == '*' && s[2] == '*' && s[3] == '1' && s[4] == '2';
    assert Search(s, 1) == Some(1);
    assert DigitsEnd(s, 5) == 5 && DigitsEnd(s, 4) == 5;
    SplitEnd(s);
    SplitAt(s, 0, 1, 5, "x", "12");
    assert [Term("x", "12")] + [] == [Term("x", "12")];
  }

  /** Two different texts of proper terms have the same two lines; the second row is the first one merged. */
  lemma LayoutIsAmbiguous()
    ensures Split("x**1 **2", 0) == ([Term("x", "1")] + [Term(" ", "2")], "")
    ensures Split("x**12", 0) == ([Term("x", "12")], "")
    ensures Render([Term("x", "1")] + [Term(" ", "2")]) == Render([Term("x", "12")]) == Lines("12", "x ")
    ensures Merged([Term("x", "1")] + [Term(" ", "2")]) == [Term("x", "12")]
  {
    SplitTwoTerms();
    SplitOneTerm();
    SameTwoLines();
    MergeTwo();
  }

  lemma SameTwoLines()
    ensures Render([Term("x", "1")] + [Term(" ", "2")]) == Render([Term("x", "12")]) == Lines("12", "x ")
  {
    RenderOne(Term("x", "12"));
    RenderOne(Term("x", "1"));
    RenderAppend([Term("x", "1")], Term(" ", "2"));
    assert Spaces(1) == " " && Spaces(0) == "";
  }

  lemma MergeTwo()
    ensures Merged([Term("x", "1")] + [Term(" ", "2")]) == [Term("x", "12")]
  {
    MergedSnoc([Term("x", "1")], Term(" ", "2"));
    assert "1" + "2" == "12";
    assert [Term("x", "1")][..0] + [Term("x", "12")] == [Term("x", "12")];
  }
}
