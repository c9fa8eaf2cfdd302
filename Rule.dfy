/**
  The decision of `function-paren-newline` for one located list: which line
  breaks the mode requires, which diagnostics follow from the layout, and
  the edit each diagnostic offers.
*/
module Rule {
  import opened Wrappers
  import opened Text
  import opened Lists
  import opened Modes

  /** The rule's message identifiers. */
  datatype MessageId = ExpectedAfter | UnexpectedAfter | ExpectedBefore | UnexpectedBefore | ExpectedBetween

  /**
    One report: its message, the offset in the list's text of the token it is
    reported at, and the edit that fixes it, when one is offered.
  */
  datatype Diagnostic = Diagnostic(id: MessageId, at: nat, fix: Option<Edit>)

  /**
    Whether line breaks are required after `(` and before `)`. Under
    `Multiline`, and under `MultilineArguments` with other than one item, the
    requirement comes from the items alone: some adjacent pair must lie on
    different lines, however many lines a single item spans. `Always` asks
    for them even in an empty list, `Never` never does, and `MinItems(n)`
    counts items without looking at the layout. `Consistent`, and
    `MultilineArguments` with one item, take the requirement from the
    present state of the `(` side.
  */
  function NeedsBreaks(mode: Mode, lay: Layout): (r: bool)
    ensures (mode.Multiline? || (mode.MultilineArguments? && lay.count != 1)) ==> (r <==> true in lay.splits)
    ensures (mode.Consistent? || (mode.MultilineArguments? && lay.count == 1)) ==> (r <==> lay.leftBreak)
    ensures mode.MinItems? ==> (r <==> lay.count >= mode.n)
    ensures mode.Always? ==> r
    ensures mode.Never? ==> !r
  {
    match mode
    case Always => true
    case Never => false
    case MinItems(n) => lay.count >= n
    case Consistent => lay.leftBreak
    case Multiline => true in lay.splits
    case MultilineArguments => if lay.count == 1 then lay.leftBreak else true in lay.splits
  }

  /** The verdict on the `(` side: a break that is there but not required, or required but missing. */
  function JudgeOpen(present: bool, needs: bool): seq<MessageId> {
    if present && !needs then [UnexpectedAfter]
    else if !present && needs then [ExpectedAfter]
    else []
  }

  /** The verdict on the `)` side. */
  function JudgeClose(present: bool, needs: bool): seq<MessageId> {
    if present && !needs then [UnexpectedBefore]
    else if !present && needs then [ExpectedBefore]
    else []
  }

  /** One `expectedBetween` for each adjacent pair of items on the same line, in order. */
  function MissingBetween(splits: seq<bool>): (r: seq<MessageId>)
    ensures |r| <= |splits|
    ensures forall k :: 0 <= k < |r| ==> r[k] == ExpectedBetween
  {
    if splits == [] then []
    else (if splits[0] then [] else [ExpectedBetween]) + MissingBetween(splits[1..])
  }

  /**
    The messages a list with layout `lay` draws, in source order: the `(`
    side, then (under `MultilineArguments`, when breaks are required) each
    pair of items on one line, then the `)` side.
  */
  function Decide(mode: Mode, lay: Layout): (r: seq<MessageId>)
    ensures |r| <= 2 + |lay.splits|
    ensures forall i :: 0 <= i < |r| && (r[i] == ExpectedAfter || r[i] == UnexpectedAfter) ==> i == 0
    ensures forall i :: 0 <= i < |r| && (r[i] == ExpectedBefore || r[i] == UnexpectedBefore) ==> i == |r| - 1
    ensures ExpectedBetween in r ==> mode.MultilineArguments? && NeedsBreaks(mode, lay)
    ensures r == [] ==> lay.leftBreak == lay.rightBreak == NeedsBreaks(mode, lay)
  {
    var needs := NeedsBreaks(mode, lay);
    JudgeOpen(lay.leftBreak, needs)
    + (if mode.MultilineArguments? && needs then MissingBetween(lay.splits) else [])
    + JudgeClose(lay.rightBreak, needs)
  }

  /**
    The diagnostic for the gap after `(`, reported at `(`. Inserting puts a
    line break right after `(`; removing deletes the whole gap up to the
    next token, and is withheld when that gap holds a comment.
  */
  function OpenDiagnostics(gap: string, needs: bool): seq<Diagnostic> {
    if HasBreak(gap) && !needs then
      [Diagnostic(UnexpectedAfter, 0, if HoldsComment(gap) then None else Some(Edit(1, 1 + |gap|, "")))]
    else if !HasBreak(gap) && needs then
      [Diagnostic(ExpectedAfter, 0, Some(Edit(1, 1, "\n")))]
    else []
  }

  /**
    The diagnostic for the gap before `)`, which starts at offset `start`;
    reported at `)`. Inserting puts a line break right before `)`; removing
    deletes the whole gap back to the previous token, unless it holds a comment.
  */
  function CloseDiagnostics(gap: string, start: nat, needs: bool): seq<Diagnostic> {
    var close := start + |gap|;
    if HasBreak(gap) && !needs then
      [Diagnostic(UnexpectedBefore, close, if HoldsComment(gap) then None else Some(Edit(start, close, "")))]
    else if !HasBreak(gap) && needs then
      [Diagnostic(ExpectedBefore, close, Some(Edit(close, close, "\n")))]
    else []
  }

  /**
    `expectedBetween` for each pair on one line among `item` (starting at
    offset `at`) and the items of `rest`; reported at the pair's first item,
    fixed by a line break inserted right before the second item.
  */
  function BetweenDiagnostics(at: nat, item: string, rest: seq<Pair>): seq<Diagnostic>
    decreases |rest|
  {
    if rest == [] then []
    else
      var next := at + |item| + |rest[0].sep|;
      (if HasBreak(rest[0].sep) then [] else [Diagnostic(ExpectedBetween, at, Some(Edit(next, next, "\n")))])
      + BetweenDiagnostics(next, rest[0].item, rest[1..])
  }

  /** The between-items reports: only under `MultilineArguments`, and only when breaks are required. */
  function BetweenPart(mode: Mode, l: ParenList, needs: bool): seq<Diagnostic> {
    if l.Items? && mode.MultilineArguments? && needs then BetweenDiagnostics(1 + |l.leftGap|, l.first, l.rest) else []
  }

  /** Everything the rule reports for one list under `mode`, offsets taken in `Render(l)`. */
  function Diagnose(mode: Mode, l: ParenList): seq<Diagnostic> {
    var needs := NeedsBreaks(mode, Classify(l));
    OpenDiagnostics(OpenGap(l), needs) + BetweenPart(mode, l, needs) + CloseDiagnostics(CloseGap(l), RightGapStart(l), needs)
  }

  /** The message identifiers of `ds`, in order. */
  function Ids(ds: seq<Diagnostic>): (r: seq<MessageId>)
    ensures |r| == |ds|
    ensures forall i :: 0 <= i < |ds| ==> r[i] == ds[i].id
  {
    if ds == [] then [] else [ds[0].id] + Ids(ds[1..])
  }

  /** The edits offered by `ds`, in order. */
  function Fixes(ds: seq<Diagnostic>): seq<Edit> {
    if ds == [] then []
    else (if ds[0].fix.Some? then [ds[0].fix.value] else []) + Fixes(ds[1..])
  }

  /** The message identifiers of the diagnostics in `ds` that offer no edit, in order. */
  function Unfixed(ds: seq<Diagnostic>): seq<MessageId> {
    if ds == [] then []
    else (if ds[0].fix.None? then [ds[0].id] else []) + Unfixed(ds[1..])
  }

  /** The list is accepted: the rule reports nothing. */
  predicate Accepted(mode: Mode, l: ParenList) {
    Diagnose(mode, l) == []
  }

  lemma {:induction false} IdsAppend(a: seq<Diagnostic>, b: seq<Diagnostic>)
    ensures Ids(a + b) == Ids(a) + Ids(b)
  {
    var r := Ids(a) + Ids(b);
    forall i | 0 <= i < |a + b| ensures Ids(a + b)[i] == r[i] {
      if i < |a| {
        assert (a + b)[i] == a[i] && r[i] == Ids(a)[i];
      } else {
        assert (a + b)[i] == b[i - |a|] && r[i] == Ids(b)[i - |a|];
      }
    }
  }

  /** The edits offered, and the messages with none, of two runs of reports are those of each run in turn. */
  lemma FixesAppend(a: seq<Diagnostic>, b: seq<Diagnostic>)
    ensures Fixes(a + b) == Fixes(a) + Fixes(b)
    ensures Unfixed(a + b) == Unfixed(a) + Unfixed(b)
  {
    FixesSplit(a, b);
    UnfixedSplit(a, b);
  }

  lemma {:induction false} FixesSplit(a: seq<Diagnostic>, b: seq<Diagnostic>)
    ensures Fixes(a + b) == Fixes(a) + Fixes(b)
    decreases |a|
  {
    if a == [] {
      assert a + b == b;
    } else {
      var h := if a[0].fix.Some? then [a[0].fix.value] else [];
      assert (a + b)[0] == a[0] && (a + b)[1..] == a[1..] + b;
      FixesSplit(a[1..], b);
      assert Fixes(a + b) == h + (Fixes(a[1..]) + Fixes(b));
      assert h + (Fixes(a[1..]) + Fixes(b)) == (h + Fixes(a[1..])) + Fixes(b);
    }
  }

  lemma {:induction false} UnfixedSplit(a: seq<Diagnostic>, b: seq<Diagnostic>)
    ensures Unfixed(a + b) == Unfixed(a) + Unfixed(b)
    decreases |a|
  {
    if a == [] {
      assert a + b == b;
    } else {
      var h := if a[0].fix.None? then [a[0].id] else [];
      assert (a + b)[0] == a[0] && (a + b)[1..] == a[1..] + b;
      UnfixedSplit(a[1..], b);
      assert Unfixed(a + b) == h + (Unfixed(a[1..]) + Unfixed(b));
      assert h + (Unfixed(a[1..]) + Unfixed(b)) == (h + Unfixed(a[1..])) + Unfixed(b);
    }
  }

  /** The between-items reports carry exactly the messages `MissingBetween` decides. */
  lemma {:induction false} BetweenFollowsDecision(at: nat, item: string, rest: seq<Pair>)
    ensures Ids(BetweenDiagnostics(at, item, rest)) == MissingBetween(Splits(rest))
    decreases |rest|
  {
    if rest != [] {
      var next := at + |item| + |rest[0].sep|;
      var head: seq<Diagnostic> := if HasBreak(rest[0].sep) then [] else [Diagnostic(ExpectedBetween, at, Some(Edit(next, next, "\n")))];
      BetweenFollowsDecision(next, rest[0].item, rest[1..]);
      IdsAppend(head, BetweenDiagnostics(next, rest[0].item, rest[1..]));
      assert Splits(rest)[1..] == Splits(rest[1..]);
    }
  }

  /** The reports on a list's text carry exactly the messages decided from its layout, in the same order. */
  lemma DiagnoseFollowsDecision(mode: Mode, l: ParenList)
    ensures Ids(Diagnose(mode, l)) == Decide(mode, Classify(l))
  {
    var needs := NeedsBreaks(mode, Classify(l));
    var o := OpenDiagnostics(OpenGap(l), needs);
    var b := BetweenPart(mode, l, needs);
    var c := CloseDiagnostics(CloseGap(l), RightGapStart(l), needs);
    OpenIds(OpenGap(l), needs);
    CloseIds(CloseGap(l), RightGapStart(l), needs);
    BetweenIds(mode, l, needs);
    IdsAppend(o + b, c);
    IdsAppend(o, b);
  }

  /** The `(` side reports the verdict `JudgeOpen` gives. */
  lemma OpenIds(gap: string, needs: bool)
    ensures Ids(OpenDiagnostics(gap, needs)) == JudgeOpen(HasBreak(gap), needs)
  {
  }

  /** The `)` side reports the verdict `JudgeClose` gives. */
  lemma CloseIds(gap: string, start: nat, needs: bool)
    ensures Ids(CloseDiagnostics(gap, start, needs)) == JudgeClose(HasBreak(gap), needs)
  {
  }

  /** The between-items reports carry the messages `Decide` puts between the boundary verdicts. */
  lemma BetweenIds(mode: Mode, l: ParenList, needs: bool)
    ensures Ids(BetweenPart(mode, l, needs))
         == if mode.MultilineArguments? && needs then MissingBetween(Classify(l).splits) else []
  {
    if l.Items? && mode.MultilineArguments? && needs {
      BetweenFollowsDecision(1 + |l.leftGap|, l.first, l.rest);
    }
  }

  /** Offsets of the reports strictly increase: they come in source order. */
  predicate InSourceOrder(ds: seq<Diagnostic>) {
    forall i, j :: 0 <= i < j < |ds| ==> ds[i].at < ds[j].at
  }

  /**
    The between-items reports come in strictly increasing source order, none
    before `at` and none past the end of the last separator and item;
    `BetweenAtPairs` says which item each one is at.
  */
  lemma {:induction false} BetweenInOrder(at: nat, item: string, rest: seq<Pair>)
    requires WellFormed(Items("", item, rest, ""))
    ensures InSourceOrder(BetweenDiagnostics(at, item, rest))
    ensures forall d :: d in BetweenDiagnostics(at, item, rest) ==> at <= d.at < at + |item| + |Tail(rest)|
    decreases |rest|
  {
    if rest != [] {
      var next := at + |item| + |rest[0].sep|;
      var h := if HasBreak(rest[0].sep) then [] else [Diagnostic(ExpectedBetween, at, Some(Edit(next, next, "\n")))];
      var later := BetweenDiagnostics(next, rest[0].item, rest[1..]);
      assert BetweenDiagnostics(at, item, rest) == h + later;
      assert WellFormed(Items("", rest[0].item, rest[1..], "")) by {
        assert forall i :: 0 <= i < |rest[1..]| ==> rest[1..][i] == rest[i + 1];
      }
      BetweenInOrder(next, rest[0].item, rest[1..]);
      assert |Tail(rest)| == |rest[0].sep| + |rest[0].item| + |Tail(rest[1..])|;
      OrderedAfterOne(h, later, at);
    }
  }

  /**
    The report for the pair of items `j` and `j + 1` among `item` (at offset
    `at`) and the items of `rest`: at item `j`, fixed by a line break
    inserted right where item `j + 1` starts.
  */
  function PairReport(at: nat, item: string, rest: seq<Pair>, j: nat): Diagnostic
    requires j < |rest|
  {
    var s := at + ItemOffset(item, rest, j + 1);
    Diagnostic(ExpectedBetween, at + ItemOffset(item, rest, j), Some(Edit(s, s, "\n")))
  }

  /**
    The between-items reports are exactly the pair reports of the pairs whose
    separator holds no line break: each report is one of them, and each of
    them is reported.
  */
  lemma {:induction false} BetweenAtPairs(at: nat, item: string, rest: seq<Pair>)
    ensures forall d :: d in BetweenDiagnostics(at, item, rest) ==>
      exists j :: 0 <= j < |rest| && !HasBreak(rest[j].sep) && d == PairReport(at, item, rest, j)
    ensures forall j :: 0 <= j < |rest| && !HasBreak(rest[j].sep) ==>
      PairReport(at, item, rest, j) in BetweenDiagnostics(at, item, rest)
    decreases |rest|
  {
    if rest != [] {
      var next := at + |item| + |rest[0].sep|;
      var h := if HasBreak(rest[0].sep) then [] else [Diagnostic(ExpectedBetween, at, Some(Edit(next, next, "\n")))];
      var later := BetweenDiagnostics(next, rest[0].item, rest[1..]);
      assert BetweenDiagnostics(at, item, rest) == h + later;
      BetweenAtPairs(next, rest[0].item, rest[1..]);
      assert !HasBreak(rest[0].sep) ==> h == [PairReport(at, item, rest, 0)];
      forall j | 0 < j < |rest|
        ensures PairReport(at, item, rest, j) == PairReport(next, rest[0].item, rest[1..], j - 1)
        ensures rest[j] == rest[1..][j - 1]
      {
      }
      forall d | d in later
        ensures exists j :: 0 <= j < |rest| && !HasBreak(rest[j].sep) && d == PairReport(at, item, rest, j)
      {
        var j' :| 0 <= j' < |rest[1..]| && !HasBreak(rest[1..][j'].sep) && d == PairReport(next, rest[0].item, rest[1..], j');
        assert d == PairReport(at, item, rest, j' + 1);
      }
    }
  }

  /** At most one report at `a`, then reports in order past `a`: the whole run is in order. */
  lemma OrderedAfterOne(h: seq<Diagnostic>, later: seq<Diagnostic>, a: int)
    requires |h| <= 1 && (forall d :: d in h ==> d.at == a)
    requires InSourceOrder(later) && forall d :: d in later ==> d.at > a
    ensures InSourceOrder(h + later)
  {
    var all := h + later;
    forall i, j | 0 <= i < j < |all| ensures all[i].at < all[j].at {
      if i < |h| {
        assert all[i] in h && all[j] == later[j - |h|] && later[j - |h|] in later;
      } else {
        assert all[i] == later[i - |h|] && all[j] == later[j - |h|];
      }
    }
  }

  /** Every list's reports come in source order: `(` side, pairs left to right, `)` side. */
  lemma DiagnosticsInSourceOrder(mode: Mode, l: ParenList)
    requires WellFormed(l)
    ensures InSourceOrder(Diagnose(mode, l))
    ensures forall d :: d in Diagnose(mode, l) ==> d.at <= CloseAt(l)
  {
    var needs := NeedsBreaks(mode, Classify(l));
    var o := OpenDiagnostics(OpenGap(l), needs);
    var b := BetweenPart(mode, l, needs);
    var c := CloseDiagnostics(CloseGap(l), RightGapStart(l), needs);
    if l.Items? && mode.MultilineArguments? && needs {
      BetweenInOrder(1 + |l.leftGap|, l.first, l.rest);
    }
    assert forall d :: d in b ==> 0 < d.at < CloseAt(l);
    OrderedRuns(o, b, c, CloseAt(l));
  }

  /** At most one report at 0, reports in order strictly inside, and at most one at `close`. */
  lemma OrderedRuns(o: seq<Diagnostic>, b: seq<Diagnostic>, c: seq<Diagnostic>, close: nat)
    requires close > 0
    requires |o| <= 1 && (forall d :: d in o ==> d.at == 0)
    requires InSourceOrder(b) && (forall d :: d in b ==> 0 < d.at < close)
    requires |c| <= 1 && (forall d :: d in c ==> d.at == close)
    ensures InSourceOrder(o + b + c)
    ensures forall d :: d in o + b + c ==> d.at <= close
  {
    var all := o + b + c;
    forall i, j | 0 <= i < j < |all| ensures all[i].at < all[j].at {
      var x, y := |o|, |o| + |b|;
      if i < x {
        assert all[i] == o[i] && o[i] in o;
        if j < y { assert all[j] == b[j - x] && all[j] in b; } else { assert all[j] == c[j - y] && all[j] in c; }
      } else if i < y {
        assert all[i] == b[i - x] && all[i] in b;
        if j < y { assert all[j] == b[j - x]; } else { assert all[j] == c[j - y] && all[j] in c; }
      }
    }
  }
}
