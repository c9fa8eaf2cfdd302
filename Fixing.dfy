/**
  The edits `function-paren-newline` offers, and what one fixing pass makes
  of a list: where each edit goes, when an edit is withheld, and that the
  fixed text is accepted by the same mode.
*/
module Fixing {
  import opened Wrappers
  import opened Text
  import opened Lists
  import opened Modes
  import opened Rule

  /** The gap after `(` once its report, if any, is fixed. */
  function RepairOpen(g: string, needs: bool): string {
    if HasBreak(g) && !needs && !HoldsComment(g) then ""
    else if !HasBreak(g) && needs then "\n" + g
    else g
  }

  /** The gap before `)` once its report, if any, is fixed. */
  function RepairClose(g: string, needs: bool): string {
    if HasBreak(g) && !needs && !HoldsComment(g) then ""
    else if !HasBreak(g) && needs then g + "\n"
    else g
  }

  /**
    The one gap of an empty list once both its reports are fixed. Both edits
    land in that gap; an insertion at `(` and one at `)` coincide when the gap
    is empty, and two removals of the gap always do, so one pass applies one.
  */
  function RepairEmpty(g: string, needs: bool): string {
    if HasBreak(g) && !needs && !HoldsComment(g) then ""
    else if !HasBreak(g) && needs then (if g == "" then "\n" else "\n" + g + "\n")
    else g
  }

  /** Every separator with a line break appended where it had none, right before the next item. */
  function BreakSeps(rest: seq<Pair>): seq<Pair> {
    if rest == [] then []
    else
      [Pair(if HasBreak(rest[0].sep) then rest[0].sep else rest[0].sep + "\n", rest[0].item)]
      + BreakSeps(rest[1..])
  }

  /**
    The list one fixing pass produces. Only gaps and separators change: the
    items, their number and their text, stay as they were.
  */
  function Repaired(mode: Mode, l: ParenList): (r: ParenList)
    ensures Count(r) == Count(l) && r.Items? == l.Items?
    ensures l.Items? ==> r.first == l.first && forall i :: 0 <= i < |l.rest| ==> r.rest[i].item == l.rest[i].item
    ensures WellFormed(l) ==> WellFormed(r)
  {
    var needs := NeedsBreaks(mode, Classify(l));
    match l
    case NoItems(g) => NoItems(RepairEmpty(g, needs))
    case Items(lg, first, rest, rg) =>
      BreakSepsSplitsAll(rest);
      Items(RepairOpen(lg, needs), first,
            if mode.MultilineArguments? && needs then BreakSeps(rest) else rest,
            RepairClose(rg, needs))
  }

  /** Each offered edit comes from one of the reports. */
  lemma {:induction false} FixesFromReports(ds: seq<Diagnostic>)
    ensures forall e :: e in Fixes(ds) ==> exists d :: d in ds && d.fix == Some(e)
  {
    if ds != [] {
      FixesFromReports(ds[1..]);
      forall e | e in Fixes(ds) ensures exists d :: d in ds && d.fix == Some(e) {
        if e in Fixes(ds[1..]) {
          var d :| d in ds[1..] && d.fix == Some(e);
          assert d in ds;
        } else {
          assert ds[0].fix == Some(e);
        }
      }
    }
  }

  /**
    A report carries no edit exactly when the edit would remove a gap that
    holds a comment; insertions are always offered, and each boundary's edit
    depends on its own gap only.
  */
  lemma FixWithheldOnlyForComment(mode: Mode, l: ParenList)
    ensures forall d :: d in Diagnose(mode, l) ==>
      (d.fix.None? <==>
        || (d.id == UnexpectedAfter && HoldsComment(OpenGap(l)))
        || (d.id == UnexpectedBefore && HoldsComment(CloseGap(l))))
  {
    var needs := NeedsBreaks(mode, Classify(l));
    var o := OpenDiagnostics(OpenGap(l), needs);
    var b := BetweenPart(mode, l, needs);
    var c := CloseDiagnostics(CloseGap(l), RightGapStart(l), needs);
    if l.Items? && mode.MultilineArguments? && needs {
      BetweenAllFixed(1 + |l.leftGap|, l.first, l.rest);
    }
    assert forall d :: d in b ==> d.id == ExpectedBetween && d.fix.Some?;
    assert Diagnose(mode, l) == o + b + c;
  }

  /** Every `expectedBetween` offers its insertion. */
  lemma {:induction false} BetweenAllFixed(at: nat, item: string, rest: seq<Pair>)
    ensures forall d :: d in BetweenDiagnostics(at, item, rest) ==> d.id == ExpectedBetween && d.fix.Some?
    ensures Unfixed(BetweenDiagnostics(at, item, rest)) == []
    decreases |rest|
  {
    if rest != [] {
      var next := at + |item| + |rest[0].sep|;
      var head: seq<Diagnostic> := if HasBreak(rest[0].sep) then [] else [Diagnostic(ExpectedBetween, at, Some(Edit(next, next, "\n")))];
      BetweenAllFixed(next, rest[0].item, rest[1..]);
      FixesAppend(head, BetweenDiagnostics(next, rest[0].item, rest[1..]));
    }
  }

  /**
    Where an offered edit goes in the list's text: a line break right after
    `(`, a line break right before `)`, a line break between items; or the
    removal of exactly the gap between a parenthesis and its neighbouring
    token, a gap that then holds a line break and no comment.
  */
  predicate WellPlaced(d: Diagnostic, l: ParenList)
    requires d.fix.Some?
  {
    var e, t := d.fix.value, Render(l);
    && e.start <= e.end < |t|
    && match d.id
       case ExpectedAfter => e == Edit(1, 1, "\n") && t[0] == '('
       case ExpectedBefore => e == Edit(CloseAt(l), CloseAt(l), "\n") && t[CloseAt(l)] == ')'
       case UnexpectedAfter =>
         e.start == 1 && e.text == "" && t[e.start..e.end] == OpenGap(l)
         && HasBreak(t[e.start..e.end]) && !HoldsComment(t[e.start..e.end])
       case UnexpectedBefore =>
         e.end == CloseAt(l) && e.text == "" && t[e.start..e.end] == CloseGap(l)
         && HasBreak(t[e.start..e.end]) && !HoldsComment(t[e.start..e.end])
       case ExpectedBetween => l.Items? && exists j :: 0 <= j < |l.rest| && BetweenPlaced(d, l, j)
  }

  /**
    Where a report about the pair of items `j` and `j + 1` goes: it is
    reported at the start of item `j`, the separator after that item holds no
    line break, and the edit inserts `\n` right where item `j + 1` starts,
    after the whole separator, comma and spaces included.
  */
  predicate BetweenPlaced(d: Diagnostic, l: ParenList, j: nat)
    requires d.fix.Some? && l.Items? && j < |l.rest|
  {
    var e, t, s, p := d.fix.value, Render(l), ItemStart(l, j + 1), l.rest[j];
    && d.at == ItemStart(l, j)
    && e == Edit(s, s, "\n")
    && !HasBreak(p.sep)
    && d.at + |ItemText(l, j)| + |p.sep| == s
    && s + |p.item| <= |t|
    && t[d.at..d.at + |ItemText(l, j)|] == ItemText(l, j)
    && t[d.at + |ItemText(l, j)|..s] == p.sep
    && t[s..s + |p.item|] == p.item
  }

  /** Every offered edit is well placed. */
  lemma FixShape(mode: Mode, l: ParenList)
    ensures forall d :: d in Diagnose(mode, l) && d.fix.Some? ==> WellPlaced(d, l)
  {
    var needs := NeedsBreaks(mode, Classify(l));
    var o := OpenDiagnostics(OpenGap(l), needs);
    var b := BetweenPart(mode, l, needs);
    var c := CloseDiagnostics(CloseGap(l), RightGapStart(l), needs);
    assert Diagnose(mode, l) == o + b + c;
    OpenShape(l, needs);
    CloseShape(l, needs);
    BetweenShape(mode, l, needs);
  }

  lemma BetweenShape(mode: Mode, l: ParenList, needs: bool)
    ensures forall d :: d in BetweenPart(mode, l, needs) && d.fix.Some? ==> WellPlaced(d, l)
  {
    if l.Items? && mode.MultilineArguments? && needs {
      var b := BetweenPart(mode, l, needs);
      BetweenAtPairs(1 + |l.leftGap|, l.first, l.rest);
      forall d | d in b && d.fix.Some? ensures WellPlaced(d, l) {
        var j :| 0 <= j < |l.rest| && !HasBreak(l.rest[j].sep) && d == PairReport(1 + |l.leftGap|, l.first, l.rest, j);
        PairPlaced(l, j);
      }
    }
  }

  /** The pair report of pair `j` is placed as `BetweenPlaced` says. */
  lemma PairPlaced(l: ParenList, j: nat)
    requires l.Items? && j < |l.rest| && !HasBreak(l.rest[j].sep)
    ensures var d := PairReport(1 + |l.leftGap|, l.first, l.rest, j);
      d.fix.Some? && BetweenPlaced(d, l, j) && d.fix.value.end < |Render(l)|
  {
    var d := PairReport(1 + |l.leftGap|, l.first, l.rest, j);
    var t, s, p := Render(l), ItemStart(l, j + 1), l.rest[j];
    assert d.at == ItemStart(l, j);
    OffsetStep(l.first, l.rest, j);
    ItemsInText(l, j);
    ItemsInText(l, j + 1);
    RenderShape(l);
  }

  /** Item `j + 1` starts past item `j` and the separator after it. */
  lemma {:induction false} OffsetStep(first: string, rest: seq<Pair>, j: nat)
    requires j < |rest|
    ensures ItemOffset(first, rest, j + 1)
         == ItemOffset(first, rest, j) + |if j == 0 then first else rest[j - 1].item| + |rest[j].sep|
    decreases j
  {
    if j > 0 {
      OffsetStep(rest[0].item, rest[1..], j - 1);
      assert rest[1..][j - 1] == rest[j];
    }
  }

  /**
    Each `expectedBetween` is placed at its pair as `BetweenPlaced` says, and
    every pair of items on one line, when the mode reports pairs, has such a
    report.
  */
  lemma BetweenReportsPlaced(mode: Mode, l: ParenList)
    ensures forall d :: d in Diagnose(mode, l) && d.id == ExpectedBetween ==>
      d.fix.Some? && l.Items? && exists j :: 0 <= j < |l.rest| && BetweenPlaced(d, l, j)
    ensures l.Items? && mode.MultilineArguments? && NeedsBreaks(mode, Classify(l)) ==>
      forall j :: 0 <= j < |l.rest| && !HasBreak(l.rest[j].sep) ==>
        exists d :: d in Diagnose(mode, l) && d.fix.Some? && BetweenPlaced(d, l, j)
  {
    var needs := NeedsBreaks(mode, Classify(l));
    var o := OpenDiagnostics(OpenGap(l), needs);
    var b := BetweenPart(mode, l, needs);
    var c := CloseDiagnostics(CloseGap(l), RightGapStart(l), needs);
    BetweenRunPlaced(mode, l, needs, b);
    MiddleRunHoldsBetween(o, b, c, Diagnose(mode, l));
    if l.Items? && mode.MultilineArguments? && needs {
      PairsReported(l, b);
    }
  }

  /** Every report of the between-items run is fixed and placed at its pair. */
  lemma BetweenRunPlaced(mode: Mode, l: ParenList, needs: bool, b: seq<Diagnostic>)
    requires b == BetweenPart(mode, l, needs)
    ensures forall d :: d in b ==> d.id == ExpectedBetween && d.fix.Some? && l.Items? && exists j :: 0 <= j < |l.rest| && BetweenPlaced(d, l, j)
  {
    if l.Items? && mode.MultilineArguments? && needs {
      BetweenAllFixed(1 + |l.leftGap|, l.first, l.rest);
      BetweenShape(mode, l, needs);
    }
  }

  /** In a run of reports made of a boundary run, the between-items run and a boundary run, `expectedBetween` comes from the middle. */
  lemma MiddleRunHoldsBetween(o: seq<Diagnostic>, b: seq<Diagnostic>, c: seq<Diagnostic>, all: seq<Diagnostic>)
    requires forall d :: d in o + c ==> d.id != ExpectedBetween
    requires all == o + b + c
    ensures forall d :: d in all && d.id == ExpectedBetween ==> d in b
  {
  }

  /** Each pair of items on one line has its report in the between-items run. */
  lemma PairsReported(l: ParenList, b: seq<Diagnostic>)
    requires l.Items? && b == BetweenDiagnostics(1 + |l.leftGap|, l.first, l.rest)
    ensures forall j :: 0 <= j < |l.rest| && !HasBreak(l.rest[j].sep) ==>
      exists d :: d in b && d.fix.Some? && BetweenPlaced(d, l, j)
  {
    BetweenAtPairs(1 + |l.leftGap|, l.first, l.rest);
    forall j | 0 <= j < |l.rest| && !HasBreak(l.rest[j].sep)
      ensures exists d :: d in b && d.fix.Some? && BetweenPlaced(d, l, j)
    {
      PairPlaced(l, j);
      var d := PairReport(1 + |l.leftGap|, l.first, l.rest, j);
      assert d in b;
    }
  }

  /** Outside `MultilineArguments` no edit touches the items or the separators between them. */
  lemma FixesSpareItems(mode: Mode, l: ParenList)
    requires !mode.MultilineArguments?
    ensures forall e :: e in Fixes(Diagnose(mode, l)) ==> e.end <= 1 + |OpenGap(l)| || RightGapStart(l) <= e.start
  {
    var needs := NeedsBreaks(mode, Classify(l));
    var o := OpenDiagnostics(OpenGap(l), needs);
    var c := CloseDiagnostics(CloseGap(l), RightGapStart(l), needs);
    assert Diagnose(mode, l) == o + [] + c;
    OpenShape(l, needs);
    CloseShape(l, needs);
    FixesFromReports(Diagnose(mode, l));
  }

  lemma OpenShape(l: ParenList, needs: bool)
    ensures forall d :: d in OpenDiagnostics(OpenGap(l), needs) && d.fix.Some? ==>
      WellPlaced(d, l) && d.fix.value.end <= 1 + |OpenGap(l)|
  {
    OpenGapInText(l);
  }

  /** The gap after `(` sits right after the opening `(`, before the closing `)`. */
  lemma OpenGapInText(l: ParenList)
    ensures Render(l)[0] == '(' && 1 + |OpenGap(l)| <= CloseAt(l) < |Render(l)|
    ensures Render(l)[1..1 + |OpenGap(l)|] == OpenGap(l)
  {
    RenderShape(l);
    if l.NoItems? {
      assert Render(l)[1..1 + |l.gap|] == l.gap;
    }
  }

  lemma CloseShape(l: ParenList, needs: bool)
    ensures forall d :: d in CloseDiagnostics(CloseGap(l), RightGapStart(l), needs) && d.fix.Some? ==>
      WellPlaced(d, l) && RightGapStart(l) <= d.fix.value.start
  {
    CloseGapInText(l);
  }

  /** The gap before `)` sits right before the closing `)`, the last character of the list's text. */
  lemma CloseGapInText(l: ParenList)
    ensures |Render(l)| == CloseAt(l) + 1 && Render(l)[CloseAt(l)] == ')'
    ensures RightGapStart(l) <= CloseAt(l) && Render(l)[RightGapStart(l)..CloseAt(l)] == CloseGap(l)
  {
    RenderShape(l);
  }

  /** Breaking the separators keeps the items and leaves every adjacent pair split. */
  lemma {:induction false} BreakSepsSplitsAll(rest: seq<Pair>)
    ensures |BreakSeps(rest)| == |rest|
    ensures forall i :: 0 <= i < |rest| ==>
      BreakSeps(rest)[i].item == rest[i].item && HasBreak(BreakSeps(rest)[i].sep)
      && |BreakSeps(rest)[i].sep| >= |rest[i].sep|
    ensures (true in Splits(BreakSeps(rest))) <==> rest != []
  {
    if rest != [] {
      BreakSepsSplitsAll(rest[1..]);
      NewlineBreaks(rest[0].sep, "");
      assert rest[0].sep + "\n" + "" == rest[0].sep + "\n";
      assert Splits(BreakSeps(rest))[0];
    }
  }

  /** Once every separator holds a line break no pair is reported. */
  lemma {:induction false} BrokenSepsDrawNothing(at: nat, item: string, rest: seq<Pair>)
    requires forall i :: 0 <= i < |rest| ==> HasBreak(rest[i].sep)
    ensures BetweenDiagnostics(at, item, rest) == []
    decreases |rest|
  {
    if rest != [] {
      BrokenSepsDrawNothing(at + |item| + |rest[0].sep|, rest[0].item, rest[1..]);
    }
  }

  /** A fix never changes whether the mode requires breaks. */
  lemma RepairKeepsRequirement(mode: Mode, l: ParenList)
    ensures NeedsBreaks(mode, Classify(Repaired(mode, l))) == NeedsBreaks(mode, Classify(l))
  {
    var needs := NeedsBreaks(mode, Classify(l));
    if l.Items? && mode.MultilineArguments? && needs && |l.rest| > 0 {
      BreakSepsSplitsAll(l.rest);
    }
    if l.Items? && mode.Multiline? {
      assert Repaired(mode, l).rest == l.rest;
    }
  }

  /** The `(` side after its fix: only a report that had no edit is still there. */
  lemma OpenAfterRepair(g: string, needs: bool)
    ensures Ids(OpenDiagnostics(RepairOpen(g, needs), needs)) == Unfixed(OpenDiagnostics(g, needs))
  {
    NewlineBreaks("", g);
    assert "" + "\n" + g == "\n" + g;
  }

  /** The `)` side after its fix. */
  lemma CloseAfterRepair(g: string, start: nat, start': nat, needs: bool)
    ensures Ids(CloseDiagnostics(RepairClose(g, needs), start', needs)) == Unfixed(CloseDiagnostics(g, start, needs))
  {
    NewlineBreaks(g, "");
    assert g + "\n" + "" == g + "\n";
  }

  /** The one gap of an empty list after its fixes. */
  lemma EmptyAfterRepair(g: string, needs: bool)
    ensures Ids(OpenDiagnostics(RepairEmpty(g, needs), needs) + CloseDiagnostics(RepairEmpty(g, needs), 1, needs))
         == Unfixed(OpenDiagnostics(g, needs) + CloseDiagnostics(g, 1, needs))
  {
    NewlineBreaks("", g + "\n");
    assert "" + "\n" + (g + "\n") == "\n" + g + "\n";
    assert HasBreak("\n");
    var g' := RepairEmpty(g, needs);
    IdsAppend(OpenDiagnostics(g', needs), CloseDiagnostics(g', 1, needs));
    FixesAppend(OpenDiagnostics(g, needs), CloseDiagnostics(g, 1, needs));
  }

  /**
    Re-running the rule on the fixed list reports exactly the reports that
    offered no edit: every boundary that was fixed is now accepted by the same
    mode, and nothing new appears.
  */
  lemma RepairLeavesOnlyUnfixed(mode: Mode, l: ParenList)
    ensures Ids(Diagnose(mode, Repaired(mode, l))) == Unfixed(Diagnose(mode, l))
  {
    RepairKeepsRequirement(mode, l);
    var needs := NeedsBreaks(mode, Classify(l));
    if l.NoItems? {
      EmptyRepairLeaves(mode, l, needs);
    } else {
      ItemsRepairLeaves(mode, l, needs);
    }
  }

  /** `RepairLeavesOnlyUnfixed` for an empty list. */
  lemma EmptyRepairLeaves(mode: Mode, l: ParenList, needs: bool)
    requires l.NoItems? && needs == NeedsBreaks(mode, Classify(l)) == NeedsBreaks(mode, Classify(Repaired(mode, l)))
    ensures Ids(Diagnose(mode, Repaired(mode, l))) == Unfixed(Diagnose(mode, l))
  {
    var g' := RepairEmpty(l.gap, needs);
    var o, c := OpenDiagnostics(l.gap, needs), CloseDiagnostics(l.gap, 1, needs);
    var o', c' := OpenDiagnostics(g', needs), CloseDiagnostics(g', 1, needs);
    assert Diagnose(mode, l) == o + c by { assert o + [] == o; }
    assert Diagnose(mode, Repaired(mode, l)) == o' + c' by { assert o' + [] == o'; }
    EmptyAfterRepair(l.gap, needs);
  }

  /** `RepairLeavesOnlyUnfixed` for a list with items, side by side. */
  lemma ItemsRepairLeaves(mode: Mode, l: ParenList, needs: bool)
    requires l.Items? && needs == NeedsBreaks(mode, Classify(l)) == NeedsBreaks(mode, Classify(Repaired(mode, l)))
    ensures Ids(Diagnose(mode, Repaired(mode, l))) == Unfixed(Diagnose(mode, l))
  {
    var l' := Repaired(mode, l);
    var o := OpenDiagnostics(l.leftGap, needs);
    var b := BetweenPart(mode, l, needs);
    var c := CloseDiagnostics(l.rightGap, RightGapStart(l), needs);
    var o' := OpenDiagnostics(l'.leftGap, needs);
    var b' := BetweenPart(mode, l', needs);
    var c' := CloseDiagnostics(l'.rightGap, RightGapStart(l'), needs);
    OpenAfterRepair(l.leftGap, needs);
    CloseAfterRepair(l.rightGap, RightGapStart(l), RightGapStart(l'), needs);
    RepairedItems(mode, l, needs);
    BetweenAfterRepair(mode, l, l', needs);
    ThreeParts(o, b, c, o', b', c');
  }

  /** The between-items reports after the fix: none, since every one of them offered an edit. */
  lemma BetweenAfterRepair(mode: Mode, l: ParenList, l': ParenList, needs: bool)
    requires l.Items?
    requires l' == Items(RepairOpen(l.leftGap, needs), l.first,
                         if mode.MultilineArguments? && needs then BreakSeps(l.rest) else l.rest,
                         RepairClose(l.rightGap, needs))
    ensures Ids(BetweenPart(mode, l', needs)) == Unfixed(BetweenPart(mode, l, needs))
  {
    if mode.MultilineArguments? && needs {
      BrokenRunAfterRepair(1 + |l.leftGap|, 1 + |l'.leftGap|, l.first, l.rest);
    }
  }

  /** The repaired form of a list with items, part by part. */
  lemma RepairedItems(mode: Mode, l: ParenList, needs: bool)
    requires l.Items? && needs == NeedsBreaks(mode, Classify(l))
    ensures Repaired(mode, l)
         == Items(RepairOpen(l.leftGap, needs), l.first,
                  if mode.MultilineArguments? && needs then BreakSeps(l.rest) else l.rest,
                  RepairClose(l.rightGap, needs))
  {
  }

  /** Once the separators are broken the between-items run is empty, and no report of the old run lacked an edit. */
  lemma BrokenRunAfterRepair(at: nat, at': nat, first: string, rest: seq<Pair>)
    ensures Ids(BetweenDiagnostics(at', first, BreakSeps(rest))) == Unfixed(BetweenDiagnostics(at, first, rest)) == []
  {
    BetweenAllFixed(at, first, rest);
    BreakSepsSplitsAll(rest);
    BrokenSepsDrawNothing(at', first, BreakSeps(rest));
  }

  /** Ids and unfixed messages of three runs of reports, run by run. */
  lemma ThreeParts(o: seq<Diagnostic>, b: seq<Diagnostic>, c: seq<Diagnostic>,
                   o': seq<Diagnostic>, b': seq<Diagnostic>, c': seq<Diagnostic>)
    requires Ids(o') == Unfixed(o) && Ids(b') == Unfixed(b) && Ids(c') == Unfixed(c)
    ensures Ids(o' + b' + c') == Unfixed(o + b + c)
  {
    FixesAppend(o + b, c);
    FixesAppend(o, b);
    IdsAppend(o' + b', c');
    IdsAppend(o', b');
  }

  /** When every report offers an edit, the fixed list is accepted by the same mode. */
  lemma RepairIsAccepted(mode: Mode, l: ParenList)
    requires Unfixed(Diagnose(mode, l)) == []
    ensures Accepted(mode, Repaired(mode, l))
  {
    RepairLeavesOnlyUnfixed(mode, l);
  }

  /** A single report offering an edit offers just that edit. */
  lemma FixesOfOne(d: Diagnostic)
    requires d.fix.Some?
    ensures Fixes([d]) == [d.fix.value]
  {
    assert [d][1..] == [];
  }

  /** The `(` side's edits rewrite `(` and the gap after it into `(` and the repaired gap. */
  lemma OpenRewrite(l: ParenList, needs: bool, e: seq<Edit>)
    requires l.Items? && e == Fixes(OpenDiagnostics(l.leftGap, needs))
    ensures Separated(e, -1) && LastEnd(e, -1) <= 1 + |l.leftGap|
    ensures RewritesTo(Render(l), e, 0, 1 + |l.leftGap|, "(" + RepairOpen(l.leftGap, needs))
  {
    var t, g := Render(l), l.leftGap;
    RenderShape(l);
    assert t[0..1] == "(" && t[1..1 + |g|] == g;
    if HasBreak(g) && !needs && !HoldsComment(g) {
      FixesOfOne(Diagnostic(UnexpectedAfter, 0, Some(Edit(1, 1 + |g|, ""))));
      RewritesOne(t, 0, Edit(1, 1 + |g|, ""), 1 + |g|);
      assert t[0..1] + "" + t[1 + |g|..1 + |g|] == "(" + RepairOpen(g, needs);
    } else if !HasBreak(g) && needs {
      FixesOfOne(Diagnostic(ExpectedAfter, 0, Some(Edit(1, 1, "\n"))));
      RewritesOne(t, 0, Edit(1, 1, "\n"), 1 + |g|);
      assert t[0..1] + "\n" + t[1..1 + |g|] == "(" + RepairOpen(g, needs);
    } else {
      RewritesNothing(t, 0, 1 + |g|);
      assert t[0..1 + |g|] == "(" + RepairOpen(g, needs);
    }
  }

  /**
    The `)` side's edits rewrite the gap before `)` and `)` into the repaired
    gap and `)`; they all come after any edit that ends at `y`.
  */
  lemma CloseRewrite(l: ParenList, y: int, needs: bool, e: seq<Edit>)
    requires l.Items? && y < RightGapStart(l) && e == Fixes(CloseDiagnostics(l.rightGap, RightGapStart(l), needs))
    ensures Separated(e, y)
    ensures RewritesTo(Render(l), e, RightGapStart(l), |Render(l)|, RepairClose(l.rightGap, needs) + ")")
  {
    var t, g, start := Render(l), l.rightGap, RightGapStart(l);
    RenderShape(l);
    assert t[start..start + |g|] == g && t[start + |g|..|t|] == ")";
    CloseGapRewrite(t, g, start, y, needs, e);
  }

  /** `CloseRewrite` on any text holding the gap `g` at `start`, followed by `)` and nothing else. */
  lemma CloseGapRewrite(t: string, g: string, start: nat, y: int, needs: bool, e: seq<Edit>)
    requires start + |g| + 1 == |t| && t[start..start + |g|] == g && t[start + |g|..|t|] == ")"
    requires y < start && e == Fixes(CloseDiagnostics(g, start, needs))
    ensures Separated(e, y)
    ensures RewritesTo(t, e, start, |t|, RepairClose(g, needs) + ")")
  {
    if HasBreak(g) && !needs && !HoldsComment(g) {
      FixesOfOne(Diagnostic(UnexpectedBefore, start + |g|, Some(Edit(start, start + |g|, ""))));
      RewritesOne(t, start, Edit(start, start + |g|, ""), |t|);
      assert t[start..start] + "" + t[start + |g|..|t|] == RepairClose(g, needs) + ")";
    } else if !HasBreak(g) && needs {
      FixesOfOne(Diagnostic(ExpectedBefore, start + |g|, Some(Edit(start + |g|, start + |g|, "\n"))));
      RewritesOne(t, start, Edit(start + |g|, start + |g|, "\n"), |t|);
      assert t[start..start + |g|] + "\n" + t[start + |g|..|t|] == RepairClose(g, needs) + ")";
    } else {
      RewritesNothing(t, start, |t|);
      assert t[start..|t|] == RepairClose(g, needs) + ")";
    }
  }

  /** The edits for the first pair, then those for the pairs after it. */
  lemma BetweenFixesUnfold(at: nat, item: string, rest: seq<Pair>)
    requires rest != []
    ensures var next := at + |item| + |rest[0].sep|;
      Fixes(BetweenDiagnostics(at, item, rest))
      == (if HasBreak(rest[0].sep) then [] else [Edit(next, next, "\n")])
       + Fixes(BetweenDiagnostics(next, rest[0].item, rest[1..]))
  {
    var next := at + |item| + |rest[0].sep|;
    var head: seq<Diagnostic> := if HasBreak(rest[0].sep) then [] else [Diagnostic(ExpectedBetween, at, Some(Edit(next, next, "\n")))];
    FixesAppend(head, BetweenDiagnostics(next, rest[0].item, rest[1..]));
  }

  /** The repaired tail: the first separator, broken if it was not, the first item, then the rest repaired. */
  lemma BrokenTailUnfold(rest: seq<Pair>)
    requires rest != []
    ensures Tail(BreakSeps(rest))
         == (if HasBreak(rest[0].sep) then rest[0].sep else rest[0].sep + "\n") + (rest[0].item + Tail(BreakSeps(rest[1..])))
  {
    var sep := if HasBreak(rest[0].sep) then rest[0].sep else rest[0].sep + "\n";
    var b, later := BreakSeps(rest), BreakSeps(rest[1..]);
    assert b == [Pair(sep, rest[0].item)] + later;
    assert b[0] == Pair(sep, rest[0].item) && b[1..] == later;
    assert Tail(b) == sep + rest[0].item + Tail(later);
    ConcatAssoc(sep, rest[0].item, Tail(later));
  }

  /**
    Proof-only helper: the edits the between-items reports after `item` (which
    starts at `at`) offer, in order, without the reports around them.
    `BetweenEditsAreFixes` shows it is `Fixes(BetweenDiagnostics(at, item, rest))`;
    the one-pass proofs below work on it to keep each step small.
  */
  function BetweenEdits(at: nat, item: string, rest: seq<Pair>): seq<Edit>
    decreases |rest|
  {
    if rest == [] then []
    else if HasBreak(rest[0].sep) then BetweenEdits(at + |item| + |rest[0].sep|, rest[0].item, rest[1..])
    else [Edit(at + |item| + |rest[0].sep|, at + |item| + |rest[0].sep|, "\n")]
         + BetweenEdits(at + |item| + |rest[0].sep|, rest[0].item, rest[1..])
  }

  lemma {:induction false} BetweenEditsAreFixes(at: nat, item: string, rest: seq<Pair>)
    ensures Fixes(BetweenDiagnostics(at, item, rest)) == BetweenEdits(at, item, rest)
    decreases |rest|
  {
    if rest != [] {
      BetweenFixesUnfold(at, item, rest);
      BetweenEditsAreFixes(at + |item| + |rest[0].sep|, rest[0].item, rest[1..]);
    }
  }

  /** The edits for the first pair, if any, then those for the pairs after it; `m` is where its item starts. */
  lemma BetweenEditsStep(at: nat, item: string, rest: seq<Pair>, m: nat)
    requires rest != [] && m == at + |item| + |rest[0].sep|
    ensures BetweenEdits(at, item, rest)
         == (if HasBreak(rest[0].sep) then [] else [Edit(m, m, "\n")]) + BetweenEdits(m, rest[0].item, rest[1..])
  {
    if HasBreak(rest[0].sep) {
      assert [] + BetweenEdits(m, rest[0].item, rest[1..]) == BetweenEdits(m, rest[0].item, rest[1..]);
    }
  }

  /**
    Proof-only helper: every item of `rest` has some text. It is the item
    clause of `WellFormed` put recursively, so that the induction over the
    tail can carry it (`WellFormedItems`).
  */
  predicate ItemsNonEmpty(rest: seq<Pair>)
    decreases |rest|
  {
    rest == [] || (|rest[0].item| > 0 && ItemsNonEmpty(rest[1..]))
  }

  lemma {:induction false} WellFormedItems(l: ParenList, k: nat)
    requires WellFormed(l) && l.Items? && k <= |l.rest|
    ensures ItemsNonEmpty(l.rest[k..])
    decreases |l.rest| - k
  {
    if k < |l.rest| {
      WellFormedItems(l, k + 1);
      assert l.rest[k..][1..] == l.rest[k + 1..];
    }
  }

  /**
    The between-items edits are separated, the first from an edit ending at
    `x` before the tail; the last ends inside the tail.
  */
  lemma {:induction false} BetweenEditsSeparated(at: nat, item: string, rest: seq<Pair>, x: int)
    requires ItemsNonEmpty(rest) && x < at + |item|
    ensures Separated(BetweenEdits(at, item, rest), x)
    ensures LastEnd(BetweenEdits(at, item, rest), x) < at + |item| + |Tail(rest)|
    decreases |rest|
  {
    if rest != [] {
      var next := at + |item| + |rest[0].sep|;
      var later := BetweenEdits(next, rest[0].item, rest[1..]);
      assert |Tail(rest)| == |rest[0].sep| + |rest[0].item| + |Tail(rest[1..])|;
      BetweenEditsStep(at, item, rest, next);
      if HasBreak(rest[0].sep) {
        BetweenEditsSeparated(next, rest[0].item, rest[1..], x);
      } else {
        BetweenEditsSeparated(next, rest[0].item, rest[1..], next);
        assert ([Edit(next, next, "\n")] + later)[1..] == later;
      }
    }
  }

  /**
    The between-items edits after `item` (which starts at `at` and ends at
    `q`) rewrite the tail that follows it, found in `t` from `q` to `r`, into
    the tail with every separator broken.
  */
  lemma {:induction false} BetweenEditsRewrite(t: string, at: nat, item: string, rest: seq<Pair>, q: nat, r: nat)
    requires q == at + |item| && q <= r <= |t| && t[q..r] == Tail(rest)
    ensures RewritesTo(t, BetweenEdits(at, item, rest), q, r, Tail(BreakSeps(rest)))
    decreases |rest|
  {
    if rest == [] {
      assert Rewrite(t, [], q, r) == "";
    } else {
      var m := q + |rest[0].sep|;
      var n := m + |rest[0].item|;
      assert t[q..r] == (rest[0].sep + rest[0].item) + Tail(rest[1..]);
      SliceSplit(t, q, n, r, rest[0].sep + rest[0].item, Tail(rest[1..]));
      SliceSplit(t, q, m, n, rest[0].sep, rest[0].item);
      BetweenEditsRewrite(t, m, rest[0].item, rest[1..], n, r);
      PairStep(t, at, item, rest, q, m, n, r);
    }
  }

  /**
    The step of `BetweenEditsRewrite` for the first pair, whose separator lies
    from `q` to `m` and whose item from `m` to `n`: once the edits after it
    rewrite the rest of the tail, the edits from it on rewrite the whole tail.
  */
  lemma PairStep(t: string, at: nat, item: string, rest: seq<Pair>, q: nat, m: nat, n: nat, r: nat)
    requires rest != [] && q == at + |item| && m == q + |rest[0].sep| && n == m + |rest[0].item| && n <= r <= |t|
    requires t[q..m] == rest[0].sep && t[m..n] == rest[0].item
    requires RewritesTo(t, BetweenEdits(m, rest[0].item, rest[1..]), n, r, Tail(BreakSeps(rest[1..])))
    ensures RewritesTo(t, BetweenEdits(at, item, rest), q, r, Tail(BreakSeps(rest)))
  {
    var later, out := BetweenEdits(m, rest[0].item, rest[1..]), Tail(BreakSeps(rest[1..]));
    BetweenEditsStep(at, item, rest, m);
    BrokenTailUnfold(rest);
    KeptPrefix(t, later, m, n, r, r, rest[0].item, out);
    if HasBreak(rest[0].sep) {
      assert [] + later == later;
      KeptPrefix(t, later, q, m, r, r, rest[0].sep, rest[0].item + out);
    } else {
      InsertAt(t, later, q, m, r, "\n", rest[0].sep, rest[0].item + out);
    }
  }

  /**
    One fixing pass over the list's text, applying every offered edit as the
    host does, produces exactly the text of the repaired list.
  */
  lemma OnePassRepairs(mode: Mode, l: ParenList)
    requires WellFormed(l)
    ensures ApplyFixes(Render(l), Fixes(Diagnose(mode, l))) == Render(Repaired(mode, l))
  {
    var needs := NeedsBreaks(mode, Classify(l));
    if l.NoItems? {
      EmptyListOnePass(mode, l, needs);
    } else {
      ItemsListOnePass(mode, l, needs);
    }
  }

  /** `OnePassRepairs` for a list with items, its edits taken side by side. */
  lemma ItemsListOnePass(mode: Mode, l: ParenList, needs: bool)
    requires WellFormed(l) && l.Items? && needs == NeedsBreaks(mode, Classify(l))
    ensures ApplyFixes(Render(l), Fixes(Diagnose(mode, l))) == Render(Repaired(mode, l))
  {
    var o := OpenDiagnostics(l.leftGap, needs);
    var b := BetweenPart(mode, l, needs);
    var c := CloseDiagnostics(l.rightGap, RightGapStart(l), needs);
    assert Diagnose(mode, l) == o + (b + c);
    FixesAppend(o, b + c);
    FixesAppend(b, c);
    ItemsOnePass(mode, l, needs, Fixes(o), Fixes(b), Fixes(c));
  }

  /** `OnePassRepairs` for an empty list. */
  lemma EmptyListOnePass(mode: Mode, l: ParenList, needs: bool)
    requires l.NoItems? && needs == NeedsBreaks(mode, Classify(l))
    ensures ApplyFixes(Render(l), Fixes(Diagnose(mode, l))) == Render(Repaired(mode, l))
  {
    var o, c := OpenDiagnostics(l.gap, needs), CloseDiagnostics(l.gap, 1, needs);
    assert Diagnose(mode, l) == o + c by { assert o + [] == o; }
    EmptyOnePass(l.gap, needs);
  }

  /** `OnePassRepairs` for a list with items. */
  lemma ItemsOnePass(mode: Mode, l: ParenList, needs: bool, eo: seq<Edit>, eb: seq<Edit>, ec: seq<Edit>)
    requires WellFormed(l) && l.Items? && needs == NeedsBreaks(mode, Classify(l))
    requires eo == Fixes(OpenDiagnostics(l.leftGap, needs))
    requires eb == Fixes(BetweenPart(mode, l, needs))
    requires ec == Fixes(CloseDiagnostics(l.rightGap, RightGapStart(l), needs))
    ensures ApplyFixes(Render(l), eo + (eb + ec)) == Render(Repaired(mode, l))
  {
    assert eb == if mode.MultilineArguments? && needs then BetweenEdits(1 + |l.leftGap|, l.first, l.rest) else [] by {
      if mode.MultilineArguments? && needs { BetweenEditsAreFixes(1 + |l.leftGap|, l.first, l.rest); }
    }
    OpenRewrite(l, needs, eo);
    ItemsSpan(l);
    MiddleRewrite(Render(l), l, mode.MultilineArguments? && needs, LastEnd(eo, -1), eb);
    CloseRewrite(l, LastEnd(eb, LastEnd(eo, -1)), needs, ec);
    AssembleText(Render(l), eo, eb, ec, 1 + |l.leftGap|, RightGapStart(l),
                 "(" + RepairOpen(l.leftGap, needs),
                 l.first + Tail(if mode.MultilineArguments? && needs then BreakSeps(l.rest) else l.rest),
                 RepairClose(l.rightGap, needs) + ")");
    RepairedShape(mode, l, needs);
  }

  /** The text of a repaired list with items, piece by piece. */
  lemma RepairedShape(mode: Mode, l: ParenList, needs: bool)
    requires l.Items? && needs == NeedsBreaks(mode, Classify(l))
    ensures Render(Repaired(mode, l))
         == ("(" + RepairOpen(l.leftGap, needs))
          + (l.first + Tail(if mode.MultilineArguments? && needs then BreakSeps(l.rest) else l.rest))
          + (RepairClose(l.rightGap, needs) + ")")
  {
    var rest := if mode.MultilineArguments? && needs then BreakSeps(l.rest) else l.rest;
    var lg, rg := RepairOpen(l.leftGap, needs), RepairClose(l.rightGap, needs);
    assert Repaired(mode, l) == Items(lg, l.first, rest, rg);
    assert Render(Items(lg, l.first, rest, rg)) == "(" + lg + l.first + Tail(rest) + rg + ")";
    ConcatAssoc("(" + lg, l.first, Tail(rest));
    ConcatAssoc(("(" + lg) + (l.first + Tail(rest)), rg, ")");
  }

  /** The first item of `l` and the tail after it lie in `t` where they lie in `l`'s own text. */
  predicate ItemsIn(t: string, l: ParenList)
    requires l.Items?
  {
    RightGapStart(l) <= |t| && t[1 + |l.leftGap|..RightGapStart(l)] == l.first + Tail(l.rest)
  }

  /**
    The edits between the items of a list with items, if it draws any: they
    lie after the `(` side's edit and before the gap before `)`, and rewrite
    the first item and the tail into the first item and the repaired tail.
  */
  lemma MiddleRewrite(t: string, l: ParenList, broken: bool, x: int, e: seq<Edit>)
    requires WellFormed(l) && l.Items? && ItemsIn(t, l)
    requires -1 <= x <= 1 + |l.leftGap|
    requires e == if broken then BetweenEdits(1 + |l.leftGap|, l.first, l.rest) else []
    ensures Separated(e, x) && LastEnd(e, x) < RightGapStart(l)
    ensures RewritesTo(t, e, 1 + |l.leftGap|, RightGapStart(l), l.first + Tail(if broken then BreakSeps(l.rest) else l.rest))
  {
    if broken {
      BrokenMiddle(t, l, x);
    }
  }

  /** `MiddleRewrite` when the pairs on one line are broken. */
  lemma BrokenMiddle(t: string, l: ParenList, x: int)
    requires WellFormed(l) && l.Items? && ItemsIn(t, l)
    requires -1 <= x <= 1 + |l.leftGap|
    ensures Separated(BetweenEdits(1 + |l.leftGap|, l.first, l.rest), x)
    ensures LastEnd(BetweenEdits(1 + |l.leftGap|, l.first, l.rest), x) < RightGapStart(l)
    ensures RewritesTo(t, BetweenEdits(1 + |l.leftGap|, l.first, l.rest), 1 + |l.leftGap|, RightGapStart(l),
                       l.first + Tail(BreakSeps(l.rest)))
  {
    WellFormedItems(l, 0);
    assert l.rest[0..] == l.rest;
    BetweenEditsSeparated(1 + |l.leftGap|, l.first, l.rest, x);
    BrokenMiddleText(t, l);
  }

  /** The text part of `BrokenMiddle`. */
  lemma BrokenMiddleText(t: string, l: ParenList)
    requires l.Items? && ItemsIn(t, l)
    ensures RewritesTo(t, BetweenEdits(1 + |l.leftGap|, l.first, l.rest), 1 + |l.leftGap|, RightGapStart(l),
                       l.first + Tail(BreakSeps(l.rest)))
  {
    var a, r := 1 + |l.leftGap|, RightGapStart(l);
    var q := a + |l.first|;
    SliceSplit(t, a, q, r, l.first, Tail(l.rest));
    BetweenEditsRewrite(t, a, l.first, l.rest, q, r);
    KeptPrefix(t, BetweenEdits(a, l.first, l.rest), a, q, r, r, l.first, Tail(BreakSeps(l.rest)));
  }

  /** Where the first item and the tail lie in the text of a list with items. */
  lemma ItemsSpan(l: ParenList)
    requires l.Items?
    ensures |Render(l)| == RightGapStart(l) + |l.rightGap| + 1
    ensures ItemsIn(Render(l), l)
  {
    RenderShape(l);
  }

  /**
    The `(` side's edits, the between-items edits and the `)` side's edits,
    each rewriting its own region and each after the one before, make one
    pass rewrite the whole text region by region.
  */
  lemma AssembleText(t: string, eo: seq<Edit>, eb: seq<Edit>, ec: seq<Edit>, p: nat, r: nat,
                     a: string, b: string, c: string)
    requires Separated(eo, -1) && Separated(eb, LastEnd(eo, -1)) && Separated(ec, LastEnd(eb, LastEnd(eo, -1)))
    requires RewritesTo(t, eo, 0, p, a) && RewritesTo(t, eb, p, r, b) && RewritesTo(t, ec, r, |t|, c)
    ensures ApplyFixes(t, eo + (eb + ec)) == a + b + c
  {
    SeparatedAppend(eb, ec, LastEnd(eo, -1));
    SeparatedAppend(eo, eb + ec, -1);
    RewriteSplit(t, eb, ec, p, r, |t|);
    RewriteSplit(t, eo, eb + ec, 0, p, |t|);
    PassRewrites(t, eo + (eb + ec), -1);
    ConcatAssoc(a, b, c);
  }

  /** In an empty list the two boundary edits share one gap; one pass applies the first of equal edits. */
  lemma EmptyOnePass(g: string, needs: bool)
    ensures var t := "(" + g + ")";
      ApplyFixes(t, Fixes(OpenDiagnostics(g, needs) + CloseDiagnostics(g, 1, needs))) == "(" + RepairEmpty(g, needs) + ")"
  {
    var t := "(" + g + ")";
    var o, c := OpenDiagnostics(g, needs), CloseDiagnostics(g, 1, needs);
    FixesAppend(o, c);
    if HasBreak(g) && !needs && !HoldsComment(g) {
      var e := Edit(1, 1 + |g|, "");
      assert Fixes(o + c) == [e, e];
      EmptyRemovalPass(t, g, e);
    } else if !HasBreak(g) && needs {
      var e1, e2 := Edit(1, 1, "\n"), Edit(1 + |g|, 1 + |g|, "\n");
      assert Fixes(o + c) == [e1, e2];
      EmptyInsertionPass(t, g, e1, e2);
    } else {
      assert Fixes(o + c) == [];
      assert ApplyFixes(t, []) == t[0..];
    }
  }

  /** Two removals of the whole gap: the second overlaps the first and is skipped. */
  lemma EmptyRemovalPass(t: string, g: string, e: Edit)
    requires t == "(" + g + ")" && e == Edit(1, 1 + |g|, "")
    ensures ApplyFixes(t, [e, e]) == "()"
  {
    assert [e, e][1..] == [e] && [e][1..] == [];
    assert t[0..1] == "(" && t[1 + |g|..] == ")";
    assert Pass(t, [e], 1 + |g|) == Pass(t, [], 1 + |g|) == ")";
  }

  /** A break inserted after `(` and one before `)`: one break when the gap is empty, two otherwise. */
  lemma EmptyInsertionPass(t: string, g: string, e1: Edit, e2: Edit)
    requires t == "(" + g + ")" && e1 == Edit(1, 1, "\n") && e2 == Edit(1 + |g|, 1 + |g|, "\n")
    ensures ApplyFixes(t, [e1, e2]) == "(" + (if g == "" then "\n" else "\n" + g + "\n") + ")"
  {
    assert [e1, e2][1..] == [e2] && [e2][1..] == [];
    assert t[0..1] == "(" && t[1 + |g|..] == ")";
    var after := Pass(t, [e2], 1);
    assert ApplyFixes(t, [e1, e2]) == "(" + "\n" + after;
    if g == "" {
      assert after == Pass(t, [], 1) == ")";
    } else {
      assert t[1..1 + |g|] == g;
      assert after == g + "\n" + Pass(t, [], 1 + |g|);
    }
  }
}
