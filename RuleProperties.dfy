/**
  What each mode of `function-paren-newline` promises, proved about the
  decision the rule makes.
*/
module RuleProperties {
  import opened Text
  import opened Lists
  import opened Modes
  import opened Rule

  /** `MissingBetween` yields only `expectedBetween`, once per pair on one line. */
  lemma MissingBetweenCounts(splits: seq<bool>)
    ensures forall x :: x in MissingBetween(splits) ==> x == ExpectedBetween
    ensures |MissingBetween(splits)| == multiset(splits)[false]
    ensures MissingBetween(splits) == [] <==> forall i :: 0 <= i < |splits| ==> splits[i]
  {
    MissingOncePerJoin(splits);
    MissingNoneIffAllSplit(splits);
  }

  lemma {:induction false} MissingOncePerJoin(splits: seq<bool>)
    ensures |MissingBetween(splits)| == multiset(splits)[false]
  {
    if splits != [] {
      MissingOncePerJoin(splits[1..]);
      assert splits == [splits[0]] + splits[1..];
      assert multiset(splits) == multiset([splits[0]]) + multiset(splits[1..]);
    }
  }

  lemma {:induction false} MissingNoneIffAllSplit(splits: seq<bool>)
    ensures MissingBetween(splits) == [] <==> forall i :: 0 <= i < |splits| ==> splits[i]
  {
    if splits != [] {
      MissingNoneIffAllSplit(splits[1..]);
      if !splits[0] {
        assert MissingBetween(splits)[0] == ExpectedBetween;
      } else {
        forall i | 0 <= i < |splits| && forall j :: 0 <= j < |splits[1..]| ==> splits[1..][j]
          ensures splits[i]
        {
          if i > 0 { assert splits[i] == splits[1..][i - 1]; }
        }
      }
    }
  }

  /**
    Each boundary is judged on its own, and gets at most one message:
    `expected…` when a break is required and absent, `unexpected…` when one
    is present and not required, nothing when the two agree.
  */
  lemma BoundaryVerdicts(mode: Mode, lay: Layout)
    ensures var d, needs := Decide(mode, lay), NeedsBreaks(mode, lay);
      && (ExpectedAfter in d <==> needs && !lay.leftBreak)
      && (UnexpectedAfter in d <==> !needs && lay.leftBreak)
      && (ExpectedBefore in d <==> needs && !lay.rightBreak)
      && (UnexpectedBefore in d <==> !needs && lay.rightBreak)
      && multiset(d)[ExpectedAfter] + multiset(d)[UnexpectedAfter] <= 1
      && multiset(d)[ExpectedBefore] + multiset(d)[UnexpectedBefore] <= 1
  {
    var needs := NeedsBreaks(mode, lay);
    var b := if mode.MultilineArguments? && needs then MissingBetween(lay.splits) else [];
    VerdictCounts(lay.leftBreak, lay.rightBreak, needs, b, Decide(mode, lay));
  }

  /** The two boundary verdicts around any run of `expectedBetween` messages. */
  lemma VerdictCounts(left: bool, right: bool, needs: bool, b: seq<MessageId>, d: seq<MessageId>)
    requires forall x :: x in b ==> x == ExpectedBetween
    requires d == JudgeOpen(left, needs) + b + JudgeClose(right, needs)
    ensures && (ExpectedAfter in d <==> needs && !left)
      && (UnexpectedAfter in d <==> !needs && left)
      && (ExpectedBefore in d <==> needs && !right)
      && (UnexpectedBefore in d <==> !needs && right)
      && multiset(d)[ExpectedAfter] + multiset(d)[UnexpectedAfter] <= 1
      && multiset(d)[ExpectedBefore] + multiset(d)[UnexpectedBefore] <= 1
  {
    var o, c := JudgeOpen(left, needs), JudgeClose(right, needs);
    assert multiset(d) == multiset(o) + multiset(b) + multiset(c);
    forall x | x != ExpectedBetween ensures multiset(b)[x] == 0 {
      assert x !in b;
    }
  }

  /** Only `MultilineArguments` ever asks for breaks between items. */
  lemma BetweenOnlyUnderMultilineArguments(mode: Mode, lay: Layout)
    ensures ExpectedBetween in Decide(mode, lay) ==> mode.MultilineArguments?
    ensures multiset(Decide(mode, lay))[ExpectedBetween]
         == if mode.MultilineArguments? && NeedsBreaks(mode, lay) then multiset(lay.splits)[false] else 0
  {
    var needs := NeedsBreaks(mode, lay);
    var o := JudgeOpen(lay.leftBreak, needs);
    var b := if mode.MultilineArguments? && needs then MissingBetween(lay.splits) else [];
    var c := JudgeClose(lay.rightBreak, needs);
    assert Decide(mode, lay) == o + b + c;
    BetweenRunCount(lay.splits, mode.MultilineArguments? && needs, b);
    CountInRuns(o, b, c, multiset(b)[ExpectedBetween]);
  }

  /** The middle run of a decision holds one `expectedBetween` per pair on one line, if it is drawn at all. */
  lemma BetweenRunCount(splits: seq<bool>, drawn: bool, b: seq<MessageId>)
    requires b == if drawn then MissingBetween(splits) else []
    ensures multiset(b)[ExpectedBetween] == if drawn then multiset(splits)[false] else 0
  {
    if drawn {
        MissingOncePerJoin(splits);
      MultisetAllOne(b);
    }
  }

  /** `expectedBetween` in the three runs of a decision comes from the middle run only. */
  lemma CountInRuns(o: seq<MessageId>, b: seq<MessageId>, c: seq<MessageId>, n: nat)
    requires o == [] || o == [ExpectedAfter] || o == [UnexpectedAfter]
    requires c == [] || c == [ExpectedBefore] || c == [UnexpectedBefore]
    requires multiset(b)[ExpectedBetween] == n
    ensures multiset(o + b + c)[ExpectedBetween] == n
    ensures ExpectedBetween in o + b + c <==> n > 0
  {
    assert multiset(o + b + c) == multiset(o) + multiset(b) + multiset(c);
  }

  /** A sequence of `expectedBetween` only holds that message as many times as it is long. */
  lemma {:induction false} MultisetAllOne(s: seq<MessageId>)
    requires forall x :: x in s ==> x == ExpectedBetween
    ensures multiset(s)[ExpectedBetween] == |s|
  {
    if s != [] {
      assert s == [s[0]] + s[1..];
      assert multiset(s) == multiset([s[0]]) + multiset(s[1..]);
      assert s[0] in s && s[0] == ExpectedBetween;
      assert forall x :: x in s[1..] ==> x in s;
      MultisetAllOne(s[1..]);
    }
  }

  /**
    `Multiline` requires breaks at both parentheses exactly when some adjacent
    pair of items lies on different lines.
  */
  lemma MultilineNeedsSplitPair(l: ParenList)
    ensures NeedsBreaks(Multiline, Classify(l)) <==> SomePairSplit(l)
  {
    ClassifySplits(l);
  }

  /**
    The requirement of every mode, stated on the list itself rather than on
    its layout: an adjacent pair on different lines, a break after `(`, or
    enough items.
  */
  lemma RequirementOnList(mode: Mode, l: ParenList)
    ensures (mode.Multiline? || (mode.MultilineArguments? && Count(l) != 1))
            ==> (NeedsBreaks(mode, Classify(l)) <==> SomePairSplit(l))
    ensures (mode.Consistent? || (mode.MultilineArguments? && Count(l) == 1))
            ==> (NeedsBreaks(mode, Classify(l)) <==> HasBreak(OpenGap(l)))
    ensures mode.MinItems? ==> (NeedsBreaks(mode, Classify(l)) <==> Count(l) >= mode.n)
    ensures mode.Always? ==> NeedsBreaks(mode, Classify(l))
    ensures mode.Never? ==> !NeedsBreaks(mode, Classify(l))
  {
    ClassifySplits(l);
  }

  /**
    A lone item never requires breaks under `Multiline`, however many lines its
    own text spans; any break present at a parenthesis is reported as unexpected.
  */
  lemma LoneItemNeedsNoBreaks(lg: string, item: string, rg: string)
    ensures !NeedsBreaks(Multiline, Classify(Items(lg, item, [], rg)))
    ensures Decide(Multiline, Classify(Items(lg, item, [], rg)))
         == (if HasBreak(lg) then [UnexpectedAfter] else []) + (if HasBreak(rg) then [UnexpectedBefore] else [])
  {
  }

  /**
    `Always` requires both breaks whatever the list holds, and `Never` forbids
    both; neither looks at the breaks between items.
  */
  lemma AlwaysAndNever(lay: Layout)
    ensures Decide(Always, lay)
         == (if lay.leftBreak then [] else [ExpectedAfter]) + (if lay.rightBreak then [] else [ExpectedBefore])
    ensures Decide(Never, lay)
         == (if lay.leftBreak then [UnexpectedAfter] else []) + (if lay.rightBreak then [UnexpectedBefore] else [])
  {
  }

  /**
    An empty list under `Always` needs breaks too, and a single break between
    `(` and `)` satisfies both boundaries at once.
  */
  lemma EmptyListUnderAlways(g: string)
    ensures Accepted(Always, NoItems(g)) <==> HasBreak(g)
    ensures !HasBreak(g) ==> Ids(Diagnose(Always, NoItems(g))) == [ExpectedAfter, ExpectedBefore]
  {
    DiagnoseFollowsDecision(Always, NoItems(g));
  }

  /** `Always` is a minimum of no items, and `Never` a minimum above the item count. */
  lemma AlwaysAndNeverAsMinItems(lay: Layout, n: nat)
    ensures Decide(Always, lay) == Decide(MinItems(0), lay)
    ensures n > lay.count ==> Decide(Never, lay) == Decide(MinItems(n), lay)
  {
  }

  /**
    `MinItems(n)` requires breaks exactly when there are at least `n` items,
    whatever the present layout is; an empty list, or one that is too short,
    must have none.
  */
  lemma MinItemsCountsOnly(n: nat, lay1: Layout, lay2: Layout)
    requires lay1.count == lay2.count
    ensures NeedsBreaks(MinItems(n), lay1) == NeedsBreaks(MinItems(n), lay2) == (lay1.count >= n)
    ensures lay1.count < n ==> Decide(MinItems(n), lay1) == Decide(Never, lay1)
  {
  }

  /**
    `Consistent` never reports the `(` side: it only asks the `)` side to have
    a break exactly when `(` is followed by one.
  */
  lemma ConsistentFollowsOpen(lay: Layout)
    ensures Decide(Consistent, lay)
         == if lay.rightBreak && !lay.leftBreak then [UnexpectedBefore]
            else if !lay.rightBreak && lay.leftBreak then [ExpectedBefore]
            else []
  {
  }

  /** With exactly one item (so no adjacent pair), `MultilineArguments` decides as `Consistent` does. */
  lemma MultilineArgumentsOneItem(lay: Layout)
    requires lay.count == 1 && lay.splits == []
    ensures Decide(MultilineArguments, lay) == Decide(Consistent, lay)
    ensures UnexpectedAfter !in Decide(MultilineArguments, lay) && ExpectedAfter !in Decide(MultilineArguments, lay)
  {
  }

  /**
    With other than one item, `MultilineArguments` has the requirement of
    `Multiline`; when breaks are required, each adjacent pair on one line gets
    an `expectedBetween`, placed between the `(` and the `)` verdicts.
  */
  lemma MultilineArgumentsSeveralItems(lay: Layout)
    requires lay.count != 1
    ensures NeedsBreaks(MultilineArguments, lay) == NeedsBreaks(Multiline, lay)
    ensures Decide(MultilineArguments, lay)
         == JudgeOpen(lay.leftBreak, true in lay.splits)
          + (if true in lay.splits then MissingBetween(lay.splits) else [])
          + JudgeClose(lay.rightBreak, true in lay.splits)
  {
  }

  /**
    A layout-level statement of what each mode accepts, written without the
    rule's own decision function.
  */
  predicate Satisfies(mode: Mode, l: ParenList) {
    var lb, rb, split := Classify(l).leftBreak, Classify(l).rightBreak, SomePairSplit(l);
    match mode
    case Always => lb && rb
    case Never => !lb && !rb
    case MinItems(n) => lb == (Count(l) >= n) && rb == (Count(l) >= n)
    case Consistent => rb == lb
    case Multiline => lb == split && rb == split
    case MultilineArguments =>
      if Count(l) == 1 then rb == lb
      else
        && lb == split && rb == split
        && (split ==> forall i :: 0 <= i < |l.rest| ==> HasBreak(l.rest[i].sep))
  }

  /** The rule reports nothing on a list exactly when the list satisfies the mode. */
  lemma AcceptedIffSatisfies(mode: Mode, l: ParenList)
    ensures Accepted(mode, l) <==> Satisfies(mode, l)
  {
    DiagnoseFollowsDecision(mode, l);
    assert Accepted(mode, l) <==> Decide(mode, Classify(l)) == [];
    DecidesNothingIffSatisfies(mode, l);
  }

  /** The decision is empty exactly when the list satisfies the mode. */
  lemma DecidesNothingIffSatisfies(mode: Mode, l: ParenList)
    ensures Decide(mode, Classify(l)) == [] <==> Satisfies(mode, l)
  {
    ClassifySplits(l);
    if mode.MultilineArguments? && Count(l) != 1 {
      SeveralArgumentsNothingIff(l);
    }
  }

  /** `DecidesNothingIffSatisfies` for `MultilineArguments` with other than one item. */
  lemma SeveralArgumentsNothingIff(l: ParenList)
    requires Count(l) != 1
    ensures Decide(MultilineArguments, Classify(l)) == [] <==> Satisfies(MultilineArguments, l)
  {
    var lay := Classify(l);
    var split := SomePairSplit(l);
    ClassifySplits(l);
    assert NeedsBreaks(MultilineArguments, lay) == split;
    var o, c := JudgeOpen(lay.leftBreak, split), JudgeClose(lay.rightBreak, split);
    var b := if split then MissingBetween(lay.splits) else [];
    assert Decide(MultilineArguments, lay) == o + b + c;
    assert o + b + c == [] <==> o == [] && b == [] && c == [];
    if split {
      MissingNoneIffAllSplit(lay.splits);
    }
  }
}
