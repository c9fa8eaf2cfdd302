/**
  Cases from the rule's test table, each written as the list between `(` and
  `)`: the messages the rule reports and, when it offers fixes, the list's
  text after one fixing pass. Where a test indents a line, the lemma takes the
  line break and its indentation as a parameter: any `\n` followed by spaces.
*/
module Examples {
  import opened Wrappers
  import opened Text
  import opened Lists
  import opened Modes
  import opened Rule
  import opened Fixing
  import opened RuleProperties

  /** A line break and the indentation of the next line, as between the lines of the tests. */
  predicate NewLine(s: string) {
    |s| > 0 && s[0] == '\n' && forall i :: 1 <= i < |s| ==> s[i] == ' '
  }

  const Comment: string := "/* not fixed due to comment */"

  /**
    The rule reports `ids` on `l`, and one fixing pass turns its text into the
    text of `fixed`.
  */
  predicate Reports(mode: Mode, l: ParenList, ids: seq<MessageId>, fixed: ParenList) {
    Ids(Diagnose(mode, l)) == ids && ApplyFixes(Render(l), Fixes(Diagnose(mode, l))) == Render(fixed)
  }

  /** `Reports` from the decision on the layout and from the repaired list. */
  lemma ReportsByRepair(mode: Mode, l: ParenList, ids: seq<MessageId>, fixed: ParenList)
    requires WellFormed(l) && Decide(mode, Classify(l)) == ids && Repaired(mode, l) == fixed
    ensures Reports(mode, l, ids, fixed)
  {
    DiagnoseFollowsDecision(mode, l);
    OnePassRepairs(mode, l);
  }

  /** A new line, alone or after a comma, is a line break and holds no comment; `", "` holds no break. */
  lemma NewLines(s: string)
    requires NewLine(s)
    ensures HasBreak(s) && !HoldsComment(s)
    ensures HasBreak("," + s) && !HasBreak(", ")
  {
    HoldsCommentMeans(s);
    assert ("," + s)[1..] == s;
  }

  /** A comment and a new line next to each other, in either order. */
  lemma CommentLines(s: string)
    requires NewLine(s)
    ensures HasBreak(Comment + s) && HoldsComment(Comment + s)
    ensures HasBreak(s + Comment) && HoldsComment(s + Comment)
  {
    NewLines(s);
    HasBreakAppend(Comment, s);
    HasBreakAppend(s, Comment);
    HoldsCommentMeans(Comment + s);
    assert !IsBlank((Comment + s)[0]);
    HoldsCommentMeans(s + Comment);
    assert !IsBlank((s + Comment)[|s|]);
  }

  /** Splits and repaired separators of a list with two pairs, pair by pair. */
  lemma TwoPairs(p: Pair, q: Pair)
    ensures Splits([p, q]) == [HasBreak(p.sep), HasBreak(q.sep)]
    ensures BreakSeps([p, q]) == [Pair(if HasBreak(p.sep) then p.sep else p.sep + "\n", p.item),
                                  Pair(if HasBreak(q.sep) then q.sep else q.sep + "\n", q.item)]
    ensures MissingBetween([HasBreak(p.sep), HasBreak(q.sep)]) == MissingBetween([HasBreak(p.sep)]) + MissingBetween([HasBreak(q.sep)])
  {
    assert [p, q][1..] == [q] && [q][1..] == [];
    assert BreakSeps([q]) == [Pair(if HasBreak(q.sep) then q.sep else q.sep + "\n", q.item)] + BreakSeps([]);
    assert [HasBreak(p.sep), HasBreak(q.sep)][1..] == [HasBreak(q.sep)];
  }

  /** `function baz(foo, bar) {}`, and a list with every item on its own line, satisfy the default mode. */
  lemma MultilineAcceptsValidLists(nl: string, cl: string)
    requires NewLine(nl) && NewLine(cl)
    ensures Accepted(Multiline, Items("", "foo", [Pair(", ", "bar")], ""))
    ensures Accepted(Multiline, Items(nl, "foo", [Pair("," + nl, "bar")], cl))
  {
    NewLines(nl);
    NewLines(cl);
  }

  /** A lone template literal spanning two lines needs no breaks at its parentheses. */
  lemma MultilineAcceptsLoneMultiLineItem(cl: string)
    requires NewLine(cl)
    ensures Accepted(Multiline, Items("", "`foo" + cl + "bar`", [], ""))
  {
  }

  /** `function baz(foo,⏎bar⏎) {}`: the pair on two lines asks for a break after `(`. */
  lemma MultilineMissingAfter(nl: string, cl: string)
    requires NewLine(nl) && NewLine(cl)
    ensures Reports(Multiline, Items("", "foo", [Pair("," + nl, "bar")], cl),
                    [ExpectedAfter], Items("\n", "foo", [Pair("," + nl, "bar")], cl))
  {
    NewLines(nl);
    NewLines(cl);
    ReportsByRepair(Multiline, Items("", "foo", [Pair("," + nl, "bar")], cl),
                    [ExpectedAfter], Items("\n", "foo", [Pair("," + nl, "bar")], cl));
  }

  /** `(function(⏎foo,⏎bar) {})`: a break is missing before `)`. */
  lemma MultilineMissingBefore(nl: string)
    requires NewLine(nl)
    ensures Reports(Multiline, Items(nl, "foo", [Pair("," + nl, "bar")], ""),
                    [ExpectedBefore], Items(nl, "foo", [Pair("," + nl, "bar")], "\n"))
  {
    NewLines(nl);
    ReportsByRepair(Multiline, Items(nl, "foo", [Pair("," + nl, "bar")], ""),
                    [ExpectedBefore], Items(nl, "foo", [Pair("," + nl, "bar")], "\n"));
  }

  /** `baz(⏎foo, bar);`: the items share a line, so the break after `(` is removed. */
  lemma MultilineUnexpectedAfter(nl: string)
    requires NewLine(nl)
    ensures Reports(Multiline, Items(nl, "foo", [Pair(", ", "bar")], ""),
                    [UnexpectedAfter], Items("", "foo", [Pair(", ", "bar")], ""))
  {
    NewLines(nl);
    ReportsByRepair(Multiline, Items(nl, "foo", [Pair(", ", "bar")], ""),
                    [UnexpectedAfter], Items("", "foo", [Pair(", ", "bar")], ""));
  }

  /** `function baz(⏎foo =⏎1⏎) {}`: one item spanning lines does not call for breaks. */
  lemma MultilineLoneItemSpanningLines(nl: string, cl: string)
    requires NewLine(nl) && NewLine(cl)
    ensures Reports(Multiline, Items(nl, "foo =" + nl + "1", [], cl),
                    [UnexpectedAfter, UnexpectedBefore], Items("", "foo =" + nl + "1", [], ""))
  {
    NewLines(nl);
    NewLines(cl);
    ReportsByRepair(Multiline, Items(nl, "foo =" + nl + "1", [], cl),
                    [UnexpectedAfter, UnexpectedBefore], Items("", "foo =" + nl + "1", [], ""));
  }

  /** `function baz(⏎) {}`: both boundaries judge the one gap, and one pass removes it once. */
  lemma MultilineEmptyWithBreak(cl: string)
    requires NewLine(cl)
    ensures Reports(Multiline, NoItems(cl), [UnexpectedAfter, UnexpectedBefore], NoItems(""))
  {
    NewLines(cl);
    ReportsByRepair(Multiline, NoItems(cl), [UnexpectedAfter, UnexpectedBefore], NoItems(""));
  }

  /** `function baz(/* … */⏎foo) {}`: the break is reported, and no fix is offered since a comment sits in the gap. */
  lemma MultilineCommentAfterOpen(cl: string)
    requires NewLine(cl)
    ensures var l := Items(Comment + cl, "foo", [], "");
      Ids(Diagnose(Multiline, l)) == [UnexpectedAfter] && Fixes(Diagnose(Multiline, l)) == []
  {
    CommentLines(cl);
  }

  /** `function baz(foo⏎/* … */) {}`: the same on the `)` side. */
  lemma MultilineCommentBeforeClose(cl: string)
    requires NewLine(cl)
    ensures var l := Items("", "foo", [], cl + Comment);
      Ids(Diagnose(Multiline, l)) == [UnexpectedBefore] && Fixes(Diagnose(Multiline, l)) == []
  {
    CommentLines(cl);
  }

  /**
    `function baz(/* … */⏎foo) {}` under `multiline-arguments`: one item, and
    the `(` side has a break, so one is inserted before `)`; a comment never
    holds back an insertion.
  */
  lemma MultilineArgumentsCommentAfterOpen(cl: string)
    requires NewLine(cl)
    ensures Reports(MultilineArguments, Items(Comment + cl, "foo", [], ""),
                    [ExpectedBefore], Items(Comment + cl, "foo", [], "\n"))
  {
    CommentLines(cl);
    ReportsByRepair(MultilineArguments, Items(Comment + cl, "foo", [], ""),
                    [ExpectedBefore], Items(Comment + cl, "foo", [], "\n"));
  }

  /** `function baz(⏎qwe,⏎foo, bar⏎) {}`: the one pair on one line gets a break before its second item. */
  lemma MultilineArgumentsMissingBetween(nl: string, cl: string)
    requires NewLine(nl) && NewLine(cl)
    ensures Reports(MultilineArguments, Items(nl, "qwe", [Pair("," + nl, "foo"), Pair(", ", "bar")], cl),
                    [ExpectedBetween], Items(nl, "qwe", [Pair("," + nl, "foo"), Pair(", \n", "bar")], cl))
  {
    var rest := [Pair("," + nl, "foo"), Pair(", ", "bar")];
    var l := Items(nl, "qwe", rest, cl);
    NewLines(nl);
    NewLines(cl);
    TwoPairs(rest[0], rest[1]);
    assert Classify(l) == Layout(true, true, 3, [true, false]);
    assert Decide(MultilineArguments, Classify(l)) == [] + [ExpectedBetween] + [];
    assert ", " + "\n" == ", \n";
    assert Repaired(MultilineArguments, l) == Items(nl, "qwe", [Pair("," + nl, "foo"), Pair(", \n", "bar")], cl);
    ReportsByRepair(MultilineArguments, l, [ExpectedBetween], Items(nl, "qwe", [Pair("," + nl, "foo"), Pair(", \n", "bar")], cl));
  }

  /** `function baz(qwe, foo,⏎bar) {}`: three reports in source order, all fixed in one pass. */
  lemma MultilineArgumentsAllMissing(nl: string)
    requires NewLine(nl)
    ensures Reports(MultilineArguments, Items("", "qwe", [Pair(", ", "foo"), Pair("," + nl, "bar")], ""),
                    [ExpectedAfter, ExpectedBetween, ExpectedBefore],
                    Items("\n", "qwe", [Pair(", \n", "foo"), Pair("," + nl, "bar")], "\n"))
  {
    var l := Items("", "qwe", [Pair(", ", "foo"), Pair("," + nl, "bar")], "");
    AllMissingDecided(nl, l);
    AllMissingRepaired(nl, l);
    ReportsByRepair(MultilineArguments, l, [ExpectedAfter, ExpectedBetween, ExpectedBefore],
                    Items("\n", "qwe", [Pair(", \n", "foo"), Pair("," + nl, "bar")], "\n"));
  }

  lemma AllMissingDecided(nl: string, l: ParenList)
    requires NewLine(nl) && l == Items("", "qwe", [Pair(", ", "foo"), Pair("," + nl, "bar")], "")
    ensures WellFormed(l) && Decide(MultilineArguments, Classify(l)) == [ExpectedAfter, ExpectedBetween, ExpectedBefore]
  {
    NewLines(nl);
    TwoPairs(l.rest[0], l.rest[1]);
    assert Classify(l) == Layout(false, false, 3, [false, true]);
    assert Decide(MultilineArguments, Classify(l)) == [ExpectedAfter] + [ExpectedBetween] + [ExpectedBefore];
  }

  lemma AllMissingRepaired(nl: string, l: ParenList)
    requires NewLine(nl) && l == Items("", "qwe", [Pair(", ", "foo"), Pair("," + nl, "bar")], "")
    ensures Repaired(MultilineArguments, l) == Items("\n", "qwe", [Pair(", \n", "foo"), Pair("," + nl, "bar")], "\n")
  {
    NewLines(nl);
    TwoPairs(l.rest[0], l.rest[1]);
    assert NeedsBreaks(MultilineArguments, Classify(l)) by {
      assert Classify(l).splits[1];
    }
    assert ", " + "\n" == ", \n";
    assert BreakSeps(l.rest) == [Pair(", \n", "foo"), Pair("," + nl, "bar")];
    assert RepairOpen("", true) == "\n" && RepairClose("", true) == "\n";
  }

  /** `baz(⏎foo);` under `multiline-arguments`: one item with a break after `(` needs one before `)`. */
  lemma MultilineArgumentsOneItemMissingBefore(nl: string)
    requires NewLine(nl)
    ensures Reports(MultilineArguments, Items(nl, "foo", [], ""), [ExpectedBefore], Items(nl, "foo", [], "\n"))
  {
    NewLines(nl);
    ReportsByRepair(MultilineArguments, Items(nl, "foo", [], ""), [ExpectedBefore], Items(nl, "foo", [], "\n"));
  }

  /** `baz(foo⏎);` under `multiline-arguments`: one item and no break after `(`, so the one before `)` goes. */
  lemma MultilineArgumentsOneItemUnexpectedBefore(nl: string)
    requires NewLine(nl)
    ensures Reports(MultilineArguments, Items("", "foo", [], nl), [UnexpectedBefore], Items("", "foo", [], ""))
  {
    NewLines(nl);
    ReportsByRepair(MultilineArguments, Items("", "foo", [], nl), [UnexpectedBefore], Items("", "foo", [], ""));
  }

  /** `function baz(foo, bar) {}` under `always`. */
  lemma AlwaysMissingBoth()
    ensures Reports(Always, Items("", "foo", [Pair(", ", "bar")], ""),
                    [ExpectedAfter, ExpectedBefore], Items("\n", "foo", [Pair(", ", "bar")], "\n"))
  {
    ReportsByRepair(Always, Items("", "foo", [Pair(", ", "bar")], ""),
                    [ExpectedAfter, ExpectedBefore], Items("\n", "foo", [Pair(", ", "bar")], "\n"));
  }

  /** `function baz() {}` under `always`: the two insertions coincide and one pass makes one break. */
  lemma AlwaysEmptyList()
    ensures Reports(Always, NoItems(""), [ExpectedAfter, ExpectedBefore], NoItems("\n"))
  {
    ReportsByRepair(Always, NoItems(""), [ExpectedAfter, ExpectedBefore], NoItems("\n"));
  }

  /**
    The text the fix makes of `function baz() {}` under `always`, and the
    valid `function baz(⏎) {}`, are both accepted by `always`.
  */
  lemma AlwaysAcceptsEmptyWithBreak(cl: string)
    requires NewLine(cl)
    ensures Accepted(Always, NoItems("\n")) && Accepted(Always, NoItems(cl))
  {
    NewLines(cl);
    EmptyListUnderAlways("\n");
    EmptyListUnderAlways(cl);
  }

  /** `function baz(foo,⏎bar⏎) {}` under `never`: only the break before `)` is at a parenthesis. */
  lemma NeverUnexpectedBefore(nl: string, cl: string)
    requires NewLine(nl) && NewLine(cl)
    ensures Reports(Never, Items("", "foo", [Pair("," + nl, "bar")], cl),
                    [UnexpectedBefore], Items("", "foo", [Pair("," + nl, "bar")], ""))
  {
    NewLines(nl);
    NewLines(cl);
    ReportsByRepair(Never, Items("", "foo", [Pair("," + nl, "bar")], cl),
                    [UnexpectedBefore], Items("", "foo", [Pair("," + nl, "bar")], ""));
  }

  /** `function baz(foo, bar, qux) {}` with `{ minItems: 3 }`. */
  lemma MinItemsReached()
    ensures Reports(MinItems(3), Items("", "foo", [Pair(", ", "bar"), Pair(", ", "qux")], ""),
                    [ExpectedAfter, ExpectedBefore], Items("\n", "foo", [Pair(", ", "bar"), Pair(", ", "qux")], "\n"))
  {
    ReportsByRepair(MinItems(3), Items("", "foo", [Pair(", ", "bar"), Pair(", ", "qux")], ""),
                    [ExpectedAfter, ExpectedBefore], Items("\n", "foo", [Pair(", ", "bar"), Pair(", ", "qux")], "\n"));
  }

  /** `foo(⏎bar,⏎baz)` under `consistent`: the `)` side follows the `(` side. */
  lemma ConsistentMissingBefore(nl: string)
    requires NewLine(nl)
    ensures Reports(Consistent, Items(nl, "bar", [Pair("," + nl, "baz")], ""),
                    [ExpectedBefore], Items(nl, "bar", [Pair("," + nl, "baz")], "\n"))
  {
    NewLines(nl);
    ReportsByRepair(Consistent, Items(nl, "bar", [Pair("," + nl, "baz")], ""),
                    [ExpectedBefore], Items(nl, "bar", [Pair("," + nl, "baz")], "\n"));
  }

  /** `foo(bar,⏎baz⏎)` under `consistent`: no break after `(`, so the one before `)` goes. */
  lemma ConsistentUnexpectedBefore(nl: string, cl: string)
    requires NewLine(nl) && NewLine(cl)
    ensures Reports(Consistent, Items("", "bar", [Pair("," + nl, "baz")], cl),
                    [UnexpectedBefore], Items("", "bar", [Pair("," + nl, "baz")], ""))
  {
    NewLines(nl);
    NewLines(cl);
    ReportsByRepair(Consistent, Items("", "bar", [Pair("," + nl, "baz")], cl),
                    [UnexpectedBefore], Items("", "bar", [Pair("," + nl, "baz")], ""));
  }
}
