/**
  Source text as the rule sees it: line terminators, blank gaps, and text
  edits applied the way the host fixer applies one pass of fixes.
*/
module Text {
  import opened Wrappers

  /** A line terminator as JavaScript counts them when it numbers source lines. */
  predicate IsLineBreak(c: char) {
    c == '\n' || c == '\r' || c == '\U{2028}' || c == '\U{2029}'
  }

  /** A character that JavaScript's `String.prototype.trim` strips: white space or a line terminator. */
  predicate IsBlank(c: char) {
    || IsLineBreak(c)
    || c == ' ' || c == '\t' || c == '\U{B}' || c == '\U{C}'
    || c == '\U{A0}' || c == '\U{FEFF}' || c == '\U{1680}'
    || ('\U{2000}' <= c <= '\U{200A}')
    || c == '\U{202F}' || c == '\U{205F}' || c == '\U{3000}'
  }

  /** Two tokens separated by `s` lie on different lines. */
  predicate HasBreak(s: string) {
    |s| > 0 && (IsLineBreak(s[0]) || HasBreak(s[1..]))
  }

  /**
    The gap `s` between two tokens holds more than white space. Between a
    parenthesis and its neighbouring token that can only be a comment.
  */
  predicate HoldsComment(s: string) {
    |s| > 0 && (!IsBlank(s[0]) || HoldsComment(s[1..]))
  }

  lemma {:induction false} HasBreakMeans(s: string)
    ensures HasBreak(s) <==> exists i :: 0 <= i < |s| && IsLineBreak(s[i])
  {
    if |s| > 0 {
      HasBreakMeans(s[1..]);
      if HasBreak(s[1..]) {
        var i :| 0 <= i < |s| - 1 && IsLineBreak(s[1..][i]);
        assert IsLineBreak(s[i + 1]);
      }
      if !IsLineBreak(s[0]) && !HasBreak(s[1..]) {
        forall i | 0 <= i < |s| ensures !IsLineBreak(s[i]) {
          if i > 0 { assert s[i] == s[1..][i - 1]; }
        }
      }
    }
  }

  lemma {:induction false} HoldsCommentMeans(s: string)
    ensures HoldsComment(s) <==> exists i :: 0 <= i < |s| && !IsBlank(s[i])
  {
    if |s| > 0 {
      HoldsCommentMeans(s[1..]);
      if HoldsComment(s[1..]) {
        var i :| 0 <= i < |s| - 1 && !IsBlank(s[1..][i]);
        assert !IsBlank(s[i + 1]);
      }
      if IsBlank(s[0]) && !HoldsComment(s[1..]) {
        forall i | 0 <= i < |s| ensures IsBlank(s[i]) {
          if i > 0 { assert s[i] == s[1..][i - 1]; }
        }
      }
    }
  }

  /** A break in either half is a break in the whole. */
  lemma {:induction false} HasBreakAppend(a: string, b: string)
    ensures HasBreak(a + b) <==> HasBreak(a) || HasBreak(b)
  {
    if |a| > 0 {
      assert (a + b)[1..] == a[1..] + b;
      HasBreakAppend(a[1..], b);
    } else {
      assert a + b == b;
    }
  }

  /** `"\n"` is a line break, and so is anything it is glued to. */
  lemma NewlineBreaks(a: string, b: string)
    ensures HasBreak(a + "\n" + b)
  {
    HasBreakAppend(a + "\n", b);
    HasBreakAppend(a, "\n");
  }

  /**
    A text edit as the host fixer receives it: replace the characters in
    `[start, end)` of the original text by `text`. An insertion has
    `start == end`, a removal has `text == ""`.
  */
  datatype Edit = Edit(start: nat, end: nat, text: string)

  /**
    One pass of the host fixer over `src`, with `edits` already in the order of
    their ranges. An edit is skipped when it starts at or before the end of
    the last edit applied (`last`, -1 before the first), or when its range is
    not a range of `src`; every other edit is applied.
  */
  function Pass(src: string, edits: seq<Edit>, last: int): (out: string)
    requires -1 <= last <= |src|
    decreases |edits|
  {
    var from := if last < 0 then 0 else last;
    if edits == [] then src[from..]
    else
      var e := edits[0];
      if last >= e.start || e.start > e.end || e.end > |src| then Pass(src, edits[1..], last)
      else src[from..e.start] + e.text + Pass(src, edits[1..], e.end)
  }

  /**
    The text one fixing pass produces from `src`: with no edits the text
    itself, and when the edits are in order, inside the text and do not touch,
    the text with every edit applied.
  */
  function ApplyFixes(src: string, edits: seq<Edit>): (out: string)
    ensures edits == [] ==> out == src
    ensures Within(edits, 0, |src|) && Separated(edits, -1) ==> out == Rewrite(src, edits, 0, |src|)
  {
    if Within(edits, 0, |src|) && Separated(edits, -1) then
      PassRewrites(src, edits, -1);
      Pass(src, edits, -1)
    else
      Pass(src, edits, -1)
  }

  /** `edits` lie in order inside `[from, to]`; neighbouring edits may touch. */
  predicate Within(edits: seq<Edit>, from: nat, to: nat) {
    edits == [] ||
    (from <= edits[0].start <= edits[0].end <= to && Within(edits[1..], edits[0].end, to))
  }

  /** Each edit starts strictly after the end of the one before it (after `last` for the first). */
  predicate Separated(edits: seq<Edit>, last: int) {
    edits == [] ||
    (last < edits[0].start <= edits[0].end && Separated(edits[1..], edits[0].end))
  }

  /** Where the last of `edits` ends, or `last` when there is none. */
  function LastEnd(edits: seq<Edit>, last: int): int
    decreases |edits|
  {
    if edits == [] then last else LastEnd(edits[1..], edits[0].end)
  }

  /** The region `src[from..to]` with every one of `edits` applied. */
  function Rewrite(src: string, edits: seq<Edit>, from: nat, to: nat): (out: string)
    requires from <= to <= |src|
    requires Within(edits, from, to)
    decreases |edits|
  {
    if edits == [] then src[from..to]
    else src[from..edits[0].start] + edits[0].text + Rewrite(src, edits[1..], edits[0].end, to)
  }

  /** The region `src[from..to]` with `edits` applied, when the edits lie inside it. */
  function Rewritten(src: string, edits: seq<Edit>, from: nat, to: nat): Option<string> {
    if from <= to <= |src| && Within(edits, from, to) then Some(Rewrite(src, edits, from, to)) else None
  }

  /** The edits lie inside the region `src[from..to]` and turn it into `out`. */
  predicate RewritesTo(src: string, edits: seq<Edit>, from: nat, to: nat, out: string) {
    Rewritten(src, edits, from, to) == Some(out)
  }

  /** With no edits a region stays as it is. */
  lemma RewritesNothing(src: string, a: nat, b: nat)
    requires a <= b <= |src|
    ensures RewritesTo(src, [], a, b, src[a..b])
  {
  }

  /** A single edit inside a region replaces its own span and keeps the text on either side. */
  lemma RewritesOne(src: string, a: nat, e: Edit, b: nat)
    requires a <= e.start <= e.end <= b <= |src|
    ensures RewritesTo(src, [e], a, b, src[a..e.start] + e.text + src[e.end..b])
  {
    assert [e][1..] == [];
    assert Within([e], a, b);
    assert Rewrite(src, [e], a, b) == src[a..e.start] + e.text + Rewrite(src, [], e.end, b);
  }

  /**
    Text in front of a region that no edit touches stays in front of what the
    edits make of the region.
  */
  lemma KeptPrefix(src: string, edits: seq<Edit>, a: nat, b: nat, c: nat, d: nat, kept: string, out: string)
    requires a <= b <= |src| && src[a..b] == kept && RewritesTo(src, edits, b, c, out) && c == d
    ensures RewritesTo(src, edits, a, d, kept + out)
  {
    RewriteFrom(src, edits, a, b, c);
  }

  /** A line break or other text inserted where a region's edits start goes right after the text in front. */
  lemma InsertAt(src: string, edits: seq<Edit>, a: nat, b: nat, c: nat, text: string, kept: string, out: string)
    requires a <= b <= |src| && src[a..b] == kept && RewritesTo(src, edits, b, c, out)
    ensures RewritesTo(src, [Edit(b, b, text)] + edits, a, c, kept + text + out)
  {
    RewriteInsert(src, edits, a, b, c, text);
  }

  /** One pass skips nothing when the edits are separated: it rewrites the whole text. */
  lemma {:induction false} PassRewrites(src: string, edits: seq<Edit>, last: int)
    requires -1 <= last <= |src|
    requires Within(edits, if last < 0 then 0 else last, |src|)
    requires Separated(edits, last)
    ensures Pass(src, edits, last) == Rewrite(src, edits, if last < 0 then 0 else last, |src|)
  {
    if edits != [] {
      PassRewrites(src, edits[1..], edits[0].end);
    }
  }

  /** Text before the first edit of a region can be moved out of the region. */
  lemma {:induction false} RewriteFrom(src: string, edits: seq<Edit>, a: nat, b: nat, c: nat)
    requires a <= b <= c <= |src|
    requires Within(edits, b, c)
    ensures Within(edits, a, c)
    ensures Rewrite(src, edits, a, c) == src[a..b] + Rewrite(src, edits, b, c)
  {
    if edits == [] {
      assert src[a..c] == src[a..b] + src[b..c];
    } else {
      var e := edits[0];
      var x, y, rest := src[a..b], src[b..e.start], Rewrite(src, edits[1..], e.end, c);
      assert src[a..e.start] == x + y;
      ConcatAssoc(x, y, e.text);
      ConcatAssoc(x, y + e.text, rest);
    }
  }

  /** A region splits at any point between the edits before it and the edits after it. */
  lemma {:induction false} RewriteSplit(src: string, e1: seq<Edit>, e2: seq<Edit>, a: nat, b: nat, c: nat)
    requires a <= b <= c <= |src|
    requires Within(e1, a, b) && Within(e2, b, c)
    ensures Within(e1 + e2, a, c)
    ensures Rewrite(src, e1 + e2, a, c) == Rewrite(src, e1, a, b) + Rewrite(src, e2, b, c)
    decreases |e1|
  {
    if e1 == [] {
      assert e1 + e2 == e2;
      RewriteFrom(src, e2, a, b, c);
    } else {
      var e := e1[0];
      assert (e1 + e2)[0] == e && (e1 + e2)[1..] == e1[1..] + e2;
      RewriteSplit(src, e1[1..], e2, e.end, b, c);
      ConcatAssoc(src[a..e.start] + e.text, Rewrite(src, e1[1..], e.end, b), Rewrite(src, e2, b, c));
    }
  }

  /** Separation carries over a concatenation at the end of the first part. */
  lemma {:induction false} SeparatedAppend(e1: seq<Edit>, e2: seq<Edit>, last: int)
    requires Separated(e1, last) && Separated(e2, LastEnd(e1, last))
    ensures Separated(e1 + e2, last)
    ensures LastEnd(e1 + e2, last) == LastEnd(e2, LastEnd(e1, last))
    decreases |e1|
  {
    if e1 == [] {
      assert e1 + e2 == e2;
    } else {
      assert (e1 + e2)[1..] == e1[1..] + e2;
      SeparatedAppend(e1[1..], e2, e1[0].end);
    }
  }

  /** An insertion at `b` in front of the edits of `[b, c]` adds its text right there. */
  lemma RewriteInsert(src: string, edits: seq<Edit>, a: nat, b: nat, c: nat, text: string)
    requires a <= b <= c <= |src|
    requires Within(edits, b, c)
    ensures Within([Edit(b, b, text)] + edits, a, c)
    ensures Rewrite(src, [Edit(b, b, text)] + edits, a, c) == src[a..b] + text + Rewrite(src, edits, b, c)
  {
    assert ([Edit(b, b, text)] + edits)[1..] == edits;
  }

  /** A slice holding `x` then `y` splits where `x` ends. */
  lemma SliceSplit(s: string, a: nat, b: nat, c: nat, x: string, y: string)
    requires a <= c <= |s| && s[a..c] == x + y && b == a + |x|
    ensures b <= c && s[a..b] == x && s[b..c] == y
  {
    assert s[a..b] == s[a..c][..|x|];
    assert s[b..c] == s[a..c][|x|..];
  }

  /** Concatenation regroups freely. */
  lemma ConcatAssoc(a: string, b: string, c: string)
    ensures a + (b + c) == (a + b) + c
  {
  }

}
