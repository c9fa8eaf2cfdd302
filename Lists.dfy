/**
  A parenthesised parameter or argument list, already located by the host,
  as the text from its `(` to its `)`; and the layout read off that text.
*/
module Lists {
  import opened Text

  /**
    The text between two adjacent items, followed by the second item's own
    text. The separator is everything from the end of one item's own text to
    the start of the next: the comma with any white space and comments, and
    any parentheses that wrap either item.
  */
  datatype Pair = Pair(sep: string, item: string)

  /**
    A list between `(` and `)`. With no items there is one gap between the
    parentheses. Otherwise there is a gap after `(`, the first item, a
    separator and an item for each further item, and a gap before `)`. A gap
    is the text between a parenthesis and its neighbouring token: white space
    and comments only. A trailing comma belongs to the last item's text.
  */
  datatype ParenList =
    | NoItems(gap: string)
    | Items(leftGap: string, first: string, rest: seq<Pair>, rightGap: string)

  /** Items are made of tokens and so never empty; every separator, holding at least its comma, is non-empty. */
  predicate WellFormed(l: ParenList) {
    l.Items? ==> |l.first| > 0 && forall i :: 0 <= i < |l.rest| ==> |l.rest[i].sep| > 0 && |l.rest[i].item| > 0
  }

  /** The number of items. */
  function Count(l: ParenList): nat {
    if l.NoItems? then 0 else 1 + |l.rest|
  }

  /** The text of every separator and item after the first item. */
  function Tail(rest: seq<Pair>): string {
    if rest == [] then "" else rest[0].sep + rest[0].item + Tail(rest[1..])
  }

  /** The source text of the list, from `(` to `)` inclusive. */
  function Render(l: ParenList): string {
    match l
    case NoItems(g) => "(" + g + ")"
    case Items(lg, first, rest, rg) => "(" + lg + first + Tail(rest) + rg + ")"
  }

  /** The gap after `(`: up to the first item, or up to `)` in an empty list. */
  function OpenGap(l: ParenList): string {
    if l.NoItems? then l.gap else l.leftGap
  }

  /** The gap before `)`: back to the last item, or back to `(` in an empty list. */
  function CloseGap(l: ParenList): string {
    if l.NoItems? then l.gap else l.rightGap
  }

  /** Where the gap before `)` starts in `Render(l)`. */
  function RightGapStart(l: ParenList): nat {
    match l
    case NoItems(_) => 1
    case Items(lg, first, rest, _) => 1 + |lg| + |first| + |Tail(rest)|
  }

  /** Where `)` is in `Render(l)`. */
  function CloseAt(l: ParenList): nat {
    RightGapStart(l) + |CloseGap(l)|
  }

  /**
    The layout the rule judges: whether `(` and the token after it are on
    different lines, whether the token before `)` and `)` are, the item count,
    and for each adjacent pair of items whether the first ends on a different
    line from the one where the second starts.
  */
  datatype Layout = Layout(leftBreak: bool, rightBreak: bool, count: nat, splits: seq<bool>)

  /** For each separator, whether the items on either side of it lie on different lines. */
  function Splits(rest: seq<Pair>): (r: seq<bool>)
    ensures |r| == |rest|
    ensures forall i :: 0 <= i < |rest| ==> r[i] == HasBreak(rest[i].sep)
  {
    if rest == [] then [] else [HasBreak(rest[0].sep)] + Splits(rest[1..])
  }

  /**
    The layout of a list: the boundary flags are whether the gaps at `(` and
    `)` hold a line break (with no items both are the one gap between the
    parentheses), the count is the number of items, and there is one split
    flag per separator, set exactly when that separator holds a line break.
  */
  function Classify(l: ParenList): (r: Layout)
    ensures l.NoItems? ==> r.leftBreak == r.rightBreak == HasBreak(l.gap)
    ensures l.Items? ==> r.leftBreak == HasBreak(l.leftGap) && r.rightBreak == HasBreak(l.rightGap)
    ensures r.count == Count(l) && |r.splits| == (if l.Items? then |l.rest| else 0)
    ensures l.Items? ==> forall i :: 0 <= i < |l.rest| ==> r.splits[i] == HasBreak(l.rest[i].sep)
  {
    match l
    case NoItems(g) => Layout(HasBreak(g), HasBreak(g), 0, [])
    case Items(lg, _, rest, rg) => Layout(HasBreak(lg), HasBreak(rg), 1 + |rest|, Splits(rest))
  }

  /** Some adjacent pair of items lies on different lines. */
  predicate SomePairSplit(l: ParenList) {
    l.Items? && exists i :: 0 <= i < |l.rest| && HasBreak(l.rest[i].sep)
  }

  /** The classified layout says a pair is split exactly when the list has such a pair. */
  lemma ClassifySplits(l: ParenList)
    ensures (true in Classify(l).splits) <==> SomePairSplit(l)
  {
    if l.Items? {
      if true in Classify(l).splits {
        var i :| 0 <= i < |l.rest| && Splits(l.rest)[i];
      }
      if SomePairSplit(l) {
        var i :| 0 <= i < |l.rest| && HasBreak(l.rest[i].sep);
        assert Classify(l).splits[i];
      }
    }
  }

  /** The text of item `j` of a list with items, counting the first as 0. */
  function ItemText(l: ParenList, j: nat): string
    requires l.Items? && j <= |l.rest|
  {
    if j == 0 then l.first else l.rest[j - 1].item
  }

  /** How far item `j` starts after the start of `first`: past each earlier item and separator. */
  function ItemOffset(first: string, rest: seq<Pair>, j: nat): nat
    requires j <= |rest|
    decreases j
  {
    if j == 0 then 0 else |first| + |rest[0].sep| + ItemOffset(rest[0].item, rest[1..], j - 1)
  }

  /** Where item `j` starts in `Render(l)`. */
  function ItemStart(l: ParenList, j: nat): nat
    requires l.Items? && j <= |l.rest|
  {
    1 + |l.leftGap| + ItemOffset(l.first, l.rest, j)
  }

  /**
    Item `j` lies in the list's text at `ItemStart(l, j)`, before the gap at
    `)`, and the separator before it ends right where it starts.
  */
  lemma ItemsInText(l: ParenList, j: nat)
    requires l.Items? && j <= |l.rest|
    ensures ItemStart(l, j) + |ItemText(l, j)| <= RightGapStart(l)
    ensures Render(l)[ItemStart(l, j)..ItemStart(l, j) + |ItemText(l, j)|] == ItemText(l, j)
    ensures j > 0 ==>
      |l.rest[j - 1].sep| <= ItemStart(l, j)
      && Render(l)[ItemStart(l, j) - |l.rest[j - 1].sep|..ItemStart(l, j)] == l.rest[j - 1].sep
  {
    var t, k, s := Render(l), 1 + |l.leftGap|, l.first + Tail(l.rest);
    ItemsRun(l);
    if j == 0 {
      RenderShape(l);
    } else {
      ItemInText(t, k, l.first, l.rest, j, s);
      SepInText(t, k, l.first, l.rest, j, s);
    }
  }

  /** Item `j` (one after the first) of the items and separators that a text holds at `k`. */
  lemma ItemInText(t: string, k: nat, first: string, rest: seq<Pair>, j: nat, s: string)
    requires 0 < j <= |rest| && s == first + Tail(rest)
    requires k + |s| <= |t| && t[k..k + |s|] == s
    ensures k + ItemOffset(first, rest, j) + |rest[j - 1].item| <= k + |s|
    ensures t[k + ItemOffset(first, rest, j)..k + ItemOffset(first, rest, j) + |rest[j - 1].item|] == rest[j - 1].item
  {
    ItemInTail(first, rest, j, s);
    SliceIn(t, k, s, ItemOffset(first, rest, j), ItemOffset(first, rest, j) + |rest[j - 1].item|);
  }

  /** The separator before item `j` of the items and separators that a text holds at `k`. */
  lemma SepInText(t: string, k: nat, first: string, rest: seq<Pair>, j: nat, s: string)
    requires 0 < j <= |rest| && s == first + Tail(rest)
    requires k + |s| <= |t| && t[k..k + |s|] == s
    ensures |rest[j - 1].sep| <= ItemOffset(first, rest, j) <= |s|
    ensures t[k + ItemOffset(first, rest, j) - |rest[j - 1].sep|..k + ItemOffset(first, rest, j)] == rest[j - 1].sep
  {
    SepInTail(first, rest, j, s);
    SliceIn(t, k, s, ItemOffset(first, rest, j) - |rest[j - 1].sep|, ItemOffset(first, rest, j));
  }

  /** The items and separators of a list run from just after the gap at `(` to the gap at `)`. */
  lemma ItemsRun(l: ParenList)
    requires l.Items?
    ensures var k, s := 1 + |l.leftGap|, l.first + Tail(l.rest);
      k + |s| == RightGapStart(l) <= |Render(l)| && Render(l)[k..k + |s|] == s
  {
    var s := l.first + Tail(l.rest);
    assert Render(l) == ("(" + l.leftGap) + s + (l.rightGap + ")");
  }

  /** A slice of a text that holds `s` at `k` is the matching slice of `s`. */
  lemma SliceIn(t: string, k: nat, s: string, a: nat, b: nat)
    requires k + |s| <= |t| && t[k..k + |s|] == s && a <= b <= |s|
    ensures t[k + a..k + b] == s[a..b]
  {
    forall i | 0 <= i < b - a ensures t[k + a..k + b][i] == s[a..b][i] {
      assert t[k..k + |s|][a + i] == s[a + i];
    }
  }

  /** Item `j` (one after the first) lies in `first + Tail(rest)` at `ItemOffset(first, rest, j)`. */
  lemma {:induction false} ItemInTail(first: string, rest: seq<Pair>, j: nat, s: string)
    requires 0 < j <= |rest| && s == first + Tail(rest)
    ensures ItemOffset(first, rest, j) + |rest[j - 1].item| <= |s|
    ensures s[ItemOffset(first, rest, j)..ItemOffset(first, rest, j) + |rest[j - 1].item|] == rest[j - 1].item
    decreases j
  {
    var s' := rest[0].item + Tail(rest[1..]);
    var k, x := |first| + |rest[0].sep|, rest[j - 1].item;
    TailStep(first, rest, s, s');
    var o' := if j == 1 then 0 else ItemOffset(rest[0].item, rest[1..], j - 1);
    if j == 1 {
      ConcatParts(rest[0].item, Tail(rest[1..]));
    } else {
      assert rest[1..][j - 2].item == x;
      ItemInTail(rest[0].item, rest[1..], j - 1, s');
    }
    assert ItemOffset(first, rest, j) == k + o';
    SliceIn(s, k, s', o', o' + |x|);
  }

  /** `first + Tail(rest)` is `first`, the first separator, then the text from the second item on. */
  lemma TailStep(first: string, rest: seq<Pair>, s: string, s': string)
    requires rest != [] && s == first + Tail(rest) && s' == rest[0].item + Tail(rest[1..])
    ensures |first| + |rest[0].sep| + |s'| == |s|
    ensures s[|first| + |rest[0].sep|..|s|] == s' && s[|first|..|first| + |rest[0].sep|] == rest[0].sep
  {
    var sep, t := rest[0].sep, Tail(rest[1..]);
    assert Tail(rest) == sep + rest[0].item + t;
    ConcatAssoc(sep, rest[0].item, t);
    assert Tail(rest) == sep + s';
    ConcatAssoc(first, sep, s');
    ConcatParts(first + sep, s');
    ConcatParts(first, sep);
    assert s[..|first| + |sep|] == first + sep;
    assert s[|first|..|first| + |sep|] == (first + sep)[|first|..];
  }

  /** The two halves of a concatenation. */
  lemma ConcatParts(x: string, y: string)
    ensures (x + y)[..|x|] == x && (x + y)[|x|..] == y
  {
  }

  /** The separator before item `j` ends at `ItemOffset(first, rest, j)` in `first + Tail(rest)`. */
  lemma {:induction false} SepInTail(first: string, rest: seq<Pair>, j: nat, s: string)
    requires 0 < j <= |rest| && s == first + Tail(rest)
    ensures |rest[j - 1].sep| <= ItemOffset(first, rest, j) <= |s|
    ensures s[ItemOffset(first, rest, j) - |rest[j - 1].sep|..ItemOffset(first, rest, j)] == rest[j - 1].sep
    decreases j
  {
    var s' := rest[0].item + Tail(rest[1..]);
    var k := |first| + |rest[0].sep|;
    TailStep(first, rest, s, s');
    if j > 1 {
      var p := rest[j - 1].sep;
      assert rest[1..][j - 2].sep == p;
      SepInTail(rest[0].item, rest[1..], j - 1, s');
      var o' := ItemOffset(rest[0].item, rest[1..], j - 1);
      SliceIn(s, k, s', o' - |p|, o');
    }
  }

  /** The rendered list opens with `(`, closes with `)`, and the gaps sit where the offsets say. */
  lemma RenderShape(l: ParenList)
    ensures |Render(l)| == CloseAt(l) + 1
    ensures Render(l)[0] == '(' && Render(l)[CloseAt(l)] == ')'
    ensures l.NoItems? ==> Render(l)[1..CloseAt(l)] == l.gap
    ensures l.Items? ==> Render(l)[1..1 + |l.leftGap|] == l.leftGap
    ensures l.Items? ==> Render(l)[1 + |l.leftGap|..1 + |l.leftGap| + |l.first|] == l.first
    ensures l.Items? ==> Render(l)[1 + |l.leftGap| + |l.first|..RightGapStart(l)] == Tail(l.rest)
    ensures l.Items? ==> Render(l)[RightGapStart(l)..CloseAt(l)] == l.rightGap
  {
    match l
    case NoItems(g) =>
    case Items(lg, first, rest, rg) =>
      var t := Render(l);
      assert t == "(" + lg + (first + Tail(rest)) + rg + ")";
  }
}
