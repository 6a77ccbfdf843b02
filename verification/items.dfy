/** The tag entries the widget lays out (the inner class ItemData of HashtagView),
    and the width arithmetic the measure phase applies to each of them. */
module Items {

  datatype Option<+T> = None | Some(value: T)

  /** One tag: the optional payload it was built from, its display title and its
      measured width in pixels. The rendered view the widget attaches to it is not
      part of this model. */
  datatype Item<T> = Item(data: Option<T>, title: string, width: nat)

  /** Math.max on two widths: the larger of the two. */
  function MaxWidth(a: nat, b: nat): (m: nat)
    ensures m >= a && m >= b
    ensures m == a || m == b
  {
    if a >= b then a else b
  }

  /** The sum of the widths of the items, added up from the front. */
  function TotalWidth<T>(s: seq<Item<T>>): nat
  {
    if s == [] then 0 else TotalWidth(s[..|s| - 1]) + s[|s| - 1].width
  }

  /** No item is wider than the sum of the widths. */
  lemma {:induction false} TotalWidthBounds<T>(s: seq<Item<T>>, k: nat)
    requires k < |s|
    ensures s[k].width <= TotalWidth(s)
  {
    if k < |s| - 1 {
      TotalWidthBounds(s[..|s| - 1], k);
    }
  }

  lemma TotalWidthSnoc<T>(s: seq<Item<T>>, x: Item<T>)
    ensures TotalWidth(s + [x]) == TotalWidth(s) + x.width
  {
    assert (s + [x])[..|s|] == s;
  }

  /** `s` without its element at index `k`: what ArrayList.remove does. */
  function Remove<T>(s: seq<T>, k: nat): (r: seq<T>)
    requires k < |s|
    ensures |r| == |s| - 1
    ensures multiset(r) + multiset{s[k]} == multiset(s)
    ensures forall j :: 0 <= j < k ==> r[j] == s[j]
    ensures forall j :: k <= j < |r| ==> r[j] == s[j + 1]
  {
    assert s == s[..k] + [s[k]] + s[k + 1..];
    s[..k] + s[k + 1..]
  }

  /** The width wrap gives a tag: its text width plus the item's paddings and
      margins, but never less than the minimum item width. */
  function ItemWidth(textWidth: nat, offset: nat, minWidth: nat): (w: nat)
    ensures w >= textWidth + offset && w >= minWidth
    ensures w == textWidth + offset || w == minWidth
  {
    MaxWidth(textWidth + offset, minWidth)
  }

  /** One tag as wrap leaves it: payload and title as they were, the width
      ItemWidth gives its title. */
  function MeasuredItem<T>(x: Item<T>, measure: string -> nat, offset: nat, minWidth: nat): (y: Item<T>)
    ensures y.data == x.data && y.title == x.title
    ensures y.width >= minWidth && y.width >= measure(x.title) + offset
    ensures y.width == minWidth || y.width == measure(x.title) + offset
  {
    x.(width := ItemWidth(measure(x.title), offset, minWidth))
  }

  /** The items after wrap has measured them, in their order. */
  function Measured<T>(s: seq<Item<T>>, measure: string -> nat, offset: nat, minWidth: nat): (r: seq<Item<T>>)
    ensures |r| == |s|
    ensures forall k :: 0 <= k < |s| ==> r[k] == MeasuredItem(s[k], measure, offset, minWidth)
  {
    seq(|s|, k requires 0 <= k < |s| => MeasuredItem(s[k], measure, offset, minWidth))
  }

  /** A list that holds the measured form of each item of `s` is Measured(s). */
  lemma MeasuredPointwise<T>(s: seq<Item<T>>, r: seq<Item<T>>, measure: string -> nat, offset: nat, minWidth: nat)
    requires |r| == |s|
    requires forall j :: 0 <= j < |s| ==> r[j] == MeasuredItem(s[j], measure, offset, minWidth)
    ensures r == Measured(s, measure, offset, minWidth)
  {
  }

  lemma MulSucc(n: nat, m: nat)
    ensures n * m + m == (n + 1) * m
  {
  }

  lemma {:induction false} MulMonotone(a: nat, b: nat, m: nat)
    requires a <= b
    ensures a * m <= b * m
  {
    if a < b {
      MulMonotone(a, b - 1, m);
      MulSucc(b - 1, m);
    }
  }

  /** Every measured tag is at least the minimum width, so the total is at least
      that many minimum widths. */
  lemma {:induction false} MeasuredTotalAtLeast<T>(s: seq<Item<T>>, measure: string -> nat, offset: nat, minWidth: nat)
    ensures TotalWidth(Measured(s, measure, offset, minWidth)) >= |s| * minWidth
  {
    if s != [] {
      var n := |s|;
      var r := Measured(s, measure, offset, minWidth);
      MeasuredTotalAtLeast(s[..n - 1], measure, offset, minWidth);
      assert r[..n - 1] == Measured(s[..n - 1], measure, offset, minWidth);
      assert TotalWidth(r) >= (n - 1) * minWidth + minWidth;
      MulSucc(n - 1, minWidth);
    }
  }
}
