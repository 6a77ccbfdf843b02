/** The row packing of HashtagView.sort as functions on values: the row-count
    estimate, the admission test, one row's turn (Step), one pass over all rows
    (Pass) and the outer loop (Pack), with the facts the widget relies on. */
module Packing {
  import opened Items

  /** What sort works on: the accumulated width of every row (the int[]
      rowsWidth, whose entries only ever grow from 0), the items of every row
      in the order they were put, and the items still to place (the list
      data). The multimap viewMap is derived from the rows by Multimap. */
  datatype Layout<T> = Layout(rowsWidth: seq<nat>, rows: seq<seq<Item<T>>>, data: seq<Item<T>>)

  /** How the outer loop ends: every item placed, or a pass that placed
      nothing, after which the source's loop repeats that same pass forever. */
  datatype Packing<T> = Packed(final: Layout<T>) | Stuck(final: Layout<T>)

  /** More width to lay out never means fewer rows. */
  lemma {:induction false} RowsCountMonotone(t1: nat, t2: nat, innerWidth: nat)
    requires innerWidth > 0 && t1 <= t2
    ensures RowsCount(t1, innerWidth) <= RowsCount(t2, innerWidth)
  {
    var n1, n2 := RowsCount(t1, innerWidth), RowsCount(t2, innerWidth);
    if n2 < n1 {
      MulMonotone(n2, n1 - 1, innerWidth);
    }
  }

  /** ceil(total / innerWidth), the estimated number of rows. */
  function RowsCount(total: nat, innerWidth: nat): (n: nat)
    requires innerWidth > 0
    ensures n * innerWidth >= total
    ensures n > 0 ==> (n - 1) * innerWidth < total
  {
    var n := (total + innerWidth - 1) / innerWidth;
    assert n * innerWidth + (total + innerWidth - 1) % innerWidth == total + innerWidth - 1;
    n
  }

  /** (int) Math.ceil(total / innerWidth) with the division done in floating
      point. A zero total gives a zero (or NaN) quotient and 0 rows; so does a
      negative inner width wider than the total, whose quotient lies in (-1, 0).
      Any other non-positive inner width gives an infinite or negative count,
      and allocating rowsWidth then throws: None. */
  function RowsEstimate(total: nat, innerWidth: int): (n: Option<nat>)
    ensures n.None? <==> total > 0 && (innerWidth == 0 || (innerWidth < 0 && total >= -innerWidth))
    ensures n.Some? && innerWidth > 0 ==> n.value * innerWidth >= total && (n.value > 0 ==> (n.value - 1) * innerWidth < total)
    ensures n.Some? && innerWidth <= 0 ==> n.value == 0
  {
    if total == 0 then Some(0)
    else if innerWidth > 0 then Some(RowsCount(total, innerWidth))
    else if innerWidth < 0 && total < -innerWidth then Some(0)
    else None
  }

  /** The state sort starts from: rowsCount empty rows of width 0, with every
      item still to place. */
  function Initial<T>(rowsCount: nat, items: seq<Item<T>>): Layout<T>
  {
    Layout(seq(rowsCount, _ => 0), seq(rowsCount, _ => []), items)
  }

  /** Sort's starting state has rowsCount rows, each empty and of width 0,
      all the items still to place, and a viewMap with no key. */
  lemma InitialIsEmpty<T>(rowsCount: nat, items: seq<Item<T>>)
    ensures var r := Initial(rowsCount, items);
      && Shaped(r) && |r.rows| == rowsCount && r.data == items
      && (forall i :: 0 <= i < rowsCount ==> r.rowsWidth[i] == 0 && r.rows[i] == [])
      && Multimap(r.rows) == map[]
  {
    var r := Initial(rowsCount, items);
    assert forall i: nat :: i !in Multimap(r.rows);
  }

  /** The rows as the multimap viewMap holds them: a key for every non-empty
      row, mapped to that row's items in insertion order. */
  function Multimap<T>(rows: seq<seq<Item<T>>>): (m: map<nat, seq<Item<T>>>)
    ensures forall i: nat :: i in m ==> i < |rows| && m[i] == rows[i] && rows[i] != []
    ensures forall i :: 0 <= i < |rows| && rows[i] != [] ==> i in m
  {
    map i: nat | i < |rows| && rows[i] != [] :: rows[i]
  }

  /** Multimap.put: appends x to the values under key i. */
  function Put<T>(m: map<nat, seq<Item<T>>>, i: nat, x: Item<T>): (r: map<nat, seq<Item<T>>>)
    ensures r.Keys == m.Keys + {i}
    ensures |r[i]| == (if i in m then |m[i]| else 0) + 1 && r[i][|r[i]| - 1] == x
    ensures i in m ==> r[i][..|m[i]|] == m[i]
    ensures forall k :: k in m && k != i ==> r[k] == m[k]
  {
    m[i := (if i in m then m[i] else []) + [x]]
  }

  /** Putting x under key i is appending x to row i. */
  lemma PutAppends<T>(rows: seq<seq<Item<T>>>, i: nat, x: Item<T>)
    requires i < |rows|
    ensures Put(Multimap(rows), i, x) == Multimap(rows[i := rows[i] + [x]])
  {
    var a, b := Put(Multimap(rows), i, x), Multimap(rows[i := rows[i] + [x]]);
    assert a.Keys == b.Keys;
  }

  /** The admission test: the row's width plus the item's stays strictly below
      the view width. */
  predicate Fits(used: int, w: nat, viewWidth: int)
  {
    used + w < viewWidth
  }

  /** A row that admits an item is below the view width, and an item at least
      as wide as the view fits no row of non-negative width. */
  lemma FitsBelowView(used: int, w: nat, viewWidth: int)
    ensures Fits(used, w, viewWidth) ==> used < viewWidth
    ensures used >= 0 && w >= viewWidth ==> !Fits(used, w, viewWidth)
  {
  }

  /** Index k holds the first item of `data` that fits a row of width `used`. */
  ghost predicate IsFirstFit<T>(data: seq<Item<T>>, used: int, viewWidth: int, k: nat)
  {
    && k < |data|
    && Fits(used, data[k].width, viewWidth)
    && forall j :: 0 <= j < k ==> !Fits(used, data[j].width, viewWidth)
  }

  /** The iterator scan over data from position j: the first item that fits. */
  function FirstFitFrom<T>(data: seq<Item<T>>, used: int, viewWidth: int, j: nat): (r: Option<nat>)
    requires j <= |data|
    ensures r.Some? ==> j <= r.value < |data| && Fits(used, data[r.value].width, viewWidth)
    ensures r.Some? ==> forall k :: j <= k < r.value ==> !Fits(used, data[k].width, viewWidth)
    ensures r.None? ==> forall k :: j <= k < |data| ==> !Fits(used, data[k].width, viewWidth)
    decreases |data| - j
  {
    if j == |data| then None
    else if Fits(used, data[j].width, viewWidth) then Some(j)
    else FirstFitFrom(data, used, viewWidth, j + 1)
  }

  /** rowsWidth and the rows describe the same rowsCount rows. */
  predicate Shaped<T>(L: Layout<T>)
  {
    |L.rows| == |L.rowsWidth|
  }

  /** Row i's turn in a pass: it takes the first remaining item that fits, if
      any; the item leaves data, joins the end of row i and adds its width. */
  function Step<T>(L: Layout<T>, i: nat, viewWidth: int): (r: Layout<T>)
    requires Shaped(L) && i < |L.rows|
    ensures Shaped(r) && |r.rows| == |L.rows|
    ensures |r.data| <= |L.data|
  {
    match FirstFitFrom(L.data, L.rowsWidth[i], viewWidth, 0)
    case None => L
    case Some(k) =>
      var x := L.data[k];
      Layout(L.rowsWidth[i := L.rowsWidth[i] + x.width], L.rows[i := L.rows[i] + [x]], Remove(L.data, k))
  }

  /** Row i admits the first item in list order that strictly fits, removes it
      from data and appends it to its own end, and nothing else changes; when
      no item fits, nothing changes at all. */
  lemma StepTakesFirstFit<T>(L: Layout<T>, i: nat, viewWidth: int)
    requires Shaped(L) && i < |L.rows|
    ensures var r := Step(L, i, viewWidth);
      |r.data| == |L.data| ==>
        r == L && forall k :: 0 <= k < |L.data| ==> !Fits(L.rowsWidth[i], L.data[k].width, viewWidth)
    ensures var r := Step(L, i, viewWidth);
      |r.data| != |L.data| ==>
        exists k: nat :: IsFirstFit(L.data, L.rowsWidth[i], viewWidth, k)
          && r.data == Remove(L.data, k)
          && r.rows == L.rows[i := L.rows[i] + [L.data[k]]]
          && r.rowsWidth == L.rowsWidth[i := L.rowsWidth[i] + L.data[k].width]
  {
    match FirstFitFrom(L.data, L.rowsWidth[i], viewWidth, 0)
    case None =>
    case Some(k) =>
      assert IsFirstFit(L.data, L.rowsWidth[i], viewWidth, k);
  }

  /** The scan's view of Step: when the scan from j finds the same item as
      the scan from 0 and item j fits, Step takes item j. */
  lemma StepTakesFirstFitAt<T>(L: Layout<T>, i: nat, viewWidth: int, j: nat)
    requires Shaped(L) && i < |L.rows| && j < |L.data|
    requires FirstFitFrom(L.data, L.rowsWidth[i], viewWidth, j) == FirstFitFrom(L.data, L.rowsWidth[i], viewWidth, 0)
    requires Fits(L.rowsWidth[i], L.data[j].width, viewWidth)
    ensures Step(L, i, viewWidth) == Layout(L.rowsWidth[i := L.rowsWidth[i] + L.data[j].width], L.rows[i := L.rows[i] + [L.data[j]]], Remove(L.data, j))
  {
  }

  /** When the first remaining item fits, the row's turn takes it. */
  lemma StepTakesFirst<T>(L: Layout<T>, i: nat, viewWidth: int)
    requires Shaped(L) && i < |L.rows| && L.data != [] && Fits(L.rowsWidth[i], L.data[0].width, viewWidth)
    ensures Step(L, i, viewWidth).data == L.data[1..]
    ensures Step(L, i, viewWidth).rows == L.rows[i := L.rows[i] + [L.data[0]]]
    ensures Step(L, i, viewWidth).rowsWidth == L.rowsWidth[i := L.rowsWidth[i] + L.data[0].width]
  {
  }

  /** When the scan reaches the end of data without a fit, Step changes
      nothing. */
  lemma StepFindsNoFit<T>(L: Layout<T>, i: nat, viewWidth: int)
    requires Shaped(L) && i < |L.rows|
    requires FirstFitFrom(L.data, L.rowsWidth[i], viewWidth, |L.data|) == FirstFitFrom(L.data, L.rowsWidth[i], viewWidth, 0)
    ensures Step(L, i, viewWidth) == L
  {
  }

  /** One pass of the for loop, over rows i, i+1, ..., rowsCount-1. */
  function Pass<T>(L: Layout<T>, i: nat, viewWidth: int): (r: Layout<T>)
    requires Shaped(L) && i <= |L.rows|
    ensures Shaped(r) && |r.rows| == |L.rows|
    ensures |r.data| <= |L.data|
    decreases |L.rows| - i
  {
    if i == |L.rows| then L else Pass(Step(L, i, viewWidth), i + 1, viewWidth)
  }

  /** The outer while loop: passes until data is empty, or until a pass places
      nothing. */
  function Pack<T>(L: Layout<T>, viewWidth: int): (p: Packing<T>)
    requires Shaped(L)
    ensures Shaped(p.final) && |p.final.rows| == |L.rows|
    ensures p.Packed? <==> p.final.data == []
    decreases |L.data|
  {
    if L.data == [] then Packed(L)
    else
      var next := Pass(L, 0, viewWidth);
      if |next.data| == |L.data| then Stuck(L) else Pack(next, viewWidth)
  }

  /** A pass that places something leaves the outer loop's result as it was. */
  lemma PackAfterPass<T>(L: Layout<T>, viewWidth: int)
    requires Shaped(L) && L.data != [] && |Pass(L, 0, viewWidth).data| != |L.data|
    ensures Pack(L, viewWidth) == Pack(Pass(L, 0, viewWidth), viewWidth)
  {
  }

  // ---------------------------------------------------------------------------
  // What a pass does

  /** A pass places nothing exactly when no remaining item fits any of the rows
      it visits, and then it changes nothing at all. */
  lemma {:induction false} PassProgress<T>(L: Layout<T>, i: nat, viewWidth: int)
    requires Shaped(L) && i <= |L.rows|
    ensures |Pass(L, i, viewWidth).data| == |L.data| <==>
      forall r, k :: i <= r < |L.rows| && 0 <= k < |L.data| ==> !Fits(L.rowsWidth[r], L.data[k].width, viewWidth)
    ensures |Pass(L, i, viewWidth).data| == |L.data| ==> Pass(L, i, viewWidth) == L
    decreases |L.rows| - i
  {
    if i < |L.rows| {
      var S := Step(L, i, viewWidth);
      assert Pass(L, i, viewWidth) == Pass(S, i + 1, viewWidth);
      match FirstFitFrom(L.data, L.rowsWidth[i], viewWidth, 0)
      case None =>
        assert S == L;
        PassProgress(L, i + 1, viewWidth);
      case Some(k) =>
        assert |S.data| == |L.data| - 1;
        assert Fits(L.rowsWidth[i], L.data[k].width, viewWidth);
    }
  }

  /** `after` is `before`, or `before` with one more item at its end. */
  ghost predicate AddsAtMostOne<T>(before: seq<Item<T>>, after: seq<Item<T>>)
  {
    after == before || (after != [] && after[..|after| - 1] == before)
  }

  /** On row i's turn, row j gains at most the one item at its end and never
      gets narrower, and any other row than i is left as it was. */
  lemma StepRowEffect<T>(L: Layout<T>, i: nat, viewWidth: int, j: nat)
    requires Shaped(L) && i < |L.rows| && j < |L.rows|
    ensures j != i ==> Step(L, i, viewWidth).rows[j] == L.rows[j] && Step(L, i, viewWidth).rowsWidth[j] == L.rowsWidth[j]
    ensures AddsAtMostOne(L.rows[j], Step(L, i, viewWidth).rows[j])
    ensures L.rowsWidth[j] <= Step(L, i, viewWidth).rowsWidth[j]
  {
    match FirstFitFrom(L.data, L.rowsWidth[i], viewWidth, 0)
    case None =>
    case Some(k) =>
      if j == i {
        var row := L.rows[i] + [L.data[k]];
        assert row[..|row| - 1] == L.rows[i];
      }
  }

  /** In one pass row j keeps what it had and gains at most one item at its
      end, and is left alone when the pass started after it. */
  lemma {:induction false} PassAddsAtMostOnePerRow<T>(L: Layout<T>, i: nat, viewWidth: int, j: nat)
    requires Shaped(L) && i <= |L.rows| && j < |L.rows|
    ensures AddsAtMostOne(L.rows[j], Pass(L, i, viewWidth).rows[j])
    ensures j < i ==> Pass(L, i, viewWidth).rows[j] == L.rows[j]
    decreases |L.rows| - i
  {
    if i < |L.rows| {
      var S := Step(L, i, viewWidth);
      StepRowEffect(L, i, viewWidth, j);
      PassAddsAtMostOnePerRow(S, i + 1, viewWidth, j);
      assert Pass(L, i, viewWidth) == Pass(S, i + 1, viewWidth);
    }
  }

  /** A pass never makes a row narrower, and leaves the width of a row it
      has not visited as it was. */
  lemma {:induction false} PassNeverNarrowsRows<T>(L: Layout<T>, i: nat, viewWidth: int, j: nat)
    requires Shaped(L) && i <= |L.rows| && j < |L.rows|
    ensures L.rowsWidth[j] <= Pass(L, i, viewWidth).rowsWidth[j]
    ensures j < i ==> Pass(L, i, viewWidth).rowsWidth[j] == L.rowsWidth[j]
    decreases |L.rows| - i
  {
    if i < |L.rows| {
      var S := Step(L, i, viewWidth);
      StepRowEffect(L, i, viewWidth, j);
      PassNeverNarrowsRows(S, i + 1, viewWidth, j);
      assert Pass(L, i, viewWidth) == Pass(S, i + 1, viewWidth);
    }
  }

  // ---------------------------------------------------------------------------
  // What the packing keeps invariant

  /** The items placed so far: all rows, one after the other. */
  function Flatten<T>(rows: seq<seq<Item<T>>>): seq<Item<T>>
  {
    if rows == [] then [] else Flatten(rows[..|rows| - 1]) + rows[|rows| - 1]
  }

  lemma {:induction false} FlattenAppend<T>(rows: seq<seq<Item<T>>>, i: nat, x: Item<T>)
    requires i < |rows|
    ensures multiset(Flatten(rows[i := rows[i] + [x]])) == multiset(Flatten(rows)) + multiset{x}
  {
    var n := |rows|;
    var rows' := rows[i := rows[i] + [x]];
    if i == n - 1 {
      assert rows'[..n - 1] == rows[..n - 1];
    } else {
      FlattenAppend(rows[..n - 1], i, x);
      assert rows'[..n - 1] == rows[..n - 1][i := rows[i] + [x]];
    }
  }

  lemma {:induction false} FlattenEmptyRows<T>(n: nat)
    ensures Flatten(seq<seq<Item<T>>>(n, _ => [])) == []
  {
    if n > 0 {
      FlattenEmptyRows<T>(n - 1);
      assert seq<seq<Item<T>>>(n, _ => [])[..n - 1] == seq<seq<Item<T>>>(n - 1, _ => []);
    }
  }

  /** The shape sort keeps: a row's width is the sum of its items' widths, and
      a non-empty row is narrower than the view. */
  ghost predicate Consistent<T>(L: Layout<T>, viewWidth: int)
  {
    && Shaped(L)
    && (forall i :: 0 <= i < |L.rows| ==> L.rowsWidth[i] == TotalWidth(L.rows[i]))
    && (forall i :: 0 <= i < |L.rows| && L.rows[i] != [] ==> L.rowsWidth[i] < viewWidth)
  }

  /** No item is created or lost: what is placed plus what remains is fixed. */
  ghost predicate SameItems<T>(L: Layout<T>, L': Layout<T>)
  {
    multiset(Flatten(L'.rows)) + multiset(L'.data) == multiset(Flatten(L.rows)) + multiset(L.data)
  }

  lemma StepKeeps<T>(L: Layout<T>, i: nat, viewWidth: int)
    requires Consistent(L, viewWidth) && i < |L.rows|
    ensures Consistent(Step(L, i, viewWidth), viewWidth)
    ensures SameItems(L, Step(L, i, viewWidth))
  {
    match FirstFitFrom(L.data, L.rowsWidth[i], viewWidth, 0)
    case None =>
    case Some(k) =>
      var S := Step(L, i, viewWidth);
      var x := L.data[k];
      forall j | 0 <= j < |S.rows|
        ensures S.rowsWidth[j] == TotalWidth(S.rows[j])
        ensures S.rows[j] != [] ==> S.rowsWidth[j] < viewWidth
      {
        if j == i {
          TotalWidthSnoc(L.rows[i], x);
        }
      }
      FlattenAppend(L.rows, i, x);
  }

  lemma {:induction false} PassKeeps<T>(L: Layout<T>, i: nat, viewWidth: int)
    requires Consistent(L, viewWidth) && i <= |L.rows|
    ensures Consistent(Pass(L, i, viewWidth), viewWidth)
    ensures SameItems(L, Pass(L, i, viewWidth))
    decreases |L.rows| - i
  {
    if i < |L.rows| {
      StepKeeps(L, i, viewWidth);
      PassKeeps(Step(L, i, viewWidth), i + 1, viewWidth);
    }
  }

  lemma {:induction false} PackKeeps<T>(L: Layout<T>, viewWidth: int)
    requires Consistent(L, viewWidth)
    ensures Consistent(Pack(L, viewWidth).final, viewWidth)
    ensures SameItems(L, Pack(L, viewWidth).final)
    decreases |L.data|
  {
    if L.data != [] {
      var next := Pass(L, 0, viewWidth);
      if |next.data| != |L.data| {
        PassKeeps(L, 0, viewWidth);
        PackKeeps(next, viewWidth);
      }
    }
  }

  // ---------------------------------------------------------------------------
  // What sort ends with

  /** Packing from the initial state distributes the items over the rows: every
      item is in exactly one row or still waiting, all of them are in a row when
      it ends with Packed, each row's width is the sum of its items' widths and
      a non-empty row is narrower than the view. */
  lemma PackPartitions<T>(items: seq<Item<T>>, rowsCount: nat, viewWidth: int)
    ensures var p := Pack(Initial(rowsCount, items), viewWidth);
      && |p.final.rows| == |p.final.rowsWidth| == rowsCount
      && multiset(Flatten(p.final.rows)) + multiset(p.final.data) == multiset(items)
      && (p.Packed? ==> multiset(Flatten(p.final.rows)) == multiset(items))
      && (forall i :: 0 <= i < rowsCount ==> p.final.rowsWidth[i] == TotalWidth(p.final.rows[i]))
      && (forall i :: 0 <= i < rowsCount && p.final.rows[i] != [] ==> p.final.rowsWidth[i] < viewWidth)
  {
    var L := Initial(rowsCount, items);
    FlattenEmptyRows<T>(rowsCount);
    assert Consistent(L, viewWidth);
    PackKeeps(L, viewWidth);
  }

  /** When packing is stuck, items remain, none of them fits any row, and one
      more pass leaves everything as it is: the source's while loop never
      exits. */
  lemma {:induction false} StuckIsForever<T>(L: Layout<T>, viewWidth: int)
    requires Shaped(L) && Pack(L, viewWidth).Stuck?
    ensures var f := Pack(L, viewWidth).final;
      && f.data != []
      && Pass(f, 0, viewWidth) == f
      && forall r, k :: 0 <= r < |f.rows| && 0 <= k < |f.data| ==> !Fits(f.rowsWidth[r], f.data[k].width, viewWidth)
    decreases |L.data|
  {
    var next := Pass(L, 0, viewWidth);
    if |next.data| == |L.data| {
      PassProgress(L, 0, viewWidth);
    } else {
      StuckIsForever(next, viewWidth);
    }
  }

  lemma OversizedStaysInStep<T>(L: Layout<T>, i: nat, viewWidth: int, x: Item<T>)
    requires Shaped(L) && i < |L.rows| && x in L.data && x.width >= viewWidth
    ensures x in Step(L, i, viewWidth).data
  {
    var S := Step(L, i, viewWidth);
    StepTakesFirstFit(L, i, viewWidth);
    if |S.data| != |L.data| {
      var k: nat :| IsFirstFit(L.data, L.rowsWidth[i], viewWidth, k) && S.data == Remove(L.data, k);
      assert L.data[k] != x;
      assert x in multiset(L.data);
      assert x in multiset(S.data);
    }
  }

  lemma {:induction false} OversizedStaysInPass<T>(L: Layout<T>, i: nat, viewWidth: int, x: Item<T>)
    requires Shaped(L) && i <= |L.rows| && x in L.data && x.width >= viewWidth
    ensures x in Pass(L, i, viewWidth).data
    decreases |L.rows| - i
  {
    if i < |L.rows| {
      OversizedStaysInStep(L, i, viewWidth, x);
      OversizedStaysInPass(Step(L, i, viewWidth), i + 1, viewWidth, x);
    }
  }

  /** An item at least as wide as the view fits no row, so it is never placed
      and packing gets stuck. */
  lemma {:induction false} OversizedItemStays<T>(L: Layout<T>, viewWidth: int, x: Item<T>)
    requires Shaped(L) && x in L.data && x.width >= viewWidth
    ensures Pack(L, viewWidth).Stuck?
    ensures x in Pack(L, viewWidth).final.data
    decreases |L.data|
  {
    var next := Pass(L, 0, viewWidth);
    if |next.data| != |L.data| {
      OversizedStaysInPass(L, 0, viewWidth, x);
      OversizedItemStays(next, viewWidth, x);
    }
  }

  /** The same, from sort's initial state. */
  lemma OversizedItemNeverPacked<T>(items: seq<Item<T>>, rowsCount: nat, viewWidth: int, x: Item<T>)
    requires x in items && x.width >= viewWidth
    ensures Pack(Initial(rowsCount, items), viewWidth).Stuck?
  {
    OversizedItemStays(Initial(rowsCount, items), viewWidth, x);
  }
}
