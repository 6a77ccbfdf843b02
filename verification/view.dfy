/** The widget HashtagView: the tag list it is given (setData), the measure
    phase that gives every tag its width (wrap) and the packing of the tags
    into rows (sort). */
module View {
  import opened Items
  import opened Titles
  import opened Packing

  /** How sort ends. Done: every tag is in a row. Diverges: a pass over the
      rows placed nothing, and the source's loop would repeat that pass
      forever. BadRowsCount: the row estimate is infinite or negative and
      allocating rowsWidth throws. NullData: setData was never called and
      sort dereferences a null list. */
  datatype SortOutcome = Done | Diverges | BadRowsCount | NullData

  /** The tags setData(List<String>) builds: one per title, without payload,
      not yet measured. */
  function FromTitles<T>(list: seq<string>): (r: seq<Item<T>>)
    ensures |r| == |list|
    ensures forall k :: 0 <= k < |list| ==> r[k].data == None && r[k].title == list[k] && r[k].width == 0
  {
    seq(|list|, k requires 0 <= k < |list| => Item(None, list[k], 0))
  }

  /** The tags setData(List<T>, DataTransform<T>) builds: one per element,
      carrying it as payload and titled by the transform. */
  function FromData<T>(list: seq<T>, prepare: T -> string): (r: seq<Item<T>>)
    ensures |r| == |list|
    ensures forall k :: 0 <= k < |list| ==> r[k].data == Some(list[k]) && r[k].title == prepare(list[k]) && r[k].width == 0
  {
    seq(|list|, k requires 0 <= k < |list| => Item(Some(list[k]), prepare(list[k]), 0))
  }

  lemma {:induction false} TitlesOfFromTitles<T>(list: seq<string>)
    ensures TitlesOf(FromTitles<T>(list)) == list
  {
    if list != [] {
      TitlesOfFromTitles<T>(list[1..]);
      assert FromTitles<T>(list)[1..] == FromTitles<T>(list[1..]);
    }
  }

  /** After setData(List<String>) the tags are the given titles, each once per
      occurrence, in ascending compareTo order, with no payload and no width
      yet. */
  lemma SetDataEntries<T>(list: seq<string>)
    ensures var r := SortByTitle(FromTitles<T>(list));
      && |r| == |list|
      && Sorted(r)
      && multiset(TitlesOf(r)) == multiset(list)
      && forall k :: 0 <= k < |r| ==> r[k].data == None && r[k].width == 0
  {
    var items := FromTitles<T>(list);
    var r := SortByTitle(items);
    SortKeepsTitles(items);
    TitlesOfFromTitles<T>(list);
    forall k | 0 <= k < |r| ensures r[k].data == None && r[k].width == 0 {
      assert r[k] in multiset(items);
    }
  }

  /** After setData(List<T>, DataTransform<T>) the tags are in ascending
      compareTo order, each carries an element of the list as payload and is
      titled by the transform of that element, no element is lost or
      duplicated, and elements with equal titles keep the list's order. */
  lemma SetDataTransformedEntries<T>(list: seq<T>, prepare: T -> string)
    ensures var r := SortByTitle(FromData(list, prepare));
      && |r| == |list|
      && Sorted(r)
      && multiset(r) == multiset(FromData(list, prepare))
      && (forall k :: 0 <= k < |r| ==>
            r[k].data.Some? && r[k].data.value in list && r[k].title == prepare(r[k].data.value) && r[k].width == 0)
      && forall t :: WithTitle(r, t) == WithTitle(FromData(list, prepare), t)
  {
    var items := FromData(list, prepare);
    var r := SortByTitle(items);
    forall k | 0 <= k < |r|
      ensures r[k].data.Some? && r[k].data.value in list && r[k].title == prepare(r[k].data.value) && r[k].width == 0
    {
      assert r[k] in multiset(items);
      var j :| 0 <= j < |items| && items[j] == r[k];
      assert r[k].data.value == list[j];
    }
    forall t ensures WithTitle(r, t) == WithTitle(items, t) {
      SortIsStable(items, t);
    }
  }

  /** wrap changes widths only: the titles, and with them the order setData
      established, are kept. */
  lemma {:induction false} MeasuredKeepsOrder<T>(s: seq<Item<T>>, measure: string -> nat, offset: nat, minWidth: nat)
    ensures TitlesOf(Measured(s, measure, offset, minWidth)) == TitlesOf(s)
    ensures Sorted(s) ==> Sorted(Measured(s, measure, offset, minWidth))
  {
    if s != [] {
      MeasuredKeepsOrder(s[1..], measure, offset, minWidth);
      assert Measured(s, measure, offset, minWidth)[1..] == Measured(s[1..], measure, offset, minWidth);
    }
  }

  /** The viewMap sort builds from a layout of rowsCount rows: every key is a
      row index below rowsCount, holds a non-empty row, and the widths under it
      add up to less than the view width. */
  lemma ViewMapRows<T>(items: seq<Item<T>>, rowsCount: nat, viewWidth: int)
    ensures var m := Multimap(Pack(Initial(rowsCount, items), viewWidth).final.rows);
      forall i :: i in m ==> i < rowsCount && m[i] != [] && TotalWidth(m[i]) < viewWidth
  {
    PackPartitions(items, rowsCount, viewWidth);
  }

  /** The loop of wrap: each tag in turn gets its measured width, and the
      widths are summed as they are given. */
  method MeasureEach<T>(items: seq<Item<T>>, measure: string -> nat, offset: nat, minWidth: nat)
    returns (measured: seq<Item<T>>, sum: nat)
    ensures measured == Measured(items, measure, offset, minWidth)
    ensures sum == TotalWidth(measured)
  {
    measured, sum := items, 0;
    for k := 0 to |items|
      invariant |measured| == |items|
      invariant forall j :: 0 <= j < k ==> measured[j] == MeasuredItem(items[j], measure, offset, minWidth)
      invariant forall j :: k <= j < |items| ==> measured[j] == items[j]
      invariant sum == TotalWidth(measured[..k])
    {
      var item := measured[k];
      var width := ItemWidth(measure(item.title), offset, minWidth);
      ghost var done := measured[..k];
      measured := measured[k := item.(width := width)];
      assert measured[..k + 1] == done + [measured[k]];
      TotalWidthSnoc(done, measured[k]);
      sum := sum + width;
    }
    assert measured[..|items|] == measured;
    MeasuredPointwise(items, measured, measure, offset, minWidth);
  }

  class HashtagView<T> {
    /** The tags still to place; None until setData is called. */
    var data: Option<seq<Item<T>>>
    /** The rows sort built: row index to the tags in it, in placement order. */
    var viewMap: map<nat, seq<Item<T>>>
    var itemMargin: nat
    var itemPaddingLeft: nat
    var itemPaddingRight: nat
    var minItemWidth: nat
    /** The running sum of the widths wrap has measured. */
    var totalItemsWidth: nat

    /** The widget as its constructor leaves it, with the item dimensions read
        from its attributes. */
    constructor (itemMargin: nat, itemPaddingLeft: nat, itemPaddingRight: nat, minItemWidth: nat)
      ensures this.itemMargin == itemMargin && this.itemPaddingLeft == itemPaddingLeft
      ensures this.itemPaddingRight == itemPaddingRight && this.minItemWidth == minItemWidth
      ensures data == None && viewMap == map[] && totalItemsWidth == 0
    {
      this.itemMargin := itemMargin;
      this.itemPaddingLeft := itemPaddingLeft;
      this.itemPaddingRight := itemPaddingRight;
      this.minItemWidth := minItemWidth;
      data := None;
      viewMap := map[];
      totalItemsWidth := 0;
    }

    /** setData(List<String>): a fresh list with one tag per title, then sorted
        by title. */
    method SetData(list: seq<string>)
      modifies this`data
      ensures data == Some(SortByTitle(FromTitles(list)))
      ensures Sorted(data.value) && multiset(TitlesOf(data.value)) == multiset(list)
    {
      var items: seq<Item<T>> := [];
      for k := 0 to |list|
        invariant items == FromTitles(list[..k])
      {
        items := items + [Item(None, list[k], 0)];
      }
      assert list[..|list|] == list;
      data := Some(SortByTitle(items));
      SetDataEntries<T>(list);
    }

    /** setData(List<T>, DataTransform<T>): a fresh list with one tag per
        element, titled by the transform, then sorted by title. */
    method SetDataTransformed(list: seq<T>, prepare: T -> string)
      modifies this`data
      ensures data == Some(SortByTitle(FromData(list, prepare)))
      ensures Sorted(data.value) && |data.value| == |list|
    {
      var items: seq<Item<T>> := [];
      for k := 0 to |list|
        invariant items == FromData(list[..k], prepare)
      {
        items := items + [Item(Some(list[k]), prepare(list[k]), 0)];
      }
      assert list[..|list|] == list;
      data := Some(SortByTitle(items));
    }

    /** wrap: with no tags, nothing happens; otherwise every tag gets its
        width, in place and in order, and the widths are added to
        totalItemsWidth (which is never reset). */
    method Wrap(measure: string -> nat)
      modifies this`data, this`totalItemsWidth
      ensures old(data).None? || old(data).value == [] ==>
        data == old(data) && totalItemsWidth == old(totalItemsWidth)
      ensures old(data).Some? && old(data).value != [] ==>
        && data == Some(Measured(old(data).value, measure, itemPaddingLeft + itemPaddingRight + 2 * itemMargin, minItemWidth))
        && totalItemsWidth == old(totalItemsWidth) + TotalWidth(data.value)
    {
      if data.None? || data.value == [] {
        return;
      }
      var measured, sum := MeasureEach(data.value, measure, itemPaddingLeft + itemPaddingRight + 2 * itemMargin, minItemWidth);
      data := Some(measured);
      totalItemsWidth := totalItemsWidth + sum;
    }

    /** sort: estimates the number of rows from totalItemsWidth and the inner
        width, then packs the tags into rows as Pack does (the fit test uses
        the full view width), moving each placed tag from data into viewMap. */
    method Sort(width: int, paddingLeft: int, paddingRight: int) returns (outcome: SortOutcome)
      modifies this`data, this`viewMap
      ensures RowsEstimate(totalItemsWidth, width - paddingLeft - paddingRight).None? ==>
        outcome == BadRowsCount && data == old(data) && viewMap == old(viewMap)
      ensures RowsEstimate(totalItemsWidth, width - paddingLeft - paddingRight).Some? && old(data).None? ==>
        outcome == NullData && data == old(data) && viewMap == old(viewMap)
      ensures var est := RowsEstimate(totalItemsWidth, width - paddingLeft - paddingRight);
        est.Some? && old(data).Some? ==>
          var p := Pack(Initial(est.value, old(data).value), width);
          && outcome == (if p.Packed? then Done else Diverges)
          && data == Some(p.final.data)
          && viewMap == Multimap(p.final.rows)
    {
      var est := RowsEstimate(totalItemsWidth, width - paddingLeft - paddingRight);
      if est.None? {
        return BadRowsCount;
      }
      var rowsCount := est.value;
      var rowsWidth := new nat[rowsCount](_ => 0);
      if data.None? {
        return NullData;
      }
      viewMap := map[];
      ghost var rows: seq<seq<Item<T>>> := seq(rowsCount, _ => []);
      ghost var start := Initial(rowsCount, data.value);
      assert Layout(rowsWidth[..], rows, data.value) == start;
      assert viewMap == Multimap(rows);
      while data.value != []
        invariant data.Some? && |rows| == rowsWidth.Length == rowsCount
        invariant viewMap == Multimap(rows)
        invariant Pack(Layout(rowsWidth[..], rows, data.value), width) == Pack(start, width)
        decreases |data.value|
      {
        ghost var before := Layout(rowsWidth[..], rows, data.value);
        var remaining := |data.value|;
        rows := PlacePass(rowsWidth, width, rows);
        if |data.value| == remaining {
          PassProgress(before, 0, width);
          return Diverges;
        }
        PackAfterPass(before, width);
      }
      return Done;
    }

    /** One run of sort's labelled for loop (rowIteration): every row in
        turn takes the first remaining tag that fits. */
    method PlacePass(rowsWidth: array<nat>, width: int, ghost rows: seq<seq<Item<T>>>) returns (ghost rows': seq<seq<Item<T>>>)
      requires data.Some? && |rows| == rowsWidth.Length && viewMap == Multimap(rows)
      modifies this`data, this`viewMap, rowsWidth
      ensures data.Some? && |rows'| == rowsWidth.Length && viewMap == Multimap(rows')
      ensures Layout(rowsWidth[..], rows', data.value) == Pass(Layout(old(rowsWidth[..]), rows, old(data).value), 0, width)
    {
      ghost var before := Layout(rowsWidth[..], rows, data.value);
      rows' := rows;
      for i := 0 to rowsWidth.Length
        invariant data.Some? && |rows'| == rowsWidth.Length && viewMap == Multimap(rows')
        invariant Pass(Layout(rowsWidth[..], rows', data.value), i, width) == Pass(before, 0, width)
      {
        rows' := TakeFirstFit(rowsWidth, i, width, rows');
      }
    }

    /** Row i's turn: the iterator scan over data. The first tag that fits is
        placed in row i, and that ends the row's turn (the source's continue
        rowIteration); a scan that reaches the end places nothing. */
    method TakeFirstFit(rowsWidth: array<nat>, i: nat, width: int, ghost rows: seq<seq<Item<T>>>) returns (ghost rows': seq<seq<Item<T>>>)
      requires data.Some? && i < rowsWidth.Length == |rows| && viewMap == Multimap(rows)
      modifies this`data, this`viewMap, rowsWidth
      ensures data.Some? && |rows'| == rowsWidth.Length && viewMap == Multimap(rows')
      ensures Layout(rowsWidth[..], rows', data.value) == Step(Layout(old(rowsWidth[..]), rows, old(data).value), i, width)
    {
      ghost var cur := Layout(rowsWidth[..], rows, data.value);
      rows' := rows;
      var j := 0;
      while j < |data.value|
        invariant data == Some(cur.data) && rowsWidth[..] == cur.rowsWidth && rows' == rows && viewMap == Multimap(rows)
        invariant j <= |data.value|
        invariant FirstFitFrom(data.value, rowsWidth[i], width, j) == FirstFitFrom(data.value, rowsWidth[i], width, 0)
      {
        var item := data.value[j];
        if rowsWidth[i] + item.width < width {
          StepTakesFirstFitAt(cur, i, width, j);
          rows' := PlaceAt(rowsWidth, i, j, rows);
          return;
        }
        j := j + 1;
      }
      StepFindsNoFit(cur, i, width);
    }

    /** Placing tag j in row i: the row's width grows by the tag's, the tag is
        put under key i of viewMap, and it leaves data. */
    method PlaceAt(rowsWidth: array<nat>, i: nat, j: nat, ghost rows: seq<seq<Item<T>>>) returns (ghost rows': seq<seq<Item<T>>>)
      requires data.Some? && i < rowsWidth.Length == |rows| && j < |data.value| && viewMap == Multimap(rows)
      modifies this`data, this`viewMap, rowsWidth
      ensures data.Some? && viewMap == Multimap(rows')
      ensures rowsWidth[..] == old(rowsWidth[..])[i := old(rowsWidth[..])[i] + old(data).value[j].width]
      ensures rows' == rows[i := rows[i] + [old(data).value[j]]]
      ensures data.value == Remove(old(data).value, j)
    {
      var item := data.value[j];
      rowsWidth[i] := rowsWidth[i] + item.width;
      PutAppends(rows, i, item);
      viewMap := Put(viewMap, i, item);
      rows' := rows[i := rows[i] + [item]];
      data := Some(Remove(data.value, j));
    }
  }

  /** With two empty rows and the first two remaining tags each narrower than
      the view, the first pass puts the first tag in row 0 and the second in
      row 1. */
  lemma FirstPassFillsEachRow<T>(L: Layout<T>, viewWidth: int)
    requires |L.rows| == |L.rowsWidth| == 2 && L.rows[0] == L.rows[1] == [] && L.rowsWidth[0] == L.rowsWidth[1] == 0
    requires |L.data| >= 2 && L.data[0].width < viewWidth && L.data[1].width < viewWidth
    ensures var P := Pass(L, 0, viewWidth);
      && |P.rows| == |P.rowsWidth| == 2
      && P.rows[0] == [L.data[0]] && P.rows[1] == [L.data[1]]
      && P.rowsWidth[0] == L.data[0].width && P.rowsWidth[1] == L.data[1].width
      && P.data == L.data[2..]
  {
    var S1 := Step(L, 0, viewWidth);
    StepTakesFirst(L, 0, viewWidth);
    var S2 := Step(S1, 1, viewWidth);
    StepTakesFirst(S1, 1, viewWidth);
    assert S2.data == L.data[2..];
    assert Pass(L, 0, viewWidth) == Pass(S1, 1, viewWidth) == Pass(S2, 2, viewWidth) == S2;
  }

  /** With no tags the total width is 0, so the estimate is 0 rows whatever
      the inner width, and from any number of empty rows sort ends at once with
      every tag placed and no key in viewMap. */
  lemma SortOfNoTags<T>(rowsCount: nat, innerWidth: int, viewWidth: int)
    ensures RowsEstimate(0, innerWidth) == Some(0)
    ensures var p := Pack(Initial<T>(rowsCount, []), viewWidth);
      p.Packed? && p.final.data == [] && Multimap(p.final.rows) == map[]
  {
  }

  /** Three tags of width 50 in a view 120 wide without padding: the estimate
      is two rows, the first pass puts one tag in each row, the second adds the
      last tag to row 0 (50 + 50 < 120), and sort ends with every tag placed:
      row 0 holds the first and third tag (width 100), row 1 the second (width
      50). */
  lemma SortPacksThreeTags<T>(a: Item<T>, b: Item<T>, c: Item<T>)
    requires a.width == b.width == c.width == 50
    ensures RowsEstimate(150, 120) == Some(2)
    ensures var p := Pack(Initial(2, [a, b, c]), 120);
      && p.Packed?
      && |p.final.rows| == 2 && p.final.rows[0] == [a, c] && p.final.rows[1] == [b]
      && |p.final.rowsWidth| == 2 && p.final.rowsWidth[0] == 100 && p.final.rowsWidth[1] == 50
  {
    var L0 := Initial(2, [a, b, c]);
    assert L0.data == [a, b, c];
    FirstPassFillsEachRow(L0, 120);
    var L2 := Pass(L0, 0, 120);
    assert L2.data == [c] && L2.rows[0] == [a] && L2.rows[1] == [b];
    assert |L2.rowsWidth| == 2 && L2.rowsWidth[0] == 50 && L2.rowsWidth[1] == 50;
    PackAfterPass(L0, 120);
    StepTakesFirst(L2, 0, 120);
    var L3 := Step(L2, 0, 120);
    assert L3.data == [];
    StepFindsNoFit(L3, 1, 120);
    assert Pass(L2, 0, 120) == Pass(L3, 1, 120) == Pass(L3, 2, 120) == L3;
    PackAfterPass(L2, 120);
    assert Pack(L0, 120) == Pack(L3, 120) == Packed(L3);
    assert L3.rows[0] == [a] + [c] == [a, c] && L3.rows[1] == [b];
    assert |L3.rowsWidth| == 2 && L3.rowsWidth[0] == 100 && L3.rowsWidth[1] == 50;
  }

  /** Three tags of width 60 in a view 100 wide without padding: the estimate
      is two rows, the first pass fills both, and the third tag fits neither
      (60 + 60 is not below 100), so the source's loop never ends. */
  lemma SortLoopsOnThreeTags<T>(a: Item<T>, b: Item<T>, c: Item<T>)
    requires a.width == b.width == c.width == 60
    ensures RowsEstimate(180, 100) == Some(2)
    ensures var p := Pack(Initial(2, [a, b, c]), 100);
      && p.Stuck?
      && |p.final.rows| == 2 && p.final.rows[0] == [a] && p.final.rows[1] == [b]
      && p.final.data == [c]
  {
    var L0 := Initial(2, [a, b, c]);
    FirstPassFillsEachRow(L0, 100);
    var L2 := Pass(L0, 0, 100);
    assert L2.data == [c];
    PackAfterPass(L0, 100);
    StepFindsNoFit(L2, 0, 100);
    StepFindsNoFit(L2, 1, 100);
    assert Pass(L2, 0, 100) == Pass(L2, 1, 100) == Pass(L2, 2, 100) == L2;
  }
}
