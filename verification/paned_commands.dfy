/**
  The ttk::panedwindow pieces built on the layout algorithm: the size the
  widget requests, and the index logic of the `sashpos` and `identify`
  widget commands.
*/
module PanedCommands {
  import opened Wrappers
  import opened PanedLayout

  datatype Orient = Horizontal | Vertical

  /** What a managed window asks for, in pixels. */
  datatype SlaveRequest = SlaveRequest(width: int, height: int)

  /** The requested size of a slave along, and across, the widget's orientation. */
  function Along(o: Orient, s: SlaveRequest): int {
    if o == Horizontal then s.width else s.height
  }

  function Across(o: Orient, s: SlaveRequest): int {
    if o == Horizontal then s.height else s.width
  }

  /**
    PanedSize: along the orientation the widget asks for the panes' request
    sizes plus one sash between each two panes; across it, for the largest
    request of any slave (and never less than 0).
  */
  method PanedSize(ps: seq<Pane>, slaves: seq<SlaveRequest>, o: Orient, t: int) returns (width: int, height: int)
    requires |slaves| == |ps|
    ensures (if o == Horizontal then width else height) == SumReq(ps) + (|ps| - 1) * t
    ensures var cross := if o == Horizontal then height else width;
      && cross >= 0
      && (forall j :: 0 <= j < |ps| ==> Across(o, slaves[j]) <= cross)
      && (cross == 0 || exists j :: 0 <= j < |ps| && Across(o, slaves[j]) == cross)
  {
    var along := 0;
    var cross := 0;
    var index := 0;
    while index < |ps|
      invariant 0 <= index <= |ps|
      invariant along == SumReq(ps[..index])
      invariant cross >= 0
      invariant forall j :: 0 <= j < index ==> Across(o, slaves[j]) <= cross
      invariant cross == 0 || exists j :: 0 <= j < index && Across(o, slaves[j]) == cross
    {
      if cross < Across(o, slaves[index]) {
        cross := Across(o, slaves[index]);
      }
      assert ps[..index + 1][..index] == ps[..index];
      along := along + ps[index].reqSize;
      index := index + 1;
    }
    assert ps[..|ps|] == ps;
    along := along + (|ps| - 1) * t;
    if o == Horizontal {
      width, height := along, cross;
    } else {
      width, height := cross, along;
    }
  }

  /** The point `pos` lies on sash k, edges included. */
  predicate OnSash(ps: seq<Pane>, k: int, t: int, pos: int)
    requires 0 <= k < |ps|
  {
    ps[k].sashPos <= pos <= ps[k].sashPos + t
  }

  /**
    `identify`: the index of the first real sash (the sentinel excluded)
    under the point, or the empty result when there is none.
  */
  method Identify(ps: seq<Pane>, t: int, pos: int) returns (r: Option<nat>)
    ensures r.Some? ==> r.value < |ps| - 1 && OnSash(ps, r.value, t, pos)
    ensures r.Some? ==> forall k :: 0 <= k < r.value ==> !OnSash(ps, k, t, pos)
    ensures r.None? <==> forall k :: 0 <= k < |ps| - 1 ==> !OnSash(ps, k, t, pos)
  {
    var index := 0;
    while index < |ps| - 1
      invariant 0 <= index <= Max0(|ps| - 1)
      invariant forall k :: 0 <= k < index ==> !OnSash(ps, k, t, pos)
    {
      if ps[index].sashPos <= pos && pos <= ps[index].sashPos + t {
        assert OnSash(ps, index, t, pos);
        return Some(index);
      }
      index := index + 1;
    }
    return None;
  }

  datatype SashposError = SashIndexOutOfRange(index: int)

  /** The panes after the command, and the position it reports for the sash. */
  datatype SashposReply = SashposReply(panes: seq<Pane>, pos: int)

  /**
    `sashpos index ?newpos?`: an index outside 0..#panes-2 is an error.
    Without newpos, report the sash position. With it, move the sash (a
    smaller position through ShoveUp, a larger or equal one through
    ShoveDown), reset the request sizes with AdjustPanes, and report where
    the sash ended up.
  */
  function SashposCommand(ps: seq<Pane>, t: int, index: int, newPos: Option<int>): (r: Result<SashposReply, SashposError>)
    ensures r.Failure? <==> index < 0 || index >= |ps| - 1
    ensures r.Failure? ==> r.error == SashIndexOutOfRange(index)
    ensures r.Success? ==> |r.value.panes| == |ps| && r.value.pos == r.value.panes[index].sashPos
    ensures r.Success? && newPos.None? ==> r.value == SashposReply(ps, ps[index].sashPos)
    ensures r.Success? ==> r.value.panes[|ps| - 1].sashPos == ps[|ps| - 1].sashPos
    ensures r.Success? ==> forall j :: 0 <= j < |ps| ==> r.value.panes[j].weight == ps[j].weight
    ensures r.Success? && newPos.Some? ==>
      forall j :: 0 <= j < |ps| ==> r.value.panes[j].reqSize == Max0(PaneSize(r.value.panes, j, t))
  {
    if index < 0 || index >= |ps| - 1 then
      Failure(SashIndexOutOfRange(index))
    else if newPos.None? then
      Success(SashposReply(ps, ps[index].sashPos))
    else
      var position := newPos.value;
      var moved := if position < ps[index].sashPos then ShoveUp(ps, index, position, t)
                   else ShoveDown(ps, index, position, t);
      var adjusted := AdjustPanes(moved.panes, t);
      Success(SashposReply(adjusted, adjusted[index].sashPos))
  }

  /**
    Moving a sash keeps the layout invariants of a valid layout and the
    widget size, and leaves request sizes that ComputePositions reproduces
    exactly, so the sashes stay put on the next relayout.
  */
  lemma SashposKeepsLayout(ps: seq<Pane>, t: int, size: int, index: int, position: int)
    requires ValidLayout(ps, t, size) && WeightsNonNegative(ps)
    requires 0 <= index < |ps| - 1
    ensures SashposCommand(ps, t, index, Some(position)).Success?
    ensures ValidLayout(SashposCommand(ps, t, index, Some(position)).value.panes, t, size)
    ensures var after := SashposCommand(ps, t, index, Some(position)).value.panes;
      ComputePositions(after, t, size) == after
  {
    var m := if position < ps[index].sashPos then ShoveUp(ps, index, position, t).panes
             else ShoveDown(ps, index, position, t).panes;
    if position < ps[index].sashPos {
      ShoveUpValid(ps, t, size, index, position);
    } else {
      ShoveDownValid(ps, t, size, index, position);
    }
    assert SashposCommand(ps, t, index, Some(position)).value.panes == AdjustPanes(m, t);
    AdjustedIsFitted(m, t, size);
    AdjustThenCompute(m, t, size);
  }

  /** Shoving a sash up within a valid layout gives a valid layout of the same size. */
  lemma ShoveUpValid(ps: seq<Pane>, t: int, size: int, index: int, position: int)
    requires ValidLayout(ps, t, size) && WeightsNonNegative(ps)
    requires 0 <= index < |ps| - 1 && position < ps[index].sashPos
    ensures ValidLayout(ShoveUp(ps, index, position, t).panes, t, size)
    ensures WeightsNonNegative(ShoveUp(ps, index, position, t).panes)
  {
    var n := |ps|;
    var m := ShoveUp(ps, index, position, t).panes;
    assert SashGap(ps, index + 1, t);
    ShoveUpKeepsGaps(ps, index, position, t);
    GappedLowerBound(ps, t, index);
    forall j | 0 < j < n
      ensures SashGap(m, j, t)
    {
      if j > index + 1 {
        assert SashGap(ps, j, t);
      }
    }
  }

  /** Shoving a sash down within a valid layout gives a valid layout of the same size. */
  lemma ShoveDownValid(ps: seq<Pane>, t: int, size: int, index: int, position: int)
    requires ValidLayout(ps, t, size) && WeightsNonNegative(ps)
    requires 0 <= index < |ps| - 1 && position >= ps[index].sashPos
    ensures ValidLayout(ShoveDown(ps, index, position, t).panes, t, size)
    ensures WeightsNonNegative(ShoveDown(ps, index, position, t).panes)
  {
    var n := |ps|;
    var m := ShoveDown(ps, index, position, t).panes;
    ShoveDownKeepsGaps(ps, index, position, t);
    GappedUpperBound(ps, t, index);
    forall j | 0 < j < n
      ensures SashGap(m, j, t)
    {
      if j <= index {
        assert SashGap(ps, j, t);
      }
    }
    if index == 0 {
      assert m[0].sashPos >= ps[0].sashPos;
    }
  }

  /**
    A sash moved to a position that leaves room for the sashes before and
    after it lands exactly there.
  */
  lemma SashposLands(ps: seq<Pane>, t: int, size: int, index: int, position: int)
    requires ValidLayout(ps, t, size)
    requires 0 <= index < |ps| - 1
    requires index * t <= position <= size - (|ps| - 1 - index) * t
    ensures SashposCommand(ps, t, index, Some(position)).Success?
    ensures SashposCommand(ps, t, index, Some(position)).value.pos == position
  {
    if position < ps[index].sashPos {
      var s := ShoveUp(ps, index, position, t);
      assert s.pos == position;
    } else {
      var s := ShoveDown(ps, index, position, t);
      assert s.pos == position;
    }
  }
}
