/**
  The layout algorithm of the ttk::panedwindow widget.

  Positions and sizes are measured along the widget's orientation. Each pane
  records its request size, the position of the sash that follows it, and its
  -weight. The last pane has no real sash: its sash position is a sentinel
  that stands for the widget's size. Sashes are `t` pixels thick.

  Layout invariants of the widget:
    pos(pane[0]) = 0,  pos(pane[i+1]) = sash[i] + t,
    size(pane[i]) = sash[i] - pos(pane[i]) >= 0,  sash[last] = size(widget).
*/
module PanedLayout {

  /** The theme's minimum sash thickness; the widget never uses a thinner sash. */
  const MIN_SASH_THICKNESS: int := 5

  datatype Pane = Pane(reqSize: int, sashPos: int, weight: int)

  /** A sequence of panes after a sash was shoved, and the final position of that sash. */
  datatype Shoved = Shoved(panes: seq<Pane>, pos: int)

  function Max0(x: int): int {
    if x >= 0 then x else 0
  }

  function Max(x: int, y: int): int {
    if x >= y then x else y
  }

  function Min(x: int, y: int): int {
    if x <= y then x else y
  }

  function SetSash(ps: seq<Pane>, i: nat, pos: int): seq<Pane>
    requires i < |ps|
  {
    ps[i := ps[i].(sashPos := pos)]
  }

  /** Where pane i starts: 0 for the first pane, just after the previous sash otherwise. */
  function PaneStart(ps: seq<Pane>, i: nat, t: int): int
    requires i < |ps|
  {
    if i == 0 then 0 else ps[i - 1].sashPos + t
  }

  /** The actual size of pane i, as the sash positions determine it. */
  function PaneSize(ps: seq<Pane>, i: nat, t: int): int
    requires i < |ps|
  {
    ps[i].sashPos - PaneStart(ps, i, t)
  }

  /** Sash j lies at least one sash thickness after sash j-1, so pane j is not negative. */
  predicate SashGap(ps: seq<Pane>, j: int, t: int)
    requires 0 < j < |ps|
  {
    ps[j - 1].sashPos + t <= ps[j].sashPos
  }

  /** Every sash j in lo..hi lies at least one sash thickness after sash j-1. */
  predicate Gapped(ps: seq<Pane>, t: int, lo: int, hi: int) {
    forall j :: lo <= j <= hi && 0 < j < |ps| ==> SashGap(ps, j, t)
  }

  /** The layout invariants, for a widget of the given size. */
  predicate ValidLayout(ps: seq<Pane>, t: int, size: int) {
    && |ps| > 0
    && ps[0].sashPos >= 0
    && Gapped(ps, t, 1, |ps| - 1)
    && ps[|ps| - 1].sashPos == size
  }

  /** Two pane sequences with the same request sizes and weights, whatever their sashes. */
  predicate SameRequests(ps: seq<Pane>, qs: seq<Pane>) {
    |ps| == |qs| &&
    forall j {:trigger qs[j]} :: 0 <= j < |ps| ==> ps[j].reqSize == qs[j].reqSize && ps[j].weight == qs[j].weight
  }

  predicate WeightsNonNegative(ps: seq<Pane>) {
    forall j :: 0 <= j < |ps| ==> ps[j].weight >= 0
  }

  /**
    Every sash before i either kept its pane or ends exactly one sash
    thickness before the next sash: a shoved chain is packed tight.
  */
  predicate PackedBelow(ps: seq<Pane>, qs: seq<Pane>, i: nat, t: int)
    requires |qs| == |ps| && i < |ps|
  {
    forall j :: 0 <= j < i ==> qs[j] == ps[j] || qs[j].sashPos + t == qs[j + 1].sashPos
  }

  /** The mirror image of PackedBelow, for the sashes after i. */
  predicate PackedAbove(ps: seq<Pane>, qs: seq<Pane>, i: nat, t: int)
    requires |qs| == |ps| && i < |ps|
  {
    forall j :: i < j < |ps| ==> qs[j] == ps[j] || qs[j - 1].sashPos + t == qs[j].sashPos
  }

  /**
    ShoveUp: place sash i at `pos`, recursively shoving earlier sashes up
    when they are closer than one sash thickness, and clamping sash 0 at the
    top of the window (which shoves the chain back down). Returns the panes
    and the final position of sash i.
  */
  function ShoveUp(ps: seq<Pane>, i: nat, pos: int, t: int): (r: Shoved)
    requires i < |ps|
    ensures |r.panes| == |ps| && SameRequests(ps, r.panes)
    ensures r.pos == r.panes[i].sashPos
    ensures i == 0 ==> r.pos == Max0(pos)
    ensures r.pos >= pos
    ensures r.pos == pos || (r.pos == i * t && pos < i * t)
    ensures i > 0 ==> r.panes[i - 1].sashPos + t <= r.pos
    ensures forall j :: i < j < |ps| ==> r.panes[j] == ps[j]
    ensures ps[0].sashPos >= 0 ==> r.panes[0].sashPos >= 0
    ensures i == 0 ==> r.panes == SetSash(ps, 0, Max0(pos))
    ensures i > 0 && pos >= ps[i - 1].sashPos + t ==> r.panes == SetSash(ps, i, pos)
    decreases i
  {
    if i == 0 then
      var p := if pos < 0 then 0 else pos;
      Shoved(SetSash(ps, 0, p), p)
    else if pos < ps[i - 1].sashPos + t then
      var s := ShoveUp(ps, i - 1, pos - t, t);
      var p := s.pos + t;
      Shoved(SetSash(s.panes, i, p), p)
    else
      Shoved(SetSash(ps, i, pos), pos)
  }

  /**
    ShoveDown: the mirror image of ShoveUp, shoving later sashes down and
    stopping at the sentinel sash, which never moves.
  */
  function ShoveDown(ps: seq<Pane>, i: nat, pos: int, t: int): (r: Shoved)
    requires i < |ps|
    ensures |r.panes| == |ps| && SameRequests(ps, r.panes)
    ensures r.pos == r.panes[i].sashPos
    ensures r.panes[|ps| - 1] == ps[|ps| - 1]
    ensures i == |ps| - 1 ==> r.pos == ps[i].sashPos
    ensures i < |ps| - 1 ==> r.pos <= pos && r.pos + t <= r.panes[i + 1].sashPos
    ensures r.pos == pos || r.pos == ps[|ps| - 1].sashPos - (|ps| - 1 - i) * t
    ensures forall j :: 0 <= j < i ==> r.panes[j] == ps[j]
    ensures i == |ps| - 1 ==> r.panes == ps
    ensures i < |ps| - 1 && pos + t <= ps[i + 1].sashPos ==> r.panes == SetSash(ps, i, pos)
    decreases |ps| - i
  {
    if i == |ps| - 1 then
      var p := ps[i].sashPos;
      assert SetSash(ps, i, p) == ps;
      Shoved(SetSash(ps, i, p), p)
    else if pos + t > ps[i + 1].sashPos then
      var s := ShoveDown(ps, i + 1, pos + t, t);
      var p := s.pos - t;
      Shoved(SetSash(s.panes, i, p), p)
    else
      Shoved(SetSash(ps, i, pos), pos)
  }

  /**
    AdjustPanes: set each pane's request size to its actual size, clamped at
    zero, so that panes "stay put" on the next resize.
  */
  function AdjustPanes(ps: seq<Pane>, t: int): (r: seq<Pane>)
    ensures |r| == |ps|
    ensures forall j :: 0 <= j < |ps| ==> r[j].sashPos == ps[j].sashPos && r[j].weight == ps[j].weight
    ensures forall j :: 0 <= j < |ps| ==> r[j].reqSize >= 0
    ensures forall j :: 0 <= j < |ps| && PaneSize(ps, j, t) >= 0 ==> r[j].reqSize == PaneSize(ps, j, t)
    ensures forall j :: 0 <= j < |ps| && PaneSize(ps, j, t) < 0 ==> r[j].reqSize == 0
  {
    seq(|ps|, j requires 0 <= j < |ps| => ps[j].(reqSize := Max0(PaneSize(ps, j, t))))
  }

  /** Sum of the panes' request sizes. */
  function SumReq(ps: seq<Pane>): int
    decreases |ps|
  {
    if ps == [] then 0 else SumReq(ps[..|ps| - 1]) + ps[|ps| - 1].reqSize
  }

  /** The weight a pane takes part in redistribution with: 0 for a collapsed pane. */
  function EffectiveWeight(p: Pane): int {
    if p.reqSize != 0 then p.weight else 0
  }

  function TotalWeight(ps: seq<Pane>): int
    decreases |ps|
  {
    if ps == [] then 0 else TotalWeight(ps[..|ps| - 1]) + EffectiveWeight(ps[|ps| - 1])
  }

  /** C's `/` on int: the quotient truncated toward zero. */
  function CDiv(a: int, b: int): int
    requires b != 0
  {
    var q := (if a >= 0 then a else -a) / (if b >= 0 then b else -b);
    if (a >= 0) == (b > 0) then q else -q
  }

  /** C's `%` on int: the remainder takes the sign of the dividend. */
  function CMod(a: int, b: int): int
    requires b != 0
  {
    a - b * CDiv(a, b)
  }

  /** The per-weight share `delta` and the leftover pixels `remainder` of a difference. */
  datatype Share = Share(delta: int, remainder: int)

  /** Split `difference` among `totalWeight` units, normalising a negative remainder. */
  function Distribute(difference: int, totalWeight: int): (r: Share)
    ensures totalWeight == 0 ==> r == Share(0, 0)
    ensures totalWeight != 0 ==> r.delta * totalWeight + r.remainder == difference
  {
    if totalWeight != 0 then
      var delta := CDiv(difference, totalWeight);
      var remainder := CMod(difference, totalWeight);
      if remainder < 0 then Share(delta - 1, remainder + totalWeight) else Share(delta, remainder)
    else
      Share(0, 0)
  }

  /** The leftover pixels a pane absorbs: up to its weight, no more than what is left. */
  function LeftoverShare(p: Pane, remainder: int): int {
    var weight := EffectiveWeight(p);
    if weight > remainder then remainder else weight
  }

  /** The size ComputePositions gives a pane: request plus weighted share, clamped at zero. */
  function PlacedSize(p: Pane, remainder: int, delta: int): int {
    Max0(p.reqSize + delta * EffectiveWeight(p) + LeftoverShare(p, remainder))
  }

  /**
    The placement loop of ComputePositions, from the current pane on: give each
    pane its request size plus `delta` per unit of weight plus up to its
    weight of the leftover pixels, clamp at zero, and place its sash.
  */
  function Place(ps: seq<Pane>, pos: int, remainder: int, delta: int, t: int): (r: seq<Pane>)
    ensures |r| == |ps| && SameRequests(ps, r)
    ensures |ps| > 0 ==> r[0].sashPos >= pos
    decreases |ps|
  {
    if ps == [] then []
    else
      var sash := pos + PlacedSize(ps[0], remainder, delta);
      [ps[0].(sashPos := sash)] + Place(ps[1..], sash + t, remainder - LeftoverShare(ps[0], remainder), delta, t)
  }

  /**
    ComputePositions: set sash positions from request sizes, weights and the
    available space, then pin the sentinel to the end of the widget by
    shoving the preceding sashes up (emergency shrink or stretch).
  */
  function ComputePositions(ps: seq<Pane>, t: int, available: int): (r: seq<Pane>)
    ensures |r| == |ps| && SameRequests(ps, r)
    ensures |ps| == 0 ==> r == ps
  {
    if |ps| == 0 then ps
    else
      var difference := available - SumReq(ps) - t * (|ps| - 1);
      var share := Distribute(difference, TotalWeight(ps));
      var placed := Place(ps, 0, share.remainder, share.delta, t);
      ShoveUp(placed, |ps| - 1, available, t).panes
  }

  /** PaneConfigured: a negative -weight is rejected and reset to 0. */
  datatype Configured = Configured(pane: Pane, ok: bool)

  function PaneConfigured(p: Pane): (r: Configured)
    ensures r.pane.weight >= 0
    ensures r.ok <==> p.weight >= 0
    ensures r.ok ==> r.pane == p
    ensures !r.ok ==> r.pane == p.(weight := 0)
  {
    if p.weight < 0 then Configured(p.(weight := 0), false) else Configured(p, true)
  }

  // ---------------------------------------------------------------------
  // Properties of the layout algorithm.

  /**
    ComputePositions normalises the remainder of a negative difference: for
    a positive total weight, `delta` and `remainder` still split the whole
    difference, and 0 <= remainder < totalWeight.
  */
  lemma DistributeNormalised(difference: int, totalWeight: int)
    requires totalWeight > 0
    ensures var share := Distribute(difference, totalWeight);
      difference == share.delta * totalWeight + share.remainder && 0 <= share.remainder < totalWeight
  {
    var q := CDiv(difference, totalWeight);
    if difference >= 0 {
      assert q == difference / totalWeight;
      assert CMod(difference, totalWeight) == difference % totalWeight;
    } else {
      var a := -difference;
      assert q == -(a / totalWeight);
      assert CMod(difference, totalWeight) == -(a % totalWeight);
    }
  }

  /**
    Along the chain ShoveUp shoves, each sash ends at least one sash
    thickness after the previous one: if the sashes before i were apart,
    then after ShoveUp so are all sashes up to i.
  */
  lemma {:induction false} ShoveUpKeepsGaps(ps: seq<Pane>, i: nat, pos: int, t: int)
    requires i < |ps| && Gapped(ps, t, 1, i - 1)
    ensures Gapped(ShoveUp(ps, i, pos, t).panes, t, 1, i)
    decreases i
  {
    var r := ShoveUp(ps, i, pos, t).panes;
    if i > 0 {
      if pos < ps[i - 1].sashPos + t {
        var s := ShoveUp(ps, i - 1, pos - t, t);
        ShoveUpKeepsGaps(ps, i - 1, pos - t, t);
        forall j | 1 <= j <= i && 0 < j < |r|
          ensures SashGap(r, j, t)
        {
          if j < i {
            assert SashGap(s.panes, j, t);
            assert r[j] == s.panes[j] && r[j - 1] == s.panes[j - 1];
          } else {
            assert r[i].sashPos == s.pos + t && r[i - 1] == s.panes[i - 1];
          }
        }
      } else {
        forall j | 1 <= j <= i && 0 < j < |r|
          ensures SashGap(r, j, t)
        {
          if j < i {
            assert SashGap(ps, j, t);
            assert r[j] == ps[j] && r[j - 1] == ps[j - 1];
          } else {
            assert r[i].sashPos == pos && r[i - 1] == ps[i - 1];
          }
        }
      }
    }
  }

  /**
    Along the chain ShoveDown shoves, each sash ends at least one sash
    thickness before the next one, up to the sentinel.
  */
  lemma {:induction false} ShoveDownKeepsGaps(ps: seq<Pane>, i: nat, pos: int, t: int)
    requires i < |ps| && Gapped(ps, t, i + 2, |ps| - 1)
    ensures Gapped(ShoveDown(ps, i, pos, t).panes, t, i + 1, |ps| - 1)
    decreases |ps| - i
  {
    var r := ShoveDown(ps, i, pos, t).panes;
    if i < |ps| - 1 {
      if pos + t > ps[i + 1].sashPos {
        var s := ShoveDown(ps, i + 1, pos + t, t);
        ShoveDownKeepsGaps(ps, i + 1, pos + t, t);
        forall j | i + 1 <= j <= |ps| - 1 && 0 < j < |r|
          ensures SashGap(r, j, t)
        {
          if j > i + 1 {
            assert SashGap(s.panes, j, t);
            assert r[j] == s.panes[j] && r[j - 1] == s.panes[j - 1];
          } else {
            assert r[i].sashPos == s.pos - t && r[i + 1] == s.panes[i + 1];
          }
        }
      } else {
        forall j | i + 1 <= j <= |ps| - 1 && 0 < j < |r|
          ensures SashGap(r, j, t)
        {
          if j > i + 1 {
            assert SashGap(ps, j, t);
            assert r[j] == ps[j] && r[j - 1] == ps[j - 1];
          } else {
            assert r[i].sashPos == pos && r[i + 1] == ps[i + 1];
          }
        }
      }
    }
  }

  /**
    ShoveUp moves earlier sashes only as needed: each sash before i either
    keeps its pane or is packed exactly one sash thickness before the next.
  */
  lemma {:induction false} ShoveUpPacked(ps: seq<Pane>, i: nat, pos: int, t: int)
    requires i < |ps|
    ensures PackedBelow(ps, ShoveUp(ps, i, pos, t).panes, i, t)
    decreases i
  {
    var r := ShoveUp(ps, i, pos, t).panes;
    if i > 0 && pos < ps[i - 1].sashPos + t {
      var s := ShoveUp(ps, i - 1, pos - t, t);
      ShoveUpPacked(ps, i - 1, pos - t, t);
      forall j | 0 <= j < i
        ensures r[j] == ps[j] || r[j].sashPos + t == r[j + 1].sashPos
      {
        if j < i - 1 {
          assert s.panes[j] == ps[j] || s.panes[j].sashPos + t == s.panes[j + 1].sashPos;
          assert r[j] == s.panes[j] && r[j + 1] == s.panes[j + 1];
        } else {
          assert r[j].sashPos == s.pos && r[i].sashPos == s.pos + t;
        }
      }
    }
  }

  /**
    ShoveDown moves later sashes only as needed: each sash after i either
    keeps its pane or is packed exactly one sash thickness after the previous.
  */
  lemma {:induction false} ShoveDownPacked(ps: seq<Pane>, i: nat, pos: int, t: int)
    requires i < |ps|
    ensures PackedAbove(ps, ShoveDown(ps, i, pos, t).panes, i, t)
    decreases |ps| - i
  {
    var r := ShoveDown(ps, i, pos, t).panes;
    if i < |ps| - 1 && pos + t > ps[i + 1].sashPos {
      var s := ShoveDown(ps, i + 1, pos + t, t);
      ShoveDownPacked(ps, i + 1, pos + t, t);
      forall j | i < j < |ps|
        ensures r[j] == ps[j] || r[j - 1].sashPos + t == r[j].sashPos
      {
        if j > i + 1 {
          assert s.panes[j] == ps[j] || s.panes[j - 1].sashPos + t == s.panes[j].sashPos;
          assert r[j] == s.panes[j] && r[j - 1] == s.panes[j - 1];
        } else {
          assert r[i].sashPos == s.pos - t && r[j].sashPos == s.pos;
        }
      }
    }
  }

  /** The placement loop leaves every pane at least zero pixels wide. */
  lemma {:induction false} PlaceGapped(ps: seq<Pane>, pos: int, remainder: int, delta: int, t: int)
    ensures Gapped(Place(ps, pos, remainder, delta, t), t, 1, |ps| - 1)
    decreases |ps|
  {
    if ps != [] {
      var r := Place(ps, pos, remainder, delta, t);
      var sash := pos + PlacedSize(ps[0], remainder, delta);
      var rest := Place(ps[1..], sash + t, remainder - LeftoverShare(ps[0], remainder), delta, t);
      PlaceGapped(ps[1..], sash + t, remainder - LeftoverShare(ps[0], remainder), delta, t);
      assert r == [ps[0].(sashPos := sash)] + rest;
      forall j | 1 <= j <= |ps| - 1 && 0 < j < |r|
        ensures SashGap(r, j, t)
      {
        assert r[j] == rest[j - 1];
        if j > 1 {
          assert SashGap(rest, j - 1, t);
        }
      }
    }
  }

  /** In a valid layout sash k lies at least k sash thicknesses from the top. */
  lemma {:induction false} GappedLowerBound(ps: seq<Pane>, t: int, k: nat)
    requires k < |ps| && ps[0].sashPos >= 0 && Gapped(ps, t, 1, k)
    ensures ps[k].sashPos >= k * t
    decreases k
  {
    if k > 0 {
      GappedLowerBound(ps, t, k - 1);
      assert SashGap(ps, k, t);
    }
  }

  /** In a valid layout sash k leaves room for the sashes after it before the sentinel. */
  lemma {:induction false} GappedUpperBound(ps: seq<Pane>, t: int, k: nat)
    requires k < |ps| && Gapped(ps, t, k + 1, |ps| - 1)
    ensures ps[k].sashPos <= ps[|ps| - 1].sashPos - (|ps| - 1 - k) * t
    decreases |ps| - k
  {
    if k < |ps| - 1 {
      GappedUpperBound(ps, t, k + 1);
      assert SashGap(ps, k + 1, t);
    }
  }

  /**
    After ComputePositions the layout invariants hold: no pane is negative,
    sashes are at least one thickness apart, and the sentinel sits at the end
    of the widget whenever the widget has room for all the sashes.
  */
  lemma {:induction false} ComputePositionsValid(ps: seq<Pane>, t: int, available: int)
    requires |ps| > 0
    ensures ValidLayout(ComputePositions(ps, t, available), t, Max(available, (|ps| - 1) * t))
    ensures available >= (|ps| - 1) * t ==> ValidLayout(ComputePositions(ps, t, available), t, available)
  {
    var share := Distribute(available - SumReq(ps) - t * (|ps| - 1), TotalWeight(ps));
    PlaceThenShoveValid(ps, t, available, share.remainder, share.delta);
  }

  /** Placing the panes and shoving the sentinel to the end gives a valid layout, whatever the shares. */
  lemma {:induction false} PlaceThenShoveValid(ps: seq<Pane>, t: int, available: int, remainder: int, delta: int)
    requires |ps| > 0
    ensures var r := ShoveUp(Place(ps, 0, remainder, delta, t), |ps| - 1, available, t).panes;
      && ValidLayout(r, t, Max(available, (|ps| - 1) * t))
      && (available >= (|ps| - 1) * t ==> ValidLayout(r, t, available))
  {
    var placed := Place(ps, 0, remainder, delta, t);
    PlaceGapped(ps, 0, remainder, delta, t);
    ShoveUpToEnd(placed, t, available);
    var least := (|ps| - 1) * t;
    if available >= least {
      assert Max(available, least) == available;
    }
  }

  /** Shoving the sentinel of a gapped layout to the end gives a valid layout of at least the sashes' size. */
  lemma {:induction false} ShoveUpToEnd(placed: seq<Pane>, t: int, available: int)
    requires |placed| > 0 && placed[0].sashPos >= 0 && Gapped(placed, t, 1, |placed| - 1)
    ensures ValidLayout(ShoveUp(placed, |placed| - 1, available, t).panes, t, Max(available, (|placed| - 1) * t))
  {
    var n := |placed|;
    var s := ShoveUp(placed, n - 1, available, t);
    ShoveUpKeepsGaps(placed, n - 1, available, t);
    GappedLowerBound(s.panes, t, n - 1);
  }

  /** Place ignores the sash positions it is given. */
  lemma {:induction false} PlaceIgnoresSashes(ps: seq<Pane>, qs: seq<Pane>, pos: int, remainder: int, delta: int, t: int)
    requires SameRequests(ps, qs)
    ensures Place(ps, pos, remainder, delta, t) == Place(qs, pos, remainder, delta, t)
    decreases |ps|
  {
    if ps != [] {
      assert SameRequests(ps[1..], qs[1..]);
      assert EffectiveWeight(ps[0]) == EffectiveWeight(qs[0]);
      assert LeftoverShare(ps[0], remainder) == LeftoverShare(qs[0], remainder);
      assert PlacedSize(ps[0], remainder, delta) == PlacedSize(qs[0], remainder, delta);
      var sash := pos + PlacedSize(ps[0], remainder, delta);
      assert ps[0].(sashPos := sash) == qs[0].(sashPos := sash);
      PlaceIgnoresSashes(ps[1..], qs[1..], sash + t, remainder - LeftoverShare(ps[0], remainder), delta, t);
    }
  }

  lemma {:induction false} SumsOfSameRequests(ps: seq<Pane>, qs: seq<Pane>)
    requires SameRequests(ps, qs)
    ensures SumReq(ps) == SumReq(qs) && TotalWeight(ps) == TotalWeight(qs)
    decreases |ps|
  {
    if ps != [] {
      SumsOfSameRequests(ps[..|ps| - 1], qs[..|qs| - 1]);
    }
  }

  /** ComputePositions depends only on the request sizes and weights, never on the old sashes. */
  lemma ComputePositionsIgnoresSashes(ps: seq<Pane>, qs: seq<Pane>, t: int, available: int)
    requires SameRequests(ps, qs)
    ensures ComputePositions(ps, t, available) == ComputePositions(qs, t, available)
  {
    if |ps| > 0 {
      SumsOfSameRequests(ps, qs);
      var share := Distribute(available - SumReq(ps) - t * (|ps| - 1), TotalWeight(ps));
      assert share == Distribute(available - SumReq(qs) - t * (|qs| - 1), TotalWeight(qs));
      PlaceIgnoresSashes(ps, qs, 0, share.remainder, share.delta, t);
      var placed := Place(ps, 0, share.remainder, share.delta, t);
      assert ComputePositions(ps, t, available) == ShoveUp(placed, |ps| - 1, available, t).panes;
      assert ComputePositions(qs, t, available) == ShoveUp(placed, |qs| - 1, available, t).panes;
    }
  }

  /**
    Continuous resize: resizing to one size and then to another gives the
    same layout as resizing to the second size in one step.
  */
  lemma ContinuousResize(ps: seq<Pane>, t: int, first: int, second: int)
    ensures ComputePositions(ComputePositions(ps, t, first), t, second) == ComputePositions(ps, t, second)
  {
    ComputePositionsIgnoresSashes(ComputePositions(ps, t, first), ps, t, second);
  }

  /** Pane j's request size is exactly its actual size, the first pane starting at `pos`. */
  predicate FitsSashes(ps: seq<Pane>, j: int, pos: int, t: int)
    requires 0 <= j < |ps|
  {
    0 <= ps[j].reqSize == ps[j].sashPos - (if j == 0 then pos else ps[j - 1].sashPos + t)
  }

  /** Request sizes that match the sashes exactly, starting from `pos`. */
  predicate Fitted(ps: seq<Pane>, pos: int, t: int) {
    forall j :: 0 <= j < |ps| ==> FitsSashes(ps, j, pos, t)
  }

  /** With nothing to redistribute, Place puts every sash back where the request sizes say. */
  lemma {:induction false} PlaceFitted(ps: seq<Pane>, pos: int, t: int)
    requires Fitted(ps, pos, t) && WeightsNonNegative(ps)
    ensures Place(ps, pos, 0, 0, t) == ps
    decreases |ps|
  {
    if ps != [] {
      var rest := ps[1..];
      var next := ps[0].sashPos + t;
      assert Fitted(rest, next, t) by {
        forall j | 0 <= j < |rest|
          ensures FitsSashes(rest, j, next, t)
        {
          assert FitsSashes(ps, j + 1, pos, t);
          assert rest[j] == ps[j + 1];
        }
      }
      PlaceFitted(rest, next, t);
      assert FitsSashes(ps, 0, pos, t);
      assert ps[0].weight >= 0;
      assert LeftoverShare(ps[0], 0) == 0;
      assert 0 * EffectiveWeight(ps[0]) == 0;
      assert PlacedSize(ps[0], 0, 0) == ps[0].reqSize;
      assert ps[0].(sashPos := pos + ps[0].reqSize) == ps[0];
    }
  }

  /** The request sizes of a fitted prefix add up to its last sash, less the sashes in between. */
  lemma {:induction false} FittedSum(ps: seq<Pane>, t: int, k: nat)
    requires Fitted(ps, 0, t) && 0 < k <= |ps|
    ensures SumReq(ps[..k]) == ps[k - 1].sashPos - (k - 1) * t
    decreases k
  {
    var pre := ps[..k];
    assert pre[..k - 1] == ps[..k - 1];
    assert SumReq(pre) == SumReq(ps[..k - 1]) + ps[k - 1].reqSize;
    if k > 1 {
      FittedSum(ps, t, k - 1);
      assert FitsSashes(ps, k - 1, 0, t);
    } else {
      assert ps[..0] == [];
      assert FitsSashes(ps, 0, 0, t);
    }
  }

  /**
    The round trip of the widget's comment: AdjustPanes followed by
    ComputePositions leaves every sash where it was, as long as the available
    size is unchanged.
  */
  lemma AdjustThenCompute(ps: seq<Pane>, t: int, size: int)
    requires ValidLayout(ps, t, size) && WeightsNonNegative(ps)
    ensures ComputePositions(AdjustPanes(ps, t), t, size) == AdjustPanes(ps, t)
    ensures forall j :: 0 <= j < |ps| ==> ComputePositions(AdjustPanes(ps, t), t, size)[j].sashPos == ps[j].sashPos
  {
    AdjustedIsFitted(ps, t, size);
    ComputeFitted(AdjustPanes(ps, t), t, size);
  }

  /** A valid layout whose request sizes match its sashes is a fixed point of ComputePositions. */
  lemma ComputeFitted(a: seq<Pane>, t: int, size: int)
    requires ValidLayout(a, t, size) && Fitted(a, 0, t) && WeightsNonNegative(a)
    ensures ComputePositions(a, t, size) == a
  {
    var n := |a|;
    FittedSum(a, t, n);
    assert a[..n] == a;
    var difference := size - SumReq(a) - t * (n - 1);
    assert difference == 0;
    DistributeZero(TotalWeight(a));
    PlaceFitted(a, 0, t);
    ShoveUpInPlace(a, t, size);
  }

  lemma AdjustedIsFitted(ps: seq<Pane>, t: int, size: int)
    requires ValidLayout(ps, t, size) && WeightsNonNegative(ps)
    ensures Fitted(AdjustPanes(ps, t), 0, t) && WeightsNonNegative(AdjustPanes(ps, t))
    ensures ValidLayout(AdjustPanes(ps, t), t, size)
  {
    var a := AdjustPanes(ps, t);
    forall j | 0 <= j < |a|
      ensures FitsSashes(a, j, 0, t)
    {
      if j > 0 {
        assert SashGap(ps, j, t);
      }
    }
    forall j | 0 < j < |a|
      ensures SashGap(a, j, t)
    {
      assert SashGap(ps, j, t);
    }
  }

  lemma DistributeZero(totalWeight: int)
    ensures Distribute(0, totalWeight) == Share(0, 0)
  {
    if totalWeight != 0 {
      assert CDiv(0, totalWeight) == 0;
    }
  }

  /** Shoving the sentinel of a valid layout to where it already is changes nothing. */
  lemma ShoveUpInPlace(ps: seq<Pane>, t: int, size: int)
    requires ValidLayout(ps, t, size)
    ensures ShoveUp(ps, |ps| - 1, size, t).panes == ps
  {
    var n := |ps|;
    if n > 1 {
      assert SashGap(ps, n - 1, t);
    }
    assert SetSash(ps, n - 1, size) == ps;
  }

  // ---------------------------------------------------------------------
  // How ComputePositions shares out the difference by weight.

  predicate RequestsNonNegative(ps: seq<Pane>) {
    forall j :: 0 <= j < |ps| ==> ps[j].reqSize >= 0
  }

  /** What pane k of a placement starting at `pos` receives: its request plus `delta` per unit of weight. */
  function Base(p: Pane, delta: int): int {
    p.reqSize + delta * EffectiveWeight(p)
  }

  /** The size pane k was given, for a placement that starts at `pos`. */
  function PlacedAt(r: seq<Pane>, k: nat, pos: int, t: int): int
    requires k < |r|
  {
    r[k].sashPos - (if k == 0 then pos else r[k - 1].sashPos + t)
  }

  /** Each pane got its base share and at most its weight of the leftover pixels. */
  predicate SharedByWeight(ps: seq<Pane>, r: seq<Pane>, pos: int, delta: int, t: int)
    requires |r| == |ps|
  {
    forall k :: 0 <= k < |ps| ==>
      Base(ps[k], delta) <= PlacedAt(r, k, pos, t) <= Base(ps[k], delta) + EffectiveWeight(ps[k])
  }

  /** From pane `from` on, every pane got exactly its base share. */
  predicate NoLeftoverFrom(ps: seq<Pane>, r: seq<Pane>, pos: int, delta: int, t: int, from: nat)
    requires |r| == |ps|
  {
    forall k :: from <= k < |ps| ==> PlacedAt(r, k, pos, t) == Base(ps[k], delta)
  }

  lemma {:induction false} SumReqCons(ps: seq<Pane>)
    requires |ps| > 0
    ensures SumReq(ps) == ps[0].reqSize + SumReq(ps[1..])
    ensures TotalWeight(ps) == EffectiveWeight(ps[0]) + TotalWeight(ps[1..])
    decreases |ps|
  {
    var n := |ps|;
    if n == 1 {
      assert ps[..0] == [] && ps[1..] == [];
    } else {
      SumReqCons(ps[..n - 1]);
      assert ps[..n - 1][1..] == ps[1..][..n - 2];
      assert ps[..n - 1][0] == ps[0] && ps[1..][n - 2] == ps[n - 1];
    }
  }

  lemma {:induction false} SumsNonNegative(ps: seq<Pane>)
    requires RequestsNonNegative(ps) && WeightsNonNegative(ps)
    ensures SumReq(ps) >= 0 && TotalWeight(ps) >= 0
    decreases |ps|
  {
    if ps != [] {
      var n := |ps|;
      assert RequestsNonNegative(ps[..n - 1]) && WeightsNonNegative(ps[..n - 1]) by {
        forall j | 0 <= j < n - 1 ensures ps[..n - 1][j] == ps[j] { }
      }
      SumsNonNegative(ps[..n - 1]);
    }
  }

  lemma NonNegativeTail(ps: seq<Pane>)
    requires |ps| > 0 && RequestsNonNegative(ps) && WeightsNonNegative(ps)
    ensures RequestsNonNegative(ps[1..]) && WeightsNonNegative(ps[1..])
  {
    forall j | 0 <= j < |ps| - 1 ensures ps[1..][j] == ps[j + 1] { }
  }

  /** The sizes of panes after the first are those of the rest of the placement. */
  lemma PlaceShift(ps: seq<Pane>, pos: int, remainder: int, delta: int, t: int, k: nat)
    requires 1 <= k < |ps|
    ensures var sash := pos + PlacedSize(ps[0], remainder, delta);
      var rest := Place(ps[1..], sash + t, remainder - LeftoverShare(ps[0], remainder), delta, t);
      PlacedAt(Place(ps, pos, remainder, delta, t), k, pos, t) == PlacedAt(rest, k - 1, sash + t, t)
  {
    var r := Place(ps, pos, remainder, delta, t);
    var sash := pos + PlacedSize(ps[0], remainder, delta);
    var rest := Place(ps[1..], sash + t, remainder - LeftoverShare(ps[0], remainder), delta, t);
    assert r == [ps[0].(sashPos := sash)] + rest;
    assert r[k] == rest[k - 1] && r[k - 1].sashPos == if k == 1 then sash else rest[k - 2].sashPos;
  }

  /** The first pane receives its base share plus min(weight, remainder), never clamped. */
  lemma FirstShare(p: Pane, remainder: int, delta: int)
    requires p.reqSize >= 0 && p.weight >= 0 && delta >= 0 && remainder >= 0
    ensures PlacedSize(p, remainder, delta) == Base(p, delta) + LeftoverShare(p, remainder)
    ensures 0 <= LeftoverShare(p, remainder) <= EffectiveWeight(p)
    ensures LeftoverShare(p, remainder) == Min(EffectiveWeight(p), remainder)
  {
    assert delta * EffectiveWeight(p) >= 0;
  }

  /**
    With non-negative requests, weights, share and leftover, every pane gets
    its request plus `delta` per unit of weight, plus at most its weight of
    the leftover pixels.
  */
  lemma {:induction false} PlaceShares(ps: seq<Pane>, pos: int, remainder: int, delta: int, t: int)
    requires RequestsNonNegative(ps) && WeightsNonNegative(ps) && delta >= 0 && remainder >= 0
    ensures SharedByWeight(ps, Place(ps, pos, remainder, delta, t), pos, delta, t)
    decreases |ps|
  {
    if ps != [] {
      var sash := pos + PlacedSize(ps[0], remainder, delta);
      var left := remainder - LeftoverShare(ps[0], remainder);
      FirstShare(ps[0], remainder, delta);
      NonNegativeTail(ps);
      PlaceShares(ps[1..], sash + t, left, delta, t);
      forall k | 0 <= k < |ps|
        ensures Base(ps[k], delta) <= PlacedAt(Place(ps, pos, remainder, delta, t), k, pos, t)
                                   <= Base(ps[k], delta) + EffectiveWeight(ps[k])
      {
        PlaceSharesAt(ps, pos, remainder, delta, t, k);
      }
    }
  }

  /** One pane of PlaceShares: the head from its own share, any later pane from the rest's placement. */
  lemma PlaceSharesAt(ps: seq<Pane>, pos: int, remainder: int, delta: int, t: int, k: nat)
    requires 0 <= k < |ps|
    requires RequestsNonNegative(ps) && WeightsNonNegative(ps) && delta >= 0 && remainder >= 0
    requires var sash := pos + PlacedSize(ps[0], remainder, delta);
      var left := remainder - LeftoverShare(ps[0], remainder);
      SharedByWeight(ps[1..], Place(ps[1..], sash + t, left, delta, t), sash + t, delta, t)
    ensures Base(ps[k], delta) <= PlacedAt(Place(ps, pos, remainder, delta, t), k, pos, t)
                               <= Base(ps[k], delta) + EffectiveWeight(ps[k])
  {
    if k == 0 {
      FirstShare(ps[0], remainder, delta);
      PlaceHead(ps, pos, remainder, delta, t);
    } else {
      var sash := pos + PlacedSize(ps[0], remainder, delta);
      var rest := Place(ps[1..], sash + t, remainder - LeftoverShare(ps[0], remainder), delta, t);
      PlaceShift(ps, pos, remainder, delta, t, k);
      var q := ps[1..][k - 1];
      assert q == ps[k];
      assert Base(q, delta) <= PlacedAt(rest, k - 1, sash + t, t) <= Base(q, delta) + EffectiveWeight(q);
    }
  }

  /** The head pane's sash lies its placed size past the start. */
  lemma PlaceHead(ps: seq<Pane>, pos: int, remainder: int, delta: int, t: int)
    requires |ps| > 0
    ensures PlacedAt(Place(ps, pos, remainder, delta, t), 0, pos, t) == PlacedSize(ps[0], remainder, delta)
  {
  }



  /** With nothing left over, every pane gets exactly its base share. */
  lemma {:induction false} PlaceNoLeftover(ps: seq<Pane>, pos: int, delta: int, t: int)
    requires RequestsNonNegative(ps) && WeightsNonNegative(ps) && delta >= 0
    ensures NoLeftoverFrom(ps, Place(ps, pos, 0, delta, t), pos, delta, t, 0)
    decreases |ps|
  {
    if ps != [] {
      var r := Place(ps, pos, 0, delta, t);
      var sash := pos + PlacedSize(ps[0], 0, delta);
      FirstShare(ps[0], 0, delta);
      NonNegativeTail(ps);
      PlaceNoLeftover(ps[1..], sash + t, delta, t);
      LiftNoLeftover(ps, pos, 0, delta, t, 0);
      assert r[0].sashPos == sash;
    }
  }

  /** Panes after the first that got exactly their base share in the rest of the placement got it in the whole. */
  lemma LiftNoLeftover(ps: seq<Pane>, pos: int, remainder: int, delta: int, t: int, j: nat)
    requires |ps| > 0
    requires var sash := pos + PlacedSize(ps[0], remainder, delta);
      var rest := Place(ps[1..], sash + t, remainder - LeftoverShare(ps[0], remainder), delta, t);
      NoLeftoverFrom(ps[1..], rest, sash + t, delta, t, j)
    ensures NoLeftoverFrom(ps, Place(ps, pos, remainder, delta, t), pos, delta, t, j + 1)
  {
    var r := Place(ps, pos, remainder, delta, t);
    var sash := pos + PlacedSize(ps[0], remainder, delta);
    var rest := Place(ps[1..], sash + t, remainder - LeftoverShare(ps[0], remainder), delta, t);
    forall k | j + 1 <= k < |ps|
      ensures PlacedAt(r, k, pos, t) == Base(ps[k], delta)
    {
      PlaceShift(ps, pos, remainder, delta, t, k);
      assert PlacedAt(rest, k - 1, sash + t, t) == Base(ps[1..][k - 1], delta);
      assert ps[1..][k - 1] == ps[k];
    }
  }

  /**
    The leftover pixels go to the earliest panes: once a pane gets less than
    its full weight of them, every later pane gets none.
  */
  lemma {:induction false} PlaceGreedy(ps: seq<Pane>, pos: int, remainder: int, delta: int, t: int, j: nat)
    requires RequestsNonNegative(ps) && WeightsNonNegative(ps) && delta >= 0 && remainder >= 0
    requires j < |ps|
    requires PlacedAt(Place(ps, pos, remainder, delta, t), j, pos, t) < Base(ps[j], delta) + EffectiveWeight(ps[j])
    ensures NoLeftoverFrom(ps, Place(ps, pos, remainder, delta, t), pos, delta, t, j + 1)
    decreases |ps|
  {
    if j == 0 {
      GreedyHead(ps, pos, remainder, delta, t);
    } else {
      GreedyShift(ps, pos, remainder, delta, t, j);
      PlaceGreedy(ps[1..], pos + PlacedSize(ps[0], remainder, delta) + t,
        remainder - LeftoverShare(ps[0], remainder), delta, t, j - 1);
    }
    LiftNoLeftover(ps, pos, remainder, delta, t, j);
  }

  /** A head pane short of its full share used up the remainder, so the rest get no leftover. */
  lemma GreedyHead(ps: seq<Pane>, pos: int, remainder: int, delta: int, t: int)
    requires |ps| > 0
    requires RequestsNonNegative(ps) && WeightsNonNegative(ps) && delta >= 0 && remainder >= 0
    requires PlacedAt(Place(ps, pos, remainder, delta, t), 0, pos, t) < Base(ps[0], delta) + EffectiveWeight(ps[0])
    ensures var sash := pos + PlacedSize(ps[0], remainder, delta);
      var rest := Place(ps[1..], sash + t, remainder - LeftoverShare(ps[0], remainder), delta, t);
      NoLeftoverFrom(ps[1..], rest, sash + t, delta, t, 0)
  {
    var sash := pos + PlacedSize(ps[0], remainder, delta);
    FirstShare(ps[0], remainder, delta);
    PlaceHead(ps, pos, remainder, delta, t);
    assert remainder - LeftoverShare(ps[0], remainder) == 0;
    NonNegativeTail(ps);
    PlaceNoLeftover(ps[1..], sash + t, delta, t);
  }

  /** A later pane short of its full share is that pane of the rest's placement, with the rest's preconditions. */
  lemma GreedyShift(ps: seq<Pane>, pos: int, remainder: int, delta: int, t: int, j: nat)
    requires 0 < j < |ps|
    requires RequestsNonNegative(ps) && WeightsNonNegative(ps) && delta >= 0 && remainder >= 0
    requires PlacedAt(Place(ps, pos, remainder, delta, t), j, pos, t) < Base(ps[j], delta) + EffectiveWeight(ps[j])
    ensures var sash := pos + PlacedSize(ps[0], remainder, delta);
      var left := remainder - LeftoverShare(ps[0], remainder);
      && RequestsNonNegative(ps[1..]) && WeightsNonNegative(ps[1..]) && left >= 0
      && PlacedAt(Place(ps[1..], sash + t, left, delta, t), j - 1, sash + t, t)
           < Base(ps[1..][j - 1], delta) + EffectiveWeight(ps[1..][j - 1])
  {
    FirstShare(ps[0], remainder, delta);
    NonNegativeTail(ps);
    PlaceShift(ps, pos, remainder, delta, t, j);
    assert ps[1..][j - 1] == ps[j];
  }


  /** The arithmetic of one step of PlaceEnd. */
  lemma EndArith(pos: int, req: int, w: int, share: int, remainder: int, sumTail: int, weightTail: int,
                 delta: int, t: int, n: int, nTail: int, sum: int, weight: int, sash: int, end: int)
    requires share == Min(w, remainder) && w >= 0 && remainder >= 0 && weightTail >= 0
    requires sum == req + sumTail && weight == w + weightTail && n == nTail + 1
    requires sash == pos + req + delta * w + share
    requires end == sash + t + sumTail + delta * weightTail + Min(remainder - share, weightTail) + t * (nTail - 1)
    ensures end == pos + sum + delta * weight + Min(remainder, weight) + t * (n - 1)
  {
    assert delta * (w + weightTail) == delta * w + delta * weightTail;
    assert t * (n - 1) == t * (nTail - 1) + t;
  }

  /** With two panes or more, the last sash is the last sash of the rest's placement. */
  lemma PlaceLast(ps: seq<Pane>, pos: int, remainder: int, delta: int, t: int)
    requires |ps| > 1
    ensures var sash := pos + PlacedSize(ps[0], remainder, delta);
      Place(ps, pos, remainder, delta, t)[|ps| - 1]
        == Place(ps[1..], sash + t, remainder - LeftoverShare(ps[0], remainder), delta, t)[|ps[1..]| - 1]
  {
  }

  /** Where the placement puts the last sash, followed pane by pane without building the panes. */
  function LastSash(ps: seq<Pane>, pos: int, remainder: int, delta: int, t: int): int
    requires |ps| > 0
    decreases |ps|
  {
    var sash := pos + PlacedSize(ps[0], remainder, delta);
    if |ps| == 1 then sash
    else LastSash(ps[1..], sash + t, remainder - LeftoverShare(ps[0], remainder), delta, t)
  }

  lemma {:induction false} PlaceLastSash(ps: seq<Pane>, pos: int, remainder: int, delta: int, t: int)
    requires |ps| > 0
    ensures Place(ps, pos, remainder, delta, t)[|ps| - 1].sashPos == LastSash(ps, pos, remainder, delta, t)
    decreases |ps|
  {
    if |ps| == 1 {
      PlaceHead(ps, pos, remainder, delta, t);
    } else {
      var sash := pos + PlacedSize(ps[0], remainder, delta);
      PlaceLastSash(ps[1..], sash + t, remainder - LeftoverShare(ps[0], remainder), delta, t);
      PlaceLastSashStep(ps, pos, remainder, delta, t);
    }
  }

  /** The step of PlaceLastSash: the last sash is the rest's last sash. */
  lemma PlaceLastSashStep(ps: seq<Pane>, pos: int, remainder: int, delta: int, t: int)
    requires |ps| > 1
    requires var sash := pos + PlacedSize(ps[0], remainder, delta);
      var left := remainder - LeftoverShare(ps[0], remainder);
      Place(ps[1..], sash + t, left, delta, t)[|ps[1..]| - 1].sashPos == LastSash(ps[1..], sash + t, left, delta, t)
    ensures Place(ps, pos, remainder, delta, t)[|ps| - 1].sashPos == LastSash(ps, pos, remainder, delta, t)
  {
    PlaceLast(ps, pos, remainder, delta, t);
  }


  lemma {:induction false} LastSashFormula(ps: seq<Pane>, pos: int, remainder: int, delta: int, t: int)
    requires |ps| > 0
    requires RequestsNonNegative(ps) && WeightsNonNegative(ps) && delta >= 0 && remainder >= 0
    ensures LastSash(ps, pos, remainder, delta, t)
         == pos + SumReq(ps) + delta * TotalWeight(ps) + Min(remainder, TotalWeight(ps)) + t * (|ps| - 1)
    decreases |ps|
  {
    var sash := pos + PlacedSize(ps[0], remainder, delta);
    var left := remainder - LeftoverShare(ps[0], remainder);
    FirstShare(ps[0], remainder, delta);
    SumReqCons(ps);
    if |ps| == 1 {
      assert ps[1..] == [];
      assert t * (|ps| - 1) == t * 0 == 0;
    } else {
      NonNegativeTail(ps);
      LastSashFormula(ps[1..], sash + t, left, delta, t);
      SumsNonNegative(ps[1..]);
      EndArith(pos, ps[0].reqSize, EffectiveWeight(ps[0]), LeftoverShare(ps[0], remainder), remainder,
        SumReq(ps[1..]), TotalWeight(ps[1..]), delta, t, |ps|, |ps[1..]|, SumReq(ps), TotalWeight(ps),
        sash, LastSash(ps[1..], sash + t, left, delta, t));
    }
  }

  /** Where the placement puts the last sash: every request, share and leftover pixel, and the sashes between. */
  lemma PlaceEnd(ps: seq<Pane>, pos: int, remainder: int, delta: int, t: int)
    requires |ps| > 0
    requires RequestsNonNegative(ps) && WeightsNonNegative(ps) && delta >= 0 && remainder >= 0
    ensures Place(ps, pos, remainder, delta, t)[|ps| - 1].sashPos
         == pos + SumReq(ps) + delta * TotalWeight(ps) + Min(remainder, TotalWeight(ps)) + t * (|ps| - 1)
  {
    PlaceLastSash(ps, pos, remainder, delta, t);
    LastSashFormula(ps, pos, remainder, delta, t);
  }



  /** A pane with no request has no effective weight, so its share is nothing. */
  lemma CollapsedBase(p: Pane, delta: int)
    ensures p.reqSize == 0 ==> Base(p, delta) == 0 && EffectiveWeight(p) == 0
  {
  }

  /** A non-negative difference shared out with a remainder below the weight leaves a non-negative delta. */
  lemma QuotientNonNegative(difference: int, weight: int, delta: int, remainder: int)
    requires difference >= 0 && weight > 0 && 0 <= remainder < weight
    requires difference == delta * weight + remainder
    ensures delta >= 0
  {
  }

  /**
    When the panes' requests fit in the available space and some pane that
    is not collapsed has weight, ComputePositions gives each pane its
    request plus `delta` pixels per unit of weight, plus at most its weight
    of the leftover pixels. A collapsed pane stays at size 0. The last sash
    lands exactly at the end of the widget, so the final ShoveUp moves nothing.
  */
  lemma ComputePositionsShares(ps: seq<Pane>, t: int, available: int)
    requires |ps| > 0 && RequestsNonNegative(ps) && WeightsNonNegative(ps) && TotalWeight(ps) > 0
    requires available - SumReq(ps) - t * (|ps| - 1) >= 0
    ensures var share := Distribute(available - SumReq(ps) - t * (|ps| - 1), TotalWeight(ps));
      var r := ComputePositions(ps, t, available);
      && share.delta >= 0
      && r == Place(ps, 0, share.remainder, share.delta, t)
      && r[|ps| - 1].sashPos == available
      && (forall k :: 0 <= k < |ps| ==>
            Base(ps[k], share.delta) <= PaneSize(r, k, t) <= Base(ps[k], share.delta) + EffectiveWeight(ps[k]))
      && (forall k :: 0 <= k < |ps| && ps[k].reqSize == 0 ==> PaneSize(r, k, t) == 0)
  {
    var share := Distribute(available - SumReq(ps) - t * (|ps| - 1), TotalWeight(ps));
    ComputePositionsPlaces(ps, t, available);
    var placed := Place(ps, 0, share.remainder, share.delta, t);
    PlaceShares(ps, 0, share.remainder, share.delta, t);
    forall k | 0 <= k < |ps|
      ensures PaneSize(placed, k, t) == PlacedAt(placed, k, 0, t)
      ensures ps[k].reqSize == 0 ==> Base(ps[k], share.delta) == 0 && EffectiveWeight(ps[k]) == 0
    {
      CollapsedBase(ps[k], share.delta);
    }
  }

  /** When the requests fit, the final ShoveUp leaves the placement as it is, with the last sash at the end. */
  lemma ComputePositionsPlaces(ps: seq<Pane>, t: int, available: int)
    requires |ps| > 0 && RequestsNonNegative(ps) && WeightsNonNegative(ps) && TotalWeight(ps) > 0
    requires available - SumReq(ps) - t * (|ps| - 1) >= 0
    ensures var share := Distribute(available - SumReq(ps) - t * (|ps| - 1), TotalWeight(ps));
      && share.delta >= 0 && share.remainder >= 0
      && ComputePositions(ps, t, available) == Place(ps, 0, share.remainder, share.delta, t)
      && Place(ps, 0, share.remainder, share.delta, t)[|ps| - 1].sashPos == available
  {
    var n := |ps|;
    var difference := available - SumReq(ps) - t * (n - 1);
    var weight := TotalWeight(ps);
    var share := Distribute(difference, weight);
    DistributeNormalised(difference, weight);
    QuotientNonNegative(difference, weight, share.delta, share.remainder);
    var placed := Place(ps, 0, share.remainder, share.delta, t);
    PlaceEnd(ps, 0, share.remainder, share.delta, t);
    assert placed[n - 1].sashPos == available;
    PlaceGapped(ps, 0, share.remainder, share.delta, t);
    if n > 1 {
      assert SashGap(placed, n - 1, t);
    }
    assert SetSash(placed, n - 1, available) == placed;
  }

}
