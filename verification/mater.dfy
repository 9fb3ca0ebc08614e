/**
  The region-id colour table of librt's mater.c: a list of id ranges, each
  with a colour and a material handle, kept in strictly ascending order
  without overlaps. A new record is inserted by cutting away whatever part
  of the old ranges it covers; a region's colour is the first range that
  contains its id, or a red default.
*/
module Mater {
  import opened Wrappers

  /** Where the record came from in the database, or none for a piece made by splitting. */
  datatype Addr = NoAddr | At(offset: int)

  /** What a range paints its regions with: red, green, blue and the material handle. */
  datatype Shade = Shade(r: int, g: int, b: int, handle: string)

  /** One entry of the list: the region ids low..high (inclusive) and their shade. */
  datatype Mater = Mater(low: int, high: int, shade: Shade, daddr: Addr)

  /** The colour given to regions no entry covers: ids 0..32767, red. */
  const DefaultMater := Mater(0, 32767, Shade(255, 0, 0, "{default mater}"), NoAddr)

  predicate Contains(m: Mater, id: int) {
    m.low <= id <= m.high
  }

  predicate WellFormed(m: Mater) {
    m.low <= m.high
  }

  /** Entry i-1 ends before entry i starts. */
  predicate Adjacent(l: seq<Mater>, i: int)
    requires 0 < i < |l|
  {
    l[i - 1].high < l[i].low
  }

  /** The list's invariant: non-empty ranges, strictly ascending, no overlaps. */
  predicate Ordered(l: seq<Mater>) {
    && (forall i :: 0 <= i < |l| ==> WellFormed(l[i]))
    && (forall i :: 0 < i < |l| ==> Adjacent(l, i))
  }

  /** The first entry containing `id`, as the lookup loop finds it. */
  function FirstMatch(l: seq<Mater>, id: int): (r: Option<Mater>)
    ensures r.Some? ==> r.value in l && Contains(r.value, id)
    ensures r.None? <==> forall k :: 0 <= k < |l| ==> !Contains(l[k], id)
    decreases |l|
  {
    if l == [] then None
    else if Contains(l[0], id) then Some(l[0])
    else
      assert forall k :: 0 < k < |l| ==> l[k] == l[1..][k - 1];
      FirstMatch(l[1..], id)
  }

  /** The shade the list gives region `id`, if any entry covers it. */
  function ShadeAt(l: seq<Mater>, id: int): Option<Shade> {
    match FirstMatch(l, id)
    case None => None
    case Some(m) => Some(m.shade)
  }

  /** Looking up in a list with `m` in front: `m` if it holds the id, the rest otherwise. */
  lemma ShadeAtCons(m: Mater, l: seq<Mater>, id: int)
    ensures ShadeAt([m] + l, id) == if Contains(m, id) then Some(m.shade) else ShadeAt(l, id)
  {
    assert ([m] + l)[1..] == l;
  }

  /**
    color_map: the first entry whose range holds the region id, or the
    default entry when none does.
  */
  method ColorMap(l: seq<Mater>, id: int) returns (m: Mater)
    ensures (forall k :: 0 <= k < |l| ==> !Contains(l[k], id)) ==> m == DefaultMater
    ensures (exists k :: 0 <= k < |l| && Contains(l[k], id)) ==>
      exists k :: 0 <= k < |l| && m == l[k] && Contains(l[k], id) &&
        forall j :: 0 <= j < k ==> !Contains(l[j], id)
    ensures m == FirstMatch(l, id).GetOr(DefaultMater)
  {
    var index := 0;
    while index < |l|
      invariant 0 <= index <= |l|
      invariant forall j :: 0 <= j < index ==> !Contains(l[j], id)
      invariant FirstMatch(l[index..], id) == FirstMatch(l, id)
    {
      if id <= l[index].high && id >= l[index].low {
        return l[index];
      }
      assert l[index..][1..] == l[index + 1..];
      index := index + 1;
    }
    return DefaultMater;
  }

  /** In an ordered list every earlier entry ends before every later one starts. */
  lemma {:induction false} OrderedChain(l: seq<Mater>, i: int, j: int)
    requires Ordered(l) && 0 <= i < j < |l|
    ensures l[i].high < l[j].low
    decreases j - i
  {
    assert Adjacent(l, j);
    if i < j - 1 {
      OrderedChain(l, i, j - 1);
    }
    assert WellFormed(l[j - 1]);
  }

  /** In an ordered list at most one entry holds a given id, so first match is the only match. */
  lemma OrderedUnique(l: seq<Mater>, id: int, i: int, j: int)
    requires Ordered(l) && 0 <= i < |l| && 0 <= j < |l|
    requires Contains(l[i], id) && Contains(l[j], id)
    ensures i == j
  {
    if i < j {
      OrderedChain(l, i, j);
    } else if j < i {
      OrderedChain(l, j, i);
    }
  }

  lemma OrderedTail(l: seq<Mater>)
    requires Ordered(l) && |l| > 0
    ensures Ordered(l[1..])
  {
    var tl := l[1..];
    forall i | 0 < i < |tl|
      ensures Adjacent(tl, i)
    {
      assert Adjacent(l, i + 1);
    }
  }

  /** Putting an entry in front of an ordered list that starts after it keeps the list ordered. */
  lemma OrderedCons(m: Mater, l: seq<Mater>)
    requires WellFormed(m) && Ordered(l)
    requires |l| > 0 ==> m.high < l[0].low
    ensures Ordered([m] + l)
  {
    var c := [m] + l;
    forall i | 0 < i < |c|
      ensures Adjacent(c, i)
    {
      if i > 1 {
        assert Adjacent(l, i - 1);
      }
    }
  }

  /** No entry of an ordered list holds an id below its first entry. */
  lemma {:induction false} BelowFirst(l: seq<Mater>, id: int)
    requires Ordered(l) && |l| > 0 && id < l[0].low
    ensures FirstMatch(l, id) == None
  {
    forall k | 0 <= k < |l|
      ensures !Contains(l[k], id)
    {
      if k > 0 {
        OrderedChain(l, 0, k);
      }
    }
  }

  /**
    The check_overlap loop: the new entry `n` goes in front of `rest`; every
    following entry it covers completely is dropped, and the first one it
    covers partly is shortened to start just after it.
  */
  function CheckOverlap(n: Mater, rest: seq<Mater>): (r: seq<Mater>)
    ensures 0 < |r| <= |rest| + 1 && r[0] == n
    decreases |rest|
  {
    if rest == [] || n.high < rest[0].low then [n] + rest
    else if n.high >= rest[0].high then CheckOverlap(n, rest[1..])
    else [n, rest[0].(low := n.high + 1)] + rest[1..]
  }

  /**
    insert_color as written. The walk keeps the source's two boundary
    tests: an old entry with the same low end but a higher high end falls
    through to the "shorten" case, and an old entry ending exactly at the
    new low end is not shortened.
  */
  function InsertAsWritten(l: seq<Mater>, n: Mater): (r: seq<Mater>)
    ensures n in r && |r| <= |l| + 2
  {
    if l == [] || n.high < l[0].low then [n] + l
    else if n.low < l[0].low then CheckOverlap(n, l)
    else WalkAsWritten(l, n)
  }

  function WalkAsWritten(l: seq<Mater>, n: Mater): (r: seq<Mater>)
    requires |l| > 0
    ensures n in r && |r| <= |l| + 2
    decreases |l|
  {
    var mp := l[0];
    var rest := l[1..];
    if mp.low == n.low && mp.high <= n.high then CheckOverlap(n, rest)
    else if mp.low < n.low && mp.high > n.high then
      [mp.(high := n.low - 1), n, mp.(low := n.high + 1, daddr := NoAddr)] + rest
    else if mp.high > n.low then [mp.(high := n.low - 1)] + CheckOverlap(n, rest)
    else if rest == [] || n.low < rest[0].low then [mp] + CheckOverlap(n, rest)
    else [mp] + WalkAsWritten(rest, n)
  }

  /**
    insert_color with both boundaries corrected: an old entry with the same
    low end is handled by check_overlap (dropped or cut to start after the
    new one), and an old entry reaching the new low end is shortened.
  */
  function Insert(l: seq<Mater>, n: Mater): (r: seq<Mater>)
    ensures n in r && |r| <= |l| + 2
  {
    if l == [] || n.high < l[0].low then [n] + l
    else if n.low < l[0].low then CheckOverlap(n, l)
    else Walk(l, n)
  }

  function Walk(l: seq<Mater>, n: Mater): (r: seq<Mater>)
    requires |l| > 0
    ensures n in r && |r| <= |l| + 2
    ensures r[0].low == l[0].low
    decreases |l|
  {
    var mp := l[0];
    var rest := l[1..];
    if mp.low == n.low then CheckOverlap(n, l)
    else if mp.low < n.low && mp.high > n.high then
      [mp.(high := n.low - 1), n, mp.(low := n.high + 1, daddr := NoAddr)] + rest
    else if mp.high >= n.low then [mp.(high := n.low - 1)] + CheckOverlap(n, rest)
    else if rest == [] || n.low < rest[0].low then [mp] + CheckOverlap(n, rest)
    else [mp] + Walk(rest, n)
  }

  /** color_addrec: a database colour record, inserted with its database address. */
  datatype ColorRecord = ColorRecord(low: int, high: int, r: int, g: int, b: int)

  /** The entry color_addrec builds from a record: its range and colour, no material handle, its address. */
  function RecordEntry(rec: ColorRecord, addr: int): Mater {
    Mater(rec.low, rec.high, Shade(rec.r, rec.g, rec.b, ""), At(addr))
  }

  /** color_addrec as written: the record's entry goes through insert_color as written. */
  function AddRecord(l: seq<Mater>, rec: ColorRecord, addr: int): (r: seq<Mater>)
    ensures RecordEntry(rec, addr) in r && |r| <= |l| + 2
  {
    InsertAsWritten(l, RecordEntry(rec, addr))
  }

  /** color_addrec with the corrected insertion. */
  function AddRecordCorrected(l: seq<Mater>, rec: ColorRecord, addr: int): (r: seq<Mater>)
    ensures RecordEntry(rec, addr) in r && |r| <= |l| + 2
  {
    Insert(l, RecordEntry(rec, addr))
  }

  // ---------------------------------------------------------------------
  // The corrected insert keeps the list ordered and paints exactly the new range.

  lemma {:induction false} CheckOverlapOrdered(n: Mater, rest: seq<Mater>)
    requires WellFormed(n) && Ordered(rest)
    ensures Ordered(CheckOverlap(n, rest))
    decreases |rest|
  {
    if rest == [] || n.high < rest[0].low {
      OrderedCons(n, rest);
    } else if n.high >= rest[0].high {
      OrderedTail(rest);
      CheckOverlapOrdered(n, rest[1..]);
    } else {
      OrderedTail(rest);
      var cut := rest[0].(low := n.high + 1);
      if |rest| > 1 {
        assert Adjacent(rest, 1);
      }
      OrderedCons(cut, rest[1..]);
      OrderedCons(n, [cut] + rest[1..]);
      assert [n, cut] + rest[1..] == [n] + ([cut] + rest[1..]);
    }
  }

  lemma {:induction false} CheckOverlapPaints(n: Mater, rest: seq<Mater>, id: int)
    requires WellFormed(n) && Ordered(rest)
    requires |rest| > 0 ==> rest[0].low >= n.low
    ensures ShadeAt(CheckOverlap(n, rest), id) ==
      if Contains(n, id) then Some(n.shade) else ShadeAt(rest, id)
    decreases |rest|
  {
    var r := CheckOverlap(n, rest);
    if Contains(n, id) {
    } else if id < n.low {
      CheckOverlapOrdered(n, rest);
      BelowFirst(r, id);
      if rest != [] {
        BelowFirst(rest, id);
      }
    } else if rest == [] || n.high < rest[0].low {
      assert r[1..] == rest;
    } else if n.high >= rest[0].high {
      OrderedTail(rest);
      if |rest| > 1 {
        assert Adjacent(rest, 1);
      }
      CheckOverlapPaints(n, rest[1..], id);
      assert !Contains(rest[0], id);
    } else {
      var cut := rest[0].(low := n.high + 1);
      assert r == [n] + ([cut] + rest[1..]);
      ShadeAtCons(n, [cut] + rest[1..], id);
      ShadeAtCons(cut, rest[1..], id);
      assert rest == [rest[0]] + rest[1..];
      ShadeAtCons(rest[0], rest[1..], id);
    }
  }

  lemma {:induction false} WalkOrdered(l: seq<Mater>, n: Mater)
    requires WellFormed(n) && Ordered(l) && |l| > 0 && l[0].low <= n.low
    ensures Ordered(Walk(l, n))
    decreases |l|
  {
    var mp := l[0];
    var rest := l[1..];
    OrderedTail(l);
    assert WellFormed(mp);
    if |rest| > 0 {
      assert Adjacent(l, 1);
    }
    if mp.low == n.low {
      CheckOverlapOrdered(n, l);
    } else if mp.low < n.low && mp.high > n.high {
      var zot := mp.(low := n.high + 1, daddr := NoAddr);
      OrderedCons(zot, rest);
      OrderedCons(n, [zot] + rest);
      OrderedCons(mp.(high := n.low - 1), [n] + ([zot] + rest));
      assert [mp.(high := n.low - 1), n, zot] + rest == [mp.(high := n.low - 1)] + ([n] + ([zot] + rest));
    } else if mp.high >= n.low {
      CheckOverlapOrdered(n, rest);
      OrderedCons(mp.(high := n.low - 1), CheckOverlap(n, rest));
    } else if rest == [] || n.low < rest[0].low {
      CheckOverlapOrdered(n, rest);
      OrderedCons(mp, CheckOverlap(n, rest));
    } else {
      WalkOrdered(rest, n);
      OrderedCons(mp, Walk(rest, n));
    }
  }

  lemma {:induction false} WalkPaints(l: seq<Mater>, n: Mater, id: int)
    requires WellFormed(n) && Ordered(l) && |l| > 0 && l[0].low <= n.low
    ensures ShadeAt(Walk(l, n), id) == if Contains(n, id) then Some(n.shade) else ShadeAt(l, id)
    decreases |l|
  {
    var mp := l[0];
    var rest := l[1..];
    if WalkStops(l, n) {
      WalkStopsPaints(l, n, id);
    } else {
      OrderedTail(l);
      assert Adjacent(l, 1);
      assert l == [mp] + rest;
      assert Walk(l, n) == [mp] + Walk(rest, n);
      WalkPaints(rest, n, id);
      ShadeAtCons(mp, Walk(rest, n), id);
      ShadeAtCons(mp, rest, id);
    }
  }

  /** Does the walk place the new entry at the head of `l`, rather than moving on? */
  predicate WalkStops(l: seq<Mater>, n: Mater)
    requires |l| > 0
  {
    var mp := l[0];
    || mp.low == n.low
    || mp.high >= n.low
    || |l| == 1 || n.low < l[1].low
  }

  /** The cases where the walk places the new entry without going further. */
  lemma {:induction false} WalkStopsPaints(l: seq<Mater>, n: Mater, id: int)
    requires WellFormed(n) && Ordered(l) && |l| > 0 && l[0].low <= n.low
    requires WalkStops(l, n)
    ensures ShadeAt(Walk(l, n), id) == if Contains(n, id) then Some(n.shade) else ShadeAt(l, id)
  {
    var mp := l[0];
    var rest := l[1..];
    OrderedTail(l);
    assert WellFormed(mp);
    if |rest| > 0 {
      assert Adjacent(l, 1);
    }
    assert l == [mp] + rest;
    assert ShadeAt(l, id) == ShadeAt([mp] + rest, id);
    if mp.low == n.low {
      assert Walk(l, n) == CheckOverlap(n, l);
      CheckOverlapPaints(n, l, id);
    } else if mp.low < n.low && mp.high > n.high {
      assert Walk(l, n) == [mp.(high := n.low - 1), n, mp.(low := n.high + 1, daddr := NoAddr)] + rest;
      SplitPaints(mp, rest, n, id);
    } else if mp.high >= n.low {
      assert Walk(l, n) == [mp.(high := n.low - 1)] + CheckOverlap(n, rest);
      ShortenPaints(mp, rest, n, id);
    } else {
      assert Walk(l, n) == [mp] + CheckOverlap(n, rest);
      AppendAfterPaints(mp, rest, n, id);
    }
  }

  /** An old entry overlapping the new one's low end is cut short before it. */
  lemma ShortenPaints(mp: Mater, rest: seq<Mater>, n: Mater, id: int)
    requires WellFormed(n) && Ordered(rest) && mp.low < n.low <= mp.high <= n.high
    requires |rest| > 0 ==> rest[0].low >= n.low
    ensures ShadeAt([mp.(high := n.low - 1)] + CheckOverlap(n, rest), id) ==
      if Contains(n, id) then Some(n.shade) else ShadeAt([mp] + rest, id)
  {
    CheckOverlapPaints(n, rest, id);
    ShadeAtCons(mp.(high := n.low - 1), CheckOverlap(n, rest), id);
    ShadeAtCons(mp, rest, id);
  }

  /** An old entry wholly below the new one is kept in front of it. */
  lemma AppendAfterPaints(mp: Mater, rest: seq<Mater>, n: Mater, id: int)
    requires WellFormed(n) && Ordered(rest) && mp.high < n.low
    requires |rest| > 0 ==> rest[0].low >= n.low
    ensures ShadeAt([mp] + CheckOverlap(n, rest), id) ==
      if Contains(n, id) then Some(n.shade) else ShadeAt([mp] + rest, id)
  {
    CheckOverlapPaints(n, rest, id);
    ShadeAtCons(mp, CheckOverlap(n, rest), id);
    ShadeAtCons(mp, rest, id);
  }

  /** Splitting `mp` around a new entry inside it paints the new range and nothing else. */
  lemma SplitPaints(mp: Mater, rest: seq<Mater>, n: Mater, id: int)
    requires WellFormed(n) && mp.low < n.low && n.high < mp.high
    ensures var cut := mp.(high := n.low - 1);
      var zot := mp.(low := n.high + 1, daddr := NoAddr);
      ShadeAt([cut, n, zot] + rest, id) ==
        if Contains(n, id) then Some(n.shade) else ShadeAt([mp] + rest, id)
  {
    var cut := mp.(high := n.low - 1);
    var zot := mp.(low := n.high + 1, daddr := NoAddr);
    assert [cut, n, zot] + rest == [cut] + ([n] + ([zot] + rest));
    ShadeAtCons(cut, [n] + ([zot] + rest), id);
    ShadeAtCons(n, [zot] + rest, id);
    ShadeAtCons(zot, rest, id);
    ShadeAtCons(mp, rest, id);
    assert cut.shade == mp.shade && zot.shade == mp.shade;
    if Contains(cut, id) || Contains(zot, id) {
      assert Contains(mp, id) && !Contains(n, id);
    } else if !Contains(n, id) {
      assert !Contains(mp, id);
    }
  }

  /** Inserting into an ordered list keeps it ordered. */
  lemma InsertOrdered(l: seq<Mater>, n: Mater)
    requires WellFormed(n) && Ordered(l)
    ensures Ordered(Insert(l, n))
  {
    if l == [] || n.high < l[0].low {
      OrderedCons(n, l);
    } else if n.low < l[0].low {
      CheckOverlapOrdered(n, l);
    } else {
      WalkOrdered(l, n);
    }
  }

  /**
    After inserting a record into an ordered list, the ids in its range take
    its shade and every other id keeps the shade it had.
  */
  lemma InsertPaints(l: seq<Mater>, n: Mater, id: int)
    requires WellFormed(n) && Ordered(l)
    ensures ShadeAt(Insert(l, n), id) == if Contains(n, id) then Some(n.shade) else ShadeAt(l, id)
  {
    if l == [] || n.high < l[0].low {
      var r := [n] + l;
      assert r[1..] == l;
      if !Contains(n, id) && id < n.low && l != [] {
        BelowFirst(l, id);
      }
    } else if n.low < l[0].low {
      CheckOverlapPaints(n, l, id);
    } else {
      WalkPaints(l, n, id);
    }
  }

  /**
    check_overlap's result when the first `k` followers are covered entirely:
    they are gone, and either the rest follows unchanged or its first entry,
    covered in part, starts just after the new range.
  */
  predicate TrimsAt(n: Mater, rest: seq<Mater>, k: int)
    requires 0 <= k <= |rest|
  {
    && (forall j :: 0 <= j < k ==> rest[j].low <= n.high && rest[j].high <= n.high)
    && ((CheckOverlap(n, rest) == [n] + rest[k..] && (k == |rest| || n.high < rest[k].low))
        || (k < |rest| && rest[k].low <= n.high < rest[k].high
            && CheckOverlap(n, rest) == [n, rest[k].(low := n.high + 1)] + rest[k + 1..]))
  }

  /**
    check_overlap removes the followers the new range covers entirely, raises
    the low end of the first one it covers in part, and leaves the rest as
    they were.
  */
  lemma {:induction false} CheckOverlapTrims(n: Mater, rest: seq<Mater>)
    ensures exists k :: 0 <= k <= |rest| && TrimsAt(n, rest, k)
    decreases |rest|
  {
    if rest == [] || n.high < rest[0].low {
      assert rest[0..] == rest;
      assert TrimsAt(n, rest, 0);
    } else if n.high >= rest[0].high {
      var tl := rest[1..];
      CheckOverlapTrims(n, tl);
      var k :| 0 <= k <= |tl| && TrimsAt(n, tl, k);
      assert tl[k..] == rest[k + 1..];
      assert k < |tl| ==> tl[k + 1..] == rest[k + 2..];
      forall j | 0 < j < k + 1
        ensures rest[j].low <= n.high && rest[j].high <= n.high
      {
        assert rest[j] == tl[j - 1];
      }
      assert TrimsAt(n, rest, k + 1);
    } else {
      assert TrimsAt(n, rest, 0);
    }
  }

  /**
    The cases of insert_color at the head of the list: a range below the
    head becomes the new head; one with the head's low end that reaches at
    least as far replaces it; one strictly inside it splits it in three.
  */
  lemma InsertHeadCases(l: seq<Mater>, n: Mater)
    ensures l == [] || n.high < l[0].low ==> Insert(l, n) == [n] + l
    ensures WellFormed(n) && l != [] && l[0].low == n.low && l[0].high <= n.high ==> Insert(l, n) == CheckOverlap(n, l[1..])
    ensures WellFormed(n) && l != [] && l[0].low < n.low && n.high < l[0].high ==>
      Insert(l, n) == [l[0].(high := n.low - 1), n, l[0].(low := n.high + 1, daddr := NoAddr)] + l[1..]
  {
    if l != [] && WellFormed(n) && n.low == l[0].low && l[0].high <= n.high {
      assert Walk(l, n) == CheckOverlap(n, l);
    }
  }

  /** The same head cases for insert_color as written, and the redefinition of the head. */
  lemma InsertAsWrittenHead(l: seq<Mater>, n: Mater)
    ensures l == [] || n.high < l[0].low ==> InsertAsWritten(l, n) == [n] + l
    ensures l != [] && n.low < l[0].low <= n.high ==> InsertAsWritten(l, n) == CheckOverlap(n, l)
    ensures WellFormed(n) && l != [] && l[0].low == n.low && l[0].high <= n.high ==>
      InsertAsWritten(l, n) == CheckOverlap(n, l[1..])
    ensures WellFormed(n) && l != [] && l[0].low < n.low && n.high < l[0].high ==>
      InsertAsWritten(l, n) == [l[0].(high := n.low - 1), n, l[0].(low := n.high + 1, daddr := NoAddr)] + l[1..]
  {
    if l != [] && l[0].low <= n.low {
      assert l == [l[0]] + l[1..];
      WalkAsWrittenCons(l[0], l[1..], n);
    }
  }

  /** The walk as written passes an entry that ends below the new range when the next one starts at or below it. */
  lemma WalkAsWrittenPasses(mp: Mater, tail: seq<Mater>, n: Mater)
    requires WellFormed(n) && tail != [] && mp.low < n.low && mp.high <= n.low && tail[0].low <= n.low
    ensures WalkAsWritten([mp] + tail, n) == [mp] + WalkAsWritten(tail, n)
  {
    WalkAsWrittenCons(mp, tail, n);
  }

  /** In an ordered list, an entry k > 0 starting at or below the new low end puts the head and its successor there too. */
  lemma OrderedBelow(l: seq<Mater>, n: Mater, k: int)
    requires Ordered(l) && 0 < k < |l| && l[k].low <= n.low
    ensures l[0].low < n.low && l[0].high <= n.low && l[1].low <= n.low
    ensures Ordered(l[1..]) && l[1..][k - 1] == l[k]
  {
    OrderedChain(l, 0, k);
    assert WellFormed(l[0]) && WellFormed(l[1]);
    if k > 1 {
      OrderedChain(l, 1, k);
    }
    OrderedTail(l);
  }

  /**
    In an ordered list the walk of insert_color as written passes every
    entry that ends below the entry k, when entry k starts at or below the
    new low end.
  */
  lemma {:induction false} WalkAsWrittenSkips(l: seq<Mater>, n: Mater, k: int)
    requires Ordered(l) && WellFormed(n) && 0 <= k < |l| && l[k].low <= n.low
    ensures WalkAsWritten(l, n) == l[..k] + WalkAsWritten(l[k..], n)
    decreases k
  {
    if k > 0 {
      var tail := l[1..];
      OrderedBelow(l, n, k);
      assert l == [l[0]] + tail;
      WalkAsWrittenPasses(l[0], tail, n);
      WalkAsWrittenSkips(tail, n, k - 1);
      Concat3([l[0]], tail[..k - 1], WalkAsWritten(tail[k - 1..], n));
      assert l[..k] == [l[0]] + tail[..k - 1];
      assert l[k..] == tail[k - 1..];
    }
  }

  lemma Concat3(a: seq<Mater>, b: seq<Mater>, c: seq<Mater>)
    ensures a + (b + c) == a + b + c
  {
  }

  /** Where the walk of insert_color as written reaches entry k, everything before it is kept. */
  lemma InsertAsWrittenReaches(l: seq<Mater>, n: Mater, k: int)
    requires Ordered(l) && WellFormed(n) && 0 <= k < |l| && l[k].low <= n.low
    ensures InsertAsWritten(l, n) == l[..k] + WalkAsWritten([l[k]] + l[k + 1..], n)
  {
    if k > 0 {
      OrderedChain(l, 0, k);
    }
    assert WellFormed(l[0]) && WellFormed(l[k]);
    WalkAsWrittenSkips(l, n, k);
    assert l[k..] == [l[k]] + l[k + 1..];
  }

  /** The walk as written, unfolded once at the entry mp followed by tail. */
  lemma WalkAsWrittenCons(mp: Mater, tail: seq<Mater>, n: Mater)
    ensures WalkAsWritten([mp] + tail, n)
      == if mp.low == n.low && mp.high <= n.high then CheckOverlap(n, tail)
         else if mp.low < n.low && mp.high > n.high then
           [mp.(high := n.low - 1), n, mp.(low := n.high + 1, daddr := NoAddr)] + tail
         else if mp.high > n.low then [mp.(high := n.low - 1)] + CheckOverlap(n, tail)
         else if tail == [] || n.low < tail[0].low then [mp] + CheckOverlap(n, tail)
         else [mp] + WalkAsWritten(tail, n)
  {
    assert ([mp] + tail)[0] == mp && ([mp] + tail)[1..] == tail;
  }

  /** The walk's cases at the entry mp it stops on, behind the kept entries pre. */
  lemma WalkAsWrittenAfter(pre: seq<Mater>, mp: Mater, tail: seq<Mater>, n: Mater)
    requires WellFormed(n) && mp.low <= n.low
    ensures var r := pre + WalkAsWritten([mp] + tail, n);
      && (mp.low == n.low && mp.high <= n.high ==> r == pre + CheckOverlap(n, tail))
      && (mp.low < n.low && n.high < mp.high ==>
            r == pre + [mp.(high := n.low - 1), n, mp.(low := n.high + 1, daddr := NoAddr)] + tail)
      && (mp.high > n.low && !(mp.low == n.low && mp.high <= n.high) && !(mp.low < n.low && n.high < mp.high) ==>
            r == pre + [mp.(high := n.low - 1)] + CheckOverlap(n, tail))
      && (mp.low < n.low && mp.high <= n.low && (tail == [] || n.low < tail[0].low) ==>
            r == pre + [mp] + CheckOverlap(n, tail))
  {
    WalkAsWrittenCons(mp, tail, n);
    Concat3(pre, [mp.(high := n.low - 1), n, mp.(low := n.high + 1, daddr := NoAddr)], tail);
    Concat3(pre, [mp.(high := n.low - 1)], CheckOverlap(n, tail));
    Concat3(pre, [mp], CheckOverlap(n, tail));
  }

  /**
    insert_color as written, at the entry k of an ordered list where the
    walk stops: the overwrite, split, shorten and append cases, including
    the entry with the same low end and a higher high end, which is
    shortened to end below its own low end.
  */
  lemma InsertAsWrittenAt(l: seq<Mater>, n: Mater, k: int)
    requires Ordered(l) && WellFormed(n) && 0 <= k < |l|
    ensures l[k].low == n.low && l[k].high <= n.high ==>
      InsertAsWritten(l, n) == l[..k] + CheckOverlap(n, l[k + 1..])
    ensures l[k].low < n.low && n.high < l[k].high ==>
      InsertAsWritten(l, n) == l[..k] + [l[k].(high := n.low - 1), n, l[k].(low := n.high + 1, daddr := NoAddr)] + l[k + 1..]
    ensures l[k].low < n.low < l[k].high <= n.high ==>
      InsertAsWritten(l, n) == l[..k] + [l[k].(high := n.low - 1)] + CheckOverlap(n, l[k + 1..])
    ensures l[k].low == n.low && n.high < l[k].high ==>
      InsertAsWritten(l, n) == l[..k] + [l[k].(high := n.low - 1)] + CheckOverlap(n, l[k + 1..])
    ensures l[k].low < n.low && l[k].high <= n.low && (k == |l| - 1 || n.low < l[k + 1].low) ==>
      InsertAsWritten(l, n) == l[..k + 1] + CheckOverlap(n, l[k + 1..])
  {
    if l[k].low <= n.low {
      var tail := l[k + 1..];
      InsertAsWrittenReaches(l, n, k);
      WalkAsWrittenAfter(l[..k], l[k], tail, n);
      assert l[..k] + [l[k]] == l[..k + 1];
      if k < |l| - 1 {
        assert tail[0] == l[k + 1];
      }
    }
  }

  /** color_map after the corrected color_addrec: the record's ids get its colour, the rest keep theirs. */
  lemma AddRecordThenMap(l: seq<Mater>, rec: ColorRecord, addr: int, id: int)
    requires Ordered(l) && rec.low <= rec.high
    ensures Ordered(AddRecordCorrected(l, rec, addr))
    ensures rec.low <= id <= rec.high ==>
      FirstMatch(AddRecordCorrected(l, rec, addr), id).Some? &&
      FirstMatch(AddRecordCorrected(l, rec, addr), id).value.shade == Shade(rec.r, rec.g, rec.b, "")
    ensures !(rec.low <= id <= rec.high) ==> ShadeAt(AddRecordCorrected(l, rec, addr), id) == ShadeAt(l, id)
  {
    var n := RecordEntry(rec, addr);
    InsertOrdered(l, n);
    InsertPaints(l, n, id);
  }

  /**
    The two boundary cases the insertion as written gets wrong: an older
    entry ending exactly at the new low end, and an older entry with the
    same low end reaching further.
  */
  predicate BoundaryCase(m: Mater, n: Mater) {
    (m.low < n.low && m.high == n.low) || (m.low == n.low && m.high > n.high)
  }

  /** Away from the two boundary cases, the walk as written and the corrected walk agree. */
  lemma {:induction false} WalkAgreesOffBoundaries(l: seq<Mater>, n: Mater)
    requires |l| > 0 && WellFormed(n) && l[0].low <= n.low
    requires forall k :: 0 <= k < |l| ==> !BoundaryCase(l[k], n)
    ensures WalkAsWritten(l, n) == Walk(l, n)
    decreases |l|
  {
    var mp := l[0];
    var rest := l[1..];
    assert !BoundaryCase(l[0], n);
    if mp.low == n.low {
      assert mp.high <= n.high;
      assert WalkAsWritten(l, n) == CheckOverlap(n, rest);
      assert CheckOverlap(n, l) == CheckOverlap(n, rest);
    } else if mp.low < n.low && mp.high > n.high {
    } else if mp.high >= n.low {
      assert mp.high > n.low;
    } else if rest == [] || n.low < rest[0].low {
    } else {
      forall k | 0 <= k < |rest|
        ensures !BoundaryCase(rest[k], n)
      {
        assert rest[k] == l[k + 1];
      }
      WalkAgreesOffBoundaries(rest, n);
    }
  }

  /** Away from the two boundary cases, insert_color as written and the corrected insertion agree. */
  lemma InsertAgreesOffBoundaries(l: seq<Mater>, n: Mater)
    requires WellFormed(n)
    requires forall k :: 0 <= k < |l| ==> !BoundaryCase(l[k], n)
    ensures InsertAsWritten(l, n) == Insert(l, n)
  {
    if l != [] && n.low >= l[0].low && n.high >= l[0].low {
      WalkAgreesOffBoundaries(l, n);
    }
  }

  /**
    color_map after color_addrec as written: when no entry of the list meets
    the record at a boundary case, the list stays ordered and the record's
    ids get its colour while the rest keep theirs.
  */
  lemma AddRecordAsWrittenThenMap(l: seq<Mater>, rec: ColorRecord, addr: int, id: int)
    requires Ordered(l) && rec.low <= rec.high
    requires forall k :: 0 <= k < |l| ==> !BoundaryCase(l[k], RecordEntry(rec, addr))
    ensures Ordered(AddRecord(l, rec, addr))
    ensures rec.low <= id <= rec.high ==>
      FirstMatch(AddRecord(l, rec, addr), id).Some? &&
      FirstMatch(AddRecord(l, rec, addr), id).value.shade == Shade(rec.r, rec.g, rec.b, "")
    ensures !(rec.low <= id <= rec.high) ==> ShadeAt(AddRecord(l, rec, addr), id) == ShadeAt(l, id)
  {
    InsertAgreesOffBoundaries(l, RecordEntry(rec, addr));
    AddRecordThenMap(l, rec, addr, id);
  }

  /** color_addrec as written breaks the list's order on a record that starts where an entry ends. */
  lemma AddRecordAsWrittenOverlaps()
    ensures var l := [Mater(0, 10, Shade(0, 0, 255, ""), At(0))];
      && Ordered(l)
      && AddRecord(l, ColorRecord(10, 20, 0, 255, 0), 1) == [l[0], RecordEntry(ColorRecord(10, 20, 0, 255, 0), 1)]
      && !Ordered(AddRecord(l, ColorRecord(10, 20, 0, 255, 0), 1))
  {
    AsWrittenTouchingOverlaps(Shade(0, 0, 255, ""), Shade(0, 255, 0, ""));
  }

  // ---------------------------------------------------------------------
  // The two inputs on which the insert as written breaks the list's invariant.

  /**
    An old entry that ends exactly where the new one begins is kept whole:
    the two overlap on id 10, which keeps its old colour.
  */
  lemma AsWrittenTouchingOverlaps(before: Shade, after: Shade)
    requires before != after
    ensures var l := [Mater(0, 10, before, At(0))];
      var n := Mater(10, 20, after, At(1));
      && InsertAsWritten(l, n) == [Mater(0, 10, before, At(0)), n]
      && !Ordered(InsertAsWritten(l, n))
      && ShadeAt(InsertAsWritten(l, n), 10) == Some(before)
      && ShadeAt(Insert(l, n), 10) == Some(after)
  {
    var l := [Mater(0, 10, before, At(0))];
    var n := Mater(10, 20, after, At(1));
    var bad := InsertAsWritten(l, n);
    assert bad == [Mater(0, 10, before, At(0)), n];
    assert !Adjacent(bad, 1);
    assert Insert(l, n) == [Mater(0, 9, before, At(0)), n];
  }

  /**
    A new entry with the same low end as a longer old one turns the old
    entry into the empty range 5..4, so ids 11..20 lose their colour.
  */
  lemma AsWrittenSameLowInverts(before: Shade, after: Shade)
    ensures var l := [Mater(5, 20, before, At(0))];
      var n := Mater(5, 10, after, At(1));
      && InsertAsWritten(l, n) == [Mater(5, 4, before, At(0)), n]
      && !Ordered(InsertAsWritten(l, n))
      && ShadeAt(InsertAsWritten(l, n), 15) == None
      && ShadeAt(l, 15) == Some(before)
      && ShadeAt(Insert(l, n), 15) == Some(before)
  {
    var l := [Mater(5, 20, before, At(0))];
    var n := Mater(5, 10, after, At(1));
    var bad := InsertAsWritten(l, n);
    assert bad == [Mater(5, 4, before, At(0)), n];
    assert !WellFormed(bad[0]);
    assert FirstMatch(bad[1..], 15) == None;
    assert FirstMatch(l, 15) == Some(l[0]);
    var good := Insert(l, n);
    assert good == [n, Mater(11, 20, before, At(0))];
    assert FirstMatch(good[1..], 15) == Some(good[1]);
  }
}
