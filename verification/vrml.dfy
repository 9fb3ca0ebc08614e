/**
  The VRML converter's per-node step: a polygon node becomes a BoT of its
  non-degenerate triangles, a cone, box, cylinder or sphere becomes the
  matching primitive, and each object written gets a solid named "s<n>"
  and a region named "r<n>" with the next ident number.
*/
module VrmlConvert {
  import opened Wrappers
  import Decimal

  /** Three vertex indices, as the temporary face array holds them. */
  datatype Triple = Triple(a: int, b: int, c: int)

  /**
    Check_degenerate: 0 when two of the indices are equal, 1 otherwise.
    The three comparisons are made in the source's order.
  */
  function CheckDegenerate(face: Triple): (r: int)
    ensures r == 0 || r == 1
    ensures r == 0 <==> face.a == face.b || face.a == face.c || face.b == face.c
  {
    if face.a == face.b then 0
    else if face.a == face.c then 0
    else if face.b == face.c then 0
    else 1
  }

  /** The first m triples of a vertex-index sequence. */
  function TriplesUpTo(ids: seq<int>, m: nat): (ts: seq<Triple>)
    requires 3 * m <= |ids|
    ensures |ts| == m
    ensures forall k :: 0 <= k < m ==> ts[k] == Triple(ids[3 * k], ids[3 * k + 1], ids[3 * k + 2])
  {
    seq(m, k requires 0 <= k < m => Triple(ids[3 * k], ids[3 * k + 1], ids[3 * k + 2]))
  }

  /** The complete triples of a vertex-index sequence; trailing indices that do not fill one are dropped. */
  function Triples(ids: seq<int>): (ts: seq<Triple>)
    ensures |ts| == |ids| / 3
    ensures forall k :: 0 <= k < |ts| ==> ts[k] == Triple(ids[3 * k], ids[3 * k + 1], ids[3 * k + 2])
  {
    TriplesUpTo(ids, |ids| / 3)
  }

  /** The triples that are not degenerate, in order. */
  function KeepNonDegenerate(ts: seq<Triple>): (r: seq<Triple>)
    ensures |r| <= |ts|
    decreases |ts|
  {
    if ts == [] then []
    else
      var last := ts[|ts| - 1];
      KeepNonDegenerate(ts[..|ts| - 1]) + (if CheckDegenerate(last) == 1 then [last] else [])
  }

  /** A triple is kept exactly when it occurs and is not degenerate. */
  lemma {:induction false} KeepNonDegenerateMembers(ts: seq<Triple>, t: Triple)
    ensures t in KeepNonDegenerate(ts) <==> t in ts && CheckDegenerate(t) == 1
    decreases |ts|
  {
    if ts != [] {
      var front := ts[..|ts| - 1];
      KeepNonDegenerateMembers(front, t);
      assert ts == front + [ts[|ts| - 1]];
    }
  }

  /** Where index v falls when m whole triples precede it. */
  lemma SlotOf(v: int, m: int)
    requires 0 <= 3 * m <= v < 3 * m + 3
    ensures v % 3 == v - 3 * m
    ensures (v + 1) % 3 == 0 && v != 0 <==> v - 3 * m == 2
  {
  }

  /** Filtering a sequence grown by one triple. */
  lemma KeepSnoc(ts: seq<Triple>, t: Triple)
    ensures KeepNonDegenerate(ts + [t]) == KeepNonDegenerate(ts) + (if CheckDegenerate(t) == 1 then [t] else [])
  {
    assert (ts + [t])[..|ts|] == ts;
  }

  /** One complete triple processed: the kept faces grow by it when it is not degenerate. */
  lemma FacesStep(ids: seq<int>, m: nat, tmp: Triple)
    requires 3 * m + 3 <= |ids|
    requires tmp == Triple(ids[3 * m], ids[3 * m + 1], ids[3 * m + 2])
    ensures KeepNonDegenerate(TriplesUpTo(ids, m + 1))
      == KeepNonDegenerate(TriplesUpTo(ids, m)) + (if CheckDegenerate(tmp) == 1 then [tmp] else [])
  {
    assert TriplesUpTo(ids, m + 1) == TriplesUpTo(ids, m) + [tmp];
    KeepSnoc(TriplesUpTo(ids, m), tmp);
  }

  /** After the last whole triple, the kept faces are those of the whole sequence, none degenerate. */
  lemma FacesComplete(ids: seq<int>, m: nat)
    requires 3 * m <= |ids| < 3 * m + 3
    ensures KeepNonDegenerate(TriplesUpTo(ids, m)) == KeepNonDegenerate(Triples(ids))
    ensures forall k :: 0 <= k < |KeepNonDegenerate(Triples(ids))| ==> CheckDegenerate(KeepNonDegenerate(Triples(ids))[k]) == 1
  {
    assert m == |ids| / 3;
    var faces := KeepNonDegenerate(Triples(ids));
    forall k | 0 <= k < |faces|
      ensures CheckDegenerate(faces[k]) == 1
    {
      KeepNonDegenerateMembers(Triples(ids), faces[k]);
    }
  }

  /**
    The polygon loop of Convert_input: each vertex index goes to slot
    vert_no % 3 of the temporary face, and once a triple is complete it is
    appended if Check_degenerate accepts it. `ids` are the indices Add_vert
    returned for the node's vertices, in order.
  */
  method CollectFaces(ids: seq<int>) returns (faces: seq<Triple>, botFcurr: nat)
    ensures faces == KeepNonDegenerate(Triples(ids))
    ensures botFcurr == |faces|
    ensures forall k :: 0 <= k < |faces| ==> CheckDegenerate(faces[k]) == 1
    ensures |faces| <= |ids| / 3
  {
    faces := [];
    botFcurr := 0;
    var tmp := Triple(0, 0, 0);
    var vertNo := 0;
    ghost var m := 0;
    while vertNo < |ids|
      invariant 0 <= 3 * m <= vertNo <= |ids| && vertNo < 3 * m + 3
      invariant faces == KeepNonDegenerate(TriplesUpTo(ids, m))
      invariant |faces| <= m
      invariant botFcurr == |faces|
      invariant vertNo - 3 * m >= 1 ==> tmp.a == ids[3 * m]
      invariant vertNo - 3 * m >= 2 ==> tmp.b == ids[3 * m + 1]
    {
      SlotOf(vertNo, m);
      var id := ids[vertNo];
      var slot := vertNo % 3;
      if slot == 0 {
        tmp := tmp.(a := id);
      } else if slot == 1 {
        tmp := tmp.(b := id);
      } else {
        tmp := tmp.(c := id);
      }
      if (vertNo + 1) % 3 == 0 && vertNo != 0 {
        FacesStep(ids, m, tmp);
        if CheckDegenerate(tmp) == 1 {
          faces := faces + [tmp];
          botFcurr := botFcurr + 1;
        }
        m := m + 1;
      }
      vertNo := vertNo + 1;
    }
    FacesComplete(ids, m);
  }

  /** The node types the converter distinguishes. */
  datatype NodeType = Cone | Box | Cylinder | Sphere | OtherType

  /** A node: whether it is a polygon set, its type, and the Add_vert indices of its vertices. */
  datatype Node = Node(isPoly: bool, nodeType: NodeType, vertexIds: seq<int>)

  /** The primitive written for a node. */
  datatype Shape = BotShape(faces: seq<Triple>) | TgcShape | Arb8Shape | EllShape

  /** One object written: its solid, and the region that holds it with its ident number. */
  datatype Written = Written(solidName: string, shape: Shape, regionName: string, ident: int)

  /**
    The converter's state across nodes: the object counter (starting at
    -1), the next ident number (starting at 1000), the face count of the
    last polygon node, and the objects written, whose regions also make up
    the members of the top-level group.
  */
  datatype ConvState = ConvState(objnumb: int, idNo: int, botFcurr: nat, written: seq<Written>)

  const INITIAL := ConvState(-1, 1000, 0, [])

  /** "s" followed by the object number's "%d" text, which is never empty. */
  function SolidName(n: int): (name: string)
    ensures |name| >= 2 && name[0] == 's'
  {
    Decimal.NatToStringShape(if n < 0 then -n else n);
    "s" + Decimal.IntToString(n)
  }

  /** "r" followed by the object number's "%d" text, which is never empty. */
  function RegionName(n: int): (name: string)
    ensures |name| >= 2 && name[0] == 'r'
  {
    Decimal.NatToStringShape(if n < 0 then -n else n);
    "r" + Decimal.IntToString(n)
  }

  /** Past its one-letter prefix, a solid or region name scans back to the object number. */
  lemma NamesScanBack(n: int)
    ensures Decimal.ScanInt(SolidName(n)[1..]) == Some(n)
    ensures Decimal.ScanInt(RegionName(n)[1..]) == Some(n)
  {
    Decimal.ScanIntRoundTrip(n);
    assert SolidName(n)[1..] == Decimal.IntToString(n);
    assert RegionName(n)[1..] == Decimal.IntToString(n);
  }

  /**
    Convert_input: advance the counter and name the solid and region after
    it; a polygon node with no surviving face, or a node of an unsupported
    type, puts the counter back and writes nothing. Otherwise the primitive
    and its region are written and the ident number advances.
  */
  method ConvertInput(st: ConvState, node: Node) returns (r: ConvState)
    ensures node.isPoly ==> r.botFcurr == |KeepNonDegenerate(Triples(node.vertexIds))|
    ensures !node.isPoly ==> r.botFcurr == 0
    ensures (node.isPoly && KeepNonDegenerate(Triples(node.vertexIds)) == []) || (!node.isPoly && node.nodeType == OtherType)
      ==> r == st.(botFcurr := r.botFcurr)
    ensures (node.isPoly && KeepNonDegenerate(Triples(node.vertexIds)) != []) || (!node.isPoly && node.nodeType != OtherType)
      ==> && r.objnumb == st.objnumb + 1 && r.idNo == st.idNo + 1
          && r.written == st.written + [Written(SolidName(st.objnumb + 1), ShapeOf(node), RegionName(st.objnumb + 1), st.idNo)]
    ensures Step(st, r)
  {
    var objnumb := st.objnumb + 1;
    var solidName := SolidName(objnumb);
    var regionName := RegionName(objnumb);
    var shape: Shape;
    var fcurr := 0;
    if node.isPoly {
      var faces, count := CollectFaces(node.vertexIds);
      fcurr := count;
      if count == 0 {
        return st.(botFcurr := 0);
      }
      shape := BotShape(faces);
    } else if node.nodeType == Cone {
      shape := TgcShape;
    } else if node.nodeType == Box {
      shape := Arb8Shape;
    } else if node.nodeType == Cylinder {
      shape := TgcShape;
    } else if node.nodeType == Sphere {
      shape := EllShape;
    } else {
      return st.(botFcurr := 0);
    }
    r := ConvState(objnumb, st.idNo + 1, fcurr, st.written + [Written(solidName, shape, regionName, st.idNo)]);
  }

  /** The primitive a node that is written becomes. */
  function ShapeOf(node: Node): Shape {
    if node.isPoly then BotShape(KeepNonDegenerate(Triples(node.vertexIds)))
    else match node.nodeType
      case Cone => TgcShape
      case Box => Arb8Shape
      case Cylinder => TgcShape
      case _ => EllShape
  }

  /**
    The counter is one less than the number of objects written, the ident
    numbers run on from 1000, and object k is named s<k> and r<k> with
    ident 1000 + k.
  */
  predicate Consistent(st: ConvState) {
    && st.objnumb == |st.written| - 1
    && st.idNo == 1000 + |st.written|
    && forall k :: 0 <= k < |st.written| ==>
      && st.written[k].solidName == SolidName(k)
      && st.written[k].regionName == RegionName(k)
      && st.written[k].ident == 1000 + k
  }

  /**
    One call of Convert_input: either nothing is written and the counters
    stay, or one object named after the advanced counter is appended with
    the current ident number and both counters advance.
  */
  predicate Step(st: ConvState, r: ConvState) {
    || (r.objnumb == st.objnumb && r.idNo == st.idNo && r.written == st.written)
    || (&& r.objnumb == st.objnumb + 1 && r.idNo == st.idNo + 1
        && |r.written| == |st.written| + 1 && r.written[..|st.written|] == st.written
        && r.written[|st.written|].solidName == SolidName(st.objnumb + 1)
        && r.written[|st.written|].regionName == RegionName(st.objnumb + 1)
        && r.written[|st.written|].ident == st.idNo)
  }

  /** A step from a consistent state reaches a consistent state. */
  lemma StepKeepsConsistent(st: ConvState, r: ConvState)
    requires Consistent(st) && Step(st, r)
    ensures Consistent(r)
  {
    if r.written != st.written {
      forall k | 0 <= k < |r.written|
        ensures r.written[k].solidName == SolidName(k)
        ensures r.written[k].regionName == RegionName(k)
        ensures r.written[k].ident == 1000 + k
      {
        if k < |st.written| {
          assert r.written[k] == r.written[..|st.written|][k] == st.written[k];
        }
      }
    }
  }

  /**
    Converting the nodes in turn from the initial state keeps the state
    consistent. Every node given is passed to Convert_input: the caller's
    filter (Parse_input's node-type dispatch, and parseNodeData skipping a
    node without vertices) is not part of this method, so `nodes` stands
    for the nodes that pass it.
  */
  method ConvertAll(nodes: seq<Node>) returns (st: ConvState)
    ensures Consistent(st)
    ensures |st.written| <= |nodes|
  {
    st := INITIAL;
    var i := 0;
    while i < |nodes|
      invariant 0 <= i <= |nodes|
      invariant Consistent(st)
      invariant |st.written| <= i
    {
      var next := ConvertInput(st, nodes[i]);
      StepKeepsConsistent(st, next);
      st := next;
      i := i + 1;
    }
  }

  /** The names of different objects differ, and no solid is named like a region. */
  lemma NamesDistinct(j: int, k: int)
    ensures SolidName(j) != RegionName(k)
    ensures j != k ==> SolidName(j) != SolidName(k) && RegionName(j) != RegionName(k)
  {
    assert SolidName(j)[0] == 's' && RegionName(k)[0] == 'r';
    assert SolidName(j)[1..] == Decimal.IntToString(j) && SolidName(k)[1..] == Decimal.IntToString(k);
    assert RegionName(j)[1..] == Decimal.IntToString(j) && RegionName(k)[1..] == Decimal.IntToString(k);
    if SolidName(j) == SolidName(k) || RegionName(j) == RegionName(k) {
      Decimal.IntToStringInjective(j, k);
    }
  }

  /** In a consistent state every object written has its own solid and region name. */
  lemma WrittenNamesUnique(st: ConvState, j: int, k: int)
    requires Consistent(st)
    requires 0 <= j < |st.written| && 0 <= k < |st.written| && j != k
    ensures st.written[j].solidName != st.written[k].solidName
    ensures st.written[j].regionName != st.written[k].regionName
    ensures st.written[j].ident != st.written[k].ident
  {
    NamesDistinct(j, k);
  }

  /** The size of the character arrays the names are first printed into. */
  const NAME_ARRAY := 5

  /**
    The region name as written: "r%d" is printed into a five-character
    array, so it is only well defined while the text and its terminating
    NUL fit; beyond that the write runs past the array.
  */
  function RegionNameAsWritten(n: int): (r: Option<string>)
    ensures r.Some? ==> r.value == RegionName(n) && |r.value| < NAME_ARRAY
  {
    var text := RegionName(n);
    if |text| + 1 <= NAME_ARRAY then Some(text) else None
  }

  /** The thousand-and-first object's region name "r1000" does not fit the array, where the intended name is defined. */
  lemma RegionNameOverflowsAsWritten()
    ensures RegionNameAsWritten(999) == Some("r999")
    ensures RegionNameAsWritten(1000) == None
    ensures RegionName(1000) == "r1000"
  {
    assert Decimal.NatToString(9) == "9";
    assert Decimal.NatToString(99) == Decimal.NatToString(9) + "9";
    assert Decimal.NatToString(999) == Decimal.NatToString(99) + "9";
    assert RegionName(999) == "r999";
    assert Decimal.NatToString(1) == "1";
    assert Decimal.NatToString(10) == Decimal.NatToString(1) + "0";
    assert Decimal.NatToString(100) == Decimal.NatToString(10) + "0";
    assert Decimal.NatToString(1000) == Decimal.NatToString(100) + "0";
    assert RegionName(1000) == "r1000";
  }
}
