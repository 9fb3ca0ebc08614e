/**
  The bookkeeping of the 3dm-g converter (Rhino 3DM to BRL-CAD): the
  per-name region counters, the layer tables and member lists that later
  become the group hierarchy, the names of the groups, and the names given
  to converted objects.
*/
module RhinoImport {
  import opened Wrappers
  import Decimal

  /** The name given to objects that have neither a name nor a named layer. */
  const GENERIC_NAME := "rhino"

  /** The uuid text of the root layer, whose group is called "all". */
  const ROOT_UUID := "00000000-0000-0000-0000-000000000000"

  /** Names are copied through a 256-byte buffer, which keeps at most 255 bytes. */
  const NAME_BUFFER := 256

  /** itoa: the "%d" text of an integer. */
  function Itoa(num: int): (s: string)
    ensures |s| > 0
    ensures Decimal.ScanInt(s) == Some(num)
  {
    Decimal.NatToStringShape(if num < 0 then -num else num);
    Decimal.ScanIntRoundTrip(num);
    Decimal.IntToString(num)
  }

  /** bu_strlcpy into a buffer of `size` bytes, one character per byte: the first size-1 characters. */
  function Truncate(s: string, size: nat): (r: string)
    requires size > 0
    ensures r <= s && |r| < size
    ensures |s| < size ==> r == s
  {
    if |s| < size then s else s[..size - 1]
  }

  /** The converter's global tables. */
  datatype Tables = Tables(
    uuidName: map<string, string>,
    nameUuid: map<string, string>,
    regionCount: map<string, int>,
    members: map<string, seq<string>>)

  const EmptyTables := Tables(map[], map[], map[], map[])

  /**
    RegionCnt: 1 the first time a name is counted, one more than last time
    afterwards; other names' counts stay as they were.
  */
  function RegionCnt(t: Tables, name: string): (r: (Tables, int))
    ensures r.0.regionCount.Keys == t.regionCount.Keys + {name}
    ensures name !in t.regionCount ==> r.1 == 1
    ensures name in t.regionCount ==> r.1 == t.regionCount[name] + 1
    ensures r.0.regionCount[name] == r.1
    ensures forall other :: other in t.regionCount && other != name ==>
      r.0.regionCount[other] == t.regionCount[other]
    ensures r.0.(regionCount := t.regionCount) == t
  {
    var cnt := if name in t.regionCount then t.regionCount[name] + 1 else 1;
    (t.(regionCount := t.regionCount[name := cnt]), cnt)
  }

  /** RegionCnt called once for each name in turn, from empty counters. */
  function CountAll(t: Tables, names: seq<string>): Tables
    decreases |names|
  {
    if names == [] then t else RegionCnt(CountAll(t, names[..|names| - 1]), names[|names| - 1]).0
  }

  /** After counting a sequence of names, each name's counter is its number of occurrences. */
  lemma {:induction false} CountAllOccurrences(names: seq<string>, name: string)
    ensures name in CountAll(EmptyTables, names).regionCount <==> name in names
    ensures name in names ==> CountAll(EmptyTables, names).regionCount[name] == multiset(names)[name]
    decreases |names|
  {
    if names != [] {
      var front := names[..|names| - 1];
      var last := names[|names| - 1];
      CountAllOccurrences(front, name);
      assert names == front + [last];
      assert multiset(names) == multiset(front) + multiset{last};
      if name !in front {
        assert multiset(front)[name] == 0;
      }
    }
  }

  /**
    MapLayer: record the uuid's name and the name's uuid unless already
    recorded (a map insert never overwrites), make sure the uuid has a
    member list, and append the layer name to its parent's member list.
  */
  function MapLayer(t: Tables, layerName: string, uuid: string, parentUuid: string): (r: Tables)
    ensures uuid in r.uuidName && layerName in r.nameUuid
    ensures uuid in t.uuidName ==> r.uuidName == t.uuidName
    ensures uuid !in t.uuidName ==> r.uuidName == t.uuidName[uuid := layerName]
    ensures layerName in t.nameUuid ==> r.nameUuid == t.nameUuid
    ensures layerName !in t.nameUuid ==> r.nameUuid == t.nameUuid[layerName := uuid]
    ensures r.members.Keys == t.members.Keys + {uuid, parentUuid}
    ensures r.members[parentUuid] ==
      (if parentUuid in t.members then t.members[parentUuid] else []) + [layerName]
    ensures uuid != parentUuid && uuid !in t.members ==> r.members[uuid] == []
    ensures forall k :: k in t.members && k != parentUuid ==> r.members[k] == t.members[k]
    ensures r.regionCount == t.regionCount
  {
    var uuidName := if uuid in t.uuidName then t.uuidName else t.uuidName[uuid := layerName];
    var nameUuid := if layerName in t.nameUuid then t.nameUuid else t.nameUuid[layerName := uuid];
    var members := if uuid in t.members then t.members else t.members[uuid := []];
    var siblings := if parentUuid in members then members[parentUuid] else [];
    Tables(uuidName, nameUuid, t.regionCount, members[parentUuid := siblings + [layerName]])
  }

  /** One entry of the layer table: its name and its own and its parent's uuid. */
  datatype Layer = Layer(name: string, uuid: string, parent: string)

  /** ProcessLayers: MapLayer over the layer table, each name cut to the buffer. */
  function ProcessLayers(t: Tables, layers: seq<Layer>): (r: Tables)
    ensures r.regionCount == t.regionCount
    ensures forall u :: u in t.uuidName ==> u in r.uuidName && r.uuidName[u] == t.uuidName[u]
    ensures forall k :: 0 <= k < |layers| ==> layers[k].uuid in r.uuidName
    ensures forall k :: 0 <= k < |layers| ==> Truncate(layers[k].name, NAME_BUFFER) in r.nameUuid
    decreases |layers|
  {
    if layers == [] then t
    else
      var l := layers[|layers| - 1];
      MapLayer(ProcessLayers(t, layers[..|layers| - 1]), Truncate(l.name, NAME_BUFFER), l.uuid, l.parent)
  }

  /** The names, as stored, of the layers whose parent is `parent`, in table order. */
  function ChildNames(layers: seq<Layer>, parent: string): seq<string>
    decreases |layers|
  {
    if layers == [] then []
    else
      var l := layers[|layers| - 1];
      ChildNames(layers[..|layers| - 1], parent) + (if l.parent == parent then [Truncate(l.name, NAME_BUFFER)] else [])
  }

  /** Is `uuid` the uuid or the parent of some layer? */
  predicate Mentioned(layers: seq<Layer>, uuid: string) {
    exists k :: 0 <= k < |layers| && (layers[k].uuid == uuid || layers[k].parent == uuid)
  }

  /**
    After processing the layer table, every uuid mentioned has a member
    list, and it holds exactly its child layers' names, in table order.
  */
  lemma {:induction false} ProcessLayersMembers(layers: seq<Layer>, uuid: string)
    ensures uuid in ProcessLayers(EmptyTables, layers).members <==> Mentioned(layers, uuid)
    ensures uuid in ProcessLayers(EmptyTables, layers).members ==>
      ProcessLayers(EmptyTables, layers).members[uuid] == ChildNames(layers, uuid)
    decreases |layers|
  {
    if layers != [] {
      var front := layers[..|layers| - 1];
      var l := layers[|layers| - 1];
      ProcessLayersMembers(front, uuid);
      MentionedSnoc(layers, uuid);
      var before := ProcessLayers(EmptyTables, front);
      assert ProcessLayers(EmptyTables, layers) == MapLayer(before, Truncate(l.name, NAME_BUFFER), l.uuid, l.parent);
      assert ChildNames(layers, uuid) == ChildNames(front, uuid) + (if l.parent == uuid then [Truncate(l.name, NAME_BUFFER)] else []);
      if !Mentioned(front, uuid) {
        ChildNamesUnmentioned(front, uuid);
      }
    }
  }

  /** A uuid is mentioned by a table exactly when it is by all but the last layer, or by the last. */
  lemma MentionedSnoc(layers: seq<Layer>, uuid: string)
    requires layers != []
    ensures Mentioned(layers, uuid) <==>
      Mentioned(layers[..|layers| - 1], uuid) || layers[|layers| - 1].uuid == uuid || layers[|layers| - 1].parent == uuid
  {
    var front := layers[..|layers| - 1];
    if Mentioned(front, uuid) {
      var k :| 0 <= k < |front| && (front[k].uuid == uuid || front[k].parent == uuid);
      assert layers[k] == front[k];
    }
    if Mentioned(layers, uuid) {
      var k :| 0 <= k < |layers| && (layers[k].uuid == uuid || layers[k].parent == uuid);
      if k < |front| {
        assert front[k] == layers[k];
      }
    }
  }

  lemma {:induction false} ChildNamesUnmentioned(layers: seq<Layer>, uuid: string)
    requires !Mentioned(layers, uuid)
    ensures ChildNames(layers, uuid) == []
    decreases |layers|
  {
    if layers != [] {
      var front := layers[..|layers| - 1];
      assert !Mentioned(front, uuid) by {
        forall k | 0 <= k < |front|
          ensures front[k].uuid != uuid && front[k].parent != uuid
        {
          assert front[k] == layers[k];
        }
      }
      ChildNamesUnmentioned(front, uuid);
      assert !(layers[|layers| - 1].parent == uuid);
    }
  }

  /** The first layer with a given uuid names it for good. */
  lemma {:induction false} ProcessLayersFirstName(layers: seq<Layer>, k: nat)
    requires k < |layers|
    requires forall j :: 0 <= j < k ==> layers[j].uuid != layers[k].uuid
    ensures layers[k].uuid in ProcessLayers(EmptyTables, layers).uuidName
    ensures ProcessLayers(EmptyTables, layers).uuidName[layers[k].uuid] == Truncate(layers[k].name, NAME_BUFFER)
    decreases |layers|
  {
    var front := layers[..|layers| - 1];
    if k < |layers| - 1 {
      assert front[k] == layers[k];
      assert forall j :: 0 <= j < k ==> front[j] == layers[j];
      ProcessLayersFirstName(front, k);
    } else {
      ProcessLayersUnseen(front, layers[k].uuid);
    }
  }

  lemma {:induction false} ProcessLayersUnseen(layers: seq<Layer>, uuid: string)
    requires forall j :: 0 <= j < |layers| ==> layers[j].uuid != uuid
    ensures uuid !in ProcessLayers(EmptyTables, layers).uuidName
    decreases |layers|
  {
    if layers != [] {
      ProcessLayersUnseen(layers[..|layers| - 1], uuid);
    }
  }

  /**
    MapRegion: append the region name to the member list of its layer's
    uuid, but only when that uuid already has one.
  */
  function MapRegion(t: Tables, regionName: string, layerUuid: string): (r: Tables)
    ensures r.members.Keys == t.members.Keys
    ensures layerUuid in t.members ==> r.members[layerUuid] == t.members[layerUuid] + [regionName]
    ensures layerUuid !in t.members ==> r == t
    ensures forall k :: k in t.members && k != layerUuid ==> r.members[k] == t.members[k]
    ensures r.(members := t.members) == t
  {
    if layerUuid in t.members then
      t.(members := t.members[layerUuid := t.members[layerUuid] + [regionName]])
    else t
  }

  /**
    The name BuildHierarchy gives a layer's group, as written: "all" for the
    root, the layer's name when one is recorded, and otherwise the
    expression "g" + groupcnt, which in C++ offsets the pointer to the
    literal "g" by groupcnt (always 1) and so yields the empty string.
  */
  function GroupNameAsWritten(t: Tables, uuid: string, groupcnt: int): (name: string)
    requires groupcnt == 1
    ensures uuid == ROOT_UUID ==> name == "all"
    ensures uuid != ROOT_UUID && uuid in t.uuidName && t.uuidName[uuid] != "" ==> name == t.uuidName[uuid]
    ensures name == "" <==> uuid != ROOT_UUID && (uuid !in t.uuidName || t.uuidName[uuid] == "")
  {
    var named := if uuid == ROOT_UUID then "all" else if uuid in t.uuidName then t.uuidName[uuid] else "";
    if named == "" then "g"[groupcnt..] else named
  }

  /** The group name with the evident intent: "g" followed by the counter's digits. */
  function GroupName(t: Tables, uuid: string, groupcnt: int): (name: string)
    ensures name != ""
    ensures uuid == ROOT_UUID ==> name == "all"
    ensures uuid != ROOT_UUID && uuid in t.uuidName && t.uuidName[uuid] != "" ==> name == t.uuidName[uuid]
    ensures uuid != ROOT_UUID && (uuid !in t.uuidName || t.uuidName[uuid] == "") ==>
      name[..1] == "g" && Decimal.ScanInt(name[1..]) == Some(groupcnt)
  {
    var named := if uuid == ROOT_UUID then "all" else if uuid in t.uuidName then t.uuidName[uuid] else "";
    if named == "" then
      var digits := Itoa(groupcnt);
      assert ("g" + digits)[1..] == digits;
      "g" + digits
    else named
  }

  /** An unnamed, non-root layer: the written expression gives its group no name at all. */
  lemma GroupNameEmptyAsWritten(t: Tables, uuid: string)
    requires uuid != ROOT_UUID && uuid !in t.uuidName
    ensures GroupNameAsWritten(t, uuid, 1) == ""
    ensures GroupName(t, uuid, 1) == "g1"
  {
    assert Itoa(1) == "1";
  }

  /** What the object naming in main() looks at. */
  datatype ObjectAttrs = ObjectAttrs(uuid: string, name: string, layerIndex: int)

  /** The result of naming one object: base, solid and region names, and the updated counters. */
  datatype Naming = Naming(base: string, solid: string, region: string, mcount: int, tables: Tables)

  /**
    The name an unnamed object borrows from its layer: the layer's name
    through the 256-byte buffer when the layer index is above 0, and
    nothing otherwise.
  */
  function LayerLabel(a: ObjectAttrs, layerNames: seq<string>): string
    requires a.layerIndex < |layerNames|
  {
    if a.layerIndex > 0 then Truncate(layerNames[a.layerIndex], NAME_BUFFER) else ""
  }

  /** A layer name that selects the generic "rhino" numbering: none, or "rhino" itself. */
  predicate GenericLabel(layerName: string) {
    layerName == "" || layerName == GENERIC_NAME
  }

  /**
    Object naming in main(): with uuid naming the base is the object's
    uuid, a named object keeps its name, and an unnamed one is named after
    its layer (index above 0 and a name other than "" or "rhino") numbered
    by that layer's RegionCnt, or else "rhino" numbered by the global
    counter mcount, which then advances. The solid is base.s and the region
    base.r.
  */
  function NameObject(t: Tables, mcount: int, useUuidNames: bool, a: ObjectAttrs, layerNames: seq<string>): (n: Naming)
    requires a.layerIndex < |layerNames|
    ensures n.solid == n.base + ".s" && n.region == n.base + ".r"
    ensures useUuidNames ==> n.base == a.uuid && n.mcount == mcount && n.tables == t
    ensures !useUuidNames && a.name != "" ==> n.base == a.name && n.mcount == mcount && n.tables == t
    ensures n.mcount == mcount || n.mcount == mcount + 1
    ensures n.mcount == mcount + 1 <==> !useUuidNames && a.name == "" && GenericLabel(LayerLabel(a, layerNames))
    ensures n.mcount == mcount + 1 ==> n.base == GENERIC_NAME + Itoa(mcount) && n.tables == t
    ensures !useUuidNames && a.name == "" && !GenericLabel(LayerLabel(a, layerNames)) ==>
      && 0 < a.layerIndex
      && var layerName := LayerLabel(a, layerNames);
      && n.tables == RegionCnt(t, layerName).0
      && n.base == layerName + Itoa(RegionCnt(t, layerName).1)
  {
    var chosen :=
      if useUuidNames then (a.uuid, mcount, t)
      else if a.name != "" then (a.name, mcount, t)
      else
        var layer := LayerLabel(a, layerNames);
        var genName := if layer == "" then GENERIC_NAME else layer;
        if genName == GENERIC_NAME then (GENERIC_NAME + Itoa(mcount), mcount + 1, t)
        else
          var counted := RegionCnt(t, genName);
          (genName + Itoa(counted.1), mcount, counted.0);
    var base := chosen.0;
    Naming(base, base + ".s", base + ".r", chosen.1, chosen.2)
  }

  /**
    Two unnamed objects named in turn after the same layer get different
    names: the layer's region count has advanced between them.
  */
  lemma SameLayerNamesDiffer(t: Tables, mcount: int, a: ObjectAttrs, b: ObjectAttrs, layerNames: seq<string>)
    requires a.layerIndex < |layerNames| && b.layerIndex < |layerNames|
    requires a.name == "" && b.name == ""
    requires LayerLabel(a, layerNames) == LayerLabel(b, layerNames) && !GenericLabel(LayerLabel(a, layerNames))
    ensures var first := NameObject(t, mcount, false, a, layerNames);
      first.base != NameObject(first.tables, first.mcount, false, b, layerNames).base
  {
    var layerName := LayerLabel(a, layerNames);
    var first := NameObject(t, mcount, false, a, layerNames);
    var second := NameObject(first.tables, first.mcount, false, b, layerNames);
    var c := RegionCnt(t, layerName).1;
    assert RegionCnt(first.tables, layerName).1 == c + 1;
    assert first.base[|layerName|..] == Itoa(c);
    assert second.base[|layerName|..] == Itoa(c + 1);
  }

  /** Two generic names drawn from different counter values differ. */
  lemma GenericNamesDistinct(i: int, j: int)
    requires i != j
    ensures GENERIC_NAME + Itoa(i) != GENERIC_NAME + Itoa(j)
  {
    assert (GENERIC_NAME + Itoa(i))[|GENERIC_NAME|..] == Itoa(i);
    assert (GENERIC_NAME + Itoa(j))[|GENERIC_NAME|..] == Itoa(j);
  }
}
