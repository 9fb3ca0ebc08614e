/**
  The `bot exterior` command of libged: keep only the exterior faces of a
  bag-of-triangles solid. The exterior test is a placeholder that calls
  the first ten faces exterior, so the command's effect is to cut a BoT
  down to its first ten faces.
*/
module BotExterior {
  import opened Wrappers

  datatype BotMode = Surface | Solid | Plate | PlateNoCos

  /** A vertex; its coordinates are carried along, never computed with. */
  datatype Point = Point(x: real, y: real, z: real)

  /** One triangle, as three indices into the vertex array. */
  datatype Face = Face(v0: int, v1: int, v2: int)

  datatype Bot = Bot(mode: BotMode, vertices: seq<Point>, faces: seq<Face>)

  /** How many faces the placeholder exterior test accepts. */
  const EXTERIOR_FACES := 10

  function Min(x: int, y: int): int {
    if x <= y then x else y
  }

  /** exterior_face: false for a missing BoT or a negative index, else whether the index is below ten. */
  predicate ExteriorFace(bot: Option<Bot>, face: int)
    ensures ExteriorFace(bot, face) <==> bot.Some? && 0 <= face < EXTERIOR_FACES
  {
    if bot.None? || face < 0 then false
    else face < EXTERIOR_FACES
  }

  /** The exterior faces among the first k, in their original order. */
  function ExteriorOf(b: Bot, k: nat): (r: seq<Face>)
    requires k <= |b.faces|
    ensures |r| <= k
    decreases k
  {
    if k == 0 then []
    else ExteriorOf(b, k - 1) + (if ExteriorFace(Some(b), k - 1) then [b.faces[k - 1]] else [])
  }

  /** The exterior faces of a prefix are its first ten faces. */
  lemma {:induction false} ExteriorOfIsPrefix(b: Bot, k: nat)
    requires k <= |b.faces|
    ensures ExteriorOf(b, k) == b.faces[..Min(k, EXTERIOR_FACES)]
    decreases k
  {
    if k > 0 {
      ExteriorOfIsPrefix(b, k - 1);
      if k - 1 < EXTERIOR_FACES {
        assert b.faces[..k] == b.faces[..k - 1] + [b.faces[k - 1]];
      }
    }
  }

  /**
    bot_exterior: mark the exterior faces, and if there are some but not
    all of them, replace the face list by the marked faces in order.
    Returns how many faces were removed (0 when the BoT is left alone).
  */
  method BotExteriorFaces(bot: Option<Bot>) returns (removed: nat, after: Option<Bot>)
    ensures bot.None? ==> removed == 0 && after == None
    ensures bot.Some? ==> after.Some? && after.value.mode == bot.value.mode
    ensures bot.Some? ==> after.value.vertices == bot.value.vertices
    ensures bot.Some? ==>
      var n := |bot.value.faces|;
      var kept := ExteriorOf(bot.value, n);
      && (|kept| == 0 || |kept| == n ==> removed == 0 && after == bot)
      && (0 < |kept| < n ==> after.value.faces == kept && removed == n - |kept|)
    ensures bot.Some? ==>
      var n := |bot.value.faces|;
      && after.value.faces == bot.value.faces[..Min(n, EXTERIOR_FACES)]
      && removed == n - Min(n, EXTERIOR_FACES)
  {
    if bot.None? {
      return 0, None;
    }
    var b := bot.value;
    var n := |b.faces|;
    ExteriorOfIsPrefix(b, n);
    var marks: seq<bool> := [];
    var numExterior := 0;
    var i := 0;
    while i < n
      invariant 0 <= i <= n
      invariant |marks| == i
      invariant forall j :: 0 <= j < i ==> marks[j] == ExteriorFace(bot, j)
      invariant numExterior == |ExteriorOf(b, i)|
    {
      if ExteriorFace(bot, i) {
        marks := marks + [true];
        numExterior := numExterior + 1;
      } else {
        marks := marks + [false];
      }
      i := i + 1;
    }
    if numExterior == 0 {
      return 0, bot;
    }
    var newFaces: seq<Face> := [];
    i := 0;
    while i < n
      invariant 0 <= i <= n
      invariant newFaces == ExteriorOf(b, i)
    {
      if marks[i] {
        newFaces := newFaces + [b.faces[i]];
      }
      i := i + 1;
    }
    if numExterior == n {
      return 0, bot;
    }
    removed := n - numExterior;
    after := Some(b.(faces := newFaces));
  }

  /** What the database holds under a name. */
  datatype DbObject = BotObject(bot: Bot) | OtherObject

  /** The command's outcome: help, one of its errors, or the new BoT it writes. */
  datatype ExteriorReply =
    | NoArguments
    | Help
    | Usage
    | NotFound(name: string)
    | NotABot(name: string)
    | PlateModeUnsupported(name: string)
    | Written(name: string, bot: Bot, facesEliminated: nat)

  /**
    ged_bot_exterior: `bot exterior old_bot new_bot`. With only the command
    name it asks for help; any other count but three arguments is a usage
    error; the old object must be a BoT and not a plate-mode one.
  */
  method BotExteriorCommand(args: seq<string>, db: map<string, DbObject>) returns (r: ExteriorReply)
    ensures |args| == 0 <==> r == NoArguments
    ensures |args| == 1 <==> r == Help
    ensures r == Usage <==> |args| == 2 || |args| > 3
    ensures r.Written? <==>
      && |args| == 3 && args[1] in db && db[args[1]].BotObject?
      && db[args[1]].bot.mode != Plate && db[args[1]].bot.mode != PlateNoCos
    ensures r.Written? ==>
      var original := db[args[1]].bot;
      && r.name == args[2]
      && r.bot == original.(faces := original.faces[..Min(|original.faces|, EXTERIOR_FACES)])
      && r.facesEliminated == |original.faces| - |r.bot.faces|
  {
    if |args| == 0 {
      return NoArguments;
    }
    if |args| == 1 {
      return Help;
    }
    if |args| != 3 {
      return Usage;
    }
    if args[1] !in db {
      return NotFound(args[1]);
    }
    var obj := db[args[1]];
    if !obj.BotObject? {
      return NotABot(args[1]);
    }
    var b := obj.bot;
    if b.mode == Plate || b.mode == PlateNoCos {
      return PlateModeUnsupported(args[1]);
    }
    var removed, after := BotExteriorFaces(Some(b));
    return Written(args[2], after.value, removed);
  }
}
