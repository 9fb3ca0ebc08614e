/**
  The perspective gatherer of the rgen visualisation tool: the table of
  faces it can render, and for one face the output file name and the
  ray-tracer command line it would run.
*/
module Perspective {
  import opened Wrappers
  import Decimal

  datatype RenderingFace = Front | Top | Right | Left | Back | Bottom | BackMirrored | BottomMirrored | Detailed

  datatype Dimension = Length | Depth | Height

  /** One row of the face table: face, title, reference image, and the two dimensions it shows. */
  datatype FaceDetails = FaceDetails(face: RenderingFace, title: string, file: string, dims: ViewDims)

  /** The two dimensions a view measures; the ambient-occlusion view names none. */
  datatype ViewDims = NoDims | Dims(horizontal: Dimension, vertical: Dimension)

  const IMAGE_DIR := "D:\\Mark\\ProgrammingWorkspace\\brlcad\\buildapple\\src\\gtools\\rgen\\visualization\\src\\"

  /** One row of the table, its reference image in IMAGE_DIR. */
  function Row(face: RenderingFace, title: string, image: string, dims: ViewDims): (d: FaceDetails)
    ensures d.face == face && d.dims == dims && IMAGE_DIR <= d.file
  {
    FaceDetails(face, title, IMAGE_DIR + image, dims)
  }

  /** The key under which the table lists a face. */
  function KeyOf(face: RenderingFace): char {
    match face
    case Front => '0'
    case Top => '1'
    case Right => '2'
    case Left => '3'
    case Back => '4'
    case Bottom => '5'
    case BackMirrored => '6'
    case BottomMirrored => '7'
    case Detailed => '8'
  }

  /** getFaceDetails, as a lookup: the keys '0'..'8' and what each selects, nothing for any other key. */
  function FaceTable(key: char): (d: Option<FaceDetails>)
    ensures d.Some? <==> '0' <= key <= '8'
    ensures d.Some? ==> KeyOf(d.value.face) == key
    ensures d.Some? ==> IMAGE_DIR <= d.value.file
    ensures d.Some? ==> (d.value.dims.NoDims? <==> d.value.face == Detailed)
  {
    match key
    case '0' => Some(Row(Front, "Front", "ortho_front.png", Dims(Length, Height)))
    case '1' => Some(Row(Top, "Top", "ortho_top.png", Dims(Length, Depth)))
    case '2' => Some(Row(Right, "Right", "ortho_right.png", Dims(Depth, Height)))
    case '3' => Some(Row(Left, "Left", "ortho_left.png", Dims(Depth, Height)))
    case '4' => Some(Row(Back, "Back", "ortho_back.png", Dims(Length, Height)))
    case '5' => Some(Row(Bottom, "Bottom", "ortho_bottom.png", Dims(Length, Depth)))
    case '6' => Some(Row(BackMirrored, "Back-Mirrored", "ortho_back_mirrored.png", Dims(Length, Height)))
    case '7' => Some(Row(BottomMirrored, "Bottom-Mirrored", "ortho_bottom_mirrored.png", Dims(Length, Depth)))
    case '8' => Some(Row(Detailed, "Ambient Occlusion", "ambient_occ.png", NoDims))
    case _ => None
  }

  /** The nine keys select nine different faces. */
  lemma FaceTableOneToOne(j: char, k: char)
    requires FaceTable(j).Some? && FaceTable(k).Some? && j != k
    ensures FaceTable(j).value.face != FaceTable(k).value.face
  {
  }

  /** Every face is listed, under its key. */
  lemma FaceTableCoversEveryFace(face: RenderingFace)
    ensures FaceTable(KeyOf(face)).Some? && FaceTable(KeyOf(face)).value.face == face
  {
  }

  predicate IsSeparator(c: char) {
    c == '/' || c == '\\'
  }

  /** The index just after the last character satisfying the test, or 0 when none does. */
  function AfterLast(s: string, sep: char -> bool): (i: nat)
    ensures i <= |s|
    ensures i > 0 ==> sep(s[i - 1])
    ensures forall k :: i <= k < |s| ==> !sep(s[k])
    decreases |s|
  {
    if s == [] then 0
    else if sep(s[|s| - 1]) then |s|
    else AfterLast(s[..|s| - 1], sep)
  }

  /**
    extractFileName: what follows the last '/' or '\', or the whole path
    when it has neither (find_last_of gives npos, and npos + 1 wraps to 0).
  */
  function ExtractFileName(path: string): (name: string)
    ensures |name| <= |path| && name == path[|path| - |name|..]
    ensures forall k :: 0 <= k < |name| ==> !IsSeparator(name[k])
    ensures (forall k :: 0 <= k < |path| ==> !IsSeparator(path[k])) ==> name == path
    ensures |name| < |path| ==> IsSeparator(path[|path| - |name| - 1])
  {
    path[AfterLast(path, IsSeparator)..]
  }

  /** The file name up to its last '.', or all of it when it has no '.'. */
  function Stem(name: string): (stem: string)
    ensures stem <= name
    ensures (forall k :: 0 <= k < |name| ==> name[k] != '.') ==> stem == name
    ensures stem != name ==> name[|stem|] == '.' && forall k :: |stem| < k < |name| ==> name[k] != '.'
  {
    var i := AfterLast(name, c => c == '.');
    if i == 0 then name else name[..i - 1]
  }

  predicate ContainsAt(s: string, pattern: string, i: int) {
    0 <= i && i + |pattern| <= |s| && s[i..i + |pattern|] == pattern
  }

  predicate Contains(s: string, pattern: string) {
    exists i :: 0 <= i <= |s| - |pattern| && ContainsAt(s, pattern, i)
  }

  datatype Rendering = Rejected | Rendering(outputName: string, command: string)

  /** The view angles, azimuth and elevation, of the faces the tool renders with rtedge or rt. */
  function Angles(face: RenderingFace): (ae: (int, int))
    requires face != BackMirrored && face != BottomMirrored
    ensures 0 <= ae.0 < 360 && 0 <= ae.1 < 360
    ensures ae.1 == 0 <==> face == Front || face == Right || face == Back || face == Left
  {
    match face
    case Front => (0, 0)
    case Right => (90, 0)
    case Back => (180, 0)
    case Left => (270, 0)
    case Top => (0, 90)
    case Bottom => (0, 270)
    case Detailed => (45, 45)
  }

  /** The suffix the output file of a face gets, empty for the faces the switch leaves out. */
  function Suffix(face: RenderingFace): (s: string)
    ensures s == "" <==> face == BackMirrored || face == BottomMirrored
    ensures s != "" ==> 5 <= |s| && s[0] == '_' && s[|s| - 4..] == ".png"
  {
    match face
    case Front => "_front.png"
    case Right => "_right.png"
    case Back => "_back.png"
    case Left => "_left.png"
    case Top => "_top.png"
    case Bottom => "_bottom.png"
    case Detailed => "_detailed.png"
    case _ => ""
  }

  /** Each face the tool renders is viewed from its own direction. */
  lemma AnglesDistinct(f: RenderingFace, g: RenderingFace)
    requires f != BackMirrored && f != BottomMirrored && g != BackMirrored && g != BottomMirrored
    requires f != g
    ensures Angles(f) != Angles(g)
  {
  }

  /** Each face the tool renders writes a file with its own suffix. */
  lemma SuffixDistinct(f: RenderingFace, g: RenderingFace)
    requires Suffix(f) != "" && f != g
    ensures Suffix(f) != Suffix(g)
  {
  }

  const COMPONENT := "component"

  function EdgeCommand(a: int, e: int, output: string, input: string): string {
    "../../../build/bin/rtedge -s 1024 -W -R -a " + Decimal.IntToString(a) + " -e " + Decimal.IntToString(e)
      + " -o " + output + " " + input + " " + COMPONENT
  }

  function OcclusionCommand(output: string, input: string): string {
    "../../../build/bin/rt -C 255/255/255 -s 1024 -A 1.5 -W -R -c \"set ambSamples=64\" -o " + output + " " + input + " " + COMPONENT
  }

  /**
    renderPerspective: the output name is output/ followed by the stem of
    the input's file name and the face's suffix; the command renders that
    view with rtedge (edges at the face's angles) or, for the detailed
    view, with rt's ambient occlusion. A stem containing "../" is rejected.
  */
  function RenderPerspective(face: RenderingFace, pathToInput: string): (r: Rendering)
    ensures r.Rendering? ==> r.outputName == "output/" + Stem(ExtractFileName(pathToInput)) + Suffix(face)
    ensures r.Rendering? && (face == BackMirrored || face == BottomMirrored) ==> r.command == ""
    ensures r.Rendering? && face == Detailed ==> r.command == OcclusionCommand(r.outputName, pathToInput)
    ensures r.Rendering? && face != Detailed && face != BackMirrored && face != BottomMirrored ==>
      r.command == EdgeCommand(Angles(face).0, Angles(face).1, r.outputName, pathToInput)
  {
    var stem := Stem(ExtractFileName(pathToInput));
    if Contains(stem, "../") then Rejected
    else
      var outputName := "output/" + stem + Suffix(face);
      var command :=
        match face
        case BackMirrored => ""
        case BottomMirrored => ""
        case Detailed => OcclusionCommand(outputName, pathToInput)
        case _ => EdgeCommand(Angles(face).0, Angles(face).1, outputName, pathToInput);
      Rendering(outputName, command)
  }

  /** The stem comes from a file name with no '/', so the "../" rejection never fires. */
  lemma NeverRejected(face: RenderingFace, pathToInput: string)
    ensures RenderPerspective(face, pathToInput).Rendering?
  {
    var stem := Stem(ExtractFileName(pathToInput));
    StemHasNoSeparator(pathToInput);
    NoSeparatorNoParent(stem);
  }

  /** The stem of a file name holds no separator. */
  lemma StemHasNoSeparator(pathToInput: string)
    ensures var stem := Stem(ExtractFileName(pathToInput));
      forall k :: 0 <= k < |stem| ==> !IsSeparator(stem[k])
  {
    var name := ExtractFileName(pathToInput);
    var stem := Stem(name);
    forall k | 0 <= k < |stem|
      ensures !IsSeparator(stem[k])
    {
      assert stem[k] == name[k];
    }
  }

  /** A text without separators does not contain "../". */
  lemma NoSeparatorNoParent(s: string)
    requires forall k :: 0 <= k < |s| ==> !IsSeparator(s[k])
    ensures !Contains(s, "../")
  {
    forall i | 0 <= i <= |s| - 3
      ensures !ContainsAt(s, "../", i)
    {
      assert !IsSeparator(s[i + 2]);
      assert s[i..i + 3][2] == s[i + 2];
    }
  }

  /** The faces the switch does not handle: no command, and the output name has no suffix. */
  lemma MirroredFacesUnhandled(face: RenderingFace, pathToInput: string)
    requires face == BackMirrored || face == BottomMirrored
    ensures RenderPerspective(face, pathToInput) ==
      Rendering("output/" + Stem(ExtractFileName(pathToInput)), "")
  {
    NeverRejected(face, pathToInput);
    assert "output/" + Stem(ExtractFileName(pathToInput)) + "" == "output/" + Stem(ExtractFileName(pathToInput));
  }

  /** The output of a file name without directory or extension. */
  lemma PlainFileName(face: RenderingFace, name: string)
    requires forall k :: 0 <= k < |name| ==> !IsSeparator(name[k]) && name[k] != '.'
    ensures RenderPerspective(face, name).Rendering?
    ensures RenderPerspective(face, name).outputName == "output/" + name + Suffix(face)
  {
    NeverRejected(face, name);
    assert ExtractFileName(name) == name;
    assert Stem(name) == name;
  }

  /** Whatever the input path, the output file lands directly in the output directory. */
  lemma OutputStaysInOutputDir(face: RenderingFace, pathToInput: string)
    ensures RenderPerspective(face, pathToInput).Rendering?
    ensures var out := RenderPerspective(face, pathToInput).outputName;
      out[..7] == "output/" && forall k :: 7 <= k < |out| ==> !IsSeparator(out[k])
  {
    NeverRejected(face, pathToInput);
    var stem := Stem(ExtractFileName(pathToInput));
    SuffixHasNoSeparator(face);
    NoSeparatorAfterDir(stem, Suffix(face));
  }

  /** "output/" followed by two separator-free parts has no separator after the directory. */
  lemma NoSeparatorAfterDir(stem: string, suffix: string)
    requires forall k :: 0 <= k < |stem| ==> !IsSeparator(stem[k])
    requires forall k :: 0 <= k < |suffix| ==> !IsSeparator(suffix[k])
    ensures var out := "output/" + stem + suffix;
      out[..7] == "output/" && forall k :: 7 <= k < |out| ==> !IsSeparator(out[k])
  {
    var out := "output/" + stem + suffix;
    forall k | 7 <= k < |out|
      ensures !IsSeparator(out[k])
    {
      if k < 7 + |stem| {
        assert out[k] == stem[k - 7];
      } else {
        assert out[k] == suffix[k - 7 - |stem|];
      }
    }
  }

  lemma SuffixHasNoSeparator(face: RenderingFace)
    ensures forall k :: 0 <= k < |Suffix(face)| ==> !IsSeparator(Suffix(face)[k])
  {
    match face
    case Front => NoSeparatorIn("_front.png");
    case Right => NoSeparatorIn("_right.png");
    case Back => NoSeparatorIn("_back.png");
    case Left => NoSeparatorIn("_left.png");
    case Top => NoSeparatorIn("_top.png");
    case Bottom => NoSeparatorIn("_bottom.png");
    case Detailed => NoSeparatorIn("_detailed.png");
    case _ =>
  }

  /** A text built only from letters, '_' and '.' holds no separator. */
  lemma NoSeparatorIn(s: string)
    requires forall k :: 0 <= k < |s| ==> s[k] == '_' || s[k] == '.' || 'a' <= s[k] <= 'z'
    ensures forall k :: 0 <= k < |s| ==> !IsSeparator(s[k])
  {
  }
}
