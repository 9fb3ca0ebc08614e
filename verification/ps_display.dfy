/**
  The PostScript display manager of libdm: how `PS_open` reads its
  options and file name, which font a string is drawn in, and what a
  vertex draws.
*/
module PsDisplay {
  import opened Wrappers
  import Decimal

  /** The settings PS_open gathers: fonts and titles as text, the line width, the file name. */
  datatype PsVars = PsVars(
    font: string,
    title: string,
    creator: string,
    scaleText: Option<string>,
    linewidth: int,
    fname: string)

  /** The settings before any option is read. */
  const Defaults := PsVars("Courier", "No Title", "LIBDM dm-ps", None, 4, "")

  datatype PsError = UsageError | NoFilename | CannotOpen(fname: string)

  /** The option letters PS_open knows. */
  predicate IsOptionLetter(c: char) {
    c == 'f' || c == 't' || c == 'c' || c == 's' || c == 'l'
  }

  /** An argument that the option loop consumes: non-empty and starting with '-'. */
  predicate IsOption(a: string) {
    |a| > 0 && a[0] == '-'
  }

  /** The letter after the dash; a lone "-" has the terminating NUL there. */
  function LetterOf(a: string): char {
    if |a| > 1 then a[1] else '\0'
  }

  /**
    The effect of one option with its value: f, t and c replace the font,
    title and creator; s records the size text (its conversion to a scale
    factor is floating point and not modelled); l reads an integer as
    sscanf("%d") does, leaving the width alone when nothing converts.
  */
  function ApplyOption(v: PsVars, letter: char, value: string): (r: PsVars)
    requires IsOptionLetter(letter)
    ensures r.fname == v.fname
    ensures letter == 'f' ==> r == v.(font := value)
    ensures letter == 't' ==> r == v.(title := value)
    ensures letter == 'c' ==> r == v.(creator := value)
    ensures letter == 's' ==> r == v.(scaleText := Some(value))
    ensures letter == 'l' ==> r.(linewidth := v.linewidth) == v
    ensures letter == 'l' && Decimal.ScanInt(value).Some? ==> r.linewidth == Decimal.ScanInt(value).value
    ensures letter == 'l' && Decimal.ScanInt(value).None? ==> r == v
  {
    match letter
    case 'f' => v.(font := value)
    case 't' => v.(title := value)
    case 'c' => v.(creator := value)
    case 's' => v.(scaleText := Some(value))
    case 'l' =>
      match Decimal.ScanInt(value)
      case Some(n) => v.(linewidth := n)
      case None => v
  }

  /** The options read, and the arguments left after them. */
  datatype Parsed = Parsed(vars: PsVars, rest: seq<string>)

  /**
    The option loop: while the argument starts with '-', read an option
    whose value is either attached ("-fX") or the next argument ("-f X");
    a missing next argument, or one that starts with '-', is a usage
    error, as is an unknown letter.
  */
  function ParseOptions(args: seq<string>, v: PsVars): (r: Result<Parsed, PsError>)
    ensures r.Failure? ==> r.error == UsageError
    ensures r.Success? ==> |r.value.rest| <= |args| && r.value.rest == args[|args| - |r.value.rest|..]
    ensures r.Success? ==> r.value.rest == [] || !IsOption(r.value.rest[0])
    ensures r.Success? ==> r.value.vars.fname == v.fname
    ensures args == [] || !IsOption(args[0]) ==> r == Success(Parsed(v, args))
    decreases |args|
  {
    if args == [] || !IsOption(args[0]) then Success(Parsed(v, args))
    else
      var a := args[0];
      var letter := LetterOf(a);
      if !IsOptionLetter(letter) then Failure(UsageError)
      else if |a| > 2 then ParseOptions(args[1..], ApplyOption(v, letter, a[2..]))
      else if |args| < 2 || IsOption(args[1]) then Failure(UsageError)
      else ParseOptions(args[2..], ApplyOption(v, letter, args[1]))
  }

  /**
    An option with its value attached applies that value and goes on with
    the next argument, whatever the value starts with.
  */
  lemma AttachedOption(letter: char, value: string, rest: seq<string>, v: PsVars)
    requires IsOptionLetter(letter) && value != []
    ensures ParseOptions([['-', letter] + value] + rest, v) == ParseOptions(rest, ApplyOption(v, letter, value))
  {
    var a := ['-', letter] + value;
    var args := [a] + rest;
    assert args[0] == a && a[0] == '-' && a[1] == letter && |a| > 2;
    assert a[2..] == value;
    assert args[1..] == rest;
  }

  /**
    An option whose value is the next argument applies that value and goes
    on after it.
  */
  lemma SeparateOption(letter: char, value: string, rest: seq<string>, v: PsVars)
    requires IsOptionLetter(letter) && !IsOption(value)
    ensures ParseOptions([['-', letter], value] + rest, v) == ParseOptions(rest, ApplyOption(v, letter, value))
  {
    var a := ['-', letter];
    var args := [a, value] + rest;
    assert args[0] == a && a[0] == '-' && a[1] == letter && |a| == 2;
    assert args[1] == value && |args| >= 2 && !IsOption(args[1]);
    assert args[2..] == rest;
    assert IsOption(args[0]) && IsOptionLetter(LetterOf(args[0])) && !(|args[0]| > 2);
  }

  /** "-t X file" opens `file` with the title X and every other setting at its default. */
  lemma TitleThenFile(count: int, title: string, file: string)
    requires !IsOption(title) && !IsOption(file)
    ensures PsOpen(count, ["-t", title, file], true).result.Success?
    ensures PsOpen(count, ["-t", title, file], true).result.value.vars == Defaults.(title := title, fname := file)
  {
    var args := ["-t", title, file];
    assert args == [['-', 't'], title] + [file];
    SeparateOption('t', title, [file], Defaults);
    var titled := ApplyOption(Defaults, 't', title);
    assert titled == Defaults.(title := title);
    assert ParseOptions([file], titled) == Success(Parsed(titled, [file]));
    assert ParseOptions(args, Defaults) == Success(Parsed(titled, [file]));
  }

  /** An attached value and the same value as the next argument read the same. */
  lemma AttachedOrSeparate(letter: char, value: string, rest: seq<string>, v: PsVars)
    requires IsOptionLetter(letter)
    requires value != [] && value[0] != '-'
    ensures ParseOptions([['-', letter] + value] + rest, v) == ParseOptions([['-', letter], value] + rest, v)
  {
    var joined := [['-', letter] + value] + rest;
    var split := [['-', letter], value] + rest;
    assert joined[0][2..] == value;
    assert joined[1..] == rest;
    assert split[2..] == rest;
  }

  /** An option letter with no value after it, or a dash-led one, is a usage error. */
  lemma MissingValue(letter: char, rest: seq<string>, v: PsVars)
    requires IsOptionLetter(letter)
    requires rest == [] || IsOption(rest[0])
    ensures ParseOptions([['-', letter]] + rest, v) == Failure(UsageError)
  {
    var args := [['-', letter]] + rest;
    assert LetterOf(args[0]) == letter;
    if rest != [] {
      assert args[1] == rest[0];
    }
  }

  /** An unknown option letter, or a bare "-", is a usage error. */
  lemma UnknownOption(a: string, rest: seq<string>, v: PsVars)
    requires IsOption(a) && !IsOptionLetter(LetterOf(a))
    ensures ParseOptions([a] + rest, v) == Failure(UsageError)
  {
    assert ([a] + rest)[0] == a;
  }

  /** The display manager PS_open builds: its Tk path and name, and its settings. */
  datatype PsDm = PsDm(pathName: string, tkName: string, vars: PsVars)

  /** The result of PS_open, and the instance counter after it. */
  datatype Opened = Opened(count: int, result: Result<PsDm, PsError>)

  /**
    PS_open: name the instance from the counter (which advances by two
    whatever happens next), read the options, take the first remaining
    argument as the file name, and open it; `canOpen` stands for whether
    fopen succeeds.
  */
  function PsOpen(count: int, args: seq<string>, canOpen: bool): (r: Opened)
    ensures r.count == count + 2
    ensures r.result.Success? ==>
      && r.result.value.pathName == ".dm_ps" + Decimal.IntToString(count)
      && r.result.value.tkName == "dm_ps" + Decimal.IntToString(count + 1)
    ensures r.result.Success? <==>
      ParseOptions(args, Defaults).Success? && ParseOptions(args, Defaults).value.rest != [] && canOpen
    ensures r.result.Success? ==>
      var parsed := ParseOptions(args, Defaults).value;
      r.result.value.vars == parsed.vars.(fname := parsed.rest[0]) && !IsOption(parsed.rest[0])
    ensures r.result == Failure(NoFilename) <==>
      ParseOptions(args, Defaults).Success? && ParseOptions(args, Defaults).value.rest == []
  {
    var pathName := ".dm_ps" + Decimal.IntToString(count);
    var tkName := "dm_ps" + Decimal.IntToString(count + 1);
    var result :=
      match ParseOptions(args, Defaults)
      case Failure(e) => Failure(e)
      case Success(parsed) =>
        if parsed.rest == [] then Failure(NoFilename)
        else if !canOpen then Failure(CannotOpen(parsed.rest[0]))
        else Success(PsDm(pathName, tkName, parsed.vars.(fname := parsed.rest[0])));
    Opened(count + 2, result)
  }

  /** With just a file name every setting keeps its default. */
  lemma OpenWithDefaults(count: int, file: string)
    requires !IsOption(file)
    ensures PsOpen(count, [file], true).result == Success(PsDm(
      ".dm_ps" + Decimal.IntToString(count), "dm_ps" + Decimal.IntToString(count + 1),
      Defaults.(fname := file)))
  {
  }

  /** Two instances opened in a row get different path names. */
  lemma PathNamesDiffer(count: int, args: seq<string>, more: seq<string>)
    requires PsOpen(count, args, true).result.Success?
    requires PsOpen(count + 2, more, true).result.Success?
    ensures PsOpen(count, args, true).result.value.pathName != PsOpen(count + 2, more, true).result.value.pathName
  {
    var a := ".dm_ps" + Decimal.IntToString(count);
    var b := ".dm_ps" + Decimal.IntToString(count + 2);
    if a == b {
      assert a[6..] == Decimal.IntToString(count);
      assert b[6..] == Decimal.IntToString(count + 2);
      Decimal.IntToStringInjective(count, count + 2);
    }
  }

  /** The fonts the PostScript prologue defines. */
  const PROLOGUE_FONTS := ["FntH", "DFntL", "DFntM", "DFntS"]

  /** The font PS_drawString2D selects for a text size: 1, 2, 3 get larger fonts, anything else the smallest. */
  function FontFor(size: int): (font: string)
    ensures font in PROLOGUE_FONTS
    ensures font == "DFntS" <==> size != 1 && size != 2 && size != 3
    ensures font == "FntH" <==> size == 3
    ensures font == "DFntM" <==> size == 1
    ensures font == "DFntL" <==> size == 2
  {
    match size
    case 1 => "DFntM"
    case 2 => "DFntL"
    case 3 => "FntH"
    case _ => "DFntS"
  }

  /** Sizes 1, 2 and 3 each get a font of their own. */
  lemma FontsDistinct(a: int, b: int)
    requires 1 <= a <= 3 && 1 <= b <= 3 && a != b
    ensures FontFor(a) != FontFor(b)
  {
  }

  /** What a drawing call does: nothing when no file is open, otherwise the text it writes. */
  datatype Drawn = TclError | Wrote(text: string)

  function Num(n: int): string {
    Decimal.IntToString(n)
  }

  /** A point as the "%d %d" of the display manager's fprintf calls writes it. */
  function PointText(x: int, y: int): string {
    Num(x) + " " + Num(y)
  }

  /**
    PS_drawString2D: select the font for the size, then show the string at
    the point; `toPs` stands for the GED_TO_PS coordinate conversion.
  */
  function DrawString2D(hasFile: bool, toPs: int -> int, str: string, x: int, y: int, size: int): (r: Drawn)
    ensures r.TclError? <==> !hasFile
    ensures r.Wrote? ==> FontFor(size) + " " <= r.text
    ensures r.Wrote? ==>
      var start := FontFor(size) + " (" + str + ") ";
      var end := " moveto show\n";
      && start <= r.text
      && |start| + |end| <= |r.text|
      && r.text[|start|..|r.text| - |end|] == PointText(toPs(x), toPs(y))
      && r.text[|r.text| - |end|..] == end
  {
    if !hasFile then TclError
    else Wrote(FontFor(size) + " (" + str + ") " + PointText(toPs(x), toPs(y)) + " moveto show\n")
  }

  /** PS_drawLine2D: a stroked path from the first point to the second. */
  function DrawLine2D(hasFile: bool, toPs: int -> int, x1: int, y1: int, x2: int, y2: int): (r: Drawn)
    ensures r.TclError? <==> !hasFile
    ensures r.Wrote? ==>
      var start := "newpath " + Num(toPs(x1)) + " " + Num(toPs(y1)) + " moveto ";
      var end := " lineto stroke\n";
      && start <= r.text
      && |start| + |end| <= |r.text|
      && r.text[|start|..|r.text| - |end|] == PointText(toPs(x2), toPs(y2))
      && r.text[|r.text| - |end|..] == end
  {
    if !hasFile then TclError
    else Wrote("newpath " + PointText(toPs(x1), toPs(y1)) + " moveto "
      + PointText(toPs(x2), toPs(y2)) + " lineto stroke\n")
  }

  /** PS_drawVertex2D: the line from the point to itself. */
  function DrawVertex2D(hasFile: bool, toPs: int -> int, x: int, y: int): (r: Drawn)
    ensures r.TclError? <==> !hasFile
    ensures r.Wrote? ==>
      var point := Num(toPs(x)) + " " + Num(toPs(y));
      r.text == "newpath " + point + " moveto " + point + " lineto stroke\n"
  {
    var px := Num(toPs(x));
    var py := Num(toPs(y));
    assert "newpath " + px + " " + py + " moveto " + px + " " + py + " lineto stroke\n"
      == "newpath " + (px + " " + py) + " moveto " + (px + " " + py) + " lineto stroke\n";
    DrawLine2D(hasFile, toPs, x, y, x, y)
  }

  predicate NoSpace(s: string) {
    forall k :: 0 <= k < |s| ==> s[k] != ' '
  }

  /** "%d" never writes a space: a minus sign at most, then digits. */
  lemma NumNoSpace(n: int)
    ensures NoSpace(Num(n))
  {
    if n < 0 {
      Decimal.NatToStringShape(-n);
      assert Num(n) == "-" + Decimal.NatToString(-n);
    } else {
      Decimal.NatToStringShape(n);
    }
  }

  /** A word without spaces followed by a space is fixed by the text it starts. */
  lemma {:induction false} SplitAtSpace(a: string, b: string, a2: string, b2: string)
    requires NoSpace(a) && NoSpace(a2)
    requires a + " " + b == a2 + " " + b2
    ensures a == a2 && b == b2
  {
    var w := a + " " + b;
    assert w == a2 + " " + b2;
    assert w[|a|] == ' ' && w[|a2|] == ' ';
    assert forall k :: 0 <= k < |a| ==> w[k] == a[k];
    assert forall k :: 0 <= k < |a2| ==> w[k] == a2[k];
    assert |a| == |a2|;
    assert a == w[..|a|] == a2;
    assert b == w[|a| + 1..] == b2;
  }

  /** A written point followed by text that starts with a space is read back unambiguously. */
  lemma {:induction false} SplitPoint(x: int, y: int, rest: string, x2: int, y2: int, rest2: string)
    requires |rest| > 0 && rest[0] == ' ' && |rest2| > 0 && rest2[0] == ' '
    requires PointText(x, y) + rest == PointText(x2, y2) + rest2
    ensures x == x2 && y == y2 && rest == rest2
  {
    NumNoSpace(x);
    NumNoSpace(y);
    NumNoSpace(x2);
    NumNoSpace(y2);
    assert Num(x) + " " + (Num(y) + rest) == PointText(x, y) + rest;
    assert Num(x2) + " " + (Num(y2) + rest2) == PointText(x2, y2) + rest2;
    SplitAtSpace(Num(x), Num(y) + rest, Num(x2), Num(y2) + rest2);
    assert rest == " " + rest[1..] && rest2 == " " + rest2[1..];
    assert Num(y) + " " + rest[1..] == Num(y) + rest;
    assert Num(y2) + " " + rest2[1..] == Num(y2) + rest2;
    SplitAtSpace(Num(y), rest[1..], Num(y2), rest2[1..]);
    Decimal.IntToStringInjective(x, x2);
    Decimal.IntToStringInjective(y, y2);
  }

  /** The line's text regrouped around its two points. */
  lemma LineTextShape(p: string, q: string)
    ensures "newpath " + p + " moveto " + q + " lineto stroke\n"
         == "newpath " + (p + (" moveto " + (q + " lineto stroke\n")))
  {
  }

  /** The written line gives back both converted end points. */
  lemma DrawLine2DDeterminesPoints(toPs: int -> int, x1: int, y1: int, x2: int, y2: int,
                                   u1: int, v1: int, u2: int, v2: int)
    requires DrawLine2D(true, toPs, x1, y1, x2, y2) == DrawLine2D(true, toPs, u1, v1, u2, v2)
    ensures toPs(x1) == toPs(u1) && toPs(y1) == toPs(v1)
    ensures toPs(x2) == toPs(u2) && toPs(y2) == toPs(v2)
  {
    var end := " lineto stroke\n";
    var p, q := PointText(toPs(x1), toPs(y1)), PointText(toPs(x2), toPs(y2));
    var p2, q2 := PointText(toPs(u1), toPs(v1)), PointText(toPs(u2), toPs(v2));
    var tail, tail2 := " moveto " + (q + end), " moveto " + (q2 + end);
    LineTextShape(p, q);
    LineTextShape(p2, q2);
    var w := "newpath " + (p + tail);
    assert w == "newpath " + (p2 + tail2);
    assert p + tail == w[8..] == p2 + tail2;
    SplitPoint(toPs(x1), toPs(y1), tail, toPs(u1), toPs(v1), tail2);
    assert q + end == tail[8..] == q2 + end;
    SplitPoint(toPs(x2), toPs(y2), end, toPs(u2), toPs(v2), end);
  }

  /** The same string written in the same size gives back the converted point it was shown at. */
  lemma DrawString2DDeterminesPoint(toPs: int -> int, str: string, size: int, x: int, y: int, u: int, v: int)
    requires DrawString2D(true, toPs, str, x, y, size) == DrawString2D(true, toPs, str, u, v, size)
    ensures toPs(x) == toPs(u) && toPs(y) == toPs(v)
  {
    var start := FontFor(size) + " (" + str + ") ";
    var end := " moveto show\n";
    var w := DrawString2D(true, toPs, str, x, y, size).text;
    assert w == start + (PointText(toPs(x), toPs(y)) + end);
    assert w == start + (PointText(toPs(u), toPs(v)) + end);
    assert PointText(toPs(x), toPs(y)) + end == w[|start|..] == PointText(toPs(u), toPs(v)) + end;
    SplitPoint(toPs(x), toPs(y), end, toPs(u), toPs(v), end);
  }
}
