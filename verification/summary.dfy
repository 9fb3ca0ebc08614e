/**
  libged's `summary [p r g]` command: count the primitives, regions and
  other combinations of the database directory, and list the names whose
  directory flags match the requested letters.
*/
module Summary {
  import opened Wrappers

  /** Directory entry flags. */
  const DIR_SOLID: bv32 := 0x1
  const DIR_COMB: bv32 := 0x2
  const DIR_REGION: bv32 := 0x4

  /** One directory entry: its name and flags. */
  datatype Entry = Entry(name: string, flags: bv32)

  predicate Has(e: Entry, flag: bv32) {
    e.flags & flag != 0
  }

  /** The flags the letters p, r and g stand for, given which letters occur. */
  function Mask(p: bool, r: bool, g: bool): bv32 {
    (if p then DIR_SOLID else 0) | (if r then DIR_REGION else 0) | (if g then DIR_COMB else 0)
  }

  predicate IsFlagLetter(c: char) {
    c == 'p' || c == 'r' || c == 'g'
  }

  datatype SummaryError = NoArguments | TooManyArguments | BadLetter(c: char)

  /**
    The letter loop of ged_summary: each of p, r, g ORs in its flag; any
    other character is an error. The result depends only on which letters
    occur, not on their order or repetition.
  */
  function ParseFlags(s: string): (r: Result<bv32, SummaryError>)
    ensures r.Success? <==> forall k :: 0 <= k < |s| ==> IsFlagLetter(s[k])
    ensures r.Success? ==> r.value == Mask('p' in s, 'r' in s, 'g' in s)
    ensures r.Failure? ==> r.error.BadLetter? && r.error.c in s && !IsFlagLetter(r.error.c)
    decreases |s|
  {
    if s == [] then Success(0)
    else
      var rest := ParseFlags(s[1..]);
      assert forall c :: c in s <==> c == s[0] || c in s[1..];
      if !IsFlagLetter(s[0]) then Failure(BadLetter(s[0]))
      else if rest.Failure? then
        assert forall k :: 1 <= k < |s| ==> s[k] == s[1..][k - 1];
        rest
      else
        assert forall k :: 1 <= k < |s| ==> s[k] == s[1..][k - 1];
        var flag := if s[0] == 'p' then DIR_SOLID else if s[0] == 'r' then DIR_REGION else DIR_COMB;
        MaskJoin(s[0] == 'p', s[0] == 'r', s[0] == 'g', 'p' in s[1..], 'r' in s[1..], 'g' in s[1..]);
        Success(flag | rest.value)
  }

  lemma MaskJoin(p1: bool, r1: bool, g1: bool, p2: bool, r2: bool, g2: bool)
    ensures Mask(p1, r1, g1) | Mask(p2, r2, g2) == Mask(p1 || p2, r1 || r2, g1 || g2)
  {
  }

  /** Letters that name the same set of categories select the same flags. */
  lemma ParseFlagsSetOnly(s: string, t: string)
    requires forall c :: c in s <==> c in t
    ensures ParseFlags(s) == ParseFlags(t) || (ParseFlags(s).Failure? && ParseFlags(t).Failure?)
  {
    if ParseFlags(s).Success? {
      forall k | 0 <= k < |t|
        ensures IsFlagLetter(t[k])
      {
        assert t[k] in s;
      }
    }
  }

  /** Entries with a given flag. */
  function CountWith(dir: seq<Entry>, flag: bv32): (c: nat)
    ensures c <= |dir|
    decreases |dir|
  {
    if dir == [] then 0
    else CountWith(dir[..|dir| - 1], flag) + (if Has(dir[|dir| - 1], flag) then 1 else 0)
  }

  /** Combinations that are regions. */
  function CountRegions(dir: seq<Entry>): (c: nat)
    decreases |dir|
  {
    if dir == [] then 0
    else
      var e := dir[|dir| - 1];
      CountRegions(dir[..|dir| - 1]) + (if Has(e, DIR_COMB) && Has(e, DIR_REGION) then 1 else 0)
  }

  /** Combinations that are not regions. */
  function CountPlainCombs(dir: seq<Entry>): (c: nat)
    decreases |dir|
  {
    if dir == [] then 0
    else
      var e := dir[|dir| - 1];
      CountPlainCombs(dir[..|dir| - 1]) + (if Has(e, DIR_COMB) && !Has(e, DIR_REGION) then 1 else 0)
  }

  /** Every combination is counted once: as a region or as a plain combination. */
  lemma {:induction false} CombinationsSplit(dir: seq<Entry>)
    ensures CountRegions(dir) + CountPlainCombs(dir) == CountWith(dir, DIR_COMB)
    decreases |dir|
  {
    if dir != [] {
      CombinationsSplit(dir[..|dir| - 1]);
    }
  }

  /** The names of the entries sharing a flag with `flag`, in directory order. */
  function Matching(dir: seq<Entry>, flag: bv32): (names: seq<string>)
    ensures |names| <= |dir|
    decreases |dir|
  {
    if dir == [] then []
    else Matching(dir[..|dir| - 1], flag) + (if Has(dir[|dir| - 1], flag) then [dir[|dir| - 1].name] else [])
  }

  /** A name is listed exactly when some entry of that name matches the flag. */
  lemma {:induction false} MatchingMembers(dir: seq<Entry>, flag: bv32, name: string)
    ensures name in Matching(dir, flag) <==> exists k :: 0 <= k < |dir| && dir[k].name == name && Has(dir[k], flag)
    decreases |dir|
  {
    if dir != [] {
      var front := dir[..|dir| - 1];
      MatchingMembers(front, flag, name);
      if name in Matching(front, flag) {
        var k :| 0 <= k < |front| && front[k].name == name && Has(front[k], flag);
        assert dir[k] == front[k];
      }
      if exists k :: 0 <= k < |dir| && dir[k].name == name && Has(dir[k], flag) {
        var k :| 0 <= k < |dir| && dir[k].name == name && Has(dir[k], flag);
        if k < |dir| - 1 {
          assert front[k] == dir[k];
        }
      }
    }
  }

  /** With no flag requested nothing matches. */
  lemma {:induction false} MatchingNothing(dir: seq<Entry>)
    ensures Matching(dir, 0) == []
    decreases |dir|
  {
    if dir != [] {
      MatchingNothing(dir[..|dir| - 1]);
    }
  }

  /** The report: the three counts, their total, and the names listed. */
  datatype Report = Report(primitives: nat, regions: nat, combinations: nat, total: nat, listed: seq<string>)

  /** The counting pass of ged_dir_summary. */
  method Tally(dir: seq<Entry>) returns (sol: nat, reg: nat, comb: nat)
    ensures sol == CountWith(dir, DIR_SOLID)
    ensures reg == CountRegions(dir) && comb == CountPlainCombs(dir)
  {
    sol, comb, reg := 0, 0, 0;
    var i := 0;
    while i < |dir|
      invariant 0 <= i <= |dir|
      invariant sol == CountWith(dir[..i], DIR_SOLID)
      invariant reg == CountRegions(dir[..i]) && comb == CountPlainCombs(dir[..i])
    {
      assert dir[..i + 1][..i] == dir[..i];
      var e := dir[i];
      if Has(e, DIR_SOLID) {
        sol := sol + 1;
      }
      if Has(e, DIR_COMB) {
        if Has(e, DIR_REGION) {
          reg := reg + 1;
        } else {
          comb := comb + 1;
        }
      }
      i := i + 1;
    }
    assert dir[..|dir|] == dir;
  }

  /** The listing pass of ged_dir_summary: the names of the entries sharing a flag with `flag`. */
  method Collect(dir: seq<Entry>, flag: bv32) returns (listed: seq<string>)
    ensures listed == Matching(dir, flag)
  {
    listed := [];
    var i := 0;
    while i < |dir|
      invariant 0 <= i <= |dir|
      invariant listed == Matching(dir[..i], flag)
    {
      assert dir[..i + 1][..i] == dir[..i];
      if Has(dir[i], flag) {
        listed := listed + [dir[i].name];
      }
      i := i + 1;
    }
    assert dir[..|dir|] == dir;
  }

  /** ged_dir_summary: one pass counting, and a second pass collecting the matching names unless no flag is set. */
  method DirSummary(dir: seq<Entry>, flag: bv32) returns (r: Report)
    ensures r.primitives == CountWith(dir, DIR_SOLID)
    ensures r.regions + r.combinations == CountWith(dir, DIR_COMB)
    ensures r.regions == CountRegions(dir) && r.combinations == CountPlainCombs(dir)
    ensures r.total == r.primitives + r.regions + r.combinations
    ensures flag == 0 ==> r.listed == []
    ensures r.listed == Matching(dir, flag)
  {
    var sol, reg, comb := Tally(dir);
    CombinationsSplit(dir);
    if flag == 0 {
      MatchingNothing(dir);
      return Report(sol, reg, comb, sol + reg + comb, []);
    }
    var listed := Collect(dir, flag);
    return Report(sol, reg, comb, sol + reg + comb, listed);
  }

  /**
    ged_summary: no letters summarise without a listing, more than one
    argument is a usage error, otherwise the letters choose what to list.
  */
  method SummaryCommand(args: seq<string>, dir: seq<Entry>) returns (r: Result<Report, SummaryError>)
    ensures |args| == 0 <==> r == Failure(NoArguments)
    ensures |args| > 2 <==> r == Failure(TooManyArguments)
    ensures |args| == 1 ==> r.Success? && r.value.listed == []
    ensures |args| == 2 ==> (r.Success? <==> ParseFlags(args[1]).Success?)
    ensures |args| == 2 && r.Success? ==> r.value.listed == Matching(dir, ParseFlags(args[1]).value)
    ensures r.Success? ==> r.value.primitives == CountWith(dir, DIR_SOLID)
    ensures r.Success? ==> r.value.total == r.value.primitives + r.value.regions + r.value.combinations
    ensures r.Success? ==> r.value.regions + r.value.combinations == CountWith(dir, DIR_COMB)
  {
    if |args| == 0 {
      return Failure(NoArguments);
    }
    if |args| == 1 {
      var report := DirSummary(dir, 0);
      return Success(report);
    }
    if 2 < |args| {
      return Failure(TooManyArguments);
    }
    var flags := ParseFlags(args[1]);
    if flags.Failure? {
      return Failure(flags.error);
    }
    var report := DirSummary(dir, flags.value);
    return Success(report);
  }
}
