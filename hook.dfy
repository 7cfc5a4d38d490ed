/**
 * The logrus hook of logs/hook/source.go.  When a record is emitted the hook
 * walks a few captured stack frames, skips those that belong to logrus
 * itself, and stores "<file>:<line>(<function>)" for the first frame outside
 * logrus under the "caller" field of the record.  It also tells logrus which
 * levels it wants to be called for.
 *
 * The runtime's stack capture is an input here: the frames it would have
 * resolved are passed to `Fire` as a sequence.
 */
module Hook {
  import opened Wrappers
  import opened GoStrings
  import opened Decimal

  /** At most this many program counters are captured (the size of the trace buffer). */
  const CallerTraceDepth: nat := 3
  /** The field of the record that receives the formatted frame. */
  const CallerFieldName: string := "caller"
  /** Frames whose file path contains this text belong to logrus. */
  const LogrusModule: string := "github.com/sirupsen/logrus"
  /** `os.PathSeparator`, fixed to the Unix separator. */
  const PathSeparator: char := '/'
  /** Written when the path splits into no pieces, which `Split` never does. */
  const UnknownFile: string := "<file>"

  /** A logrus severity: 0 is panic, larger numbers are less severe. */
  type Level = int

  /** The part of `runtime.Frame` the hook reads. */
  datatype Frame = Frame(File: string, Line: int, Function: string)

  /** A logrus record; the hook only touches its field map. */
  class Entry {
    var Data: map<string, string>
  }

  predicate IsLogrusFrame(f: Frame) {
    Contains(f.File, LogrusModule)
  }

  /** The first frame that does not belong to logrus, if there is one. */
  function FirstCaller(frames: seq<Frame>): (r: Option<nat>)
    ensures r.None? <==> forall j :: 0 <= j < |frames| ==> IsLogrusFrame(frames[j])
    ensures r.Some? ==> r.value < |frames| && !IsLogrusFrame(frames[r.value])
    ensures r.Some? ==> forall j :: 0 <= j < r.value ==> IsLogrusFrame(frames[j])
    decreases |frames|
  {
    if frames == [] then None
    else if !IsLogrusFrame(frames[0]) then Some(0)
    else
      match FirstCaller(frames[1..])
      case None => None
      case Some(k) => Some(k + 1)
  }

  /** The first-match conditions pin down the index `FirstCaller` returns. */
  lemma {:induction false} FirstCallerAt(frames: seq<Frame>, i: nat)
    requires i < |frames| && !IsLogrusFrame(frames[i])
    requires forall j :: 0 <= j < i ==> IsLogrusFrame(frames[j])
    ensures FirstCaller(frames) == Some(i)
    decreases i
  {
    if i > 0 {
      assert IsLogrusFrame(frames[0]);
      var rest := frames[1..];
      assert forall j :: 0 <= j < i - 1 ==> rest[j] == frames[j + 1];
      FirstCallerAt(rest, i - 1);
    }
  }

  /** `r` keeps the elements of `xs` in their order, possibly dropping some. */
  ghost predicate IsSubsequence(r: seq<Level>, xs: seq<Level>)
    decreases |xs|
  {
    if xs == [] then r == []
    else
      || IsSubsequence(r, xs[..|xs| - 1])
      || (r != [] && r[|r| - 1] == xs[|xs| - 1] && IsSubsequence(r[..|r| - 1], xs[..|xs| - 1]))
  }

  /** The levels of `all` that are at least as severe as `bound`, in the order of `all`. */
  function LevelsUpTo(all: seq<Level>, bound: Level): (r: seq<Level>)
    ensures forall x :: x in r <==> x in all && x <= bound
    decreases |all|
  {
    if all == [] then []
    else
      var init, x := all[..|all| - 1], all[|all| - 1];
      assert all == init + [x];
      LevelsUpTo(init, bound) + if x <= bound then [x] else []
  }

  /** Each kept level occurs as often as in `all`, and each dropped one not at all. */
  lemma {:induction false} LevelsUpToCounts(all: seq<Level>, bound: Level)
    ensures forall x :: multiset(LevelsUpTo(all, bound))[x] == if x <= bound then multiset(all)[x] else 0
    decreases |all|
  {
    if all != [] {
      var init, x := all[..|all| - 1], all[|all| - 1];
      assert all == init + [x];
      LevelsUpToCounts(init, bound);
      assert multiset(all) == multiset(init) + multiset([x]);
      var tail := if x <= bound then [x] else [];
      assert multiset(LevelsUpTo(all, bound)) == multiset(LevelsUpTo(init, bound)) + multiset(tail);
    }
  }

  /** The kept levels keep their order in `all`. */
  lemma {:induction false} LevelsUpToIsSubsequence(all: seq<Level>, bound: Level)
    ensures IsSubsequence(LevelsUpTo(all, bound), all)
    decreases |all|
  {
    if all != [] {
      var init, x := all[..|all| - 1], all[|all| - 1];
      LevelsUpToIsSubsequence(init, bound);
      var r := LevelsUpTo(all, bound);
      if x <= bound {
        assert r == LevelsUpTo(init, bound) + [x];
        assert r[..|r| - 1] == LevelsUpTo(init, bound);
        assert r[|r| - 1] == x;
        assert IsSubsequence(r[..|r| - 1], all[..|all| - 1]);
      } else {
        assert r == LevelsUpTo(init, bound);
        assert IsSubsequence(r, all[..|all| - 1]);
      }
    }
  }

  /** The hook's configuration: the severity threshold, the source root used for
      long file names, and whether file names are cut to their base name. */
  datatype Source = Source(level: Level, srcPath: string, useShortenCaller: bool)
  {
    /** The file part of a formatted frame: the base name in shortened mode,
        otherwise the path with "<srcPath>/" removed when it starts with it. */
    function FileName(file: string): (r: string)
      ensures useShortenCaller ==> r == LastSegment(file, PathSeparator)
      ensures !useShortenCaller && srcPath + [PathSeparator] <= file ==> srcPath + [PathSeparator] + r == file
      ensures !useShortenCaller && !(srcPath + [PathSeparator] <= file) ==> r == file
    {
      if useShortenCaller then LastSegment(file, PathSeparator)
      else TrimPrefix(file, srcPath + [PathSeparator])
    }

    /** Formats a frame as "<file>:<line>(<function>)", where <function> is the
        text after the last '.' of the qualified name. */
    function MakeSourceField(frame: Frame): (r: string)
      ensures r == FileName(frame.File) + ":" + IntString(frame.Line) + "(" + LastSegment(frame.Function, '.') + ")"
    {
      var funcSlice := Split(frame.Function, '.');
      SplitLastIsLastSegment(frame.Function, '.');
      var funcName := funcSlice[|funcSlice| - 1..][0];
      var fileName :=
        if useShortenCaller then
          var paths := Split(frame.File, PathSeparator);
          SplitLastIsLastSegment(frame.File, PathSeparator);
          if |paths| > 0 then paths[|paths| - 1] else UnknownFile
        else
          TrimPrefix(frame.File, srcPath + [PathSeparator]);
      fileName + ":" + IntString(frame.Line) + "(" + funcName + ")"
    }

    /** The field map after the hook has seen `frames`. */
    function Annotated(data: map<string, string>, frames: seq<Frame>): (r: map<string, string>)
      ensures forall key :: key != CallerFieldName ==> (key in r <==> key in data)
      ensures forall key :: key != CallerFieldName && key in data ==> r[key] == data[key]
      ensures FirstCaller(frames).None? ==> r == data
      ensures FirstCaller(frames).Some? ==>
        CallerFieldName in r && r[CallerFieldName] == MakeSourceField(frames[FirstCaller(frames).value])
    {
      match FirstCaller(frames)
      case None => data
      case Some(k) => data[CallerFieldName := MakeSourceField(frames[k])]
    }

    /** The levels the hook asks logrus to call it for. */
    method Levels(allLevels: seq<Level>) returns (levels: seq<Level>)
      ensures levels == LevelsUpTo(allLevels, level)
    {
      levels := [];
      for i := 0 to |allLevels|
        invariant levels == LevelsUpTo(allLevels[..i], level)
      {
        assert allLevels[..i + 1][..i] == allLevels[..i];
        if allLevels[i] <= level {
          levels := levels + [allLevels[i]];
        }
      }
      assert allLevels[..|allLevels|] == allLevels;
    }

    /** Walks the captured frames and records the first one outside logrus.
        `steps` counts the frames taken from the iterator.  Never fails. */
    method Fire(entry: Entry, frames: seq<Frame>) returns (err: Option<string>, ghost steps: nat)
      requires |frames| <= CallerTraceDepth
      modifies entry
      ensures err == None
      ensures entry.Data == Annotated(old(entry.Data), frames)
      ensures steps == match FirstCaller(frames) case Some(k) => k + 1 case None => |frames|
      ensures steps <= CallerTraceDepth
    {
      err := None;
      steps := 0;
      if |frames| == 0 {
        return;
      }
      var i := 0;
      while true
        invariant 0 <= i < |frames|
        invariant forall j :: 0 <= j < i ==> IsLogrusFrame(frames[j])
        invariant entry.Data == old(entry.Data)
        invariant steps == i
        decreases |frames| - i
      {
        var current, next := frames[i], i + 1 < |frames|;
        steps := steps + 1;
        if Contains(current.File, LogrusModule) {
          if !next {
            break;
          }
          i := i + 1;
          continue;
        }
        FirstCallerAt(frames, i);
        entry.Data := entry.Data[CallerFieldName := MakeSourceField(current)];
        break;
      }
    }
  }

  /** In shortened mode a path ending in the separator has an empty file part,
      and no file part contains the separator. */
  lemma ShortenedFileName(s: Source, file: string)
    requires s.useShortenCaller
    ensures PathSeparator !in s.FileName(file)
    ensures |file| > 0 && file[|file| - 1] == PathSeparator ==> s.FileName(file) == ""
  {
  }

  /** `NewSource`, with the source root given instead of read from the build
      environment: file names start out shortened. */
  function NewSource(level: Level, srcPath: string): (s: Source)
    ensures s.level == level && s.srcPath == srcPath && s.useShortenCaller
  {
    Source(level, srcPath, true)
  }

  // Worked examples of the formatting and the level filter.

  /** logrus.AllLevels: panic, fatal, error, warn, info, debug, trace. */
  const AllLevels: seq<Level> := [0, 1, 2, 3, 4, 5, 6]

  lemma InfoHookLevels()
    ensures LevelsUpTo(AllLevels, 4) == [0, 1, 2, 3, 4]
  {
    assert LevelsUpTo([], 4) == [];
    assert [0][..0] == [];
    assert LevelsUpTo([0], 4) == [0];
    assert [0, 1][..1] == [0];
    assert LevelsUpTo([0, 1], 4) == [0, 1];
    assert [0, 1, 2][..2] == [0, 1];
    assert LevelsUpTo([0, 1, 2], 4) == [0, 1, 2];
    assert [0, 1, 2, 3][..3] == [0, 1, 2];
    assert LevelsUpTo([0, 1, 2, 3], 4) == [0, 1, 2, 3];
    assert [0, 1, 2, 3, 4][..4] == [0, 1, 2, 3];
    assert LevelsUpTo([0, 1, 2, 3, 4], 4) == [0, 1, 2, 3, 4];
    assert [0, 1, 2, 3, 4, 5][..5] == [0, 1, 2, 3, 4];
    assert LevelsUpTo([0, 1, 2, 3, 4, 5], 4) == [0, 1, 2, 3, 4];
    assert AllLevels[..6] == [0, 1, 2, 3, 4, 5];
  }

  lemma ShortenedFileNameExample(src: Source)
    requires src.useShortenCaller
    ensures src.FileName("/home/user/project/server.go") == "server.go"
  {
    assert LastIndex("/home/user/project/server.go", PathSeparator) == Some(18);
  }

  lemma LongFileNameExamples()
    ensures Source(4, "/home/user/project", false).FileName("/home/user/project/server.go") == "server.go"
    ensures Source(4, "/home/user/project", false).FileName("/other/lib.go") == "/other/lib.go"
  {
  }

  lemma LineExample()
    ensures IntString(42) == "42"
  {
    assert NatDigits(4) == "4";
  }

  lemma ShortenedFieldExample(src: Source, frame: Frame)
    requires src.useShortenCaller
    requires frame == Frame("/home/user/project/server.go", 42, "service.Run")
    ensures src.MakeSourceField(frame) == "server.go:42(Run)"
  {
    calc {
      src.MakeSourceField(frame);
      src.FileName(frame.File) + ":" + IntString(frame.Line) + "(" + LastSegment(frame.Function, '.') + ")";
      { ShortenedFileNameExample(src); FunctionNameExamples(); LineExample(); }
      "server.go" + ":" + "42" + "(" + "Run" + ")";
      "server.go:42(Run)";
    }
  }

  lemma FunctionNameExamples()
    ensures LastSegment("service.Run", '.') == "Run"
    ensures LastSegment("service.Handler.Process", '.') == "Process"
    ensures LastSegment("main", '.') == "main"
  {
    assert LastIndex("service.Run", '.') == Some(7);
    assert LastIndex("service.Handler.Process", '.') == Some(15);
  }
}
