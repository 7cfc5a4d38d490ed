# Caller hook for logrus, modelled in Dafny

This project models `logs/hook/source.go`, a logrus hook. logrus calls the
hook's `Fire` each time a record is emitted. The hook looks at up to three
captured stack frames and skips the ones whose file lies inside
`github.com/sirupsen/logrus`. For the first frame outside logrus it stores
`"<file>:<line>(<function>)"` in the record's field map under `"caller"`.
`Levels` tells logrus which severities the hook wants: every level of
`logrus.AllLevels` numerically at or below the configured one, in the order
of that list.

Layout:

- `wrappers.dfy` (module `Wrappers`): an `Option` datatype.
- `go_strings.dfy` (module `GoStrings`): the three Go `strings` operations the
  hook uses, `Split` (for a one-character separator), `Contains` and
  `TrimPrefix`. `Join` and `LastIndex` are reference definitions: `Join` is the
  inverse that pins down `Split`, and `LastIndex` gives `LastSegment`, the
  reference meaning of "the text after the last separator".
- `decimal.dfy` (module `Decimal`): the `%d` rendering of the line number,
  with `DigitsValue` as the reading it must agree with.
- `hook.dfy` (module `Hook`): the `Source` configuration as a datatype. It
  holds `MakeSourceField`, `Levels` and `Fire`. The record is a class `Entry`
  whose map `Data` `Fire` updates in place. `FirstCaller`, `LevelsUpTo` and
  `Source.Annotated` specify the walk, the filter and the new field map.

The output does not always have the form `<nonempty>:<digits>(<nonempty>)`,
and the model follows the code here. A path that ends in the separator gives an
empty file part. A function name that is empty or ends in `.` gives an empty
function part. A negative line number is printed with a leading `-`.

## Model

| member | source | states |
|---|---|---|
| `Hook.Source.MakeSourceField` | logs/hook/source.go:78-92 | the field is the file part, `:`, the decimal line, `(`, the text after the last `.` of the function name, `)`; the `Split`-based code equals that reference form |
| `Hook.Source.FileName` | logs/hook/source.go:82-90 | shortened mode: the text after the last separator; long mode: the path with `srcPath + "/"` removed once when it is a prefix, otherwise the path unchanged |
| `Hook.ShortenedFileName` | logs/hook/source.go:83-87 | in shortened mode the file part never contains the separator, and a path ending in the separator gives an empty file part |
| `GoStrings.Split` | logs/hook/source.go:80-86 | a split always has at least one piece, so the `"<file>"` fallback is unreachable; no piece contains the separator |
| `GoStrings.JoinSplit` | logs/hook/source.go:84 | joining the pieces of a split with the separator gives back the original string |
| `GoStrings.SplitJoin` | logs/hook/source.go:84 | splitting the join of separator-free pieces gives back exactly those pieces |
| `GoStrings.SplitLastIsLastSegment` | logs/hook/source.go:80-81 | the last piece of a split, which the code takes as the name, is the text after the last separator |
| `GoStrings.LastIndex` | logs/hook/source.go:80-86 | None exactly when the character does not occur; otherwise a position holding it with no occurrence after it |
| `GoStrings.LastSegment` | logs/hook/source.go:80-86 | a suffix of the input without the separator, preceded by a separator when shorter than the input, and the whole input when it has no separator |
| `GoStrings.Contains` | logs/hook/source.go:51 | true exactly when the substring occurs at some position of the string |
| `GoStrings.TrimPrefix` | logs/hook/source.go:89 | the prefix is removed once when present; otherwise the string is unchanged |
| `Decimal.NatDigits` | logs/hook/source.go:91 | the rendering is a canonical digit string, without leading zeros, whose value is the number |
| `Decimal.IntString` | logs/hook/source.go:91 | a non-negative line is rendered as its canonical digits; a negative one as `-` followed by the digits of its magnitude |
| `Decimal.NatDigitsOfValue` | logs/hook/source.go:91 | every canonical digit string is the rendering of its value, so the rendering is the unique canonical spelling |
| `Decimal.IntStringInjective` | logs/hook/source.go:91 | distinct line numbers render differently |
| `Hook.FirstCaller` | logs/hook/source.go:48-62 | None exactly when every frame is inside logrus; otherwise the index of a frame outside logrus with every earlier frame inside logrus |
| `Hook.FirstCallerAt` | logs/hook/source.go:48-62 | a frame outside logrus preceded only by logrus frames is the one the walk selects |
| `Hook.Source.Annotated` | logs/hook/source.go:44-62 | no key other than `"caller"` is added, removed or changed; with no frame outside logrus (including no frames) the map is unchanged; otherwise `"caller"` holds the formatted first such frame |
| `Hook.Source.Fire` | logs/hook/source.go:41-66 | returns nil and leaves `Data` equal to `Annotated` of the old map; it takes frames up to and including the first one outside logrus, or all of them, at most three |
| `Hook.LevelsUpTo` | logs/hook/source.go:68-76 | a level is kept exactly when it is in the full list and at or below the threshold |
| `Hook.LevelsUpToCounts` | logs/hook/source.go:70-73 | each kept level occurs as often as in the full list, and each dropped level not at all |
| `Hook.LevelsUpToIsSubsequence` | logs/hook/source.go:70-73 | the kept levels appear in the order of the full list |
| `Hook.Source.Levels` | logs/hook/source.go:68-76 | the appending loop returns exactly `LevelsUpTo(allLevels, level)` |
| `Hook.NewSource` | logs/hook/source.go:33-39 | a new hook has the given level and source root, and shortened file names |
| `Hook.InfoHookLevels` | logs/hook/source.go:68-76 | with logrus's seven levels and threshold info, the hook asks for panic, fatal, error, warn and info |
| `Hook.ShortenedFileNameExample` | logs/hook/source.go:83-87 | in shortened mode, `/home/user/project/server.go` has the file part `server.go` |
| `Hook.LongFileNameExamples` | logs/hook/source.go:88-90 | under root `/home/user/project`, `/home/user/project/server.go` becomes `server.go` and `/other/lib.go` stays unchanged |
| `Hook.LineExample` | logs/hook/source.go:91 | line 42 is rendered as `42` |
| `Hook.ShortenedFieldExample` | logs/hook/source.go:79-92 | in shortened mode, the frame `/home/user/project/server.go`, 42, `service.Run` formats as `server.go:42(Run)` |
| `Hook.FunctionNameExamples` | logs/hook/source.go:80-81 | `service.Run` gives `Run`, `service.Handler.Process` gives `Process`, and `main` stays `main` |

## Left out

- `runtime.Callers` and `runtime.CallersFrames` (logs/hook/source.go:42-43, 47, 49) are stack introspection. `Fire` instead receives the frames they would resolve, as a sequence. The length `actualDepth` is that sequence's length, at most `CallerTraceDepth` (3).
- Hook.Source.Fire: the model gives one frame per captured program counter. `CallersFrames` may expand inlined calls into more frames than counters, and the model does not capture that.
- The skip count `callerTrickySkipping` (5) only matters to the runtime capture, so the model leaves it out.
- `NewSource` reads `build.Default.GOPATH` and calls `filepath.Join`. Both depend on the environment and the OS path library. `Hook.NewSource` takes the resulting source root as a parameter.
- `os.PathSeparator` is fixed to `/`.
- logrus types: `Level` is an unbounded `int`, so its `uint32` width is not modelled. `AllLevels` is a parameter of `Levels`. `Entry` keeps only its `Data` map, with string values. Registering the hook with logrus is not modelled.
- Go strings are byte strings, and the model works on characters. The separators and the logrus module path are ASCII; file paths and `srcPath` are taken to be valid UTF-8.
- Concurrency: the hook has no shared mutable state, so there is nothing to model.
