# logrus formatter core in Dafny

This is a model of the shared formatter logic of the logrus structured logging
library for Go (`formatter.go`). The file has two jobs.

- **Field-clash prefixing** (`prefixFieldClashes`). Before an entry is
  serialised, a user field stored under `time`, `msg` or `level` is copied to
  `fields.time`, `fields.msg` or `fields.level`. The original key is left alone.
  When callers are shown, an existing `caller` value is copied to
  `fields.caller`. Then `caller` is set to the resolved location.
- **Caller resolution** (`caller`, `getcaller`). The call stack is scanned from
  cursor `depth - 2`. Each frame's qualified function name is split on `/`. The
  scan looks for the last piece `logrus.Entry.log` (the library's dispatch
  function). On a match at cursor `d` it asks `caller` for skip `d + 3`.
  `caller` counts from its own frame, one level below `getcaller`, so that skip
  is the frame two beyond the dispatch frame in `getcaller`'s count. The frame
  is reported as `<base file name>:<line>`. The sentinel `"???: ?"` is reported
  when a frame is missing, and once the cursor passes `MaxDepth = 9`.

Files:

- `wrappers.dfy`: the `Option` datatype.
- `text.dfy` (module `Text`): the string helpers the source calls. These are
  `strings.Split` on one character (with `Join` as its inverse), `filepath.Base`
  as "everything after the last `/`", and the decimal rendering of a line
  number (with `ParseInt` as its inverse).
- `caller.dfy` (module `CallerResolution`): frames, `Caller`, the specification
  function `ResolveCaller`, and the method `GetCaller`. `GetCaller` is the
  source's loop, proved equal to `ResolveCaller`.
- `fields.dfy` (module `FieldClashes`): the specification function `Prefixed`
  and the lemmas that give its meaning key by key. It also holds the class
  `Fields`, whose method `PrefixFieldClashes` updates the map in place, as the
  source does.

The runtime's stack introspection (`runtime.Caller`, `runtime.FuncForPC`) is
replaced by a parameter `stack: seq<Frame>`. Here `Frame = (name, file, line)`.
The stack is seen from the function that looks frames up: skip 0 is that
function itself, and the lookup at skip `d` succeeds exactly when
`0 <= d < |stack|`. `getcaller` looks up `stack` directly. `caller` looks up
`Callee(stack)`, which is `stack` with `caller`'s own frame (`CallerFrame`) in
front.

Facts of the code that the model keeps:

- The sentinel is `"???: ?"`, with a space (formatter.go:63, :73).
- The bound compares the absolute cursor `d` with 9 (formatter.go:97). The test
  comes after the increment and after the next lookup (formatter.go:94-97). So
  names are tested at cursors `depth - 2` through `max(depth - 2, 9)`.
- Every name test is followed by exactly one lookup: the next cursor's, or
  `caller`'s on a match. With the first lookup, there is one more lookup than
  there are tests. A scan from cursor 0 tests at most 10 names and makes at
  most 11 lookups. When it tests all 10 without a match, the 11th lookup is at
  cursor 10 and its result is never used. When the 10th test matches, the 11th
  lookup is `caller`'s, and its result is returned.

## Model

| member | source | states |
|---|---|---|
| `Text.Split` | formatter.go:87-89 | splitting always gives at least one piece, so the last-piece access at line 89 is safe |
| `Text.SplitPiecesLackSeparator` | formatter.go:87 | no piece of the split contains the separator |
| `Text.JoinSplit` | formatter.go:87 | splitting loses nothing: joining the pieces with the separator gives back the name |
| `Text.SplitJoin` | formatter.go:87 | joining separator-free pieces and splitting again gives back the pieces, so `Split` is exactly strings.Split's decomposition |
| `Text.Base` | formatter.go:65 | `filepath.Base` of the frame's file; its meaning is given by `BaseIsLastSegment` and `LastSplitIsBase` |
| `Text.BaseIsLastSegment` | formatter.go:65 | the base name has no `/`, is a suffix of the path, and is the whole path or is preceded by a `/` |
| `Text.LastSplitIsBase` | formatter.go:87-89 | the last `/`-separated piece of a name is its base name |
| `Text.Itoa` | formatter.go:65 | the line as `fmt.Sprint` renders it: an optional `-` and then digits only, ending in a digit; `ItoaRoundTrip` gives its meaning |
| `Text.Decimal` | formatter.go:65 | the decimal digits of a line number are non-empty, all digits, and have no leading zero |
| `Text.DecimalRoundTrip` | formatter.go:65 | reading the rendered digits back gives the number |
| `Text.ItoaRoundTrip` | formatter.go:65 | reading a rendered (possibly negative) line number back gives the number |
| `CallerResolution.LocationRoundTrip` | formatter.go:65 | a `base:line` location splits at its last `:` back into the file's base name and the line |
| `CallerResolution.SentinelIsNotALocation` | formatter.go:63 | the sentinel `"???: ?"` never reads as a location |
| `CallerResolution.Location` | formatter.go:65 | the `base:line` text of a frame; its meaning is given by `LocationRoundTrip` |
| `CallerResolution.Caller` | formatter.go:59-68 | `caller(depth)` on the stack `caller` sees; its meaning is given by `CallerReadsBack` and `CallerFromGetcaller` |
| `CallerResolution.CallerFromGetcaller` | formatter.go:59-61 | skip `k + 1` counted from `caller`'s own frame is `getcaller`'s frame `k`: its location, or the sentinel when the stack is not that deep |
| `CallerResolution.CallerReadsBack` | formatter.go:59-68 | the result is the sentinel exactly when there is no frame at that depth; otherwise it reads back as the frame file's base name and the frame's line |
| `CallerResolution.IsDispatch` | formatter.go:86-89 | the name test of the loop; its meaning is given by `DispatchIsBaseName` |
| `CallerResolution.DispatchIsBaseName` | formatter.go:86-89 | the dispatch test matches exactly when the part of the function name after its last `/` is `logrus.Entry.log` |
| `CallerResolution.FindDispatch` | formatter.go:81-101 | the search returns the first cursor in range whose frame is the dispatch function, or nothing when no frame in range is |
| `CallerResolution.FindDispatchFindsFirst` | formatter.go:81-92 | when the frame at `c` is the dispatch function and no frame between the start of the range and `c` is, a search over a range that contains `c` returns `c` |
| `CallerResolution.ResolveCallerAtFirstDispatch` | formatter.go:89-92 | when the first dispatch frame of the bounded scan is at `c`, the result is `caller(c + 3)`, counted on `caller`'s own stack |
| `CallerResolution.ReportsFrameTwoBeyondDispatch` | formatter.go:89-90 | when the first dispatch frame of the bounded scan is at `c`, the result is the location of `getcaller`'s frame `c + 2`, or the sentinel when the stack is not that deep |
| `CallerResolution.ScanResult` | formatter.go:75-101 | the first dispatch cursor the scan reaches, if any; given by `FindDispatch` from `depth - 2` to `max(depth - 2, 9)` |
| `CallerResolution.Report` | formatter.go:77-91 | the result once the scan has ended: `caller(c + 3)` for the dispatch cursor `c`, or the sentinel |
| `CallerResolution.ResolveCaller` | formatter.go:70-104 | what `getcaller(depth)` returns; its meaning is given by `ResolveCallerAtFirstDispatch`, `ReportsFrameTwoBeyondDispatch`, the sentinel lemmas below and `GetCaller` |
| `CallerResolution.ScanFindsDispatch` | formatter.go:89-92 | a scan that finds the dispatch frame `c` reports `caller(c + 3)` |
| `CallerResolution.NoDispatchGivesSentinel` | formatter.go:94-103 | when no frame the scan can reach is the dispatch function, the result is the sentinel |
| `CallerResolution.MissingFrameGivesSentinel` | formatter.go:79-85 | a missing frame at any cursor the scan reaches, the first included, ends the scan with the sentinel |
| `CallerResolution.ExhaustedGivesSentinel` | formatter.go:97-103 | a scan that passes the bound without a match reports the sentinel |
| `CallerResolution.ScanStopsAtMissingFrame` | formatter.go:79-85 | when the frames before cursor `d` were all passed over and there is no frame at `d`, the result is the sentinel |
| `CallerResolution.ScanStopsAtDispatch` | formatter.go:86-92 | when the frames before cursor `d` were all passed over and the frame at `d` is the dispatch function, the result is `caller(d + 3)`, counted on `caller`'s own stack |
| `CallerResolution.ScanPassesBound` | formatter.go:94-103 | when the cursor passes `max(depth - 2, 9)` after passing over every frame, the scan is exhausted and the result is the sentinel |
| `CallerResolution.GetCaller` | formatter.go:70-104 | the loop terminates and returns `ResolveCaller`; it prints the diagnostic exactly when every cursor from `depth - 2` up to `max(depth - 2, 9)` has a non-dispatch frame, and then returns the sentinel; at most `max(depth - 2, 9) - (depth - 2) + 1` names are tested; there is exactly one more lookup than there are tests, `caller`'s included, so at most `max(depth - 2, 9) - (depth - 2) + 2` lookups (11 from cursor 0) |
| `FieldClashes.Prefixed` | formatter.go:39-57 | the field map after `prefixFieldClashes`; its meaning is given key by key by the lemmas below |
| `FieldClashes.AliasesDiffer` | formatter.go:41-52 | the alias keys are `fields.time`, `fields.msg`, `fields.level` and `fields.caller`; they are distinct from each other and from the reserved keys |
| `FieldClashes.AliasIfPresent` | formatter.go:40-42 | one guarded copy of a key to its alias; its meaning is given by `AliasIfPresentEffect` |
| `FieldClashes.PrefixReserved` | formatter.go:40-48 | the three guarded copies of `time`, `msg` and `level`; its meaning is given by `PrefixReservedEffect` |
| `FieldClashes.AliasIfPresentEffect` | formatter.go:40-42 | one copy adds the alias of a present key with that key's value and changes nothing else |
| `FieldClashes.PrefixReservedEffect` | formatter.go:40-48 | the three copies add exactly the aliases of the reserved keys present, each with its key's value, and change nothing else |
| `FieldClashes.ReservedKeysAliased` | formatter.go:40-48 | each of `time`, `msg`, `level` present keeps its value and its alias gets that value, whether or not callers are shown |
| `FieldClashes.AbsentKeysNotAliased` | formatter.go:40-48 | an absent `time`, `msg` or `level` stays absent, produces no alias and leaves an existing alias alone |
| `FieldClashes.OnlyAliasesChange` | formatter.go:39-50 | without callers shown, the only keys added or changed are the aliases of the reserved keys present; no `caller` key is added or altered |
| `FieldClashes.CallerStored` | formatter.go:50-56 | with callers shown, `caller` holds the resolved location; an earlier `caller` value moves to `fields.caller`, which is otherwise untouched; other keys keep their values |
| `FieldClashes.PrefixIdempotent` | formatter.go:40-48 | without callers shown, prefixing twice gives the same map as prefixing once |
| `FieldClashes.AliasOverwritesEarlierAlias` | formatter.go:40-48 | when a reserved key and its alias are both present, the alias ends up with the reserved key's value, so a differing earlier alias value is lost |
| `FieldClashes.AliasOverwriteExample` | formatter.go:40-42 | for example, a user field literally named `fields.time` holding 2 is overwritten by `time`'s value 1 |
| `FieldClashes.Fields.PrefixFieldClashes` | formatter.go:39-57 | the in-place updates leave the map equal to `Prefixed` of the old map with the caller resolved by `GetCaller` |

## Left out

- `runtime.Caller` and `runtime.FuncForPC` are Go runtime stack introspection. They are replaced by the `stack` parameter. What a given skip depth means in a real program is not modelled, and a negative skip is taken to have no frame.
- The diagnostic `fmt.Printf` when the scan gives up (formatter.go:98) is I/O. It is modelled only as the `exhausted` result of `GetCaller`.
- `Text.Base` models `filepath.Base` as the text after the last `/`. It leaves out the special cases: an empty path gives `.`, trailing slashes are removed, and other operating systems use other separators.
- The `Formatter` interface and `DefaultTimestampFormat` (formatter.go:11, 23-25) are declarations with no logic.
- Field values are Go `interface{}` values. `FieldClashes.Value` tells strings apart and stands for every other value by an integer or an identity. Values are only copied, never inspected.
- Integers are unbounded. A cursor `depth - 2` or `d + 3` near Go's `int` limits, where the arithmetic would wrap, is not modelled.
- `CallerResolution.Callee`: `caller`'s own frame, `CallerFrame`, carries the file name `formatter.go` and line 61; the real file is the path the library was built from. Skip 1 on `caller`'s stack would show `getcaller` at line 90, while `Callee` shows `getcaller`'s frame at its lookup line; the model only reads skips of 3 and more, where the two agree.
- `FieldClashes.Fields.PrefixFieldClashes`: a nil `Fields` map, into which the assignment at formatter.go:55 panics in Go, is not modelled. The map is always a value, possibly empty.
- Concurrency is not modelled. Each call works on one entry's map and the calling goroutine's own stack.
