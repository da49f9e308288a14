# bazel-watcher: the macOS FSEvents watcher

This project models the macOS back end of ibazel's file watcher,
`internal/ibazel/fswatcher/fsevents/fsevents.go`. The model covers four things:

- **Event normalization** (`newEvent`). A native FSEvents notification is a
  path plus a 32-bit flag mask. Only notifications about plain files become
  watcher events. Their operation bits follow a fixed table:
  - Removed → Remove, Created → Create, Renamed → Rename;
  - Modified or InodeMetaMod → Write;
  - ChangeOwner or XattrMod → Chmod.
- **The translation loop** (`MapEvents`). Batch after batch, it sends every
  event `newEvent` produces, in order, and drops the rest.
- **Common-root search** (`findCommonRoot`).
  - It splits each path into segments after trimming the separators at both
    ends.
  - It keeps the longest segment prefix of the first path that every path
    shares.
  - It returns that prefix rejoined as `"/" + filepath.Join(prefix...) + "/"`.
  - It fails when nothing is shared, and returns no roots for no paths.
- **The watcher object** (`NewWatcher`, `UpdateAll`, `Close`).
  - It holds one native stream at a time.
  - Every update stops the current stream.
  - A successful update replaces it with a started stream over the common
    root, carrying the old stream's flags.

The Go library helpers the search relies on are modelled in `paths.dfy`:

- `strings.Trim`, `strings.Split` and `strings.Join` with a one-character
  separator;
- `filepath.Join`, including its cleaning of `.` and `..` segments.

Modules:

- `Paths` (`paths.dfy`): trimming, splitting and joining, and path cleaning.
- `Events` (`events.dfy`): flags, `NewEvent`, the forwarding specification
  `Forwarded`, and the `MapEvents` loop.
- `CommonRoot` (`common_root.dfy`): the specification `RootOf`, the loop
  `FindCommonRoot`, and the longest-common-prefix lemmas.
- `Watcher` (`watcher.dfy`): the `FSEventsWatcher` class.

Constants:

- Native flag values are the FSEvents API's `kFSEventStreamEventFlagItem*`
  bits, and `FileEvents` is `kFSEventStreamCreateFlagFileEvents` (0x10).
- The watcher's operation bits are Create=1, Write=2, Remove=4, Rename=8 and
  Chmod=16. The model relies only on their being five distinct single bits.

## Model

| member | source | states |
|---|---|---|
| Events.NewEvent | internal/ibazel/fswatcher/fsevents/fsevents.go:78-105 | yields nothing exactly when the mask lacks the is-file bit; otherwise an event named after the notification's path |
| Events.NewEventFollowsTable | internal/ibazel/fswatcher/fsevents/fsevents.go:85-102 | a file event carries an operation exactly when the mapping table raises it from the mask, and no bit outside the five operations |
| Events.NewEventDependsOnlyOnTable | internal/ibazel/fswatcher/fsevents/fsevents.go:81-104 | two file notifications whose masks raise the same operations produce the same event |
| Events.SameBitsSameOp | internal/ibazel/fswatcher/fsevents/fsevents.go:85-102 | operation sets are determined by the five operation bits |
| Events.DirectoryEventDropped | internal/ibazel/fswatcher/fsevents/fsevents.go:81-83 | a directory notification without the file bit yields nothing, whatever operation flags it has |
| Events.RemovedAndRenamed | internal/ibazel/fswatcher/fsevents/fsevents.go:85-93 | flags are combined, not exclusive: Removed and Renamed give one event with both operations |
| Events.Normalize | internal/ibazel/fswatcher/fsevents/fsevents.go:71-73 | one notification produces at most one event |
| Events.Forwarded | internal/ibazel/fswatcher/fsevents/fsevents.go:69-75 | a run of notifications forwards at most one event per notification |
| Events.ForwardedSnoc | internal/ibazel/fswatcher/fsevents/fsevents.go:70-73 | forwarding one more notification appends its event, if any, at the end |
| Events.ForwardedAppend | internal/ibazel/fswatcher/fsevents/fsevents.go:69-75 | forwarding distributes over concatenation, so batches are forwarded in delivery order |
| Events.ForwardedMembers | internal/ibazel/fswatcher/fsevents/fsevents.go:69-75 | an event is forwarded if and only if some notification of the run maps to it |
| Events.MapEvents | internal/ibazel/fswatcher/fsevents/fsevents.go:68-76 | the events sent are exactly the forwarded events of all batches, in delivery order |
| Events.MapBatch | internal/ibazel/fswatcher/fsevents/fsevents.go:70-74 | the events sent for one batch are exactly its forwarded events, in order |
| Paths.IndexOf | internal/ibazel/fswatcher/fsevents/fsevents.go:113 | the first occurrence of the separator: it is there and not before |
| Paths.TrimLeft | internal/ibazel/fswatcher/fsevents/fsevents.go:113 | left trimming never lengthens the string |
| Paths.TrimLeftSpec | internal/ibazel/fswatcher/fsevents/fsevents.go:113 | left trimming leaves a suffix not starting with the separator, and drops only separators |
| Paths.TrimRight | internal/ibazel/fswatcher/fsevents/fsevents.go:113 | right trimming never lengthens the string |
| Paths.TrimRightSpec | internal/ibazel/fswatcher/fsevents/fsevents.go:113 | right trimming leaves a prefix not ending with the separator, and drops only separators |
| Paths.Trim | internal/ibazel/fswatcher/fsevents/fsevents.go:113 | the trimmed path neither starts nor ends with the separator |
| Paths.TrimBounds | internal/ibazel/fswatcher/fsevents/fsevents.go:117 | the trimmed path is a slice of the input with only separators around it |
| Paths.Split | internal/ibazel/fswatcher/fsevents/fsevents.go:113 | at least one piece, none holds the separator, and joining the pieces gives the input back |
| Paths.IndexOfAt | internal/ibazel/fswatcher/fsevents/fsevents.go:117 | a separator with none before it is the first occurrence |
| Paths.SplitCons | internal/ibazel/fswatcher/fsevents/fsevents.go:117 | splitting at a first separator peels off the piece before it |
| Paths.SplitJoin | internal/ibazel/fswatcher/fsevents/fsevents.go:117 | splitting a join of separator-free pieces gives the pieces back: split and join are inverse |
| Paths.NonEmpty | internal/ibazel/fswatcher/fsevents/fsevents.go:132 | the elements filepath.Join keeps are exactly the non-empty ones |
| Paths.NonEmptyKeepsAll | internal/ibazel/fswatcher/fsevents/fsevents.go:132 | with no empty element, nothing is dropped |
| Paths.NonEmptyParts | internal/ibazel/fswatcher/fsevents/fsevents.go:132 | the kept elements are non-empty and separator-free, and there are none exactly when all are empty |
| Paths.CleanSegments | internal/ibazel/fswatcher/fsevents/fsevents.go:132 | cleaning yields clean segments (no ".", every ".." first), no more than the input, drawn from the input or "..": filepath.Clean on the joined segments |
| Paths.CleanKeepsClean | internal/ibazel/fswatcher/fsevents/fsevents.go:132 | clean segments are left unchanged by cleaning |
| Paths.CleanIdempotent | internal/ibazel/fswatcher/fsevents/fsevents.go:132 | cleaning twice is cleaning once |
| Paths.CleanKeepsPlain | internal/ibazel/fswatcher/fsevents/fsevents.go:132 | without "." or ".." segments cleaning changes nothing |
| Paths.CleanedParts | internal/ibazel/fswatcher/fsevents/fsevents.go:132 | cleaning keeps segments non-empty and separator-free |
| Paths.JoinPath | internal/ibazel/fswatcher/fsevents/fsevents.go:132 | filepath.Join of segments: empty exactly when every segment is empty, and never starting or ending with the separator |
| Paths.JoinPathOfPlainSegments | internal/ibazel/fswatcher/fsevents/fsevents.go:132 | without "." or "..", splitting the joined path gives back exactly the non-empty segments |
| Paths.JoinPathIdempotent | internal/ibazel/fswatcher/fsevents/fsevents.go:132 | a joined path is already clean: joining its own segments again gives it back |
| Paths.JoinShape | internal/ibazel/fswatcher/fsevents/fsevents.go:132 | a join of non-empty separator-free segments is non-empty and has no separator at either end |
| CommonRoot.Segments | internal/ibazel/fswatcher/fsevents/fsevents.go:113 | a path has at least one segment and no segment holds the separator |
| CommonRoot.MatchLen | internal/ibazel/fswatcher/fsevents/fsevents.go:118-124 | the matched length is within both bounds, both prefixes agree up to it, and it stops early only at a differing segment |
| CommonRoot.MatchLenUnique | internal/ibazel/fswatcher/fsevents/fsevents.go:118-124 | any length with those three properties is the matched length |
| CommonRoot.Shared | internal/ibazel/fswatcher/fsevents/fsevents.go:114-126 | the root length after the outer loop never exceeds the first path's segment count |
| CommonRoot.SharedNonIncreasing | internal/ibazel/fswatcher/fsevents/fsevents.go:114-126 | the root length only shrinks as more paths are visited |
| CommonRoot.SharedStep | internal/ibazel/fswatcher/fsevents/fsevents.go:116-126 | one outer iteration moves the root length to its value for one more path, and the kept prefix is common to all paths so far |
| CommonRoot.SharedIsCommon | internal/ibazel/fswatcher/fsevents/fsevents.go:114-126 | the kept prefix of the first path is a prefix of every path |
| CommonRoot.SharedIsMaximal | internal/ibazel/fswatcher/fsevents/fsevents.go:114-126 | every prefix of the first path common to all paths is no longer than the kept one |
| CommonRoot.RootOf | internal/ibazel/fswatcher/fsevents/fsevents.go:108-133 | no paths give no roots; the only error is the fixed message; otherwise one root of at least two characters, starting and ending with the separator |
| CommonRoot.LongestCommonPrefixExists | internal/ibazel/fswatcher/fsevents/fsevents.go:107 | every non-empty list of paths has a longest common segment prefix |
| CommonRoot.RootIsLongestCommonPrefix | internal/ibazel/fswatcher/fsevents/fsevents.go:107-133 | the root is the longest common segment prefix, rejoined, and the search fails exactly when that prefix is empty |
| CommonRoot.CommonPrefixOfSubset | internal/ibazel/fswatcher/fsevents/fsevents.go:116-126 | a prefix common to every path of a list is common to any list drawn from the same paths |
| CommonRoot.RootOrderIndependent | internal/ibazel/fswatcher/fsevents/fsevents.go:107-133 | the result depends only on the set of paths, not on their order or repetition |
| CommonRoot.SinglePathRoot | internal/ibazel/fswatcher/fsevents/fsevents.go:113-132 | the search never fails for a single path, and its root is that path's own segments rejoined |
| CommonRoot.DivergentPathsHaveNoRoot | internal/ibazel/fswatcher/fsevents/fsevents.go:116-130 | paths whose first segments differ have no common root |
| CommonRoot.SegmentsOfSimplePath | internal/ibazel/fswatcher/fsevents/fsevents.go:113 | an absolute path built from segments splits back into those segments |
| CommonRoot.SingleDirectoryIsItsOwnRoot | internal/ibazel/fswatcher/fsevents/fsevents.go:113-132 | a single clean absolute directory is its own root, with a trailing separator |
| CommonRoot.CommonLength | internal/ibazel/fswatcher/fsevents/fsevents.go:118-124 | the inner loop computes the matched length |
| CommonRoot.FindCommonRoot | internal/ibazel/fswatcher/fsevents/fsevents.go:108-133 | the loop computes exactly the result of the specification RootOf |
| Watcher.FSEventsWatcher.NewWatcher | internal/ibazel/fswatcher/fsevents/fsevents.go:135-146 | a new watcher is open and has a stream that watches nothing, reports file events and is not started |
| Watcher.FSEventsWatcher.UpdateAll | internal/ibazel/fswatcher/fsevents/fsevents.go:46-62 | the old stream is always stopped. On error the error is returned and the stopped stream stays. On success a started stream over the common root, with the old flags, replaces it. Either way at most one stream runs |
| Watcher.FSEventsWatcher.Close | internal/ibazel/fswatcher/fsevents/fsevents.go:38-43 | stops the current stream and marks the watcher closed; it may be called once only |

## Left out

- The native stream, channels and goroutines are not modelled as such.
  - A stream is a value holding its paths, flags and whether it runs.
  - `MapEvents` is modelled over the finite sequence of batches the stream
    delivers. What it sends is returned as a sequence.
  - The concurrent start of `MapEvents` in `UpdateAll` is not modelled.
  - Nothing about blocking or the lifetime of goroutines is modelled.
- `Events()` is not modelled. It only returns the output channel.
- Closing the two channels in `Close` is modelled as a `closed` flag.
- The native notification's event identifier is not modelled. The translation
  loop reads only a notification's path and flags, so a notification is a
  path and a flag mask here.
- The Stop and Start calls of the FSEvents library are not modelled. Their
  effect is modelled as the stream's `running` field. Whether stopping a stream
  that was never started does anything is not modelled.
- Watcher.FSEventsWatcher.Close: the source does not guard against a second
  call. Closing a closed channel is a run-time error in Go, so the model
  requires an open watcher instead of modelling that failure.
- CommonRoot.CommonLength: the inner loop of `findCommonRoot` is a separate
  method, and the outer loop calls it.
- Events.MapBatch: the inner loop of `MapEvents` is a separate method in the
  same way.
