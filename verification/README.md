# Live-reload dev server: sequential core

The server in `main.go` serves a directory over HTTP, injects a reload script
into HTML pages, watches the directory for changes and pushes a "reload"
server-sent event to every open browser tab; when the last tab goes away it
arms a 3-second idle timer and exits if nobody reconnects. This project models
the three pieces of that program that are sequential logic, and proves what
they promise:

- **Debounce filter** (`debounce.dfy`, module `Debounce`). The watch loop keeps
  `lastEvent`, initialised to the moment the watcher starts. A raw event is
  accepted only when its base name does not start with `.`, does not end with
  `~`, and strictly more than 50 ms (50 000 000 ns) have passed since
  `lastEvent`; accepting moves `lastEvent` to the event's time. `Step` is one
  decision, `Fold` runs it over a sequence of events.
- **Subscriber registry and idle flag** (`registry.dfy`, module `Subscribers`).
  The set of message channels, the `isRoutineOpen` flag, the number of idle
  routines (`checkIdle`) waiting to be told to quit, and the identity the next
  `make(chan)` returns. `Connect` and `Disconnect` are the two halves of the
  `/sse` handler; `Run` applies a sequence of opens and closes, one handler
  step at a time.
- **Request routing and script injection** (`handler.dfy`, module `Handler`,
  over `splice.dfy`, module `Splice`). The embedded-script path is answered
  first; `/` becomes `/` + index page; the extension is taken after that
  rewrite; for `.html` the first `</body>` is replaced by the script element
  followed by `</body>` (`bytes.Replace` with a count of 1).

`paths.dfy` (module `Paths`) models the file part of `filepath.Split` and `filepath.Ext` for
`/`-separated paths; `wrappers.dfy` holds the `Option` type.

Bytes are modelled as characters with codes below 256 (`Splice.byte`), so
ASCII literals such as `"</body>"` are byte sequences directly. Time is an
unbounded integer count of nanoseconds. The file system the handler reads is
a map from the request path (after the index rewrite) to the file's bytes.

Three facts about the code shape the model. Connect clears the idle flag
whenever it is set, without looking at the registry; the proved invariant
shows the flag is set exactly when the registry is empty after at least one
connection, so this is the same as clearing it when the registry was empty,
except at start-up, when no timer exists. The fan-out of an accepted event
sends on unbuffered channels, so each send blocks until its handler
receives. No mutex guards the channel map or the flag.

## Model

| member | source | states |
|---|---|---|
| Paths.BaseName | main.go:97 | the file part of `filepath.Split` is the longest suffix of the path that holds no `/`: it is a suffix, has no `/`, and is preceded by a `/` whenever it is not the whole path |
| Paths.Ext | main.go:56 | `filepath.Ext` is empty exactly when the last path element has no `.`; otherwise it starts with the last `.` of that element, holds no other `.`, and is a suffix of the element |
| Debounce.IgnoredIsDotPrefixOrTildeSuffix | main.go:98 | the name filter `Ignored` drops a base name exactly when it has the prefix `.` or the suffix `~` |
| Debounce.Step | main.go:97-99 | an event is accepted if and only if it is more than 50 ms after `lastEvent` and its base name is neither hidden nor a backup; `lastEvent` becomes the event's time when accepted and is unchanged otherwise |
| Debounce.Fold | main.go:87-99 | one flag per event; `lastEvent` never falls below the watcher's start time; every accepted event is more than 50 ms after the start and not later than the final `lastEvent` |
| Debounce.ThresholdIsStrict | main.go:98 | an eligible event exactly 50 ms after `lastEvent` is rejected and one 1 ns later is accepted |
| Debounce.IgnoredNeverAccepted | main.go:97-99 | a name starting with `.` or ending with `~` is rejected whatever its timing and leaves `lastEvent` unchanged |
| Debounce.EligibleAccepted | main.go:98-99 | an event that passes both filters is accepted and becomes the new `lastEvent` |
| Debounce.FoldLastEvent | main.go:87-99 | after a sequence, `lastEvent` is the time of the last accepted event, or the watcher's start time when none was accepted; rejected events never move it |
| Debounce.RejectedEventDoesNotRestartWindow | main.go:98-99 | once event i is accepted, a later event k with only rejected events in between is accepted exactly when it is eligible and more than 50 ms after event i: rejected events do not restart the window (eligible events at 60, 90, 120 ms give accept, reject, accept) |
| Debounce.DecisionAt | main.go:87-99 | the decision on event k is exactly one step against the `lastEvent` left by events 0..k-1 |
| Debounce.IgnoredNeverAcceptedInFold | main.go:97-98 | in a sequence, a hidden or backup file event is never accepted, wherever it appears |
| Debounce.AcceptedAreSpaced | main.go:98-99 | any two accepted events in a sequence, the later one more than 50 ms after the earlier one |
| Debounce.BurstAcceptsAtMostOne | main.go:98-99 | a burst whose events all fall inside one 50 ms window yields at most one accepted event |
| Debounce.StartupWindowDropped | main.go:87-98 | no event within the first 50 ms after the watcher starts is ever accepted |
| Debounce.SpacedEventsAllAccepted | main.go:97-99 | eligible events each more than 50 ms after the previous one (the first after the start) are all accepted, the last one ending as `lastEvent` |
| Subscribers.Connect | main.go:126-131 | connect registers one channel made after every existing one, leaves the other channels alone, ends with the flag clear and one fewer idle routine when it was set; it completes exactly when the flag is clear or an idle routine is there to receive on `quit` |
| Subscribers.Disconnect | main.go:138-143 | disconnect removes exactly that channel; it sets the flag and starts one idle routine exactly when the registry becomes empty, and otherwise leaves the flag as it was |
| Subscribers.InitialValid | main.go:21-23 | the start state (no channels, flag clear, no channel made yet) satisfies the registry invariant |
| Subscribers.ConnectKeepsValid | main.go:126-131 | from a valid state connect never blocks on `quit`, adds one fresh channel (size grows by one), clears the flag with no idle routine left, and keeps the invariant |
| Subscribers.DisconnectKeepsValid | main.go:138-143 | closing a registered channel from a valid state happens only while no timer is armed, shrinks the registry by one, arms the timer iff the registry is now empty, and keeps the invariant |
| Subscribers.RunKeepsValid | main.go:126-143 | across any sequence of opens and closes, the flag is set exactly when the registry is empty after at least one connection, and at most one idle routine is pending |
| Subscribers.ApplyStopsOnlyAtForeignClose | main.go:128-129 | from a valid state the only step that cannot be taken is closing a channel that is not registered; an open never deadlocks on `quit` |
| Subscribers.OpensNeverBlock | main.go:126-131 | any sequence of opens from a valid state completes |
| Subscribers.ReloadDisarmsTimer | main.go:126-143 | the only tab closing arms the timer with one idle routine; a new tab opening then disarms it |
| Subscribers.ForeignCloseStartsSecondTimer | main.go:139-142 | a close on an empty, armed registry would start a second idle routine; this is why `Apply` refuses a close of a channel that is not registered |
| Splice.IndexFrom | main.go:70-74 | the search returns the first position at or after `from` where the pattern occurs, or reports that it occurs nowhere from there on |
| Splice.Index | main.go:70-74 | `bytes.Index` finds an occurrence iff one exists, and the one it finds is the first |
| Splice.ReplaceFirst | main.go:70-74 | with no occurrence the input is returned unchanged; otherwise the length changes by the difference of replacement and target |
| Splice.ReplaceFirstUndone | main.go:70-74 | the replacement sits at the first occurrence and putting the target back there restores the input |
| Splice.InsertBeforeFirst | main.go:70-74 | replacing the first target by prefix+target inserts the prefix just before that occurrence and copies every input byte |
| Handler.Route | main.go:53-55 | `/` is routed to `/` + index page and every other path to itself |
| Handler.InjectScript | main.go:69-75 | a page without `</body>` is returned unchanged; otherwise it grows by exactly the script element |
| Handler.Handle | main.go:47-77 | the embedded script is served exactly for `/` + the script name; nothing is written exactly when the routed file is missing; the content type is `text/css` for `.css` and unset otherwise; an `.html` file is served with the script injected and every other file unchanged |
| Handler.InjectBeforeFirstBodyClose | main.go:69-75 | the script element lands immediately before the first `</body>`, every page byte (later `</body>` tags included) is kept, and removing the element gives the page back |
| Handler.ScriptPathShortCircuits | main.go:48-51 | the script path is answered from memory whatever the file system holds |
| Handler.IndexPageInjected | main.go:53-75 | `/` is served as `/` + index page, and an `.html` index page gets the script injected |
| Handler.UnchangedUnlessHtmlWithBody | main.go:65-77 | every non-HTML file, and every HTML page without `</body>`, is served byte for byte |

## Left out

- File-system watching: creating the fsnotify watcher, the `filepath.Walk` that registers each directory once at start-up, and closing the watcher (main.go:81-85, 110-117) are operating-system I/O; the model starts from the sequence of raw events.
- Debounce.Step: the source reads the clock twice, once in `time.Since` for the comparison and once in `time.Now` for the new `lastEvent`; the model uses one instant for both, so it does not capture the nanoseconds between the two reads.
- Debounce.Fold: the `time.Duration` comparison is on 64-bit nanosecond counts; the model uses unbounded integers, which agree for any realistic uptime.
- The fan-out of an accepted event (main.go:100-104) runs in its own goroutine with blocking sends on unbuffered channels while handlers may change the map; that is concurrency, not sequential behaviour, and is not modelled.
- The `quit` handshake, `time.Tick` and `os.Exit(3)` in `checkIdle` (main.go:149-156): the timer is modelled only by the flag and the count of pending idle routines; the timer firing and the process exit are not modelled.
- Subscribers.Connect and Subscribers.Disconnect model one interleaving in which each handler's connect part and disconnect part run without interruption; the unsynchronised map and flag accesses of concurrent handlers are a data race and are not modelled.
- HTTP plumbing: `ListenAndServe`, response headers, `Flush`, and the SSE `data: change` writes (main.go:39-45, 122-124, 136-137).
- Reading the file: `ioutil.ReadFile` with `path.Join` and `path.Clean` (main.go:59) is replaced by a map lookup on the routed request path; any read error is the missing-key case.
- Flag parsing (main.go:28-31); the index page name is a parameter.
- The embedded client-side JavaScript (main.go:158-235) is browser code; the handler's answer for its path is the `EmbeddedScript` response.
