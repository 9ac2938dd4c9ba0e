# harmony2mqtt hub registry — a Dafny model

This project models the core of `index.js` in harmony2mqtt, a bridge between
an MQTT broker and Logitech Harmony hubs. The core is small:

* **Identifier normalisation.** `s.replace(/[.\s]+/g, '_')` turns a hub host
  name or an activity/device label into a topic-safe segment. This is module
  `Normalise`. `IsSep` is the class `[.\s]`, with ECMAScript's WhiteSpace and
  LineTerminator code points written out. `Norm` scans the string one
  character at a time (`Collapse`). `ByRuns` is an independent run-by-run
  reading of the same rewrite, where each maximal run is matched whole and
  replaced by `_`. A lemma proves the two agree.
* **Label maps.** `processConfig` writes `activities[id] = norm(label)` and
  `activities_reverse[norm(label)] = id` for each activity in list order, then
  does the same for devices. Module `LabelMaps` states this as `Build`, a left
  fold over the list, and proves the key sets, last-writer-wins, the partial
  inverse and label shadowing on collisions.
* **The hub registry.** Module `HubRegistry` holds class `Registry`. Its
  `hubs` field is the global dictionary and `order` is the key enumeration
  order of `for…in`. `connect` is split at its asynchronous boundary:
  `Register` is the synchronous insert-if-absent, and `CapabilitiesArrived` is
  the promise callback. That callback resets the four maps, runs
  `ProcessConfig` (its two `forEach` loops are `WriteActivities` and
  `WriteDevices`), and then attaches the client. A ghost set `pending` holds the
  names whose connection has not yet delivered capabilities. `CheckState` is
  the polling tick. Its loop (`Select`) picks the entries that have a client.
  Each answered query gives one `LogLine`. The tick returns two logs:
  `logAsWritten` is what the callbacks log as the code is written, and `log`
  resolves each answer through the hub that was queried.

Inputs from the outside world are parameters. The discovered hub is a
`DiscoveredHub` (host name, ip). The hub client is an opaque `ClientId`.
`getAvailableCommands` is replaced by a `Capabilities` value (activity and
device lists of id/label entries). `getCurrentActivity` is replaced by an
`answers` map from hub name to the returned activity id; a rejected query has
no entry.

Some behaviour of the code that is easy to miss:

* A host name keeps its domain suffix: `Living Room.local` normalises to
  `Living_Room_local`, not `Living_Room` (`Normalise.HostNameWithDomain`).
* `connect` inserts the entry *before* connecting (index.js:67-68). A hub whose
  connection fails stays in the registry with no client. The insert-if-absent
  then ignores every later announcement of it, so it is never retried.
* Activity `-1` is recorded in the maps like any other id. The tick runs every
  1000 ms and only logs; it publishes nothing and dispatches no command.

## Model

| member | source | states |
|---|---|---|
| `Normalise.IsSep` | index.js:66 | the class `[.\s]`: the dot plus ECMAScript's 25 WhiteSpace and LineTerminator code points, listed in `JsWhitespace` |
| `Normalise.SepClass` | index.js:66 | no word character, and so not the replacement `_`, is a separator; `.`, space, tab and newline are |
| `Normalise.ByRuns` | index.js:66 | the independent run-by-run reading of the global replace: a maximal run of separators becomes one `_` and any other character is copied; never longer than the input, empty iff the input is, and its first character is `_` or the input's first character |
| `Normalise.Collapse` | index.js:66 | the one-character-at-a-time rewrite: never longer than its input, and non-empty on a non-empty input read outside a run |
| `Normalise.Norm` | index.js:88 | the normalised identifier is never longer than the input and is empty exactly when the input is |
| `Normalise.NormSepFree` | index.js:88 | the normalised string contains no `.` and no JavaScript whitespace character |
| `Normalise.NormIsByRuns` | index.js:66 | the character-by-character scan equals the run-by-run replacement: each maximal run of separators becomes one `_`, and every other character is copied in order |
| `Normalise.CollapseAppend` | index.js:88 | normalising a concatenation normalises each part, the second part starting inside a run iff the first part ends with a separator |
| `Normalise.NormFixesSepFree` | index.js:88 | an input with no separator comes back unchanged |
| `Normalise.NormIdempotent` | index.js:66 | normalising a normalised string changes nothing |
| `Normalise.NormOfRun` | index.js:95 | a non-empty run made only of separators becomes exactly one `_` |
| `Normalise.NormAroundKept` | index.js:88 | a non-separator character is kept in place, and each side of it is normalised on its own, so runs never merge across it |
| `Normalise.NormAroundSep` | index.js:88 | one separator between non-separators becomes one `_`, and each side is normalised on its own |
| `Normalise.NormTwoWords` | index.js:88 | two separator-free words around a separator are joined by `_` |
| `Normalise.HostNameWithDomain` | index.js:66 | a host name `a b.c` becomes the registry key `a_b_c`, domain suffix included |
| `LabelMaps.Build` | index.js:87-91 | the writes of a list never remove a key, and the last entry's key maps to the last entry's value |
| `LabelMaps.FreshKeys` | index.js:87-91 | from an empty map, the keys are exactly the keys the entries write |
| `LabelMaps.BuildKeys` | index.js:87-91 | after the writes, a key is present iff it was present before or some entry writes it |
| `LabelMaps.BuildLastWriter` | index.js:89-90 | the value under a key is the one written by the last entry with that key (id for forward maps, normalised label for reverse maps) |
| `LabelMaps.BuildUntouched` | index.js:97-98 | a key no entry writes keeps its previous binding or stays absent |
| `LabelMaps.FreshMapKeys` | index.js:74-75 | from empty maps, the forward keys are exactly the ids and the reverse keys exactly the normalised labels |
| `LabelMaps.FreshMapValues` | index.js:88-90 | every forward value is separator-free, and every reverse value is the id of an entry whose label normalises to its key |
| `LabelMaps.MapsAreInverse` | index.js:87-91 | with distinct ids and distinct normalised labels, forward and reverse maps are mutual inverses, in both directions |
| `LabelMaps.BuildPair` | index.js:87-91 | a two-entry list gives the second entry's bindings over the first's, in both the forward and the reverse map |
| `LabelMaps.CollisionShadows` | index.js:89-90 | `Watch TV` (id 1) and `Watch.TV` (id 2) collide: the reverse map keeps only id 2, and the forward map has both ids |
| `HubRegistry.Processed` | index.js:86-100 | the four maps after the capabilities step only gain keys, and an empty activity (device) list leaves the activity (device) maps as they were |
| `HubRegistry.ProcessedFromEmpty` | index.js:74-78 | after the capabilities step, the key sets of the four maps are the activity ids, the normalised activity labels, the device ids and the normalised device labels |
| `HubRegistry.WithClient` | index.js:106-110 | the selected keys are no more than the enumerated keys, and each is a registry entry with a client |
| `HubRegistry.WithClientExactly` | index.js:106-110 | a tick selects a hub iff it is in the registry and has a client |
| `HubRegistry.WithClientDistinct` | index.js:106 | no hub is selected twice in one tick |
| `HubRegistry.Report` | index.js:113 | the corrected callback logs a line iff the hub has its maps (otherwise reading `activities` throws a TypeError); the line is under the queried hub, with a label iff that hub's `activities` holds the answered id |
| `HubRegistry.Reports` | index.js:111-113 | no more lines than queried hubs; each line is a TypeError or belongs to a hub that was queried and answered |
| `HubRegistry.ReportsNoDup` | index.js:106-113 | when each hub is queried once, no two logged lines share a hub: each answered hub gets at most one line |
| `HubRegistry.ReportsAsWritten` | index.js:106-114 | as written, at most one line per queried hub, and every line is a TypeError or logged under the last enumerated key |
| `HubRegistry.AsWrittenSameCallbacks` | index.js:111-114 | the as-written and the corrected callbacks fire for the same answers: both logs have the same length |
| `HubRegistry.TickSelection` | index.js:106-110 | over a valid registry, the tick selects exactly the entries with a client, skips hubs still waiting for capabilities and selects no hub twice |
| `HubRegistry.TickLogs` | index.js:111-113 | when each hub is queried once and has its maps, each corrected line is under a queried, answered hub and carries that hub's own label, each answered hub gets its line, and no two lines share a hub; every as-written line is a TypeError or under the last key, and both logs have the same length |
| `HubRegistry.ReportsResolveOwnHub` | index.js:111-113 | each answered query yields one line under its own hub, resolved through that hub's own `activities`; a rejected query removes only its own line |
| `HubRegistry.ClosureResolvesThroughLastKey` | index.js:106-114 | as written, with hubs A and B connected, A's answer is looked up in and logged under B |
| `HubRegistry.ClosureThrowsOnPendingLastKey` | index.js:109-113 | as written, when the last key has no maps yet, the callback of a connected hub throws a TypeError |
| `HubRegistry.Registry.constructor` | index.js:11 | the registry starts empty and valid |
| `HubRegistry.Registry.Register` | index.js:64-68 | the key is the normalised host name; the entry is inserted iff absent, and a present name leaves every entry, the order and the pending set unchanged; the invariant is kept |
| `HubRegistry.Registry.CapabilitiesArrived` | index.js:72-80 | the hub's maps are those built from empty maps by the capability lists; the client is attached; no other entry changes; the invariant (a client implies maps) is kept |
| `HubRegistry.Registry.ProcessConfig` | index.js:86-100 | the entry's four maps are its old maps after the activity writes and then the device writes; no other entry changes |
| `HubRegistry.Registry.WriteActivities` | index.js:87-91 | the activity maps grow by the list's writes in order; device maps and other entries are unchanged |
| `HubRegistry.Registry.WriteDevices` | index.js:94-99 | the device maps grow by the list's writes in order; activity maps and other entries are unchanged |
| `HubRegistry.Registry.Select` | index.js:106-110 | the loop selects the entries with a client in enumeration order, and the loop variable ends holding the last enumerated key |
| `HubRegistry.Registry.CheckState` | index.js:105-118 | queries exactly the entries with a client, in enumeration order and once each; hubs still waiting for capabilities are skipped; `logAsWritten` is the as-written log of the callbacks through the last enumerated key, each line a TypeError or under that key; `log` gives each answered hub exactly one line, its own, resolved through its own `activities`, and a rejected query removes only that hub's line |

## Findings

| source | as written | input that shows it | evidently intended | confidence | as-written member | corrected member |
|---|---|---|---|---|---|---|
| index.js:106-114 | the `.then` callback reads the function-scoped `var hub`. Every callback runs after the `for…in` loop has ended, so each one resolves through and logs under the last enumerated key. | two connected hubs A and B; A answers `1`, which only A's `activities` holds: both lines read `B undefined` | each answer is resolved through the `activities` of the hub that was queried | high; not executed | `HubRegistry.ClosureResolvesThroughLastKey`, `HubRegistry.ReportsAsWritten` and the `logAsWritten` result of `HubRegistry.Registry.CheckState` | `HubRegistry.ReportsResolveOwnHub` (over `HubRegistry.Reports`, which `CheckState` uses) |

## Left out

- MQTT connection, will message, `connected` publishes, subscription and the empty message handler (index.js:18-47): network I/O with no logic to model.
- Hub discovery on port 61991 and its `online`/`offline` handlers (index.js:49-62, 103): foreign-library I/O. The `offline` handler only logs.
- The `harmonyhubjs-client` promise chain and the 5000 ms timeout (index.js:69-72, 111): replaced by the parameters of `CapabilitiesArrived` and `CheckState`. A failed or timed-out connection is a `Register` that is never followed by `CapabilitiesArrived`.
- The `setInterval` timer (index.js:29) and `log.*` output. A log line is modelled as a `LogLine` value.
- `device.controlGroup` (index.js:96): read but never used. `Entry` keeps only id and label.
- config.js: command-line parsing through yargs, a library wrapper.
- HubRegistry.Registry.CheckState: `log` is the corrected per-hub reading of the callbacks. What index.js:113 logs as written is `logAsWritten`: every line is logged under the last enumerated key, or is a TypeError.
- HubRegistry.Registry.CheckState: callbacks settle in any order in the source. The model lists log lines in query order. It also assumes the registry does not change between the loop and the callbacks.
- HubRegistry.Registry.CheckState: `for…in` enumerates integer-like keys first, in ascending order, and then the other keys in insertion order. `order` is plain insertion order. It differs only for host names that normalise to a canonical array index.
- LabelMaps.Build: the label maps are plain objects. The model's maps store every key alike, whereas `activities_reverse['__proto__'] = id` (index.js:90, and likewise index.js:98) stores nothing.
- HubRegistry.Report: the lookup `hubs[hub].activities[a]` (index.js:113) reads inherited properties, so an answered id such as `constructor` yields a function. The model's `Lookup` finds only keys the maps were given.
- HubRegistry.Registry.Register: plain JavaScript objects treat keys such as `__proto__` and inherited properties specially. The model uses a plain map. `hasOwnProperty` (index.js:108) is always true for a key of the map.
- Normalise.Norm: strings are sequences of Unicode scalar values, so UTF-16 lone surrogates are not represented.
- Error paths of malformed descriptors (a missing `label`, `activity` or `device` field, which throws inside the callback) are not modelled. Entries always carry an id and a label.
