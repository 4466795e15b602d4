# Windows shell integration of the Pulsar editor — a Dafny model

`src/main-process/win-shell.js` turns Windows shell integration features of the
editor on and off: the "Open with" file handler, the context-menu entries for
files, folders and folder backgrounds, and membership of the editor's binary
directory in the user's PATH. Each registry-backed feature is a `ShellOption`: a
root key under HKCU and an ordered list of parts, each a value written under the
root or under one of its sub-keys. The first part is the marker that
`isRegistered` and `update` inspect.

The model in Dafny:

- `store.dfy` (module `Store`): the HKCU hive as a map from key path (names
  joined with `\`) to that key's values. The `Hive` class holds that map,
  plus a fixed set of locked paths whose create, set and destroy fail. The
  functions `Lookup`, `Created`, `Assigned` and `Pruned` stand for the client
  calls the source makes (`get`, `create`, `set`, `destroy`); where they
  differ from the real registry is listed under "## Left out".
- `shell_option.dfy` (module `ShellOptions`): `Part`, the two address rules,
  the specification functions (`Marked`, `RegisterAll`, `Updated`), their
  lemmas, and the class `ShellOption`. Its methods `Register`, `Deregister` and
  `Update` change the hive step by step, as the source does. `Register` is the
  `forEach` loop with its `doneCount` countdown.
- `features.dfy` (module `Features`): the four exported part lists and their
  root keys, written over the strings the module derives from the executable
  (`Environment`). It also holds the `%1`→`%V` rewrite of the folder-background
  list.
- `path_option.dfy` (module `PathOptions`): the scan of the user environment
  values that `PathOption.isRegistered` runs, and the helper script call that
  `register`/`deregister` make.
- `text.dfy` (module `Text`): JavaScript's `includes`, and `replace` with a
  string pattern, which replaces only the first occurrence.
- `scenarios.dfy` (module `Scenarios`): a client that registers and then deregisters the file handler.
- `wrappers.dfy`: `Option` and `Result`.

Points where the code is followed literally:

- `register` builds its key conditionally: `key\sub`, or `key` when the part
  has no sub-key (line 41). `isRegistered` and `update` always interpolate the
  sub-key (lines 30, 66), so for a marker without one they read
  `key\undefined`. `MarkerAddress` states when the two rules agree. Every
  configured marker has a sub-key, so there they always agree.
- Every callback of `create` and `set` ignores its error, so `register`
  completes even when writes fail. What should happen when a write fails is not defined; the code ignores the error. Its
  callback fires exactly once, or never for an empty part list.
- `deregister` answers `(null, true)` whatever `destroy` reports.
- `update` only checks that the marker value is present. It does not compare
  it, unlike `isRegistered`. When the marker is absent or the read fails, it
  passes on the read's error, which is `null` when the value is absent.
- The folder-background list is built by `JSON.parse(JSON.stringify(parts).replace('%1', '%V'))`.
  That call replaces the first `%1` in the serialised text. JSON escaping never
  creates or splits a `%1`. The fields appear in the order key, name, value.
  So the rewrite equals replacing the first `%1` in the first field, in that
  order, that holds one (`RewritePlaceholder`). This is normally the command's
  `"%1"`. If the executable path itself contains `%1`, that occurrence is
  rewritten instead (`BackgroundKeepsPlaceholderOfExecPath`).
- The PATH scan's second marker, `Pulsar\resources\app\ppm\bin`, begins with
  the first, `Pulsar\resources`, so it never changes the answer.

## Model

| member | source | states |
|---|---|---|
| `ShellOptions.WriteAddress` | src/main-process/win-shell.js:39-42 | the key a part is written under lies in the root's subtree, and is the root itself exactly when the part has no sub-key |
| `ShellOptions.MarkerAddress` | src/main-process/win-shell.js:28-30 | the key the marker is read from lies strictly inside the root's subtree, and equals the key `register` writes the marker to exactly when the marker has a sub-key |
| `ShellOptions.Marked` | src/main-process/win-shell.js:27-34 | `isRegistered` is true iff the marker's key exists, holds the marker's value name, and that value equals the configured marker value exactly; a missing key or value gives false |
| `ShellOptions.ShellOption.IsRegistered` | src/main-process/win-shell.js:27-34 | the option is registered iff reading the marker's value name at the marker address finds exactly the marker's value; a failed read or an absent value means not registered |
| `ShellOptions.RegisterAllAt` | src/main-process/win-shell.js:36-48 | after `register`, a key exists iff it existed or some part was written under it at a writable key; each value is the last one written to its slot, or the old one if no part wrote it |
| `ShellOptions.RegisterAllUntouched` | src/main-process/win-shell.js:38-44 | a key that no part writes keeps its presence and all of its values |
| `ShellOptions.RegisterFrame` | src/main-process/win-shell.js:38-44 | `register` changes nothing outside the subtree of its root key |
| `ShellOptions.RegisterIdempotent` | src/main-process/win-shell.js:36-48 | registering twice leaves the same store as registering once |
| `ShellOptions.LastWriteOfDistinct` | src/main-process/win-shell.js:38-44 | when no two parts share a (key, name) slot, the value in a slot is the value of the one part that writes it, if the key is writable |
| `ShellOptions.RegisterReadBack` | src/main-process/win-shell.js:38-44 | with distinct slots, every part whose key is writable can be read back afterwards at its address with exactly its value |
| `ShellOptions.RegisterOrderIrrelevant` | src/main-process/win-shell.js:38-48 | with distinct slots, any two orderings of the same parts, each part written as a whole, leave the same store |
| `ShellOptions.RegisterMarks` | src/main-process/win-shell.js:27-44 | when the marker has a sub-key and its key accepts writes, `isRegistered` is true after `register` |
| `ShellOptions.UnregisteredWhenSubtreeEmpty` | src/main-process/win-shell.js:27-33 | a store with nothing under the root key is not registered |
| `ShellOptions.DeregisterUndoesRegister` | src/main-process/win-shell.js:51-61 | deleting the root subtree after `register` leaves exactly the old store minus that subtree, and the feature is then not registered |
| `ShellOptions.UpdateRefusesUnregistered` | src/main-process/win-shell.js:63-70 | when the marker cannot be read or is absent, `update` writes nothing and the feature is not registered |
| `ShellOptions.UpdateIgnoresMarkerValue` | src/main-process/win-shell.js:63-72 | with a stale marker value the feature is not registered, yet `update` performs the full `register` |
| `ShellOptions.UpdateRefreshes` | src/main-process/win-shell.js:63-74 | after registering one configuration, `update` with a changed configuration that keeps the marker's key and name re-registers. Every new part then reads its new value, and so does the marker |
| `ShellOptions.ShellOption.constructor` | src/main-process/win-shell.js:18-25 | an option holds its root key, its parts and the hive it writes, none of which change afterwards |
| `ShellOptions.ShellOption.Register` | src/main-process/win-shell.js:36-49 | the hive afterwards is the old hive with every part written in order, failed writes skipped; the completion callback fires once, or never when there are no parts |
| `ShellOptions.ShellOption.Deregister` | src/main-process/win-shell.js:51-61 | reports `(null, isRegistered)`; when registered the root and all of its nested keys are removed (unless destroy is refused), otherwise the hive is untouched |
| `ShellOptions.ShellOption.Update` | src/main-process/win-shell.js:63-74 | the callback fires once; if the marker value is present the hive is re-registered and no error is passed, otherwise the hive is untouched and the read's error, if any, is passed |
| `Store.Lookup` | src/main-process/win-shell.js:31-32 | a read fails iff the key does not exist, finds nothing iff the key lacks the value name, and otherwise returns the stored value |
| `Store.Created` | src/main-process/win-shell.js:43 | creating a key adds it if absent and changes no value |
| `Store.Assigned` | src/main-process/win-shell.js:44 | setting a value creates its key if needed, stores the value in its slot and changes no other slot |
| `Store.Pruned` | src/main-process/win-shell.js:54 | destroying a key removes it and every key nested under it, and keeps every other key with its values |
| `Store.CreatesCommute` | src/main-process/win-shell.js:38-44 | two `create` calls leave the same store in either order |
| `Store.CreateAndSetCommute` | src/main-process/win-shell.js:38-44 | a `create` and a `set` leave the same store in either order |
| `Store.SetsCommute` | src/main-process/win-shell.js:38-44 | two `set` calls on different slots leave the same store in either order |
| `Store.Hive.Create` | src/main-process/win-shell.js:43 | a locked key refuses creation with an access error and nothing changes; otherwise the key exists afterwards |
| `Store.Hive.Set` | src/main-process/win-shell.js:44 | a locked key refuses the write with an access error and nothing changes; otherwise the value is stored |
| `Store.Hive.Destroy` | src/main-process/win-shell.js:54 | a locked root refuses deletion with an access error and nothing changes; otherwise its subtree is removed |
| `Text.ReplaceFirst` | src/main-process/win-shell.js:209 | a string without the pattern is unchanged; otherwise the first occurrence, and only it, is replaced |
| `Text.Contains` | src/main-process/win-shell.js:107 | `includes`: a string holding a pattern is at least as long as it, and every string holds the empty pattern |
| `Text.ContainsIsSubstring` | src/main-process/win-shell.js:107 | `includes` is true exactly when some slice of the string equals the pattern |
| `Features.FileHandler` | src/main-process/win-shell.js:184-191 | the file handler has three parts, its marker has a sub-key, and no two parts share a slot |
| `Features.ContextParts` | src/main-process/win-shell.js:193-197 | the context-menu parts are three, the marker has a sub-key, and no two share a slot under any root |
| `Features.FileContextMenu` | src/main-process/win-shell.js:199-202 | the file context-menu entry has three parts, a marker with a sub-key, and no two parts sharing a slot under its root |
| `Features.FolderContextMenu` | src/main-process/win-shell.js:203-206 | the folder context-menu entry has three parts, a marker with a sub-key, and no two parts sharing a slot under its root |
| `Features.FolderBackgroundContextMenu` | src/main-process/win-shell.js:207-210 | the folder-background entry has three parts and a marker with a sub-key; each part is the context-menu part, unless that part holds `%1` |
| `Features.Configured` | src/main-process/win-shell.js:199-210 | there are four exported features, and the file and folder context menus share the context-menu parts |
| `Features.RewritePlaceholder` | src/main-process/win-shell.js:209 | the list keeps its length, every part keeps whether it has a sub-key, only a part holding `%1` can change, at most one part changes, the changed one is the first part holding `%1` and gets that part's first `%1` rewritten, and a list without `%1` is unchanged |
| `Features.QuotedCommandRewrite` | src/main-process/win-shell.js:194-209 | in the quoted command of a path without `%1`, the one replacement turns the trailing `"%1"` into `"%V"` and leaves the rest as it was |
| `Features.QuotedCommandKeepsPlaceholder` | src/main-process/win-shell.js:194-209 | in the quoted command of a path holding `%1`, the trailing `"%1"` survives the replacement and the result is not the `"%V"` command |
| `Features.OpenCommandPlaceholder` | src/main-process/win-shell.js:194-209 | when the executable path holds no `%1`, the rewritten open command is the quoted executable followed by `"%V"` |
| `Features.BackgroundParts` | src/main-process/win-shell.js:207-210 | the folder-background parts equal the context-menu parts, with the same keys and names. Only the command's value is rewritten, to `"%V"` when the executable path holds no `%1` |
| `Features.BackgroundKeepsPlaceholderOfExecPath` | src/main-process/win-shell.js:209 | when the executable path holds `%1`, the replacement is spent there and the folder-background command still passes `%1` |
| `Features.ConfiguredWellFormed` | src/main-process/win-shell.js:184-210 | every exported feature has parts, a marker with a sub-key, and pairwise-distinct slots |
| `Features.RootsDisjoint` | src/main-process/win-shell.js:185-208 | no key lies in the subtrees of two different exported features |
| `Features.ConfiguredRegisterMarks` | src/main-process/win-shell.js:184-210 | registering any exported feature whose marker key accepts writes makes it registered |
| `Features.RegisterLeavesOtherFeatures` | src/main-process/win-shell.js:199-210 | registering one exported feature leaves the subtree of every other one untouched |
| `PathOptions.PpmBinImpliesResources` | src/main-process/win-shell.js:107 | a value containing `Pulsar\resources\app\ppm\bin` contains `Pulsar\resources` |
| `PathOptions.ScanPath` | src/main-process/win-shell.js:104-111 | the flag is set iff some listed value named exactly `Path` contains `Pulsar\resources` (either marker) |
| `PathOptions.OtherValuesIgnored` | src/main-process/win-shell.js:104-111 | inserting a value not named `Path` anywhere in the list never changes the answer |
| `PathOptions.ScriptCall` | src/main-process/win-shell.js:117-133 | no script is launched unless the install location is known and non-empty; the script is the one under that location's `resources` |
| `PathOptions.AddAndRemoveDifferOnlyInFlag` | src/main-process/win-shell.js:144-154 | adding and removing run the same script, in user mode, on the same quoted directory, and differ only in the remove flag `0`/`1` |
| `Scenarios.FileHandlerLifecycle` | src/main-process/win-shell.js:36-61 | on a hive that accepts every write, register completes once, deregister then reports it was registered, and the hive is the old one minus the file handler's subtree |

## Left out

- The `winreg` client itself: the hive, the `REG_SZ` type and the `reg.exe` processes behind it. The map store and its locked paths stand in for it. Key names are compared case-sensitively. Creating a key does not create its missing ancestors. A read never fails except on a missing key.
- Asynchrony: every store call finishes before the next one starts, and `register` writes the parts one whole part at a time, in list order. The source starts every `create` at once and runs each `set` after its own `create`, so steps of different parts may interleave. `RegisterOrderIrrelevant` covers reordering whole parts when slots are distinct, which every configured list has (`ConfiguredWellFormed`). `CreatesCommute`, `CreateAndSetCommute` and `SetsCommute` show that any two adjacent steps of different parts may be swapped. The model does not prove the induction from these swaps to every interleaving.
- An empty part list: it makes `isRegistered`, `deregister` and `update` throw on `parts[0]`. Their models require a non-empty list. `Register` models the empty case (it never completes).
- A sub-key of `null`: the model's absent sub-key is JavaScript's `undefined`, which the template prints as `undefined`. A `null` sub-key would print `null`. No configured part uses one.
- The timing of `PathOption.isRegistered`: it returns its flag before the `values` callback has run, and calls its callback only on a read error. Only the scan over the listed values is modelled. For the same reason, `PathOption.deregister` is modelled only through the script call it builds: its decision waits on a callback that `isRegistered` does not make on success. When the `values` read fails, `isRegistered` calls back with the error object, which `deregister` takes as "registered", so it goes on to run the remove script (lines 101-102, 137-138).
- Launching the PowerShell helper, and its exit status. `ScriptCall` gives only the command line.
- `getPulsarPath`: its object literals are not valid JavaScript, so the install location is a parameter of `ScriptCall`. The location is `None` when it cannot be read.
- `HKLMPATH` and the `bind` calls: they have no effect.
- `getAppName`, `process.execPath`, `Path.basename` and `Path.join`: their results are only the opaque strings of `Environment`.
