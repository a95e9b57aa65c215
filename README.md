# go-param-store-config loader, modelled in Dafny

`psconfig` loads an application's configuration from the AWS SSM Parameter
Store. `Loader.Load(pathPrefix, config)` works in these steps:

1. It checks that `config` is the address of a struct.
2. It fetches every parameter under the prefix, page by page.
3. It files each parameter under its name minus the prefix. A `StringList`
   value is split on commas. A `SecureString` value is wrapped as a
   `secureString`. Any other value stays a plain string.
4. It turns that flat map into a tree of nested maps, one level per
   `/`-separated segment of the key.
5. It hands the tree to the `mapstructure` decoder. The decoder runs the
   registered decode hooks. The duration hook is always first. When the
   caller registers `StringEnvExpandHookFunc`, that hook expands
   environment variables in every string that is not a `secureString`.

The model has six modules:

- `GoStrings` (`gostrings.dfy`): `strings.TrimPrefix`, `HasPrefix` and
  `Split`. `Split` is proved against `Join`, in both directions.
- `Records` (`records.dfy`): the tagged value, the classification of one
  parameter, and the page callback. The callback is a loop that fills the
  flat map.
- `PathTree` (`pathtree.dfy`): key normalisation, the tree, insertion of one
  key, and the tree-building loop. Go visits map keys in no fixed order, so
  the loop picks any key not yet visited.
- `DecodeHooks` (`hooks.dfy`): the environment-expansion hook, and the hook
  registry as a class with an append-only method.
- `Loader` (`loader.dfy`): `validateConfig` and `Loader.Load`.
- `Wrappers` (`wrappers.dfy`): the `Option` type the other modules share.

`Load` ends in one of these outcomes:

- `Failed(KindError)` when the destination is wrong. This outcome does not
  depend on the fetch, because the check runs before the fetch.
- `Failed(FetchError(cause))` when the store fails. The store's error is
  passed on unchanged, and no tree is built.
- `Panicked` when a key needs to walk through a slot that already holds a
  leaf. In Go this is the failed type assertion at loader.go:123 or :130.
- `ReadyToDecode(tree, hooks)` otherwise.

Three behaviours of the code are modelled as written:

- The prefix is trimmed twice, once when a record is stored and once when
  its key is split. With prefix `/app`, the parameter `/app/app/port` lands
  under `port` (`PathTree.PrefixTrimmedTwice`).
- Only one leading `/` is removed, so `//a` gives the segments `""` and `a`.
- Building the tree is guaranteed independent of order when no key's
  segment list is a prefix of another key's segment list (equal lists
  included). Keys are compared segment by segment, so `a` and `ab` do not
  conflict. Otherwise the result can depend on the visiting order. Take
  `a/b` and `a/b/c`. If `a/b` comes first, the longer key panics. If `a/b/c`
  comes first, the leaf `a/b` silently replaces the branch. So the tree then
  depends on the order in which Go visits the keys. When no segment lists
  conflict, `Load` never panics. Its tree then holds at each
  path exactly what a description free of order says (`PathTree.Expected`),
  and every key resolves to its own value.

## Model

| member | source | states |
|---|---|---|
| `GoStrings.TrimPrefix` | loader.go:96 | the result is the string without the leading prefix when it has one, and the unchanged string otherwise |
| `GoStrings.HasPrefix` | loader.go:112 | a string has a prefix exactly when it is at least as long and starts with those characters |
| `GoStrings.Split` | loader.go:95 | a split always yields at least one piece, even for the empty string |
| `GoStrings.JoinSplit` | loader.go:95 | joining the pieces of a split with the separator gives back the original string |
| `GoStrings.SplitSeparatorFree` | loader.go:95 | no piece of a split contains the separator |
| `GoStrings.SplitNoSeparator` | loader.go:95 | a string without the separator, "" included, splits into exactly one piece, itself |
| `GoStrings.SplitJoin` | loader.go:115 | splitting a join of separator-free pieces gives back the same pieces |
| `Records.Classify` | loader.go:93-101 | a `StringList` becomes a non-empty, comma-free list that joins back to the raw value (one element when there is no comma); a `SecureString` becomes `Secret` with the raw text; any other type becomes `Plain` with the raw text |
| `Records.OutputPathsSplit` | loader_test.go:66 | the fixture value `stdout,stderr` is stored as the list `["stdout", "stderr"]`, as checked at loader_test.go:191 |
| `Records.RecordKey` | loader.go:96 | the key is the name with the prefix removed when the name starts with it, and the whole name otherwise |
| `Records.CollectPage` | loader.go:91-104 | after one page, the map is the old map with each parameter of the page stored in order; the callback asks for more pages exactly when the page is not the last |
| `Records.CollectedKeys` | loader.go:92-102 | after a page, the map holds exactly the old keys plus the keys of the page's parameters |
| `Records.CollectedLastWins` | loader.go:92-102 | a key holds the classified value of the last parameter of the page with that key |
| `Records.CollectedUntouched` | loader.go:92-102 | an old entry whose key no parameter of the page has stays unchanged |
| `PathTree.NormalisedKey` | loader.go:111-114 | after the prefix trim, exactly one leading `/` is removed when there is one, and nothing else |
| `PathTree.Segments` | loader.go:115 | every key has at least one segment |
| `PathTree.SegmentsJoinBack` | loader.go:115 | the segments are free of `/` and join back with `/` to the normalised key, so they are exactly its `/`-split |
| `PathTree.SplitKey` | loader.go:111-115 | the normalising statements yield exactly the segments of the key |
| `PathTree.DoubleSlashKeepsEmptySegment` | loader.go:112-115 | the key `//a` gives the segments `""` and `a` |
| `PathTree.PrefixTrimmedTwice` | loader.go:96 | with prefix `/app`, the name `/app/app/port` is stored as `/app/port` and then split to the single segment `port` (second trim at loader.go:111) |
| `PathTree.ProbeExtensional` | loader.go:109-133 | two trees that hold the same thing at every path are equal |
| `PathTree.Insert` | loader.go:116-132 | needs at least one segment. On success the top-level map keeps its keys and gains the first segment, which holds a leaf exactly for a one-segment key. A longer key whose first slot holds a leaf panics. Its full effect is stated by `InsertFailsIff` and `InsertProbe` |
| `PathTree.InsertFailsIff` | loader.go:120-131 | inserting a key panics exactly when one of its proper prefixes already holds a leaf |
| `PathTree.InsertFindsValue` | loader.go:116-132 | after an insertion, looking up the key's segments finds the new leaf |
| `PathTree.InsertKeepsUnrelated` | loader.go:116-132 | a path that is neither a prefix nor an extension of the key reaches the same node as before |
| `PathTree.InsertCutsBelow` | loader.go:117-132 | paths that run through the new leaf reach nothing any more, so a branch there is overwritten |
| `PathTree.InsertReusesBranches` | loader.go:120-131 | every proper prefix of the key ends on a branch. A branch that existed keeps its other slots and gains or replaces only the next segment. A missing one is created with that single slot |
| `PathTree.InsertProbe` | loader.go:116-132 | what sits at any path after an insertion: the new leaf, a branch on the way, nothing below the leaf, and the old contents elsewhere |
| `PathTree.ExpectedStep` | loader.go:109-133 | adding a non-conflicting key changes the order-free description exactly as inserting it changes the tree |
| `PathTree.InsertAllStep` | loader.go:116-132 | a tree that matches the description accepts a further non-conflicting key without panicking and then matches the extended description |
| `PathTree.InsertAllMatchesExpected` | loader.go:109-133 | inserting non-conflicting keys in any sequence never panics and builds the tree the order-free description gives |
| `PathTree.EveryKeyResolves` | loader.go:109-133 | every non-conflicting key resolves to its own value, deep keys next to shallower siblings (fixture at loader_test.go:74-78) |
| `PathTree.ResolvesAt` | loader.go:109-133 | a tree that matches the order-free description of non-conflicting keys holds each key's value at the key's segments |
| `PathTree.OrderIndependent` | loader.go:110 | two sequences of the same non-conflicting keys build the same tree |
| `PathTree.BuildCanonical` | loader.go:109-133 | for every visiting order of a flat map whose keys do not conflict, the tree builds and matches the order-free description |
| `PathTree.BuildTree` | loader.go:109-133 | the loop visits each key at most once and builds the fold of the insertions in its visiting order. It stops with a panic only on a conflict and, for non-conflicting keys, always returns the order-free tree |
| `PathTree.BuildTreeOrderIndependent` | loader.go:110 | any two complete visiting orders of a non-conflicting flat map build the same tree |
| `DecodeHooks.TypeOf` | loader.go:54 | a value has string kind exactly when it is a plain or secret leaf, and the name `secureString` exactly when it is a secret |
| `DecodeHooks.EnvExpandHook` | loader.go:48-58 | the hook never fails and keeps the value's type. It expands a plain string and returns every other value, a secret included, unchanged |
| `DecodeHooks.SecretNeverExpanded` | loader.go:53-56 | a secret passes the hook untouched whatever the expansion does |
| `DecodeHooks.HookRegistry.Init` | loader.go:61-63 | after initialisation the registry holds just the duration hook |
| `DecodeHooks.HookRegistry.RegisterDecodeHook` | loader.go:40-42 | registering appends exactly one hook at the end and keeps the earlier ones in order, so the duration hook stays first |
| `Loader.ValidateConfig` | loader.go:163-172 | the check passes exactly for a non-nil pointer to a struct, and fails with `KindError` otherwise |
| `Loader.ExpectedHoldsEachKey` | loader.go:109-133 | in the order-free description of a non-conflicting flat map, each key's segments hold that key's value |
| `Loader.CollectAllPages` | loader.go:90-104 | fetching page after page with the callback builds the flat map of all pages in turn |
| `Loader.Load` | loader.go:79-135 | a bad destination gives `KindError` whatever the store would answer. A store failure is returned unchanged. Otherwise the tree is built from all records and passed on with exactly the registry's hooks, the duration hook first, or the load panics on a conflict. For non-conflicting keys it never panics, and every key resolves to its own value |

## Left out

- `PathTree.Insert`: the Go walk changes nested maps in place through the variable `m`, which aliases a map inside the root. The model rebuilds the path as a value, so aliasing between nested maps is not modelled.
- `Loader.Load`: a Go panic unwinds the caller. Here it is the outcome `Panicked`.
- `Loader.Load`: the `mapstructure` decoder (loader.go:134-146) is not modelled. That includes its construction error, tag binding, weak typing and hook composition (`ComposeDecodeHookFunc`), all in a library whose code is not part of this model. A load ends with the tree and the registered hooks the decoder would receive.
- `Loader.Load`: the SSM request (loader.go:85-88) and the AWS call behind the paginator are not modelled. The store's answer is an input, either an error or an ordered list of pages. `Loader.CollectAllPages` feeds those pages through the callback in order and stops when the callback returns `false`.
- The package-level `Load(region, pathPrefix, config)` (loader.go:149-161) is not modelled. It creates an AWS session, which is network setup, and its `SessionError` is left out with it.
- The duration hook (`mapstructure.StringToTimeDurationHookFunc`, loader.go:62) is foreign library code. The registry names it; nothing applies it.
- `DecodeHooks.EnvExpandHook`: `os.ExpandEnv` and the process environment are the function parameter `expand`, which stays uninterpreted.
- `DecodeHooks.EnvExpandHook`: requires the type passed as `from` to be the value's own type, as the decoder always passes. A named string type other than `secureString` would make `data.(string)` panic. No such value reaches the hook from the tree.
- `DecodeHooks.HookRegistry.RegisterDecodeHook`: requires the registry to be initialised. Go runs `init` before any caller.
- The registry's `init`-order and concurrency concerns are not modelled.
- Go strings are byte strings, while the model uses `seq<char>`. No operation here depends on the encoding.
- `reflect` is reduced to the kinds and type names that `validateConfig` and the hook inspect.
