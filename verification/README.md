# Solana Playground: verified models

Solana Playground runs a Solana toolchain in the browser. This project models, in Dafny, the parts of
its WebAssembly code whose correctness is not visible from one function body, and proves what they
guarantee:

- **Token garbage collection** (`TokenLedger`, `TokenGc`, `TokenGcSafety`, `TokenGcCommand`, with `TokenListing` and `Sums`).
  `spl-token gc` groups an owner's accounts by mint in nested hash maps, plans create, transfer and close
  instructions, and sends one transaction after another. The model has a ledger with an interpreter for the
  three instructions. For every walk over both hash maps and every point at which sending stops: no supply
  changes, the planned transactions go through if and only if a condition on the fetched chain holds, and
  the final chain does not depend on the walk.
- **Lazy crate loading** (`CrateWorld`, `WorldState`, `CrateIndex`, `CrateLoading`, `LazyLoading`, `LoadRuns`,
  `LoadOutcome`, `LoadExamples`, `CrateRecords`, with `Digraphs`). The analysis state loads crates one at a time, with or without
  code and manifest, once or again, and remembers who waits for whom. File index and crate graph agree in every
  reachable state and the graph never has a cycle. With acyclic manifests no load panics that looks up no name
  with a local file on its path, every run's links and needs have a closed form, and the lazy graph equals the
  eager one, and does not depend on the order, exactly under a stated condition.
- **Handles and strings** (`HandleSlab`, `WasmStrings`). The table of JavaScript values with a free list
  threaded through it refines a finite map and grows only to the largest number of live handles; the
  ASCII fast path leaves exactly the UTF-8 encoding (section 3 of RFC 3629, UTF-16 as in section 2.2 of
  RFC 2781) within its buffer.
- **Token trees** (`TokenTrees`). The reader of macro expansions terminates and reads back what the
  `expand!` macros print.
- **Smaller loops**: the document outline (`DocumentSymbols`), account sorting (`AccountSorting`), the
  markdown fence machine (`Markdown`), transaction confirmation (`Confirmation`) and source-tree
  flattening (`SourceTree`).

Loops of the source are methods with invariants, objects with updated fields are classes
(`WorldState.WorldState`, `HandleSlab.Glue`), and each is proved against a specification function about
which the lemmas then speak. Hash-map iteration picks any key, so what is proved holds for every order.
The crates are built for release without overflow checks, so u64 and usize arithmetic wraps around in the
model (`TokenGc.Wrap`, the bracket count of `TokenTrees.ReadWords`, `Confirmation.Age`).

Places where the code does less than one might expect:

- A frozen associated account is not checked for, and neither is an account that is its own owner, so a plan
  can stop half-way (`TokenGcCommand.FrozenAssociatedBlocks`, `TokenGcCommand.SelfOwnedBlocks`);
  `TokenGcCommand.SucceedsIffReady` gives the exact condition.
- While a dependency is only a placeholder, whether its dependants are linked to it or still wait for it
  depends on the order of the calls (`LoadExamples.PlaceholderOrderMatters`); `LoadOutcome.EagerIff` and
  `LoadOutcome.OrderMattersIff` give the exact conditions.
- A dependency listed with a dash and with an underscore is still waited for after it is loaded
  (`LoadExamples.ListedTwiceStays`), and a crate that is loaded again waits again for a placeholder it is already
  linked to (`LoadExamples.LoadedAgainWaits`); `LoadOutcome.RunEnds` counts both.
- A crate with a local file on its own path is taken for the local crate: loading it overwrites the local
  library's text (`CrateIndex.LoadOverwritesLocal`, with the exact guard; `CrateIndex.LocalNameOverwrites` at an
  input), and a dependency on it is refused once the local crate reaches the depending one
  (`CrateIndex.LinkToLocal`).
- Loading the default crates a second time leaves each of their files with two crates
  (`CrateIndex.SecondDefaultsDouble`); `CrateIndex.OneCrateIff` says exactly when each has one.
- Two new local files loaded in one call share a file id, and the second text replaces the first
  (`CrateIndex.NewFilesOverwrite`); `CrateIndex.SharedLocalId` says exactly when ids coincide.
- The local crate depends only on crates whose first load was direct; a later direct load of a crate that
  is already registered adds nothing (`LoadRuns.LocalLinksAreDirect`).
- Strings with unpaired surrogates do not survive the trip into WebAssembly memory; exactly the others do
  (`WasmStrings.StringRoundTrip`).
- Flattening a source tree takes the text after the last dot of a name for an extension, so `a.b` and `a`
  beside each other get one path (`SourceTree.DottedNamesCollide`); `SourceTree.OutputListsEachLeaf` says
  exactly when paths are distinct.
- The `includes_aux` flag of account sorting says that some mint did not parse, not that some account is
  not associated (`AccountSorting.SortAndParse`).

## Model

| member | source | states |
|---|---|---|
| `TokenLedger.RunKeepsSupply` | wasm/spl-token-cli/src/cli.rs:1979-1997 | Whatever create, transfer and close transactions go through, no mint's total changes |
| `TokenLedger.RunKeepsUnclosed` | wasm/spl-token-cli/src/cli.rs:1979-1997 | An account that no transaction closes stays, with owner, mint, freeze state and close authority unchanged |
| `TokenLedger.RunPrefix` | wasm/spl-token-cli/src/cli.rs:1979-1988 | A run that goes through went through at every earlier point |
| `TokenLedger.CloseRefused` | wasm/spl-token-cli/src/cli.rs:1958-1966 | Closing is refused exactly for a missing or non-empty account, into itself, or by anyone but its closer |
| `TokenLedger.TransferNeeds` | wasm/spl-token-cli/src/cli.rs:1944-1956 | A transfer that goes through had both accounts unfrozen and of its mint, the owner, the decimals and the balance |
| `TokenGc.GroupByMint` | wasm/spl-token-cli/src/cli.rs:1854-1896 | The grouping loop gives the specified groups, or the panic of the first malformed entry |
| `TokenGc.ReadAccountStops` | wasm/spl-token-cli/src/cli.rs:1857-1880 | Which unparsable part of an entry stops the command, in which order, and that other entries are passed over |
| `TokenListing.TokenAccountIff` | wasm/spl-token-cli/src/cli.rs:1857-1861 | Token accounts are the parsed accounts of the program `spl-token` and no others |
| `TokenGcSafety.GroupingIsExact` | wasm/spl-token-cli/src/cli.rs:1854-1896 | Grouping a truthful listing, in any order and with foreign entries, gives exactly the owner's accounts by mint |
| `TokenGc.TotalBalance` | wasm/spl-token-cli/src/cli.rs:1905 | Adding balances in any order gives the wrapped u64 sum of the group |
| `TokenGc.WrapIs` | wasm/spl-token-cli/src/cli.rs:1905 | A u64 total is the true one less full u64 ranges |
| `TokenGc.PlanAccount` | wasm/spl-token-cli/src/cli.rs:1918-1970 | One account is skipped, planned with its transfer and close, or stops the planner exactly at the sanity check |
| `TokenGc.PlanToken` | wasm/spl-token-cli/src/cli.rs:1901-1971 | A mint's plan covers every planned step once, its associated account first, for every walk over its accounts |
| `TokenGc.Plan` | wasm/spl-token-cli/src/cli.rs:1898-1972 | The plan is a schedule of all planned steps, fails exactly when the sanity check fails for some mint, and its lamports are the rent added once per create |
| `TokenGc.AddedRentIsProduct` | wasm/spl-token-cli/src/cli.rs:1915 | Rent added once per create is rent times the number of creates, in u64 |
| `TokenGcSafety.PlannedIsWanted` | wasm/spl-token-cli/src/cli.rs:1905-1936 | What the planner decides from its groups is what the chain calls for |
| `TokenGcSafety.ScheduleOrders` | wasm/spl-token-cli/src/cli.rs:1901-1971 | Schedules of the groups are exactly the orders of the wanted steps with creates first |
| `TokenGcSafety.TransferStep` | wasm/spl-token-cli/src/cli.rs:1944-1956 | A planned transfer goes through part-way and moves the whole balance to the associated account |
| `TokenGcSafety.CloseStep` | wasm/spl-token-cli/src/cli.rs:1958-1966 | A planned close goes through part-way because the account is empty and the owner may close it |
| `TokenGcSafety.PlanRuns` | wasm/spl-token-cli/src/cli.rs:1979-1997 | After any number of steps in any order the chain is the closed form of the steps done |
| `TokenGcCommand.OrderDoesNotMatter` | wasm/spl-token-cli/src/cli.rs:1901-1997 | For every walk over both hash maps a ready chain ends in the same outcome |
| `TokenGcCommand.EveryPrefixIsSafe` | wasm/spl-token-cli/src/cli.rs:1979-1997 | Stopping after any number of transactions leaves every mint's total unchanged |
| `TokenGcCommand.HeldMintIsGathered` | wasm/spl-token-cli/src/cli.rs:1905-1956 | The associated account of a held mint ends with its own balance plus all unfrozen balances of that mint |
| `TokenGcCommand.OtherAccounts` | wasm/spl-token-cli/src/cli.rs:1918-1967 | Every other account is left as it was, emptied, or closed, and exactly which |
| `TokenGcCommand.CreatesCounted` | wasm/spl-token-cli/src/cli.rs:1907-1916 | There is one create transaction per missing associated account |
| `TokenGcCommand.TouchesOnlySwept` | wasm/spl-token-cli/src/cli.rs:1919-1967 | No frozen account and no associated account of a held mint is ever a source or closed; transfers move whole balances to the mint's associated account |
| `TokenGcCommand.SanityCheckNeverFires` | wasm/spl-token-cli/src/cli.rs:1940-1942 | On a truthful listing the planner's own assertion holds |
| `TokenGcCommand.SucceedsIffReady` | wasm/spl-token-cli/src/cli.rs:1898-1997 | The whole plan goes through if and only if no associated account to create has its address taken, no frozen associated account is to receive tokens, and no account to close is its own owner |
| `TokenGcCommand.FrozenAssociatedBlocks` | wasm/spl-token-cli/src/cli.rs:1933-1956 | A chain on which no plan goes through, because the associated account is frozen |
| `TokenGcCommand.SelfOwnedBlocks` | wasm/spl-token-cli/src/cli.rs:1958-1966 | A chain on which no plan goes through, because an account would be closed into itself |
| `TokenGcCommand.SendAll` | wasm/spl-token-cli/src/cli.rs:1979-1997 | Sending applies a prefix of the plan and stops at the first refusal or when the client gives up |
| `TokenGcCommand.CommandGc` | wasm/spl-token-cli/src/cli.rs:1829-1999 | For any listing: it panics before sending on the first malformed entry or failed sanity check, or sends the plan of some walk, and the chain it leaves is that of exactly the sent prefix; supplies never change |
| `TokenGcCommand.CommandOutcome` | wasm/spl-token-cli/src/cli.rs:1829-1999 | On a truthful listing of a valid chain finishing means the stated outcome and rent, stopping leaves the chain of a proper prefix of a plan, refused at its end or given up, and a ready chain only stops on the client's side |
| `Digraphs.AddEdgeAcyclic` | wasm/rust-analyzer/src/world_state.rs:239-246 | An edge keeps a graph acyclic exactly when its source cannot be reached from its target |
| `CrateWorld.AddDepRefusesCycles` | wasm/rust-analyzer/src/world_state.rs:282-291 | A dependency is refused exactly when it would close a cycle |
| `CrateWorld.MaxId` | wasm/rust-analyzer/src/world_state.rs:778-786 | The last file id is the largest id of any root, 0 without files |
| `WorldState.LinkDefaults` | wasm/rust-analyzer/src/world_state.rs:254-260 | The loop links the three default crates in order or stops at the first refusal |
| `WorldState.LinkDependencies` | wasm/rust-analyzer/src/world_state.rs:274-295 | The loop links the loaded dependencies and collects the others in order |
| `WorldState.ResolveWaiting` | wasm/rust-analyzer/src/world_state.rs:299-310 | Every waiting crate is visited once, linked to the new crate and taken off its list |
| `WorldState.LinkDefaultCrates` | wasm/rust-analyzer/src/world_state.rs:145-167 | The default crates are appended to any graph with their six links, none of which is refused |
| `WorldState.ReadLocalFiles` | wasm/rust-analyzer/src/world_state.rs:189-197 | The loop builds the new local file set and texts, ids taken from the roots before the call |
| `WorldState.WorldState.constructor` | wasm/rust-analyzer/src/world_state.rs:48-83 | A new state has no roots, crates, needs or texts |
| `WorldState.WorldState.LoadDefaultCrates` | wasm/rust-analyzer/src/world_state.rs:119-177 | On any state the roots are replaced, the graph and texts extended and the needs kept; on a new state the result is the default world |
| `WorldState.WorldState.LoadLocalFiles` | wasm/rust-analyzer/src/world_state.rs:184-202 | The local root and the texts are replaced; nothing else changes |
| `WorldState.WorldState.LoadDependency` | wasm/rust-analyzer/src/world_state.rs:208-319 | The new state, the returned needs and the panics are those of the specification, for some order of the waiting crates |
| `CrateIndex.LookupFile` | wasm/rust-analyzer/src/utils.rs:4-8 | A name is found in the local root, or in the one library root of that name, or nowhere |
| `CrateIndex.FileIdGivesCrateId` | wasm/rust-analyzer/src/utils.rs:4-18 | A successful file lookup gives a successful crate lookup, and exactly one crate |
| `CrateIndex.LoadKeepsIndex` | wasm/rust-analyzer/src/world_state.rs:208-319 | Loading with any arguments keeps library file ids distinct, apart from local ids, and each the root of one crate |
| `CrateIndex.LoadLocalKeepsIndex` | wasm/rust-analyzer/src/world_state.rs:184-202 | Replacing the local files keeps the index, the crates, and every library's file id and text |
| `CrateIndex.LoadKeepsAcyclic` | wasm/rust-analyzer/src/world_state.rs:239-310 | Loading with any arguments never leaves a cycle |
| `CrateIndex.EveryStateIsConsistent` | wasm/rust-analyzer/src/world_state.rs:119-319 | After any calls in any order with any arguments the index agrees and the graph is acyclic |
| `CrateIndex.OneCrateIff` | wasm/rust-analyzer/src/world_state.rs:119-177 | Loading the default crates leaves each of the four files with exactly one crate if and only if no crate of the graph before had one of them as its root |
| `CrateIndex.SecondDefaultsDouble` | wasm/rust-analyzer/src/world_state.rs:119-177 | Loading the default crates again in any state of any run leaves each of their files with two crates |
| `CrateIndex.TakenForLocal` | wasm/rust-analyzer/src/utils.rs:4-18 | A name is looked up as the local file and crate if and only if a local file sits on its path |
| `CrateIndex.LoadOverwritesLocal` | wasm/rust-analyzer/src/world_state.rs:224-271 | A load overwrites the local library's text, registering nothing, exactly when a local file sits on the crate's path |
| `CrateIndex.LinkToLocal` | wasm/rust-analyzer/src/world_state.rs:280-291 | A dependency on such a crate is one on the local crate, refused exactly when the local crate already reaches the depending one |
| `CrateIndex.LocalNameOverwrites` | wasm/rust-analyzer/src/world_state.rs:224-271 | Right after start, loading a crate named like the local one succeeds and replaces the local library's text |
| `CrateIndex.SharedLocalId` | wasm/rust-analyzer/src/world_state.rs:189-196 | Two local paths share an id if and only if both are library roots, both are new, or they shared one before |
| `CrateIndex.LibByStem` | wasm/rust-analyzer/src/world_state.rs:191-194 | For every directory, name and extension, a file is a library root if and only if its name up to the last dot is `lib` |
| `CrateIndex.LibByName` | wasm/rust-analyzer/src/world_state.rs:191-194 | The same for names without a dot |
| `CrateIndex.LibOtherwise` | wasm/rust-analyzer/src/world_state.rs:191-194 | A name starting with its only dot is none, and one trailing slash does not count |
| `CrateIndex.OtherFilesStayAway` | wasm/rust-analyzer/src/world_state.rs:189-196 | In every indexed state a local file gets the library root's id if and only if it is called `lib` |
| `CrateIndex.NextFileIdIs` | wasm/rust-analyzer/src/world_state.rs:778-791 | The next file id is one above the largest, or 1 |
| `CrateIndex.DashesFail` | wasm/rust-analyzer/src/world_state.rs:239-246 | Linking or directly registering a name with a dash fails, registering it transitively does not |
| `CrateIndex.SnakeIs` | wasm/rust-analyzer/src/world_state.rs:276-277 | Dashes of a dependency's name become underscores, and nothing else changes |
| `CrateIndex.NewFilesOverwrite` | wasm/rust-analyzer/src/world_state.rs:189-202 | Two new local files of one call end as one file with the later text |
| `CrateLoading.AllowedIsAccepted` | wasm/rust-analyzer/src/world_state.rs:239-310 | With acyclic manifests no link the manifests allow is refused |
| `CrateLoading.LinkLoadedLinks` | wasm/rust-analyzer/src/world_state.rs:274-292 | The dependency loop succeeds and adds exactly the links to loaded dependencies |
| `CrateLoading.LinkLoadedNeeds` | wasm/rust-analyzer/src/world_state.rs:274-295 | What is returned as needed is exactly the unloaded dependencies, without repeats |
| `CrateLoading.ResolveAllLinks` | wasm/rust-analyzer/src/world_state.rs:299-310 | Every crate that waited is linked and stops waiting, no other crate changes, in any order |
| `LazyLoading.LoadKeepsLinked` | wasm/rust-analyzer/src/world_state.rs:208-319 | A load with any code and its manifest or none, on any registered or new name, never panics if no name it looks up has a local file on its path; the state stays in order |
| `LazyLoading.NeedsAfterLoad` | wasm/rust-analyzer/src/world_state.rs:273-313 | After a load the crate waits for its dependencies without code, as often as listed, and every other crate waits once less for it |
| `LazyLoading.LinksAfterLoad` | wasm/rust-analyzer/src/world_state.rs:239-310 | After a load every crate has its links before, plus its own if it is the one loaded, plus the loaded one if it waited for it |
| `LazyLoading.LocalKeepsLinked` | wasm/rust-analyzer/src/world_state.rs:184-202 | Replacing the local files, wherever they are, changes no crate, link, need or library text |
| `LoadRuns.RunStaysInStep` | wasm/rust-analyzer/src/world_state.rs:184-319 | After every call of every run, with any local files, placeholders and repeated loads, texts, links and needs are those the calls determine |
| `LoadRuns.NextCallSucceeds` | wasm/rust-analyzer/src/world_state.rs:208-319 | After any run the next load goes through unless it looks up a name with a local file on its path; no link is refused for closing a cycle |
| `LoadOutcome.RunEnds` | wasm/rust-analyzer/src/world_state.rs:208-319 | After every run a crate waits for each dependency as often as its last call listed it without code, less the later calls naming it; its links are, call by call, default crates, dependencies with code, and dependencies named before its next call |
| `LoadOutcome.OrderlyEnds` | wasm/rust-analyzer/src/world_state.rs:208-319 | With each crate loaded at most once, its links are the default crates, the dependencies with code, and those without that are named after its load |
| `LoadOutcome.EagerIff` | wasm/rust-analyzer/src/world_state.rs:208-319 | A crate loaded once ends as in the eager graph if and only if no call after its load names a dependency that stays without code, and each dependency loaded later is named as often as listed |
| `LoadOutcome.RunEndsEager` | wasm/rust-analyzer/src/world_state.rs:208-319 | However its crates were loaded, a run that loads each once and leaves no placeholder ends in the eager graph |
| `LoadOutcome.OrderMattersIff` | wasm/rust-analyzer/src/world_state.rs:208-319 | Two runs that load the same crates once agree on a crate's links, and without repeated listings on its needs, if and only if the same dependencies without code are named after its load |
| `LoadRuns.LocalLinksAreDirect` | wasm/rust-analyzer/src/world_state.rs:239-246 | The local crate is linked to the default crates and to the crates whose first load was direct, nothing else |
| `LoadOutcome.LoadOrderDoesNotMatter` | wasm/rust-analyzer/src/world_state.rs:208-319 | Two runs that load the same crates once, in any orders, and leave no placeholder agree on links and needs |
| `CrateRecords.DependenciesAreNamed` | wasm/rust-analyzer/src/world_state.rs:239-310 | In every state of every run each dependency of each crate goes by the name of the crate it leads to |
| `CrateRecords.RunKeepsRecords` | wasm/rust-analyzer/src/world_state.rs:224-313 | After every call of every run each crate has the package of its first manifest and the text of its last call; default crates keep theirs |
| `CrateRecords.MacroIff` | wasm/rust-analyzer/src/world_state.rs:262-268 | A crate is a procedural macro if and only if the manifest of its first call, or of one with code, says so |
| `CrateRecords.LoadAnswers` | wasm/rust-analyzer/src/world_state.rs:273-297 | A load returns, and records, the dependencies without code in the order of the manifest |
| `CrateRecords.LocalFilesAreRead` | wasm/rust-analyzer/src/world_state.rs:184-202 | Every local file is found under its path, with its own text unless a later file of the call has the same id |
| `CrateRecords.LocalFails` | wasm/rust-analyzer/src/world_state.rs:184-202 | Loading local files fails exactly on a path that does not start with a slash, or without any root |
| `LoadExamples.PlaceholderOrderMatters` | wasm/rust-analyzer/src/world_state.rs:273-310 | Two runs with the same loads and placeholders in different orders after which a crate waits for a placeholder in only one |
| `LoadExamples.ListedTwiceStays` | wasm/rust-analyzer/src/world_state.rs:299-310 | A run after which a crate still waits for a loaded dependency, because its manifest lists it twice and one entry is removed |
| `LoadExamples.LoadedAgainWaits` | wasm/rust-analyzer/src/world_state.rs:273-313 | A run after which a crate loaded twice waits for a placeholder it is already linked to |
| `HandleSlab.AddRefines` | wasm/pkgs/playnet/playnet_bg.js:42-49 | A new handle was not live and is at least 36; the table represents the extended map and its free chain stays exact |
| `HandleSlab.GetRefines` | wasm/pkgs/playnet/playnet_bg.js:7 | A lookup returns the stored value or the reserved constant |
| `HandleSlab.DropRefines` | wasm/pkgs/playnet/playnet_bg.js:11-15 | Dropping frees exactly that handle and puts it first in the free chain |
| `HandleSlab.RunRefinesMap` | wasm/pkgs/playnet/playnet_bg.js:3-49 | Over any run the table represents the map, live slots and free chain partition the slots, and its length is 36 plus the peak |
| `HandleSlab.PeakIsLargest` | wasm/pkgs/playnet/playnet_bg.js:9-49 | The peak is the largest number of handles ever live together |
| `HandleSlab.InitialIs` | wasm/pkgs/playnet/playnet_bg.js:3-9 | The table starts with 33 times `undefined`, then `null`, `true`, `false`, and the free list at 36 |
| `HandleSlab.AddAllRefines` | wasm/pkgs/playnet/playnet_bg.js:220-228 | Array handles are distinct, were not live, and stand for the elements; others are untouched |
| `HandleSlab.TakeAllRefines` | wasm/pkgs/playnet/playnet_bg.js:243-251 | Taking yields the values the handles stand for |
| `HandleSlab.ArrayRoundTrip` | wasm/pkgs/playnet/playnet_bg.js:220-251 | An array passed over and read back is the same, and the live handles are as before |
| `HandleSlab.Glue.constructor` | wasm/pkgs/playnet/playnet_bg.js:3-9 | The initial table holds the reserved values and no live handle |
| `HandleSlab.Glue.AddHeapObject` | wasm/pkgs/playnet/playnet_bg.js:42-49 | The in-place form adds one fresh handle and keeps the rest |
| `HandleSlab.Glue.GetObject` | wasm/pkgs/playnet/playnet_bg.js:7 | A live index gives its value; 33, 34 and 35 give `null`, `true` and `false`, and those below `undefined` |
| `HandleSlab.Glue.TakeObject` | wasm/pkgs/playnet/playnet_bg.js:11-21 | The value is returned and only its handle is freed; reserved indices give their fixed values and change nothing |
| `HandleSlab.Glue.PassArrayJsValue` | wasm/pkgs/playnet/playnet_bg.js:220-228 | The handles of the elements stand in the words at the pointer; other words are unchanged |
| `HandleSlab.Glue.GetArrayJsValue` | wasm/pkgs/playnet/playnet_bg.js:243-251 | The values of the handles at the pointer are returned and their handles freed |
| `WasmStrings.EncodeIntoFits` | wasm/pkgs/playnet/playnet_bg.js:94-97 | Three bytes per unit always hold the whole encoding |
| `WasmStrings.EncodeAsciiPrefix` | wasm/pkgs/playnet/playnet_bg.js:82-92 | An ASCII start encodes as itself, so fast path and rest compose |
| `WasmStrings.EncodeTwo` | wasm/pkgs/playnet/playnet_bg.js:70-106 | Two bytes hold 5 and 6 bits, the highest first |
| `WasmStrings.EncodeThree` | wasm/pkgs/playnet/playnet_bg.js:70-106 | Three bytes hold 4, 6 and 6 bits |
| `WasmStrings.EncodeFour` | wasm/pkgs/playnet/playnet_bg.js:70-106 | Four bytes hold 3, 6, 6 and 6 bits |
| `WasmStrings.EncodePair` | wasm/pkgs/playnet/playnet_bg.js:70-106 | A surrogate pair holds 10 and 10 bits above 0x10000 |
| `WasmStrings.EncodeUnpaired` | wasm/pkgs/playnet/playnet_bg.js:70-106 | An unpaired surrogate is encoded as U+FFFD |
| `WasmStrings.DecodeEncode` | wasm/pkgs/playnet/playnet_bg.js:38-106 | Decoding an encoded string gives it back with unpaired surrogates replaced |
| `WasmStrings.EncodeDecode` | wasm/pkgs/playnet/playnet_bg.js:25-40 | The fatal decoder accepts nothing but encodings |
| `WasmStrings.StringRoundTrip` | wasm/pkgs/playnet/playnet_bg.js:38-106 | A string survives the round trip if and only if its surrogates are paired |
| `WasmStrings.WriteAscii` | wasm/pkgs/playnet/playnet_bg.js:82-88 | The loop copies exactly the longest ASCII start |
| `WasmStrings.WriteRest` | wasm/pkgs/playnet/playnet_bg.js:90-100 | The mixed path leaves the whole encoding and writes only within offset plus three bytes per remaining unit |
| `WasmStrings.PassString` | wasm/pkgs/playnet/playnet_bg.js:70-106 | Both forms leave exactly the UTF-8 encoding and its length; the one-shot form touches only those bytes, the other only its two blocks |
| `TokenTrees.WrapShortens` | wasm/rust-analyzer/src/proc_macro.rs:343-372 | What the search finds is strictly shorter than the text unless the text starts with the bracket |
| `TokenTrees.WrapToFirstClose` | wasm/rust-analyzer/src/proc_macro.rs:343-372 | The search goes from the first open bracket to the first close bracket, whatever open brackets lie between |
| `TokenTrees.WrapFails` | wasm/rust-analyzer/src/proc_macro.rs:343-372 | Without an open bracket nothing is found; with one but no close bracket the search panics |
| `TokenTrees.FindWrapping` | wasm/rust-analyzer/src/proc_macro.rs:343-372 | The search loop with its early return and its out-of-range case meets its specification |
| `TokenTrees.ReadTokens` | wasm/rust-analyzer/src/proc_macro.rs:291-331 | The loop with bracket count and remaining text meets the recursive reader |
| `TokenTrees.ReadSubtree` | wasm/rust-analyzer/src/proc_macro.rs:268-333 | The reader terminates, every nested call being on a strictly shorter text, and meets its specification |
| `TokenTrees.TextReadsBack` | wasm/rust-analyzer/src/proc_macro.rs:268-372 | Names, punctuation and flat bracket groups printed with spaces are read back as one tree each, without panic |
| `TokenTrees.BracketsAre` | wasm/rust-analyzer/src/proc_macro.rs:278-283 | The brackets, their closers and kinds, and the punctuation characters |
| `TokenTrees.DropLeadingIs` | wasm/rust-analyzer/src/proc_macro.rs:275 | All leading copies of the bracket go, and nothing else |
| `TokenTrees.DropTrailingIs` | wasm/rust-analyzer/src/proc_macro.rs:275 | All trailing copies of its closer go, and nothing else |
| `TokenTrees.WordsBetween` | wasm/rust-analyzer/src/proc_macro.rs:296-300 | Words are what white space of any kind separates |
| `TokenTrees.UnmatchedCloseStops` | wasm/rust-analyzer/src/proc_macro.rs:303-310 | A close bracket too many wraps the count around, and nothing after it is read |
| `TokenTrees.ExpansionReadsBack` | wasm/rust-analyzer/src/proc_macro.rs:205-213 | The joined implementations of any traits are read back as five trees each, without panic |
| `TokenTrees.DeclareIdReadsBack` | wasm/rust-analyzer/src/proc_macro.rs:251-257 | The text of the function-like expansions is read back as its six trees |
| `DocumentSymbols.BuildOutline` | wasm/rust-analyzer/src/world_state.rs:664-695 | The pop loop gives the forest of the parent positions, and indexes out of range exactly when some parent does not come first |
| `DocumentSymbols.SiblingsDescend` | wasm/rust-analyzer/src/world_state.rs:683-695 | Siblings and roots are exactly the nodes with that parent, each once, in descending position |
| `DocumentSymbols.OutlineIsComplete` | wasm/rust-analyzer/src/world_state.rs:664-695 | The outline holds every node exactly once |
| `DocumentSymbols.OutlineIsTidy` | wasm/rust-analyzer/src/world_state.rs:683-695 | No symbol of the outline has an empty list of children |
| `DocumentSymbols.SymbolShows` | wasm/rust-analyzer/src/world_state.rs:665-681 | A symbol carries its node's name and detail, or the name for a missing detail, and no children exactly when no later node has it as parent |
| `AccountSorting.SortAndParse` | wasm/spl-token-cli/src/sort.rs:24-98 | Every input lands once in its mint's group or the unsupported list; the balance length is the maximum; the flag means an unparsed mint |
| `AccountSorting.GroupIsOfMint` | wasm/spl-token-cli/src/sort.rs:62-70 | A mint has a group exactly when it has a listed account, and the group is those accounts in input order |
| `AccountSorting.GroupsHoldAll` | wasm/spl-token-cli/src/sort.rs:33-88 | Group sizes and unsupported accounts add up to the listing |
| `AccountSorting.GroupHoldsItsMint` | wasm/spl-token-cli/src/sort.rs:44-61 | A group holds input accounts of its mint only, marked associated exactly at the derived address |
| `AccountSorting.RefusedInOrder` | wasm/spl-token-cli/src/sort.rs:36-86 | Each refused input stands in input order under its own address, with the first reason that applies |
| `AccountSorting.StableSortsAgree` | wasm/spl-token-cli/src/sort.rs:89-91 | Associated-first is the only sorted order that keeps the order of both kinds |
| `AccountSorting.SortGroups` | wasm/spl-token-cli/src/sort.rs:89-91 | Every group is sorted, in any order of visiting |
| `Markdown.MarkdownString` | wasm/rust-analyzer/src/to_proto.rs:237-271 | The line loop's state is the parity of earlier fences and the language of the last one, and its output the line-by-line rendering |
| `Markdown.SameBlocks` | wasm/rust-analyzer/src/to_proto.rs:237-271 | Reading the produced text again finds the same blocks, in order and of the same language |
| `Markdown.OnlyHiddenLinesGo` | wasm/rust-analyzer/src/to_proto.rs:243-245 | Only the lines that rustdoc hides in rust blocks are dropped |
| `Markdown.KeptLines` | wasm/rust-analyzer/src/to_proto.rs:242-266 | Every kept line stands in order; outside code it is unchanged but for the opening of a rust block, inside only escapes lose one `#` |
| `Markdown.FenceStays` | wasm/rust-analyzer/src/to_proto.rs:275-278 | A fence is never taken for a hidden or escaped line |
| `Markdown.FenceIs` | wasm/rust-analyzer/src/to_proto.rs:247-248 | A fence is three backticks and its header |
| `Markdown.HiddenIff` | wasm/rust-analyzer/src/to_proto.rs:275-278 | A line starting with `#` is hidden if and only if only white space follows, or a space or tab comes next |
| `Markdown.OthersAreShown` | wasm/rust-analyzer/src/to_proto.rs:275-278 | No line that is white or starts with another character is hidden or escaped |
| `Markdown.EscapedIff` | wasm/rust-analyzer/src/to_proto.rs:259-264 | A line is escaped if and only if it starts with `##`, and keeps the text after the first `#` |
| `Markdown.LinesSplit` | wasm/rust-analyzer/src/to_proto.rs:242 | A line ends at its first line feed, and one carriage return before that goes with it |
| `Texts.WhiteSpaceIs` | wasm/rust-analyzer/src/to_proto.rs:276 | White space for trimming and words is exactly the 25 White_Space code points |
| `Confirmation.Confirm` | wasm/solana-client/src/client.rs:284-319 | The first of five polls that fails or reaches the commitment decides; none means false |
| `Confirmation.StatusNeverRegresses` | wasm/playnet/src/rpc.rs:133-163 | With non-decreasing slots a status stays known, its level never falls, its outcome is fixed |
| `Confirmation.StatusIs` | wasm/playnet/src/rpc.rs:133-163 | A status carries the recorded slot and outcome and the age in slots, is processed at age 0 and finalized from 32 on |
| `Confirmation.AgeIs` | wasm/playnet/src/rpc.rs:141 | The age is the difference of the slots modulo the u64 range |
| `Confirmation.LastPollTells` | wasm/playnet/src/rpc.rs:133-163 | Some poll decides for success exactly when the last poll alone would |
| `Confirmation.ConfirmOnPlaynet` | wasm/solana-client/src/client.rs:284-319 | Against playnet the loop returns true exactly when the transaction has no error and is old enough by the last poll |
| `SourceTree.SamePathIff` | wasm/seahorse-compile/src/lib.rs:36-40 | Two leaves get one path if and only if they have the same directory names and the same stem |
| `SourceTree.OutputListsEachLeaf` | wasm/seahorse-compile/src/lib.rs:34-48 | Paths and contents alternate, two entries per leaf, in order, and no two leaves share a path if and only if no two leaves of one node share a stem |
| `SourceTree.OutputDeterminesLeaves` | wasm/seahorse-compile/src/lib.rs:34-48 | Two trees have the same output if and only if their leaves agree, in order, in contents, directories and stems |
| `SourceTree.DottedNamesCollide` | wasm/seahorse-compile/src/lib.rs:36-40 | A sibling named with a dot gets the path of the one named by the part before it |
| `SourceTree.StemIs` | wasm/seahorse-compile/src/lib.rs:36-40 | A stem ends before the last dot unless that is the first character |
| `SourceTree.BuildIsFlat` | wasm/seahorse-compile/src/lib.rs:34-48 | Flattening equals listing the leaves with their paths, for every iteration order of the nodes |

## Left out

- The other commands of the token command line, among them `command_transfer`: straight-line validation around a few instructions.
- `handle_tx` beyond the atomic step: fee and lamports checks, signing, sign-only mode and output text; a client that gives up is the `accepted` parameter of `TokenGcCommand.CommandGc`.
- Lamports on chain, native mints and rent refunds; only token balances are tracked.
- Address derivation, base58, JSON and TOML parsing: addresses are a free datatype, so derivation is injective, and text that does not parse is `None`.
- LazyLoading.LoadKeepsLinked: names are snake case and not `core`, `alloc` or `std`, and a manifest that is passed is always the crate's own; a load that looks up a name with a local file on its path is described by `CrateIndex.LoadOverwritesLocal` and `CrateIndex.LinkToLocal` only.
- LoadOutcome.EagerIff: compares with the eager graph for runs that load each crate at most once, which is what the eager graph describes; `LoadOutcome.RunEnds` covers the others.
- CrateIndex.EveryStateIsConsistent: runs load the default crates once; after a second time the crate of a default file is ambiguous in the source, and the model takes the last one.
- File ids are unbounded rather than u32; crate editions, versions, display names, cfg options and the lists of procedural macros are not modelled.
- `update`, `setLocalCrateName` and the queries of the analysis state other than the document outline.
- In `DocumentSymbols`, kinds, ranges and tags, which are copied unchanged.
- `getUint8Memory0` caching, `malloc` and `realloc`: given as pointers whose blocks fit the memory; handles are assumed to fit u32 words when written.
- `get_name_from_subtree`, and reading back texts with nested brackets, which the reader does not promise for brackets of the same kind.
- `is_rust_fence` is a parameter of `Markdown`; it is assumed to accept `rust` and to ignore a trailing carriage return.
- SourceTree.OutputListsEachLeaf: names are single path components, so not empty, without a slash, and neither `.` nor `..`; other names leave or re-root the directory.
- The playnet bank: only its slot and stored transactions, with slots that do not go back.
- `completion_item`, `pubsub.rs`, the request wrappers, and the TypeScript client, server and editor extension.
