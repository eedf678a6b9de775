# dev-cleaner, modelled in Dafny

dev-cleaner finds build-artifact and dependency directories (`target`,
`node_modules`, `dist`, ...) below a root directory and deletes the ones the
user picks. This project models its core and proves properties of it:

- **folder scanning** (`scan_folders`). The directory walk is the pre-order
  sequence of walker items over a finite filesystem tree (`FolderScan.WalkRoot`).
  The method `FolderScan.ScanFolders` loops over those items and drops the
  errors. It keeps the set of matched directories and suppresses every later
  entry whose path starts with one of them, comparing whole path components.
  Its result is proved equal to the fold `ScanFrom` over the walk. It is also
  proved sound, pruned and complete. On a real directory tree it equals the
  recursive search `PrunedRoot`, which goes through a root link and never
  enters a matched directory.
- **batch removal** (`remove_folders`). Each path is attempted, and
  `succeeded[i]` is the outcome of the i-th `remove_dir_all`. The paths are
  routed into `deleted` and `errored` in input order. Merging the two lists
  back by outcome gives the input.
- **the filter list and the configuration** (`Filters`, `Config`). These are
  the ordered name list, its conversions, the five default names and the
  `Display` text. The text is proved to read back line by line as the
  intended lines.
- **the configuration commands** (`config filters add/remove/list/reset`,
  `config list`, `config reset`, `DevCleanerCli::process`). Each command is a
  pure step function on `Config`. The class `Cli.ConfigHandle` stands for the
  `&mut Config` the handlers update in place. Its methods are proved equal to
  those step functions. The line read from stdin and the success of
  `Config::store` are inputs of a run. The printed text is one of its
  outputs.

A path is the sequence of its normal components, so `Path::starts_with` is
the sequence prefix `<=`. A root without a final name, such as `/` or `.`,
is the empty path. `WalkDir::new` follows a root that is a symlink and no
other link: `FolderScan.WalkRoot` reports such a root as a link, which is
therefore never a match, and then walks the directory it points to. The
contract `matches == ScanFrom([], WalkRoot(root, tree), targets)`
fixes the result as a function of its inputs. A node's children are in the
order the walker lists the directory, which `WalkDir` does not sort, so two
scans of an unchanged tree give the same matches in the same order only as
long as that listing order stays the same.

Behaviour of the code worth noting:
- An unusable root is not a whole-operation failure. The walker yields an
  error item for it, that item is dropped, and the result is empty
  (`FolderScan.UnreadableRootNoMatches`).
- The removal input is an ordered sequence, not a set. A repeated path is
  attempted once per occurrence.
- `config reset` replaces the whole configuration. `config filters reset`
  replaces only the filter list.
- Store failures are reported by the command handlers.
  `DevCleanerCli::process` then discards them and returns `Ok`.

## Model

| member | source | states |
|---|---|---|
| `FolderScan.ScanFolders` | dev_cleaner_core/src/folderscan.rs:9-37 | The result is the scan fold over the pre-order walk from the root with errors dropped. Every result is a walked directory whose last component is a target. No result is a component-wise prefix of a later one. On a tree with distinct sibling names, no result is a prefix of any other result, in either order. Every walked target directory is a result or lies under one. |
| `FolderScan.AnyStartsWith` | dev_cleaner_core/src/folderscan.rs:24 | Returns true exactly when some path in the skip set is a component-wise prefix of the entry's path. |
| `FolderScan.ScanFromSound` | dev_cleaner_core/src/folderscan.rs:10-30 | Every path the scan adds is a directory entry of the walk, and its final component is one of the targets. Files and symlinks are never returned. |
| `FolderScan.ScanFromPruned` | dev_cleaner_core/src/folderscan.rs:24-30 | If no match is a prefix of a later match before a scan step, that still holds after it. This also means no path is returned twice. |
| `FolderScan.ScanFromComplete` | dev_cleaner_core/src/folderscan.rs:18-36 | Every target directory the walk yields ends up matched itself, or lies under a matched path. |
| `FolderScan.MatchAppearsOnce` | dev_cleaner_core/src/folderscan.rs:18-36 | Take a walked target directory with no other match above it. It appears in the result at exactly one index. |
| `FolderScan.NoTargetsNoMatches` | dev_cleaner_core/src/folderscan.rs:10-14 | With an empty target list, the scan adds nothing. |
| `FolderScan.RootMatchIsOnlyMatch` | dev_cleaner_core/src/folderscan.rs:18-30 | If the root is a readable directory whose own name is a target, the result is exactly `[root]`. Nothing below it is reported. |
| `FolderScan.NamelessRootNeverMatches` | dev_cleaner_core/src/folderscan.rs:10-14 | A root with no name component is never a result. |
| `FolderScan.ScanIsPrunedSearch` | dev_cleaner_core/src/folderscan.rs:18-36 | On a tree whose sibling names are distinct, the skip-set scan returns exactly the pre-order matches of a recursive search. That search stops at each matching directory, and searches through a root link. |
| `FolderScan.ScanIsAntichain` | dev_cleaner_core/src/folderscan.rs:24-30 | On a tree whose sibling names are distinct, no match is a component-wise prefix of another match, whichever comes first, and no path is reported twice. |
| `FolderScan.PrunedChildrenAntichain` | dev_cleaner_core/src/folderscan.rs:24-30 | The matches found under distinct siblings form an antichain. The component after the parent of each match names one of the siblings. |
| `FolderScan.UnreadableRootNoMatches` | dev_cleaner_core/src/folderscan.rs:18-20 | A root the walker cannot read yields a single error item, which is dropped, so the result is empty. |
| `FolderScan.LinkedRootIsDescended` | dev_cleaner_core/src/folderscan.rs:18-28 | A root that is a link to a directory is not a directory entry, so it is never reported itself. Its target's entries are scanned as if they lay directly under the root path. |
| `FolderScan.RemoveFolders` | dev_cleaner_core/src/folderscan.rs:39-60 | `deleted` holds the inputs whose removal succeeded, and `errored` those whose removal failed, both in input order. The two lengths add up to the input's length. Their multisets add up to the input's multiset. |
| `FolderScan.RoutedPartition` | dev_cleaner_core/src/folderscan.rs:40-59 | The two routes split the input exactly: the lengths add up, and each input lands in exactly one route. |
| `FolderScan.RoutedMergeRoundTrip` | dev_cleaner_core/src/folderscan.rs:54-57 | Interleaving `deleted` and `errored` by outcome rebuilds the input. Every path is attempted, none is skipped after a failure, and none is reordered. |
| `FolderScan.RoutedUniform` | dev_cleaner_core/src/folderscan.rs:42-50 | When every attempt has the same outcome, the whole input goes to that route in order, and the other route is empty. An empty input gives two empty routes. |
| `Scenarios.NestedMatchIsPruned` | dev_cleaner_core/src/folderscan.rs:24-30 | Scanning `/root` for `node_modules` over `/root/project/node_modules/node_modules` gives only `/root/project/node_modules`. |
| `Scenarios.DefaultFiltersScenario` | dev_cleaner_core/src/folderscan.rs:18-36 | With the default filters, the tree `/a/dist`, `/a/target/dist`, `/b/node_modules` gives `/a/dist`, `/a/target`, `/b/node_modules`, in that order. |
| `Scenarios.LinkedRootScenario` | dev_cleaner_core/src/folderscan.rs:18-30 | Suppose the root `w/node_modules` links to a directory that holds `pkg/node_modules`. Scanning for `node_modules` gives only `w/node_modules/pkg/node_modules`. |
| `Scenarios.PruningIsPerComponent` | dev_cleaner_core/src/folderscan.rs:24 | A match at `a/target` does not suppress its sibling `a/targetx`. |
| `Filters.NewKeepsValues` | dev_cleaner_core/src/filters.rs:11-13 | `Filters::new(v)` stores `v` unchanged, including order and duplicates. |
| `Filters.CollectIterateRoundTrip` | dev_cleaner_core/src/filters.rs:29-48 | Collecting items and then iterating gives the items back in order. Iterating a list and then collecting gives the list back. |
| `Filters.Push` | dev_cleaner_cli/src/lib.rs:181 | The pattern is added at the end. Every earlier entry stays where it was. |
| `Filters.RemoveAll` | dev_cleaner_cli/src/lib.rs:186 | Afterwards the pattern does not occur. Every other entry keeps its multiplicity. An absent pattern changes nothing. |
| `Filters.RemoveAllConcat` | dev_cleaner_cli/src/lib.rs:186 | Removal distributes over concatenation, so the kept entries stay in their original order. |
| `Filters.RemoveAllIdempotent` | dev_cleaner_cli/src/lib.rs:184-187 | Removing the same pattern twice gives the same list as removing it once. |
| `Filters.EntryLines` | dev_cleaner_core/src/filters.rs:56-59 | There is one `"\t- " + entry` line per entry, in stored order. |
| `Filters.DisplayLines` | dev_cleaner_core/src/filters.rs:53-68 | An empty list gives the yellow "(no filters specified)" line. Otherwise there is one line per entry. The cyan edit hint always comes last, so there are max(1, n) + 1 lines. |
| `Filters.DisplayReadsBack` | dev_cleaner_core/src/filters.rs:52-69 | Suppose no entry holds a newline. Splitting the `Display` text at newlines gives exactly those lines, so it has max(1, n) + 1 lines. |
| `Filters.DisplayEndsWithHint` | dev_cleaner_core/src/filters.rs:62-66 | Whatever the entries, the `Display` text ends with the hint line and its newline. |
| `Config.DefaultFilters` | dev_cleaner_core/src/config.rs:10-19 | The default filters are exactly `target`, `node_modules`, `dist`, `out`, `__pycache__`, in that order. There are five and no two are equal. |
| `Config.NewIsDefault` | dev_cleaner_core/src/config.rs:30-32 | `Config::new()` is `Config::default()`. |
| `Config.DisplayReadsBack` | dev_cleaner_core/src/config.rs:21-26 | Read back line by line, the text is `Filters:`, then the filter list's lines, then two empty lines, as written by `display_field!`. |
| `Text.Trim` | dev_cleaner_cli/src/lib.rs:166 | The result is a slice of the input with only whitespace cut from each end. When it is not empty, it starts and ends with non-whitespace. |
| `Text.ToLower` | dev_cleaner_cli/src/lib.rs:166 | The result has the same length, and each character is lowercased. |
| `Cli.ConfirmsIff` | dev_cleaner_cli/src/lib.rs:196-199 | An answer confirms a reset exactly when it is a single `y` or `Y` surrounded only by whitespace. |
| `Cli.AddAppends` | dev_cleaner_cli/src/lib.rs:179-183 | `add` appends the pattern and keeps all earlier entries and duplicates. The command's result is the store's result. |
| `Cli.RemoveDropsAll` | dev_cleaner_cli/src/lib.rs:184-188 | `remove` drops every equal entry and keeps the others, with their multiplicities. It changes nothing when the pattern is absent and is idempotent. The command's result is the store's result. |
| `Cli.ListChangesNothing` | dev_cleaner_cli/src/lib.rs:189-193 | `list` under `config filters`, and `config list`, print the configuration and a newline, leave it unchanged, and succeed. |
| `Cli.FilterResetIff` | dev_cleaner_cli/src/lib.rs:194-203 | The filters become the default exactly when the answer confirms, or when they already were the default. Otherwise the configuration is unchanged. A stdin failure is the command's error. |
| `Cli.ConfigResetIff` | dev_cleaner_cli/src/lib.rs:162-172 | The whole configuration becomes `Config::default()` exactly when the answer confirms. Otherwise it is unchanged. A confirmed reset returns the store's result and a declined one returns `Ok`, so the run fails with a store error exactly when a confirmed reset cannot be stored. |
| `Cli.StoreFailureIsReported` | dev_cleaner_cli/src/lib.rs:176-207 | A filter command fails with a store error exactly when the store fails after `add`, after `remove` or after a confirmed `reset`. |
| `Cli.MissingSubcommands` | dev_cleaner_cli/src/lib.rs:135-157 | `config` alone behaves as `config list`. `config filters` alone prints a notice and changes nothing. |
| `Cli.CliAlwaysSucceeds` | dev_cleaner_cli/src/lib.rs:77-83 | `DevCleanerCli::process` always returns `Ok`, keeping the subcommand's effect on the configuration. Without a subcommand, the configuration is unchanged. |
| `Cli.ConfigHandle.ReadConfirmation` | dev_cleaner_cli/src/lib.rs:196-199 | It fails exactly when stdin fails. Otherwise it confirms exactly when the trimmed, lowercased line is `y`. |
| `Cli.ConfigHandle.ProcessFilterCommand` | dev_cleaner_cli/src/lib.rs:177-206 | The in-place update of the configuration, the result and the output are those of `FilterProcess` on the old configuration. |
| `Cli.ConfigHandle.ProcessConfigCommand` | dev_cleaner_cli/src/lib.rs:150-173 | The in-place update, the result and the output are those of `ConfigProcess` on the old configuration. |
| `Cli.ConfigHandle.ProcessCommands` | dev_cleaner_cli/src/lib.rs:135-146 | The in-place update, the result and the output are those of `CommandsProcess` on the old configuration. |
| `Cli.ConfigHandle.ProcessCli` | dev_cleaner_cli/src/lib.rs:77-83 | The in-place update is that of `CliProcess`, and the returned status is always `Ok`. |

## Left out

- Real filesystem I/O. `WalkDir` becomes the tree datatype `Node` and its pre-order walk. `fs::remove_dir_all` becomes the outcome sequence `succeeded`, one entry per attempt. Removing the same path twice fails the second time only if the caller's outcomes say so.
- A directory whose contents cannot be listed. The walker yields it, then an error, which the scan drops. This is modelled as a readable directory with no children. An entry that cannot be read at all is an unreadable node: one error item, with nothing beneath it.
- A root symlink that does not point to a directory. The model's link node then has no children: the link itself is reported as an entry and nothing is walked below it. A dangling root link, which the walker reports as an error, is an unreadable node.
- Leading `/`, `.` or `..` components and non-UTF-8 names. A path holds only its normal components. A root ending in `..` is modelled as the empty path, which has no name. A name that `to_str` rejects never matches; the model only has valid strings.
- FolderScan.ScanFolders: proves that no match lies under another match in either order (the antichain clause) only for trees with distinct sibling names, as every real directory has. For arbitrary trees, only "no match lies under an earlier one" is proved.
- FolderScan.ScanIsPrunedSearch: assumes distinct sibling names, as every real directory has. With repeated names the skip set removes repeated paths and the recursive search does not, while the other scan lemmas hold for any tree.
- The hashing of the `ahash`/`hashbrown` skip set. It is a plain `set<Path>`.
- The printed removal errors (`eprintln!`) and their causes. Only the routing of each path is modelled.
- `Config::load` and `Config::store` (`confy`). A store is only a success flag supplied with each run.
- `clap` argument parsing, `debug!` logging and `show_about`. `show_about` loads a figlet font, prints a banner and waits for Enter. Without a subcommand, the model prints nothing and leaves the configuration alone.
- ANSI colouring. `Text.Yellow` and `Text.Cyan` write the escape codes for colours 33 and 36 and then reset the foreground (code 39). The exact bytes `owo_colors` emits are not part of the proofs; the proofs only use that these wrappers add no newline.
- Text.ToLower: lowercases ASCII letters only, unlike Rust's full Unicode `to_lowercase`. The reset decision is unaffected, because only `y` and `Y` lowercase to `y`.
- The GUI crate, the entry point `dev_cleaner/src/main.rs`, and the constants in `dev_cleaner_core/src/lib.rs`. They hold no logic of the core.
