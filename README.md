# simagef, modelled in Dafny

simagef finds similar images. It takes filenames from the command line and, when one argument is `-`, also from standard input, one per line. It compares the images pairwise and prints the similar files as groups. A group is a connected component of the "is similar to" relation. It can also run a program once per group.

simagef has two comparison modes:

- **Signature mode** (`src/main.rs`). Each image gets a signature of `i8` values. A locality-sensitive hash (LSH) index proposes candidate pairs: a new signature is queried against the index before it is stored. Only the candidates are scored, by cosine similarity.
- **Pixel mode** (`src/main_image.rs`). A task-master thread gives every image with a new path the next dense index. It asks for a comparison against every earlier image.

In both modes, a comparison thread forwards a pair only when its score is strictly above the threshold percentage divided by 100. The accepted pairs are grouped by `make_groups`, which builds an adjacency map and runs a depth-first search.

Two more source files hold rules for features that are not wired in yet:

- `src/database.rs`: a signature cache in SQLite. Rows are keyed by path and hold the file's modification time and the signature blob.
- `src/formatting.rs`: `print_fmt`, three output formats for a group. They are Regular (space-joined), Quote (each name in double quotes, with inner quotes escaped) and Null (NUL-terminated).

Neither file is declared as a module in `src/main.rs:1-5`, and `Fmt` is not defined in `src/cli.rs`. The model follows their code as written.

The Dafny modules follow the program:

| file | module | what it holds |
|---|---|---|
| `wrappers.dfy` | `Wrappers` | `Option` and `Result` |
| `basics.dfy` | `Basics` | `U8`, repetition-free sequences, and associativity of concatenation |
| `text.dfy` | `Text` | `join` and `split` on one separator character, with their round trips |
| `connectivity.dfy` | `Connectivity` | paths and connectivity over a list of index pairs; what "the groups are the connected components" means (`IsComponents`) and its consequences |
| `shared.dfy` | `Shared` | `CompareTask`, `Pairing`, the threshold filter of the comparison threads, `make_groups` (graph building, `dfs`, the outer loop) and `make_groups_and_exec` |
| `inputs.dfy` | `Inputs` | the argument loop with `-`, the standard-input read loop, and the `--exec` split |
| `lsh.dfy` | `Lsh` | `get_bucket_width`, an LSH index with an abstract hash, and the signature-mode indexing loop |
| `pixels.dfy` | `Pixels` | the pixel-mode `ImageBundle` and its task master |
| `database.dfy` | `Database` | the bit casts, `fetch`, `insert` and `insert_batch` over a map-backed table |
| `formatting.dfy` | `Formatting` | `print_fmt` as a function returning the printed text, with readers for each format |

Modelling choices:

- **Scores.** The comparison functions (cosine similarity, the image compare) are an opaque parameter `similarity` that returns a `Score`. A score is a real number or NaN. The threshold is a real number; `f64` rounding is not modelled.
- **Hash tables.** The order of a `HashMap` or `HashSet` is left unspecified. The model picks keys with `:|`, so every property holds for any iteration order.
- **The LSH hash.** It is an uninterpreted function `hash(table, vector)`. The index is assumed to hand out ids 0, 1, 2, … in store order.
- **Grouping in signature mode.** Signature-mode pairings name each image as `(id, signature)`. `make_groups` in `src/main.rs:41-87` only reads the ids (`.0`), so both copies of `make_groups` share one model over plain indices.
- **The comparison worker.** The worker loop is the same in both modes apart from what it compares, so both modes share one model.

## Model

| member | source | states |
|---|---|---|
| Shared.Accepts | src/main.rs:216 | the comparison threads' test `pairing.score > threshold` on an `f64`: strict, and false for NaN |
| Shared.KeepAcceptedSpec | src/main.rs:216 | a pairing is forwarded exactly when it was scored and its score is strictly above the threshold; a score equal to the threshold and a NaN score are never forwarded; nothing is invented |
| Shared.KeepAcceptedAppend | src/main_image.rs:213 | filtering distributes over concatenation: what a thread forwards for its tasks is what it forwards for each part of them, in the parts' order, so forwarding keeps the arrival order |
| Shared.CompareWorker | src/main.rs:198-224 | one comparison thread forwards exactly the threshold filter of its tasks scored by `similarity`, in task order; the copy at src/main_image.rs:188-228 does the same |
| Shared.Scored | src/main_image.rs:207-211 | one pairing per task, carrying the task's two indices and their score |
| Shared.Edges | src/shared.rs:45-48 | graph building reads only the two indices of each pair, never the score |
| Shared.NeighborsOfAdjacent | src/shared.rs:45-51 | after all pushes, the list of an index holds exactly the indices it is paired with, in either direction |
| Shared.PushPair | src/shared.rs:49-50 | pushing both directions of one more pair keeps the map the adjacency map of the longer pair list |
| Shared.PushPairAt | src/shared.rs:49-50 | one index's list after both pushes is its old list plus what the new pair contributes to it |
| Shared.PushList | src/shared.rs:49 | `entry(key).or_default().push(value)` appends to that key's list and to no other |
| Shared.NeighborsBefore | src/shared.rs:42-51 | in the adjacency map, a key's list is its neighbour list and a non-key has no neighbours |
| Shared.GraphIsSound | src/shared.rs:65-67 | every neighbour listed in the graph is itself a key and adjacent to its index, so `graph.get` on it succeeds |
| Shared.EndpointsSnoc | src/shared.rs:49-50 | the keys after one more pair are the old keys plus the pair's two indices |
| Shared.BuildGraph | src/shared.rs:42-51 | the map built has exactly the pair endpoints as keys, each mapped to its neighbour list in push order; the copy at src/main.rs:45-54 does the same |
| Shared.Dfs | src/shared.rs:57-73 | `dfs` appends a repetition-free list that starts with `node` and holds exactly the newly visited indices, all connected to `node`; every neighbour of what it appends is visited when it returns; the copy at src/main.rs:60-76 does the same |
| Shared.DfsStep | src/shared.rs:66-69 | a recursive call's output joins what was appended before and keeps it repetition-free and connected to `node` |
| Shared.DfsDone | src/shared.rs:65-71 | once every neighbour of `node` is visited, everything appended has been expanded |
| Shared.DistinctAppend | src/shared.rs:63-68 | appending a repetition-free list of unvisited indices keeps the group repetition-free |
| Shared.AppendGroup | src/shared.rs:75-81 | the group a traversal from an unvisited key returns is one more whole component, disjoint from the earlier groups |
| Shared.MakeGroups | src/shared.rs:41-84 | the groups are exactly the connected components of the pairs: each non-empty and repetition-free, pairwise disjoint, covering exactly the pair endpoints, closed under pairing, internally connected; the copy at src/main.rs:41-87 does the same |
| Shared.NameGroup | src/shared.rs:26-28 | one name per index, `name_map[index]`, in group order; every index must be below `name_map.len()` |
| Shared.GroupLineRoundTrip | src/shared.rs:29 | a printed group line splits at spaces back into the group's names when no name contains a space |
| Shared.MakeGroupsAndExec | src/shared.rs:19-39 | one line per component, holding its names joined by single spaces; when a program is given, one run per component with the leading arguments followed by the component's names, and none otherwise; the copy at src/main.rs:89-106 does the same |
| Connectivity.AdjacentSymmetric | src/shared.rs:49-50 | pairs are pushed in both directions, so adjacency is symmetric |
| Connectivity.AdjacentEndpoints | src/shared.rs:45-51 | adjacent indices are pair endpoints, hence graph keys |
| Connectivity.ConnectedRefl | src/shared.rs:63-64 | every index is connected to itself, so `node` belongs in its own group |
| Connectivity.ConnectedEdge | src/shared.rs:66-68 | paired indices are connected |
| Connectivity.ConnectedSym | src/shared.rs:49-50 | connectivity is symmetric |
| Connectivity.ConnectedTrans | src/shared.rs:66-68 | connectivity is transitive, so the recursion stays within one component |
| Connectivity.ClosedPath | src/shared.rs:57-73 | a set closed under adjacency holds the end of every path that starts in it |
| Connectivity.ClosedContainsConnected | src/shared.rs:57-73 | a set closed under adjacency holds everything connected to its members |
| Connectivity.PairInOneGroup | src/shared.rs:49-50 | both endpoints of every pair end up in the same group |
| Connectivity.MemberOfOneGroup | src/shared.rs:75-81 | an index occurs in exactly one group, at exactly one position |
| Connectivity.GroupsNotConnected | src/shared.rs:75-82 | indices in different groups are not connected by any chain of pairs |
| Connectivity.GroupIsComponent | src/shared.rs:57-82 | an index is in the group of `a` if and only if it is connected to `a` |
| Connectivity.SameEdgesSameAdjacency | src/shared.rs:45-51 | adjacency depends only on the set of pairs, not on their order or repetitions |
| Connectivity.SameEdgesSameConnected | src/shared.rs:45-51 | connectivity depends only on the set of pairs |
| Connectivity.SameEdgesSameEndpoints | src/shared.rs:45-51 | the graph keys depend only on the set of pairs |
| Connectivity.ComponentsIncluded | src/shared.rs:41-84 | every group for one pair list is a group for any pair list with the same set of pairs |
| Connectivity.ComponentsDependOnEdgeSet | src/shared.rs:41-84 | the partition, as a set of sets, is the same for any two pair lists with the same set of pairs, whatever their order, repetitions and scores |
| Connectivity.PermutedEdgesSameEdgeSet | src/shared.rs:45-51 | reordering the pairs does not change the set of pairs |
| Inputs.NonDashMembers | src/main.rs:251-260 | an argument is sent as a filename exactly when it is not `-`; without a `-`, all arguments are sent |
| Inputs.NonDashCount | src/main.rs:249-262 | the count of sent filenames is the number of arguments minus the number of `-` arguments |
| Inputs.ScanFileArgs | src/main.rs:235-262 | an empty file list exits with status 1, and only an empty one does; otherwise the non-`-` arguments are sent in order, dash mode is on exactly when a `-` was given, and `total_filenames` counts what was sent; the copy at src/main_image.rs:79-92 does the same but keeps no count |
| Inputs.ArgStep | src/main.rs:252-259 | one turn of the argument loop sends the argument unless it is `-` |
| Inputs.DashStep | src/main.rs:252-253 | one turn of the argument loop turns dash mode on exactly at a `-` |
| Inputs.LineLength | src/main.rs:175 | `read_line` returns up to and including the first newline, or the rest of the input when there is none |
| Inputs.DropLast | src/main.rs:180 | `buf[0..(len - 1)]` drops the last character of the line, whatever it is |
| Inputs.StripNewline | src/main.rs:180 | the intended trimming removes a final newline and only that, and leaves a proper line without newlines |
| Inputs.StdinNamesAsWritten | src/main.rs:174-192 | the filenames the read loop sends as written: one per `read_line` until the zero-length read, each with its last character dropped |
| Inputs.StdinNamesAreLines | src/main.rs:174-192 | the intended names are the input's pieces between newlines, except the empty piece after a final newline |
| Inputs.AsWrittenAgreesWhenTerminated | src/main.rs:180 | when the input is empty or ends with a newline, every line read ends with a newline, so the loop as written sends the intended names |
| Inputs.AsWrittenDropsLastCharacter | src/main_image.rs:104 | a last line `a.png` without a newline is sent as `a.pn` by the code as written, and intended as `a.png` |
| Inputs.StreamDropsLastCharacter | src/main_image.rs:94-108 | with `-` as the only argument and `a.png` typed without a final newline, the filename sent is `a.pn` |
| Inputs.ReadFilenames | src/main.rs:168-196 | the read loop as written: one name per `read_line` until the zero-length read, each with its last character cut off, and its total counts them; on input that is empty or ends with a newline these are exactly the lines without their newlines; the copy at src/main_image.rs:94-116 sends the same names but keeps no count |
| Inputs.ReadStep | src/main.rs:175-184 | one turn of the read loop sends the line at the front of the remaining input, cut by `buf[0..(len - 1)]` |
| Inputs.FilenameStream | src/main_image.rs:79-119 | no filenames when the file list is empty; otherwise every filename sent is a non-`-` argument or a name the read loop as written sends; without a `-` exactly the arguments are sent; with a `-` and input ending in a newline, the non-`-` arguments and then the lines of standard input |
| Inputs.CollectFilenames | src/main_image.rs:84-119 | the filenames sent are the stream above: standard input is read by the loop as written if and only if a `-` was given, and the sender is otherwise dropped |
| Inputs.ParseExec | src/main.rs:352-358 | the exec string split at single spaces: no piece holds a space, joining the program and its arguments with spaces gives the string back, and a string without spaces is the program alone; the copy at src/main_image.rs:238-245 does the same |
| Text.Split | src/main.rs:354 | `str::split` always yields at least one piece |
| Text.Join | src/shared.rs:29 | joining a single piece gives the piece |
| Text.SplitPiecesLackSeparator | src/main.rs:354-356 | no piece of a split contains the separator |
| Text.JoinSplit | src/main.rs:354-356 | joining the pieces of a split with the separator gives the string back |
| Text.SplitJoin | src/shared.rs:29 | splitting a join of pieces without the separator gives the pieces back |
| Text.SplitAfterPiece | src/main.rs:175-180 | a piece followed by the separator splits off as the first piece |
| Text.SplitWhole | src/main.rs:355 | a string without the separator is its own only piece |
| Text.JoinChars | src/formatting.rs:13 | a character that occurs in no piece, and is not the separator, does not occur in the join |
| Lsh.BucketWidth | src/main.rs:108-132 | the bucket width lies in 25..140; it is 140 exactly below 10, 25 exactly at 95 and above, and 100 for the 40s and 50s |
| Lsh.BucketWidthIsTable | src/main.rs:108-132 | `get_bucket_width` is a lookup in the table of (bound, width) steps |
| Lsh.WidthStepsDescending | src/main.rs:108-132 | the widths of the steps never increase |
| Lsh.StepLookupMonotone | src/main.rs:108-132 | a lookup in a descending step table never grows with the threshold |
| Lsh.BucketWidthMonotone | src/main.rs:108-132 | a higher threshold never gets a wider bucket |
| Lsh.PutKeepsTable | src/main.rs:322-326 | storing a vector under its key in one table keeps that table exact for the vectors stored |
| Lsh.EmptyTableHolds | src/main.rs:309-313 | a new table is exact for no vectors |
| Lsh.LshIndex.constructor | src/main.rs:304-313 | the index is built with 20 hash tables, all empty |
| Lsh.LshIndex.QueryBucketIds | src/main.rs:319-321 | the query returns exactly the ids of stored vectors that share a bucket with the query in some table |
| Lsh.LshIndex.QueryStep | src/main.rs:319-321 | each table's bucket adds the ids colliding with the query in that table |
| Lsh.LshIndex.StoreVec | src/main.rs:322-326 | storing returns as id the number of vectors stored before, and appends the vector |
| Lsh.SendTasks | src/main.rs:331-339 | one task against each id found, all with the new entry first, none twice |
| Lsh.DistinctIds | src/main.rs:331-339 | tasks naming distinct entries are distinct |
| Lsh.IndexSignatures | src/main.rs:315-340 | `images` gets one entry per signature, in arrival order, at the position of its id; every task pairs a newer entry with an older one, both recorded in `images`, so nothing is paired with itself; an older and a newer signature are paired exactly when they collide in some table; no task repeats; tasks come in arrival order of the newer side |
| Lsh.IndexStep | src/main.rs:317-339 | querying before storing keeps every task for the new signature against an earlier one |
| Pixels.IndexedFacts | src/main_image.rs:151-169 | when `name_map` maps each stored path to its position, paths are stored once, the values of `name_map` are exactly 0 .. len - 1, and its keys are exactly the stored paths |
| Pixels.IndexedAppend | src/main_image.rs:168-169 | recording a new path at index `image_map.len()` and then pushing the image keeps that invariant |
| Pixels.TasksAgainstEarlier | src/main_image.rs:156-166 | a new index n gets the tasks (n, 0) … (n, n - 1), in that order |
| Pixels.ImageBundle.constructor | src/main_image.rs:58-64 | `ImageBundle::new` is empty and satisfies the invariant |
| Pixels.ImageBundle.Accept | src/main_image.rs:151-169 | a known path is skipped and the bundle is left unchanged; otherwise the image gets index `image_map.len()`, the tasks against every earlier index are sent before the append, `name_map[path]` becomes that index, and the invariant holds |
| Pixels.TaskMaster | src/main_image.rs:145-181 | the bundle ends with each path's first arrival, in arrival order, with `name_map` indexing it, and the tasks sent are all the pairs of accepted indices |
| Pixels.DedupPaths | src/main_image.rs:151-154 | the kept images carry distinct paths, and every received path is kept |
| Pixels.DedupFirstArrivals | src/main_image.rs:151-169 | an image is kept exactly when it is the first received with its path |
| Pixels.KeptFirstSnoc | src/main_image.rs:151-154 | one more image is a first arrival exactly when its path was not received before |
| Pixels.HasPathSnoc | src/main_image.rs:169 | a pushed image's path is stored afterwards, along with the earlier ones |
| Pixels.AllTasksCount | src/main_image.rs:156-169 | n accepted images give n(n - 1)/2 tasks |
| Pixels.AllTasksMembers | src/main_image.rs:156-166 | a task (a, b) is sent if and only if b < a < n |
| Pixels.AllTasksDistinct | src/main_image.rs:158-166 | no task is sent twice |
| `Database.U64ToI64` | src/database.rs:81 | `cast::<u64, i64>` keeps the value modulo 2^64, and keeps it exactly below 2^63 |
| `Database.I64ToU64` | src/database.rs:48 | `cast::<i64, u64>` is the value modulo 2^64, and keeps non-negative values |
| `Database.I8ToU8` | src/database.rs:82 | each signature byte becomes its value modulo 256 |
| `Database.U8ToI8` | src/database.rs:56 | each blob byte read back keeps its value modulo 256 |
| `Database.I8sToU8s` | src/database.rs:82 | `cast_slice::<i8, u8>` keeps the length and reinterprets each byte |
| `Database.U8sToI8s` | src/database.rs:56 | `cast_slice` back to `i8` keeps the length and reinterprets each byte |
| Database.TimestampRoundTrip | src/database.rs:48-81 | a modification time cast to `i64` on store and back to `u64` on fetch is unchanged |
| Database.StoredTimestampRoundTrip | src/database.rs:48-81 | a stored `i64` cast out and back is unchanged |
| Database.SignatureRoundTrip | src/database.rs:56-82 | a signature stored as a blob and read back is the signature |
| Database.BlobRoundTrip | src/database.rs:56-82 | a blob read as a signature and cast again is the blob |
| Database.Fetch | src/database.rs:33-62 | no row gives `Ok(None)`; otherwise a missing modification time is an error, a stored time older than the file's gives `Ok(None)` and an equal or newer one gives the row, with id 0, the time cast to `u64` and the blob cast to `i8` |
| Database.RowFor | src/database.rs:103-106 | the row written for a time and a signature reads back as that time and that signature |
| Database.FetchAfterInsert | src/database.rs:45-57 | a path inserted with time t and fetched while its time is `now` comes back exactly when now <= t, with the signature it was stored with |
| Database.FetchOtherAfterInsert | src/database.rs:84-90 | inserting one path does not change what any other path fetches |
| Database.ApplyBatch | src/database.rs:77-91 | the paths in the table after a batch are the old ones plus the batch's |
| Database.ApplyBatchUntouched | src/database.rs:84-90 | a path no message names keeps its row, or its absence |
| Database.ApplyBatchLastWins | src/database.rs:77-91 | within a batch the last message for a path decides its row |
| Database.SignatureDb.constructor | src/database.rs:23-31 | a new table is empty |
| Database.SignatureDb.Insert | src/database.rs:97-115 | without a modification time nothing is written and an error is returned; otherwise the path's one row now holds the new time and signature, nothing else changes, and one row is reported changed |
| Database.SignatureDb.InsertBatch | src/database.rs:70-95 | when some message has no modification time, nothing of the batch is committed and an error is returned; otherwise each message is an insert-or-replace, in order, committed together |
| Formatting.Escape | src/formatting.rs:11 | a name without `"` is unchanged; each `"` becomes `\"` and nothing else is escaped |
| Formatting.QuoteName | src/formatting.rs:11 | a quoted name starts and ends with `"` |
| Formatting.QuoteAll | src/formatting.rs:9-12 | one quoted name per name, in order |
| Formatting.NulTerminated | src/formatting.rs:17-19 | every name followed by one NUL |
| Formatting.PrintFmt | src/formatting.rs:3-23 | Regular and Quote end with one newline; Null ends with a NUL and prints no newline; an empty group prints a newline alone, or a NUL alone in Null format |
| Formatting.ReadQuoted | src/formatting.rs:11 | reading one quoted name consumes input |
| Formatting.ReadEscaped | src/formatting.rs:11 | an escaped name followed by the closing quote reads back as the name, unless it ends in a backslash |
| Formatting.QuoteRoundTrip | src/formatting.rs:8-15 | a Quote line, without its newline, reads back as the group when no name ends in a backslash |
| Formatting.QuotedItemsRoundTrip | src/formatting.rs:9-13 | quoted names joined by spaces read back as the names |
| Formatting.TrailingBackslashUnreadable | src/formatting.rs:11 | backslashes are not escaped, so the name `a\` prints as `"a\"` and that line reads back as nothing |
| Formatting.RegularRoundTrip | src/formatting.rs:5-7 | a Regular line, without its newline, splits at spaces back into the group when no name contains a space |
| Formatting.NullIsJoin | src/formatting.rs:16-21 | the Null output is the names joined by NUL, followed by two NULs |
| Formatting.NullRoundTrip | src/formatting.rs:16-21 | splitting the Null output at NUL gives the names followed by two empty pieces, when no name contains a NUL |
| Formatting.EscapeKeepsOthers | src/formatting.rs:11 | escaping adds only backslashes and quotes: any other character is in the escaped name exactly when it is in the name |
| Formatting.LineFormatsOneLine | src/formatting.rs:5-15 | Regular and Quote print one line per group: when no name holds a newline, the only newline is the final one |

## Left out

- Threads, the crossbeam and mpsc channels, `select!`, `RwLock` and rayon's `par_bridge`. These are concurrency; each thread is modelled by the sequential loop it runs. The order in which the channels interleave filenames, images, tasks and pairings is not modelled.
- The progress bar, `progress_bar_loop` and the totals sent on `calc_total_tx` and `calc_count_tx`. This is display only. `total_filenames` and the read loop's `total` are modelled as counts.
- `cosine_similarity`, `get_image_signature`, `rgba_blended_hybrid_compare`, and image decoding and resizing (`src/open_image.rs`). These are foreign floating-point code: the score is the opaque `similarity`, and an image that fails to open is not modelled. The `expect` on the resized images' dimensions is not modelled.
- The LSH projections, the seed, the five projections and the 625 dimensions. The hash is an uninterpreted function, and `store_vec` is assumed to return 0, 1, 2, … in store order.
- `Lsh.BucketWidth`: returns an integer; the source returns an `f32`. Every value in the table is exact in `f32`.
- The threshold conversion `threshold * 0.01` in `f64`. `Shared.CompareWorker` takes the converted threshold as a real number, and the clap range 0..=100 and the default 90 are not enforced on it.
- The SQLite engine: prepare, query and execute errors; a NULL blob read back; the transaction's own commit failure. The table is a map keyed by path. `Metadata`, `SystemTime` and `UNIX_EPOCH` arithmetic are reduced to `MTime`: whole seconds, or unavailable. The `try_into` from `u64` to `u64` cannot fail.
- `Database.Fetch`: returns the path it was asked for; the source returns the row's path, which equals it because `path` is the key of the lookup.
- Running programs with `Command::new` is modelled as a list of `Invocation` values; its output and its failure (`expect`) are not. `println!` is modelled as the list of lines printed. `Box::leak` is not modelled.
- clap parsing in `src/cli.rs`, `--width` and `--height`.
- Pairs mode (`--pairs`, src/main.rs:361-379 and src/main_image.rs:248-271): printing and running the program per pair as it arrives. Only the grouping path is modelled.
- Indexing `name_map[*index]` beyond its length (a panic). `Shared.MakeGroupsAndExec` requires every index to be in range, and every index the two modes produce is.
- A `read_line` error ends the read loop just as the end of input does; the model has no read errors. Slicing at a byte that is not a character boundary is not modelled, because strings are sequences of characters.
- Signature mode does not remove duplicate paths; a path given twice is indexed twice. Only pixel mode checks `name_map`.
- `aur.py`, a packaging script.

## Findings

| source | as written | input that shows it | evidently intended | confidence | as-written member | corrected member |
|---|---|---|---|---|---|---|
| src/main.rs:180, src/main_image.rs:104 | `buf[0..(len - 1)]` drops the last character of every line read from standard input, even when the line does not end with a newline | a standard input whose last line is `a.png` with no final newline: it is sent as `a.pn` | strip the final newline only, so the last line is sent as `a.png` | not executed | `Inputs.StdinNamesAsWritten`, `Inputs.AsWrittenDropsLastCharacter`, `Inputs.ReadFilenames`, `Inputs.FilenameStream`, `Inputs.StreamDropsLastCharacter` | `Inputs.StdinNames`, `Inputs.StdinNamesAreLines`, `Inputs.AsWrittenAgreesWhenTerminated` |

The read loop, and the filename stream built on it, follow the code as written. `Inputs.StdinNames` is the intended behaviour, kept as the reference. It is proved to be the newline-split lines of the input, and to agree with the code as written whenever the input is empty or ends with a newline.
