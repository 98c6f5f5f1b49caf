# A verified model of the MyExplorer simulated file system

`projeto2.c` simulates a small disk of 256 blocks of 512 bytes. Blocks 0–9
form the boot area. Two globals track the allocator state:

- `blocosLivres` is the free/occupied map.
- `espacosLivres` is the free counter.

On top of that disk sits a tree of directories and files. Each directory
(`Bloco` with `arq == NULL`) holds one block of its own. Each file holds a
chain of blocks (`Arquivo` list) and a declared size. The source has eight
commands:

| command | effect |
|---|---|
| `criad` | create a directory |
| `criaa` | create a file |
| `removed` | remove an empty directory |
| `removea` | remove a file |
| `verd` | list a directory |
| `verset` | show the blocks of a file |
| `mapa` | show the block map |
| `arvore` | show the directory tree |

`criad`, `criaa`, `removed`, `removea` and `verset` take a `/`-separated
path, cut with `strtok`; `verd` takes one optionally; `mapa` and `arvore`
take none. `projeto1.c` is
a small shell. Three of its pure steps are modelled:

- it shows the current directory under `/home/<user>` as `~`;
- it skips empty lines and leaves on `exit`;
- it splits a command line on spaces into at most 32 arguments.

Both programs are modelled as pure functions over immutable values:

- The disk is a `seq<bool>` of length 256 with a counter.
- A directory's sibling list (`filho`/`prox`, newest first) is a sequence of
  nodes.
- A position in the tree (a `Bloco *`) is a route of child indices.
- Every command returns either the new state or the error the source prints.
  An error carries no state, so a failed command changes nothing.

Modules, leaf first:

- `Wrappers`: the `Option` and `Result` types.
- `Tokens`: `strtok` splitting and the inverse join.
- `Allocator`: `inicializar_blocos`, `alocar_bloco`, `liberar_bloco`, and
  allocating or releasing a whole chain.
- `Tree`: nodes, the sibling scan, and replacing one directory's children.
  It also defines the blocks a subtree holds and the well-formedness of the
  tree.
- `Path`: the walk through the directories of a path.
- `Commands`: `criad`, `criaa`, `removed`, `removea`.
- `Consistency`: what the four commands keep and change, and the
  create/remove round trips.
- `Queries`: `verd`, `verset`, `mapa`, `arvore`.
- `Session`: the commands as one datatype, and runs of commands.
- `Shell`: the `projeto1.c` prompt path and command-line handling.

The central invariant is `Commands.Consistent`. It requires three things:

- the block map and its counter agree;
- sibling names are unique per kind, and every file chain is well formed;
- every block outside the boot area is held by the tree exactly once when it
  is occupied, and not at all when it is free.

All four mutating commands keep this invariant. From it follows
conservation: the free counter plus the blocks the tree uses is always 246.

Points where the code's behaviour is easy to misread, all modelled as
written:

- **Name clashes are checked per kind.** `criad` looks only for an existing
  directory of the same name (`projeto2.c:310`), and `criaa` only for an
  existing file (`projeto2.c:385`). So a directory and a file may share a
  name.
- **`criaa` always allocates a chain head.** It allocates the head
  unconditionally (`projeto2.c:407`), so a file of size 0 or less takes one
  block.
  - The block count is `(size + 511) / 512` with C's truncating division.
  - On a full disk, a file of size 0 or less is still created. Its chain is
    the single entry -1 (`projeto2.c:394-407`).
- **`criaa` never fails halfway.** It checks the block count against the
  free counter before allocating anything (`projeto2.c:395`), so no
  allocation in the chain loop can fail.
- **`arvore` does not list every directory.** It descends into a first
  child or moves to the next sibling, and never climbs back up
  (`projeto2.c:196-209`). Everything after the end of the first branch is
  not printed. The model proves that the output is a prefix of the pre-order
  listing, and exhibits a tree where it is a strict prefix.
- **`liberar_bloco` accepts boot blocks.** It frees any occupied block in
  range, boot blocks 0–9 included (`projeto2.c:222`). The model keeps this.
  Validity is proved for releases outside the boot area, and the tree never
  holds a boot block.
- **`main` dispatches by the first word.** The loop in `projeto2.c` calls
  `sair`, `ajuda`, `arvore`, `mapa`, `verset`, `verd`, `criad`, `removed`,
  `criaa` or `removea`, and reports any other word as an invalid command
  (`projeto2.c:121-159`). `Session.Step` models the dispatch of the eight
  file-system commands.

## Model

| member | source | states |
|---|---|---|
| Allocator.Init | projeto2.c:213-219 | after initialisation blocks 0–9 are occupied, blocks 10–255 are free, the counter is 246, and map and counter agree |
| Allocator.FirstFree | projeto2.c:230-231 | the scan returns the lowest free index at or above `lo`, or -1 exactly when none is free |
| Allocator.Alloc | projeto2.c:229-240 | -1 exactly when no block 10–255 is free, and then nothing changes; otherwise the lowest free block ≥ 10 is marked occupied and the counter drops by one |
| Allocator.AllocSpec | projeto2.c:229-240 | on a consistent map `alocar_bloco` fails exactly when the counter is 0; it keeps map and counter in agreement and takes the head of the ascending free list |
| Allocator.Release | projeto2.c:221-227 | an in-range block becomes free; no other block changes; the counter rises by one exactly when the block was in range and occupied |
| Allocator.ReleaseSpec | projeto2.c:221-227 | releasing any number outside the boot area keeps map and counter in agreement |
| Allocator.ReleaseIdempotent | projeto2.c:222 | releasing the same block twice is the same as releasing it once |
| Allocator.AllocThenRelease | projeto2.c:221-240 | releasing the block just allocated restores the disk exactly |
| Allocator.Conservation | projeto2.c:68-69 | on a consistent disk the counter plus the number of occupied blocks ≥ 10 is 246 |
| Allocator.AllocMany | projeto2.c:407-427 | allocating `n` blocks one after another yields a chain of exactly `n` numbers (none for negative `n`) |
| Allocator.AllocManyDisk | projeto2.c:407-427 | with at most `count` blocks requested, the disk stays consistent, the counter drops by `n`, and the free list loses its first `n` entries |
| Allocator.AllocManyBlocks | projeto2.c:407-427 | the chain is exactly the first `n` free blocks in ascending order |
| Allocator.AllocManyMap | projeto2.c:407-427 | after the allocations a block is free exactly when it was free before and is not in the chain |
| Allocator.AllocManyAscending | projeto2.c:407-427 | every chain block lies in 10–255, was free before, and the chain is strictly ascending |
| Allocator.AllocManyHeld | projeto2.c:407-427 | every block's use count rises by exactly its multiplicity in the chain |
| Allocator.AllocManyThenRelease | projeto2.c:580-586 | releasing a freshly allocated chain block by block restores the disk exactly |
| Allocator.ReleaseMany | projeto2.c:580-586 | after releasing a chain, a block is free exactly when it was free or is in the chain |
| Allocator.ReleaseManySpec | projeto2.c:580-586 | releasing a chain whose blocks are all held keeps the disk consistent and raises the counter by the number of in-range entries |
| Allocator.FreeFromMember | projeto2.c:230-231 | a block is on the free list from `lo` exactly when it is free and at or above `lo` |
| Tree.Find | projeto2.c:293-299 | the sibling scan yields the first child of the requested kind with exactly that name; none exactly when no child matches |
| Tree.Replace | projeto2.c:331-337 | rewriting one directory's children leaves every other sibling, and the names on the route, as they were |
| Tree.ReplaceThenRead | projeto2.c:335-337 | after the rewrite the same route reaches the same directories, which now hold the new children |
| Tree.ReplaceSame | projeto2.c:335-337 | writing back the children already there leaves the tree unchanged |
| Tree.ReplaceTwice | projeto2.c:331-337 | a second rewrite at the same route overrides the first |
| Tree.HeldReplace | projeto2.c:331-337 | the blocks of the tree change by exactly the blocks of the old and new children |
| Tree.WellFormedCons | projeto2.c:308-337 | prepending an entry whose name no sibling of the same kind has keeps names unique per kind |
| Tree.WellFormedRemove | projeto2.c:517-525 | unlinking an entry keeps the siblings well formed |
| Tree.WellFormedReplace | projeto2.c:335-337 | replacing one directory's children with well-formed ones keeps the whole tree well formed |
| Path.Walk | projeto2.c:288-306 | a walk that succeeds follows a route of directories whose names are the path segments; one that fails names a segment of the path |
| Path.WalkComplete | projeto2.c:288-306 | in a well-formed tree, any route of directories spelling the path is the one the walk finds |
| Path.WalkExtend | projeto2.c:288-306 | one more segment extends the route by the first sibling directory of that name, or fails naming that segment |
| Path.WalkFailure | projeto2.c:300-304 | a failing walk stops at the first segment that names no directory; the walk up to it succeeds |
| Path.WalkAfterReplace | projeto2.c:288-306 | changing the children of the directory a path leads to does not change where the path leads |
| Path.WalkIntoReplaced | projeto2.c:288-306 | a directory found among the new children is reached by the path extended with its name |
| Commands.Init | projeto2.c:91-97 | the start state is consistent, with 246 free blocks and an empty root |
| Commands.Parent | projeto2.c:288-291 | the directories to walk are the segments before the last |
| Commands.CDiv | projeto2.c:394 | C's division rounds toward zero, for both signs of the dividend |
| Commands.CreateDir | projeto2.c:273-341 | success takes one block and needs the parent path to resolve; the complete outcome is stated by the `Consistency.CreateDir*` lemmas |
| Commands.CreateFile | projeto2.c:343-452 | success needs the parent path to resolve and no more blocks than are free; the complete outcome is stated by the `Consistency.CreateFile*` lemmas |
| Commands.RemoveDir | projeto2.c:454-530 | success needs the parent path to resolve; the complete outcome is stated by `Consistency.RemoveDirOutcome` and `Consistency.RemoveDirEffect` |
| Commands.RemoveFile | projeto2.c:532-600 | success needs the parent path to resolve; the complete outcome is stated by `Consistency.RemoveFileOutcome` and `Consistency.RemoveFileEffect` |
| Consistency.HeldIsUsage | projeto2.c:53-66 | in a well-formed tree the blocks held number one per directory plus each allocated chain's length |
| Consistency.Conservation | projeto2.c:68-69 | in a consistent state the free counter plus the blocks the tree uses is 246 |
| Consistency.CreateDirOutcome | projeto2.c:288-322 | `criad` fails naming the missing segment when the walk fails; "already exists" exactly when the parent has a directory of that name; "no free block" exactly when it has none and the counter is 0; it succeeds exactly when the walk resolves, no directory of that name is there and a block is free |
| Consistency.CreateDirConsistent | projeto2.c:318-337 | a successful `criad` keeps the state consistent |
| Consistency.CreateDirBlock | projeto2.c:318-322 | `criad` occupies exactly the lowest free block, changes no other block, and lowers the counter by one |
| Consistency.CreateDirTree | projeto2.c:331-337 | the parent's children become the new empty directory followed by the old children |
| Consistency.CreateDirReachable | projeto2.c:331-337 | after `criad` the full path walks to the new directory, which is the parent's first child |
| Consistency.RemoveDirOutcome | projeto2.c:474-513 | `removed` fails naming the missing segment when the walk fails; "not found" exactly when there is no directory of that name; "not empty" exactly when it has children; it succeeds exactly on a found, empty directory |
| Consistency.RemoveDirEffect | projeto2.c:515-526 | a successful `removed` keeps the state consistent, frees exactly the directory's block, raises the counter by one, and unlinks exactly that entry |
| Consistency.CreateThenRemoveDir | projeto2.c:454-530 | `removed` of a directory just made by `criad` restores the previous state exactly |
| Consistency.CreateFileOutcome | projeto2.c:363-399 | `criaa` fails naming the missing segment when the walk fails; "file exists" exactly when the parent has a file of that name; "no space" exactly otherwise when more blocks are needed than are free; it never fails on a single allocation, and succeeds exactly when the walk resolves, no file of that name is there and the blocks needed are free |
| Consistency.CreateFileTree | projeto2.c:441-448 | the parent's children become the new file followed by the old ones, and the file is the first found under its name |
| Consistency.CreateFileBlocks | projeto2.c:393-427 | on a non-empty disk the chain is the lowest `max(1, blocks needed)` free blocks in order and the counter drops by that many; on a full disk only a size ≤ 0 gets through, the disk is unchanged, and the chain is -1 |
| Consistency.CreateFileConsistent | projeto2.c:401-448 | a successful `criaa` keeps the state consistent |
| Consistency.RemoveFileOutcome | projeto2.c:547-578 | `removea` fails naming the missing segment when the walk fails, and "not found" exactly when there is no file of that name; it fails in no other way, and succeeds exactly when the walk resolves and the file is found |
| Consistency.RemoveFileEffect | projeto2.c:580-597 | a successful `removea` keeps the state consistent, frees exactly the chain's blocks, raises the counter by the chain length (0 for a -1 chain), and unlinks exactly that file |
| Consistency.CreateThenRemoveFile | projeto2.c:532-600 | `removea` of a file just made by `criaa` restores the previous state exactly |
| Queries.ListDir | projeto2.c:602-642 | `verd` fails exactly when some segment, the last included, names no directory, and the error names that segment |
| Queries.ListDirEntries | projeto2.c:645-664 | an empty directory gives "no entries"; otherwise one entry per child, newest first, with name, date, kind and size; the file count, byte total and directory count are those of the children (which `Summarize` computes), and the free bytes are counter × 512 |
| Queries.ListDirFreeBytes | projeto2.c:607 | in a consistent state the free bytes shown are (246 − blocks used by the tree) × 512 |
| Queries.Summarize | projeto2.c:651-661 | the listing loop counts files, adds their sizes, and counts directories, equal to the reference counts; files plus directories is the number of entries |
| Queries.CountsAddUp | projeto2.c:652-658 | every entry is counted as either a file or a directory |
| Queries.FileBlocks | projeto2.c:687-720 | `verset` fails only with the missing segment or "file not found" for the last segment |
| Queries.FileBlocksAfterCreate | projeto2.c:723-727 | `verset` right after `criaa` shows exactly the blocks allocated, in chain order |
| Queries.FileBlocksOccupied | projeto2.c:723-727 | in a consistent state every block `verset` shows lies in 10–255 and is occupied, unless the chain is the -1 of a full disk |
| Queries.DiskMap | projeto2.c:178-187 | the map has one symbol per block |
| Queries.DiskMapCells | projeto2.c:178-187 | a block shows 'B' exactly in the boot area, '0' exactly when it is on the free list, and '#' exactly when it is in use |
| Queries.DiskMapFreeCount | projeto2.c:178-187 | on a consistent disk the map shows exactly as many '0's as the free counter |
| Queries.TourIsPrefix | projeto2.c:189-211 | the lines `arvore` prints are a prefix of the full pre-order listing of the directories |
| Queries.TourLevels | projeto2.c:196-208 | each printed line is at the level of the line before it, or one deeper |
| Queries.TourSkipsSibling | projeto2.c:202-208 | for root entries a[b], c the walk prints a and b but never c, which the pre-order listing has |
| Session.Step | projeto2.c:121-159 | a step reports success only for `criad`, `criaa`, `removed` or `removea`; a failed step and every query return the state unchanged |
| Session.StepUnchanged | projeto2.c:602-731 | failed commands and all queries (`verd`, `verset`, `mapa`, `arvore`) leave the state exactly as it was |
| Session.StepConsistent | projeto2.c:273-600 | every command keeps the state consistent |
| Session.RunConserves | projeto2.c:68-69 | after any run of commands the state is consistent, and the free counter plus the blocks the tree uses is 246 |
| Session.Scenario | projeto2.c:273-731 | on a fresh disk: `criad pasta1` leaves 245 free; `criaa pasta1/a.txt 1024` leaves 243; `verset` shows two occupied blocks ≥ 10; `removea` returns to the state with 245 free; `removed` returns to the initial 246 |
| Tokens.Tokenize | projeto2.c:281-285 | `strtok` yields non-empty tokens without separators whose concatenation is the text with separators dropped |
| Tokens.TokenizeJoin | projeto2.c:281-285 | tokens written back behind separators split into exactly the same tokens |
| Tokens.TokenizeSkipsSeparators | projeto2.c:281-285 | a leading separator gives no empty token |
| Tokens.TokenizeSplit | projeto2.c:281-285 | every separator splits: the tokens of `a`, a separator and `b` are the tokens of `a` followed by those of `b`, so doubled and trailing separators give no empty token |
| Tokens.TokenizeToken | projeto2.c:281-285 | a text without separators is a single token |
| Shell.Cat | projeto1.c:105-106 | `strncat` with room for the terminator never reaches 512 characters and appends the whole piece when it fits |
| Shell.CatAllFits | projeto1.c:104-107 | when everything fits, the appending loop writes exactly the components behind separators |
| Shell.Normalize | projeto1.c:99-111 | under `/home/<user>` the prompt path is "~" followed by "/c" for each further component; anywhere else it is the cwd unchanged; always shorter than 512 |
| Shell.HomeFits | projeto1.c:103-107 | the "~" form of a path under the home directory is shorter than the path |
| Shell.NormalizeRoundTrip | projeto1.c:99-111 | the shown path starts with "~", and what follows splits into exactly the cwd's components after "home" and the user |
| Shell.NormalizeUnderHome | projeto1.c:99-111 | "/home/<user>/c1/…/cn" is shown as "~/c1/…/cn" |
| Shell.NormalizeOtherHome | projeto1.c:101-103 | components are compared whole: under another user's home, even one whose name extends the user's, the path is shown unchanged |
| Shell.Chomp | projeto1.c:121 | the line is the input up to its first newline, and contains none |
| Shell.ChompLine | projeto1.c:121 | a line read with its newline becomes the text before the newline |
| Shell.SplitArgs | projeto1.c:130-138 | the arguments are the first at most 32 space-separated words, empty words skipped; all of them when there are fewer than 32 |
| Shell.SplitArgsJoin | projeto1.c:130-138 | up to 32 words written with single spaces come back unchanged |
| Shell.Classify | projeto1.c:121-138 | a line is skipped exactly when it is empty, leaves exactly when it is "exit", and otherwise is split into arguments |
| Shell.ClassifyLine | projeto1.c:121-127 | a line read with its newline leaves exactly when it reads "exit", and is skipped exactly when it is empty |
| Shell.ClassifyPadded | projeto1.c:124-138 | a word behind a space, "exit" included, runs as a one-word command |
| Shell.ClassifyBlank | projeto1.c:124-138 | a line of spaces is not skipped and gives no argument |

## Left out

- The command arguments arrive already split into path segments.
  - Missing arguments are not modelled: the "not provided" messages of
    `projeto2.c:274-277` and `344-347`.
  - `atoi` is not modelled: the size is given as a C `int`.
  - Paths with no segment are excluded by a precondition. Without a segment
    the source reads `dirList[1]` past the terminator.
  - The 256-entry `dirList` capacity is not modelled.
- A failed `malloc` is not modelled. In `criaa` it would leak the blocks
  already taken (`projeto2.c:412-438`).
- Printed messages are not modelled: each command returns its error or its
  listing as a value instead.
- The clock (`obter_data_atual`) is a `date` parameter. The 100-byte `nome`
  (`projeto2.c:59`) and 20-byte `data` (`projeto2.c:61`) buffers are not
  bounded in the model.
- `substituir_string` and `ajuda` are not modelled: `substituir_string` is
  never called, and `ajuda` only prints the help text.
- The `main` loop of `projeto2.c` is not modelled beyond its dispatch:
  reading lines with `fgets`, `feof`, splitting on spaces, `sair` and
  `ajuda`. `Session.Run` runs a sequence of already-parsed commands.
- The operating-system parts of `projeto1.c` are not modelled: the host and
  user lookup, `getcwd`, `cd`, `fork`/`exec` and the other system calls.
- `barbeiro.c` and `mysh.c` are not modelled.
- `Queries.Summarize`: does not model the `int` overflow of the `verd` byte
  total. `bytes` is an unbounded sum.
- `Shell.Classify`: does not model what the source does next with its
  result.
  - A line of only spaces gives no argument, and the source then reads
    `argList[0] == NULL`.
  - With 32 or more words, `argList` has no NULL terminator.
- `Shell.Normalize`: does not model the buffer overlap in the source.
  `strncat` appends into the buffer `strtok` is still reading, and the
  model treats this as harmless: the "~" form stays shorter than the part
  already read (`Shell.HomeFits`).
- `Allocator.ReleaseSpec`: states validity only for releases outside the
  boot area. `liberar_bloco` would free an occupied boot block, which breaks
  the agreement of map and counter. No command releases one.
- `Commands.CreateFile`: requires `size + 511` not to overflow a C `int`.
  The source overflows there.
- `Queries.TourIsPrefix`: states that `arvore` prints a prefix of the
  pre-order listing, not all of it. The source's walk never climbs back to
  a parent's later siblings.
- `Commands.CreateDir`: its own contract states only the block taken and the resolved parent. The full outcome is in `Consistency.CreateDirOutcome`, `Consistency.CreateDirBlock`, `Consistency.CreateDirTree` and `Consistency.CreateDirReachable`.
- `Commands.CreateFile`: its own contract states only the resolved parent and the space check. The full outcome is in `Consistency.CreateFileOutcome`, `Consistency.CreateFileTree` and `Consistency.CreateFileBlocks`.
- `Commands.RemoveDir`: its own contract states only the resolved parent. The full outcome is in `Consistency.RemoveDirOutcome` and `Consistency.RemoveDirEffect`.
- `Commands.RemoveFile`: its own contract states only the resolved parent. The full outcome is in `Consistency.RemoveFileOutcome` and `Consistency.RemoveFileEffect`.
- `Queries.FileBlocks`: its own contract states only the error cases. The chain it shows is described by `Queries.FileBlocksAfterCreate` and `Queries.FileBlocksOccupied`.
- `Queries.DiskMap`: its own contract states only the length. The symbols are described by `Queries.DiskMapCells` and `Queries.DiskMapFreeCount`.
