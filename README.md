# Detective Quest — a verified model of the clue, suspect and verdict logic

Detective Quest is a small C text game. The player walks through a manor laid out as a
binary tree of rooms and picks up the clue in each room the first time they enter it.
Collected clues go into a binary search tree, the *ledger*, ordered by `strcmp`.
A chained hash table with 31 buckets maps each clue to the suspect it incriminates.
At the end the player names a suspect. The accusation succeeds when at least two
collected clues point at that name.

The model has six modules:

- `Wrappers` — `Option`.
- `CString` — C strings as sequences of non-NUL bytes (`CStr`), the `MAX_PISTA` and
  `MAX_NOME` length limits as the subset types `Clue` and `Name`, `strcmp` as `Strcmp`
  (its sign only), and the strict order `Less` it induces.
- `ClueLedger` — the ledger as the value `Tree`, with insertion (`Insert`) and the
  in-order listing (`InOrder`). `ClueNode` is the heap node whose insertion writes the
  child pointer it descends into in place. A ghost `Model` ties each node to its
  `Tree` value.
- `SuspectIndex` — the djb2 hash over 64-bit `unsigned long` (`Djb2`, `Bucket`, and the
  loop `HashString`). `Table` is the array of 31 chains: `Insert` prepends, `Find` walks
  a chain from its head. A ghost map `Contents` records the association the table
  stands for.
- `Explorer` — rooms as objects with a mutable visited flag. One loop iteration is the
  pure transition `Step` over a `Config` (current room, set of visited rooms, ledger
  value), and `Run` folds it over the player's choices. The loop method `Explore`
  updates the rooms' flags and the heap ledger, and does exactly what `Run` says.
- `Verdict` — the recursive tally `Tally` over the heap ledger, specified by `Count`;
  the decision `Judge` with threshold 2; and `Play`, the game after setup (explore,
  then tally, then decide).

## Model

| member | source | states |
|---|---|---|
| CString.Strcmp | algoritmos_avancados.c:122-123 | the comparison's sign is -1, 0 or 1, and it is 0 exactly when the two strings are equal |
| CString.StrcmpAntisymmetric | algoritmos_avancados.c:122-130 | swapping the operands negates the comparison |
| CString.LessTrichotomy | algoritmos_avancados.c:122-130 | for any two strings exactly one of less, equal, greater holds, so the three insertion branches cover every case |
| CString.LessTransitive | algoritmos_avancados.c:122-130 | the `strcmp` order is transitive |
| ClueLedger.InOrder | algoritmos_avancados.c:205-210 | the listing has one entry per node and holds exactly the stored clues |
| ClueLedger.InOrderAscending | algoritmos_avancados.c:205-210 | the listing of a search tree is strictly ascending under `strcmp`, hence free of duplicates |
| ClueLedger.Insert | algoritmos_avancados.c:110-132 | an empty clue leaves the ledger unchanged; a non-empty clue yields a non-empty ledger whose clues are the old ones plus that clue |
| ClueLedger.InsertPresent | algoritmos_avancados.c:122-125 | inserting a clue already in a search tree returns the tree unchanged |
| ClueLedger.InsertIdempotent | algoritmos_avancados.c:122-125 | on any tree, inserting the same clue twice is the same as inserting it once |
| ClueLedger.InsertKeepsBst | algoritmos_avancados.c:122-131 | insertion keeps the search-tree order: left subtree below the key, right subtree above |
| ClueLedger.BstHasNoDuplicates | algoritmos_avancados.c:122-125 | a search tree stores no clue twice: a node's clue is in neither subtree and the subtrees share none |
| ClueLedger.SizeIsCardinality | algoritmos_avancados.c:110-132 | in a tree without duplicates the node count equals the number of distinct clues |
| ClueLedger.InsertAllStoresDistinct | algoritmos_avancados.c:110-132 | inserting any sequence of clues into an empty ledger gives a search tree holding exactly the distinct non-empty clues, one node each |
| ClueLedger.ClueNode.Leaf | algoritmos_avancados.c:113-119 | a fresh node with the clue and no children, whose model is the one-node tree |
| ClueLedger.ClueNode.Add | algoritmos_avancados.c:122-131 | the in-place descent that writes the child pointer; the subtree's new value is `Insert` of its old value, and only new nodes join its footprint |
| ClueLedger.ClueNode.InsertClue | algoritmos_avancados.c:110-132 | the ledger after insertion is `Insert` of the ledger before; a non-null root is returned as the root, and an empty ledger gets a new node |
| SuspectIndex.Bucket | algoritmos_avancados.c:84-91 | the djb2 hash reduced modulo 31 is always a valid bucket index |
| SuspectIndex.HashString | algoritmos_avancados.c:84-91 | the hashing loop computes `Bucket` of the string: 64-bit djb2 from seed 5381, then mod 31 |
| SuspectIndex.ChainFind | algoritmos_avancados.c:152-157 | a chain walk finds nothing exactly when no entry has the key; otherwise it returns the suspect of the first entry with that key |
| SuspectIndex.SetupLookup | algoritmos_avancados.c:135-158 | after a sequence of insertions, looking up a clue finds nothing exactly when it is empty or was never inserted; otherwise it finds the suspect of the last insertion of that clue |
| SuspectIndex.Table.constructor | algoritmos_avancados.c:278 | all 31 buckets start as empty chains and the table associates nothing |
| SuspectIndex.Table.Insert | algoritmos_avancados.c:135-146 | an empty clue changes nothing; otherwise the entry is prepended to its bucket's chain, the association is updated for that clue only, and every other bucket is unchanged |
| SuspectIndex.Fill | algoritmos_avancados.c:325-337 | inserting a sequence of clue/suspect pairs into a new table leaves a valid table whose association is `Setup` of the sequence |
| SuspectIndex.Table.Find | algoritmos_avancados.c:149-158 | the lookup returns the suspect the table associates with the clue, or nothing when there is none |
| Explorer.Room.constructor | algoritmos_avancados.c:94-107 | a fresh room with the given name, clue and exits and its visited flag clear |
| Explorer.Decode | algoritmos_avancados.c:189-199 | `e`/`E` asks for left, `d`/`D` for right, `s`/`S` for exit, every other character is an invalid choice |
| Explorer.Collect | algoritmos_avancados.c:168-178 | the room is marked visited and stays current; the ledger gains the room's clue exactly when the visit is the first and the clue is non-empty; a revisit leaves the ledger as it was |
| Explorer.Target | algoritmos_avancados.c:189-194 | a requested existing child becomes current; otherwise the room stays put, and no move ever leads anywhere but to the requested child |
| Explorer.Step | algoritmos_avancados.c:168-200 | one iteration marks the room visited; it adds the room's clue to the ledger only on a first visit; it moves to an existing requested child; it stays put on a missing child or an unrecognised choice; and it ends exactly on `s`/`S` |
| Explorer.Run | algoritmos_avancados.c:161-201 | the exploration never leaves the manor |
| Explorer.RunVisitedGrows | algoritmos_avancados.c:175 | visited flags are only set, never cleared; the entrance is always visited and nothing outside the manor is |
| Explorer.RunCollectsFirstVisits | algoritmos_avancados.c:168-178 | the final ledger holds exactly the initial clues plus the clues of the rooms visited for the first time |
| Explorer.RunKeepsBst | algoritmos_avancados.c:171 | a whole exploration keeps the ledger a search tree |
| Explorer.CollectIdempotent | algoritmos_avancados.c:168-178 | collecting in an already visited room changes nothing |
| Explorer.ExhaustedInputEnds | algoritmos_avancados.c:186 | a failed read counts as `s` and ends the exploration after the current room's collection |
| Explorer.Iterate | algoritmos_avancados.c:165-200 | one pass of the heap loop produces the state `Step` prescribes, on the flags and on the ledger |
| Explorer.Choose | algoritmos_avancados.c:189-200 | the choice chain ends the loop exactly on an exit choice and moves exactly to `Step`'s target room |
| Explorer.Explore | algoritmos_avancados.c:161-201 | the loop leaves the visited flags and the ledger exactly as `Run` prescribes; a null start changes nothing |
| Verdict.CountIsMatching | algoritmos_avancados.c:213-223 | on a ledger without duplicates the count is the number of distinct collected clues the index attributes to the accused |
| Verdict.Count | algoritmos_avancados.c:213-223 | the count of clues pointing at the accused never exceeds the number of collected clues, and is 0 for an empty ledger |
| Verdict.Tally | algoritmos_avancados.c:213-223 | the recursive tally over the heap ledger, using the table lookup and exact name comparison, returns `Count` of the ledger's value |
| Verdict.JudgeByMatchingClues | algoritmos_avancados.c:357-389 | for a search-tree ledger: no accusation exactly when nothing was collected; conviction exactly when something was collected and at least 2 distinct clues point at the accused |
| Verdict.Judge | algoritmos_avancados.c:357-389 | no accusation exactly when the ledger is empty; otherwise conviction exactly when the count reaches the threshold 2, acquittal exactly when it stays below |
| Verdict.EmptyLedger | algoritmos_avancados.c:214 | an empty ledger counts 0 for every name and allows no accusation |
| Verdict.ThreeCluesConvict | algoritmos_avancados.c:380 | three distinct collected clues attributed to the accused give a count of at least 3 and a conviction, as with the three clues of one suspect in the manor |
| Verdict.OneClueAcquits | algoritmos_avancados.c:380 | a single collected clue never convicts, whoever it points at |
| Verdict.Play | algoritmos_avancados.c:346-389 | from an empty ledger, the game's outcome and count are `Judge` and `Count` of the ledger that `Run` gives for the player's choices |

## Left out

- Output (`printf`) and the prompts are not modelled. The choice reads (`scanf(" %c")`, which skips blanks) become the `input` sequence of the non-blank characters read, one per prompt, and the accused name is a parameter. A blank in `input` would act as an invalid choice, which changes nothing after the collection. Reaching the end of `input` stands for a failed read.
- The line-draining loop after each read (line 187) and the newline stripping of the accusation (line 370) are input handling. The model receives characters and names that are already clean.
- The `exit(1)` paths on allocation failure (lines 96-99, 115, 139) are left out. Allocation always succeeds in Dafny.
- `liberarPistas`, `liberarHash` and `liberarSalas` (lines 229-257) are teardown. Dafny's heap is garbage-collected.
- The manor's wiring, its clues and suspects, and `obterMotivo` (lines 259-337) are fixed game data and strings. `ThreeCluesConvict` states the general rule that the three clues of one suspect convict.
- The label at line 312 has no effect.
- `strncpy` truncation to 127 and 63 bytes (lines 100-103, 116-117, 140-143) is not modelled. Instead the `Clue` and `Name` types require strings below those limits.
- `NULL` string arguments (lines 111, 136, 150) cannot be expressed, because a `CStr` is always a string. The empty-string checks are modelled.
- Explorer.Room.constructor: the C code wires a room's exits after `criarSala` returns. The model fixes them at construction, because the exploration never changes them.
- SuspectIndex.Table: a chain is an immutable sequence of entries rather than linked `HashEntry` nodes. Prepending builds a new sequence, so node identity and aliasing within chains are not modelled.
- SuspectIndex.Table: the global `tabelaHash` is a `Table` object passed to the operations that use it, and its initialisation loop (line 278) is the constructor.
- SuspectIndex.Djb2: `unsigned long` is taken to be 64 bits wide (LP64). Where it is 32 bits wide, the hash values differ; the bucket range does not.
- CString.Strcmp: only the sign of `strcmp` is modelled, which is all the program inspects.
- Explorer.Explore: the final current room is not returned, because `explorarSalas` does not report it.
- Verdict.Play: the setup of the manor and the table (lines 278-337) is not part of it. Play starts from any fully built manor and table.
