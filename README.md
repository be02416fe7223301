# Memory-bank engine of Digital Decay, in Dafny

Digital Decay is an art installation: a chat agent whose memories live as
files in a small directory, as on a floppy disk, and slowly rot. This project
models the engine in `scripts/memory_utils.py` and proves what it does to
that directory. The engine has five operations.

- **Core seeding** (`store_core_memories`) writes the protected identity
  records `core_<category>_<i:02d>.txt`, each holding `"AI: " + memory`. A
  record is written only when no file of that name exists.
- **Write with quota** (`store_memory_block`) writes one regular record
  `mem_<timestamp>.txt`. When the directory then holds more than 100 `.txt`
  files, the write removes the regular file with the oldest creation time.
- **Uniform decay** (`simulate_memory_decay`) considers each regular file.
  With chance 0.05 it rewrites the file, deleting each character with
  chance 0.1.
- **Aging** (`age_memories_over_time`) works the same way. Both chances grow
  with the file's age: `min(0.02 + 0.01·age, 0.3)` and
  `min(0.05 + 0.02·age, 0.4)`, with age in days.
- **Priority load** (`load_memories_with_priority`, which
  `load_random_memories` calls) builds the context string. It takes one
  random core record, if any exist. It then draws `min(remaining,
  |regular|)` regular records with replacement. Each read adds its text, or
  a placeholder for a failed read, plus a line break. The result is
  stripped of surrounding whitespace.

The directory is a `map<string, Record>`. A `Record` holds a file's text and
its creation time. `MemoryUtils.MemoryBank` holds that map in a field, and
its methods update it the way the Python functions update the disk. Each
method is proved to leave exactly what a function of the old directory
describes:

| Python function | method | specification function |
|---|---|---|
| `store_core_memories` | `StoreCoreMemories` | `CoreSeeding.SeedUpTo`, which is `CoreSeeding.SeedAbsent` when every write completes |
| `store_memory_block` | `StoreMemoryBlock` | `Quota.AfterStore` |
| `simulate_memory_decay`, `age_memories_over_time` | `SimulateMemoryDecay`, `AgeMemoriesOverTime` | `Decay.Pass` |
| `load_memories_with_priority`, `load_random_memories` | `LoadMemoriesWithPriority`, `LoadRandomMemories` | `Loader.Context` |

The properties of those functions are proved as lemmas beside them.

Anything outside the program's control is an explicit parameter:

- `listing` is the directory order `os.listdir` returns. It holds each name
  once, and its order decides the tie-break between equally old files.
- `rng: nat -> Coin` is the stream of `random.random()` values. Each pass
  consumes it in order: one coin per file, then one per character of each
  selected file that it read.
- `coreChoice` and `choose` are the indices behind `random.choice` and
  `random.choices`, reduced modulo the list length.
- `now` is the wall-clock time, and `stamp` is the timestamp string.
- `write` (for each core file) and `outcome` (for the memory block) say
  what `open(path, 'w')` and `f.write(text)` leave behind: the whole text,
  no file, or a file holding only a prefix of the text (`WriteOutcome`).
- `removeOk` says whether the quota's `os.remove` succeeds. `io`,
  `coreFault` and `faults` say which decay reads and writes and which load
  reads fail, and how.

`store_core_memories` has no `try`: the first failed write raises out of
both loops, and the remaining core files are not written.
`StoreCoreMemories` returns `completed == false` in that case, with the
directory as the failed write left it.

Modules:

- `Text`: Python's `startswith`, `endswith`, `strip`, slicing and `{:02d}`
  formatting.
- `Storage`: records, the directory, and the `.txt`, `core_` and regular
  partitions of a listing.
- `Corruption`: the per-character deletion filter and the age formulas.
- `Decay`: the two passes.
- `Quota`: the write and the eviction after it.
- `CoreSeeding`: the identity records and how they are seeded.
- `Loader`: the context string.
- `MemoryUtils`: the class.

Two consequences of the code:

- The quota test counts **every** `.txt` file, core records included
  (`scripts/memory_utils.py:198-199`). With the 12 core records present,
  eviction therefore starts once 89 regular records exist.
  `Quota.QuotaPreserved` proves what the code keeps of the bound: at most 100
  `.txt` files in all after a write that completes or creates no file and
  whose removal succeeds, and at most 101 after any single write otherwise.
- Ties on creation time go to the **first** minimal file in listing order,
  because that is the element Python's `min` returns
  (`scripts/memory_utils.py:206`).

## Model

| member | source | states |
|---|---|---|
| Text.StripLeft | scripts/memory_utils.py:95 | the result is a suffix of the input; everything dropped is whitespace; the result does not begin with whitespace |
| Text.StripRight | scripts/memory_utils.py:95 | the result is a prefix of the input; everything dropped is whitespace; the result does not end with whitespace |
| Text.Strip | scripts/memory_utils.py:95 | `str.strip()`: the result is a contiguous middle slice with only whitespace around it, and it neither begins nor ends with whitespace |
| Text.StripUnique | scripts/memory_utils.py:95 | those two properties determine `strip()`: any slice satisfying them is `Strip(s)` |
| Text.StripDropsTrailingSpace | scripts/memory_utils.py:84-95 | a trailing line break (any whitespace) never changes the stripped text |
| Text.Prefix | scripts/memory_utils.py:72 | `s[:n]`: a prefix of `s` of length at most `n`, and all of `s` when it is shorter than `n` |
| Text.NatToString | scripts/memory_utils.py:40 | `str(i)`: decimal digits that denote `i`, in canonical form: no leading zero unless the number is 0, one digit exactly below 10, at most two below 100 |
| Text.TwoDigits | scripts/memory_utils.py:40 | `f"{i:02d}"`: decimal digits that denote `i`; exactly two below 100, a leading zero exactly for 0 to 9, none from 10 on |
| Storage.Filter | scripts/memory_utils.py:53-60 | a list comprehension with a condition: keeps exactly the elements that satisfy it, never lengthens the list and keeps it free of duplicates |
| Storage.FilterAppend | scripts/memory_utils.py:53-60 | filtering keeps order: the filter of a concatenation is the concatenation of the filters |
| Storage.PartitionOfListing | scripts/memory_utils.py:53-60 | core files are exactly the listed `core_` `.txt` names, regular files exactly the other listed `.txt` names, and together they number the `.txt` files |
| Storage.ListingCount | scripts/memory_utils.py:198-199 | `len(files)` over a listing equals the number of `.txt` files in the directory |
| Corruption.Erode | scripts/memory_utils.py:130-133 | the filtered text is never longer than the original |
| Corruption.KeptPositions | scripts/memory_utils.py:130-133 | the positions whose coin exceeds the rate, all within range and strictly increasing |
| Corruption.KeptPositionsComplete | scripts/memory_utils.py:130-133 | every position whose coin exceeds the rate is among the kept positions |
| Corruption.ErodeKeepsPositions | scripts/memory_utils.py:130-133 | the filtered text is the original's characters at exactly the kept positions, in order: a character survives iff its coin is above the rate |
| Corruption.ErodeIsSubsequence | scripts/memory_utils.py:165-168 | corruption only deletes: the result is a subsequence of the original |
| Corruption.ErodeKeepsAll | scripts/memory_utils.py:130-133 | when every coin is above the rate the text survives intact |
| Corruption.ErodeDropsAll | scripts/memory_utils.py:130-133 | when no coin is above the rate (a rate of 1.0, say) the text becomes empty |
| Corruption.SubsequenceTransitive | scripts/memory_utils.py:130-136 | corruption on top of corruption is still only deletion |
| Corruption.SubsequenceNotLonger | scripts/memory_utils.py:130-136 | a subsequence is never longer than the original |
| Corruption.CorruptionChance | scripts/memory_utils.py:157 | `min(0.02 + 0.01·age, 0.3)`: never above 0.3, at least 0.02 for a non-negative age, and linear up to 28 days |
| Corruption.CorruptionRate | scripts/memory_utils.py:164 | `min(0.05 + 0.02·age, 0.4)`: never above 0.4, at least 0.05 for a non-negative age, and linear up to 17.5 days |
| Corruption.AgingMonotone | scripts/memory_utils.py:157-164 | both age formulas are non-decreasing in age |
| Corruption.AgeDaysAntitone | scripts/memory_utils.py:153-154 | age in days grows as the creation time recedes |
| Decay.FileChance | scripts/memory_utils.py:157 | a file is selected with chance 0.05 in the uniform pass (line 123); in the aging pass the chance is at least 0.02 for a file not created in the future, and never above 0.3 |
| Decay.CharRate | scripts/memory_utils.py:164 | a character is deleted with chance 0.1 in the uniform pass (line 131); in the aging pass the rate is at least 0.05 for a file not created in the future, and never above 0.4 |
| Decay.Step | scripts/memory_utils.py:122-141 | one visit neither adds nor removes a file, skips a name that is not there, and draws at least the file coin for one that is |
| Decay.Pass | scripts/memory_utils.py:114-122 | a whole pass neither adds nor removes a file, and a pass over no regular files draws nothing and changes nothing |
| Decay.StepOnlyErodes | scripts/memory_utils.py:122-141 | visiting one file changes no other file, keeps the names, keeps its creation time, only deletes characters, and consumes at least one random value |
| Decay.PassSegmentFrame | scripts/memory_utils.py:122 | the visits of other files leave a file's record as it was |
| Decay.PassOnlyDeletes | scripts/memory_utils.py:122-141 | after a whole pass no file is added or removed, every creation time is kept, and every file's text is a subsequence of its old text |
| Decay.ProtectedUntouched | scripts/memory_utils.py:119-122 | a pass over the regular files of a listing leaves every core file and every non-`.txt` file exactly as it was |
| Decay.Fate | scripts/memory_utils.py:123-136 | what the pass makes of one file: unchanged whenever its file coin is not below the selection chance or its read or write fails, with the creation time always kept |
| Decay.FileFate | scripts/memory_utils.py:122-141 | the `j`-th regular file ends the pass as `Fate` says for the draw index at which the pass reaches it: rewritten with each character kept iff its coin is above the rate exactly when its file coin is below the chance and both reads and writes succeed, otherwise unchanged |
| Decay.StepFate | scripts/memory_utils.py:123-141 | one visit does to its file what `Fate` says |
| Decay.AgingChancesBounded | scripts/memory_utils.py:152-164 | for a file no older than the clock, aging's selection chance lies in [0.02, 0.3] and its deletion rate in [0.05, 0.4], each at least as large for an older file |
| Quota.MemNameIsRegular | scripts/memory_utils.py:186 | `mem_<timestamp>.txt` is a regular `.txt` name |
| Quota.OldestIndex | scripts/memory_utils.py:206 | `min(regular_files, key=ctime)`: an index whose creation time is minimal, with every earlier file strictly newer |
| Quota.Victim | scripts/memory_utils.py:198-206 | a file is chosen iff more than 100 `.txt` files are listed and some regular file is; the file chosen is a listed regular file of minimal creation time |
| Quota.AfterStore | scripts/memory_utils.py:181-211 | `store_memory_block`: no file other than the new one changes, and the only file besides it that can disappear is a regular one |
| Quota.FailedWriteKeepsFiles | scripts/memory_utils.py:188-195 | a write that does not complete returns before the quota step, whichever way it failed: no file disappears, every other file keeps its record, the written name is present afterwards iff it was before or the file was created, and a file never created leaves the directory as it was |
| Quota.FailedWriteSkipsQuota | scripts/memory_utils.py:188-195 | a write that fails once its file exists also returns before the quota step: the new file stays, holding a prefix of the text, and no other file changes or disappears |
| Quota.FailedWriteExceedsQuota | scripts/memory_utils.py:188-199 | so with exactly 100 `.txt` files before it, such a write leaves 101 |
| Quota.EvictsAtMostOne | scripts/memory_utils.py:197-211 | after a completed write at most one file is gone, a listed regular file; every other file, and every core file, keeps its record |
| Quota.EvictsOldest | scripts/memory_utils.py:204-208 | the evicted file has minimal creation time among the listed regular files and is the first such file in listing order |
| Quota.RegularPresentAfterWrite | scripts/memory_utils.py:186-205 | after a successful write the regular list is never empty |
| Quota.TxtCountAfterWrite | scripts/memory_utils.py:189-190 | a write adds at most one `.txt` file |
| Quota.TxtCountAfterRemove | scripts/memory_utils.py:208 | removing a `.txt` file lowers the count by exactly one |
| Quota.QuotaPreserved | scripts/memory_utils.py:188-211 | with at most 100 `.txt` files before a write, at most 100 remain after a write that completes or creates no file and whose removal succeeds, and at most 101 after any single write |
| Quota.FailedRemovalExceedsQuota | scripts/memory_utils.py:207-211 | a completed write whose `os.remove` fails leaves 101 `.txt` files when there were 100 before it |
| Quota.ReadAfterWrite | scripts/memory_utils.py:188-208 | after a completed write the new record holds exactly the text written if and only if the quota did not pick that record as its victim and remove it |
| Quota.WriteBelowQuotaKept | scripts/memory_utils.py:197-199 | a completed write that leaves at most 100 `.txt` files always keeps its record |
| CoreSeeding.CoreFileName | scripts/memory_utils.py:40 | `f"core_{category}_{i:02d}.txt"` is always a core `.txt` name |
| CoreSeeding.CategoryOfCoreFileName | scripts/memory_utils.py:40 | the category can be read back from a core file name, since the index digits hold no `_` |
| CoreSeeding.IndexOfCoreFileName | scripts/memory_utils.py:40 | the index can be read back from a core file name |
| CoreSeeding.CoreFileNameParts | scripts/memory_utils.py:40 | both together |
| CoreSeeding.CoreFileNameInjective | scripts/memory_utils.py:40 | two core files share a name only when they share category and index |
| CoreSeeding.CategoryNamesDistinct | scripts/memory_utils.py:39-40 | the files of one category have pairwise different names, all carrying that category |
| CoreSeeding.SeedEntriesAreCore | scripts/memory_utils.py:38-40 | every name seeded from any category list is a core `.txt` name |
| CoreSeeding.SeedEntriesOrigin | scripts/memory_utils.py:38-40 | every seeded name carries the name of one of the categories |
| CoreSeeding.SeedEntriesDistinct | scripts/memory_utils.py:38-40 | categories of different names give files of pairwise different names |
| CoreSeeding.CoreFileCount | scripts/memory_utils.py:15-34 | `CORE_MEMORIES` yields twelve core files |
| CoreSeeding.SeedAbsent | scripts/memory_utils.py:38-46 | seeding that completes never loses or changes a file that was there |
| CoreSeeding.SeedAbsentKeys | scripts/memory_utils.py:38-46 | seeding adds exactly the entries' names |
| CoreSeeding.SeedAbsentAt | scripts/memory_utils.py:43-46 | the file of an entry whose name is in neither the directory nor earlier in the list holds that entry's text, stamped with the seeding time |
| CoreSeeding.SeedAbsentSpec | scripts/memory_utils.py:38-46 | seeding adds exactly the entries' names, never changes an existing file, and writes each entry whose name is new and not repeated earlier with its own text, stamped with the seeding time |
| CoreSeeding.SeedConcat | scripts/memory_utils.py:38-39 | seeding one category list after another equals seeding their concatenation |
| CoreSeeding.SeedPresentIsNoop | scripts/memory_utils.py:43-44 | seeding a directory that already has every entry's file changes nothing |
| CoreSeeding.SeedIdempotent | scripts/memory_utils.py:36-47 | seeding twice, at any two times, equals seeding once |
| CoreSeeding.SeedFreshDirectory | scripts/memory_utils.py:38-46 | in an empty directory, categories of different names seed every entry with its own text |
| CoreSeeding.SeedEmptyDirectory | scripts/memory_utils.py:15-47 | in an empty directory `store_core_memories()` creates exactly the twelve core files, pairwise distinct, each with its own text |
| CoreSeeding.SeedUpTo | scripts/memory_utils.py:36-47 | seeding whose writes may fail never removes a file |
| CoreSeeding.SeedUpToCompleted | scripts/memory_utils.py:36-47 | a run in which every write completes leaves what `SeedAbsent` says |
| CoreSeeding.SeedUpToAllWritten | scripts/memory_utils.py:36-47 | when every write succeeds the run completes |
| CoreSeeding.SeedUpToConcat | scripts/memory_utils.py:38-39 | running one list of entries and then another is running their concatenation |
| CoreSeeding.SeedUpToSkips | scripts/memory_utils.py:36-47 | no `try`: once a write has failed, no later entry is written |
| CoreSeeding.SeedUpToInterrupted | scripts/memory_utils.py:43-46 | a run that does not complete stopped at an entry whose file was absent and whose write failed; the directory is the seeding of the entries before it plus whatever that write left |
| CoreSeeding.SeedUpToSparesExisting | scripts/memory_utils.py:43-46 | completed or not, seeding keeps every existing file as it was and adds only entry names |
| CoreSeeding.SeedingSparesRegular | scripts/memory_utils.py:40-46 | seeding, completed or cut short, never creates or changes a non-core file |
| Loader.Render | scripts/memory_utils.py:70-92 | every block, whether text or placeholder, contributes a line ending in `"\n"` |
| Loader.CoreBlock | scripts/memory_utils.py:65-73 | the core read contributes the record's text exactly when it does not fail, and never a regular placeholder |
| Loader.RegularBlock | scripts/memory_utils.py:80-93 | a regular read contributes the record's text exactly when it does not fail, and never a core block |
| Loader.FailurePlaceholder | scripts/memory_utils.py:85-92 | a failed regular read contributes a bracketed placeholder. The placeholder does not depend on the file's text and shows at most 30 characters of the message |
| Loader.Pick | scripts/memory_utils.py:66 | the element an index chooses is always an element of the list |
| Loader.Choices | scripts/memory_utils.py:78 | `random.choices(..., k=count)`: exactly `count` draws, each an element of the list |
| Loader.Select | scripts/memory_utils.py:59-78 | a core file is chosen iff the listing has one; the chosen core is a listed core `.txt` file; `DrawCount` draws follow, each a listed regular file |
| Loader.SelectionShape | scripts/memory_utils.py:59-78 | exactly one core record is read iff some listed `.txt` name starts with `core_`; the regular draws are listed regular files and never outnumber them |
| Loader.DrawCount | scripts/memory_utils.py:76-78 | some regular records are drawn exactly when regular files and slots remain (`n - 1` slots with a core file, `n` without), never more than either, and then as many as one of the two: so exactly their minimum |
| Loader.ListedIsReadable | scripts/memory_utils.py:53-82 | every file a load selects exists in the directory the listing enumerates |
| Loader.CoreComesFirst | scripts/memory_utils.py:65-70 | when the core read succeeds, its text and line break open the unstripped context |
| Loader.Context | scripts/memory_utils.py:53-95 | `load_memories_with_priority(n)`: `""` for a directory without `.txt` files, and never beginning or ending with whitespace |
| Loader.CoreOnlyLoad | scripts/memory_utils.py:64-95 | one core file and no regular one load as that file's text alone, stripped, whatever `n` is |
| Loader.RegularOnlyLoad | scripts/memory_utils.py:75-93 | with no core file and at least `n >= 1` regular files, a load is `n` regular blocks, in draw order, repetitions allowed |
| Loader.FullLoad | scripts/memory_utils.py:64-78 | with a core file and at least `n - 1` regular files, a load of `n >= 1` reads one core record and draws `n - 1` regular ones |
| MemoryUtils.CorruptContent | scripts/memory_utils.py:130-133 | the character loop builds exactly `Erode` of the text with the coins drawn from the stream |
| MemoryUtils.MemoryBank.constructor | scripts/memory_utils.py:5-8 | a bank over a directory as it stands |
| MemoryUtils.MemoryBank.StoreCoreMemories | scripts/memory_utils.py:36-47 | the nested loops leave exactly `SeedUpTo` of the old directory over all `CORE_MEMORIES` entries, returning whether every write completed |
| MemoryUtils.MemoryBank.StoreCategories | scripts/memory_utils.py:38 | the outer loop seeds each category's entries in turn and stops at the first failed write |
| MemoryUtils.MemoryBank.StoreCategory | scripts/memory_utils.py:39-46 | the inner loop creates each absent entry of one category in order and stops at the first failed write |
| MemoryUtils.MemoryBank.StoreMemoryBlock | scripts/memory_utils.py:181-211 | the new directory is exactly `AfterStore` of the old one |
| MemoryUtils.MemoryBank.RunPass | scripts/memory_utils.py:122-141 | the loop over the regular files leaves the directory and the draw count that `Pass` gives |
| MemoryUtils.MemoryBank.VisitFile | scripts/memory_utils.py:123-141 | one iteration does what one `Step` does |
| MemoryUtils.MemoryBank.SimulateMemoryDecay | scripts/memory_utils.py:112-141 | the result is `Pass` with the uniform chances; names are kept and core and non-`.txt` files are untouched |
| MemoryUtils.MemoryBank.AgeMemoriesOverTime | scripts/memory_utils.py:143-175 | the result is `Pass` with the age-derived chances; names are kept and core and non-`.txt` files are untouched |
| MemoryUtils.MemoryBank.ReadSelection | scripts/memory_utils.py:64-93 | the loop accumulates the lines of all blocks in order |
| MemoryUtils.MemoryBank.LoadMemoriesWithPriority | scripts/memory_utils.py:49-95 | returns exactly `Context` of the directory, the listing and the oracles, with `n` defaulting to 3 |
| MemoryUtils.MemoryBank.LoadRandomMemories | scripts/memory_utils.py:213-215 | returns the same as `LoadMemoriesWithPriority`, with `n` defaulting to 3 |

## Left out

- Console output: `simulate_floppy_sounds` and every `print`. They change no state.
- `initialize_artistic_simulation` and the call made at import time. Seeding
  is the explicit method `StoreCoreMemories`, and a bank starts from any
  directory through the constructor.
- The real file system: `os.listdir`, `open`, `os.remove`, `os.makedirs`,
  `os.path.exists`. A map stands in for the directory. The listing order,
  and which reads, writes and removals fail, are parameters.
- Quota.QuotaPreserved: the bound of 100 `.txt` files is proved only for
  writes that complete or create no file and whose removal succeeds. The
  code itself does not keep it otherwise, so the lemma proves 101 there. A
  write that fails once its file exists skips the quota step
  (`Quota.FailedWriteExceedsQuota`). A removal that fails is caught and
  leaves the victim in place (`Quota.FailedRemovalExceedsQuota`).
- Text mode. Reading turns `"\r\n"` and a lone `"\r"` into `"\n"`, and writing
  turns `"\n"` into the platform's line separator. The model takes a file's
  text to be the exact string written. For a record holding `"\r"`, the
  loaded text and the number of character coins a decay pass draws differ
  from what the model says.
- What the caller of `store_core_memories` does with the exception a failed
  write raises.
- A failed write in a decay pass leaves the file as it was. The model does
  not cover a write that fails after `open(..., 'w')` has already truncated
  the file.
- Python's pseudo-random generator. Its outputs are oracle parameters, and
  the 0.05, 0.1 and age-formula arithmetic uses exact reals, not binary
  floating point.
- The clock. `datetime.now()` and the `%Y%m%d_%H%M%S_%f` formatting become
  the parameters `now` and `stamp`. In `age_memories_over_time` the clock is
  read once per file; the model uses one `now` for the whole pass.
- `os.path.getctime` is taken as the time a record was created. A decay
  rewrite keeps that time. On platforms where ctime is the last metadata
  change, a rewrite would reset the file's age; the model does not cover this.
- Loader.Render: states only that every block ends in a line break. The
  exact placeholder texts are its definition. `Loader.FailurePlaceholder`
  states their shape.
- `scripts/run_llm.py` and the demo and test scripts are not part of this
  model; they only drive the engine.
