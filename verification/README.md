# backupDirs: a verified model of the prune-and-copy core

`backupDirs.py` tidies a backup target in two phases:

- **Prune.** It reads a manifest (`notas.txt`) whose lines starting with `-` name old target directories. It offers to delete each listed directory it finds under the target.
- **Copy.** It offers to copy every directory of the source to the target. Each accepted copy is verified by an MD5 aggregate over all of its files. Only after the source and target aggregates agree does it:
  - append the copied files' digests to a ledger (`checksums.md5`);
  - offer to delete the source.

This project models that core in Dafny and proves what it promises:

| module | file | models |
|---|---|---|
| `PyLib` | `pylib.dfy` | The Python built-ins the core relies on: `str.split`, `filter`/`startswith`, `str.lstrip`, `list.sort` on strings, `list.index`/`list.remove`, `filterfalse`, `upper`/`lower`, and the Windows path join and `splitdrive`. |
| `ByteCodes` | `bytes.dfy` | `str.encode("UTF-8")` on ASCII text. |
| `Prompt` | `prompt.dfy` | The single-key confirmation loop. |
| `Ledger` | `ledger.dfy` | `writeToMD5File`, and a reader for the ledger it writes. |
| `DirectoryHash` | `dirhash.dfy` | `getHashofDirs`: the directory walk, the 64 KiB block loop and the aggregate digest. |
| `Manifest` | `manifest.dfy` | Manifest parsing in `removeOldTargets`. |
| `Prune` | `prune.dfy` | The loop of `removeOldTargets` over the target's children. |
| `Copy` | `copy.dfy` | The loop of `copyNewTargets` over the source's children. |

The outside world becomes input data:

- **MD5** is a parameter `md5: seq<bv8> -> RawDigest`. Any function yielding 16 bytes will do.
- **The filesystem.** A directory tree is a value (`Entry`). Each child of the target or the source carries what the filesystem does to it: whether `copytree` raises, what tree the second walk finds, whether opening the ledger raises, and whether `rmtree` raises. An exception is reduced to its first argument, as a string.
- **The ledger file** is its text, passed in and returned.
- **The keyboard** is a sequence of keys, each one a `readkey()` result, and a position in it. If the keys run out while the program awaits one, the real program would wait for ever. The model then sets `blocked` and leaves everything else as it was at that point.
- **Loops as folds.** Each loop of the two phases is a method with a `for` loop. Its invariant ties the loop's lists to a left fold (`Run`) of a one-child step function (`Step`). The properties are then proved about the fold.

Where the code does something other than what a reader of its purpose might expect, the model follows the code:

- **Manifest order.** The manifest lines are sorted *before* `lstrip('- ')` is applied, and `lstrip` keeps trailing spaces. A manifest with lines `- Foo`, `-Bar`, `baz` and `-  Qux  ` therefore names `"Qux  "`, `"Foo"`, `"Bar"`, in that order, and not `Bar`, `Foo`, `Qux` (`Manifest.ExampleManifest`).
- **Duplicate names.** The prune lists are not mutually exclusive when a name is listed twice. Such a name stays reported as not found even when its directory is deleted (`Prune.DuplicateListedName`, `Prune.DuplicateDeletedExample`).
- **Hash mismatch.** On a mismatch the code calls the list `copyFailed(item.name)`. The call raises a TypeError, which the `except` records as `(name, "'list' object is not callable")`. The name is then in both `copiedSources` and `copyFailed` (`Copy.MismatchFailsBoth`).
- **No silent mode.** Every decision goes through a keypress; there is no non-interactive mode in the code.

## Model

| member | source | states |
|---|---|---|
| `PyLib.Split` | backupDirs.py:61 | `item.split("\n")`: at least one piece, and no piece contains the separator |
| `PyLib.JoinSplit` | backupDirs.py:61 | joining the pieces with the separator gives back the text |
| `PyLib.SplitJoin` | backupDirs.py:61 | splitting a join of separator-free pieces gives back the pieces |
| `PyLib.FilterStartsWith` | backupDirs.py:61 | every kept line starts with `-`, and each such line is kept exactly as often as it occurs |
| `PyLib.LStrip` | backupDirs.py:66 | the result is a suffix of the line; everything removed is a strip character; the result does not start with one |
| `PyLib.LStripUnique` | backupDirs.py:66 | those three properties determine the stripped line uniquely |
| `PyLib.StrLeTotal` | backupDirs.py:63 | Python's string order is total |
| `PyLib.StrLeTransitive` | backupDirs.py:63 | Python's string order is transitive |
| `PyLib.StrLeAntisymmetric` | backupDirs.py:63 | two strings ordered both ways are equal |
| `PyLib.SortStrings` | backupDirs.py:63 | `list.sort()` yields a sorted permutation of the lines |
| `PyLib.SortedUnique` | backupDirs.py:63 | two sorted permutations of the same lines are equal, so the sort result is unique |
| `PyLib.IndexOf` | backupDirs.py:82 | `list.index`: the position holds the value and no earlier position does |
| `PyLib.RemoveFirst` | backupDirs.py:82 | `list.remove` takes away the first occurrence of the value; the elements before and after it keep their order |
| `PyLib.Without` | backupDirs.py:98 | `filterfalse(b.__contains__, a)` keeps every element of `a` not in `b` with its multiplicity, and drops the rest |
| `PyLib.WithoutAppend` | backupDirs.py:98 | filtering a concatenation filters each part, so the kept elements stay in the order of `a` |
| `PyLib.WithoutKeepsOrder` | backupDirs.py:98 | each element of `a`, in its place, is kept exactly when it is not in `b` |
| `PyLib.JoinPathParts` | backupDirs.py:37 | `os.path.join(root, fileName)`: the directory, then one `\` unless the directory is empty or already ends with a separator, then the name |
| `PyLib.PureJoinParts` | backupDirs.py:110-124 | the paths `iterdir()` yields and `PurePath(targetPath, item.name)` builds: a base of `.` or the empty base gives the bare name, which `os.path.join(".", name)` does not; any other base is joined as `os.path.join` joins it |
| `PyLib.StripDrive` | backupDirs.py:43 | `os.path.splitdrive(p)[1]`: a path whose second character is `:` loses its two-character drive, which is exactly what is cut off; any other path is unchanged |
| `Prompt.Confirmation` | backupDirs.py:83-86 | the re-prompt loop ends at the first key whose upper case is S, N or L, and returns it; it skips every key before it; it never ends if no such key remains |
| `Prompt.ReadConfirmation` | backupDirs.py:83-86 | the `while` loop computes exactly the answer and next key position that `Confirmation` specifies |
| `Prompt.YesIsS` | backupDirs.py:87 | `capitalize() == 'S'` on an upper-cased key holds exactly for the key S |
| `Prompt.NoLikeIsNotYes` | backupDirs.py:87 | N and L are never taken as yes |
| `Prompt.ConfirmationIgnoresNL` | backupDirs.py:84-87 | keyboards that differ only between N and L end the loop at the same key, with the same yes/no outcome |
| `Prompt.SingleKeyIgnoresNL` | backupDirs.py:130-131 | the single key after a verified copy means yes on both such keyboards or on neither |
| `Ledger.WriteToMD5File` | backupDirs.py:18-21 | the new ledger text is the old text followed by one `<digest> *.<path>` line per entry, in order; the old text is untouched |
| `Ledger.LedgerTextAppend` | backupDirs.py:20-21 | writing two lists of entries one after the other writes the lines of their concatenation |
| `Ledger.ParseLedgerText` | backupDirs.py:21 | the lines written for readable entries read back as those entries, ahead of whatever follows |
| `Ledger.LedgerRoundTrip` | backupDirs.py:21 | reading what the writer wrote gives back exactly the entries |
| `Ledger.AppendKeepsEntries` | backupDirs.py:19-21 | appending to a readable ledger keeps its earlier entries and adds the new ones after them |
| `DirectoryHash.HexOf` | backupDirs.py:43-44 | `hexdigest()` has two lower-case hex digits per byte |
| `DirectoryHash.HexRoundTrip` | backupDirs.py:43-44 | reading the `hexdigest()` text back, two digits per byte and high nibble first, gives the digest's bytes, so different digests have different hex texts |
| `ByteCodes.AsciiBytes` | backupDirs.py:44 | `.encode("UTF-8")` of ASCII text, such as a hex digest, yields one byte per character, holding that character's code |
| `DirectoryHash.Md5Hasher.constructor` | backupDirs.py:34 | a fresh hasher has been fed nothing |
| `DirectoryHash.Md5Hasher.Update` | backupDirs.py:41 | `update(buf)` appends `buf` to the bytes fed so far |
| `DirectoryHash.ReadBlock` | backupDirs.py:39 | `read(BLOCKSIZE)` returns the next at most 64 KiB of the file, and nothing only at its end |
| `DirectoryHash.HashFile` | backupDirs.py:38-42 | the block loop feeds exactly the file's bytes, in order, to the file's hasher |
| `DirectoryHash.GetHashOfDirs` | backupDirs.py:24-54 | -1 exactly for a missing path; -2 exactly when some file cannot be read; otherwise one `(digest, path without drive)` entry per file in walk order, and the MD5 of their concatenated hex digests |
| `DirectoryHash.FilesInAppend` | backupDirs.py:32-33 | `os.walk` lists a directory's own files in listing order: the files of a listing `a + b` are those of `a`, then those of `b` |
| `DirectoryHash.SubdirsAppend` | backupDirs.py:32-33 | the sub-directories are walked in listing order, each completely before the next |
| `DirectoryHash.WalkOrder` | backupDirs.py:32-33 | top-down order for any listing, files and sub-directories mixed: a directory's walk is all its own files in listing order, then the whole walk of each sub-directory in listing order; the aggregate digest depends on this order |
| `DirectoryHash.WalkVisitsEveryFile` | backupDirs.py:32-37 | the walk yields each file of the tree, with its joined path, bytes and readability, exactly as often as a plain descent of the tree finds it: nothing is missed or repeated |
| `DirectoryHash.EmptyDirectory` | backupDirs.py:31-54 | a directory without files hashes to the MD5 of nothing, with no entries |
| `DirectoryHash.HashedDigestsAreHex` | backupDirs.py:43-44 | every digest returned is 32 hex digits, so the ledger lines read back whenever the paths hold no line break |
| `DirectoryHash.StreamDeterminesDigests` | backupDirs.py:44 | the aggregate hasher's input determines the list of per-file digests, and the other way round |
| `DirectoryHash.SamePayloadSameDigest` | backupDirs.py:32-54 | two walks that read the same bytes in the same order both fail, or yield the same aggregate digest |
| `DirectoryHash.FaithfulCopyHashesEqual` | backupDirs.py:120-127 | a byte-for-byte copy at another path yields the same aggregate digest as its source |
| `Manifest.ManifestNames` | backupDirs.py:58-66 | one name per `-` line, duplicates kept; each is its sorted raw line without the leading dashes and spaces, and trailing characters stay |
| `Manifest.ParseManifest` | backupDirs.py:63-66 | the filter, sort and strip loop computes `ManifestNames` |
| `Manifest.ManifestNamesOfSorted` | backupDirs.py:63-66 | stripping any sorted arrangement of the `-` lines gives the same names |
| `Manifest.ExampleManifest` | backupDirs.py:59-66 | lines `- Foo`, `-Bar`, `baz`, `-  Qux  ` give `"Qux  "`, `"Foo"`, `"Bar"` |
| `Prune.RemoveOldTargets` | backupDirs.py:57-100 | the loop's three lists, key position and blocking are those of the fold; not-deleted is the remaining `selDirs` minus anything still not found |
| `Prune.IgnoredChild` | backupDirs.py:80 | a non-directory or an unlisted name changes nothing |
| `Prune.VisitMarksFound` | backupDirs.py:82 | a listed directory that is reached loses exactly one occurrence from not-found, whatever the answer |
| `Prune.RemovalOnlyAfterS` | backupDirs.py:80-90 | `rmtree` is attempted only on a listed directory not matched before and answered S: for every other child its outcome changes nothing |
| `Prune.DeleteGate` | backupDirs.py:80-92 | a name is deleted and leaves `selDirs` exactly when it is a listed directory, not yet matched, the accepted key is S, and `rmtree` did not raise |
| `Prune.RunKeepsBooks` | backupDirs.py:74-92 | throughout the loop, remaining plus deleted equals the listed names, and not-found stays within the remaining names |
| `Prune.BlockedStays` | backupDirs.py:86 | once the keys run out, nothing changes any more |
| `Prune.DeletedWereRemovedDirs` | backupDirs.py:80-92 | every deleted name is listed and belongs to a directory child whose removal succeeded |
| `Prune.NotFoundMeaning` | backupDirs.py:74-82 | for distinct names, a name is not found exactly when it is listed and no directory child carries it |
| `Prune.Partition` | backupDirs.py:98-100 | for distinct names, deleted, not-deleted and not-found are pairwise disjoint and together are the listed names |
| `Prune.NotFoundLowerBound` | backupDirs.py:77-82 | over the loop, a name leaves not-found at most once per directory child of that name |
| `Prune.DuplicateListedName` | backupDirs.py:77-98 | a name listed more than once, with at most one directory of that name in the target, is still reported as not found at the end, and never as not deleted, whether or not its directory was deleted |
| `Prune.DuplicateDeletedExample` | backupDirs.py:80-98 | for the manifest `a`, `a` and one directory `a` answered S, `a` is reported as deleted and as not found, and nothing as not deleted |
| `Prune.NothingListedPresent` | backupDirs.py:77-82 | a target without any listed directory is left alone: no prompt, nothing deleted, every name not found |
| `Prune.RunIgnoresNL` | backupDirs.py:84-87 | N and L lead to the same prune result |
| `Copy.CopyNewTargets` | backupDirs.py:103-146 | the loop's four lists, the ledger, the key position and blocking are those of the fold; the 5-tuple repeats `copiedSources` |
| `Copy.StepCases` | backupDirs.py:114-140 | only a first S leads on to hashing and copying; any other answer leaves deleted, copied, failed and the ledger as they were |
| `Copy.DeleteGate` | backupDirs.py:127-133 | a source is deleted exactly when the first key is S, both walks succeed, the copy does not raise, the digests are equal, the ledger opens, the single next key is S, and `rmtree` does not raise |
| `Copy.AcceptedDeleteGate` | backupDirs.py:127-133 | the same gate, once the first answer was S |
| `Copy.CopiedGate` | backupDirs.py:118-126 | a name enters `copiedSources` exactly when the first key is S, both walks succeed and the copy does not raise, whether or not the digests agree |
| `Copy.AcceptedCopiedGate` | backupDirs.py:120-126 | the same gate, once the first answer was S |
| `Copy.DeclinedNotCopied` | backupDirs.py:138-140 | an N or L answer puts the name in `notCopied` and touches nothing else |
| `Copy.MismatchFailsBoth` | backupDirs.py:126-137 | a digest mismatch puts the name in `copiedSources` and in `copyFailed` with the TypeError's message; the ledger is unchanged, and no second key is read |
| `Copy.SourceWalkFails` | backupDirs.py:120-144 | a failing source walk records the unpacking TypeError; nothing is copied |
| `Copy.TargetWalkFails` | backupDirs.py:124-144 | a failing target walk records the unpacking TypeError; the source is not counted as copied and nothing is written or deleted |
| `Copy.LedgerOpenFails` | backupDirs.py:126-144 | a ledger that cannot be opened after a verified copy is recorded with its first argument; the source counts as copied, the ledger is unchanged and no second key is read |
| `Copy.RemovalFails` | backupDirs.py:128-144 | a raising `rmtree` after the second S is recorded with its first argument; the source is not counted as deleted and the ledger was already appended to |
| `Copy.RemovalOnlyWhenVerified` | backupDirs.py:118-133 | `rmtree` is attempted only after a first S, a verified copy, a ledger that opened and a second key that is S: in every other case its outcome changes nothing |
| `Copy.CopyErrorRecorded` | backupDirs.py:122-144 | a raising `copytree` is recorded with its first argument; nothing is copied, written or deleted |
| `Copy.FaithfulCopyDeletes` | backupDirs.py:118-134 | a byte-for-byte copy is deleted after two S answers when the filesystem cooperates, and its entries are appended to the ledger |
| `Copy.StepRecords` | backupDirs.py:112-144 | every directory reached is recorded: declined in `notCopied`, otherwise in `copiedSources` or `copyFailed` |
| `Copy.LedgerStep` | backupDirs.py:127-128 | the ledger gains the target's entries after a verified copy whose ledger opens, and nothing otherwise |
| `Copy.DeleteStep` | backupDirs.py:126-133 | a step deletes only a verified copy, and deleted stays within copied |
| `Copy.DeletedOnlyIfVerified` | backupDirs.py:126-133 | over the whole loop, every deleted source is a directory with equal source and target digests and a successful removal, and deleted stays within copied |
| `Copy.LedgerAppendOnly` | backupDirs.py:128 | the ledger text before the loop remains its beginning |
| `Copy.StepIgnoresNL` | backupDirs.py:115-131 | N and L lead to the same step |
| `Copy.RunIgnoresNL` | backupDirs.py:115-131 | N and L lead to the same copy result |

## Left out

- **Filesystem effects.** `os.path.exists`, `os.walk`, `iterdir`, `open`, `copytree` and `rmtree` are not performed. Trees and per-child outcomes are inputs instead.
- **Partial filesystem operations.** A `copytree` or `rmtree` that fails half-way is only an exception; the partial tree it leaves is not modelled. The same holds for a ledger write that fails after some lines.
- **Errors inside the walk.** A directory `os.walk` cannot list is skipped silently by `os.walk`; the model's tree is what the walk sees. Only an unreadable file yields -2.
- **A root that is a file** rather than a directory is not modelled.
- **Read sizes.** `read(65536)` is taken to return a full block while at least that much remains. Short reads from the operating system are not modelled.
- **MD5 internals** (`hashlib`): MD5 is a parameter.
- **Output.** `print`, `printExceptionDetails`, `traceback.print_exc` and the `verbose` branches only produce output.
- **`main`** only fixes paths and prints a summary.
- **The manifest read.** A manifest that cannot be opened ends the program; the model takes the file's text. Universal-newline translation of `\r\n` is not modelled.
- **The ledger's bytes.** The ledger is Python-level text. `writeToMD5File` opens it in text mode (`"a+"`), so on Windows each `\n` is written as `\r\n`, in the locale's encoding; neither translation is modelled.
- **Text handling.** `upper`, `lower` and `capitalize` are modelled on ASCII letters only.
- **Paths.** Paths follow Windows conventions with `\` as separator. UNC paths and drive-relative joins are not modelled. Of the normalisations `pathlib` applies, only dropping a `.` base is modelled; collapsing repeated separators and `.` parts inside a base are not.
- **Exception arguments.** An exception's `args[0]` is reduced to a string. An exception without arguments, which would make the `except` clause itself raise, is not modelled.
- **Exhausted keys.** When the keys run out, the real program waits for ever. The model stops acting and reports `blocked`.
- Prune.NotFoundMeaning: stated only for distinct manifest names and a run that did not run out of keys. With duplicates the property fails (see `Prune.DuplicateListedName`).
- Prune.Partition: stated only for distinct manifest names, for the same reason.
