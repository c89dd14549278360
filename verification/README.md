# Models of the particles runtime, with proofs

This project models, in Dafny, the parts of the particles repository whose
fast, derived or stateful form has to agree with a simple meaning, and proves
that it does. Strings are Go strings: sequences of bytes, one `char` a byte.
Only where a text has been decoded is a `char` a whole character: in
`ByteSize.SizeText`, which is the type of a manifest's sizes, in `Utf8.Decode`
and on the command lines of `LinkWindows`.
A method that takes a mutex or a transaction is one atomic step.

| files | what they model |
|---|---|
| `QuotaFs`, `QuotaLaws`, `MapSums` | The byte-capped filesystem: measure, reserve, run, reconcile as separate steps of any number of threads over one counter; and the wrapper's own methods. A thread holds its file for the length of one operation. Stats may fail; operations may fail or move fewer bytes than asked. Integers are mathematical. |
| `Limiter` | The CPU clock, its intended meaning as time on a timeline, and the watchdog interleaved with every call. |
| `SqlText`, `KvStore`, `KvList`, `KvReadable`, `KvBackends`, `KvLaws` | The SQLite key/value store with its incremental usage counter against the memory store that rescans; prefix listing through `LIKE`. SQLite's `LENGTH` and its character reader are defined down to malformed bytes, and `LIKE` on the characters so read. |
| `Credentials`, `CredentialLaws`, `CredentialsSqlite`, `CredentialsMemory`, `CredentialStores` | What a credentials store holds and answers; two SQL tables with sealed secrets; shared records under two indexes; both driven by the same calls. |
| `Utf8`, `FsPaths`, `PathClean`, `FileView`, `Registry`, `RegistryFs`, `RegistryPut` | The registry's precomputed path and directory index, its filesystem, the in-memory filesystem it must agree with, and the walk that stores a particle. |
| `MountedFs` | The overlay: longest-prefix routing and synthesized directories. |
| `ByteSize`, `SizeUnits`, `Mounts`, `MountLaws` | Manifest validation, sizes included, preopen assembly, and which filesystem then serves a guest path. |
| `Link`, `LinkFlags`, `LinkTrailer`, `LinkShim`, `LinkWindows`, `LinkRun` | One link, written as a length-prefixed trailer and as a shell script, comment included: both denote one argv, which `particle run` reads back. On Windows, the command line the launcher builds from it and what the child reads. |
| `NpmSpec`, `NpmLookup` | `npm:` specifiers as the scanner splits them, and the files in which the bundler looks for them. |
| `PyScan` | Extraction of PEP 723 script blocks. |

Where the source changes something step by step, the model is a class or a
method with the source's loops, proved against a function or predicate; the
properties are proved about that. The modules ending in `Laws`, and `SizeUnits`
and `LinkFlags`, say what these functions mean without naming them: in replies
to later calls, in bytes, in literal names, paths, units and flags.

Things the code does not do in every case, with the exact condition under which
it does:

- The quota counter equals the real file sizes, once everything is reconciled,
  exactly when no write that moved nothing started past the end of its file
  (`QuotaFs.CounterExactIffNoEmptyWritePastEnd`, `QuotaFs.EmptyWriteDrifts`).
  That is with working size measurements; failing ones included, it exceeds the
  file sizes by exactly the run's overcharges
  (`QuotaFs.CounterIsFilesPlusOvercharge`).
- The SQLite and memory key/value stores answer a run alike exactly when no
  write lands between the true total and the drifted counter
  (`KvStore.RepliesAgreeIff`, `KvStore.TwoByteCharacterParts`).
- They list a prefix alike exactly when the prefix cuts no character of a key
  that has it, and no key without the prefix is selected by ASCII case, a NUL
  or a character SQLite reads as U+FFFD (`KvList.ListingsAgreeIff`). On
  well-formed UTF-8 without U+FFFE and U+FFFF only case and NUL remain
  (`KvReadable.ReadableListings`). Failing inputs:
  `KvReadable.CaseFoldingParts`, `CutCharacterParts`, `NoncharacterParts`.
- The registry's index and the plain path map show the same thing exactly when
  no stored path is an ancestor of another (`FileView.ViewsAgreeIff`,
  `FileView.FileAndDirectoryPart`). The comment at
  registry/sqlite/sqlite.go:252-255 says the primary key keeps such pairs out;
  the key is on whole paths and does not. What does keep them out is the walk
  in `Put`: over a filesystem that lists each name once it never writes both
  `a` and `a/b` (`RegistryPut.WalkedIsAllIff`), so such rows come from elsewhere.
- For the same reason a particle comes back from `Put` and `Get` unchanged
  exactly when no path of it is an ancestor of another
  (`RegistryPut.ComesBackIff`). `Put` refuses, and changes nothing, exactly when
  a path it comes to is not UTF-8 (`RegistryPut.Store.Put`).
- The link trailer reads back exactly when every argument is UTF-8 and the
  payload's length fits 32 bits (`LinkTrailer.TrailerReadsBackIff`). A database
  path with a lone surrogate breaks it (`LinkTrailer.SurrogatePathParts`).
- The Unix link is one command, the link's argv and the caller's arguments, if
  every line of its description but the first is empty or a comment; as long as
  no quote or backslash is involved, only then (`LinkShim.ShimRunsArgv`,
  `LinkShim.ShimRunsArgvIff`). The description is written unquoted into the
  script's comment, and a mount's directory may have a newline in its name: what
  follows the newline is then a command (`LinkShim.NewlineMountParts`). Links
  whose mounts, target and tool have no newline are safe
  (`LinkShim.OneLineRunsArgv`).
- The bundler reads and tries files in the directory of the package that the
  scanner recorded, and no others (entries a package.json names aside), exactly
  when every element of the package name is a proper file name and the subpath,
  if there is one, ends strictly below the directory, coming back down by the
  same names as far as it climbs
  (`NpmLookup.BundlerFindsDependencyIff`). Failing inputs:
  `NpmLookup.ClimbingSubpathParts` (`npm:a@1/../b` tries package `b`),
  `NpmLookup.TrailingSlashParts` (`npm:a@1/` takes `node_modules/a.ts`) and
  `NpmLookup.DotPackageParts`.

On Windows a link's argv reaches a child that splits its command line by the
rules of CommandLineToArgvW whenever the particle binary's path holds no quote
and, where it holds a blank, does not end in a backslash; that is so for every
path of an executable (`LinkRun.LinkReachesChild`). The launcher would take any
other argv from a trailer written by hand, and for those the condition is exact
(`LinkWindows.ChildReadsIff`, `LinkWindows.BackslashNameParts`). The exception
comes from the special rule CommandLineToArgvW has for the program's name: a
child that reads the name like any other argument gets every argv.

The cap of the quota filesystem is stated as the code keeps it: when the
wrapped directory is already larger than the cap, `used` stays at most its
seed.

## Model

| member | source | states |
|---|---|---|
| QuotaFs.StepKeepsInv | quotafs/quotafs.go:94-131 | Every atomic step of every thread keeps the books: `used` is real bytes plus unreconciled bytes plus a never-negative drift, each thread's memory of its file is right, and `used` is within the cap or the seed |
| QuotaFs.CapHoldsThroughout | quotafs/quotafs.go:94-131 | In every interleaving from a fresh wrap, real bytes plus unreconciled reservations never exceed `used`, and `used` never exceeds the cap (or the seed, if that was larger) |
| QuotaFs.ClampNeverFires | quotafs/quotafs.go:121-131 | In every interleaving, no release is larger than `used`, so the clamp at zero changes nothing |
| QuotaFs.CounterExactIffNoEmptyWritePastEnd | quotafs/quotafs.go:133-161 | When all is reconciled, `used` is at least what walking the files would find, and equal to it if and only if no write that moved zero bytes began past end of file |
| QuotaFs.CounterIsFilesPlusOvercharge | quotafs/quotafs.go:182-250 | For every run, failed measurements included: when all is reconciled, `used` is exactly what walking the files would find plus, for each step, the bytes it charged that its file does not have |
| QuotaFs.ExcessIsOvercharge | quotafs/quotafs.go:191-310 | What reserving and reconciling leave charged beyond the file's growth is the part of the file the measurement missed, or the gap before an empty write; never negative |
| QuotaFs.DriftOfRun | quotafs/quotafs.go:191-250 | Over a run with working stats the drift never shrinks, and stays put if and only if no such empty write occurs |
| QuotaFs.EmptyWriteDrifts | quotafs/quotafs.go:191-205 | A concrete empty write charges seven bytes no file has |
| QuotaLaws.RefusedIff | quotafs/quotafs.go:108-310 | A call alone is refused exactly when the bytes it could add, from the measured size to the end it asks for, do not fit under the cap; opens and unlinks never |
| QuotaLaws.CallCharges | quotafs/quotafs.go:191-310 | With a working measurement an accepted call changes `used` by exactly what its file grows or shrinks, an empty write past the end by the gap |
| QuotaLaws.DiskDoes | quotafs/quotafs.go:191-310 | What the wrapped filesystem is taken to do: the size of the file after each operation |
| QuotaFs.SizesSum | quotafs/quotafs.go:142-161 | Running an operation changes the total by its own file's change and touches no other file |
| QuotaFs.ReconcileCovered | quotafs/quotafs.go:121-131 | What a thread still has to give back is always part of `used` |
| QuotaFs.SoloIsRun | quotafs/quotafs.go:191-250 | One call on its own keeps the invariant, is refused exactly when its worst case does not fit, and a refusal leaves counter and files alone |
| QuotaFs.EffectIsSolo | quotafs/quotafs.go:191-310 | The four steps of a call in a row have the net effect the wrapper's methods are proved to have |
| QuotaFs.Counter.TryReserve | quotafs/quotafs.go:108-118 | Admits non-positive amounts and whatever still fits, charging only what it admits |
| QuotaFs.Counter.Release | quotafs/quotafs.go:121-131 | Gives bytes back, never below zero |
| QuotaFs.Disk.WalkSize | quotafs/quotafs.go:142-161 | The walk returns the sum of all file sizes, whatever order it visits them in, or fails exactly when something on the way cannot be read |
| QuotaFs.QuotaFs.New | quotafs/quotafs.go:61-67 | Wraps exactly when the walk succeeds; the counter then starts at what the walk found, with no drift |
| QuotaFs.QuotaFs.WriteAt | quotafs/quotafs.go:191-205 | Counter, files, drift and answer after a positioned write are those of the interleaved steps run in turn |
| QuotaFs.QuotaFs.Write | quotafs/quotafs.go:207-227 | The same for a write at the handle's cursor, or at the end when it cannot seek |
| QuotaFs.QuotaFs.Truncate | quotafs/quotafs.go:229-250 | The same for growing and shrinking truncates, failed ones included |
| QuotaFs.QuotaFs.OpenAt | quotafs/quotafs.go:271-291 | The same for an open that may create or truncate |
| QuotaFs.QuotaFs.UnlinkAt | quotafs/quotafs.go:294-310 | The same for removing a file |
| Limiter.UsedIsActiveTime | runtime/limiter.go:178-189 | For every trace, the reading is the number of nanoseconds during which the last call was Start or Resume, up to the first Stop; `done` is closed at most once |
| Limiter.ReplayTracks | runtime/limiter.go:102-176 | After every well-timed trace the clock's fields agree with the timeline |
| Limiter.ActiveTimeMonotone | runtime/limiter.go:178-189 | Active time never decreases and never grows faster than the clock |
| Limiter.FrozenAfterStop | runtime/limiter.go:120-145 | After the first Stop no later call and no later instant changes the reading |
| Limiter.NoBudgetIsInert | runtime/limiter.go:102-189 | Without a budget no call changes anything and the reading is zero |
| Limiter.TrippedMeansOverBudget | runtime/limiter.go:202-235 | In every interleaving of the watchdog with all calls, tripped implies used is at least the budget, at that instant and ever after |
| Limiter.OvershootBound | runtime/limiter.go:215-235 | The reading of the check that trips is below the budget plus the time since the previous check or Start, and it trips exactly when active time has reached the budget |
| Limiter.StepKeepsInv | runtime/limiter.go:102-235 | Every call and every watchdog step keeps clock, timeline and trip flag in agreement |
| Limiter.CpuLimiter.Start | runtime/limiter.go:102-115 | The fields after Start are those of the clock model; inert without a budget |
| Limiter.CpuLimiter.Stop | runtime/limiter.go:120-145 | Banks the running interval once, closes `done` once, returns the total |
| Limiter.CpuLimiter.Pause | runtime/limiter.go:147-158 | Banks the running interval and stops counting |
| Limiter.CpuLimiter.Resume | runtime/limiter.go:163-173 | Counts again unless stopped or already running |
| Limiter.CpuLimiter.ReadUsed | runtime/limiter.go:178-189 | Banked time plus the running interval |
| Limiter.CpuLimiter.Tripped | runtime/limiter.go:202-209 | Reads the trip flag; never tripped without a budget |
| Limiter.CpuLimiter.OverBudget | runtime/limiter.go:222-224 | The watchdog's test at one tick |
| Limiter.DriveLimiter | runtime/limiter.go:102-235 | Any interleaving of callers and watchdog, driven on the object, ends with the clock and trip flag of the system the theorems are about; tripped then means used is at least the budget |
| KvStore.SqlLengthIsByteLengthIff | kv/sqlite/sqlite.go:139-150 | SQLite's LENGTH equals the byte length exactly for strings without NUL and without multi-byte characters |
| KvStore.SetKeepsInv | kv/sqlite/sqlite.go:132-184 | Set keeps every counter equal to its true bytes plus drift and within the quota, and refuses exactly when the new true total plus drift and the replaced row's unseen bytes pass the quota |
| KvStore.DeleteCounts | kv/sqlite/sqlite.go:190-227 | Deleting, and pruning a non-positive counter, keeps the particle's counter right and never raises it |
| KvStore.DeleteKeepsInv | kv/sqlite/sqlite.go:190-227 | Delete keeps every particle's counter right |
| KvStore.CounterCoversStoredBytes | kv/sqlite/sqlite.go:139-227 | For arbitrary strings and every run the counter is at least the stored bytes, so a quota set from the start is never exceeded by stored bytes |
| KvStore.StepTogether | kv/memory/memory.go:72-119 | From equal contents the two stores answer one call alike exactly when it does not fall in the drift gap, and then stay equal |
| KvStore.RepliesAgreeIff | kv/memory/memory.go:72-119 | For arbitrary strings: the two stores answer a whole run alike if and only if no write of it falls in the drift gap |
| KvStore.PlainRunsAgree | kv/memory/memory.go:83-104 | For strings with one byte per character, identical replies to every run, including which Sets exceed the quota |
| KvStore.TwoByteCharacterParts | kv/sqlite/sqlite.go:139-166 | A concrete pair of writes that only the counter refuses |
| KvLaws.ReadsLastWrite | kv/memory/memory.go:72-119 | In every run, in both stores, each Get answers what the last accepted Set of its key wrote, and nothing once the key was deleted |
| KvLaws.QuotaIsOnKeysAndValues | kv/memory/memory.go:83-104 | A quota of zero or less never refuses; otherwise memory refuses exactly the writes after which all keys and values together pass it, and SQLite judges a first write alike |
| KvLaws.TotalIs | kv/memory/memory.go:140-146 | What a particle stores is the bytes of each key and value |
| KvLaws.LengthCountsCharacters | kv/sqlite/sqlite.go:139-150 | On well-formed text without NUL, SQLite's LENGTH is the number of characters |
| KvList.LikeEscape | kv/sqlite/sqlite.go:262-272 | The loop escapes every backslash, percent and underscore |
| KvList.EscapedMatches | kv/sqlite/sqlite.go:255-272 | Under LIKE, escaped characters match exactly themselves up to ASCII case, then the rest of the pattern takes over |
| KvList.EscapedReads | kv/sqlite/sqlite.go:262-272 | Escaping bytes escapes whole characters, never inside one, malformed text included |
| KvList.LikeSelects | kv/sqlite/sqlite.go:233-272 | For all prefixes and keys, malformed ones included, the query selects exactly the keys whose characters extend the prefix's up to ASCII case, with NUL ending both |
| KvList.PrefixIsSelectedIff | kv/sqlite/sqlite.go:233-250 | A key that has the prefix is selected exactly when what follows leaves the prefix's last character reading the same |
| SqlText.ExtendedChars | kv/sqlite/sqlite.go:236-241 | Extending a text changes at most how its last character reads |
| KvList.ListingsAgreeIff | kv/memory/memory.go:121-137 | For all strings: the SQLite listing holds the memory listing if and only if the prefix cuts no character of a key that has it; they are equal if and only if, besides, every selected key really has the prefix |
| KvReadable.ReadsCodePoint | kv/sqlite/sqlite.go:236-241 | SQLite reads well-formed characters other than U+FFFE and U+FFFF for what they are |
| KvReadable.ReadableSelected | kv/sqlite/sqlite.go:233-272 | On well-formed text the query selects by bytes, up to ASCII case and NUL |
| KvReadable.ReadableListings | kv/memory/memory.go:121-137 | On well-formed text SQLite lists all that memory lists, and the listings are equal if and only if no key has the prefix only up to ASCII case or a NUL |
| KvReadable.CaseFoldingParts | kv/sqlite/sqlite.go:233-250 | A concrete key only SQLite lists |
| KvReadable.CutCharacterParts | kv/sqlite/sqlite.go:233-250 | A concrete prefix cut inside a character, whose key only memory lists |
| KvReadable.NoncharacterParts | kv/sqlite/sqlite.go:233-250 | A concrete well-formed key that SQLite alone lists under another character |
| KvBackends.SqliteKv.Set | kv/sqlite/sqlite.go:132-184 | The tables and answer after Set are those of the model the theorems are about |
| KvBackends.SqliteKv.Delete | kv/sqlite/sqlite.go:190-228 | The same for Delete, with the pruning of non-positive counters |
| KvBackends.SqliteKv.List | kv/sqlite/sqlite.go:233-254 | The sorted keys that LIKE selects, or an error exactly when there is a row to compare and the pattern passes 50000 bytes |
| KvBackends.MemoryKv.Set | kv/memory/memory.go:83-104 | The buckets and answer after Set are those of the rescanning model |
| KvBackends.MemoryKv.Delete | kv/memory/memory.go:107-119 | The entry goes, and an emptied bucket with it |
| KvBackends.MemoryKv.List | kv/memory/memory.go:121-137 | The sorted keys that have the prefix |
| KvBackends.MemoryKv.Usage | kv/memory/memory.go:140-146 | The rescan returns the bytes of all keys and values |
| KvBackends.DriveBoth | kv/memory/memory.go:72-119 | Both stores driven through any calls reply as their models do, identically when all strings have one byte per character |
| Credentials.AfterKeepsInv | credentials/credentials.go:75-166 | Every operation keeps one row per name within a particle, and no empty name, method or role |
| Credentials.AnswersUnique | credentials/credentials.go:75-166 | Contents determine the answer of every operation, the sorted listing included |
| Credentials.ListingIsUnique | credentials/sqlite/sqlite.go:208-229 | There is one name-sorted listing of a particle's entries |
| Credentials.IdIsStable | credentials/credentials.go:68-74 | Through any run, until an entry is deleted its name leads to the identifier it was created with |
| Credentials.SecretsAreFromPresentMethod | credentials/sqlite/sqlite.go:271-348 | In every run, each stored secret was written by some operation after which the entry has kept its present method and that secret: none is older than the last method switch |
| Credentials.ReputKeepsSecrets | credentials/sqlite/sqlite.go:271-348 | Putting the same method again keeps the identifier and every secret it does not mention |
| Credentials.HeldAfter | credentials/sqlite/sqlite.go:276-462 | A secret found after any operation is the last value the operation gives for its role, or was there before under the same method |
| Credentials.CheckPut | credentials/sqlite/sqlite.go:277-290 | Put's complaints about its arguments, in the order it makes them |
| Credentials.LastWriteStays | credentials/memory/memory.go:222-226 | Of several values given for one role the last one is stored |
| CredentialLaws.PutRefusal | credentials/sqlite/sqlite.go:277-290 | Put reports nil metadata, an empty name, an empty method and an empty role, in this order, and then changes nothing; otherwise it returns what it was given |
| CredentialLaws.PutThenFind | credentials/credentials.go:75-166 | After a Put its entry is found by the returned identifier and by name, with the data given, its method is configured, and it is listed once |
| CredentialLaws.PutThenRead | credentials/sqlite/sqlite.go:292-346 | After a Put, ReadSecret answers the value last given for the role; a role not mentioned reads as before under the same method and as not set under another |
| CredentialLaws.WriteThenRead | credentials/sqlite/sqlite.go:411-450 | The same for WriteSecrets, with its refusals: an empty role first, then a missing entry |
| CredentialLaws.DeleteThenRead | credentials/sqlite/sqlite.go:353-462 | A deleted secret reads as not set, everything of a deleted entry as not found |
| CredentialLaws.OthersKept | credentials/credentials.go:75-166 | Every other entry answers as before any operation |
| Text.LessIff | credentials/memory/memory.go:165-174 | The order of listings is byte-wise: the smaller byte at the first difference, a proper prefix first |
| Credentials.SortByName | credentials/memory/memory.go:165-174 | The collected entries in name order |
| CredentialsSqlite.SqliteCredentials.constructor | credentials/sqlite/sqlite.go:71-84 | Starts valid and empty, with or without a sealer |
| CredentialsSqlite.SqliteCredentials.Select | credentials/sqlite/sqlite.go:297-305 | Selecting by particle and name finds the one row of that name, if any |
| CredentialsSqlite.SqliteCredentials.GetOne | credentials/sqlite/sqlite.go:179-206 | Looks a row up by identifier and decodes its metadata |
| CredentialsSqlite.SqliteCredentials.GetByName | credentials/sqlite/sqlite.go:185-206 | Looks a row up by name and decodes its metadata |
| CredentialsSqlite.SqliteCredentials.ConfiguredMethod | credentials/sqlite/sqlite.go:257-269 | The method stored under a name, empty when none is |
| CredentialsSqlite.SqliteCredentials.List | credentials/sqlite/sqlite.go:208-229 | The particle's rows in name order |
| CredentialsSqlite.SqliteCredentials.PutRow | credentials/sqlite/sqlite.go:292-331 | Inserts a row under the fresh identifier or updates the named one, its secret rows wiped exactly on a method switch |
| CredentialsSqlite.SqliteCredentials.Upsert | credentials/sqlite/sqlite.go:334-346 | The sealing loop: secrets written in order over those there, readable back |
| CredentialsSqlite.SqliteCredentials.Put | credentials/sqlite/sqlite.go:234-348 | New contents and answer as the store's meaning has them; without a sealer it fails and changes nothing; tables stay free of orphan secrets and duplicate names |
| CredentialsSqlite.SqliteCredentials.Delete | credentials/sqlite/sqlite.go:353-371 | Removes the entry with every secret, leaving no orphan |
| CredentialsSqlite.SqliteCredentials.ReadSecret | credentials/sqlite/sqlite.go:377-405 | Returns the plain secret, or tells a missing secret from a missing entry |
| CredentialsSqlite.SqliteCredentials.WriteSecrets | credentials/sqlite/sqlite.go:411-450 | Writes all the secrets of an existing entry, or refuses and changes nothing |
| CredentialsSqlite.SqliteCredentials.DeleteSecret | credentials/sqlite/sqlite.go:456-462 | Removes one secret, silently when there is none |
| CredentialsSqlite.SqliteCredentials.Do | credentials/sqlite/sqlite.go:111-137 | Any operation: valid tables again, contents and answer as the store's meaning has them |
| CredentialsMemory.Record.StoreAll | credentials/memory/memory.go:222-226 | The loop leaves the secrets written in order over those there |
| CredentialsMemory.Slot.Insert | credentials/memory/memory.go:203-205 | A record goes into both indexes, which stay aliases of each other |
| CredentialsMemory.Slot.Remove | credentials/memory/memory.go:260-261 | A record leaves both indexes |
| CredentialsMemory.MemoryCredentials.SlotFor | credentials/memory/memory.go:106-116 | Finds or makes the particle's slot |
| CredentialsMemory.MemoryCredentials.RecordByID | credentials/memory/memory.go:118-128 | Finds the record under an identifier exactly when the entry exists |
| CredentialsMemory.MemoryCredentials.RecordByName | credentials/memory/memory.go:144-156 | Finds through the name index exactly the entry of that name, the same record the identifier leads to |
| CredentialsMemory.MemoryCredentials.GetByID | credentials/memory/memory.go:134-142 | Answers as the store's meaning has it |
| CredentialsMemory.MemoryCredentials.GetByName | credentials/memory/memory.go:144-156 | Answers as the store's meaning has it |
| CredentialsMemory.MemoryCredentials.ConfiguredMethod | credentials/memory/memory.go:233-245 | Answers as the store's meaning has it |
| CredentialsMemory.MemoryCredentials.List | credentials/memory/memory.go:158-176 | The particle's records in name order, nothing for an unknown particle |
| CredentialsMemory.MemoryCredentials.Rewrite | credentials/memory/memory.go:206-221 | Updating the shared record changes that one entry, wiped on a method switch |
| CredentialsMemory.MemoryCredentials.Put | credentials/memory/memory.go:181-228 | New contents and answer as the store's meaning has them, both indexes still aliases |
| CredentialsMemory.MemoryCredentials.Delete | credentials/memory/memory.go:248-266 | Removes the entry from both indexes and the slot with its last entry |
| CredentialsMemory.MemoryCredentials.ReadSecret | credentials/memory/memory.go:272-287 | Answers as the store's meaning has it |
| CredentialsMemory.MemoryCredentials.WriteSecrets | credentials/memory/memory.go:289-309 | Writes all the secrets of an existing entry, or refuses and changes nothing |
| CredentialsMemory.MemoryCredentials.DeleteSecret | credentials/memory/memory.go:311-324 | Removes one secret, silently when there is none |
| CredentialsMemory.MemoryCredentials.Do | credentials/memory/memory.go:62-88 | Any operation: a valid heap again, contents and answer as the store's meaning has them |
| CredentialStores.RunBoth | credentials/memory/memory.go:181-324 | For every sequence of operations, same fresh identifiers, the two stores return the same replies, and the right ones |
| CredentialStores.RepliesUnique | credentials/credentials.go:75-166 | A run has exactly one right sequence of replies |
| Registry.PutChainTable | registry/sqlite/sqlite.go:271-299 | Walking one more row to the root gives the node table of the longer row set: a child marked a directory exactly when a path lies below it |
| Registry.AddChildMirrors | registry/sqlite/sqlite.go:252-269 | The child buckets stay the node table split by parent directory |
| Registry.MirrorsTable | registry/sqlite/sqlite.go:252-299 | A directory's bucket is exactly its table of children |
| Registry.LoadSnapshot | registry/sqlite/sqlite.go:239-322 | Terminates on any rows; on valid paths its directories are exactly the root and the proper ancestors, each with its strictly sorted listing, a child a directory exactly when a path lies strictly below it |
| Registry.IndexUnique | registry/sqlite/sqlite.go:239-322 | Such an index is unique |
| Registry.RowOrderDoesNotMatter | registry/sqlite/sqlite.go:239-250 | Rows in another order are the same path map, hence the same index |
| FileView.ChildIff | registry/sqlite/sqlite.go:271-322 | A listing holds a child exactly when some stored path equals it or lies below it |
| FileView.ViewsAgreeIff | internal/memfs/memfs.go:51-115 | The index and the plain path map show the same thing under every name if and only if no stored path is an ancestor of another |
| FileView.PrefixFreeAgree | internal/memfs/memfs.go:51-115 | With no such pair, whatever the two show under one name is equal: file bytes, listing, flags, sizes |
| FileView.ConflictDisagrees | internal/memfs/memfs.go:86-110 | With such a pair, some directory is listed differently |
| FileView.FileAndDirectoryPart | registry/sqlite/sqlite.go:252-255 | A concrete pair, `a` and `a/b` |
| FileView.ListingSays | registry/sqlite/sqlite.go:252-299 | A directory lists exactly its children, in byte order: as directories those with a stored path below them, the others as files with their stored length |
| RegistryFs.DbFs.constructor | registry/sqlite/sqlite.go:205-235 | The filesystem's index is the one of its rows |
| RegistryFs.DbFs.Open | registry/sqlite/sqlite.go:403-421 | File, directory, missing or invalid, with bytes and listing, as the path map has it |
| RegistryFs.DbFs.Stat | registry/sqlite/sqlite.go:423-436 | Says what Open would show |
| RegistryFs.DbFs.ReadFile | registry/sqlite/sqlite.go:438-451 | The bytes Open would show, told apart from a name that is no file and an invalid one |
| RegistryFs.DbFs.ReadDir | registry/sqlite/sqlite.go:453-469 | The listing of a directory, told apart from a file, a missing name and an invalid one |
| RegistryFs.MemFs.Scan | internal/memfs/memfs.go:62-98 | One pass over the files finds the directory's own files and the first steps towards deeper ones |
| RegistryFs.MemFs.Open | internal/memfs/memfs.go:51-115 | The scanning filesystem shows file, synthesized directory or nothing as the path map has it |
| RegistryFs.OpenBoth | registry/sqlite/sqlite.go:403-421 | Over the same files, none an ancestor of another, both show the same under every valid name |
| RegistryFs.DbDirHandle.ReadDir | registry/sqlite/sqlite.go:574-588 | From the current offset: everything for a count of zero or less, else at most that many entries, or EOF when none are left; the offset moves by what was returned |
| RegistryFs.MemOpenDir.ReadDir | internal/memfs/memfs.go:228-242 | The same pages as the registry's handle, spelled out again |
| RegistryFs.PagesAreTheListing | registry/sqlite/sqlite.go:574-588 | Whatever counts are asked for, the pages are the listing in order with nothing twice or skipped, and EOF comes only after all of it |
| RegistryPut.WalkDir | registry/sqlite/sqlite.go:168-185 | The walk terminates; it fails exactly when a path it has to read is not UTF-8, and otherwise inserts exactly the paths below the directory that have no stored ancestor, with their bytes, none twice |
| RegistryPut.RowsOf | registry/sqlite/sqlite.go:239-250 | In any order, the rows are distinct paths with their lengths |
| RegistryPut.Store.Put | registry/sqlite/sqlite.go:129-192 | Replaces the entry by what the walk finds, or, exactly when an argument is bad or the walk fails, refuses and leaves the store as it was |
| RegistryPut.Store.Get | registry/sqlite/sqlite.go:205-232 | Missing, or a filesystem over exactly the entry's rows |
| RegistryPut.WalkedIsAllIff | registry/sqlite/sqlite.go:168-185 | The walk keeps every path if and only if none is an ancestor of another, and what it keeps always is of that kind |
| RegistryPut.ComesBackIff | registry/sqlite/sqlite.go:129-235 | Put then Get shows the particle's own tree under every name if and only if no path of it is an ancestor of another |
| RegistryPut.PutThenOpen | registry/sqlite/sqlite.go:129-235 | Put, Get and Open on the objects answer as the particle's own filesystem does |
| PathClean.CleanAbsoluteIff | runtime/manifest.go:443-456 | An absolute path equals its path.Clean exactly when it is "/" or all its elements are proper names |
| PathClean.ElemsAppend | runtime/mounts.go:26-28 | Joining two paths with a slash appends their element lists |
| PathClean.CleanRules | internal/bundle/bundle.go:346-358 | path.Clean drops repeated slashes, ".", a name followed by "..", and ".." at the root |
| PathClean.ValidPathIsClean | runtime/mergedfs.go:30-36 | A name fs.ValidPath accepts is already clean |
| MountedFs.MountFs.RouteToMount | runtime/mergedfs.go:112-139 | For every iteration order, finds the longest matching mount and the path inside it, exactly when some mount matches |
| MountedFs.LongestUnique | runtime/mergedfs.go:112-139 | The longest match is unique |
| MountedFs.RemainderIs | runtime/mergedfs.go:129-138 | Trimming prefix and slash leaves exactly the path inside the mount |
| MountedFs.MountFs.HasMountUnder | runtime/mergedfs.go:144-153 | Finds whether some mount lies below a name |
| MountedFs.MountFs.DirectChildren | runtime/mergedfs.go:159-182 | Each first step towards a mount below the name, once, and nothing else |
| MountedFs.MountFs.Stat | runtime/mergedfs.go:48-62 | Delegated, synthetic, missing or invalid |
| MountedFs.MountFs.Open | runtime/mergedfs.go:30-46 | Delegated, synthetic with its children, missing or invalid |
| MountedFs.OutsideMountsAgree | runtime/mergedfs.go:30-110 | Outside all mounts, Open succeeds, Stat succeeds and the listing is non-empty under the same condition |
| MountedFs.RouteSays | runtime/mergedfs.go:48-153 | In names alone: delegated to the longest mount that is the name or lies above it, with the rest of the name; synthetic exactly above some mount |
| MountedFs.ListingSays | runtime/mergedfs.go:159-182 | A synthetic directory lists exactly the next names on the way to mounts below it |
| MountedFs.ListedIffStats | runtime/mergedfs.go:89-182 | The names a synthetic directory lists, those that are UTF-8, are exactly the children Stat finds, given every mount root can be statted |
| MountedFs.SyntheticDir.ReadDir | runtime/mergedfs.go:215-226 | The next page of the children; past the end an empty page |
| Mounts.OverlapIffComparable | runtime/mounts.go:26-28 | On clean absolute paths, overlapping is one component list being a prefix of the other |
| PathClean.UnderIffElems | runtime/mounts.go:26-28 | Extending a path by a slash and more is properly extending its element list |
| Mounts.MountPathIff | runtime/manifest.go:443-456 | A mount path is accepted exactly when it is a slash before a proper relative path |
| ByteSize.ParseByteSize | runtime/manifest.go:463-499 | The cut loop and the checks after it compute the parse, errors included |
| ByteSize.AcceptedIff | runtime/manifest.go:459-499 | A size is accepted with a number of bytes if and only if it is written as optional plus, digits and unit with white space around, and digits times unit is that number, positive and below 2^63 |
| ByteSize.FitsIff | runtime/manifest.go:490-496 | The overflow test by division is exact |
| SizeUnits.UnitSizes | runtime/manifest.go:459-499 | Digits, white space and a unit are worth the decimal number they write times 1 for no unit or B, 2^10 for KB, 2^20 for MB, 2^30 for GB, in any letter case, if positive and below 2^63 |
| SizeUnits.OtherUnitRefused | runtime/manifest.go:480-491 | Every other unit is refused |
| SizeUnits.NegativeRefused | runtime/manifest.go:492-494 | A number with a minus sign is refused |
| SizeUnits.DigitlessRefused | runtime/manifest.go:465-478 | So is a size without a digit |
| SizeUnits.ValueIsPlaceValue | runtime/manifest.go:479-482 | The number is the one its decimal digits write |
| Mounts.ValidateMountName | runtime/manifest.go:424-438 | Accepts exactly the non-empty names of letters, digits, dash and underscore |
| Mounts.ValidateFilesystem | runtime/manifest.go:366-418 | For every iteration order, accepts exactly the manifests whose declarations are well formed, sizes included, with temp names apart from mount names and all paths distinct across both maps |
| Mounts.BuildMountPreopens | runtime/mounts.go:50-93 | Succeeds exactly when every supplied name is declared, every required mount and every temp is supplied and nothing supplied is nil; then one entry per supplied declaration, read-only ones guarded |
| Mounts.ExposeMounts | runtime/mounts.go:63-80 | The mount loop alone: absent optional mounts skipped, absent required ones refused |
| Mounts.ExposeTemps | runtime/mounts.go:82-91 | The temp loop alone, adding to what the mount loop built |
| Mounts.AssemblePreopens | runtime/particle.go:303-319 | Boots exactly when the mounts can be built and none overlaps a reserved path; then the "/" entry followed by the user entries |
| Mounts.PreopenPathsDistinct | runtime/particle.go:303-319 | For every accepted manifest and mount map, preopen paths are pairwise distinct |
| Mounts.RouteIsUnique | runtime/particle.go:299-306 | Every absolute path is routed to one entry only |
| Mounts.RouteIsInnermost | runtime/particle.go:299-306 | The route goes to the innermost exposed declaration covering the path, with its declared access, and to the runtime's files exactly when there is none |
| Mounts.ReservedUnshadowedIff | runtime/particle.go:311-318 | The overlap check passes if and only if every path at or below a reserved path is routed to the runtime's own entry |
| Mounts.EveryPathServed | runtime/particle.go:299-318 | For every accepted manifest and mount map, every absolute path is served by exactly one entry: the runtime's own at and below each reserved path, a user's at and below each supplied mount, guarded exactly when the innermost mount there is declared read-only |
| Mounts.MountIsReached | runtime/mounts.go:50-93 | Every path at or below a supplied mount goes to a user entry, and the mount's own path to that mount |
| MountLaws.ManifestIff | runtime/manifest.go:366-456 | The filesystem section is accepted if and only if every name is of letters, digits, dash and underscore, every description present, every path absolute and proper below the root, every access known, every temp sized and no mount's namesake, and no path declared twice |
| MountLaws.BootsIff | runtime/mounts.go:11-93 | A particle boots exactly when the supplied names are declared, required mounts and temps supplied, nothing nil, and no supplied declaration equals, lies below or lies above /particle or, under Python, /usr/local/lib/python3.14 or /runtime |
| MountLaws.ReservedIsBuiltin | runtime/mounts.go:11-21 | Once booted, those paths and everything below them are served by the "/" entry |
| MountLaws.PathLeadsToSupplied | runtime/mounts.go:63-91 | The path of a supplied mount or temp leads to the very filesystem supplied, guarded exactly for a read-only mount |
| LinkTrailer.BuildArgs | cmd/particle/link_trailer.go:36-51 | The appends and the mount loop build the link's argv |
| LinkTrailer.EncodeTrailer | cmd/particle/link_trailer.go:35-69 | Writes the length-prefixed argv, the payload length and the magic |
| LinkTrailer.U32RoundTrip | cmd/particle/link_trailer.go:53-68 | Four little-endian bytes read back as the value modulo 2^32 |
| LinkFlags.LinkReadsBack | cmd/particle/run.go:30-58 | The flag parser of `particle run` gets from a link's argv exactly the database, mounts, trace level, particle, tool and caller arguments the link was made with |
| LinkTrailer.TrailerLayout | cmd/particle/link_trailer.go:8-23 | The trailer is the argument count, each argument behind its length, the length of all that, and the eight letters PRTCLNK1 |
| LinkTrailer.LengthBytes | cmd/particle/link_trailer.go:8-19 | Lengths are four bytes, the lowest first |
| LinkTrailer.AcceptedIff | components/win-trampoline/src/main.rs:132-168 | The launcher accepts a file with certain arguments if and only if it ends in a trailer for them and they are UTF-8 |
| LinkTrailer.ItemsReadBack | components/win-trampoline/src/main.rs:147-157 | The launcher's loop recovers the written arguments exactly when all are UTF-8 |
| LinkTrailer.TrailerReadsBackIff | components/win-trampoline/src/main.rs:132-159 | Behind any stub, the launcher reads back exactly the argv if and only if all arguments are UTF-8 and the payload length fits 32 bits |
| LinkTrailer.SurrogatePathParts | components/win-trampoline/src/main.rs:150-156 | A concrete link with a lone surrogate in its database path, whose trailer the launcher does not read |
| LinkWindows.AppendQuoted | components/win-trampoline/src/main.rs:174-212 | The nested loops append the argument as it is or between quotes, with backslashes doubled where a quote follows |
| LinkWindows.ArgsTail | components/win-trampoline/src/main.rs:227-250 | Everything behind the program's name and the blanks after it |
| LinkWindows.QuotedOnlyIf | components/win-trampoline/src/main.rs:180-184 | Only empty arguments and those with a blank or a quote are put between quotes |
| LinkWindows.BuildCommandLine | components/win-trampoline/src/main.rs:322-336 | The quoted prefix, a blank apart, then the caller's tail verbatim |
| LinkWindows.QuotedReads | components/win-trampoline/src/main.rs:172-212 | CommandLineToArgvW reads every quoted argument back as itself, whatever backslashes, blanks and quotes it holds |
| LinkWindows.LineReads | components/win-trampoline/src/main.rs:322-336 | A line of quoted arguments with any tail splits into those arguments and the tail's own |
| LinkWindows.ChildReadsIff | components/win-trampoline/src/main.rs:322-336 | For every argv a trailer may hold and every own command line, a child splitting by the rules of CommandLineToArgvW sees that argv and then the caller's arguments if and only if the program name holds no quote and, where quoted, does not end in a backslash |
| LinkWindows.LineSplitsEvenly | components/win-trampoline/src/main.rs:322-336 | Without a special rule for the program's name, the same for every argv |
| LinkWindows.BackslashNameParts | components/win-trampoline/src/main.rs:197-200 | A concrete hand-made argv whose program name CommandLineToArgvW reads with one backslash too many |
| LinkRun.LinkReachesChild | components/win-trampoline/src/main.rs:314-336 | From the written trailer to the child's arguments: every link whose trailer can be read gives the child exactly its argv, byte for byte, and then the caller's arguments, under the stated condition on the particle binary's path |
| Utf8.DecodedEncodes | components/win-trampoline/src/main.rs:329-330 | Decoding a well-formed argument to characters loses nothing |
| Utf8.ValidIff | components/win-trampoline/src/main.rs:150-156 | Well-formed UTF-8 is exactly what writes some sequence of characters |
| Link.DescribeLink | cmd/particle/link.go:312-330 | The builder's writes and the mount loop produce the description |
| LinkFlags.DescriptionIsArgv | cmd/particle/link.go:308-330 | The description is the argv, one blank between arguments, with `particle` for the binary and without the database |
| LinkShim.ShimScript | cmd/particle/link_unix.go:52-83 | The builder's writes and the mount loop produce the script, its comment included |
| LinkShim.QuotedLiteral | cmd/particle/link_unix.go:89-91 | To a POSIX shell lexer, a quoted literal is exactly its string, whatever characters it holds |
| LinkShim.ShimLayout | cmd/particle/link_unix.go:52-56 | The script starts with the sh interpreter line and the comment, and ends with the exec line |
| LinkShim.TokensDenoteArgv | cmd/particle/link_unix.go:60-80 | The pieces of the exec line denote the argv the trailer encodes |
| LinkShim.ShimRunsArgv | cmd/particle/link_unix.go:52-91 | If every line of the link's description but the first is empty or a comment, the script is one command, whatever its strings hold: `exec`, that argv, then the caller's arguments |
| LinkShim.ShimRunsArgvIff | cmd/particle/link_unix.go:55-60 | For descriptions without quotes and backslashes, if and only if |
| LinkShim.ContinuedNoteRuns | cmd/particle/link_unix.go:55-60 | A concrete description, with a backslash, whose second line is neither empty nor a comment and does no harm: outside that class the condition is not necessary |
| LinkShim.OneLineRunsArgv | cmd/particle/link.go:312-330 | A link without newlines in its mounts, target and tool runs its argv |
| LinkShim.NewlineMountParts | cmd/particle/link.go:233-269 | A concrete mount directory whose name ends up as a command before `exec` |
| NpmSpec.WrittenParses | internal/importscan/importscan.go:407-451 | Anything written from a package name, version and subpath parses back to them |
| NpmSpec.ParseIsLossless | internal/bundle/bundle.go:562-603 | Every specifier accepted with a name is its parts rejoined |
| NpmSpec.BareSplitsBack | internal/bundle/bundle.go:468-486 | Splitting name and subpath put together returns both |
| NpmSpec.MalformedIff | internal/importscan/importscan.go:407-451 | A specifier is malformed exactly without its prefix, with nothing behind it, or with a scope and no package |
| NpmLookup.DependencyIsNamed | internal/importscan/importscan.go:282-305 | A recorded dependency has a name, so the bundler does not call it malformed |
| NpmLookup.ClassifiedIs | internal/importscan/importscan.go:282-305 | Recorded with a version, refused without one, malformed when it does not parse |
| NpmLookup.WalkFrom | internal/bundle/bundle.go:346-358 | Resolving a path from a directory is resolving it alone and placing the result there |
| NpmLookup.ResolveAsFile | internal/bundle/bundle.go:330-341 | The loop finds the first of the path itself and the path with each extension that is a file |
| NpmLookup.ProbesAre | internal/bundle/bundle.go:330-341 | The path itself, then .ts, .tsx, .js, .jsx, .mjs, .cjs and .json |
| NpmLookup.PackageLookup | internal/bundle/bundle.go:346-370 | For a proper name and path, the very package.json files read and files tried, index files included |
| NpmLookup.JoinIsWalk | internal/bundle/bundle.go:346-358 | Joining a path to a cleaned one is walking on over its elements |
| NpmLookup.ProbesInsideIff | internal/bundle/bundle.go:330-341 | All files tried at a path lie in the package's directory if and only if the path lies strictly below it: an extension put on the directory itself leaves it |
| NpmLookup.EntryStaysIff | internal/bundle/bundle.go:358-397 | The files tried for anything joined to the package's directory, a subpath or a package.json entry, lie in it if and only if the name is proper and what is joined ends strictly below |
| NpmLookup.LookupStaysIff | internal/bundle/bundle.go:313-370 | Every package.json read and every file tried, extensions and index files included, lies in the package's directory if and only if the name's elements are proper and the subpath is empty or ends strictly below, re-entering whatever it climbs out of |
| NpmLookup.BundlerFindsDependencyIff | internal/bundle/bundle.go:223-257 | For every recorded dependency the bundler looks in the directory of the recorded package and nowhere else under exactly that condition on the recorded parts |
| NpmLookup.ResolvedFileInside | internal/bundle/bundle.go:313-341 | Under that condition whatever file it settles on, in any filesystem, is the package's |
| NpmLookup.PlainSubpathStaysIff | internal/bundle/bundle.go:346-358 | With a proper name, a subpath without ".." stays in the package if and only if it is empty or names something |
| NpmLookup.ClimbingSubpathParts | internal/bundle/bundle.go:346-358 | A concrete specifier recorded as package a and looked for in package b |
| NpmLookup.TrailingSlashParts | internal/bundle/bundle.go:330-358 | A concrete specifier recorded as package a that takes a file beside that package's directory |
| NpmLookup.DotPackageParts | internal/bundle/bundle.go:223-245 | A concrete specifier the bundler reads as a relative file |
| PyScan.ExtractScriptBlocks | internal/pyscan/pyscan.go:127-194 | The line loop computes the extraction over the scanned lines, errors included |
| PyScan.TakeLine | internal/pyscan/pyscan.go:143-181 | One turn of the loop |
| PyScan.AcceptedIff | internal/pyscan/pyscan.go:127-194 | A source is accepted with certain blocks if and only if it is a well-formed document with exactly those blocks and start lines |
| PyScan.DocExtracts | internal/pyscan/pyscan.go:143-181 | Every well-formed document, of any number of blocks, yields exactly its blocks |
| PyScan.TextScans | internal/pyscan/pyscan.go:136-145 | Text with LF or CRLF breaks scans to its lines |
| PyScan.WrappedBlocksExtracted | internal/pyscan/pyscan.go:127-194 | Any number of bodies wrapped as script blocks, their empty lines written "# " or "#", among lines without an opener, LF or CRLF or no break at the end: exactly those bodies come out, each with the line of its opener |
| PyScan.BadBlockRefused | internal/pyscan/pyscan.go:165-193 | Behind any number of blocks, an unclosed block is reported with its opener's line, a line that is no comment with its own, a line of a megabyte or more as too long |
| PyScan.LongLineRefused | internal/pyscan/pyscan.go:136-187 | A line too long is refused outside a block too |
| PyScan.TerminatedLines | internal/pyscan/pyscan.go:172-177 | A block's body, scanned again, gives its lines |

## Left out

- 64-bit overflow of the quota counter and of `off+len`: integers are mathematical.
- Several operations racing on one file, links, append-mode handles and handles used after their file is unlinked: the quota counter does not track these exactly.
- QuotaFs.CounterExactIffNoEmptyWritePastEnd: assumes that size measurements succeed; `QuotaFs.CounterIsFilesPlusOvercharge` does not.
- Storage failures and context cancellation in the SQLite backends: a transaction is one atomic step.
- KvBackends.SqliteKv.List: the pattern limit is SQLite's default; a build may set another.
- Credentials: sealing is any function of the secret and a nonce that opening undoes, the metadata codec any inverse pair, and a new identifier one the particle does not have yet; failing seals, opens and codecs are not modelled.
- Credentials.AnswersUnique: error messages are reduced to their kind; the index of the first empty role is not kept.
- CredentialsMemory.MemoryCredentials: copying of secret bytes on the way in and out has no counterpart, because values are immutable here.
- Registry List and Delete, version ordering, and staleness of a snapshot after another Put; whether a version parses is an input of `RegistryPut.Store.Put`.
- RegistryPut.WalkDir: the particle walked is the in-memory filesystem over a path map; reads that fail for other reasons than the path are not modelled.
- RegistryPut.ComesBackIff: for particles whose paths are all UTF-8; `Put` refuses any other path it comes to.
- RegistryFs.MemFs.Open: explicit directory entries, file modes and times in the in-memory filesystem are not modelled; for invalid names its error differs from the registry's.
- Registry.LoadSnapshot: for rows whose paths have empty, "." or ".." elements only termination and the file table are stated; `Put` writes none.
- Sorted order and nested mounts in the overlay's listings: the code provides neither.
- MountedFs.MountFs.Open: what the mounted filesystem itself answers after delegation is outside the model.
- Mounts.ValidateFilesystem: which of several errors is reported first is not stated.
- Mounts.RouteIsInnermost: the longest-match resolution of the guest's libc is taken as documented at runtime/particle.go:299-302.
- LinkShim.ShimRunsArgvIff: for descriptions with quotes or backslashes only the "if" is proved (`LinkShim.ShimRunsArgv`); the converse is false there (`LinkShim.ContinuedNoteRuns`).
- LinkShim.ShimRunsArgv: of double quotes the lexer understands only the word `"$@"`, and NUL bytes are ordinary characters.
- NpmLookup.BundlerFindsDependencyIff: node built-ins and externals, and which entries a package.json names (where they lead is `NpmLookup.EntryStaysIff`); node_modules is a path fs.ValidPath accepts.
- LinkFlags.LinkReadsBack: the target is no flag, as registered names are none; other letter cases of a trace level and the flags of other commands are not modelled.
- LinkRun.LinkReachesChild: command lines are sequences of characters, so lone UTF-16 surrogates among the caller's own arguments, NUL units, process creation and job objects are outside; the splitting rules are the documented ones of CommandLineToArgvW, blanks being space and tab.
- PyScan: decoding of the TOML body and the rule that a file has at most one block.
- HTTP policy, OAuth, wasm instantiation, esbuild, JSON Schema, the CLI's commands and prompts.
