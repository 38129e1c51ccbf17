# Verification of the wallet's crash-safe state and its parsers

This project models the parts of the Ethereum wallet `daxie` where a mistake is expensive, and proves what its
documentation promises of them: a crash-safe transaction journal shared by several processes, the nonce allocator on
top of it, the keystore's index allocator and namespace, and the parsers and printers whose inverses other code relies
on. `dafny verify dfyconfig.toml` checks all of it.

## What is modelled

**The journal and the nonces.** A chain's journal is a file of JSON lines. `JournalRecord` is the record, the
transition and the latest-per-id fold; `JournalFile` is the meaning of file bytes, torn tails included; `JournalStore`
is the store as a class over a `Disk` whose ghost field `seen` collects every content the file ever had during an
operation, so one contract speaks about a crash at any point; `JournalQueries` holds the five queries; `Nonce` the
manager and its leases. Nondeterministic `if *` stands for every failure of the operating system. `World` puts any
number of processes side by side as a state machine over the file's bytes, the cache files and both kinds of locks: a
step is one action of one process (down to one byte of an append), a crash may fall between any two steps, and the
caches may be changed to anything at any time. Its main results speak about whole runs: no visible record is lost,
seqs increase, no nonce is allocated twice, nothing deadlocks. `WorldReset` says what a cache reset is worth to a later
lease of a run; `WorldWitness` builds runs that show where the guarantees end.

**The keystore.** `Keystore` gives each mutation of meta.json as a function on the metadata and proves what it keeps;
`KeystoreStore` is the class with the source's lookups, which walk maps in arbitrary order, and its operations over
meta.json and the secret files, with every way the atomic writes can end;
`KeystoreFrames` says, for each operation, when it is refused and what it does to everything that shows (every place,
watermark and the default); `KeystoreEffects` what it does to later lookups; `KeystoreHistory` runs any sequence of operations and
remembers every index ever materialized. `AccountRef` is the
reference parser with the name and index grammar, and `AccountRefShapes` says which texts it takes for what.

**Parsers and printers.** `PlaintextCodec` and `PlaintextJson` (the wallet plaintext codec against the full grammar of
RFC 8259, sections 2 to 7), `PlaintextUnicode` (which strings it reads as their Unicode text), `Signature`,
`SignatureText` and `SignatureGrammar` (the cast-style signature parser, a printer, and the language accepted),
`Literal` (nested literals), `IntFit` (integer ranges), `Amount` (exact decimal amounts), `Ulid` (the id encoder),
`Calldata` and `CalldataClasses` (the calldata builders against the recognizer, and the recognizer function by
function). `Text` holds what they share.

A Go string or byte slice is a `string` with one `char` per byte (`Calldata` and `Ulid` use byte sequences). Each
cursor parser appears twice: as functions on the text still ahead, and as a class whose methods move the cursor and are
proved to compute those functions; the theorems are about the functions.

## Where the code falls short of what one would expect

Each is proved with an exact condition or a concrete case.

- A rename leaves the stored default alone: it dangles exactly when the default points into the renamed wallet
  (`Keystore.RenameKeepsDefaultIff`), and a later wallet under the old name silently takes it over
  (`KeystoreHistory.RenamedDefaultRebinds`).
- `DeriveNext` has no guard against hardened indexes: it returns one exactly when the watermark is 2^31 or more, and a
  history stays clear of them exactly when no DeriveNext runs at such a watermark (`KeystoreHistory.NextAcceptableIff`,
  `KeystoreHistory.HistoryHardenedIff`); `DeriveIndex` of 2^31-1 is enough to get there
  (`KeystoreHistory.DeriveNextReachesHardened`). The watermark itself is sound until it wraps at 2^32-1
  (`Keystore.NextDerivedValidIff`).
- A standalone account whose name begins with 0x, such as "0xabc", can be created and stored as the default, but no
  text refers to it, and to every other one some text does (`Keystore.ReachableIff`).
- `saveMeta` can report an error after meta.json was renamed into place (`internal/fsx/atomic.go:71-82`), so a reported
  error does not mean that nothing changed. `CreateWallet` and `ImportStandalone` then remove the secret they wrote:
  exactly when that removal goes through is an object left in the metadata without its file
  (`KeystoreStore.CreatedFilesIff`, `KeystoreStore.ImportedFilesIff`).
- A rebroadcast sets a record read earlier, outside the lock, to broadcast (`internal/service/txstatus.go:485-501`), and
  the store does not look at its present status. Two live unforced records share a nonce afterwards exactly when the
  record had failed and its nonce had gone to another one (`World.TransitionUniqueIff`, `World.StampUniqueIff`);
  `WorldWitness.RevivalRun` is such a run. The state machine's guard is that a failed record stays failed.
- A cache reset is there so that a freed nonce is used again (`internal/journal/nonce.go:252-260`). The next lease is the
  journal's next nonce exactly as long as neither the chain nor the value written is ahead of it, and the value gets
  ahead when the newest record fails later on
  (`WorldReset.LeaseAfterReset`, `WorldWitness.StaleResetRun`).
- Seq and nonce successors are uint64 additions; they are fresh exactly below 2^64-1
  (`JournalRecord.NextSeqIsNewestIff`, `Nonce.JournalNextIsFresh`).
- The calldata builders do not bound amounts: beyond 256 bits the amount read back is its leading 32 bytes
  (`Calldata.AmountRecoveredIff`), and the two tests of "unlimited" part exactly when those are all ones
  (`Calldata.UnlimitedAgreeIff`, `Calldata.UnlimitedPartsBeyondWord`).
- The plaintext decoder does not pair surrogate escapes: it reads a JSON string as the text it denotes exactly when the
  string has none (`PlaintextUnicode.DecodedRightIff`).
- An explicit parameter name can equal a generated one (`Signature.NamesDistinctIff`).

Where a comment and the code differ the model follows the code: compaction is said to start when superseded lines
exceed 5000 or the file exceeds 8 MiB (`internal/journal/store_jsonl.go:12-18`), but the comparisons at
`internal/journal/store_jsonl.go:165-170` start it at exactly those values. "5 gwei" is said not to be split
(`internal/ethunit/ethunit.go:22-23`), and is (`Amount.NumberAndWord`). The table at `internal/abi/classify.go:141-142`
gives Permit2 calls a spender and a sentinel; the code gives neither (`CalldataClasses.Permit2Classified`).

## Assumptions

- The record codec (encoding/json) enters as a pair of functions with three properties: decoding inverts encoding, an
  encoded record has no newline, and it begins with a brace and ends with one (`JournalFile.Codec.Valid`).
- `common.HexToAddress`, `common.HexToHash`, HD derivation and key checks are parameters. Function selectors are the
  constants pinned in the source.
- `World` states what callers owe as guards of its steps: a lease journals at most once, a new record's id is new, a
  failed record stays failed, seqs and journaled nonces stay below 2^64-1. Replacement transactions and forced nonces
  reuse a nonce by design, so uniqueness is about unforced leases. In `KeystoreHistory` a UUID is never drawn twice.

## Model

| member | source | states |
|---|---|---|
| JournalRecord.Apply | internal/journal/store.go:233-257 | a mutation never touches version, id, time, seq, chain, account, nonce or the opaque fields |
| JournalRecord.ApplyCarries | internal/journal/store.go:233-257 | each field a mutation carries (status, hash, receipt, both replacement links, error, reservation) arrives in its own field, and each one it does not carry stays |
| JournalRecord.StatusesAre | internal/journal/record.go:20-54 | confirmed, reverted, replaced and failed are the settled statuses, and only a failed record gives its nonce back |
| JournalRecord.ApplyTwice | internal/journal/store.go:233-257 | a mutation is idempotent |
| JournalRecord.FoldLatest | internal/journal/store.go:393-400 | the loop computes the fold |
| JournalRecord.FoldIsLatest | internal/journal/store.go:390-400 | the fold of a file holds, for an id, exactly the last record written under it, and no id that has none |
| JournalRecord.NextLineVisible | internal/journal/store.go:157-181 | a record stamped with the successor of the maximum seq replaces its id's entry and no other exactly when the successor does not wrap around uint64, or the id is new, or its entry has seq 0 |
| JournalRecord.NextSeqIsNewestIff | internal/journal/store.go:157-181 | in a file in seq order the assigned seq is above every line's, and the order is kept, exactly when the maximum is below 2^64-1 |
| JournalRecord.SnapshotKeepsFold | internal/journal/store_jsonl.go:186-219 | a compaction snapshot has the fold, the maximum seq and the seq order of the lines it stands for |
| JournalFile.TornTailIsInvisible | internal/journal/store_jsonl.go:57-86 | bytes after the last newline that are no record change no reader's answer |
| JournalFile.WholeLineIsVisible | internal/journal/store_jsonl.go:115-144 | appending an encoded record to a newline-terminated file adds exactly that record |
| JournalFile.PartialLineIsInvisible | internal/journal/store_jsonl.go:115-144 | after any proper prefix of an appended line every reader still sees the old records |
| JournalFile.RepairKeepsRecords | internal/journal/store_jsonl.go:93-110 | truncating a torn tail keeps every record, from any file bytes |
| JournalFile.EncodedReadsBack | internal/journal/store_jsonl.go:186-219 | the bytes compact writes decode to the snapshot |
| JournalFile.CompactionIsInvisible | internal/journal/store_jsonl.go:155-219 | replacing the file by its snapshot keeps the fold, the maximum seq (hence the next seq assigned) and the seq order |
| JournalStore.Disk.WriteAtomic | internal/fsx/atomic.go:33-83 | a reader, or a crash, at any point sees the old content or the whole new one; success means the new one |
| JournalStore.Disk.AppendBytes | internal/journal/store_jsonl.go:115-144 | a write cut short leaves the old bytes and a prefix of the new ones; an error does not mean absence |
| JournalStore.Store.ReadAll | internal/journal/store_jsonl.go:35-87 | returns exactly the records of the bytes and their maximum seq; with repair it only ever cuts the torn tail |
| JournalStore.ScanLines | internal/journal/store_jsonl.go:50-86 | the line loop returns all decodable records in order, the maximum seq and whether the tail is torn |
| JournalStore.Store.TruncateTornFinal | internal/journal/store_jsonl.go:93-110 | leaves the complete lines, or the file as it was; every content on the way has the same records |
| JournalStore.Store.Compact | internal/journal/store_jsonl.go:186-219 | every content a crash can leave has the old fold, maximum seq and order |
| JournalStore.SortBySeq | internal/journal/store_jsonl.go:191-199 | the in-place exchange sort permutes the snapshot into ascending seq order |
| JournalStore.Snapshot | internal/journal/store_jsonl.go:186-199 | the sorted values of the fold are a snapshot of it, whatever order the map is walked in |
| JournalStore.EncodeAll | internal/journal/store_jsonl.go:200-212 | the buffer is the concatenation of the encoded lines |
| JournalStore.Store.MaybeCompact | internal/journal/store_jsonl.go:155-183 | no content it leaves changes the fold, the maximum seq or the order; success at 5000 or more superseded lines leaves a snapshot, and below that and below 8 MiB nothing is written |
| JournalStore.Store.AddLine | internal/journal/store_jsonl.go:115-183 | every content on the way folds to the old map or to the old map with exactly the new record; success means the record is visible |
| JournalStore.Store.Append | internal/journal/store.go:153-184 | crash atomicity from any file bytes, success implies visible, and the id, time and seq written back are those of the line |
| JournalStore.Store.SetState | internal/journal/store.go:190-214 | the same for a transition; an unknown or empty id leaves every record alone and is an error; after success the fold holds, for the id, the prior record with each carried field in place, the next seq and the new time, and every other record as it was |
| JournalStore.TransitionMoves | internal/journal/store.go:190-214 | the folded record after a transition, field by field; where the seq would wrap around a reader keeps the old record unless that has seq 0 |
| JournalStore.ProgressIsAtomic | internal/journal/store_jsonl.go:115-219 | the step-by-step invariant of a write (no line, part of it, all of it, compacted) implies crash atomicity and seq order |
| JournalQueries.Read | internal/journal/store.go:368-388 | a query folds exactly the bytes on disk |
| JournalQueries.Best | internal/journal/store.go:263-305 | the loop over the fold finds a match of greatest seq, or there is no match |
| JournalQueries.Listing | internal/journal/store.go:329-363 | all matches, each id once, in descending seq order |
| JournalQueries.InsertDesc | internal/journal/store.go:405-407 | inserting keeps the list descending and adds exactly the record |
| JournalQueries.ByReservation | internal/journal/store.go:263-280 | the newest record of the reservation, or not found exactly when there is none |
| JournalQueries.ByHash | internal/journal/store.go:285-305 | the newest record of the transaction hash, or not found |
| JournalQueries.ByID | internal/journal/store.go:310-324 | the latest record of the id, or not found exactly when there is none |
| JournalQueries.Unresolved | internal/journal/store.go:329-343 | all records in a non-terminal state, newest first |
| JournalQueries.List | internal/journal/store.go:348-363 | all records of the account (or of every account), newest first |
| JournalQueries.BestIsUnique | internal/journal/store.go:263-305 | with distinct seqs a query has one possible answer, whatever order the map is walked in |
| JournalQueries.ListingIsUnique | internal/journal/store.go:329-363 | likewise a listing, order included |
| JournalQueries.QueriesSurviveCompaction | internal/journal/store_jsonl.go:155-219 | every lookup and every listing answers the same, in the same order, before and after a compaction |
| JournalQueries.CarriedIsFound | internal/journal/store.go:190-305 | after a successful SetState a lookup by the hash or the reservation it carried gives exactly its record, whatever else has that hash or reservation |
| Nonce.JournalNextIsFresh | internal/journal/nonce.go:114-141 | one past the highest consumed nonce is above all of them exactly when 2^64-1 is not among them |
| Nonce.DerivedIff | internal/journal/nonce.go:97-107 | the derived nonce is the one number that is behind neither the chain, nor the cache, nor the journal, and is one of the three |
| Nonce.DerivedIsFresh | internal/journal/nonce.go:97-107 | the derived nonce repeats no consumed one, whatever chain and cache say |
| Nonce.GaplessIffNothingAhead | internal/journal/nonce.go:97-107 | the derived nonce leaves no gap exactly when neither chain nor cache is ahead of the journal |
| WorldReset.LeaseAfterReset | internal/journal/nonce.go:156-283 | in any run, when an account's cache is reset and nothing else writes it before the next unforced lease, the lease is exactly the nonce the journal calls for if and only if neither the chain nor the reset value is ahead of it; and the reset value is not ahead exactly when it is 0, or the newest record at the reset's fold has not failed by the lease's fold, or a newer one has come |
| WorldReset.LeaseIsLargest | internal/journal/nonce.go:156-210 | in any run an unforced lease is at least the chain's, the cached and the journal's next nonce as of the fold it goes by, and equals one of them |
| WorldReset.CommitWrites | internal/journal/nonce.go:231-239 | a commit moves the cache just past the lease's nonce |
| WorldReset.NextKeptIff | internal/journal/nonce.go:114-141 | between two moments of a run the journal's next nonce has not fallen exactly when nothing was consumed, the newest record did not fail, or a newer one came |
| WorldReset.FoldAfterReset | internal/journal/nonce.go:156-283 | the account lock keeps the two apart: the lease folds the journal after the reset has written |
| WorldWitness.StaleResetRun | internal/journal/nonce.go:261-283 | a run in which the reset value does get ahead: send at nonce 0, reset to 1, the record fails, and the next lease takes 1 although the journal calls for 0 |
| Nonce.MaxU64 | internal/journal/nonce.go:332-340 | the loop returns the maximum of its arguments, 0 for none |
| Nonce.JournalNext | internal/journal/nonce.go:114-141 | the loop over the fold returns the next nonce and whether anything is in flight |
| Nonce.NonceManager.AcquireNonce | internal/journal/nonce.go:156-210 | success hands out a lease holding the lock, on the forced nonce or on the largest of the chain's, the cached (0 if missing) and the journal's next; the warning is given exactly when the chain is ahead of both others with nothing in flight; any failure leaves the lock as it was |
| Nonce.NonceManager.ResetCache | internal/journal/nonce.go:261-283 | the cache is untouched or lowered to the journal's next nonce, and the lock is free again either way |
| Nonce.NonceManager.WriteCache | internal/journal/nonce.go:310-328 | the cache file is the old one or the whole new one |
| Nonce.Lease.Commit | internal/journal/nonce.go:231-239 | moves the cache past the nonce or leaves it, frees the lock once; a second call does nothing |
| Nonce.Lease.Release | internal/journal/nonce.go:243-250 | frees the lock once and leaves the cache |
| World.StepKeepsAccounts | internal/journal/nonce.go:156-250 | in every interleaving the account locks are exactly those the live processes hold |
| World.StepKeepsJournals | internal/fsx/lock.go:19-65 | the journal lock has one writer or any readers, exactly those inside a section |
| World.StepIsAtomic | internal/journal/store_jsonl.go:115-219 | each step of any process leaves every reader's fold alone, but the last byte of a line, which puts in exactly its record; seq order is kept |
| World.StepKeepsFile | internal/journal/store.go:129-181 | what a process inside its section believes about the file stays true through every step of every other process |
| World.CompletionKeepsNonces | internal/journal/nonce.go:86-141 | making a record durable keeps unforced nonces unique and every held or derived nonce above the journal |
| World.RunsKeepInvariant | internal/journal/nonce.go:86-250 | locks, file and nonce invariants hold in every world of every run: any number of processes, crashes anywhere, any chain and cache values |
| World.NoDoubleAllocation | internal/journal/nonce.go:86-250 | no two live records journaled for unforced leases of one account ever carry one nonce, and seqs are strictly increasing in file order |
| World.RecordsPersist | internal/journal/store_jsonl.go:93-219 | over any stretch of a run no visible record is lost, and its id, account, nonce and failure are for good |
| World.TransitionUniqueIff | internal/journal/store.go:190-214 | a transition keeps unforced nonces unique exactly when it does not bring a failed unforced record back to life while another live one of the account carries its nonce |
| World.StampUniqueIff | internal/journal/store.go:190-214 | in any world that satisfies the invariant, the line a SetState is about to write keeps unforced nonces unique exactly under that condition |
| WorldWitness.RevivalRun | internal/service/txstatus.go:485-501 | without the guard there is a run from an empty journal (send, fail, send again, rebroadcast the first) that ends with two live unforced records of one account on one nonce |
| World.WaitingDescends | internal/journal/nonce.go:153-165 | account locks come before journal locks and a journal section waits for nothing: waiting strictly descends a rank |
| World.NoWaitCycle | internal/journal/store.go:124-144 | where lock files and processes match there is no wait-for cycle, and no chain of more than two waits |
| World.RunsHaveNoWaitCycle | internal/journal/store.go:124-144 | so in every world of every run |
| World.OwnStep | internal/journal/nonce.go:153-283 | a busy process that waits for nobody has an enabled step that carries on with its errand: a found record is stamped, written byte by byte and closed, a fold is leased, a lease is released; only a line that may not be written is abandoned |
| World.SomeoneCanStep | internal/journal/nonce.go:153-283 | while any process is busy some process can take a step that brings it strictly nearer to being idle |
| World.RunsNeverGetStuck | internal/journal/nonce.go:153-283 | so in every world of every run |
| PlaintextCodec.EncodePlaintext | internal/keys/codec.go:28-39 | the append loop writes the encoding |
| PlaintextCodec.AppendJsonString | internal/keys/codec.go:44-68 | every byte is copied or escaped as the encoding function says |
| PlaintextCodec.Scanner.StringBytes | internal/keys/codec.go:166-217 | the cursor loop reads one string token, escapes resolved, or fails exactly where the grammar function does |
| PlaintextCodec.Scanner.SkipBracketed | internal/keys/codec.go:259-285 | the one-bracket depth counter consumes what the skip function says |
| PlaintextCodec.DecodePlaintext | internal/keys/codec.go:74-136 | the decoder loop computes the decoding function |
| PlaintextJson.SkipValueOf | internal/keys/codec.go:222-298 | skipValue consumes exactly any value of the RFC 8259 grammar, although skipContainer counts one bracket kind only |
| PlaintextJson.DecodeIsEval | internal/keys/codec.go:74-136 | on any JSON object of the RFC 8259 grammar the decoder returns the last value of each known field, whatever the layout |
| PlaintextJson.UnknownFieldIgnored | internal/keys/codec.go:117-122 | inserting an unknown field with any JSON value at any position leaves the result unchanged |
| PlaintextJson.DecodeInvertsEncode | internal/keys/codec.go:28-136 | decoding inverts encoding for all byte strings; the empty mnemonic, and only it, is refused |
| PlaintextUnicode.DecodedRightIff | internal/keys/codec.go:199-217 | the decoder gives the UTF-8 text a JSON string denotes (RFC 8259 section 7, RFC 3629 section 3) if and only if the string has no surrogate escape |
| PlaintextUnicode.PairDecodesWrong | internal/keys/codec.go:316-337 | every escaped surrogate pair, which denotes a text of its own, is decoded to something else |
| PlaintextJson.StrIff | internal/keys/codec.go:166-217 | a text is taken for a string exactly when it begins with readable pieces between quotes (the escapes of RFC 8259, or any other char), and their bytes and the rest are what is returned |
| Signature.SigParser.Spaces | internal/abi/abi.go:555-559 | the cursor stops at the first char that is no blank |
| Signature.SigParser.ArraySuffix | internal/abi/abi.go:712-728 | reads every "[digits]" and fails exactly on one left open |
| Signature.SigParser.ReadTypeToken | internal/abi/abi.go:684-709 | reads one type with its suffixes and strictly advances |
| Signature.SigParser.ReadArg | internal/abi/abi.go:625-679 | reads one argument, nested tuples included, and strictly advances, so the recursion terminates |
| Signature.SigParser.ReadArgList | internal/abi/abi.go:597-621 | reads the comma-separated list and reports whether any argument is indexed |
| Signature.SigParser.MaybeIdentifier | internal/abi/abi.go:732-752 | reads a name if one starts here, else only skips blanks |
| Signature.ParseSignature | internal/abi/abi.go:475-524 | the parser computes the parsing function, naming applied |
| Signature.NameArgs | internal/abi/abi.go:530-539 | the in-place loop fills names at every depth as the naming function says |
| Signature.NamedIsAllNamed | internal/abi/abi.go:530-539 | after it no argument at any depth is unnamed, which the ABI compiler relies on |
| Signature.NamedKeepsNamed | internal/abi/abi.go:530-539 | a fully named tree is left alone |
| Signature.NamesAre | internal/abi/abi.go:530-539 | an explicit name stays, another argument is called after its position, with "field" inside a tuple |
| Signature.NamingKeepsRest | internal/abi/abi.go:530-539 | naming changes no type, no indexed flag and no tuple shape at any depth |
| Signature.NamesDistinctIff | internal/abi/abi.go:530-539 | names come out distinct exactly when no explicit name repeats or equals the one generated for another position |
| Signature.ExplicitNameCanClash | internal/abi/abi.go:530-539 | an explicit "arg1" before an unnamed second argument does clash |
| SignatureText.ParseInvertsPrint | internal/abi/abi.go:475-752 | for every signature tree and every layout of blanks that keeps its words apart the parser returns exactly that tree, naming applied |
| SignatureGrammar.ParseIff | internal/abi/abi.go:475-752 | the parser accepts a text if and only if, trimmed, it is the written form of some tree, and returns what any such tree means |
| SignatureText.ArgReads | internal/abi/abi.go:625-679 | one written argument is read back in front of any comma or parenthesis |
| SignatureGrammar.ArgAhead | internal/abi/abi.go:625-679 | whatever is read as one argument was the written form of one, nested tuples included |
| Literal.SplitLiteral | internal/abi/coerce.go:387-466 | the method computes the splitting function, errors included |
| Literal.ScanElements | internal/abi/coerce.go:403-458 | the scanning loop cuts the pieces the scan function says and fails where it does |
| Literal.Unquote | internal/abi/coerce.go:471-489 | the loop resolves exactly the escaped quotes and backslashes of a fully quoted element |
| Literal.PiecesIff | internal/abi/coerce.go:381-458 | the splitter returns the one way to cut the text at its separators into pieces whose brackets and quotes close, and fails exactly when there is none |
| Literal.SplitIff | internal/abi/coerce.go:387-466 | a literal splits, into these elements, exactly when it stands, trimmed, between its brackets and they are the trimmed and unquoted pieces of the one cut of its inside, none if that is blank |
| Literal.PaddedElement | internal/abi/coerce.go:387-466 | white space around an element does not count |
| Literal.UnescapeEscape | internal/abi/coerce.go:471-489 | unquoting inverts escaping for every text |
| Literal.UnescapeCases | internal/abi/coerce.go:471-489 | a backslash in front of a quote or a backslash is dropped; in front of any other char, or at the end, it is kept with its char |
| Literal.PrintScans | internal/abi/coerce.go:403-458 | a printed tree is scanned as one piece at any depth, whatever its leaves hold |
| Literal.ReadInvertsPrint | internal/abi/coerce.go:169-213 | printing any tree of arrays and tuples and coercing it back by its type gives exactly the tree |
| Literal.ReadHasType | internal/abi/coerce.go:169-213 | what the descent accepts has the shape of the type: fixed lengths and field counts |
| IntFit.ConvertExactIff | internal/abi/coerce.go:295-355 | the narrowing conversions keep the value exactly on the range checkIntRange accepts |
| IntFit.InRangeIff | internal/abi/coerce.go:295-318 | at every width from 1 to 256 the check lets through exactly what a word of so many bits holds, two's complement or plain, and no other width |
| Amount.ParseDecimalToBase | internal/ethunit/ethunit.go:88-150 | the method with its padding and trimming loops computes the parsing function |
| Amount.LexIff | internal/ethunit/ethunit.go:89-121 | lexing accepts exactly an optional "+", digits and at most one dot with at least one digit, and finds the one reading |
| Amount.ParseIff | internal/ethunit/ethunit.go:88-150 | parsing succeeds exactly on numerals whose value times 10^scale is an integer, and returns it |
| Amount.FormatBase | internal/ethunit/ethunit.go:154-190 | the method with its padding and trimming loops computes the formatting function |
| Amount.FormatIsExact | internal/ethunit/ethunit.go:154-190 | the text stands for exactly n / 10^scale, without trailing fractional or leading integer zeros |
| Amount.ParseInvertsFormat | internal/ethunit/ethunit.go:88-190 | parsing inverts formatting for every amount and scale; a negative amount is never read back |
| Amount.FormatOfParse | internal/ethunit/ethunit.go:88-190 | formatting what was parsed gives the same rational in lowest form |
| Amount.SplitAmountUnit | internal/ethunit/ethunit.go:27-41 | the split is at the end of the leading number chars, both parts trimmed, the unit lowercased |
| Amount.UnitRoundTrip | internal/ethunit/ethunit.go:27-70 | a formatted amount with its unit behind it splits and parses back to the same unit and amount |
| Amount.UnitScale | internal/ethunit/units.go:27-48 | a gwei is 10^9 wei and an eth 10^9 gwei |
| Amount.WholeAmount | internal/ethunit/ethunit.go:52-58 | a whole number of a unit parses to that many times its wei |
| Amount.UnitNameIff | internal/ethunit/units.go:52-73 | "wei", "gwei", "eth" and "ether", in any case and with white space around them, and nothing else |
| Amount.NumberAndWord | internal/ethunit/ethunit.go:27-41 | a number, white space or none, and a word in any case split into just these, the word in lower case |
| Amount.IsDigits | internal/ethunit/ethunit.go:192-202 | true exactly on non-empty digit strings |
| Ulid.EncodeULID | internal/journal/id.go:72-106 | the assigned symbols are the encoding function's |
| Ulid.AlphabetIff | internal/journal/id.go:21-22 | the alphabet is the digits and the capital letters without I, L, O and U |
| Ulid.NewULIDAt | internal/journal/id.go:49-66 | timestamp bytes then entropy; no id when entropy fails |
| Ulid.GroupsAreArithmetic | internal/journal/id.go:75-103 | the masks and shifts of the encoder are division and remainder |
| Ulid.EncodeIsBase32 | internal/journal/id.go:68-106 | the 26 symbols are the base-32 digits of the number the 16 bytes spell in base 256 |
| Ulid.EncodeKeepsOrder | internal/journal/id.go:68-106 | string order is numeric order, and different values have different ids |
| Ulid.TimeOrder | internal/journal/id.go:49-66 | ids of different 48-bit milliseconds sort by time whatever their random suffixes |
| Ulid.TimeOrderBelowLimit | internal/journal/id.go:13-15 | below 2^48 ms string order is time order |
| Ulid.TimeWrapsAtLimit | internal/journal/id.go:50-60 | at 2^48 ms the field wraps and the id sorts before earlier ones |
| Calldata.Pack | internal/erc/erc.go:236-243 | the loop concatenates the selector and the words |
| Calldata.ApproveRecognized | internal/abi/classify.go:149-167 | the recognizer recovers spender and amount from the approve builder's bytes and sets unlimited exactly when IsUnlimitedAmount does |
| Calldata.TransferRecognized | internal/abi/classify.go:184-194 | recipient and amount come back from the transfer builder's bytes |
| Calldata.SafeTransferFromRecognized | internal/abi/classify.go:221-229 | the recipient comes back from either NFT form, for every token id and amount |
| Calldata.AmountRecoveredIff | internal/erc/erc.go:255-260 | for approve and for transfer the amount read back is the amount written exactly when it is below 2^256 |
| Calldata.AnyAmountReads | internal/erc/erc.go:255-260 | for every amount both builders are recognized with their address, and the amount read is all of it or its leading 32 bytes |
| Calldata.UnlimitedAgreeIff | internal/erc/erc.go:133-140 | for every amount the recognizer and IsUnlimitedAmount agree on "unlimited" exactly when the amount is below 2^256 or its leading 32 bytes are not all ones |
| Calldata.UnlimitedPartsBeyondWord | internal/erc/erc.go:133-140 | they do part at 2^264-1 |
| Calldata.TrailingBytesIrrelevant | internal/abi/classify.go:284-339 | bytes after a recognized call never change its classification |
| Calldata.ApproveIsBuilt | internal/abi/classify.go:149-167 | data is recognized as an approve only if it begins with exactly the bytes the builder writes for what was read |
| Calldata.TransferIsBuilt | internal/abi/classify.go:184-194 | the same for a transfer |
| Calldata.ClassIsWhole | internal/abi/classify.go:46-69 | no half-filled result: approvals name no recipient, transfers no spender and no unlimited grant, amounts fit 256 bits |
| Calldata.SelectorRecognized | internal/abi/classify.go:91-105 | no two of the recognized functions share a selector |
| CalldataClasses.ApproveClassified | internal/abi/classify.go:157-167 | approve with any head words, trailing bytes included: spender and amount come back, unlimited exactly for the largest number of 256, 160 or 96 bits |
| CalldataClasses.IncreaseAllowanceClassified | internal/abi/classify.go:169-181 | increaseAllowance: spender and amount, never unlimited |
| CalldataClasses.TransferClassified | internal/abi/classify.go:183-193 | transfer: recipient and amount |
| CalldataClasses.TransferFromClassified | internal/abi/classify.go:195-205 | transferFrom: the second argument is the recipient, the third the amount |
| CalldataClasses.SetApprovalForAllClassified | internal/abi/classify.go:207-218 | setApprovalForAll: the operator, unlimited exactly when granted |
| CalldataClasses.SafeTransferClassified | internal/abi/classify.go:220-228 | the four safe transfers: the second argument is the recipient, and no amount is read |
| CalldataClasses.PermitClassified | internal/abi/classify.go:230-248 | EIP-2612 permit: spender and value, unlimited exactly on a largest value or the largest 256-bit deadline |
| CalldataClasses.PermitDAIClassified | internal/abi/classify.go:250-262 | DAI permit: the spender, unlimited exactly when allowed |
| CalldataClasses.Permit2Classified | internal/abi/classify.go:264-274 | both Permit2 calls: an approval of nobody, never unlimited, whatever the body |
| CalldataClasses.ClassifiedIff | internal/abi/classify.go:149-339 | a call is refused exactly when its head is too short, its counterparty word exceeds 20 bytes or its flag is neither 0 nor 1; no other argument matters |
| CalldataClasses.UnknownIsRefused | internal/abi/classify.go:149-280 | any other selector, or fewer than four bytes, is refused |
| CalldataClasses.SafeTransferWords | internal/erc/erc.go:196-217 | the safeTransferFrom builder puts sender, recipient and token id in their places |
| CalldataClasses.SafeTransferAmountWords | internal/erc/erc.go:196-217 | and with an amount also the amount, the offset of the empty byte string and its length |
| AccountRef.ParseIndexDigitsFirst | internal/domain/account_ref.go:152-174 | accepts exactly the canonical decimal uint32 numerals; the uint64 accumulator cannot overflow |
| AccountRef.ParseDecimalIndex | internal/keys/meta.go:349-366 | the one-pass parser is the same function |
| AccountRef.Uitoa | internal/keys/meta.go:371-383 | the 20-byte buffer suffices and holds the decimal digits of every uint64 |
| AccountRef.IndexKeyIff | internal/keys/meta.go:345-383 | a text parses to an index if and only if it is that index's key |
| AccountRef.ValidNameSegment | internal/domain/account_ref.go:179-195 | true exactly on non-empty strings of the segment charset |
| AccountRef.IndexRefReadsBack | internal/domain/account_ref.go:68-115 | "wallet/index" parses to that wallet and index for every valid name and uint32 |
| AccountRef.AliasRefReadsBack | internal/domain/account_ref.go:68-115 | "wallet/alias" parses to that alias, never to an index |
| AccountRef.NameReadsBackIff | internal/domain/account_ref.go:117-137 | a valid standalone name parses to itself exactly when it does not begin with 0x |
| AccountRefShapes.RefIff | internal/domain/account_ref.go:68-137 | a text is taken for an address, an ENS name, an index, an alias or a name if and only if, trimmed, it has that shape: 0x and 40 hex digits; a stem and ".eth" in any case; wallet, slash and a canonical uint32, or a segment that is none; or a segment |
| AccountRefShapes.ErrorIff | internal/domain/account_ref.go:68-137 | and it is refused with each of the five errors exactly on the texts of that error's shape |
| AccountRefShapes.AddressReadsBack | internal/keys/lookup.go:33-134 | every raw address parses to itself, AddressOf gives it back, and it signs nothing |
| AccountRef.CheckName | internal/keys/meta.go:252-277 | the loop accepts exactly the valid names |
| AccountRef.CheckAlias | internal/keys/meta.go:281-299 | the loop accepts exactly the valid names that are not all digits |
| AccountRef.UnreachableName | internal/keys/meta.go:252-277 | "0xabc" is a valid name, and its own text is refused as a reference |
| Keystore.LookupsAreDeterministic | internal/keys/meta.go:191-235 | lookups that range over a map have one possible answer, and a name is never both a wallet's and a standalone account's |
| Keystore.AliasIndex | internal/keys/account.go:455-474 | an alias resolves to one index whatever order the map is walked in |
| Keystore.SigningAgreesWithAddress | internal/keys/lookup.go:33-134 | the signing lookup and the address lookup accept the same references and agree on the account |
| Keystore.StoredDefaultReadsBack | internal/keys/account.go:405-422 | the stored default parses back to a reference to the same account: always for an HD account, for a standalone one exactly when its name does not begin with 0x |
| Keystore.ReachableIff | internal/keys/meta.go:252-277 | some text refers to a standalone account if and only if its name does not begin with 0x |
| Keystore.NextDerivedValidIff | internal/keys/account.go:17-45 | DeriveNext keeps the watermark above every index exactly while next_index is below 2^32-1 |
| Keystore.IndexDerivedValid | internal/keys/account.go:51-86 | DeriveIndex keeps names, aliases and the watermark consistent |
| Keystore.AliasedValid | internal/keys/account.go:122-150 | Alias keeps aliases unique within the wallet |
| Keystore.CreatedValid | internal/keys/wallet.go:41-124 | a new wallet keeps the namespace unique |
| Keystore.RenamedValid | internal/keys/wallet.go:234-260 | a rename keeps the namespace unique |
| Keystore.ImportedValid | internal/keys/account.go:185-242 | an import keeps the namespace unique |
| Keystore.DeletedValid | internal/keys/account.go:321-371 | deleting keeps names, aliases and watermarks consistent |
| Keystore.DeletedKeepsDefault | internal/keys/account.go:321-371 | deleting an account never leaves the default dangling |
| Keystore.WalletDeletedKeepsDefault | internal/keys/wallet.go:264-292 | deleting a wallet never leaves the default dangling |
| Keystore.SetDefaultNamesAccount | internal/keys/account.go:405-422 | the default set names an existing account |
| Keystore.RenameKeepsDefaultIff | internal/keys/wallet.go:234-260 | a rename keeps the default good exactly when the default does not point into the wallet or the name does not change |
| KeystoreHistory.StepKeepsGood | internal/keys/account.go:17-371 | every operation keeps all invariants and every index ever handed out below its wallet's watermark |
| KeystoreHistory.HistoriesStayConsistent | internal/keys/meta.go:329-345 | from an empty keystore every sequence of operations keeps names and aliases unique and watermarks above every index, and, renames of the default's wallet apart, a set default names an existing account |
| KeystoreHistory.WatermarkNeverFalls | internal/keys/account.go:17-86 | next_index never decreases over any history |
| KeystoreHistory.DeriveNextIsFresh | internal/keys/account.go:17-45 | DeriveNext never returns an index materialized at any earlier time in the wallet, forgotten ones included |
| KeystoreHistory.NeverReused | internal/keys/account.go:17-45 | no two DeriveNext calls of one history return the same index of one wallet |
| KeystoreHistory.NextAcceptableIff | internal/keys/account.go:17-45 | DeriveNext returns an index DeriveIndex would accept exactly when the watermark is below 2^31 |
| KeystoreHistory.StepHardenedIff | internal/keys/account.go:17-86 | an operation materializes the first hardened index exactly when it is a DeriveNext at a watermark of 2^31 or more |
| KeystoreHistory.HistoryHardenedIff | internal/keys/account.go:17-86 | over any history no hardened index is ever materialized exactly when every DeriveNext ran with its watermark below 2^31 |
| KeystoreHistory.DeriveNextReachesHardened | internal/keys/account.go:35-40 | it does happen: DeriveIndex of 2^31-1 makes the next DeriveNext hand out 2^31, which DeriveIndex itself refuses |
| KeystoreHistory.RenamedDefaultRebinds | internal/keys/wallet.go:234-260 | after a rename a new wallet under the old name takes over the stored default |
| KeystoreHistory.FirstWallet | internal/keys/wallet.go:95-110 | creation takes index 0, so the first DeriveNext returns 1 |
| KeystoreEffects.NextDerivedResolves | internal/keys/account.go:17-45 | what DeriveNext returned resolves under that index to the derived address |
| KeystoreEffects.IndexDerivedResolves | internal/keys/account.go:51-86 | the same for DeriveIndex, whether or not the index was there before |
| KeystoreEffects.AliasResolves | internal/keys/account.go:122-150 | a new alias resolves to the index it was given |
| KeystoreEffects.UnaliasForgets | internal/keys/account.go:154-179 | a removed alias resolves to nothing |
| KeystoreEffects.UnaliasUndoesAlias | internal/keys/account.go:122-179 | setting an alias and removing it restores the metadata |
| KeystoreEffects.DeletedIsGone | internal/keys/account.go:321-371 | a deleted reference resolves to nothing and next_index stays what it was |
| KeystoreEffects.RenameMovesAccounts | internal/keys/wallet.go:234-260 | under the new name every index has the address it had under the old |
| KeystoreEffects.ImportIsNew | internal/keys/account.go:185-242 | an import never registers an address the keystore already has, and the new name resolves to it |
| KeystoreFrames.ResolveIff | internal/keys/account.go:455-518 | a reference resolves to a place if and only if that shows its wallet's name in lower case with its index or its very alias, or is the account of its name in lower case |
| KeystoreFrames.CaseDoesNotMatter | internal/keys/meta.go:191-211 | lookups fold the case of wallet and account names |
| KeystoreFrames.CreatedExactly | internal/keys/wallet.go:41-124 | refused exactly on an invalid name, a name held, or no derivation; else index 0 and watermark 1 appear and everything else stays |
| KeystoreFrames.RenamedExactly | internal/keys/wallet.go:234-260 | when it is refused, and that only the name shown at the wallet's places changes |
| KeystoreFrames.WalletDeletedExactly | internal/keys/wallet.go:264-292 | the wallet's places go, the default goes exactly if it is a path into the wallet, and everything else stays |
| KeystoreFrames.NextDerivedExactly | internal/keys/account.go:17-45 | the empty place at the watermark is filled, the watermark steps, every other place keeps name, address and alias |
| KeystoreFrames.IndexDerivedExactly | internal/keys/account.go:51-86 | when it is refused or finds the index there; else only that place and the watermark change |
| KeystoreFrames.AliasedExactly | internal/keys/account.go:122-150 | refused exactly on an invalid alias, no account, or the alias at another index of the wallet; else only that alias changes |
| KeystoreFrames.UnaliasedExactly | internal/keys/account.go:154-179 | refused exactly without an alias; else only that alias changes |
| KeystoreFrames.ImportedExactly | internal/keys/account.go:185-242 | refused exactly on an invalid or held name, a bad key or an address that shows somewhere; else only the new account appears |
| KeystoreFrames.DeletedExactly | internal/keys/account.go:321-371 | only the place resolved goes; every other place keeps name, address and alias, every watermark stays, and the default goes exactly if it is that place's text, by index, alias or name |
| KeystoreFrames.DeletedResolves | internal/keys/account.go:321-371 | every reference to another place still resolves to it |
| KeystoreFrames.DefaultSetExactly | internal/keys/account.go:405-422 | only the default changes, to the text of the place resolved |
| KeystoreStore.FindWallet | internal/keys/meta.go:191-199 | the map loop finds the one wallet of the name, in any visiting order |
| KeystoreStore.FindStandalone | internal/keys/meta.go:203-211 | the map loop finds the one standalone account of the name |
| KeystoreStore.NameTaken | internal/keys/meta.go:216-235 | true exactly when some other object holds the name |
| KeystoreStore.IndexForRef | internal/keys/account.go:455-474 | an HD reference resolves to the materialized index it means, or to none |
| KeystoreStore.AliasUsed | internal/keys/account.go:554-565 | true exactly when another index carries the alias |
| KeystoreStore.AddressTaken | internal/keys/account.go:436-451 | true exactly when some account has the address |
| KeystoreStore.ResolveInfo | internal/keys/account.go:478-518 | the lookup steps compute the resolution function |
| KeystoreStore.CheckWatermark | internal/keys/meta.go:329-345 | the loops report nothing exactly when every key is an index below its wallet's watermark, and else a key that is not |
| KeystoreStore.TripwireIff | internal/keys/meta.go:325-345 | the tripwire accepts whatever the operations leave, and a watermark set back exactly if it is still above every materialized index |
| KeystoreStore.CreatedFilesIff | internal/keys/wallet.go:86-117 | after a new wallet is written out, however the two writes end, every object of the metadata has its secret file exactly unless meta.json was renamed into place, the error came after that, and the clean-up removed the blob |
| KeystoreStore.ImportedFilesIff | internal/keys/account.go:215-239 | the same for an imported key and its file |
| KeystoreStore.DeletedKeepsFiles | internal/keys/account.go:321-371 | what a deletion leaves needs neither the removed object nor its file |
| KeystoreStore.Store.SaveMeta | internal/fsx/atomic.go:33-83 | success means the new metadata; an error means the old metadata or, when it comes after the rename, the new |
| KeystoreStore.Store.CreateWallet | internal/keys/wallet.go:41-198 | refused with the reason and nothing changed; or the new wallet with index 0 and next_index 1 is saved; or the save reports an error and the metadata is the old or that new one. Every object keeps its secret file exactly unless that error came after the rename and the blob was removed |
| KeystoreStore.Store.RenameWallet | internal/keys/wallet.go:234-260 | only the name changes, or nothing; an error of the save leaves the one or the other |
| KeystoreStore.Store.DeleteWallet | internal/keys/wallet.go:264-292 | the wallet and a default pointing into it go, or nothing; the blob goes last, so no object loses its secret |
| KeystoreStore.Store.DeriveNext | internal/keys/account.go:17-45 | materializes next_index and steps it in uint32 arithmetic, or nothing changes; a reported error may leave the index consumed; the metadata stays valid exactly unless next_index wraps |
| KeystoreStore.Store.DeriveIndex | internal/keys/account.go:51-86 | idempotent on a materialized index, refuses hardened ones, raises the watermark past the index; an error of the save leaves the old metadata or the new |
| KeystoreStore.Store.Alias | internal/keys/account.go:122-150 | sets the one alias, or nothing; an error of the save leaves the one or the other |
| KeystoreStore.Store.Unalias | internal/keys/account.go:154-179 | clears and returns the alias, or nothing; an error of the save leaves the one or the other |
| KeystoreStore.Store.ImportStandalone | internal/keys/account.go:185-242 | registers the key under a new name unless name or address is taken; errors of the two writes as for CreateWallet, with the exact condition under which an account is left without its key file |
| KeystoreStore.Store.DeleteAccount | internal/keys/account.go:321-371 | forgets the index or removes the account, and a default naming it, and leaves next_index; the key file goes last |
| KeystoreStore.Store.SetDefault | internal/keys/account.go:405-422 | stores the canonical reference of the account resolved, or nothing; an error of the save leaves the one or the other |

## Left out

- World: liveness beyond "some process can carry on" (fairness, starvation); lock timeouts are acquisitions that fail, not elapsed time.
- JournalStore.Disk.WriteAtomic: power loss and the order in which the device persists writes; only process crashes and failing system calls are modelled, so the syncs have no effect of their own.
- World: a compaction may follow any appended line; the line-count and size thresholds appear in JournalStore.Store.MaybeCompact only.
- JournalQueries.InsertDesc: sort.SliceStable is modelled by stable insertion, since only its result matters.
- JournalStore.Store.Append: directory creation, permissions, chain ids and the warning sinks; one chain's file is modelled.
- Nonce.NonceManager.AcquireNonce: the text of the single-writer warning.
- KeystoreStore.Store.CreateWallet: mnemonics, passphrase checks and encryption; a failing check happens before anything is written and changes nothing. Of a secret file only its presence is modelled.
- KeystoreStore.Store.ImportStandalone: the key file's name, which carries the address and the time; an account's id stands for its file.
- Keystore: creation times, path prefixes and file names in meta.json, and the listings.
- AccountRef: the checksum and the bytes of a raw address; ENS normalization; lowercasing of non-ASCII letters.
- Literal.ReadInvertsPrint: the scalar coercers themselves (integers, booleans, bytes, addresses); leaves are the texts they are handed.
- Signature.ParseSignature: error messages; every error is None.
- Amount.FormatBase: a nil amount, which the source renders as "0".
- Amount: the unbounded scale of the model includes the source's uint8 scales; big.Int division is repeated subtraction.
- Ulid: the entropy source and the clock are parameters.
- Calldata: the keccak hash behind the selectors, and the metadata reads.
- The policy engine, the service layer, network clients, configuration and rendering are not part of this model.
