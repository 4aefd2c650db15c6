# nub: delete duplicate files in a directory, modelled in Dafny

`nub` is a small command-line tool. Given a directory, it:

1. Lists the directory's direct children.
2. Hashes every regular file with SHA-256, through a 1024-byte buffered read loop, and encodes the digest as upper-case hex. It uses that string as the file's grouping key; no digest is ever printed.
3. For every hash shared by several files, keeps the first such file in listing order and removes all the others.
4. Prints one line per removal: "Deleted duplicate of …" on success, "Could not delete file …" on failure.

The run fails only when the directory cannot be listed. Entries that cannot be read, files that cannot be hashed and removals that fail do not stop it.

This project models `delete_duplicate_files`, `file_hash` and `sha256_digest` in `src/main.rs`, and proves what they do:

- The removal plan matches an order-free reference definition ("every file whose hash an earlier file already has").
- This holds whatever order the hash set happens to iterate in.
- The first file of every hash is kept, unchanged (symbolic links aside; see "## Left out").
- Every removal prints exactly one line, and that line says whether the removal succeeded on the initial file system.
- A hash is the upper-case hex of the SHA-256 digest of the whole file, however the reads were split into chunks.

Modules (one per file):

- `Io` (`io.dfy`): bytes, paths, I/O error kinds, `Option` and `Result`.
- `Seqs` (`seqs.dfy`): sequences without repetitions, and how they relate to multisets.
- `Hex` (`hex.dfy`): upper-case base16 (section 8 of RFC 4648) and its decoder.
- `Digest` (`digest.dfy`), for `sha256_digest`:
  - the `Reader` class, a byte stream whose reads may be short or fail;
  - the `Context` class, the bytes fed to the hash so far;
  - the read loop `Sha256Digest`, proved against the pure function `Drain`.
- `Fs` (`fs.dfy`): the file system as a `FileSystem` class. It holds:
  - `nodes`, a path-to-node map that `RemoveFile` updates in place;
  - the directory listings;
  - a `Faults` value that fixes in advance which opens, reads and removals the operating system refuses.
- `Dedup` (`dedup.dfy`): the keep/remove policy over the list of `(hash, path)` records.
  - `Plan(records, order)` is the sequence of removal attempts for one iteration order of the hash set.
  - `Duplicates(records)` is the order-free reference definition.
- `Nub` (`nub.dfy`): the two source functions as methods, `FileHash` and `DeleteDuplicateFiles`.
  - `DeleteDuplicateFiles` is split into `ScanDirectory` and `RemoveAllDuplicates`, with `RemoveDuplicatesOf` as the inner loop, matching the structure of lines 35-43, 49 and 54.
  - The pure functions `Scan` and `Execute` specify them.
  - The `Run*` lemmas describe a complete run.

How the model handles what it cannot see:

- SHA-256 is a parameter `sha: seq<Byte> -> Digest`, so every result holds for any hash function of that type.
- The order in which `HashSet` yields its elements is chosen by `:|` inside `RemoveAllDuplicates`. That method returns it as a ghost `order`, and every lemma about a run holds for every order that lists each hash once.
- The printed lines are returned as a `log` of `Report`s instead of being written to stdout or stderr.

A failed hash is modelled as the code has it: a plain `io::Error` that does not name the failing path.

## Model

| member | source | states |
|---|---|---|
| `Hex.HexUpper` | src/main.rs:72 | the encoding has two characters per byte, all from the upper-case base16 alphabet |
| `Hex.DecodeEncode` | src/main.rs:72 | decoding the hex of any byte sequence gives those bytes back |
| `Hex.HexUpperInjective` | src/main.rs:72 | distinct digests encode as distinct key strings |
| `Digest.NextRead` | src/main.rs:81 | one read fails exactly when its scheduled answer is a failure; otherwise it hands over at most the buffer size and at most what is left, and zero only at end of stream |
| `Digest.Reader.Read` | src/main.rs:81 | `read` copies the next bytes of the stream into the front of the buffer and advances past them; a failed read consumes nothing |
| `Digest.Context.constructor` | src/main.rs:77 | a fresh hash context has been fed nothing |
| `Digest.Context.Update` | src/main.rs:85 | `update` appends the chunk to the bytes fed so far |
| `Digest.Sha256Digest` | src/main.rs:76-89 | the loop returns the result of `Drain` over the reader's initial stream: the digest of everything read, or the first read error |
| `Digest.DrainFeedsStream` | src/main.rs:78-86 | every chunk fed holds between 1 byte and the buffer size (1024 here); together the chunks are a prefix of the stream, and after a clean end they are the whole stream |
| `Digest.DrainStopsAtFirstFailure` | src/main.rs:81 | the answers to the successful reads were not failures; the loop fails exactly when the answer after them is a failure, and with that answer's error |
| `Digest.DrainWithoutFailures` | src/main.rs:80-86 | a stream whose reads never fail is read to its end without error |
| `Digest.DigestIgnoresChunking` | src/main.rs:76-89 | two clean read loops over the same content give the same digest, whatever the short reads and buffer sizes, and it is the SHA-256 of the whole content |
| `Fs.FileSystem.Open` | src/main.rs:69-70 | opening fails with the error of `OpenResult` (missing, refused, or a directory, whose first read would fail); any other node, regular file or device, gives a fresh reader at the start of its bytes, with that path's read answers |
| `Fs.FileSystem.RemoveFile` | src/main.rs:55 | `remove_file` returns the answer of `RemoveResult`; on success the path is gone, and on failure nothing changes |
| `Nub.EnumerateMembers` | src/main.rs:35-38 | a path is enumerated exactly when it is a readable entry of the listing and names a regular file |
| `Nub.EnumerateConcat` | src/main.rs:35-38 | enumeration keeps the listing order |
| `Nub.EnumerateDistinct` | src/main.rs:35-38 | a listing without repeated names enumerates each file at most once |
| `Nub.FileHash` | src/main.rs:67-73 | `file_hash` returns `HashSpec`: the open error, else the first read error, else the upper-case hex of the digest of the bytes read |
| `Nub.HashIsContentDigest` | src/main.rs:67-73 | a successful hash comes only from a path that opens and is not a directory, and it is the 64-character upper-case hex of the SHA-256 of everything the path yields |
| `Nub.HashWithoutFaults` | src/main.rs:67-73 | any path that is not a directory, opens, and whose reads never fail (a regular file, or a device such as `/dev/null`) hashes to the hex digest of its bytes |
| `Nub.SameHashSameDigest` | src/main.rs:67-73 | two successfully hashed files get equal hashes exactly when the SHA-256 digests of their contents are equal |
| `Dedup.RecordsMembers` | src/main.rs:39-43 | a record is kept exactly for a listed file whose hash succeeded, and it carries that hash |
| `Dedup.RecordsConcat` | src/main.rs:39-43 | records keep the file order |
| `Dedup.RecordsDistinct` | src/main.rs:39-43 | distinct files give records with distinct paths |
| `Nub.ScanMembers` | src/main.rs:35-43 | a record is built exactly for a readable entry naming a regular file whose hash succeeded, with that hash |
| `Nub.ScanDistinct` | src/main.rs:35-43 | a listing without repeated names gives records with distinct paths |
| `Nub.ScanDirectory` | src/main.rs:35-43 | the scan loop builds exactly `Scan` of the initial file system: the hashed regular files in listing order |
| `Dedup.HashesOfAll` | src/main.rs:45-48 | the hash set contains the hash of every record |
| `Dedup.FirstIndex` | src/main.rs:50-53 | the index it returns holds the hash, and no earlier record has it |
| `Dedup.SurvivorIndex` | src/main.rs:50-58 | a record that repeats a hash has, before it, a first record with that hash, and that record is the one its removal names |
| `Dedup.GroupMembers` | src/main.rs:50-53 | a group holds exactly the paths recorded with its hash |
| `Dedup.GroupConcat` | src/main.rs:50-53 | a group keeps the record order |
| `Dedup.GroupFirst` | src/main.rs:50-54 | the group of a hash is non-empty exactly when the hash occurs, so `[1..]` is in range; its first member is the first record with that hash |
| `Dedup.GroupsPartition` | src/main.rs:45-53 | taken in any order listing each hash once, the groups together are a permutation of the recorded paths |
| `Dedup.DuplicatesMembers` | src/main.rs:49-60 | the reference removals are exactly the records that have an earlier record with their hash, each paired with the first such record |
| `Dedup.SurvivorsAndDuplicatesPartition` | src/main.rs:49-60 | every record is either kept or a removal target, never both, and as often as it was recorded |
| `Dedup.SurvivorsDistinctHashes` | src/main.rs:45-60 | the kept files cover every hash, and no two of them share one |
| `Dedup.DistinctHashesNoDuplicates` | src/main.rs:49-60 | records with pairwise distinct hashes lead to no removal |
| `Dedup.DuplicateTargetsDistinct` | src/main.rs:49-60 | when the records name distinct files, no file is a removal target twice |
| `Dedup.SurvivorNeverTargeted` | src/main.rs:54 | when the records name distinct files, the first record of a hash is never a removal target |
| `Dedup.PlanMatchesDuplicates` | src/main.rs:45-60 | for any iteration order listing each hash once, the attempts the loops make are a permutation of the reference removals |
| `Dedup.PlanIndependentOfOrder` | src/main.rs:45-49 | two iteration orders of the hash set make the same attempts, up to their order |
| `Dedup.PlanTargetsLaterRecords` | src/main.rs:49-58 | every attempt removes a later record in favour of the first record with the same hash, and every record that repeats a hash is attempted |
| `Dedup.PlanTargetsOnce` | src/main.rs:49-55 | when the records name distinct files, no two attempts share a target, and the targets are those of the reference removals |
| `Dedup.SingletonUntouched` | src/main.rs:49-60 | a file whose hash no other record shares is neither removed nor named as a survivor |
| `Dedup.RerunTargetsNothing` | src/main.rs:45-60 | running the policy again over the kept files removes nothing, in any order |
| `Nub.ExecuteNodes` | src/main.rs:54-60 | after the removals a path is gone exactly when it was a target and removing it from the initial file system succeeds; every other node is unchanged |
| `Nub.ExecuteReportsEach` | src/main.rs:54-60 | every attempt prints exactly one line, in order: "Deleted" with its survivor and target, or "Could not delete" with its target |
| `Nub.ExecuteReports` | src/main.rs:54-60 | when no file is targeted twice, each line reports success or failure as the initial file system decides it |
| `Nub.RemoveDuplicatesOf` | src/main.rs:54-60 | the inner loop extends the file system and log exactly by the attempts on every group member after the first |
| `Nub.RemoveAllDuplicates` | src/main.rs:45-61 | the outer loop visits each distinct hash exactly once, and it leaves the file system and log that `Execute` gives for the `Plan` of that order |
| `Nub.DeleteDuplicateFiles` | src/main.rs:34-64 | a failing `read_dir` returns its error, prints nothing and changes nothing; otherwise the result is `Ok`, and the file system and log are those of executing the `Plan` of the initial scan, for the order the hash set yields |
| `Nub.RunRemoves` | src/main.rs:34-64 | for any iteration order, a file is gone after a run exactly when it repeats the hash of an earlier listed file and removing it succeeds; every other node is unchanged |
| `Nub.RunKeepsEveryHash` | src/main.rs:34-64 | for every hash the scan produced, the first listed file with that hash still exists after the run, unchanged, in any order |
| `Nub.RunReports` | src/main.rs:34-64 | a run prints one line per attempt, in order, and reports a removal as failed exactly when it fails on the initial file system |
| `Nub.RunWithoutDuplicates` | src/main.rs:34-64 | when no two scanned files share a hash, a run removes nothing and prints nothing |

## Left out

- The command line (lines 11-32) is not modelled: argument parsing with `clap`, the `is_dir` check, and printing the final result.
- SHA-256 itself is a parameter of the model. Collision freedom is not assumed, so "same hash" is stated as "same digest" and no stronger.
- The concrete iteration order of `HashSet` is not modelled: it depends on the hasher's random seed. Every result holds for any order that lists each distinct hash once, and the order chosen is returned as a ghost value.
- Symbolic links are not modelled. A link and its target are unrelated paths with separate nodes.
- In the source, `is_file` and `File::open` follow a link (lines 38 and 69), but `remove_file` removes the link itself (line 55). A link listed before its target therefore gets the same hash and survives, and the target is deleted. The link then dangles and the content is gone. The model's "first file of every hash is kept" result does not cover this case.
- Only the operating system's reasons for refusing an open, a read or a removal are modelled, as the fixed `Faults` oracle.
- Any other file-system change between listing, hashing and removing (another process at work) is not modelled.
- Fs.FileSystem.Open: on Unix, opening a directory succeeds and its first read fails with `IsADirectory`. The model reports that error at open instead, which gives `file_hash` the same result. Line 38 never passes a directory to `file_hash` anyway.
- A device or FIFO that blocks on open or read is not modelled. Such a node yields a fixed byte stream; `/dev/null` yields none.
- `BufReader` buffering is not modelled separately. Its effect on `read` is only to change how many bytes each call hands over, which the per-path answer schedule of `Faults` already covers.
- Output streams: stdout and stderr are not distinguished, and the lines are not interleaved with other output. Both kinds of line go into one returned log, told apart by their `Report` constructor.
- The O(n·k) cost of re-filtering the records once per distinct hash is not modelled.
- Nub.RunKeepsEveryHash and Nub.RunReports require a listing that does not name the same entry twice. `read_dir` never does, and with a repeated name a file would be its own duplicate and be removed.
- Dedup.DuplicateTargetsDistinct, Dedup.SurvivorNeverTargeted, Dedup.PlanTargetsOnce and Dedup.SingletonUntouched require records with distinct paths, for the same reason.
- Dedup.SurvivorNeverTargeted is stated over the positions of `Duplicates` rather than as membership of a set of targets. The two say the same thing.
