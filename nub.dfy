/**
 * `delete_duplicate_files` and `file_hash`: list a directory, hash every
 * regular file, and remove every file whose hash an earlier file already has.
 *
 * The run is split the way the source is: a scan of the directory that builds
 * the (hash, path) records over the initial file system, and the removal
 * loops, which change the file system one `remove_file` at a time. The lines
 * the source prints are collected, in order, as the `Report`s of the run.
 */
module Nub {
  import opened Io
  import opened Seqs
  import opened Digest
  import opened Hex
  import opened Fs
  import opened Dedup

  // ----- Listing the directory -----

  /**
   * The paths `read_dir` yields that could be read and name a regular file,
   * in listing order.
   */
  function Enumerate(listing: seq<Listed>, nodes: map<Path, Node>): seq<Path>
  {
    if listing == [] then []
    else
      var earlier := Enumerate(listing[..|listing| - 1], nodes);
      var item := listing[|listing| - 1];
      if item.Entry? && IsRegular(nodes, item.path) then earlier + [item.path] else earlier
  }

  /** A directory never lists the same name twice. */
  predicate DistinctNames(listing: seq<Listed>) {
    forall i, j :: 0 <= i < j < |listing| && listing[i].Entry? && listing[j].Entry? ==>
      listing[i].path != listing[j].path
  }

  /** Exactly the readable entries that are regular files are kept. */
  lemma {:induction false} EnumerateMembers(listing: seq<Listed>, nodes: map<Path, Node>, p: Path)
    ensures p in Enumerate(listing, nodes) <==> Entry(p) in listing && IsRegular(nodes, p)
  {
    if listing != [] {
      var init := listing[..|listing| - 1];
      assert listing == init + [listing[|listing| - 1]];
      EnumerateMembers(init, nodes, p);
    }
  }

  /** Enumeration keeps the listing order: entries listed earlier come first. */
  lemma {:induction false} EnumerateConcat(a: seq<Listed>, b: seq<Listed>, nodes: map<Path, Node>)
    ensures Enumerate(a + b, nodes) == Enumerate(a, nodes) + Enumerate(b, nodes)
  {
    if b == [] {
      assert a + b == a;
    } else {
      var init := b[..|b| - 1];
      assert (a + b)[..|a + b| - 1] == a + init;
      assert (a + b)[|a + b| - 1] == b[|b| - 1];
      EnumerateConcat(a, init, nodes);
    }
  }

  /** Distinct names give distinct files. */
  lemma {:induction false} EnumerateDistinct(listing: seq<Listed>, nodes: map<Path, Node>)
    requires DistinctNames(listing)
    ensures NoDup(Enumerate(listing, nodes))
  {
    if listing != [] {
      var init, last := listing[..|listing| - 1], listing[|listing| - 1];
      assert DistinctNames(init) by {
        forall i, j | 0 <= i < j < |init| && init[i].Entry? && init[j].Entry?
          ensures init[i].path != init[j].path
        {
          assert init[i] == listing[i] && init[j] == listing[j];
        }
      }
      EnumerateDistinct(init, nodes);
      var earlier := Enumerate(init, nodes);
      if last.Entry? && IsRegular(nodes, last.path) {
        assert last.path !in earlier by {
          EnumerateMembers(init, nodes, last.path);
          if Entry(last.path) in init {
            assert false;
          }
        }
        NoDupAppend(earlier, last.path);
      }
    }
  }

  // ----- Hashing one file -----

  /**
   * What `file_hash` returns for `p`: the error of `File::open`, the first
   * read error of `sha256_digest`, or the upper-case hex of the SHA-256
   * digest of the bytes read.
   */
  function HashSpec(nodes: map<Path, Node>, faults: Faults, p: Path, sha: Sha256): Result<string>
  {
    match OpenResult(nodes, faults, p)
    case Err(e) => Err(e)
    case Ok(content) =>
      match DigestOf(Drain(content, AnswersFor(faults, p), BufferSize), sha)
      case Err(e) => Err(e)
      case Ok(digest) => Ok(HexUpper(digest))
  }

  /** `file_hash` as a function of the path, over a fixed file system. */
  function Hasher(nodes: map<Path, Node>, faults: Faults, sha: Sha256): Path -> Result<string>
  {
    p => HashSpec(nodes, faults, p, sha)
  }

  /** `file_hash`: open, digest through a buffered reader, encode as upper-case hex. */
  method FileHash(fs: FileSystem, path: Path, sha: Sha256) returns (r: Result<string>)
    ensures r == HashSpec(fs.nodes, fs.faults, path, sha)
  {
    var file := fs.Open(path);
    match file
    case Err(e) =>
      r := Err(e);
    case Ok(reader) =>
      var digest := Sha256Digest(reader, sha);
      match digest
      case Err(e) =>
        r := Err(e);
      case Ok(d) =>
        r := Ok(HexUpper(d));
  }

  /**
   * A hash is only ever produced for a path that opens, never a directory, and
   * it is the 64-digit upper-case hex of the SHA-256 digest of everything the
   * path yields.
   */
  lemma HashIsContentDigest(nodes: map<Path, Node>, faults: Faults, p: Path, sha: Sha256)
    requires HashSpec(nodes, faults, p, sha).Ok?
    ensures IsReadable(nodes, p) && p !in faults.openFails
    ensures HashSpec(nodes, faults, p, sha).value == HexUpper(sha(nodes[p].content))
    ensures |HashSpec(nodes, faults, p, sha).value| == 64
  {
    DrainFeedsStream(nodes[p].content, AnswersFor(faults, p), BufferSize);
  }

  /**
   * A path that opens and whose reads never fail always hashes to the digest
   * of what it yields: a regular file's bytes, or a device's stream.
   */
  lemma HashWithoutFaults(nodes: map<Path, Node>, faults: Faults, p: Path, sha: Sha256)
    requires IsReadable(nodes, p) && p !in faults.openFails
    requires forall k :: 0 <= k < |AnswersFor(faults, p)| ==> AnswersFor(faults, p)[k].Upto?
    ensures HashSpec(nodes, faults, p, sha) == Ok(HexUpper(sha(nodes[p].content)))
  {
    DrainWithoutFailures(nodes[p].content, AnswersFor(faults, p), BufferSize);
    DrainFeedsStream(nodes[p].content, AnswersFor(faults, p), BufferSize);
  }

  /** Two files get the same hash exactly when the SHA-256 digests of their contents agree. */
  lemma SameHashSameDigest(nodes: map<Path, Node>, faults: Faults, p: Path, q: Path, sha: Sha256)
    requires HashSpec(nodes, faults, p, sha).Ok? && HashSpec(nodes, faults, q, sha).Ok?
    ensures HashSpec(nodes, faults, p, sha) == HashSpec(nodes, faults, q, sha)
        <==> sha(nodes[p].content) == sha(nodes[q].content)
  {
    HashIsContentDigest(nodes, faults, p, sha);
    HashIsContentDigest(nodes, faults, q, sha);
    if HashSpec(nodes, faults, p, sha) == HashSpec(nodes, faults, q, sha) {
      HexUpperInjective(sha(nodes[p].content), sha(nodes[q].content));
    }
  }

  // ----- The scan -----

  /** The records `delete_duplicate_files` collects, all hashed over the initial file system. */
  function Scan(nodes: map<Path, Node>, faults: Faults, listing: seq<Listed>, sha: Sha256): seq<Record>
  {
    Records(Enumerate(listing, nodes), Hasher(nodes, faults, sha))
  }

  /**
   * A record is kept exactly for a readable entry naming a regular file whose
   * hash succeeded, and it carries that hash.
   */
  lemma ScanMembers(nodes: map<Path, Node>, faults: Faults, listing: seq<Listed>, sha: Sha256, r: Record)
    ensures r in Scan(nodes, faults, listing, sha) <==>
      && Entry(r.path) in listing && IsRegular(nodes, r.path)
      && HashSpec(nodes, faults, r.path, sha) == Ok(r.hash)
  {
    RecordsMembers(Enumerate(listing, nodes), Hasher(nodes, faults, sha), r);
    EnumerateMembers(listing, nodes, r.path);
  }

  /** Distinct names give records for distinct files. */
  lemma ScanDistinct(nodes: map<Path, Node>, faults: Faults, listing: seq<Listed>, sha: Sha256)
    requires DistinctNames(listing)
    ensures NoDup(Paths(Scan(nodes, faults, listing, sha)))
  {
    EnumerateDistinct(listing, nodes);
    RecordsDistinct(Enumerate(listing, nodes), Hasher(nodes, faults, sha));
  }

  // ----- Executing the removals -----

  /** One line of output: `Deleted duplicate of original: duplicate`, or `Could not delete file path`. */
  datatype Report = Deleted(original: Path, duplicate: Path) | CouldNotDelete(path: Path)

  /** The file system after a sequence of removals, and the lines they printed. */
  datatype Outcome = Outcome(nodes: map<Path, Node>, log: seq<Report>)

  /** The line printed for one attempt, when `nodes` decides whether the removal succeeds. */
  function Reported(nodes: map<Path, Node>, removeFails: set<Path>, a: Attempt): Report
  {
    if RemoveResult(nodes, removeFails, a.target).Ok? then Deleted(a.survivor, a.target)
    else CouldNotDelete(a.target)
  }

  /**
   * The removal attempts one after the other, each on the file system the
   * earlier ones left; a failed removal is reported and the loop goes on.
   */
  function Execute(nodes: map<Path, Node>, removeFails: set<Path>, attempts: seq<Attempt>): Outcome
  {
    if attempts == [] then Outcome(nodes, [])
    else
      var o := Execute(nodes, removeFails, attempts[..|attempts| - 1]);
      var a := attempts[|attempts| - 1];
      if RemoveResult(o.nodes, removeFails, a.target).Ok? then
        Outcome(o.nodes - {a.target}, o.log + [Deleted(a.survivor, a.target)])
      else
        Outcome(o.nodes, o.log + [CouldNotDelete(a.target)])
  }

  /**
   * After the removals a path is gone exactly when it was a target and
   * removing it from the initial file system succeeds; every other path keeps
   * its node.
   */
  lemma {:induction false} ExecuteNodes(nodes: map<Path, Node>, removeFails: set<Path>, attempts: seq<Attempt>, p: Path)
    ensures var o := Execute(nodes, removeFails, attempts);
      && (p in o.nodes <==> p in nodes && !(p in Targets(attempts) && RemoveResult(nodes, removeFails, p).Ok?))
      && (p in o.nodes ==> o.nodes[p] == nodes[p])
  {
    if attempts != [] {
      var init, a := attempts[..|attempts| - 1], attempts[|attempts| - 1];
      ExecuteNodes(nodes, removeFails, init, p);
      ExecuteNodes(nodes, removeFails, init, a.target);
      TargetsAppend(init, a);
      assert attempts == init + [a];
    }
  }

  /** Every attempt prints exactly one line, in order, naming its target. */
  lemma {:induction false} ExecuteReportsEach(nodes: map<Path, Node>, removeFails: set<Path>, attempts: seq<Attempt>)
    ensures var log := Execute(nodes, removeFails, attempts).log;
      && |log| == |attempts|
      && forall k :: 0 <= k < |attempts| ==>
           log[k] == Deleted(attempts[k].survivor, attempts[k].target) || log[k] == CouldNotDelete(attempts[k].target)
  {
    if attempts != [] {
      var init := attempts[..|attempts| - 1];
      ExecuteReportsEach(nodes, removeFails, init);
      assert forall k :: 0 <= k < |init| ==> init[k] == attempts[k];
    }
  }

  /**
   * When no file is targeted twice, each removal succeeds or fails as it
   * would on the initial file system, so the log is decided by that state.
   */
  lemma {:induction false} ExecuteReports(nodes: map<Path, Node>, removeFails: set<Path>, attempts: seq<Attempt>)
    requires NoDup(Targets(attempts))
    ensures var log := Execute(nodes, removeFails, attempts).log;
      && |log| == |attempts|
      && forall k :: 0 <= k < |attempts| ==> log[k] == Reported(nodes, removeFails, attempts[k])
  {
    if attempts != [] {
      var init, a := attempts[..|attempts| - 1], attempts[|attempts| - 1];
      TargetsAppend(init, a);
      assert attempts == init + [a];
      NoDupAppend(Targets(init), a.target);
      ExecuteReports(nodes, removeFails, init);
      ExecuteNodes(nodes, removeFails, init, a.target);
      assert forall k :: 0 <= k < |init| ==> init[k] == attempts[k];
    }
  }

  lemma ExecuteSnoc(nodes: map<Path, Node>, removeFails: set<Path>, attempts: seq<Attempt>, a: Attempt)
    ensures var o := Execute(nodes, removeFails, attempts);
      Execute(nodes, removeFails, attempts + [a])
      == if RemoveResult(o.nodes, removeFails, a.target).Ok? then
           Outcome(o.nodes - {a.target}, o.log + [Deleted(a.survivor, a.target)])
         else
           Outcome(o.nodes, o.log + [CouldNotDelete(a.target)])
  {
    assert (attempts + [a])[..|attempts|] == attempts;
  }

  // ----- delete_duplicate_files -----

  lemma AttemptsStep(done: seq<Attempt>, group: seq<Path>, k: nat)
    requires 1 <= k < |group|
    ensures done + Attempts(group[0], group[1..k + 1])
         == (done + Attempts(group[0], group[1..k])) + [Attempt(group[0], group[k])]
  {
    assert group[1..k + 1][..k - 1] == group[1..k];
  }

  lemma PlanSnoc(records: seq<Record>, order: seq<string>, h: string)
    requires Group(records, h) != []
    ensures Plan(records, order + [h])
         == Plan(records, order) + Attempts(Group(records, h)[0], Group(records, h)[1..])
  {
    assert (order + [h])[..|order|] == order;
  }

  /**
   * The first half of `delete_duplicate_files`, the lazy iterator chain over
   * the listing: skip unreadable entries and paths that are not regular
   * files, hash the rest, and keep those whose hash succeeded.
   */
  method ScanDirectory(fs: FileSystem, listing: seq<Listed>, sha: Sha256) returns (records: seq<Record>)
    ensures records == Scan(fs.nodes, fs.faults, listing, sha)
  {
    ghost var hashOf := Hasher(fs.nodes, fs.faults, sha);
    records := [];
    var i := 0;
    while i < |listing|
      invariant i <= |listing|
      invariant records == Records(Enumerate(listing[..i], fs.nodes), hashOf)
    {
      assert listing[..i + 1][..i] == listing[..i];
      ghost var files := Enumerate(listing[..i], fs.nodes);
      var item := listing[i];
      if item.Entry? && IsRegular(fs.nodes, item.path) {
        assert Enumerate(listing[..i + 1], fs.nodes) == files + [item.path];
        assert (files + [item.path])[..|files|] == files;
        var hash := FileHash(fs, item.path, sha);
        assert hashOf(item.path) == hash;
        if hash.Ok? {
          records := records + [Record(hash.value, item.path)];
        }
      }
      i := i + 1;
    }
    assert listing[..i] == listing;
  }

  /**
   * The inner loop: `remove_file` on every member of `group` after the
   * first, printing one line for each. `done` are the attempts made before,
   * on the file system that was `nodes0` when the scan ran.
   */
  method RemoveDuplicatesOf(fs: FileSystem, group: seq<Path>, ghost nodes0: map<Path, Node>,
                            ghost done: seq<Attempt>, log0: seq<Report>)
    returns (log: seq<Report>)
    requires group != []
    requires Outcome(fs.nodes, log0) == Execute(nodes0, fs.faults.removeFails, done)
    modifies fs
    ensures Outcome(fs.nodes, log) == Execute(nodes0, fs.faults.removeFails, done + Attempts(group[0], group[1..]))
  {
    log := log0;
    var k := 1;
    assert group[1..k] == [] && done + [] == done;
    while k < |group|
      invariant 1 <= k <= |group|
      invariant Outcome(fs.nodes, log) == Execute(nodes0, fs.faults.removeFails, done + Attempts(group[0], group[1..k]))
    {
      ghost var before := done + Attempts(group[0], group[1..k]);
      AttemptsStep(done, group, k);
      ExecuteSnoc(nodes0, fs.faults.removeFails, before, Attempt(group[0], group[k]));
      var removed := fs.RemoveFile(group[k]);
      if removed.Err? {
        log := log + [CouldNotDelete(group[k])];
      } else {
        log := log + [Deleted(group[0], group[k])];
      }
      k := k + 1;
    }
    assert group[1..k] == group[1..];
  }

  /**
   * The outer loop: visit the distinct hashes in the hash set's iteration
   * order, recorded as `order`, and remove the duplicates of each.
   */
  method RemoveAllDuplicates(fs: FileSystem, records: seq<Record>) returns (log: seq<Report>, ghost order: seq<string>)
    modifies fs
    ensures IsEnumeration(order, HashesOf(records))
    ensures Outcome(fs.nodes, log) == Execute(old(fs.nodes), fs.faults.removeFails, Plan(records, order))
  {
    log, order := [], [];
    ghost var nodes0 := fs.nodes;
    var all := HashesOf(records);
    var remaining := all;
    while remaining != {}
      invariant Visiting(all, remaining, order)
      invariant Outcome(fs.nodes, log) == Execute(nodes0, fs.faults.removeFails, Plan(records, order))
      decreases |remaining|
    {
      var hash :| hash in remaining;
      var group := Group(records, hash);
      GroupFirst(records, hash);
      log := RemoveDuplicatesOf(fs, group, nodes0, Plan(records, order), log);
      PlanSnoc(records, order, hash);
      VisitNext(all, remaining, order, hash);
      order := order + [hash];
      remaining := remaining - {hash};
    }
    VisitDone(all, order);
  }

  /** Part way through iterating `all`: `order` was visited, once each, and `remaining` is left. */
  predicate Visiting(all: set<string>, remaining: set<string>, order: seq<string>) {
    && remaining <= all
    && NoDup(order)
    && (forall h :: h in all ==> (h in remaining <==> h !in order))
    && (forall k :: 0 <= k < |order| ==> order[k] in all)
  }

  lemma VisitNext(all: set<string>, remaining: set<string>, order: seq<string>, h: string)
    requires Visiting(all, remaining, order) && h in remaining
    ensures Visiting(all, remaining - {h}, order + [h])
  {
    NoDupAppend(order, h);
  }

  lemma VisitDone(all: set<string>, order: seq<string>)
    requires Visiting(all, {}, order)
    ensures IsEnumeration(order, all)
  {
  }

  /**
   * `delete_duplicate_files`: a failing `read_dir` is the only error and
   * changes nothing. Otherwise the records are built over the initial file
   * system, the distinct hashes are visited in the hash set's iteration order
   * (`order`, any order listing each hash once), and the removals of `Plan`
   * are carried out one by one; the result is `Ok` whatever the removals did.
   */
  method DeleteDuplicateFiles(fs: FileSystem, directory: Path, sha: Sha256)
    returns (r: Result<()>, log: seq<Report>, ghost order: seq<string>)
    modifies fs
    ensures fs.ReadDir(directory).Err? ==>
      r == Err(fs.ReadDir(directory).error) && log == [] && fs.nodes == old(fs.nodes)
    ensures fs.ReadDir(directory).Ok? ==>
      var records := Scan(old(fs.nodes), fs.faults, fs.ReadDir(directory).value, sha);
      && r == Ok(())
      && IsEnumeration(order, HashesOf(records))
      && Outcome(fs.nodes, log) == Execute(old(fs.nodes), fs.faults.removeFails, Plan(records, order))
  {
    var listed := fs.ReadDir(directory);
    if listed.Err? {
      return Err(listed.error), [], [];
    }
    var records := ScanDirectory(fs, listed.value, sha);
    log, order := RemoveAllDuplicates(fs, records);
    r := Ok(());
  }

  // ----- What a run does, for every iteration order -----

  /**
   * Whatever order the hash set yields, a file is gone after the run exactly
   * when it repeats the hash of a file listed before it and removing it
   * succeeds; every other path keeps its node.
   */
  lemma RunRemoves(nodes: map<Path, Node>, faults: Faults, listing: seq<Listed>, sha: Sha256,
                   order: seq<string>, p: Path)
    requires IsEnumeration(order, HashesOf(Scan(nodes, faults, listing, sha)))
    ensures var records := Scan(nodes, faults, listing, sha);
      var o := Execute(nodes, faults.removeFails, Plan(records, order));
      && (p in o.nodes <==>
            p in nodes && !(p in Targets(Duplicates(records)) && RemoveResult(nodes, faults.removeFails, p).Ok?))
      && (p in o.nodes ==> o.nodes[p] == nodes[p])
  {
    var records := Scan(nodes, faults, listing, sha);
    var plan := Plan(records, order);
    ExecuteNodes(nodes, faults.removeFails, plan, p);
    PlanMatchesDuplicates(records, order);
    TargetsMultiset(plan, Duplicates(records));
    assert p in Targets(plan) <==> p in multiset(Targets(plan));
    assert p in Targets(Duplicates(records)) <==> p in multiset(Targets(Duplicates(records)));
  }

  /**
   * Every hash keeps a file: for every hash the scan produced, the first listed
   * file with that hash is still there after the run, unchanged, whatever
   * the iteration order.
   */
  lemma RunKeepsEveryHash(nodes: map<Path, Node>, faults: Faults, listing: seq<Listed>, sha: Sha256,
                          order: seq<string>, h: string)
    requires DistinctNames(listing)
    requires IsEnumeration(order, HashesOf(Scan(nodes, faults, listing, sha)))
    requires h in HashesOf(Scan(nodes, faults, listing, sha))
    ensures var records := Scan(nodes, faults, listing, sha);
      var survivor := records[FirstIndex(records, h)].path;
      var o := Execute(nodes, faults.removeFails, Plan(records, order));
      && HashSpec(nodes, faults, survivor, sha) == Ok(h)
      && survivor in o.nodes && o.nodes[survivor] == nodes[survivor]
  {
    var records := Scan(nodes, faults, listing, sha);
    var i := FirstIndex(records, h);
    var survivor := records[i].path;
    ScanMembers(nodes, faults, listing, sha, records[i]);
    ScanDistinct(nodes, faults, listing, sha);
    FirstIndexIsFirst(records, h);
    SurvivorNeverTargeted(records, i);
    RunRemoves(nodes, faults, listing, sha, order, survivor);
    assert survivor !in Targets(Duplicates(records));
  }

  /**
   * Every removal attempt prints one line, in the order of the attempts, and
   * a removal fails (and is reported as such) exactly when it would fail on
   * the initial file system.
   */
  lemma RunReports(nodes: map<Path, Node>, faults: Faults, listing: seq<Listed>, sha: Sha256, order: seq<string>)
    requires DistinctNames(listing)
    requires IsEnumeration(order, HashesOf(Scan(nodes, faults, listing, sha)))
    ensures var plan := Plan(Scan(nodes, faults, listing, sha), order);
      var log := Execute(nodes, faults.removeFails, plan).log;
      && |log| == |plan|
      && forall k :: 0 <= k < |plan| ==> log[k] == Reported(nodes, faults.removeFails, plan[k])
  {
    var records := Scan(nodes, faults, listing, sha);
    ScanDistinct(nodes, faults, listing, sha);
    PlanTargetsOnce(records, order);
    ExecuteReports(nodes, faults.removeFails, Plan(records, order));
  }

  /** When no two scanned files share a hash, the run removes nothing and prints nothing. */
  lemma RunWithoutDuplicates(nodes: map<Path, Node>, faults: Faults, listing: seq<Listed>, sha: Sha256,
                             order: seq<string>)
    requires IsEnumeration(order, HashesOf(Scan(nodes, faults, listing, sha)))
    requires var records := Scan(nodes, faults, listing, sha);
      forall i, j :: 0 <= i < j < |records| ==> records[i].hash != records[j].hash
    ensures Execute(nodes, faults.removeFails, Plan(Scan(nodes, faults, listing, sha), order)) == Outcome(nodes, [])
  {
    var records := Scan(nodes, faults, listing, sha);
    DistinctHashesNoDuplicates(records);
    PlanMatchesDuplicates(records, order);
    assert |Plan(records, order)| == |multiset(Plan(records, order))| == 0;
  }
}
