/**
 * The file system as the deduplicator sees it: nodes by path, the listing of
 * each directory, and the failures the operating system may report.
 *
 * A failure the real system may or may not report (a file that cannot be
 * opened, a short or failing read, a removal that is refused) is fixed in
 * advance in `Faults`, so a statement proved for every `Faults` holds for
 * every way the operating system could answer.
 */
module Fs {
  import opened Io
  import opened Digest

  /**
   * What a path names: a regular file with its bytes, a directory, or another
   * node (a device, a FIFO) with the bytes reading it yields.
   */
  datatype Node = File(content: seq<Byte>) | Directory | Special(content: seq<Byte>)

  /** One item yielded by iterating `read_dir`: a path, or an entry that could not be read. */
  datatype Listed = Entry(path: Path) | Unreadable(error: IoError)

  /**
   * The answers the operating system gives: paths that cannot be opened, the
   * schedule of read answers per path (no schedule: every read is full), and
   * paths whose removal is refused.
   */
  datatype Faults = Faults(openFails: set<Path>, readAnswers: map<Path, seq<Answer>>, removeFails: set<Path>)

  /** `Path::is_file`: the path exists and is a regular file. */
  predicate IsRegular(nodes: map<Path, Node>, p: Path) {
    p in nodes && nodes[p].File?
  }

  /** `File::open` gives something to read from: any node but a directory. */
  predicate IsReadable(nodes: map<Path, Node>, p: Path) {
    p in nodes && !nodes[p].Directory?
  }

  function AnswersFor(faults: Faults, p: Path): seq<Answer> {
    if p in faults.readAnswers then faults.readAnswers[p] else []
  }

  /**
   * `File::open` followed by reading: the bytes available, or why they are not.
   * Regular files and other nodes open alike. A directory opens too, but its
   * first read fails with `IsADirectory`; that error is reported here at once,
   * which gives `file_hash` the same result.
   */
  function OpenResult(nodes: map<Path, Node>, faults: Faults, p: Path): (r: Result<seq<Byte>>)
    ensures r.Ok? <==> IsReadable(nodes, p) && p !in faults.openFails
    ensures r.Ok? ==> r.value == nodes[p].content
  {
    if p !in nodes then Err(NotFound)
    else if p in faults.openFails then Err(PermissionDenied)
    else if nodes[p].Directory? then Err(IsADirectory)
    else Ok(nodes[p].content)
  }

  /** `fs::remove_file`: refused for a missing path, a directory, or a path the system protects. */
  function RemoveResult(nodes: map<Path, Node>, removeFails: set<Path>, p: Path): Result<()> {
    if p !in nodes then Err(NotFound)
    else if nodes[p].Directory? then Err(IsADirectory)
    else if p in removeFails then Err(PermissionDenied)
    else Ok(())
  }

  class FileSystem {
    var nodes: map<Path, Node>
    const listings: map<Path, Result<seq<Listed>>>
    const faults: Faults

    constructor (initial: map<Path, Node>, dirs: map<Path, Result<seq<Listed>>>, answers: Faults)
      ensures nodes == initial && listings == dirs && faults == answers
    {
      nodes := initial;
      listings := dirs;
      faults := answers;
    }

    /** `Path::read_dir` collected: the entries of a directory, or the error that prevented listing it. */
    function ReadDir(dir: Path): Result<seq<Listed>> {
      if dir in listings then listings[dir] else Err(NotFound)
    }

    /** `File::open` wrapped in a `BufReader`: a fresh reader positioned at the start of the file. */
    method Open(p: Path) returns (r: Result<Reader>)
      ensures OpenResult(nodes, faults, p).Err? ==> r == Err(OpenResult(nodes, faults, p).error)
      ensures OpenResult(nodes, faults, p).Ok? ==>
        && r.Ok? && fresh(r.value)
        && r.value.rest == OpenResult(nodes, faults, p).value
        && r.value.answers == AnswersFor(faults, p)
    {
      match OpenResult(nodes, faults, p)
      case Err(e) => r := Err(e);
      case Ok(content) =>
        var reader := new Reader(content, AnswersFor(faults, p));
        r := Ok(reader);
    }

    /** `fs::remove_file`: on success the path is gone; on failure nothing changes. */
    method RemoveFile(p: Path) returns (r: Result<()>)
      modifies this
      ensures r == RemoveResult(old(nodes), faults.removeFails, p)
      ensures nodes == if r.Ok? then old(nodes) - {p} else old(nodes)
    {
      r := RemoveResult(nodes, faults.removeFails, p);
      if r.Ok? {
        nodes := nodes - {p};
      }
    }
  }
}
