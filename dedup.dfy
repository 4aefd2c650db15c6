/**
 * The keep/delete policy of `delete_duplicate_files`, over the list of
 * (hash, path) records it builds.
 *
 * The source takes the set of distinct hashes, and for each hash, in the set's
 * iteration order, re-filters the record list into a group and attempts to
 * remove every member but the first. `Plan` is that sequence of removal
 * attempts for one iteration order. `Duplicates` is an independent reference
 * definition that does not mention any order: record j is a duplicate when an
 * earlier record has its hash, and its survivor is the first such record.
 * `PlanMatchesDuplicates` proves the two agree up to order for every
 * iteration order of the hash set.
 *
 * Every list function recurses on the last element, as the source's loops
 * append to the end.
 */
module Dedup {
  import opened Io
  import opened Seqs

  /** One hashed regular file: its hash string and its path. */
  datatype Record = Record(hash: string, path: Path)

  /** One attempt to remove `target`, reported as a duplicate of `survivor`. */
  datatype Attempt = Attempt(survivor: Path, target: Path)

  // ----- Building the record list -----

  /**
   * The record list: every file whose hash succeeded, paired with that hash,
   * in file order; files whose hash failed are dropped.
   */
  function Records(files: seq<Path>, hashOf: Path -> Result<string>): seq<Record>
  {
    if files == [] then []
    else
      var earlier := Records(files[..|files| - 1], hashOf);
      var file := files[|files| - 1];
      match hashOf(file)
      case Ok(h) => earlier + [Record(h, file)]
      case Err(_) => earlier
  }

  function Paths(rs: seq<Record>): (ps: seq<Path>)
    ensures |ps| == |rs| && forall k :: 0 <= k < |rs| ==> ps[k] == rs[k].path
  {
    if rs == [] then [] else Paths(rs[..|rs| - 1]) + [rs[|rs| - 1].path]
  }

  function Targets(attempts: seq<Attempt>): (ts: seq<Path>)
    ensures |ts| == |attempts| && forall k :: 0 <= k < |attempts| ==> ts[k] == attempts[k].target
  {
    if attempts == [] then [] else Targets(attempts[..|attempts| - 1]) + [attempts[|attempts| - 1].target]
  }

  /** A record is kept exactly when its file was listed and hashing it succeeded, and then with that hash. */
  lemma {:induction false} RecordsMembers(files: seq<Path>, hashOf: Path -> Result<string>, r: Record)
    ensures r in Records(files, hashOf) <==> r.path in files && hashOf(r.path) == Ok(r.hash)
  {
    if files != [] {
      var init := files[..|files| - 1];
      assert files == init + [files[|files| - 1]];
      RecordsMembers(init, hashOf, r);
    }
  }

  /** Records keep the files' order: those of earlier files come first. */
  lemma {:induction false} RecordsConcat(a: seq<Path>, b: seq<Path>, hashOf: Path -> Result<string>)
    ensures Records(a + b, hashOf) == Records(a, hashOf) + Records(b, hashOf)
  {
    if b == [] {
      assert a + b == a;
    } else {
      var init := b[..|b| - 1];
      assert (a + b)[..|a + b| - 1] == a + init;
      assert (a + b)[|a + b| - 1] == b[|b| - 1];
      RecordsConcat(a, init, hashOf);
    }
  }

  /** Each listed file yields at most one record. */
  lemma {:induction false} RecordsDistinct(files: seq<Path>, hashOf: Path -> Result<string>)
    requires NoDup(files)
    ensures NoDup(Paths(Records(files, hashOf)))
  {
    if files != [] {
      var init, last := files[..|files| - 1], files[|files| - 1];
      assert files == init + [last];
      NoDupAppend(init, last);
      RecordsDistinct(init, hashOf);
      var earlier := Records(init, hashOf);
      if hashOf(last).Ok? {
        assert last !in Paths(earlier) by {
          if last in Paths(earlier) {
            var k :| 0 <= k < |earlier| && Paths(earlier)[k] == last;
            RecordsMembers(init, hashOf, earlier[k]);
            assert false;
          }
        }
        assert Paths(Records(files, hashOf)) == Paths(earlier) + [last];
        NoDupAppend(Paths(earlier), last);
      }
    }
  }

  // ----- Hashes, groups and first occurrences -----

  /** The set of distinct hashes among the records. */
  function HashesOf(rs: seq<Record>): set<string>
  {
    if rs == [] then {} else HashesOf(rs[..|rs| - 1]) + {rs[|rs| - 1].hash}
  }

  lemma {:induction false} HashesOfAll(rs: seq<Record>)
    ensures forall k :: 0 <= k < |rs| ==> rs[k].hash in HashesOf(rs)
  {
    if rs != [] {
      HashesOfAll(rs[..|rs| - 1]);
      assert forall k :: 0 <= k < |rs| - 1 ==> rs[k] == rs[..|rs| - 1][k];
    }
  }

  /** The index of the first record with hash `h`. */
  function FirstIndex(rs: seq<Record>, h: string): (i: nat)
    requires h in HashesOf(rs)
    ensures i < |rs| && rs[i].hash == h
    ensures forall k :: 0 <= k < i ==> rs[k].hash != h
  {
    var init := rs[..|rs| - 1];
    if h in HashesOf(init) then
      FirstIndex(init, h)
    else
      HashesOfAll(init);
      |rs| - 1
  }

  /** Record j is the first record with its hash: no earlier record shares it. */
  predicate IsFirst(rs: seq<Record>, j: nat)
    requires j < |rs|
  {
    rs[j].hash !in HashesOf(rs[..j])
  }

  /** The first record with the same hash as record j, which comes before it. */
  function SurvivorIndex(rs: seq<Record>, j: nat): (i: nat)
    requires j < |rs| && !IsFirst(rs, j)
    ensures i < j && rs[i].hash == rs[j].hash && IsFirst(rs, i)
    ensures forall k :: 0 <= k < i ==> rs[k].hash != rs[j].hash
  {
    var i := FirstIndex(rs[..j], rs[j].hash);
    FirstIndexIsFirst(rs[..j], rs[j].hash);
    assert rs[..j][..i] == rs[..i];
    i
  }

  lemma FirstIndexIsFirst(rs: seq<Record>, h: string)
    requires h in HashesOf(rs)
    ensures IsFirst(rs, FirstIndex(rs, h))
  {
    var i := FirstIndex(rs, h);
    if rs[i].hash in HashesOf(rs[..i]) {
      var k := FirstIndex(rs[..i], h);
      assert false;
    }
  }

  /** The paths of the records with hash `h`, in record order. */
  function Group(rs: seq<Record>, h: string): seq<Path>
  {
    if rs == [] then []
    else
      var r := rs[|rs| - 1];
      Group(rs[..|rs| - 1], h) + (if r.hash == h then [r.path] else [])
  }

  /** A group holds exactly the paths recorded with its hash. */
  lemma {:induction false} GroupMembers(rs: seq<Record>, h: string, p: Path)
    ensures p in Group(rs, h) <==> Record(h, p) in rs
  {
    if rs != [] {
      var init := rs[..|rs| - 1];
      assert rs == init + [rs[|rs| - 1]];
      GroupMembers(init, h, p);
    }
  }

  /** A group keeps the record order: members from earlier records come first. */
  lemma {:induction false} GroupConcat(a: seq<Record>, b: seq<Record>, h: string)
    ensures Group(a + b, h) == Group(a, h) + Group(b, h)
  {
    if b == [] {
      assert a + b == a;
    } else {
      var init := b[..|b| - 1];
      assert (a + b)[..|a + b| - 1] == a + init;
      assert (a + b)[|a + b| - 1] == b[|b| - 1];
      GroupConcat(a, init, h);
    }
  }

  /**
   * The group of a hash that occurs is not empty, so its tail exists, and
   * its first member, the survivor, is the path of the first record with that
   * hash.
   */
  lemma {:induction false} GroupFirst(rs: seq<Record>, h: string)
    ensures Group(rs, h) != [] <==> h in HashesOf(rs)
    ensures h in HashesOf(rs) ==> Group(rs, h)[0] == rs[FirstIndex(rs, h)].path
  {
    if rs != [] {
      var init := rs[..|rs| - 1];
      GroupFirst(init, h);
    }
  }

  // ----- The removal plan for one iteration order -----

  /** One attempt for each of `duplicates`, in order, each reported as a duplicate of `survivor`. */
  function Attempts(survivor: Path, duplicates: seq<Path>): seq<Attempt>
  {
    if duplicates == [] then []
    else Attempts(survivor, duplicates[..|duplicates| - 1]) + [Attempt(survivor, duplicates[|duplicates| - 1])]
  }

  /** The attempts made for one hash: every member of its group after the first. */
  function GroupAttempts(rs: seq<Record>, h: string): seq<Attempt>
  {
    var g := Group(rs, h);
    if g == [] then [] else Attempts(g[0], g[1..])
  }

  /** All removal attempts, in the order the loops make them, when the hash set yields `order`. */
  function Plan(rs: seq<Record>, order: seq<string>): seq<Attempt>
  {
    if order == [] then []
    else Plan(rs, order[..|order| - 1]) + GroupAttempts(rs, order[|order| - 1])
  }

  /** The groups one after the other, in iteration order. */
  function Grouping(rs: seq<Record>, order: seq<string>): seq<Path>
  {
    if order == [] then []
    else Grouping(rs, order[..|order| - 1]) + Group(rs, order[|order| - 1])
  }

  // ----- The order-free reference definition -----

  /** Record j, which has an earlier record with its hash, removed in favour of the first of them. */
  function DuplicateAt(rs: seq<Record>, j: nat): Attempt
    requires j < |rs| && !IsFirst(rs, j)
  {
    Attempt(rs[SurvivorIndex(rs, j)].path, rs[j].path)
  }

  /** Every record that has an earlier record with the same hash, in record order. */
  function Duplicates(rs: seq<Record>): seq<Attempt>
  {
    if rs == [] then []
    else
      var n := |rs| - 1;
      Duplicates(rs[..n]) + (if IsFirst(rs, n) then [] else [DuplicateAt(rs, n)])
  }

  /** The first record of every hash, in record order: the files the policy keeps. */
  function Survivors(rs: seq<Record>): seq<Record>
  {
    if rs == [] then []
    else
      var n := |rs| - 1;
      Survivors(rs[..n]) + (if IsFirst(rs, n) then [rs[n]] else [])
  }

  /** Whether record j is first, and whom it duplicates, is decided by the records up to j. */
  lemma PrefixAgrees(rs: seq<Record>, n: nat, j: nat)
    requires j < n <= |rs|
    ensures IsFirst(rs[..n], j) == IsFirst(rs, j)
    ensures !IsFirst(rs, j) ==> DuplicateAt(rs[..n], j) == DuplicateAt(rs, j)
  {
    assert rs[..n][..j] == rs[..j];
    assert rs[..n][j] == rs[j];
    if !IsFirst(rs, j) {
      var i := SurvivorIndex(rs, j);
      assert rs[..n][i] == rs[i];
    }
  }

  /** Every attempt of the reference definition is the duplicate at some record. */
  lemma {:induction false} DuplicateSource(rs: seq<Record>, k: nat) returns (j: nat)
    requires k < |Duplicates(rs)|
    ensures j < |rs| && !IsFirst(rs, j) && Duplicates(rs)[k] == DuplicateAt(rs, j)
  {
    var n := |rs| - 1;
    var init := rs[..n];
    if k < |Duplicates(init)| {
      j := DuplicateSource(init, k);
      PrefixAgrees(rs, n, j);
    } else {
      j := n;
    }
  }

  /** Every record that has an earlier record with its hash is a duplicate of the first of them. */
  lemma {:induction false} DuplicateListed(rs: seq<Record>, j: nat)
    requires j < |rs| && !IsFirst(rs, j)
    ensures DuplicateAt(rs, j) in Duplicates(rs)
  {
    var n := |rs| - 1;
    if j < n {
      PrefixAgrees(rs, n, j);
      DuplicateListed(rs[..n], j);
    }
  }

  /**
   * The duplicates are exactly the later records of each hash, each paired
   * with the first record of its hash.
   */
  lemma DuplicatesMembers(rs: seq<Record>, a: Attempt)
    ensures a in Duplicates(rs) <==> exists j :: 0 <= j < |rs| && !IsFirst(rs, j) && DuplicateAt(rs, j) == a
  {
    if a in Duplicates(rs) {
      var k :| 0 <= k < |Duplicates(rs)| && Duplicates(rs)[k] == a;
      var j := DuplicateSource(rs, k);
    }
    if exists j :: 0 <= j < |rs| && !IsFirst(rs, j) && DuplicateAt(rs, j) == a {
      var j :| 0 <= j < |rs| && !IsFirst(rs, j) && DuplicateAt(rs, j) == a;
      DuplicateListed(rs, j);
    }
  }

  /** Every record is either kept or a removal target, and never both. */
  lemma {:induction false} SurvivorsAndDuplicatesPartition(rs: seq<Record>)
    ensures multiset(Paths(rs)) == multiset(Paths(Survivors(rs))) + multiset(Targets(Duplicates(rs)))
  {
    if rs != [] {
      var n := |rs| - 1;
      var init := rs[..n];
      SurvivorsAndDuplicatesPartition(init);
      var x := rs[n].path;
      var ps, ss, ts := Paths(init), Paths(Survivors(init)), Targets(Duplicates(init));
      assert Paths(rs) == ps + [x];
      if IsFirst(rs, n) {
        KeptStep(rs);
        assert multiset(Paths(Survivors(rs))) == multiset(ss) + multiset{x};
      } else {
        TargetedStep(rs);
        assert multiset(Targets(Duplicates(rs))) == multiset(ts) + multiset{x};
      }
    }
  }

  /** A last record that is first of its hash is kept, and adds no attempt. */
  lemma KeptStep(rs: seq<Record>)
    requires rs != [] && IsFirst(rs, |rs| - 1)
    ensures Paths(Survivors(rs)) == Paths(Survivors(rs[..|rs| - 1])) + [rs[|rs| - 1].path]
    ensures Duplicates(rs) == Duplicates(rs[..|rs| - 1])
  {
    var n := |rs| - 1;
    assert Survivors(rs) == Survivors(rs[..n]) + [rs[n]];
    PathsAppend(Survivors(rs[..n]), rs[n]);
  }

  /** A last record that repeats an earlier hash is targeted, and is not kept. */
  lemma TargetedStep(rs: seq<Record>)
    requires rs != [] && !IsFirst(rs, |rs| - 1)
    ensures Targets(Duplicates(rs)) == Targets(Duplicates(rs[..|rs| - 1])) + [rs[|rs| - 1].path]
    ensures Survivors(rs) == Survivors(rs[..|rs| - 1])
  {
    var n := |rs| - 1;
    assert Duplicates(rs) == Duplicates(rs[..n]) + [DuplicateAt(rs, n)];
    TargetsAppend(Duplicates(rs[..n]), DuplicateAt(rs, n));
  }

  lemma PathsAppend(rs: seq<Record>, r: Record)
    ensures Paths(rs + [r]) == Paths(rs) + [r.path]
  {
    assert (rs + [r])[..|rs|] == rs;
  }

  lemma TargetsAppend(attempts: seq<Attempt>, a: Attempt)
    ensures Targets(attempts + [a]) == Targets(attempts) + [a.target]
  {
    assert (attempts + [a])[..|attempts|] == attempts;
  }

  /** The kept files carry pairwise distinct hashes, one for every hash that occurs. */
  lemma {:induction false} SurvivorsDistinctHashes(rs: seq<Record>)
    ensures HashesOf(Survivors(rs)) == HashesOf(rs)
    ensures forall i, j :: 0 <= i < j < |Survivors(rs)| ==> Survivors(rs)[i].hash != Survivors(rs)[j].hash
  {
    if rs != [] {
      var n := |rs| - 1;
      var init := rs[..n];
      SurvivorsDistinctHashes(init);
      var s := Survivors(init);
      if IsFirst(rs, n) {
        assert Survivors(rs) == s + [rs[n]];
        DistinctHashesAppend(s, rs[n]);
      } else {
        assert Survivors(rs) == s;
        assert HashesOf(rs) == HashesOf(init) + {rs[n].hash};
      }
    }
  }

  lemma DistinctHashesAppend(s: seq<Record>, r: Record)
    requires forall i, j :: 0 <= i < j < |s| ==> s[i].hash != s[j].hash
    requires r.hash !in HashesOf(s)
    ensures HashesOf(s + [r]) == HashesOf(s) + {r.hash}
    ensures forall i, j :: 0 <= i < j < |s + [r]| ==> (s + [r])[i].hash != (s + [r])[j].hash
  {
    var t := s + [r];
    assert t[..|s|] == s;
    HashesOfAll(s);
    forall i, j | 0 <= i < j < |t| ensures t[i].hash != t[j].hash {
      assert t[i] == s[i];
      if j < |s| {
        assert t[j] == s[j];
      }
    }
  }

  /** Records with pairwise distinct hashes have no duplicates. */
  lemma {:induction false} DistinctHashesNoDuplicates(rs: seq<Record>)
    requires forall i, j :: 0 <= i < j < |rs| ==> rs[i].hash != rs[j].hash
    ensures Duplicates(rs) == []
  {
    if rs != [] {
      var n := |rs| - 1;
      var init := rs[..n];
      assert forall i, j :: 0 <= i < j < |init| ==> init[i] == rs[i] && init[j] == rs[j];
      DistinctHashesNoDuplicates(init);
      if !IsFirst(rs, n) {
        var k := SurvivorIndex(rs, n);
        assert false;
      }
    }
  }

  /** When the records name distinct files, each file is targeted at most once. */
  lemma {:induction false} DuplicateTargetsDistinct(rs: seq<Record>)
    requires NoDup(Paths(rs))
    ensures NoDup(Targets(Duplicates(rs)))
  {
    if rs != [] {
      var n := |rs| - 1;
      var init := rs[..n];
      var d := Duplicates(init);
      assert Paths(rs) == Paths(init) + [rs[n].path];
      NoDupAppend(Paths(init), rs[n].path);
      DuplicateTargetsDistinct(init);
      if !IsFirst(rs, n) {
        assert Duplicates(rs) == d + [DuplicateAt(rs, n)];
        TargetsAppend(d, DuplicateAt(rs, n));
        if rs[n].path in Targets(d) {
          var k :| 0 <= k < |d| && Targets(d)[k] == rs[n].path;
          var j := DuplicateSource(init, k);
          assert false;
        }
        NoDupAppend(Targets(d), rs[n].path);
      }
    }
  }

  lemma DuplicateTargetNotFirst(rs: seq<Record>, i: nat, k: nat)
    requires NoDup(Paths(rs))
    requires i < |rs| && IsFirst(rs, i)
    requires k < |Duplicates(rs)|
    ensures Duplicates(rs)[k].target != rs[i].path
  {
    var j := DuplicateSource(rs, k);
    assert Paths(rs)[i] != Paths(rs)[j];
  }

  /** When the records name distinct files, the first record of a hash is never a removal target. */
  lemma SurvivorNeverTargeted(rs: seq<Record>, i: nat)
    requires NoDup(Paths(rs))
    requires i < |rs| && IsFirst(rs, i)
    ensures forall k :: 0 <= k < |Duplicates(rs)| ==> Duplicates(rs)[k].target != rs[i].path
  {
    forall k | 0 <= k < |Duplicates(rs)| ensures Duplicates(rs)[k].target != rs[i].path {
      DuplicateTargetNotFirst(rs, i, k);
    }
  }

  // ----- Plan versus the reference definition -----

  lemma {:induction false} PlanSame(rs: seq<Record>, rs': seq<Record>, order: seq<string>)
    requires forall h :: h in order ==> GroupAttempts(rs', h) == GroupAttempts(rs, h)
    ensures Plan(rs', order) == Plan(rs, order)
  {
    if order != [] {
      PlanSame(rs, rs', order[..|order| - 1]);
    }
  }

  /** Adding one attempt to the group of a hash listed once adds it once to the plan. */
  lemma {:induction false} PlanBump(rs: seq<Record>, rs': seq<Record>, order: seq<string>, x: string, e: Attempt)
    requires NoDup(order) && x in order
    requires forall h :: h in order && h != x ==> GroupAttempts(rs', h) == GroupAttempts(rs, h)
    requires GroupAttempts(rs', x) == GroupAttempts(rs, x) + [e]
    ensures multiset(Plan(rs', order)) == multiset(Plan(rs, order)) + multiset{e}
  {
    var init, last := order[..|order| - 1], order[|order| - 1];
    assert order == init + [last];
    NoDupAppend(init, last);
    if last == x {
      PlanSame(rs, rs', init);
    } else {
      PlanBump(rs, rs', init, x, e);
    }
  }

  lemma {:induction false} GroupingSame(rs: seq<Record>, rs': seq<Record>, order: seq<string>)
    requires forall h :: h in order ==> Group(rs', h) == Group(rs, h)
    ensures Grouping(rs', order) == Grouping(rs, order)
  {
    if order != [] {
      GroupingSame(rs, rs', order[..|order| - 1]);
    }
  }

  lemma {:induction false} GroupingBump(rs: seq<Record>, rs': seq<Record>, order: seq<string>, x: string, p: Path)
    requires NoDup(order) && x in order
    requires forall h :: h in order && h != x ==> Group(rs', h) == Group(rs, h)
    requires Group(rs', x) == Group(rs, x) + [p]
    ensures multiset(Grouping(rs', order)) == multiset(Grouping(rs, order)) + multiset{p}
  {
    var init, last := order[..|order| - 1], order[|order| - 1];
    assert order == init + [last];
    NoDupAppend(init, last);
    if last == x {
      GroupingSame(rs, rs', init);
    } else {
      GroupingBump(rs, rs', init, x, p);
    }
  }

  lemma {:induction false} GroupingOfNothing(order: seq<string>)
    ensures Grouping([], order) == []
  {
    if order != [] {
      GroupingOfNothing(order[..|order| - 1]);
    }
  }

  lemma {:induction false} PlanOfNothing(order: seq<string>)
    ensures Plan([], order) == []
  {
    if order != [] {
      PlanOfNothing(order[..|order| - 1]);
    }
  }

  /**
   * The groups, taken in any order that lists each hash once, partition the
   * record list: every recorded path is in exactly one group, as often as it
   * was recorded.
   */
  lemma {:induction false} GroupsPartition(rs: seq<Record>, order: seq<string>)
    requires NoDup(order)
    requires forall h :: h in HashesOf(rs) ==> h in order
    ensures multiset(Grouping(rs, order)) == multiset(Paths(rs))
  {
    if rs == [] {
      GroupingOfNothing(order);
    } else {
      var n := |rs| - 1;
      var init, r := rs[..n], rs[n];
      GroupsPartition(init, order);
      assert Paths(rs) == Paths(init) + [r.path];
      GroupingBump(init, rs, order, r.hash, r.path);
    }
  }

  /** Appending a record changes only the attempts of its own hash, by at most the one for it. */
  lemma GroupAttemptsAppend(rs: seq<Record>)
    requires rs != []
    ensures var n := |rs| - 1;
      && (forall h :: h != rs[n].hash ==> GroupAttempts(rs, h) == GroupAttempts(rs[..n], h))
      && (IsFirst(rs, n) ==> GroupAttempts(rs, rs[n].hash) == GroupAttempts(rs[..n], rs[n].hash))
      && (!IsFirst(rs, n) ==>
            GroupAttempts(rs, rs[n].hash) == GroupAttempts(rs[..n], rs[n].hash) + [DuplicateAt(rs, n)])
  {
    var n := |rs| - 1;
    var init, r := rs[..n], rs[n];
    forall h | h != r.hash ensures GroupAttempts(rs, h) == GroupAttempts(init, h) {
      assert Group(rs, h) == Group(init, h);
    }
    GroupFirst(init, r.hash);
    var g := Group(init, r.hash);
    assert Group(rs, r.hash) == g + [r.path];
    if !IsFirst(rs, n) {
      assert SurvivorIndex(rs, n) == FirstIndex(init, r.hash);
      assert init[FirstIndex(init, r.hash)] == rs[FirstIndex(init, r.hash)];
      assert (g + [r.path])[1..] == g[1..] + [r.path];
      assert (g[1..] + [r.path])[..|g| - 1] == g[1..];
    }
  }

  /**
   * Whatever order the hash set yields, the plan makes exactly the attempts of
   * the reference definition, each as often: it is a permutation of `Duplicates`.
   */
  lemma {:induction false} PlanMatchesDuplicates(rs: seq<Record>, order: seq<string>)
    requires NoDup(order)
    requires forall h :: h in HashesOf(rs) ==> h in order
    ensures multiset(Plan(rs, order)) == multiset(Duplicates(rs))
  {
    if rs == [] {
      PlanOfNothing(order);
    } else {
      var n := |rs| - 1;
      var init := rs[..n];
      PlanMatchesDuplicates(init, order);
      GroupAttemptsAppend(rs);
      if IsFirst(rs, n) {
        PlanSame(init, rs, order);
      } else {
        PlanBump(init, rs, order, rs[n].hash, DuplicateAt(rs, n));
      }
    }
  }

  /** The attempts do not depend on the iteration order of the hash set, up to their order. */
  lemma PlanIndependentOfOrder(rs: seq<Record>, o1: seq<string>, o2: seq<string>)
    requires IsEnumeration(o1, HashesOf(rs)) && IsEnumeration(o2, HashesOf(rs))
    ensures multiset(Plan(rs, o1)) == multiset(Plan(rs, o2))
  {
    PlanMatchesDuplicates(rs, o1);
    PlanMatchesDuplicates(rs, o2);
  }

  /**
   * Every attempt removes a later record in favour of the first record with
   * the same hash, and every record that has an earlier record with its hash
   * is attempted, paired with that first record.
   */
  lemma PlanTargetsLaterRecords(rs: seq<Record>, order: seq<string>)
    requires IsEnumeration(order, HashesOf(rs))
    ensures forall a :: a in Plan(rs, order) ==>
      exists i, j :: 0 <= i < j < |rs| && IsFirst(rs, i) && rs[i].hash == rs[j].hash
                     && a == Attempt(rs[i].path, rs[j].path)
    ensures forall j :: 0 <= j < |rs| && !IsFirst(rs, j) ==> DuplicateAt(rs, j) in Plan(rs, order)
  {
    forall a | a in Plan(rs, order)
      ensures exists i, j :: 0 <= i < j < |rs| && IsFirst(rs, i) && rs[i].hash == rs[j].hash
                             && a == Attempt(rs[i].path, rs[j].path)
    {
      var j := PlanAttemptSource(rs, order, a);
      var i := SurvivorIndex(rs, j);
    }
    PlanMatchesDuplicates(rs, order);
    forall j | 0 <= j < |rs| && !IsFirst(rs, j) ensures DuplicateAt(rs, j) in Plan(rs, order) {
      DuplicateListed(rs, j);
      assert DuplicateAt(rs, j) in multiset(Duplicates(rs));
    }
  }

  /** Every attempt of the plan is the duplicate at some record. */
  lemma PlanAttemptSource(rs: seq<Record>, order: seq<string>, a: Attempt) returns (j: nat)
    requires IsEnumeration(order, HashesOf(rs))
    requires a in Plan(rs, order)
    ensures j < |rs| && !IsFirst(rs, j) && DuplicateAt(rs, j) == a
  {
    PlanMatchesDuplicates(rs, order);
    assert a in multiset(Plan(rs, order));
    var k :| 0 <= k < |Duplicates(rs)| && Duplicates(rs)[k] == a;
    j := DuplicateSource(rs, k);
  }

  lemma TargetsConcat(a: seq<Attempt>, b: seq<Attempt>)
    ensures Targets(a + b) == Targets(a) + Targets(b)
  {
    assert |Targets(a + b)| == |Targets(a) + Targets(b)|;
    forall k | 0 <= k < |a + b| ensures Targets(a + b)[k] == (Targets(a) + Targets(b))[k] {
      if k < |a| { assert (a + b)[k] == a[k]; } else { assert (a + b)[k] == b[k - |a|]; }
    }
  }

  /** Targets of permuted attempts are permuted targets. */
  lemma {:induction false} TargetsMultiset(p: seq<Attempt>, d: seq<Attempt>)
    requires multiset(p) == multiset(d)
    ensures multiset(Targets(p)) == multiset(Targets(d))
  {
    if p == [] {
      assert |d| == |multiset(d)| == 0;
    } else {
      var init, last := p[..|p| - 1], p[|p| - 1];
      SplitLast(p);
      assert last in multiset(d);
      var k :| 0 <= k < |d| && d[k] == last;
      var others := TargetsRemoveOne(d, k);
      CancelOne(multiset(init), multiset(others), last);
      TargetsMultiset(init, others);
      TargetsAppend(init, last);
    }
  }

  /** Taking one attempt out of a sequence takes its target out of the targets. */
  lemma TargetsRemoveOne(d: seq<Attempt>, k: nat) returns (others: seq<Attempt>)
    requires k < |d|
    ensures multiset(d) == multiset(others) + multiset{d[k]}
    ensures multiset(Targets(d)) == multiset(Targets(others)) + multiset{d[k].target}
  {
    var before, after := d[..k], d[k + 1..];
    others := before + after;
    SplitAt(d, k);
    TargetsAppend(before, d[k]);
    TargetsConcat(before + [d[k]], after);
    TargetsConcat(before, after);
  }

  /**
   * When the records name distinct files, each target gets exactly one
   * attempt: no two attempts of the plan share a target, and the targets are
   * those of the reference definition.
   */
  lemma PlanTargetsOnce(rs: seq<Record>, order: seq<string>)
    requires IsEnumeration(order, HashesOf(rs))
    requires NoDup(Paths(rs))
    ensures NoDup(Targets(Plan(rs, order)))
    ensures multiset(Targets(Plan(rs, order))) == multiset(Targets(Duplicates(rs)))
  {
    var p, d := Plan(rs, order), Duplicates(rs);
    PlanMatchesDuplicates(rs, order);
    DuplicateTargetsDistinct(rs);
    TargetsMultiset(p, d);
    forall t ensures multiset(Targets(p))[t] <= 1 {
      NoDupCount(Targets(d), t);
    }
    CountOneNoDup(Targets(p));
  }

  /**
   * When the records name distinct files, a file whose hash no other record
   * shares is untouched: no attempt removes it or names it as survivor.
   */
  lemma SingletonUntouched(rs: seq<Record>, order: seq<string>, h: string)
    requires IsEnumeration(order, HashesOf(rs))
    requires NoDup(Paths(rs))
    requires |Group(rs, h)| == 1
    ensures forall a :: a in Plan(rs, order) ==> a.target != Group(rs, h)[0] && a.survivor != Group(rs, h)[0]
  {
    var p := Group(rs, h)[0];
    GroupMembers(rs, h, p);
    var m :| 0 <= m < |rs| && rs[m] == Record(h, p);
    forall a | a in Plan(rs, order) ensures a.target != p && a.survivor != p {
      var j := PlanAttemptSource(rs, order, a);
      DuplicateAvoidsSingleton(rs, h, m, j);
    }
  }

  lemma DuplicateAvoidsSingleton(rs: seq<Record>, h: string, m: nat, j: nat)
    requires NoDup(Paths(rs))
    requires |Group(rs, h)| == 1
    requires m < |rs| && rs[m].hash == h
    requires j < |rs| && !IsFirst(rs, j)
    ensures DuplicateAt(rs, j).target != rs[m].path && DuplicateAt(rs, j).survivor != rs[m].path
  {
    var i := SurvivorIndex(rs, j);
    if rs[i].hash == h {
      SingletonAlone(rs, h, i, j);
      assert false;
    }
    assert Paths(rs)[i] != Paths(rs)[m] && Paths(rs)[j] != Paths(rs)[m];
  }

  /** When the records name distinct files and the group of `h` has one member, one record has hash `h`. */
  lemma SingletonAlone(rs: seq<Record>, h: string, x: nat, y: nat)
    requires NoDup(Paths(rs))
    requires |Group(rs, h)| == 1
    requires x < |rs| && y < |rs| && rs[x].hash == h && rs[y].hash == h
    ensures x == y
  {
    GroupMembers(rs, h, rs[x].path);
    GroupMembers(rs, h, rs[y].path);
    assert rs[x] in rs && rs[y] in rs;
    NoDupIndex(Paths(rs), x, y);
  }

  /** Running the policy again over the kept files targets nothing, in any order. */
  lemma RerunTargetsNothing(rs: seq<Record>, order: seq<string>)
    requires IsEnumeration(order, HashesOf(Survivors(rs)))
    ensures Plan(Survivors(rs), order) == []
  {
    SurvivorsDistinctHashes(rs);
    DistinctHashesNoDuplicates(Survivors(rs));
    PlanMatchesDuplicates(Survivors(rs), order);
    assert |Plan(Survivors(rs), order)| == |multiset(Plan(Survivors(rs), order))| == 0;
  }
}
