/** The page-writing loop: for each page, make its directory when it does not
    exist yet, then write the page over whatever file is there. The loop stops
    at the first failure (the exception propagates out of the run). */
module WriteLoop {
  import opened Options
  import opened Files

  /** One page to write: the directory checked and created, the file, its contents. */
  datatype Job = Job(dir: seq<string>, file: seq<string>, html: string)

  /** The outcome of the loop: the filesystem it leaves, and whether every write succeeded. */
  datatype Written = Written(fs: FileSystem, ok: bool)

  /** Some job writes `q`. */
  ghost predicate Targets(jobs: seq<Job>, q: seq<string>) {
    exists i :: 0 <= i < |jobs| && jobs[i].file == q
  }

  /** One iteration: `if (!fs.exists(destDir)) fs.makeTree(destDir); fs.write(destFile, html)`. */
  function WriteItem(fs: FileSystem, j: Job): (r: Option<FileSystem>)
    ensures r.Some? ==> j.dir in r.value
    ensures r.Some? ==> j.file in r.value && r.value[j.file] == File(j.html)
    ensures r.Some? ==> j.file != [] && IsDir(r.value, j.file[..|j.file| - 1])
    ensures r.Some? ==> forall q :: q in fs && q != j.file ==> q in r.value && r.value[q] == fs[q]
    ensures r.Some? ==> forall q :: q in fs ==> q in r.value && (fs[q].Dir? <==> r.value[q].Dir?)
    ensures r.Some? ==> forall q :: q in r.value && q !in fs ==> q == j.file || r.value[q] == Dir
    ensures r.Some? && WellFormed(fs) ==> WellFormed(r.value)
  {
    var prepared := if j.dir in fs then Some(fs) else MakeTree(fs, j.dir);
    assert j.dir[..|j.dir|] == j.dir;
    if prepared.None? then None else WriteFile(prepared.value, j.file, j.html)
  }

  /** The loop over all pages, in order. */
  function WriteAll(fs: FileSystem, jobs: seq<Job>): (w: Written)
    ensures forall q :: q in fs && !Targets(jobs, q) ==> q in w.fs && w.fs[q] == fs[q]
    ensures forall q :: q in fs ==> q in w.fs && (fs[q].Dir? <==> w.fs[q].Dir?)
    ensures forall q :: q in w.fs && q !in fs ==> Targets(jobs, q) || w.fs[q] == Dir
    ensures WellFormed(fs) ==> WellFormed(w.fs)
    decreases |jobs|
  {
    if jobs == [] then Written(fs, true)
    else
      match WriteItem(fs, jobs[0])
      case None => Written(fs, false)
      case Some(next) =>
        var w := WriteAll(next, jobs[1..]);
        assert forall q :: Targets(jobs[1..], q) ==> Targets(jobs, q) by {
          forall q | Targets(jobs[1..], q)
            ensures Targets(jobs, q)
          {
            var i :| 0 <= i < |jobs[1..]| && jobs[1..][i].file == q;
            assert jobs[i + 1].file == q;
          }
        }
        assert forall q :: !Targets(jobs, q) ==> q != jobs[0].file by {
          forall q | q == jobs[0].file
            ensures Targets(jobs, q)
          {
            assert jobs[0].file == q;
          }
        }
        w
  }

  /** The contents the loop leaves at `q`: those of the last job that writes it. */
  function LastWrite(jobs: seq<Job>, q: seq<string>): Option<string>
    decreases |jobs|
  {
    if jobs == [] then None
    else
      var later := LastWrite(jobs[1..], q);
      if later.Some? then later
      else if jobs[0].file == q then Some(jobs[0].html)
      else None
  }

  /** The filesystem `h` with every job's file overwritten in order, and nothing
      else: what the loop does once every directory is in place. */
  function ApplyWrites(h: FileSystem, jobs: seq<Job>): FileSystem
    decreases |jobs|
  {
    if jobs == [] then h else ApplyWrites(h[jobs[0].file := File(jobs[0].html)], jobs[1..])
  }

  /** Every job's directory exists, its file's parent is a directory and the
      file itself is a regular file. */
  ghost predicate Ready(h: FileSystem, jobs: seq<Job>) {
    forall i :: 0 <= i < |jobs| ==> JobReady(h, jobs[i])
  }

  /** The job's directory exists, its file's parent is a directory and the
      file itself is a regular file. */
  ghost predicate JobReady(h: FileSystem, j: Job) {
    && j.dir in h
    && j.file != []
    && IsDir(h, j.file[..|j.file| - 1])
    && IsFile(h, j.file)
  }

  // ---------------------------------------------------------------------------

  /** Some job writes `q` exactly when there is a last write to it. */
  lemma {:induction false} LastWriteTargets(jobs: seq<Job>, q: seq<string>)
    ensures LastWrite(jobs, q).Some? <==> Targets(jobs, q)
    decreases |jobs|
  {
    if jobs != [] {
      LastWriteTargets(jobs[1..], q);
      if Targets(jobs, q) {
        var i :| 0 <= i < |jobs| && jobs[i].file == q;
        if i > 0 {
          assert jobs[1..][i - 1].file == q;
        }
      }
      if Targets(jobs[1..], q) {
        var i :| 0 <= i < |jobs[1..]| && jobs[1..][i].file == q;
        assert jobs[i + 1].file == q;
      }
      if jobs[0].file == q {
        assert Targets(jobs, q);
      }
    }
  }

  /** What `ApplyWrites` leaves at each location. */
  lemma {:induction false} ApplyWritesAt(h: FileSystem, jobs: seq<Job>, q: seq<string>)
    ensures q in ApplyWrites(h, jobs) <==> q in h || LastWrite(jobs, q).Some?
    ensures LastWrite(jobs, q).Some? ==> ApplyWrites(h, jobs)[q] == File(LastWrite(jobs, q).value)
    ensures LastWrite(jobs, q).None? && q in h ==> ApplyWrites(h, jobs)[q] == h[q]
    decreases |jobs|
  {
    if jobs != [] {
      ApplyWritesAt(h[jobs[0].file := File(jobs[0].html)], jobs[1..], q);
    }
  }

  /** A successful loop leaves every job's directory in place, its parent a
      directory, and at every written file the contents of its last write. */
  lemma {:induction false} WriteAllPlaces(fs: FileSystem, jobs: seq<Job>)
    requires WriteAll(fs, jobs).ok
    ensures Ready(WriteAll(fs, jobs).fs, jobs)
    ensures forall q :: LastWrite(jobs, q).Some? ==>
      q in WriteAll(fs, jobs).fs && WriteAll(fs, jobs).fs[q] == File(LastWrite(jobs, q).value)
  {
    WriteAllReady(fs, jobs);
    forall q | LastWrite(jobs, q).Some?
      ensures q in WriteAll(fs, jobs).fs && WriteAll(fs, jobs).fs[q] == File(LastWrite(jobs, q).value)
    {
      WriteAllLast(fs, jobs, q);
    }
  }

  /** After a successful loop every job is ready to be run again. */
  lemma {:induction false} WriteAllReady(fs: FileSystem, jobs: seq<Job>)
    requires WriteAll(fs, jobs).ok
    ensures Ready(WriteAll(fs, jobs).fs, jobs)
    decreases |jobs|
  {
    if jobs != [] {
      var j := jobs[0];
      var next := WriteItem(fs, j).value;
      var rest := jobs[1..];
      var g := WriteAll(next, rest).fs;
      assert WriteAll(fs, jobs) == WriteAll(next, rest);
      WriteAllReady(next, rest);
      assert JobReady(next, j);
      StaysReady(next, rest, j);
      forall i | 0 <= i < |jobs|
        ensures JobReady(g, jobs[i])
      {
        if i > 0 {
          assert jobs[i] == rest[i - 1];
        }
      }
    }
  }

  /** A job ready before the loop is still ready after it. */
  lemma {:induction false} StaysReady(h: FileSystem, jobs: seq<Job>, j: Job)
    requires JobReady(h, j)
    ensures JobReady(WriteAll(h, jobs).fs, j)
  {
  }

  /** After a successful loop a written file holds its last write. */
  lemma {:induction false} WriteAllLast(fs: FileSystem, jobs: seq<Job>, q: seq<string>)
    requires WriteAll(fs, jobs).ok
    requires LastWrite(jobs, q).Some?
    ensures q in WriteAll(fs, jobs).fs && WriteAll(fs, jobs).fs[q] == File(LastWrite(jobs, q).value)
    decreases |jobs|
  {
    var next := WriteItem(fs, jobs[0]).value;
    var rest := jobs[1..];
    assert WriteAll(fs, jobs) == WriteAll(next, rest);
    if LastWrite(rest, q).Some? {
      WriteAllLast(next, rest, q);
    } else {
      LastWriteTargets(rest, q);
      assert q == jobs[0].file;
    }
  }

  /** Once every job is ready, the loop succeeds and only overwrites files. */
  lemma {:induction false} ReadyWriteAll(h: FileSystem, jobs: seq<Job>)
    requires Ready(h, jobs)
    ensures WriteAll(h, jobs) == Written(ApplyWrites(h, jobs), true)
    decreases |jobs|
  {
    if jobs != [] {
      var j := jobs[0];
      var h' := h[j.file := File(j.html)];
      assert WriteItem(h, j) == Some(h');
      forall i | 0 <= i < |jobs[1..]|
        ensures jobs[1..][i].dir in h' && jobs[1..][i].file != []
        ensures IsDir(h', jobs[1..][i].file[..|jobs[1..][i].file| - 1])
        ensures IsFile(h', jobs[1..][i].file)
      {
        assert jobs[1..][i] == jobs[i + 1];
      }
      ReadyWriteAll(h', jobs[1..]);
    }
  }

  /** Re-running a successful loop on the filesystem it produced changes nothing. */
  lemma {:induction false} WriteAllIdempotent(fs: FileSystem, jobs: seq<Job>)
    requires WriteAll(fs, jobs).ok
    ensures WriteAll(WriteAll(fs, jobs).fs, jobs) == WriteAll(fs, jobs)
  {
    var g := WriteAll(fs, jobs).fs;
    WriteAllPlaces(fs, jobs);
    ReadyWriteAll(g, jobs);
    ApplyWritesNoop(g, jobs);
  }

  /** Writing what is already there changes nothing. */
  lemma {:induction false} ApplyWritesNoop(h: FileSystem, jobs: seq<Job>)
    requires forall q :: LastWrite(jobs, q).Some? ==> q in h && h[q] == File(LastWrite(jobs, q).value)
    ensures ApplyWrites(h, jobs) == h
  {
    var again := ApplyWrites(h, jobs);
    forall q
      ensures q in again <==> q in h
      ensures q in h ==> again[q] == h[q]
    {
      ApplyWritesAt(h, jobs, q);
    }
  }

  /** With distinct destinations each written file holds its own job's contents. */
  lemma {:induction false} WriteAllDistinct(fs: FileSystem, jobs: seq<Job>, i: nat)
    requires WriteAll(fs, jobs).ok
    requires forall a, b :: 0 <= a < b < |jobs| ==> jobs[a].file != jobs[b].file
    requires i < |jobs|
    ensures jobs[i].file in WriteAll(fs, jobs).fs
    ensures WriteAll(fs, jobs).fs[jobs[i].file] == File(jobs[i].html)
  {
    WriteAllPlaces(fs, jobs);
    LastWriteUnique(jobs, i);
  }

  lemma {:induction false} LastWriteUnique(jobs: seq<Job>, i: nat)
    requires forall a, b :: 0 <= a < b < |jobs| ==> jobs[a].file != jobs[b].file
    requires i < |jobs|
    ensures LastWrite(jobs, jobs[i].file) == Some(jobs[i].html)
    decreases |jobs|
  {
    var rest := jobs[1..];
    if i == 0 {
      LastWriteTargets(rest, jobs[0].file);
      assert forall k :: 0 <= k < |rest| ==> rest[k] == jobs[k + 1];
      assert !Targets(rest, jobs[0].file);
    } else {
      assert rest[i - 1] == jobs[i];
      LastWriteUnique(rest, i - 1);
    }
  }

  /** When the directory already exists, or no file blocks its creation, the
      iteration succeeds exactly when the destination is not a directory. */
  lemma {:induction false} WriteItemSucceeds(fs: FileSystem, j: Job, leaf: string)
    requires j.file == j.dir + [leaf]
    ensures WriteItem(fs, j).Some? <==>
      (if j.dir in fs then IsDir(fs, j.dir) else !Blocked(fs, j.dir)) && !IsDir(fs, j.file)
  {
    assert j.file[..|j.file| - 1] == j.dir;
    assert j.dir[..|j.dir|] == j.dir;
    if j.dir !in fs && !Blocked(fs, j.dir) {
      var made := MakeTree(fs, j.dir).value;
      assert IsDir(made, j.dir);
      assert j.file !in Prefixes(j.dir);
      assert IsDir(made, j.file) <==> IsDir(fs, j.file);
    }
  }
}
