/** The duplicate search of both downloaders (`find_duplicate_transcripts`):
    walk a directory tree, hash every file with the wanted suffix, remember
    the first path seen for each hash and pair every later path with that
    first one.

    The walk is given as the `(root, files)` pairs `os.walk` yields, in its
    order; `compute_sha1` is an uninterpreted function that yields `None`
    when the file cannot be read. */
module DuplicateScan {
  import opened PyText

  /** One step of `os.walk`: a directory and the names of the files in it. */
  datatype WalkEntry = WalkEntry(root: string, files: seq<string>)

  /** `compute_sha1`: a hex digest, or `None` on a read error. */
  type Hasher = string -> Option<string>

  /** The `hashes` dictionary and the `duplicates` list. */
  datatype ScanState = ScanState(hashes: map<Option<string>, string>, duplicates: seq<(string, string)>)

  // ---------------------------------------------------------------- candidates

  /** The paths of one directory's files that end with `ext`, in order. */
  function EntryPaths(root: string, files: seq<string>, ext: string): (r: seq<string>)
    ensures |r| <= |files|
    ensures forall p :: p in r ==> EndsWith(p, ext)
  {
    if files == [] then []
    else
      var f := files[|files| - 1];
      var init := EntryPaths(root, files[..|files| - 1], ext);
      if EndsWith(f, ext) then
        JoinedKeepsSuffix(root, f, ext);
        init + [PathJoin(root, f)]
      else init
  }

  /** `os.path.join(root, f)` ends with whatever `f` ends with. */
  lemma JoinedKeepsSuffix(root: string, f: string, ext: string)
    requires EndsWith(f, ext)
    ensures EndsWith(PathJoin(root, f), ext)
  {
    var p := PathJoin(root, f);
    assert EndsWith(p, f);
    var a, b := p[|p| - |ext|..], f[|f| - |ext|..];
    assert a == b by {
      assert p[|p| - |f|..] == f;
      assert forall i :: 0 <= i < |a| ==> a[i] == b[i];
    }
  }

  /** Every path the nested loops hash, in traversal order. */
  function Candidates(walk: seq<WalkEntry>, ext: string): (r: seq<string>)
    ensures forall p :: p in r ==> EndsWith(p, ext)
  {
    if walk == [] then []
    else
      var e := walk[|walk| - 1];
      Candidates(walk[..|walk| - 1], ext) + EntryPaths(e.root, e.files, ext)
  }

  // ---------------------------------------------------------------- the scan

  /** The loop body for one path. */
  function Step(st: ScanState, path: string, sha1: Hasher): ScanState
  {
    var h := sha1(path);
    if h in st.hashes then
      st.(duplicates := st.duplicates + [(path, st.hashes[h])])
    else
      st.(hashes := st.hashes[h := path])
  }

  /** The state after the loop has seen `paths`. */
  function Scan(paths: seq<string>, sha1: Hasher): ScanState
  {
    if paths == [] then ScanState(map[], [])
    else Step(Scan(paths[..|paths| - 1], sha1), paths[|paths| - 1], sha1)
  }

  /** Index of the first path in `paths` whose hash is `h`, or `|paths|`. */
  function FirstWith(paths: seq<string>, h: Option<string>, sha1: Hasher): (k: nat)
    ensures k <= |paths|
    ensures k < |paths| ==> sha1(paths[k]) == h
    ensures forall j :: 0 <= j < k ==> sha1(paths[j]) != h
  {
    if paths == [] then 0
    else if sha1(paths[0]) == h then 0
    else 1 + FirstWith(paths[1..], h, sha1)
  }

  /** The paths whose hash already occurred earlier: the ones reported as
      duplicates, in order. Defined without the dictionary. */
  function Repeats(paths: seq<string>, sha1: Hasher): seq<string>
  {
    if paths == [] then []
    else
      var init := paths[..|paths| - 1];
      var last := paths[|paths| - 1];
      Repeats(init, sha1) + (if FirstWith(init, sha1(last), sha1) < |init| then [last] else [])
  }

  /** A first occurrence in a prefix is a first occurrence in the whole. */
  lemma {:induction false} FirstWithExtend(paths: seq<string>, x: string, h: Option<string>, sha1: Hasher)
    ensures FirstWith(paths + [x], h, sha1)
         == if FirstWith(paths, h, sha1) < |paths| then FirstWith(paths, h, sha1)
            else if sha1(x) == h then |paths| else |paths| + 1
  {
    var k := FirstWith(paths, h, sha1);
    var q := paths + [x];
    var kq := FirstWith(q, h, sha1);
    if k < |paths| {
      assert q[k] == paths[k];
      assert forall j :: 0 <= j < k ==> q[j] == paths[j];
    } else {
      assert forall j :: 0 <= j < |paths| ==> q[j] == paths[j];
      assert q[|paths|] == x;
      assert forall j :: 0 <= j < |paths| ==> sha1(q[j]) != h;
      if sha1(x) != h {
        assert forall j :: 0 <= j < |q| ==> sha1(q[j]) != h;
      }
    }
  }

  /** The dictionary maps exactly the hashes seen so far, each to the first
      path that had it. */
  lemma {:induction false} ScanHashes(paths: seq<string>, sha1: Hasher)
    ensures forall h :: h in Scan(paths, sha1).hashes <==> FirstWith(paths, h, sha1) < |paths|
    ensures forall h :: h in Scan(paths, sha1).hashes ==>
              Scan(paths, sha1).hashes[h] == paths[FirstWith(paths, h, sha1)]
  {
    if paths != [] {
      var init := paths[..|paths| - 1];
      var last := paths[|paths| - 1];
      ScanHashes(init, sha1);
      assert paths == init + [last];
      forall h ensures FirstWith(paths, h, sha1)
                    == if FirstWith(init, h, sha1) < |init| then FirstWith(init, h, sha1)
                       else if sha1(last) == h then |init| else |init| + 1 {
        FirstWithExtend(init, last, h, sha1);
      }
    }
  }

  /** Every path is either the first with its hash or a reported duplicate:
      the number of pairs is the number of paths minus the number of
      distinct hashes. */
  lemma {:induction false} ScanCount(paths: seq<string>, sha1: Hasher)
    ensures |Scan(paths, sha1).duplicates| + |Scan(paths, sha1).hashes| == |paths|
  {
    if paths != [] {
      ScanCount(paths[..|paths| - 1], sha1);
    }
  }

  /** The pairs are `(later path, first path with the same hash)`, and the
      later paths are exactly the repeats, in traversal order. */
  lemma {:induction false} ScanPairs(paths: seq<string>, sha1: Hasher)
    ensures |Scan(paths, sha1).duplicates| == |Repeats(paths, sha1)|
    ensures forall i :: 0 <= i < |Scan(paths, sha1).duplicates| ==>
              var (dup, original) := Scan(paths, sha1).duplicates[i];
              && dup == Repeats(paths, sha1)[i]
              && FirstWith(paths, sha1(dup), sha1) < |paths|
              && original == paths[FirstWith(paths, sha1(dup), sha1)]
              && sha1(original) == sha1(dup)
  {
    if paths != [] {
      var init := paths[..|paths| - 1];
      var last := paths[|paths| - 1];
      ScanPairs(init, sha1);
      ScanHashes(init, sha1);
      assert paths == init + [last];
      forall h ensures FirstWith(paths, h, sha1)
                    == if FirstWith(init, h, sha1) < |init| then FirstWith(init, h, sha1)
                       else if sha1(last) == h then |init| else |init| + 1 {
        FirstWithExtend(init, last, h, sha1);
      }
      forall i | 0 <= i < |init| ensures paths[i] == init[i] { }
    }
  }

  /** A file name without the suffix adds no path. */
  lemma EntryPathsSkip(root: string, files: seq<string>, j: nat, ext: string)
    requires j < |files| && !EndsWith(files[j], ext)
    ensures EntryPaths(root, files[..j + 1], ext) == EntryPaths(root, files[..j], ext)
  {
    assert files[..j + 1][..j] == files[..j];
  }

  /** A file name with the suffix adds its joined path. */
  lemma EntryPathsKeep(root: string, files: seq<string>, j: nat, ext: string)
    requires j < |files| && EndsWith(files[j], ext)
    ensures EntryPaths(root, files[..j + 1], ext)
         == EntryPaths(root, files[..j], ext) + [PathJoin(root, files[j])]
  {
    assert files[..j + 1][..j] == files[..j];
  }

  /** One more directory of the walk: its matching paths follow. */
  lemma CandidatesStep(walk: seq<WalkEntry>, i: nat, ext: string)
    requires i < |walk|
    ensures Candidates(walk[..i + 1], ext)
         == Candidates(walk[..i], ext) + EntryPaths(walk[i].root, walk[i].files, ext)
  {
    assert walk[..i + 1][..i] == walk[..i];
  }

  /** Scanning one more path is one more loop step. */
  lemma ScanSnoc(seen: seq<string>, path: string, sha1: Hasher)
    ensures Scan(seen + [path], sha1) == Step(Scan(seen, sha1), path, sha1)
  {
    assert (seen + [path])[..|seen|] == seen;
  }

  /** A matching file continues the scan by one step. */
  lemma ScanDirectoryStep(before: seq<string>, root: string, files: seq<string>, j: nat,
                          ext: string, sha1: Hasher)
    requires j < |files| && EndsWith(files[j], ext)
    ensures Scan(before + EntryPaths(root, files[..j + 1], ext), sha1)
         == Step(Scan(before + EntryPaths(root, files[..j], ext), sha1), PathJoin(root, files[j]), sha1)
  {
    var init := EntryPaths(root, files[..j], ext);
    EntryPathsKeep(root, files, j, ext);
    assert before + (init + [PathJoin(root, files[j])]) == before + init + [PathJoin(root, files[j])];
    ScanSnoc(before + init, PathJoin(root, files[j]), sha1);
  }

  /** The body of the inner loop for one matching file: remember its path
      under a new hash, or pair it with the path remembered for its hash. */
  method Visit(st0: ScanState, filePath: string, sha1: Hasher) returns (st: ScanState)
    ensures st == Step(st0, filePath, sha1)
  {
    var fileHash := sha1(filePath);
    if fileHash in st0.hashes {
      st := st0.(duplicates := st0.duplicates + [(filePath, st0.hashes[fileHash])]);
    } else {
      st := st0.(hashes := st0.hashes[fileHash := filePath]);
    }
  }

  /** The inner loop of `find_duplicate_transcripts`: the files of one
      directory, continuing the scan of the paths `before`. */
  method ScanDirectory(st0: ScanState, ghost before: seq<string>, root: string, files: seq<string>,
                       ext: string, sha1: Hasher) returns (st: ScanState)
    requires st0 == Scan(before, sha1)
    ensures st == Scan(before + EntryPaths(root, files, ext), sha1)
  {
    st := st0;
    assert files[..0] == [] && before + [] == before;
    for j := 0 to |files|
      invariant st == Scan(before + EntryPaths(root, files[..j], ext), sha1)
    {
      var file := files[j];
      if EndsWith(file, ext) {
        var filePath := PathJoin(root, file);
        ScanDirectoryStep(before, root, files, j, ext, sha1);
        st := Visit(st, filePath, sha1);
      } else {
        EntryPathsSkip(root, files, j, ext);
      }
    }
    assert files[..|files|] == files;
  }

  /** The nested loops of `find_duplicate_transcripts`, over the walk, keeping
      the files whose name ends with `ext`. */
  method FindDuplicates(walk: seq<WalkEntry>, ext: string, sha1: Hasher) returns (st: ScanState)
    ensures st == Scan(Candidates(walk, ext), sha1)
    ensures |st.duplicates| + |st.hashes| == |Candidates(walk, ext)|
  {
    st := ScanState(map[], []);
    for i := 0 to |walk|
      invariant st == Scan(Candidates(walk[..i], ext), sha1)
    {
      CandidatesStep(walk, i, ext);
      st := ScanDirectory(st, Candidates(walk[..i], ext), walk[i].root, walk[i].files, ext, sha1);
    }
    assert walk[..|walk|] == walk;
    ScanCount(Candidates(walk, ext), sha1);
  }

  // ---------------------------------------------------------------- unreadable files

  /** `compute_sha1` returns `None` for every file it cannot read, and `None`
      is a dictionary key like any other: the second unreadable file is
      reported as a duplicate of the first. */
  lemma UnreadableFilesPaired(a: string, b: string, sha1: Hasher)
    requires sha1(a).None? && sha1(b).None?
    ensures Scan([a, b], sha1).duplicates == [(b, a)]
  {
    assert [a, b][..1] == [a];
    assert [a][..0] == [];
    assert Scan([a], sha1) == ScanState(map[sha1(a) := a], []);
    assert sha1(b) == sha1(a);
  }

  /** The files whose digest could be computed, in order. */
  function Readable(paths: seq<string>, sha1: Hasher): (r: seq<string>)
    ensures forall p :: p in r ==> p in paths && sha1(p).Some?
  {
    if paths == [] then []
    else
      var init := Readable(paths[..|paths| - 1], sha1);
      var last := paths[|paths| - 1];
      if sha1(last).Some? then init + [last] else init
  }

  /** The scan as intended: a file without a digest is neither remembered
      nor reported. */
  function ScanReadable(paths: seq<string>, sha1: Hasher): ScanState
  {
    if paths == [] then ScanState(map[], [])
    else
      var st := ScanReadable(paths[..|paths| - 1], sha1);
      var last := paths[|paths| - 1];
      if sha1(last).None? then st else Step(st, last, sha1)
  }

  /** Skipping unreadable files is the same as scanning only the readable
      ones. */
  lemma {:induction false} ScanReadableIsScanOfReadable(paths: seq<string>, sha1: Hasher)
    ensures ScanReadable(paths, sha1) == Scan(Readable(paths, sha1), sha1)
  {
    if paths != [] {
      var init := paths[..|paths| - 1];
      var last := paths[|paths| - 1];
      ScanReadableIsScanOfReadable(init, sha1);
      if sha1(last).Some? {
        var q := Readable(init, sha1) + [last];
        assert q[..|q| - 1] == Readable(init, sha1);
      }
    }
  }

  /** With the intended scan every reported pair has one real digest, and
      unreadable files never pair up. */
  lemma ReadablePairsShareDigest(paths: seq<string>, sha1: Hasher)
    ensures forall i :: 0 <= i < |ScanReadable(paths, sha1).duplicates| ==>
              var (dup, original) := ScanReadable(paths, sha1).duplicates[i];
              && sha1(dup).Some? && sha1(dup) == sha1(original)
              && dup in paths && original in paths
  {
    var r := Readable(paths, sha1);
    ScanReadableIsScanOfReadable(paths, sha1);
    ScanPairs(r, sha1);
    RepeatsAreIn(r, sha1);
    forall i | 0 <= i < |Scan(r, sha1).duplicates|
      ensures Scan(r, sha1).duplicates[i].0 in r && Scan(r, sha1).duplicates[i].1 in r
    {
      assert Scan(r, sha1).duplicates[i].0 == Repeats(r, sha1)[i];
    }
  }

  lemma UnreadableFilesNotPaired(a: string, b: string, sha1: Hasher)
    requires sha1(a).None? && sha1(b).None?
    ensures ScanReadable([a, b], sha1).duplicates == []
  {
    assert [a, b][..1] == [a];
    assert [a][..0] == [];
    assert ScanReadable([a], sha1) == ScanState(map[], []);
  }

  /** Every repeat is one of the scanned paths. */
  lemma {:induction false} RepeatsAreIn(paths: seq<string>, sha1: Hasher)
    ensures forall p :: p in Repeats(paths, sha1) ==> p in paths
  {
    if paths != [] {
      RepeatsAreIn(paths[..|paths| - 1], sha1);
      assert forall p :: p in paths[..|paths| - 1] ==> p in paths;
    }
  }
}
