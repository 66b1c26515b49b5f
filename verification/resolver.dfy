/**
 The resolution policy of `provideDefinition` (src/extension.ts): split the
 workspace's style sheets into the files under the same top-level directory as
 the file being edited ("near") and the rest ("far"), scan the near files
 first, and either stop at the first declaration found or collect every
 declaration, near ones before far ones. Far files are scanned in chunks of
 `ChunkSize`. `Promise.all` keeps the order of its inputs, so each batch is a
 sequential, order-preserving scan here; the cache is threaded through it.
 */
module Resolver {
  import opened Wrappers
  import opened Text
  import opened Scanner
  import opened ContentCache

  /** How many far files are scanned together. */
  const ChunkSize: nat := 20

  // ---------------------------------------------------------------------------
  // near/far partition

  /** The first segment of a workspace-relative path: `relPath.split(sep)[0]`
      (see `TopLevelDirIsSplitHead`), the longest prefix without a
      separator. */
  function TopLevelDir(relPath: string, sep: char): (top: string)
    ensures top <= relPath && sep !in top
    ensures |top| < |relPath| ==> relPath[|top|] == sep
  {
    FirstSegment(relPath, sep)
  }

  lemma TopLevelDirIsSplitHead(relPath: string, sep: char)
    ensures TopLevelDir(relPath, sep) == Split(relPath, sep)[0]
  {
    FirstSegmentIsSplitHead(relPath, sep);
  }

  predicate InTree(file: SourceFile, top: string, sep: char) {
    TopLevelDir(file.relPath, sep) == top
  }

  /** `files.filter(...)` keeping the files whose top-level directory is `top`. */
  function SameTree(files: seq<SourceFile>, top: string, sep: char): (near: seq<SourceFile>)
    ensures forall f :: f in near <==> f in files && InTree(f, top, sep)
    decreases |files|
  {
    if |files| == 0 then []
    else (if InTree(files[0], top, sep) then [files[0]] else []) + SameTree(files[1..], top, sep)
  }

  /** `files.filter(file => !near.includes(file))`. */
  function OtherFiles(files: seq<SourceFile>, near: seq<SourceFile>): (far: seq<SourceFile>)
    ensures forall f :: f in far <==> f in files && f !in near
    decreases |files|
  {
    if |files| == 0 then []
    else (if files[0] in near then [] else [files[0]]) + OtherFiles(files[1..], near)
  }

  /** The files outside the tree `top`, in corpus order. */
  function OutsideTree(files: seq<SourceFile>, top: string, sep: char): seq<SourceFile>
    decreases |files|
  {
    if |files| == 0 then []
    else (if InTree(files[0], top, sep) then [] else [files[0]]) + OutsideTree(files[1..], top, sep)
  }

  /** The files that share the origin file's top-level directory. */
  function Near(files: seq<SourceFile>, origin: SourceFile, sep: char): (near: seq<SourceFile>)
    ensures forall f :: f in near <==> f in files && InTree(f, TopLevelDir(origin.relPath, sep), sep)
  {
    SameTree(files, TopLevelDir(origin.relPath, sep), sep)
  }

  /** Every other file. */
  function Far(files: seq<SourceFile>, origin: SourceFile, sep: char): (far: seq<SourceFile>)
    ensures forall f :: f in far <==> f in files && !InTree(f, TopLevelDir(origin.relPath, sep), sep)
  {
    OtherFiles(files, Near(files, origin, sep))
  }

  /** `a` is `b` with some elements left out, the rest in the same order. */
  predicate IsSubsequence<T(==)>(a: seq<T>, b: seq<T>)
    decreases |b|
  {
    |a| == 0 || (|b| > 0 && ((a[0] == b[0] && IsSubsequence(a[1..], b[1..])) || IsSubsequence(a, b[1..])))
  }

  lemma {:induction false} OtherFilesAreOutside(files: seq<SourceFile>, near: seq<SourceFile>,
                                                top: string, sep: char)
    requires forall f :: f in files ==> (f in near <==> InTree(f, top, sep))
    ensures OtherFiles(files, near) == OutsideTree(files, top, sep)
    decreases |files|
  {
    if |files| > 0 {
      OtherFilesAreOutside(files[1..], near, top, sep);
    }
  }

  /** One step of the split: the first file goes to exactly one side. */
  lemma TreeSplitStep(files: seq<SourceFile>, top: string, sep: char)
    requires |files| > 0
    ensures multiset(SameTree(files, top, sep)) + multiset(OutsideTree(files, top, sep)) ==
            multiset{files[0]} +
            (multiset(SameTree(files[1..], top, sep)) + multiset(OutsideTree(files[1..], top, sep)))
  {
    var near, far := SameTree(files[1..], top, sep), OutsideTree(files[1..], top, sep);
    if InTree(files[0], top, sep) {
      assert SameTree(files, top, sep) == [files[0]] + near;
      assert OutsideTree(files, top, sep) == [] + far;
    } else {
      assert SameTree(files, top, sep) == [] + near;
      assert OutsideTree(files, top, sep) == [files[0]] + far;
    }
  }

  lemma {:induction false} TreeSplitCounts(files: seq<SourceFile>, top: string, sep: char)
    ensures multiset(SameTree(files, top, sep)) + multiset(OutsideTree(files, top, sep)) == multiset(files)
    decreases |files|
  {
    if |files| > 0 {
      TreeSplitCounts(files[1..], top, sep);
      TreeSplitStep(files, top, sep);
      MultisetCons(files);
    }
  }

  lemma MultisetCons<T>(s: seq<T>)
    requires |s| > 0
    ensures multiset(s) == multiset{s[0]} + multiset(s[1..])
  {
    assert s == [s[0]] + s[1..];
  }

  lemma {:induction false} TreeSplitOrdered(files: seq<SourceFile>, top: string, sep: char)
    ensures IsSubsequence(SameTree(files, top, sep), files)
    ensures IsSubsequence(OutsideTree(files, top, sep), files)
    decreases |files|
  {
    if |files| > 0 {
      TreeSplitOrdered(files[1..], top, sep);
      var near, far := SameTree(files[1..], top, sep), OutsideTree(files[1..], top, sep);
      if InTree(files[0], top, sep) {
        assert SameTree(files, top, sep) == [files[0]] + near;
        assert ([files[0]] + near)[1..] == near;
        assert OutsideTree(files, top, sep) == far;
      } else {
        assert SameTree(files, top, sep) == near;
        assert OutsideTree(files, top, sep) == [files[0]] + far;
        assert ([files[0]] + far)[1..] == far;
      }
    }
  }

  /** The near/far split is exact: the far files are precisely the files
      outside the origin's top-level directory, every corpus file lands on
      exactly one side (counting repetitions), and both sides keep corpus
      order. */
  lemma PartitionExact(files: seq<SourceFile>, origin: SourceFile, sep: char)
    ensures var top := TopLevelDir(origin.relPath, sep);
            && Far(files, origin, sep) == OutsideTree(files, top, sep)
            && (forall f :: f in Near(files, origin, sep) <==> f in files && InTree(f, top, sep))
            && (forall f :: f in Far(files, origin, sep) <==> f in files && !InTree(f, top, sep))
            && multiset(Near(files, origin, sep)) + multiset(Far(files, origin, sep)) == multiset(files)
            && IsSubsequence(Near(files, origin, sep), files)
            && IsSubsequence(Far(files, origin, sep), files)
  {
    var top := TopLevelDir(origin.relPath, sep);
    OtherFilesAreOutside(files, Near(files, origin, sep), top, sep);
    TreeSplitCounts(files, top, sep);
    TreeSplitOrdered(files, top, sep);
  }

  // ---------------------------------------------------------------------------
  // scanning through the cache

  /** `searchInFile`: read the file through the cache, then scan its text.
      It fails exactly when the file cannot be read at `now`, and reports
      what the file declares as that read observes it. */
  function ScanFile(cache: Cache, disk: Disk, now: int, file: SourceFile, name: string)
    : (r: Result<(Option<Declaration>, Cache), ReadError>)
    ensures r.Success? <==> Seen(cache, disk, file.path, now).Some?
    ensures r.Success? ==> r.value.0 == SearchSeen(cache, disk, now, file, name)
  {
    GetAgreesWithSeen(cache, disk, file.path, now);
    var got :- Get(cache, disk, file.path, now);
    Success((SearchInFile(got.0, name, file), got.1))
  }

  /** A scan changes no cache entry but the file's own, nor what any read
      at `now` observes. */
  lemma ScanFileFrame(cache: Cache, disk: Disk, now: int, file: SourceFile, name: string)
    ensures var r := ScanFile(cache, disk, now, file, name);
            r.Success? ==> && SameView(cache, r.value.1, disk, now)
                           && forall q :: q != file.path ==> SameEntry(cache, r.value.1, q)
  {
    GetAgreesWithSeen(cache, disk, file.path, now);
  }

  /** Some file of `files` has the file-system path `p`. */
  predicate Mentions(files: seq<SourceFile>, p: string) {
    exists i :: 0 <= i < |files| && files[i].path == p
  }

  /** `Promise.all(files.map(searchInFile))`: one result per file, in the
      order of `files` (see `ScanAllAgrees` and `ScanAllFrame`). */
  function ScanAll(cache: Cache, disk: Disk, now: int, files: seq<SourceFile>, name: string)
    : (r: Result<(seq<Option<Declaration>>, Cache), ReadError>)
    ensures r.Success? ==> |r.value.0| == |files|
    decreases |files|
  {
    if |files| == 0 then Success(([], cache))
    else
      var first :- ScanFile(cache, disk, now, files[0], name);
      var rest :- ScanAll(first.1, disk, now, files[1..], name);
      Success(([first.0] + rest.0, rest.1))
  }

  /** A batch changes only the cache entries of the files it scans. */
  lemma {:induction false} ScanAllFrame(cache: Cache, disk: Disk, now: int, files: seq<SourceFile>,
                                        name: string)
    ensures var r := ScanAll(cache, disk, now, files, name);
            r.Success? ==> forall p :: !Mentions(files, p) ==> SameEntry(cache, r.value.1, p)
    decreases |files|
  {
    if |files| > 0 {
      var first := ScanFile(cache, disk, now, files[0], name);
      if first.Success? {
        ScanFileFrame(cache, disk, now, files[0], name);
        ScanAllFrame(first.value.1, disk, now, files[1..], name);
        forall p | !Mentions(files, p) ensures p != files[0].path && !Mentions(files[1..], p) {
          assert forall i :: 0 <= i < |files[1..]| ==> files[1..][i] == files[i + 1];
        }
      }
    }
  }

  /** The results that are not `null`, in order: the `if (result)` filter.
      Each result gives at most one declaration, and a declaration is kept
      exactly when some result holds it. */
  function Found(results: seq<Option<Declaration>>): (r: seq<Declaration>)
    ensures |r| <= |results|
    ensures forall d :: d in r <==> Some(d) in results
    decreases |results|
  {
    if |results| == 0 then []
    else (if results[0].Some? then [results[0].value] else []) + Found(results[1..])
  }

  // ---------------------------------------------------------------------------
  // the reference: what the files declare, as the cache and store show them

  /** The scan of `file` against the text a read at `now` would observe. */
  function SearchSeen(cache: Cache, disk: Disk, now: int, file: SourceFile,
                      name: string): Option<Declaration> {
    match Seen(cache, disk, file.path, now)
    case None => None
    case Some(text) => SearchInFile(text, name, file)
  }

  /** Every file of `files` can be read at `now`. */
  predicate Readable(cache: Cache, disk: Disk, now: int, files: seq<SourceFile>) {
    forall f :: f in files ==> Seen(cache, disk, f.path, now).Some?
  }

  /** No file of `files` declares `name` at `now`. */
  predicate NoneDeclare(cache: Cache, disk: Disk, now: int, files: seq<SourceFile>, name: string) {
    forall f :: f in files ==> SearchSeen(cache, disk, now, f, name).None?
  }

  /** The declaration each file holds, file by file in order. */
  function Declarations(cache: Cache, disk: Disk, now: int, files: seq<SourceFile>,
                        name: string): seq<Declaration>
    decreases |files|
  {
    if |files| == 0 then []
    else Reported(SearchSeen(cache, disk, now, files[0], name)) + Declarations(cache, disk, now, files[1..], name)
  }

  /** A scan's report as a list of at most one declaration. */
  function Reported(hit: Option<Declaration>): seq<Declaration> {
    if hit.Some? then [hit.value] else []
  }

  /** The first element of `ds`, if any, as a list of at most one. */
  function FirstOf(ds: seq<Declaration>): seq<Declaration> {
    if |ds| == 0 then [] else [ds[0]]
  }

  lemma {:induction false} FoundAppend(a: seq<Option<Declaration>>, b: seq<Option<Declaration>>)
    ensures Found(a + b) == Found(a) + Found(b)
    decreases |a|
  {
    if |a| > 0 {
      var head := if a[0].Some? then [a[0].value] else [];
      assert (a + b)[0] == a[0] && (a + b)[1..] == a[1..] + b;
      FoundAppend(a[1..], b);
      calc {
        Found(a + b);
        head + Found(a[1..] + b);
        head + (Found(a[1..]) + Found(b));
        (head + Found(a[1..])) + Found(b);
      }
    } else {
      assert a + b == b;
    }
  }

  lemma {:induction false} DeclarationsAppend(cache: Cache, disk: Disk, now: int, a: seq<SourceFile>,
                                              b: seq<SourceFile>, name: string)
    ensures Declarations(cache, disk, now, a + b, name) ==
            Declarations(cache, disk, now, a, name) + Declarations(cache, disk, now, b, name)
    decreases |a|
  {
    if |a| > 0 {
      var head := Reported(SearchSeen(cache, disk, now, a[0], name));
      assert (a + b)[0] == a[0] && (a + b)[1..] == a[1..] + b;
      DeclarationsAppend(cache, disk, now, a[1..], b, name);
      calc {
        Declarations(cache, disk, now, a + b, name);
        head + Declarations(cache, disk, now, a[1..] + b, name);
        head + (Declarations(cache, disk, now, a[1..], name) + Declarations(cache, disk, now, b, name));
        (head + Declarations(cache, disk, now, a[1..], name)) + Declarations(cache, disk, now, b, name);
      }
    } else {
      assert a + b == b;
    }
  }

  /** Caches that look the same to every read hold the same declarations. */
  lemma {:induction false} DeclarationsRespectView(cache: Cache, cache': Cache, disk: Disk, now: int,
                                                   files: seq<SourceFile>, name: string)
    requires SameView(cache, cache', disk, now)
    ensures Readable(cache, disk, now, files) <==> Readable(cache', disk, now, files)
    ensures Declarations(cache, disk, now, files, name) == Declarations(cache', disk, now, files, name)
    decreases |files|
  {
    if |files| > 0 {
      DeclarationsRespectView(cache, cache', disk, now, files[1..], name);
      assert SearchSeen(cache, disk, now, files[0], name) == SearchSeen(cache', disk, now, files[0], name);
    }
  }

  lemma NoneDeclareCons(cache: Cache, disk: Disk, now: int, files: seq<SourceFile>, name: string)
    requires |files| > 0
    ensures NoneDeclare(cache, disk, now, files, name) <==>
            SearchSeen(cache, disk, now, files[0], name).None? && NoneDeclare(cache, disk, now, files[1..], name)
  {
    assert forall f :: f in files <==> f == files[0] || f in files[1..] by {
      assert files == [files[0]] + files[1..];
    }
  }

  /** No file declares anything exactly when the declaration list is empty. */
  lemma {:induction false} DeclarationsEmptyIff(cache: Cache, disk: Disk, now: int,
                                                files: seq<SourceFile>, name: string)
    ensures Declarations(cache, disk, now, files, name) == [] <==> NoneDeclare(cache, disk, now, files, name)
    decreases |files|
  {
    if |files| > 0 {
      NoneDeclareCons(cache, disk, now, files, name);
      DeclarationsEmptyIff(cache, disk, now, files[1..], name);
    }
  }

  /** The batched scan agrees with the reference: it succeeds exactly when
      every file can be read, then finds exactly `Declarations`, and leaves a
      cache that every later read at `now` sees as the old one. */
  lemma {:induction false} ScanAllAgrees(cache: Cache, disk: Disk, now: int, files: seq<SourceFile>,
                                         name: string)
    ensures ScanAll(cache, disk, now, files, name).Success? <==> Readable(cache, disk, now, files)
    ensures ScanAll(cache, disk, now, files, name).Success? ==>
              && Found(ScanAll(cache, disk, now, files, name).value.0) == Declarations(cache, disk, now, files, name)
              && SameView(cache, ScanAll(cache, disk, now, files, name).value.1, disk, now)
    decreases |files|
  {
    if |files| > 0 {
      assert Readable(cache, disk, now, files) <==>
             Seen(cache, disk, files[0].path, now).Some? && Readable(cache, disk, now, files[1..]) by {
        assert files == [files[0]] + files[1..];
      }
      var first := ScanFile(cache, disk, now, files[0], name);
      if first.Success? {
        var c1 := first.value.1;
        ScanFileFrame(cache, disk, now, files[0], name);
        ScanAllAgrees(c1, disk, now, files[1..], name);
        DeclarationsRespectView(cache, c1, disk, now, files[1..], name);
        var rest := ScanAll(c1, disk, now, files[1..], name);
        if rest.Success? {
          FoundAppend([first.value.0], rest.value.0);
          assert SameView(cache, rest.value.1, disk, now) by {
            forall p ensures Seen(cache, disk, p, now) == Seen(rest.value.1, disk, p, now) {
              assert Seen(cache, disk, p, now) == Seen(c1, disk, p, now);
            }
          }
        }
      }
    }
  }

  /** Scanning `a + b` in one batch is scanning `a`, then `b` with the cache
      `a` left behind. */
  lemma {:induction false} ScanAllAppend(cache: Cache, disk: Disk, now: int, a: seq<SourceFile>,
                                         b: seq<SourceFile>, name: string)
    ensures ScanAll(cache, disk, now, a + b, name) ==
            match ScanAll(cache, disk, now, a, name)
            case Failure(e) => Failure(e)
            case Success(ra) =>
              match ScanAll(ra.1, disk, now, b, name)
              case Failure(e) => Failure(e)
              case Success(rb) => Success((ra.0 + rb.0, rb.1))
    decreases |a|
  {
    if |a| > 0 {
      assert (a + b)[0] == a[0] && (a + b)[1..] == a[1..] + b;
      var first := ScanFile(cache, disk, now, a[0], name);
      if first.Success? {
        var c1 := first.value.1;
        ScanAllAppend(c1, disk, now, a[1..], b, name);
        var ra := ScanAll(c1, disk, now, a[1..], name);
        if ra.Success? {
          var rb := ScanAll(ra.value.1, disk, now, b, name);
          if rb.Success? {
            assert [first.value.0] + (ra.value.0 + rb.value.0) == ([first.value.0] + ra.value.0) + rb.value.0;
          }
        }
      }
    } else {
      assert a + b == b;
      var rb := ScanAll(cache, disk, now, b, name);
      if rb.Success? {
        assert [] + rb.value.0 == rb.value.0;
      }
    }
  }

  // ---------------------------------------------------------------------------
  // the far files, chunk by chunk

  /** The loop over `otherFiles` in chunks of `chunkSize`: each chunk is one
      batch; without `showAll` the first declaration found ends the loop and
      is the answer, otherwise each chunk's declarations are appended to
      `acc`. */
  function ScanChunks(cache: Cache, disk: Disk, now: int, files: seq<SourceFile>, name: string,
                      showAll: bool, chunkSize: nat, acc: seq<Declaration>)
    : (r: Result<(seq<Declaration>, Cache), ReadError>)
    requires chunkSize >= 1
    ensures r.Success? && !showAll ==> r.value.0 == acc || |r.value.0| == 1
    decreases |files|
  {
    if |files| == 0 then Success((acc, cache))
    else
      var k := ChunkLength(files, chunkSize);
      var batch :- ScanAll(cache, disk, now, files[..k], name);
      var found := Found(batch.0);
      if !showAll && |found| > 0 then Success(([found[0]], batch.1))
      else
        assert found == [] ==> acc + found == acc;
        ScanChunks(batch.1, disk, now, files[k..], name, showAll, chunkSize, acc + found)
  }

  /** When every declaration is collected, chunking changes nothing: for any
      chunk size the result (and the cache left behind) is that of one batch
      over all the files. */
  lemma {:induction false} ChunkingTransparent(cache: Cache, disk: Disk, now: int,
                                               files: seq<SourceFile>, name: string,
                                               chunkSize: nat, acc: seq<Declaration>)
    requires chunkSize >= 1
    ensures ScanChunks(cache, disk, now, files, name, true, chunkSize, acc) ==
            match ScanAll(cache, disk, now, files, name)
            case Failure(e) => Failure(e)
            case Success(rs) => Success((acc + Found(rs.0), rs.1))
    decreases |files|
  {
    if |files| == 0 {
      assert acc + Found([]) == acc;
    } else {
      var k := ChunkLength(files, chunkSize);
      assert files == files[..k] + files[k..];
      ScanAllAppend(cache, disk, now, files[..k], files[k..], name);
      match ScanAll(cache, disk, now, files[..k], name)
      case Failure(_) =>
      case Success(batch) =>
        ChunkingTransparent(batch.1, disk, now, files[k..], name, chunkSize, acc + Found(batch.0));
        match ScanAll(batch.1, disk, now, files[k..], name)
        case Failure(_) =>
        case Success(rest) =>
          FoundAppend(batch.0, rest.0);
          assert acc + Found(batch.0) + Found(rest.0) == acc + Found(batch.0 + rest.0);
    }
  }

  /** The size of the next chunk, `slice(i, i + CHUNK_SIZE)`: a full chunk,
      or every remaining file when fewer than a full chunk remain. */
  function ChunkLength(files: seq<SourceFile>, chunkSize: nat): (k: nat)
    requires chunkSize >= 1 && |files| > 0
    ensures 1 <= k <= |files| && k <= chunkSize
    ensures k == chunkSize || k == |files|
  {
    if chunkSize < |files| then chunkSize else |files|
  }

  lemma ReadableAppend(cache: Cache, disk: Disk, now: int, a: seq<SourceFile>, b: seq<SourceFile>)
    ensures Readable(cache, disk, now, a + b) <==> Readable(cache, disk, now, a) && Readable(cache, disk, now, b)
  {
  }

  /** Stopping at the first declaration, the chunked loop answers with the
      first declaration of the files in order, whatever the chunk size, and
      with nothing when none declares the name. */
  lemma {:induction false} ChunkedFirstMatch(cache: Cache, disk: Disk, now: int, files: seq<SourceFile>,
                                             name: string, chunkSize: nat)
    requires chunkSize >= 1
    requires Readable(cache, disk, now, files)
    ensures var r := ScanChunks(cache, disk, now, files, name, false, chunkSize, []);
            r.Success? && r.value.0 == FirstOf(Declarations(cache, disk, now, files, name))
    decreases |files|
  {
    if |files| > 0 {
      var k := ChunkLength(files, chunkSize);
      var front, back := files[..k], files[k..];
      assert files == front + back;
      DeclarationsAppend(cache, disk, now, front, back, name);
      ReadableAppend(cache, disk, now, front, back);
      ScanAllAgrees(cache, disk, now, front, name);
      var batch := ScanAll(cache, disk, now, front, name).value;
      var found := Found(batch.0);
      if found == [] {
        DeclarationsRespectView(cache, batch.1, disk, now, back, name);
        ChunkedFirstMatch(batch.1, disk, now, back, name, chunkSize);
        assert [] + found == [];
      }
    }
  }

  /** No file before position `j` declares the name. */
  predicate NoneDeclareBefore(cache: Cache, disk: Disk, now: int, files: seq<SourceFile>, name: string,
                              j: nat)
    requires j <= |files|
  {
    forall i {:trigger SearchSeen(cache, disk, now, files[i], name)} ::
      0 <= i < j ==> SearchSeen(cache, disk, now, files[i], name).None?
  }

  /** Every file before position `e` can be read. */
  predicate ReadableBefore(cache: Cache, disk: Disk, now: int, files: seq<SourceFile>, e: nat)
    requires e <= |files|
  {
    forall i {:trigger Seen(cache, disk, files[i].path, now)} ::
      0 <= i < e ==> Seen(cache, disk, files[i].path, now).Some?
  }

  /** The end of the chunk that holds position `j` when `n` files are cut
      into chunks of `c` from the front: the loop index advances by `c`
      until it passes `j`, and the last chunk stops at `n`. */
  function ChunkEnd(j: nat, c: nat, n: nat): (e: nat)
    requires c >= 1 && j < n
    ensures j < e <= n && e <= j + c
    decreases j
  {
    if j < c then (if c < n then c else n)
    else c + ChunkEnd(j - c, c, n - c)
  }

  /** The chunk holding `j` ends at the first multiple of `c` above `j`, or
      at `n` when that lies past the end. */
  lemma {:induction false} ChunkEndValue(j: nat, c: nat, n: nat)
    requires c >= 1 && j < n
    ensures ChunkEnd(j, c, n) == if (j / c + 1) * c < n then (j / c + 1) * c else n
    decreases j
  {
    if j >= c {
      ChunkEndValue(j - c, c, n - c);
      NextMultipleStep(j, c);
    }
  }

  /** One chunk further on, the next multiple of `c` is `c` larger. */
  lemma NextMultipleStep(j: nat, c: nat)
    requires 1 <= c <= j
    ensures ((j - c) / c + 1) * c + c == (j / c + 1) * c
  {
    var q := j / c;
    DivStep(j, c);
    assert ((j - c) / c + 1) * c == q * c;
    assert (q + 1) * c == q * c + c;
  }

  /** Taking `c` away from `j` lowers its quotient by one. */
  lemma DivStep(j: nat, c: nat)
    requires 1 <= c <= j
    ensures (j - c) / c == j / c - 1
  {
    var q, r := (j - c) / c, (j - c) % c;
    assert j == (q + 1) * c + r;
    DivUnique(j, c, q + 1, r);
  }

  /** Euclidean division has one quotient. */
  lemma DivUnique(x: nat, c: nat, q: int, r: int)
    requires c >= 1 && 0 <= r < c && x == q * c + r
    ensures x / c == q
  {
    var q', r' := x / c, x % c;
    assert x == q' * c + r';
    assert (q - q') * c == q * c - q' * c;
    if q > q' {
      MulAtLeast(q - q', c);
    } else if q < q' {
      assert (q' - q) * c == q' * c - q * c;
      MulAtLeast(q' - q, c);
    }
  }

  lemma MulAtLeast(a: int, c: nat)
    requires a >= 1
    ensures a * c >= c
  {
    assert a * c == (a - 1) * c + c;
  }

  /** Past the first chunk, the chunk holding `j` ends one chunk further on
      than the chunk holding `j - c` in the rest. */
  lemma ChunkEndStep(j: nat, c: nat, n: nat)
    requires 1 <= c <= j < n
    ensures ChunkEnd(j, c, n) == c + ChunkEnd(j - c, c, n - c)
  {
  }

  /** Stopping at the first declaration, the chunked loop reads no chunk
      after the one holding the first declaring file `j`: the files up to the
      end of that chunk being readable is enough for the answer, whatever the
      later files hold. */
  lemma {:induction false} ChunkedFirstMatchPrefix(cache: Cache, disk: Disk, now: int,
                                                   files: seq<SourceFile>, name: string,
                                                   chunkSize: nat, j: nat)
    requires chunkSize >= 1 && j < |files|
    requires NoneDeclareBefore(cache, disk, now, files, name, j)
    requires SearchSeen(cache, disk, now, files[j], name).Some?
    requires ReadableBefore(cache, disk, now, files, ChunkEnd(j, chunkSize, |files|))
    ensures var r := ScanChunks(cache, disk, now, files, name, false, chunkSize, []);
            r.Success? && r.value.0 == [SearchSeen(cache, disk, now, files[j], name).value]
    decreases |files|, 1
  {
    if j < ChunkLength(files, chunkSize) {
      FirstMatchInFirstChunk(cache, disk, now, files, name, chunkSize, j);
    } else {
      FirstMatchPastFirstChunk(cache, disk, now, files, name, chunkSize, j);
    }
  }

  /** The first declaring file lies in the first chunk. */
  lemma FirstMatchInFirstChunk(cache: Cache, disk: Disk, now: int, files: seq<SourceFile>, name: string,
                               chunkSize: nat, j: nat)
    requires chunkSize >= 1 && j < |files| && j < ChunkLength(files, chunkSize)
    requires NoneDeclareBefore(cache, disk, now, files, name, j)
    requires SearchSeen(cache, disk, now, files[j], name).Some?
    requires ReadableBefore(cache, disk, now, files, ChunkEnd(j, chunkSize, |files|))
    ensures var r := ScanChunks(cache, disk, now, files, name, false, chunkSize, []);
            r.Success? && r.value.0 == [SearchSeen(cache, disk, now, files[j], name).value]
  {
    var k := ChunkLength(files, chunkSize);
    assert ChunkEnd(j, chunkSize, |files|) == k;
    ReadableWithin(cache, disk, now, files, k);
    FirstDeclarationWithin(cache, disk, now, files, name, j, k);
    ScanAllAgrees(cache, disk, now, files[..k], name);
  }

  /** The first `e` files can all be read. */
  lemma ReadableWithin(cache: Cache, disk: Disk, now: int, files: seq<SourceFile>, e: nat)
    requires e <= |files|
    requires ReadableBefore(cache, disk, now, files, e)
    ensures Readable(cache, disk, now, files[..e])
  {
    forall f | f in files[..e] ensures Seen(cache, disk, f.path, now).Some? {
      var i :| 0 <= i < e && files[..e][i] == f;
    }
  }

  /** None of the first `e` files declares the name. */
  lemma NothingWithin(cache: Cache, disk: Disk, now: int, files: seq<SourceFile>, name: string, e: nat)
    requires e <= |files|
    requires NoneDeclareBefore(cache, disk, now, files, name, e)
    ensures Declarations(cache, disk, now, files[..e], name) == []
  {
    forall f | f in files[..e] ensures SearchSeen(cache, disk, now, f, name).None? {
      var i :| 0 <= i < e && files[..e][i] == f;
    }
    DeclarationsEmptyIff(cache, disk, now, files[..e], name);
  }

  /** Among the first `e` files, the first declaration is that of file `j`
      when no file before `j` declares the name. */
  lemma {:induction false} FirstDeclarationWithin(cache: Cache, disk: Disk, now: int,
                                                  files: seq<SourceFile>, name: string,
                                                  j: nat, e: nat)
    requires j < e <= |files|
    requires NoneDeclareBefore(cache, disk, now, files, name, j)
    requires SearchSeen(cache, disk, now, files[j], name).Some?
    ensures var ds := Declarations(cache, disk, now, files[..e], name);
            ds != [] && ds[0] == SearchSeen(cache, disk, now, files[j], name).value
    decreases j
  {
    var front := files[..e];
    assert front[0] == files[0];
    if j > 0 {
      assert front[1..] == files[1..][..e - 1];
      assert SearchSeen(cache, disk, now, files[0], name).None?;
      FirstDeclarationWithin(cache, disk, now, files[1..], name, j - 1, e - 1);
    }
  }

  /** The first chunk declares nothing: the loop goes on with the rest of the
      files and the cache that chunk left behind. */
  lemma {:induction false} FirstMatchPastFirstChunk(cache: Cache, disk: Disk, now: int,
                                                    files: seq<SourceFile>, name: string,
                                                    chunkSize: nat, j: nat)
    requires 1 <= chunkSize && j < |files| && ChunkLength(files, chunkSize) <= j
    requires NoneDeclareBefore(cache, disk, now, files, name, j)
    requires SearchSeen(cache, disk, now, files[j], name).Some?
    requires ReadableBefore(cache, disk, now, files, ChunkEnd(j, chunkSize, |files|))
    ensures var r := ScanChunks(cache, disk, now, files, name, false, chunkSize, []);
            r.Success? && r.value.0 == [SearchSeen(cache, disk, now, files[j], name).value]
    decreases |files|, 0
  {
    FirstChunkEmpty(cache, disk, now, files, name, chunkSize, j);
    var batch := ScanAll(cache, disk, now, files[..chunkSize], name).value;
    ChunkDeclaresNothing(cache, disk, now, files, name, chunkSize);
    ShiftPastChunk(cache, batch.1, disk, now, files, name, chunkSize, j);
    ChunkedFirstMatchPrefix(batch.1, disk, now, files[chunkSize..], name, chunkSize, j - chunkSize);
  }

  /** A chunk that is read in full and declares nothing hands the loop on to
      the rest of the files with nothing collected. */
  lemma ChunkDeclaresNothing(cache: Cache, disk: Disk, now: int, files: seq<SourceFile>, name: string,
                             chunkSize: nat)
    requires chunkSize >= 1 && |files| > 0
    requires var r := ScanAll(cache, disk, now, files[..ChunkLength(files, chunkSize)], name);
             r.Success? && Found(r.value.0) == []
    ensures var k := ChunkLength(files, chunkSize);
            var batch := ScanAll(cache, disk, now, files[..k], name).value;
            ScanChunks(cache, disk, now, files, name, false, chunkSize, []) ==
            ScanChunks(batch.1, disk, now, files[k..], name, false, chunkSize, [])
  {
    var k := ChunkLength(files, chunkSize);
    var batch := ScanAll(cache, disk, now, files[..k], name).value;
    assert [] + Found(batch.0) == [];
  }

  /** A first chunk that ends before the first declaring file is read in
      full and declares nothing. */
  lemma FirstChunkEmpty(cache: Cache, disk: Disk, now: int, files: seq<SourceFile>, name: string,
                        chunkSize: nat, j: nat)
    requires 1 <= chunkSize && j < |files| && ChunkLength(files, chunkSize) <= j
    requires NoneDeclareBefore(cache, disk, now, files, name, j)
    requires ReadableBefore(cache, disk, now, files, ChunkEnd(j, chunkSize, |files|))
    ensures ChunkLength(files, chunkSize) == chunkSize
    ensures var r := ScanAll(cache, disk, now, files[..chunkSize], name);
            && r.Success? && Found(r.value.0) == []
            && SameView(cache, r.value.1, disk, now)
  {
    ChunkEndStep(j, chunkSize, |files|);
    ReadableWithin(cache, disk, now, files, chunkSize);
    NothingWithin(cache, disk, now, files, name, chunkSize);
    ScanAllAgrees(cache, disk, now, files[..chunkSize], name);
  }

  /** The conditions at `j` carry over, one chunk on, to the rest of the
      files and any cache with the same view. */
  lemma ShiftPastChunk(cache: Cache, cache': Cache, disk: Disk, now: int, files: seq<SourceFile>,
                       name: string,
                       chunkSize: nat, j: nat)
    requires SameView(cache, cache', disk, now)
    requires 1 <= chunkSize <= j < |files|
    requires NoneDeclareBefore(cache, disk, now, files, name, j)
    requires SearchSeen(cache, disk, now, files[j], name).Some?
    requires ReadableBefore(cache, disk, now, files, ChunkEnd(j, chunkSize, |files|))
    ensures var back := files[chunkSize..];
            && NoneDeclareBefore(cache', disk, now, back, name, j - chunkSize)
            && SearchSeen(cache', disk, now, back[j - chunkSize], name) == SearchSeen(cache, disk, now, files[j], name)
            && ReadableBefore(cache', disk, now, back, ChunkEnd(j - chunkSize, chunkSize, |back|))
  {
    var back := files[chunkSize..];
    ChunkEndStep(j, chunkSize, |files|);
    forall i | 0 <= i < j - chunkSize
      ensures SearchSeen(cache', disk, now, back[i], name).None?
    {
      assert back[i] == files[chunkSize + i];
      assert SearchSeen(cache, disk, now, files[chunkSize + i], name).None?;
      assert Seen(cache', disk, back[i].path, now) == Seen(cache, disk, back[i].path, now);
    }
    assert back[j - chunkSize] == files[j];
    assert Seen(cache', disk, files[j].path, now) == Seen(cache, disk, files[j].path, now);
    forall i | 0 <= i < ChunkEnd(j - chunkSize, chunkSize, |back|)
      ensures Seen(cache', disk, back[i].path, now).Some?
    {
      assert back[i] == files[chunkSize + i];
      assert Seen(cache, disk, files[chunkSize + i].path, now).Some?;
      assert Seen(cache', disk, back[i].path, now) == Seen(cache, disk, back[i].path, now);
    }
  }

  /** The conditions at `j` hold alike for any two caches with the same
      view. */
  lemma FirstMatchRespectsView(cache: Cache, cache': Cache, disk: Disk, now: int, files: seq<SourceFile>,
                               name: string,
                               chunkSize: nat, j: nat)
    requires SameView(cache, cache', disk, now)
    requires 1 <= chunkSize && j < |files|
    requires NoneDeclareBefore(cache, disk, now, files, name, j)
    requires SearchSeen(cache, disk, now, files[j], name).Some?
    requires ReadableBefore(cache, disk, now, files, ChunkEnd(j, chunkSize, |files|))
    ensures NoneDeclareBefore(cache', disk, now, files, name, j)
    ensures SearchSeen(cache', disk, now, files[j], name) == SearchSeen(cache, disk, now, files[j], name)
    ensures ReadableBefore(cache', disk, now, files, ChunkEnd(j, chunkSize, |files|))
  {
    forall i | 0 <= i < j ensures SearchSeen(cache', disk, now, files[i], name).None? {
      assert SearchSeen(cache, disk, now, files[i], name).None?;
      assert Seen(cache', disk, files[i].path, now) == Seen(cache, disk, files[i].path, now);
    }
    assert Seen(cache', disk, files[j].path, now) == Seen(cache, disk, files[j].path, now);
    forall i | 0 <= i < ChunkEnd(j, chunkSize, |files|) ensures Seen(cache', disk, files[i].path, now).Some? {
      assert Seen(cache, disk, files[i].path, now).Some?;
      assert Seen(cache', disk, files[i].path, now) == Seen(cache, disk, files[i].path, now);
    }
  }

  /** With a declaring file followed by an unreadable one, stopping at the
      first declaration succeeds with chunks of one file and fails with
      chunks of two: the chunk size decides whether the unreadable file is
      read before the loop stops. */
  lemma ChunkSizeObservable(cache: Cache, disk: Disk, now: int, f1: SourceFile, f2: SourceFile, name: string)
    requires SearchSeen(cache, disk, now, f1, name).Some?
    requires Seen(cache, disk, f2.path, now).None?
    ensures var r := ScanChunks(cache, disk, now, [f1, f2], name, false, 1, []);
            r.Success? && r.value.0 == [SearchSeen(cache, disk, now, f1, name).value]
    ensures ScanChunks(cache, disk, now, [f1, f2], name, false, 2, []).Failure?
  {
    ChunkedFirstMatchPrefix(cache, disk, now, [f1, f2], name, 1, 0);
    assert [f1, f2][..2] == [f1, f2];
    assert !Readable(cache, disk, now, [f1, f2]);
    ScanAllAgrees(cache, disk, now, [f1, f2], name);
  }

  // ---------------------------------------------------------------------------
  // provideDefinition

  /** The declarations `provideDefinition` settles on, and the cache after
      the scans. Without `showAll` this is at most one declaration; a failed
      read anywhere in a scanned batch fails the whole query (the source's
      `catch` then answers with no location). */
  function Resolve(cache: Cache, disk: Disk, now: int, files: seq<SourceFile>, origin: SourceFile,
                   sep: char, name: string, showAll: bool)
    : (r: Result<(seq<Declaration>, Cache), ReadError>)
    ensures r.Success? && !showAll ==> |r.value.0| <= 1
  {
    var near := Near(files, origin, sep);
    var far := Far(files, origin, sep);
    var nearScan :- ScanAll(cache, disk, now, near, name);
    var nearFound := Found(nearScan.0);
    if !showAll && |nearFound| > 0 then Success(([nearFound[0]], nearScan.1))
    else
      var r := ScanChunks(nearScan.1, disk, now, far, name, showAll, ChunkSize, nearFound);
      assert r.Success? && !showAll ==> |r.value.0| <= 1 by {
        if !showAll && r.Success? {
          ChunkedFirstMatchShape(nearScan.1, disk, now, far, name, ChunkSize);
        }
      }
      r
  }

  /** Without `showAll` and nothing collected yet, the chunked loop answers
      with at most one declaration. */
  lemma {:induction false} ChunkedFirstMatchShape(cache: Cache, disk: Disk, now: int,
                                                  files: seq<SourceFile>, name: string, chunkSize: nat)
    requires chunkSize >= 1
    ensures var r := ScanChunks(cache, disk, now, files, name, false, chunkSize, []);
            r.Success? ==> |r.value.0| <= 1
    decreases |files|
  {
    if |files| > 0 {
      var k := ChunkLength(files, chunkSize);
      match ScanAll(cache, disk, now, files[..k], name)
      case Failure(_) =>
      case Success(batch) =>
        assert [] + Found(batch.0) == Found(batch.0);
        ChunkedFirstMatchShape(batch.1, disk, now, files[k..], name, chunkSize);
    }
  }

  /** First-match policy, near side: when a near file declares the name, the
      answer is the first near declaration in corpus order, and no far file
      is read (the cache entry of every path no near file has is untouched). */
  lemma NearMatchWins(cache: Cache, disk: Disk, now: int, files: seq<SourceFile>, origin: SourceFile,
                      sep: char, name: string)
    requires Readable(cache, disk, now, Near(files, origin, sep))
    requires Declarations(cache, disk, now, Near(files, origin, sep), name) != []
    ensures var r := Resolve(cache, disk, now, files, origin, sep, name, false);
            && r.Success?
            && r.value.0 == [Declarations(cache, disk, now, Near(files, origin, sep), name)[0]]
            && forall p :: !Mentions(Near(files, origin, sep), p) ==> SameEntry(cache, r.value.1, p)
  {
    ScanAllAgrees(cache, disk, now, Near(files, origin, sep), name);
    ScanAllFrame(cache, disk, now, Near(files, origin, sep), name);
  }

  /** First-match policy, far side: when no near file declares the name, the
      answer is the first far declaration in corpus order, or nothing. */
  lemma FarFallback(cache: Cache, disk: Disk, now: int, files: seq<SourceFile>, origin: SourceFile,
                    sep: char, name: string)
    requires Readable(cache, disk, now, Near(files, origin, sep))
    requires Readable(cache, disk, now, Far(files, origin, sep))
    requires Declarations(cache, disk, now, Near(files, origin, sep), name) == []
    ensures var r := Resolve(cache, disk, now, files, origin, sep, name, false);
            && r.Success?
            && r.value.0 == FirstOf(Declarations(cache, disk, now, Far(files, origin, sep), name))
  {
    var near, far := Near(files, origin, sep), Far(files, origin, sep);
    ScanAllAgrees(cache, disk, now, near, name);
    var nearScan := ScanAll(cache, disk, now, near, name).value;
    DeclarationsRespectView(cache, nearScan.1, disk, now, far, name);
    ChunkedFirstMatch(nearScan.1, disk, now, far, name, ChunkSize);
  }

  /** First-match policy, far side, with unreadable far files: when no near
      file declares the name, only the far files up to the end of the chunk
      of `ChunkSize` holding the first declaring far file need be readable;
      the answer is that file's declaration. */
  lemma FarFallbackPrefix(cache: Cache, disk: Disk, now: int, files: seq<SourceFile>, origin: SourceFile,
                          sep: char,
                          name: string, j: nat)
    requires Readable(cache, disk, now, Near(files, origin, sep))
    requires Declarations(cache, disk, now, Near(files, origin, sep), name) == []
    requires j < |Far(files, origin, sep)|
    requires NoneDeclareBefore(cache, disk, now, Far(files, origin, sep), name, j)
    requires SearchSeen(cache, disk, now, Far(files, origin, sep)[j], name).Some?
    requires ReadableBefore(cache, disk, now, Far(files, origin, sep),
                            ChunkEnd(j, ChunkSize, |Far(files, origin, sep)|))
    ensures var r := Resolve(cache, disk, now, files, origin, sep, name, false);
            r.Success? && r.value.0 == [SearchSeen(cache, disk, now, Far(files, origin, sep)[j], name).value]
  {
    var near, far := Near(files, origin, sep), Far(files, origin, sep);
    ScanAllAgrees(cache, disk, now, near, name);
    var nearScan := ScanAll(cache, disk, now, near, name).value;
    FirstMatchRespectsView(cache, nearScan.1, disk, now, far, name, ChunkSize, j);
    ChunkedFirstMatchPrefix(nearScan.1, disk, now, far, name, ChunkSize, j);
  }

  /** All-matches policy: every near declaration in corpus order, then every
      far declaration in corpus order. */
  lemma AllMatchesNearThenFar(cache: Cache, disk: Disk, now: int, files: seq<SourceFile>,
                              origin: SourceFile, sep: char, name: string)
    requires Readable(cache, disk, now, Near(files, origin, sep))
    requires Readable(cache, disk, now, Far(files, origin, sep))
    ensures var r := Resolve(cache, disk, now, files, origin, sep, name, true);
            && r.Success?
            && r.value.0 == Declarations(cache, disk, now, Near(files, origin, sep), name)
                            + Declarations(cache, disk, now, Far(files, origin, sep), name)
  {
    var near, far := Near(files, origin, sep), Far(files, origin, sep);
    ScanAllAgrees(cache, disk, now, near, name);
    var nearScan := ScanAll(cache, disk, now, near, name).value;
    ChunkingTransparent(nearScan.1, disk, now, far, name, ChunkSize, Found(nearScan.0));
    ScanAllAgrees(nearScan.1, disk, now, far, name);
    DeclarationsRespectView(cache, nearScan.1, disk, now, far, name);
  }

  /** Near and far files together are readable exactly when the corpus is. */
  lemma ReadableSides(cache: Cache, disk: Disk, now: int, files: seq<SourceFile>, origin: SourceFile,
                      sep: char)
    ensures Readable(cache, disk, now, files) <==>
            Readable(cache, disk, now, Near(files, origin, sep)) && Readable(cache, disk, now, Far(files, origin, sep))
  {
  }

  /** With every declaration collected, the list is empty exactly when no
      file of the corpus declares the name. */
  lemma AllMatchesEmptyIff(cache: Cache, disk: Disk, now: int, files: seq<SourceFile>,
                           origin: SourceFile, sep: char, name: string)
    requires Readable(cache, disk, now, files)
    ensures var r := Resolve(cache, disk, now, files, origin, sep, name, true);
            r.Success? && (r.value.0 == [] <==> NoneDeclare(cache, disk, now, files, name))
  {
    var near, far := Near(files, origin, sep), Far(files, origin, sep);
    AllMatchesNearThenFar(cache, disk, now, files, origin, sep, name);
    DeclarationsEmptyIff(cache, disk, now, near, name);
    DeclarationsEmptyIff(cache, disk, now, far, name);
  }

  /** A near file that cannot be read fails the query under either policy:
      `Promise.all` over the near files rejects. */
  lemma UnreadableNearFails(cache: Cache, disk: Disk, now: int, files: seq<SourceFile>, origin: SourceFile,
                            sep: char, name: string, showAll: bool)
    requires !Readable(cache, disk, now, Near(files, origin, sep))
    ensures Resolve(cache, disk, now, files, origin, sep, name, showAll).Failure?
  {
    ScanAllAgrees(cache, disk, now, Near(files, origin, sep), name);
  }

  /** Collecting every declaration reads every file, so one unreadable file
      anywhere fails the query. */
  lemma UnreadableFailsAllMatches(cache: Cache, disk: Disk, now: int, files: seq<SourceFile>,
                                  origin: SourceFile,
                                  sep: char, name: string)
    requires !Readable(cache, disk, now, files)
    ensures Resolve(cache, disk, now, files, origin, sep, name, true).Failure?
  {
    var near, far := Near(files, origin, sep), Far(files, origin, sep);
    ReadableSides(cache, disk, now, files, origin, sep);
    ScanAllAgrees(cache, disk, now, near, name);
    var nearScan := ScanAll(cache, disk, now, near, name);
    if nearScan.Success? {
      ChunkingTransparent(nearScan.value.1, disk, now, far, name, ChunkSize, Found(nearScan.value.0));
      DeclarationsRespectView(cache, nearScan.value.1, disk, now, far, name);
      ScanAllAgrees(nearScan.value.1, disk, now, far, name);
    }
  }

  /** A query leaves a cache that every read at the same instant sees as the
      old one. */
  lemma ResolveKeepsView(cache: Cache, disk: Disk, now: int, files: seq<SourceFile>, origin: SourceFile,
                         sep: char, name: string, showAll: bool)
    requires Resolve(cache, disk, now, files, origin, sep, name, showAll).Success?
    ensures SameView(cache, Resolve(cache, disk, now, files, origin, sep, name, showAll).value.1, disk, now)
  {
    var near, far := Near(files, origin, sep), Far(files, origin, sep);
    ScanAllAgrees(cache, disk, now, near, name);
    var nearScan := ScanAll(cache, disk, now, near, name).value;
    if showAll || Found(nearScan.0) == [] {
      ChunksKeepView(nearScan.1, disk, now, far, name, showAll, ChunkSize, Found(nearScan.0));
    }
  }

  lemma {:induction false} ChunksKeepView(cache: Cache, disk: Disk, now: int, files: seq<SourceFile>,
                                          name: string,
                                          showAll: bool, chunkSize: nat, acc: seq<Declaration>)
    requires chunkSize >= 1
    requires ScanChunks(cache, disk, now, files, name, showAll, chunkSize, acc).Success?
    ensures SameView(cache, ScanChunks(cache, disk, now, files, name, showAll, chunkSize, acc).value.1, disk, now)
    decreases |files|
  {
    if |files| > 0 {
      var k := ChunkLength(files, chunkSize);
      ScanAllAgrees(cache, disk, now, files[..k], name);
      var batch := ScanAll(cache, disk, now, files[..k], name).value;
      var found := Found(batch.0);
      if showAll || |found| == 0 {
        ChunksKeepView(batch.1, disk, now, files[k..], name, showAll, chunkSize, acc + found);
      }
    }
  }

  /** Two caches that look the same to every read give the same answer. */
  lemma {:induction false} ChunksRespectView(cache: Cache, cache': Cache, disk: Disk, now: int,
                                             files: seq<SourceFile>,
                                             name: string, showAll: bool, chunkSize: nat, acc: seq<Declaration>)
    requires chunkSize >= 1
    requires SameView(cache, cache', disk, now)
    ensures var r := ScanChunks(cache, disk, now, files, name, showAll, chunkSize, acc);
            var r' := ScanChunks(cache', disk, now, files, name, showAll, chunkSize, acc);
            (r.Success? <==> r'.Success?) && (r.Success? ==> r.value.0 == r'.value.0)
    decreases |files|
  {
    if |files| > 0 {
      var k := ChunkLength(files, chunkSize);
      ScanAllAgrees(cache, disk, now, files[..k], name);
      ScanAllAgrees(cache', disk, now, files[..k], name);
      DeclarationsRespectView(cache, cache', disk, now, files[..k], name);
      var b := ScanAll(cache, disk, now, files[..k], name);
      var b' := ScanAll(cache', disk, now, files[..k], name);
      if b.Success? {
        var found := Found(b.value.0);
        if showAll || |found| == 0 {
          ChunksRespectView(b.value.1, b'.value.1, disk, now, files[k..], name, showAll, chunkSize, acc + found);
        }
      }
    }
  }

  /** Resolving the same name twice at the same instant, the second time
      against the cache the first left behind, gives the same declarations. */
  lemma ResolveIdempotent(cache: Cache, disk: Disk, now: int, files: seq<SourceFile>, origin: SourceFile,
                          sep: char, name: string, showAll: bool)
    requires Resolve(cache, disk, now, files, origin, sep, name, showAll).Success?
    ensures var (decls, cache') := Resolve(cache, disk, now, files, origin, sep, name, showAll).value;
            var again := Resolve(cache', disk, now, files, origin, sep, name, showAll);
            again.Success? && again.value.0 == decls
  {
    var cache' := Resolve(cache, disk, now, files, origin, sep, name, showAll).value.1;
    ResolveKeepsView(cache, disk, now, files, origin, sep, name, showAll);
    var near, far := Near(files, origin, sep), Far(files, origin, sep);
    ScanAllAgrees(cache, disk, now, near, name);
    ScanAllAgrees(cache', disk, now, near, name);
    DeclarationsRespectView(cache, cache', disk, now, near, name);
    var s := ScanAll(cache, disk, now, near, name).value;
    var s' := ScanAll(cache', disk, now, near, name).value;
    if showAll || Found(s.0) == [] {
      assert SameView(s.1, s'.1, disk, now) by {
        forall p ensures Seen(s.1, disk, p, now) == Seen(s'.1, disk, p, now) {
          assert Seen(s.1, disk, p, now) == Seen(cache, disk, p, now);
          assert Seen(cache', disk, p, now) == Seen(s'.1, disk, p, now);
        }
      }
      ChunksRespectView(s.1, s'.1, disk, now, far, name, showAll, ChunkSize, Found(s.0));
    }
  }

  /** The locations `provideDefinition` returns: none after a failed read or
      when nothing is declared, the single first declaration without
      `showAll`, and otherwise the declaration the user picks from the list
      (`pick` is the index chosen in the quick pick, `None` if dismissed). */
  function ProvideDefinition(cache: Cache, disk: Disk, now: int, files: seq<SourceFile>, origin: SourceFile,
                             sep: char, name: string, showAll: bool, pick: Option<nat>)
    : (r: (seq<Location>, Cache))
    ensures |r.0| <= 1
    ensures r.0 != [] ==>
              var res := Resolve(cache, disk, now, files, origin, sep, name, showAll);
              && res.Success?
              && exists i :: 0 <= i < |res.value.0| && r.0[0] == res.value.0[i].location
    ensures r.0 != [] && !showAll ==>
              r.0[0] == Resolve(cache, disk, now, files, origin, sep, name, showAll).value.0[0].location
    ensures var res := Resolve(cache, disk, now, files, origin, sep, name, showAll);
            res.Success? && res.value.0 != [] && !showAll ==> r.0 == [res.value.0[0].location]
    ensures var res := Resolve(cache, disk, now, files, origin, sep, name, showAll);
            res.Success? && showAll && pick.Some? && pick.value < |res.value.0| ==>
              r.0 == [res.value.0[pick.value].location]
    ensures var res := Resolve(cache, disk, now, files, origin, sep, name, showAll);
            res.Failure? || res.value.0 == [] || (showAll && (pick.None? || pick.value >= |res.value.0|)) ==>
              r.0 == []
  {
    match Resolve(cache, disk, now, files, origin, sep, name, showAll)
    case Failure(_) => ([], cache)
    case Success(res) =>
      var (decls, cache') := res;
      if |decls| == 0 then ([], cache')
      else if !showAll then ([decls[0].location], cache')
      else
        match pick
        case Some(i) => if i < |decls| then ([decls[i].location], cache') else ([], cache')
        case None => ([], cache')
  }

  /** When every file can be read and none declares the name, the query
      answers with no location under either policy (the "No definition
      found" path). */
  lemma NothingDeclaredNoLocation(cache: Cache, disk: Disk, now: int, files: seq<SourceFile>,
                                  origin: SourceFile,
                                  sep: char, name: string, showAll: bool, pick: Option<nat>)
    requires Readable(cache, disk, now, files)
    requires NoneDeclare(cache, disk, now, files, name)
    ensures ProvideDefinition(cache, disk, now, files, origin, sep, name, showAll, pick).0 == []
  {
    var near, far := Near(files, origin, sep), Far(files, origin, sep);
    ReadableSides(cache, disk, now, files, origin, sep);
    DeclarationsEmptyIff(cache, disk, now, near, name);
    DeclarationsEmptyIff(cache, disk, now, far, name);
    if showAll {
      AllMatchesNearThenFar(cache, disk, now, files, origin, sep, name);
    } else {
      FarFallback(cache, disk, now, files, origin, sep, name);
    }
  }

  /** A path `dir/rest` whose first segment `dir` has no separator lies
      under the top-level directory `dir`. */
  lemma TopLevelOfNested(dir: string, sep: char, rest: string)
    requires sep !in dir
    ensures TopLevelDir(dir + [sep] + rest, sep) == dir
  {
    TopLevelDirIsSplitHead(dir + [sep] + rest, sep);
    SplitAppend(dir, sep, rest);
    SplitWithoutSeparator(dir, sep);
  }

  /** A single file's declarations are its scan's report, if any. */
  lemma SingleFileDeclarations(cache: Cache, disk: Disk, now: int, f: SourceFile, name: string)
    ensures Declarations(cache, disk, now, [f], name) ==
            (if SearchSeen(cache, disk, now, f, name).Some? then [SearchSeen(cache, disk, now, f, name).value] else [])
  {
    assert [f][1..] == [];
  }

  /** Ranking puts the origin's tree first: with a corpus listing a file
      `b` of another tree before a file `a` of the origin's tree, collecting
      every declaration yields `a`'s (if any) before `b`'s (if any), and when
      `a` declares the name, stopping at the first yields `a`'s alone. */
  lemma NearTreeRankedFirst(a: SourceFile, b: SourceFile, origin: SourceFile, sep: char,
                            dirA: string, dirB: string, restA: string, restB: string, restO: string,
                            disk: Disk, now: int, name: string)
    requires sep !in dirA && sep !in dirB && dirA != dirB
    requires a.relPath == dirA + [sep] + restA
    requires b.relPath == dirB + [sep] + restB
    requires origin.relPath == dirA + [sep] + restO
    requires a.path in disk && b.path in disk
    ensures var all := Resolve(map[], disk, now, [b, a], origin, sep, name, true);
            var da, db := SearchInFile(disk[a.path], name, a), SearchInFile(disk[b.path], name, b);
            && all.Success?
            && all.value.0 == (if da.Some? then [da.value] else []) + (if db.Some? then [db.value] else [])
    ensures var first := Resolve(map[], disk, now, [b, a], origin, sep, name, false);
            var da := SearchInFile(disk[a.path], name, a);
            da.Some? ==> first.Success? && first.value.0 == [da.value]
  {
    var files := [b, a];
    TopLevelOfNested(dirA, sep, restA);
    TopLevelOfNested(dirB, sep, restB);
    TopLevelOfNested(dirA, sep, restO);
    var top := TopLevelDir(origin.relPath, sep);
    assert InTree(a, top, sep) && !InTree(b, top, sep);
    assert Near(files, origin, sep) == [a] by {
      assert files[1..] == [a] && [a][1..] == [];
      assert SameTree([a][1..], top, sep) == [];
      assert SameTree([a], top, sep) == [a] + [];
      assert SameTree(files, top, sep) == [] + SameTree([a], top, sep);
    }
    assert b != a;
    assert Far(files, origin, sep) == [b] by {
      assert files[1..] == [a] && [a][1..] == [];
      assert OtherFiles([a][1..], [a]) == [];
      assert OtherFiles([a], [a]) == [] + [];
      assert OtherFiles(files, [a]) == [b] + OtherFiles([a], [a]);
    }
    SingleFileDeclarations(map[], disk, now, a, name);
    SingleFileDeclarations(map[], disk, now, b, name);
    AllMatchesNearThenFar(map[], disk, now, files, origin, sep, name);
    if SearchInFile(disk[a.path], name, a).Some? {
      NearMatchWins(map[], disk, now, files, origin, sep, name);
    }
  }
}
