/**
 * The snapshot comparison contract shared by `VerifyTest::assert_snapshot`
 * (verify-tests) and its older twin `VerifyTest::verify` (root crate): the
 * effect of one call on the disk, and of creating a store.
 */
module Snapshot {
  import opened Text
  import opened Fs

  const AcceptedSuffix: string := ".accepted.json"
  const ReceivedSuffix: string := ".received.json"

  function AcceptedPath(dir: Dir, fname: string): Path {
    Path(dir, fname + AcceptedSuffix)
  }

  function ReceivedPath(dir: Dir, fname: string): Path {
    Path(dir, fname + ReceivedSuffix)
  }

  lemma SuffixedNamesDiffer(a: string, b: string)
    ensures a + AcceptedSuffix != b + ReceivedSuffix
  {
    if |a| == |b| {
      assert (a + AcceptedSuffix)[|a| + 1] == 'a';
      assert (b + ReceivedSuffix)[|b| + 1] == 'r';
    } else {
      assert |a + AcceptedSuffix| != |b + ReceivedSuffix|;
    }
  }

  /**
   * How a call ends: it returns the boolean, `assert!` panics on a mismatch,
   * or an `expect` panics on an I/O error.
   */
  datatype Verdict = Returned(value: bool) | MismatchPanic | IoPanic

  datatype CheckResult = CheckResult(verdict: Verdict, disk: Disk)

  /** `m'` and `m` hold the same files with the same contents, except at the paths `touched`. */
  ghost predicate AgreeOutside(m: Files, m': Files, touched: set<Path>) {
    forall p :: p !in touched ==> (p in m' <==> p in m) && (p in m ==> m'[p] == m[p])
  }

  lemma UpdatesAgreeOutside(m: Files, a: Path, x: string, b: Path, y: string)
    ensures AgreeOutside(m, m, {a, b})
    ensures AgreeOutside(m, m[a := x], {a, b})
    ensures AgreeOutside(m, m[a := x][b := y], {a, b})
  {
  }

  /** The text compared against: the accepted file's, or "" when it is about to be created. */
  function Baseline(d: Disk, dir: Dir, fname: string): string {
    var acc := AcceptedPath(dir, fname);
    if acc in d.files then d.files[acc] else ""
  }

  /** The accepted file can be read, or created empty. */
  predicate BaselineAvailable(d: Disk, dir: Dir, fname: string) {
    var acc := AcceptedPath(dir, fname);
    acc in d.files || (dir in d.dirs && !IsDir(d, acc))
  }

  predicate Writable(d: Disk, p: Path) {
    p.dir in d.dirs && !IsDir(d, p)
  }

  /** The comparison after the baseline text is known. */
  function Compare(d: Disk, dir: Dir, fname: string, received: string, acceptedText: string): (r: CheckResult)
    ensures r.verdict != Returned(false)
    ensures r.verdict == Returned(true) <==> received == Trim(acceptedText)
    ensures r.verdict == MismatchPanic <==>
      received != Trim(acceptedText) && Writable(d, ReceivedPath(dir, fname))
    ensures r.verdict != MismatchPanic ==> r.disk == d
    ensures r.verdict == MismatchPanic ==> r.disk == d.(files := d.files[ReceivedPath(dir, fname) := received])
  {
    if received == Trim(acceptedText) then CheckResult(Returned(true), d)
    else match Written(d, ReceivedPath(dir, fname), received)
      case Fault(d1) => CheckResult(IoPanic, d1)
      case Ok(d1) => CheckResult(MismatchPanic, d1)
  }

  /**
   * One comparison of `serialized` against the baseline of test `fname` in
   * directory `dir`.
   */
  function Check(d: Disk, dir: Dir, fname: string, serialized: string): (r: CheckResult)
    // Only `true` is ever returned: a mismatch panics.
    ensures r.verdict != Returned(false)
    ensures r.verdict == Returned(true) <==>
      BaselineAvailable(d, dir, fname) && Trim(serialized) == Trim(Baseline(d, dir, fname))
    ensures r.verdict == MismatchPanic <==>
      BaselineAvailable(d, dir, fname) && Trim(serialized) != Trim(Baseline(d, dir, fname))
      && Writable(d, ReceivedPath(dir, fname))
  {
    var received := Trim(serialized);
    var acc := AcceptedPath(dir, fname);
    if !Present(d, acc) then
      match Written(d, acc, "")
      case Fault(d1) => CheckResult(IoPanic, d1)
      case Ok(d1) =>
        SuffixedNamesDiffer(fname, fname);
        Compare(d1, dir, fname, received, "")
    else if acc !in d.files then
      // `read_to_string` on a directory fails.
      CheckResult(IoPanic, d)
    else
      Compare(d, dir, fname, received, d.files[acc])
  }

  /** What one comparison leaves on the disk. */
  lemma CheckEffect(d: Disk, dir: Dir, fname: string, serialized: string)
    ensures var r := Check(d, dir, fname, serialized);
      var acc, rec := AcceptedPath(dir, fname), ReceivedPath(dir, fname);
      // On a match the only possible change is the new empty accepted file.
      && (r.verdict == Returned(true) ==> r.disk == d.(files := d.files[acc := Baseline(d, dir, fname)]))
      // On a mismatch the received file holds the trimmed text.
      && (r.verdict == MismatchPanic ==>
            r.disk == d.(files := d.files[acc := Baseline(d, dir, fname)][rec := Trim(serialized)]))
      // A failed read or write leaves at most the new empty accepted file.
      && (r.verdict == IoPanic ==> r.disk == d || (acc !in d.files && r.disk == d.(files := d.files[acc := ""])))
      // An existing accepted file is never modified.
      && (acc in d.files ==> acc in r.disk.files && r.disk.files[acc] == d.files[acc])
  {
    var r := Check(d, dir, fname, serialized);
    var acc, rec := AcceptedPath(dir, fname), ReceivedPath(dir, fname);
    var received := Trim(serialized);
    SuffixedNamesDiffer(fname, fname);
    if !Present(d, acc) {
      if Written(d, acc, "").Ok? {
        var d1 := d.(files := d.files[acc := ""]);
        assert r == Compare(d1, dir, fname, received, "");
      }
    } else if acc in d.files {
      assert r == Compare(d, dir, fname, received, d.files[acc]);
      assert d.files[acc := d.files[acc]] == d.files;
    }
  }

  /** One comparison touches nothing but the two files of `fname`. */
  lemma CheckFrame(d: Disk, dir: Dir, fname: string, serialized: string)
    ensures var r := Check(d, dir, fname, serialized);
      var acc, rec := AcceptedPath(dir, fname), ReceivedPath(dir, fname);
      && r.disk.dirs == d.dirs
      && AgreeOutside(d.files, r.disk.files, {acc, rec})
  {
    var r := Check(d, dir, fname, serialized);
    var acc, rec := AcceptedPath(dir, fname), ReceivedPath(dir, fname);
    SuffixedNamesDiffer(fname, fname);
    CheckEffect(d, dir, fname, serialized);
    if r.verdict == IoPanic && r.disk != d {
      UpdatesAgreeOutside(d.files, acc, "", rec, Trim(serialized));
    } else {
      UpdatesAgreeOutside(d.files, acc, Baseline(d, dir, fname), rec, Trim(serialized));
    }
  }

  /**
   * `VerifyTest::new`: creates the directory, with its missing parents,
   * unless something already exists at that path.
   */
  function Create(d: Disk, dir: Dir): (e: Effect)
    ensures e.disk.files == d.files
    ensures e.Fault? <==>
      !DirPresent(d, dir) && exists k :: 0 <= k < |dir| && Path(dir[..k], dir[k]) in d.files
    // Afterwards the directory exists, unless a file already stood at its path.
    ensures e.Ok? ==> DirPresent(e.disk, dir)
    ensures e.Ok? && !DirPresent(d, dir) ==> forall k :: 0 <= k <= |dir| ==> dir[..k] in e.disk.dirs
    ensures d.dirs <= e.disk.dirs
    // Only the path and its missing prefixes are added, and nothing when the path already exists.
    ensures e.Ok? ==> e.disk.dirs == d.dirs + (if DirPresent(d, dir) then {} else set k | 0 <= k <= |dir| :: dir[..k])
  {
    if DirPresent(d, dir) then Ok(d) else
      var e := DirsCreated(d, dir);
      assert dir[..|dir|] == dir;
      assert e.Ok? ==> dir[..|dir|] in e.disk.dirs;
      e
  }

  /** The first run of a test with non-blank output fails and leaves both files behind. */
  lemma FirstRunMismatches(d: Disk, dir: Dir, fname: string, serialized: string)
    requires dir in d.dirs && !Present(d, AcceptedPath(dir, fname))
    requires Writable(d, ReceivedPath(dir, fname))
    requires Trim(serialized) != ""
    ensures var r := Check(d, dir, fname, serialized);
      r.verdict == MismatchPanic
      && r.disk.files == d.files[AcceptedPath(dir, fname) := ""][ReceivedPath(dir, fname) := Trim(serialized)]
  {
    var r := Check(d, dir, fname, serialized);
    SuffixedNamesDiffer(fname, fname);
    CheckEffect(d, dir, fname, serialized);
    assert Baseline(d, dir, fname) == "";
    assert Trim("") == "";
    assert BaselineAvailable(d, dir, fname);
    assert r.verdict == MismatchPanic;
    var acc, rec := AcceptedPath(dir, fname), ReceivedPath(dir, fname);
    var m := d.files[acc := ""][rec := Trim(serialized)];
    assert r.disk.files == m;
  }

  /** A call that matched leaves a disk on which the same call matches again and changes nothing. */
  lemma CheckIdempotent(d: Disk, dir: Dir, fname: string, serialized: string)
    requires Check(d, dir, fname, serialized).verdict == Returned(true)
    ensures Check(Check(d, dir, fname, serialized).disk, dir, fname, serialized)
         == Check(d, dir, fname, serialized)
  {
    var r := Check(d, dir, fname, serialized);
    CheckEffect(d, dir, fname, serialized);
    var d1 := r.disk;
    var acc := AcceptedPath(dir, fname);
    assert d1.files == d.files[acc := Baseline(d, dir, fname)];
    assert acc in d1.files && d1.files[acc] == Baseline(d, dir, fname);
    assert Baseline(d1, dir, fname) == Baseline(d, dir, fname);
    assert BaselineAvailable(d1, dir, fname);
    var r1 := Check(d1, dir, fname, serialized);
    assert r1.verdict == Returned(true);
    assert d1.files[acc := Baseline(d1, dir, fname)] == d1.files;
  }
}
