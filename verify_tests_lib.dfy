/** verify-tests/src/lib.rs: the snapshot store used by test code. */
module VerifyTestsLib {
  import opened Wrappers
  import opened Text
  import opened Fs
  import opened Snapshot

  /** A store of snapshots under one directory. */
  class VerifyTest {
    const path: Dir

    constructor (path: Dir)
      ensures this.path == path
    {
      this.path := path;
    }

    /**
     * Compares `serialized` (the value's pretty-printed JSON) with the
     * accepted baseline of test `fname`.
     */
    method AssertSnapshot(fsys: FileSystem, fname: string, serialized: string) returns (v: Verdict)
      modifies fsys
      ensures CheckResult(v, fsys.State()) == Check(old(fsys.State()), path, fname, serialized)
    {
      var receivedText := Trim(serialized);
      var acceptedPath := AcceptedPath(path, fname);
      var present := fsys.Exists(acceptedPath);
      var acceptedText: string;
      if !present {
        var ok := fsys.Write(acceptedPath, "");
        if !ok {
          return IoPanic;
        }
        acceptedText := "";
      } else {
        var read := fsys.ReadToString(acceptedPath);
        if read.None? {
          return IoPanic;
        }
        acceptedText := read.value;
      }
      // Whitespace around the JSON does not count.
      var accepted := Trim(acceptedText);
      var matched := receivedText == accepted;
      if !matched {
        var ok := fsys.Write(ReceivedPath(path, fname), receivedText);
        if !ok {
          return IoPanic;
        }
      }
      if !matched {
        // `assert!(matched, ...)` panics.
        return MismatchPanic;
      }
      v := Returned(matched);
    }
  }

  /** `VerifyTest::new`: creates the directory if nothing exists at `path`. */
  method New(path: Dir, fsys: FileSystem) returns (t: Option<VerifyTest>)
    modifies fsys
    ensures Create(old(fsys.State()), path) == (if t.Some? then Ok(fsys.State()) else Fault(fsys.State()))
    ensures t.Some? ==> t.value.path == path
  {
    var present := fsys.DirExists(path);
    if !present {
      var ok := fsys.CreateDirAll(path);
      if !ok {
        return None;
      }
    }
    var store := new VerifyTest(path);
    t := Some(store);
  }
}
