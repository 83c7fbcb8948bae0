/** src/lib.rs: the older copy of the snapshot store, whose check is called `verify`. */
module RootLib {
  import opened Wrappers
  import opened Text
  import opened Fs
  import opened Snapshot

  class VerifyTest {
    const path: Dir

    constructor (path: Dir)
      ensures this.path == path
    {
      this.path := path;
    }

    /** Same contract as `assert_snapshot`, written with `matched` and `accepted_text` assigned in branches. */
    method Verify(fsys: FileSystem, fname: string, serialized: string) returns (v: Verdict)
      modifies fsys
      ensures CheckResult(v, fsys.State()) == Check(old(fsys.State()), path, fname, serialized)
    {
      var receivedText := Trim(serialized);
      var matched: bool;
      var acceptedText: string;
      var acceptedPath := AcceptedPath(path, fname);
      var present := fsys.Exists(acceptedPath);
      if !present {
        var ok := fsys.Write(acceptedPath, "");
        if !ok {
          return IoPanic;
        }
        acceptedText := "";
      } else {
        var read := fsys.ReadToString(acceptedPath);
        if read.None? {
          return IoPanic;
        }
        acceptedText := read.value;
      }
      // Whitespace around the JSON does not count.
      acceptedText := Trim(acceptedText);
      matched := receivedText == acceptedText;
      if !matched {
        var ok := fsys.Write(ReceivedPath(path, fname), receivedText);
        if !ok {
          return IoPanic;
        }
        // `assert!(matched)` panics.
        return MismatchPanic;
      }
      v := Returned(matched);
    }
  }

  /** `VerifyTest::new`. */
  method New(path: Dir, fsys: FileSystem) returns (t: Option<VerifyTest>)
    modifies fsys
    ensures Create(old(fsys.State()), path) == (if t.Some? then Ok(fsys.State()) else Fault(fsys.State()))
    ensures t.Some? ==> t.value.path == path
  {
    var present := fsys.DirExists(path);
    if !present {
      var ok := fsys.CreateDirAll(path);
      if !ok {
        return None;
      }
    }
    var store := new VerifyTest(path);
    t := Some(store);
  }
}
