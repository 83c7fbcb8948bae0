/**
 * The part of the operating system's filesystem the core touches: files
 * holding text, and directories. `std::fs` calls become the pure functions
 * below, each giving the effect of one call on a `Disk` value, and the
 * methods of `FileSystem` that perform it on the live state. A call that
 * `std::fs` reports as an error yields `Fault` and changes nothing.
 */
module Fs {
  import opened Wrappers

  /** A directory, as the list of its path components. */
  type Dir = seq<string>

  /** A file path: the directory holding it and its file name. */
  datatype Path = Path(dir: Dir, name: string)

  type Files = map<Path, string>

  datatype Disk = Disk(files: Files, dirs: set<Dir>)

  /** The result of one filesystem call: the disk after it, and whether it failed. */
  datatype Effect = Ok(disk: Disk) | Fault(disk: Disk)

  /** The path `p` read as a directory. */
  function AsDir(p: Path): Dir {
    p.dir + [p.name]
  }

  predicate IsDir(d: Disk, p: Path) {
    AsDir(p) in d.dirs
  }

  /** `Path::exists` on a file path: a file or a directory is there. */
  predicate Present(d: Disk, p: Path) {
    p in d.files || IsDir(d, p)
  }

  /** `Path::exists` on a directory path. */
  predicate DirPresent(d: Disk, dir: Dir) {
    dir in d.dirs || (|dir| > 0 && Path(dir[..|dir| - 1], dir[|dir| - 1]) in d.files)
  }

  /** Every file sits in an existing directory, and no path is both a file and a directory. */
  ghost predicate WellFormed(d: Disk) {
    forall p :: p in d.files ==> p.dir in d.dirs && !IsDir(d, p)
  }

  /** `fs::read_to_string`: fails unless a file is there. */
  function Content(d: Disk, p: Path): Option<string> {
    if p in d.files then Some(d.files[p]) else None
  }

  /** `fs::write`: creates or truncates; fails when the parent is missing or `p` is a directory. */
  function Written(d: Disk, p: Path, text: string): Effect {
    if p.dir in d.dirs && !IsDir(d, p) then Ok(d.(files := d.files[p := text])) else Fault(d)
  }

  /** `fs::remove_file`: fails unless a file is there. */
  function Removed(d: Disk, p: Path): Effect {
    if p in d.files then Ok(d.(files := d.files - {p})) else Fault(d)
  }

  /** `fs::rename` of a file, replacing a file at the target. */
  function Renamed(d: Disk, from: Path, to: Path): Effect {
    if from in d.files && to.dir in d.dirs && !IsDir(d, to)
    then Ok(d.(files := (d.files - {from})[to := d.files[from]]))
    else Fault(d)
  }

  /** `fs::create_dir_all`: creates every missing prefix; fails when one of them is a file. */
  function DirsCreated(d: Disk, dir: Dir): Effect {
    if exists k :: 0 <= k < |dir| && Path(dir[..k], dir[k]) in d.files then Fault(d)
    else Ok(d.(dirs := d.dirs + set k | 0 <= k <= |dir| :: dir[..k]))
  }

  /**
   * What an external program leaves at `p` after it exits: new text, or no
   * file at all.
   */
  function Edited(d: Disk, p: Path, after: Option<string>): Disk {
    match after
    case Some(text) => d.(files := d.files[p := text])
    case None => d.(files := d.files - {p})
  }

  /** The live filesystem. */
  class FileSystem {
    var files: Files
    var dirs: set<Dir>

    function State(): Disk
      reads this
    {
      Disk(files, dirs)
    }

    constructor (d: Disk)
      ensures State() == d
    {
      files := d.files;
      dirs := d.dirs;
    }

    method Exists(p: Path) returns (b: bool)
      ensures b == Present(State(), p)
    {
      b := p in files || AsDir(p) in dirs;
    }

    method DirExists(dir: Dir) returns (b: bool)
      ensures b == DirPresent(State(), dir)
    {
      b := dir in dirs || (|dir| > 0 && Path(dir[..|dir| - 1], dir[|dir| - 1]) in files);
    }

    method ReadToString(p: Path) returns (r: Option<string>)
      ensures r == Content(State(), p)
    {
      r := if p in files then Some(files[p]) else None;
    }

    method Write(p: Path, text: string) returns (ok: bool)
      modifies this
      ensures Written(old(State()), p, text) == (if ok then Ok(State()) else Fault(State()))
    {
      ok := p.dir in dirs && AsDir(p) !in dirs;
      if ok {
        files := files[p := text];
      }
    }

    method RemoveFile(p: Path) returns (ok: bool)
      modifies this
      ensures Removed(old(State()), p) == (if ok then Ok(State()) else Fault(State()))
    {
      ok := p in files;
      if ok {
        files := files - {p};
      }
    }

    method Rename(from: Path, to: Path) returns (ok: bool)
      modifies this
      ensures Renamed(old(State()), from, to) == (if ok then Ok(State()) else Fault(State()))
    {
      ok := from in files && to.dir in dirs && AsDir(to) !in dirs;
      if ok {
        files := (files - {from})[to := files[from]];
      }
    }

    method CreateDirAll(dir: Dir) returns (ok: bool)
      modifies this
      ensures DirsCreated(old(State()), dir) == (if ok then Ok(State()) else Fault(State()))
    {
      ok := true;
      var k := 0;
      while k < |dir|
        invariant 0 <= k <= |dir|
        invariant ok <==> forall j :: 0 <= j < k ==> Path(dir[..j], dir[j]) !in files
      {
        if Path(dir[..k], dir[k]) in files {
          ok := false;
        }
        k := k + 1;
      }
      if ok {
        dirs := dirs + set j | 0 <= j <= |dir| :: dir[..j];
      }
    }

    /** The effect of an external editor that rewrote or removed `p` before it exited. */
    method Edit(p: Path, after: Option<string>)
      modifies this
      ensures State() == Edited(old(State()), p, after)
    {
      match after
      case Some(text) => files := files[p := text];
      case None => files := files - {p};
    }
  }
}
