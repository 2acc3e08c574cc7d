/** The filesystem as the transfer engine sees it: the set of paths that
    `os.path.exists` reports, the log of `shutil.copyfile` calls, and the entry
    lists of the zip archives opened for writing. File contents are not
    modelled. */
module Disk {

  /** One `shutil.copyfile(src, dst)` call. */
  datatype Copy = Copy(src: string, dst: string)

  /** One `ZipFile.write(src, arcname)` call. */
  datatype Entry = Entry(src: string, name: string)

  /** The destination paths of a copy log, in a set. */
  function Dsts(copies: seq<Copy>): (r: set<string>)
    ensures forall i :: 0 <= i < |copies| ==> copies[i].dst in r
  {
    if copies == [] then {}
    else Dsts(copies[..|copies| - 1]) + {copies[|copies| - 1].dst}
  }

  /** A path is a destination iff some copy wrote it. */
  lemma {:induction false} DstsExact(copies: seq<Copy>, x: string)
    ensures x in Dsts(copies) <==> exists i :: 0 <= i < |copies| && copies[i].dst == x
  {
    if copies != [] && x in Dsts(copies) && x != copies[|copies| - 1].dst {
      var front := copies[..|copies| - 1];
      DstsExact(front, x);
      var i :| 0 <= i < |front| && front[i].dst == x;
      assert copies[i].dst == x;
    }
  }

  /** The entry names of an archive, in order (`ZipFile.namelist()`). */
  function Names(entries: seq<Entry>): (r: seq<string>)
    ensures |r| == |entries|
    ensures forall i :: 0 <= i < |entries| ==> r[i] == entries[i].name
  {
    seq(|entries|, i requires 0 <= i < |entries| => entries[i].name)
  }

  class FileSystem {
    /** Every path `os.path.exists` answers true for. */
    var paths: set<string>
    /** Every `shutil.copyfile` performed, in order. */
    var copies: seq<Copy>
    /** The archives opened with `zipfile.ZipFile(path, "w")`, by path. */
    var zips: map<string, seq<Entry>>

    constructor (existing: set<string>)
      ensures paths == existing && copies == [] && zips == map[]
    {
      paths := existing;
      copies := [];
      zips := map[];
    }

    /** `shutil.copyfile(src, dst)`: `dst` exists afterwards, replacing any
        file that was there. */
    method CopyFile(src: string, dst: string)
      modifies this`paths, this`copies
      ensures paths == old(paths) + {dst}
      ensures copies == old(copies) + [Copy(src, dst)]
    {
      paths := paths + {dst};
      copies := copies + [Copy(src, dst)];
    }

    /** `zipfile.ZipFile(path, "w")`: creates (or truncates) the archive. */
    method OpenZip(path: string)
      modifies this`paths, this`zips
      ensures paths == old(paths) + {path}
      ensures zips == old(zips)[path := []]
    {
      paths := paths + {path};
      zips := zips[path := []];
    }

    /** `zipf.write(src, arcname)`: appends one entry. */
    method ZipWrite(path: string, src: string, arcname: string)
      requires path in zips
      modifies this`zips
      ensures zips == old(zips)[path := old(zips)[path] + [Entry(src, arcname)]]
    {
      zips := zips[path := zips[path] + [Entry(src, arcname)]];
    }

    /** `os.makedirs(path)`: fails with `FileExistsError` when `path` exists. */
    method MakeDirs(path: string) returns (ok: bool)
      modifies this`paths
      ensures ok <==> path !in old(paths)
      ensures paths == old(paths) + {path}
    {
      ok := path !in paths;
      paths := paths + {path};
    }
  }
}
