/**
 * The operating system's temporary directory as the server sees it: the temp
 * files `ioutil.TempFile` hands out, their contents, and the names that
 * `os.Remove` has deleted. A file name is modelled by a number; every name the
 * directory hands out is fresh.
 */
module TempFiles {
  import opened Common

  type Name = nat

  class TempDir {
    /** The temp files that exist, with their bytes. */
    var files: map<Name, seq<byte>>
    /** The names that were removed while they existed. */
    var removed: set<Name>
    /** Every name handed out so far is below `next`. */
    var next: Name

    ghost predicate Valid()
      reads this
    {
      (forall n :: n in files ==> n < next) &&
      (forall n :: n in removed ==> n < next && n !in files)
    }

    constructor ()
      ensures Valid()
      ensures files == map[] && removed == {} && next == 0
    {
      files, removed, next := map[], {}, 0;
    }

    /**
     * `ioutil.TempFile`: creates a new, empty file under a fresh name. Whether
     * the operating system lets the file be created is the parameter
     * `available`; when it does not, nothing changes.
     */
    method TempFile(available: bool) returns (r: Option<Name>)
      requires Valid()
      modifies this
      ensures Valid()
      ensures r.Some? <==> available
      ensures available ==> r == Some(old(next)) && old(next) !in old(files) &&
                            files == old(files)[old(next) := []] &&
                            removed == old(removed) && next == old(next) + 1
      ensures !available ==> unchanged(this)
    {
      if !available {
        return None;
      }
      r := Some(next);
      files := files[next := []];
      next := next + 1;
    }

    /** `io.Copy(file, body)`: appends `data` to an existing file. */
    method Copy(n: Name, data: seq<byte>)
      requires Valid()
      modifies this
      ensures Valid()
      ensures files == if n in old(files) then old(files)[n := old(files)[n] + data] else old(files)
      ensures removed == old(removed) && next == old(next)
    {
      if n in files {
        files := files[n := files[n] + data];
      }
    }

    /** `os.Remove(name)`: deletes the file; removing a name that does not exist fails and changes nothing. */
    method Remove(n: Name)
      requires Valid()
      modifies this
      ensures Valid()
      ensures files == old(files) - {n}
      ensures removed == if n in old(files) then old(removed) + {n} else old(removed)
      ensures next == old(next)
    {
      if n in files {
        files := files - {n};
        removed := removed + {n};
      }
    }

    /** `Seek(0, 0)` followed by `ioutil.ReadAll`: the whole file, or an error when it does not exist. */
    method ReadAll(n: Name) returns (r: Option<seq<byte>>)
      ensures r.Some? <==> n in files
      ensures r.Some? ==> r.value == files[n]
    {
      if n in files {
        r := Some(files[n]);
      } else {
        r := None;
      }
    }
  }
}
