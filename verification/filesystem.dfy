/**
  * Directory listings as `filesystem_list` (neon/src/core/filesystem.c) presents them
  * to its callbacks: each entry's name, its full path, and whether it is a directory.
  */
module FileSystem {

  /** A listing in `readdir` order; a directory carries its own listing. */
  datatype Entry = File(name: string, path: string) | Dir(name: string, path: string, children: seq<Entry>)

  /** Names starting with '.' (including "." and "..") are skipped by every scan. */
  predicate Hidden(name: string)
  {
    |name| > 0 && name[0] == '.'
  }

  /**
    * The files a recursive walk reaches, in walk order: an entry whose name is hidden
    * is skipped, with everything under it, and a directory contributes the files of
    * its own listing at its place.
    */
  function VisibleFiles(entries: seq<Entry>): (fs: seq<Entry>)
    ensures forall i :: 0 <= i < |fs| ==> fs[i].File? && !Hidden(fs[i].name)
    decreases entries
  {
    if entries == [] then []
    else
      var e := entries[0];
      var here := if Hidden(e.name) then [] else match e
        case File(_, _) => [e]
        case Dir(_, _, children) => VisibleFiles(children);
      here + VisibleFiles(entries[1..])
  }
}
