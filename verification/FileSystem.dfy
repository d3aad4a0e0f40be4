/** The foreign side of the walk: _findfirst, _findnext and _findclose over one
    directory tree, with search handles that are never used twice. */
module FileSystem {
  import opened DirTree

  class Searches {
    const root: string            // the path of the directory that is walked
    const tree: seq<Entry>        // its entries
    var remaining: map<int, seq<Entry>>   // the open searches and what each has still to find
    var nextHandle: int

    ghost predicate Valid()
      reads this
    {
      nextHandle > 0 && forall h :: h in remaining ==> 0 < h < nextHandle
    }

    constructor (root: string, tree: seq<Entry>)
      ensures Valid() && this.root == root && this.tree == tree && remaining == map[]
    {
      this.root, this.tree := root, tree;
      remaining, nextHandle := map[], 1;
    }

    /** Search for `pattern`, a directory path followed by "*". The result is 0 when
        nothing is found, as the callers test for; otherwise it is a new handle, and
        `info` the first entry. */
    method FindFirst(pattern: string, before: Entry) returns (h: int, info: Entry)
      requires Valid() && pattern != ""
      modifies this
      ensures Valid()
      ensures var es := Listing(root, tree, pattern[..|pattern| - 1]);
              if es == [] then h == 0 && info == before && remaining == old(remaining)
              else h > 0 && h !in old(remaining) && info == es[0] && remaining == old(remaining)[h := es[1..]]
    {
      var es := Listing(root, tree, pattern[..|pattern| - 1]);
      if es == [] {
        h, info := 0, before;
      } else {
        h, info := nextHandle, es[0];
        remaining := remaining[h := es[1..]];
        nextHandle := nextHandle + 1;
      }
    }

    /** The next entry of an open search, if there is one. */
    method FindNext(h: int, before: Entry) returns (done: bool, info: Entry)
      requires Valid() && h in remaining
      modifies this`remaining
      ensures Valid()
      ensures done <==> old(remaining)[h] == []
      ensures done ==> info == before && remaining == old(remaining)
      ensures !done ==> info == old(remaining)[h][0] && remaining == old(remaining)[h := old(remaining)[h][1..]]
    {
      done := remaining[h] == [];
      if done {
        info := before;
      } else {
        info := remaining[h][0];
        remaining := remaining[h := remaining[h][1..]];
      }
    }

    /** Close a search; 0, which is no search, may be closed without effect. */
    method FindClose(h: int)
      requires Valid() && (h == 0 || h in remaining)
      modifies this`remaining
      ensures Valid() && remaining == old(remaining) - {h}
    {
      remaining := remaining - {h};
    }
  }
}
