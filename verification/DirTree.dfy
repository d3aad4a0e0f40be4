/** A directory tree as the search functions of the C library show it, and the
    rows that a recursive listing of it would produce. */
module DirTree {
  import opened Bytes
  import opened Wrappers

  /** An entry of a directory. The entries "." and ".." are directories too; what
      they list is not used. A file without contents cannot be opened. */
  datatype Entry =
    | File(name: string, contents: Option<seq<Byte>>)
    | Dir(name: string, entries: seq<Entry>)

  /** One row of the table function: the file name, its contents up to the size
      of the result column, and whether a warning is raised. */
  datatype Row = Row(fileName: string, clob: Option<seq<Byte>>, warning: bool)

  predicate IsRelative(name: string) {
    name == "." || name == ".."
  }

  function RowOf(prefix: string, e: Entry, maxClobSize: nat): Row {
    match e
    case Dir(name, _) => Row(prefix + name, None, false)
    case File(name, None) => Row(prefix + name, None, true)
    case File(name, Some(data)) =>
      Row(prefix + name, Some(if |data| <= maxClobSize then data else data[..maxClobSize]), |data| > maxClobSize)
  }

  /** The recursive preorder listing of `es`, the entries of directory `prefix`. */
  function Preorder(prefix: string, es: seq<Entry>, maxClobSize: nat): seq<Row>
    decreases es
  {
    if es == [] then []
    else
      [RowOf(prefix, es[0], maxClobSize)]
      + Inside(prefix, es[0], maxClobSize)
      + Preorder(prefix, es[1..], maxClobSize)
  }

  /** The rows below an entry: none for files and for "." and "..". */
  function Inside(prefix: string, e: Entry, maxClobSize: nat): seq<Row>
    decreases e
  {
    if e.Dir? && !IsRelative(e.name) then Preorder(prefix + e.name + "/", e.entries, maxClobSize) else []
  }

  /** How many search handles a walk of `es` needs beyond the one on `es` itself. */
  function Height(es: seq<Entry>): nat
    decreases es
  {
    if es == [] then 0
    else
      var h := if es[0].File? then 0 else if IsRelative(es[0].name) then 1 else 1 + Height(es[0].entries);
      var t := Height(es[1..]);
      if h < t then t else h
  }

  /** How deep subdirectories are nested. */
  function Nesting(es: seq<Entry>): nat
    decreases es
  {
    if es == [] then 0
    else
      var h := if es[0].File? || IsRelative(es[0].name) then 0 else 1 + Nesting(es[0].entries);
      var t := Nesting(es[1..]);
      if h < t then t else h
  }

  /** The innermost directory of the tree needs one handle more, for its "." and "..";
      so 50 handles are enough for 48 levels of subdirectories. */
  lemma {:induction false} HeightBound(es: seq<Entry>)
    ensures Nesting(es) <= Height(es) <= Nesting(es) + 1
    decreases es
  {
    if es != [] {
      if es[0].Dir? && !IsRelative(es[0].name) {
        HeightBound(es[0].entries);
      }
      HeightBound(es[1..]);
    }
  }

  /** What a file system guarantees: names contain no "/", and no directory has
      two entries of the same name. */
  predicate WellFormed(es: seq<Entry>)
    decreases es
  {
    && (forall i :: 0 <= i < |es| ==> '/' !in es[i].name)
    && (forall i, j :: 0 <= i < j < |es| ==> es[i].name != es[j].name)
    && (forall i :: 0 <= i < |es| && es[i].Dir? ==> WellFormed(es[i].entries))
  }

  // -------------------------------------------------------------------- paths

  /** strrchr(s, '/') as an index; -1 if there is none. */
  function LastSlash(s: string): (k: int)
    ensures -1 <= k < |s|
    ensures k >= 0 ==> s[k] == '/'
    ensures forall i :: k < i < |s| ==> s[i] != '/'
  {
    if s == [] then -1 else if s[|s| - 1] == '/' then |s| - 1 else LastSlash(s[..|s| - 1])
  }

  /** The path of the directory that contains directory `path`, which ends in "/":
      what the walk leaves of its path when it goes back up. */
  function Parent(path: string): (p: string)
    requires path != ""
    ensures |p| < |path|
  {
    path[..LastSlash(path[..|path| - 1]) + 1]
  }

  predicate IsDirPath(path: string) {
    path != "" && path[|path| - 1] == '/'
  }

  lemma ParentOfChild(parent: string, name: string)
    requires IsDirPath(parent) && '/' !in name
    ensures Parent(parent + name + "/") == parent
    ensures (parent + name + "/")[|parent|..|parent + name|] == name
  {
  }

  // -------------------------------------------------------- looking paths up

  function Lookup(es: seq<Entry>, name: string): seq<Entry> {
    if es == [] then []
    else if es[0].Dir? && es[0].name == name then es[0].entries
    else Lookup(es[1..], name)
  }

  lemma {:induction false} LookupFinds(es: seq<Entry>, k: nat)
    requires WellFormed(es) && k < |es| && es[k].Dir?
    ensures Lookup(es, es[k].name) == es[k].entries
  {
    if k > 0 {
      assert WellFormed(es[1..]);
      LookupFinds(es[1..], k - 1);
    }
  }

  /** The entries of the directory `path`, in a file system where directory `root`
      lists `tree`; none if there is no such directory. */
  function Listing(root: string, tree: seq<Entry>, path: string): seq<Entry>
    decreases |path|
  {
    if path == root then tree
    else if path == "" then []
    else
      var parent := Parent(path);
      var name := if |parent| < |path| - 1 then path[|parent|..|path| - 1] else "";
      if name == "." then Listing(root, tree, parent)
      else if name == ".." then (if parent == root || parent == "" then tree else Listing(root, tree, Parent(parent)))
      else Lookup(Listing(root, tree, parent), name)
  }

  /** A subdirectory is found under its own path. */
  lemma ListingOfChild(root: string, tree: seq<Entry>, path: string, k: nat)
    requires IsDirPath(root) && IsDirPath(path) && |root| <= |path|
    requires var es := Listing(root, tree, path); WellFormed(es) && k < |es| && es[k].Dir? && !IsRelative(es[k].name)
    ensures var e := Listing(root, tree, path)[k];
            Listing(root, tree, path + e.name + "/") == e.entries
  {
    var es := Listing(root, tree, path);
    var name := es[k].name;
    ParentOfChild(path, name);
    LookupFinds(es, k);
    assert |path + name + "/"| > |root|;
    if name == "" {
      assert path + name + "/" == path + "/";
    }
  }

  // ---------------------------------------------------- what the listing holds

  /** What a row says of an entry of the directory `path`. */
  predicate Describes(row: Row, path: string, e: Entry, maxClobSize: nat) {
    && row.fileName == path + e.name
    && (row.clob == None <==> e.Dir? || e.contents == None)
    && (row.clob.Some? ==>
          row.clob.value <= e.contents.value
          && (row.clob.value == e.contents.value || |row.clob.value| == maxClobSize < |e.contents.value|)
          && |row.clob.value| <= maxClobSize)
    && (row.warning <==> e.File? && (e.contents == None || |e.contents.value| > maxClobSize))
  }

  /** Going down from the entries `es` by the names `names`, none of them "." or "..",
      leads to the entries `dir`. */
  ghost predicate Leads(es: seq<Entry>, names: seq<string>, dir: seq<Entry>)
    decreases |names|
  {
    if names == [] then dir == es
    else
      && names[0] != "." && names[0] != ".."
      && exists k :: 0 <= k < |es| && es[k].Dir? && es[k].name == names[0] && Leads(es[k].entries, names[1..], dir)
  }

  function PathOf(prefix: string, names: seq<string>): string
    decreases |names|
  {
    if names == [] then prefix else PathOf(prefix + names[0] + "/", names[1..])
  }

  /** The row is that of entry `k` of the directory that `names` leads to. */
  ghost predicate Stands(row: Row, prefix: string, es: seq<Entry>, names: seq<string>, dir: seq<Entry>, k: nat,
                         maxClobSize: nat)
  {
    Leads(es, names, dir) && k < |dir| && Describes(row, PathOf(prefix, names), dir[k], maxClobSize)
  }

  lemma RowDescribes(prefix: string, e: Entry, maxClobSize: nat)
    ensures Describes(RowOf(prefix, e, maxClobSize), prefix, e, maxClobSize)
  {
  }

  lemma LeadsDown(es: seq<Entry>, j: nat, names: seq<string>, dir: seq<Entry>)
    requires j < |es| && es[j].Dir? && es[j].name != "." && es[j].name != ".." && Leads(es[j].entries, names, dir)
    ensures Leads(es, [es[j].name] + names, dir)
  {
    assert ([es[j].name] + names)[1..] == names;
  }

  lemma LeadsFurther(es: seq<Entry>, names: seq<string>, dir: seq<Entry>)
    requires es != [] && names != [] && Leads(es[1..], names, dir)
    ensures Leads(es, names, dir)
  {
    var k :| 0 <= k < |es[1..]| && es[1..][k].Dir? && es[1..][k].name == names[0]
             && Leads(es[1..][k].entries, names[1..], dir);
    assert es[k + 1] == es[1..][k];
  }

  /** Every row is that of an entry of a directory that can be reached. */
  lemma {:induction false} RowIsEntry(prefix: string, es: seq<Entry>, maxClobSize: nat, i: nat)
    returns (names: seq<string>, dir: seq<Entry>, k: nat)
    requires i < |Preorder(prefix, es, maxClobSize)|
    ensures Stands(Preorder(prefix, es, maxClobSize)[i], prefix, es, names, dir, k, maxClobSize)
    decreases es
  {
    hide Describes;
    var e, inside := es[0], Inside(prefix, es[0], maxClobSize);
    if i == 0 {
      RowDescribes(prefix, e, maxClobSize);
      names, dir, k := [], es, 0;
    } else if i <= |inside| {
      names, dir, k := RowIsEntry(prefix + e.name + "/", e.entries, maxClobSize, i - 1);
      LeadsDown(es, 0, names, dir);
      assert ([e.name] + names)[1..] == names;
      names := [e.name] + names;
    } else {
      names, dir, k := RowIsEntry(prefix, es[1..], maxClobSize, i - 1 - |inside|);
      if names == [] {
        dir, k := es, k + 1;
      } else {
        LeadsFurther(es, names, dir);
      }
    }
  }

  /** Every entry of every directory that can be reached has its row. */
  lemma {:induction false} EntryHasRow(prefix: string, es: seq<Entry>, names: seq<string>, dir: seq<Entry>, k: nat,
                                       maxClobSize: nat)
    returns (i: nat)
    requires Leads(es, names, dir) && k < |dir|
    ensures i < |Preorder(prefix, es, maxClobSize)|
    ensures Describes(Preorder(prefix, es, maxClobSize)[i], PathOf(prefix, names), dir[k], maxClobSize)
    decreases |names|, |es|
  {
    hide Describes;
    var j := k;
    if names != [] {
      j :| 0 <= j < |es| && es[j].Dir? && es[j].name == names[0] && Leads(es[j].entries, names[1..], dir);
    }
    if j > 0 {
      var dir1 := if names == [] then es[1..] else dir;
      if names != [] {
        assert es[1..][j - 1] == es[j];
        assert Leads(es[1..], names, dir);
      }
      i := EntryHasRow(prefix, es[1..], names, dir1, if names == [] then k - 1 else k, maxClobSize);
      i := i + 1 + |Inside(prefix, es[0], maxClobSize)|;
    } else if names == [] {
      RowDescribes(prefix, es[0], maxClobSize);
      i := 0;
    } else {
      i := EntryHasRow(prefix + names[0] + "/", es[0].entries, names[1..], dir, k, maxClobSize);
      i := i + 1;
    }
  }

  // No file name is returned twice.

  /** `f` is the name of entry `e` of directory `prefix`, or below it. */
  predicate Under(f: string, prefix: string, e: Entry) {
    f == prefix + e.name || prefix + e.name + "/" <= f
  }

  lemma {:induction false} RowIsUnder(prefix: string, es: seq<Entry>, maxClobSize: nat, i: nat) returns (k: nat)
    requires i < |Preorder(prefix, es, maxClobSize)|
    ensures k < |es| && Under(Preorder(prefix, es, maxClobSize)[i].fileName, prefix, es[k])
    decreases es
  {
    var inside := Inside(prefix, es[0], maxClobSize);
    if i <= |inside| {
      k := 0;
      if i > 0 {
        var _ := RowIsUnder(prefix + es[0].name + "/", es[0].entries, maxClobSize, i - 1);
      }
    } else {
      k := RowIsUnder(prefix, es[1..], maxClobSize, i - 1 - |inside|);
      k := k + 1;
    }
  }

  /** What stands in front of the first "/". */
  function FirstName(s: string): string {
    if s == "" || s[0] == '/' then "" else [s[0]] + FirstName(s[1..])
  }

  lemma {:induction false} FirstNameIs(name: string, rest: string)
    requires '/' !in name && (rest == "" || rest[0] == '/')
    ensures FirstName(name + rest) == name
  {
    if name == "" {
      assert name + rest == rest;
    } else {
      FirstNameIs(name[1..], rest);
      assert (name + rest)[1..] == name[1..] + rest;
    }
  }

  lemma UnderIs(f: string, prefix: string, e: Entry)
    requires '/' !in e.name && Under(f, prefix, e)
    ensures |prefix| <= |f| && FirstName(f[|prefix|..]) == e.name
  {
    var n := |prefix + e.name|;
    FirstNameIs(e.name, f[n..]);
    assert f[|prefix|..] == e.name + f[n..];
  }

  lemma {:induction false} NamesDiffer(prefix: string, es: seq<Entry>, maxClobSize: nat, i: nat, j: nat)
    requires WellFormed(es) && i < j < |Preorder(prefix, es, maxClobSize)|
    ensures var rows := Preorder(prefix, es, maxClobSize); rows[i].fileName != rows[j].fileName
    decreases es
  {
    var rows, inside := Preorder(prefix, es, maxClobSize), Inside(prefix, es[0], maxClobSize);
    var n := |inside|;
    assert WellFormed(es[1..]);
    if i > n {
      NamesDiffer(prefix, es[1..], maxClobSize, i - 1 - n, j - 1 - n);
    } else if j > n {
      var k := RowIsUnder(prefix, es[1..], maxClobSize, j - 1 - n);
      assert Under(rows[i].fileName, prefix, es[0]) by {
        if i > 0 {
          var _ := RowIsUnder(prefix + es[0].name + "/", es[0].entries, maxClobSize, i - 1);
        }
      }
      if rows[i].fileName == rows[j].fileName {
        UnderIs(rows[i].fileName, prefix, es[0]);
        UnderIs(rows[i].fileName, prefix, es[k + 1]);
      }
    } else if i > 0 {
      NamesDiffer(prefix + es[0].name + "/", es[0].entries, maxClobSize, i - 1, j - 1);
    } else {
      var _ := RowIsUnder(prefix + es[0].name + "/", es[0].entries, maxClobSize, j - 1);
    }
  }

  // And the directories are those that the file system knows.

  lemma PathIsDir(prefix: string, names: seq<string>)
    requires IsDirPath(prefix)
    ensures IsDirPath(PathOf(prefix, names)) && |PathOf(prefix, names)| >= |prefix|
    decreases |names|
  {
  }

  /** A directory that can be reached is listed under its path. */
  lemma {:induction false} ReachedIsListed(root: string, tree: seq<Entry>, path: string, names: seq<string>, dir: seq<Entry>)
    requires IsDirPath(root) && IsDirPath(path) && |root| <= |path|
    requires WellFormed(Listing(root, tree, path)) && Leads(Listing(root, tree, path), names, dir)
    ensures Listing(root, tree, PathOf(path, names)) == dir && WellFormed(dir)
    decreases |names|
  {
    hide Listing;
    if names != [] {
      var es := Listing(root, tree, path);
      var k :| 0 <= k < |es| && es[k].Dir? && es[k].name == names[0] && Leads(es[k].entries, names[1..], dir);
      ListingOfChild(root, tree, path, k);
      ReachedIsListed(root, tree, path + names[0] + "/", names[1..], dir);
    }
  }

  /** The row is that of an entry of a directory which can be reached and which the
      file system lists under its path. */
  ghost predicate IsEntryRow(row: Row, root: string, tree: seq<Entry>, maxClobSize: nat) {
    exists names, dir, k: nat ::
      Stands(row, root, tree, names, dir, k, maxClobSize) && dir == Listing(root, tree, PathOf(root, names))
  }

  ghost predicate ListsOnly(rows: seq<Row>, root: string, tree: seq<Entry>, maxClobSize: nat) {
    forall i :: 0 <= i < |rows| ==> IsEntryRow(rows[i], root, tree, maxClobSize)
  }

  ghost predicate HasRow(rows: seq<Row>, root: string, tree: seq<Entry>, names: seq<string>, dir: seq<Entry>, k: nat,
                         maxClobSize: nat)
  {
    exists i :: 0 <= i < |rows| && Stands(rows[i], root, tree, names, dir, k, maxClobSize)
  }

  /** Every entry of every directory that can be reached has a row. */
  ghost predicate ListsAll(rows: seq<Row>, root: string, tree: seq<Entry>, maxClobSize: nat) {
    forall names, dir, k: nat :: Leads(tree, names, dir) && k < |dir| ==>
      HasRow(rows, root, tree, names, dir, k, maxClobSize)
  }

  ghost predicate ListsOnce(rows: seq<Row>) {
    forall i, j :: 0 <= i < j < |rows| ==> rows[i].fileName != rows[j].fileName
  }

  /** The preorder listing holds the rows of all entries that can be reached, each
      once, and no others. */
  lemma {:induction false} PreorderLists(root: string, tree: seq<Entry>, maxClobSize: nat)
    requires IsDirPath(root) && WellFormed(tree)
    ensures var rows := Preorder(root, tree, maxClobSize);
            ListsOnly(rows, root, tree, maxClobSize) && ListsAll(rows, root, tree, maxClobSize) && ListsOnce(rows)
  {
    hide Preorder, Leads, Describes, PathOf, WellFormed;
    var rows := Preorder(root, tree, maxClobSize);
    RootIsListed(root, tree);
    hide Listing;
    forall i | 0 <= i < |rows|
      ensures IsEntryRow(rows[i], root, tree, maxClobSize)
    {
      var names, dir, k := RowIsEntry(root, tree, maxClobSize, i);
      ReachedIsListed(root, tree, root, names, dir);
    }
    forall names, dir, k: nat | Leads(tree, names, dir) && k < |dir|
      ensures HasRow(rows, root, tree, names, dir, k, maxClobSize)
    {
      var i := EntryHasRow(root, tree, names, dir, k, maxClobSize);
    }
    forall i, j | 0 <= i < j < |rows| ensures rows[i].fileName != rows[j].fileName {
      NamesDiffer(root, tree, maxClobSize, i, j);
    }
  }

  lemma RootIsListed(root: string, tree: seq<Entry>)
    ensures Listing(root, tree, root) == tree
  {
  }
}
