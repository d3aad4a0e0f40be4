/** The Windows table function TblUDFClobFromFile: a depth-first walk of a
    directory tree, cut into OPEN, FETCH and CLOSE calls, with its stack of search
    handles and its path kept in a scratchpad between them. */
module DirWalk {
  import opened Bytes
  import opened Seqs
  import opened Wrappers
  import opened DirTree
  import opened FileSystem

  const MAX_LEVELS: nat := 50   // elements of the array of handles

  /** A directory on the current path: its path, and its entries that have not
      been returned yet. */
  datatype Frame = Frame(path: string, rest: seq<Entry>)

  /** The rows still to come: what is left of the innermost directory, then what is
      left of the directory around it, and so on. */
  ghost function Rows(frames: seq<Frame>, maxClobSize: nat): seq<Row> {
    if frames == [] then []
    else
      var top := frames[|frames| - 1];
      Preorder(top.path, top.rest, maxClobSize) + Rows(frames[..|frames| - 1], maxClobSize)
  }

  /** What holds of one directory on the path: the entries to come are entries of
      the directory its path names, which is well-formed. */
  ghost predicate FrameOk(root: string, tree: seq<Entry>, f: Frame) {
    && IsDirPath(f.path) && |root| <= |f.path|
    && (f.rest != [] ==> WellFormed(Listing(root, tree, f.path)) && Suffix(f.rest, Listing(root, tree, f.path)))
  }

  ghost predicate Suffix(s: seq<Entry>, t: seq<Entry>) {
    |s| <= |t| && s == t[|t| - |s|..]
  }

  /** What holds of the directories on the path: each path is the path before it
      with one more directory name. */
  ghost predicate PathOk(root: string, tree: seq<Entry>, frames: seq<Frame>) {
    var n := |frames| - 1;
    && n >= 0
    && FrameOk(root, tree, frames[n])
    && (n > 0 ==> PathOk(root, tree, frames[..n]) && Nested(frames[n - 1].path, frames[n].path))
  }

  ghost predicate Nested(outer: string, inner: string) {
    exists name :: '/' !in name && inner == outer + name + "/"
  }

  lemma NestedParent(outer: string, inner: string)
    requires IsDirPath(outer) && Nested(outer, inner)
    ensures inner != "" && Parent(inner) == outer
  {
    var name :| '/' !in name && inner == outer + name + "/";
    ParentOfChild(outer, name);
  }

  lemma RowsPush(frames: seq<Frame>, f: Frame, maxClobSize: nat)
    ensures Rows(frames + [f], maxClobSize) == Preorder(f.path, f.rest, maxClobSize) + Rows(frames, maxClobSize)
  {
  }

  lemma RowsOne(f: Frame, maxClobSize: nat)
    ensures Rows([f], maxClobSize) == Preorder(f.path, f.rest, maxClobSize)
  {
  }

  /** Taking an entry off the innermost directory takes its row off the front, and
      puts the rows inside it in front of what is left. */
  lemma RowsTake(outer: seq<Frame>, top: Frame, maxClobSize: nat)
    requires top.rest != []
    ensures Rows(outer + [top], maxClobSize) ==
            [RowOf(top.path, top.rest[0], maxClobSize)]
            + (Inside(top.path, top.rest[0], maxClobSize) + Rows(outer + [top.(rest := top.rest[1..])], maxClobSize))
  {
  }

  /** The row that comes next, and what comes after it. */
  lemma RowsNext(frames: seq<Frame>, maxClobSize: nat)
    requires frames != [] && frames[|frames| - 1].rest != []
    ensures var top := frames[|frames| - 1];
            var e := top.rest[0];
            && Rows(frames, maxClobSize) != []
            && Rows(frames, maxClobSize)[0] == RowOf(top.path, e, maxClobSize)
            && Rows(frames, maxClobSize)[1..] ==
               Rows(if e.Dir? then TakeTop(frames) + [Entered(top.path, e)] else TakeTop(frames), maxClobSize)
  {
    var outer, top := frames[..|frames| - 1], frames[|frames| - 1];
    assert frames == outer + [top];
    RowsTake(outer, top, maxClobSize);
    if top.rest[0].Dir? {
      RowsPush(TakeTop(frames), Entered(top.path, top.rest[0]), maxClobSize);
    }
  }

  /** The frames once the row of the current entry has been returned. */
  ghost function TakeTop(frames: seq<Frame>): (r: seq<Frame>)
    requires frames != [] && frames[|frames| - 1].rest != []
    ensures |r| == |frames| && r[..|r| - 1] == frames[..|r| - 1]
    ensures r[|r| - 1] == Frame(frames[|r| - 1].path, frames[|r| - 1].rest[1..])
  {
    var n := |frames| - 1;
    frames[..n] + [Frame(frames[n].path, frames[n].rest[1..])]
  }

  lemma PathAfterTake(root: string, tree: seq<Entry>, frames: seq<Frame>)
    requires PathOk(root, tree, frames) && frames[|frames| - 1].rest != []
    ensures PathOk(root, tree, TakeTop(frames))
  {
  }

  /** The directory that is entered after the row of entry `e`. */
  ghost function Entered(path: string, e: Entry): Frame
    requires e.Dir?
  {
    Frame(path + e.name + "/", if IsRelative(e.name) then [] else e.entries)
  }

  lemma EnteredPath(path: string, e: Entry)
    requires e.Dir?
    ensures Entered(path, e).path == path + e.name + "/"
  {
  }

  lemma EnteredIsOk(root: string, tree: seq<Entry>, f: Frame)
    requires IsDirPath(root) && FrameOk(root, tree, f) && f.rest != [] && f.rest[0].Dir?
    ensures '/' !in f.rest[0].name && FrameOk(root, tree, Entered(f.path, f.rest[0]))
    ensures !IsRelative(f.rest[0].name) ==> Listing(root, tree, f.path + f.rest[0].name + "/") == f.rest[0].entries
  {
    var es := Listing(root, tree, f.path);
    var k := |es| - |f.rest|;
    assert es[k] == f.rest[0];
    if !IsRelative(es[k].name) {
      ListingOfChild(root, tree, f.path, k);
    }
  }

  lemma PathPush(root: string, tree: seq<Entry>, frames: seq<Frame>, f: Frame)
    requires PathOk(root, tree, frames) && FrameOk(root, tree, f) && Nested(frames[|frames| - 1].path, f.path)
    ensures PathOk(root, tree, frames + [f])
  {
  }

  lemma PathAfterEnter(root: string, tree: seq<Entry>, frames: seq<Frame>)
    requires IsDirPath(root) && PathOk(root, tree, frames)
    requires var top := frames[|frames| - 1]; top.rest != [] && top.rest[0].Dir?
    ensures var top := frames[|frames| - 1];
            PathOk(root, tree, TakeTop(frames) + [Entered(top.path, top.rest[0])])
  {
    var n := |frames| - 1;
    var top := frames[n];
    PathAfterTake(root, tree, frames);
    EnteredIsOk(root, tree, top);
    var inner := Entered(top.path, top.rest[0]);
    assert inner.path == top.path + top.rest[0].name + "/";
    PathPush(root, tree, TakeTop(frames), inner);
  }

  lemma PathAfterPop(root: string, tree: seq<Entry>, frames: seq<Frame>)
    requires PathOk(root, tree, frames) && |frames| > 1
    ensures PathOk(root, tree, frames[..|frames| - 1])
    ensures IsDirPath(frames[|frames| - 1].path)
    ensures Parent(frames[|frames| - 1].path) == frames[|frames| - 2].path
  {
    NestedParent(frames[|frames| - 2].path, frames[|frames| - 1].path);
  }

  // ------------------------------------------------- how deep a walk will go

  function Max(a: nat, b: nat): nat {
    if a < b then b else a
  }

  /** The greatest index into the array of handles that is needed from here on. */
  ghost function Reach(frames: seq<Frame>): nat {
    var n := |frames| - 1;
    if frames == [] then 0 else Max(n + Height(frames[n].rest), Reach(frames[..n]))
  }

  lemma ReachOne(f: Frame)
    ensures Reach([f]) == Height(f.rest)
  {
  }

  /** Returning an entry changes nothing about that, and a directory needs its place. */
  lemma ReachNext(frames: seq<Frame>)
    requires frames != [] && frames[|frames| - 1].rest != []
    ensures var top := frames[|frames| - 1];
            var e := top.rest[0];
            && Reach(if e.Dir? then TakeTop(frames) + [Entered(top.path, e)] else TakeTop(frames)) == Reach(frames)
            && (e.Dir? ==> |frames| <= Reach(frames))
  {
    var n, top := |frames| - 1, frames[|frames| - 1];
    var taken := TakeTop(frames);
    assert Reach(taken) == Max(n + Height(top.rest[1..]), Reach(frames[..n]));
    if top.rest[0].Dir? {
      var inner := Entered(top.path, top.rest[0]);
      assert (taken + [inner])[..n + 1] == taken;
      assert Height(top.rest) == Max(1 + Height(inner.rest), Height(top.rest[1..]));
    }
  }

  /** Going up gives up the innermost place. */
  lemma ReachPop(frames: seq<Frame>)
    requires |frames| > 1 && frames[|frames| - 1].rest == []
    ensures Reach(frames) == Max(|frames| - 1, Reach(frames[..|frames| - 1]))
  {
  }

  // ------------------------------------------------------ the stack of handles

  /** Every directory on the path has an open search of its own, which has exactly
      the rest of that directory still to find; no other search is open. */
  ghost predicate AllOpen(hs: seq<int>, frames: seq<Frame>, open: map<int, seq<Entry>>) {
    var n := |hs| - 1;
    |hs| == |frames| &&
    if hs == [] then open == map[]
    else hs[n] in open && open[hs[n]] == frames[n].rest && AllOpen(hs[..n], frames[..n], open - {hs[n]})
  }

  /** The same between calls: the innermost search is one entry ahead, at `info`,
      or it is done with, and then there may be none. */
  ghost predicate Between(hs: seq<int>, frames: seq<Frame>, open: map<int, seq<Entry>>, done: bool, info: Entry) {
    var n := |hs| - 1;
    && |hs| == |frames| > 0
    && (hs[n] == 0 ==> done)
    && (hs[n] != 0 ==> hs[n] in open)
    && frames[n].rest == (if done then [] else [info] + open[hs[n]])
    && AllOpen(hs[..n], frames[..n], open - {hs[n]})
  }

  /** _findnext on the innermost search. */
  lemma NextOnTop(hs: seq<int>, frames: seq<Frame>, open: map<int, seq<Entry>>, info: Entry)
    requires AllOpen(hs, frames, open) && hs != [] && hs[|hs| - 1] != 0
    ensures var h := hs[|hs| - 1];
            if open[h] == [] then Between(hs, frames, open, true, info)
            else Between(hs, frames, open[h := open[h][1..]], false, open[h][0])
  {
    var h := hs[|hs| - 1];
    if open[h] != [] {
      assert open[h := open[h][1..]] - {h} == open - {h};
    }
  }

  lemma TakeOpens(hs: seq<int>, frames: seq<Frame>, open: map<int, seq<Entry>>, info: Entry)
    requires Between(hs, frames, open, false, info)
    ensures frames[|hs| - 1].rest != [] && frames[|hs| - 1].rest[0] == info
    ensures hs[|hs| - 1] != 0 && AllOpen(hs, TakeTop(frames), open)
  {
  }

  /** _findfirst on the directory `path`; `h` is 0 if nothing is found, and what is
      found is left alone if `skip`. */
  lemma PushSearch(hs: seq<int>, frames: seq<Frame>, open: map<int, seq<Entry>>, h: int, path: string, es: seq<Entry>,
                   skip: bool, info: Entry, open1: map<int, seq<Entry>>)
    requires AllOpen(hs, frames, open)
    requires h !in open && (h == 0 <==> es == [])
    requires h != 0 ==> info == es[0]
    requires open1 == if h == 0 then open else open[h := es[1..]]
    ensures Between(hs + [h], frames + [Frame(path, if skip then [] else es)], open1, h == 0 || skip, info)
  {
    assert open1 - {h} == open;
    assert (hs + [h])[..|hs|] == hs && (frames + [Frame(path, if skip then [] else es)])[..|hs|] == frames;
  }

  /** The search of the directory that was just returned goes on top of the others. */
  lemma EnterOpens(hs: seq<int>, frames: seq<Frame>, open: map<int, seq<Entry>>, e: Entry, h: int, es: seq<Entry>,
                   info: Entry,
                   open1: map<int, seq<Entry>>)
    requires Between(hs, frames, open, false, e) && e.Dir?
    requires h !in open && (h == 0 <==> es == []) && (h != 0 ==> info == es[0])
    requires open1 == if h == 0 then open else open[h := es[1..]]
    requires !IsRelative(e.name) ==> es == e.entries
    ensures frames[|hs| - 1].rest != [] && frames[|hs| - 1].rest[0] == e
    ensures Between(hs + [h], TakeTop(frames) + [Entered(frames[|hs| - 1].path, e)], open1,
                    h == 0 || IsRelative(e.name), info)
  {
    TakeOpens(hs, frames, open, e);
    PushSearch(hs, TakeTop(frames), open, h, frames[|hs| - 1].path + e.name + "/", es, IsRelative(e.name), info, open1);
  }

  // --------------------------------------------------- the state between calls

  /** What the scratchpad and the file system amount to: the directories on the
      path, their handles, the open searches, and the entry found last. */
  datatype View = View(frames: seq<Frame>, hs: seq<int>, open: map<int, seq<Entry>>, done: bool, info: Entry)

  ghost predicate InOrder(root: string, tree: seq<Entry>, v: View) {
    Between(v.hs, v.frames, v.open, v.done, v.info) && IsDirPath(root) && PathOk(root, tree, v.frames)
  }

  lemma OkFacts(root: string, tree: seq<Entry>, v: View)
    requires InOrder(root, tree, v)
    ensures var n := |v.hs| - 1;
            && |v.hs| == |v.frames| > 0
            && (v.hs[n] == 0 || v.hs[n] in v.open)
            && IsDirPath(v.frames[n].path)
            && (!v.done ==> v.hs[n] in v.open && v.frames[n].rest != [] && v.frames[n].rest[0] == v.info)
            && (v.done ==> v.frames[n].rest == [])
            && (|v.frames| == 1 ==> v.open.Keys <= {v.hs[n]})
  {
    var n := |v.hs| - 1;
    if n == 0 {
      assert v.hs[..0] == [] && v.open - {v.hs[0]} == map[];
      assert forall h :: h in v.open && h != v.hs[0] ==> h in v.open - {v.hs[0]};
    }
  }

  /** After _findnext on the innermost search, which is not ahead of its frame. */
  ghost function NextView(frames: seq<Frame>, hs: seq<int>, open: map<int, seq<Entry>>, info: Entry): View
    requires hs != [] && hs[|hs| - 1] in open
  {
    var h := hs[|hs| - 1];
    if open[h] == [] then View(frames, hs, open, true, info)
    else View(frames, hs, open[h := open[h][1..]], false, open[h][0])
  }

  lemma PopOk(root: string, tree: seq<Entry>, v: View, max: nat)
    requires InOrder(root, tree, v) && |v.frames| > 1 && v.done && 0 !in v.open
    ensures var n := |v.hs| - 1;
            && |v.hs| == |v.frames| && (v.hs[n] == 0 || v.hs[n] in v.open)
            && v.hs[n - 1] in v.open - {v.hs[n]}
            && InOrder(root, tree, NextView(v.frames[..n], v.hs[..n], v.open - {v.hs[n]}, v.info))
            && IsDirPath(v.frames[n].path) && Parent(v.frames[n].path) == v.frames[n - 1].path
            && Rows(v.frames, max) == Rows(v.frames[..n], max)
  {
    var n := |v.hs| - 1;
    PathAfterPop(root, tree, v.frames);
    NextOnTop(v.hs[..n], v.frames[..n], v.open - {v.hs[n]}, v.info);
  }

  lemma SkipOk(root: string, tree: seq<Entry>, v: View)
    requires InOrder(root, tree, v) && !v.done
    ensures |v.hs| == |v.frames| > 0 && v.hs[|v.hs| - 1] in v.open && v.frames[|v.hs| - 1].rest != []
    ensures InOrder(root, tree, NextView(TakeTop(v.frames), v.hs, v.open, v.info))
  {
    TakeOpens(v.hs, v.frames, v.open, v.info);
    PathAfterTake(root, tree, v.frames);
    NextOnTop(v.hs, TakeTop(v.frames), v.open, v.info);
  }

  lemma EnterOpensView(root: string, tree: seq<Entry>, v: View, h: int, es: seq<Entry>, info: Entry,
                       open: map<int, seq<Entry>>)
    requires InOrder(root, tree, v) && !v.done && v.info.Dir? && h !in v.open
    requires (h == 0 <==> es == []) && (h != 0 ==> info == es[0])
    requires open == if h == 0 then v.open else v.open[h := es[1..]]
    requires !IsRelative(v.info.name) ==> es == v.info.entries
    ensures |v.hs| == |v.frames| > 0 && v.frames[|v.hs| - 1].rest != []
    ensures Between(v.hs + [h], TakeTop(v.frames) + [Entered(v.frames[|v.hs| - 1].path, v.info)], open,
                    h == 0 || IsRelative(v.info.name), info)
  {
    EnterOpens(v.hs, v.frames, v.open, v.info, h, es, info, open);
  }

  lemma EnterPath(root: string, tree: seq<Entry>, v: View)
    requires InOrder(root, tree, v) && !v.done && v.info.Dir?
    ensures IsDirPath(root) && |v.hs| == |v.frames| > 0 && v.frames[|v.hs| - 1].rest != []
    ensures PathOk(root, tree, TakeTop(v.frames) + [Entered(v.frames[|v.hs| - 1].path, v.info)])
  {
    PathAfterEnter(root, tree, v.frames);
  }

  /** What is searched after a directory was returned is that directory. */
  lemma EnteredListing(root: string, tree: seq<Entry>, v: View)
    requires InOrder(root, tree, v) && !v.done && v.info.Dir? && !IsRelative(v.info.name)
    ensures |v.hs| == |v.frames| > 0
    ensures Listing(root, tree, v.frames[|v.hs| - 1].path + v.info.name + "/") == v.info.entries
  {
    EnteredIsOk(root, tree, v.frames[|v.hs| - 1]);
  }

  /** After _findfirst on the directory just returned: `h` is the handle, `info` the
      entry found, and `open` the open searches. */
  lemma EnterOk(root: string, tree: seq<Entry>, v: View, h: int, es: seq<Entry>, info: Entry,
                open: map<int, seq<Entry>>, done: bool)
    requires InOrder(root, tree, v) && !v.done && v.info.Dir? && |v.hs| == |v.frames| > 0
    requires h !in v.open && done == (h == 0 || IsRelative(v.info.name))
    requires !IsRelative(v.info.name) ==> es == v.info.entries
    requires (h == 0 <==> es == []) && (h != 0 ==> info == es[0])
    requires open == if h == 0 then v.open else v.open[h := es[1..]]
    ensures v.frames[|v.hs| - 1].rest != []
    ensures var frames := TakeTop(v.frames) + [Entered(v.frames[|v.hs| - 1].path, v.info)];
            InOrder(root, tree, View(frames, v.hs + [h], open, done, info))
  {
    EnterPath(root, tree, v);
    EnterOpensView(root, tree, v, h, es, info, open);
    hide Between, PathOk, TakeTop, Entered, IsRelative;
  }

  lemma MakeInOrder(root: string, tree: seq<Entry>, v: View)
    requires Between(v.hs, v.frames, v.open, v.done, v.info) && IsDirPath(root) && PathOk(root, tree, v.frames)
    ensures InOrder(root, tree, v)
  {
  }

  lemma OnePath(root: string, tree: seq<Entry>, f: Frame)
    requires FrameOk(root, tree, f)
    ensures PathOk(root, tree, [f])
  {
  }

  lemma OpenOk(root: string, tree: seq<Entry>, h: int, info: Entry)
    requires IsDirPath(root) && WellFormed(tree)
    requires (h == 0 <==> tree == []) && (h != 0 ==> info == tree[0])
    ensures InOrder(root, tree, View([Frame(root, tree)], [h], if h == 0 then map[] else map[h := tree[1..]], h == 0, info))
  {
    hide InOrder, PathOk;
    OnePath(root, tree, Frame(root, tree));
    PushSearch([], [], map[], h, root, tree, false, info, if h == 0 then map[] else map[h := tree[1..]]);
    MakeInOrder(root, tree, View([Frame(root, tree)], [h], if h == 0 then map[] else map[h := tree[1..]], h == 0, info));
  }

  // -------------------------------------------------------------------- calls

  /** How a FETCH ends: with a row, with SQLSTATE 02000, or by storing a handle
      beyond the array, which is undefined. */
  datatype Fetched = Found(row: Row) | NoMore | OutOfArray

  class Scratchpad {
    const fs: Searches
    const maxClobSize: nat
    const hFile: array<int>
    var level: nat
    var fileinfo: Entry
    var done: bool
    var tmp: string
    ghost var frames: seq<Frame>   // the directories on the current path
    ghost var deepest: nat         // the greatest level so far

    ghost function Abs(): View
      reads this, hFile, fs
      requires level < hFile.Length
    {
      View(frames, hFile[..level + 1], fs.remaining, done, fileinfo)
    }

    ghost predicate Valid()
      reads this, hFile, fs
    {
      && fs.Valid()
      && hFile.Length == MAX_LEVELS && level <= deepest < MAX_LEVELS && |frames| == level + 1
      && tmp == frames[level].path
      && InOrder(fs.root, fs.tree, Abs())
    }

    /** The rows that FETCH has still to return. */
    ghost function Pending(): seq<Row>
      reads this
    {
      Rows(frames, maxClobSize)
    }

    /** The greatest level of the whole walk, past and to come. */
    ghost function Depth(): nat
      reads this
    {
      Max(deepest, Reach(frames))
    }

    /** FIRST */
    constructor (fs: Searches, maxClobSize: nat)
      ensures this.fs == fs && this.maxClobSize == maxClobSize && fresh(hFile) && hFile.Length == MAX_LEVELS && level == 0
    {
      this.fs, this.maxClobSize := fs, maxClobSize;
      hFile := new int[MAX_LEVELS];
      level, done, tmp := 0, true, "";
      fileinfo := File("", None);
      frames, deepest := [], 0;
    }

    /** Search directory `tmp` for "*", as OPEN and FETCH do; the handle goes on the
        stack. */
    method Search()
      requires fs.Valid() && level < hFile.Length && tmp != ""
      modifies this`fileinfo, hFile, fs
      ensures fs.Valid()
      ensures hFile[..level + 1] == old(hFile[..level]) + [hFile[level]]
      ensures var es := Listing(fs.root, fs.tree, tmp);
              var h := hFile[level];
              && (h == 0 <==> es == [])
              && (h != 0 ==> fileinfo == es[0])
              && h !in old(fs.remaining)
              && fs.remaining == if h == 0 then old(fs.remaining) else old(fs.remaining)[h := es[1..]]
    {
      var tmp2 := tmp + "*";
      assert tmp2[..|tmp2| - 1] == tmp;
      hFile[level], fileinfo := fs.FindFirst(tmp2, fileinfo);
    }

    /** Look for the next entry of the innermost directory. */
    method Next()
      requires fs.Valid() && level < hFile.Length && hFile[level] in fs.remaining
      modifies this`done, this`fileinfo, fs`remaining
      ensures fs.Valid() && Abs() == NextView(frames, hFile[..level + 1], old(fs.remaining), old(fileinfo))
    {
      done, fileinfo := fs.FindNext(hFile[level], fileinfo);
    }

    /** OPEN */
    method Open(inDir: string)
      requires fs.Valid() && fs.remaining == map[] && hFile.Length == MAX_LEVELS && level == 0 && inDir != ""
      requires fs.root == if inDir[|inDir| - 1] == '/' then inDir else inDir + "/"
      requires WellFormed(fs.tree)
      modifies this, hFile, fs
      ensures Valid() && Pending() == Preorder(fs.root, fs.tree, maxClobSize) && Depth() == Height(fs.tree)
    {
      hide InOrder, Rows, Reach, Preorder, Height, WellFormed, Listing;
      tmp := inDir;
      if tmp[|tmp| - 1] != '/' {
        tmp := tmp + "/";
      }
      assert tmp == fs.root;
      RootIsListed(fs.root, fs.tree);
      Search();
      done := hFile[level] == 0;
      frames, deepest := [Frame(tmp, fs.tree)], 0;
      OpenOk(fs.root, fs.tree, hFile[level], fileinfo);
      assert Abs() == View([Frame(fs.root, fs.tree)], [hFile[0]], fs.remaining, done, fileinfo);
      RowsOne(frames[0], maxClobSize);
      ReachOne(frames[0]);
    }

    /** One round of the pop loop of FETCH: close the innermost search, cut its name
        off the path, and look for the next entry of the directory around it. */
    method PopLevel()
      requires Valid() && level > 0 && done
      modifies this, fs
      ensures Valid() && Pending() == old(Pending()) && Depth() == old(Depth()) && level == old(level) - 1
    {
      hide InOrder, Rows, Reach, NextView, LastSlash;
      ghost var v, parent := Abs(), frames[level - 1].path;
      OkFacts(fs.root, fs.tree, v);
      PopOk(fs.root, fs.tree, v, maxClobSize);
      ReachPop(frames);
      fs.FindClose(hFile[level]);
      frames := frames[..level];
      level := level - 1;
      tmp := tmp[..|tmp| - 1];
      tmp := tmp[..LastSlash(tmp) + 1];
      assert tmp == parent;
      assert hFile[..level + 1] == v.hs[..level + 1];
      Next();
    }

    /** The second half of the directory branch of FETCH: search the directory just
        returned, `v` being the state before. */
    method SearchSubdirectory(hdir: bool, ghost v: View)
      requires fs.Valid() && 0 < level < hFile.Length && InOrder(fs.root, fs.tree, v) && !v.done && v.info.Dir?
      requires v.hs == hFile[..level] && |v.frames| == level && v.open == fs.remaining && hdir == IsRelative(v.info.name)
      requires tmp == v.frames[level - 1].path + v.info.name + "/"
      modifies this`fileinfo, this`done, hFile, fs
      ensures fs.Valid() && v.frames[level - 1].rest != []
      ensures InOrder(fs.root, fs.tree,
                      View(TakeTop(v.frames) + [Entered(v.frames[level - 1].path, v.info)], hFile[..level + 1],
                           fs.remaining, done, fileinfo))
    {
      hide InOrder, TakeTop, Entered, Listing, IsRelative;
      Search();
      done := hFile[level] == 0 || hdir;
      if !hdir {
        EnteredListing(fs.root, fs.tree, v);
      }
      EnterOk(fs.root, fs.tree, v, hFile[level], Listing(fs.root, fs.tree, tmp), fileinfo, fs.remaining, done);
    }

    /** The directory branch of FETCH: enter the directory just returned, if the
        array has a place for its handle. */
    method Enter() returns (inside: bool)
      requires Valid() && !done && fileinfo.Dir?
      modifies this, hFile, fs
      ensures old(frames[level].rest) != []
      ensures inside ==> Valid() && frames == TakeTop(old(frames)) + [Entered(old(tmp), old(fileinfo))]
      ensures inside ==> Depth() == old(Depth())
      ensures !inside ==> level == MAX_LEVELS <= old(Depth())
    {
      hide InOrder, Reach, TakeTop, Entered;
      ghost var v := Abs();
      OkFacts(fs.root, fs.tree, v);
      ReachNext(frames);
      EnteredPath(tmp, fileinfo);
      var hdir := fileinfo.name == "." || fileinfo.name == "..";
      level := level + 1;
      tmp := tmp + fileinfo.name + "/";
      if level == hFile.Length {
        return false;
      }
      inside := true;
      frames, deepest := TakeTop(frames) + [Entered(v.frames[level - 1].path, fileinfo)], Max(deepest, level);
      SearchSubdirectory(hdir, v);
    }

    /** The file branch of FETCH: move on to the next entry. */
    method SkipFile()
      requires Valid() && !done && fileinfo.File?
      modifies this, fs
      ensures Valid() && Depth() == old(Depth())
      ensures old(frames[level].rest) != [] && frames == TakeTop(old(frames))
    {
      hide InOrder, Reach;
      OkFacts(fs.root, fs.tree, Abs());
      ReachNext(frames);
      SkipOk(fs.root, fs.tree, Abs());
      frames := TakeTop(frames);
      Next();
    }

    /** The pop loop of FETCH: go up to the nearest directory with an entry to come. */
    method PopLevels()
      requires Valid()
      modifies this, fs
      ensures Valid() && Pending() == old(Pending()) && Depth() == old(Depth()) && (level == 0 || !done)
    {
      hide InOrder, Rows, Reach;
      while level > 0 && done
        invariant Valid() && Pending() == old(Pending()) && Depth() == old(Depth())
      {
        PopLevel();
      }
    }

    /** FETCH once an entry is at hand: its row, and on to the next entry. */
    method FetchEntry() returns (f: Fetched)
      requires Valid() && !done
      modifies this, hFile, fs
      ensures old(Pending()) != [] && !f.NoMore?
      ensures f.Found? ==> Valid() && f.row == old(Pending())[0] && Pending() == old(Pending())[1..]
      ensures f.Found? ==> Depth() == old(Depth())
      ensures f.OutOfArray? ==> level == MAX_LEVELS <= old(Depth())
    {
      hide InOrder, Rows, Reach, TakeTop, Entered;
      OkFacts(fs.root, fs.tree, Abs());
      RowsNext(frames, maxClobSize);
      var outFileName := tmp + fileinfo.name;
      match fileinfo {
        case Dir(_, _) =>
          f := Found(Row(outFileName, None, false));
          var inside := Enter();
          if !inside {
            f := OutOfArray;
          }
        case File(_, None) =>
          f := Found(Row(outFileName, None, true));
          SkipFile();
        case File(_, Some(data)) =>
          var clob := if |data| <= maxClobSize then data else data[..maxClobSize];
          f := Found(Row(outFileName, Some(clob), |data| > maxClobSize));
          SkipFile();
      }
    }

    /** FETCH */
    method Fetch() returns (f: Fetched)
      requires Valid()
      modifies this, hFile, fs
      ensures f.NoMore? <==> old(Pending()) == []
      ensures f.NoMore? ==> Valid() && Pending() == [] && level == 0 && old(Depth()) < MAX_LEVELS
      ensures f.Found? ==> Valid() && f.row == old(Pending())[0] && Pending() == old(Pending())[1..]
      ensures f.Found? ==> Depth() == old(Depth())
      ensures f.OutOfArray? ==> level == MAX_LEVELS <= old(Depth())
    {
      hide InOrder, Rows, Reach;
      PopLevels();
      if done {
        OkFacts(fs.root, fs.tree, Abs());
        RowsOne(frames[0], maxClobSize);
        ReachOne(frames[0]);
        assert frames == [frames[0]];
        return NoMore;
      }
      f := FetchEntry();
    }

    /** CLOSE */
    method Close()
      requires Valid()
      modifies fs
      ensures fs.remaining == old(fs.remaining) - {hFile[level]}
    {
      OkFacts(fs.root, fs.tree, Abs());
      fs.FindClose(hFile[level]);
    }
  }

  /** A complete run: OPEN, FETCH until there are no more rows, CLOSE. It leaves the
      array of handles if and only if the tree is too high, and is right otherwise. */
  method Walk(fs: Searches, inDir: string, maxClobSize: nat) returns (rows: seq<Row>, inside: bool)
    requires fs.Valid() && fs.remaining == map[] && inDir != ""
    requires fs.root == if inDir[|inDir| - 1] == '/' then inDir else inDir + "/"
    requires WellFormed(fs.tree)
    modifies fs
    ensures inside <==> Height(fs.tree) < 50
    ensures inside ==> rows == Preorder(fs.root, fs.tree, maxClobSize) && fs.remaining == map[]
    ensures inside ==> ListsOnly(rows, fs.root, fs.tree, maxClobSize) && ListsAll(rows, fs.root, fs.tree, maxClobSize)
    ensures inside ==> ListsOnce(rows)
    ensures !inside ==> rows < Preorder(fs.root, fs.tree, maxClobSize)
  {
    hide InOrder, Rows, Reach, Preorder, Height, ListsOnly, ListsAll, ListsOnce, WellFormed;
    PreorderLists(fs.root, fs.tree, maxClobSize);
    var sp := new Scratchpad(fs, maxClobSize);
    sp.Open(inDir);
    rows := [];
    while true
      invariant sp.Valid() && fresh(sp) && fresh(sp.hFile)
      invariant rows + sp.Pending() == Preorder(fs.root, fs.tree, maxClobSize)
      invariant sp.Depth() == Height(fs.tree)
      decreases |sp.Pending()|
    {
      ghost var shown, pending := rows, sp.Pending();
      var fetched := sp.Fetch();
      match fetched {
        case NoMore =>
          break;
        case OutOfArray =>
          return rows, false;
        case Found(row) =>
          rows := rows + [row];
          Shift(shown, pending);
      }
    }
    OkFacts(fs.root, fs.tree, sp.Abs());
    sp.Close();
    inside := true;
  }
}
