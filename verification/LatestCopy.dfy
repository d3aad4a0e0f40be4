/** getLatestCopy: which of the images that a query finds is restored. */
module LatestCopy {
  import opened Bytes
  import opened Xbsa
  import opened ObjectNames

  /** The prefixes by which the names of database and table space backups are told
      apart: SQLUV_NAME_DB_FULL, SQLUV_NAME_DB and SQLUV_NAME_TSP. */
  datatype Prefixes = Prefixes(dbFull: string, db: string, tsp: string)

  /** The variables of getLatestCopy: what has been found, and the latest image so
      far, of which `length` characters are compared. */
  datatype Latest = Latest(found: bool, database: bool, tableSpace: bool, name: ObjName, length: nat)

  const NOTHING: Latest := Latest(false, false, false, ObjName("", ""), 0)

  /** An object's name without its sequence number. */
  function ImageOf(e: Found): (image: ObjName)
    ensures image.path < e.path
  {
    ObjName(e.space, e.path[..LastIndexOf(e.path, '.')])
  }

  /** A path name without the separator that it starts with. */
  function BaseName(path: string): string {
    if path == "" then "" else path[1..]
  }

  predicate StartsWith(s: string, prefix: string) {
    StrnCmp(s, prefix, |prefix|) == 0
  }

  /** One round of the loop. */
  function Consider(best: Latest, e: Found, nodeNum: U16, prefixes: Prefixes): Latest {
    if PartitionOf(e.space) != nodeNum then best
    else
      var base := BaseName(e.path);
      var b :=
        if StartsWith(base, prefixes.dbFull) || StartsWith(base, prefixes.db) then best.(database := true)
        else if StartsWith(base, prefixes.tsp) then best.(tableSpace := true)
        else best;
      if !best.found then b.(found := true, name := ImageOf(e), length := |ImageOf(e).path|)
      else if StrnCmp(e.path, best.name.path, best.length) > 0 then b.(name := ImageOf(e))
      else b
  }

  function LatestOf(es: seq<Found>, nodeNum: U16, prefixes: Prefixes): Latest {
    if es == [] then NOTHING else Consider(LatestOf(es[..|es| - 1], nodeNum, prefixes), es[|es| - 1], nodeNum, prefixes)
  }

  lemma LatestOfNext(es: seq<Found>, e: Found, nodeNum: U16, prefixes: Prefixes)
    ensures LatestOf(es + [e], nodeNum, prefixes) == Consider(LatestOf(es, nodeNum, prefixes), e, nodeNum, prefixes)
  {
    hide Consider;
    assert (es + [e])[..|es|] == es;
  }

  // ------------------------------------------------------- which kinds it sees

  predicate Mine(e: Found, nodeNum: U16) {
    PartitionOf(e.space) == nodeNum
  }

  predicate IsDatabase(e: Found, prefixes: Prefixes) {
    prefixes.dbFull <= e.path[1..] || prefixes.db <= e.path[1..]
  }

  predicate IsTableSpace(e: Found, prefixes: Prefixes) {
    !IsDatabase(e, prefixes) && prefixes.tsp <= e.path[1..]
  }

  /** For names as bldWriteObjDesc prints them, the kind is told from the file name. */
  lemma KindOfPrinted(e: Found, filename: string, timestamp: string, sequence: string, prefixes: Prefixes)
    requires e.path == PathName(filename, timestamp, sequence)
    ensures var name := filename + "." + timestamp + "." + sequence;
            && e.path == "/" + name
            && (IsDatabase(e, prefixes) <==> prefixes.dbFull <= name || prefixes.db <= name)
            && (IsTableSpace(e, prefixes) <==> !IsDatabase(e, prefixes) && prefixes.tsp <= name)
  {
    var name := filename + "." + timestamp + "." + sequence;
    assert e.path == "/" + name && ("/" + name)[1..] == name;
  }

  lemma StartsWithIsPrefix(s: string, prefix: string)
    ensures StartsWith(s, prefix) <==> prefix <= s
  {
    EqualCut(s, prefix, |prefix|);
  }

  ghost predicate HasDatabase(es: seq<Found>, nodeNum: U16, prefixes: Prefixes) {
    exists i :: 0 <= i < |es| && Mine(es[i], nodeNum) && IsDatabase(es[i], prefixes)
  }

  ghost predicate HasTableSpace(es: seq<Found>, nodeNum: U16, prefixes: Prefixes) {
    exists i :: 0 <= i < |es| && Mine(es[i], nodeNum) && IsTableSpace(es[i], prefixes)
  }

  lemma HasKindNext(es: seq<Found>, e: Found, nodeNum: U16, prefixes: Prefixes)
    ensures HasDatabase(es + [e], nodeNum, prefixes) <==>
            HasDatabase(es, nodeNum, prefixes) || (Mine(e, nodeNum) && IsDatabase(e, prefixes))
    ensures HasTableSpace(es + [e], nodeNum, prefixes) <==>
            HasTableSpace(es, nodeNum, prefixes) || (Mine(e, nodeNum) && IsTableSpace(e, prefixes))
  {
    hide Mine, IsDatabase, IsTableSpace;
    var next := es + [e];
    assert next[|es|] == e && forall i :: 0 <= i < |es| ==> next[i] == es[i];
  }

  lemma ConsiderKinds(best: Latest, e: Found, nodeNum: U16, prefixes: Prefixes)
    ensures var b := Consider(best, e, nodeNum, prefixes);
            && (b.database <==> best.database || (Mine(e, nodeNum) && IsDatabase(e, prefixes)))
            && (b.tableSpace <==> best.tableSpace || (Mine(e, nodeNum) && IsTableSpace(e, prefixes)))
  {
    hide StartsWith, PartitionOf, StrnCmp;
    StartsWithIsPrefix(BaseName(e.path), prefixes.dbFull);
    StartsWithIsPrefix(BaseName(e.path), prefixes.db);
    StartsWithIsPrefix(BaseName(e.path), prefixes.tsp);
  }

  /** It sees a kind of backup exactly when the partition has one of that kind; a name
      that could be either counts as a database. */
  lemma {:induction false} SeesKinds(es: seq<Found>, nodeNum: U16, prefixes: Prefixes)
    ensures var b := LatestOf(es, nodeNum, prefixes);
            && (b.database <==> HasDatabase(es, nodeNum, prefixes))
            && (b.tableSpace <==> HasTableSpace(es, nodeNum, prefixes))
  {
    hide Consider, Mine, IsDatabase, IsTableSpace;
    if es != [] {
      var n := |es| - 1;
      SeesKinds(es[..n], nodeNum, prefixes);
      HasKindNext(es[..n], es[n], nodeNum, prefixes);
      ConsiderKinds(LatestOf(es[..n], nodeNum, prefixes), es[n], nodeNum, prefixes);
      assert es[..n] + [es[n]] == es;
    }
  }

  // --------------------------------------------------------- which image it is

  /** The objects of a partition. */
  function Own(es: seq<Found>, nodeNum: U16): seq<Found> {
    if es == [] then []
    else Own(es[..|es| - 1], nodeNum) + if Mine(es[|es| - 1], nodeNum) then [es[|es| - 1]] else []
  }

  /** The images that objects belong to, one for each object. */
  function ImagesOf(os: seq<Found>): (images: seq<ObjName>)
    ensures |images| == |os| && forall i :: 0 <= i < |os| ==> images[i] == ImageOf(os[i])
  {
    if os == [] then [] else [ImageOf(os[0])] + ImagesOf(os[1..])
  }

  /** The images of a partition. */
  function Images(es: seq<Found>, nodeNum: U16): seq<ObjName> {
    ImagesOf(Own(es, nodeNum))
  }

  /** `best` is one of the images, and none is greater. */
  ghost predicate IsGreatest(images: seq<ObjName>, best: ObjName) {
    best in images && forall x :: x in images ==> !Greater(x.path, best.path)
  }

  /** None is greater in its first `n` characters. */
  ghost predicate IsCutGreatest(images: seq<ObjName>, best: string, n: nat) {
    forall x :: x in images ==> !Greater(Cut(x.path, n), Cut(best, n))
  }

  lemma {:induction false} SomeGreatest(images: seq<ObjName>) returns (g: ObjName)
    requires images != []
    ensures IsGreatest(images, g)
  {
    hide Greater;
    g := images[0];
    NotGreaterThanItself(g.path);
    if |images| > 1 {
      var h := SomeGreatest(images[1..]);
      forall x | x in images ensures x == g || x in images[1..] {
      }
      if Greater(h.path, g.path) {
        NotBothGreater(h.path, g.path);
        g := h;
      } else {
        forall x | x in images[1..] ensures !Greater(x.path, g.path) {
          GreaterIsTotal(h.path, g.path);
          if Greater(x.path, g.path) && h.path != g.path {
            GreaterIsTransitive(x.path, g.path, h.path);
          }
        }
      }
    }
  }

  lemma NotBothGreater(a: string, b: string)
    requires Greater(a, b)
    ensures !Greater(b, a)
  {
    NotGreaterThanItself(a);
    if Greater(b, a) {
      GreaterIsTransitive(a, b, a);
    }
  }

  // How one object bears on an image path `g`, if `n` characters are compared.

  /** Its image agrees with `g` as far as names are compared. */
  predicate Agrees(o: Found, g: string, n: nat) {
    Cut(ImageOf(o).path, n) == Cut(g, n)
  }

  /** It belongs to another image that does so. */
  predicate Hides(o: Found, g: string, n: nat) {
    ImageOf(o).path != g && Agrees(o, g, n)
  }

  /** It belongs to another image, and comes out as the greater in a comparison. */
  predicate Beats(o: Found, g: string, n: nat) {
    ImageOf(o).path != g && StrnCmp(o.path, g, n) > 0
  }

  /** No object of the list from index `i` on beats `g`. */
  ghost predicate Unbeaten(os: seq<Found>, i: nat, g: string, n: nat) {
    forall k :: i <= k < |os| ==> !Beats(os[k], g, n)
  }

  /** Some object agrees with `g`, and none behind it beats it. */
  ghost predicate StaysClose(os: seq<Found>, g: string, n: nat) {
    exists i :: 0 <= i < |os| && Agrees(os[i], g, n) && Unbeaten(os, i + 1, g, n)
  }

  /** Some object belongs to `g`, none behind it beats `g`, and every one in front of
      it that hides `g` is followed by one, still in front of it, that beats `g`. */
  ghost predicate Prevails(os: seq<Found>, g: string, n: nat) {
    exists i :: 0 <= i < |os| && ImageOf(os[i]).path == g && Unbeaten(os, i + 1, g, n) && Cleared(os, i, g, n)
  }

  ghost predicate Cleared(os: seq<Found>, i: nat, g: string, n: nat)
    requires i <= |os|
  {
    forall j :: 0 <= j < i && Hides(os[j], g, n) ==> exists k :: j < k < i && Beats(os[k], g, n)
  }

  /** An object's name continues that of its image. */
  lemma CutOfImage(o: Found, n: nat)
    ensures var m := ImageOf(o).path;
            Cut(m, n) <= Cut(o.path, n) && if |m| >= n then Cut(m, n) == Cut(o.path, n) else Cut(m, n) == m
  {
    hide LastIndexOf;
  }

  lemma BeatsOrAgrees(o: Found, g: string, n: nat)
    ensures !(Beats(o, g, n) && Agrees(o, g, n))
  {
    hide Greater, StrnCmp, ImageOf;
    ComparesCut(o.path, g, n);
    NotGreaterThanItself(Cut(g, n));
    CutOfImage(o, n);
  }

  /** Only an image that is shorter than what is compared, and that `g` begins with,
      can come out as greater than a `g` that is not smaller. */
  lemma BeatsIsShort(o: Found, g: string, n: nat)
    requires Beats(o, g, n) && !Greater(ImageOf(o).path, g)
    ensures |ImageOf(o).path| < n && ImageOf(o).path < g
  {
    hide Greater, StrnCmp;
    var m, p, c := ImageOf(o).path, Cut(o.path, n), Cut(g, n);
    ComparesCut(o.path, g, n);
    BeatsOrAgrees(o, g, n);
    GreaterIsTotal(m, g);
    GreaterOfCut(g, m, n);
    CutOfImage(o, n);
    NotBothGreater(p, c);
    Squeezed(Cut(m, n), p, c);
  }

  lemma AtLast(os: seq<Found>, o: Found, g: string, n: nat)
    ensures var next := os + [o];
            && Unbeaten(next, |next|, g, n) && (Cleared(next, |os|, g, n) <==> Cleared(os, |os|, g, n))
            && next[|os|] == o
  {
    hide Hides, Beats;
    var next := os + [o];
    assert forall i :: 0 <= i < |os| ==> next[i] == os[i];
  }

  lemma AtEarlier(os: seq<Found>, o: Found, i: nat, g: string, n: nat)
    requires i < |os|
    ensures var next := os + [o];
            && (Unbeaten(next, i + 1, g, n) <==> Unbeaten(os, i + 1, g, n) && !Beats(o, g, n))
            && (Cleared(next, i, g, n) <==> Cleared(os, i, g, n))
            && next[i] == os[i]
  {
    hide Hides, Beats;
    var next := os + [o];
    assert next[|os|] == o && forall i :: 0 <= i < |os| ==> next[i] == os[i];
  }

  lemma StaysCloseNext(os: seq<Found>, o: Found, g: string, n: nat)
    ensures StaysClose(os + [o], g, n) <==> !Beats(o, g, n) && (StaysClose(os, g, n) || Agrees(o, g, n))
  {
    var next := os + [o];
    BeatsOrAgrees(o, g, n);
    AtLast(os, o, g, n);
    hide Agrees, Beats, Unbeaten;
    if StaysClose(next, g, n) {
      var i :| 0 <= i < |next| && Agrees(next[i], g, n) && Unbeaten(next, i + 1, g, n);
      if i < |os| {
        AtEarlier(os, o, i, g, n);
      }
    }
    if !Beats(o, g, n) && StaysClose(os, g, n) {
      var i :| 0 <= i < |os| && Agrees(os[i], g, n) && Unbeaten(os, i + 1, g, n);
      AtEarlier(os, o, i, g, n);
    }
  }

  /** If nothing stays close, everything that hides `g` has been beaten away. */
  lemma FarIsCleared(os: seq<Found>, g: string, n: nat)
    requires !StaysClose(os, g, n)
    ensures Cleared(os, |os|, g, n)
  {
    hide Agrees, Beats, ImageOf;
    forall j | 0 <= j < |os| && Hides(os[j], g, n) ensures exists k :: j < k < |os| && Beats(os[k], g, n) {
      assert !Unbeaten(os, j + 1, g, n);
    }
  }

  /** If something stays close and yet everything that hides `g` has been beaten away,
      it belongs to `g`. */
  lemma ClearedPrevails(os: seq<Found>, g: string, n: nat)
    requires Cleared(os, |os|, g, n) && StaysClose(os, g, n)
    ensures Prevails(os, g, n)
  {
    hide Agrees, Beats, ImageOf;
    var i :| 0 <= i < |os| && Agrees(os[i], g, n) && Unbeaten(os, i + 1, g, n);
    assert !Hides(os[i], g, n);
    BeatsOrAgrees(os[i], g, n);
    hide Hides;
    forall j | 0 <= j < i && Hides(os[j], g, n) ensures exists k :: j < k < i && Beats(os[k], g, n) {
      var k :| j < k < |os| && Beats(os[k], g, n);
      assert k != i;
    }
    assert Cleared(os, i, g, n);
  }

  lemma PrevailsNext(os: seq<Found>, o: Found, g: string, n: nat)
    ensures Prevails(os + [o], g, n) <==>
            !Beats(o, g, n) && (Prevails(os, g, n) || (ImageOf(o).path == g && !StaysClose(os, g, n)))
  {
    var next := os + [o];
    AtLast(os, o, g, n);
    hide StaysClose, StrnCmp, ImageOf, Unbeaten, Cleared;
    if !StaysClose(os, g, n) {
      FarIsCleared(os, g, n);
    } else if Cleared(os, |os|, g, n) {
      ClearedPrevails(os, g, n);
    }
    if Prevails(next, g, n) {
      var i :| 0 <= i < |next| && ImageOf(next[i]).path == g && Unbeaten(next, i + 1, g, n) && Cleared(next, i, g, n);
      if i < |os| {
        AtEarlier(os, o, i, g, n);
      }
    }
    if !Beats(o, g, n) && Prevails(os, g, n) {
      var i :| 0 <= i < |os| && ImageOf(os[i]).path == g && Unbeaten(os, i + 1, g, n) && Cleared(os, i, g, n);
      AtEarlier(os, o, i, g, n);
    }
  }

  /** One round, for a `g` that nothing exceeds: what beats `g` takes its place and is
      below it; then whatever agrees with it first is kept until `g` is beaten again. */
  lemma ConsiderNext(best: string, o: Found, g: string, n: nat)
    requires !Greater(best, g) && !Greater(ImageOf(o).path, g)
    ensures var next := if StrnCmp(o.path, best, n) > 0 then ImageOf(o).path else best;
            && (Cut(next, n) == Cut(g, n) <==> !Beats(o, g, n) && (Cut(best, n) == Cut(g, n) || Agrees(o, g, n)))
            && (next == g <==>
                  !Beats(o, g, n) && (best == g || (ImageOf(o).path == g && Cut(best, n) != Cut(g, n))))
  {
    hide Greater, StrnCmp, ImageOf;
    BeatsOrAgrees(o, g, n);
    if Cut(best, n) == Cut(g, n) {
      CloseNext(best, o, g, n);
    } else {
      BelowNext(best, o, g, n);
    }
  }

  lemma CloseNext(best: string, o: Found, g: string, n: nat)
    requires Cut(best, n) == Cut(g, n)
    ensures ImageOf(o).path != g ==> (StrnCmp(o.path, best, n) > 0 <==> Beats(o, g, n))
    ensures ImageOf(o).path == g && StrnCmp(o.path, best, n) > 0 ==> best == g
  {
    hide Greater, StrnCmp, ImageOf;
    ComparesCut(o.path, best, n);
    ComparesCut(o.path, g, n);
    CutOfImage(o, n);
    NotGreaterThanItself(Cut(g, n));
  }

  lemma BelowNext(best: string, o: Found, g: string, n: nat)
    requires !Greater(best, g) && Cut(best, n) != Cut(g, n)
    ensures Beats(o, g, n) || Agrees(o, g, n) ==> StrnCmp(o.path, best, n) > 0
  {
    hide Greater, StrnCmp, ImageOf, Cut;
    ComparesCut(o.path, best, n);
    ComparesCut(o.path, g, n);
    CutOfImage(o, n);
    CutIsBelow(best, g, n);
    if Beats(o, g, n) {
      GreaterIsTransitive(Cut(o.path, n), Cut(g, n), Cut(best, n));
    } else if Agrees(o, g, n) {
      LongerIsGreater(Cut(g, n), Cut(o.path, n), Cut(best, n));
    }
  }

  lemma CutIsBelow(m: string, g: string, n: nat)
    requires !Greater(m, g)
    ensures Cut(m, n) == Cut(g, n) || Greater(Cut(g, n), Cut(m, n))
  {
    hide Greater, Cut;
    GreaterIsTotal(m, g);
    if m != g {
      GreaterOfCut(g, m, n);
    }
  }

  lemma OwnNext(es: seq<Found>, e: Found, nodeNum: U16)
    ensures Own(es + [e], nodeNum) == Own(es, nodeNum) + if Mine(e, nodeNum) then [e] else []
  {
    hide Mine;
    assert (es + [e])[..|es|] == es;
  }

  /** The state of a choice `best` against `g`, after the objects `os`. */
  ghost predicate ChoiceIs(os: seq<Found>, best: string, g: string, n: nat) {
    && !Greater(best, g)
    && (Cut(best, n) == Cut(g, n) <==> StaysClose(os, g, n))
    && (best == g <==> Prevails(os, g, n))
  }

  lemma ChoiceNext(os: seq<Found>, best: string, o: Found, g: string, n: nat)
    requires ChoiceIs(os, best, g, n) && !Greater(ImageOf(o).path, g)
    ensures ChoiceIs(os + [o], if StrnCmp(o.path, best, n) > 0 then ImageOf(o).path else best, g, n)
  {
    hide Greater, StrnCmp, ImageOf, Agrees, Beats, Prevails, StaysClose, Cut;
    StaysCloseNext(os, o, g, n);
    PrevailsNext(os, o, g, n);
    ConsiderNext(best, o, g, n);
  }

  lemma ChoiceFirst(o: Found, g: string)
    requires !Greater(ImageOf(o).path, g)
    ensures ChoiceIs([o], ImageOf(o).path, g, |ImageOf(o).path|)
  {
    hide StrnCmp, Greater;
    var n := |ImageOf(o).path|;
    if Beats(o, g, n) {
      BeatsIsShort(o, g, n);
    }
    hide Beats, Cut, ImageOf;
    assert [] + [o] == [o];
    StaysCloseNext([], o, g, n);
    PrevailsNext([], o, g, n);
  }

  lemma ConsiderName(best: Latest, e: Found, nodeNum: U16, prefixes: Prefixes)
    ensures var b := Consider(best, e, nodeNum, prefixes);
            if !Mine(e, nodeNum) then b == best
            else if !best.found then b.found && b.name == ImageOf(e) && b.length == |ImageOf(e).path|
            else
              && b.found && b.length == best.length
              && b.name == if StrnCmp(e.path, best.name.path, best.length) > 0 then ImageOf(e) else best.name
  {
    hide StrnCmp, StartsWith, PartitionOf, ImageOf;
  }

  lemma {:induction false} ImagesNext(os: seq<Found>, o: Found)
    ensures ImagesOf(os + [o]) == ImagesOf(os) + [ImageOf(o)]
  {
    hide ImageOf;
    if os == [] {
      assert os + [o] == [o] && [o][1..] == [];
    } else {
      ImagesNext(os[1..], o);
      assert (os + [o])[1..] == os[1..] + [o];
    }
  }

  /** getLatestCopy finds an image exactly when the partition has one; it compares as
      many characters as the first has. */
  lemma {:induction false} LatestIsImage(es: seq<Found>, nodeNum: U16, prefixes: Prefixes)
    ensures var b, images := LatestOf(es, nodeNum, prefixes), Images(es, nodeNum);
            && (b.found <==> images != [])
            && (b.found ==> b.name in images && b.length == |images[0].path|)
  {
    hide Consider, StrnCmp, ImageOf, Mine, ImagesOf;
    if es != [] {
      var k := |es| - 1;
      var front, e := es[..k], es[k];
      LatestIsImage(front, nodeNum, prefixes);
      ConsiderName(LatestOf(front, nodeNum, prefixes), e, nodeNum, prefixes);
      ImagesNext(Own(front, nodeNum), e);
      assert Own(front, nodeNum) + [] == Own(front, nodeNum);
    }
  }

  /** Its choice against any `g` that no image of the partition exceeds. */
  lemma {:induction false} ChosenAgainst(es: seq<Found>, nodeNum: U16, prefixes: Prefixes, g: string)
    requires forall o :: o in Own(es, nodeNum) ==> !Greater(ImageOf(o).path, g)
    ensures var b, os := LatestOf(es, nodeNum, prefixes), Own(es, nodeNum);
            && (b.found <==> os != [])
            && (b.found ==> b.length == |ImageOf(os[0]).path| && ChoiceIs(os, b.name.path, g, b.length))
  {
    hide Greater, Consider, StrnCmp, ImageOf, Mine, ChoiceIs;
    if es == [] {
    } else {
      hide LatestOf, Own;
      var k := |es| - 1;
      var front, e := es[..k], es[k];
      var b, os := LatestOf(front, nodeNum, prefixes), Own(front, nodeNum);
      assert es == front + [e];
      LatestOfNext(front, e, nodeNum, prefixes);
      OwnNext(front, e, nodeNum);
      ChosenAgainst(front, nodeNum, prefixes, g);
      ConsiderName(b, e, nodeNum, prefixes);
      assert os + [] == os;
      if Mine(e, nodeNum) {
        assert (os + [e])[|os|] == e;
        if b.found {
          assert (os + [e])[0] == os[0];
          ChoiceNext(os, b.name.path, e, g, b.length);
        } else {
          assert os + [e] == [e];
          ChoiceFirst(e, g);
        }
      }
    }
  }

  /** The name chosen, against a greatest image. */
  lemma ChosenAgainstGreatest(es: seq<Found>, nodeNum: U16, prefixes: Prefixes, g: ObjName)
    requires IsGreatest(Images(es, nodeNum), g)
    ensures var b, images := LatestOf(es, nodeNum, prefixes), Images(es, nodeNum);
            b.name in images && ChoiceIs(Own(es, nodeNum), b.name.path, g.path, |images[0].path|)
  {
    hide Greater, LatestOf, Own, ChoiceIs;
    var os, images := Own(es, nodeNum), Images(es, nodeNum);
    forall o | o in os ensures !Greater(ImageOf(o).path, g.path) {
      var i :| 0 <= i < |os| && os[i] == o;
      assert images[i] in images;
    }
    LatestIsImage(es, nodeNum, prefixes);
    ChosenAgainst(es, nodeNum, prefixes, g.path);
  }

  /** The exact condition for the choice to be right, stated of what the query lists:
      with `g` the greatest image of the partition, and as many characters compared as
      the first image listed has, a greatest image is chosen exactly if `g` prevails. */
  lemma {:induction false} LatestIsGreatestIff(es: seq<Found>, nodeNum: U16, prefixes: Prefixes, g: ObjName)
    requires IsGreatest(Images(es, nodeNum), g)
    ensures var b, images := LatestOf(es, nodeNum, prefixes), Images(es, nodeNum);
            IsGreatest(images, b.name) <==> Prevails(Own(es, nodeNum), g.path, |images[0].path|)
  {
    hide Greater, LatestOf, Own, Images, Prevails, StaysClose;
    ChosenAgainstGreatest(es, nodeNum, prefixes, g);
    GreaterIsTotal(g.path, LatestOf(es, nodeNum, prefixes).name.path);
  }

  /** It is greatest as far as names are compared exactly if something stays close. */
  lemma {:induction false} LatestIsCutGreatestIff(es: seq<Found>, nodeNum: U16, prefixes: Prefixes, g: ObjName)
    requires IsGreatest(Images(es, nodeNum), g)
    ensures var b, images := LatestOf(es, nodeNum, prefixes), Images(es, nodeNum);
            var n := |images[0].path|;
            IsCutGreatest(images, b.name.path, n) <==> StaysClose(Own(es, nodeNum), g.path, n)
  {
    hide Greater, LatestOf, Own, Images, Cut, Prevails, StaysClose;
    var b, images := LatestOf(es, nodeNum, prefixes), Images(es, nodeNum);
    var n := |images[0].path|;
    ChosenAgainstGreatest(es, nodeNum, prefixes, g);
    CutIsBelow(b.name.path, g.path, n);
    forall x | x in images && Cut(b.name.path, n) == Cut(g.path, n)
      ensures !Greater(Cut(x.path, n), Cut(b.name.path, n))
    {
      CutIsBelow(x.path, g.path, n);
      NotGreaterThanItself(Cut(g.path, n));
      if Greater(Cut(g.path, n), Cut(x.path, n)) {
        NotBothGreater(Cut(g.path, n), Cut(x.path, n));
      }
    }
  }

  /** No image shorter than `n` is the beginning of another. */
  ghost predicate NoShortBeginning(images: seq<ObjName>, n: nat) {
    forall x, y :: x in images && y in images && |x.path| < n ==> !(x.path < y.path)
  }

  lemma NotBeaten(images: seq<ObjName>, o: Found, g: ObjName, n: nat)
    requires IsGreatest(images, g) && NoShortBeginning(images, n) && ImageOf(o) in images
    ensures !Beats(o, g.path, n)
  {
    hide Greater, Beats, ImageOf;
    if Beats(o, g.path, n) {
      BeatsIsShort(o, g.path, n);
    }
  }

  lemma UnbeatenPrevails(os: seq<Found>, g: string, n: nat)
    requires forall k :: 0 <= k < |os| ==> !Beats(os[k], g, n)
    ensures StaysClose(os, g, n) <==> exists i :: 0 <= i < |os| && Agrees(os[i], g, n)
    ensures Prevails(os, g, n) <==>
            exists i :: 0 <= i < |os| && ImageOf(os[i]).path == g && forall j :: 0 <= j < i ==> !Hides(os[j], g, n)
  {
    hide Beats, Hides, Agrees, ImageOf;
    forall i | 0 <= i < |os|
      ensures Unbeaten(os, i + 1, g, n) && (Cleared(os, i, g, n) <==> forall j :: 0 <= j < i ==> !Hides(os[j], g, n))
    {
    }
    hide Unbeaten, Cleared;
  }

  /** If no image shorter than the first is the beginning of another, nothing is ever
      beaten: the choice is the greatest as far as names are compared, and the greatest
      of all exactly if the greatest is the first listed of those that agree with it. */
  lemma {:induction false} LatestIsCutGreatest(es: seq<Found>, nodeNum: U16, prefixes: Prefixes, g: ObjName)
    requires IsGreatest(Images(es, nodeNum), g) && NoShortBeginning(Images(es, nodeNum), |Images(es, nodeNum)[0].path|)
    ensures var b, os, images := LatestOf(es, nodeNum, prefixes), Own(es, nodeNum), Images(es, nodeNum);
            var n := |images[0].path|;
            && IsCutGreatest(images, b.name.path, n)
            && (IsGreatest(images, b.name) <==>
                  exists i :: 0 <= i < |os| && ImageOf(os[i]).path == g.path
                              && forall j :: 0 <= j < i ==> !Hides(os[j], g.path, n))
  {
    hide Greater, LatestOf, Own, ImageOf, Agrees, Beats, Hides, Prevails, StaysClose, IsCutGreatest, NoShortBeginning;
    var os, images := Own(es, nodeNum), Images(es, nodeNum);
    var n := |images[0].path|;
    LatestIsGreatestIff(es, nodeNum, prefixes, g);
    LatestIsCutGreatestIff(es, nodeNum, prefixes, g);
    forall k | 0 <= k < |os| ensures !Beats(os[k], g.path, n) {
      assert images[k] in images;
      NotBeaten(images, os[k], g, n);
    }
    UnbeatenPrevails(os, g.path, n);
    var i :| 0 <= i < |images| && images[i] == g;
    SameAgrees(os[i], g.path, n);
  }

  lemma SameAgrees(o: Found, g: string, n: nat)
    requires ImageOf(o).path == g
    ensures Agrees(o, g, n) && !Hides(o, g, n)
  {
  }

  /** Nothing hides an image from images of the same length, and nothing beats it. */
  lemma SameLengthShows(o: Found, g: string)
    requires |ImageOf(o).path| == |g| && !Greater(ImageOf(o).path, g)
    ensures !Hides(o, g, |g|) && !Beats(o, g, |g|)
  {
    hide Greater, StrnCmp, LastIndexOf;
    if Beats(o, g, |g|) {
      BeatsIsShort(o, g, |g|);
    }
  }

  lemma {:induction false} SameLengthPrevails(os: seq<Found>, g: ObjName)
    requires IsGreatest(ImagesOf(os), g) && forall k :: 0 <= k < |os| ==> |ImageOf(os[k]).path| == |g.path|
    ensures Prevails(os, g.path, |g.path|)
  {
    hide Greater, Prevails, Hides, Beats, ImageOf;
    var images := ImagesOf(os);
    forall k | 0 <= k < |os| ensures !Hides(os[k], g.path, |g.path|) && !Beats(os[k], g.path, |g.path|) {
      assert images[k] in images;
      SameLengthShows(os[k], g.path);
    }
    var i :| 0 <= i < |images| && images[i] == g;
    UnbeatenPrevails(os, g.path, |g.path|);
  }

  /** In particular, for images of one length, such as those of one name with timestamps
      of fixed length, the choice is right: it is the latest. */
  lemma {:induction false} LatestIsGreatest(es: seq<Found>, nodeNum: U16, prefixes: Prefixes)
    requires forall x, y :: x in Images(es, nodeNum) && y in Images(es, nodeNum) ==> |x.path| == |y.path|
    ensures var b, images := LatestOf(es, nodeNum, prefixes), Images(es, nodeNum);
            (b.found <==> images != []) && (b.found ==> IsGreatest(images, b.name))
  {
    hide Greater, LatestOf, Own, Prevails, ImageOf;
    var images, os := Images(es, nodeNum), Own(es, nodeNum);
    LatestIsImage(es, nodeNum, prefixes);
    if images != [] {
      var g := SomeGreatest(images);
      forall k | 0 <= k < |os| ensures |ImageOf(os[k]).path| == |g.path| {
        assert images[k] in images;
      }
      SameLengthPrevails(os, g);
      LatestIsGreatestIff(es, nodeNum, prefixes, g);
    }
  }

  /** `image` is one of the partition's, and the greatest exactly if that prevails. */
  ghost predicate RightIfPrevails(es: seq<Found>, nodeNum: U16, image: ObjName) {
    var images := Images(es, nodeNum);
    && image in images
    && forall g :: IsGreatest(images, g) ==>
         (IsGreatest(images, image) <==> Prevails(Own(es, nodeNum), g.path, |images[0].path|))
  }

  /** All that getLatestCopy promises for what the query lists. */
  lemma {:induction false} LatestPromise(es: seq<Found>, nodeNum: U16, prefixes: Prefixes)
    ensures var b := LatestOf(es, nodeNum, prefixes);
            && (b.database <==> HasDatabase(es, nodeNum, prefixes))
            && (b.tableSpace <==> HasTableSpace(es, nodeNum, prefixes))
            && (b.found <==> Images(es, nodeNum) != [])
            && (b.database || b.tableSpace ==> b.found)
            && (b.found ==> RightIfPrevails(es, nodeNum, b.name))
  {
    var b, images := LatestOf(es, nodeNum, prefixes), Images(es, nodeNum);
    SeesKinds(es, nodeNum, prefixes);
    LatestIsImage(es, nodeNum, prefixes);
    KindIsFound(es, nodeNum, prefixes);
    hide Greater, LatestOf, Own, Images, Prevails, StaysClose, IsCutGreatest;
    forall g | IsGreatest(images, g)
      ensures IsGreatest(images, b.name) <==> Prevails(Own(es, nodeNum), g.path, |images[0].path|)
    {
      LatestIsGreatestIff(es, nodeNum, prefixes, g);
    }
  }

  lemma {:induction false} KindIsFound(es: seq<Found>, nodeNum: U16, prefixes: Prefixes)
    ensures var b := LatestOf(es, nodeNum, prefixes); b.database || b.tableSpace ==> b.found
  {
    hide StrnCmp, StartsWith, PartitionOf, ImageOf;
    if es != [] {
      KindIsFound(es[..|es| - 1], nodeNum, prefixes);
    }
  }

  // -------------------------------------------------------- when it is not right

  /** An object as bldWriteObjDesc names it, and its image. */
  function Object(space: string, filename: string, timestamp: string, sequence: string): (e: Found)
    requires '.' !in sequence
    ensures ImageOf(e) == ObjName(space, [PATH_SEP] + filename + "." + timestamp)
  {
    var path := PathName(filename, timestamp, sequence);
    var k := |[PATH_SEP] + filename + "." + timestamp|;
    assert path[k] == '.' && path[k + 1..] == sequence && path[..k] == [PATH_SEP] + filename + "." + timestamp;
    LastIndexIs(path, '.', k);
    ObjName(space, path)
  }

  lemma FirstOfAll(a: Found, nodeNum: U16, prefixes: Prefixes)
    requires Mine(a, nodeNum)
    ensures var b := LatestOf([a], nodeNum, prefixes);
            b.found && b.name == ImageOf(a) && b.length == |ImageOf(a).path|
  {
    hide StartsWith, PartitionOf, ImageOf;
    assert [] + [a] == [a];
    LatestOfNext([], a, nodeNum, prefixes);
  }

  lemma SecondOfTwo(a: Found, b: Found, nodeNum: U16, prefixes: Prefixes)
    requires Mine(a, nodeNum) && Mine(b, nodeNum)
    requires StrnCmp(b.path, ImageOf(a).path, |ImageOf(a).path|) > 0
    ensures var l := LatestOf([a, b], nodeNum, prefixes);
            l.found && l.name == ImageOf(b) && l.length == |ImageOf(a).path|
  {
    hide StrnCmp, StartsWith, ImageOf, LatestOf, PartitionOf;
    FirstOfAll(a, nodeNum, prefixes);
    assert [a] + [b] == [a, b];
    LatestOfNext([a], b, nodeNum, prefixes);
  }

  lemma SecondOfThree(a: Found, b: Found, c: Found, nodeNum: U16, prefixes: Prefixes)
    requires Mine(a, nodeNum) && Mine(b, nodeNum) && Mine(c, nodeNum)
    requires var n := |ImageOf(a).path|;
             StrnCmp(b.path, ImageOf(a).path, n) > 0 && StrnCmp(c.path, ImageOf(b).path, n) <= 0
    ensures LatestOf([a, b, c], nodeNum, prefixes).name == ImageOf(b)
  {
    hide StrnCmp, StartsWith, ImageOf, LatestOf, PartitionOf;
    SecondOfTwo(a, b, nodeNum, prefixes);
    assert [a, b] + [c] == [a, b, c];
    LatestOfNext([a, b], c, nodeNum, prefixes);
  }

  lemma SameBeginning(y: string, t: string, u: string, rest: string, n: nat)
    requires |t| == |u| && n <= |y| + |t| && forall i :: 0 <= i < |t| && |y| + i < n ==> t[i] == u[i]
    ensures Cut(y + u + rest, n) == Cut(y + t, n)
  {
  }

  lemma GreaterBehind(y: string, u: string, t: string)
    requires Greater(u, t)
    ensures Greater(y + u, y + t)
  {
    var i :| 0 <= i < |u| && DecidesAt(u, t, i);
    assert (y + u)[..|y| + i] == y + u[..i] && (y + t)[..|y| + i] == y + t[..i];
    assert DecidesAt(y + u, y + t, |y| + i);
  }

  /** Behind an image with a shorter name `x`, of two images with one longer name `y`
      the one listed first is chosen, even if the other is later, whenever their
      timestamps agree but for as many characters at the end as `y` is longer than `x`:
      these are not compared. Such are the names "A" and "LONGNAME" with timestamps of
      one day and the next. The names are as bldWriteObjDesc prints them. */
  lemma OlderImageIsChosen(alias: string, nodeNum: U16, x: string, y: string, s: string, t: string, u: string,
                           prefixes: Prefixes)
    requires x != "" && |x| < |y| && y[0] > x[0] && |s| == |t| == |u|
    requires forall i :: 0 <= i < |t| - (|y| - |x|) ==> t[i] == u[i]
    requires Greater(u, t)
    ensures var space := SpaceName(alias, nodeNum);
            var b, c := Object(space, y, t, "1"), Object(space, y, u, "1");
            && LatestOf([Object(space, x, s, "1"), b, c], nodeNum, prefixes).name == ImageOf(b)
            && Greater(ImageOf(c).path, ImageOf(b).path)
  {
    hide PartitionOf, SpaceName, StrnCmp, LatestOf, LastIndexOf, StartsWith;
    var space := SpaceName(alias, nodeNum);
    PartitionRoundTrip(alias, nodeNum);
    var a, b, c := Object(space, x, s, "1"), Object(space, y, t, "1"), Object(space, y, u, "1");
    var n, name := |ImageOf(a).path|, [PATH_SEP] + y + ".";
    assert c.path == name + u + ("." + "1");
    SameBeginning(name, t, u, "." + "1", n);
    EqualCut(c.path, ImageOf(b).path, n);
    assert DecidesAt(Cut(b.path, n), Cut(ImageOf(a).path, n), 1);
    ComparesCut(b.path, ImageOf(a).path, n);
    SecondOfThree(a, b, c, nodeNum, prefixes);
    GreaterBehind(name, u, t);
  }

  lemma BetweenNames(m: string, r: string, seqNo: string)
    requires r != "" && r[0] < '.' && seqNo != "" && seqNo[0] == '.'
    ensures Greater(m + r, m) && StrnCmp(m + seqNo, m + r, |m + r|) > 0
  {
    assert DecidesAt(m + r, m, |m|);
    assert DecidesAt(Cut(m + seqNo, |m + r|), m + r, |m|);
    ComparesCut(m + seqNo, m + r, |m + r|);
  }

  /** And where a short image is the beginning of another, the sequence number behind
      it can make it the greater of the two. */
  lemma ShortBeginningIsChosen(alias: string, nodeNum: U16, x: string, s: string, r: string, t: string, prefixes: Prefixes)
    requires r != "" && r[0] < '.'
    ensures var space := SpaceName(alias, nodeNum);
            var a, b := Object(space, x + "." + s + r, t, "1"), Object(space, x, s, "1");
            && LatestOf([a, b], nodeNum, prefixes).name == ImageOf(b)
            && Greater(ImageOf(a).path, ImageOf(b).path)
  {
    hide PartitionOf, SpaceName, StrnCmp, LatestOf, LastIndexOf, StartsWith, Greater;
    var space := SpaceName(alias, nodeNum);
    PartitionRoundTrip(alias, nodeNum);
    var a, b := Object(space, x + "." + s + r, t, "1"), Object(space, x, s, "1");
    var m, rest := ImageOf(b).path, r + "." + t;
    BetweenNames(m, rest, "." + "1");
    assert ImageOf(a).path == m + rest && b.path == m + ("." + "1");
    SecondOfTwo(a, b, nodeNum, prefixes);
  }
}
