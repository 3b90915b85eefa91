/**
  The file collection (ptp/collect.cpp, without the Win32 branches): its entries, and the scan of
  registered directories with everything below them.

  The file system is a finite map that does not change during a scan: the names listed for each
  directory that can be opened, and what stat says of each path it succeeds for.
 */
module PtpCollect {
  import opened Common
  import opened PtpPattern
  import opened ResumableSearch

  datatype Info = IsDirectory | IsFile(size: nat)

  datatype FileSystem = FileSystem(listing: map<string, seq<string>>, info: map<string, Info>)

  predicate IsDots(name: string) {
    name == "." || name == ".."
  }

  function PathOf(dir: string, name: string): string {
    dir + "/" + name
  }

  // ----- The directories of a scan -----

  predicate IsSubdirectory(fs: FileSystem, dir: string, name: string) {
    !IsDots(name) && PathOf(dir, name) in fs.info && fs.info[PathOf(dir, name)].IsDirectory?
  }

  predicate Extends(top: string, q: string) {
    top + "/" <= q
  }

  ghost predicate AllBelow(ps: seq<string>, top: string) {
    forall i :: 0 <= i < |ps| ==> Extends(top, ps[i])
  }

  /** What one directory puts in front of the list of those to scan, the latest first. */
  function Pushed(fs: FileSystem, dir: string, names: seq<string>): (r: seq<string>)
    ensures forall q :: q in r <==> exists n :: n in names && IsSubdirectory(fs, dir, n) && q == PathOf(dir, n)
    ensures AllBelow(r, dir)
  {
    if names == [] then [] else
      var k := |names| - 1;
      assert names == names[..k] + [names[k]];
      (if IsSubdirectory(fs, dir, names[k]) then [PathOf(dir, names[k])] else []) + Pushed(fs, dir, names[..k])
  }

  /** The directories whose paths extend a path. */
  ghost function Under(fs: FileSystem, p: string): set<string> {
    set q | q in fs.listing && p <= q
  }

  lemma UnderShrinks(fs: FileSystem, p: string, q: string)
    requires p in fs.listing && Extends(p, q)
    ensures Under(fs, q) < Under(fs, p)
  {
    assert p !in Under(fs, q);
    assert p in Under(fs, p);
    forall x | x in Under(fs, q) ensures x in Under(fs, p) {
      assert x[..|p|] == q[..|p|] == (p + "/")[..|p|];
    }
  }

  /** The directories that can be opened at and below a path, in the order they are visited. */
  ghost function Tree(fs: FileSystem, p: string): seq<string>
    decreases Under(fs, p)
  {
    if p !in fs.listing then [] else [p] + Forest(fs, Pushed(fs, p, fs.listing[p]), p)
  }

  ghost function Forest(fs: FileSystem, ps: seq<string>, top: string): seq<string>
    requires top in fs.listing && AllBelow(ps, top)
    decreases Under(fs, top), |ps|
  {
    if ps == [] then [] else
      UnderShrinks(fs, top, ps[0]);
      Tree(fs, ps[0]) + Forest(fs, ps[1..], top)
  }

  /** The visits a list of directories leads to. */
  ghost function Visits(fs: FileSystem, ps: seq<string>): seq<string> {
    if ps == [] then [] else Tree(fs, ps[0]) + Visits(fs, ps[1..])
  }

  lemma {:induction false} ForestVisits(fs: FileSystem, ps: seq<string>, top: string)
    requires top in fs.listing && AllBelow(ps, top)
    ensures Forest(fs, ps, top) == Visits(fs, ps)
  {
    if ps != [] {
      ForestVisits(fs, ps[1..], top);
    }
  }

  lemma {:induction false} VisitsConcat(fs: FileSystem, a: seq<string>, b: seq<string>)
    ensures Visits(fs, a + b) == Visits(fs, a) + Visits(fs, b)
  {
    if a == [] {
      assert a + b == b;
    } else {
      assert (a + b)[1..] == a[1..] + b;
      VisitsConcat(fs, a[1..], b);
    }
  }

  /** Opening one directory replaces it by what it pushes. */
  lemma VisitsStep(fs: FileSystem, d: string, rest: seq<string>)
    ensures Visits(fs, [d] + rest)
         == if d in fs.listing then [d] + Visits(fs, Pushed(fs, d, fs.listing[d]) + rest) else Visits(fs, rest)
  {
    VisitsCons(fs, d, rest);
    TreeVisits(fs, d);
    if d in fs.listing {
      var below := Pushed(fs, d, fs.listing[d]);
      VisitsConcat(fs, below, rest);
      Regroup(d, Visits(fs, below), Visits(fs, rest));
    }
  }

  lemma VisitsCons(fs: FileSystem, d: string, rest: seq<string>)
    ensures Visits(fs, [d] + rest) == Tree(fs, d) + Visits(fs, rest)
  {
    assert ([d] + rest)[1..] == rest;
  }

  lemma Regroup(d: string, a: seq<string>, b: seq<string>)
    ensures ([d] + a) + b == [d] + (a + b)
  {
  }

  lemma TreeVisits(fs: FileSystem, d: string)
    ensures Tree(fs, d) == if d in fs.listing then [d] + Visits(fs, Pushed(fs, d, fs.listing[d])) else []
  {
    if d in fs.listing {
      ForestVisits(fs, Pushed(fs, d, fs.listing[d]), d);
    }
  }

  /** The loop over the names of one directory. */
  method PushSubdirectories(fs: FileSystem, d: string, scan: seq<string>) returns (scan': seq<string>)
    requires d in fs.listing
    ensures scan' == Pushed(fs, d, fs.listing[d]) + scan
  {
    var names := fs.listing[d];
    scan' := scan;
    for i := 0 to |names|
      invariant scan' == Pushed(fs, d, names[..i]) + scan
    {
      assert names[..i + 1][..i] == names[..i];
      var path := PathOf(d, names[i]);
      if !IsDots(names[i]) && path in fs.info && fs.info[path].IsDirectory? {
        scan' := [path] + scan';
      }
    }
    assert names[..|names|] == names;
  }

  /** The first loop of Scan: `scan` is used as a stack, `done` as a queue. */
  method Directories(fs: FileSystem, root: string) returns (done: seq<string>)
    ensures done == Tree(fs, root)
  {
    var scan := [root];
    done := [];
    while scan != []
      invariant done + Visits(fs, scan) == Tree(fs, root)
      decreases |Visits(fs, scan)|, |scan|
    {
      var d := scan[0];
      assert scan == [d] + scan[1..];
      VisitsStep(fs, d, scan[1..]);
      scan := scan[1..];
      if d in fs.listing {
        done := done + [d];
        scan := PushSubdirectories(fs, d, scan);
      }
    }
  }

  // ----- Which directories these are -----

  /** A directory that another one lists, other than itself and the one above it. */
  ghost predicate IsChild(fs: FileSystem, p: string, q: string) {
    && p in fs.listing && q in fs.info && fs.info[q] == IsDirectory
    && exists n :: n in fs.listing[p] && q == p + "/" + n && n != "." && n != ".."
  }

  lemma ChildIs(fs: FileSystem, p: string, q: string)
    ensures IsChild(fs, p, q) <==>
              p in fs.listing && exists n :: n in fs.listing[p] && IsSubdirectory(fs, p, n) && q == PathOf(p, n)
  {
    if IsChild(fs, p, q) {
      var n :| n in fs.listing[p] && q == p + "/" + n && n != "." && n != "..";
      assert IsSubdirectory(fs, p, n) && q == PathOf(p, n);
    }
    if p in fs.listing && exists n :: n in fs.listing[p] && IsSubdirectory(fs, p, n) && q == PathOf(p, n) {
      var n :| n in fs.listing[p] && IsSubdirectory(fs, p, n) && q == PathOf(p, n);
      assert q == p + "/" + n && n != "." && n != "..";
    }
  }

  /** A directory that can be opened, and can be reached from `root` through others that can. */
  ghost predicate Reachable(fs: FileSystem, root: string, q: string)
    decreases |q|
  {
    q in fs.listing
    && (q == root || exists p :: p in fs.listing && |p| < |q| && IsChild(fs, p, q) && Reachable(fs, root, p))
  }

  lemma {:induction false} TreeReachable(fs: FileSystem, root: string, p: string, q: string)
    requires q in Tree(fs, p)
    requires p in fs.listing ==> Reachable(fs, root, p)
    ensures Reachable(fs, root, q)
    decreases Under(fs, p)
  {
    if q != p {
      var ps := Pushed(fs, p, fs.listing[p]);
      var c := InForest(fs, ps, p, q);
      UnderShrinks(fs, p, c);
      ChildIs(fs, p, c);
      TreeReachable(fs, root, c, q);
    }
  }

  lemma {:induction false} InForest(fs: FileSystem, ps: seq<string>, top: string, q: string) returns (c: string)
    requires top in fs.listing && AllBelow(ps, top)
    requires q in Forest(fs, ps, top)
    ensures c in ps && q in Tree(fs, c)
  {
    if q in Tree(fs, ps[0]) {
      c := ps[0];
    } else {
      c := InForest(fs, ps[1..], top, q);
    }
  }

  lemma {:induction false} ForestHas(fs: FileSystem, ps: seq<string>, top: string, c: string, q: string)
    requires top in fs.listing && AllBelow(ps, top)
    requires c in ps && q in Tree(fs, c)
    ensures q in Forest(fs, ps, top)
  {
    if c != ps[0] {
      ForestHas(fs, ps[1..], top, c, q);
    }
  }

  lemma {:induction false} TreeHasChild(fs: FileSystem, root: string, p: string, q: string)
    requires p in Tree(fs, root) && IsChild(fs, p, q) && q in fs.listing
    ensures q in Tree(fs, root)
    decreases Under(fs, root)
  {
    var ps := Pushed(fs, root, fs.listing[root]);
    ChildIs(fs, p, q);
    if p == root {
      ForestHas(fs, ps, root, q, q);
    } else {
      var c := InForest(fs, ps, root, p);
      UnderShrinks(fs, root, c);
      TreeHasChild(fs, c, p, q);
      ForestHas(fs, ps, root, c, q);
    }
  }

  lemma {:induction false} ReachableInTree(fs: FileSystem, root: string, q: string)
    requires Reachable(fs, root, q)
    ensures q in Tree(fs, root)
    decreases |q|
  {
    if q != root {
      var p :| p in fs.listing && |p| < |q| && IsChild(fs, p, q) && Reachable(fs, root, p);
      ReachableInTree(fs, root, p);
      TreeHasChild(fs, root, p, q);
    }
  }

  /** The scan visits the reachable directories and no others. */
  lemma TreeIsReachable(fs: FileSystem, root: string, q: string)
    ensures q in Tree(fs, root) <==> Reachable(fs, root, q)
  {
    if q in Tree(fs, root) {
      TreeReachable(fs, root, root, q);
    }
    if Reachable(fs, root, q) {
      ReachableInTree(fs, root, q);
    }
  }

  // ----- Each of them once -----

  ghost predicate Distinct(s: seq<string>) {
    forall i, j :: 0 <= i < j < |s| ==> s[i] != s[j]
  }

  /** A real listing has distinct names without slashes. */
  ghost predicate WellNamed(fs: FileSystem) {
    forall d | d in fs.listing :: Distinct(fs.listing[d]) && forall n | n in fs.listing[d] :: '/' !in n
  }

  predicate AtOrBelow(top: string, q: string) {
    q == top || Extends(top, q)
  }

  lemma {:induction false} TreeBelow(fs: FileSystem, p: string, q: string)
    requires q in Tree(fs, p)
    ensures AtOrBelow(p, q)
    decreases Under(fs, p)
  {
    if q != p {
      var c := InForest(fs, Pushed(fs, p, fs.listing[p]), p, q);
      UnderShrinks(fs, p, c);
      TreeBelow(fs, c, q);
      assert q[..|c|] == c;
      assert q[..|p| + 1] == c[..|p| + 1];
    }
  }

  /** The part before the first slash. */
  function Head(s: string): string {
    if s == "" || s[0] == '/' then "" else [s[0]] + Head(s[1..])
  }

  lemma {:induction false} HeadOf(name: string, rest: string)
    requires '/' !in name && (rest == "" || rest[0] == '/')
    ensures Head(name + rest) == name
  {
    if name == "" {
      assert name + rest == rest;
    } else {
      assert (name + rest)[1..] == name[1..] + rest;
      HeadOf(name[1..], rest);
    }
  }

  lemma HeadBelow(p: string, name: string, q: string)
    requires '/' !in name && AtOrBelow(PathOf(p, name), q)
    ensures |q| > |p| && Head(q[|p| + 1..]) == name
  {
    var n := |PathOf(p, name)|;
    assert q[..n] == PathOf(p, name) by {
      if q != PathOf(p, name) {
        assert q[..n + 1][..n] == q[..n];
      }
    }
    assert q[|p| + 1..] == name + q[n..] by {
      assert q[..n][|p| + 1..] == name;
    }
    HeadOf(name, q[n..]);
  }

  /** Two names without slashes below the same directory lead to different paths. */
  lemma SiblingsApart(p: string, m: string, n: string, q: string)
    requires '/' !in m && '/' !in n
    requires AtOrBelow(PathOf(p, m), q) && AtOrBelow(PathOf(p, n), q)
    ensures m == n
  {
    HeadBelow(p, m, q);
    HeadBelow(p, n, q);
  }

  ghost predicate Disjoint(a: seq<string>, b: seq<string>) {
    forall q | q in a :: q !in b
  }

  lemma DistinctConcat(a: seq<string>, b: seq<string>)
    requires Distinct(a) && Distinct(b) && Disjoint(a, b)
    ensures Distinct(a + b)
  {
    forall i, j | 0 <= i < j < |a + b| ensures (a + b)[i] != (a + b)[j] {
      if i < |a| <= j {
        assert a[i] in a && b[j - |a|] in b;
      }
    }
  }

  lemma {:induction false} PushedDistinct(fs: FileSystem, d: string, names: seq<string>)
    requires Distinct(names)
    ensures Distinct(Pushed(fs, d, names))
  {
    if names != [] {
      var k := |names| - 1;
      PushedDistinct(fs, d, names[..k]);
      if IsSubdirectory(fs, d, names[k]) {
        forall n | n in names[..k] ensures PathOf(d, n) != PathOf(d, names[k]) {
          assert PathOf(d, n)[|d| + 1..] == n && PathOf(d, names[k])[|d| + 1..] == names[k];
        }
        DistinctConcat([PathOf(d, names[k])], Pushed(fs, d, names[..k]));
      }
    }
  }

  /** No directory is visited twice. */
  lemma {:induction false} TreeDistinct(fs: FileSystem, p: string)
    requires WellNamed(fs)
    ensures Distinct(Tree(fs, p))
    decreases Under(fs, p)
  {
    if p in fs.listing {
      var names := fs.listing[p];
      PushedDistinct(fs, p, names);
      forall i | 0 <= i < |Pushed(fs, p, names)| ensures ChildOf(fs, p, Pushed(fs, p, names)[i]) {
        assert Pushed(fs, p, names)[i] in Pushed(fs, p, names);
      }
      ForestDistinct(fs, Pushed(fs, p, names), p);
      forall q | q in Forest(fs, Pushed(fs, p, names), p) ensures q != p {
        var c := InForest(fs, Pushed(fs, p, names), p, q);
        TreeBelow(fs, c, q);
        assert |q| >= |c| > |p|;
      }
      DistinctConcat([p], Forest(fs, Pushed(fs, p, names), p));
    }
  }

  ghost predicate ChildOf(fs: FileSystem, top: string, q: string) {
    exists n :: '/' !in n && q == PathOf(top, n)
  }

  lemma {:induction false} ForestDistinct(fs: FileSystem, ps: seq<string>, top: string)
    requires WellNamed(fs) && top in fs.listing && AllBelow(ps, top) && Distinct(ps)
    requires forall i :: 0 <= i < |ps| ==> ChildOf(fs, top, ps[i])
    ensures Distinct(Forest(fs, ps, top))
    decreases Under(fs, top), |ps|
  {
    if ps != [] {
      UnderShrinks(fs, top, ps[0]);
      TreeDistinct(fs, ps[0]);
      ForestDistinct(fs, ps[1..], top);
      forall q | q in Tree(fs, ps[0]) ensures q !in Forest(fs, ps[1..], top) {
        if q in Forest(fs, ps[1..], top) {
          var c := InForest(fs, ps[1..], top, q);
          TreeBelow(fs, c, q);
          TreeBelow(fs, ps[0], q);
          var m :| '/' !in m && ps[0] == PathOf(top, m);
          var n :| '/' !in n && c == PathOf(top, n);
          SiblingsApart(top, m, n, q);
        }
      }
      DistinctConcat(Tree(fs, ps[0]), Forest(fs, ps[1..], top));
    }
  }

  // ----- The files of a directory -----

  /** What a collection knows of an entry, but for its number. */
  datatype Item = Item(name: string, path: Option<string>, size: nat, context: int, scanned: bool)

  datatype Directory = Directory(path: Option<string>, ext: Option<string>, context: int)

  /** The part after the last slash. */
  function BaseName(path: string): string {
    if path == "" || path[|path| - 1] == '/' then "" else BaseName(path[..|path| - 1]) + [path[|path| - 1]]
  }

  lemma {:induction false} BaseNameOf(dir: string, name: string)
    requires '/' !in name
    ensures BaseName(PathOf(dir, name)) == name
  {
    if name != "" {
      var k := |name| - 1;
      assert PathOf(dir, name)[..|dir| + 1 + k] == PathOf(dir, name[..k]);
      BaseNameOf(dir, name[..k]);
    }
  }

  predicate Listed(name: string, ext: Option<string>) {
    ext == None || ext.value == "" || exists item :: item in Items(ext.value) && HasExtension(name, item)
  }

  predicate IsListedFile(fs: FileSystem, dir: string, name: string, ext: Option<string>) {
    !IsDots(name) && Listed(name, ext) && PathOf(dir, name) in fs.info && fs.info[PathOf(dir, name)].IsFile?
  }

  function FileItem(fs: FileSystem, path: string, context: int): Item
    requires path in fs.info && fs.info[path].IsFile?
  {
    Item(BaseName(path), Some(path), fs.info[path].size, context, true)
  }

  /** What one directory adds, the latest first. */
  function Added(fs: FileSystem, dir: string, names: seq<string>, d: Directory): seq<Item> {
    if names == [] then [] else
      var k := |names| - 1;
      (if IsListedFile(fs, dir, names[k], d.ext) then [FileItem(fs, PathOf(dir, names[k]), d.context)] else [])
      + Added(fs, dir, names[..k], d)
  }

  function AddedBy(fs: FileSystem, dir: string, d: Directory): seq<Item> {
    if dir in fs.listing then Added(fs, dir, fs.listing[dir], d) else []
  }

  function AddedAll(fs: FileSystem, done: seq<string>, d: Directory): seq<Item> {
    if done == [] then [] else
      var k := |done| - 1;
      AddedBy(fs, done[k], d) + AddedAll(fs, done[..k], d)
  }

  ghost function Scanned(fs: FileSystem, d: Directory): seq<Item> {
    if d.path == None then [] else AddedAll(fs, Tree(fs, d.path.value), d)
  }

  ghost function ScannedAll(fs: FileSystem, dirs: seq<Directory>): seq<Item> {
    if dirs == [] then [] else Scanned(fs, dirs[|dirs| - 1]) + ScannedAll(fs, dirs[..|dirs| - 1])
  }

  function Unscanned(items: seq<Item>): seq<Item> {
    if items == [] then [] else (if items[0].scanned then [] else [items[0]]) + Unscanned(items[1..])
  }

  // ----- The collection -----

  datatype Entry = Entry(item: Item, id: nat)

  function ItemsOf(entries: seq<Entry>): (r: seq<Item>)
    ensures |r| == |entries| && forall i :: 0 <= i < |entries| ==> r[i] == entries[i].item
  {
    seq(|entries|, i requires 0 <= i < |entries| => entries[i].item)
  }

  /** Numbers fall from the first entry to the last and all have been given out. */
  ghost predicate Numbered(entries: seq<Entry>, next: nat) {
    (forall i :: 0 <= i < |entries| ==> entries[i].id < next)
    && forall i, j :: 0 <= i < j < |entries| ==> entries[i].id > entries[j].id
  }

  /** The entries are those before, with their numbers, and new ones with some items in front of them. */
  ghost predicate InFront(before: seq<Entry>, items: seq<Item>, after: seq<Entry>) {
    |after| == |items| + |before| && after[|items|..] == before && ItemsOf(after[..|items|]) == items
  }

  lemma InFrontTrans(a: seq<Entry>, x: seq<Item>, b: seq<Entry>, y: seq<Item>, c: seq<Entry>)
    requires InFront(a, x, b) && InFront(b, y, c)
    ensures InFront(a, y + x, c)
  {
    var m, n := |y|, |x|;
    assert c[m + n..] == c[m..][n..];
    assert c[..m + n] == c[..m] + c[m..][..n];
    ItemsConcat(c[..m], c[m..][..n]);
  }

  lemma ItemsConcat(a: seq<Entry>, b: seq<Entry>)
    ensures ItemsOf(a + b) == ItemsOf(a) + ItemsOf(b)
  {
  }

  lemma InFrontItems(before: seq<Entry>, items: seq<Item>, after: seq<Entry>)
    requires InFront(before, items, after)
    ensures ItemsOf(after) == items + ItemsOf(before)
  {
    assert after == after[..|items|] + after[|items|..];
    ItemsConcat(after[..|items|], after[|items|..]);
  }

  lemma OneInFront(kept: seq<Entry>, acc: seq<Item>, before: seq<Entry>, e: Entry)
    requires InFront(kept, acc, before)
    ensures InFront(kept, [e.item] + acc, [e] + before)
  {
    assert ([e] + before)[1..] == before && ([e] + before)[..1] == [e];
    assert ItemsOf([e]) == [e.item];
    InFrontTrans(kept, acc, before, [e.item], [e] + before);
  }

  class Collection {
    var entries: seq<Entry>
    var size: int
    var nextId: nat
    var dirs: seq<Directory>

    ghost predicate Valid()
      reads this
    {
      size == |entries| && Numbered(entries, nextId)
    }

    constructor ()
      ensures Valid() && entries == [] && dirs == []
    {
      entries, size, nextId, dirs := [], 0, 0, [];
    }

    method Add(item: Option<Item>)
      requires Valid()
      modifies this`entries, this`size, this`nextId
      ensures Valid()
      ensures item == None ==> entries == old(entries) && nextId == old(nextId)
      ensures item.Some? ==> entries == [Entry(item.value, old(nextId))] + old(entries) && nextId == old(nextId) + 1
    {
      if item.Some? {
        entries := [Entry(item.value, nextId)] + entries;
        nextId := nextId + 1;
        size := size + 1;
      }
    }

    /** The entry at a place is removed. */
    method Destroy(k: Option<nat>)
      requires Valid() && (k.Some? ==> k.value < |entries|)
      modifies this`entries, this`size
      ensures Valid()
      ensures entries == if k == None then old(entries) else old(entries)[..k.value] + old(entries)[k.value + 1..]
    {
      if k.Some? {
        entries := entries[..k.value] + entries[k.value + 1..];
        size := size - 1;
      }
    }

    method AddDirectory(path: Option<string>, ext: Option<string>, context: int)
      modifies this`dirs
      ensures dirs == [Directory(path, ext, context)] + old(dirs)
    {
      dirs := [Directory(path, ext, context)] + dirs;
    }

    /** `from` is the place of the previous result, -1 to begin; the answer -1 means none. */
    method Find(pat: Option<string>, from: int) returns (k: int)
      requires -1 <= from
      ensures k == Next(entries, (e: Entry) => pat == None || Matches(e.item.name, pat.value), from)
    {
      var start := from == -1;
      for i := 0 to |entries|
        invariant start == (i > from)
        invariant forall j :: from < j < i ==> !Named(pat)(entries[j])
      {
        if start {
          var matches := true;
          if pat.Some? {
            var r := CmpPat(entries[i].item.name, pat.value);
            matches := r == 0;
          }
          if matches {
            NextIsUnique(entries, Named(pat), from, i);
            return i;
          }
        } else if i == from {
          start := true;
        }
      }
      NextIsUnique(entries, Named(pat), from, -1);
      return -1;
    }

    method FindId(id: nat) returns (k: int)
      requires Valid()
      ensures k == -1 || (0 <= k < |entries| && entries[k].id == id)
      ensures forall i :: 0 <= i < |entries| && entries[i].id == id ==> k == i
    {
      for i := 0 to |entries|
        invariant forall j :: 0 <= j < i ==> entries[j].id != id
      {
        if entries[i].id == id {
          return i;
        }
      }
      return -1;
    }

    /** The files of one directory, without what is below it. */
    method ScanDir(fs: FileSystem, dir: string, parent: Directory)
      requires Valid()
      modifies this`entries, this`size, this`nextId
      ensures Valid() && InFront(old(entries), AddedBy(fs, dir, parent), entries)
    {
      if dir !in fs.listing {
        return;
      }
      var names := fs.listing[dir];
      ghost var kept, acc: seq<Item> := entries, [];
      for i := 0 to |names|
        invariant Valid() && InFront(kept, acc, entries) && acc == Added(fs, dir, names[..i], parent)
      {
        acc := ScanName(fs, dir, names, i, parent, kept, acc);
      }
      assert names[..|names|] == names;
    }

    /** One turn of the loop: `acc` is what the directory has put in front of `kept` so far. */
    method ScanName(fs: FileSystem, dir: string, names: seq<string>, i: nat, parent: Directory,
                    ghost kept: seq<Entry>, ghost acc: seq<Item>) returns (ghost acc': seq<Item>)
      requires Valid() && i < |names|
      requires InFront(kept, acc, entries) && acc == Added(fs, dir, names[..i], parent)
      modifies this`entries, this`size, this`nextId
      ensures Valid() && InFront(kept, acc', entries) && acc' == Added(fs, dir, names[..i + 1], parent)
    {
      AddedSnoc(fs, dir, names, i, parent);
      var name := names[i];
      acc' := acc;
      var r := CmpExt(name, parent.ext.GetOr(""));
      if name == "." || name == ".." || r != 0 {
        return;
      }
      var path := PathOf(dir, name);
      if path in fs.info && fs.info[path].IsFile? {
        ghost var before := entries;
        var item := FileItem(fs, path, parent.context);
        Add(Some(item));
        acc' := [item] + acc;
        OneInFront(kept, acc, before, entries[0]);
      }
    }

    method Scan(fs: FileSystem, parent: Directory)
      requires Valid()
      modifies this`entries, this`size, this`nextId
      ensures Valid() && InFront(old(entries), Scanned(fs, parent), entries)
    {
      if parent.path == None {
        return;
      }
      var done := Directories(fs, parent.path.value);
      ghost var kept, acc: seq<Item> := entries, [];
      for k := 0 to |done|
        invariant Valid() && InFront(kept, acc, entries) && acc == AddedAll(fs, done[..k], parent)
      {
        acc := ScanNext(fs, done, k, parent, kept, acc);
      }
      assert done[..|done|] == done;
    }

    method ScanNext(fs: FileSystem, done: seq<string>, k: nat, parent: Directory,
                    ghost kept: seq<Entry>, ghost acc: seq<Item>) returns (ghost acc': seq<Item>)
      requires Valid() && k < |done|
      requires InFront(kept, acc, entries) && acc == AddedAll(fs, done[..k], parent)
      modifies this`entries, this`size, this`nextId
      ensures Valid() && InFront(kept, acc', entries) && acc' == AddedAll(fs, done[..k + 1], parent)
    {
      ghost var before := entries;
      ScanDir(fs, done[k], parent);
      acc' := AddedBy(fs, done[k], parent) + acc;
      InFrontTrans(kept, acc, before, AddedBy(fs, done[k], parent), entries);
      AddedAllSnoc(fs, done, k, parent);
    }

    /** Drops the entries of earlier scans and counts the others. */
    method DropScanned()
      requires Numbered(entries, nextId)
      modifies this`entries, this`size
      ensures Valid() && ItemsOf(entries) == Unscanned(ItemsOf(old(entries)))
      ensures entries == UnscannedEntries(old(entries))
    {
      var kept: seq<Entry> := [];
      size := 0;
      for i := 0 to |entries|
        invariant entries == old(entries) && size == |kept|
        invariant kept == UnscannedEntries(entries[..i])
      {
        assert entries[..i + 1][..i] == entries[..i];
        if !entries[i].item.scanned {
          kept := kept + [entries[i]];
          size := size + 1;
        }
      }
      assert entries[..|entries|] == entries;
      UnscannedNumbered(entries, nextId);
      UnscannedItems(entries);
      entries := kept;
    }

    /**
      Every registered directory is scanned again. The entries that were not scanned stay as they
      are, with their numbers, behind those that the scans add.
     */
    method Rescan(fs: FileSystem)
      requires Numbered(entries, nextId)
      modifies this`entries, this`size, this`nextId
      ensures Valid()
      ensures ItemsOf(entries) == ScannedAll(fs, dirs) + Unscanned(ItemsOf(old(entries)))
      ensures InFront(UnscannedEntries(old(entries)), ScannedAll(fs, dirs), entries)
    {
      DropScanned();
      ghost var kept := entries;
      ScanDirectories(fs);
      InFrontItems(kept, ScannedAll(fs, dirs), entries);
    }

    method ScanDirectories(fs: FileSystem)
      requires Valid()
      modifies this`entries, this`size, this`nextId
      ensures Valid() && InFront(old(entries), ScannedAll(fs, dirs), entries)
    {
      ghost var kept, acc: seq<Item> := entries, [];
      for k := 0 to |dirs|
        invariant Valid() && InFront(kept, acc, entries) && acc == ScannedAll(fs, dirs[..k])
      {
        acc := ScanRegistered(fs, k, kept, acc);
      }
      assert dirs[..|dirs|] == dirs;
    }

    method ScanRegistered(fs: FileSystem, k: nat, ghost kept: seq<Entry>, ghost acc: seq<Item>)
      returns (ghost acc': seq<Item>)
      requires Valid() && k < |dirs|
      requires InFront(kept, acc, entries) && acc == ScannedAll(fs, dirs[..k])
      modifies this`entries, this`size, this`nextId
      ensures Valid() && InFront(kept, acc', entries) && acc' == ScannedAll(fs, dirs[..k + 1])
    {
      ghost var before := entries;
      Scan(fs, dirs[k]);
      acc' := Scanned(fs, dirs[k]) + acc;
      InFrontTrans(kept, acc, before, Scanned(fs, dirs[k]), entries);
      ScannedAllSnoc(fs, dirs, k);
    }
  }

  lemma AddedSnoc(fs: FileSystem, dir: string, names: seq<string>, i: nat, d: Directory)
    requires i < |names|
    ensures Added(fs, dir, names[..i + 1], d)
         == (if IsListedFile(fs, dir, names[i], d.ext) then [FileItem(fs, PathOf(dir, names[i]), d.context)] else [])
            + Added(fs, dir, names[..i], d)
  {
    assert names[..i + 1][..i] == names[..i];
  }

  lemma AddedAllSnoc(fs: FileSystem, done: seq<string>, k: nat, d: Directory)
    requires k < |done|
    ensures AddedAll(fs, done[..k + 1], d) == AddedBy(fs, done[k], d) + AddedAll(fs, done[..k], d)
  {
    assert done[..k + 1][..k] == done[..k];
  }

  lemma ScannedAllSnoc(fs: FileSystem, dirs: seq<Directory>, k: nat)
    requires k < |dirs|
    ensures ScannedAll(fs, dirs[..k + 1]) == Scanned(fs, dirs[k]) + ScannedAll(fs, dirs[..k])
  {
    assert dirs[..k + 1][..k] == dirs[..k];
  }

  function UnscannedEntries(entries: seq<Entry>): (r: seq<Entry>)
    ensures forall x | x in r :: x in entries
  {
    if entries == [] then [] else
      var k := |entries| - 1;
      UnscannedEntries(entries[..k]) + if entries[k].item.scanned then [] else [entries[k]]
  }

  lemma {:induction false} UnscannedNumbered(entries: seq<Entry>, next: nat)
    requires Numbered(entries, next)
    ensures Numbered(UnscannedEntries(entries), next)
  {
    if entries != [] {
      var k := |entries| - 1;
      UnscannedNumbered(entries[..k], next);
      forall x | x in UnscannedEntries(entries[..k]) ensures x.id > entries[k].id {
        var i :| 0 <= i < k && entries[..k][i] == x;
      }
      NumberedSnoc(UnscannedEntries(entries[..k]), entries[k], next);
    }
  }

  lemma {:induction false} UnscannedSnoc(items: seq<Item>, x: Item)
    ensures Unscanned(items + [x]) == Unscanned(items) + if x.scanned then [] else [x]
  {
    if items != [] {
      assert (items + [x])[1..] == items[1..] + [x];
      UnscannedSnoc(items[1..], x);
    }
  }

  lemma {:induction false} UnscannedItems(entries: seq<Entry>)
    ensures ItemsOf(UnscannedEntries(entries)) == Unscanned(ItemsOf(entries))
  {
    if entries != [] {
      var k := |entries| - 1;
      UnscannedItems(entries[..k]);
      UnscannedSnoc(ItemsOf(entries[..k]), entries[k].item);
      assert ItemsOf(entries) == ItemsOf(entries[..k]) + [entries[k].item];
    }
  }

  ghost function Named(pat: Option<string>): Entry -> bool {
    (e: Entry) => pat == None || Matches(e.item.name, pat.value)
  }

  lemma NumberedSnoc(kept: seq<Entry>, e: Entry, next: nat)
    requires Numbered(kept, next) && e.id < next && forall x | x in kept :: x.id > e.id
    ensures Numbered(kept + [e], next)
  {
  }

  // ----- What a scan finds -----

  /** A directory that is reachable lists a file, under a name with one of the extensions if there are any. */
  ghost predicate IsFound(fs: FileSystem, d: Directory, q: string, n: string) {
    && d.path.Some? && Reachable(fs, d.path.value, q) && q in fs.listing && n in fs.listing[q]
    && n != "." && n != ".."
    && (d.ext.GetOr("") == "" || exists item :: item in Items(d.ext.value) && HasExtension(n, item))
    && q + "/" + n in fs.info && fs.info[q + "/" + n].IsFile?
  }

  /** What is kept of such a file: its name is what follows the last slash, which is all a real one has. */
  ghost predicate IsItem(fs: FileSystem, d: Directory, q: string, n: string, x: Item)
    requires IsFound(fs, d, q, n)
  {
    && (exists front :: n == front + x.name && '/' !in x.name && (front == "" || front[|front| - 1] == '/'))
    && x.path == Some(q + "/" + n) && x.size == fs.info[q + "/" + n].size && x.context == d.context && x.scanned
  }

  lemma {:induction false} BaseNameIs(dir: string, front: string, name: string)
    requires '/' !in name && (front == "" || front[|front| - 1] == '/')
    ensures BaseName(PathOf(dir, front + name)) == name
  {
    if front == "" {
      assert front + name == name;
      BaseNameOf(dir, name);
    } else {
      var up := PathOf(dir, front[..|front| - 1]);
      assert PathOf(dir, front + name) == PathOf(up, name);
      BaseNameOf(up, name);
    }
  }

  lemma {:induction false} LastSlash(n: string) returns (front: string, name: string)
    ensures n == front + name && '/' !in name && (front == "" || front[|front| - 1] == '/')
  {
    if n == "" || n[|n| - 1] == '/' {
      front, name := n, "";
    } else {
      front, name := LastSlash(n[..|n| - 1]);
      name := name + [n[|n| - 1]];
    }
  }

  lemma ItemIs(fs: FileSystem, d: Directory, q: string, n: string, x: Item)
    requires IsFound(fs, d, q, n)
    ensures IsItem(fs, d, q, n, x) <==> x == FileItem(fs, PathOf(q, n), d.context)
  {
    var front, name := LastSlash(n);
    BaseNameIs(q, front, name);
    if IsItem(fs, d, q, n, x) {
      var other :| n == other + x.name && '/' !in x.name && (other == "" || other[|other| - 1] == '/');
      BaseNameIs(q, other, x.name);
    }
  }

  ghost predicate IsAdded(fs: FileSystem, dir: string, d: Directory, x: Item, n: string) {
    IsListedFile(fs, dir, n, d.ext) && x == FileItem(fs, PathOf(dir, n), d.context)
  }

  lemma {:induction false} AddedHas(fs: FileSystem, dir: string, names: seq<string>, d: Directory, x: Item)
    ensures x in Added(fs, dir, names, d) <==> exists n :: n in names && IsAdded(fs, dir, d, x, n)
  {
    if names != [] {
      var k := |names| - 1;
      AddedHas(fs, dir, names[..k], d, x);
      AddedLast(fs, dir, names, d, x);
      assert names == names[..k] + [names[k]];
    }
  }

  lemma AddedLast(fs: FileSystem, dir: string, names: seq<string>, d: Directory, x: Item)
    requires names != []
    ensures var k := |names| - 1;
            x in Added(fs, dir, names, d) <==> x in Added(fs, dir, names[..k], d) || IsAdded(fs, dir, d, x, names[k])
  {
  }

  ghost predicate InAdded(fs: FileSystem, q: string, d: Directory, x: Item) {
    q in fs.listing && x in Added(fs, q, fs.listing[q], d)
  }

  ghost predicate SomeAdded(fs: FileSystem, done: seq<string>, d: Directory, x: Item) {
    exists q :: q in done && InAdded(fs, q, d, x)
  }

  lemma SomeAddedLast(fs: FileSystem, done: seq<string>, d: Directory, x: Item)
    requires done != []
    ensures var k := |done| - 1;
            SomeAdded(fs, done, d, x) <==> SomeAdded(fs, done[..k], d, x) || InAdded(fs, done[k], d, x)
  {
    var k := |done| - 1;
    assert done[k] in done && forall q | q in done[..k] :: q in done;
    if SomeAdded(fs, done, d, x) {
      var q :| q in done && InAdded(fs, q, d, x);
      assert q in done[..k] || q == done[k];
    }
  }

  lemma {:induction false} AddedAllHas(fs: FileSystem, done: seq<string>, d: Directory, x: Item)
    ensures x in AddedAll(fs, done, d) <==> SomeAdded(fs, done, d, x)
  {
    if done != [] {
      AddedAllHas(fs, done[..|done| - 1], d, x);
      SomeAddedLast(fs, done, d, x);
    }
  }

  /**
    A scan finds exactly the files with a listed extension in the reachable directories, with name,
    path, size and context.
   */
  lemma ScannedHas(fs: FileSystem, d: Directory, x: Item)
    ensures x in Scanned(fs, d) <==> exists q, n :: IsFound(fs, d, q, n) && IsItem(fs, d, q, n, x)
  {
    if d.path.Some? {
      var done := Tree(fs, d.path.value);
      AddedAllHas(fs, done, d, x);
      if x in Scanned(fs, d) {
        var q :| q in done && InAdded(fs, q, d, x);
        TreeIsReachable(fs, d.path.value, q);
        AddedHas(fs, q, fs.listing[q], d, x);
        var n :| n in fs.listing[q] && IsAdded(fs, q, d, x, n);
        AddedIs(fs, d, q, n, x);
      }
      if q, n :| IsFound(fs, d, q, n) && IsItem(fs, d, q, n, x) {
        TreeIsReachable(fs, d.path.value, q);
        AddedIs(fs, d, q, n, x);
        AddedHas(fs, q, fs.listing[q], d, x);
        assert q in done && InAdded(fs, q, d, x);
      }
    }
  }

  lemma AddedIs(fs: FileSystem, d: Directory, q: string, n: string, x: Item)
    requires d.path.Some? && Reachable(fs, d.path.value, q) && q in fs.listing && n in fs.listing[q]
    ensures IsAdded(fs, q, d, x, n) <==> IsFound(fs, d, q, n) && IsItem(fs, d, q, n, x)
  {
    assert PathOf(q, n) == q + "/" + n;
    if IsFound(fs, d, q, n) {
      ItemIs(fs, d, q, n, x);
    }
  }

  /** In a real listing the name is the one listed. */
  lemma ScannedName(fs: FileSystem, d: Directory, q: string, n: string, x: Item)
    requires WellNamed(fs) && IsFound(fs, d, q, n)
    ensures IsItem(fs, d, q, n, x) <==> x == Item(n, Some(q + "/" + n), fs.info[q + "/" + n].size, d.context, true)
  {
    assert '/' !in n;
    ItemIs(fs, d, q, n, x);
    BaseNameOf(q, n);
  }

  // ----- The order of a scan -----

  /** The subdirectories listed later are visited first. */
  lemma {:induction false} PushedConcat(fs: FileSystem, dir: string, a: seq<string>, b: seq<string>)
    ensures Pushed(fs, dir, a + b) == Pushed(fs, dir, b) + Pushed(fs, dir, a)
  {
    if b == [] {
      assert a + b == a;
    } else {
      var k := |b| - 1;
      assert (a + b)[..|a + b| - 1] == a + b[..k];
      PushedConcat(fs, dir, a, b[..k]);
    }
  }

  /** The files listed later stand in front. */
  lemma {:induction false} AddedConcat(fs: FileSystem, dir: string, a: seq<string>, b: seq<string>, d: Directory)
    ensures Added(fs, dir, a + b, d) == Added(fs, dir, b, d) + Added(fs, dir, a, d)
  {
    if b == [] {
      assert a + b == a;
    } else {
      var k := |b| - 1;
      assert (a + b)[..|a + b| - 1] == a + b[..k];
      AddedConcat(fs, dir, a, b[..k], d);
    }
  }

  lemma Grouped(a: seq<Item>, b: seq<Item>, c: seq<Item>)
    ensures a + (b + c) == a + b + c
  {
  }

  /** The files of directories visited later stand in front. */
  lemma {:induction false} AddedAllConcat(fs: FileSystem, a: seq<string>, b: seq<string>, d: Directory)
    ensures AddedAll(fs, a + b, d) == AddedAll(fs, b, d) + AddedAll(fs, a, d)
  {
    if b == [] {
      assert a + b == a;
    } else {
      var k := |b| - 1;
      assert (a + b)[..|a + b| - 1] == a + b[..k];
      AddedAllConcat(fs, a, b[..k], d);
      Grouped(AddedBy(fs, b[k], d), AddedAll(fs, b[..k], d), AddedAll(fs, a, d));
    }
  }

  /** The files of directories scanned later stand in front. */
  lemma {:induction false} ScannedAllConcat(fs: FileSystem, a: seq<Directory>, b: seq<Directory>)
    ensures ScannedAll(fs, a + b) == ScannedAll(fs, b) + ScannedAll(fs, a)
  {
    if b == [] {
      assert a + b == a;
    } else {
      var k := |b| - 1;
      assert (a + b)[..|a + b| - 1] == a + b[..k];
      ScannedAllConcat(fs, a, b[..k]);
      Grouped(Scanned(fs, b[k]), ScannedAll(fs, b[..k]), ScannedAll(fs, a));
    }
  }

  ghost predicate DistinctPaths(s: seq<Item>) {
    forall i, j :: 0 <= i < j < |s| ==> s[i].path != s[j].path
  }

  lemma DistinctPathsConcat(a: seq<Item>, b: seq<Item>)
    requires DistinctPaths(a) && DistinctPaths(b)
    requires forall x, y :: x in a && y in b ==> x.path != y.path
    ensures DistinctPaths(a + b)
  {
  }

  lemma SamePath(d: string, m: string, e: string, n: string)
    requires '/' !in m && '/' !in n && PathOf(d, m) == PathOf(e, n)
    ensures d == e && m == n
  {
    BaseNameOf(d, m);
    BaseNameOf(e, n);
    assert PathOf(d, m)[..|d|] == d && PathOf(e, n)[..|e|] == e;
  }

  lemma {:induction false} AddedDistinct(fs: FileSystem, dir: string, names: seq<string>, d: Directory)
    requires Distinct(names) && forall n | n in names :: '/' !in n
    ensures DistinctPaths(Added(fs, dir, names, d))
  {
    if names != [] {
      var k := |names| - 1;
      AddedDistinct(fs, dir, names[..k], d);
      if IsListedFile(fs, dir, names[k], d.ext) {
        var x := FileItem(fs, PathOf(dir, names[k]), d.context);
        forall y | y in Added(fs, dir, names[..k], d) ensures x.path != y.path {
          AddedHas(fs, dir, names[..k], d, y);
          var n :| n in names[..k] && y.path == Some(PathOf(dir, n));
          if y.path == x.path {
            SamePath(dir, n, dir, names[k]);
          }
        }
        DistinctPathsConcat([x], Added(fs, dir, names[..k], d));
      }
    }
  }

  lemma InAddedPath(fs: FileSystem, q: string, d: Directory, x: Item) returns (n: string)
    requires WellNamed(fs) && InAdded(fs, q, d, x)
    ensures '/' !in n && x.path == Some(PathOf(q, n))
  {
    AddedHas(fs, q, fs.listing[q], d, x);
    n :| n in fs.listing[q] && x.path == Some(PathOf(q, n));
  }

  lemma {:induction false} AddedAllDistinct(fs: FileSystem, done: seq<string>, d: Directory)
    requires WellNamed(fs) && Distinct(done)
    ensures DistinctPaths(AddedAll(fs, done, d))
  {
    if done != [] {
      var k := |done| - 1;
      AddedAllDistinct(fs, done[..k], d);
      if done[k] in fs.listing {
        AddedDistinct(fs, done[k], fs.listing[done[k]], d);
        forall x, y | x in Added(fs, done[k], fs.listing[done[k]], d) && y in AddedAll(fs, done[..k], d)
          ensures x.path != y.path
        {
          ApartFrom(fs, done, d, x, y);
        }
        DistinctPathsConcat(Added(fs, done[k], fs.listing[done[k]], d), AddedAll(fs, done[..k], d));
      }
    }
  }

  lemma ApartFrom(fs: FileSystem, done: seq<string>, d: Directory, x: Item, y: Item)
    requires WellNamed(fs) && Distinct(done) && done != []
    requires InAdded(fs, done[|done| - 1], d, x) && y in AddedAll(fs, done[..|done| - 1], d)
    ensures x.path != y.path
  {
    var k := |done| - 1;
    AddedAllHas(fs, done[..k], d, y);
    var q :| q in done[..k] && InAdded(fs, q, d, y);
    var m := InAddedPath(fs, done[k], d, x);
    var n := InAddedPath(fs, q, d, y);
    if x.path == y.path {
      SamePath(done[k], m, q, n);
    }
  }

  /** It finds each of them once. */
  lemma ScannedDistinct(fs: FileSystem, d: Directory)
    requires WellNamed(fs)
    ensures DistinctPaths(Scanned(fs, d))
  {
    if d.path.Some? {
      TreeDistinct(fs, d.path.value);
      AddedAllDistinct(fs, Tree(fs, d.path.value), d);
    }
  }

  lemma {:induction false} UnscannedConcat(a: seq<Item>, b: seq<Item>)
    ensures Unscanned(a + b) == Unscanned(a) + Unscanned(b)
  {
    if a == [] {
      assert a + b == b;
    } else {
      assert (a + b)[1..] == a[1..] + b;
      UnscannedConcat(a[1..], b);
    }
  }

  lemma {:induction false} UnscannedNone(a: seq<Item>)
    requires forall x | x in a :: x.scanned
    ensures Unscanned(a) == []
  {
    if a != [] {
      UnscannedNone(a[1..]);
    }
  }

  lemma {:induction false} UnscannedAll(a: seq<Item>)
    requires forall x | x in a :: !x.scanned
    ensures Unscanned(a) == a
  {
    if a != [] {
      UnscannedAll(a[1..]);
    }
  }

  lemma {:induction false} UnscannedOnly(a: seq<Item>)
    ensures forall x | x in Unscanned(a) :: !x.scanned
  {
    if a != [] {
      UnscannedOnly(a[1..]);
    }
  }

  lemma {:induction false} AllScanned(fs: FileSystem, dirs: seq<Directory>)
    ensures forall x | x in ScannedAll(fs, dirs) :: x.scanned
  {
    if dirs != [] {
      var k := |dirs| - 1;
      AllScanned(fs, dirs[..k]);
      forall x | x in Scanned(fs, dirs[k]) ensures x.scanned {
        ScannedHas(fs, dirs[k], x);
        var q, n :| IsFound(fs, dirs[k], q, n) && IsItem(fs, dirs[k], q, n, x);
      }
    }
  }

  /** A second rescan of an unchanged file system leaves the same entries in the same order. */
  lemma RescanTwice(fs: FileSystem, dirs: seq<Directory>, items: seq<Item>)
    ensures var once := ScannedAll(fs, dirs) + Unscanned(items);
            ScannedAll(fs, dirs) + Unscanned(once) == once
  {
    AllScanned(fs, dirs);
    KeepsOnce(ScannedAll(fs, dirs), items);
  }

  lemma KeepsOnce(found: seq<Item>, items: seq<Item>)
    requires forall x | x in found :: x.scanned
    ensures Unscanned(found + Unscanned(items)) == Unscanned(items)
  {
    UnscannedConcat(found, Unscanned(items));
    UnscannedNone(found);
    UnscannedOnly(items);
    UnscannedAll(Unscanned(items));
  }
}
