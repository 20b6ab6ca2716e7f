/**
 * The part of the file system that the game manager observes: which
 * directories exist and, for each, its immediate children in the order the
 * directory listing returns them.
 */
module Disk {
  import opened Wrappers

  /** One child of a directory. */
  datatype Entry = Entry(name: string, isFile: bool, isHidden: bool)

  /** Existing directories (by path) and their listings. */
  type Tree = map<string, seq<Entry>>

  /** The mutable file system the manager acts on. */
  class FileSystem {
    var dirs: Tree

    constructor (dirs: Tree)
      ensures this.dirs == dirs
    {
      this.dirs := dirs;
    }
  }

  /** `dir + "/" + name`, the way the source joins paths. */
  function JoinPath(dir: string, name: string): (p: string)
    ensures |p| == |dir| + 1 + |name|
    ensures p[..|dir|] == dir && p[|dir|] == '/' && p[|dir| + 1..] == name
  {
    dir + "/" + name
  }

  /** For a fixed directory, joining is injective in the child name. */
  lemma JoinPathInjective(dir: string, a: string, b: string)
    requires JoinPath(dir, a) == JoinPath(dir, b)
    ensures a == b
  {
  }

  /** The children of `dir`; a directory that does not exist lists nothing. */
  function Listing(t: Tree, dir: string): (l: seq<Entry>)
    ensures dir !in t ==> l == []
  {
    if dir in t then t[dir] else []
  }

  /** `QDir(dir).exists(name)`: a child of any kind with that name is present. */
  predicate HasChild(t: Tree, dir: string, name: string)
  {
    exists k :: 0 <= k < |Listing(t, dir)| && Listing(t, dir)[k].name == name
  }

  function AsciiLower(c: char): char
  {
    if 'A' <= c <= 'Z' then (c as int + 32) as char else c
  }

  /** ASCII case-insensitive equality of two strings. */
  predicate SameIgnoringCase(a: string, b: string)
  {
    |a| == |b| && forall i :: 0 <= i < |a| ==> AsciiLower(a[i]) == AsciiLower(b[i])
  }

  /** The name filter `*.html`, which Qt applies without regard to case. */
  predicate MatchesHtmlFilter(name: string)
  {
    |name| >= 5 && SameIgnoringCase(name[|name| - 5..], ".html")
  }

  /** An entry that `entryList({"*.html"}, QDir::Files)` returns. */
  predicate IsHtmlFile(e: Entry)
  {
    e.isFile && !e.isHidden && MatchesHtmlFilter(e.name)
  }

  /** Position of the first HTML file of a listing, if there is one. */
  function FirstHtmlFile(l: seq<Entry>): (r: Option<nat>)
    ensures r.Some? ==> r.value < |l| && IsHtmlFile(l[r.value])
    ensures r.Some? ==> forall j :: 0 <= j < r.value ==> !IsHtmlFile(l[j])
    ensures r.None? <==> forall j :: 0 <= j < |l| ==> !IsHtmlFile(l[j])
  {
    if l == [] then None
    else if IsHtmlFile(l[0]) then Some(0)
    else match FirstHtmlFile(l[1..])
      case None => None
      case Some(k) => Some(k + 1)
  }

  /** `d` is `root` itself or lies somewhere below it. */
  predicate Within(d: string, root: string)
  {
    d == root || root + "/" <= d
  }

  /** `QDir(path).removeRecursively()`: the directory and everything below it go. */
  function RemoveTree(t: Tree, path: string): (r: Tree)
    ensures forall d :: d in r <==> d in t && !Within(d, path)
    ensures forall d :: d in r ==> r[d] == t[d]
  {
    map d | d in t && !Within(d, path) :: t[d]
  }

  /** After a removal no directory at or below the removed path survives. */
  lemma RemoveTreeLeavesNothingBelow(t: Tree, path: string, name: string)
    ensures path !in RemoveTree(t, path)
    ensures JoinPath(path, name) !in RemoveTree(t, path)
  {
  }
}
