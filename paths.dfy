/** Path strings of the virtual file system: the folder-key normalisation
    shared by `createFolder` and `deleteFolder`, and the ancestor directories
    `ensureDirectoryExists` derives from a path (src/lib/mock-db.ts). */
module Paths {
  import opened Js

  predicate EndsWithSlash(s: string) { |s| > 0 && s[|s| - 1] == '/' }

  /** A folder key: the path itself if it ends in '/', else the path plus '/'. */
  function FolderKey(path: string): (a: string)
    ensures EndsWithSlash(a)
    ensures path <= a && |a| <= |path| + 1
    ensures EndsWithSlash(path) <==> a == path
  {
    if EndsWithSlash(path) then path else path + "/"
  }

  /** The keys `ensureDirectoryExists` visits for the segments `parts`, with
      `acc` the directory built so far: each non-empty segment is appended to
      the accumulator with a '/', empty segments are skipped. */
  function DirPrefixes(parts: seq<string>, acc: string): seq<string>
  {
    if parts == [] then []
    else if parts[0] == "" then DirPrefixes(parts[1..], acc)
    else
      var next := acc + parts[0] + "/";
      [next] + DirPrefixes(parts[1..], next)
  }

  /** The ancestor directories of `path`, in the order they are created:
      built from the segments before the last '/'. */
  function Ancestors(path: string): seq<string>
  {
    DirPrefixes(Init(Split(path)), "")
  }

  /** A path without empty segments: it neither starts with '/' nor holds "//". */
  predicate NoEmptySegments(p: string)
  {
    forall i :: 0 <= i < |p| && p[i] == '/' ==> 0 < i && p[i - 1] != '/'
  }

  /** `d` is a prefix of `p` that ends in '/'. */
  predicate SlashPrefix(d: string, p: string)
  {
    EndsWithSlash(d) && d <= p
  }

  /** A string usable as the accumulator: empty, or a clean directory key. */
  predicate DirAccumulator(acc: string)
  {
    acc == "" || (EndsWithSlash(acc) && NoEmptySegments(acc))
  }

  function FirstSlash(y: string): (j: nat)
    requires '/' in y
    ensures j < |y| && y[j] == '/' && '/' !in y[..j]
  {
    if y[0] == '/' then 0
    else
      assert '/' in y[1..] by {
        var i :| 0 <= i < |y| && y[i] == '/';
        assert y[1..][i - 1] == '/';
      }
      var j := FirstSlash(y[1..]) + 1;
      assert y[..j] == [y[0]] + y[1..][..j - 1];
      j
  }

  /** Past `acc`, a string without separators contributes no '/'-terminated prefix. */
  lemma NoSlashPrefixBeyond(y: string, acc: string)
    requires '/' !in y
    ensures forall d :: !(SlashPrefix(d, acc + y) && |acc| < |d|)
  {
    forall d | SlashPrefix(d, acc + y) && |acc| < |d| ensures false {
    }
  }

  /** For a path without empty segments the directories visited after the
      accumulator `acc` are exactly the '/'-terminated prefixes of `acc + y`
      longer than `acc`. */
  lemma {:induction false} DirPrefixesOfClean(y: string, acc: string)
    requires NoEmptySegments(y)
    ensures forall d :: d in DirPrefixes(Init(Split(y)), acc) <==> SlashPrefix(d, acc + y) && |acc| < |d|
    decreases |y|
  {
    if '/' !in y {
      CleanBase(y, acc);
    } else {
      var j := FirstSlash(y);
      var x, z := y[..j], y[j + 1..];
      CleanFirstSegment(y, acc);
      DirPrefixesOfClean(z, acc + x + "/");
      CleanStep(acc, x, z, Init(Split(z)));
    }
  }

  /** A last segment contributes no directory. */
  lemma CleanBase(y: string, acc: string)
    requires '/' !in y
    ensures forall d :: d in DirPrefixes(Init(Split(y)), acc) <==> SlashPrefix(d, acc + y) && |acc| < |d|
  {
    SplitNoSlash(y);
    assert Init(Split(y)) == [];
    NoSlashPrefixBeyond(y, acc);
  }

  /** The inductive step: the first segment `x` gives `acc + x + "/"`, and
      the directories after it are those of the rest `z`. */
  lemma CleanStep(acc: string, x: string, z: string, rest: seq<string>)
    requires '/' !in x && x != ""
    requires forall d :: d in DirPrefixes(rest, acc + x + "/") <==>
               SlashPrefix(d, acc + x + "/" + z) && |acc + x + "/"| < |d|
    ensures forall d :: d in DirPrefixes([x] + rest, acc) <==>
              SlashPrefix(d, acc + x + "/" + z) && |acc| < |d|
  {
    var next := acc + x + "/";
    DirPrefixesFirst(x, rest, acc);
    FirstSegmentPrefix(acc, x, z);
    var visited := DirPrefixes(rest, next);
    forall d ensures d in [next] + visited <==> SlashPrefix(d, next + z) && |acc| < |d| {
      assert d in [next] + visited <==> d == next || d in visited;
    }
  }

  /** A path without empty segments that holds a '/' splits into a non-empty
      first segment and a rest that again has no empty segments. */
  lemma CleanFirstSegment(y: string, acc: string)
    requires NoEmptySegments(y) && '/' in y
    ensures var j := FirstSlash(y); var x, z := y[..j], y[j + 1..];
      && x != "" && '/' !in x && y == x + "/" + z
      && NoEmptySegments(z)
      && Init(Split(y)) == [x] + Init(Split(z))
      && acc + y == acc + x + "/" + z
  {
    var j := FirstSlash(y);
    var x, z := y[..j], y[j + 1..];
    assert y == x + "/" + z;
    assert x != "" by { assert |x| == j; }
    SplitConcat(x, z);
    assert NoEmptySegments(z) by {
      forall i | 0 <= i < |z| && z[i] == '/' ensures 0 < i && z[i - 1] != '/' {
        assert y[j + 1 + i] == '/';
      }
    }
    assert Init([x] + Split(z)) == [x] + Init(Split(z));
  }

  /** A non-empty first segment is visited first, with the accumulator grown by it. */
  lemma DirPrefixesFirst(x: string, rest: seq<string>, acc: string)
    requires x != ""
    ensures DirPrefixes([x] + rest, acc) == [acc + x + "/"] + DirPrefixes(rest, acc + x + "/")
  {
    assert ([x] + rest)[1..] == rest;
  }

  /** The '/'-terminated prefixes of `acc + x + "/" + z` past `acc` are
      `acc + x + "/"` and those past it. */
  lemma FirstSegmentPrefix(acc: string, x: string, z: string)
    requires '/' !in x
    ensures var next := acc + x + "/";
      forall d :: SlashPrefix(d, next + z) && |acc| < |d| <==>
        d == next || (SlashPrefix(d, next + z) && |next| < |d|)
  {
    var next := acc + x + "/";
    var p := next + z;
    forall d ensures SlashPrefix(d, p) && |acc| < |d| <==> d == next || (SlashPrefix(d, p) && |next| < |d|) {
      if SlashPrefix(d, p) && |acc| < |d| && |d| <= |next| {
        var k := |d| - 1;
        assert p[k] == '/';
        if k < |next| - 1 {
          assert false;
        }
        assert d == p[..|d|] == next;
      }
      if d == next {
        assert next == p[..|next|];
      }
    }
  }

  /** For a path without empty segments, its ancestors are exactly its
      '/'-terminated prefixes. */
  lemma AncestorsOfClean(p: string)
    requires NoEmptySegments(p)
    ensures forall d :: d in Ancestors(p) <==> SlashPrefix(d, p)
  {
    DirPrefixesOfClean(p, "");
    assert "" + p == p;
  }

  /** Every directory visited is a clean directory key extending the
      accumulator, and each '/'-terminated prefix of it is either a prefix of
      the accumulator or was itself visited before. */
  lemma {:induction false} DirPrefixesShape(parts: seq<string>, acc: string)
    requires DirAccumulator(acc)
    requires forall i :: 0 <= i < |parts| ==> '/' !in parts[i]
    ensures forall d :: d in DirPrefixes(parts, acc) ==>
      EndsWithSlash(d) && NoEmptySegments(d) && acc < d
    ensures forall d, b :: d in DirPrefixes(parts, acc) && SlashPrefix(b, d) ==>
      SlashPrefix(b, acc) || b in DirPrefixes(parts, acc)
  {
    if parts != [] {
      if parts[0] == "" {
        DirPrefixesShape(parts[1..], acc);
      } else {
        var x := parts[0];
        var next := acc + x + "/";
        assert '/' !in x;
        assert NoEmptySegments(next) by {
          forall i | 0 <= i < |next| && next[i] == '/' ensures 0 < i && next[i - 1] != '/' {
            if i < |acc| {
              assert acc[i] == '/';
              assert next[i - 1] == acc[i - 1];
            } else if i < |acc| + |x| {
              assert false;
            } else {
              assert next[i - 1] == x[|x| - 1];
              assert x[|x| - 1] in x;
            }
          }
        }
        assert acc < next by { assert next[..|acc|] == acc; }
        // the '/'-terminated prefixes of `next` are those of `acc` and `next` itself
        assert forall b :: SlashPrefix(b, next) ==> SlashPrefix(b, acc) || b == next by {
          forall b | SlashPrefix(b, next) ensures SlashPrefix(b, acc) || b == next {
            var k := |b| - 1;
            assert next[k] == '/';
            if |acc| <= k < |next| - 1 {
              assert false;
            }
            if k < |acc| {
              assert b == next[..|b|] == acc[..|b|];
            } else {
              assert b == next;
            }
          }
        }
        DirPrefixesShape(parts[1..], next);
        var rest := DirPrefixes(parts[1..], next);
        assert DirPrefixes(parts, acc) == [next] + rest;
        forall d | d in rest ensures acc < d {
          assert next < d;
          assert d[..|acc|] == next[..|acc|];
        }
      }
    }
  }

  /** An ancestor's own ancestors are ancestors too: the set built by
      `ensureDirectoryExists` is closed. */
  lemma AncestorsClosed(p: string)
    ensures forall d, b :: d in Ancestors(p) && b in Ancestors(d) ==> b in Ancestors(p)
  {
    DirPrefixesShape(Init(Split(p)), "");
    forall d, b | d in Ancestors(p) && b in Ancestors(d) ensures b in Ancestors(p) {
      AncestorsOfClean(d);
    }
  }

  /** Every ancestor is a folder key. */
  lemma AncestorsEndWithSlash(p: string)
    ensures forall d :: d in Ancestors(p) ==> EndsWithSlash(d)
  {
    DirPrefixesShape(Init(Split(p)), "");
  }

  // ---------------------------------------------------------------------
  // Worked examples: the directories `saveFile` creates for a few paths.

  lemma SplitFileName() ensures Split("c.txt") == ["c.txt"] {
    SplitNoSlash("c.txt");
  }

  lemma SplitOneDir() ensures Split("b/c.txt") == ["b", "c.txt"] {
    assert "b/c.txt" == "b" + "/" + "c.txt";
    SplitConcat("b", "c.txt");
    SplitFileName();
  }

  lemma SplitTwoDirs() ensures Split("a/b/c.txt") == ["a", "b", "c.txt"] {
    assert "a/b/c.txt" == "a" + "/" + "b/c.txt";
    SplitConcat("a", "b/c.txt");
    SplitOneDir();
  }

  lemma DirPrefixesTwo() ensures DirPrefixes(["a", "b"], "") == ["a/", "a/b/"] {
    assert ["a", "b"][1..] == ["b"] && ["b"][1..] == [];
    assert "" + "a" + "/" == "a/";
    assert "a/" + "b" + "/" == "a/b/";
  }

  /** `saveFile("a/b/c.txt", …)` creates `a/` and then `a/b/`. */
  lemma AncestorsNested() ensures Ancestors("a/b/c.txt") == ["a/", "a/b/"] {
    SplitTwoDirs();
    DirPrefixesTwo();
    assert Init(["a", "b", "c.txt"]) == ["a", "b"];
  }

  /** A leading '/' adds an empty first segment, which is skipped. */
  lemma AncestorsLeadingSlash(p: string)
    ensures Ancestors("/" + p) == Ancestors(p)
  {
    SplitConcat("", p);
    assert "" + "/" + p == "/" + p;
    var ps := Split(p);
    assert Init([""] + ps) == [""] + Init(ps);
    assert ([""] + Init(ps))[1..] == Init(ps);
  }

  /** A "//" anywhere in a path adds an empty segment, which is skipped. */
  lemma AncestorsDoubleSlash(x: string, y: string)
    ensures Ancestors(x + "//" + y) == Ancestors(x + "/" + y)
  {
    DoubleSlashSegments(x, y);
    DirPrefixesSkipEmpty(Split(x), Init(Split(y)), "");
  }

  /** The segments before the last '/' of `x//y` and of `x/y`. */
  lemma DoubleSlashSegments(x: string, y: string)
    ensures Init(Split(x + "//" + y)) == Split(x) + [""] + Init(Split(y))
    ensures Init(Split(x + "/" + y)) == Split(x) + Init(Split(y))
  {
    SplitDoubleSlash(x, y);
    SplitAppend(x, y);
    InitAppend(Split(x) + [""], Split(y));
    InitAppend(Split(x), Split(y));
  }

  lemma SplitDoubleSlash(x: string, y: string)
    ensures Split(x + "//" + y) == Split(x) + [""] + Split(y)
  {
    SplitAppend(x, "/" + y);
    assert x + "/" + ("/" + y) == x + "//" + y;
    SplitAppend("", y);
    assert "" + "/" + y == "/" + y;
    assert Split("") == [""];
  }

  lemma InitAppend(a: seq<string>, b: seq<string>)
    requires |b| >= 1
    ensures Init(a + b) == a + Init(b)
  {
  }

  /** An empty segment contributes no directory, wherever it stands. */
  lemma {:induction false} DirPrefixesSkipEmpty(a: seq<string>, b: seq<string>, acc: string)
    ensures DirPrefixes(a + [""] + b, acc) == DirPrefixes(a + b, acc)
    decreases |a|
  {
    if a == [] {
      assert a + [""] + b == [""] + b;
      assert ([""] + b)[1..] == b;
      assert a + b == b;
    } else {
      assert (a + [""] + b)[1..] == a[1..] + [""] + b;
      assert (a + b)[1..] == a[1..] + b;
      DirPrefixesSkipEmpty(a[1..], b, acc);
      DirPrefixesSkipEmpty(a[1..], b, acc + a[0] + "/");
    }
  }

  /** A folder key without empty segments is among its own ancestors. */
  lemma CleanFolderKeyIsAncestor(p: string)
    requires EndsWithSlash(p) && NoEmptySegments(p)
    ensures p in Ancestors(p)
  {
    AncestorsOfClean(p);
    assert SlashPrefix(p, p);
  }

  /** The folder key `/` has no ancestors, so `createFolder("/")` adds it
      only through its own membership test. */
  lemma AncestorsOfRoot()
    ensures Ancestors("/") == []
  {
    SplitAppend("", "");
    assert "" + "/" + "" == "/";
    assert Split("") == [""];
    assert Init(["", ""]) == [""];
    assert [""][1..] == [];
  }

  /** A file two directories deep, `a/b/f`, has the ancestors `a/` and `a/b/`. */
  lemma AncestorsTwoLevels(a: string, b: string, f: string)
    requires '/' !in a && '/' !in b && '/' !in f && a != "" && b != ""
    ensures Ancestors(a + "/" + (b + "/" + f)) == [a + "/", a + "/" + b + "/"]
  {
    SplitThreeParts(a, b, f);
    assert Init([a, b, f]) == [a, b];
    DirPrefixesOfTwo(a, b);
  }

  lemma SplitThreeParts(a: string, b: string, f: string)
    requires '/' !in a && '/' !in b && '/' !in f
    ensures Split(a + "/" + (b + "/" + f)) == [a, b, f]
  {
    SplitTwoParts(b, f);
    SplitConcat(a, b + "/" + f);
  }

  lemma DirPrefixesOfTwo(a: string, b: string)
    requires a != "" && b != ""
    ensures DirPrefixes([a, b], "") == [a + "/", a + "/" + b + "/"]
  {
    assert [a, b] == [a] + [b];
    DirPrefixesFirst(a, [b], "");
    assert "" + a + "/" == a + "/";
    assert [b] == [b] + [];
    DirPrefixesFirst(b, [], a + "/");
  }

  /** Empty segments from a leading '/' and from "//" are skipped:
      `/a//b/f` has the ancestors of `a/b/f`. */
  lemma AncestorsUnclean(a: string, b: string, f: string)
    requires '/' !in a && '/' !in b && '/' !in f && a != "" && b != ""
    ensures Ancestors("/" + a + "//" + b + "/" + f) == [a + "/", a + "/" + b + "/"]
  {
    var q := a + "//" + (b + "/" + f);
    AncestorsLeadingSlash(q);
    assert "/" + q == "/" + a + "//" + b + "/" + f;
    AncestorsDoubleSlash(a, b + "/" + f);
    AncestorsTwoLevels(a, b, f);
  }

  /** `docs/` is its own only ancestor. */
  lemma AncestorsOfDocs() ensures Ancestors("docs/") == ["docs/"] {
    assert "docs/" == "docs" + "/" + "";
    SplitConcat("docs", "");
    SplitNoSlash("");
    assert Split("docs/") == ["docs", ""];
    assert Init(Split("docs/")) == ["docs"];
    assert ["docs"][1..] == [];
    assert "" + "docs" + "/" == "docs/";
  }

  /** A path of one directory and a file name splits into those two. */
  lemma SplitTwoParts(d: string, f: string)
    requires '/' !in d && '/' !in f
    ensures Split(d + "/" + f) == [d, f]
  {
    SplitConcat(d, f);
    SplitNoSlash(f);
  }

  lemma SplitDocsReadme() ensures Split("docs/README.md") == ["docs", "README.md"] {
    SplitTwoParts("docs", "README.md");
    assert "docs" + "/" + "README.md" == "docs/README.md";
  }

  lemma DirPrefixesDocs() ensures DirPrefixes(["docs"], "") == ["docs/"] {
    assert ["docs"][1..] == [];
    assert "" + "docs" + "/" == "docs/";
  }

  lemma AncestorsOfDocsReadme() ensures Ancestors("docs/README.md") == ["docs/"] {
    SplitDocsReadme();
    DirPrefixesDocs();
    assert Init(["docs", "README.md"]) == ["docs"];
  }

  lemma AncestorsOfTopLevel() ensures Ancestors("script.js") == [] {
    SplitNoSlash("script.js");
  }
}
