/** The handful of JavaScript semantics the file store relies on: optional
    values, `String.prototype.split('/')`, the `||` and `??` operators on a
    string-or-undefined, and the enumeration order of a plain object's keys. */
module Js {

  /** A JS value that is a `T` or is missing: `None` stands for `undefined`
      (and, for a folder entry, for `null`). */
  datatype Option<T> = None | Some(value: T)

  /** `s.split('/')`: the maximal runs between separators, always at least one. */
  function Split(s: string): (parts: seq<string>)
    ensures |parts| >= 1
    ensures forall i :: 0 <= i < |parts| ==> '/' !in parts[i]
    decreases |s|
  {
    if |s| == 0 then [""]
    else
      var rest := Split(s[1..]);
      if s[0] == '/' then [""] + rest
      else [[s[0]] + rest[0]] + rest[1..]
  }

  /** `parts.join('/')`, the inverse of Split. */
  function Join(parts: seq<string>): string
    requires |parts| >= 1
  {
    if |parts| == 1 then parts[0] else parts[0] + "/" + Join(parts[1..])
  }

  /** Every part but the last, as `.slice(0, -1)` gives on a non-empty array. */
  function Init<T>(xs: seq<T>): seq<T>
    requires |xs| >= 1
  {
    xs[..|xs| - 1]
  }

  lemma {:induction false} JoinSplit(s: string)
    ensures Join(Split(s)) == s
    decreases |s|
  {
    if |s| > 0 {
      var rest := Split(s[1..]);
      JoinSplit(s[1..]);
      if s[0] == '/' {
        assert ([""] + rest)[1..] == rest;
      } else if |rest| > 1 {
        assert ([[s[0]] + rest[0]] + rest[1..])[1..] == rest[1..];
        assert s == [s[0]] + s[1..];
      } else {
        assert s == [s[0]] + s[1..];
      }
    }
  }

  /** Splitting a string without separators yields that string alone. */
  lemma {:induction false} SplitNoSlash(x: string)
    requires '/' !in x
    ensures Split(x) == [x]
    decreases |x|
  {
    if |x| > 0 {
      assert '/' !in x[1..] by {
        forall i | 0 <= i < |x[1..]| ensures x[1..][i] != '/' { assert x[1..][i] == x[i + 1]; }
      }
      SplitNoSlash(x[1..]);
      assert x == [x[0]] + x[1..];
    }
  }

  /** Splitting at the first separator. */
  lemma {:induction false} SplitConcat(x: string, y: string)
    requires '/' !in x
    ensures Split(x + "/" + y) == [x] + Split(y)
    decreases |x|
  {
    if |x| == 0 {
      assert x + "/" + y == "/" + y;
      assert ("/" + y)[1..] == y;
    } else {
      var s := x + "/" + y;
      assert s[1..] == x[1..] + "/" + y;
      assert '/' !in x[1..] by {
        forall i | 0 <= i < |x[1..]| ensures x[1..][i] != '/' { assert x[1..][i] == x[i + 1]; }
      }
      SplitConcat(x[1..], y);
      assert [s[0]] + x[1..] == x;
    }
  }

  /** Splitting at any '/' splits the two sides independently. */
  lemma {:induction false} SplitAppend(x: string, z: string)
    ensures Split(x + "/" + z) == Split(x) + Split(z)
    decreases |x|
  {
    if |x| == 0 {
      assert x + "/" + z == "/" + z;
      assert ("/" + z)[1..] == z;
    } else {
      var s := x + "/" + z;
      assert s[0] == x[0];
      assert s[1..] == x[1..] + "/" + z;
      SplitAppend(x[1..], z);
    }
  }

  lemma {:induction false} SplitJoin(parts: seq<string>)
    requires |parts| >= 1
    requires forall i :: 0 <= i < |parts| ==> '/' !in parts[i]
    ensures Split(Join(parts)) == parts
    decreases |parts|
  {
    if |parts| == 1 {
      SplitNoSlash(parts[0]);
    } else {
      SplitJoin(parts[1..]);
      SplitConcat(parts[0], Join(parts[1..]));
      assert [parts[0]] + parts[1..] == parts;
    }
  }

  /** JS `x || fallback` where `x` is a string or `undefined`: only a
      non-empty string is truthy. */
  function OrElse(x: Option<string>, fallback: string): string
  {
    if x.Some? && x.value != "" then x.value else fallback
  }

  /** JS `x ?? fallback`: the fallback replaces only `undefined`/`null`. */
  function Coalesce<T>(x: Option<T>, fallback: Option<T>): Option<T>
  {
    if x.Some? then x else fallback
  }

  predicate IsDigit(c: char) { '0' <= c <= '9' }

  predicate AllDigits(s: string) { forall i :: 0 <= i < |s| ==> IsDigit(s[i]) }

  /** The number a string of decimal digits denotes. */
  function DecimalValue(s: string): nat
    requires AllDigits(s)
  {
    if |s| == 0 then 0
    else DecimalValue(s[..|s| - 1]) * 10 + (s[|s| - 1] as int - '0' as int)
  }

  /** 2^32 - 1: array indices are the canonical numerals below it. */
  const ArrayIndexBound: nat := 0x1_0000_0000 - 1

  /** An array index: a canonical decimal numeral (no sign, no leading zero)
      of a value below 2^32 - 1. Object keys of this shape enumerate first. */
  predicate IsArrayIndex(k: string)
  {
    && |k| > 0
    && AllDigits(k)
    && (k[0] != '0' || |k| == 1)
    && DecimalValue(k) < ArrayIndexBound
  }

  /** The numeric index an array-index key stands for; other keys rank 0 and
      are never compared by it. */
  function Rank(k: string): nat
  {
    if IsArrayIndex(k) then DecimalValue(k) else 0
  }

  predicate SortedByRank(ks: seq<string>)
  {
    forall i, j :: 0 <= i < j < |ks| ==> Rank(ks[i]) <= Rank(ks[j])
  }

  function InsertByRank(k: string, ks: seq<string>): (r: seq<string>)
    ensures multiset(r) == multiset(ks) + multiset{k}
  {
    if ks == [] || Rank(k) <= Rank(ks[0]) then [k] + ks
    else
      assert ks == [ks[0]] + ks[1..];
      [ks[0]] + InsertByRank(k, ks[1..])
  }

  lemma {:induction false} InsertByRankSorted(k: string, ks: seq<string>)
    requires SortedByRank(ks)
    ensures SortedByRank(InsertByRank(k, ks))
  {
    if ks == [] || Rank(k) <= Rank(ks[0]) {
      forall x | x in ks ensures Rank(k) <= Rank(x) {
        var j :| 0 <= j < |ks| && ks[j] == x;
        assert Rank(ks[0]) <= Rank(ks[j]);
      }
      SortedCons(k, ks);
    } else {
      var tail := InsertByRank(k, ks[1..]);
      InsertByRankSorted(k, ks[1..]);
      forall x | x in tail ensures Rank(ks[0]) <= Rank(x) {
        assert x in multiset(tail);
        if x != k {
          assert x in ks[1..];
          var j :| 0 <= j < |ks[1..]| && ks[1..][j] == x;
          assert Rank(ks[0]) <= Rank(ks[j + 1]);
        }
      }
      SortedCons(ks[0], tail);
    }
  }

  /** A sorted sequence stays sorted with a lower bound of it in front. */
  lemma SortedCons(h: string, t: seq<string>)
    requires SortedByRank(t)
    requires forall x :: x in t ==> Rank(h) <= Rank(x)
    ensures SortedByRank([h] + t)
  {
    var r := [h] + t;
    forall i, j | 0 <= i < j < |r| ensures Rank(r[i]) <= Rank(r[j]) {
      assert r[j] == t[j - 1];
      if i == 0 {
        assert t[j - 1] in t;
      } else {
        assert r[i] == t[i - 1];
      }
    }
  }

  function SortByRank(ks: seq<string>): (r: seq<string>)
    ensures multiset(r) == multiset(ks)
    ensures SortedByRank(r)
  {
    if ks == [] then []
    else
      assert ks == [ks[0]] + ks[1..];
      InsertByRankSorted(ks[0], SortByRank(ks[1..]));
      InsertByRank(ks[0], SortByRank(ks[1..]))
  }

  function IndexKeys(ks: seq<string>): (r: seq<string>)
    ensures forall i :: 0 <= i < |r| ==> IsArrayIndex(r[i])
  {
    if ks == [] then []
    else if IsArrayIndex(ks[0]) then [ks[0]] + IndexKeys(ks[1..])
    else IndexKeys(ks[1..])
  }

  function OtherKeys(ks: seq<string>): (r: seq<string>)
    ensures forall i :: 0 <= i < |r| ==> !IsArrayIndex(r[i])
  {
    if ks == [] then []
    else if IsArrayIndex(ks[0]) then OtherKeys(ks[1..])
    else [ks[0]] + OtherKeys(ks[1..])
  }

  lemma {:induction false} PartitionKeys(ks: seq<string>)
    ensures multiset(IndexKeys(ks)) + multiset(OtherKeys(ks)) == multiset(ks)
  {
    if ks != [] {
      PartitionKeys(ks[1..]);
      assert ks == [ks[0]] + ks[1..];
    }
  }

  /** The order in which `Object.entries` lists the keys of an object whose
      properties were created in the order `ks`: array indices first, in
      ascending numeric order, then every other key in creation order. */
  function ObjectKeyOrder(ks: seq<string>): (r: seq<string>)
    ensures multiset(r) == multiset(ks)
    ensures var n := |IndexKeys(ks)|;
      && n <= |r|
      && (forall i :: 0 <= i < n ==> IsArrayIndex(r[i]))
      && SortedByRank(r[..n])
      && r[n..] == OtherKeys(ks)
  {
    PartitionKeys(ks);
    var sorted := SortByRank(IndexKeys(ks));
    assert |sorted| == |multiset(IndexKeys(ks))| == |IndexKeys(ks)|;
    assert forall i :: 0 <= i < |sorted| ==> IsArrayIndex(sorted[i]) by {
      forall i | 0 <= i < |sorted| ensures IsArrayIndex(sorted[i]) {
        assert sorted[i] in multiset(IndexKeys(ks));
      }
    }
    var r := sorted + OtherKeys(ks);
    assert r[..|sorted|] == sorted && r[|sorted|..] == OtherKeys(ks);
    r
  }

  /** Without array-index keys the creation order is kept as it is. */
  lemma {:induction false} ObjectKeyOrderNoIndex(ks: seq<string>)
    requires forall i :: 0 <= i < |ks| ==> !IsArrayIndex(ks[i])
    ensures ObjectKeyOrder(ks) == ks
  {
    NoIndexKeys(ks);
  }

  lemma {:induction false} NoIndexKeys(ks: seq<string>)
    requires forall i :: 0 <= i < |ks| ==> !IsArrayIndex(ks[i])
    ensures IndexKeys(ks) == [] && OtherKeys(ks) == ks
  {
    if ks != [] {
      assert !IsArrayIndex(ks[0]);
      NoIndexKeys(ks[1..]);
      assert ks == [ks[0]] + ks[1..];
    }
  }
}
