/** Ordering the bucket's files by modification time, as `list.sort(key=st_mtime)` and
    `sorted(..., key=st_mtime, reverse=True)` do. Files with equal times may come in either
    order: the model leaves the order of ties open, as the source's stable sort leaves it to
    the order `iterdir` yields. That order decides which of two equally old files the cap
    evicts and how they are listed; with distinct times there is only one arrangement. */
module MtimeOrder {
  import opened Common

  predicate InFiles(s: seq<string>, files: Files) {
    forall i :: 0 <= i < |s| ==> s[i] in files
  }

  /** `a` may stand before `b`: oldest first, or with `newestFirst`, newest first. */
  predicate Precedes(files: Files, a: string, b: string, newestFirst: bool)
    requires a in files && b in files
  {
    if newestFirst then files[a].mtime >= files[b].mtime else files[a].mtime <= files[b].mtime
  }

  predicate Ordered(s: seq<string>, files: Files, newestFirst: bool)
    requires InFiles(s, files)
  {
    forall i, j :: 0 <= i < j < |s| ==> Precedes(files, s[i], s[j], newestFirst)
  }

  /** `s` lists every file of the bucket exactly once, in the given order. */
  predicate IsArrangement(s: seq<string>, files: Files, newestFirst: bool) {
    && InFiles(s, files)
    && Distinct(s)
    && |s| == |files|
    && (forall n :: n in files ==> n in s)
    && Ordered(s, files, newestFirst)
  }

  /** Inserts `x` into an ordered sequence, keeping it ordered. */
  function Insert(x: string, s: seq<string>, files: Files, newestFirst: bool): (r: seq<string>)
    requires x in files && InFiles(s, files) && Ordered(s, files, newestFirst)
    ensures |r| == |s| + 1 && InFiles(r, files) && Ordered(r, files, newestFirst)
    ensures forall y :: y in r <==> y == x || y in s
    ensures x !in s && Distinct(s) ==> Distinct(r)
    decreases |s|
  {
    if s == [] then [x]
    else if Precedes(files, x, s[0], newestFirst) then [x] + s
    else
      var rest := Insert(x, s[1..], files, newestFirst);
      assert forall j :: 0 <= j < |rest| ==> Precedes(files, s[0], rest[j], newestFirst) by {
        forall j | 0 <= j < |rest| ensures Precedes(files, s[0], rest[j], newestFirst) {
          assert rest[j] in rest;
          if rest[j] != x {
            assert rest[j] in s[1..];
            var k :| 0 <= k < |s| - 1 && s[1..][k] == rest[j];
            assert s[k + 1] == rest[j];
          }
        }
      }
      assert Distinct(s) ==> s[0] !in s[1..];
      [s[0]] + rest
  }

  /** The names, rearranged into the given mtime order. */
  function SortByMtime(names: seq<string>, files: Files, newestFirst: bool): (r: seq<string>)
    requires InFiles(names, files)
    ensures |r| == |names| && InFiles(r, files) && Ordered(r, files, newestFirst)
    ensures forall y :: y in r <==> y in names
    ensures Distinct(names) ==> Distinct(r)
    decreases |names|
  {
    if names == [] then []
    else
      var last := names[|names| - 1];
      var init := names[..|names| - 1];
      assert forall y :: y in names <==> y == last || y in init;
      Insert(last, SortByMtime(init, files, newestFirst), files, newestFirst)
  }

  /** Inserting adds exactly one occurrence of `x`. */
  lemma {:induction false} InsertCounts(x: string, s: seq<string>, files: Files, newestFirst: bool)
    requires x in files && InFiles(s, files) && Ordered(s, files, newestFirst)
    ensures multiset(Insert(x, s, files, newestFirst)) == multiset(s) + multiset{x}
    decreases |s|
  {
    if s != [] && !Precedes(files, x, s[0], newestFirst) {
      InsertCounts(x, s[1..], files, newestFirst);
      assert s == [s[0]] + s[1..];
    }
  }

  /** Sorting is a permutation, repeated names included. */
  lemma {:induction false} SortPermutes(names: seq<string>, files: Files, newestFirst: bool)
    requires InFiles(names, files)
    ensures multiset(SortByMtime(names, files, newestFirst)) == multiset(names)
    decreases |names|
  {
    if names != [] {
      var last := names[|names| - 1];
      var init := names[..|names| - 1];
      assert multiset(names) == multiset(init) + multiset{last} by {
        assert names == init + [last];
      }
      assert InFiles(init, files);
      SortPermutes(init, files, newestFirst);
      InsertCounts(last, SortByMtime(init, files, newestFirst), files, newestFirst);
    }
  }

  /** Sorting a listing of the whole bucket arranges the whole bucket. */
  lemma SortArranges(names: seq<string>, files: Files, newestFirst: bool)
    requires Distinct(names) && |names| == |files| && forall n :: n in names <==> n in files
    ensures IsArrangement(SortByMtime(names, files, newestFirst), files, newestFirst)
  {
  }

  /** With pairwise distinct modification times, the bucket has exactly one arrangement in
      each direction, so the sort has no ties to decide. */
  lemma {:induction false} ArrangementUnique(a: seq<string>, b: seq<string>, files: Files, newestFirst: bool)
    requires IsArrangement(a, files, newestFirst) && IsArrangement(b, files, newestFirst)
    requires forall x, y :: x in files && y in files && x != y ==> files[x].mtime != files[y].mtime
    ensures a == b
  {
    var n := 0;
    while n < |a|
      invariant 0 <= n <= |a| && a[..n] == b[..n]
    {
      SameNext(a, b, files, newestFirst, n);
      assert a[..n + 1] == a[..n] + [a[n]] && b[..n + 1] == b[..n] + [b[n]];
      n := n + 1;
    }
    assert a == a[..|a|] && b == b[..|b|];
  }

  /** Two arrangements that agree before position `n` agree at `n`. */
  lemma SameNext(a: seq<string>, b: seq<string>, files: Files, newestFirst: bool, n: nat)
    requires IsArrangement(a, files, newestFirst) && IsArrangement(b, files, newestFirst)
    requires forall x, y :: x in files && y in files && x != y ==> files[x].mtime != files[y].mtime
    requires n < |a| && a[..n] == b[..n]
    ensures a[n] == b[n]
  {
    var j := IndexIn(b, a[n]);
    var k := IndexIn(a, b[n]);
    assert a[n] !in a[..n] && b[n] !in b[..n];
    assert j >= n && k >= n;
    PrecedesAt(b, files, newestFirst, n, j);
    PrecedesAt(a, files, newestFirst, n, k);
  }

  /** In an ordered sequence, each name may stand before itself and every later one. */
  lemma PrecedesAt(s: seq<string>, files: Files, newestFirst: bool, i: nat, j: nat)
    requires InFiles(s, files) && Ordered(s, files, newestFirst) && i <= j < |s|
    ensures Precedes(files, s[i], s[j], newestFirst)
  {
  }

  /** The position of `x` in `s`. */
  function IndexIn(s: seq<string>, x: string): (i: nat)
    requires x in s
    ensures i < |s| && s[i] == x
  {
    if s[0] == x then 0 else 1 + IndexIn(s[1..], x)
  }

  /** Two files with the same time can be arranged either way round. */
  lemma TiesAllowBothOrders()
    ensures IsArrangement(["a", "b"], map["a" := Meta(1, 5), "b" := Meta(1, 5)], true)
    ensures IsArrangement(["b", "a"], map["a" := Meta(1, 5), "b" := Meta(1, 5)], true)
  {
  }
}
