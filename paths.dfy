/** The two parts of `pathlib.PurePosixPath` the bucket uses: `.name`, the last component of
    a path, and `.suffix`, the extension of a file name. */
module Paths {
  import opened Text

  /** The components `pathlib` keeps: the '/'-separated pieces that are neither empty nor ".". */
  function Components(pieces: seq<string>): (r: seq<string>)
    ensures forall i :: 0 <= i < |r| ==> r[i] in pieces && r[i] != "" && r[i] != "."
    decreases |pieces|
  {
    if pieces == [] then []
    else
      var rest := Components(pieces[1..]);
      if pieces[0] == "" || pieces[0] == "." then rest else [pieces[0]] + rest
  }

  /** `Path(path).name`: the last component, or "" when there is none. It never holds a '/',
      so a bucket directory joined with it is the directory itself (for ""), its parent (for
      ".."), or one of its entries. A plain file name is its own name. */
  function Name(path: string): (r: string)
    ensures '/' !in r && r != "."
    ensures '/' !in path && path != "." ==> r == path
  {
    var parts := Components(Split(path, '/'));
    assert '/' !in path ==> Split(path, '/') == [path] by {
      if '/' !in path {
        SplitWithoutSep(path, '/');
      }
    }
    if parts == [] then "" else parts[|parts| - 1]
  }

  /** Every piece that is neither empty nor "." is kept. */
  lemma {:induction false} ComponentsComplete(pieces: seq<string>, p: string)
    requires p in pieces && p != "" && p != "."
    ensures p in Components(pieces)
    decreases |pieces|
  {
    if pieces[0] != p {
      ComponentsComplete(pieces[1..], p);
    }
  }

  /** Components keep their order: the components of `xs + ys` are those of `xs`, then those
      of `ys`. */
  lemma {:induction false} ComponentsConcat(xs: seq<string>, ys: seq<string>)
    ensures Components(xs + ys) == Components(xs) + Components(ys)
    decreases |xs|
  {
    if xs != [] {
      assert (xs + ys)[1..] == xs[1..] + ys;
      ComponentsConcat(xs[1..], ys);
    } else {
      assert xs + ys == ys;
    }
  }

  /** Whatever directories a requested path names, its `.name` is the plain file name at its
      end: "../../x.png" and "a/b/x.png" both come down to "x.png". */
  lemma NameDropsDirectories(dirs: string, name: string)
    requires name != "" && name != "." && '/' !in name
    ensures Name(dirs + "/" + name) == name
  {
    SplitConcat(dirs, name, '/');
    SplitWithoutSep(name, '/');
    ComponentsConcat(Split(dirs, '/'), [name]);
  }

  /** `s.rfind(c)`: the last index of `c` in `s`, or -1. */
  function RFind(s: string, c: char): (r: int)
    ensures -1 <= r < |s|
    ensures r >= 0 ==> s[r] == c
    ensures forall j :: r < j < |s| ==> s[j] != c
    decreases |s|
  {
    if s == [] then -1
    else if s[|s| - 1] == c then |s| - 1
    else RFind(s[..|s| - 1], c)
  }

  /** The shape of a non-empty suffix: a dot, then at least one character, none of them a dot. */
  predicate IsSuffixShape(e: string) {
    |e| >= 2 && e[0] == '.' && '.' !in e[1..]
  }

  /** `PurePath.suffix`: from the last dot to the end of the name, provided that dot is neither
      the first nor the last character; "" otherwise. */
  function Suffix(name: string): (r: string)
    ensures r == "" || (IsSuffixShape(r) && |r| < |name| && r == name[|name| - |r|..])
  {
    var i := RFind(name, '.');
    if 0 < i < |name| - 1 then name[i..] else ""
  }

  /** The suffix is non-empty exactly when the last dot of the name is neither its first nor
      its last character, and it then runs from that dot to the end. */
  lemma SuffixAtLastDot(name: string)
    ensures Suffix(name) != "" <==> exists i :: 0 < i < |name| - 1 && name[i] == '.' && '.' !in name[i + 1..]
    ensures forall i :: 0 < i < |name| - 1 && name[i] == '.' && '.' !in name[i + 1..] ==> Suffix(name) == name[i..]
  {
  }

  /** Only the last extension counts, and a leading or trailing dot starts none. */
  lemma SuffixExamples()
    ensures Suffix("x.tar.gz") == ".gz"
    ensures Suffix(".bashrc") == "" && Suffix("photo.") == "" && Suffix("photo") == ""
  {
    var n := "x.tar.gz";
    assert n[5] == '.' && '.' !in n[6..];
    var h := ".bashrc";
    assert forall i :: 0 < i < |h| - 1 ==> h[i] != '.';
    var d := "photo.";
    assert forall i :: 0 < i < |d| - 1 ==> d[i] != '.';
    var p := "photo";
    assert forall i :: 0 < i < |p| - 1 ==> p[i] != '.';
  }

  /** The suffix of `stem + ext` is `ext` when the stem has no dot and `ext` has a suffix's shape. */
  lemma SuffixOfJoin(stem: string, ext: string)
    requires stem != "" && '.' !in stem && IsSuffixShape(ext)
    ensures Suffix(stem + ext) == ext
  {
    var name := stem + ext;
    var i := RFind(name, '.');
    assert name[|stem|] == '.';
    assert i >= |stem|;
    assert name[|stem|..] == ext;
  }
}
