/** The parts of Node's POSIX `path` module the program uses:
    `path.parse(base).name` / `path.extname(p)` (the file-name stem and
    extension) and `path.join` / `path.normalize` on absolute paths. */
module Paths {
  import opened Strings

  /** Index of the last '.' in `s`, or -1 when `s` has none. */
  function LastDotIndex(s: string): (k: int)
    ensures -1 <= k < |s|
    ensures k >= 0 ==> s[k] == '.'
    ensures forall j :: k < j < |s| ==> s[j] != '.'
    decreases |s|
  {
    if |s| == 0 then -1
    else if s[|s| - 1] == '.' then |s| - 1
    else LastDotIndex(s[..|s| - 1])
  }

  /** Where the extension of the single path component `base` starts
      (`|base|` when it has none). Node gives a component an extension only
      when its last '.' is not its first character and the component is not
      "..": so ".mp4" and ".bashrc" have no extension, "a." has ".". */
  function ExtStart(base: string): (k: nat)
    ensures k <= |base|
  {
    var d := LastDotIndex(base);
    if d <= 0 || base == ".." then |base| else d
  }

  /** `path.parse(base).name`. */
  function Stem(base: string): string
  {
    base[..ExtStart(base)]
  }

  /** `path.parse(base).ext`, which is also `path.extname(base)`. */
  function Ext(base: string): string
  {
    base[ExtStart(base)..]
  }

  /** The stem and the extension of a component put back together give the component. */
  lemma StemExtSplit(base: string)
    ensures Stem(base) + Ext(base) == base
    ensures |Ext(base)| > 0 ==> Ext(base)[0] == '.' && '.' !in Ext(base)[1..]
    ensures |Stem(base)| > 0 || base == ""
  {
    var k := ExtStart(base);
    if k < |base| {
      assert forall j :: 0 <= j < |Ext(base)| - 1 ==> Ext(base)[1..][j] == base[k + 1 + j];
    }
  }

  /** `p` without its trailing slashes. */
  function TrimTrailingSlashes(p: string): (r: string)
    ensures |r| <= |p|
    decreases |p|
  {
    if |p| > 0 && p[|p| - 1] == '/' then TrimTrailingSlashes(p[..|p| - 1]) else p
  }

  /** The text after the last '/' of `p`. */
  function AfterLastSlash(p: string): (r: string)
    ensures '/' !in r
    decreases |p|
  {
    if |p| == 0 then ""
    else if p[|p| - 1] == '/' then ""
    else AfterLastSlash(p[..|p| - 1]) + [p[|p| - 1]]
  }

  /** The last component of `p`, as `path.extname` scans for it: trailing
      slashes are skipped. */
  function LastComponent(p: string): string
  {
    AfterLastSlash(TrimTrailingSlashes(p))
  }

  /** `path.extname(p)`. */
  function ExtName(p: string): string
  {
    Ext(LastComponent(p))
  }

  /** A bare file name (no '/') is its own last component, so its
      `path.extname` is the extension of the name itself. */
  lemma ExtNameOfBareName(name: string)
    requires '/' !in name
    ensures ExtName(name) == Ext(name)
  {
    AfterLastSlashOfBareName(name);
  }

  lemma {:induction false} AfterLastSlashOfBareName(name: string)
    requires '/' !in name
    ensures AfterLastSlash(name) == name
    decreases |name|
  {
    if |name| > 0 {
      var init := name[..|name| - 1];
      assert '/' !in init by {
        forall i | 0 <= i < |init| ensures init[i] != '/' { assert init[i] == name[i]; }
      }
      AfterLastSlashOfBareName(init);
      assert init + [name[|name| - 1]] == name;
    }
  }

  /** A path segment that normalisation keeps as it is. */
  predicate NormalSegment(s: string)
  {
    s != "" && s != "." && s != ".." && '/' !in s
  }

  /** One step of `path.normalize` on an absolute path: empty and "."
      segments vanish, ".." drops the previous kept segment (and nothing at
      the root), every other segment is kept. */
  function Step(stack: seq<string>, seg: string): seq<string>
  {
    if seg == "" || seg == "." then stack
    else if seg == ".." then (if |stack| > 0 then stack[..|stack| - 1] else stack)
    else stack + [seg]
  }

  function Resolve(stack: seq<string>, segs: seq<string>): seq<string>
    decreases |segs|
  {
    if |segs| == 0 then stack else Resolve(Step(stack, segs[0]), segs[1..])
  }

  /** `path.normalize(p)` for an absolute `p`; a trailing slash survives. */
  function NormalizeAbsolute(p: string): (r: string)
    requires |p| > 0 && p[0] == '/'
  {
    var stack := Resolve([], Split(p, '/'));
    if |stack| == 0 then "/"
    else "/" + Join(stack, "/") + (if p[|p| - 1] == '/' then "/" else "")
  }

  /** The string `path.join(root, './Videos', name)` hands to `normalize`
      for an absolute `root`: empty arguments are skipped, the rest joined by '/'. */
  function JoinedVideoPath(root: string, name: string): (p: string)
    requires |root| > 0 && root[0] == '/'
    ensures |p| > 0 && p[0] == '/'
  {
    root + "/./Videos" + (if name == "" then "" else "/" + name)
  }

  /** `path.join(root, './Videos', name)`. */
  function VideoPath(root: string, name: string): string
    requires |root| > 0 && root[0] == '/'
  {
    NormalizeAbsolute(JoinedVideoPath(root, name))
  }

  /** An absolute path spelled out from its segments. */
  function RootPath(segs: seq<string>): string
  {
    "/" + Join(segs, "/")
  }

  /** The video directory under `root`. */
  function VideoDir(rootSegs: seq<string>): string
  {
    RootPath(rootSegs + ["Videos"])
  }

  /** The segments of `segs` that survive normalisation when no ".." occurs. */
  function Kept(segs: seq<string>): (r: seq<string>)
    ensures forall i :: 0 <= i < |r| ==> r[i] != "" && r[i] != "."
    decreases |segs|
  {
    if |segs| == 0 then []
    else if segs[0] == "" || segs[0] == "." then Kept(segs[1..])
    else [segs[0]] + Kept(segs[1..])
  }

  lemma {:induction false} KeptAppend(a: seq<string>, b: seq<string>)
    ensures Kept(a + b) == Kept(a) + Kept(b)
    decreases |a|
  {
    if |a| > 0 {
      assert (a + b)[1..] == a[1..] + b;
      KeptAppend(a[1..], b);
    } else {
      assert a + b == b;
    }
  }

  lemma {:induction false} KeptOfNormal(segs: seq<string>)
    requires forall i :: 0 <= i < |segs| ==> NormalSegment(segs[i])
    ensures Kept(segs) == segs
    decreases |segs|
  {
    if |segs| > 0 {
      KeptOfNormal(segs[1..]);
      assert [segs[0]] + segs[1..] == segs;
    }
  }

  /** Without ".." segments, normalisation only drops empty and "." segments. */
  lemma {:induction false} ResolveWithoutDotDot(stack: seq<string>, segs: seq<string>)
    requires forall i :: 0 <= i < |segs| ==> segs[i] != ".."
    ensures Resolve(stack, segs) == stack + Kept(segs)
    decreases |segs|
  {
    if |segs| > 0 {
      ResolveWithoutDotDot(Step(stack, segs[0]), segs[1..]);
    }
  }

  lemma {:induction false} SplitRootPath(segs: seq<string>)
    requires forall i :: 0 <= i < |segs| ==> NormalSegment(segs[i])
    ensures Split(RootPath(segs), '/') == [""] + (if |segs| == 0 then [""] else segs)
  {
    SplitAround("", '/', Join(segs, "/"));
    assert RootPath(segs) == "" + ['/'] + Join(segs, "/");
    if |segs| > 0 {
      SplitJoin(segs, '/');
    }
  }

  /** The segments of the joined path of a video under a normal root. */
  function JoinedSegments(rootSegs: seq<string>, name: string): seq<string>
  {
    [""] + (if |rootSegs| == 0 then [""] else rootSegs) + [".", "Videos"]
    + (if name == "" then [] else Split(name, '/'))
  }

  /** The segments after the root: ".", "Videos" and the name's. */
  lemma SplitVideosTail(name: string)
    ensures Split("." + ['/'] + ("Videos" + (if name == "" then "" else ['/'] + name)), '/')
            == [".", "Videos"] + (if name == "" then [] else Split(name, '/'))
  {
    SplitDotTail("Videos" + (if name == "" then "" else ['/'] + name));
    SplitNamesTail(name);
  }

  lemma SplitDotTail(rest: string)
    ensures Split("." + ['/'] + rest, '/') == ["."] + Split(rest, '/')
  {
    SplitWithoutSeparator(".", '/');
    SplitAround(".", '/', rest);
  }

  lemma SplitNamesTail(name: string)
    ensures Split("Videos" + (if name == "" then "" else ['/'] + name), '/')
            == ["Videos"] + (if name == "" then [] else Split(name, '/'))
  {
    SplitWithoutSeparator("Videos", '/');
    if name != "" {
      assert "Videos" + ['/'] + name == "Videos" + (['/'] + name);
      SplitAround("Videos", '/', name);
    } else {
      assert "Videos" + "" == "Videos";
    }
  }

  lemma SplitJoinedVideoPath(rootSegs: seq<string>, name: string)
    requires forall i :: 0 <= i < |rootSegs| ==> NormalSegment(rootSegs[i])
    ensures Split(JoinedVideoPath(RootPath(rootSegs), name), '/') == JoinedSegments(rootSegs, name)
  {
    var root := RootPath(rootSegs);
    var tail := "." + ['/'] + ("Videos" + (if name == "" then "" else ['/'] + name));
    assert JoinedVideoPath(root, name) == root + ['/'] + tail;
    SplitRootPath(rootSegs);
    SplitAround(root, '/', tail);
    SplitVideosTail(name);
  }

  /** The split of a normal root path keeps exactly the root's segments. */
  lemma KeptRootSplit(rootSegs: seq<string>)
    requires forall i :: 0 <= i < |rootSegs| ==> NormalSegment(rootSegs[i])
    ensures Kept([""] + (if |rootSegs| == 0 then [""] else rootSegs)) == rootSegs
  {
    var tail := if |rootSegs| == 0 then [""] else rootSegs;
    var segs := [""] + tail;
    assert segs[0] == "" && segs[1..] == tail;
    assert Kept(segs) == Kept(tail);
    if |rootSegs| > 0 {
      KeptOfNormal(rootSegs);
    } else {
      assert tail[0] == "" && tail[1..] == [];
      assert Kept(tail) == Kept([]);
    }
  }

  lemma JoinedSegmentsWithoutDotDot(rootSegs: seq<string>, name: string)
    requires forall i :: 0 <= i < |rootSegs| ==> NormalSegment(rootSegs[i])
    requires forall i :: 0 <= i < |Split(name, '/')| ==> Split(name, '/')[i] != ".."
    ensures forall i :: 0 <= i < |JoinedSegments(rootSegs, name)| ==> JoinedSegments(rootSegs, name)[i] != ".."
  {
    var rootSplit := [""] + (if |rootSegs| == 0 then [""] else rootSegs);
    var nameSegs := if name == "" then [] else Split(name, '/');
    var segs := JoinedSegments(rootSegs, name);
    assert segs == rootSplit + [".", "Videos"] + nameSegs;
    forall i | 0 <= i < |segs|
      ensures segs[i] != ".."
    {
      if i == 0 {
        assert segs[i] == "";
      } else if i < |rootSplit| {
        assert segs[i] == rootSplit[i];
        if |rootSegs| > 0 {
          assert rootSplit[i] == rootSegs[i - 1];
          assert NormalSegment(rootSegs[i - 1]);
        }
      } else if i < |rootSplit| + 2 {
        assert segs[i] == [".", "Videos"][i - |rootSplit|];
      } else {
        assert segs[i] == nameSegs[i - |rootSplit| - 2];
      }
    }
  }

  lemma ResolveJoinedSegments(rootSegs: seq<string>, name: string)
    requires forall i :: 0 <= i < |rootSegs| ==> NormalSegment(rootSegs[i])
    requires forall i :: 0 <= i < |Split(name, '/')| ==> Split(name, '/')[i] != ".."
    ensures Resolve([], JoinedSegments(rootSegs, name))
            == rootSegs + ["Videos"] + (if name == "" then [] else Kept(Split(name, '/')))
  {
    ResolveJoinedKept(rootSegs, name);
    KeptJoinedSegments(rootSegs, name, if name == "" then [] else Split(name, '/'));
  }

  lemma ResolveJoinedKept(rootSegs: seq<string>, name: string)
    requires forall i :: 0 <= i < |rootSegs| ==> NormalSegment(rootSegs[i])
    requires forall i :: 0 <= i < |Split(name, '/')| ==> Split(name, '/')[i] != ".."
    ensures Resolve([], JoinedSegments(rootSegs, name)) == Kept(JoinedSegments(rootSegs, name))
  {
    var segs := JoinedSegments(rootSegs, name);
    JoinedSegmentsWithoutDotDot(rootSegs, name);
    ResolveWithoutDotDot([], segs);
    assert [] + Kept(segs) == Kept(segs);
  }

  lemma KeptJoinedSegments(rootSegs: seq<string>, name: string, nameSegs: seq<string>)
    requires forall i :: 0 <= i < |rootSegs| ==> NormalSegment(rootSegs[i])
    requires nameSegs == if name == "" then [] else Split(name, '/')
    ensures Kept(JoinedSegments(rootSegs, name)) == rootSegs + ["Videos"] + Kept(nameSegs)
  {
    var rootSplit := [""] + (if |rootSegs| == 0 then [""] else rootSegs);
    var tail := [".", "Videos"] + nameSegs;
    assert JoinedSegments(rootSegs, name) == rootSplit + tail;
    KeptAppend(rootSplit, tail);
    KeptRootSplit(rootSegs);
    KeptVideosTail(nameSegs);
    assert rootSegs + (["Videos"] + Kept(nameSegs)) == rootSegs + ["Videos"] + Kept(nameSegs);
  }

  lemma KeptVideosTail(nameSegs: seq<string>)
    ensures Kept([".", "Videos"] + nameSegs) == ["Videos"] + Kept(nameSegs)
  {
    KeptAppend([".", "Videos"], nameSegs);
    assert Kept([".", "Videos"]) == ["Videos"];
  }

  /** The name segments that survive in the resolved video path. */
  function NameKept(name: string): seq<string>
  {
    if name == "" then [] else Kept(Split(name, '/'))
  }

  /** The trailing '/' that normalisation keeps when the joined path has one. */
  function Trailer(root: string, name: string): string
    requires |root| > 0 && root[0] == '/'
  {
    var joined := JoinedVideoPath(root, name);
    if joined[|joined| - 1] == '/' then "/" else ""
  }

  /** Without ".." in the name, the resolved video path is the root's
      segments, "Videos" and the name's surviving segments, joined by '/'. */
  lemma VideoPathShape(rootSegs: seq<string>, name: string)
    requires forall i :: 0 <= i < |rootSegs| ==> NormalSegment(rootSegs[i])
    requires forall i :: 0 <= i < |Split(name, '/')| ==> Split(name, '/')[i] != ".."
    ensures VideoPath(RootPath(rootSegs), name)
            == "/" + Join(rootSegs + ["Videos"] + NameKept(name), "/") + Trailer(RootPath(rootSegs), name)
  {
    var joined := JoinedVideoPath(RootPath(rootSegs), name);
    SplitJoinedVideoPath(rootSegs, name);
    ResolveJoinedSegments(rootSegs, name);
    var stack := rootSegs + ["Videos"] + NameKept(name);
    assert Resolve([], Split(joined, '/')) == stack;
  }

  lemma PrefixOfConcat(a: string, b: string)
    ensures StartsWith(a + b, a)
  {
    assert (a + b)[..|a|] == a;
  }

  /** Path containment: when no '/'-separated segment of the decoded name
      is "..", the resolved path is the video directory itself (possibly
      with a trailing '/') or lies below it, continuing with exactly the
      name's non-empty, non-"." segments. */
  lemma VideoPathContained(rootSegs: seq<string>, name: string)
    requires forall i :: 0 <= i < |rootSegs| ==> NormalSegment(rootSegs[i])
    requires forall i :: 0 <= i < |Split(name, '/')| ==> Split(name, '/')[i] != ".."
    ensures |NameKept(name)| == 0 ==>
              VideoPath(RootPath(rootSegs), name) in {VideoDir(rootSegs), VideoDir(rootSegs) + "/"}
    ensures |NameKept(name)| > 0 ==>
              StartsWith(VideoPath(RootPath(rootSegs), name), VideoDir(rootSegs) + "/" + Join(NameKept(name), "/"))
    ensures VideoPath(RootPath(rootSegs), name) == VideoDir(rootSegs)
            || StartsWith(VideoPath(RootPath(rootSegs), name), VideoDir(rootSegs) + "/")
  {
    VideoPathShape(rootSegs, name);
    var kept := NameKept(name);
    var trailer := Trailer(RootPath(rootSegs), name);
    if |kept| > 0 {
      KeptPathPrefix(rootSegs, kept, trailer);
    } else {
      EmptyKeptPath(rootSegs, kept, trailer);
      if trailer == "" {
        assert VideoPath(RootPath(rootSegs), name) == VideoDir(rootSegs) + "";
        assert VideoDir(rootSegs) + "" == VideoDir(rootSegs);
      } else {
        assert VideoPath(RootPath(rootSegs), name) == VideoDir(rootSegs) + "/";
        PrefixOfConcat(VideoDir(rootSegs) + "/", "");
      }
    }
  }

  /** A path below the video directory starts with the directory and '/'. */
  lemma KeptPathPrefix(rootSegs: seq<string>, kept: seq<string>, trailer: string)
    requires |kept| > 0
    ensures StartsWith("/" + Join(rootSegs + ["Videos"] + kept, "/") + trailer,
                       VideoDir(rootSegs) + "/" + Join(kept, "/"))
    ensures StartsWith("/" + Join(rootSegs + ["Videos"] + kept, "/") + trailer, VideoDir(rootSegs) + "/")
  {
    JoinAppend(rootSegs + ["Videos"], kept, "/");
    SlashPrefix("/", Join(rootSegs + ["Videos"], "/"), Join(kept, "/"), trailer);
  }

  lemma SlashPrefix(a: string, j: string, k: string, t: string)
    ensures StartsWith(a + (j + "/" + k) + t, a + j + "/" + k)
    ensures StartsWith(a + (j + "/" + k) + t, a + j + "/")
  {
    var p := a + (j + "/" + k) + t;
    assert p == (a + j + "/" + k) + t;
    PrefixOfConcat(a + j + "/" + k, t);
    assert p == (a + j + "/") + (k + t);
    PrefixOfConcat(a + j + "/", k + t);
  }

  lemma EmptyKeptPath(rootSegs: seq<string>, kept: seq<string>, trailer: string)
    requires |kept| == 0
    ensures "/" + Join(rootSegs + ["Videos"] + kept, "/") + trailer == VideoDir(rootSegs) + trailer
  {
    assert rootSegs + ["Videos"] + kept == rootSegs + ["Videos"];
  }

  lemma {:induction false} ResolveAppend(stack: seq<string>, a: seq<string>, b: seq<string>)
    ensures Resolve(stack, a + b) == Resolve(Resolve(stack, a), b)
    decreases |a|
  {
    if |a| == 0 {
      assert a + b == b;
    } else {
      assert (a + b)[0] == a[0] && (a + b)[1..] == a[1..] + b;
      ResolveAppend(Step(stack, a[0]), a[1..], b);
    }
  }

  lemma ResolveEscapingName(rootSegs: seq<string>, file: string)
    requires forall i :: 0 <= i < |rootSegs| ==> NormalSegment(rootSegs[i])
    requires NormalSegment(file)
    ensures Resolve([], Split(JoinedVideoPath(RootPath(rootSegs), "../" + file), '/')) == rootSegs + [file]
  {
    var name := "../" + file;
    assert name == ".." + ['/'] + file;
    SplitWithoutSeparator("..", '/');
    SplitWithoutSeparator(file, '/');
    SplitAround("..", '/', file);
    SplitJoinedVideoPath(rootSegs, name);
    var head := JoinedSegments(rootSegs, "");
    assert JoinedSegments(rootSegs, name) == head + ["..", file];
    ResolveAppend([], head, ["..", file]);
    JoinedSegmentsWithoutDotDot(rootSegs, "");
    ResolveWithoutDotDot([], head);
    ResolveJoinedSegments(rootSegs, "");
    assert Resolve([], head) == rootSegs + ["Videos"];
    assert (rootSegs + ["Videos"])[..|rootSegs|] == rootSegs;
    assert Step(rootSegs + ["Videos"], "..") == rootSegs;
    assert ["..", file][1..] == [file];
    assert Resolve(rootSegs + ["Videos"], ["..", file]) == Resolve(rootSegs, [file]);
    assert Resolve(rootSegs, [file]) == Resolve(rootSegs + [file], []);
  }

  /** Without a guard, a leading ".." segment leaves the video directory:
      `../<file>` resolves to `<file>` beside the video directory, under the
      root, and (unless the file is itself called "Videos") outside it. */
  lemma DotDotEscapes(rootSegs: seq<string>, file: string)
    requires forall i :: 0 <= i < |rootSegs| ==> NormalSegment(rootSegs[i])
    requires NormalSegment(file)
    ensures VideoPath(RootPath(rootSegs), "../" + file) == RootPath(rootSegs + [file])
    ensures file != "Videos" ==>
              VideoPath(RootPath(rootSegs), "../" + file) != VideoDir(rootSegs)
              && !StartsWith(VideoPath(RootPath(rootSegs), "../" + file), VideoDir(rootSegs) + "/")
  {
    ResolveEscapingName(rootSegs, file);
    var joined := JoinedVideoPath(RootPath(rootSegs), "../" + file);
    assert joined[|joined| - 1] == file[|file| - 1];
    if file != "Videos" {
      EscapedOutsideVideoDir(rootSegs, file);
    }
  }

  lemma EscapedOutsideVideoDir(rootSegs: seq<string>, file: string)
    requires NormalSegment(file) && file != "Videos"
    ensures RootPath(rootSegs + [file]) != VideoDir(rootSegs)
    ensures !StartsWith(RootPath(rootSegs + [file]), VideoDir(rootSegs) + "/")
  {
    var pre := if |rootSegs| == 0 then "/" else RootPath(rootSegs) + "/";
    if |rootSegs| > 0 {
      JoinAppend(rootSegs, [file], "/");
      JoinAppend(rootSegs, ["Videos"], "/");
    }
    assert RootPath(rootSegs + [file]) == pre + file;
    assert VideoDir(rootSegs) == pre + "Videos";
    var q := pre + file;
    var dirSlash := pre + "Videos" + "/";
    assert q[|pre|..] == file;
    assert (pre + "Videos")[|pre|..] == "Videos";
    assert dirSlash[|pre| + 6] == '/';
    assert |q| >= |dirSlash| ==> q[|pre| + 6] == file[6] && file[6] != '/';
  }
}
