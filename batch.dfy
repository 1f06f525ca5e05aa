/** Expanding a whole argument list (`expand_arguments`) and classifying the
    raw command-line tokens (`expand_osstr`), src/lib.rs:150-186. */
module Batch {
  import opened Bytes
  import opened Walk
  import opened Arguments

  /** The concatenation of the parts, in order. */
  function Flatten(parts: seq<seq<Walk.Path>>): seq<Walk.Path>
    decreases |parts|
  {
    if parts == [] then [] else Flatten(parts[..|parts| - 1]) + parts[|parts| - 1]
  }

  lemma {:induction false} FlattenAppend(a: seq<seq<Walk.Path>>, b: seq<seq<Walk.Path>>)
    ensures Flatten(a + b) == Flatten(a) + Flatten(b)
    decreases |b|
  {
    if b == [] {
      assert a + b == a;
    } else {
      assert (a + b)[..|a + b| - 1] == a + b[..|b| - 1];
      FlattenAppend(a, b[..|b| - 1]);
    }
  }

  /** Each argument's own expansion, position for position. */
  function Expansions(args: seq<Argument>, split: byte, walkOpts: Option<WalkDirOptions>, fs: FileSystem)
    : seq<seq<Walk.Path>>
  {
    seq(|args|, i requires 0 <= i < |args| => Expansion(args[i], split, walkOpts, fs))
  }

  /** The expansions of the arguments, concatenated in argument order. */
  function ExpandAll(args: seq<Argument>, split: byte, walkOpts: Option<WalkDirOptions>, fs: FileSystem): seq<Walk.Path> {
    Flatten(Expansions(args, split, walkOpts, fs))
  }

  /** Argument lists expand piecewise. */
  lemma ExpandAllAppend(a: seq<Argument>, b: seq<Argument>, split: byte, walkOpts: Option<WalkDirOptions>, fs: FileSystem)
    ensures ExpandAll(a + b, split, walkOpts, fs) == ExpandAll(a, split, walkOpts, fs) + ExpandAll(b, split, walkOpts, fs)
  {
    assert Expansions(a + b, split, walkOpts, fs) == Expansions(a, split, walkOpts, fs) + Expansions(b, split, walkOpts, fs);
    FlattenAppend(Expansions(a, split, walkOpts, fs), Expansions(b, split, walkOpts, fs));
  }

  /** A one-argument list expands to that argument's expansion. */
  lemma ExpandAllOne(arg: Argument, split: byte, walkOpts: Option<WalkDirOptions>, fs: FileSystem)
    ensures ExpandAll([arg], split, walkOpts, fs) == Expansion(arg, split, walkOpts, fs)
  {
    var parts := Expansions([arg], split, walkOpts, fs);
    assert parts == [Expansion(arg, split, walkOpts, fs)];
    assert parts[..0] == [];
    assert Flatten(parts) == Flatten([]) + parts[0];
  }

  /** `expand_arguments`: expand each argument and flatten. The source's
      `split: T` with `T: Into<u8>` is taken here already converted. */
  method ExpandArguments(args: seq<Argument>, split: byte, walkOpts: Option<WalkDirOptions>, fs: FileSystem)
    returns (out: seq<Walk.Path>)
    ensures out == ExpandAll(args, split, walkOpts, fs)
  {
    out := [];
    for k := 0 to |args|
      invariant out == ExpandAll(args[..k], split, walkOpts, fs)
    {
      var sub := Expand(args[k], split, walkOpts, fs);
      assert args[..k + 1] == args[..k] + [args[k]];
      ExpandAllAppend(args[..k], [args[k]], split, walkOpts, fs);
      ExpandAllOne(args[k], split, walkOpts, fs);
      out := out + sub;
    }
    assert args[..|args|] == args;
  }

  /** The stdin sentinel, the one-byte token `-`. */
  const DASH: seq<byte> := [0x2D]

  /** A `Path` for every token other than the sentinel, in token order. */
  function PathArgs(strs: seq<seq<byte>>): seq<Argument>
    decreases |strs|
  {
    if strs == [] then []
    else PathArgs(strs[..|strs| - 1]) + (if strs[|strs| - 1] == DASH then [] else [Path(strs[|strs| - 1])])
  }

  /** The index of the first sentinel, if any. */
  function FirstDash(strs: seq<seq<byte>>): (r: Option<nat>)
    ensures r.Some? ==> r.value < |strs| && strs[r.value] == DASH && DASH !in strs[..r.value]
    ensures r.None? ==> DASH !in strs
    decreases |strs|
  {
    if strs == [] then None
    else
      var init := strs[..|strs| - 1];
      assert strs == init + [strs[|strs| - 1]];
      match FirstDash(init)
      case Some(k) =>
        assert strs[..k] == init[..k];
        Some(k)
      case None =>
        if strs[|strs| - 1] == DASH then Some(|strs| - 1) else None
  }

  lemma {:induction false} PathArgsAppend(a: seq<seq<byte>>, b: seq<seq<byte>>)
    ensures PathArgs(a + b) == PathArgs(a) + PathArgs(b)
    decreases |b|
  {
    if b == [] {
      assert a + b == a;
    } else {
      assert (a + b)[..|a + b| - 1] == a + b[..|b| - 1];
      PathArgsAppend(a, b[..|b| - 1]);
    }
  }

  /** Before any sentinel, every token becomes a `Path`, position for position. */
  lemma {:induction false} PathArgsNoDash(strs: seq<seq<byte>>)
    requires DASH !in strs
    ensures |PathArgs(strs)| == |strs|
    ensures forall i | 0 <= i < |strs| :: PathArgs(strs)[i] == Path(strs[i])
    decreases |strs|
  {
    if strs != [] {
      var init := strs[..|strs| - 1];
      assert strs == init + [strs[|strs| - 1]];
      PathArgsNoDash(init);
    }
  }

  /** The tokens as `Path`s are exactly the non-sentinel tokens, and none is
      a `Reader`. */
  lemma {:induction false} PathArgsMember(strs: seq<seq<byte>>, a: Argument)
    ensures a in PathArgs(strs) <==> a.Path? && a.root in strs && a.root != DASH
    decreases |strs|
  {
    if strs != [] {
      var init := strs[..|strs| - 1];
      assert strs == init + [strs[|strs| - 1]];
      PathArgsMember(init, a);
    }
  }

  /** The first sentinel is at `k` when `strs[k]` is one and no earlier token is. */
  lemma FirstDashAt(strs: seq<seq<byte>>, k: nat)
    requires k < |strs| && strs[k] == DASH && DASH !in strs[..k]
    ensures FirstDash(strs) == Some(k)
  {
  }

  /** The recorded index never exceeds the number of `Path` arguments: the
      insertion at src/lib.rs:181 cannot panic. */
  lemma FirstDashBound(strs: seq<seq<byte>>)
    ensures FirstDash(strs).Some? ==> FirstDash(strs).value <= |PathArgs(strs)|
  {
    if FirstDash(strs).Some? {
      var k := FirstDash(strs).value;
      assert strs == strs[..k] + strs[k..];
      PathArgsAppend(strs[..k], strs[k..]);
      PathArgsNoDash(strs[..k]);
    }
  }

  /** The argument list `expand_osstr` builds: the `Path`s, with a `Reader`
      over standard input inserted at the first sentinel's index. */
  function Classify(strs: seq<seq<byte>>, stdin: seq<byte>): seq<Argument> {
    match FirstDash(strs)
    case None => PathArgs(strs)
    case Some(k) =>
      FirstDashBound(strs);
      PathArgs(strs)[..k] + [Reader(stdin)] + PathArgs(strs)[k..]
  }

  /** `expand_osstr`: one scan records the first sentinel's index and pushes
      every other non-sentinel token as a `Path`; then the standard-input
      `Reader` is inserted at that index and the list is expanded. */
  method ExpandOsStr(strs: seq<seq<byte>>, split: byte, walkOpts: Option<WalkDirOptions>, fs: FileSystem,
                     stdin: seq<byte>)
    returns (out: seq<Walk.Path>)
    ensures out == ExpandAll(Classify(strs, stdin), split, walkOpts, fs)
  {
    var sinIdx: Option<nat> := None;
    var args: seq<Argument> := [];
    for idx := 0 to |strs|
      invariant args == PathArgs(strs[..idx])
      invariant sinIdx == FirstDash(strs[..idx])
      invariant sinIdx.None? ==> |args| == idx
      invariant sinIdx.Some? ==> sinIdx.value <= |args|
    {
      assert strs[..idx + 1][..idx] == strs[..idx];
      if strs[idx] == DASH {
        if sinIdx.None? {
          sinIdx := Some(idx);
        }
      } else {
        args := args + [Path(strs[idx])];
      }
    }
    assert strs[..|strs|] == strs;
    if sinIdx.Some? {
      var sidx := sinIdx.value;
      // `Vec::insert` panics when the index exceeds the length; it cannot here.
      assert sidx <= |args|;
      args := args[..sidx] + [Reader(stdin)] + args[sidx..];
      out := ExpandArguments(args, split, walkOpts, fs);
    } else {
      out := ExpandArguments(args, split, walkOpts, fs);
    }
  }

  // ---------------------------------------------------------------------
  // Properties of the classification

  /** Where the sentinel first appears, the list is: the tokens before it, as
      `Path`s and at their own positions; the one `Reader`, at the sentinel's
      own index; then the later non-sentinel tokens, later sentinels dropped.
      Without a sentinel it is the tokens as `Path`s. */
  lemma ClassifyLayout(strs: seq<seq<byte>>, stdin: seq<byte>)
    ensures FirstDash(strs).None? ==> Classify(strs, stdin) == PathArgs(strs)
    ensures FirstDash(strs).Some? ==>
              var k := FirstDash(strs).value;
              && Classify(strs, stdin) == PathArgs(strs[..k]) + [Reader(stdin)] + PathArgs(strs[k + 1..])
              && |PathArgs(strs[..k])| == k
              && forall i | 0 <= i < k :: PathArgs(strs[..k])[i] == Path(strs[i])
  {
    if FirstDash(strs).Some? {
      var k := FirstDash(strs).value;
      PathArgsSkipDash(strs, k);
      PathArgsNoDash(strs[..k]);
      var before, after := PathArgs(strs[..k]), PathArgs(strs[k + 1..]);
      assert PathArgs(strs)[..k] == before;
      assert PathArgs(strs)[k..] == after;
    }
  }

  /** A sentinel contributes no argument. */
  lemma PathArgsSkipDash(strs: seq<seq<byte>>, k: nat)
    requires k < |strs| && strs[k] == DASH
    ensures PathArgs(strs) == PathArgs(strs[..k]) + PathArgs(strs[k + 1..])
  {
    var before, after := strs[..k], strs[k + 1..];
    assert strs[..k + 1] == before + [DASH];
    assert strs == strs[..k + 1] + after;
    PathArgsAppend(strs[..k + 1], after);
    assert PathArgs(strs[..k + 1]) == PathArgs(before);
  }

  /** Standard input is read by exactly one argument when a sentinel is
      present, and by none otherwise; that argument sits at the first
      sentinel's index. */
  lemma ClassifyReaders(strs: seq<seq<byte>>, stdin: seq<byte>, i: nat)
    requires i < |Classify(strs, stdin)|
    ensures Classify(strs, stdin)[i].Reader? <==> FirstDash(strs) == Some(i)
  {
    var c := Classify(strs, stdin);
    ClassifyLayout(strs, stdin);
    match FirstDash(strs)
    case None =>
      PathArgsMember(strs, c[i]);
    case Some(k) =>
      var before, after := PathArgs(strs[..k]), PathArgs(strs[k + 1..]);
      if i < k {
        assert c[i] == before[i];
      } else if i > k {
        assert c[i] == after[i - k - 1];
        PathArgsMember(strs[k + 1..], c[i]);
      }
  }

  /** Without a sentinel, tokens that all name regular files expand to
      themselves, in order. */
  lemma {:induction false} ExpandFilesInOrder(strs: seq<seq<byte>>, split: byte,
                                              walkOpts: Option<WalkDirOptions>, fs: FileSystem)
    requires DASH !in strs
    requires forall i | 0 <= i < |strs| :: fs.isFile(strs[i])
    ensures ExpandAll(PathArgs(strs), split, walkOpts, fs) == strs
    decreases |strs|
  {
    if strs != [] {
      var init, last := strs[..|strs| - 1], strs[|strs| - 1];
      assert strs == init + [last];
      ExpandFilesInOrder(init, split, walkOpts, fs);
      assert PathArgs(strs) == PathArgs(init) + [Path(last)];
      ExpandAllAppend(PathArgs(init), [Path(last)], split, walkOpts, fs);
      ExpandAllOne(Path(last), split, walkOpts, fs);
    }
  }

  /** The final output: what the tokens before the first sentinel yield, then
      what standard input yields, then what the later tokens yield. */
  lemma StdinExpandsInPlace(strs: seq<seq<byte>>, stdin: seq<byte>, split: byte,
                            walkOpts: Option<WalkDirOptions>, fs: FileSystem)
    ensures FirstDash(strs).None? ==>
              ExpandAll(Classify(strs, stdin), split, walkOpts, fs) == ExpandAll(PathArgs(strs), split, walkOpts, fs)
    ensures FirstDash(strs).Some? ==>
              var k := FirstDash(strs).value;
              ExpandAll(Classify(strs, stdin), split, walkOpts, fs)
              == ExpandAll(PathArgs(strs[..k]), split, walkOpts, fs)
                 + Expansion(Reader(stdin), split, walkOpts, fs)
                 + ExpandAll(PathArgs(strs[k + 1..]), split, walkOpts, fs)
  {
    ClassifyLayout(strs, stdin);
    if FirstDash(strs).Some? {
      var k := FirstDash(strs).value;
      var before, after := PathArgs(strs[..k]), PathArgs(strs[k + 1..]);
      var r := [Reader(stdin)];
      assert Classify(strs, stdin) == (before + r) + after;
      ExpandAllAppend(before + r, after, split, walkOpts, fs);
      ExpandAllAppend(before, r, split, walkOpts, fs);
      ExpandAllOne(Reader(stdin), split, walkOpts, fs);
    }
  }

}
