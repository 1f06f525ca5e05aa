/** `Argument` and its expansion (src/lib.rs:74-106). */
module Arguments {
  import opened Bytes
  import opened Walk

  /** A byte source to be split into path fragments (`Reader`, modelled by
      the bytes it yields until end of input), or one path (`Path`). */
  datatype Argument = Reader(input: seq<byte>) | Path(root: Walk.Path)

  // ---------------------------------------------------------------------
  // Splitting a byte source: `BufRead::split` (src/lib.rs:84)

  /** The position of the first `d` in `s`, or `|s|` when there is none. */
  function IndexOf(s: seq<byte>, d: byte): (i: nat)
    ensures i <= |s|
    ensures d !in s[..i]
    ensures i < |s| ==> s[i] == d
  {
    if s == [] then 0
    else if s[0] == d then 0
    else
      var i := 1 + IndexOf(s[1..], d);
      assert s[..i] == [s[0]] + s[1..][..i - 1];
      i
  }

  /** The fragments `BufRead::split(d)` yields: each read takes the bytes up
      to and including the next `d` (or up to end of input), and yields them
      without the `d`; a read that finds no byte at all ends the iteration. */
  function Fragments(s: seq<byte>, d: byte): seq<seq<byte>>
    decreases |s|
  {
    if s == [] then []
    else
      var i := IndexOf(s, d);
      if i == |s| then [s] else [s[..i]] + Fragments(s[i + 1..], d)
  }

  /** The input with a final `d` added when it does not already end in one. */
  function Terminated(s: seq<byte>, d: byte): seq<byte> {
    if s == [] || s[|s| - 1] == d then s else s + [d]
  }

  /** Each fragment followed by `d`, concatenated. */
  function Join(fs: seq<seq<byte>>, d: byte): seq<byte> {
    if fs == [] then [] else fs[0] + [d] + Join(fs[1..], d)
  }

  /** No fragment contains the delimiter. */
  lemma {:induction false} FragmentsExcludeDelimiter(s: seq<byte>, d: byte)
    ensures forall f | f in Fragments(s, d) :: d !in f
    decreases |s|
  {
    if s != [] {
      var i := IndexOf(s, d);
      if i < |s| {
        var rest := s[i + 1..];
        FragmentsExcludeDelimiter(rest, d);
        assert Fragments(s, d) == [s[..i]] + Fragments(rest, d);
      } else {
        assert s[..i] == s;
      }
    }
  }

  /** A run without the delimiter is yielded whole. */
  lemma FragmentsOfRun(s: seq<byte>, d: byte)
    requires s != [] && d !in s
    ensures Fragments(s, d) == [s]
  {
  }

  lemma TerminatedAfter(s: seq<byte>, d: byte, i: nat)
    requires i < |s| && s[i] == d
    ensures Terminated(s, d) == s[..i] + [d] + Terminated(s[i + 1..], d)
  {
  }

  /** Rejoining the fragments gives back the input, up to a final delimiter:
      a trailing delimiter yields no empty last fragment, and a trailing run
      without one is yielded. */
  lemma {:induction false} FragmentsJoin(s: seq<byte>, d: byte)
    ensures Join(Fragments(s, d), d) == Terminated(s, d)
    decreases |s|
  {
    if s != [] {
      var i := IndexOf(s, d);
      if i == |s| {
        assert s[..i] == s;
        assert Fragments(s, d)[1..] == [];
      } else {
        var rest := s[i + 1..];
        FragmentsJoin(rest, d);
        assert Fragments(s, d)[1..] == Fragments(rest, d);
        TerminatedAfter(s, d, i);
      }
    }
  }

  lemma JoinEmpty(fs: seq<seq<byte>>, d: byte)
    ensures Join(fs, d) == [] <==> fs == []
  {
  }

  /** The first position of `d` in `s` is `k` when `s[k]` is `d` and no
      earlier byte is. */
  lemma IndexAt(s: seq<byte>, d: byte, k: nat)
    requires k <= |s| && d !in s[..k] && (k < |s| ==> s[k] == d)
    ensures IndexOf(s, d) == k
  {
  }

  lemma TerminatedPrefix(s: seq<byte>, d: byte)
    ensures |Terminated(s, d)| >= |s| && Terminated(s, d)[..|s|] == s
  {
  }

  /** The first piece of a decomposition covers the whole input. */
  lemma UniqueLast(s: seq<byte>, d: byte, f: seq<byte>, tail: seq<seq<byte>>)
    requires s != [] && d !in f && |f| >= |s|
    requires f + [d] + Join(tail, d) == Terminated(s, d)
    ensures tail == [] && Fragments(s, d) == [f]
  {
    TerminatedPrefix(s, d);
    assert s == f[..|s|];
    assert s[|s| - 1] != d by { assert f[|s| - 1] in f; }
    assert f == s;
    JoinEmpty(tail, d);
    IndexAt(s, d, |s|);
  }

  /** The first piece of a decomposition ends at the first delimiter. */
  lemma UniqueFirst(s: seq<byte>, d: byte, f: seq<byte>, tail: seq<seq<byte>>)
    requires s != [] && d !in f && |f| < |s|
    requires f + [d] + Join(tail, d) == Terminated(s, d)
    ensures s[..|f|] == f && IndexOf(s, d) == |f|
    ensures Join(tail, d) == Terminated(s[|f| + 1..], d)
  {
    var t := f + [d] + Join(tail, d);
    TerminatedPrefix(s, d);
    assert s[..|f|] == t[..|f|] == f;
    assert s[|f|] == t[|f|] == d;
    IndexAt(s, d, |f|);
    TerminatedAfter(s, d, |f|);
    assert t == f + [d] + Terminated(s[|f| + 1..], d);
    assert t[|f| + 1..] == Join(tail, d);
  }

  /** `Fragments` is the only way to cut the input into delimiter-free pieces
      that rejoin to it: the split is determined by the input alone. */
  lemma {:induction false} FragmentsUnique(s: seq<byte>, d: byte, fs: seq<seq<byte>>)
    requires forall f | f in fs :: d !in f
    requires Join(fs, d) == Terminated(s, d)
    ensures fs == Fragments(s, d)
    decreases |fs|
  {
    if fs == [] {
      assert s == [];
    } else {
      var f, tail := fs[0], fs[1..];
      assert d !in f by { assert f in fs; }
      assert s != [];
      if |f| >= |s| {
        UniqueLast(s, d, f, tail);
      } else {
        UniqueFirst(s, d, f, tail);
        assert forall g | g in tail :: d !in g by {
          forall g | g in tail ensures d !in g { assert g in fs; }
        }
        FragmentsUnique(s[|f| + 1..], d, tail);
        assert fs == [f] + tail;
      }
    }
  }

  lemma {:induction false} JoinAppend(a: seq<seq<byte>>, b: seq<seq<byte>>, d: byte)
    ensures Join(a + b, d) == Join(a, d) + Join(b, d)
    decreases |a|
  {
    if a == [] {
      assert a + b == b;
    } else {
      assert (a + b)[1..] == a[1..] + b;
      JoinAppend(a[1..], b, d);
    }
  }

  lemma TerminatedAppend(a: seq<byte>, b: seq<byte>, d: byte)
    requires a == [] || a[|a| - 1] == d
    ensures Terminated(a + b, d) == a + Terminated(b, d)
  {
    if b == [] {
      assert a + b == a;
    } else {
      assert (a + b)[|a + b| - 1] == b[|b| - 1];
    }
  }

  /** Splitting is compositional at a delimiter: the fragments of a stream
      are those of a delimiter-terminated prefix followed by those of the
      rest. */
  lemma FragmentsAppend(a: seq<byte>, b: seq<byte>, d: byte)
    requires a == [] || a[|a| - 1] == d
    ensures Fragments(a + b, d) == Fragments(a, d) + Fragments(b, d)
  {
    var fa, fb := Fragments(a, d), Fragments(b, d);
    FragmentsJoin(a, d);
    FragmentsJoin(b, d);
    JoinAppend(fa, fb, d);
    TerminatedAppend(a, b, d);
    assert Join(fa + fb, d) == Terminated(a + b, d);
    FragmentsExcludeDelimiter(a, d);
    FragmentsExcludeDelimiter(b, d);
    assert forall f | f in fa + fb :: d !in f;
    FragmentsUnique(a + b, d, fa + fb);
  }

  /** A delimiter-free line followed by the delimiter is a single fragment. */
  lemma FragmentsOfLine(line: seq<byte>, d: byte)
    requires d !in line
    ensures Fragments(line + [d], d) == [line]
  {
    var s := line + [d];
    assert s[|s| - 1] == d;
    FragmentsUnique(s, d, [line]);
  }

  // ---------------------------------------------------------------------
  // Expansion, as functions

  /** The walk's entries whose type is regular file, in walk order. */
  function FileEntries(es: seq<DirEntry>): seq<Walk.Path>
    decreases |es|
  {
    if es == [] then []
    else FileEntries(es[..|es| - 1]) + (if es[|es| - 1].isFile then [es[|es| - 1].path] else [])
  }

  /** Expanding a `Path` (src/lib.rs:89-101). */
  function ExpandPath(root: Walk.Path, walkOpts: Option<WalkDirOptions>, fs: FileSystem): seq<Walk.Path> {
    if fs.isFile(root) then [root]
    else match walkOpts
      case None => []
      case Some(w) => FileEntries(fs.walk(w, root))
  }

  /** Every fragment expanded as a `Path`, concatenated in order. */
  function ExpandFragments(frags: seq<seq<byte>>, split: byte, walkOpts: Option<WalkDirOptions>, fs: FileSystem)
    : seq<Walk.Path>
    decreases 1, |frags|
  {
    if frags == [] then []
    else ExpandFragments(frags[..|frags| - 1], split, walkOpts, fs) + Expansion(Path(frags[|frags| - 1]), split, walkOpts, fs)
  }

  /** What `Argument::expand` returns: a `Reader` recurses into `Path`s, one level deep. */
  function Expansion(arg: Argument, split: byte, walkOpts: Option<WalkDirOptions>, fs: FileSystem): seq<Walk.Path>
    decreases if arg.Reader? then 2 else 0, 0
  {
    match arg
    case Path(root) => ExpandPath(root, walkOpts, fs)
    case Reader(input) => ExpandFragments(Fragments(input, split), split, walkOpts, fs)
  }

  // ---------------------------------------------------------------------
  // Expansion, as the source computes it

  /** `Argument::expand`: a `Reader` expands each of its fragments as a
      `Path`, one level of recursion; a `Path` yields itself when it is a
      regular file, else the regular files of its walk, else nothing. */
  method Expand(arg: Argument, split: byte, walkOpts: Option<WalkDirOptions>, fs: FileSystem)
    returns (out: seq<Walk.Path>)
    ensures out == Expansion(arg, split, walkOpts, fs)
    decreases if arg.Reader? then 1 else 0
  {
    out := [];
    match arg {
      case Reader(input) =>
        var frags := Fragments(input, split);
        for k := 0 to |frags|
          invariant out == ExpandFragments(frags[..k], split, walkOpts, fs)
        {
          var sub := Expand(Path(frags[k]), split, walkOpts, fs);
          assert frags[..k + 1][..k] == frags[..k];
          out := out + sub;
        }
        assert frags[..|frags|] == frags;
      case Path(root) =>
        if fs.isFile(root) {
          out := out + [root];
        } else if walkOpts.Some? {
          var entries := fs.walk(walkOpts.value, root);
          for k := 0 to |entries|
            invariant out == FileEntries(entries[..k])
          {
            assert entries[..k + 1][..k] == entries[..k];
            if entries[k].isFile {
              out := out + [entries[k].path];
            }
          }
          assert entries[..|entries|] == entries;
        }
    }
  }

  // ---------------------------------------------------------------------
  // What an expansion contains

  /** The file entries are exactly the walk's regular-file entries. */
  lemma {:induction false} FileEntriesMember(es: seq<DirEntry>, p: Walk.Path)
    ensures p in FileEntries(es) <==> DirEntry(p, true) in es
    decreases |es|
  {
    if es != [] {
      var init := es[..|es| - 1];
      FileEntriesMember(init, p);
      assert es == init + [es[|es| - 1]];
    }
  }

  /** Filtering keeps walk order: it distributes over concatenation. */
  lemma {:induction false} FileEntriesAppend(a: seq<DirEntry>, b: seq<DirEntry>)
    ensures FileEntries(a + b) == FileEntries(a) + FileEntries(b)
    decreases |b|
  {
    if b == [] {
      assert a + b == a;
    } else {
      assert (a + b)[..|a + b| - 1] == a + b[..|b| - 1];
      FileEntriesAppend(a, b[..|b| - 1]);
    }
  }

  /** The three cases of expanding a path: a regular file yields exactly
      itself whatever the options; otherwise, without options, nothing;
      otherwise the walk's regular-file entries and nothing else. */
  lemma ExpandPathMember(root: Walk.Path, walkOpts: Option<WalkDirOptions>, fs: FileSystem, p: Walk.Path)
    ensures fs.isFile(root) ==> ExpandPath(root, walkOpts, fs) == [root]
    ensures !fs.isFile(root) && walkOpts.None? ==> ExpandPath(root, walkOpts, fs) == []
    ensures !fs.isFile(root) && walkOpts.Some? ==>
              (p in ExpandPath(root, walkOpts, fs) <==> DirEntry(p, true) in fs.walk(walkOpts.value, root))
  {
    if !fs.isFile(root) && walkOpts.Some? {
      FileEntriesMember(fs.walk(walkOpts.value, root), p);
    }
  }

  lemma {:induction false} ExpandFragmentsAppend(a: seq<seq<byte>>, b: seq<seq<byte>>, split: byte,
                                                 walkOpts: Option<WalkDirOptions>, fs: FileSystem)
    ensures ExpandFragments(a + b, split, walkOpts, fs) == ExpandFragments(a, split, walkOpts, fs) + ExpandFragments(b, split, walkOpts, fs)
    decreases |b|
  {
    if b == [] {
      assert a + b == a;
    } else {
      assert (a + b)[..|a + b| - 1] == a + b[..|b| - 1];
      ExpandFragmentsAppend(a, b[..|b| - 1], split, walkOpts, fs);
    }
  }

  lemma {:induction false} ExpandFragmentsMember(frags: seq<seq<byte>>, split: byte, walkOpts: Option<WalkDirOptions>,
                                                 fs: FileSystem, p: Walk.Path)
    ensures p in ExpandFragments(frags, split, walkOpts, fs) <==> exists f | f in frags :: p in ExpandPath(f, walkOpts, fs)
    decreases |frags|
  {
    if frags != [] {
      var init := frags[..|frags| - 1];
      ExpandFragmentsMember(init, split, walkOpts, fs, p);
      assert frags == init + [frags[|frags| - 1]];
    }
  }

  /** A path comes out of a `Reader` exactly when it comes out of one of its
      fragments expanded as a `Path`. */
  lemma ReaderMember(input: seq<byte>, split: byte, walkOpts: Option<WalkDirOptions>, fs: FileSystem, p: Walk.Path)
    ensures p in Expansion(Reader(input), split, walkOpts, fs) <==>
            exists f | f in Fragments(input, split) :: split !in f && p in ExpandPath(f, walkOpts, fs)
  {
    FragmentsExcludeDelimiter(input, split);
    ExpandFragmentsMember(Fragments(input, split), split, walkOpts, fs, p);
  }

  /** Fragments that all name regular files expand to themselves. */
  lemma {:induction false} ExpandFragmentsOfFiles(frags: seq<seq<byte>>, split: byte, walkOpts: Option<WalkDirOptions>, fs: FileSystem)
    requires forall i | 0 <= i < |frags| :: fs.isFile(frags[i])
    ensures ExpandFragments(frags, split, walkOpts, fs) == frags
    decreases |frags|
  {
    if frags != [] {
      var init := frags[..|frags| - 1];
      ExpandFragmentsOfFiles(init, split, walkOpts, fs);
      assert frags == init + [frags[|frags| - 1]];
    }
  }

  /** A list read from a source is the list of its delimiter-terminated
      prefix followed by the list of the rest. */
  lemma ReaderAppend(a: seq<byte>, b: seq<byte>, split: byte, walkOpts: Option<WalkDirOptions>, fs: FileSystem)
    requires a == [] || a[|a| - 1] == split
    ensures Expansion(Reader(a + b), split, walkOpts, fs)
            == Expansion(Reader(a), split, walkOpts, fs) + Expansion(Reader(b), split, walkOpts, fs)
  {
    FragmentsAppend(a, b, split);
    ExpandFragmentsAppend(Fragments(a, split), Fragments(b, split), split, walkOpts, fs);
  }

  /** Without walk options every path an expansion yields is a regular file:
      directories, missing paths and empty fragments are silently dropped. */
  lemma NoWalkYieldsFiles(arg: Argument, split: byte, fs: FileSystem, p: Walk.Path)
    requires p in Expansion(arg, split, None, fs)
    ensures fs.isFile(p)
  {
    match arg
    case Path(root) =>
    case Reader(input) =>
      ExpandFragmentsMember(Fragments(input, split), split, None, fs, p);
  }
}
