/** Concrete behaviours of the expansion engine, on small inputs. */
module Scenarios {
  import opened Bytes
  import opened Delimiter
  import opened Walk
  import opened Arguments
  import opened Batch

  const NL: byte := 0x0A
  const A_TXT: Walk.Path := [0x61, 0x2E, 0x74, 0x78, 0x74]
  const B_TXT: Walk.Path := [0x62, 0x2E, 0x74, 0x78, 0x74]
  const C_TXT: Walk.Path := [0x63, 0x2E, 0x74, 0x78, 0x74]
  const D_TXT: Walk.Path := [0x64, 0x2E, 0x74, 0x78, 0x74]

  /** `é` is one character but two bytes of UTF-8, so it is no delimiter. */
  lemma MultiByteCharacterRejected()
    ensures ValidUtf8([0xC3, 0xA9]) && Parse([0xC3, 0xA9]) == Err
  {
  }

  /** Tokens `a.txt - b.txt` with standard input `c.txt\nd.txt\n`, all four
      regular files, no recursion: standard input expands in place, and its
      final newline adds no empty fragment. */
  lemma StdinInPlaceExample(fs: FileSystem, walkOpts: Option<WalkDirOptions>)
    requires fs.isFile(A_TXT) && fs.isFile(B_TXT) && fs.isFile(C_TXT) && fs.isFile(D_TXT)
    ensures ExpandAll(Classify([A_TXT, DASH, B_TXT], C_TXT + [NL] + D_TXT + [NL]), NL, walkOpts, fs)
            == [A_TXT, C_TXT, D_TXT, B_TXT]
  {
    var strs := [A_TXT, DASH, B_TXT];
    var stdin := C_TXT + [NL] + D_TXT + [NL];
    DashAtOne();
    ExpandFilesInOrder([A_TXT], NL, walkOpts, fs);
    ExpandFilesInOrder([B_TXT], NL, walkOpts, fs);
    StdinLines();
    ExpandFragmentsOfFiles([C_TXT, D_TXT], NL, walkOpts, fs);
    StdinExpandsInPlace(strs, stdin, NL, walkOpts, fs);
  }

  lemma DashAtOne()
    ensures FirstDash([A_TXT, DASH, B_TXT]) == Some(1)
    ensures [A_TXT, DASH, B_TXT][..1] == [A_TXT] && [A_TXT, DASH, B_TXT][2..] == [B_TXT]
  {
  }

  lemma StdinLines()
    ensures Fragments(C_TXT + [NL] + D_TXT + [NL], NL) == [C_TXT, D_TXT]
  {
    FragmentsOfLine(C_TXT, NL);
    FragmentsOfLine(D_TXT, NL);
    assert C_TXT + [NL] + D_TXT + [NL] == (C_TXT + [NL]) + (D_TXT + [NL]);
    FragmentsAppend(C_TXT + [NL], D_TXT + [NL], NL);
  }

  /** A second sentinel contributes nothing: standard input is read once. */
  lemma SecondDashDropped(stdin: seq<byte>)
    ensures Classify([DASH, A_TXT, DASH], stdin) == [Reader(stdin), Path(A_TXT)]
  {
    var strs := [DASH, A_TXT, DASH];
    FirstDashAt(strs, 0);
    ClassifyLayout(strs, stdin);
    assert strs[1..] == [A_TXT, DASH];
    var rest := [A_TXT, DASH];
    assert rest[..1] == [A_TXT] && [A_TXT][..0] == [];
    assert PathArgs(rest) == [Path(A_TXT)];
    assert PathArgs(strs[..0]) == [] by { assert strs[..0] == []; }
  }

  /** Adjacent delimiters give an empty fragment, which is no regular file
      and, without recursion, yields nothing. */
  lemma EmptyFragmentDropped(fs: FileSystem)
    requires fs.isFile(A_TXT) && fs.isFile(B_TXT) && !fs.isFile([])
    ensures Fragments(A_TXT + [NL] + [NL] + B_TXT, NL) == [A_TXT, [], B_TXT]
    ensures Expansion(Reader(A_TXT + [NL] + [NL] + B_TXT), NL, None, fs) == [A_TXT, B_TXT]
  {
    AdjacentDelimiters();
    var frags: seq<seq<byte>> := [A_TXT, [], B_TXT];
    assert frags == [A_TXT, []] + [B_TXT];
    assert [A_TXT, []] == [A_TXT] + [[]];
    ExpandFragmentsAppend([A_TXT, []], [B_TXT], NL, None, fs);
    ExpandFragmentsAppend([A_TXT], [[]], NL, None, fs);
    ExpandFragmentsOfFiles([A_TXT], NL, None, fs);
    ExpandFragmentsOfFiles([B_TXT], NL, None, fs);
    var empty: seq<seq<byte>> := [[]];
    assert ExpandFragments(empty, NL, None, fs) == [] by { assert empty[..0] == []; }
  }

  lemma AdjacentDelimiters()
    ensures Fragments(A_TXT + [NL] + [NL] + B_TXT, NL) == [A_TXT, [], B_TXT]
  {
    var line := A_TXT + [NL];
    FragmentsOfLine(A_TXT, NL);
    FragmentsOfLine([], NL);
    assert [] + [NL] == [NL];
    FragmentsAppend(line, [NL], NL);
    FragmentsAppend(line + [NL], B_TXT, NL);
    FragmentsOfRun(B_TXT, NL);
  }

}
