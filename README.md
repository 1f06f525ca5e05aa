# filelist: a Dafny model of the argument-expansion engine

`filelist` turns a list of command-line tokens into a flat, ordered list of
regular-file paths. A token is a path, or the sentinel `-`, which means "read
delimiter-separated paths from standard input here". With a walk
configuration, directories are walked recursively and their regular files
are listed. This project models the library half, `src/lib.rs`, and proves
properties of the model:

- `bytes.dfy` (`Bytes`): the `u8` byte type, and the UTF-8 check that
  `OsStr::to_str` applies to a Unix `OsString`.
- `delimiter.dfy` (`Delimiter`): the `Split` enum, its conversion to a byte,
  and parsing a delimiter token.
- `walk.dfy` (`Walk`): `WalkDirOptions`, its defaults and its builder
  setters. It also holds the filesystem, as two oracle functions: `isFile`,
  and `walk(options, root)`, the entries a traversal yields in order.
- `argument.dfy` (`Arguments`): `Argument` (`Reader` or `Path`). It has the
  splitting that `BufRead::split` performs, the expansion as functions, and
  `Expand`, the method that computes it with the source's loops and one
  level of recursion.
- `batch.dfy` (`Batch`): `expand_arguments`, and `expand_osstr`, which
  classifies tokens, records the first `-` and inserts the standard-input
  `Reader` at that index.
- `scenarios.dfy` (`Scenarios`): concrete cases. One is the tokens
  `a.txt - b.txt` with standard input `c.txt\nd.txt\n`. Others cover a
  second `-`, an empty fragment and a multi-byte character as delimiter.

Modelling choices:

- A `Reader` is modelled by the bytes it yields up to end of input.
- Paths and tokens are byte sequences, as `OsString` and `PathBuf` are on
  Unix.
- The filesystem (`Path::is_file`, and jwalk's traversal built by
  `WalkDirOptions::build`) is a parameter of type `FileSystem`. The results
  are stated for every filesystem.
- `usize` is the 64-bit range.
- `expand_arguments` and `expand_osstr` take `split: T` with `T: Into<u8>`.
  The model takes the already converted byte.
- The methods `Expand`, `ExpandArguments` and `ExpandOsStr` keep the
  source's loops. Each is proved equal to a specification function
  (`Expansion`, `ExpandAll`, `ExpandAll(Classify(..))`), and the lemmas state
  what those functions mean.
- The output is a sequence of paths. So a `Reader` can never appear in it,
  by construction, as in the source's `Vec<PathBuf>`.

Two details of the code's behaviour are easy to miss:

- Reading list input follows `BufRead::split`. A final delimiter produces no
  trailing empty fragment. A trailing run without a delimiter is yielded.
  Adjacent delimiters produce an empty fragment
  (`Arguments.FragmentsJoin`, `Scenarios.EmptyFragmentDropped`).
- A one-byte delimiter token is accepted only when it is valid text, that
  is, an ASCII byte. A lone byte of 0x80 or more fails `to_str` and is
  rejected (`Delimiter.ParseSingleByte`).

## Model

| member | source | states |
|---|---|---|
| `Bytes.ValidUtf8` | src/lib.rs:131 | the check `to_str` applies: well-formed UTF-8 by the Unicode byte-sequence table; on one byte characterised by `Bytes.SingleByteUtf8` |
| `Bytes.SingleByteUtf8` | src/lib.rs:131 | a one-byte token is text exactly when its byte is below 0x80 |
| `Delimiter.FromByte` | src/lib.rs:141-146 | the one-byte branch yields a canonical delimiter (named bytes never wrapped in `Other`) whose byte is the input byte |
| `Delimiter.Parse` | src/lib.rs:127-147 | parsing succeeds exactly for valid text that is one of the three escapes or exactly one byte; the result is canonical; a one-byte token converts back to its byte |
| `Delimiter.ToByte` | src/lib.rs:116-125 | the `From<Split> for u8` conversion; pinned down by `Delimiter.NamedBytes` and inverted by `Delimiter.FromByte` (`Delimiter.ByteRoundTrip`) |
| `Delimiter.NamedBytes` | src/lib.rs:116-125 | Newline is 0x0A, Null 0x00, Tab 0x09, `Other(x)` is x |
| `Delimiter.ByteRoundTrip` | src/lib.rs:116-146 | delimiter to byte to delimiter is the identity on canonical delimiters |
| `Delimiter.ParseEscapes` | src/lib.rs:132-136 | the two-character tokens backslash-n, backslash-t, backslash-0 parse to Newline, Tab, Null |
| `Delimiter.ParseSingleByte` | src/lib.rs:138-146 | a one-byte token parses iff ASCII, converts back to the same byte, and is `Other(b)` unless b is 0x0A, 0x00 or 0x09 |
| `Delimiter.ParseRejects` | src/lib.rs:138-140 | valid text whose byte length is not 1 and that is no escape is rejected |
| `Walk.Default` | src/lib.rs:19-30 | defaults: no sort, min depth 0, max depth usize::MAX, skip hidden, do not follow links, Rayon default pool |
| `Walk.WithSort` | src/lib.rs:33-36 | sets `sort`; every other field unchanged |
| `Walk.WithMinDepth` | src/lib.rs:38-41 | sets `min_depth`; every other field unchanged |
| `Walk.WithMaxDepth` | src/lib.rs:43-46 | sets `max_depth`; every other field unchanged |
| `Walk.WithSkipHidden` | src/lib.rs:48-51 | sets `skip_hidden`; every other field unchanged |
| `Walk.WithFollowLinks` | src/lib.rs:53-56 | sets `follow_links`; every other field unchanged |
| `Walk.WithParallelism` | src/lib.rs:58-61 | sets `parallelism`; every other field unchanged |
| `Walk.BuilderReachesAll` | src/lib.rs:19-61 | every option set is the defaults with each setter applied once |
| `Arguments.IndexOf` | src/lib.rs:84 | the position of the first delimiter, or the length when there is none |
| `Arguments.Fragments` | src/lib.rs:84 | the pieces `BufRead::split` yields; characterised by `Arguments.FragmentsExcludeDelimiter`, `Arguments.FragmentsJoin` and `Arguments.FragmentsUnique` |
| `Arguments.FragmentsExcludeDelimiter` | src/lib.rs:84-85 | no fragment contains the delimiter byte |
| `Arguments.FragmentsJoin` | src/lib.rs:84 | the fragments, each followed by the delimiter, rejoin to the input with a final delimiter added only if it had none, so no trailing empty fragment and no lost trailing run |
| `Arguments.FragmentsUnique` | src/lib.rs:84 | any delimiter-free pieces that rejoin to the input are exactly the fragments |
| `Arguments.FragmentsAppend` | src/lib.rs:84 | the fragments of a delimiter-terminated prefix followed by more input are the prefix's fragments then the rest's |
| `Arguments.FragmentsOfLine` | src/lib.rs:84 | a delimiter-free line plus the delimiter is one fragment |
| `Arguments.FragmentsOfRun` | src/lib.rs:84 | a non-empty undelimited run is yielded whole |
| `Arguments.ExpandPath` | src/lib.rs:89-101 | the `Path` branch; characterised by `Arguments.ExpandPathMember` and `Arguments.FileEntriesAppend` |
| `Arguments.ExpandFragments` | src/lib.rs:84-87 | each fragment expanded as a `Path`, results concatenated in fragment order; characterised by `Arguments.ExpandFragmentsAppend`, `Arguments.ExpandFragmentsMember` and `Arguments.ExpandFragmentsOfFiles` |
| `Arguments.Expansion` | src/lib.rs:80-105 | `Argument::expand`; computed by `Arguments.Expand` and characterised by `Arguments.ReaderMember`, `Arguments.ReaderAppend`, `Arguments.ExpandPathMember` and `Arguments.NoWalkYieldsFiles` |
| `Arguments.Expand` | src/lib.rs:80-105 | the method returns exactly `Expansion`: a `Reader` expands each fragment as a `Path` in order; a `Path` yields itself when a file, else its walk's regular files, else nothing |
| `Arguments.FileEntriesMember` | src/lib.rs:94-100 | a path is in the filtered walk exactly when the walk yields it as a regular-file entry |
| `Arguments.FileEntriesAppend` | src/lib.rs:94-100 | filtering keeps walk order (it distributes over concatenation) |
| `Arguments.ExpandPathMember` | src/lib.rs:89-101 | regular file gives exactly `[root]` whatever the options; not a file without options gives `[]`; not a file with options: a path is in the result exactly when the walk yields it as a regular-file entry (walk order is kept, by `Arguments.FileEntriesAppend`) |
| `Arguments.ExpandFragmentsAppend` | src/lib.rs:84-87 | expanding fragments distributes over concatenation (results in fragment order) |
| `Arguments.ExpandFragmentsMember` | src/lib.rs:84-87 | a path comes out of a fragment list exactly when it comes out of one fragment's `Path` expansion |
| `Arguments.ExpandFragmentsOfFiles` | src/lib.rs:84-92 | fragments that all name regular files expand to themselves |
| `Arguments.ReaderMember` | src/lib.rs:83-88 | a path comes out of a `Reader` exactly when it comes out of one of its delimiter-free fragments expanded as a `Path` |
| `Arguments.ReaderAppend` | src/lib.rs:83-88 | a `Reader` over a delimiter-terminated prefix plus more input yields the prefix's results then the rest's |
| `Arguments.NoWalkYieldsFiles` | src/lib.rs:89-102 | without walk options every yielded path is a regular file (missing paths, directories, empty fragments are dropped) |
| `Batch.FlattenAppend` | src/lib.rs:156-159 | flattening distributes over concatenation |
| `Batch.ExpandAll` | src/lib.rs:156-159 | `map`, `flatten`, `collect` over the arguments; computed by `Batch.ExpandArguments` and characterised by `Batch.ExpandAllAppend` and `Batch.ExpandAllOne` |
| `Batch.ExpandAllAppend` | src/lib.rs:156-159 | argument lists expand piecewise, in argument order |
| `Batch.ExpandAllOne` | src/lib.rs:156-159 | a one-argument list expands to that argument's expansion |
| `Batch.ExpandArguments` | src/lib.rs:150-160 | the method returns the in-order concatenation of each argument's expansion |
| `Batch.FirstDash` | src/lib.rs:168-175 | the recorded index is that of a `-`, with no `-` before it; none is recorded exactly when there is no `-` |
| `Batch.FirstDashAt` | src/lib.rs:170-175 | the first `-` at k is what is recorded |
| `Batch.PathArgs` | src/lib.rs:170-177 | the `Path`s pushed by the scan; characterised by `Batch.PathArgsAppend`, `Batch.PathArgsNoDash`, `Batch.PathArgsMember` and `Batch.PathArgsSkipDash` |
| `Batch.PathArgsAppend` | src/lib.rs:170-177 | the pushed `Path`s of a concatenation are those of each part, in order |
| `Batch.PathArgsNoDash` | src/lib.rs:170-177 | with no `-`, token i becomes `Path` i |
| `Batch.PathArgsMember` | src/lib.rs:170-177 | the pushed arguments are exactly `Path`s of the non-sentinel tokens, never a `Reader` |
| `Batch.PathArgsSkipDash` | src/lib.rs:171-177 | a `-` contributes no pushed argument |
| `Batch.FirstDashBound` | src/lib.rs:179-181 | the recorded index never exceeds the number of pushed arguments, so the insert cannot panic |
| `Batch.Classify` | src/lib.rs:167-181 | the argument list after the insert; characterised by `Batch.ClassifyLayout`, `Batch.ClassifyReaders` and `Batch.FirstDashBound` |
| `Batch.ExpandOsStr` | src/lib.rs:162-186 | the method returns the expansion of the `Path`s with the standard-input `Reader` inserted at the first `-` index (the bound is checked at the insert) |
| `Batch.ClassifyLayout` | src/lib.rs:167-181 | the list is: tokens before the first `-` as `Path`s at their own positions, the `Reader` at that index, then the later non-sentinel tokens (later `-` dropped); without `-` just the `Path`s |
| `Batch.ClassifyReaders` | src/lib.rs:171-181 | position i holds a `Reader` exactly when i is the first `-` index, so standard input is read at most once |
| `Batch.ExpandFilesInOrder` | src/lib.rs:170-182 | tokens that all name regular files expand to themselves, in order |
| `Batch.StdinExpandsInPlace` | src/lib.rs:179-185 | the output is what the tokens before the first `-` yield, then what standard input yields, then what the later tokens yield |
| `Scenarios.MultiByteCharacterRejected` | src/lib.rs:131-140 | `é` is valid text of two bytes and is rejected as a delimiter |
| `Scenarios.StdinInPlaceExample` | src/lib.rs:162-186 | `a.txt - b.txt` with input `c.txt\nd.txt\n`, all files, gives `a.txt c.txt d.txt b.txt` |
| `Scenarios.SecondDashDropped` | src/lib.rs:171-181 | `- a.txt -` classifies to the `Reader` then `a.txt` only |
| `Scenarios.AdjacentDelimiters` | src/lib.rs:84 | `a.txt\n\nb.txt` splits into `a.txt`, the empty fragment, `b.txt` |
| `Scenarios.EmptyFragmentDropped` | src/lib.rs:84-92 | that empty fragment is no file and, without recursion, yields nothing |

## Left out

- `example/src/main.rs`, the command-line front end, is not modelled. It
  covers flag parsing, opening `--from-file` list files, and printing paths
  with string coercion.
- jwalk is not modelled: neither `WalkDirOptions::build` nor the traversal.
  Depth bounds, hidden-entry skipping, link following, sorting and
  `Parallelism` thread pools are its behaviour. The walk is the oracle
  `FileSystem.walk`, so results about sorted or unsorted walks and hidden
  files are outside the model.
- `Walk.Parallelism` keeps the variants of jwalk's enum, the thread count
  of a new pool, and an opaque handle for an existing pool. Pools and timeouts are concurrency
  and are not modelled.
- Real filesystem queries (`is_file`) are the oracle `FileSystem.isFile`.
  A walk entry's file type is the `isFile` flag of its `DirEntry`.
- I/O is not modelled: reading standard input or a reader happens before
  expansion, as a given byte sequence. The interleaving of reads with
  expansion is not captured.
- Errors are not modelled: the `unwrap` panics on read errors and walk
  errors (src/lib.rs:85, 95).
- The ownership and lifetime of the standard-input handle are not
  modelled. A single `Reader` over the given input stands for it.
- The placeholder unit test (src/lib.rs:188-195) is omitted.
