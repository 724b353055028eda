/**
 * The archive encoder (`CompressBFS`): the signature, then one entry per
 * enumerated file that the ignore list does not name, in enumeration order.
 */
module BfsEncoder {
  import opened Wrappers
  import opened Bytes
  import opened BfsFormat

  /**
   * One file produced by the directory walk: the path as enumerated (what the
   * ignore list is matched against), the path relative to the archived folder
   * (what is written into the archive), and the file's bytes.
   */
  datatype SourceFile = SourceFile(enumeratedPath: string, relativePath: string, contents: seq<byte>)

  /**
   * The lines of the ignore file when it is enabled and present, no line
   * otherwise; `ignoreFile` is `None` when the file does not exist.
   */
  function IgnoreList(useIgnoreFile: bool, ignoreFile: Option<seq<string>>): (lines: seq<string>)
    ensures useIgnoreFile && ignoreFile.Some? ==> lines == ignoreFile.value
    ensures !useIgnoreFile || ignoreFile.None? ==> lines == []
  {
    if useIgnoreFile && ignoreFile.Some? then ignoreFile.value else []
  }

  /** The enumerated files whose enumerated path is not a line of the ignore list, in walk order. */
  function Included(walk: seq<SourceFile>, ignore: seq<string>): (r: seq<SourceFile>)
    ensures |r| <= |walk|
  {
    if walk == [] then []
    else
      var last := walk[|walk| - 1];
      Included(walk[..|walk| - 1], ignore) + (if last.enumeratedPath in ignore then [] else [last])
  }

  /** A file is archived exactly when the walk enumerates it and the ignore list does not name it. */
  lemma {:induction false} IncludedMembers(walk: seq<SourceFile>, ignore: seq<string>)
    ensures forall f :: f in Included(walk, ignore) <==> f in walk && f.enumeratedPath !in ignore
  {
    if walk != [] {
      var init := walk[..|walk| - 1];
      IncludedMembers(init, ignore);
      assert walk == init + [walk[|walk| - 1]];
    }
  }

  /** The entry for one file: its relative path in ASCII and its compressed contents. */
  function EncodeFile(f: SourceFile, codec: Codec): (e: Entry)
    ensures |f.relativePath| <= |e.path| <= 2 * |f.relativePath|
    ensures e.payload == codec.compress(f.contents)
  {
    Entry(AsciiBytes(f.relativePath), codec.compress(f.contents))
  }

  function EncodeFiles(files: seq<SourceFile>, codec: Codec): (es: seq<Entry>)
    ensures |es| == |files|
  {
    seq(|files|, i requires 0 <= i < |files| => EncodeFile(files[i], codec))
  }

  /** The archive `CompressBFS` returns for a walk and an ignore list. */
  function Archive(walk: seq<SourceFile>, ignore: seq<string>, codec: Codec): (bfs: seq<byte>)
    ensures |bfs| >= |Signature| && bfs[..|Signature|] == Signature
  {
    Signature + Serialize(EncodeFiles(Included(walk, ignore), codec))
  }

  /** Archives a walk: grows the byte list one included file at a time. */
  method CompressBFS(walk: seq<SourceFile>, useIgnoreFile: bool, ignoreFile: Option<seq<string>>, codec: Codec)
    returns (bfs: seq<byte>)
    ensures bfs == Archive(walk, IgnoreList(useIgnoreFile, ignoreFile), codec)
    ensures bfs[..|Signature|] == Signature
  {
    var filesToIgnore := IgnoreList(useIgnoreFile, ignoreFile);
    bfs := Signature;
    for i := 0 to |walk|
      invariant bfs == Signature + Serialize(EncodeFiles(Included(walk[..i], filesToIgnore), codec))
    {
      var file := walk[i];
      EncodeStep(walk, i, filesToIgnore, codec);
      if file.enumeratedPath in filesToIgnore {
        continue;
      }
      ghost var before := bfs;
      bfs := bfs + AsciiBytes(file.relativePath);
      bfs := bfs + [NullTerminator];
      var compressedData := codec.compress(file.contents);
      bfs := bfs + Le32(UintCast(|compressedData|));
      bfs := bfs + compressedData;
      AppendFour(before, AsciiBytes(file.relativePath), [NullTerminator], Le32(UintCast(|compressedData|)), compressedData);
      AppendAssoc(Signature, Serialize(EncodeFiles(Included(walk[..i], filesToIgnore), codec)), EntryBytes(EncodeFile(file, codec)));
    }
    assert walk[..|walk|] == walk;
  }

  lemma {:induction false} AppendAssoc(a: seq<byte>, b: seq<byte>, c: seq<byte>)
    ensures (a + b) + c == a + (b + c)
  {
  }

  lemma {:induction false} AppendFour(a: seq<byte>, w: seq<byte>, x: seq<byte>, y: seq<byte>, z: seq<byte>)
    ensures a + w + x + y + z == a + (w + x + y + z)
  {
  }

  /** One more enumerated file appends its entry to the serialised entries, or nothing when ignored. */
  lemma {:induction false} EncodeStep(walk: seq<SourceFile>, i: nat, ignore: seq<string>, codec: Codec)
    requires i < |walk|
    ensures Serialize(EncodeFiles(Included(walk[..i + 1], ignore), codec))
         == Serialize(EncodeFiles(Included(walk[..i], ignore), codec))
            + if walk[i].enumeratedPath in ignore then [] else EntryBytes(EncodeFile(walk[i], codec))
  {
    assert walk[..i + 1][..i] == walk[..i];
    var before := Included(walk[..i], ignore);
    if walk[i].enumeratedPath !in ignore {
      assert Included(walk[..i + 1], ignore) == before + [walk[i]];
      assert EncodeFiles(before + [walk[i]], codec) == EncodeFiles(before, codec) + [EncodeFile(walk[i], codec)];
      SerializeAppend(EncodeFiles(before, codec), EncodeFile(walk[i], codec));
    } else {
      assert walk[..i + 1] == walk[..i] + [walk[i]];
      assert Included(walk[..i + 1], ignore) == before;
    }
  }

  lemma {:induction false} IncludedAppend(a: seq<SourceFile>, b: seq<SourceFile>, ignore: seq<string>)
    ensures Included(a + b, ignore) == Included(a, ignore) + Included(b, ignore)
    decreases |b|
  {
    if b == [] {
      assert a + b == a;
    } else {
      var b' := b[..|b| - 1];
      assert (a + b)[..|a + b| - 1] == a + b';
      IncludedAppend(a, b', ignore);
    }
  }

  lemma {:induction false} SerializeConcat(xs: seq<Entry>, ys: seq<Entry>)
    ensures Serialize(xs + ys) == Serialize(xs) + Serialize(ys)
    decreases |xs|
  {
    if xs == [] {
      assert xs + ys == ys;
    } else {
      assert (xs + ys)[1..] == xs[1..] + ys;
      SerializeConcat(xs[1..], ys);
    }
  }

  /** The archive of a walk split in two is the first half's archive followed by the second half's entries. */
  lemma {:induction false} ArchiveSplit(a: seq<SourceFile>, b: seq<SourceFile>, ignore: seq<string>, codec: Codec)
    ensures Archive(a + b, ignore, codec)
         == Archive(a, ignore, codec) + Serialize(EncodeFiles(Included(b, ignore), codec))
  {
    IncludedAppend(a, b, ignore);
    var x, y := Included(a, ignore), Included(b, ignore);
    assert EncodeFiles(x + y, codec) == EncodeFiles(x, codec) + EncodeFiles(y, codec);
    SerializeConcat(EncodeFiles(x, codec), EncodeFiles(y, codec));
  }

  /** Every archive starts with "BFS"; with no included file it is exactly "BFS". */
  lemma {:induction false} ArchiveSignature(walk: seq<SourceFile>, ignore: seq<string>, codec: Codec)
    ensures |Archive(walk, ignore, codec)| >= 3
    ensures Archive(walk, ignore, codec)[..3] == [66, 70, 83]
    ensures Included(walk, ignore) == [] <==> Archive(walk, ignore, codec) == [66, 70, 83]
  {
    var files := Included(walk, ignore);
    if files != [] {
      assert |Serialize(EncodeFiles(files, codec))| >= 5;
    }
  }

  /** A file whose enumerated path is a line of the ignore list contributes no byte. */
  lemma {:induction false} IgnoredFileContributesNothing(walk: seq<SourceFile>, i: nat, ignore: seq<string>, codec: Codec)
    requires i < |walk| && walk[i].enumeratedPath in ignore
    ensures Archive(walk[..i] + walk[i + 1..], ignore, codec) == Archive(walk, ignore, codec)
  {
    var x := walk[i];
    assert walk == walk[..i] + ([x] + walk[i + 1..]);
    IncludedAppend(walk[..i], [x] + walk[i + 1..], ignore);
    IncludedAppend([x], walk[i + 1..], ignore);
    IncludedAppend(walk[..i], walk[i + 1..], ignore);
    assert [x][..0] == [];
    assert Included([x], ignore) == [];
    assert Included([x] + walk[i + 1..], ignore) == Included(walk[i + 1..], ignore);
    assert Included(walk, ignore) == Included(walk[..i] + walk[i + 1..], ignore);
  }

  /**
   * Any other file contributes exactly its entry
   * `ascii(relativePath) ++ [0x00] ++ LE32(|c|) ++ c`, between the entries of
   * the files enumerated before it and those enumerated after it.
   */
  lemma {:induction false} IncludedFileContributesEntry(walk: seq<SourceFile>, i: nat, ignore: seq<string>, codec: Codec)
    requires i < |walk| && walk[i].enumeratedPath !in ignore
    ensures var c := codec.compress(walk[i].contents);
      Archive(walk, ignore, codec)
      == Archive(walk[..i], ignore, codec)
         + AsciiBytes(walk[i].relativePath) + [NullTerminator] + Le32(UintCast(|c|)) + c
         + Serialize(EncodeFiles(Included(walk[i + 1..], ignore), codec))
  {
    var x, before, after := walk[i], walk[..i], walk[i + 1..];
    var c := codec.compress(x.contents);
    var rest := Serialize(EncodeFiles(Included(after, ignore), codec));
    assert walk == (before + [x]) + after;
    ArchiveSplit(before + [x], after, ignore, codec);
    ArchiveSplit(before, [x], ignore, codec);
    SingleFileEntry(x, ignore, codec);
    AppendFourThen(Archive(before, ignore, codec), AsciiBytes(x.relativePath), [NullTerminator], Le32(UintCast(|c|)), c, rest);
  }

  /** The entries of a one-file walk whose file is not ignored are that file's entry. */
  lemma {:induction false} SingleFileEntry(x: SourceFile, ignore: seq<string>, codec: Codec)
    requires x.enumeratedPath !in ignore
    ensures Serialize(EncodeFiles(Included([x], ignore), codec)) == EntryBytes(EncodeFile(x, codec))
  {
    assert [x][..0] == [];
    assert Included([x], ignore) == [x];
    var e := EncodeFile(x, codec);
    assert EncodeFiles([x], codec) == [e];
    assert Serialize([e]) == EntryBytes(e) + Serialize([]);
  }

  lemma {:induction false} AppendFourThen(a: seq<byte>, w: seq<byte>, x: seq<byte>, y: seq<byte>, z: seq<byte>, t: seq<byte>)
    ensures a + (w + x + y + z) + t == a + w + x + y + z + t
  {
  }

  /** With the ignore file disabled or absent, every enumerated file is archived, in walk order. */
  lemma {:induction false} NoIgnoreFileKeepsEverything(walk: seq<SourceFile>, useIgnoreFile: bool, ignoreFile: Option<seq<string>>)
    requires !useIgnoreFile || ignoreFile.None?
    ensures Included(walk, IgnoreList(useIgnoreFile, ignoreFile)) == walk
  {
    if walk != [] {
      NoIgnoreFileKeepsEverything(walk[..|walk| - 1], useIgnoreFile, ignoreFile);
    }
  }
}
