/**
 * The encoder and the decoder together: decoding what `CompressBFS` produced
 * writes every archived file back under its relative path, in walk order,
 * and nothing else.
 */
module BfsRoundTrip {
  import opened Wrappers
  import opened Bytes
  import opened BfsFormat
  import opened BfsEncoder
  import opened BfsDecoder

  /** The writes that restore `files`: each relative path with its original contents, in order. */
  function FileWrites(files: seq<SourceFile>): (ws: seq<Write>)
    ensures |ws| == |files|
  {
    seq(|files|, i requires 0 <= i < |files| => Write(files[i].relativePath, files[i].contents))
  }

  /**
   * The largest payload length plus one that a reading takes in full: any
   * value of the length field for the checked reading, but only values below
   * 2^31 for the legacy one, whose `(int)` cast turns larger ones negative.
   */
  function PayloadLimit(reading: Reading): (n: nat)
    ensures n <= Uint32Limit
  {
    match reading
    case Checked => Uint32Limit
    case AsWritten => Int32Limit
  }

  /** Files the archive can carry unchanged: portable paths and compressed sizes that the reading takes in full. */
  predicate Archivable(files: seq<SourceFile>, codec: Codec, reading: Reading)
  {
    forall f | f in files :: PortablePath(f.relativePath) && |codec.compress(f.contents)| < PayloadLimit(reading)
  }

  /** An archivable file's entry is well formed, and its path reads back as the relative path. */
  lemma {:induction false} EncodedEntryReadsBack(f: SourceFile, codec: Codec)
    requires PortablePath(f.relativePath) && |codec.compress(f.contents)| < Uint32Limit
    ensures WellFormed(EncodeFile(f, codec))
    ensures Latin1(EncodeFile(f, codec).path) == f.relativePath
  {
    AsciiRoundTrip(f.relativePath);
  }

  /**
   * Decoding the entries of archivable files, wherever they start, writes
   * each file back in order and stops without an error at the end.
   */
  lemma {:induction false} DecodeEncodedFiles(pre: seq<byte>, files: seq<SourceFile>, codec: Codec, reading: Reading)
    requires Inverse(codec) && Archivable(files, codec, reading)
    ensures DecodeFrom(pre + Serialize(EncodeFiles(files, codec)), |pre|, codec, reading)
         == Outcome(FileWrites(files), None)
    decreases |files|
  {
    var body := pre + Serialize(EncodeFiles(files, codec));
    if files == [] {
      assert EncodeFiles(files, codec) == [];
      assert body == pre;
    } else {
      var f := files[0];
      var e := EncodeFile(f, codec);
      var post := Serialize(EncodeFiles(files[1..], codec));
      var pre' := pre + EntryBytes(e);
      EncodedSplit(pre, files, codec);
      assert f in files;
      FirstFileWritten(pre, f, post, body, |pre'|, codec, reading);
      ArchivableTail(files, codec, reading);
      DecodeEncodedFiles(pre', files[1..], codec, reading);
      FileWritesFirst(files);
    }
  }

  lemma {:induction false} FileWritesFirst(files: seq<SourceFile>)
    requires files != []
    ensures FileWrites(files) == [Write(files[0].relativePath, files[0].contents)] + FileWrites(files[1..])
  {
    var ws := [Write(files[0].relativePath, files[0].contents)] + FileWrites(files[1..]);
    forall j | 0 <= j < |files|
      ensures FileWrites(files)[j] == ws[j]
    {
      if j > 0 {
        assert files[1..][j - 1] == files[j];
      }
    }
  }

  /** The entries of a non-empty list of files: the first file's entry, then the others'. */
  lemma {:induction false} EncodedSplit(pre: seq<byte>, files: seq<SourceFile>, codec: Codec)
    requires files != []
    ensures var e := EncodeFile(files[0], codec);
      var post := Serialize(EncodeFiles(files[1..], codec));
      pre + Serialize(EncodeFiles(files, codec)) == pre + EntryBytes(e) + post
      && pre + Serialize(EncodeFiles(files, codec)) == (pre + EntryBytes(e)) + post
  {
    var es := EncodeFiles(files, codec);
    assert EncodeFiles(files[1..], codec) == es[1..];
    assert Serialize(es) == EntryBytes(es[0]) + Serialize(es[1..]);
  }

  lemma {:induction false} ArchivableTail(files: seq<SourceFile>, codec: Codec, reading: Reading)
    requires files != [] && Archivable(files, codec, reading)
    ensures Archivable(files[1..], codec, reading)
  {
    forall f | f in files[1..]
      ensures f in files
    {
      var j :| 0 <= j < |files[1..]| && files[1..][j] == f;
      assert files[j + 1] == f;
    }
  }

  /** The first entry of an archivable file is parsed, decompressed and written back as that file. */
  lemma {:induction false} FirstFileWritten(pre: seq<byte>, f: SourceFile, post: seq<byte>, body: seq<byte>, next: nat,
                                            codec: Codec, reading: Reading)
    requires Inverse(codec) && PortablePath(f.relativePath) && |codec.compress(f.contents)| < PayloadLimit(reading)
    requires body == pre + EntryBytes(EncodeFile(f, codec)) + post && next == |pre| + |EntryBytes(EncodeFile(f, codec))|
    ensures next <= |body|
    ensures DecodeFrom(body, |pre|, codec, reading)
         == Prepend([Write(f.relativePath, f.contents)], DecodeFrom(body, next, codec, reading))
  {
    var e := EncodeFile(f, codec);
    EncodedEntryReadsBack(f, codec);
    EntryParsesWithin(pre, e, post, body, next);
    if reading == AsWritten {
      ParseEntryAsWritten(body, |pre|);
    }
    EntryWritten(body, |pre|, codec, reading, e, next, f.contents);
  }

  /**
   * Round trip: decoding the archive of a walk succeeds and writes exactly
   * the files the ignore list lets through, with their original contents,
   * in walk order. This holds for the legacy reading too, as long as every
   * compressed size is below 2^31.
   */
  lemma {:induction false} RoundTrip(walk: seq<SourceFile>, ignore: seq<string>, codec: Codec, reading: Reading)
    requires Inverse(codec) && Archivable(Included(walk, ignore), codec, reading)
    ensures DecodeWith(Archive(walk, ignore, codec), codec, reading) == Outcome(FileWrites(Included(walk, ignore)), None)
  {
    var bfs := Archive(walk, ignore, codec);
    var entries := Serialize(EncodeFiles(Included(walk, ignore), codec));
    SignedBody(entries);
    DecodeBody(bfs, codec, reading);
    assert entries == [] + entries;
    DecodeEncodedFiles([], Included(walk, ignore), codec, reading);
  }

  /**
   * After extracting an archive into a folder, an archived file that no later
   * archived file shares a path with holds its original contents.
   */
  lemma {:induction false} ExtractedFileRestored(folder: map<string, seq<byte>>, walk: seq<SourceFile>, ignore: seq<string>,
                                                 codec: Codec, i: nat)
    requires Inverse(codec) && Archivable(Included(walk, ignore), codec, Checked)
    requires var files := Included(walk, ignore);
      i < |files| && forall j | i < j < |files| :: files[j].relativePath != files[i].relativePath
    ensures var files := Included(walk, ignore);
      var after := ApplyWrites(folder, Decode(Archive(walk, ignore, codec), codec).writes);
      files[i].relativePath in after && after[files[i].relativePath] == files[i].contents
  {
    var files := Included(walk, ignore);
    RoundTrip(walk, ignore, codec, Checked);
    LastWriteWins(folder, FileWrites(files), i);
  }

  /** Extracting an archive leaves every path that no archived file has exactly as it was. */
  lemma {:induction false} OnlyArchivedPathsWritten(folder: map<string, seq<byte>>, walk: seq<SourceFile>, ignore: seq<string>,
                                                    codec: Codec, path: string)
    requires Inverse(codec) && Archivable(Included(walk, ignore), codec, Checked)
    requires forall f | f in Included(walk, ignore) :: f.relativePath != path
    ensures var after := ApplyWrites(folder, Decode(Archive(walk, ignore, codec), codec).writes);
      (path in after <==> path in folder) && (path in folder ==> after[path] == folder[path])
  {
    var files := Included(walk, ignore);
    RoundTrip(walk, ignore, codec, Checked);
    var ws := FileWrites(files);
    forall j | 0 <= j < |ws|
      ensures ws[j].path != path
    {
      assert files[j] in files;
    }
    UnwrittenPathUnchanged(folder, ws, path);
  }

  /**
   * The converse: a body the decoder reads to the end without an error is
   * nothing but well-formed entries laid end to end.
   */
  lemma {:induction false} AcceptedIsSerialization(body: seq<byte>, cur: nat, codec: Codec)
    requires cur <= |body| && DecodeFrom(body, cur, codec, Checked).error.None?
    ensures exists es: seq<Entry> :: (forall e | e in es :: WellFormed(e)) && body[cur..] == Serialize(es)
  {
    var es := AcceptedEntries(body, cur, codec);
  }

  /** The entries a body accepted from `cur` on is made of. */
  lemma {:induction false} AcceptedEntries(body: seq<byte>, cur: nat, codec: Codec) returns (es: seq<Entry>)
    requires cur <= |body| && DecodeFrom(body, cur, codec, Checked).error.None?
    ensures (forall e | e in es :: WellFormed(e)) && body[cur..] == Serialize(es)
    decreases |body| - cur
  {
    if cur == |body| {
      es := [];
      assert body[cur..] == Serialize(es);
    } else {
      AcceptedStep(body, cur, codec);
      var p := ParseEntry(body, cur, Checked).value;
      var next := p.next;
      ParsedIsEntryBytes(body, cur);
      var rest := AcceptedEntries(body, next, codec);
      es := [p.value] + rest;
      SerializeCons(p.value, rest);
      SuffixSplit(body, cur, next);
    }
  }

  /** An entry the decoder accepted is parsed, and decoding goes on without an error after it. */
  lemma {:induction false} AcceptedStep(body: seq<byte>, cur: nat, codec: Codec)
    requires cur < |body| && DecodeFrom(body, cur, codec, Checked).error.None?
    ensures ParseEntry(body, cur, Checked).Ok?
    ensures DecodeFrom(body, ParseEntry(body, cur, Checked).value.next, codec, Checked).error.None?
  {
  }

  lemma {:induction false} SuffixSplit(s: seq<byte>, a: nat, b: nat)
    requires a <= b <= |s|
    ensures s[a..] == s[a..b] + s[b..]
  {
  }

  lemma {:induction false} SerializeCons(e: Entry, es: seq<Entry>)
    ensures Serialize([e] + es) == EntryBytes(e) + Serialize(es)
  {
    assert ([e] + es)[1..] == es;
  }
}
