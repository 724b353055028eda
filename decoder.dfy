/**
 * The archive decoder (`DecompressBFS`): checks the signature, then walks a
 * forward cursor over the rest of the archive, one entry per pass, and writes
 * each decompressed payload under its path.
 */
module BfsDecoder {
  import opened Wrappers
  import opened Bytes
  import opened BfsFormat

  /** One file write, in the order the decoder performs it. */
  datatype Write = Write(path: string, data: seq<byte>)

  /** The writes a decoding performs, and the error that stopped it, if any. */
  datatype Outcome = Outcome(writes: seq<Write>, error: Option<DecodeError>)

  function Prepend(ws: seq<Write>, o: Outcome): Outcome
  {
    Outcome(ws + o.writes, o.error)
  }

  /** The byte-by-byte signature comparison from position `i` on. */
  function CheckSignature(bfs: seq<byte>, i: nat): (r: Option<DecodeError>)
    requires i <= |Signature|
    decreases |Signature| - i
    ensures r.Some? ==> r.value.SignatureMismatch? || r.value.SignatureTruncated?
  {
    if i == |Signature| then None
    else if i >= |bfs| then Some(SignatureTruncated(i))
    else if bfs[i] != Signature[i] then Some(SignatureMismatch(i, Signature[i], bfs[i]))
    else CheckSignature(bfs, i + 1)
  }

  /** The signature check passes exactly when the archive starts with "BFS". */
  lemma {:induction false} CheckSignatureSound(bfs: seq<byte>, i: nat)
    requires i <= |Signature|
    requires |bfs| >= i && bfs[..i] == Signature[..i]
    ensures CheckSignature(bfs, i).None? <==> |bfs| >= |Signature| && bfs[..|Signature|] == Signature
    decreases |Signature| - i
  {
    if i < |Signature| && i < |bfs| && bfs[i] == Signature[i] {
      assert bfs[..i + 1] == bfs[..i] + [bfs[i]];
      assert Signature[..i + 1] == Signature[..i] + [Signature[i]];
      CheckSignatureSound(bfs, i + 1);
    } else if i < |Signature| && |Signature| <= |bfs| {
      assert bfs[..|Signature|][i] == bfs[i];
    }
  }

  /**
   * The entries from cursor `cur` to the end of the body: each pass parses one
   * entry, decompresses it and writes it; the loop ends when the cursor
   * reaches the end of the body, and stops at the first error.
   */
  function DecodeFrom(body: seq<byte>, cur: nat, codec: Codec, reading: Reading): (o: Outcome)
    requires cur <= |body|
    decreases |body| - cur
    ensures o.error.Some? && o.error.value.TruncatedPayload? ==> reading == Checked && o.error.value.declared > o.error.value.available
  {
    if cur == |body| then Outcome([], None)
    else
      match ParseEntry(body, cur, reading)
      case Err(e) => Outcome([], Some(e))
      case Ok(p) =>
        var path := Latin1(p.value.path);
        match codec.decompress(p.value.payload)
        case None => Outcome([], Some(CorruptPayload(path)))
        case Some(data) => Prepend([Write(path, data)], DecodeFrom(body, p.next, codec, reading))
  }

  /**
   * Decoding under either reading: the signature check, then the loop over
   * the rest. Nothing is written, and decoding does not finish cleanly,
   * unless the archive starts with "BFS".
   */
  function DecodeWith(bfs: seq<byte>, codec: Codec, reading: Reading): (o: Outcome)
    ensures o.writes != [] || o.error.None? ==> |bfs| >= |Signature| && bfs[..|Signature|] == Signature
    ensures o.error.Some? && o.error.value.TruncatedPayload? ==> reading == Checked && o.error.value.declared > o.error.value.available
  {
    CheckSignatureSound(bfs, 0);
    match CheckSignature(bfs, 0)
    case Some(e) => Outcome([], Some(e))
    case None => DecodeFrom(bfs[|Signature|..], 0, codec, reading)
  }

  /** What decoding an archive does, with every payload length checked against the bytes left. */
  function Decode(bfs: seq<byte>, codec: Codec): (o: Outcome)
    ensures o.error.Some? && o.error.value.TruncatedPayload? ==> o.error.value.declared > o.error.value.available
  {
    DecodeWith(bfs, codec, Checked)
  }

  /** What the legacy loop does: the payload is `Take((int)size)` of the bytes left, however few. */
  function DecodeAsWritten(bfs: seq<byte>, codec: Codec): (o: Outcome)
    ensures o.error.None? || !o.error.value.TruncatedPayload?
  {
    DecodeWith(bfs, codec, AsWritten)
  }

  /** The file map after performing the writes in order: a later write to a path replaces an earlier one. */
  function ApplyWrites(files: map<string, seq<byte>>, ws: seq<Write>): (r: map<string, seq<byte>>)
    ensures files.Keys <= r.Keys
    ensures forall w | w in ws :: w.path in r
  {
    if ws == [] then files
    else
      var last := ws[|ws| - 1];
      ApplyWrites(files, ws[..|ws| - 1])[last.path := last.data]
  }

  /** The output folder, as a map from relative path to file contents. */
  class FileSystem {
    var files: map<string, seq<byte>>

    constructor ()
      ensures files == map[]
    {
      files := map[];
    }

    /** `File.WriteAllBytes`: creates or overwrites one file. */
    method WriteAllBytes(path: string, data: seq<byte>)
      modifies this
      ensures files == old(files)[path := data]
    {
      files := files[path := data];
    }
  }

  /** Moves the cursor by `step` bytes (the progress bar it also ticks is not modelled). */
  method AdvanceCounter(counter: int, step: int) returns (advanced: int)
    ensures advanced - counter == step
  {
    advanced := counter + step;
  }

  /** Once the signature has matched, decoding is the loop over the rest of the archive. */
  lemma {:induction false} DecodeBody(bfs: seq<byte>, codec: Codec, reading: Reading)
    requires CheckSignature(bfs, 0).None?
    ensures |bfs| >= |Signature|
    ensures DecodeWith(bfs, codec, reading) == DecodeFrom(bfs[|Signature|..], 0, codec, reading)
  {
    CheckSignatureSound(bfs, 0);
  }

  /** A failed signature check ends decoding before any write. */
  lemma {:induction false} SignatureRejected(bfs: seq<byte>, codec: Codec)
    requires CheckSignature(bfs, 0).Some?
    ensures Decode(bfs, codec) == Outcome([], CheckSignature(bfs, 0))
  {
  }

  lemma {:induction false} PrependOne(ws: seq<Write>, w: Write, o: Outcome)
    ensures Prepend(ws, Prepend([w], o)) == Prepend(ws + [w], o)
  {
    assert ws + ([w] + o.writes) == (ws + [w]) + o.writes;
  }

  lemma {:induction false} PrependNothing(ws: seq<Write>, e: Option<DecodeError>)
    ensures Prepend(ws, Outcome([], e)) == Outcome(ws, e)
  {
    assert ws + [] == ws;
  }

  /** A pass that finds no NUL before the end of the body stops with a missing terminator. */
  lemma {:induction false} PathMissing(body: seq<byte>, start: nat, codec: Codec)
    requires start < |body| && NulFree(body[start..])
    ensures DecodeFrom(body, start, codec, Checked) == Outcome([], Some(MissingTerminator))
  {
    NoTerminator(body, start);
  }

  /**
   * A pass whose path ends just before `pathEnd` but which has fewer than 4
   * bytes left for the length stops there.
   */
  lemma {:induction false} LengthMissing(body: seq<byte>, start: nat, pathEnd: nat, codec: Codec)
    requires start < pathEnd <= |body| && body[pathEnd - 1] == NullTerminator && NulFree(body[start..pathEnd - 1])
    requires |body| - pathEnd < 4
    ensures DecodeFrom(body, start, codec, Checked) == Outcome([], Some(TruncatedLength(|body| - pathEnd)))
  {
    ReadPathAt(body, start, pathEnd - 1);
  }

  /** A pass whose declared length exceeds the bytes left stops there. */
  lemma {:induction false} PayloadMissing(body: seq<byte>, start: nat, pathEnd: nat, size: nat, codec: Codec)
    requires start < pathEnd && pathEnd + 4 <= |body| && body[pathEnd - 1] == NullTerminator && NulFree(body[start..pathEnd - 1])
    requires size == ReadLe32(body[pathEnd..pathEnd + 4]) && size > |body| - (pathEnd + 4)
    ensures DecodeFrom(body, start, codec, Checked) == Outcome([], Some(TruncatedPayload(size, |body| - (pathEnd + 4))))
  {
    var nul := pathEnd - 1;
    var error := TruncatedPayload(size, |body| - (pathEnd + 4));
    ReadPathAt(body, start, nul);
    assert ReadPath(body, start) == Ok(Parsed(body[start..nul], pathEnd));
    assert TakePayload(body, pathEnd + 4, size, Checked) == Err(error);
    assert ParseEntry(body, start, Checked) == Err(error);
  }

  /** A pass whose payload is all there but which the codec rejects stops there, before writing. */
  lemma {:induction false} PayloadRejected(body: seq<byte>, start: nat, pathEnd: nat, size: nat, codec: Codec)
    requires start < pathEnd && pathEnd + 4 <= |body| && body[pathEnd - 1] == NullTerminator && NulFree(body[start..pathEnd - 1])
    requires size == ReadLe32(body[pathEnd..pathEnd + 4]) && size <= |body| - (pathEnd + 4)
    requires codec.decompress(body[pathEnd + 4..pathEnd + 4 + size]).None?
    ensures DecodeFrom(body, start, codec, Checked) == Outcome([], Some(CorruptPayload(Latin1(body[start..pathEnd - 1]))))
  {
    ParseEntryAt(body, start, pathEnd, size);
  }

  /**
   * A pass that parses one entry whose payload decompresses to `data` writes
   * `data` under the entry's path; the loop goes on where the parse ended.
   */
  lemma {:induction false} EntryWritten(body: seq<byte>, start: nat, codec: Codec, reading: Reading, entry: Entry, next: nat, data: seq<byte>)
    requires start < |body| && ParseEntry(body, start, reading) == Ok(Parsed(entry, next))
    requires codec.decompress(entry.payload) == Some(data)
    ensures next <= |body|
    ensures DecodeFrom(body, start, codec, reading)
         == Prepend([Write(Latin1(entry.path), data)], DecodeFrom(body, next, codec, reading))
  {
  }

  /** The loop's invariant carries over one entry that was written. */
  lemma {:induction false} EntryStep(total: Outcome, writes: seq<Write>, body: seq<byte>, start: nat, pathEnd: nat, size: nat, codec: Codec,
                  path: string, data: seq<byte>, next: nat)
    requires start < pathEnd && pathEnd + 4 <= |body| && body[pathEnd - 1] == NullTerminator && NulFree(body[start..pathEnd - 1])
    requires size == ReadLe32(body[pathEnd..pathEnd + 4]) && size <= |body| - (pathEnd + 4)
    requires path == Latin1(body[start..pathEnd - 1])
    requires codec.decompress(body[pathEnd + 4..pathEnd + 4 + size]) == Some(data)
    requires total == Prepend(writes, DecodeFrom(body, start, codec, Checked))
    requires next == pathEnd + 4 + size
    ensures total == Prepend(writes + [Write(path, data)], DecodeFrom(body, next, codec, Checked))
  {
    var entry := Entry(body[start..pathEnd - 1], body[pathEnd + 4..pathEnd + 4 + size]);
    ParseEntryAt(body, start, pathEnd, size);
    EntryWritten(body, start, codec, Checked, entry, next, data);
    PrependOne(writes, Write(path, data), DecodeFrom(body, next, codec, Checked));
  }

  /**
   * Reads a path byte by byte, from `start` up to the first NUL. Reports
   * whether a NUL was found; if so, `next` is the position just past it.
   */
  method ReadRelativePath(body: seq<byte>, start: nat) returns (relativePath: string, terminated: bool, next: nat)
    requires start < |body|
    ensures terminated <==> ReadPath(body, start).Ok?
    ensures terminated ==> start < next <= |body| && body[next - 1] == NullTerminator
    ensures terminated ==> NulFree(body[start..next - 1]) && relativePath == Latin1(body[start..next - 1])
  {
    relativePath := "";
    var currentByte := start;
    while true
      invariant start <= currentByte <= |body|
      invariant NulFree(body[start..currentByte])
      invariant relativePath == Latin1(body[start..currentByte])
      decreases |body| - currentByte
    {
      if currentByte == |body| {
        assert body[start..currentByte] == body[start..];
        NoTerminator(body, start);
        return relativePath, false, currentByte;
      }
      // The byte representation of the current character.
      var charByte := body[currentByte];
      currentByte := AdvanceCounter(currentByte, 1);
      if charByte == NullTerminator {
        ReadPathAt(body, start, currentByte - 1);
        return relativePath, true, currentByte;
      }
      assert body[start..currentByte] == body[start..currentByte - 1] + [charByte];
      relativePath := relativePath + [charByte as int as char];
    }
  }

  /**
   * Extracts an archive into `fs`. Returns the error that stopped it, if any;
   * the files written before that error stay written.
   */
  method DecompressBFS(bfs: seq<byte>, codec: Codec, fs: FileSystem) returns (error: Option<DecodeError>)
    modifies fs
    ensures error == Decode(bfs, codec).error
    ensures fs.files == ApplyWrites(old(fs.files), Decode(bfs, codec).writes)
  {
    for i := 0 to |Signature|
      invariant CheckSignature(bfs, 0) == CheckSignature(bfs, i)
    {
      if i >= |bfs| {
        SignatureRejected(bfs, codec);
        return Some(SignatureTruncated(i));
      }
      if bfs[i] != Signature[i] {
        SignatureRejected(bfs, codec);
        return Some(SignatureMismatch(i, Signature[i], bfs[i]));
      }
    }
    DecodeBody(bfs, codec, Checked);
    error := ExtractEntries(bfs[|Signature|..], codec, fs);
  }

  /**
   * The extraction loop of `DecompressBFS` over the bytes after the signature:
   * one pass per entry, writing each file as soon as it is decompressed.
   */
  method ExtractEntries(body: seq<byte>, codec: Codec, fs: FileSystem) returns (error: Option<DecodeError>)
    modifies fs
    ensures error == DecodeFrom(body, 0, codec, Checked).error
    ensures fs.files == ApplyWrites(old(fs.files), DecodeFrom(body, 0, codec, Checked).writes)
  {
    ghost var total := DecodeFrom(body, 0, codec, Checked);
    ghost var writes: seq<Write> := [];
    var currentByte := 0;
    while currentByte < |body|
      invariant 0 <= currentByte <= |body|
      invariant total == Prepend(writes, DecodeFrom(body, currentByte, codec, Checked))
      invariant fs.files == ApplyWrites(old(fs.files), writes)
      decreases |body| - currentByte
    {
      ghost var start := currentByte;
      var relativePath, terminated;
      relativePath, terminated, currentByte := ReadRelativePath(body, currentByte);
      if !terminated {
        PrependNothing(writes, Some(MissingTerminator));
        return Some(MissingTerminator);
      }
      ghost var pathEnd := currentByte;

      // The 4-byte little-endian payload length.
      if |body| - currentByte < 4 {
        LengthMissing(body, start, pathEnd, codec);
        PrependNothing(writes, Some(TruncatedLength(|body| - currentByte)));
        return Some(TruncatedLength(|body| - currentByte));
      }
      var size := ReadLe32(body[currentByte..currentByte + 4]);
      currentByte := AdvanceCounter(currentByte, 4);

      // The payload, which must be there in full.
      if size > |body| - currentByte {
        PayloadMissing(body, start, pathEnd, size, codec);
        PrependNothing(writes, Some(TruncatedPayload(size, |body| - currentByte)));
        return Some(TruncatedPayload(size, |body| - currentByte));
      }
      var data := body[currentByte..currentByte + size];
      assert data == body[pathEnd + 4..pathEnd + 4 + size];
      var uncompressedData := codec.decompress(data);
      if uncompressedData.None? {
        PayloadRejected(body, start, pathEnd, size, codec);
        PrependNothing(writes, Some(CorruptPayload(relativePath)));
        return Some(CorruptPayload(relativePath));
      }
      currentByte := AdvanceCounter(currentByte, |data| - 1);

      fs.WriteAllBytes(relativePath, uncompressedData.value);
      currentByte := currentByte + 1;
      EntryStep(total, writes, body, start, pathEnd, size, codec, relativePath, uncompressedData.value, currentByte);
      writes := writes + [Write(relativePath, uncompressedData.value)];
    }
    PrependNothing(writes, None);
    return None;
  }

  /** The loop itself never reports a signature error. */
  lemma {:induction false} LoopErrorsAreFormatErrors(body: seq<byte>, cur: nat, codec: Codec, reading: Reading)
    requires cur <= |body|
    ensures var e := DecodeFrom(body, cur, codec, reading).error;
      e.Some? ==> !e.value.SignatureMismatch? && !e.value.SignatureTruncated?
    decreases |body| - cur
  {
    if cur < |body| {
      var r := ParseEntry(body, cur, reading);
      if r.Ok? && codec.decompress(r.value.value.payload).Some? {
        LoopErrorsAreFormatErrors(body, r.value.next, codec, reading);
      }
    }
  }

  /**
   * Decoding stops with a signature error exactly when the archive does not
   * start with "BFS" (also when it is shorter than 3 bytes), and then nothing
   * has been written.
   */
  lemma {:induction false} SignatureGate(bfs: seq<byte>, codec: Codec)
    ensures var o := Decode(bfs, codec);
      (o.error.Some? && (o.error.value.SignatureMismatch? || o.error.value.SignatureTruncated?))
      <==> !(|bfs| >= |Signature| && bfs[..|Signature|] == Signature)
    ensures !(|bfs| >= |Signature| && bfs[..|Signature|] == Signature) ==> Decode(bfs, codec).writes == []
  {
    CheckSignatureSound(bfs, 0);
    if CheckSignature(bfs, 0).None? {
      LoopErrorsAreFormatErrors(bfs[|Signature|..], 0, codec, Checked);
    }
  }

  /** The bare signature is a complete, empty archive. */
  lemma {:induction false} EmptyArchive(codec: Codec)
    ensures Decode(Signature, codec) == Outcome([], None)
  {
    assert CheckSignature(Signature, 0) == None by {
      CheckSignatureSound(Signature, 0);
    }
  }

  /** The last write to a path decides its contents. */
  lemma {:induction false} LastWriteWins(files: map<string, seq<byte>>, ws: seq<Write>, i: nat)
    requires i < |ws|
    requires forall j | i < j < |ws| :: ws[j].path != ws[i].path
    ensures ws[i].path in ApplyWrites(files, ws)
    ensures ApplyWrites(files, ws)[ws[i].path] == ws[i].data
  {
    if i < |ws| - 1 {
      LastWriteWins(files, ws[..|ws| - 1], i);
    }
  }

  /** A path that no write names is left as it was: present with the same contents, or absent. */
  lemma {:induction false} UnwrittenPathUnchanged(files: map<string, seq<byte>>, ws: seq<Write>, path: string)
    requires forall j | 0 <= j < |ws| :: ws[j].path != path
    ensures path in ApplyWrites(files, ws) <==> path in files
    ensures path in files ==> ApplyWrites(files, ws)[path] == files[path]
  {
    if ws != [] {
      UnwrittenPathUnchanged(files, ws[..|ws| - 1], path);
    }
  }

  /** A cut inside the path leaves no NUL to end it. */
  lemma {:induction false} CutInPath(pre: seq<byte>, e: Entry, k: nat)
    requires WellFormed(e) && 0 < k <= |e.path|
    ensures ParseEntry(pre + EntryBytes(e)[..k], |pre|, Checked) == Err(MissingTerminator)
  {
    var body := pre + EntryBytes(e)[..k];
    EntryBytesLayout(e);
    assert EntryBytes(e)[..k] == e.path[..k];
    assert body[|pre|..] == e.path[..k];
    NoTerminator(body, |pre|);
  }

  /** A cut past the path's NUL still reads the whole path. */
  lemma {:induction false} CutAfterPath(pre: seq<byte>, e: Entry, k: nat)
    requires WellFormed(e) && |e.path| < k <= |EntryBytes(e)|
    ensures ReadPath(pre + EntryBytes(e)[..k], |pre|) == Ok(Parsed(e.path, |pre| + |e.path| + 1))
  {
    var cut := EntryBytes(e)[..k];
    CutKeepsPath(e, k);
    ReadPathAfter(pre, e.path, cut);
  }

  /** A prefix of an entry's encoding that reaches past the NUL starts with the whole path and the NUL. */
  lemma {:induction false} CutKeepsPath(e: Entry, k: nat)
    requires |e.path| < k <= |EntryBytes(e)|
    ensures EntryBytes(e)[..k][..|e.path|] == e.path && EntryBytes(e)[..k][|e.path|] == NullTerminator
  {
    EntryBytesLayout(e);
    assert EntryBytes(e)[..k][..|e.path|] == EntryBytes(e)[..|e.path|];
  }

  /** A cut inside the length field leaves fewer than four bytes to read it from. */
  lemma {:induction false} CutInLength(pre: seq<byte>, e: Entry, k: nat)
    requires WellFormed(e) && |e.path| < k < |e.path| + 5
    ensures ParseEntry(pre + EntryBytes(e)[..k], |pre|, Checked) == Err(TruncatedLength(k - |e.path| - 1))
  {
    CutAfterPath(pre, e, k);
  }

  /** A cut inside the payload leaves fewer bytes than the length field declares. */
  lemma {:induction false} CutInPayload(pre: seq<byte>, e: Entry, k: nat)
    requires WellFormed(e) && |e.path| + 5 <= k < |EntryBytes(e)|
    ensures ParseEntry(pre + EntryBytes(e)[..k], |pre|, Checked)
         == Err(TruncatedPayload(|e.payload|, k - |e.path| - 5))
  {
    var body := pre + EntryBytes(e)[..k];
    var pathEnd := |pre| + |e.path| + 1;
    CutAfterPath(pre, e, k);
    CutKeepsLength(pre, e, k, pathEnd);
    assert ReadPath(body, |pre|) == Ok(Parsed(e.path, pathEnd));
  }

  /** A cut past the length field still reads the declared payload length. */
  lemma {:induction false} CutKeepsLength(pre: seq<byte>, e: Entry, k: nat, pathEnd: nat)
    requires WellFormed(e) && |e.path| + 5 <= k <= |EntryBytes(e)| && pathEnd == |pre| + |e.path| + 1
    ensures pathEnd + 4 <= |pre + EntryBytes(e)[..k]|
    ensures ReadLe32((pre + EntryBytes(e)[..k])[pathEnd..pathEnd + 4]) == |e.payload|
  {
    var cut := EntryBytes(e)[..k];
    var body := pre + cut;
    var n := |e.path|;
    EntryBytesLayout(e);
    SliceAfter(pre, cut, n + 1, n + 5);
    assert cut[n + 1..n + 5] == EntryBytes(e)[n + 1..n + 5];
    assert body[pathEnd..pathEnd + 4] == Le32(|e.payload|);
    Le32RoundTrip(|e.payload|);
  }

  /** A cut strictly inside one entry always leaves a parse error. */
  lemma {:induction false} CutEntryFails(pre: seq<byte>, e: Entry, k: nat)
    requires WellFormed(e) && 0 < k < |EntryBytes(e)|
    ensures ParseEntry(pre + EntryBytes(e)[..k], |pre|, Checked).Err?
  {
    if k <= |e.path| {
      CutInPath(pre, e, k);
    } else if k < |e.path| + 5 {
      CutInLength(pre, e, k);
    } else {
      CutInPayload(pre, e, k);
    }
  }

  /**
   * Truncating an archive strictly inside an entry makes decoding fail, and
   * the cut entry is never written: the writes are at most those of the
   * complete entries before it.
   */
  lemma {:induction false} TruncatedEntryFails(pre: seq<byte>, es: seq<Entry>, e: Entry, k: nat, codec: Codec)
    requires forall x | x in es :: WellFormed(x)
    requires WellFormed(e) && 0 < k < |EntryBytes(e)|
    ensures var o := DecodeFrom(pre + Serialize(es) + EntryBytes(e)[..k], |pre|, codec, Checked);
      o.error.Some? && |o.writes| <= |es|
    decreases |es|
  {
    var cut := EntryBytes(e)[..k];
    var body := pre + Serialize(es) + cut;
    if es == [] {
      assert body == pre + cut;
      CutEntryFails(pre, e, k);
    } else {
      var first := es[0];
      var rest := Serialize(es[1..]) + cut;
      var pre' := pre + EntryBytes(first);
      assert Serialize(es) == EntryBytes(first) + Serialize(es[1..]);
      assert body == pre + EntryBytes(first) + rest;
      assert body == pre' + Serialize(es[1..]) + cut;
      var next := |pre'|;
      EntryParsesWithin(pre, first, rest, body, next);
      TruncatedEntryFails(pre', es[1..], e, k, codec);
      FailureAhead(body, |pre|, codec, first, next);
    }
  }

  /** `ParseEntryBytes`, stated for a body and an end position the caller has named. */
  lemma {:induction false} EntryParsesWithin(pre: seq<byte>, e: Entry, post: seq<byte>, body: seq<byte>, next: nat)
    requires WellFormed(e) && body == pre + EntryBytes(e) + post && next == |pre| + |EntryBytes(e)|
    ensures |pre| < |body| && ParseEntry(body, |pre|, Checked) == Ok(Parsed(e, next))
  {
    ParseEntryBytes(pre, e, post);
  }

  /** When decoding fails from the next entry on, it fails from this one too, with at most one more write. */
  lemma {:induction false} FailureAhead(body: seq<byte>, cur: nat, codec: Codec, entry: Entry, next: nat)
    requires cur < |body| && ParseEntry(body, cur, Checked) == Ok(Parsed(entry, next))
    requires DecodeFrom(body, next, codec, Checked).error.Some?
    ensures DecodeFrom(body, cur, codec, Checked).error.Some?
    ensures |DecodeFrom(body, cur, codec, Checked).writes| <= 1 + |DecodeFrom(body, next, codec, Checked).writes|
  {
  }

  /** The same at the level of a whole archive: the signature, complete entries, then a cut entry. */
  lemma {:induction false} TruncatedArchiveFails(es: seq<Entry>, e: Entry, k: nat, codec: Codec)
    requires forall x | x in es :: WellFormed(x)
    requires WellFormed(e) && 0 < k < |EntryBytes(e)|
    ensures var o := Decode(Signature + Serialize(es) + EntryBytes(e)[..k], codec);
      o.error.Some? && |o.writes| <= |es|
  {
    var body := Serialize(es) + EntryBytes(e)[..k];
    ArchiveOutcome(Signature + Serialize(es) + EntryBytes(e)[..k], body, codec);
    TruncatedBodyFails(es, e, k, codec);
  }

  lemma {:induction false} TruncatedBodyFails(es: seq<Entry>, e: Entry, k: nat, codec: Codec)
    requires forall x | x in es :: WellFormed(x)
    requires WellFormed(e) && 0 < k < |EntryBytes(e)|
    ensures var o := DecodeFrom(Serialize(es) + EntryBytes(e)[..k], 0, codec, Checked);
      o.error.Some? && |o.writes| <= |es|
  {
    assert [] + Serialize(es) + EntryBytes(e)[..k] == Serialize(es) + EntryBytes(e)[..k];
    TruncatedEntryFails([], es, e, k, codec);
  }

  /** What `Decode` does on the signature followed by `body`. */
  lemma {:induction false} ArchiveOutcome(bfs: seq<byte>, body: seq<byte>, codec: Codec)
    requires bfs == Signature + body
    ensures Decode(bfs, codec) == DecodeFrom(body, 0, codec, Checked)
  {
    SignedDecode(body, codec, Checked);
  }

  /** Decoding the signature followed by a body is the loop over that body. */
  lemma {:induction false} SignedDecode(body: seq<byte>, codec: Codec, reading: Reading)
    ensures DecodeWith(Signature + body, codec, reading) == DecodeFrom(body, 0, codec, reading)
  {
    SignedBody(body);
    DecodeBody(Signature + body, codec, reading);
  }

  /** Any bytes after the signature pass the signature check, and are what the loop then reads. */
  lemma {:induction false} SignedBody(body: seq<byte>)
    ensures CheckSignature(Signature + body, 0).None?
    ensures (Signature + body)[|Signature|..] == body
  {
    var bfs := Signature + body;
    assert bfs[..|Signature|] == Signature;
    CheckSignatureSound(bfs, 0);
  }

  /**
   * The legacy loop accepts a truncated archive: "BFS", the path "a", a
   * declared length of 5 and only the 2 payload bytes `00 41`. Whenever the
   * codec accepts those 2 bytes (for LZF they are a complete stream: one
   * literal, "A"), it writes what they decompress to as file "a" without any
   * error, where the checked decoder stops with a truncated payload and
   * writes nothing.
   */
  lemma {:induction false} ShortPayloadAcceptedAsWritten(codec: Codec, data: seq<byte>)
    requires codec.decompress([0, 65]) == Some(data)
    ensures DecodeAsWritten([66, 70, 83, 97, 0, 5, 0, 0, 0, 0, 65], codec) == Outcome([Write("a", data)], None)
    ensures Decode([66, 70, 83, 97, 0, 5, 0, 0, 0, 0, 65], codec) == Outcome([], Some(TruncatedPayload(5, 2)))
  {
    var bfs: seq<byte> := [66, 70, 83, 97, 0, 5, 0, 0, 0, 0, 65];
    var body: seq<byte> := [97, 0, 5, 0, 0, 0, 0, 65];
    assert CheckSignature(bfs, 0) == None by {
      CheckSignatureSound(bfs, 0);
    }
    assert bfs[|Signature|..] == body;
    ShortBodyAsWritten(body, codec, data);
    ShortBodyChecked(body, codec);
  }

  lemma {:induction false} ShortBodyAsWritten(body: seq<byte>, codec: Codec, data: seq<byte>)
    requires body == [97, 0, 5, 0, 0, 0, 0, 65]
    requires codec.decompress([0, 65]) == Some(data)
    ensures DecodeFrom(body, 0, codec, AsWritten) == Outcome([Write("a", data)], None)
  {
    ShortPayloadEntry(body);
    assert Latin1([97]) == "a";
    assert DecodeFrom(body, 8, codec, AsWritten) == Outcome([], None);
  }

  lemma {:induction false} ShortBodyChecked(body: seq<byte>, codec: Codec)
    requires body == [97, 0, 5, 0, 0, 0, 0, 65]
    ensures DecodeFrom(body, 0, codec, Checked) == Outcome([], Some(TruncatedPayload(5, 2)))
  {
    ShortPayloadEntry(body);
  }

  /** The body of that archive: one path, a declared length of 5, and 2 payload bytes. */
  lemma {:induction false} ShortPayloadEntry(body: seq<byte>)
    requires body == [97, 0, 5, 0, 0, 0, 0, 65]
    ensures ParseEntry(body, 0, AsWritten) == Ok(Parsed(Entry([97], [0, 65]), 8))
    ensures ParseEntry(body, 0, Checked) == Err(TruncatedPayload(5, 2))
  {
    ReadPathAt(body, 0, 1);
    assert body[0..1] == [97];
    assert ReadPath(body, 0) == Ok(Parsed([97], 2));
    assert body[2..6] == [5, 0, 0, 0];
    assert ReadLe32(body[2..6]) == 5;
    assert body[6..] == [0, 65];
    assert Take(body[6..], IntCast(5)) == [0, 65];
  }
}
