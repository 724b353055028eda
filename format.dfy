/**
 * The BFS container layout: the 3-byte signature, then entries laid end to
 * end, each `path ++ [0x00] ++ LE32(N) ++ N payload bytes`. There is no index:
 * every boundary is found by reading forward from the previous one.
 */
module BfsFormat {
  import opened Wrappers
  import opened Bytes

  /** "BFS" in ASCII. */
  const Signature: seq<byte> := [66, 70, 83]

  /** Ends every path in the archive. */
  const NullTerminator: byte := 0

  /** One serialised file: its path bytes and its compressed contents. */
  datatype Entry = Entry(path: seq<byte>, payload: seq<byte>)

  /** A value read from the archive body, and the cursor just past it. */
  datatype Parsed<T> = Parsed(value: T, next: nat)

  /** Why decoding an archive stopped. */
  datatype DecodeError =
    | SignatureMismatch(position: nat, expected: byte, actual: byte)
    | SignatureTruncated(position: nat)
    | MissingTerminator
    | TruncatedLength(available: nat)
    | TruncatedPayload(declared: nat, available: nat)
    | CorruptPayload(path: string)

  /** How the payload slice is taken: checked against the bytes left, or as `Take((int)size)` does. */
  datatype Reading = Checked | AsWritten

  predicate NulFree(b: seq<byte>)
  {
    forall i | 0 <= i < |b| :: b[i] != NullTerminator
  }

  /** An entry the format can carry: its path has no terminator and its length fits the field. */
  predicate WellFormed(e: Entry)
  {
    NulFree(e.path) && |e.payload| < Uint32Limit
  }

  /** The bytes the encoder emits for one entry; the length goes through the `(uint)` cast. */
  function EntryBytes(e: Entry): (b: seq<byte>)
    ensures |b| == |e.path| + 5 + |e.payload|
  {
    e.path + [NullTerminator] + Le32(UintCast(|e.payload|)) + e.payload
  }

  /** Where each field of an entry's encoding sits. */
  lemma {:induction false} EntryBytesLayout(e: Entry)
    ensures |EntryBytes(e)| == |e.path| + 5 + |e.payload|
    ensures EntryBytes(e)[..|e.path|] == e.path && EntryBytes(e)[|e.path|] == NullTerminator
    ensures EntryBytes(e)[|e.path| + 1..|e.path| + 5] == Le32(UintCast(|e.payload|))
    ensures EntryBytes(e)[|e.path| + 5..] == e.payload
  {
    var n := |e.path|;
    var head := e.path + [NullTerminator];
    assert EntryBytes(e) == head + (Le32(UintCast(|e.payload|)) + e.payload);
    assert EntryBytes(e)[..n + 1] == head;
    assert head[n] == NullTerminator;
  }

  /** A slice of `s` is the same slice of `pre + s`, shifted by `|pre|`. */
  lemma {:induction false} SliceAfter(pre: seq<byte>, s: seq<byte>, i: nat, j: nat)
    requires i <= j <= |s|
    ensures (pre + s)[|pre| + i..|pre| + j] == s[i..j]
  {
    var a := (pre + s)[|pre| + i..|pre| + j];
    assert |a| == j - i;
    forall t | 0 <= t < j - i
      ensures a[t] == s[i..j][t]
    {
      assert a[t] == (pre + s)[|pre| + i + t];
    }
  }

  /** The first `j` bytes of `s` are the `j` bytes of `pre + s` that follow `pre`. */
  lemma {:induction false} PrefixAfter(pre: seq<byte>, s: seq<byte>, j: nat)
    requires j <= |s|
    ensures (pre + s)[|pre|..|pre| + j] == s[..j]
  {
    var a := (pre + s)[|pre|..|pre| + j];
    forall t | 0 <= t < j
      ensures a[t] == s[..j][t]
    {
      assert a[t] == (pre + s)[|pre| + t];
    }
  }

  /** Entries laid end to end with nothing between them. */
  function Serialize(es: seq<Entry>): (b: seq<byte>)
    ensures 5 * |es| <= |b|
  {
    if es == [] then [] else EntryBytes(es[0]) + Serialize(es[1..])
  }

  lemma {:induction false} SerializeAppend(es: seq<Entry>, e: Entry)
    ensures Serialize(es + [e]) == Serialize(es) + EntryBytes(e)
  {
    if es == [] {
      assert es + [e] == [e];
      assert Serialize([e]) == EntryBytes(e) + Serialize([]);
    } else {
      assert (es + [e])[1..] == es[1..] + [e];
      SerializeAppend(es[1..], e);
    }
  }

  /**
   * The path of the entry at `cur`: the bytes up to, not including, the
   * first NUL at or after `cur`; the cursor lands just past that NUL.
   */
  function ReadPath(body: seq<byte>, cur: nat): (r: Result<Parsed<seq<byte>>, DecodeError>)
    requires cur <= |body|
    decreases |body| - cur
    ensures r.Ok? ==> cur < r.value.next <= |body| && body[r.value.next - 1] == NullTerminator
    ensures r.Ok? ==> r.value.value == body[cur..r.value.next - 1] && NulFree(r.value.value)
    ensures r.Err? ==> r.error == MissingTerminator
  {
    if cur == |body| then Err(MissingTerminator)
    else if body[cur] == NullTerminator then Ok(Parsed([], cur + 1))
    else
      match ReadPath(body, cur + 1)
      case Ok(p) => Ok(Parsed([body[cur]] + p.value, p.next))
      case Err(e) => Err(e)
  }

  /** The first NUL at or after `cur` is where the path ends. */
  lemma {:induction false} ReadPathAt(body: seq<byte>, cur: nat, k: nat)
    requires cur <= k < |body| && body[k] == NullTerminator
    requires NulFree(body[cur..k])
    ensures ReadPath(body, cur) == Ok(Parsed(body[cur..k], k + 1))
    decreases k - cur
  {
    if cur < k {
      assert body[cur] == body[cur..k][0];
      assert body[cur + 1..k] == body[cur..k][1..];
      ReadPathAt(body, cur + 1, k);
      assert body[cur..k] == [body[cur]] + body[cur + 1..k];
    }
  }

  /** The path of an entry that starts right after `pre` ends at the first NUL in what follows. */
  lemma {:induction false} ReadPathAfter(pre: seq<byte>, path: seq<byte>, s: seq<byte>)
    requires NulFree(path) && |path| < |s| && s[..|path|] == path && s[|path|] == NullTerminator
    ensures ReadPath(pre + s, |pre|) == Ok(Parsed(path, |pre| + |path| + 1))
  {
    var body := pre + s;
    var k := |pre| + |path|;
    PrefixAfter(pre, s, |path|);
    assert body[|pre|..k] == path;
    assert body[k] == NullTerminator;
    ReadPathAt(body, |pre|, k);
  }

  /** A path is read exactly when a NUL follows the cursor somewhere. */
  lemma {:induction false} ReadPathFindsTerminator(body: seq<byte>, cur: nat)
    requires cur <= |body|
    ensures ReadPath(body, cur).Ok? <==> exists k :: cur <= k < |body| && body[k] == NullTerminator
    decreases |body| - cur
  {
    if cur < |body| && body[cur] != NullTerminator {
      ReadPathFindsTerminator(body, cur + 1);
    }
  }

  /** With no NUL from `cur` on, the path has no end. */
  lemma {:induction false} NoTerminator(body: seq<byte>, cur: nat)
    requires cur <= |body| && NulFree(body[cur..])
    ensures ReadPath(body, cur) == Err(MissingTerminator)
  {
    ReadPathFindsTerminator(body, cur);
  }

  /** `Take(count)` of LINQ: nothing for a count of zero or less, at most what is there otherwise. */
  function Take(s: seq<byte>, count: int): (r: seq<byte>)
    ensures count <= 0 ==> r == []
    ensures count > 0 ==> r == s[..if count < |s| then count else |s|]
  {
    if count <= 0 then [] else if count < |s| then s[..count] else s
  }

  /** The payload of `size` bytes at `start`, under either reading. */
  function TakePayload(body: seq<byte>, start: nat, size: nat, reading: Reading): (r: Result<seq<byte>, DecodeError>)
    requires start <= |body| && size < Uint32Limit
    ensures r.Ok? ==> start + |r.value| <= |body| && r.value == body[start..start + |r.value|]
    ensures reading == Checked ==> (r.Ok? <==> size <= |body| - start)
    ensures reading == Checked && r.Ok? ==> |r.value| == size
    ensures reading == AsWritten ==> r.Ok? && |r.value| <= size
    ensures r.Err? ==> r.error.TruncatedPayload? && r.error.declared > r.error.available
  {
    match reading
    case Checked =>
      if size <= |body| - start then Ok(body[start..start + size])
      else Err(TruncatedPayload(size, |body| - start))
    case AsWritten => Ok(Take(body[start..], IntCast(size)))
  }

  /**
   * One pass of the decoder's loop body: the path up to NUL, the 4-byte
   * length, then the payload. The cursor lands on the next entry's first byte.
   */
  function ParseEntry(body: seq<byte>, cur: nat, reading: Reading): (r: Result<Parsed<Entry>, DecodeError>)
    requires cur <= |body|
    ensures r.Ok? ==> r.value.next == cur + |r.value.value.path| + 1 + 4 + |r.value.value.payload| <= |body|
    ensures r.Ok? ==> NulFree(r.value.value.path) && |r.value.value.payload| < Uint32Limit
    ensures r.Err? && r.error.TruncatedLength? ==> r.error.available < 4
    ensures r.Err? && r.error.TruncatedPayload? ==> reading == Checked && r.error.declared > r.error.available
    ensures r.Err? ==> r.error.MissingTerminator? || r.error.TruncatedLength? || r.error.TruncatedPayload?
  {
    match ReadPath(body, cur)
    case Err(e) => Err(e)
    case Ok(path) =>
      if |body| - path.next < 4 then Err(TruncatedLength(|body| - path.next))
      else
        var size := ReadLe32(body[path.next..path.next + 4]);
        match TakePayload(body, path.next + 4, size, reading)
        case Err(e) => Err(e)
        case Ok(payload) => Ok(Parsed(Entry(path.value, payload), path.next + 4 + |payload|))
  }

  /** A NUL-terminated path, a length field and a payload that is all there parse as one entry. */
  lemma {:induction false} ParseEntryAt(body: seq<byte>, cur: nat, pathEnd: nat, size: nat)
    requires cur < pathEnd && pathEnd + 4 <= |body| && body[pathEnd - 1] == NullTerminator && NulFree(body[cur..pathEnd - 1])
    requires size == ReadLe32(body[pathEnd..pathEnd + 4]) && size <= |body| - (pathEnd + 4)
    ensures ParseEntry(body, cur, Checked)
         == Ok(Parsed(Entry(body[cur..pathEnd - 1], body[pathEnd + 4..pathEnd + 4 + size]), pathEnd + 4 + size))
  {
    ReadPathAt(body, cur, pathEnd - 1);
    ParseAfterPath(body, cur, body[cur..pathEnd - 1], pathEnd, size);
  }

  /** Once the path is read, a length field and a payload that is all there complete the entry. */
  lemma {:induction false} ParseAfterPath(body: seq<byte>, cur: nat, path: seq<byte>, pathEnd: nat, size: nat)
    requires cur <= |body| && ReadPath(body, cur) == Ok(Parsed(path, pathEnd))
    requires pathEnd + 4 <= |body| && size == ReadLe32(body[pathEnd..pathEnd + 4]) && size <= |body| - (pathEnd + 4)
    ensures ParseEntry(body, cur, Checked)
         == Ok(Parsed(Entry(path, body[pathEnd + 4..pathEnd + 4 + size]), pathEnd + 4 + size))
  {
    assert TakePayload(body, pathEnd + 4, size, Checked) == Ok(body[pathEnd + 4..pathEnd + 4 + size]);
  }

  /** Whatever the checked reading accepts is exactly the encoding of the entry it returns. */
  lemma {:induction false} ParsedIsEntryBytes(body: seq<byte>, cur: nat)
    requires cur <= |body| && ParseEntry(body, cur, Checked).Ok?
    ensures var p := ParseEntry(body, cur, Checked).value;
      WellFormed(p.value) && body[cur..p.next] == EntryBytes(p.value)
  {
    var path := ReadPath(body, cur).value;
    var pathEnd := path.next;
    assert pathEnd + 4 <= |body|;
    var lengthField := body[pathEnd..pathEnd + 4];
    var size := ReadLe32(lengthField);
    assert size <= |body| - (pathEnd + 4);
    var next := pathEnd + 4 + size;
    ParseEntryAt(body, cur, pathEnd, size);
    ReadLe32RoundTrip(lengthField);
    SliceSplit(body, cur, pathEnd - 1, pathEnd);
    SliceSplit(body, cur, pathEnd, pathEnd + 4);
    SliceSplit(body, cur, pathEnd + 4, next);
    assert body[pathEnd - 1..pathEnd] == [NullTerminator];
  }

  /** A slice is its two halves put together. */
  lemma {:induction false} SliceSplit(s: seq<byte>, a: nat, b: nat, c: nat)
    requires a <= b <= c <= |s|
    ensures s[a..c] == s[a..b] + s[b..c]
  {
  }

  /**
   * Where the payload is all there and its length is below 2^31, the legacy
   * `Take((int)size)` reads the same entry as the checked reading.
   */
  lemma {:induction false} ParseEntryAsWritten(body: seq<byte>, cur: nat)
    requires cur <= |body| && ParseEntry(body, cur, Checked).Ok?
    requires |ParseEntry(body, cur, Checked).value.value.payload| < Int32Limit
    ensures ParseEntry(body, cur, AsWritten) == ParseEntry(body, cur, Checked)
  {
    var pathEnd := ReadPath(body, cur).value.next;
    var size := ReadLe32(body[pathEnd..pathEnd + 4]);
    var start := pathEnd + 4;
    assert size == |ParseEntry(body, cur, Checked).value.value.payload|;
    assert IntCast(size) == size;
    assert Take(body[start..], size) == body[start..start + size];
    assert TakePayload(body, start, size, AsWritten) == TakePayload(body, start, size, Checked);
  }

  /** Parsing the encoding of a well-formed entry gives the entry back, whatever surrounds it. */
  lemma {:induction false} ParseEntryBytes(pre: seq<byte>, e: Entry, post: seq<byte>)
    requires WellFormed(e)
    ensures ParseEntry(pre + EntryBytes(e) + post, |pre|, Checked)
         == Ok(Parsed(e, |pre| + |EntryBytes(e)|))
  {
    var body := pre + EntryBytes(e) + post;
    var size := |e.payload|;
    var pathEnd := |pre| + |e.path| + 1;
    EntryFieldsAt(pre, e, post, pathEnd);
    Le32RoundTrip(size);
    ParseEntryAt(body, |pre|, pathEnd, size);
    assert ParseEntry(body, |pre|, Checked) == Ok(Parsed(Entry(e.path, e.payload), pathEnd + 4 + size));
  }

  /** The fields of an entry's encoding, found at their offsets in the surrounding bytes. */
  lemma {:induction false} EntryFieldsAt(pre: seq<byte>, e: Entry, post: seq<byte>, pathEnd: nat)
    requires pathEnd == |pre| + |e.path| + 1
    ensures pathEnd + 4 + |e.payload| == |pre| + |EntryBytes(e)| <= |pre + EntryBytes(e) + post|
    ensures (pre + EntryBytes(e) + post)[|pre|..pathEnd - 1] == e.path
    ensures (pre + EntryBytes(e) + post)[pathEnd - 1] == NullTerminator
    ensures (pre + EntryBytes(e) + post)[pathEnd..pathEnd + 4] == Le32(UintCast(|e.payload|))
    ensures (pre + EntryBytes(e) + post)[pathEnd + 4..pathEnd + 4 + |e.payload|] == e.payload
  {
    var s := EntryBytes(e) + post;
    var body := pre + s;
    assert body == pre + EntryBytes(e) + post;
    var n := |e.path|;
    var size := |e.payload|;
    EntryBytesLayout(e);
    PrefixAfter(pre, s, n);
    assert body[|pre|..pathEnd - 1] == e.path;
    assert body[pathEnd - 1] == NullTerminator;
    SliceAfter(pre, s, n + 1, n + 5);
    assert body[pathEnd..pathEnd + 4] == Le32(UintCast(size));
    SliceAfter(pre, s, n + 5, n + 5 + size);
    assert body[pathEnd + 4..pathEnd + 4 + size] == e.payload;
  }




}
