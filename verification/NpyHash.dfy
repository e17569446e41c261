/**
 * The writer that hashes an NPY stream's array bytes while forwarding the stream. However the stream
 * is cut into writes, the hasher receives the bytes after the header, nothing else (NEP 1, section
 * "Format Specification: Version 1.0", and the wider length field of versions 2.0 and 3.0).
 */
module NpyHash {
  import opened Wrappers

  type byte = x: int | 0 <= x < 256

  type Sha = seq<byte> -> string

  const MAGIC: seq<byte> := [0x93, 0x4E, 0x55, 0x4D, 0x50, 0x59]

  /** An array: its dtype's name, its shape as JSON text, and its elements in C order. */
  datatype Array = Array(dtype: seq<byte>, shape: seq<byte>, data: seq<byte>)

  datatype Error =
    | ShortWrite(expected: nat, wrote: int)
    | InvalidMagic
    | UnsupportedVersion(major: byte)
    | IncompleteHeader
    | IncompleteData(expected: nat, hashed: nat)

  function HashPrefix(a: Array): seq<byte> { a.dtype + [0] + a.shape + [0] }

  function HashLogicalArray(sha: Sha, a: Array): string { sha(HashPrefix(a) + a.data) }

  predicate NoZero(s: seq<byte>) { forall i :: 0 <= i < |s| ==> s[i] != 0 }

  /** Arrays with different dtype, shape or elements are hashed from different bytes. */
  lemma {:induction false} HashInputIsInjective(a: Array, b: Array)
    requires NoZero(a.dtype) && NoZero(b.dtype) && NoZero(a.shape) && NoZero(b.shape)
    requires HashPrefix(a) + a.data == HashPrefix(b) + b.data
    ensures a == b
  {
    var x, y := HashPrefix(a) + a.data, HashPrefix(b) + b.data;
    assert x == a.dtype + [0] + (a.shape + [0] + a.data) && y == b.dtype + [0] + (b.shape + [0] + b.data);
    SameUpToZero(a.dtype, a.shape + [0] + a.data, b.dtype, b.shape + [0] + b.data);
    SameUpToZero(a.shape, a.data, b.shape, b.data);
  }

  lemma {:induction false} SameUpToZero(p: seq<byte>, rest: seq<byte>, q: seq<byte>, more: seq<byte>)
    requires NoZero(p) && NoZero(q) && p + [0] + rest == q + [0] + more
    ensures p == q && rest == more
  {
    var x := p + [0] + rest;
    ZeroBehind(p, rest);
    ZeroBehind(q, more);
    assert |p| == |q|;
    assert p == x[..|p|] && q == x[..|p|];
    assert rest == x[|p| + 1..] && more == x[|p| + 1..];
  }

  /** The first zero byte stands behind the text. */
  lemma {:induction false} ZeroBehind(p: seq<byte>, rest: seq<byte>)
    requires NoZero(p)
    ensures var x := p + [0] + rest; x[|p|] == 0 && forall i :: 0 <= i < |p| ==> x[i] != 0
  {}

  // ---------- the format ----------

  function FromLittleEndian(s: seq<byte>): nat {
    if s == [] then 0 else s[0] + 256 * FromLittleEndian(s[1..])
  }

  function ToLittleEndian(n: nat, width: nat): (s: seq<byte>)
    ensures |s| == width
  {
    if width == 0 then [] else [n % 256] + ToLittleEndian(n / 256, width - 1)
  }

  function Power256(width: nat): nat {
    if width == 0 then 1 else 256 * Power256(width - 1)
  }

  lemma {:induction false} LittleEndianRoundTrip(n: nat, width: nat)
    requires n < Power256(width)
    ensures FromLittleEndian(ToLittleEndian(n, width)) == n
  {
    if width > 0 {
      LittleEndianRoundTrip(n / 256, width - 1);
      assert ToLittleEndian(n, width)[1..] == ToLittleEndian(n / 256, width - 1);
    }
  }

  /** The format, byte by byte: version 1 has a length field of two bytes, versions 2 and 3 have four. */
  lemma {:induction false} StreamLayout(major: byte, minor: byte, header: seq<byte>, data: seq<byte>)
    requires FormatHeader(major, header)
    ensures var s, n := NpyStream(major, minor, header, data), |header|;
      && |s| >= 10 && s[..8] == [0x93, 'N' as int, 'U' as int, 'M' as int, 'P' as int, 'Y' as int, major, minor]
      && major in {1, 2, 3}
      && (major == 1 ==> n == Places(s[8], s[9], 0, 0) && s[10..] == header + data)
      && (major != 1 ==> |s| >= 12 && n == Places(s[8], s[9], s[10], s[11]) && s[12..] == header + data)
  {
    var s, width := NpyStream(major, minor, header, data), LengthWidth(major);
    var field := ToLittleEndian(|header|, width);
    LittleEndianRoundTrip(|header|, width);
    assert s == MAGIC + [major, minor] + field + (header + data);
    assert s[8..8 + width] == field && s[8 + width..] == header + data;
    FieldValue(field);
  }

  function Places(a: int, b: int, c: int, d: int): int { a + 256 * b + 65_536 * c + 16_777_216 * d }

  lemma {:induction false} FieldValue(s: seq<byte>)
    ensures |s| == 2 ==> FromLittleEndian(s) == Places(s[0], s[1], 0, 0)
    ensures |s| == 4 ==> FromLittleEndian(s) == Places(s[0], s[1], s[2], s[3])
  {
    if |s| == 2 {
      assert s[1..] == [s[1]] && [s[1]][1..] == [];
      assert FromLittleEndian([s[1]]) == s[1];
    } else if |s| == 4 {
      assert s[1..][1..] == s[2..] && s[2..] == [s[2], s[3]];
      FieldValue(s[2..]);
    }
  }

  lemma {:induction false} LittleEndianInverse(s: seq<byte>)
    ensures ToLittleEndian(FromLittleEndian(s), |s|) == s && FromLittleEndian(s) < Power256(|s|)
  {
    if s != [] {
      LittleEndianInverse(s[1..]);
      LowByte(s[0], FromLittleEndian(s[1..]));
      assert s == [s[0]] + s[1..];
    }
  }

  lemma {:induction false} LowByte(low: byte, rest: nat)
    ensures (low + 256 * rest) % 256 == low && (low + 256 * rest) / 256 == rest
  {}

  predicate KnownVersion(major: byte) { major == 1 || major == 2 || major == 3 }

  /** Bytes of the header-length field. */
  function LengthWidth(major: byte): nat { if major == 1 then 2 else 4 }

  predicate FormatHeader(major: byte, header: seq<byte>) {
    KnownVersion(major) && |header| < Power256(LengthWidth(major))
  }

  /** An NPY file: magic, version, header length, header, array bytes. */
  function NpyStream(major: byte, minor: byte, header: seq<byte>, data: seq<byte>): seq<byte>
    requires FormatHeader(major, header)
  {
    MAGIC + [major, minor] + ToLittleEndian(|header|, LengthWidth(major)) + header + data
  }

  // ---------- what the writer knows of a stream ----------

  datatype Header = Undecided | BadMagic | BadVersion(major: byte) | At(offset: nat)

  /** Where the array bytes begin, as far as the stream tells. */
  function HeaderOf(s: seq<byte>): Header {
    if |s| < 8 then Undecided
    else if s[..6] != MAGIC then BadMagic
    else if !KnownVersion(s[6]) then BadVersion(s[6])
    else
      var end := 8 + LengthWidth(s[6]);
      if |s| < end then Undecided else At(end + FromLittleEndian(s[8..end]))
  }

  predicate HeaderComplete(s: seq<byte>) {
    HeaderOf(s).At? && HeaderOf(s).offset <= |s|
  }

  function Payload(s: seq<byte>): seq<byte> {
    if HeaderComplete(s) then s[HeaderOf(s).offset..] else []
  }

  /** What has been decided stays decided as the stream grows. */
  lemma {:induction false} HeaderIsStable(s: seq<byte>, more: seq<byte>)
    ensures !HeaderOf(s).Undecided? ==> HeaderOf(s + more) == HeaderOf(s)
  {
    if !HeaderOf(s).Undecided? {
      assert (s + more)[..6] == s[..6] && (s + more)[6] == s[6];
      if HeaderOf(s).At? {
        var end := 8 + LengthWidth(s[6]);
        assert (s + more)[8..end] == s[8..end];
      }
    }
  }

  lemma {:induction false} PayloadGrows(s: seq<byte>, more: seq<byte>)
    requires HeaderComplete(s)
    ensures HeaderComplete(s + more) && Payload(s + more) == Payload(s) + more
  {
    HeaderIsStable(s, more);
  }

  /** Every NPY stream is read back: the header is complete and what follows is the data. */
  lemma {:induction false} StreamIsRead(major: byte, minor: byte, header: seq<byte>, data: seq<byte>)
    requires FormatHeader(major, header)
    ensures var s := NpyStream(major, minor, header, data); HeaderComplete(s) && Payload(s) == data
  {
    var s := NpyStream(major, minor, header, data);
    var width := LengthWidth(major);
    var length := ToLittleEndian(|header|, width);
    assert s[..6] == MAGIC && s[6] == major;
    assert s[8..8 + width] == length;
    LittleEndianRoundTrip(|header|, width);
    assert s[8 + width + |header|..] == data;
  }

  /** And a complete header means that the stream is an NPY stream of its payload. */
  lemma {:induction false} ReadIsStream(s: seq<byte>) returns (major: byte, minor: byte, header: seq<byte>)
    requires HeaderComplete(s)
    ensures FormatHeader(major, header) && s == NpyStream(major, minor, header, Payload(s))
  {
    major, minor := s[6], s[7];
    var end := 8 + LengthWidth(major);
    var offset := HeaderOf(s).offset;
    header := s[end..offset];
    LittleEndianInverse(s[8..end]);
    assert |s[8..end]| == LengthWidth(major);
    assert s == s[..6] + [s[6], s[7]] + s[8..end] + s[end..offset] + s[offset..];
  }

  /** The stream is an NPY file of some supported version holding these array bytes. */
  ghost predicate IsNpyOf(s: seq<byte>, data: seq<byte>) {
    exists major: byte, minor: byte, header: seq<byte> ::
      FormatHeader(major, header) && s == NpyStream(major, minor, header, data)
  }

  lemma {:induction false} CompleteIffNpy(s: seq<byte>, data: seq<byte>)
    ensures IsNpyOf(s, data) <==> HeaderComplete(s) && Payload(s) == data
  {
    if HeaderComplete(s) {
      var major, minor, header := ReadIsStream(s);
    }
    forall major: byte, minor: byte, header: seq<byte> |
      FormatHeader(major, header) && s == NpyStream(major, minor, header, data)
      ensures HeaderComplete(s) && Payload(s) == data
    {
      StreamIsRead(major, minor, header, data);
    }
  }

  /** What a writer reports about the header. */
  function Malformed(s: seq<byte>): Option<Error> {
    match HeaderOf(s)
    case BadMagic => Some(InvalidMagic)
    case BadVersion(major) => Some(UnsupportedVersion(major))
    case _ => None
  }

  /** Headers of up to 65535 bytes in version 1, of up to four gigabytes in versions 2 and 3. */
  lemma {:induction false} FormatIs(major: byte, header: seq<byte>)
    ensures FormatHeader(major, header) <==>
      (major == 1 && |header| < 65_536) || (major in {2, 3} && |header| < 4_294_967_296)
  {
    assert Power256(2) == 65_536 && Power256(4) == 4_294_967_296;
  }

  /** Zeros that bring a stream to a length. */
  function Zeros(n: nat): seq<byte> { seq(n, _ => 0) }

  /** From the eighth byte on a stream is reported as malformed exactly when no NPY stream begins with it. */
  lemma {:induction false} MalformedIsHopeless(s: seq<byte>)
    ensures |s| < 8 ==> Malformed(s).None?
    ensures |s| >= 8 ==> (Malformed(s).Some? <==> forall more, data :: !IsNpyOf(s + more, data))
    ensures Malformed(s) == Some(InvalidMagic) <==>
      |s| >= 8 && s[..6] != [0x93, 'N' as int, 'U' as int, 'M' as int, 'P' as int, 'Y' as int]
  {
    forall more, data | Malformed(s).Some? ensures !IsNpyOf(s + more, data) {
      HeaderIsStable(s, more);
      CompleteIffNpy(s + more, data);
    }
    if |s| >= 8 && Malformed(s).None? {
      var more := Completed(s);
      CompleteIffNpy(s + more, Payload(s + more));
      assert IsNpyOf(s + more, Payload(s + more));
    }
  }

  /** A header that is not malformed can be completed. */
  lemma {:induction false} Completed(s: seq<byte>) returns (more: seq<byte>)
    requires |s| >= 8 && Malformed(s).None?
    ensures HeaderComplete(s + more)
  {
    if HeaderOf(s).Undecided? {
      var field := Zeros(8 + LengthWidth(s[6]) - |s|);
      assert (s + field)[..6] == s[..6] && (s + field)[6] == s[6];
      var rest := FilledUp(s + field);
      more := field + rest;
      assert s + more == s + field + rest;
    } else {
      more := FilledUp(s);
    }
  }

  lemma {:induction false} FilledUp(s: seq<byte>) returns (more: seq<byte>)
    requires HeaderOf(s).At?
    ensures HeaderComplete(s + more)
  {
    more := Zeros(if HeaderOf(s).offset <= |s| then 0 else HeaderOf(s).offset - |s|);
    HeaderIsStable(s, more);
  }

  /** Decides on the header bytes collected so far, check by check. */
  method ReadHeader(bytes: seq<byte>) returns (header: Header)
    ensures header == HeaderOf(bytes)
  {
    if |bytes| < 8 {
      return Undecided;
    }
    if bytes[..6] != MAGIC {
      return BadMagic;
    }
    var major := bytes[6];
    var lengthFieldEnd := 10;
    if major == 1 {
      lengthFieldEnd := 10;
    } else if major == 2 || major == 3 {
      lengthFieldEnd := 12;
    } else {
      return BadVersion(major);
    }
    if |bytes| < lengthFieldEnd {
      return Undecided;
    }
    header := At(lengthFieldEnd + FromLittleEndian(bytes[8..lengthFieldEnd]));
  }

  // ---------- the writer ----------

  /** The destination took the whole payload, or does not say. */
  predicate Whole(payload: seq<byte>, wrote: Option<int>) { wrote.None? || wrote.value == |payload| }

  class HashingWriter {
    const sha: Sha
    const source: Array
    const expectedDataBytes: nat
    var absorbed: seq<byte>
    var hashedDataBytes: nat
    var headerBytes: seq<byte>
    var dataOffset: Option<nat>
    ghost var stream: seq<byte>

    /** The fields depend on the stream alone, not on how it was cut into writes. */
    ghost predicate Valid()
      reads this
    {
      && expectedDataBytes == |source.data|
      && absorbed == HashPrefix(source) + Payload(stream)
      && hashedDataBytes == |Payload(stream)|
      && headerBytes == (if HeaderComplete(stream) then [] else stream)
      && dataOffset == (match HeaderOf(stream) case At(offset) => Some(offset) case _ => None)
    }

    constructor (sha: Sha, source: Array)
      ensures Valid() && stream == [] && this.sha == sha && this.source == source
    {
      this.sha, this.source := sha, source;
      expectedDataBytes := |source.data|;
      absorbed := HashPrefix(source);
      hashedDataBytes, headerBytes, dataOffset := 0, [], None;
      stream := [];
    }

    /** `wrote` is what the destination returns for this payload; None means that it does not say. */
    method Write(payload: seq<byte>, wrote: Option<int>) returns (r: Result<int, Error>)
      requires Valid()
      modifies this
      ensures Valid()
      ensures stream == if Whole(payload, wrote) then old(stream) + payload else old(stream)
      ensures !Whole(payload, wrote) ==>
        r == Err(ShortWrite(|payload|, wrote.value)) && absorbed == old(absorbed)
      ensures Whole(payload, wrote) ==>
        r == match Malformed(stream)
             case Some(error) => Err(error)
             case None => Ok(|payload|)
    {
      var written := if wrote.None? then |payload| else wrote.value;
      if written != |payload| {
        return Err(ShortWrite(|payload|, written));
      }
      var hashed := HashStreamBytes(payload);
      if hashed.Err? {
        return Err(hashed.error);
      }
      r := Ok(written);
    }

    method HashStreamBytes(payload: seq<byte>) returns (r: Result<(), Error>)
      requires Valid()
      modifies this
      ensures Valid() && stream == old(stream) + payload
      ensures r == match Malformed(stream)
                   case Some(error) => Err(error)
                   case None => Ok(())
    {
      ghost var before := stream;
      stream := stream + payload;
      HeaderIsStable(before, payload);
      if dataOffset.Some? && headerBytes == [] {
        PayloadGrows(before, payload);
        absorbed := absorbed + payload;
        hashedDataBytes := hashedDataBytes + |payload|;
        return Ok(());
      }
      headerBytes := headerBytes + payload;
      assert headerBytes == stream;
      var header := ReadHeader(headerBytes);
      match header {
        case Undecided =>
          r := Ok(());
        case BadMagic =>
          r := Err(InvalidMagic);
        case BadVersion(major) =>
          r := Err(UnsupportedVersion(major));
        case At(offset) =>
          if dataOffset.None? {
            dataOffset := Some(offset);
          }
          if |headerBytes| >= dataOffset.value {
            var data := headerBytes[dataOffset.value..];
            if data != [] {
              absorbed := absorbed + data;
              hashedDataBytes := hashedDataBytes + |data|;
            }
            headerBytes := [];
          }
          r := Ok(());
      }
    }

    /**
     * A digest comes out exactly for an NPY stream of as many array bytes as declared, and it is the
     * hash of those bytes behind the array's dtype and shape.
     */
    method HexDigest() returns (r: Result<string, Error>)
      requires Valid()
      ensures r.Ok? <==> exists data :: IsNpyOf(stream, data) && |data| == |source.data|
      ensures forall data ::
        IsNpyOf(stream, data) && |data| == |source.data| ==> r == Ok(HashLogicalArray(sha, source.(data := data)))
      ensures r.Err? ==>
        r.error == if HeaderComplete(stream) then IncompleteData(|source.data|, |Payload(stream)|) else IncompleteHeader
    {
      forall data ensures IsNpyOf(stream, data) <==> HeaderComplete(stream) && Payload(stream) == data {
        CompleteIffNpy(stream, data);
      }
      if HeaderComplete(stream) {
        assert IsNpyOf(stream, Payload(stream));
      }
      if dataOffset.None? || headerBytes != [] {
        return Err(IncompleteHeader);
      }
      if hashedDataBytes != expectedDataBytes {
        return Err(IncompleteData(expectedDataBytes, hashedDataBytes));
      }
      r := Ok(sha(absorbed));
    }
  }

  // ---------- saving an array ----------

  /** One call of `write` and what the destination answers. */
  datatype Chunk = Chunk(payload: seq<byte>, wrote: Option<int>)

  predicate Accepted(c: Chunk) { Whole(c.payload, c.wrote) }

  predicate AllAccepted(chunks: seq<Chunk>) {
    forall i :: 0 <= i < |chunks| ==> Accepted(chunks[i])
  }

  lemma {:induction false} AcceptNext(chunks: seq<Chunk>, i: nat)
    requires i < |chunks|
    ensures AllAccepted(chunks[..i + 1]) <==> AllAccepted(chunks[..i]) && Accepted(chunks[i])
    ensures !Accepted(chunks[i]) ==> !AllAccepted(chunks)
  {
    assert chunks[..i + 1] == chunks[..i] + [chunks[i]];
  }

  function Joined(chunks: seq<Chunk>): seq<byte> {
    if chunks == [] then [] else Joined(chunks[..|chunks| - 1]) + chunks[|chunks| - 1].payload
  }

  lemma {:induction false} JoinedPrefix(chunks: seq<Chunk>, n: nat)
    requires n <= |chunks|
    ensures Joined(chunks[..n]) <= Joined(chunks)
  {
    if n < |chunks| {
      JoinedPrefix(chunks[..|chunks| - 1], n);
      assert chunks[..|chunks| - 1][..n] == chunks[..n];
    } else {
      assert chunks[..n] == chunks;
    }
  }

  /** No part of an NPY stream, cut anywhere, looks malformed. */
  lemma {:induction false} PrefixesAreFine(s: seq<byte>, part: seq<byte>)
    requires HeaderComplete(s) && part <= s
    ensures Malformed(part).None?
  {
    HeaderIsStable(part, s[|part|..]);
    assert part + s[|part|..] == s;
  }

  lemma {:induction false} NextPart(chunks: seq<Chunk>, i: nat, data: seq<byte>)
    requires i < |chunks| && IsNpyOf(Joined(chunks), data)
    ensures Joined(chunks[..i + 1]) == Joined(chunks[..i]) + chunks[i].payload
    ensures Malformed(Joined(chunks[..i + 1])).None?
  {
    CompleteIffNpy(Joined(chunks), data);
    JoinedPrefix(chunks, i + 1);
    assert chunks[..i + 1][..i] == chunks[..i];
    PrefixesAreFine(Joined(chunks), Joined(chunks[..i + 1]));
  }

  /** The calls of `write`, up to the first one the destination cuts short. */
  method Feed(writer: HashingWriter, chunks: seq<Chunk>, ghost data: seq<byte>) returns (r: Result<(), Error>)
    requires writer.Valid() && writer.stream == [] && IsNpyOf(Joined(chunks), data)
    modifies writer
    ensures writer.Valid()
    ensures r.Ok? <==> AllAccepted(chunks)
    ensures r.Ok? ==> writer.stream == Joined(chunks)
    ensures r.Err? ==> r.error.ShortWrite?
  {
    var i := 0;
    while i < |chunks|
      invariant 0 <= i <= |chunks| && writer.Valid()
      invariant writer.stream == Joined(chunks[..i])
      invariant AllAccepted(chunks[..i])
    {
      AcceptNext(chunks, i);
      r := FeedOne(writer, chunks, i, data);
      if r.Err? {
        return;
      }
      i := i + 1;
    }
    assert chunks[..|chunks|] == chunks;
    r := Ok(());
  }

  method FeedOne(writer: HashingWriter, chunks: seq<Chunk>, i: nat, ghost data: seq<byte>)
    returns (r: Result<(), Error>)
    requires i < |chunks| && writer.Valid() && writer.stream == Joined(chunks[..i]) && IsNpyOf(Joined(chunks), data)
    modifies writer
    ensures writer.Valid()
    ensures r.Ok? <==> Accepted(chunks[i])
    ensures r.Ok? ==> writer.stream == Joined(chunks[..i + 1])
    ensures r.Err? ==> r.error.ShortWrite?
  {
    NextPart(chunks, i, data);
    var w := writer.Write(chunks[i].payload, chunks[i].wrote);
    r := match w case Ok(_) => Ok(()) case Err(error) => Err(error);
  }

  /**
   * `save_numpy_artifact_with_hash` for any cutting of the file into writes: the digest is the array's
   * logical hash, and a write the destination did not take in full is never passed over.
   */
  method SaveWithHash(sha: Sha, a: Array, chunks: seq<Chunk>) returns (r: Result<string, Error>)
    requires IsNpyOf(Joined(chunks), a.data)
    ensures r.Ok? <==> AllAccepted(chunks)
    ensures r.Ok? ==> r.value == sha(a.dtype + [0] + a.shape + [0] + a.data)
    ensures r.Err? ==> r.error.ShortWrite?
  {
    var writer := new HashingWriter(sha, a);
    var fed := Feed(writer, chunks, a.data);
    if fed.Err? {
      return Err(fed.error);
    }
    assert a.(data := a.data) == a;
    r := writer.HexDigest();
  }
}
