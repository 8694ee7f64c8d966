/** The Sun/NeXT .au decoder: the 24-byte header, the headerless legacy
    convention, and reads that expand µ-law bytes to 16-bit samples in place
    in the sample's buffer. */
module Au {
  import opened Sound
  import opened Ulaw

  const HDR_SIZE: nat := 24
  /** ".snd" read as a little-endian 32-bit word. */
  const AU_MAGIC: uint32 := 0x646E732E
  /** The four bytes the magic is on disk. */
  const MAGIC_BYTES: seq<byte> := [0x2E, 0x73, 0x6E, 0x64]

  const AU_ENC_ULAW_8: int := 1
  const AU_ENC_LINEAR_8: int := 2
  const AU_ENC_LINEAR_16: int := 3

  const LEGACY_RATE: nat := 8000

  // ---------------------------------------------------------------------
  // Byte order

  /** SDL_SwapBE32 applied to a field read from disk. */
  function Be32(b: seq<byte>): uint32
    requires |b| == 4
  {
    b[0] as int * 0x100_0000 + b[1] as int * 0x1_0000 + b[2] as int * 0x100 + b[3]
  }

  /** SDL_SwapLE32 applied to a field read from disk. */
  function Le32(b: seq<byte>): uint32
    requires |b| == 4
  {
    b[3] as int * 0x100_0000 + b[2] as int * 0x1_0000 + b[1] as int * 0x100 + b[0]
  }

  /** How a writer lays out a 32-bit header field. */
  function Be32Bytes(x: uint32): (b: seq<byte>)
    ensures |b| == 4
  {
    [x / 0x100_0000, (x / 0x1_0000) % 0x100, (x / 0x100) % 0x100, x % 0x100]
  }

  lemma Be32RoundTrip(x: uint32)
    ensures Be32(Be32Bytes(x)) == x
  {
    var b := Be32Bytes(x);
    assert x == (x / 0x100) * 0x100 + x % 0x100;
    assert x / 0x100 == (x / 0x1_0000) * 0x100 + (x / 0x100) % 0x100;
    assert x / 0x1_0000 == (x / 0x100_0000) * 0x100 + (x / 0x1_0000) % 0x100;
  }

  /** A header field is the magic exactly when its bytes spell ".snd". */
  lemma MagicIsDotSnd(b: seq<byte>)
    requires |b| == 4
    ensures Le32(b) == AU_MAGIC <==> b == MAGIC_BYTES
  {
    if Le32(b) == AU_MAGIC {
      var x := Le32(b);
      assert b[0] == x % 0x100;
      assert b[1] == (x / 0x100) % 0x100;
      assert b[2] == (x / 0x1_0000) % 0x100;
      assert b[3] == x / 0x100_0000;
    }
  }

  /** The value a Uint32 takes when stored in a C int (two's complement). */
  function AsInt(u: uint32): (i: int)
    ensures -0x8000_0000 <= i < 0x8000_0000
    ensures i % 0x1_0000_0000 == u
  {
    if u < 0x8000_0000 then u else u - 0x1_0000_0000
  }

  // ---------------------------------------------------------------------
  // Header

  /** The output format for each supported encoding: µ-law is widened to
      native 16-bit, the linear encodings are passed through. */
  function FormatOf(encoding: int): (f: Option<AudioFormat>)
    ensures f.Some? <==> encoding == AU_ENC_ULAW_8 || encoding == AU_ENC_LINEAR_8 || encoding == AU_ENC_LINEAR_16
  {
    if encoding == AU_ENC_ULAW_8 then Some(S16SYS)
    else if encoding == AU_ENC_LINEAR_8 then Some(S8)
    else if encoding == AU_ENC_LINEAR_16 then Some(S16MSB)
    else None
  }

  /** ASCII tolower, as __Sound_strcasecmp folds characters. */
  function Lower(c: char): char
  {
    if 'A' <= c <= 'Z' then (c as int + 32) as char else c
  }

  /** __Sound_strcasecmp(ext, "au") == 0 */
  predicate IsAuExtension(ext: string)
  {
    |ext| == 2 && Lower(ext[0]) == 'a' && Lower(ext[1]) == 'u'
  }

  lemma AuExtensionSpellings(ext: string)
    ensures IsAuExtension(ext) <==> ext in {"au", "aU", "Au", "AU"}
  {
    if IsAuExtension(ext) {
      assert ext[0] == 'a' || ext[0] == 'A';
      assert ext[1] == 'u' || ext[1] == 'U';
      assert ext == [ext[0], ext[1]];
    }
  }

  /** How many bytes past the fixed struct the header-skipping loop reads:
      `hsize` is an int, so a declared size of 2^31 or more is negative and
      skips nothing. */
  function SkipCount(hdrSize: uint32): nat
  {
    var hsize := AsInt(hdrSize);
    if hsize > HDR_SIZE then hsize - HDR_SIZE else 0
  }

  /** What open makes of the first read and the bytes it produced. */
  datatype Verdict =
    | ShortHeader
    | BadEncoding(encoding: int)
    | Described(encoding: int, format: AudioFormat, rate: uint32, channels: uint32, dataSize: uint32, skip: nat)
    | Headerless
    | Unclaimed

  /** The decision AU_open takes once it has tried to read HDR_SIZE bytes:
      `got` is what the read returned and `hdr` the header buffer. */
  function Classify(got: int, hdr: seq<byte>, ext: string): (v: Verdict)
    requires |hdr| == HDR_SIZE
    ensures v.ShortHeader? <==> got < HDR_SIZE
    ensures v.Headerless? <==> got >= HDR_SIZE && hdr[..4] != MAGIC_BYTES && IsAuExtension(ext)
    ensures v.Unclaimed? <==> got >= HDR_SIZE && hdr[..4] != MAGIC_BYTES && !IsAuExtension(ext)
    ensures v.BadEncoding? || v.Described? <==> got >= HDR_SIZE && hdr[..4] == MAGIC_BYTES
  {
    MagicIsDotSnd(hdr[..4]);
    if got < HDR_SIZE then ShortHeader
    else if Le32(hdr[..4]) == AU_MAGIC then
      var encoding := AsInt(Be32(hdr[12..16]));
      match FormatOf(encoding)
      case None => BadEncoding(encoding)
      case Some(format) =>
        Described(encoding, format, Be32(hdr[16..20]), Be32(hdr[20..24]), Be32(hdr[8..12]), SkipCount(Be32(hdr[4..8])))
    else if IsAuExtension(ext) then Headerless
    else Unclaimed
  }

  /** The fields of an .au header after the magic, as a writer fills them in. */
  datatype AuHeader = AuHeader(hdrSize: uint32, dataSize: uint32, encoding: uint32, sampleRate: uint32, channels: uint32)

  /** The 24 bytes a writer puts at the start of an .au file. */
  function EncodeHeader(h: AuHeader): (b: seq<byte>)
    ensures |b| == HDR_SIZE
  {
    MAGIC_BYTES + Be32Bytes(h.hdrSize) + Be32Bytes(h.dataSize) + Be32Bytes(h.encoding)
      + Be32Bytes(h.sampleRate) + Be32Bytes(h.channels)
  }

  /** Open reads back every field a writer put in a complete header: the
      encoding decides the format or the rejection, the rate, channel count and
      data size are the declared ones, and the bytes the writer declared past
      the 24-byte struct are skipped. */
  lemma ClassifyEncodedHeader(h: AuHeader, ext: string)
    ensures var v := Classify(HDR_SIZE, EncodeHeader(h), ext);
      if h.encoding in {1, 2, 3} then
        v.Described? && v.encoding == h.encoding && v.format == FormatOf(h.encoding).value
        && v.rate == h.sampleRate && v.channels == h.channels && v.dataSize == h.dataSize
        && v.skip == (if 24 < h.hdrSize < 0x8000_0000 then h.hdrSize - 24 else 0)
      else v.BadEncoding?
  {
    var b := EncodeHeader(h);
    assert b[..4] == MAGIC_BYTES;
    assert b[4..8] == Be32Bytes(h.hdrSize);
    assert b[8..12] == Be32Bytes(h.dataSize);
    assert b[12..16] == Be32Bytes(h.encoding);
    assert b[16..20] == Be32Bytes(h.sampleRate);
    assert b[20..24] == Be32Bytes(h.channels);
    Be32RoundTrip(h.hdrSize);
    Be32RoundTrip(h.dataSize);
    Be32RoundTrip(h.encoding);
    Be32RoundTrip(h.sampleRate);
    Be32RoundTrip(h.channels);
  }

  // ---------------------------------------------------------------------
  // Reading

  /** Where a read lands in the buffer and how many bytes it asks for. */
  datatype ReadPlan = ReadPlan(offset: nat, maxlen: nat)

  /** AU_read's request: µ-law bytes go to the second half of the buffer and
      may fill at most that half, other encodings may fill the whole buffer;
      either way no more than the declared data still remaining. */
  function PlanRead(encoding: int, bufferSize: nat, remaining: uint32): (p: ReadPlan)
    ensures encoding == AU_ENC_ULAW_8 ==> p.offset == bufferSize / 2 && 2 * p.maxlen <= bufferSize
    ensures encoding != AU_ENC_ULAW_8 ==> p.offset == 0
    ensures p.offset + p.maxlen <= bufferSize
    ensures p.maxlen <= remaining
    ensures p.maxlen == remaining || p.maxlen == (if encoding == AU_ENC_ULAW_8 then bufferSize / 2 else bufferSize)
  {
    var room := if encoding == AU_ENC_ULAW_8 then bufferSize / 2 else bufferSize;
    ReadPlan(if encoding == AU_ENC_ULAW_8 then room else 0, if room > remaining then remaining else room)
  }

  /** The flags after a read that asked for `maxlen` bytes and got `got`. */
  function FlagsAfterRead(flags: set<Flag>, got: int, maxlen: nat): (r: set<Flag>)
    ensures flags <= r
    ensures Eof in r <==> Eof in flags || got == 0
    ensures Error in r <==> Error in flags || got == -1
    ensures Eagain in r <==> Eagain in flags || (got != 0 && got != -1 && got < maxlen)
    ensures CanSeek in r <==> CanSeek in flags
  {
    if got == 0 then flags + {Eof}
    else if got == -1 then flags + {Error}
    else if got < maxlen then flags + {Eagain}
    else flags
  }

  /** The remaining count after a sequence of reads answered by `replies`,
      each asking for what PlanRead allows; None if a reply is one the stream
      cannot give (less than -1 or more than was asked for). */
  function Drain(encoding: int, bufferSize: nat, remaining: uint32, replies: seq<int>): Option<uint32>
    decreases |replies|
  {
    if replies == [] then Some(remaining)
    else
      var got := replies[0];
      if got < -1 || got > PlanRead(encoding, bufferSize, remaining).maxlen then None
      else Drain(encoding, bufferSize, remaining - Consumed(got), replies[1..])
  }

  function TotalConsumed(replies: seq<int>): nat
  {
    if replies == [] then 0 else Consumed(replies[0]) + TotalConsumed(replies[1..])
  }

  /** Over any run of reads, the bytes delivered plus the bytes still
      remaining are the declared data size: nothing is read past it and the
      count never wraps. */
  lemma {:induction false} DrainAccounts(encoding: int, bufferSize: nat, remaining: uint32, replies: seq<int>)
    ensures var d := Drain(encoding, bufferSize, remaining, replies);
      d.Some? ==> d.value + TotalConsumed(replies) == remaining
    decreases |replies|
  {
    if replies != [] {
      var got := replies[0];
      if -1 <= got <= PlanRead(encoding, bufferSize, remaining).maxlen {
        DrainAccounts(encoding, bufferSize, remaining - Consumed(got), replies[1..]);
      }
    }
  }

  /** Once the declared data is used up, every read asks for nothing, so it
      ends in END_OF_STREAM (or ERROR if the stream fails). */
  lemma ExhaustedReadSignalsEnd(encoding: int, bufferSize: nat, flags: set<Flag>, got: int)
    requires got == -1 || 0 <= got <= PlanRead(encoding, bufferSize, 0).maxlen
    ensures var r := FlagsAfterRead(flags, got, PlanRead(encoding, bufferSize, 0).maxlen);
      Eof in r || Error in r
  {
  }

  // ---------------------------------------------------------------------
  // The decoder

  /** struct audec, the decoder's private state. */
  class AuState {
    var remaining: uint32
    var encoding: int

    /** malloc: the fields hold whatever the allocation held. */
    constructor ()
    {
    }
  }

  /** Writing two more bytes just past an overwritten prefix extends it. */
  lemma OverwriteExtend(s: seq<byte>, w: seq<byte>, x: seq<byte>)
    requires |x| == 2 && |w| + 2 <= |s|
    ensures Overwrite(s, 0, w)[|w| := x[0]][|w| + 1 := x[1]] == Overwrite(s, 0, w + x)
  {
    assert Overwrite(s, 0, w)[|w| := x[0]][|w| + 1 := x[1]] == w + x + s[|w| + 2..];
  }

  /** One step of the in-place expansion of the `count` bytes `raw` stored
      at `half` in `o`: once samples 0 .. i-1 are written, input byte i is
      still in place, and writing its sample extends the expansion by one. */
  lemma ExpandStep(o: seq<byte>, half: nat, count: nat, raw: seq<byte>, i: nat, bigEndian: bool)
    requires count <= half && half + count <= |o| && raw == o[half..half + count] && i < count
    ensures var cur := Overwrite(o, 0, Expand(raw[..i], bigEndian));
      var s := Int16Bytes(Linear(raw[i]), bigEndian);
      cur[half + i] == raw[i]
      && cur[2 * i := s[0]][2 * i + 1 := s[1]] == Overwrite(o, 0, Expand(raw[..i + 1], bigEndian))
  {
    ExpandSnoc(raw, i, bigEndian);
    OverwriteExtend(o, Expand(raw[..i], bigEndian), Int16Bytes(Linear(raw[i]), bigEndian));
    OverwriteKeeps(o, Expand(raw[..i], bigEndian), half + i);
  }

  /** One pass of the µ-law loop: reads input byte i from `half + i` and
      writes its sample to bytes 2i and 2i+1, extending the expansion of the
      `count` bytes the buffer held at `half` before the loop. */
  method ExpandSample(buf: array<byte>, ghost o: seq<byte>, half: nat, count: nat, ghost raw: seq<byte>, i: nat, bigEndian: bool)
    requires count <= half && half + count <= |o| == buf.Length && raw == o[half..half + count] && i < count
    requires buf[..] == Overwrite(o, 0, Expand(raw[..i], bigEndian))
    modifies buf
    ensures buf[..] == Overwrite(o, 0, Expand(raw[..i + 1], bigEndian))
  {
    ExpandStep(o, half, count, raw, i, bigEndian);
    ghost var cur := buf[..];
    var s := Int16Bytes(Linear(buf[half + i]), bigEndian);
    buf[2 * i] := s[0];
    buf[2 * i + 1] := s[1];
    assert buf[..] == cur[2 * i := s[0]][2 * i + 1 := s[1]];
  }

  /** Before the µ-law loop nothing is written, and after it all of the
      input is expanded. */
  lemma ExpandStart(o: seq<byte>, half: nat, count: nat, bigEndian: bool)
    requires count <= half && half + count <= |o|
    ensures var raw := o[half..half + count];
      Overwrite(o, 0, Expand(raw[..0], bigEndian)) == o && raw[..count] == raw
  {
    var raw := o[half..half + count];
    assert raw[..0] == [];
    assert Overwrite(o, 0, []) == o;
  }

  /** The µ-law loop of AU_read: `count` raw bytes sit at `half`, and sample i
      is written to bytes 2i and 2i+1. Sample i never reaches input byte j > i
      (2i + 1 < half + j), so every byte is read before it is overwritten. */
  method ExpandInPlace(buf: array<byte>, half: nat, count: nat, bigEndian: bool)
    requires count <= half && half + count <= buf.Length
    modifies buf
    ensures buf[..] == Overwrite(old(buf[..]), 0, Expand(old(buf[..])[half..half + count], bigEndian))
  {
    ghost var o := buf[..];
    ghost var raw := o[half..half + count];
    ExpandStart(o, half, count, bigEndian);
    var i := 0;
    while i < count
      invariant 0 <= i <= count
      invariant buf[..] == Overwrite(o, 0, Expand(raw[..i], bigEndian))
    {
      ExpandSample(buf, o, half, count, raw, i, bigEndian);
      i := i + 1;
    }
    assert i == count;
  }

  /** The loop that skips the header past the fixed struct one byte at a
      time, so that it works on unseekable input: one single-byte read for
      each i from HDR_SIZE up to `hsize`, whatever each read returns. */
  method SkipHeader(rw: Stream, hsize: int)
    modifies rw`pos, rw`calls
    ensures |rw.calls| == |old(rw.calls)| + (if hsize > HDR_SIZE then hsize - HDR_SIZE else 0)
    ensures rw.calls[..|old(rw.calls)|] == old(rw.calls)
    ensures forall k :: |old(rw.calls)| <= k < |rw.calls| ==> rw.calls[k].requested == 1 && rw.calls[k].reply <= 1
    ensures rw.pos == old(rw.pos) + Advanced(rw.calls[|old(rw.calls)|..])
  {
    var c := new byte[1];
    var i := HDR_SIZE;
    while i < hsize
      invariant HDR_SIZE <= i <= if hsize > HDR_SIZE then hsize else HDR_SIZE
      invariant |rw.calls| == |old(rw.calls)| + (i - HDR_SIZE)
      invariant rw.calls[..|old(rw.calls)|] == old(rw.calls)
      invariant forall k :: |old(rw.calls)| <= k < |rw.calls| ==> rw.calls[k].requested == 1 && rw.calls[k].reply <= 1
      invariant rw.pos == old(rw.pos) + Advanced(rw.calls[|old(rw.calls)|..])
    {
      ghost var before := rw.calls;
      var r := rw.Read(c, 0, 1);
      assert rw.calls[|old(rw.calls)|..] == before[|old(rw.calls)|..] + [ReadCall(1, r)];
      AdvancedSnoc(before[|old(rw.calls)|..], ReadCall(1, r));
      i := i + 1;
    }
  }

  /** The valid-magic branch of AU_open: take the encoding, the format it
      maps to, the rate, channel count and data size from the header `hdr`,
      then skip the rest of the header. `ok` is false when the encoding is
      unsupported, and then nothing but `dec.encoding` has changed. */
  method ApplyHeader(sample: Sample, dec: AuState, hdr: seq<byte>) returns (ok: bool)
    requires |hdr| == HDR_SIZE
    modifies dec`encoding, dec`remaining, sample`format, sample`rate, sample`channels, sample.rw`pos, sample.rw`calls
    ensures dec.encoding == AsInt(Be32(hdr[12..16]))
    ensures ok <==> FormatOf(dec.encoding).Some?
    ensures !ok ==>
              dec.remaining == old(dec.remaining)
              && sample.format == old(sample.format) && sample.rate == old(sample.rate)
              && sample.channels == old(sample.channels) && sample.rw.calls == old(sample.rw.calls)
    ensures ok ==>
              sample.format == FormatOf(dec.encoding).value
              && sample.rate == Be32(hdr[16..20]) && sample.channels == Be32(hdr[20..24])
              && dec.remaining == Be32(hdr[8..12])
    ensures ok ==>
              |sample.rw.calls| == |old(sample.rw.calls)| + SkipCount(Be32(hdr[4..8]))
              && sample.rw.calls[..|old(sample.rw.calls)|] == old(sample.rw.calls)
              && (forall k :: |old(sample.rw.calls)| <= k < |sample.rw.calls| ==>
                    sample.rw.calls[k].requested == 1 && sample.rw.calls[k].reply <= 1)
              && sample.rw.pos == old(sample.rw.pos) + Advanced(sample.rw.calls[|old(sample.rw.calls)|..])
    ensures !ok ==> sample.rw.pos == old(sample.rw.pos)
  {
    dec.encoding := AsInt(Be32(hdr[12..16]));
    match FormatOf(dec.encoding)
    case None =>
      return false;
    case Some(format) =>
      sample.format := format;
    sample.rate := Be32(hdr[16..20]);
    sample.channels := Be32(hdr[20..24]);
    dec.remaining := Be32(hdr[8..12]);
    var hsize := AsInt(Be32(hdr[4..8]));
    SkipHeader(sample.rw, hsize);
    ok := true;
  }

  /** The headerless branch of AU_open: step back over the 24 bytes read as
      a header and take the stream as 8 kHz mono µ-law without a length. */
  method AssumeLegacy(sample: Sample, dec: AuState)
    modifies dec`encoding, dec`remaining, sample`format, sample`rate, sample`channels, sample.rw`pos
    ensures dec.encoding == AU_ENC_ULAW_8 && dec.remaining == UINT32_MAX
    ensures sample.format == S16SYS && sample.rate == LEGACY_RATE && sample.channels == 1
    ensures sample.rw.pos == if sample.rw.seekable && old(sample.rw.pos) >= HDR_SIZE then old(sample.rw.pos) - HDR_SIZE else old(sample.rw.pos)
  {
    // if seeking back fails, the first 24 samples are lost
    var _ := sample.rw.Seek(-(HDR_SIZE as int), SeekCur);
    dec.encoding := AU_ENC_ULAW_8;
    dec.remaining := UINT32_MAX;
    sample.format := S16SYS;
    sample.rate := LEGACY_RATE;
    sample.channels := 1;
  }

  /** AU_open. `dec` is the decoder_private it allocates (null once freed on
      rejection); `got` and `hdr` are what the header read returned. */
  method Open(sample: Sample, ext: string) returns (res: OpenResult, dec: AuState?, ghost got: int, ghost hdr: seq<byte>)
    modifies sample`flags, sample`format, sample`channels, sample`rate, sample.rw`pos, sample.rw`calls
    ensures |hdr| == HDR_SIZE && (got == -1 || 0 <= got <= HDR_SIZE)
    ensures got == HDR_SIZE ==>
              old(sample.rw.pos) + HDR_SIZE <= |sample.rw.data|
              && hdr == sample.rw.data[old(sample.rw.pos)..old(sample.rw.pos) + HDR_SIZE]
    ensures |sample.rw.calls| > |old(sample.rw.calls)|
    ensures sample.rw.calls[..|old(sample.rw.calls)| + 1] == old(sample.rw.calls) + [ReadCall(HDR_SIZE, got)]
    ensures var v := Classify(got, hdr, ext);
      res == if v.ShortHeader? then Rejected(BadHeader)
             else if v.BadEncoding? then Rejected(UnsupportedEncoding)
             else Accepted
    ensures res.Accepted? <==> dec != null
    ensures dec != null ==> fresh(dec) && sample.flags == {}
    ensures res.Rejected? ==>
              sample.flags == old(sample.flags) && sample.format == old(sample.format)
              && sample.rate == old(sample.rate) && sample.channels == old(sample.channels)
              && sample.rw.calls == old(sample.rw.calls) + [ReadCall(HDR_SIZE, got)]
    ensures var v := Classify(got, hdr, ext);
      v.Described? ==>
        dec != null
        && dec.encoding == v.encoding && dec.remaining == v.dataSize
        && sample.format == v.format && sample.rate == v.rate && sample.channels == v.channels
    ensures var v := Classify(got, hdr, ext);
      v.Described? ==>
        |sample.rw.calls| == |old(sample.rw.calls)| + 1 + v.skip
        && (forall k :: |old(sample.rw.calls)| < k < |sample.rw.calls| ==>
              sample.rw.calls[k].requested == 1 && sample.rw.calls[k].reply <= 1)
        && sample.rw.pos == old(sample.rw.pos) + HDR_SIZE + Advanced(sample.rw.calls[|old(sample.rw.calls)| + 1..])
    ensures var v := Classify(got, hdr, ext);
      v.ShortHeader? ==> sample.rw.pos == old(sample.rw.pos) + Consumed(got)
    ensures var v := Classify(got, hdr, ext);
      v.BadEncoding? || v.Unclaimed? ==> sample.rw.pos == old(sample.rw.pos) + HDR_SIZE
    ensures var v := Classify(got, hdr, ext);
      v.Headerless? ==>
        dec != null
        && dec.encoding == AU_ENC_ULAW_8 && dec.remaining == UINT32_MAX
        && sample.format == S16SYS && sample.rate == LEGACY_RATE && sample.channels == 1
    ensures var v := Classify(got, hdr, ext);
      v.Headerless? ==>
        sample.rw.calls == old(sample.rw.calls) + [ReadCall(HDR_SIZE, got)]
        && sample.rw.pos == if sample.rw.seekable then old(sample.rw.pos) else old(sample.rw.pos) + HDR_SIZE
    ensures var v := Classify(got, hdr, ext);
      v.Unclaimed? ==>
        sample.format == old(sample.format) && sample.rate == old(sample.rate)
        && sample.channels == old(sample.channels)
        && sample.rw.calls == old(sample.rw.calls) + [ReadCall(HDR_SIZE, got)]
  {
    dec := new AuState();
    var buf := new byte[HDR_SIZE];
    var r := sample.rw.Read(buf, 0, HDR_SIZE);
    got, hdr := r, buf[..];
    if r < HDR_SIZE {
      res, dec := Rejected(BadHeader), null;
      return;
    }
    MagicIsDotSnd(buf[..4]);
    if Le32(buf[..4]) == AU_MAGIC {
      var ok := ApplyHeader(sample, dec, buf[..]);
      if !ok {
        res, dec := Rejected(UnsupportedEncoding), null;
        return;
      }
    } else if IsAuExtension(ext) {
      AssumeLegacy(sample, dec);
    }
    sample.flags := {};
    res := Accepted;
  }

  /** The request AU_read makes and the read itself: `offset` is where the
      bytes land in the buffer, `maxlen` how many were asked for, and `input`
      the bytes the stream delivered. */
  method Fetch(sample: Sample, dec: AuState) returns (ret: int, offset: nat, maxlen: nat, ghost input: seq<byte>)
    requires sample.buffer.Length < 0x8000_0000
    modifies sample.buffer, sample.rw`pos, sample.rw`calls
    ensures ReadPlan(offset, maxlen) == PlanRead(dec.encoding, sample.buffer.Length, dec.remaining)
    ensures ret == -1 || 0 <= ret <= maxlen
    ensures sample.rw.calls == old(sample.rw.calls) + [ReadCall(maxlen, ret)]
    ensures |input| == Consumed(ret) && sample.rw.pos == old(sample.rw.pos) + |input|
    ensures ret > 0 ==>
              sample.rw.pos <= |sample.rw.data| && input == sample.rw.data[old(sample.rw.pos)..sample.rw.pos]
    ensures offset + |input| <= sample.buffer.Length
    ensures sample.buffer[..] == Overwrite(old(sample.buffer[..]), offset, input)
  {
    maxlen := sample.buffer.Length;
    offset := 0;
    if dec.encoding == AU_ENC_ULAW_8 {
      // read into the second half, so the samples can be widened into the first
      maxlen := maxlen / 2;
      offset := maxlen;
    }
    if maxlen > dec.remaining {
      maxlen := dec.remaining;
    }
    ret := sample.rw.Read(sample.buffer, offset, maxlen);
    input := if ret > 0 then sample.rw.data[old(sample.rw.pos)..sample.rw.pos] else [];
  }

  /** What AU_read does with the reply `ret` to a request for `maxlen` bytes:
      raise END_OF_STREAM, ERROR or EAGAIN, and count off what was read. */
  method Settle(sample: Sample, dec: AuState, ret: int, maxlen: nat)
    requires ret == -1 || 0 <= ret <= maxlen <= dec.remaining
    modifies sample`flags, dec`remaining
    ensures sample.flags == FlagsAfterRead(old(sample.flags), ret, maxlen)
    ensures dec.remaining == old(dec.remaining) - Consumed(ret)
  {
    if ret == 0 {
      sample.flags := sample.flags + {Eof};
    } else if ret == -1 {
      sample.flags := sample.flags + {Error};
    } else {
      dec.remaining := dec.remaining - ret;
      if ret < maxlen {
        sample.flags := sample.flags + {Eagain};
      }
    }
  }

  /** AU_read: one read of raw bytes into the buffer, the flags it raises,
      the remaining count it consumes, and for µ-law the in-place expansion.
      `got` is what the stream returned and `input` the bytes it delivered. */
  method Read(sample: Sample, dec: AuState, hostBigEndian: bool) returns (n: uint32, ghost got: int, ghost input: seq<byte>)
    requires sample.buffer.Length < 0x8000_0000
    modifies sample`flags, sample.buffer, sample.rw`pos, sample.rw`calls, dec`remaining
    ensures var p := PlanRead(dec.encoding, sample.buffer.Length, old(dec.remaining));
      && (got == -1 || 0 <= got <= p.maxlen)
      && sample.rw.calls == old(sample.rw.calls) + [ReadCall(p.maxlen, got)]
      && sample.flags == FlagsAfterRead(old(sample.flags), got, p.maxlen)
    ensures |input| == Consumed(got) && sample.rw.pos == old(sample.rw.pos) + |input|
    ensures got > 0 ==>
              sample.rw.pos <= |sample.rw.data| && input == sample.rw.data[old(sample.rw.pos)..sample.rw.pos]
    ensures dec.remaining == old(dec.remaining) - Consumed(got)
    ensures n == if got == -1 then UINT32_MAX else if dec.encoding == AU_ENC_ULAW_8 then 2 * got else got
    ensures dec.encoding != AU_ENC_ULAW_8 ==>
              sample.buffer[..] == Overwrite(old(sample.buffer[..]), 0, input)
    ensures dec.encoding == AU_ENC_ULAW_8 ==>
              var p := PlanRead(dec.encoding, sample.buffer.Length, old(dec.remaining));
              sample.buffer[..] == Overwrite(Overwrite(old(sample.buffer[..]), p.offset, input), 0, Expand(input, hostBigEndian))
  {
    var ret, offset, maxlen;
    ret, offset, maxlen, input := Fetch(sample, dec);
    got := ret;
    Settle(sample, dec, ret, maxlen);
    if ret > 0 && dec.encoding == AU_ENC_ULAW_8 {
      assert sample.buffer[offset..offset + ret] == input;
      ExpandInPlace(sample.buffer, offset, ret, hostBigEndian);
      n := 2 * ret;    // twice as many bytes as were read
    } else {
      // a C int of -1 returned as Uint32
      n := if ret == -1 then UINT32_MAX else ret;
    }
  }
}
