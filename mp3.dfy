/** The MPEG audio decoder glue: the stream callbacks handed to dr_mp3, and
    the open, read and rewind entry points around it. dr_mp3 itself is a
    black box here; DrMp3 stands in for it and is used only through its
    contracts. */
module Mp3 {
  import opened Sound

  type int32 = x: int | -0x8000_0000 <= x < 0x8000_0000

  /** drmp3_seek_origin */
  const DRMP3_SEEK_SET: int := 0
  const DRMP3_SEEK_CUR: int := 1
  const DRMP3_SEEK_END: int := 2

  /** sizeof (float): the bytes of one sample of SDL_AUDIO_F32 output. */
  const FLOAT_SIZE: nat := 4

  // ---------------------------------------------------------------------
  // Stream bridge

  /** The origin dr_mp3 passes back in the stream's own terms. */
  function OriginOf(w: Whence): (origin: int)
  {
    match w
    case SeekSet => DRMP3_SEEK_SET
    case SeekCur => DRMP3_SEEK_CUR
    case SeekEnd => DRMP3_SEEK_END
  }

  /** The switch of mp3_seek: each dr_mp3 origin maps to the SDL origin of the
      same name, and any other value has none. */
  function WhenceOf(origin: int): (w: Option<Whence>)
    ensures w.Some? <==> origin == DRMP3_SEEK_SET || origin == DRMP3_SEEK_CUR || origin == DRMP3_SEEK_END
    ensures w.Some? ==> OriginOf(w.value) == origin
  {
    if origin == DRMP3_SEEK_SET then Some(SeekSet)
    else if origin == DRMP3_SEEK_CUR then Some(SeekCur)
    else if origin == DRMP3_SEEK_END then Some(SeekEnd)
    else None
  }

  /** No two origins share an SDL origin, and every SDL origin is reached. */
  lemma WhenceOfOriginOf(w: Whence)
    ensures WhenceOf(OriginOf(w)) == Some(w)
  {
    match w
    case SeekSet =>
    case SeekCur =>
    case SeekEnd =>
  }

  /** Each read in `calls` asks for a positive count: exactly the bytes of
      `n` that the reads before it have not delivered. */
  predicate AsksForMissing(calls: seq<IoCall>, n: nat)
  {
    forall k :: 0 <= k < |calls| ==> 0 < calls[k].requested == n - Delivered(calls[..k])
  }

  /** A read that asks for what is still missing keeps AsksForMissing. */
  lemma AsksForMissingSnoc(calls: seq<IoCall>, n: nat, c: IoCall)
    requires AsksForMissing(calls, n) && 0 < c.requested == n - Delivered(calls)
    ensures AsksForMissing(calls + [c], n)
  {
    var s := calls + [c];
    assert s[..|calls|] == calls;
    forall k | 0 <= k < |calls|
      ensures s[..k] == calls[..k]
    {
    }
  }

  /** mp3_read: keep reading until `bytesToRead` bytes have arrived at
      `dst[at..]` or a read returns 0. dr_mp3 takes a short count as the end
      of the stream, so a short read is never passed on as such. `delivered`
      is what arrived. */
  method BridgeRead(rw: Stream, dst: array<byte>, at: nat, bytesToRead: nat) returns (total: nat, ghost delivered: seq<byte>)
    requires at + bytesToRead <= dst.Length
    modifies rw`pos, rw`calls, dst
    ensures total == |delivered| <= bytesToRead
    ensures |rw.calls| >= |old(rw.calls)| && rw.calls[..|old(rw.calls)|] == old(rw.calls)
    ensures total == Delivered(rw.calls[|old(rw.calls)|..])
    // each read asks for exactly the bytes still missing, so none is issued once the buffer is full
    ensures AsksForMissing(rw.calls[|old(rw.calls)|..], bytesToRead)
    // every read but the last delivered something, and a short total means the last delivered nothing
    ensures forall k :: |old(rw.calls)| <= k < |rw.calls| - 1 ==> rw.calls[k].reply > 0
    ensures total < bytesToRead ==> |rw.calls| > |old(rw.calls)| && rw.calls[|rw.calls| - 1].reply == 0
    ensures rw.pos == old(rw.pos) + total
    ensures total > 0 ==> rw.pos <= |rw.data| && delivered == rw.data[old(rw.pos)..rw.pos]
    ensures dst[..] == Overwrite(old(dst[..]), at, delivered)
  {
    ghost var log: seq<IoCall> := [];
    var left := bytesToRead;
    total, delivered := 0, [];
    assert Overwrite(dst[..], at, []) == dst[..];
    while left > 0
      invariant total + left == bytesToRead && total == |delivered|
      invariant rw.calls == old(rw.calls) + log
      invariant total == Delivered(log)
      invariant forall k :: 0 <= k < |log| ==> log[k].reply > 0
      invariant AsksForMissing(log, bytesToRead)
      invariant rw.pos == old(rw.pos) + total
      invariant total > 0 ==> rw.pos <= |rw.data| && delivered == rw.data[old(rw.pos)..rw.pos]
      invariant dst[..] == Overwrite(old(dst[..]), at, delivered)
    {
      ghost var p := rw.pos;
      var rc := rw.ReadIO(dst, at + total, left);
      AsksForMissingSnoc(log, bytesToRead, ReadCall(left, rc));
      DeliveredSnoc(log, ReadCall(left, rc));
      log := log + [ReadCall(left, rc)];
      if rc == 0 {
        break;
      }
      ghost var arrived := rw.data[p..rw.pos];
      OverwriteAppend(old(dst[..]), at, delivered, arrived);
      if total > 0 {
        assert rw.data[old(rw.pos)..rw.pos] == delivered + arrived;
      }
      delivered := delivered + arrived;
      left := left - rc;
      total := total + rc;
    }
    assert rw.calls[|old(rw.calls)|..] == log;
  }

  /** mp3_seek: a known origin is passed on to the stream, and the call
      succeeds exactly when the stream's seek does not answer -1. */
  method BridgeSeek(rw: Stream, offset: int32, origin: int) returns (ok: bool)
    modifies rw`pos
    ensures WhenceOf(origin).None? ==> !ok
    ensures WhenceOf(origin).Some? ==>
              ok == (rw.seekable && old(rw.SeekTarget(offset, WhenceOf(origin).value)) >= 0)
    ensures ok ==> rw.pos == old(rw.SeekTarget(offset, WhenceOf(origin).value))
    ensures !ok ==> rw.pos == old(rw.pos)
  {
    match WhenceOf(origin)
    case None =>
      return false;
    case Some(whence) =>
      var r := rw.Seek(offset, whence);
      ok := r != -1;
  }

  /** mp3_tell: the cursor is the stream's position, and the call succeeds
      exactly when that is not -1, that is when the stream can report it. */
  method BridgeTell(rw: Stream) returns (ok: bool, cursor: int)
    ensures cursor == (if rw.seekable then rw.pos else -1)
    ensures ok <==> cursor != -1
    ensures ok <==> rw.seekable
  {
    cursor := rw.Tell();
    ok := cursor != -1;
  }

  // ---------------------------------------------------------------------
  // The decompressor

  /** What drmp3_init finds on the stream: no MPEG audio, or a stream with
      its channel count, sample rate and the PCM frame count
      drmp3_get_pcm_frame_count reports. `decodable` is how many frames the
      bitstream really yields, which the glue never learns: it may differ
      from the reported count (the count is 0 when the stream cannot seek,
      and a corrupt or truncated stream yields fewer). */
  datatype Probe = Unrecognised | Mpeg(channels: nat, sampleRate: nat, totalFrames: nat, decodable: nat)

  /** A stand-in for an initialised drmp3 context: its metadata and the PCM
      frame it will decode next. */
  class DrMp3 {
    const channels: nat
    const sampleRate: nat
    /** What drmp3_get_pcm_frame_count reports. */
    const totalFrames: nat
    /** What the bitstream yields; hidden from the glue. */
    const decodable: nat
    /** Whether the stream under it can seek (mp3_seek succeeds). */
    const seekable: bool
    var cursor: nat
    /** The frame counts asked of drmp3_read_pcm_frames_f32, in order. */
    ghost var requests: seq<nat>

    predicate Valid()
      reads this
    {
      1 <= channels <= 2 && sampleRate > 0 && cursor <= decodable
    }

    constructor (channels: nat, sampleRate: nat, totalFrames: nat, decodable: nat, seekable: bool)
      requires 1 <= channels <= 2 && sampleRate > 0
      ensures Valid() && cursor == 0 && requests == []
      ensures this.channels == channels && this.sampleRate == sampleRate
      ensures this.totalFrames == totalFrames && this.decodable == decodable && this.seekable == seekable
    {
      this.channels := channels;
      this.sampleRate := sampleRate;
      this.totalFrames := totalFrames;
      this.decodable := decodable;
      this.seekable := seekable;
      cursor := 0;
      requests := [];
    }

    /** drmp3_read_pcm_frames_f32: decodes at most `framesToRead` frames into
        the start of `out`, advances past them, and touches nothing past
        them. Nothing ties the count to the reported total: a short count
        may mean the end, a failed read under it, or corrupt data. */
    method ReadPcmFramesF32(framesToRead: nat, out: array<byte>) returns (rc: nat)
      requires Valid() && framesToRead * channels * FLOAT_SIZE <= out.Length
      modifies this`cursor, this`requests, out
      ensures Valid()
      ensures requests == old(requests) + [framesToRead]
      ensures rc <= framesToRead
      ensures cursor == old(cursor) + rc
      ensures forall k :: rc * channels * FLOAT_SIZE <= k < out.Length ==> out[k] == old(out[k])
    {
      rc := Min(framesToRead, decodable - cursor);
      cursor := cursor + rc;
      requests := requests + [framesToRead];
    }

    /** drmp3_seek_to_pcm_frame: fails when the stream cannot seek; a target
        past the end leaves the decoder at the end. */
    method SeekToPcmFrame(frame: nat) returns (ok: bool)
      requires Valid()
      modifies this`cursor
      ensures Valid()
      ensures ok <==> seekable
      ensures ok ==> cursor == Min(frame, decodable)
      ensures !ok ==> cursor == old(cursor)
    {
      if seekable {
        cursor := Min(frame, decodable);
        ok := true;
      } else {
        ok := false;
      }
    }
  }

  // ---------------------------------------------------------------------
  // Arithmetic

  /** MP3_open's duration in milliseconds: unknown (-1) for an empty stream,
      otherwise whole seconds plus the milliseconds of the remainder, which
      is exactly the truncated frames * 1000 / rate. */
  function Duration(frames: nat, rate: nat): (ms: int)
    requires rate > 0
    ensures frames == 0 ==> ms == -1
    ensures frames > 0 ==> ms == frames * 1000 / rate
  {
    if frames == 0 then -1
    else
      var q, m := frames / rate, frames % rate;
      DivUnique(m * 1000, rate, (m * 1000) / rate, (m * 1000) % rate);
      DivUnique(frames * 1000, rate, q * 1000 + (m * 1000) / rate, (m * 1000) % rate);
      q * 1000 + (m * 1000) / rate
  }

  /** MP3_read's request: the most whole frames of `channels` float samples
      that fit in the buffer. */
  function FramesToRead(bufferSize: nat, channels: nat): (n: nat)
    requires channels > 0
    ensures n * channels * FLOAT_SIZE <= bufferSize < (n + 1) * channels * FLOAT_SIZE
  {
    FramesFit(bufferSize, channels);
    (bufferSize / channels) / FLOAT_SIZE
  }

  lemma FramesFit(b: nat, c: nat)
    requires c > 0
    ensures var n := (b / c) / FLOAT_SIZE;
      n * c * FLOAT_SIZE <= b < (n + 1) * c * FLOAT_SIZE
  {
    var pc := b / c;
    var n := pc / 4;
    DivUnique(b, c, pc, b % c);
    DivUnique(pc, 4, n, pc % 4);
    MulMono(4 * n, pc, c);
    MulMono(pc + 1, 4 * (n + 1), c);
    assert (pc + 1) * c == pc * c + c;
    assert n * c * FLOAT_SIZE == (4 * n) * c;
    assert (n + 1) * c * FLOAT_SIZE == (4 * (n + 1)) * c;
  }

  lemma MulMono(a: nat, b: nat, c: nat)
    requires a <= b
    ensures a * c <= b * c
  {
    assert b * c == a * c + (b - a) * c;
  }

  // ---------------------------------------------------------------------
  // The decoder

  /** MP3_open. `probe` is what drmp3_init makes of the stream through the
      bridge; on success `dr` is the context kept as decoder_private. */
  method Open(sample: Sample, probe: Probe) returns (res: OpenResult, dr: DrMp3?)
    requires probe.Mpeg? ==> 1 <= probe.channels <= 2 && probe.sampleRate > 0
    modifies sample`flags, sample`format, sample`channels, sample`rate, sample`totalTime
    ensures probe.Unrecognised? ==>
              res == Rejected(if Error in old(sample.flags) then IoError else NotMpeg) && dr == null
              && sample.flags == old(sample.flags) && sample.format == old(sample.format)
              && sample.channels == old(sample.channels) && sample.rate == old(sample.rate)
              && sample.totalTime == old(sample.totalTime)
    ensures probe.Mpeg? ==>
              res == Accepted && dr != null && fresh(dr) && dr.Valid() && dr.cursor == 0 && dr.requests == []
              && dr.channels == probe.channels && dr.sampleRate == probe.sampleRate
              && dr.totalFrames == probe.totalFrames && dr.decodable == probe.decodable
              && dr.seekable == sample.rw.seekable
    ensures probe.Mpeg? ==>
              sample.flags == {CanSeek} && sample.format == F32
              && sample.channels == probe.channels && sample.rate == probe.sampleRate
              && sample.totalTime == (if probe.totalFrames == 0 then -1 else probe.totalFrames * 1000 / probe.sampleRate)
  {
    match probe
    case Unrecognised =>
      dr := null;
      if Error in sample.flags {
        return Rejected(IoError), null;
      }
      res := Rejected(NotMpeg);
    case Mpeg(channels, sampleRate, totalFrames, decodable) =>
      dr := new DrMp3(channels, sampleRate, totalFrames, decodable, sample.rw.seekable);
      sample.flags := {CanSeek};
      sample.channels := dr.channels;
      sample.rate := dr.sampleRate;
      sample.format := F32;
      sample.totalTime := Duration(dr.totalFrames, dr.sampleRate);
      res := Accepted;
  }

  /** MP3_read: ask for as many frames as fit the buffer, report END_OF_STREAM
      when fewer came back, and return the bytes decoded. `rc` is the frame
      count dr_mp3 returned. */
  method Read(sample: Sample, dr: DrMp3) returns (n: uint32, ghost rc: nat)
    requires dr.Valid() && sample.channels == dr.channels && sample.buffer.Length <= UINT32_MAX
    modifies sample`flags, sample.buffer, dr`cursor, dr`requests
    ensures dr.Valid()
    ensures dr.requests == old(dr.requests) + [FramesToRead(sample.buffer.Length, dr.channels)]
    ensures var request := FramesToRead(sample.buffer.Length, dr.channels);
      rc <= request
      && n == rc * dr.channels * FLOAT_SIZE && n <= sample.buffer.Length
      && sample.flags == (if rc < request then old(sample.flags) + {Eof} else old(sample.flags))
    ensures dr.cursor == old(dr.cursor) + rc
    ensures forall k :: n <= k < sample.buffer.Length ==> sample.buffer[k] == old(sample.buffer[k])
  {
    var channels := sample.channels;
    var framesToRead := FramesToRead(sample.buffer.Length, channels);
    var got := dr.ReadPcmFramesF32(framesToRead, sample.buffer);
    rc := got;
    if got < framesToRead {
      sample.flags := sample.flags + {Eof};
    }
    n := got * channels * FLOAT_SIZE;
  }

  /** MP3_rewind: succeeds exactly when dr_mp3 can seek back to frame 0, and
      then the next read starts at the first frame. */
  method Rewind(dr: DrMp3) returns (ok: bool)
    requires dr.Valid()
    modifies dr`cursor
    ensures dr.Valid()
    ensures ok <==> dr.seekable
    ensures ok ==> dr.cursor == 0
    ensures !ok ==> dr.cursor == old(dr.cursor)
  {
    ok := dr.SeekToPcmFrame(0);
  }
}
