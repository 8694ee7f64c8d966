/** Types shared by the two decoders: bytes, the sample being decoded and its
    flags, and the byte stream the sample reads from. */
module Sound {

  type byte = x: int | 0 <= x < 0x100
  type uint32 = x: int | 0 <= x < 0x1_0000_0000

  const UINT32_MAX: uint32 := 0xFFFF_FFFF

  datatype Option<T> = None | Some(value: T)

  /** The SOUND_SAMPLEFLAG_* signals a decoder raises for its caller. */
  datatype Flag = CanSeek | Eof | Error | Eagain

  /** The output sample encodings these decoders resolve to
      (AUDIO_S8, AUDIO_S16MSB, AUDIO_S16SYS, SDL_AUDIO_F32). */
  datatype AudioFormat = S8 | S16MSB | S16SYS | F32

  /** Why an open declined the stream (the text passed to Sound_SetError). */
  datatype OpenError = BadHeader | UnsupportedEncoding | IoError | NotMpeg

  /** The 1 / 0 an open callback returns, with the reason on 0. */
  datatype OpenResult = Accepted | Rejected(error: OpenError)

  /** SDL_IO_SEEK_SET, SDL_IO_SEEK_CUR, SDL_IO_SEEK_END (SEEK_SET ... in the SDL2 API). */
  datatype Whence = SeekSet | SeekCur | SeekEnd

  /** One read issued on a stream: how many bytes were asked for and what came back. */
  datatype IoCall = ReadCall(requested: nat, reply: int)

  function Min(a: int, b: int): (m: int)
    ensures m <= a && m <= b && (m == a || m == b)
  {
    if a <= b then a else b
  }

  /** Integer division is determined by any quotient and remainder in range. */
  lemma DivUnique(n: int, r: int, d: int, m: int)
    requires r > 0 && n == d * r + m && 0 <= m < r
    ensures n / r == d && n % r == m
  {
    var q, s := n / r, n % r;
    assert (d - q) * r == s - m;
    if d > q {
      MulAtLeast(d - q, r);
    } else if d < q {
      MulAtLeast(q - d, r);
    }
  }

  lemma MulAtLeast(a: int, r: int)
    requires a >= 1 && r > 0
    ensures a * r >= r
  {
    assert a * r == (a - 1) * r + r;
  }

  /** `s` with `w` written over it starting at index `at`. */
  function Overwrite(s: seq<byte>, at: nat, w: seq<byte>): (r: seq<byte>)
    requires at + |w| <= |s|
    ensures |r| == |s|
  {
    s[..at] + w + s[at + |w|..]
  }

  /** A write leaves the bytes past its end as they were. */
  lemma OverwriteKeeps(s: seq<byte>, w: seq<byte>, k: nat)
    requires |w| <= k < |s|
    ensures Overwrite(s, 0, w)[k] == s[k]
  {
  }

  /** Two writes side by side are one write of both. */
  lemma OverwriteAppend(s: seq<byte>, at: nat, w: seq<byte>, x: seq<byte>)
    requires at + |w| + |x| <= |s|
    ensures Overwrite(Overwrite(s, at, w), at + |w|, x) == Overwrite(s, at, w + x)
  {
    assert Overwrite(Overwrite(s, at, w), at + |w|, x) == s[..at] + (w + x) + s[at + |w| + |x|..];
  }

  /** The bytes a run of reads delivered, by their replies. */
  function Delivered(calls: seq<IoCall>): int
  {
    if calls == [] then 0 else Delivered(calls[..|calls| - 1]) + calls[|calls| - 1].reply
  }

  lemma DeliveredSnoc(calls: seq<IoCall>, c: IoCall)
    ensures Delivered(calls + [c]) == Delivered(calls) + c.reply
  {
    assert (calls + [c])[..|calls|] == calls;
  }

  /** Bytes a read actually consumed: nothing on end of data or failure. */
  function Consumed(reply: int): nat
  {
    if reply > 0 then reply else 0
  }

  /** How far a run of reads moved the cursor, by their replies. */
  function Advanced(calls: seq<IoCall>): nat
  {
    if calls == [] then 0 else Advanced(calls[..|calls| - 1]) + Consumed(calls[|calls| - 1].reply)
  }

  lemma AdvancedSnoc(calls: seq<IoCall>, c: IoCall)
    ensures Advanced(calls + [c]) == Advanced(calls) + Consumed(c.reply)
  {
    assert (calls + [c])[..|calls|] == calls;
  }

  /** The seekable byte source a sample reads from (SDL_RWops / SDL_IOStream).
      `data` is everything the source can deliver, `pos` the cursor. A read may
      deliver fewer bytes than asked for, and a failed source answers -1 (or 0
      through the SDL3 interface). `calls` records every read issued, so that
      callers can state what I/O they perform. */
  class Stream {
    var data: seq<byte>
    var pos: nat
    var failed: bool
    const seekable: bool
    ghost var calls: seq<IoCall>

    constructor (data: seq<byte>, seekable: bool)
      ensures this.data == data && pos == 0 && !failed && this.seekable == seekable && calls == []
    {
      this.data := data;
      pos := 0;
      failed := false;
      this.seekable := seekable;
      calls := [];
    }

    /** Copies the next bytes of `data` (at most `n`) into `dst[at..]`. */
    method Deliver(dst: array<byte>, at: nat, n: nat) returns (k: nat)
      requires at + n <= dst.Length
      modifies this`pos, dst
      ensures k <= n
      ensures k == 0 ==> pos == old(pos) && dst[..] == old(dst[..])
      ensures k > 0 ==> old(pos) + k <= |data| && pos == old(pos) + k
      ensures k > 0 ==> dst[..] == Overwrite(old(dst[..]), at, data[old(pos)..pos])
    {
      k := if pos < |data| then Min(n, |data| - pos) else 0;
      if k > 0 {
        forall j | 0 <= j < k {
          dst[at + j] := data[pos + j];
        }
        pos := pos + k;
      }
    }

    /** SDL_RWread(rw, dst + at, 1, n) as the .au decoder sees it: -1 on failure. */
    method Read(dst: array<byte>, at: nat, n: nat) returns (r: int)
      requires at + n <= dst.Length
      modifies this`pos, this`calls, dst
      ensures r == -1 || 0 <= r <= n
      ensures calls == old(calls) + [ReadCall(n, r)]
      ensures r <= 0 ==> pos == old(pos) && dst[..] == old(dst[..])
      ensures r > 0 ==> old(pos) + r <= |data| && pos == old(pos) + r
      ensures r > 0 ==> dst[..] == Overwrite(old(dst[..]), at, data[old(pos)..pos])
    {
      if failed {
        r := -1;
      } else {
        r := Deliver(dst, at, n);
      }
      calls := calls + [ReadCall(n, r)];
    }

    /** SDL_ReadIO(io, dst + at, n): a size_t, so a failure reads as 0. */
    method ReadIO(dst: array<byte>, at: nat, n: nat) returns (r: nat)
      requires at + n <= dst.Length
      modifies this`pos, this`calls, dst
      ensures r <= n
      ensures calls == old(calls) + [ReadCall(n, r)]
      ensures r == 0 ==> pos == old(pos) && dst[..] == old(dst[..])
      ensures r > 0 ==> old(pos) + r <= |data| && pos == old(pos) + r
      ensures r > 0 ==> dst[..] == Overwrite(old(dst[..]), at, data[old(pos)..pos])
    {
      if failed {
        r := 0;
      } else {
        r := Deliver(dst, at, n);
      }
      calls := calls + [ReadCall(n, r)];
    }

    /** The absolute position a seek by `offset` from `whence` aims at. */
    function SeekTarget(offset: int, whence: Whence): int
      reads this
    {
      match whence
      case SeekSet => offset
      case SeekCur => pos + offset
      case SeekEnd => |data| + offset
    }

    /** SDL_SeekIO / SDL_RWseek: the new position, or -1 when the source cannot
        seek or the target lies before the start. */
    method Seek(offset: int, whence: Whence) returns (r: int)
      modifies this`pos
      ensures var target := old(SeekTarget(offset, whence));
        r == if seekable && target >= 0 then target else -1
      ensures r != -1 ==> pos == r
      ensures r == -1 ==> pos == old(pos)
    {
      var target := SeekTarget(offset, whence);
      if seekable && target >= 0 {
        pos := target;
        r := target;
      } else {
        r := -1;
      }
    }

    /** SDL_TellIO: the position, or -1 when the source cannot report it. */
    method Tell() returns (r: int)
      ensures r == if seekable then pos else -1
    {
      r := if seekable then pos else -1;
    }
  }

  /** The open sample the framework hands to a decoder: the public `flags` and
      `actual` format, and the internal stream, scratch buffer and total time. */
  class Sample {
    var flags: set<Flag>
    var format: AudioFormat
    var channels: nat
    var rate: nat
    var totalTime: int
    const buffer: array<byte>
    const rw: Stream

    constructor (rw: Stream, bufferSize: nat)
      ensures this.rw == rw && fresh(buffer) && buffer.Length == bufferSize
      ensures flags == {} && totalTime == -1
    {
      this.rw := rw;
      buffer := new byte[bufferSize];
      flags := {};
      totalTime := -1;
    }
  }
}
