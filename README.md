# SDL_sound: the Sun/NeXT .au decoder and the MPEG decoder glue, in Dafny

This project models two decoders of SDL_sound and proves properties of the
model.

- **The .au decoder** (`decoders/au.c`).
  - `AU_open` reads the 24-byte header and checks the ".snd" magic. It maps
    the encoding to an output format, takes the rate, channel count and data
    size, and skips the rest of a longer header one byte at a time.
  - Without the magic, a stream named `*.au` is taken as headerless 8 kHz
    mono µ-law.
  - `AU_read` caps each request at the buffer (half of it for µ-law) and at
    the data remaining. It raises END_OF_STREAM, ERROR or EAGAIN from the
    reply and counts the bytes off the remaining data.
  - For µ-law, `AU_read` widens the bytes, in place, from the second half of
    the buffer into 16-bit samples in the first half. It does this through
    the 256-entry `ulaw_to_linear` table.
- **The MPEG glue** (`src/SDL_sound_mp3.c`).
  - The bridge hands dr_mp3 three stream callbacks: read until full or a
    read returns 0, seek with the origin mapped, and tell.
  - `MP3_open` sets the flags, format, channels, rate and the integer
    duration.
  - `MP3_read` turns the buffer size into a frame count and sets
    END_OF_STREAM on a short count.
  - `MP3_rewind` seeks the decoder back to frame 0.

Layout:

- `sound.dfy` (module `Sound`) holds what both decoders share.
  - Bytes, the sample flags and formats.
  - The `Stream` class: the byte source with its cursor, and a log of the
    reads issued on it.
  - The `Sample` class: the fields a decoder sets.
- `ulaw.dfy` (module `Ulaw`) holds the µ-law side.
  - The table.
  - The G.711 µ-law decoding rule, which the table is proved to follow
    entry by entry.
  - The host-order bytes of a 16-bit sample.
  - `Expand`, the expansion of a run of µ-law bytes.
- `au.dfy` (module `Au`) holds the header classification, the read planning
  and flag rules as functions, and `AU_open` / `AU_read` as methods over the
  `AuState` class.
- `mp3.dfy` (module `Mp3`) holds the bridge callbacks, the arithmetic, and a
  `DrMp3` class.
  - `DrMp3` stands in for the dr_mp3 context.
  - The glue is proved only against the contracts of `DrMp3`.

Parameters stand in for what lies outside the two files:

- The host byte order is `hostBigEndian`, which decides the byte order of
  AUDIO_S16SYS samples.
- The outcome of `drmp3_init` is a `Probe` value.
- The stream's contents and seekability are fields of `Stream`.

Three behaviours of the code are worth stating plainly:

- **Unrecognised stream without the "au" extension.** `AU_open` has no
  `else` after the magic and extension tests (decoders/au.c:144-202), so an
  unrecognised stream without the "au" extension is accepted with the
  decoder state unset and the format fields untouched. `Classify` calls
  this verdict `Unclaimed`, and `Au.Open` returns `Accepted` for it.
- **Headerless data.** The headerless branch sets the remaining count to
  0xFFFFFFFF (decoders/au.c:193), and `AU_read` decrements it like any other
  count (decoders/au.c:276). After 0xFFFFFFFF bytes it reaches 0 and reads
  end.
- **Rewind and END_OF_STREAM.** `MP3_rewind` only seeks the decoder
  (src/SDL_sound_mp3.c:154-159) and leaves the flags alone, END_OF_STREAM
  included.

## Model

| member | source | states |
|---|---|---|
| Au.MagicIsDotSnd | decoders/au.c:143-144 | the little-endian magic word equals AU_MAGIC exactly when the first four header bytes spell ".snd" |
| Au.Be32RoundTrip | decoders/au.c:171-174 | reading a header field big-endian recovers the 32-bit value a writer stored |
| Au.AsInt | decoders/au.c:147-174 | a Uint32 stored in a C int keeps its value modulo 2^32 and lands in the int range (how `encoding` and `hsize` are taken) |
| Au.FormatOf | decoders/au.c:147-169 | a format exists exactly for encodings 1, 2 and 3 (µ-law to S16SYS, linear-8 to S8, linear-16 to S16MSB) |
| Au.AuExtensionSpellings | decoders/au.c:181 | the case-insensitive comparison with "au" accepts exactly "au", "aU", "Au" and "AU" |
| Au.Classify | decoders/au.c:136-202 | a short header read is rejected; the magic leads to an encoding verdict; without the magic the "au" extension decides between headerless µ-law and acceptance with nothing set (each as an if-and-only-if) |
| Au.ClassifyEncodedHeader | decoders/au.c:144-178 | for any header a writer encodes, open recovers the encoding, format, rate, channels and data size, and skips hdr_size - 24 bytes (none when hdr_size is 24 or less, or 2^31 or more); other encodings are rejected |
| Au.SkipHeader | decoders/au.c:176-178 | the skip loop issues exactly max(0, hsize - 24) one-byte reads and nothing else, and the cursor moves by exactly the bytes those reads consumed |
| Au.ApplyHeader | decoders/au.c:144-178 | with the magic: unsupported encoding changes nothing but the encoding, and the stream stays where it was; otherwise format, rate, channels and remaining are the header's big-endian fields, the extra header bytes are read one at a time, and the cursor moves by what they consumed |
| Au.AssumeLegacy | decoders/au.c:181-197 | the headerless fallback: µ-law, remaining 0xFFFFFFFF, S16SYS, 8000 Hz, mono, and the stream stepped back 24 bytes when it can seek |
| Au.Open | decoders/au.c:125-203 | AU_open's result for each verdict, the header read it issues, the fields it sets or leaves, the flags cleared on acceptance and untouched on rejection, and where the stream is left: past what a short read consumed, 24 bytes on for a bad encoding or an unclaimed stream, 24 bytes plus the skipped header bytes consumed for a valid header |
| Au.PlanRead | decoders/au.c:257-268 | the request lands at half the buffer for µ-law and at 0 otherwise, fits the buffer (µ-law: its first half), never exceeds the remaining data, and is the largest such request |
| Au.Fetch | decoders/au.c:257-269 | the read asks for the planned length at the planned offset; the bytes delivered land there and nothing else in the buffer changes |
| Au.FlagsAfterRead | decoders/au.c:270-278 | a reply of 0 adds END_OF_STREAM, -1 adds ERROR, a short positive reply adds EAGAIN, and no other flag changes (each as an if-and-only-if) |
| Au.Settle | decoders/au.c:270-278 | the flags become FlagsAfterRead of the reply and remaining drops by exactly the bytes read, without underflow |
| Au.DrainAccounts | decoders/au.c:267-276 | over any run of reads, bytes delivered plus bytes remaining equal the declared data size |
| Au.ExhaustedReadSignalsEnd | decoders/au.c:267-271 | once nothing remains, a read raises END_OF_STREAM or ERROR |
| Au.ExpandStep | decoders/au.c:282-285 | after samples 0..i-1 are written, input byte i is still in place, and writing sample i extends the expansion |
| Au.ExpandInPlace | decoders/au.c:280-287 | the loop leaves the first 2·count bytes holding the expansion of the original input and the rest of the buffer unchanged, so no input byte is overwritten before it is read |
| Au.Read | decoders/au.c:249-291 | AU_read's request, flags, remaining count and buffer contents, and its return value: twice the bytes read for µ-law, the bytes read otherwise, and UINT32_MAX for -1 |
| Ulaw.TableIsG711 | decoders/au.c:214-247 | every entry of ulaw_to_linear is the G.711 µ-law decoding of its index |
| Ulaw.LinearIsG711 | decoders/au.c:212-247 | the table lookup is the G.711 µ-law decoding |
| Ulaw.G711Range | decoders/au.c:214 | every decoded value lies in -32124..32124, so it fits the Sint16 the table is declared as |
| Ulaw.G711InRow | decoders/au.c:214-247 | within a row of 16 entries the decoding is linear in the column, with the row fixing sign and segment |
| Ulaw.Int16RoundTrip | decoders/au.c:282-285 | the two host-order bytes of a Sint16 (`Int16Bytes`) read back as that Sint16 |
| Ulaw.Expand | decoders/au.c:282-285 | expanding n µ-law bytes produces 2n bytes |
| Ulaw.ExpandAt | decoders/au.c:284-285 | bytes 2i and 2i+1 of the expansion are the sample for input byte i |
| Ulaw.ExpandDecodes | decoders/au.c:284-285 | sample i of the expansion reads back as ulaw_to_linear of input byte i |
| Mp3.WhenceOf | src/SDL_sound_mp3.c:61-73 | exactly the three dr_mp3 origins map to an SDL origin, each to the one of the same name |
| Mp3.WhenceOfOriginOf | src/SDL_sound_mp3.c:61-70 | every SDL origin is reached, by its own dr_mp3 origin only |
| Mp3.BridgeRead | src/SDL_sound_mp3.c:35-54 | returns the bytes delivered, never more than asked; each read asks for exactly the bytes still missing, so none follows a full buffer; every read but the last delivered something, and a short total means the last read returned 0; the bytes land at the destination in stream order |
| Mp3.BridgeSeek | src/SDL_sound_mp3.c:56-75 | an unknown origin fails without seeking; otherwise it succeeds exactly when the stream's seek does not return -1, and then the cursor is the seek target |
| Mp3.BridgeTell | src/SDL_sound_mp3.c:77-83 | the cursor is the stream position or -1, and the call succeeds exactly when it is not -1 |
| Mp3.DrMp3.ReadPcmFramesF32 | src/SDL_sound_mp3.c:147 | the black box returns at most the frames asked for, advances its cursor by that many, and writes nothing past them; nothing ties the count to the reported total |
| Mp3.DrMp3.SeekToPcmFrame | src/SDL_sound_mp3.c:158 | the black box's seek succeeds exactly when its stream can seek, and then moves the decoder to that frame (clamped to the frames the stream yields) |
| Mp3.Duration | src/SDL_sound_mp3.c:118-126 | the duration is -1 for zero frames and otherwise (frames/rate)·1000 + ((frames mod rate)·1000)/rate, which equals the truncated frames·1000/rate |
| Mp3.FramesToRead | src/SDL_sound_mp3.c:146 | the request is the most whole frames of `channels` floats that fit the buffer: n·channels·4 ≤ size < (n+1)·channels·4 |
| Mp3.FramesFit | src/SDL_sound_mp3.c:146-151 | the two divisions in that order give that largest fitting frame count |
| Mp3.Open | src/SDL_sound_mp3.c:97-131 | a failed init rejects with an I/O error if ERROR was already set and "not MPEG" otherwise, changing nothing; success sets flags to exactly CANSEEK, F32, the decoder's channels and rate, and the duration |
| Mp3.Read | src/SDL_sound_mp3.c:141-152 | asks dr_mp3 for exactly FramesToRead(buffer size, channels) frames, one request per call (its request log grows by that count); sets END_OF_STREAM exactly when fewer came back and touches no other flag, and returns rc·channels·4 bytes, which fit the buffer and are the only bytes written |
| Mp3.Rewind | src/SDL_sound_mp3.c:154-159 | succeeds exactly when the decoder can seek, and then puts its frame cursor at 0; on failure the cursor stays; the sample flags (END_OF_STREAM included) are not touched |

## Left out

- The stream itself is not modelled. SDL_RWops / SDL_IOStream are replaced
  by `Sound.Stream`: a byte sequence with a cursor whose reads may deliver
  fewer bytes than asked. For `AU_read` a failed read answers -1; for
  `SDL_ReadIO` it answers 0.
- Allocation is not modelled.
  - The out-of-memory bail-outs of `AU_open` and `MP3_open` are left out
    (decoders/au.c:132-133, src/SDL_sound_mp3.c:100-103).
  - So are `free`, `AU_close` and `MP3_close`, and the dangling
    `decoder_private` after a rejected `AU_open`.
- `AU_init`, `AU_quit`, `MP3_init` and `MP3_quit` are left out: they are
  no-ops.
- The `__Sound_DecoderFunctions_*` registration tables are left out: they
  are static data.
- `SNDDBG` tracing and the text passed to `Sound_SetError` are left out. Only
  the kind of error is kept, as `OpenError`.
- `MP3_seek` is left out: it converts milliseconds to frames in floating
  point (src/SDL_sound_mp3.c:161-168).
- dr_mp3 itself is not modelled.
  - `drmp3_init` and what it reads through the bridge are replaced by the
    `Probe` parameter of `Mp3.Open`.
  - Its bitstream decoding is not modelled.
  - `Mp3.DrMp3.ReadPcmFramesF32`: the float samples it writes are not
    modelled. It states only that it returns at most the frames asked for
    and which bytes it leaves alone. A short count may be the end of the
    stream, a failed read under it or corrupt data; `Mp3.Read` raises
    END_OF_STREAM for all three alike.
- Mp3.Rewind: it is not proved that output after a rewind matches output
  after a fresh open, because the decoded samples are not modelled. Only the
  frame position is reset.
- Field widths of `Sound_AudioInfo` and `total_time` are not modelled; their
  header is not part of this model. Channels and rate are kept as the full
  32-bit header values. Duration is kept as an unbounded integer, without the
  overflow a multi-week MPEG stream would cause.
- Au.Read: it requires a buffer shorter than 2^31 bytes, because `AU_read`
  copies `buffer_size` into an `int`. Larger buffers are not modelled.
- Au.Open: the extension is a string, so a NULL `ext` is not modelled.
- Mp3.Open: it ignores `ext`, as `MP3_open` does.
- Mp3.Open: it requires a probe that reports 1 or 2 channels and a positive
  sample rate. This is what `drmp3_init` reports for an MPEG stream it
  accepts, an assumption about the library that is not checked here.
- Ulaw.Linear: what it computes is stated by the separate lemma
  `Ulaw.LinearIsG711`, not by an `ensures` clause on the function.
