/** The µ-law to 16-bit linear expansion the .au decoder applies to encoding 1
    data: the decoder's fixed 256-entry table, the ITU-T G.711 decoding rule it
    was generated from, and the bytes one expanded sample occupies. */
module Ulaw {
  import opened Sound

  type int16 = x: int | -0x8000 <= x < 0x8000

  /** ulaw_to_linear, the 256 entries in source order, sixteen to a row: row r
      holds the samples for bytes 16*r .. 16*r + 15, so the row is the byte's
      high nibble (sign and segment) and the column its low nibble (step). */
  const ULAW_TO_LINEAR: seq<seq<int>> := [
      [-32124, -31100, -30076, -29052, -28028, -27004, -25980, -24956,
       -23932, -22908, -21884, -20860, -19836, -18812, -17788, -16764],
      [-15996, -15484, -14972, -14460, -13948, -13436, -12924, -12412,
       -11900, -11388, -10876, -10364,  -9852,  -9340,  -8828,  -8316],
      [-7932,  -7676,  -7420,  -7164,  -6908,  -6652,  -6396,  -6140,
       -5884,  -5628,  -5372,  -5116,  -4860,  -4604,  -4348,  -4092],
      [-3900,  -3772,  -3644,  -3516,  -3388,  -3260,  -3132,  -3004,
       -2876,  -2748,  -2620,  -2492,  -2364,  -2236,  -2108,  -1980],
      [-1884,  -1820,  -1756,  -1692,  -1628,  -1564,  -1500,  -1436,
       -1372,  -1308,  -1244,  -1180,  -1116,  -1052,   -988,   -924],
      [-876,   -844,   -812,   -780,   -748,   -716,   -684,   -652,
       -620,   -588,   -556,   -524,   -492,   -460,   -428,   -396],
      [-372,   -356,   -340,   -324,   -308,   -292,   -276,   -260,
       -244,   -228,   -212,   -196,   -180,   -164,   -148,   -132],
      [-120,   -112,   -104,    -96,    -88,    -80,    -72,    -64,
       -56,    -48,    -40,    -32,    -24,    -16,     -8,      0],
      [32124,  31100,  30076,  29052,  28028,  27004,  25980,  24956,
       23932,  22908,  21884,  20860,  19836,  18812,  17788,  16764],
      [15996,  15484,  14972,  14460,  13948,  13436,  12924,  12412,
       11900,  11388,  10876,  10364,   9852,   9340,   8828,   8316],
      [7932,   7676,   7420,   7164,   6908,   6652,   6396,   6140,
       5884,   5628,   5372,   5116,   4860,   4604,   4348,   4092],
      [3900,   3772,   3644,   3516,   3388,   3260,   3132,   3004,
       2876,   2748,   2620,   2492,   2364,   2236,   2108,   1980],
      [1884,   1820,   1756,   1692,   1628,   1564,   1500,   1436,
       1372,   1308,   1244,   1180,   1116,   1052,    988,    924],
      [876,    844,    812,    780,    748,    716,    684,    652,
       620,    588,    556,    524,    492,    460,    428,    396],
      [372,    356,    340,    324,    308,    292,    276,    260,
       244,    228,    212,    196,    180,    164,    148,    132],
      [120,    112,    104,     96,     88,     80,     72,     64,
       56,     48,     40,     32,     24,     16,      8,      0]
    ]

  /** ulaw_to_linear[b]; the entries fit the Sint16 the table is declared as. */
  function Linear(b: byte): int16
  {
    TableIsG711(b);
    G711Range(b);
    ULAW_TO_LINEAR[b / 16][b % 16]
  }

  /** 1 << e for the eight segment numbers e. */
  const SEGMENT_SCALE: seq<nat> := [1, 2, 4, 8, 16, 32, 64, 128]

  /** The µ-law decoding rule of ITU-T G.711: the byte is stored complemented;
      its top bit is the sign, the next three bits the segment (exponent) and
      the low four bits the step within the segment. */
  function G711Decode(b: byte): int
  {
    var u := 255 - b;
    var magnitude := ((u % 16) * 8 + 0x84) * SEGMENT_SCALE[(u % 128) / 16] - 0x84;
    if u >= 128 then -magnitude else magnitude
  }

  /** The two bytes a Sint16 occupies in memory (two's complement), in host
      order: AUDIO_S16SYS output is big-endian on a big-endian host. */
  function Int16Bytes(v: int16, bigEndian: bool): (bs: seq<byte>)
    ensures |bs| == 2
  {
    var u := if v < 0 then v + 0x10000 else v;
    if bigEndian then [u / 0x100, u % 0x100] else [u % 0x100, u / 0x100]
  }

  /** Reads back the Sint16 stored in two bytes of host order. */
  function Int16Of(bs: seq<byte>, bigEndian: bool): int16
    requires |bs| == 2
  {
    var u := if bigEndian then bs[0] as int * 0x100 + bs[1] else bs[1] as int * 0x100 + bs[0];
    if u >= 0x8000 then u - 0x10000 else u
  }

  lemma Int16RoundTrip(v: int16, bigEndian: bool)
    ensures Int16Of(Int16Bytes(v, bigEndian), bigEndian) == v
  {
  }

  /** What the loop `dst[i] = ulaw_to_linear[buf[i]]` for i < |raw| leaves in
      the first 2 * |raw| bytes of the buffer: bytes 2i and 2i+1 hold the
      host-order 16-bit expansion of input byte i. */
  function Expand(raw: seq<byte>, bigEndian: bool): (out: seq<byte>)
    ensures |out| == 2 * |raw|
  {
    if raw == [] then []
    else Expand(raw[..|raw| - 1], bigEndian) + Int16Bytes(Linear(raw[|raw| - 1]), bigEndian)
  }

  /** Expanding one more input byte appends its sample. */
  lemma ExpandSnoc(raw: seq<byte>, i: nat, bigEndian: bool)
    requires i < |raw|
    ensures Expand(raw[..i + 1], bigEndian) == Expand(raw[..i], bigEndian) + Int16Bytes(Linear(raw[i]), bigEndian)
  {
    assert raw[..i + 1][..i] == raw[..i];
  }

  /** Input byte i becomes output bytes 2i and 2i+1, and nothing else does. */
  lemma {:induction false} ExpandAt(raw: seq<byte>, bigEndian: bool, i: nat)
    requires i < |raw|
    ensures Expand(raw, bigEndian)[2 * i..2 * i + 2] == Int16Bytes(Linear(raw[i]), bigEndian)
    decreases |raw|
  {
    var init := raw[..|raw| - 1];
    var out := Expand(raw, bigEndian);
    if i < |raw| - 1 {
      ExpandAt(init, bigEndian, i);
      assert out[2 * i..2 * i + 2] == Expand(init, bigEndian)[2 * i..2 * i + 2];
    } else {
      assert out[2 * i..2 * i + 2] == Int16Bytes(Linear(raw[i]), bigEndian);
    }
  }

  /** Sample i of an expansion reads back as the table entry for input byte i. */
  lemma ExpandDecodes(raw: seq<byte>, bigEndian: bool, i: nat)
    requires i < |raw|
    ensures Int16Of(Expand(raw, bigEndian)[2 * i..2 * i + 2], bigEndian) == Linear(raw[i])
  {
    ExpandAt(raw, bigEndian, i);
    Int16RoundTrip(Linear(raw[i]), bigEndian);
  }

  /** The decoder's table is the G.711 µ-law expansion. */
  lemma LinearIsG711(b: byte)
    ensures Linear(b) == G711Decode(b)
  {
    TableIsG711(b);
  }

  lemma G711Range(b: byte)
    ensures -32124 <= G711Decode(b) <= 32124
  {
    var u := 255 - b;
    var e := (u % 128) / 16;
    var step := (u % 16) * 8 + 0x84;
    assert 0x84 <= step <= 252;
    if e == 0 { } else if e == 1 { } else if e == 2 { } else if e == 3 { }
    else if e == 4 { } else if e == 5 { } else if e == 6 { } else { assert e == 7; }
  }

  /** Every entry of the decoder's table is the G.711 expansion of its index. */
  lemma TableIsG711(b: byte)
    ensures |ULAW_TO_LINEAR| == 16 && |ULAW_TO_LINEAR[b / 16]| == 16
    ensures ULAW_TO_LINEAR[b / 16][b % 16] == G711Decode(b)
  {
    var r, c := b / 16, b % 16;
    if r == 0 {
      Row0IsG711(c);
    } else if r == 1 {
      Row1IsG711(c);
    } else if r == 2 {
      Row2IsG711(c);
    } else if r == 3 {
      Row3IsG711(c);
    } else if r == 4 {
      Row4IsG711(c);
    } else if r == 5 {
      Row5IsG711(c);
    } else if r == 6 {
      Row6IsG711(c);
    } else if r == 7 {
      Row7IsG711(c);
    } else if r == 8 {
      Row8IsG711(c);
    } else if r == 9 {
      Row9IsG711(c);
    } else if r == 10 {
      Row10IsG711(c);
    } else if r == 11 {
      Row11IsG711(c);
    } else if r == 12 {
      Row12IsG711(c);
    } else if r == 13 {
      Row13IsG711(c);
    } else if r == 14 {
      Row14IsG711(c);
    } else {
      Row15IsG711(c);
    }
  }

  /** Within row r of the table the G.711 rule is linear in the column c:
      the segment is fixed by the row, and the step is 15 - c. */
  lemma G711InRow(r: nat, c: nat)
    requires r < 16 && c < 16
    ensures G711Decode(16 * r + c)
      == (if r < 8 then -1 else 1) * (((15 - c) * 8 + 0x84) * SEGMENT_SCALE[7 - r % 8] - 0x84)
  {
    var u, hi, lo := 255 - (16 * r + c), 15 - r, 15 - c;
    DivUnique(u, 16, hi, lo);
    if r < 8 {
      DivUnique(r, 8, 0, r);
      DivUnique(u, 128, 1, 16 * (hi - 8) + lo);
      DivUnique(16 * (hi - 8) + lo, 16, hi - 8, lo);
    } else {
      DivUnique(r, 8, 1, r - 8);
      DivUnique(u, 128, 0, u);
    }
  }

  // One lemma per row of the table: each checks its sixteen entries.

  lemma Row0IsG711(c: nat)
    requires c < 16
    ensures ULAW_TO_LINEAR[0][c] == G711Decode(c)
  {
    var u := 255 - c;
    assert u % 16 == 15 - c && (u % 128) / 16 == 7 && u >= 128;
    assert c == 0 || c == 1 || c == 2 || c == 3 || c == 4 || c == 5 || c == 6 || c == 7 || c == 8 || c == 9 || c == 10 || c == 11 || c == 12 || c == 13 || c == 14 || c == 15;
  }

  lemma Row1IsG711(c: nat)
    requires c < 16
    ensures ULAW_TO_LINEAR[1][c] == G711Decode(16 + c)
  {
    G711InRow(1, c);
    assert c == 0 || c == 1 || c == 2 || c == 3 || c == 4 || c == 5 || c == 6 || c == 7 || c == 8 || c == 9 || c == 10 || c == 11 || c == 12 || c == 13 || c == 14 || c == 15;
  }

  lemma Row2IsG711(c: nat)
    requires c < 16
    ensures ULAW_TO_LINEAR[2][c] == G711Decode(32 + c)
  {
    G711InRow(2, c);
    assert c == 0 || c == 1 || c == 2 || c == 3 || c == 4 || c == 5 || c == 6 || c == 7 || c == 8 || c == 9 || c == 10 || c == 11 || c == 12 || c == 13 || c == 14 || c == 15;
  }

  lemma Row3IsG711(c: nat)
    requires c < 16
    ensures ULAW_TO_LINEAR[3][c] == G711Decode(48 + c)
  {
    G711InRow(3, c);
    assert c == 0 || c == 1 || c == 2 || c == 3 || c == 4 || c == 5 || c == 6 || c == 7 || c == 8 || c == 9 || c == 10 || c == 11 || c == 12 || c == 13 || c == 14 || c == 15;
  }

  lemma Row4IsG711(c: nat)
    requires c < 16
    ensures ULAW_TO_LINEAR[4][c] == G711Decode(64 + c)
  {
    G711InRow(4, c);
    assert c == 0 || c == 1 || c == 2 || c == 3 || c == 4 || c == 5 || c == 6 || c == 7 || c == 8 || c == 9 || c == 10 || c == 11 || c == 12 || c == 13 || c == 14 || c == 15;
  }

  lemma Row5IsG711(c: nat)
    requires c < 16
    ensures ULAW_TO_LINEAR[5][c] == G711Decode(80 + c)
  {
    G711InRow(5, c);
    assert c == 0 || c == 1 || c == 2 || c == 3 || c == 4 || c == 5 || c == 6 || c == 7 || c == 8 || c == 9 || c == 10 || c == 11 || c == 12 || c == 13 || c == 14 || c == 15;
  }

  lemma Row6IsG711(c: nat)
    requires c < 16
    ensures ULAW_TO_LINEAR[6][c] == G711Decode(96 + c)
  {
    G711InRow(6, c);
    assert c == 0 || c == 1 || c == 2 || c == 3 || c == 4 || c == 5 || c == 6 || c == 7 || c == 8 || c == 9 || c == 10 || c == 11 || c == 12 || c == 13 || c == 14 || c == 15;
  }

  lemma Row7IsG711(c: nat)
    requires c < 16
    ensures ULAW_TO_LINEAR[7][c] == G711Decode(112 + c)
  {
    G711InRow(7, c);
    assert c == 0 || c == 1 || c == 2 || c == 3 || c == 4 || c == 5 || c == 6 || c == 7 || c == 8 || c == 9 || c == 10 || c == 11 || c == 12 || c == 13 || c == 14 || c == 15;
  }

  lemma Row8IsG711(c: nat)
    requires c < 16
    ensures ULAW_TO_LINEAR[8][c] == G711Decode(128 + c)
  {
    G711InRow(8, c);
    assert c == 0 || c == 1 || c == 2 || c == 3 || c == 4 || c == 5 || c == 6 || c == 7 || c == 8 || c == 9 || c == 10 || c == 11 || c == 12 || c == 13 || c == 14 || c == 15;
  }

  lemma Row9IsG711(c: nat)
    requires c < 16
    ensures ULAW_TO_LINEAR[9][c] == G711Decode(144 + c)
  {
    G711InRow(9, c);
    assert c == 0 || c == 1 || c == 2 || c == 3 || c == 4 || c == 5 || c == 6 || c == 7 || c == 8 || c == 9 || c == 10 || c == 11 || c == 12 || c == 13 || c == 14 || c == 15;
  }

  lemma Row10IsG711(c: nat)
    requires c < 16
    ensures ULAW_TO_LINEAR[10][c] == G711Decode(160 + c)
  {
    G711InRow(10, c);
    assert c == 0 || c == 1 || c == 2 || c == 3 || c == 4 || c == 5 || c == 6 || c == 7 || c == 8 || c == 9 || c == 10 || c == 11 || c == 12 || c == 13 || c == 14 || c == 15;
  }

  lemma Row11IsG711(c: nat)
    requires c < 16
    ensures ULAW_TO_LINEAR[11][c] == G711Decode(176 + c)
  {
    G711InRow(11, c);
    assert c == 0 || c == 1 || c == 2 || c == 3 || c == 4 || c == 5 || c == 6 || c == 7 || c == 8 || c == 9 || c == 10 || c == 11 || c == 12 || c == 13 || c == 14 || c == 15;
  }

  lemma Row12IsG711(c: nat)
    requires c < 16
    ensures ULAW_TO_LINEAR[12][c] == G711Decode(192 + c)
  {
    G711InRow(12, c);
    assert c == 0 || c == 1 || c == 2 || c == 3 || c == 4 || c == 5 || c == 6 || c == 7 || c == 8 || c == 9 || c == 10 || c == 11 || c == 12 || c == 13 || c == 14 || c == 15;
  }

  lemma Row13IsG711(c: nat)
    requires c < 16
    ensures ULAW_TO_LINEAR[13][c] == G711Decode(208 + c)
  {
    G711InRow(13, c);
    assert c == 0 || c == 1 || c == 2 || c == 3 || c == 4 || c == 5 || c == 6 || c == 7 || c == 8 || c == 9 || c == 10 || c == 11 || c == 12 || c == 13 || c == 14 || c == 15;
  }

  lemma Row14IsG711(c: nat)
    requires c < 16
    ensures ULAW_TO_LINEAR[14][c] == G711Decode(224 + c)
  {
    G711InRow(14, c);
    assert c == 0 || c == 1 || c == 2 || c == 3 || c == 4 || c == 5 || c == 6 || c == 7 || c == 8 || c == 9 || c == 10 || c == 11 || c == 12 || c == 13 || c == 14 || c == 15;
  }

  lemma Row15IsG711(c: nat)
    requires c < 16
    ensures ULAW_TO_LINEAR[15][c] == G711Decode(240 + c)
  {
    G711InRow(15, c);
    assert c == 0 || c == 1 || c == 2 || c == 3 || c == 4 || c == 5 || c == 6 || c == 7 || c == 8 || c == 9 || c == 10 || c == 11 || c == 12 || c == 13 || c == 14 || c == 15;
  }
}
