/** The two tables of base64.c say what the functions of Base64 and Base64Groups compute. */
module Base64Tables {
  import opened Octets
  import opened Base64Groups
  import opened Base64

  /** data_bin2ascii, sixteen letters a row. */
  const LETTERS: seq<string> := ["ABCDEFGHIJKLMNOP", "QRSTUVWXYZabcdef", "ghijklmnopqrstuv", "wxyz0123456789+/"]

  /** data_ascii2bin, sixteen entries a row. */
  const ROWS: seq<seq<int>> := [
    [0xFF, 0xFF, 0xFF, 0xFF, 0xFF, 0xFF, 0xFF, 0xFF, 0xFF, 0xE0, 0xF0, 0xFF, 0xFF, 0xF1, 0xFF, 0xFF],
    [0xFF, 0xFF, 0xFF, 0xFF, 0xFF, 0xFF, 0xFF, 0xFF, 0xFF, 0xFF, 0xFF, 0xFF, 0xFF, 0xFF, 0xFF, 0xFF],
    [0xE0, 0xFF, 0xFF, 0xFF, 0xFF, 0xFF, 0xFF, 0xFF, 0xFF, 0xFF, 0xFF, 0x3E, 0xFF, 0xF2, 0xFF, 0x3F],
    [0x34, 0x35, 0x36, 0x37, 0x38, 0x39, 0x3A, 0x3B, 0x3C, 0x3D, 0xFF, 0xFF, 0xFF, 0x00, 0xFF, 0xFF],
    [0xFF, 0x00, 0x01, 0x02, 0x03, 0x04, 0x05, 0x06, 0x07, 0x08, 0x09, 0x0A, 0x0B, 0x0C, 0x0D, 0x0E],
    [0x0F, 0x10, 0x11, 0x12, 0x13, 0x14, 0x15, 0x16, 0x17, 0x18, 0x19, 0xFF, 0xFF, 0xFF, 0xFF, 0xFF],
    [0xFF, 0x1A, 0x1B, 0x1C, 0x1D, 0x1E, 0x1F, 0x20, 0x21, 0x22, 0x23, 0x24, 0x25, 0x26, 0x27, 0x28],
    [0x29, 0x2A, 0x2B, 0x2C, 0x2D, 0x2E, 0x2F, 0x30, 0x31, 0x32, 0x33, 0xFF, 0xFF, 0xFF, 0xFF, 0xFF]
  ]

  lemma Row0(a: byte)
    requires 0 <= a < 16
    ensures ROWS[0][a] == FromAscii(a)
  {
  }

  lemma Row1(a: byte)
    requires 16 <= a < 32
    ensures ROWS[1][a - 16] == FromAscii(a)
  {
  }

  lemma Row2(a: byte)
    requires 32 <= a < 48
    ensures ROWS[2][a - 32] == FromAscii(a)
  {
  }

  lemma Row3(a: byte)
    requires 48 <= a < 64
    ensures ROWS[3][a - 48] == FromAscii(a)
  {
  }

  lemma Row4(a: byte)
    requires 64 <= a < 80
    ensures ROWS[4][a - 64] == FromAscii(a)
  {
  }

  lemma Row5(a: byte)
    requires 80 <= a < 96
    ensures ROWS[5][a - 80] == FromAscii(a)
  {
  }

  lemma Row6(a: byte)
    requires 96 <= a < 112
    ensures ROWS[6][a - 96] == FromAscii(a)
  {
  }

  lemma Row7(a: byte)
    requires 112 <= a < 128
    ensures ROWS[7][a - 112] == FromAscii(a)
  {
  }

  /** conv_ascii2bin. */
  lemma AsciiTable(a: byte)
    ensures FromAscii(a) == if a >= 0x80 then ERROR else ROWS[a / 16][a % 16]
  {
    if a < 16 { Row0(a); } else if a < 32 { Row1(a); } else if a < 48 { Row2(a); } else if a < 64 { Row3(a); }
    else if a < 80 { Row4(a); } else if a < 96 { Row5(a); } else if a < 112 { Row6(a); } else if a < 128 { Row7(a); }
  }

  lemma Letters0(v: int)
    requires 0 <= v < 16
    ensures LETTERS[0][v] as int == ToAscii(v)
  {
  }

  lemma Letters1(v: int)
    requires 16 <= v < 32
    ensures LETTERS[1][v - 16] as int == ToAscii(v)
  {
  }

  lemma Letters2(v: int)
    requires 32 <= v < 48
    ensures LETTERS[2][v - 32] as int == ToAscii(v)
  {
  }

  lemma Letters3(v: int)
    requires 48 <= v < 64
    ensures LETTERS[3][v - 48] as int == ToAscii(v)
  {
  }

  /** conv_bin2ascii. */
  lemma LetterTable(v: int)
    requires 0 <= v < 64
    ensures ToAscii(v) == LETTERS[v / 16][v % 16] as int
  {
    if v < 16 { Letters0(v); } else if v < 32 { Letters1(v); } else if v < 48 { Letters2(v); } else { Letters3(v); }
  }
}
