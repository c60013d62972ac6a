/** The tables of sm4_common.c, sixteen entries a row, and the linear map that ties them. */
module Sm4Tables {

  function Xor32(x: bv32, y: bv32): bv32 { x ^ y }

  /** ROL32 by the amounts that the cipher uses. */
  function Rol2(x: bv32): bv32 { (x << 2) | (x >> 30) }
  function Rol8(x: bv32): bv32 { (x << 8) | (x >> 24) }
  function Rol10(x: bv32): bv32 { (x << 10) | (x >> 22) }
  function Rol13(x: bv32): bv32 { (x << 13) | (x >> 19) }
  function Rol16(x: bv32): bv32 { (x << 16) | (x >> 16) }
  function Rol18(x: bv32): bv32 { (x << 18) | (x >> 14) }
  function Rol23(x: bv32): bv32 { (x << 23) | (x >> 9) }
  function Rol24(x: bv32): bv32 { (x << 24) | (x >> 8) }

  /** L32 of sm4_enc.c. */
  function L32(x: bv32): bv32 { Xor32(Xor32(Xor32(Xor32(x, Rol2(x)), Rol10(x)), Rol18(x)), Rol24(x)) }

  function SRow0(c: nat): bv8
    requires c < 16
  {
    [0xd6, 0x90, 0xe9, 0xfe, 0xcc, 0xe1, 0x3d, 0xb7, 0x16, 0xb6, 0x14, 0xc2, 0x28, 0xfb, 0x2c, 0x05][c]
  }

  function SRow1(c: nat): bv8
    requires c < 16
  {
    [0x2b, 0x67, 0x9a, 0x76, 0x2a, 0xbe, 0x04, 0xc3, 0xaa, 0x44, 0x13, 0x26, 0x49, 0x86, 0x06, 0x99][c]
  }

  function SRow2(c: nat): bv8
    requires c < 16
  {
    [0x9c, 0x42, 0x50, 0xf4, 0x91, 0xef, 0x98, 0x7a, 0x33, 0x54, 0x0b, 0x43, 0xed, 0xcf, 0xac, 0x62][c]
  }

  function SRow3(c: nat): bv8
    requires c < 16
  {
    [0xe4, 0xb3, 0x1c, 0xa9, 0xc9, 0x08, 0xe8, 0x95, 0x80, 0xdf, 0x94, 0xfa, 0x75, 0x8f, 0x3f, 0xa6][c]
  }

  function SRow4(c: nat): bv8
    requires c < 16
  {
    [0x47, 0x07, 0xa7, 0xfc, 0xf3, 0x73, 0x17, 0xba, 0x83, 0x59, 0x3c, 0x19, 0xe6, 0x85, 0x4f, 0xa8][c]
  }

  function SRow5(c: nat): bv8
    requires c < 16
  {
    [0x68, 0x6b, 0x81, 0xb2, 0x71, 0x64, 0xda, 0x8b, 0xf8, 0xeb, 0x0f, 0x4b, 0x70, 0x56, 0x9d, 0x35][c]
  }

  function SRow6(c: nat): bv8
    requires c < 16
  {
    [0x1e, 0x24, 0x0e, 0x5e, 0x63, 0x58, 0xd1, 0xa2, 0x25, 0x22, 0x7c, 0x3b, 0x01, 0x21, 0x78, 0x87][c]
  }

  function SRow7(c: nat): bv8
    requires c < 16
  {
    [0xd4, 0x00, 0x46, 0x57, 0x9f, 0xd3, 0x27, 0x52, 0x4c, 0x36, 0x02, 0xe7, 0xa0, 0xc4, 0xc8, 0x9e][c]
  }

  function SRow8(c: nat): bv8
    requires c < 16
  {
    [0xea, 0xbf, 0x8a, 0xd2, 0x40, 0xc7, 0x38, 0xb5, 0xa3, 0xf7, 0xf2, 0xce, 0xf9, 0x61, 0x15, 0xa1][c]
  }

  function SRow9(c: nat): bv8
    requires c < 16
  {
    [0xe0, 0xae, 0x5d, 0xa4, 0x9b, 0x34, 0x1a, 0x55, 0xad, 0x93, 0x32, 0x30, 0xf5, 0x8c, 0xb1, 0xe3][c]
  }

  function SRow10(c: nat): bv8
    requires c < 16
  {
    [0x1d, 0xf6, 0xe2, 0x2e, 0x82, 0x66, 0xca, 0x60, 0xc0, 0x29, 0x23, 0xab, 0x0d, 0x53, 0x4e, 0x6f][c]
  }

  function SRow11(c: nat): bv8
    requires c < 16
  {
    [0xd5, 0xdb, 0x37, 0x45, 0xde, 0xfd, 0x8e, 0x2f, 0x03, 0xff, 0x6a, 0x72, 0x6d, 0x6c, 0x5b, 0x51][c]
  }

  function SRow12(c: nat): bv8
    requires c < 16
  {
    [0x8d, 0x1b, 0xaf, 0x92, 0xbb, 0xdd, 0xbc, 0x7f, 0x11, 0xd9, 0x5c, 0x41, 0x1f, 0x10, 0x5a, 0xd8][c]
  }

  function SRow13(c: nat): bv8
    requires c < 16
  {
    [0x0a, 0xc1, 0x31, 0x88, 0xa5, 0xcd, 0x7b, 0xbd, 0x2d, 0x74, 0xd0, 0x12, 0xb8, 0xe5, 0xb4, 0xb0][c]
  }

  function SRow14(c: nat): bv8
    requires c < 16
  {
    [0x89, 0x69, 0x97, 0x4a, 0x0c, 0x96, 0x77, 0x7e, 0x65, 0xb9, 0xf1, 0x09, 0xc5, 0x6e, 0xc6, 0x84][c]
  }

  function SRow15(c: nat): bv8
    requires c < 16
  {
    [0x18, 0xf0, 0x7d, 0xec, 0x3a, 0xdc, 0x4d, 0x20, 0x79, 0xee, 0x5f, 0x3e, 0xd7, 0xcb, 0x39, 0x48][c]
  }

  function TRow0(c: nat): bv32
    requires c < 16
  {
    [0x8ed55b5b, 0xd0924242, 0x4deaa7a7, 0x06fdfbfb, 0xfccf3333, 0x65e28787, 0xc93df4f4, 0x6bb5dede,
     0x4e165858, 0x6eb4dada, 0x44145050, 0xcac10b0b, 0x8828a0a0, 0x17f8efef, 0x9c2cb0b0, 0x11051414][c]
  }

  function TRow1(c: nat): bv32
    requires c < 16
  {
    [0x872bacac, 0xfb669d9d, 0xf2986a6a, 0xae77d9d9, 0x822aa8a8, 0x46bcfafa, 0x14041010, 0xcfc00f0f,
     0x02a8aaaa, 0x54451111, 0x5f134c4c, 0xbe269898, 0x6d482525, 0x9e841a1a, 0x1e061818, 0xfd9b6666][c]
  }

  function TRow2(c: nat): bv32
    requires c < 16
  {
    [0xec9e7272, 0x4a430909, 0x10514141, 0x24f7d3d3, 0xd5934646, 0x53ecbfbf, 0xf89a6262, 0x927be9e9,
     0xff33cccc, 0x04555151, 0x270b2c2c, 0x4f420d0d, 0x59eeb7b7, 0xf3cc3f3f, 0x1caeb2b2, 0xea638989][c]
  }

  function TRow3(c: nat): bv32
    requires c < 16
  {
    [0x74e79393, 0x7fb1cece, 0x6c1c7070, 0x0daba6a6, 0xedca2727, 0x28082020, 0x48eba3a3, 0xc1975656,
     0x80820202, 0xa3dc7f7f, 0xc4965252, 0x12f9ebeb, 0xa174d5d5, 0xb38d3e3e, 0xc33ffcfc, 0x3ea49a9a][c]
  }

  function TRow4(c: nat): bv32
    requires c < 16
  {
    [0x5b461d1d, 0x1b071c1c, 0x3ba59e9e, 0x0cfff3f3, 0x3ff0cfcf, 0xbf72cdcd, 0x4b175c5c, 0x52b8eaea,
     0x8f810e0e, 0x3d586565, 0xcc3cf0f0, 0x7d196464, 0x7ee59b9b, 0x91871616, 0x734e3d3d, 0x08aaa2a2][c]
  }

  function TRow5(c: nat): bv32
    requires c < 16
  {
    [0xc869a1a1, 0xc76aadad, 0x85830606, 0x7ab0caca, 0xb570c5c5, 0xf4659191, 0xb2d96b6b, 0xa7892e2e,
     0x18fbe3e3, 0x47e8afaf, 0x330f3c3c, 0x674a2d2d, 0xb071c1c1, 0x0e575959, 0xe99f7676, 0xe135d4d4][c]
  }

  function TRow6(c: nat): bv32
    requires c < 16
  {
    [0x661e7878, 0xb4249090, 0x360e3838, 0x265f7979, 0xef628d8d, 0x38596161, 0x95d24747, 0x2aa08a8a,
     0xb1259494, 0xaa228888, 0x8c7df1f1, 0xd73becec, 0x05010404, 0xa5218484, 0x9879e1e1, 0x9b851e1e][c]
  }

  function TRow7(c: nat): bv32
    requires c < 16
  {
    [0x84d75353, 0x00000000, 0x5e471919, 0x0b565d5d, 0xe39d7e7e, 0x9fd04f4f, 0xbb279c9c, 0x1a534949,
     0x7c4d3131, 0xee36d8d8, 0x0a020808, 0x7be49f9f, 0x20a28282, 0xd4c71313, 0xe8cb2323, 0xe69c7a7a][c]
  }

  function TRow8(c: nat): bv32
    requires c < 16
  {
    [0x42e9abab, 0x43bdfefe, 0xa2882a2a, 0x9ad14b4b, 0x40410101, 0xdbc41f1f, 0xd838e0e0, 0x61b7d6d6,
     0x2fa18e8e, 0x2bf4dfdf, 0x3af1cbcb, 0xf6cd3b3b, 0x1dfae7e7, 0xe5608585, 0x41155454, 0x25a38686][c]
  }

  function TRow9(c: nat): bv32
    requires c < 16
  {
    [0x60e38383, 0x16acbaba, 0x295c7575, 0x34a69292, 0xf7996e6e, 0xe434d0d0, 0x721a6868, 0x01545555,
     0x19afb6b6, 0xdf914e4e, 0xfa32c8c8, 0xf030c0c0, 0x21f6d7d7, 0xbc8e3232, 0x75b3c6c6, 0x6fe08f8f][c]
  }

  function TRow10(c: nat): bv32
    requires c < 16
  {
    [0x691d7474, 0x2ef5dbdb, 0x6ae18b8b, 0x962eb8b8, 0x8a800a0a, 0xfe679999, 0xe2c92b2b, 0xe0618181,
     0xc0c30303, 0x8d29a4a4, 0xaf238c8c, 0x07a9aeae, 0x390d3434, 0x1f524d4d, 0x764f3939, 0xd36ebdbd][c]
  }

  function TRow11(c: nat): bv32
    requires c < 16
  {
    [0x81d65757, 0xb7d86f6f, 0xeb37dcdc, 0x51441515, 0xa6dd7b7b, 0x09fef7f7, 0xb68c3a3a, 0x932fbcbc,
     0x0f030c0c, 0x03fcffff, 0xc26ba9a9, 0xba73c9c9, 0xd96cb5b5, 0xdc6db1b1, 0x375a6d6d, 0x15504545][c]
  }

  function TRow12(c: nat): bv32
    requires c < 16
  {
    [0xb98f3636, 0x771b6c6c, 0x13adbebe, 0xda904a4a, 0x57b9eeee, 0xa9de7777, 0x4cbef2f2, 0x837efdfd,
     0x55114444, 0xbdda6767, 0x2c5d7171, 0x45400505, 0x631f7c7c, 0x50104040, 0x325b6969, 0xb8db6363][c]
  }

  function TRow13(c: nat): bv32
    requires c < 16
  {
    [0x220a2828, 0xc5c20707, 0xf531c4c4, 0xa88a2222, 0x31a79696, 0xf9ce3737, 0x977aeded, 0x49bff6f6,
     0x992db4b4, 0xa475d1d1, 0x90d34343, 0x5a124848, 0x58bae2e2, 0x71e69797, 0x64b6d2d2, 0x70b2c2c2][c]
  }

  function TRow14(c: nat): bv32
    requires c < 16
  {
    [0xad8b2626, 0xcd68a5a5, 0xcb955e5e, 0x624b2929, 0x3c0c3030, 0xce945a5a, 0xab76dddd, 0x867ff9f9,
     0xf1649595, 0x5dbbe6e6, 0x35f2c7c7, 0x2d092424, 0xd1c61717, 0xd66fb9b9, 0xdec51b1b, 0x94861212][c]
  }

  function TRow15(c: nat): bv32
    requires c < 16
  {
    [0x78186060, 0x30f3c3c3, 0x897cf5f5, 0x5cefb3b3, 0xd23ae8e8, 0xacdf7373, 0x794c3535, 0xa0208080,
     0x9d78e5e5, 0x56edbbbb, 0x235e7d7d, 0xc63ef8f8, 0x8bd45f5f, 0xe7c82f2f, 0xdd39e4e4, 0x68492121][c]
  }

  /** The S-box. */
  function SM4_S(i: nat): bv8
    requires i < 256
  {
    match i / 16
    case 0 => SRow0(i % 16)
    case 1 => SRow1(i % 16)
    case 2 => SRow2(i % 16)
    case 3 => SRow3(i % 16)
    case 4 => SRow4(i % 16)
    case 5 => SRow5(i % 16)
    case 6 => SRow6(i % 16)
    case 7 => SRow7(i % 16)
    case 8 => SRow8(i % 16)
    case 9 => SRow9(i % 16)
    case 10 => SRow10(i % 16)
    case 11 => SRow11(i % 16)
    case 12 => SRow12(i % 16)
    case 13 => SRow13(i % 16)
    case 14 => SRow14(i % 16)
    case _ => SRow15(i % 16)
  }

  /** The table of ROUND_TBOX. */
  function SM4_T(i: nat): bv32
    requires i < 256
  {
    match i / 16
    case 0 => TRow0(i % 16)
    case 1 => TRow1(i % 16)
    case 2 => TRow2(i % 16)
    case 3 => TRow3(i % 16)
    case 4 => TRow4(i % 16)
    case 5 => TRow5(i % 16)
    case 6 => TRow6(i % 16)
    case 7 => TRow7(i % 16)
    case 8 => TRow8(i % 16)
    case 9 => TRow9(i % 16)
    case 10 => TRow10(i % 16)
    case 11 => TRow11(i % 16)
    case 12 => TRow12(i % 16)
    case 13 => TRow13(i % 16)
    case 14 => TRow14(i % 16)
    case _ => TRow15(i % 16)
  }

  /** A table word is L of the S-box value in the top byte. */
  ghost predicate Entry(t: bv32, s: bv8) { t == L32((s as bv32) << 24) }

  lemma Row0(c: nat)
    requires c < 16
    ensures Entry(TRow0(c), SRow0(c))
  {
    if c < 4 { } else if c < 8 { } else if c < 12 { } else { }
  }

  lemma Row1(c: nat)
    requires c < 16
    ensures Entry(TRow1(c), SRow1(c))
  {
    if c < 4 { } else if c < 8 { } else if c < 12 { } else { }
  }

  lemma Row2(c: nat)
    requires c < 16
    ensures Entry(TRow2(c), SRow2(c))
  {
    if c < 4 { } else if c < 8 { } else if c < 12 { } else { }
  }

  lemma Row3(c: nat)
    requires c < 16
    ensures Entry(TRow3(c), SRow3(c))
  {
    if c < 4 { } else if c < 8 { } else if c < 12 { } else { }
  }

  lemma Row4(c: nat)
    requires c < 16
    ensures Entry(TRow4(c), SRow4(c))
  {
    if c < 4 { } else if c < 8 { } else if c < 12 { } else { }
  }

  lemma Row5(c: nat)
    requires c < 16
    ensures Entry(TRow5(c), SRow5(c))
  {
    if c < 4 { } else if c < 8 { } else if c < 12 { } else { }
  }

  lemma Row6(c: nat)
    requires c < 16
    ensures Entry(TRow6(c), SRow6(c))
  {
    if c < 4 { } else if c < 8 { } else if c < 12 { } else { }
  }

  lemma Row7(c: nat)
    requires c < 16
    ensures Entry(TRow7(c), SRow7(c))
  {
    if c < 4 { } else if c < 8 { } else if c < 12 { } else { }
  }

  lemma Row8(c: nat)
    requires c < 16
    ensures Entry(TRow8(c), SRow8(c))
  {
    if c < 4 { } else if c < 8 { } else if c < 12 { } else { }
  }

  lemma Row9(c: nat)
    requires c < 16
    ensures Entry(TRow9(c), SRow9(c))
  {
    if c < 4 { } else if c < 8 { } else if c < 12 { } else { }
  }

  lemma Row10(c: nat)
    requires c < 16
    ensures Entry(TRow10(c), SRow10(c))
  {
    if c < 4 { } else if c < 8 { } else if c < 12 { } else { }
  }

  lemma Row11(c: nat)
    requires c < 16
    ensures Entry(TRow11(c), SRow11(c))
  {
    if c < 4 { } else if c < 8 { } else if c < 12 { } else { }
  }

  lemma Row12(c: nat)
    requires c < 16
    ensures Entry(TRow12(c), SRow12(c))
  {
    if c < 4 { } else if c < 8 { } else if c < 12 { } else { }
  }

  lemma Row13(c: nat)
    requires c < 16
    ensures Entry(TRow13(c), SRow13(c))
  {
    if c < 4 { } else if c < 8 { } else if c < 12 { } else { }
  }

  lemma Row14(c: nat)
    requires c < 16
    ensures Entry(TRow14(c), SRow14(c))
  {
    if c < 4 { } else if c < 8 { } else if c < 12 { } else { }
  }

  lemma Row15(c: nat)
    requires c < 16
    ensures Entry(TRow15(c), SRow15(c))
  {
    if c < 4 { } else if c < 8 { } else if c < 12 { } else { }
  }

  /** Every entry of SM4_T is L applied to the S-box value in the top byte. */
  lemma TableEntry(i: nat)
    requires i < 256
    ensures Entry(SM4_T(i), SM4_S(i))
  {
    match i / 16
    case 0 => Row0(i % 16);
    case 1 => Row1(i % 16);
    case 2 => Row2(i % 16);
    case 3 => Row3(i % 16);
    case 4 => Row4(i % 16);
    case 5 => Row5(i % 16);
    case 6 => Row6(i % 16);
    case 7 => Row7(i % 16);
    case 8 => Row8(i % 16);
    case 9 => Row9(i % 16);
    case 10 => Row10(i % 16);
    case 11 => Row11(i % 16);
    case 12 => Row12(i % 16);
    case 13 => Row13(i % 16);
    case 14 => Row14(i % 16);
    case _ => Row15(i % 16);
  }
}
