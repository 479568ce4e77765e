/** The two lookup tables of the field GF(2^8), row by row: the high nibble of the index selects the row
    and the low nibble the entry. Written as matches on the nibbles so that facts about all 256 entries
    are decided by bit-blasting. */
module Gf256Tables {
  import opened Bytes

  // The table `exp`: the powers of the generator 3.
  function Exp(i: byte): byte {
    match i >> 4
    case 0 => (match i & 0xf
        case 0 => 0x01 case 1 => 0x03 case 2 => 0x05 case 3 => 0x0f case 4 => 0x11 case 5 => 0x33 case 6 => 0x55 case 7 => 0xff
        case 8 => 0x1a case 9 => 0x2e case 10 => 0x72 case 11 => 0x96 case 12 => 0xa1 case 13 => 0xf8 case 14 => 0x13 case _ => 0x35)
    case 1 => (match i & 0xf
        case 0 => 0x5f case 1 => 0xe1 case 2 => 0x38 case 3 => 0x48 case 4 => 0xd8 case 5 => 0x73 case 6 => 0x95 case 7 => 0xa4
        case 8 => 0xf7 case 9 => 0x02 case 10 => 0x06 case 11 => 0x0a case 12 => 0x1e case 13 => 0x22 case 14 => 0x66 case _ => 0xaa)
    case 2 => (match i & 0xf
        case 0 => 0xe5 case 1 => 0x34 case 2 => 0x5c case 3 => 0xe4 case 4 => 0x37 case 5 => 0x59 case 6 => 0xeb case 7 => 0x26
        case 8 => 0x6a case 9 => 0xbe case 10 => 0xd9 case 11 => 0x70 case 12 => 0x90 case 13 => 0xab case 14 => 0xe6 case _ => 0x31)
    case 3 => (match i & 0xf
        case 0 => 0x53 case 1 => 0xf5 case 2 => 0x04 case 3 => 0x0c case 4 => 0x14 case 5 => 0x3c case 6 => 0x44 case 7 => 0xcc
        case 8 => 0x4f case 9 => 0xd1 case 10 => 0x68 case 11 => 0xb8 case 12 => 0xd3 case 13 => 0x6e case 14 => 0xb2 case _ => 0xcd)
    case 4 => (match i & 0xf
        case 0 => 0x4c case 1 => 0xd4 case 2 => 0x67 case 3 => 0xa9 case 4 => 0xe0 case 5 => 0x3b case 6 => 0x4d case 7 => 0xd7
        case 8 => 0x62 case 9 => 0xa6 case 10 => 0xf1 case 11 => 0x08 case 12 => 0x18 case 13 => 0x28 case 14 => 0x78 case _ => 0x88)
    case 5 => (match i & 0xf
        case 0 => 0x83 case 1 => 0x9e case 2 => 0xb9 case 3 => 0xd0 case 4 => 0x6b case 5 => 0xbd case 6 => 0xdc case 7 => 0x7f
        case 8 => 0x81 case 9 => 0x98 case 10 => 0xb3 case 11 => 0xce case 12 => 0x49 case 13 => 0xdb case 14 => 0x76 case _ => 0x9a)
    case 6 => (match i & 0xf
        case 0 => 0xb5 case 1 => 0xc4 case 2 => 0x57 case 3 => 0xf9 case 4 => 0x10 case 5 => 0x30 case 6 => 0x50 case 7 => 0xf0
        case 8 => 0x0b case 9 => 0x1d case 10 => 0x27 case 11 => 0x69 case 12 => 0xbb case 13 => 0xd6 case 14 => 0x61 case _ => 0xa3)
    case 7 => (match i & 0xf
        case 0 => 0xfe case 1 => 0x19 case 2 => 0x2b case 3 => 0x7d case 4 => 0x87 case 5 => 0x92 case 6 => 0xad case 7 => 0xec
        case 8 => 0x2f case 9 => 0x71 case 10 => 0x93 case 11 => 0xae case 12 => 0xe9 case 13 => 0x20 case 14 => 0x60 case _ => 0xa0)
    case 8 => (match i & 0xf
        case 0 => 0xfb case 1 => 0x16 case 2 => 0x3a case 3 => 0x4e case 4 => 0xd2 case 5 => 0x6d case 6 => 0xb7 case 7 => 0xc2
        case 8 => 0x5d case 9 => 0xe7 case 10 => 0x32 case 11 => 0x56 case 12 => 0xfa case 13 => 0x15 case 14 => 0x3f case _ => 0x41)
    case 9 => (match i & 0xf
        case 0 => 0xc3 case 1 => 0x5e case 2 => 0xe2 case 3 => 0x3d case 4 => 0x47 case 5 => 0xc9 case 6 => 0x40 case 7 => 0xc0
        case 8 => 0x5b case 9 => 0xed case 10 => 0x2c case 11 => 0x74 case 12 => 0x9c case 13 => 0xbf case 14 => 0xda case _ => 0x75)
    case 10 => (match i & 0xf
        case 0 => 0x9f case 1 => 0xba case 2 => 0xd5 case 3 => 0x64 case 4 => 0xac case 5 => 0xef case 6 => 0x2a case 7 => 0x7e
        case 8 => 0x82 case 9 => 0x9d case 10 => 0xbc case 11 => 0xdf case 12 => 0x7a case 13 => 0x8e case 14 => 0x89 case _ => 0x80)
    case 11 => (match i & 0xf
        case 0 => 0x9b case 1 => 0xb6 case 2 => 0xc1 case 3 => 0x58 case 4 => 0xe8 case 5 => 0x23 case 6 => 0x65 case 7 => 0xaf
        case 8 => 0xea case 9 => 0x25 case 10 => 0x6f case 11 => 0xb1 case 12 => 0xc8 case 13 => 0x43 case 14 => 0xc5 case _ => 0x54)
    case 12 => (match i & 0xf
        case 0 => 0xfc case 1 => 0x1f case 2 => 0x21 case 3 => 0x63 case 4 => 0xa5 case 5 => 0xf4 case 6 => 0x07 case 7 => 0x09
        case 8 => 0x1b case 9 => 0x2d case 10 => 0x77 case 11 => 0x99 case 12 => 0xb0 case 13 => 0xcb case 14 => 0x46 case _ => 0xca)
    case 13 => (match i & 0xf
        case 0 => 0x45 case 1 => 0xcf case 2 => 0x4a case 3 => 0xde case 4 => 0x79 case 5 => 0x8b case 6 => 0x86 case 7 => 0x91
        case 8 => 0xa8 case 9 => 0xe3 case 10 => 0x3e case 11 => 0x42 case 12 => 0xc6 case 13 => 0x51 case 14 => 0xf3 case _ => 0x0e)
    case 14 => (match i & 0xf
        case 0 => 0x12 case 1 => 0x36 case 2 => 0x5a case 3 => 0xee case 4 => 0x29 case 5 => 0x7b case 6 => 0x8d case 7 => 0x8c
        case 8 => 0x8f case 9 => 0x8a case 10 => 0x85 case 11 => 0x94 case 12 => 0xa7 case 13 => 0xf2 case 14 => 0x0d case _ => 0x17)
    case _ => (match i & 0xf
        case 0 => 0x39 case 1 => 0x4b case 2 => 0xdd case 3 => 0x7c case 4 => 0x84 case 5 => 0x97 case 6 => 0xa2 case 7 => 0xfd
        case 8 => 0x1c case 9 => 0x24 case 10 => 0x6c case 11 => 0xb4 case 12 => 0xc7 case 13 => 0x52 case 14 => 0xf6 case _ => 0x01)
  }

  // The table `log`: the exponent of each non-zero element; the entry at 0 is never used.
  function Log(i: byte): byte {
    match i >> 4
    case 0 => (match i & 0xf
        case 0 => 0x00 case 1 => 0x00 case 2 => 0x19 case 3 => 0x01 case 4 => 0x32 case 5 => 0x02 case 6 => 0x1a case 7 => 0xc6
        case 8 => 0x4b case 9 => 0xc7 case 10 => 0x1b case 11 => 0x68 case 12 => 0x33 case 13 => 0xee case 14 => 0xdf case _ => 0x03)
    case 1 => (match i & 0xf
        case 0 => 0x64 case 1 => 0x04 case 2 => 0xe0 case 3 => 0x0e case 4 => 0x34 case 5 => 0x8d case 6 => 0x81 case 7 => 0xef
        case 8 => 0x4c case 9 => 0x71 case 10 => 0x08 case 11 => 0xc8 case 12 => 0xf8 case 13 => 0x69 case 14 => 0x1c case _ => 0xc1)
    case 2 => (match i & 0xf
        case 0 => 0x7d case 1 => 0xc2 case 2 => 0x1d case 3 => 0xb5 case 4 => 0xf9 case 5 => 0xb9 case 6 => 0x27 case 7 => 0x6a
        case 8 => 0x4d case 9 => 0xe4 case 10 => 0xa6 case 11 => 0x72 case 12 => 0x9a case 13 => 0xc9 case 14 => 0x09 case _ => 0x78)
    case 3 => (match i & 0xf
        case 0 => 0x65 case 1 => 0x2f case 2 => 0x8a case 3 => 0x05 case 4 => 0x21 case 5 => 0x0f case 6 => 0xe1 case 7 => 0x24
        case 8 => 0x12 case 9 => 0xf0 case 10 => 0x82 case 11 => 0x45 case 12 => 0x35 case 13 => 0x93 case 14 => 0xda case _ => 0x8e)
    case 4 => (match i & 0xf
        case 0 => 0x96 case 1 => 0x8f case 2 => 0xdb case 3 => 0xbd case 4 => 0x36 case 5 => 0xd0 case 6 => 0xce case 7 => 0x94
        case 8 => 0x13 case 9 => 0x5c case 10 => 0xd2 case 11 => 0xf1 case 12 => 0x40 case 13 => 0x46 case 14 => 0x83 case _ => 0x38)
    case 5 => (match i & 0xf
        case 0 => 0x66 case 1 => 0xdd case 2 => 0xfd case 3 => 0x30 case 4 => 0xbf case 5 => 0x06 case 6 => 0x8b case 7 => 0x62
        case 8 => 0xb3 case 9 => 0x25 case 10 => 0xe2 case 11 => 0x98 case 12 => 0x22 case 13 => 0x88 case 14 => 0x91 case _ => 0x10)
    case 6 => (match i & 0xf
        case 0 => 0x7e case 1 => 0x6e case 2 => 0x48 case 3 => 0xc3 case 4 => 0xa3 case 5 => 0xb6 case 6 => 0x1e case 7 => 0x42
        case 8 => 0x3a case 9 => 0x6b case 10 => 0x28 case 11 => 0x54 case 12 => 0xfa case 13 => 0x85 case 14 => 0x3d case _ => 0xba)
    case 7 => (match i & 0xf
        case 0 => 0x2b case 1 => 0x79 case 2 => 0x0a case 3 => 0x15 case 4 => 0x9b case 5 => 0x9f case 6 => 0x5e case 7 => 0xca
        case 8 => 0x4e case 9 => 0xd4 case 10 => 0xac case 11 => 0xe5 case 12 => 0xf3 case 13 => 0x73 case 14 => 0xa7 case _ => 0x57)
    case 8 => (match i & 0xf
        case 0 => 0xaf case 1 => 0x58 case 2 => 0xa8 case 3 => 0x50 case 4 => 0xf4 case 5 => 0xea case 6 => 0xd6 case 7 => 0x74
        case 8 => 0x4f case 9 => 0xae case 10 => 0xe9 case 11 => 0xd5 case 12 => 0xe7 case 13 => 0xe6 case 14 => 0xad case _ => 0xe8)
    case 9 => (match i & 0xf
        case 0 => 0x2c case 1 => 0xd7 case 2 => 0x75 case 3 => 0x7a case 4 => 0xeb case 5 => 0x16 case 6 => 0x0b case 7 => 0xf5
        case 8 => 0x59 case 9 => 0xcb case 10 => 0x5f case 11 => 0xb0 case 12 => 0x9c case 13 => 0xa9 case 14 => 0x51 case _ => 0xa0)
    case 10 => (match i & 0xf
        case 0 => 0x7f case 1 => 0x0c case 2 => 0xf6 case 3 => 0x6f case 4 => 0x17 case 5 => 0xc4 case 6 => 0x49 case 7 => 0xec
        case 8 => 0xd8 case 9 => 0x43 case 10 => 0x1f case 11 => 0x2d case 12 => 0xa4 case 13 => 0x76 case 14 => 0x7b case _ => 0xb7)
    case 11 => (match i & 0xf
        case 0 => 0xcc case 1 => 0xbb case 2 => 0x3e case 3 => 0x5a case 4 => 0xfb case 5 => 0x60 case 6 => 0xb1 case 7 => 0x86
        case 8 => 0x3b case 9 => 0x52 case 10 => 0xa1 case 11 => 0x6c case 12 => 0xaa case 13 => 0x55 case 14 => 0x29 case _ => 0x9d)
    case 12 => (match i & 0xf
        case 0 => 0x97 case 1 => 0xb2 case 2 => 0x87 case 3 => 0x90 case 4 => 0x61 case 5 => 0xbe case 6 => 0xdc case 7 => 0xfc
        case 8 => 0xbc case 9 => 0x95 case 10 => 0xcf case 11 => 0xcd case 12 => 0x37 case 13 => 0x3f case 14 => 0x5b case _ => 0xd1)
    case 13 => (match i & 0xf
        case 0 => 0x53 case 1 => 0x39 case 2 => 0x84 case 3 => 0x3c case 4 => 0x41 case 5 => 0xa2 case 6 => 0x6d case 7 => 0x47
        case 8 => 0x14 case 9 => 0x2a case 10 => 0x9e case 11 => 0x5d case 12 => 0x56 case 13 => 0xf2 case 14 => 0xd3 case _ => 0xab)
    case 14 => (match i & 0xf
        case 0 => 0x44 case 1 => 0x11 case 2 => 0x92 case 3 => 0xd9 case 4 => 0x23 case 5 => 0x20 case 6 => 0x2e case 7 => 0x89
        case 8 => 0xb4 case 9 => 0x7c case 10 => 0xb8 case 11 => 0x26 case 12 => 0x77 case 13 => 0x99 case 14 => 0xe3 case _ => 0xa5)
    case _ => (match i & 0xf
        case 0 => 0x67 case 1 => 0x4a case 2 => 0xed case 3 => 0xde case 4 => 0xc5 case 5 => 0x31 case 6 => 0xfe case 7 => 0x18
        case 8 => 0x0d case 9 => 0x63 case 10 => 0x8c case 11 => 0x80 case 12 => 0xc0 case 13 => 0xf7 case 14 => 0x70 case _ => 0x07)
  }
}
