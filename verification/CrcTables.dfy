/** The constant tables of the CRC engine, and the proof that every entry is what the bit loop would compute.
  * A table of 256 entries is written as 16 rows of 16. */
module CrcTables {

  import opened CrcWords

  datatype Sixteen<T> = Sixteen(x0: T, x1: T, x2: T, x3: T, x4: T, x5: T, x6: T, x7: T,
                                x8: T, x9: T, xa: T, xb: T, xc: T, xd: T, xe: T, xf: T) {
    /** The element at the index given by the low four bits of `k`. */
    function At(k: bv32): T {
      var i := k & 0xf;
      if i == 0x0 then x0 else if i == 0x1 then x1 else if i == 0x2 then x2 else if i == 0x3 then x3
      else if i == 0x4 then x4 else if i == 0x5 then x5 else if i == 0x6 then x6 else if i == 0x7 then x7
      else if i == 0x8 then x8 else if i == 0x9 then x9 else if i == 0xa then xa else if i == 0xb then xb
      else if i == 0xc then xc else if i == 0xd then xd else if i == 0xe then xe else xf
    }
  }

  type Table = Sixteen<Sixteen<bv32>>

  function Fetch(t: Table, i: bv32): bv32 {
    t.At(i >> 4).At(i)
  }

  /** x << 8. */
  function Up8(x: Word): Word {
    Double(Double(Double(Double(Double(Double(Double(Double(x))))))))
  }

  function EightSteps(x: Word, poly: Word, top: Word): Word {
    var y := Step(Step(Step(Step(x, poly, top), poly, top), poly, top), poly, top);
    Step(Step(Step(Step(y, poly, top), poly, top), poly, top), poly, top)
  }

  /** The nibble table of the right-shifting CRC-32. */
  const CRC_32BIT_REV_ANSI: Sixteen<bv32> := Sixteen(
    0x00000000, 0x1db71064, 0x3b6e20c8, 0x26d930ac, 0x76dc4190, 0x6b6b51f4, 0x4db26158, 0x5005713c,
    0xedb88320, 0xf00f9344, 0xd6d6a3e8, 0xcb61b38c, 0x9b64c2b0, 0x86d3d2d4, 0xa00ae278, 0xbdbdf21c)

  const CRC_7BIT_SD: Table := Sixteen(
    Sixteen(0x00, 0x12, 0x24, 0x36, 0x48, 0x5a, 0x6c, 0x7e, 0x90, 0x82, 0xb4, 0xa6, 0xd8, 0xca, 0xfc, 0xee),
    Sixteen(0x32, 0x20, 0x16, 0x04, 0x7a, 0x68, 0x5e, 0x4c, 0xa2, 0xb0, 0x86, 0x94, 0xea, 0xf8, 0xce, 0xdc),
    Sixteen(0x64, 0x76, 0x40, 0x52, 0x2c, 0x3e, 0x08, 0x1a, 0xf4, 0xe6, 0xd0, 0xc2, 0xbc, 0xae, 0x98, 0x8a),
    Sixteen(0x56, 0x44, 0x72, 0x60, 0x1e, 0x0c, 0x3a, 0x28, 0xc6, 0xd4, 0xe2, 0xf0, 0x8e, 0x9c, 0xaa, 0xb8),
    Sixteen(0xc8, 0xda, 0xec, 0xfe, 0x80, 0x92, 0xa4, 0xb6, 0x58, 0x4a, 0x7c, 0x6e, 0x10, 0x02, 0x34, 0x26),
    Sixteen(0xfa, 0xe8, 0xde, 0xcc, 0xb2, 0xa0, 0x96, 0x84, 0x6a, 0x78, 0x4e, 0x5c, 0x22, 0x30, 0x06, 0x14),
    Sixteen(0xac, 0xbe, 0x88, 0x9a, 0xe4, 0xf6, 0xc0, 0xd2, 0x3c, 0x2e, 0x18, 0x0a, 0x74, 0x66, 0x50, 0x42),
    Sixteen(0x9e, 0x8c, 0xba, 0xa8, 0xd6, 0xc4, 0xf2, 0xe0, 0x0e, 0x1c, 0x2a, 0x38, 0x46, 0x54, 0x62, 0x70),
    Sixteen(0x82, 0x90, 0xa6, 0xb4, 0xca, 0xd8, 0xee, 0xfc, 0x12, 0x00, 0x36, 0x24, 0x5a, 0x48, 0x7e, 0x6c),
    Sixteen(0xb0, 0xa2, 0x94, 0x86, 0xf8, 0xea, 0xdc, 0xce, 0x20, 0x32, 0x04, 0x16, 0x68, 0x7a, 0x4c, 0x5e),
    Sixteen(0xe6, 0xf4, 0xc2, 0xd0, 0xae, 0xbc, 0x8a, 0x98, 0x76, 0x64, 0x52, 0x40, 0x3e, 0x2c, 0x1a, 0x08),
    Sixteen(0xd4, 0xc6, 0xf0, 0xe2, 0x9c, 0x8e, 0xb8, 0xaa, 0x44, 0x56, 0x60, 0x72, 0x0c, 0x1e, 0x28, 0x3a),
    Sixteen(0x4a, 0x58, 0x6e, 0x7c, 0x02, 0x10, 0x26, 0x34, 0xda, 0xc8, 0xfe, 0xec, 0x92, 0x80, 0xb6, 0xa4),
    Sixteen(0x78, 0x6a, 0x5c, 0x4e, 0x30, 0x22, 0x14, 0x06, 0xe8, 0xfa, 0xcc, 0xde, 0xa0, 0xb2, 0x84, 0x96),
    Sixteen(0x2e, 0x3c, 0x0a, 0x18, 0x66, 0x74, 0x42, 0x50, 0xbe, 0xac, 0x9a, 0x88, 0xf6, 0xe4, 0xd2, 0xc0),
    Sixteen(0x1c, 0x0e, 0x38, 0x2a, 0x54, 0x46, 0x70, 0x62, 0x8c, 0x9e, 0xa8, 0xba, 0xc4, 0xd6, 0xe0, 0xf2))

  const CRC_8BIT_CCITT: Table := Sixteen(
    Sixteen(0x00, 0x07, 0x0e, 0x09, 0x1c, 0x1b, 0x12, 0x15, 0x38, 0x3f, 0x36, 0x31, 0x24, 0x23, 0x2a, 0x2d),
    Sixteen(0x70, 0x77, 0x7e, 0x79, 0x6c, 0x6b, 0x62, 0x65, 0x48, 0x4f, 0x46, 0x41, 0x54, 0x53, 0x5a, 0x5d),
    Sixteen(0xe0, 0xe7, 0xee, 0xe9, 0xfc, 0xfb, 0xf2, 0xf5, 0xd8, 0xdf, 0xd6, 0xd1, 0xc4, 0xc3, 0xca, 0xcd),
    Sixteen(0x90, 0x97, 0x9e, 0x99, 0x8c, 0x8b, 0x82, 0x85, 0xa8, 0xaf, 0xa6, 0xa1, 0xb4, 0xb3, 0xba, 0xbd),
    Sixteen(0xc7, 0xc0, 0xc9, 0xce, 0xdb, 0xdc, 0xd5, 0xd2, 0xff, 0xf8, 0xf1, 0xf6, 0xe3, 0xe4, 0xed, 0xea),
    Sixteen(0xb7, 0xb0, 0xb9, 0xbe, 0xab, 0xac, 0xa5, 0xa2, 0x8f, 0x88, 0x81, 0x86, 0x93, 0x94, 0x9d, 0x9a),
    Sixteen(0x27, 0x20, 0x29, 0x2e, 0x3b, 0x3c, 0x35, 0x32, 0x1f, 0x18, 0x11, 0x16, 0x03, 0x04, 0x0d, 0x0a),
    Sixteen(0x57, 0x50, 0x59, 0x5e, 0x4b, 0x4c, 0x45, 0x42, 0x6f, 0x68, 0x61, 0x66, 0x73, 0x74, 0x7d, 0x7a),
    Sixteen(0x89, 0x8e, 0x87, 0x80, 0x95, 0x92, 0x9b, 0x9c, 0xb1, 0xb6, 0xbf, 0xb8, 0xad, 0xaa, 0xa3, 0xa4),
    Sixteen(0xf9, 0xfe, 0xf7, 0xf0, 0xe5, 0xe2, 0xeb, 0xec, 0xc1, 0xc6, 0xcf, 0xc8, 0xdd, 0xda, 0xd3, 0xd4),
    Sixteen(0x69, 0x6e, 0x67, 0x60, 0x75, 0x72, 0x7b, 0x7c, 0x51, 0x56, 0x5f, 0x58, 0x4d, 0x4a, 0x43, 0x44),
    Sixteen(0x19, 0x1e, 0x17, 0x10, 0x05, 0x02, 0x0b, 0x0c, 0x21, 0x26, 0x2f, 0x28, 0x3d, 0x3a, 0x33, 0x34),
    Sixteen(0x4e, 0x49, 0x40, 0x47, 0x52, 0x55, 0x5c, 0x5b, 0x76, 0x71, 0x78, 0x7f, 0x6a, 0x6d, 0x64, 0x63),
    Sixteen(0x3e, 0x39, 0x30, 0x37, 0x22, 0x25, 0x2c, 0x2b, 0x06, 0x01, 0x08, 0x0f, 0x1a, 0x1d, 0x14, 0x13),
    Sixteen(0xae, 0xa9, 0xa0, 0xa7, 0xb2, 0xb5, 0xbc, 0xbb, 0x96, 0x91, 0x98, 0x9f, 0x8a, 0x8d, 0x84, 0x83),
    Sixteen(0xde, 0xd9, 0xd0, 0xd7, 0xc2, 0xc5, 0xcc, 0xcb, 0xe6, 0xe1, 0xe8, 0xef, 0xfa, 0xfd, 0xf4, 0xf3))

  const CRC_16BIT_CCITT: Table := Sixteen(
    Sixteen(0x0000, 0x1021, 0x2042, 0x3063, 0x4084, 0x50a5, 0x60c6, 0x70e7, 0x8108, 0x9129, 0xa14a, 0xb16b, 0xc18c, 0xd1ad, 0xe1ce, 0xf1ef),
    Sixteen(0x1231, 0x0210, 0x3273, 0x2252, 0x52b5, 0x4294, 0x72f7, 0x62d6, 0x9339, 0x8318, 0xb37b, 0xa35a, 0xd3bd, 0xc39c, 0xf3ff, 0xe3de),
    Sixteen(0x2462, 0x3443, 0x0420, 0x1401, 0x64e6, 0x74c7, 0x44a4, 0x5485, 0xa56a, 0xb54b, 0x8528, 0x9509, 0xe5ee, 0xf5cf, 0xc5ac, 0xd58d),
    Sixteen(0x3653, 0x2672, 0x1611, 0x0630, 0x76d7, 0x66f6, 0x5695, 0x46b4, 0xb75b, 0xa77a, 0x9719, 0x8738, 0xf7df, 0xe7fe, 0xd79d, 0xc7bc),
    Sixteen(0x48c4, 0x58e5, 0x6886, 0x78a7, 0x0840, 0x1861, 0x2802, 0x3823, 0xc9cc, 0xd9ed, 0xe98e, 0xf9af, 0x8948, 0x9969, 0xa90a, 0xb92b),
    Sixteen(0x5af5, 0x4ad4, 0x7ab7, 0x6a96, 0x1a71, 0x0a50, 0x3a33, 0x2a12, 0xdbfd, 0xcbdc, 0xfbbf, 0xeb9e, 0x9b79, 0x8b58, 0xbb3b, 0xab1a),
    Sixteen(0x6ca6, 0x7c87, 0x4ce4, 0x5cc5, 0x2c22, 0x3c03, 0x0c60, 0x1c41, 0xedae, 0xfd8f, 0xcdec, 0xddcd, 0xad2a, 0xbd0b, 0x8d68, 0x9d49),
    Sixteen(0x7e97, 0x6eb6, 0x5ed5, 0x4ef4, 0x3e13, 0x2e32, 0x1e51, 0x0e70, 0xff9f, 0xefbe, 0xdfdd, 0xcffc, 0xbf1b, 0xaf3a, 0x9f59, 0x8f78),
    Sixteen(0x9188, 0x81a9, 0xb1ca, 0xa1eb, 0xd10c, 0xc12d, 0xf14e, 0xe16f, 0x1080, 0x00a1, 0x30c2, 0x20e3, 0x5004, 0x4025, 0x7046, 0x6067),
    Sixteen(0x83b9, 0x9398, 0xa3fb, 0xb3da, 0xc33d, 0xd31c, 0xe37f, 0xf35e, 0x02b1, 0x1290, 0x22f3, 0x32d2, 0x4235, 0x5214, 0x6277, 0x7256),
    Sixteen(0xb5ea, 0xa5cb, 0x95a8, 0x8589, 0xf56e, 0xe54f, 0xd52c, 0xc50d, 0x34e2, 0x24c3, 0x14a0, 0x0481, 0x7466, 0x6447, 0x5424, 0x4405),
    Sixteen(0xa7db, 0xb7fa, 0x8799, 0x97b8, 0xe75f, 0xf77e, 0xc71d, 0xd73c, 0x26d3, 0x36f2, 0x0691, 0x16b0, 0x6657, 0x7676, 0x4615, 0x5634),
    Sixteen(0xd94c, 0xc96d, 0xf90e, 0xe92f, 0x99c8, 0x89e9, 0xb98a, 0xa9ab, 0x5844, 0x4865, 0x7806, 0x6827, 0x18c0, 0x08e1, 0x3882, 0x28a3),
    Sixteen(0xcb7d, 0xdb5c, 0xeb3f, 0xfb1e, 0x8bf9, 0x9bd8, 0xabbb, 0xbb9a, 0x4a75, 0x5a54, 0x6a37, 0x7a16, 0x0af1, 0x1ad0, 0x2ab3, 0x3a92),
    Sixteen(0xfd2e, 0xed0f, 0xdd6c, 0xcd4d, 0xbdaa, 0xad8b, 0x9de8, 0x8dc9, 0x7c26, 0x6c07, 0x5c64, 0x4c45, 0x3ca2, 0x2c83, 0x1ce0, 0x0cc1),
    Sixteen(0xef1f, 0xff3e, 0xcf5d, 0xdf7c, 0xaf9b, 0xbfba, 0x8fd9, 0x9ff8, 0x6e17, 0x7e36, 0x4e55, 0x5e74, 0x2e93, 0x3eb2, 0x0ed1, 0x1ef0))

  /** Only 252 entries are initialised; the last four are zero. */
  const CRC_16BIT_IBM: Table := Sixteen(
    Sixteen(0x0000, 0x8005, 0x800f, 0x000a, 0x801b, 0x001e, 0x0014, 0x8011, 0x8033, 0x0036, 0x003c, 0x8039, 0x0028, 0x802d, 0x8027, 0x0022),
    Sixteen(0x8063, 0x0066, 0x006c, 0x8069, 0x0078, 0x807d, 0x8077, 0x0072, 0x0050, 0x8055, 0x805f, 0x005a, 0x804b, 0x004e, 0x0044, 0x8041),
    Sixteen(0x80c3, 0x00c6, 0x00cc, 0x80c9, 0x00d8, 0x80dd, 0x80d7, 0x00d2, 0x00f0, 0x80f5, 0x80ff, 0x00fa, 0x80eb, 0x00ee, 0x00e4, 0x80e1),
    Sixteen(0x00a0, 0x80a5, 0x80af, 0x00aa, 0x80bb, 0x00be, 0x00b4, 0x80b1, 0x8093, 0x0096, 0x009c, 0x8099, 0x0088, 0x808d, 0x8087, 0x0082),
    Sixteen(0x8183, 0x0186, 0x018c, 0x8189, 0x0198, 0x819d, 0x8197, 0x0192, 0x01b0, 0x81b5, 0x81bf, 0x01ba, 0x81ab, 0x01ae, 0x01a4, 0x81a1),
    Sixteen(0x01e0, 0x81e5, 0x81ef, 0x01ea, 0x81fb, 0x01fe, 0x01f4, 0x81f1, 0x81d3, 0x01d6, 0x01dc, 0x81d9, 0x01c8, 0x81cd, 0x81c7, 0x01c2),
    Sixteen(0x0140, 0x8145, 0x814f, 0x014a, 0x815b, 0x015e, 0x0154, 0x8151, 0x8173, 0x0176, 0x017c, 0x8179, 0x0168, 0x816d, 0x8167, 0x0162),
    Sixteen(0x8123, 0x0126, 0x012c, 0x8129, 0x0138, 0x813d, 0x8137, 0x0132, 0x0110, 0x8115, 0x811f, 0x011a, 0x810b, 0x010e, 0x0104, 0x8101),
    Sixteen(0x8303, 0x0306, 0x030c, 0x8309, 0x0318, 0x831d, 0x8317, 0x0312, 0x0330, 0x8335, 0x833f, 0x033a, 0x832b, 0x032e, 0x0324, 0x8321),
    Sixteen(0x0360, 0x8365, 0x836f, 0x036a, 0x837b, 0x037e, 0x0374, 0x8371, 0x8353, 0x0356, 0x035c, 0x8359, 0x0348, 0x834d, 0x8347, 0x0342),
    Sixteen(0x03c0, 0x83c5, 0x83cf, 0x03ca, 0x83db, 0x03de, 0x03d4, 0x83d1, 0x83f3, 0x03f6, 0x03fc, 0x83f9, 0x03e8, 0x83ed, 0x83e7, 0x03e2),
    Sixteen(0x83a3, 0x03a6, 0x03ac, 0x83a9, 0x03b8, 0x83bd, 0x83b7, 0x03b2, 0x0390, 0x8395, 0x839f, 0x039a, 0x838b, 0x038e, 0x0384, 0x8381),
    Sixteen(0x0280, 0x8285, 0x828f, 0x028a, 0x829b, 0x029e, 0x0294, 0x8291, 0x82b3, 0x02b6, 0x02bc, 0x82b9, 0x02a8, 0x82ad, 0x82a7, 0x02a2),
    Sixteen(0x82e3, 0x02e6, 0x02ec, 0x82e9, 0x02f8, 0x82fd, 0x82f7, 0x02f2, 0x02d0, 0x82d5, 0x82df, 0x02da, 0x82cb, 0x02ce, 0x02c4, 0x82c1),
    Sixteen(0x8243, 0x0246, 0x024c, 0x8249, 0x0258, 0x825d, 0x8257, 0x0252, 0x0270, 0x8275, 0x827f, 0x027a, 0x826b, 0x026e, 0x0264, 0x8261),
    Sixteen(0x0220, 0x8225, 0x822f, 0x022a, 0x823b, 0x023e, 0x0234, 0x8231, 0x8213, 0x0216, 0x021c, 0x8219, 0x0000, 0x0000, 0x0000, 0x0000))

  const CRC_32BIT_ANSI: Table := Sixteen(
    Sixteen(0x00000000, 0x04c11db7, 0x09823b6e, 0x0d4326d9, 0x130476dc, 0x17c56b6b, 0x1a864db2, 0x1e475005,
            0x2608edb8, 0x22c9f00f, 0x2f8ad6d6, 0x2b4bcb61, 0x350c9b64, 0x31cd86d3, 0x3c8ea00a, 0x384fbdbd),
    Sixteen(0x4c11db70, 0x48d0c6c7, 0x4593e01e, 0x4152fda9, 0x5f15adac, 0x5bd4b01b, 0x569796c2, 0x52568b75,
            0x6a1936c8, 0x6ed82b7f, 0x639b0da6, 0x675a1011, 0x791d4014, 0x7ddc5da3, 0x709f7b7a, 0x745e66cd),
    Sixteen(0x9823b6e0, 0x9ce2ab57, 0x91a18d8e, 0x95609039, 0x8b27c03c, 0x8fe6dd8b, 0x82a5fb52, 0x8664e6e5,
            0xbe2b5b58, 0xbaea46ef, 0xb7a96036, 0xb3687d81, 0xad2f2d84, 0xa9ee3033, 0xa4ad16ea, 0xa06c0b5d),
    Sixteen(0xd4326d90, 0xd0f37027, 0xddb056fe, 0xd9714b49, 0xc7361b4c, 0xc3f706fb, 0xceb42022, 0xca753d95,
            0xf23a8028, 0xf6fb9d9f, 0xfbb8bb46, 0xff79a6f1, 0xe13ef6f4, 0xe5ffeb43, 0xe8bccd9a, 0xec7dd02d),
    Sixteen(0x34867077, 0x30476dc0, 0x3d044b19, 0x39c556ae, 0x278206ab, 0x23431b1c, 0x2e003dc5, 0x2ac12072,
            0x128e9dcf, 0x164f8078, 0x1b0ca6a1, 0x1fcdbb16, 0x018aeb13, 0x054bf6a4, 0x0808d07d, 0x0cc9cdca),
    Sixteen(0x7897ab07, 0x7c56b6b0, 0x71159069, 0x75d48dde, 0x6b93dddb, 0x6f52c06c, 0x6211e6b5, 0x66d0fb02,
            0x5e9f46bf, 0x5a5e5b08, 0x571d7dd1, 0x53dc6066, 0x4d9b3063, 0x495a2dd4, 0x44190b0d, 0x40d816ba),
    Sixteen(0xaca5c697, 0xa864db20, 0xa527fdf9, 0xa1e6e04e, 0xbfa1b04b, 0xbb60adfc, 0xb6238b25, 0xb2e29692,
            0x8aad2b2f, 0x8e6c3698, 0x832f1041, 0x87ee0df6, 0x99a95df3, 0x9d684044, 0x902b669d, 0x94ea7b2a),
    Sixteen(0xe0b41de7, 0xe4750050, 0xe9362689, 0xedf73b3e, 0xf3b06b3b, 0xf771768c, 0xfa325055, 0xfef34de2,
            0xc6bcf05f, 0xc27dede8, 0xcf3ecb31, 0xcbffd686, 0xd5b88683, 0xd1799b34, 0xdc3abded, 0xd8fba05a),
    Sixteen(0x690ce0ee, 0x6dcdfd59, 0x608edb80, 0x644fc637, 0x7a089632, 0x7ec98b85, 0x738aad5c, 0x774bb0eb,
            0x4f040d56, 0x4bc510e1, 0x46863638, 0x42472b8f, 0x5c007b8a, 0x58c1663d, 0x558240e4, 0x51435d53),
    Sixteen(0x251d3b9e, 0x21dc2629, 0x2c9f00f0, 0x285e1d47, 0x36194d42, 0x32d850f5, 0x3f9b762c, 0x3b5a6b9b,
            0x0315d626, 0x07d4cb91, 0x0a97ed48, 0x0e56f0ff, 0x1011a0fa, 0x14d0bd4d, 0x19939b94, 0x1d528623),
    Sixteen(0xf12f560e, 0xf5ee4bb9, 0xf8ad6d60, 0xfc6c70d7, 0xe22b20d2, 0xe6ea3d65, 0xeba91bbc, 0xef68060b,
            0xd727bbb6, 0xd3e6a601, 0xdea580d8, 0xda649d6f, 0xc423cd6a, 0xc0e2d0dd, 0xcda1f604, 0xc960ebb3),
    Sixteen(0xbd3e8d7e, 0xb9ff90c9, 0xb4bcb610, 0xb07daba7, 0xae3afba2, 0xaafbe615, 0xa7b8c0cc, 0xa379dd7b,
            0x9b3660c6, 0x9ff77d71, 0x92b45ba8, 0x9675461f, 0x8832161a, 0x8cf30bad, 0x81b02d74, 0x857130c3),
    Sixteen(0x5d8a9099, 0x594b8d2e, 0x5408abf7, 0x50c9b640, 0x4e8ee645, 0x4a4ffbf2, 0x470cdd2b, 0x43cdc09c,
            0x7b827d21, 0x7f436096, 0x7200464f, 0x76c15bf8, 0x68860bfd, 0x6c47164a, 0x61043093, 0x65c52d24),
    Sixteen(0x119b4be9, 0x155a565e, 0x18197087, 0x1cd86d30, 0x029f3d35, 0x065e2082, 0x0b1d065b, 0x0fdc1bec,
            0x3793a651, 0x3352bbe6, 0x3e119d3f, 0x3ad08088, 0x2497d08d, 0x2056cd3a, 0x2d15ebe3, 0x29d4f654),
    Sixteen(0xc5a92679, 0xc1683bce, 0xcc2b1d17, 0xc8ea00a0, 0xd6ad50a5, 0xd26c4d12, 0xdf2f6bcb, 0xdbee767c,
            0xe3a1cbc1, 0xe760d676, 0xea23f0af, 0xeee2ed18, 0xf0a5bd1d, 0xf464a0aa, 0xf9278673, 0xfde69bc4),
    Sixteen(0x89b8fd09, 0x8d79e0be, 0x803ac667, 0x84fbdbd0, 0x9abc8bd5, 0x9e7d9662, 0x933eb0bb, 0x97ffad0c,
            0xafb010b1, 0xab710d06, 0xa6322bdf, 0xa2f33668, 0xbcb4666d, 0xb8757bda, 0xb5365d03, 0xb1f740b4))

  /** The entry of the `w`-bit table of a polynomial, as the bit loop computes it from the index at the top. */
  lemma Sd7Rows0(i: bv32)
    requires 0x0 <= i < 0x20
    ensures Fetch(CRC_7BIT_SD, i) == EightSteps(Word(i), Word(0x12), Word(0x80)).v & 0xff
  {
    if i >> 4 == 0x0 {
    }
  }

  lemma Sd7Rows2(i: bv32)
    requires 0x20 <= i < 0x40
    ensures Fetch(CRC_7BIT_SD, i) == EightSteps(Word(i), Word(0x12), Word(0x80)).v & 0xff
  {
    if i >> 4 == 0x2 {
    }
  }

  lemma Sd7Rows4(i: bv32)
    requires 0x40 <= i < 0x60
    ensures Fetch(CRC_7BIT_SD, i) == EightSteps(Word(i), Word(0x12), Word(0x80)).v & 0xff
  {
    if i >> 4 == 0x4 {
    }
  }

  lemma Sd7Rows6(i: bv32)
    requires 0x60 <= i < 0x80
    ensures Fetch(CRC_7BIT_SD, i) == EightSteps(Word(i), Word(0x12), Word(0x80)).v & 0xff
  {
    if i >> 4 == 0x6 {
    }
  }

  lemma Sd7Rows8(i: bv32)
    requires 0x80 <= i < 0xa0
    ensures Fetch(CRC_7BIT_SD, i) == EightSteps(Word(i), Word(0x12), Word(0x80)).v & 0xff
  {
    if i >> 4 == 0x8 {
    }
  }

  lemma Sd7Rowsa(i: bv32)
    requires 0xa0 <= i < 0xc0
    ensures Fetch(CRC_7BIT_SD, i) == EightSteps(Word(i), Word(0x12), Word(0x80)).v & 0xff
  {
    if i >> 4 == 0xa {
    }
  }

  lemma Sd7Rowsc(i: bv32)
    requires 0xc0 <= i < 0xe0
    ensures Fetch(CRC_7BIT_SD, i) == EightSteps(Word(i), Word(0x12), Word(0x80)).v & 0xff
  {
    if i >> 4 == 0xc {
    }
  }

  lemma Sd7Rowse(i: bv32)
    requires 0xe0 <= i < 0x100
    ensures Fetch(CRC_7BIT_SD, i) == EightSteps(Word(i), Word(0x12), Word(0x80)).v & 0xff
  {
    if i >> 4 == 0xe {
    }
  }

  lemma Ccitt8Rows0(i: bv32)
    requires 0x0 <= i < 0x20
    ensures Fetch(CRC_8BIT_CCITT, i) == EightSteps(Word(i), Word(0x7), Word(0x80)).v & 0xff
  {
    if i >> 4 == 0x0 {
    }
  }

  lemma Ccitt8Rows2(i: bv32)
    requires 0x20 <= i < 0x40
    ensures Fetch(CRC_8BIT_CCITT, i) == EightSteps(Word(i), Word(0x7), Word(0x80)).v & 0xff
  {
    if i >> 4 == 0x2 {
    }
  }

  lemma Ccitt8Rows4(i: bv32)
    requires 0x40 <= i < 0x60
    ensures Fetch(CRC_8BIT_CCITT, i) == EightSteps(Word(i), Word(0x7), Word(0x80)).v & 0xff
  {
    if i >> 4 == 0x4 {
    }
  }

  lemma Ccitt8Rows6(i: bv32)
    requires 0x60 <= i < 0x80
    ensures Fetch(CRC_8BIT_CCITT, i) == EightSteps(Word(i), Word(0x7), Word(0x80)).v & 0xff
  {
    if i >> 4 == 0x6 {
    }
  }

  lemma Ccitt8Rows8(i: bv32)
    requires 0x80 <= i < 0xa0
    ensures Fetch(CRC_8BIT_CCITT, i) == EightSteps(Word(i), Word(0x7), Word(0x80)).v & 0xff
  {
    if i >> 4 == 0x8 {
    }
  }

  lemma Ccitt8Rowsa(i: bv32)
    requires 0xa0 <= i < 0xc0
    ensures Fetch(CRC_8BIT_CCITT, i) == EightSteps(Word(i), Word(0x7), Word(0x80)).v & 0xff
  {
    if i >> 4 == 0xa {
    }
  }

  lemma Ccitt8Rowsc(i: bv32)
    requires 0xc0 <= i < 0xe0
    ensures Fetch(CRC_8BIT_CCITT, i) == EightSteps(Word(i), Word(0x7), Word(0x80)).v & 0xff
  {
    if i >> 4 == 0xc {
    }
  }

  lemma Ccitt8Rowse(i: bv32)
    requires 0xe0 <= i < 0x100
    ensures Fetch(CRC_8BIT_CCITT, i) == EightSteps(Word(i), Word(0x7), Word(0x80)).v & 0xff
  {
    if i >> 4 == 0xe {
    }
  }

  lemma Ccitt16Rows0(i: bv32)
    requires 0x0 <= i < 0x20
    ensures Fetch(CRC_16BIT_CCITT, i) == EightSteps(Up8(Word(i)), Word(0x1021), Word(0x8000)).v & 0xffff
  {
    if i >> 4 == 0x0 {
    }
  }

  lemma Ccitt16Rows2(i: bv32)
    requires 0x20 <= i < 0x40
    ensures Fetch(CRC_16BIT_CCITT, i) == EightSteps(Up8(Word(i)), Word(0x1021), Word(0x8000)).v & 0xffff
  {
    if i >> 4 == 0x2 {
    }
  }

  lemma Ccitt16Rows4(i: bv32)
    requires 0x40 <= i < 0x60
    ensures Fetch(CRC_16BIT_CCITT, i) == EightSteps(Up8(Word(i)), Word(0x1021), Word(0x8000)).v & 0xffff
  {
    if i >> 4 == 0x4 {
    }
  }

  lemma Ccitt16Rows6(i: bv32)
    requires 0x60 <= i < 0x80
    ensures Fetch(CRC_16BIT_CCITT, i) == EightSteps(Up8(Word(i)), Word(0x1021), Word(0x8000)).v & 0xffff
  {
    if i >> 4 == 0x6 {
    }
  }

  lemma Ccitt16Rows8(i: bv32)
    requires 0x80 <= i < 0xa0
    ensures Fetch(CRC_16BIT_CCITT, i) == EightSteps(Up8(Word(i)), Word(0x1021), Word(0x8000)).v & 0xffff
  {
    if i >> 4 == 0x8 {
    }
  }

  lemma Ccitt16Rowsa(i: bv32)
    requires 0xa0 <= i < 0xc0
    ensures Fetch(CRC_16BIT_CCITT, i) == EightSteps(Up8(Word(i)), Word(0x1021), Word(0x8000)).v & 0xffff
  {
    if i >> 4 == 0xa {
    }
  }

  lemma Ccitt16Rowsc(i: bv32)
    requires 0xc0 <= i < 0xe0
    ensures Fetch(CRC_16BIT_CCITT, i) == EightSteps(Up8(Word(i)), Word(0x1021), Word(0x8000)).v & 0xffff
  {
    if i >> 4 == 0xc {
    }
  }

  lemma Ccitt16Rowse(i: bv32)
    requires 0xe0 <= i < 0x100
    ensures Fetch(CRC_16BIT_CCITT, i) == EightSteps(Up8(Word(i)), Word(0x1021), Word(0x8000)).v & 0xffff
  {
    if i >> 4 == 0xe {
    }
  }

  lemma Ibm16Rows0(i: bv32)
    requires 0x0 <= i < 0x20
    ensures Fetch(CRC_16BIT_IBM, i) == EightSteps(Up8(Word(i)), Word(0x8005), Word(0x8000)).v & 0xffff
  {
    if i >> 4 == 0x0 {
    }
  }

  lemma Ibm16Rows2(i: bv32)
    requires 0x20 <= i < 0x40
    ensures Fetch(CRC_16BIT_IBM, i) == EightSteps(Up8(Word(i)), Word(0x8005), Word(0x8000)).v & 0xffff
  {
    if i >> 4 == 0x2 {
    }
  }

  lemma Ibm16Rows4(i: bv32)
    requires 0x40 <= i < 0x60
    ensures Fetch(CRC_16BIT_IBM, i) == EightSteps(Up8(Word(i)), Word(0x8005), Word(0x8000)).v & 0xffff
  {
    if i >> 4 == 0x4 {
    }
  }

  lemma Ibm16Rows6(i: bv32)
    requires 0x60 <= i < 0x80
    ensures Fetch(CRC_16BIT_IBM, i) == EightSteps(Up8(Word(i)), Word(0x8005), Word(0x8000)).v & 0xffff
  {
    if i >> 4 == 0x6 {
    }
  }

  lemma Ibm16Rows8(i: bv32)
    requires 0x80 <= i < 0xa0
    ensures Fetch(CRC_16BIT_IBM, i) == EightSteps(Up8(Word(i)), Word(0x8005), Word(0x8000)).v & 0xffff
  {
    if i >> 4 == 0x8 {
    }
  }

  lemma Ibm16Rowsa(i: bv32)
    requires 0xa0 <= i < 0xc0
    ensures Fetch(CRC_16BIT_IBM, i) == EightSteps(Up8(Word(i)), Word(0x8005), Word(0x8000)).v & 0xffff
  {
    if i >> 4 == 0xa {
    }
  }

  lemma Ibm16Rowsc(i: bv32)
    requires 0xc0 <= i < 0xe0
    ensures Fetch(CRC_16BIT_IBM, i) == EightSteps(Up8(Word(i)), Word(0x8005), Word(0x8000)).v & 0xffff
  {
    if i >> 4 == 0xc {
    }
  }

  lemma Ibm16Rowse(i: bv32)
    requires 0xe0 <= i < 0xfc
    ensures Fetch(CRC_16BIT_IBM, i) == EightSteps(Up8(Word(i)), Word(0x8005), Word(0x8000)).v & 0xffff
  {
    if i >> 4 == 0xe {
    }
  }

  lemma Ansi32Rows0(i: bv32)
    requires 0x0 <= i < 0x20
    ensures Fetch(CRC_32BIT_ANSI, i) == EightSteps(Up8(Up8(Up8(Word(i)))), Word(0x4c11db7), Word(0x80000000)).v
  {
    if i >> 4 == 0x0 {
    }
  }

  lemma Ansi32Rows2(i: bv32)
    requires 0x20 <= i < 0x40
    ensures Fetch(CRC_32BIT_ANSI, i) == EightSteps(Up8(Up8(Up8(Word(i)))), Word(0x4c11db7), Word(0x80000000)).v
  {
    if i >> 4 == 0x2 {
    }
  }

  lemma Ansi32Rows4(i: bv32)
    requires 0x40 <= i < 0x60
    ensures Fetch(CRC_32BIT_ANSI, i) == EightSteps(Up8(Up8(Up8(Word(i)))), Word(0x4c11db7), Word(0x80000000)).v
  {
    if i >> 4 == 0x4 {
    }
  }

  lemma Ansi32Rows6(i: bv32)
    requires 0x60 <= i < 0x80
    ensures Fetch(CRC_32BIT_ANSI, i) == EightSteps(Up8(Up8(Up8(Word(i)))), Word(0x4c11db7), Word(0x80000000)).v
  {
    if i >> 4 == 0x6 {
    }
  }

  lemma Ansi32Rows8(i: bv32)
    requires 0x80 <= i < 0xa0
    ensures Fetch(CRC_32BIT_ANSI, i) == EightSteps(Up8(Up8(Up8(Word(i)))), Word(0x4c11db7), Word(0x80000000)).v
  {
    if i >> 4 == 0x8 {
    }
  }

  lemma Ansi32Rowsa(i: bv32)
    requires 0xa0 <= i < 0xc0
    ensures Fetch(CRC_32BIT_ANSI, i) == EightSteps(Up8(Up8(Up8(Word(i)))), Word(0x4c11db7), Word(0x80000000)).v
  {
    if i >> 4 == 0xa {
    }
  }

  lemma Ansi32Rowsc(i: bv32)
    requires 0xc0 <= i < 0xe0
    ensures Fetch(CRC_32BIT_ANSI, i) == EightSteps(Up8(Up8(Up8(Word(i)))), Word(0x4c11db7), Word(0x80000000)).v
  {
    if i >> 4 == 0xc {
    }
  }

  lemma Ansi32Rowse(i: bv32)
    requires 0xe0 <= i < 0x100
    ensures Fetch(CRC_32BIT_ANSI, i) == EightSteps(Up8(Up8(Up8(Word(i)))), Word(0x4c11db7), Word(0x80000000)).v
  {
    if i >> 4 == 0xe {
    }
  }

  /** The 7-bit table keeps its entries one place to the left: it belongs to 0x09 << 1 in a register of 8 bits. */
  lemma Sd7Table(i: bv32)
    requires i < 0x100
    ensures Fetch(CRC_7BIT_SD, i) == EightSteps(Word(i), Word(0x12), Word(0x80)).v & 0xff
  {
    if i < 0x20 {
      Sd7Rows0(i);
    } else if i < 0x40 {
      Sd7Rows2(i);
    } else if i < 0x60 {
      Sd7Rows4(i);
    } else if i < 0x80 {
      Sd7Rows6(i);
    } else if i < 0xa0 {
      Sd7Rows8(i);
    } else if i < 0xc0 {
      Sd7Rowsa(i);
    } else if i < 0xe0 {
      Sd7Rowsc(i);
    } else {
      Sd7Rowse(i);
    }
  }

  lemma Ccitt8Table(i: bv32)
    requires i < 0x100
    ensures Fetch(CRC_8BIT_CCITT, i) == EightSteps(Word(i), Word(0x7), Word(0x80)).v & 0xff
  {
    if i < 0x20 {
      Ccitt8Rows0(i);
    } else if i < 0x40 {
      Ccitt8Rows2(i);
    } else if i < 0x60 {
      Ccitt8Rows4(i);
    } else if i < 0x80 {
      Ccitt8Rows6(i);
    } else if i < 0xa0 {
      Ccitt8Rows8(i);
    } else if i < 0xc0 {
      Ccitt8Rowsa(i);
    } else if i < 0xe0 {
      Ccitt8Rowsc(i);
    } else {
      Ccitt8Rowse(i);
    }
  }

  lemma Ccitt16Table(i: bv32)
    requires i < 0x100
    ensures Fetch(CRC_16BIT_CCITT, i) == EightSteps(Up8(Word(i)), Word(0x1021), Word(0x8000)).v & 0xffff
  {
    if i < 0x20 {
      Ccitt16Rows0(i);
    } else if i < 0x40 {
      Ccitt16Rows2(i);
    } else if i < 0x60 {
      Ccitt16Rows4(i);
    } else if i < 0x80 {
      Ccitt16Rows6(i);
    } else if i < 0xa0 {
      Ccitt16Rows8(i);
    } else if i < 0xc0 {
      Ccitt16Rowsa(i);
    } else if i < 0xe0 {
      Ccitt16Rowsc(i);
    } else {
      Ccitt16Rowse(i);
    }
  }

  /** The four uninitialised entries are wrong, every other entry is right. */
  lemma Ibm16Table(i: bv32)
    requires i < 0x100
    ensures Fetch(CRC_16BIT_IBM, i) == EightSteps(Up8(Word(i)), Word(0x8005), Word(0x8000)).v & 0xffff <==> i < 0xfc
  {
    if i < 0x20 {
      Ibm16Rows0(i);
    } else if i < 0x40 {
      Ibm16Rows2(i);
    } else if i < 0x60 {
      Ibm16Rows4(i);
    } else if i < 0x80 {
      Ibm16Rows6(i);
    } else if i < 0xa0 {
      Ibm16Rows8(i);
    } else if i < 0xc0 {
      Ibm16Rowsa(i);
    } else if i < 0xe0 {
      Ibm16Rowsc(i);
    } else if i < 0xfc {
      Ibm16Rowse(i);
    } else {
      Ibm16Missing(i);
    }
  }

  lemma Ibm16Missing(i: bv32)
    requires 0xfc <= i < 0x100
    ensures Fetch(CRC_16BIT_IBM, i) == 0
    ensures EightSteps(Up8(Word(i)), Word(0x8005), Word(0x8000)).v & 0xffff != 0
  {
  }

  lemma Ansi32Table(i: bv32)
    requires i < 0x100
    ensures Fetch(CRC_32BIT_ANSI, i) == EightSteps(Up8(Up8(Up8(Word(i)))), Word(0x4c11db7), Word(0x80000000)).v
  {
    if i < 0x20 {
      Ansi32Rows0(i);
    } else if i < 0x40 {
      Ansi32Rows2(i);
    } else if i < 0x60 {
      Ansi32Rows4(i);
    } else if i < 0x80 {
      Ansi32Rows6(i);
    } else if i < 0xa0 {
      Ansi32Rows8(i);
    } else if i < 0xc0 {
      Ansi32Rowsa(i);
    } else if i < 0xe0 {
      Ansi32Rowsc(i);
    } else {
      Ansi32Rowse(i);
    }
  }

  /** One step of the right-shifting bit loop. */
  function StepRight(x: Word, poly: Word): Word {
    if Odd(x) then Plus(Half(x), poly) else Half(x)
  }

  function FourStepsRight(x: Word, poly: Word): Word {
    StepRight(StepRight(StepRight(StepRight(x, poly), poly), poly), poly)
  }

  lemma RevAnsiTable(i: bv32)
    requires i < 0x10
    ensures CRC_32BIT_REV_ANSI.At(i) == FourStepsRight(Word(i), Word(0xEDB88320)).v
  {
  }
}
