/** The example of section 2.5.2 of RFC 8439. */
module Poly1305Vector {
  import opened Bits
  import opened Bytes
  import opened Poly1305
  import opened Poly1305Clamp
  import opened Poly1305Words

  /** "Cryptographic Forum Research Group" under the key of the example. */
  lemma TagOfExample(key: seq<byte>, message: seq<byte>)
    requires key == [0x85, 0xd6, 0xbe, 0x78, 0x57, 0x55, 0x6d, 0x33, 0x7f, 0x44, 0x52, 0xfe, 0x42, 0xd5, 0x06, 0xa8,
                      0x01, 0x03, 0x80, 0x8a, 0xfb, 0x0d, 0xb2, 0xfd, 0x4a, 0xbf, 0xf6, 0xaf, 0x41, 0x49, 0xf5, 0x1b]
    requires message == [0x43, 0x72, 0x79, 0x70, 0x74, 0x6f, 0x67, 0x72, 0x61, 0x70, 0x68, 0x69, 0x63, 0x20, 0x46, 0x6f,
                          0x72, 0x75, 0x6d, 0x20, 0x52, 0x65, 0x73, 0x65, 0x61, 0x72, 0x63, 0x68, 0x20, 0x47, 0x72, 0x6f,
                          0x75, 0x70]
    ensures Tag(key, message)
         == [0xa8, 0x06, 0x1d, 0xc1, 0x30, 0x51, 0x36, 0xc6, 0xc2, 0x2b, 0x8b, 0xaf, 0x0c, 0x01, 0x27, 0xa9]
  {
    hide Accumulate, LeBytes;
    FirstHalf(key);
    SecondHalf(key);
    assert ClampedR(key) == 0x0806_d540_0e52_447c_036d_5554_08be_d685 by {
      ClampedHalf();
    }
    AccumulatedExample(message);
    TagBytes([0xa8, 0x06, 0x1d, 0xc1, 0x30, 0x51, 0x36, 0xc6, 0xc2, 0x2b, 0x8b, 0xaf, 0x0c, 0x01, 0x27, 0xa9]);
  }

  lemma ClampedHalf()
    ensures BitAnd(0xa806_d542_fe52_447f_336d_5557_78be_d685, CLAMP)
         == 0x0806_d540_0e52_447c_036d_5554_08be_d685
  {
    hide BitAnd;
    ClampByWords(0x78be_d685, 0x336d_5557, 0xfe52_447f, 0xa806_d542, 0xa806_d542_fe52_447f_336d_5557_78be_d685);
  }

  lemma TagBytes(tag: seq<byte>)
    requires tag == [0xa8, 0x06, 0x1d, 0xc1, 0x30, 0x51, 0x36, 0xc6, 0xc2, 0x2b, 0x8b, 0xaf, 0x0c, 0x01, 0x27, 0xa9]
    ensures LeBytes(0x0002_8d31_b7ca_ff94_6c77_c884_4335_369d_03a7 + 0x1bf5_4941_aff6_bf4a_fdb2_0dfb_8a80_0301, 16) == tag
  {
    hide LeBytes, LeValue;
    LeValueOfFourWords(tag);
    NothingLeft(tag);
    LeBytesOfValue(tag);
    SixteenBytes(0x0002_8d31_b7ca_ff94_6c77_c884_4335_369d_03a7 + 0x1bf5_4941_aff6_bf4a_fdb2_0dfb_8a80_0301);
  }

  lemma NothingLeft(s: seq<byte>)
    requires |s| == 16
    ensures LeValue(s[16..]) == 0
  {
  }

  lemma FirstHalf(key: seq<byte>)
    requires |key| == 32
    requires key[..16] == [0x85, 0xd6, 0xbe, 0x78, 0x57, 0x55, 0x6d, 0x33, 0x7f, 0x44, 0x52, 0xfe, 0x42, 0xd5, 0x06, 0xa8]
    ensures LeValue(key[..16]) == 0xa806_d542_fe52_447f_336d_5557_78be_d685
  {
    var s := key[..16];
    LeValueOfFourWords(s);
    assert s[16..] == [];
  }

  lemma SecondHalf(key: seq<byte>)
    requires |key| == 32
    requires key[16..] == [0x01, 0x03, 0x80, 0x8a, 0xfb, 0x0d, 0xb2, 0xfd, 0x4a, 0xbf, 0xf6, 0xaf, 0x41, 0x49, 0xf5, 0x1b]
    ensures LeValue(key[16..]) == 0x1bf5_4941_aff6_bf4a_fdb2_0dfb_8a80_0301
  {
    var s := key[16..];
    LeValueOfFourWords(s);
    assert s[16..] == [];
  }

  /** The three blocks, as in the table of the example. */
  lemma AccumulatedExample(message: seq<byte>)
    requires message == [0x43, 0x72, 0x79, 0x70, 0x74, 0x6f, 0x67, 0x72, 0x61, 0x70, 0x68, 0x69, 0x63, 0x20, 0x46, 0x6f,
                          0x72, 0x75, 0x6d, 0x20, 0x52, 0x65, 0x73, 0x65, 0x61, 0x72, 0x63, 0x68, 0x20, 0x47, 0x72, 0x6f,
                          0x75, 0x70]
    ensures Accumulate(message, 0x0806_d540_0e52_447c_036d_5554_08be_d685)
         == 0x0002_8d31_b7ca_ff94_6c77_c884_4335_369d_03a7
  {
    var r := 0x0806_d540_0e52_447c_036d_5554_08be_d685;
    hide HornerStep, BlockValue, Accumulate;
    NoBlocks(r);
    AccumulateStep(message, 0, 16, r);
    AccumulateStep(message, 16, 16, r);
    AccumulateStep(message, 32, 2, r);
    assert message[..0] == [] && message[..34] == message;
    ThreeBlocks(message[0..16], message[16..32], message[32..34]);
    ThreeSteps();
  }

  lemma ThreeBlocks(first: seq<byte>, second: seq<byte>, third: seq<byte>)
    requires first == [0x43, 0x72, 0x79, 0x70, 0x74, 0x6f, 0x67, 0x72, 0x61, 0x70, 0x68, 0x69, 0x63, 0x20, 0x46, 0x6f]
    requires second == [0x72, 0x75, 0x6d, 0x20, 0x52, 0x65, 0x73, 0x65, 0x61, 0x72, 0x63, 0x68, 0x20, 0x47, 0x72, 0x6f]
    requires third == [0x75, 0x70]
    ensures BlockValue(first) == 0x0001_6f46_2063_6968_7061_7267_6f74_7079_7243
    ensures BlockValue(second) == 0x0001_6f72_4720_6863_7261_6573_6552_206d_7572
    ensures BlockValue(third) == 0x0001_7075
  {
    BlockNumber(first);
    BlockNumber(second);
    var last: seq<byte> := [0x75, 0x70, 1];
    assert third + [1] == last && last[1..] == [0x70, 1] && last[1..][1..] == [1] && last[1..][1..][1..] == [];
  }

  lemma BlockNumber(block: seq<byte>)
    requires |block| == 16
    ensures BlockValue(block)
         == ReadLittleEndian32(block, 0) + 0x1_0000_0000 * ReadLittleEndian32(block, 4)
            + 0x1_0000_0000_0000_0000 * ReadLittleEndian32(block, 8)
            + 0x1_0000_0000_0000_0000_0000_0000 * ReadLittleEndian32(block, 12)
            + 0x1_0000_0000_0000_0000_0000_0000_0000_0000
  {
    hide Word;
    LeValueOfFourWords(block + [1]);
    assert (block + [1])[16..] == [1] && [1][1..] == [];
  }

  lemma ThreeSteps()
    ensures HornerStep(0, 0x0001_6f46_2063_6968_7061_7267_6f74_7079_7243, 0x0806_d540_0e52_447c_036d_5554_08be_d685)
         == 0x0002_c88c_7784_9d64_ae91_47dd_eb88_e69c_83fc
    ensures HornerStep(0x0002_c88c_7784_9d64_ae91_47dd_eb88_e69c_83fc, 0x0001_6f72_4720_6863_7261_6573_6552_206d_7572,
                       0x0806_d540_0e52_447c_036d_5554_08be_d685)
         == 0x0002_d8ad_af23_b033_7fa7_cccf_b4ea_344b_30de
    ensures HornerStep(0x0002_d8ad_af23_b033_7fa7_cccf_b4ea_344b_30de, 0x0001_7075,
                       0x0806_d540_0e52_447c_036d_5554_08be_d685)
         == 0x0002_8d31_b7ca_ff94_6c77_c884_4335_369d_03a7
  {
  }
}
