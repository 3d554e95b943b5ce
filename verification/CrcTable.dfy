/** The literal lookup table of APPS/baselib/sctp_csum.c and its agreement with the generator. */
module CrcTable {
  import opened CrcBits

  /** The table, sixteen entries to a row. */
  function Row(r: nat): (row: seq<bv32>)
    requires r < 16
    ensures |row| == 16
  {
    match r
    case 0 => [
      0x00000000, 0xF26B8303, 0xE13B70F7, 0x1350F3F4,
      0xC79A971F, 0x35F1141C, 0x26A1E7E8, 0xD4CA64EB,
      0x8AD958CF, 0x78B2DBCC, 0x6BE22838, 0x9989AB3B,
      0x4D43CFD0, 0xBF284CD3, 0xAC78BF27, 0x5E133C24]
    case 1 => [
      0x105EC76F, 0xE235446C, 0xF165B798, 0x030E349B,
      0xD7C45070, 0x25AFD373, 0x36FF2087, 0xC494A384,
      0x9A879FA0, 0x68EC1CA3, 0x7BBCEF57, 0x89D76C54,
      0x5D1D08BF, 0xAF768BBC, 0xBC267848, 0x4E4DFB4B]
    case 2 => [
      0x20BD8EDE, 0xD2D60DDD, 0xC186FE29, 0x33ED7D2A,
      0xE72719C1, 0x154C9AC2, 0x061C6936, 0xF477EA35,
      0xAA64D611, 0x580F5512, 0x4B5FA6E6, 0xB93425E5,
      0x6DFE410E, 0x9F95C20D, 0x8CC531F9, 0x7EAEB2FA]
    case 3 => [
      0x30E349B1, 0xC288CAB2, 0xD1D83946, 0x23B3BA45,
      0xF779DEAE, 0x05125DAD, 0x1642AE59, 0xE4292D5A,
      0xBA3A117E, 0x4851927D, 0x5B016189, 0xA96AE28A,
      0x7DA08661, 0x8FCB0562, 0x9C9BF696, 0x6EF07595]
    case 4 => [
      0x417B1DBC, 0xB3109EBF, 0xA0406D4B, 0x522BEE48,
      0x86E18AA3, 0x748A09A0, 0x67DAFA54, 0x95B17957,
      0xCBA24573, 0x39C9C670, 0x2A993584, 0xD8F2B687,
      0x0C38D26C, 0xFE53516F, 0xED03A29B, 0x1F682198]
    case 5 => [
      0x5125DAD3, 0xA34E59D0, 0xB01EAA24, 0x42752927,
      0x96BF4DCC, 0x64D4CECF, 0x77843D3B, 0x85EFBE38,
      0xDBFC821C, 0x2997011F, 0x3AC7F2EB, 0xC8AC71E8,
      0x1C661503, 0xEE0D9600, 0xFD5D65F4, 0x0F36E6F7]
    case 6 => [
      0x61C69362, 0x93AD1061, 0x80FDE395, 0x72966096,
      0xA65C047D, 0x5437877E, 0x4767748A, 0xB50CF789,
      0xEB1FCBAD, 0x197448AE, 0x0A24BB5A, 0xF84F3859,
      0x2C855CB2, 0xDEEEDFB1, 0xCDBE2C45, 0x3FD5AF46]
    case 7 => [
      0x7198540D, 0x83F3D70E, 0x90A324FA, 0x62C8A7F9,
      0xB602C312, 0x44694011, 0x5739B3E5, 0xA55230E6,
      0xFB410CC2, 0x092A8FC1, 0x1A7A7C35, 0xE811FF36,
      0x3CDB9BDD, 0xCEB018DE, 0xDDE0EB2A, 0x2F8B6829]
    case 8 => [
      0x82F63B78, 0x709DB87B, 0x63CD4B8F, 0x91A6C88C,
      0x456CAC67, 0xB7072F64, 0xA457DC90, 0x563C5F93,
      0x082F63B7, 0xFA44E0B4, 0xE9141340, 0x1B7F9043,
      0xCFB5F4A8, 0x3DDE77AB, 0x2E8E845F, 0xDCE5075C]
    case 9 => [
      0x92A8FC17, 0x60C37F14, 0x73938CE0, 0x81F80FE3,
      0x55326B08, 0xA759E80B, 0xB4091BFF, 0x466298FC,
      0x1871A4D8, 0xEA1A27DB, 0xF94AD42F, 0x0B21572C,
      0xDFEB33C7, 0x2D80B0C4, 0x3ED04330, 0xCCBBC033]
    case 10 => [
      0xA24BB5A6, 0x502036A5, 0x4370C551, 0xB11B4652,
      0x65D122B9, 0x97BAA1BA, 0x84EA524E, 0x7681D14D,
      0x2892ED69, 0xDAF96E6A, 0xC9A99D9E, 0x3BC21E9D,
      0xEF087A76, 0x1D63F975, 0x0E330A81, 0xFC588982]
    case 11 => [
      0xB21572C9, 0x407EF1CA, 0x532E023E, 0xA145813D,
      0x758FE5D6, 0x87E466D5, 0x94B49521, 0x66DF1622,
      0x38CC2A06, 0xCAA7A905, 0xD9F75AF1, 0x2B9CD9F2,
      0xFF56BD19, 0x0D3D3E1A, 0x1E6DCDEE, 0xEC064EED]
    case 12 => [
      0xC38D26C4, 0x31E6A5C7, 0x22B65633, 0xD0DDD530,
      0x0417B1DB, 0xF67C32D8, 0xE52CC12C, 0x1747422F,
      0x49547E0B, 0xBB3FFD08, 0xA86F0EFC, 0x5A048DFF,
      0x8ECEE914, 0x7CA56A17, 0x6FF599E3, 0x9D9E1AE0]
    case 13 => [
      0xD3D3E1AB, 0x21B862A8, 0x32E8915C, 0xC083125F,
      0x144976B4, 0xE622F5B7, 0xF5720643, 0x07198540,
      0x590AB964, 0xAB613A67, 0xB831C993, 0x4A5A4A90,
      0x9E902E7B, 0x6CFBAD78, 0x7FAB5E8C, 0x8DC0DD8F]
    case 14 => [
      0xE330A81A, 0x115B2B19, 0x020BD8ED, 0xF0605BEE,
      0x24AA3F05, 0xD6C1BC06, 0xC5914FF2, 0x37FACCF1,
      0x69E9F0D5, 0x9B8273D6, 0x88D28022, 0x7AB90321,
      0xAE7367CA, 0x5C18E4C9, 0x4F48173D, 0xBD23943E]
    case _ => [
      0xF36E6F75, 0x0105EC76, 0x12551F82, 0xE03E9C81,
      0x34F4F86A, 0xC69F7B69, 0xD5CF889D, 0x27A40B9E,
      0x79B737BA, 0x8BDCB4B9, 0x988C474D, 0x6AE7C44E,
      0xBE2DA0A5, 0x4C4623A6, 0x5F16D052, 0xAD7D5351]
  }

  /** Entry `i` of the table. */
  function SctpCrcC(i: nat): bv32
    requires i < 256
  {
    Row(i / 16)[i % 16]
  }

  /** What the generator makes of an index. */
  function Gen(x: bv32): bv32 {
    RSteps(x, CRC32C_REFLECTED, 8)
  }

  lemma Row0()
    ensures Row(0) == [
      Gen(0x00), Gen(0x01), Gen(0x02), Gen(0x03),
      Gen(0x04), Gen(0x05), Gen(0x06), Gen(0x07),
      Gen(0x08), Gen(0x09), Gen(0x0A), Gen(0x0B),
      Gen(0x0C), Gen(0x0D), Gen(0x0E), Gen(0x0F)]
  {
  }

  lemma Row1()
    ensures Row(1) == [
      Gen(0x10), Gen(0x11), Gen(0x12), Gen(0x13),
      Gen(0x14), Gen(0x15), Gen(0x16), Gen(0x17),
      Gen(0x18), Gen(0x19), Gen(0x1A), Gen(0x1B),
      Gen(0x1C), Gen(0x1D), Gen(0x1E), Gen(0x1F)]
  {
  }

  lemma Row2()
    ensures Row(2) == [
      Gen(0x20), Gen(0x21), Gen(0x22), Gen(0x23),
      Gen(0x24), Gen(0x25), Gen(0x26), Gen(0x27),
      Gen(0x28), Gen(0x29), Gen(0x2A), Gen(0x2B),
      Gen(0x2C), Gen(0x2D), Gen(0x2E), Gen(0x2F)]
  {
  }

  lemma Row3()
    ensures Row(3) == [
      Gen(0x30), Gen(0x31), Gen(0x32), Gen(0x33),
      Gen(0x34), Gen(0x35), Gen(0x36), Gen(0x37),
      Gen(0x38), Gen(0x39), Gen(0x3A), Gen(0x3B),
      Gen(0x3C), Gen(0x3D), Gen(0x3E), Gen(0x3F)]
  {
  }

  lemma Row4()
    ensures Row(4) == [
      Gen(0x40), Gen(0x41), Gen(0x42), Gen(0x43),
      Gen(0x44), Gen(0x45), Gen(0x46), Gen(0x47),
      Gen(0x48), Gen(0x49), Gen(0x4A), Gen(0x4B),
      Gen(0x4C), Gen(0x4D), Gen(0x4E), Gen(0x4F)]
  {
  }

  lemma Row5()
    ensures Row(5) == [
      Gen(0x50), Gen(0x51), Gen(0x52), Gen(0x53),
      Gen(0x54), Gen(0x55), Gen(0x56), Gen(0x57),
      Gen(0x58), Gen(0x59), Gen(0x5A), Gen(0x5B),
      Gen(0x5C), Gen(0x5D), Gen(0x5E), Gen(0x5F)]
  {
  }

  lemma Row6()
    ensures Row(6) == [
      Gen(0x60), Gen(0x61), Gen(0x62), Gen(0x63),
      Gen(0x64), Gen(0x65), Gen(0x66), Gen(0x67),
      Gen(0x68), Gen(0x69), Gen(0x6A), Gen(0x6B),
      Gen(0x6C), Gen(0x6D), Gen(0x6E), Gen(0x6F)]
  {
  }

  lemma Row7()
    ensures Row(7) == [
      Gen(0x70), Gen(0x71), Gen(0x72), Gen(0x73),
      Gen(0x74), Gen(0x75), Gen(0x76), Gen(0x77),
      Gen(0x78), Gen(0x79), Gen(0x7A), Gen(0x7B),
      Gen(0x7C), Gen(0x7D), Gen(0x7E), Gen(0x7F)]
  {
  }

  lemma Row8()
    ensures Row(8) == [
      Gen(0x80), Gen(0x81), Gen(0x82), Gen(0x83),
      Gen(0x84), Gen(0x85), Gen(0x86), Gen(0x87),
      Gen(0x88), Gen(0x89), Gen(0x8A), Gen(0x8B),
      Gen(0x8C), Gen(0x8D), Gen(0x8E), Gen(0x8F)]
  {
  }

  lemma Row9()
    ensures Row(9) == [
      Gen(0x90), Gen(0x91), Gen(0x92), Gen(0x93),
      Gen(0x94), Gen(0x95), Gen(0x96), Gen(0x97),
      Gen(0x98), Gen(0x99), Gen(0x9A), Gen(0x9B),
      Gen(0x9C), Gen(0x9D), Gen(0x9E), Gen(0x9F)]
  {
  }

  lemma Row10()
    ensures Row(10) == [
      Gen(0xA0), Gen(0xA1), Gen(0xA2), Gen(0xA3),
      Gen(0xA4), Gen(0xA5), Gen(0xA6), Gen(0xA7),
      Gen(0xA8), Gen(0xA9), Gen(0xAA), Gen(0xAB),
      Gen(0xAC), Gen(0xAD), Gen(0xAE), Gen(0xAF)]
  {
  }

  lemma Row11()
    ensures Row(11) == [
      Gen(0xB0), Gen(0xB1), Gen(0xB2), Gen(0xB3),
      Gen(0xB4), Gen(0xB5), Gen(0xB6), Gen(0xB7),
      Gen(0xB8), Gen(0xB9), Gen(0xBA), Gen(0xBB),
      Gen(0xBC), Gen(0xBD), Gen(0xBE), Gen(0xBF)]
  {
  }

  lemma Row12()
    ensures Row(12) == [
      Gen(0xC0), Gen(0xC1), Gen(0xC2), Gen(0xC3),
      Gen(0xC4), Gen(0xC5), Gen(0xC6), Gen(0xC7),
      Gen(0xC8), Gen(0xC9), Gen(0xCA), Gen(0xCB),
      Gen(0xCC), Gen(0xCD), Gen(0xCE), Gen(0xCF)]
  {
  }

  lemma Row13()
    ensures Row(13) == [
      Gen(0xD0), Gen(0xD1), Gen(0xD2), Gen(0xD3),
      Gen(0xD4), Gen(0xD5), Gen(0xD6), Gen(0xD7),
      Gen(0xD8), Gen(0xD9), Gen(0xDA), Gen(0xDB),
      Gen(0xDC), Gen(0xDD), Gen(0xDE), Gen(0xDF)]
  {
  }

  lemma Row14()
    ensures Row(14) == [
      Gen(0xE0), Gen(0xE1), Gen(0xE2), Gen(0xE3),
      Gen(0xE4), Gen(0xE5), Gen(0xE6), Gen(0xE7),
      Gen(0xE8), Gen(0xE9), Gen(0xEA), Gen(0xEB),
      Gen(0xEC), Gen(0xED), Gen(0xEE), Gen(0xEF)]
  {
  }

  lemma Row15()
    ensures Row(15) == [
      Gen(0xF0), Gen(0xF1), Gen(0xF2), Gen(0xF3),
      Gen(0xF4), Gen(0xF5), Gen(0xF6), Gen(0xF7),
      Gen(0xF8), Gen(0xF9), Gen(0xFA), Gen(0xFB),
      Gen(0xFC), Gen(0xFD), Gen(0xFE), Gen(0xFF)]
  {
  }

  lemma Entry0(x: bv8, k: nat)
    requires k < 16 && x as nat == 0 + k
    ensures Row(0)[k] == Gen(x as bv32)
  {
    hide Gen, Row;
    Row0();
  }

  lemma Entry1(x: bv8, k: nat)
    requires k < 16 && x as nat == 16 + k
    ensures Row(1)[k] == Gen(x as bv32)
  {
    hide Gen, Row;
    Row1();
  }

  lemma Entry2(x: bv8, k: nat)
    requires k < 16 && x as nat == 32 + k
    ensures Row(2)[k] == Gen(x as bv32)
  {
    hide Gen, Row;
    Row2();
  }

  lemma Entry3(x: bv8, k: nat)
    requires k < 16 && x as nat == 48 + k
    ensures Row(3)[k] == Gen(x as bv32)
  {
    hide Gen, Row;
    Row3();
  }

  lemma Entry4(x: bv8, k: nat)
    requires k < 16 && x as nat == 64 + k
    ensures Row(4)[k] == Gen(x as bv32)
  {
    hide Gen, Row;
    Row4();
  }

  lemma Entry5(x: bv8, k: nat)
    requires k < 16 && x as nat == 80 + k
    ensures Row(5)[k] == Gen(x as bv32)
  {
    hide Gen, Row;
    Row5();
  }

  lemma Entry6(x: bv8, k: nat)
    requires k < 16 && x as nat == 96 + k
    ensures Row(6)[k] == Gen(x as bv32)
  {
    hide Gen, Row;
    Row6();
  }

  lemma Entry7(x: bv8, k: nat)
    requires k < 16 && x as nat == 112 + k
    ensures Row(7)[k] == Gen(x as bv32)
  {
    hide Gen, Row;
    Row7();
  }

  lemma Entry8(x: bv8, k: nat)
    requires k < 16 && x as nat == 128 + k
    ensures Row(8)[k] == Gen(x as bv32)
  {
    hide Gen, Row;
    Row8();
  }

  lemma Entry9(x: bv8, k: nat)
    requires k < 16 && x as nat == 144 + k
    ensures Row(9)[k] == Gen(x as bv32)
  {
    hide Gen, Row;
    Row9();
  }

  lemma Entry10(x: bv8, k: nat)
    requires k < 16 && x as nat == 160 + k
    ensures Row(10)[k] == Gen(x as bv32)
  {
    hide Gen, Row;
    Row10();
  }

  lemma Entry11(x: bv8, k: nat)
    requires k < 16 && x as nat == 176 + k
    ensures Row(11)[k] == Gen(x as bv32)
  {
    hide Gen, Row;
    Row11();
  }

  lemma Entry12(x: bv8, k: nat)
    requires k < 16 && x as nat == 192 + k
    ensures Row(12)[k] == Gen(x as bv32)
  {
    hide Gen, Row;
    Row12();
  }

  lemma Entry13(x: bv8, k: nat)
    requires k < 16 && x as nat == 208 + k
    ensures Row(13)[k] == Gen(x as bv32)
  {
    hide Gen, Row;
    Row13();
  }

  lemma Entry14(x: bv8, k: nat)
    requires k < 16 && x as nat == 224 + k
    ensures Row(14)[k] == Gen(x as bv32)
  {
    hide Gen, Row;
    Row14();
  }

  lemma Entry15(x: bv8, k: nat)
    requires k < 16 && x as nat == 240 + k
    ensures Row(15)[k] == Gen(x as bv32)
  {
    hide Gen, Row;
    Row15();
  }

  /** Every literal of the table is what the generator makes of its index. */
  lemma TableIsGenerated(x: bv8)
    ensures SctpCrcC(x as nat) == Gen(x as bv32)
  {
    hide Row, Gen;
    var r, k := x as nat / 16, x as nat % 16;
    if r == 0 {
      Entry0(x, k);
    } else if r == 1 {
      Entry1(x, k);
    } else if r == 2 {
      Entry2(x, k);
    } else if r == 3 {
      Entry3(x, k);
    } else if r == 4 {
      Entry4(x, k);
    } else if r == 5 {
      Entry5(x, k);
    } else if r == 6 {
      Entry6(x, k);
    } else if r == 7 {
      Entry7(x, k);
    } else if r == 8 {
      Entry8(x, k);
    } else if r == 9 {
      Entry9(x, k);
    } else if r == 10 {
      Entry10(x, k);
    } else if r == 11 {
      Entry11(x, k);
    } else if r == 12 {
      Entry12(x, k);
    } else if r == 13 {
      Entry13(x, k);
    } else if r == 14 {
      Entry14(x, k);
    } else {
      Entry15(x, k);
    }
  }
}
