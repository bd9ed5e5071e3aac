// The accept key of the example in section 1.3 of RFC 6455.

module SampleKey {
  import opened Bytes
  import opened Sha1
  import opened Sha1Laws
  import opened Sha1Vectors
  import Base64
  import Handshake

  // --- The first block of the key and the fixed text ---

  const FIRST_0 := Machine(
    Window(0x6447686C, 0x49484E68, 0x62584273, 0x5A534275, 0x6232356A, 0x5A513D3D, 0x32353845, 0x41464135, 0x2D453931,
      0x342D3437, 0x44412D39, 0x3543412D, 0x43354142, 0x30444338, 0x35423131, 0x80000000),
    Registers(0x67452301, 0xEFCDAB89, 0x98BADCFE, 0x10325476, 0xC3D2E1F0))

  const FIRST_10 := Machine(
    Window(0x44412D39, 0x3543412D, 0x43354142, 0x30444338, 0x35423131, 0x80000000, 0x363CA02C, 0x24E81236, 0x8856B441,
      0x06FB3C92, 0x6FB4BCB6, 0x460B16E3, 0x599219AE, 0x35BF9369, 0x3267458E, 0xF828FD04),
    Registers(0xFAAD2675, 0x32BEB05A, 0x4B833980, 0x1CD54FA1, 0x5CC82E5A))

  const FIRST_20 := Machine(
    Window(0x6FB4BCB6, 0x460B16E3, 0x599219AE, 0x35BF9369, 0x3267458E, 0xF828FD04, 0x753A96A7, 0x6336F612, 0xC3D66383,
      0x06EB86F9, 0x73B4FD42, 0xA503C5B8, 0x15CDAE35, 0x531E5DC5, 0x6FB6B7D0, 0x6C16E4AC),
    Registers(0x091AB97C, 0x8DC510B6, 0xDFAECA5A, 0x75F6BD5D, 0x2801311A))

  const FIRST_30 := Machine(
    Window(0x73B4FD42, 0xA503C5B8, 0x15CDAE35, 0x531E5DC5, 0x6FB6B7D0, 0x6C16E4AC, 0x4DDD36BD, 0x35D36946, 0xE8AE8B9C,
      0x4A933AD0, 0xCE8628B4, 0x415DBA9E, 0x2792F049, 0x8E9B79E7, 0x79C425C5, 0x6353B49D),
    Registers(0x081B63E5, 0x1ABB1C37, 0x95C7DF60, 0x3BC04BC8, 0x1D22CE68))

  const FIRST_40 := Machine(
    Window(0xCE8628B4, 0x415DBA9E, 0x2792F049, 0x8E9B79E7, 0x79C425C5, 0x6353B49D, 0x00994218, 0x8A950ED1, 0xAF5D0B99,
      0xFD9883DE, 0x1ED8FFEB, 0xF007FF28, 0x425E3674, 0x059631C0, 0xAD6C3C31, 0x860B71D7),
    Registers(0x2BA2C83E, 0xD0869081, 0x1A1D8209, 0xD3334889, 0x2779E4F2))

  const FIRST_50 := Machine(
    Window(0x1ED8FFEB, 0xF007FF28, 0x425E3674, 0x059631C0, 0xAD6C3C31, 0x860B71D7, 0x87BFC548, 0x3E64F92D, 0x8D0AB761,
      0x34E1EE35, 0x0ACF5108, 0xC2B479DA, 0x6C93370A, 0xF7935BA1, 0xE91C91C1, 0xBED165A2),
    Registers(0x065F8486, 0x7510D04F, 0xAAF85D22, 0x37B92DEA, 0x5CBFCCD3))

  const FIRST_60 := Machine(
    Window(0x0ACF5108, 0xC2B479DA, 0x6C93370A, 0xF7935BA1, 0xE91C91C1, 0xBED165A2, 0x4C3E4ABE, 0x50D96238, 0xB6587DDE,
      0x1A2EE6E6, 0x2D335896, 0xF3495D0B, 0xF30E0A1D, 0x32CE5459, 0x7165E3B8, 0xAB05FF94),
    Registers(0x4872D85A, 0xD284F163, 0x83091F0B, 0x1BBDBFBD, 0x9F8490BC))

  const FIRST_70 := Machine(
    Window(0x2D335896, 0xF3495D0B, 0xF30E0A1D, 0x32CE5459, 0x7165E3B8, 0xAB05FF94, 0xC5949F0B, 0xBCD84E4A, 0x07720392,
      0xFF3FF806, 0xD5E93E51, 0xB768A0A3, 0xE87859BC, 0x68368A36, 0xD32E35C1, 0x7B8F5837),
    Registers(0x07381B7E, 0x966E049A, 0x33E1963B, 0x14C4C690, 0xF0F0B916))

  const FIRST_END := Registers(0xF48A5426, 0x835995E1, 0x25C11EFB, 0x4A45C402, 0x9A73C2F2)

  lemma FirstFrom0(w: nat -> word, r: nat -> Registers)
    requires (forall i: nat :: Advances(w, r, i)) && MachineAt(w, r, 0) == FIRST_0
    ensures MachineAt(w, r, 10) == FIRST_10
  {
    SomeRounds(w, r, 0, 10, true, false, 0x5A827999, 0x6447686C, 0x49484E68, 0x62584273, 0x5A534275, 0x6232356A,
      0x5A513D3D, 0x32353845, 0x41464135, 0x2D453931, 0x342D3437, 0x44412D39, 0x3543412D, 0x43354142, 0x30444338,
      0x35423131, 0x80000000, 0x67452301, 0xEFCDAB89, 0x98BADCFE, 0x10325476, 0xC3D2E1F0);
  }

  lemma FirstFrom10(w: nat -> word, r: nat -> Registers)
    requires (forall i: nat :: Advances(w, r, i)) && MachineAt(w, r, 10) == FIRST_10
    ensures MachineAt(w, r, 20) == FIRST_20
  {
    SomeRounds(w, r, 10, 10, true, false, 0x5A827999, 0x44412D39, 0x3543412D, 0x43354142, 0x30444338, 0x35423131,
      0x80000000, 0x363CA02C, 0x24E81236, 0x8856B441, 0x06FB3C92, 0x6FB4BCB6, 0x460B16E3, 0x599219AE, 0x35BF9369,
      0x3267458E, 0xF828FD04, 0xFAAD2675, 0x32BEB05A, 0x4B833980, 0x1CD54FA1, 0x5CC82E5A);
  }

  lemma FirstFrom20(w: nat -> word, r: nat -> Registers)
    requires (forall i: nat :: Advances(w, r, i)) && MachineAt(w, r, 20) == FIRST_20
    ensures MachineAt(w, r, 30) == FIRST_30
  {
    SomeRounds(w, r, 20, 10, false, false, 0x6ED9EBA1, 0x6FB4BCB6, 0x460B16E3, 0x599219AE, 0x35BF9369, 0x3267458E,
      0xF828FD04, 0x753A96A7, 0x6336F612, 0xC3D66383, 0x06EB86F9, 0x73B4FD42, 0xA503C5B8, 0x15CDAE35, 0x531E5DC5,
      0x6FB6B7D0, 0x6C16E4AC, 0x091AB97C, 0x8DC510B6, 0xDFAECA5A, 0x75F6BD5D, 0x2801311A);
  }

  lemma FirstFrom30(w: nat -> word, r: nat -> Registers)
    requires (forall i: nat :: Advances(w, r, i)) && MachineAt(w, r, 30) == FIRST_30
    ensures MachineAt(w, r, 40) == FIRST_40
  {
    SomeRounds(w, r, 30, 10, false, false, 0x6ED9EBA1, 0x73B4FD42, 0xA503C5B8, 0x15CDAE35, 0x531E5DC5, 0x6FB6B7D0,
      0x6C16E4AC, 0x4DDD36BD, 0x35D36946, 0xE8AE8B9C, 0x4A933AD0, 0xCE8628B4, 0x415DBA9E, 0x2792F049, 0x8E9B79E7,
      0x79C425C5, 0x6353B49D, 0x081B63E5, 0x1ABB1C37, 0x95C7DF60, 0x3BC04BC8, 0x1D22CE68);
  }

  lemma FirstFrom40(w: nat -> word, r: nat -> Registers)
    requires (forall i: nat :: Advances(w, r, i)) && MachineAt(w, r, 40) == FIRST_40
    ensures MachineAt(w, r, 50) == FIRST_50
  {
    SomeRounds(w, r, 40, 10, false, true, 0x8F1BBCDC, 0xCE8628B4, 0x415DBA9E, 0x2792F049, 0x8E9B79E7, 0x79C425C5,
      0x6353B49D, 0x00994218, 0x8A950ED1, 0xAF5D0B99, 0xFD9883DE, 0x1ED8FFEB, 0xF007FF28, 0x425E3674, 0x059631C0,
      0xAD6C3C31, 0x860B71D7, 0x2BA2C83E, 0xD0869081, 0x1A1D8209, 0xD3334889, 0x2779E4F2);
  }

  lemma FirstFrom50(w: nat -> word, r: nat -> Registers)
    requires (forall i: nat :: Advances(w, r, i)) && MachineAt(w, r, 50) == FIRST_50
    ensures MachineAt(w, r, 60) == FIRST_60
  {
    SomeRounds(w, r, 50, 10, false, true, 0x8F1BBCDC, 0x1ED8FFEB, 0xF007FF28, 0x425E3674, 0x059631C0, 0xAD6C3C31,
      0x860B71D7, 0x87BFC548, 0x3E64F92D, 0x8D0AB761, 0x34E1EE35, 0x0ACF5108, 0xC2B479DA, 0x6C93370A, 0xF7935BA1,
      0xE91C91C1, 0xBED165A2, 0x065F8486, 0x7510D04F, 0xAAF85D22, 0x37B92DEA, 0x5CBFCCD3);
  }

  lemma FirstFrom60(w: nat -> word, r: nat -> Registers)
    requires (forall i: nat :: Advances(w, r, i)) && MachineAt(w, r, 60) == FIRST_60
    ensures MachineAt(w, r, 70) == FIRST_70
  {
    SomeRounds(w, r, 60, 10, false, false, 0xCA62C1D6, 0x0ACF5108, 0xC2B479DA, 0x6C93370A, 0xF7935BA1, 0xE91C91C1,
      0xBED165A2, 0x4C3E4ABE, 0x50D96238, 0xB6587DDE, 0x1A2EE6E6, 0x2D335896, 0xF3495D0B, 0xF30E0A1D, 0x32CE5459,
      0x7165E3B8, 0xAB05FF94, 0x4872D85A, 0xD284F163, 0x83091F0B, 0x1BBDBFBD, 0x9F8490BC);
  }

  lemma FirstFrom70(w: nat -> word, r: nat -> Registers)
    requires (forall i: nat :: Advances(w, r, i)) && MachineAt(w, r, 70) == FIRST_70
    ensures r(80) == FIRST_END
  {
    SomeRounds(w, r, 70, 10, false, false, 0xCA62C1D6, 0x2D335896, 0xF3495D0B, 0xF30E0A1D, 0x32CE5459, 0x7165E3B8,
      0xAB05FF94, 0xC5949F0B, 0xBCD84E4A, 0x07720392, 0xFF3FF806, 0xD5E93E51, 0xB768A0A3, 0xE87859BC, 0x68368A36,
      0xD32E35C1, 0x7B8F5837, 0x07381B7E, 0x966E049A, 0x33E1963B, 0x14C4C690, 0xF0F0B916);
  }

  lemma FirstRounds(w: nat -> word, r: nat -> Registers)
    requires (forall i: nat :: Advances(w, r, i)) && MachineAt(w, r, 0) == FIRST_0
    ensures r(80) == FIRST_END
  {
    FirstFrom0(w, r);
    FirstFrom10(w, r);
    FirstFrom20(w, r);
    FirstFrom30(w, r);
    FirstFrom40(w, r);
    FirstFrom50(w, r);
    FirstFrom60(w, r);
    FirstFrom70(w, r);
  }

  // --- The second block ---

  const SECOND_0 := Machine(
    Window(0, 0, 0, 0, 0, 0, 0, 0, 0, 0, 0, 0, 0, 0, 0, 0x000001E0),
    Registers(0x5BCF7727, 0x7327416A, 0xBE7BFBF9, 0x5A781878, 0x5E46A4E2))

  const SECOND_10 := Machine(
    Window(0, 0, 0, 0, 0, 0x000001E0, 0, 0, 0x000003C0, 0, 0, 0x00000780, 0, 0x000003C0, 0x00000F00, 0),
    Registers(0x0B0814C3, 0x80946593, 0x8970062F, 0xACEEF2BF, 0xE4E97BEE))

  const SECOND_20 := Machine(
    Window(0, 0x00000780, 0, 0x000003C0, 0x00000F00, 0, 0, 0x00001E00, 0, 0x00000CC0, 0x00003C00, 0x00000440, 0,
      0x00007800, 0x00000F00, 0x00003300),
    Registers(0x2A008B51, 0x2F193A09, 0x9C8663C1, 0x8EB5D103, 0x261B7C9A))

  const SECOND_30 := Machine(
    Window(0x00003C00, 0x00000440, 0, 0x00007800, 0x00000F00, 0x00003300, 0x0000F000, 0x00000F00, 0, 0x0001EF00, 0,
      0x0000CC00, 0x0003C000, 0x00004380, 0, 0x00078F00),
    Registers(0x243EE057, 0xF57CB53E, 0xE4C9F7DB, 0xB4B9C9B6, 0x591B19DF))

  const SECOND_40 := Machine(
    Window(0, 0x0000CC00, 0x0003C000, 0x00004380, 0, 0x00078F00, 0x0000FF00, 0x00032680, 0x000F0000, 0x0000F000,
      0x00003300, 0x001EFF00, 0, 0x000CB800, 0x003C0000, 0x00040B00),
    Registers(0x6F698F1A, 0xC6FF0CD3, 0xDE5AB7BC, 0x5F6F3CBB, 0x1DA48A85))

  const SECOND_50 := Machine(
    Window(0x00003300, 0x001EFF00, 0, 0x000CB800, 0x003C0000, 0x00040B00, 0x0000F000, 0x0078FF00, 0x000FF000,
      0x00338700, 0x00F00000, 0x000FC300, 0x0000F000, 0x01EFBB00, 0, 0x00CC0000),
    Registers(0xA516F265, 0xA39F2041, 0xA8FBE15F, 0xB23368F6, 0xCEF6480E))

  const SECOND_60 := Machine(
    Window(0x00F00000, 0x000FC300, 0x0000F000, 0x01EFBB00, 0, 0x00CC0000, 0x03C0F000, 0x00438000, 0, 0x078F0000,
      0x00FF0000, 0x03269E00, 0x0F000000, 0x00F0F000, 0x00333C00, 0x1EFF8800),
    Registers(0x56119F19, 0x085EB2FE, 0x484A25C5, 0xC140CFE8, 0x686DA050))

  const SECOND_70 := Machine(
    Window(0x00FF0000, 0x03269E00, 0x0F000000, 0x00F0F000, 0x00333C00, 0x1EFF8800, 0, 0x0CB88800, 0x3C00F000,
      0x040A4A00, 0x00F0F000, 0x78FF0000, 0x0FF30C00, 0x3387F000, 0xF0000000, 0x0FC43400),
    Registers(0xBF3A7F95, 0x4E363DB9, 0x025E9447, 0x325FC65A, 0xC5E88BBD))

  const SECOND_END := Registers(0x57AAD805, 0x4D3B0DAC, 0xD27A4A0D, 0x74C040CD, 0x54782008)

  lemma SecondFrom0(w: nat -> word, r: nat -> Registers)
    requires (forall i: nat :: Advances(w, r, i)) && MachineAt(w, r, 0) == SECOND_0
    ensures MachineAt(w, r, 10) == SECOND_10
  {
    SomeRounds(w, r, 0, 10, true, false, 0x5A827999, 0, 0, 0, 0, 0, 0, 0, 0, 0, 0, 0, 0, 0, 0, 0, 0x000001E0,
      0x5BCF7727, 0x7327416A, 0xBE7BFBF9, 0x5A781878, 0x5E46A4E2);
  }

  lemma SecondFrom10(w: nat -> word, r: nat -> Registers)
    requires (forall i: nat :: Advances(w, r, i)) && MachineAt(w, r, 10) == SECOND_10
    ensures MachineAt(w, r, 20) == SECOND_20
  {
    SomeRounds(w, r, 10, 10, true, false, 0x5A827999, 0, 0, 0, 0, 0, 0x000001E0, 0, 0, 0x000003C0, 0, 0, 0x00000780,
      0, 0x000003C0, 0x00000F00, 0, 0x0B0814C3, 0x80946593, 0x8970062F, 0xACEEF2BF, 0xE4E97BEE);
  }

  lemma SecondFrom20(w: nat -> word, r: nat -> Registers)
    requires (forall i: nat :: Advances(w, r, i)) && MachineAt(w, r, 20) == SECOND_20
    ensures MachineAt(w, r, 30) == SECOND_30
  {
    SomeRounds(w, r, 20, 10, false, false, 0x6ED9EBA1, 0, 0x00000780, 0, 0x000003C0, 0x00000F00, 0, 0, 0x00001E00, 0,
      0x00000CC0, 0x00003C00, 0x00000440, 0, 0x00007800, 0x00000F00, 0x00003300, 0x2A008B51, 0x2F193A09, 0x9C8663C1,
      0x8EB5D103, 0x261B7C9A);
  }

  lemma SecondFrom30(w: nat -> word, r: nat -> Registers)
    requires (forall i: nat :: Advances(w, r, i)) && MachineAt(w, r, 30) == SECOND_30
    ensures MachineAt(w, r, 40) == SECOND_40
  {
    SomeRounds(w, r, 30, 10, false, false, 0x6ED9EBA1, 0x00003C00, 0x00000440, 0, 0x00007800, 0x00000F00, 0x00003300,
      0x0000F000, 0x00000F00, 0, 0x0001EF00, 0, 0x0000CC00, 0x0003C000, 0x00004380, 0, 0x00078F00, 0x243EE057,
      0xF57CB53E, 0xE4C9F7DB, 0xB4B9C9B6, 0x591B19DF);
  }

  lemma SecondFrom40(w: nat -> word, r: nat -> Registers)
    requires (forall i: nat :: Advances(w, r, i)) && MachineAt(w, r, 40) == SECOND_40
    ensures MachineAt(w, r, 50) == SECOND_50
  {
    SomeRounds(w, r, 40, 10, false, true, 0x8F1BBCDC, 0, 0x0000CC00, 0x0003C000, 0x00004380, 0, 0x00078F00,
      0x0000FF00, 0x00032680, 0x000F0000, 0x0000F000, 0x00003300, 0x001EFF00, 0, 0x000CB800, 0x003C0000, 0x00040B00,
      0x6F698F1A, 0xC6FF0CD3, 0xDE5AB7BC, 0x5F6F3CBB, 0x1DA48A85);
  }

  lemma SecondFrom50(w: nat -> word, r: nat -> Registers)
    requires (forall i: nat :: Advances(w, r, i)) && MachineAt(w, r, 50) == SECOND_50
    ensures MachineAt(w, r, 60) == SECOND_60
  {
    SomeRounds(w, r, 50, 10, false, true, 0x8F1BBCDC, 0x00003300, 0x001EFF00, 0, 0x000CB800, 0x003C0000, 0x00040B00,
      0x0000F000, 0x0078FF00, 0x000FF000, 0x00338700, 0x00F00000, 0x000FC300, 0x0000F000, 0x01EFBB00, 0, 0x00CC0000,
      0xA516F265, 0xA39F2041, 0xA8FBE15F, 0xB23368F6, 0xCEF6480E);
  }

  lemma SecondFrom60(w: nat -> word, r: nat -> Registers)
    requires (forall i: nat :: Advances(w, r, i)) && MachineAt(w, r, 60) == SECOND_60
    ensures MachineAt(w, r, 70) == SECOND_70
  {
    SomeRounds(w, r, 60, 10, false, false, 0xCA62C1D6, 0x00F00000, 0x000FC300, 0x0000F000, 0x01EFBB00, 0, 0x00CC0000,
      0x03C0F000, 0x00438000, 0, 0x078F0000, 0x00FF0000, 0x03269E00, 0x0F000000, 0x00F0F000, 0x00333C00, 0x1EFF8800,
      0x56119F19, 0x085EB2FE, 0x484A25C5, 0xC140CFE8, 0x686DA050);
  }

  lemma SecondFrom70(w: nat -> word, r: nat -> Registers)
    requires (forall i: nat :: Advances(w, r, i)) && MachineAt(w, r, 70) == SECOND_70
    ensures r(80) == SECOND_END
  {
    SomeRounds(w, r, 70, 10, false, false, 0xCA62C1D6, 0x00FF0000, 0x03269E00, 0x0F000000, 0x00F0F000, 0x00333C00,
      0x1EFF8800, 0, 0x0CB88800, 0x3C00F000, 0x040A4A00, 0x00F0F000, 0x78FF0000, 0x0FF30C00, 0x3387F000, 0xF0000000,
      0x0FC43400, 0xBF3A7F95, 0x4E363DB9, 0x025E9447, 0x325FC65A, 0xC5E88BBD);
  }

  lemma SecondRounds(w: nat -> word, r: nat -> Registers)
    requires (forall i: nat :: Advances(w, r, i)) && MachineAt(w, r, 0) == SECOND_0
    ensures r(80) == SECOND_END
  {
    SecondFrom0(w, r);
    SecondFrom10(w, r);
    SecondFrom20(w, r);
    SecondFrom30(w, r);
    SecondFrom40(w, r);
    SecondFrom50(w, r);
    SecondFrom60(w, r);
    SecondFrom70(w, r);
  }

  // --- From the key to its words ---

  const KEY := "dGhlIHNhbXBsZSBub25jZQ=="

  const ACCEPT := "s3pPLMBiTxaQ9kYGzzhZRbK+xOo="

  const DIGEST: seq<byte> := [
    0xB3, 0x7A, 0x4F, 0x2C, 0xC0, 0x62, 0x4F, 0x16, 0x90, 0xF6,
    0x46, 0x06, 0xCF, 0x38, 0x59, 0x45, 0xB2, 0xBE, 0xC4, 0xEA]

  const TEXT := KEY + Handshake.MAGIC

  lemma ByteOfText(text: string, i: nat, b: byte)
    requires i < |text| && text[i] as nat == b as nat
    ensures Handshake.BytesOf(text)[i] == b
  {
    DigitsOf(0, b);
  }

  // Four characters of a text that stands among the bytes.
  lemma WordOfText(text: string, i: nat, bytes: seq<byte>, at: nat, b0: byte, b1: byte, b2: byte, b3: byte)
    requires i + 4 <= |text| && StandsAt(text, bytes, at)
    requires text[i] as nat == b0 as nat && text[i + 1] as nat == b1 as nat
    requires text[i + 2] as nat == b2 as nat && text[i + 3] as nat == b3 as nat
    ensures WordAt(bytes, at + i) ==
            ((b0 as word) << 24) | ((b1 as word) << 16) | ((b2 as word) << 8) | (b3 as word)
  {
    ByteOfText(text, i, b0);
    ByteOfText(text, i + 1, b1);
    ByteOfText(text, i + 2, b2);
    ByteOfText(text, i + 3, b3);
    WordOfBytes(bytes, at + i, b0, b1, b2, b3);
  }

  ghost predicate StandsAt(text: string, bytes: seq<byte>, at: nat) {
    at + |text| <= |bytes| && forall i :: 0 <= i < |text| ==> bytes[at + i] == Handshake.BytesOf(text)[i]
  }

  lemma TextStands(bytes: seq<byte>)
    requires |bytes| >= 60 && bytes[..60] == Handshake.BytesOf(TEXT)
    ensures StandsAt(KEY, bytes, 0) && StandsAt(Handshake.MAGIC, bytes, 24)
  {
    forall i | 0 <= i < 60 ensures bytes[i] == Handshake.BytesOf(TEXT)[i] {
      assert bytes[i] == bytes[..60][i];
    }
    assert forall i :: 0 <= i < 24 ==> TEXT[i] == KEY[i];
    assert forall i :: 0 <= i < 36 ==> TEXT[24 + i] == Handshake.MAGIC[i];
  }

  lemma WordsOfKey0(bytes: seq<byte>)
    requires StandsAt(KEY, bytes, 0)
    ensures && WordAt(bytes, 0) == 0x6447686C
  {
    WordOfText(KEY, 0, bytes, 0, 0x64, 0x47, 0x68, 0x6C);
  }

  lemma WordsOfKey4(bytes: seq<byte>)
    requires StandsAt(KEY, bytes, 0)
    ensures && WordAt(bytes, 4) == 0x49484E68
            && WordAt(bytes, 8) == 0x62584273
  {
    WordOfText(KEY, 4, bytes, 0, 0x49, 0x48, 0x4E, 0x68);
    WordOfText(KEY, 8, bytes, 0, 0x62, 0x58, 0x42, 0x73);
  }

  lemma WordsOfKey12(bytes: seq<byte>)
    requires StandsAt(KEY, bytes, 0)
    ensures && WordAt(bytes, 12) == 0x5A534275
            && WordAt(bytes, 16) == 0x6232356A
            && WordAt(bytes, 20) == 0x5A513D3D
  {
    WordOfText(KEY, 12, bytes, 0, 0x5A, 0x53, 0x42, 0x75);
    WordOfText(KEY, 16, bytes, 0, 0x62, 0x32, 0x35, 0x6A);
    WordOfText(KEY, 20, bytes, 0, 0x5A, 0x51, 0x3D, 0x3D);
  }

  lemma WordsOfMagic0(bytes: seq<byte>)
    requires StandsAt(Handshake.MAGIC, bytes, 24)
    ensures && WordAt(bytes, 24) == 0x32353845
  {
    WordOfText(Handshake.MAGIC, 0, bytes, 24, 0x32, 0x35, 0x38, 0x45);
  }

  lemma WordsOfMagic4(bytes: seq<byte>)
    requires StandsAt(Handshake.MAGIC, bytes, 24)
    ensures && WordAt(bytes, 28) == 0x41464135
  {
    WordOfText(Handshake.MAGIC, 4, bytes, 24, 0x41, 0x46, 0x41, 0x35);
  }

  lemma WordsOfMagic8(bytes: seq<byte>)
    requires StandsAt(Handshake.MAGIC, bytes, 24)
    ensures && WordAt(bytes, 32) == 0x2D453931
  {
    WordOfText(Handshake.MAGIC, 8, bytes, 24, 0x2D, 0x45, 0x39, 0x31);
  }

  lemma WordsOfMagic12(bytes: seq<byte>)
    requires StandsAt(Handshake.MAGIC, bytes, 24)
    ensures && WordAt(bytes, 36) == 0x342D3437
            && WordAt(bytes, 40) == 0x44412D39
  {
    WordOfText(Handshake.MAGIC, 12, bytes, 24, 0x34, 0x2D, 0x34, 0x37);
    WordOfText(Handshake.MAGIC, 16, bytes, 24, 0x44, 0x41, 0x2D, 0x39);
  }

  lemma WordsOfMagic20(bytes: seq<byte>)
    requires StandsAt(Handshake.MAGIC, bytes, 24)
    ensures && WordAt(bytes, 44) == 0x3543412D
            && WordAt(bytes, 48) == 0x43354142
  {
    WordOfText(Handshake.MAGIC, 20, bytes, 24, 0x35, 0x43, 0x41, 0x2D);
    WordOfText(Handshake.MAGIC, 24, bytes, 24, 0x43, 0x35, 0x41, 0x42);
  }

  lemma WordsOfMagic28(bytes: seq<byte>)
    requires StandsAt(Handshake.MAGIC, bytes, 24)
    ensures && WordAt(bytes, 52) == 0x30444338
            && WordAt(bytes, 56) == 0x35423131
  {
    WordOfText(Handshake.MAGIC, 28, bytes, 24, 0x30, 0x44, 0x43, 0x38);
    WordOfText(Handshake.MAGIC, 32, bytes, 24, 0x35, 0x42, 0x31, 0x31);
  }

  lemma TextPadded()
    ensures var p := Padded(Handshake.BytesOf(TEXT));
            |p| == 128 && WordsFrom(p, 0) == FIRST_0.q && WordsFrom(p, 64) == SECOND_0.q
  {
    var p := Padded(Handshake.BytesOf(TEXT));
    ShortPadded(Handshake.BytesOf(TEXT), 1, 0xE0);
    TextEnd(p);
    TextWords(p);
  }

  lemma TextWords(p: seq<byte>)
    requires |p| >= 64 && p[..60] == Handshake.BytesOf(TEXT) && WordAt(p, 60) == 0x80000000
    ensures WordsFrom(p, 0) == FIRST_0.q
  {
    TextStands(p);
    WordsOfKey0(p);
    WordsOfKey4(p);
    WordsOfKey12(p);
    WordsOfMagic0(p);
    WordsOfMagic4(p);
    WordsOfMagic8(p);
    WordsOfMagic12(p);
    WordsOfMagic20(p);
    WordsOfMagic28(p);
  }

  // Behind the text there are a marker, zeros and the length.
  lemma TextEnd(p: seq<byte>)
    requires |p| == 128 && p[60] == 0x80 && p[126] == 1 && p[127] == 0xE0
    requires forall i :: 60 < i < 126 ==> p[i] == 0
    ensures WordAt(p, 60) == 0x80000000 && WordsFrom(p, 64) == SECOND_0.q
  {
    WordOfBytes(p, 60, 0x80, 0, 0, 0);
    forall i | 64 <= i < 123 ensures WordAt(p, i) == 0 {
      ZeroWord(p, i);
    }
    WordOfBytes(p, 124, 0, 0, 1, 0xE0);
  }

  lemma TextDigest()
    ensures Digest(Handshake.BytesOf(TEXT)) == DIGEST
  {
    TextPadded();
    TextBlocks(Padded(Handshake.BytesOf(TEXT)));
    EndBytes();
  }

  lemma TextBlocks(p: seq<byte>)
    requires |p| == 128 && WordsFrom(p, 0) == FIRST_0.q && WordsFrom(p, 64) == SECOND_0.q
    ensures Blocks(p, 2) == Add(SECOND_0.r, SECOND_END)
  {
    BlockAt(p, 0, INITIAL, FIRST_0.q);
    FirstRounds(WordsOf(p, 0), RoundsOf(p, 0, INITIAL));
    FirstBlock(p);
    FirstSum();
    BlockAt(p, 64, SECOND_0.r, SECOND_0.q);
    SecondRounds(WordsOf(p, 64), RoundsOf(p, 64, SECOND_0.r));
    assert Blocks(p, 2) == Block(p, 64, Blocks(p, 1));
  }

  lemma FirstSum()
    ensures Add(INITIAL, FIRST_END) == SECOND_0.r
  {
  }

  lemma EndBytes()
    ensures RegisterBytes(Add(SECOND_0.r, SECOND_END)) == DIGEST
  {
    var h := Registers(0xB37A4F2C, 0xC0624F16, 0x90F64606, 0xCF385945, 0xB2BEC4EA);
    assert Add(SECOND_0.r, SECOND_END) == h;
  }

  lemma DigestEncoded()
    ensures Base64.Encoded(DIGEST) == ACCEPT
  {
    LastEncoded();
    var r6: seq<byte> := [0xC4, 0xEA];
    var t6 := "xOo=";
    GroupEncoded(0x45, 0xB2, 0xBE, r6, "RbK+", t6);
    var r5 := [0x45, 0xB2, 0xBE] + r6;
    var t5 := "RbK+" + t6;
    GroupEncoded(0xCF, 0x38, 0x59, r5, "zzhZ", t5);
    var r4 := [0xCF, 0x38, 0x59] + r5;
    var t4 := "zzhZ" + t5;
    GroupEncoded(0xF6, 0x46, 0x06, r4, "9kYG", t4);
    var r3 := [0xF6, 0x46, 0x06] + r4;
    var t3 := "9kYG" + t4;
    GroupEncoded(0x4F, 0x16, 0x90, r3, "TxaQ", t3);
    var r2 := [0x4F, 0x16, 0x90] + r3;
    var t2 := "TxaQ" + t3;
    GroupEncoded(0x2C, 0xC0, 0x62, r2, "LMBi", t2);
    var r1 := [0x2C, 0xC0, 0x62] + r2;
    var t1 := "LMBi" + t2;
    GroupEncoded(0xB3, 0x7A, 0x4F, r1, "s3pP", t1);
    DigestParts();
    AcceptParts();
  }

  lemma DigestParts()
    ensures DIGEST ==
            [0xB3, 0x7A, 0x4F] + ([0x2C, 0xC0, 0x62] + ([0x4F, 0x16, 0x90] + ([0xF6, 0x46, 0x06] +
            ([0xCF, 0x38, 0x59] + ([0x45, 0xB2, 0xBE] + [0xC4, 0xEA])))))
  {
  }

  lemma AcceptParts()
    ensures ACCEPT == "s3pP" + ("LMBi" + ("TxaQ" + ("9kYG" + ("zzhZ" + ("RbK+" + "xOo=")))))
  {
  }

  lemma LastEncoded()
    ensures Base64.Encoded([0xC4, 0xEA]) == "xOo="
  {
  }

  // One group of an encoding.
  lemma GroupEncoded(b0: byte, b1: byte, b2: byte, rest: seq<byte>, group: string, encoded: string)
    requires Base64.Quad(b0, b1, b2) == group && Base64.Encoded(rest) == encoded
    ensures Base64.Encoded([b0, b1, b2] + rest) == group + encoded
  {
    var bytes := [b0, b1, b2] + rest;
    Base64.EncodedLong(bytes);
    assert bytes[3..] == rest;
  }

  // The whole computation, on the key of the standard.
  lemma AcceptKeyOfSample()
    ensures Handshake.AcceptKey(KEY) == ACCEPT
  {
    TextDigest();
    DigestEncoded();
  }
}
