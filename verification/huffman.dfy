/** The Annex K Huffman tables a JPEG over RTP is coded with (Appendix B of RFC 2435). */
module Huffman {
  import opened Bytes

  /** `classId` is the `Tc|Th` byte, `codelens` the number of codes of each length 1 to 16. */
  datatype Table = Table(classId: byte, codelens: bytes, symbols: bytes)

  const LUM_DC := Table(
    0,
    [0, 1, 5, 1, 1, 1, 1, 1, 1, 0, 0, 0, 0, 0, 0, 0],
    [0, 1, 2, 3, 4, 5, 6, 7, 8, 9, 10, 11])

  const LUM_AC := Table(
    16,
    [0, 2, 1, 3, 3, 2, 4, 3, 5, 5, 4, 4, 0, 0, 1, 125],
    [1, 2, 3, 0, 4, 17, 5, 18, 33, 49, 65, 6, 19, 81, 97, 7, 34, 113, 20, 50, 129, 145, 161, 8, 35,
     66, 177, 193, 21, 82, 209, 240, 36, 51, 98, 114, 130, 9, 10, 22, 23, 24, 25, 26, 37, 38, 39,
     40, 41, 42, 52, 53, 54, 55, 56, 57, 58, 67, 68, 69, 70, 71, 72, 73, 74, 83, 84, 85, 86, 87,
     88, 89, 90, 99, 100, 101, 102, 103, 104, 105, 106, 115, 116, 117, 118, 119, 120, 121, 122,
     131, 132, 133, 134, 135, 136, 137, 138, 146, 147, 148, 149, 150, 151, 152, 153, 154, 162, 163,
     164, 165, 166, 167, 168, 169, 170, 178, 179, 180, 181, 182, 183, 184, 185, 186, 194, 195, 196,
     197, 198, 199, 200, 201, 202, 210, 211, 212, 213, 214, 215, 216, 217, 218, 225, 226, 227, 228,
     229, 230, 231, 232, 233, 234, 241, 242, 243, 244, 245, 246, 247, 248, 249, 250])

  const CHM_DC := Table(
    1,
    [0, 3, 1, 1, 1, 1, 1, 1, 1, 1, 1, 0, 0, 0, 0, 0],
    [0, 1, 2, 3, 4, 5, 6, 7, 8, 9, 10, 11])

  const CHM_AC := Table(
    17,
    [0, 2, 1, 2, 4, 4, 3, 4, 7, 5, 4, 4, 0, 1, 2, 119],
    [0, 1, 2, 3, 17, 4, 5, 33, 49, 6, 18, 65, 81, 7, 97, 113, 19, 34, 50, 129, 8, 20, 66, 145, 161,
     177, 193, 9, 35, 51, 82, 240, 21, 98, 114, 209, 10, 22, 36, 52, 225, 37, 241, 23, 24, 25, 26,
     38, 39, 40, 41, 42, 53, 54, 55, 56, 57, 58, 67, 68, 69, 70, 71, 72, 73, 74, 83, 84, 85, 86,
     87, 88, 89, 90, 99, 100, 101, 102, 103, 104, 105, 106, 115, 116, 117, 118, 119, 120, 121, 122,
     130, 131, 132, 133, 134, 135, 136, 137, 138, 146, 147, 148, 149, 150, 151, 152, 153, 154, 162,
     163, 164, 165, 166, 167, 168, 169, 170, 178, 179, 180, 181, 182, 183, 184, 185, 186, 194, 195,
     196, 197, 198, 199, 200, 201, 202, 210, 211, 212, 213, 214, 215, 216, 217, 218, 226, 227, 228,
     229, 230, 231, 232, 233, 234, 242, 243, 244, 245, 246, 247, 248, 249, 250])

  /** All four, in the order the receiver writes them. */
  const ALL := [LUM_DC, LUM_AC, CHM_DC, CHM_AC]

  function TableFor(classId: byte): Option<Table> {
    if classId == LUM_DC.classId then Some(LUM_DC)
    else if classId == LUM_AC.classId then Some(LUM_AC)
    else if classId == CHM_DC.classId then Some(CHM_DC)
    else if classId == CHM_AC.classId then Some(CHM_AC)
    else None
  }

  /** A table as a DHT segment holds it. */
  function DhtBody(t: Table): bytes {
    [t.classId] + t.codelens + t.symbols
  }

  predicate AnnexK(tables: seq<Table>) {
    forall k :: 0 <= k < |tables| ==> tables[k] in ALL
  }

  /** The body of a segment that holds `tables`. */
  function DhtBodies(tables: seq<Table>): bytes {
    if tables == [] then [] else DhtBody(tables[0]) + DhtBodies(tables[1..])
  }

  /** How many codes sixteen code-length counts announce. */
  function Sum(v: bytes): nat
    requires |v| == 16
  {
    var first: int := v[0];
    first + v[1] + v[2] + v[3] + v[4] + v[5] + v[6] + v[7] +
    v[8] + v[9] + v[10] + v[11] + v[12] + v[13] + v[14] + v[15]
  }

  /** A table the parser can find again and step over. */
  predicate WellFormed(t: Table) {
    && |t.codelens| == 16
    && Sum(t.codelens) == |t.symbols|
    && |t.symbols| <= 255
    && TableFor(t.classId) == Some(t)
  }

  /** The code-length counts of each table add up to its symbol count, and its class byte selects it. */
  lemma TablesWellFormed()
    ensures WellFormed(LUM_DC) && |LUM_DC.symbols| == 12
    ensures WellFormed(LUM_AC) && |LUM_AC.symbols| == 162
    ensures WellFormed(CHM_DC) && |CHM_DC.symbols| == 12
    ensures WellFormed(CHM_AC) && |CHM_AC.symbols| == 162
  {
  }

  /** The share of the code space, in units of a 16-bit code, that sixteen code-length counts take up. */
  function CodeSpace(v: bytes): nat
    requires |v| == 16
  {
    var first: int := v[0];
    0x8000 * first + 0x4000 * v[1] as int + 0x2000 * v[2] as int + 0x1000 * v[3] as int +
    0x800 * v[4] as int + 0x400 * v[5] as int + 0x200 * v[6] as int + 0x100 * v[7] as int +
    0x80 * v[8] as int + 0x40 * v[9] as int + 0x20 * v[10] as int + 0x10 * v[11] as int +
    8 * v[12] as int + 4 * v[13] as int + 2 * v[14] as int + v[15] as int
  }

  /** As section C.2 of ITU-T T.81 asks, each table is a prefix code that leaves out just the code of all ones, of the
      longest length it has: 9, 16, 11 and 16 bits. The DC symbols are the twelve size categories in order. */
  lemma {:induction false} PrefixCodes()
    ensures |LUM_DC.codelens| == |LUM_AC.codelens| == |CHM_DC.codelens| == |CHM_AC.codelens| == 16
    ensures CodeSpace(LUM_DC.codelens) + 0x80 == 0x1_0000 && CodeSpace(CHM_DC.codelens) + 0x20 == 0x1_0000
    ensures CodeSpace(LUM_AC.codelens) + 1 == 0x1_0000 && CodeSpace(CHM_AC.codelens) + 1 == 0x1_0000
    ensures |LUM_DC.symbols| == |CHM_DC.symbols| == 12
    ensures forall k :: 0 <= k < 12 ==> LUM_DC.symbols[k] as int == k && CHM_DC.symbols[k] as int == k
  {
  }
}
