/**
 The capacities of the standard, entry by entry, and what the error correction levels are: ISO/IEC 18004:2015, Tables 1,
 7 and 9.
 */
module CapacityTables {
  import opened Capacity

  // ----- all codewords, data codewords and blocks, for versions 1 to 40 -----

  const CODEWORDS: seq<nat> := [
    26, 44, 70, 100, 134, 172, 196, 242, 292, 346,
    404, 466, 532, 581, 655, 733, 815, 901, 991, 1085,
    1156, 1258, 1364, 1474, 1588, 1706, 1828, 1921, 2051, 2185,
    2323, 2465, 2611, 2761, 2876, 3034, 3196, 3362, 3532, 3706]

  const DATA_LOW: seq<nat> := [
    19, 34, 55, 80, 108, 136, 156, 194, 232, 274,
    324, 370, 428, 461, 523, 589, 647, 721, 795, 861,
    932, 1006, 1094, 1174, 1276, 1370, 1468, 1531, 1631, 1735,
    1843, 1955, 2071, 2191, 2306, 2434, 2566, 2702, 2812, 2956]
  const DATA_MEDIUM: seq<nat> := [
    16, 28, 44, 64, 86, 108, 124, 154, 182, 216,
    254, 290, 334, 365, 415, 453, 507, 563, 627, 669,
    714, 782, 860, 914, 1000, 1062, 1128, 1193, 1267, 1373,
    1455, 1541, 1631, 1725, 1812, 1914, 1992, 2102, 2216, 2334]
  const DATA_QUARTILE: seq<nat> := [
    13, 22, 34, 48, 62, 76, 88, 110, 132, 154,
    180, 206, 244, 261, 295, 325, 367, 397, 445, 485,
    512, 568, 614, 664, 718, 754, 808, 871, 911, 985,
    1033, 1115, 1171, 1231, 1286, 1354, 1426, 1502, 1582, 1666]
  const DATA_HIGH: seq<nat> := [
    9, 16, 26, 36, 46, 60, 66, 86, 100, 122,
    140, 158, 180, 197, 223, 253, 283, 313, 341, 385,
    406, 442, 464, 514, 538, 596, 628, 661, 701, 745,
    793, 845, 901, 961, 986, 1054, 1096, 1142, 1222, 1276]

  const BLOCKS_LOW: seq<nat> := [
    1, 1, 1, 1, 1, 2, 2, 2, 2, 4, 4, 4, 4, 4, 6, 6, 6, 6, 7, 8,
    8, 9, 9, 10, 12, 12, 12, 13, 14, 15, 16, 17, 18, 19, 19, 20, 21, 22, 24, 25]
  const BLOCKS_MEDIUM: seq<nat> := [
    1, 1, 1, 2, 2, 4, 4, 4, 5, 5, 5, 8, 9, 9, 10, 10, 11, 13, 14, 16,
    17, 17, 18, 20, 21, 23, 25, 26, 28, 29, 31, 33, 35, 37, 38, 40, 43, 45, 47, 49]
  const BLOCKS_QUARTILE: seq<nat> := [
    1, 1, 2, 2, 4, 4, 6, 6, 8, 8, 8, 10, 12, 16, 12, 17, 16, 18, 21, 20,
    23, 23, 25, 27, 29, 34, 34, 35, 38, 40, 43, 45, 48, 51, 53, 56, 59, 62, 65, 68]
  const BLOCKS_HIGH: seq<nat> := [
    1, 1, 2, 4, 4, 4, 5, 6, 8, 8, 11, 11, 16, 16, 18, 16, 19, 21, 25, 25,
    25, 34, 30, 32, 35, 37, 40, 42, 45, 48, 51, 54, 57, 60, 63, 66, 70, 74, 77, 81]

  function AllCodewords(v: Version): nat { CODEWORDS[v - 1] }

  function DataCodewords(v: Version, e: Ecc): nat {
    if e == LOW then DATA_LOW[v - 1] else if e == MEDIUM then DATA_MEDIUM[v - 1]
    else if e == QUARTILE then DATA_QUARTILE[v - 1] else DATA_HIGH[v - 1]
  }

  function Blocks(v: Version, e: Ecc): nat {
    if e == LOW then BLOCKS_LOW[v - 1] else if e == MEDIUM then BLOCKS_MEDIUM[v - 1]
    else if e == QUARTILE then BLOCKS_QUARTILE[v - 1] else BLOCKS_HIGH[v - 1]
  }

  // ----- the functions agree with the tables -----

  lemma Codewords1To10(v: Version)
    requires 1 <= v <= 10
    ensures RawCodewords(v) == AllCodewords(v)
  {
  }

  lemma Codewords11To20(v: Version)
    requires 11 <= v <= 20
    ensures RawCodewords(v) == AllCodewords(v)
  {
  }

  lemma Codewords21To30(v: Version)
    requires 21 <= v <= 30
    ensures RawCodewords(v) == AllCodewords(v)
  {
  }

  lemma Codewords31To40(v: Version)
    requires 31 <= v <= 40
    ensures RawCodewords(v) == AllCodewords(v)
  {
  }

  lemma Codewords(v: Version)
    ensures RawCodewords(v) == AllCodewords(v)
  {
    hide RawCodewords, AllCodewords;
    if v <= 10 { Codewords1To10(v); } else if v <= 20 { Codewords11To20(v); } else if v <= 30 { Codewords21To30(v); }
    else { Codewords31To40(v); }
  }

  lemma Low1To8(v: Version)
    requires 1 <= v <= 8 && RawCodewords(v) == AllCodewords(v)
    ensures NumDataCodewords(v, LOW) == DATA_LOW[v - 1]
  {
    hide NumRawDataModules, EccPerBlockMedium, EccPerBlockQuartile, EccPerBlockHigh, Capacity.BlocksMedium,
      Capacity.BlocksQuartile, Capacity.BlocksHigh;
  }

  lemma Low9To16(v: Version)
    requires 9 <= v <= 16 && RawCodewords(v) == AllCodewords(v)
    ensures NumDataCodewords(v, LOW) == DATA_LOW[v - 1]
  {
    hide NumRawDataModules, EccPerBlockMedium, EccPerBlockQuartile, EccPerBlockHigh, Capacity.BlocksMedium,
      Capacity.BlocksQuartile, Capacity.BlocksHigh;
  }

  lemma Low17To24(v: Version)
    requires 17 <= v <= 24 && RawCodewords(v) == AllCodewords(v)
    ensures NumDataCodewords(v, LOW) == DATA_LOW[v - 1]
  {
    hide NumRawDataModules, EccPerBlockMedium, EccPerBlockQuartile, EccPerBlockHigh, Capacity.BlocksMedium,
      Capacity.BlocksQuartile, Capacity.BlocksHigh;
  }

  lemma Low25To32(v: Version)
    requires 25 <= v <= 32 && RawCodewords(v) == AllCodewords(v)
    ensures NumDataCodewords(v, LOW) == DATA_LOW[v - 1]
  {
    hide NumRawDataModules, EccPerBlockMedium, EccPerBlockQuartile, EccPerBlockHigh, Capacity.BlocksMedium,
      Capacity.BlocksQuartile, Capacity.BlocksHigh;
  }

  lemma Low33To40(v: Version)
    requires 33 <= v <= 40 && RawCodewords(v) == AllCodewords(v)
    ensures NumDataCodewords(v, LOW) == DATA_LOW[v - 1]
  {
    hide NumRawDataModules, EccPerBlockMedium, EccPerBlockQuartile, EccPerBlockHigh, Capacity.BlocksMedium,
      Capacity.BlocksQuartile, Capacity.BlocksHigh;
  }

  lemma DataLow(v: Version)
    ensures NumDataCodewords(v, LOW) == DataCodewords(v, LOW)
  {
    hide RawCodewords, AllCodewords, NumDataCodewords;
    Codewords(v);
    if v <= 8 { Low1To8(v); } else if v <= 16 { Low9To16(v); } else if v <= 24 { Low17To24(v); }
    else if v <= 32 { Low25To32(v); } else { Low33To40(v); }
  }

  lemma Medium1To8(v: Version)
    requires 1 <= v <= 8 && RawCodewords(v) == AllCodewords(v)
    ensures NumDataCodewords(v, MEDIUM) == DATA_MEDIUM[v - 1]
  {
    hide NumRawDataModules, EccPerBlockLow, EccPerBlockQuartile, EccPerBlockHigh, Capacity.BlocksLow,
      Capacity.BlocksQuartile, Capacity.BlocksHigh;
  }

  lemma Medium9To16(v: Version)
    requires 9 <= v <= 16 && RawCodewords(v) == AllCodewords(v)
    ensures NumDataCodewords(v, MEDIUM) == DATA_MEDIUM[v - 1]
  {
    hide NumRawDataModules, EccPerBlockLow, EccPerBlockQuartile, EccPerBlockHigh, Capacity.BlocksLow,
      Capacity.BlocksQuartile, Capacity.BlocksHigh;
  }

  lemma Medium17To24(v: Version)
    requires 17 <= v <= 24 && RawCodewords(v) == AllCodewords(v)
    ensures NumDataCodewords(v, MEDIUM) == DATA_MEDIUM[v - 1]
  {
    hide NumRawDataModules, EccPerBlockLow, EccPerBlockQuartile, EccPerBlockHigh, Capacity.BlocksLow,
      Capacity.BlocksQuartile, Capacity.BlocksHigh;
  }

  lemma Medium25To32(v: Version)
    requires 25 <= v <= 32 && RawCodewords(v) == AllCodewords(v)
    ensures NumDataCodewords(v, MEDIUM) == DATA_MEDIUM[v - 1]
  {
    hide NumRawDataModules, EccPerBlockLow, EccPerBlockQuartile, EccPerBlockHigh, Capacity.BlocksLow,
      Capacity.BlocksQuartile, Capacity.BlocksHigh;
  }

  lemma Medium33To40(v: Version)
    requires 33 <= v <= 40 && RawCodewords(v) == AllCodewords(v)
    ensures NumDataCodewords(v, MEDIUM) == DATA_MEDIUM[v - 1]
  {
    hide NumRawDataModules, EccPerBlockLow, EccPerBlockQuartile, EccPerBlockHigh, Capacity.BlocksLow,
      Capacity.BlocksQuartile, Capacity.BlocksHigh;
  }

  lemma DataMedium(v: Version)
    ensures NumDataCodewords(v, MEDIUM) == DataCodewords(v, MEDIUM)
  {
    hide RawCodewords, AllCodewords, NumDataCodewords;
    Codewords(v);
    if v <= 8 { Medium1To8(v); } else if v <= 16 { Medium9To16(v); } else if v <= 24 { Medium17To24(v); }
    else if v <= 32 { Medium25To32(v); } else { Medium33To40(v); }
  }

  lemma Quartile1To8(v: Version)
    requires 1 <= v <= 8 && RawCodewords(v) == AllCodewords(v)
    ensures NumDataCodewords(v, QUARTILE) == DATA_QUARTILE[v - 1]
  {
    hide NumRawDataModules, EccPerBlockLow, EccPerBlockMedium, EccPerBlockHigh, Capacity.BlocksLow,
      Capacity.BlocksMedium, Capacity.BlocksHigh;
  }

  lemma Quartile9To16(v: Version)
    requires 9 <= v <= 16 && RawCodewords(v) == AllCodewords(v)
    ensures NumDataCodewords(v, QUARTILE) == DATA_QUARTILE[v - 1]
  {
    hide NumRawDataModules, EccPerBlockLow, EccPerBlockMedium, EccPerBlockHigh, Capacity.BlocksLow,
      Capacity.BlocksMedium, Capacity.BlocksHigh;
  }

  lemma Quartile17To24(v: Version)
    requires 17 <= v <= 24 && RawCodewords(v) == AllCodewords(v)
    ensures NumDataCodewords(v, QUARTILE) == DATA_QUARTILE[v - 1]
  {
    hide NumRawDataModules, EccPerBlockLow, EccPerBlockMedium, EccPerBlockHigh, Capacity.BlocksLow,
      Capacity.BlocksMedium, Capacity.BlocksHigh;
  }

  lemma Quartile25To32(v: Version)
    requires 25 <= v <= 32 && RawCodewords(v) == AllCodewords(v)
    ensures NumDataCodewords(v, QUARTILE) == DATA_QUARTILE[v - 1]
  {
    hide NumRawDataModules, EccPerBlockLow, EccPerBlockMedium, EccPerBlockHigh, Capacity.BlocksLow,
      Capacity.BlocksMedium, Capacity.BlocksHigh;
  }

  lemma Quartile33To40(v: Version)
    requires 33 <= v <= 40 && RawCodewords(v) == AllCodewords(v)
    ensures NumDataCodewords(v, QUARTILE) == DATA_QUARTILE[v - 1]
  {
    hide NumRawDataModules, EccPerBlockLow, EccPerBlockMedium, EccPerBlockHigh, Capacity.BlocksLow,
      Capacity.BlocksMedium, Capacity.BlocksHigh;
  }

  lemma DataQuartile(v: Version)
    ensures NumDataCodewords(v, QUARTILE) == DataCodewords(v, QUARTILE)
  {
    hide RawCodewords, AllCodewords, NumDataCodewords;
    Codewords(v);
    if v <= 8 { Quartile1To8(v); } else if v <= 16 { Quartile9To16(v); } else if v <= 24 { Quartile17To24(v); }
    else if v <= 32 { Quartile25To32(v); } else { Quartile33To40(v); }
  }

  lemma High1To8(v: Version)
    requires 1 <= v <= 8 && RawCodewords(v) == AllCodewords(v)
    ensures NumDataCodewords(v, HIGH) == DATA_HIGH[v - 1]
  {
    hide NumRawDataModules, EccPerBlockLow, EccPerBlockMedium, EccPerBlockQuartile, Capacity.BlocksLow,
      Capacity.BlocksMedium, Capacity.BlocksQuartile;
  }

  lemma High9To16(v: Version)
    requires 9 <= v <= 16 && RawCodewords(v) == AllCodewords(v)
    ensures NumDataCodewords(v, HIGH) == DATA_HIGH[v - 1]
  {
    hide NumRawDataModules, EccPerBlockLow, EccPerBlockMedium, EccPerBlockQuartile, Capacity.BlocksLow,
      Capacity.BlocksMedium, Capacity.BlocksQuartile;
  }

  lemma High17To24(v: Version)
    requires 17 <= v <= 24 && RawCodewords(v) == AllCodewords(v)
    ensures NumDataCodewords(v, HIGH) == DATA_HIGH[v - 1]
  {
    hide NumRawDataModules, EccPerBlockLow, EccPerBlockMedium, EccPerBlockQuartile, Capacity.BlocksLow,
      Capacity.BlocksMedium, Capacity.BlocksQuartile;
  }

  lemma High25To32(v: Version)
    requires 25 <= v <= 32 && RawCodewords(v) == AllCodewords(v)
    ensures NumDataCodewords(v, HIGH) == DATA_HIGH[v - 1]
  {
    hide NumRawDataModules, EccPerBlockLow, EccPerBlockMedium, EccPerBlockQuartile, Capacity.BlocksLow,
      Capacity.BlocksMedium, Capacity.BlocksQuartile;
  }

  lemma High33To40(v: Version)
    requires 33 <= v <= 40 && RawCodewords(v) == AllCodewords(v)
    ensures NumDataCodewords(v, HIGH) == DATA_HIGH[v - 1]
  {
    hide NumRawDataModules, EccPerBlockLow, EccPerBlockMedium, EccPerBlockQuartile, Capacity.BlocksLow,
      Capacity.BlocksMedium, Capacity.BlocksQuartile;
  }

  lemma DataHigh(v: Version)
    ensures NumDataCodewords(v, HIGH) == DataCodewords(v, HIGH)
  {
    hide RawCodewords, AllCodewords, NumDataCodewords;
    Codewords(v);
    if v <= 8 { High1To8(v); } else if v <= 16 { High9To16(v); } else if v <= 24 { High17To24(v); }
    else if v <= 32 { High25To32(v); } else { High33To40(v); }
  }

  lemma NumBlocksLow(v: Version)
    ensures NumBlocks(v, LOW) == Blocks(v, LOW)
  {
  }

  lemma NumBlocksMedium(v: Version)
    ensures NumBlocks(v, MEDIUM) == Blocks(v, MEDIUM)
  {
  }

  lemma NumBlocksQuartile(v: Version)
    ensures NumBlocks(v, QUARTILE) == Blocks(v, QUARTILE)
  {
  }

  lemma NumBlocksHigh(v: Version)
    ensures NumBlocks(v, HIGH) == Blocks(v, HIGH)
  {
  }

  /** Every entry of the tables: all codewords, data codewords and blocks of each version and level. */
  lemma TableEntries(v: Version, e: Ecc)
    ensures RawCodewords(v) == AllCodewords(v) && NumDataCodewords(v, e) == DataCodewords(v, e)
    ensures NumBlocks(v, e) == Blocks(v, e)
    ensures BlockEccLen(v, e) * Blocks(v, e) == AllCodewords(v) - DataCodewords(v, e)
  {
    hide NumRawDataModules, NumBlocks, BlockEccLen, AllCodewords, DataCodewords, Blocks;
    Codewords(v);
    if e == LOW { DataLow(v); NumBlocksLow(v); } else if e == MEDIUM { DataMedium(v); NumBlocksMedium(v); }
    else if e == QUARTILE { DataQuartile(v); NumBlocksQuartile(v); } else { DataHigh(v); NumBlocksHigh(v); }
  }

  // ----- what the levels are -----

  /** The share of a symbol's codewords that are there for error correction lies within these percentages. */
  predicate Share(v: Version, e: Ecc, from: nat, to: nat) {
    var ecc := AllCodewords(v) - DataCodewords(v, e);
    from * AllCodewords(v) <= 100 * ecc <= to * AllCodewords(v)
  }

  lemma ShareLow(v: Version)
    ensures Share(v, LOW, 19, 27)
  {
  }

  lemma ShareMedium(v: Version)
    ensures Share(v, MEDIUM, 35, 39)
  {
  }

  lemma ShareQuartile(v: Version)
    ensures Share(v, QUARTILE, 50, 56)
  {
  }

  lemma ShareHigh(v: Version)
    ensures Share(v, HIGH, 62, 67)
  {
  }

  /** The codewords for error correction in a symbol. */
  function Correction(v: Version, e: Ecc): nat { BlockEccLen(v, e) * NumBlocks(v, e) }

  /** Their share at each level, in percent. */
  lemma LevelShares(v: Version)
    ensures 19 * RawCodewords(v) <= 100 * Correction(v, LOW) <= 27 * RawCodewords(v)
    ensures 35 * RawCodewords(v) <= 100 * Correction(v, MEDIUM) <= 39 * RawCodewords(v)
    ensures 50 * RawCodewords(v) <= 100 * Correction(v, QUARTILE) <= 56 * RawCodewords(v)
    ensures 62 * RawCodewords(v) <= 100 * Correction(v, HIGH) <= 67 * RawCodewords(v)
  {
    hide RawCodewords, NumBlocks, BlockEccLen, NumDataCodewords, AllCodewords, DataCodewords, Blocks;
    TableEntries(v, LOW);
    TableEntries(v, MEDIUM);
    TableEntries(v, QUARTILE);
    TableEntries(v, HIGH);
    ShareLow(v);
    ShareMedium(v);
    ShareQuartile(v);
    ShareHigh(v);
  }

  /** A higher level has more codewords for error correction, and so fewer for data. */
  lemma LevelsIncrease(v: Version, e: Ecc, e': Ecc)
    requires e < e'
    ensures Correction(v, e) < Correction(v, e') && NumDataCodewords(v, e) > NumDataCodewords(v, e')
  {
    hide NumRawDataModules, NumBlocks, BlockEccLen;
    LevelShares(v);
    EntriesOk(v, e);
  }
}
