/**
 The capacity of a QR Code symbol: ISO/IEC 18004:2015, Tables 1 and 9.
 */
module Capacity {
  type Version = v: nat | 1 <= v <= 40 witness 1

  /** Low, Medium, Quartile and High error correction, in ascending order. */
  type Ecc = e: nat | e < 4

  const LOW: Ecc := 0
  const MEDIUM: Ecc := 1
  const QUARTILE: Ecc := 2
  const HIGH: Ecc := 3

  // ----- ECC_CODEWORDS_PER_BLOCK and NUM_ERROR_CORRECTION_BLOCKS, one function a row -----

  function EccPerBlockLow(v: Version): nat {
    if v <= 1 then 7 else if v <= 2 then 10 else if v <= 3 then 15 else if v <= 4 then 20 else
    if v <= 5 then 26 else if v <= 6 then 18 else if v <= 7 then 20 else if v <= 8 then 24 else
    if v <= 9 then 30 else if v <= 10 then 18 else if v <= 11 then 20 else if v <= 12 then 24 else
    if v <= 13 then 26 else if v <= 14 then 30 else if v <= 15 then 22 else if v <= 16 then 24 else
    if v <= 17 then 28 else if v <= 18 then 30 else if v <= 22 then 28 else if v <= 24 then 30 else
    if v <= 25 then 26 else if v <= 26 then 28 else 30
  }

  function EccPerBlockMedium(v: Version): nat {
    if v <= 1 then 10 else if v <= 2 then 16 else if v <= 3 then 26 else if v <= 4 then 18 else
    if v <= 5 then 24 else if v <= 6 then 16 else if v <= 7 then 18 else if v <= 9 then 22 else
    if v <= 10 then 26 else if v <= 11 then 30 else if v <= 13 then 22 else if v <= 15 then 24 else
    if v <= 17 then 28 else if v <= 21 then 26 else 28
  }

  function EccPerBlockQuartile(v: Version): nat {
    if v <= 1 then 13 else if v <= 2 then 22 else if v <= 3 then 18 else if v <= 4 then 26 else
    if v <= 5 then 18 else if v <= 6 then 24 else if v <= 7 then 18 else if v <= 8 then 22 else
    if v <= 9 then 20 else if v <= 10 then 24 else if v <= 11 then 28 else if v <= 12 then 26 else
    if v <= 13 then 24 else if v <= 14 then 20 else if v <= 15 then 30 else if v <= 16 then 24 else
    if v <= 18 then 28 else if v <= 19 then 26 else if v <= 20 then 30 else if v <= 21 then 28 else
    if v <= 25 then 30 else if v <= 26 then 28 else 30
  }

  function EccPerBlockHigh(v: Version): nat {
    if v <= 1 then 17 else if v <= 2 then 28 else if v <= 3 then 22 else if v <= 4 then 16 else
    if v <= 5 then 22 else if v <= 6 then 28 else if v <= 8 then 26 else if v <= 9 then 24 else
    if v <= 10 then 28 else if v <= 11 then 24 else if v <= 12 then 28 else if v <= 13 then 22 else
    if v <= 15 then 24 else if v <= 16 then 30 else if v <= 18 then 28 else if v <= 19 then 26 else
    if v <= 20 then 28 else if v <= 21 then 30 else if v <= 22 then 24 else 30
  }

  function BlocksLow(v: Version): nat {
    if v <= 5 then 1 else if v <= 9 then 2 else if v <= 14 then 4 else if v <= 18 then 6 else
    if v <= 19 then 7 else if v <= 21 then 8 else if v <= 23 then 9 else if v <= 24 then 10 else
    if v <= 27 then 12 else if v <= 28 then 13 else if v <= 29 then 14 else if v <= 30 then 15 else
    if v <= 31 then 16 else if v <= 32 then 17 else if v <= 33 then 18 else if v <= 35 then 19 else
    if v <= 36 then 20 else if v <= 37 then 21 else if v <= 38 then 22 else if v <= 39 then 24 else 25
  }

  function BlocksMedium(v: Version): nat {
    if v <= 3 then 1 else if v <= 5 then 2 else if v <= 8 then 4 else if v <= 11 then 5 else
    if v <= 12 then 8 else if v <= 14 then 9 else if v <= 16 then 10 else if v <= 17 then 11 else
    if v <= 18 then 13 else if v <= 19 then 14 else if v <= 20 then 16 else if v <= 22 then 17 else
    if v <= 23 then 18 else if v <= 24 then 20 else if v <= 25 then 21 else if v <= 26 then 23 else
    if v <= 27 then 25 else if v <= 28 then 26 else if v <= 29 then 28 else if v <= 30 then 29 else
    if v <= 31 then 31 else if v <= 32 then 33 else if v <= 33 then 35 else if v <= 34 then 37 else
    if v <= 35 then 38 else if v <= 36 then 40 else if v <= 37 then 43 else if v <= 38 then 45 else
    if v <= 39 then 47 else 49
  }

  function BlocksQuartile(v: Version): nat {
    if v <= 2 then 1 else if v <= 4 then 2 else if v <= 6 then 4 else if v <= 8 then 6 else
    if v <= 11 then 8 else if v <= 12 then 10 else if v <= 13 then 12 else if v <= 14 then 16 else
    if v <= 15 then 12 else if v <= 16 then 17 else if v <= 17 then 16 else if v <= 18 then 18 else
    if v <= 19 then 21 else if v <= 20 then 20 else if v <= 22 then 23 else if v <= 23 then 25 else
    if v <= 24 then 27 else if v <= 25 then 29 else if v <= 27 then 34 else if v <= 28 then 35 else
    if v <= 29 then 38 else if v <= 30 then 40 else if v <= 31 then 43 else if v <= 32 then 45 else
    if v <= 33 then 48 else if v <= 34 then 51 else if v <= 35 then 53 else if v <= 36 then 56 else
    if v <= 37 then 59 else if v <= 38 then 62 else if v <= 39 then 65 else 68
  }

  function BlocksHigh(v: Version): nat {
    if v <= 2 then 1 else if v <= 3 then 2 else if v <= 6 then 4 else if v <= 7 then 5 else
    if v <= 8 then 6 else if v <= 10 then 8 else if v <= 12 then 11 else if v <= 14 then 16 else
    if v <= 15 then 18 else if v <= 16 then 16 else if v <= 17 then 19 else if v <= 18 then 21 else
    if v <= 21 then 25 else if v <= 22 then 34 else if v <= 23 then 30 else if v <= 24 then 32 else
    if v <= 25 then 35 else if v <= 26 then 37 else if v <= 27 then 40 else if v <= 28 then 42 else
    if v <= 29 then 45 else if v <= 30 then 48 else if v <= 31 then 51 else if v <= 32 then 54 else
    if v <= 33 then 57 else if v <= 34 then 60 else if v <= 35 then 63 else if v <= 36 then 66 else
    if v <= 37 then 70 else if v <= 38 then 74 else if v <= 39 then 77 else 81
  }

  function BlockEccLen(v: Version, e: Ecc): nat {
    if e == LOW then EccPerBlockLow(v) else if e == MEDIUM then EccPerBlockMedium(v)
    else if e == QUARTILE then EccPerBlockQuartile(v) else EccPerBlockHigh(v)
  }

  function NumBlocks(v: Version, e: Ecc): nat {
    if e == LOW then BlocksLow(v) else if e == MEDIUM then BlocksMedium(v)
    else if e == QUARTILE then BlocksQuartile(v) else BlocksHigh(v)
  }

  /** The number of modules that hold data or error correction bits. */
  function NumRawDataModules(ver: Version): int {
    var result := (16 * ver + 128) * ver + 64;
    if ver >= 2 then
      var numAlign := ver / 7 + 2;
      var result2 := result - ((25 * numAlign - 10) * numAlign - 55);
      if ver >= 7 then result2 - 36 else result2
    else result
  }

  function RawCodewords(v: Version): int { NumRawDataModules(v) / 8 }

  function NumDataCodewords(v: Version, e: Ecc): int {
    NumRawDataModules(v) / 8 - BlockEccLen(v, e) * NumBlocks(v, e)
  }

  /** n blocks with ecc error correction codewords each divide raw codewords: no block is without data or too long. */
  predicate Divides(raw: int, n: int, ecc: int) {
    1 <= n && 7 <= ecc <= 30 && n * (ecc + 1) <= raw < 255 * n
  }

  predicate BlocksFit(v: Version, n: int, ecc: int) { Divides(RawCodewords(v), n, ecc) }

  predicate EntryOk(v: Version, e: Ecc) { BlocksFit(v, NumBlocks(v, e), BlockEccLen(v, e)) }

  lemma Low1To8()
    ensures forall v: Version | 1 <= v <= 8 :: EntryOk(v, LOW)
  {
  }

  lemma Low9To16()
    ensures forall v: Version | 9 <= v <= 16 :: EntryOk(v, LOW)
  {
  }

  lemma Low17To24()
    ensures forall v: Version | 17 <= v <= 24 :: EntryOk(v, LOW)
  {
  }

  lemma Low25To32()
    ensures forall v: Version | 25 <= v <= 32 :: EntryOk(v, LOW)
  {
  }

  lemma Low33To40()
    ensures forall v: Version | 33 <= v <= 40 :: EntryOk(v, LOW)
  {
  }

  lemma Medium1To8()
    ensures forall v: Version | 1 <= v <= 8 :: EntryOk(v, MEDIUM)
  {
  }

  lemma Medium9To16()
    ensures forall v: Version | 9 <= v <= 16 :: EntryOk(v, MEDIUM)
  {
  }

  lemma Medium17To24()
    ensures forall v: Version | 17 <= v <= 24 :: EntryOk(v, MEDIUM)
  {
  }

  lemma Medium25To32()
    ensures forall v: Version | 25 <= v <= 32 :: EntryOk(v, MEDIUM)
  {
  }

  lemma Medium33To40()
    ensures forall v: Version | 33 <= v <= 40 :: EntryOk(v, MEDIUM)
  {
  }

  lemma Quartile1To8()
    ensures forall v: Version | 1 <= v <= 8 :: EntryOk(v, QUARTILE)
  {
  }

  lemma Quartile9To16()
    ensures forall v: Version | 9 <= v <= 16 :: EntryOk(v, QUARTILE)
  {
  }

  lemma Quartile17To24()
    ensures forall v: Version | 17 <= v <= 24 :: EntryOk(v, QUARTILE)
  {
  }

  lemma Quartile25To32()
    ensures forall v: Version | 25 <= v <= 32 :: EntryOk(v, QUARTILE)
  {
  }

  lemma Quartile33To40()
    ensures forall v: Version | 33 <= v <= 40 :: EntryOk(v, QUARTILE)
  {
  }

  lemma High1To8()
    ensures forall v: Version | 1 <= v <= 8 :: EntryOk(v, HIGH)
  {
  }

  lemma High9To16()
    ensures forall v: Version | 9 <= v <= 16 :: EntryOk(v, HIGH)
  {
  }

  lemma High17To24()
    ensures forall v: Version | 17 <= v <= 24 :: EntryOk(v, HIGH)
  {
  }

  lemma High25To32()
    ensures forall v: Version | 25 <= v <= 32 :: EntryOk(v, HIGH)
  {
  }

  lemma High33To40()
    ensures forall v: Version | 33 <= v <= 40 :: EntryOk(v, HIGH)
  {
  }

  /** Every entry of the tables divides the codewords of its version into blocks. */
  lemma EntriesOk(v: Version, e: Ecc)
    ensures BlocksFit(v, NumBlocks(v, e), BlockEccLen(v, e))
  {
    hide BlocksFit, NumBlocks, BlockEccLen;
    Low1To8(); Low9To16(); Low17To24(); Low25To32(); Low33To40();
    Medium1To8(); Medium9To16(); Medium17To24(); Medium25To32(); Medium33To40();
    Quartile1To8(); Quartile9To16(); Quartile17To24(); Quartile25To32(); Quartile33To40();
    High1To8(); High9To16(); High17To24(); High25To32(); High33To40();
    assert EntryOk(v, e);
  }
}
