// The block cipher of utils/pyAES.py as values: aesRound and aesRoundInv,
// createRoundKey, aesMain and aesMainInv with any number of rounds, and the
// 14-round aesEncrypt and aesDecrypt under a 32-byte key.

module Cipher {
  import opened Bytes
  import opened State
  import opened KeySchedule

  /** Number of rounds aesEncrypt and aesDecrypt run: the default of aesMain for a 256-bit key. */
  const Rounds256 := 14

  /** createRoundKey(expandedKey, n): the sixteen bytes of the expanded key from 16n on. */
  function CreateRoundKey(expandedKey: seq<Byte>, n: nat): (roundKey: seq<Byte>)
    requires 16 * n + 16 <= |expandedKey|
    ensures |roundKey| == 16
    ensures forall i :: 0 <= i < 16 ==> roundKey[i] == expandedKey[16 * n + i]
  {
    expandedKey[16 * n .. 16 * n + 16]
  }

  /** aesRound: subBytes, shiftRows, mixColumns, then addRoundKey. */
  function AesRound(s: seq<Byte>, roundKey: seq<Byte>): (r: seq<Byte>)
    requires |s| == 16 && |roundKey| == 16
    ensures |r| == 16
  {
    AddRoundKey(MixColumns(ShiftRows(SubBytes(s))), roundKey)
  }

  /** aesRoundInv: addRoundKey, mixColumnsInv, shiftRowsInv, then subBytesInv. */
  function AesRoundInv(s: seq<Byte>, roundKey: seq<Byte>): (r: seq<Byte>)
    requires |s| == 16 && |roundKey| == 16
    ensures |r| == 16
  {
    SubBytesInv(ShiftRowsInv(MixColumnsInv(AddRoundKey(s, roundKey))))
  }

  /** aesRoundInv undoes aesRound under the same round key. */
  lemma AesRoundInvAesRound(s: seq<Byte>, roundKey: seq<Byte>)
    requires |s| == 16 && |roundKey| == 16
    ensures AesRoundInv(AesRound(s, roundKey), roundKey) == s
  {
    hide SubBytes;
    hide SubBytesInv;
    hide ShiftRows;
    hide ShiftRowsInv;
    hide MixColumns;
    hide MixColumnsInv;
    hide AddRoundKey;
    var a := SubBytes(s);
    var b := ShiftRows(a);
    var c := MixColumns(b);
    AddRoundKeyTwice(c, roundKey);
    MixColumnsInvMixColumns(b);
    ShiftRowsInvShiftRows(a);
    SubBytesInvSubBytes(s);
  }

  /** aesRound undoes aesRoundInv under the same round key. */
  lemma AesRoundAesRoundInv(s: seq<Byte>, roundKey: seq<Byte>)
    requires |s| == 16 && |roundKey| == 16
    ensures AesRound(AesRoundInv(s, roundKey), roundKey) == s
  {
    hide SubBytes;
    hide SubBytesInv;
    hide ShiftRows;
    hide ShiftRowsInv;
    hide MixColumns;
    hide MixColumnsInv;
    hide AddRoundKey;
    var c := AddRoundKey(s, roundKey);
    var b := MixColumnsInv(c);
    var a := ShiftRowsInv(b);
    SubBytesSubBytesInv(a);
    ShiftRowsShiftRowsInv(b);
    MixColumnsMixColumnsInv(c);
    AddRoundKeyTwice(s, roundKey);
  }

  /**
   * aesMain's ascending loop: aesRound with round keys lo,
   * lo + 1, ..., hi - 1 in that order. The last round applied is outermost.
   */
  function RoundsUp(s: seq<Byte>, expandedKey: seq<Byte>, lo: nat, hi: nat): (r: seq<Byte>)
    requires |s| == 16 && 16 * hi <= |expandedKey|
    ensures |r| == 16
    decreases hi
  {
    if hi <= lo then s
    else AesRound(RoundsUp(s, expandedKey, lo, hi - 1), CreateRoundKey(expandedKey, hi - 1))
  }

  /**
   * aesMainInv's descending loop: aesRoundInv with
   * round keys hi - 1 down to lo. The last round applied (key lo) is outermost.
   */
  function RoundsDown(s: seq<Byte>, expandedKey: seq<Byte>, lo: nat, hi: nat): (r: seq<Byte>)
    requires |s| == 16 && 16 * hi <= |expandedKey|
    ensures |r| == 16
    decreases hi - lo
  {
    if hi <= lo then s
    else AesRoundInv(RoundsDown(s, expandedKey, lo + 1, hi), CreateRoundKey(expandedKey, lo))
  }

  /** The first round of RoundsUp is innermost: round lo, then rounds lo + 1 to hi - 1. */
  lemma {:induction false} RoundsUpFirst(s: seq<Byte>, expandedKey: seq<Byte>, lo: nat, hi: nat)
    requires |s| == 16 && 16 * hi <= |expandedKey| && lo < hi
    ensures RoundsUp(s, expandedKey, lo, hi) ==
      RoundsUp(AesRound(s, CreateRoundKey(expandedKey, lo)), expandedKey, lo + 1, hi)
    decreases hi
  {
    hide AesRound;
    if hi - 1 > lo {
      RoundsUpFirst(s, expandedKey, lo, hi - 1);
    }
  }

  /** The first round of RoundsDown is innermost: round hi - 1, then rounds hi - 2 down to lo. */
  lemma {:induction false} RoundsDownFirst(s: seq<Byte>, expandedKey: seq<Byte>, lo: nat, hi: nat)
    requires |s| == 16 && 16 * hi <= |expandedKey| && lo < hi
    ensures RoundsDown(s, expandedKey, lo, hi) ==
      RoundsDown(AesRoundInv(s, CreateRoundKey(expandedKey, hi - 1)), expandedKey, lo, hi - 1)
    decreases hi - lo
  {
    hide AesRoundInv;
    if lo + 1 < hi {
      RoundsDownFirst(s, expandedKey, lo + 1, hi);
    }
  }

  /** The inverse rounds, run from the highest key down, undo the rounds. */
  lemma {:induction false} RoundsDownRoundsUp(s: seq<Byte>, expandedKey: seq<Byte>, lo: nat, hi: nat)
    requires |s| == 16 && 16 * hi <= |expandedKey|
    ensures RoundsDown(RoundsUp(s, expandedKey, lo, hi), expandedKey, lo, hi) == s
    decreases hi
  {
    hide AesRound;
    hide AesRoundInv;
    if lo < hi {
      var t := RoundsUp(s, expandedKey, lo, hi - 1);
      var k := CreateRoundKey(expandedKey, hi - 1);
      RoundsDownFirst(AesRound(t, k), expandedKey, lo, hi);
      AesRoundInvAesRound(t, k);
      RoundsDownRoundsUp(s, expandedKey, lo, hi - 1);
    }
  }

  /** The rounds undo the inverse rounds. */
  lemma {:induction false} RoundsUpRoundsDown(s: seq<Byte>, expandedKey: seq<Byte>, lo: nat, hi: nat)
    requires |s| == 16 && 16 * hi <= |expandedKey|
    ensures RoundsUp(RoundsDown(s, expandedKey, lo, hi), expandedKey, lo, hi) == s
    decreases hi - lo
  {
    hide AesRound;
    hide AesRoundInv;
    if lo < hi {
      var t := RoundsDown(s, expandedKey, lo + 1, hi);
      var k := CreateRoundKey(expandedKey, lo);
      RoundsUpFirst(AesRoundInv(t, k), expandedKey, lo, hi);
      AesRoundAesRoundInv(t, k);
      RoundsUpRoundsDown(s, expandedKey, lo + 1, hi);
    }
  }

  /**
   * aesMain(state, expandedKey, numRounds): round key 0, rounds 1 to
   * numRounds - 1, then a last round without mixColumns under round key
   * numRounds.
   */
  function AesMain(s: seq<Byte>, expandedKey: seq<Byte>, numRounds: nat): (r: seq<Byte>)
    requires |s| == 16 && 16 * (numRounds + 1) <= |expandedKey|
    ensures |r| == 16
  {
    var first := AddRoundKey(s, CreateRoundKey(expandedKey, 0));
    var middle := RoundsUp(first, expandedKey, 1, numRounds);
    AddRoundKey(ShiftRows(SubBytes(middle)), CreateRoundKey(expandedKey, numRounds))
  }

  /**
   * aesMainInv(state, expandedKey, numRounds): round key numRounds,
   * shiftRowsInv and subBytesInv, inverse rounds numRounds - 1 down to 1,
   * then round key 0.
   */
  function AesMainInv(s: seq<Byte>, expandedKey: seq<Byte>, numRounds: nat): (r: seq<Byte>)
    requires |s| == 16 && 16 * (numRounds + 1) <= |expandedKey|
    ensures |r| == 16
  {
    var last := SubBytesInv(ShiftRowsInv(AddRoundKey(s, CreateRoundKey(expandedKey, numRounds))));
    var middle := RoundsDown(last, expandedKey, 1, numRounds);
    AddRoundKey(middle, CreateRoundKey(expandedKey, 0))
  }

  /** aesMainInv undoes aesMain for every number of rounds the expanded key covers. */
  lemma AesMainInvAesMain(s: seq<Byte>, expandedKey: seq<Byte>, numRounds: nat)
    requires |s| == 16 && 16 * (numRounds + 1) <= |expandedKey|
    ensures AesMainInv(AesMain(s, expandedKey, numRounds), expandedKey, numRounds) == s
  {
    hide SubBytes;
    hide SubBytesInv;
    hide ShiftRows;
    hide ShiftRowsInv;
    hide AddRoundKey;
    hide RoundsUp;
    hide RoundsDown;
    var k0 := CreateRoundKey(expandedKey, 0);
    var kn := CreateRoundKey(expandedKey, numRounds);
    var first := AddRoundKey(s, k0);
    var middle := RoundsUp(first, expandedKey, 1, numRounds);
    var a := SubBytes(middle);
    var b := ShiftRows(a);
    AddRoundKeyTwice(b, kn);
    ShiftRowsInvShiftRows(a);
    SubBytesInvSubBytes(middle);
    RoundsDownRoundsUp(first, expandedKey, 1, numRounds);
    AddRoundKeyTwice(s, k0);
  }

  /** aesMain undoes aesMainInv. */
  lemma AesMainAesMainInv(s: seq<Byte>, expandedKey: seq<Byte>, numRounds: nat)
    requires |s| == 16 && 16 * (numRounds + 1) <= |expandedKey|
    ensures AesMain(AesMainInv(s, expandedKey, numRounds), expandedKey, numRounds) == s
  {
    hide SubBytes;
    hide SubBytesInv;
    hide ShiftRows;
    hide ShiftRowsInv;
    hide AddRoundKey;
    hide RoundsUp;
    hide RoundsDown;
    var k0 := CreateRoundKey(expandedKey, 0);
    var kn := CreateRoundKey(expandedKey, numRounds);
    var b := AddRoundKey(s, kn);
    var a := ShiftRowsInv(b);
    var last := SubBytesInv(a);
    var middle := RoundsDown(last, expandedKey, 1, numRounds);
    AddRoundKeyTwice(middle, k0);
    RoundsUpRoundsDown(last, expandedKey, 1, numRounds);
    SubBytesSubBytesInv(a);
    ShiftRowsShiftRowsInv(b);
    AddRoundKeyTwice(s, kn);
  }

  /** aesEncrypt(plaintext, key): aesMain with 14 rounds over expandKey(key). */
  function AesEncrypt(plaintext: seq<Byte>, key: seq<Byte>): (block: seq<Byte>)
    requires |plaintext| == 16 && |key| == KeySize
    ensures |block| == 16
  {
    AesMain(plaintext, ExpandedKey(key), Rounds256)
  }

  /** aesDecrypt(ciphertext, key): aesMainInv with 14 rounds over expandKey(key). */
  function AesDecrypt(ciphertext: seq<Byte>, key: seq<Byte>): (block: seq<Byte>)
    requires |ciphertext| == 16 && |key| == KeySize
    ensures |block| == 16
  {
    AesMainInv(ciphertext, ExpandedKey(key), Rounds256)
  }

  /** aesDecrypt(aesEncrypt(b, k), k) == b for every 16-byte block and 32-byte key. */
  lemma AesDecryptAesEncrypt(b: seq<Byte>, key: seq<Byte>)
    requires |b| == 16 && |key| == KeySize
    ensures AesDecrypt(AesEncrypt(b, key), key) == b
  {
    hide AesMain;
    hide AesMainInv;
    AesMainInvAesMain(b, ExpandedKey(key), Rounds256);
  }

  /** aesEncrypt(aesDecrypt(b, k), k) == b: under a fixed key the block cipher is a permutation. */
  lemma AesEncryptAesDecrypt(b: seq<Byte>, key: seq<Byte>)
    requires |b| == 16 && |key| == KeySize
    ensures AesEncrypt(AesDecrypt(b, key), key) == b
  {
    hide AesMain;
    hide AesMainInv;
    AesMainAesMainInv(b, ExpandedKey(key), Rounds256);
  }

  /** Under a fixed key, distinct blocks encrypt to distinct blocks. */
  lemma AesEncryptInjective(b1: seq<Byte>, b2: seq<Byte>, key: seq<Byte>)
    requires |b1| == 16 && |b2| == 16 && |key| == KeySize
    ensures AesEncrypt(b1, key) == AesEncrypt(b2, key) <==> b1 == b2
  {
    hide AesEncrypt;
    hide AesDecrypt;
    AesDecryptAesEncrypt(b1, key);
    AesDecryptAesEncrypt(b2, key);
  }
}
