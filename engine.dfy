// The in-place block engine of utils/pyAES.py: every transform overwrites the
// 16-byte state array as the source overwrites its state list, and each one is
// proved to leave exactly the value the State and Cipher functions compute.

module Engine {
  import opened Bytes
  import opened Tables
  import opened Galois
  import opened Columns
  import opened State
  import opened KeySchedule
  import Cipher

  /** subBytes: every byte of the state is replaced by its S-box entry, one at a time. */
  method SubBytesInPlace(state: array<Byte>)
    modifies state
    ensures state[..] == SubBytes(old(state[..]))
  {
    hide Sbox;
    for i := 0 to state.Length
      invariant forall j :: 0 <= j < i ==> state[j] == Sbox(old(state[j]))
      invariant forall j :: i <= j < state.Length ==> state[j] == old(state[j])
    {
      state[i] := Sbox(state[i]);
    }
  }

  /** subBytesInv: every byte of the state is replaced by its inverse S-box entry. */
  method SubBytesInvInPlace(state: array<Byte>)
    modifies state
    ensures state[..] == SubBytesInv(old(state[..]))
  {
    hide SboxInv;
    for i := 0 to state.Length
      invariant forall j :: 0 <= j < i ==> state[j] == SboxInv(old(state[j]))
      invariant forall j :: i <= j < state.Length ==> state[j] == old(state[j])
    {
      state[i] := SboxInv(state[i]);
    }
  }

  /** addRoundKey: every byte of the state is XORed with the round key byte at the same index. */
  method AddRoundKeyInPlace(state: array<Byte>, roundKey: seq<Byte>)
    requires |roundKey| >= state.Length
    modifies state
    ensures state[..] == AddRoundKey(old(state[..]), roundKey)
  {
    for i := 0 to state.Length
      invariant forall j :: 0 <= j < i ==> state[j] == old(state[j]) ^ roundKey[j]
      invariant forall j :: i <= j < state.Length ==> state[j] == old(state[j])
    {
      state[i] := state[i] ^ roundKey[i];
    }
  }

  /** Overwrites row i of the state with the four bytes of row; the other rows keep their bytes. */
  method WriteRow(state: array<Byte>, i: nat, row: seq<Byte>)
    requires state.Length == 16 && i < 4 && |row| == 4
    modifies state
    ensures Row(state[..], i) == row
    ensures forall r :: 0 <= r < 4 && r != i ==> Row(state[..], r) == Row(old(state[..]), r)
  {
    for j := 0 to 4
      invariant forall k :: 0 <= k < 16 && (k < 4 * i || 4 * i + j <= k) ==> state[k] == old(state[k])
      invariant forall m :: 0 <= m < j ==> state[4 * i + m] == row[m]
    {
      state[4 * i + j] := row[j];
    }
  }

  /** shiftRows: each of the four rows is overwritten by itself rotated left by its row number. */
  method ShiftRowsInPlace(state: array<Byte>)
    requires state.Length == 16
    modifies state
    ensures state[..] == ShiftRows(old(state[..]))
  {
    ghost var s := state[..];
    ShiftRowsRows(s);
    hide ShiftRows;
    hide Rotate;
    hide Row;
    for i := 0 to 4
      invariant forall r :: 0 <= r < i ==> Row(state[..], r) == Row(ShiftRows(s), r)
      invariant forall r :: i <= r < 4 ==> Row(state[..], r) == Row(s, r)
    {
      var row := Rotate(Row(state[..], i), i);
      WriteRow(state, i, row);
    }
    RowsDetermineState(state[..], ShiftRows(s));
  }

  /** shiftRowsInv: each of the four rows is overwritten by itself rotated right by its row number. */
  method ShiftRowsInvInPlace(state: array<Byte>)
    requires state.Length == 16
    modifies state
    ensures state[..] == ShiftRowsInv(old(state[..]))
  {
    ghost var s := state[..];
    ShiftRowsInvRows(s);
    hide ShiftRowsInv;
    hide Rotate;
    hide Row;
    for i := 0 to 4
      invariant forall r :: 0 <= r < i ==> Row(state[..], r) == Row(ShiftRowsInv(s), r)
      invariant forall r :: i <= r < 4 ==> Row(state[..], r) == Row(s, r)
    {
      var row := Rotate(Row(state[..], i), -i);
      WriteRow(state, i, row);
    }
    RowsDetermineState(state[..], ShiftRowsInv(s));
  }

  /** One entry of mixColumn: the field products of its four inputs with 2, 1, 1 and 3, XORed in the source's order. */
  method MixEntryOf(p: Byte, q: Byte, r: Byte, s: Byte) returns (e: Byte)
    ensures e == MixEntry(p, q, r, s)
  {
    hide FieldMul;
    var m0 := GaloisMult(p, 2);
    var m1 := GaloisMult(s, 1);
    var m2 := GaloisMult(r, 1);
    var m3 := GaloisMult(q, 3);
    e := m0 ^ m1 ^ m2 ^ m3;
  }

  /** One entry of mixColumnInv: the field products of its four inputs with 14, 9, 13 and 11, XORed in the source's order. */
  method InvMixEntryOf(p: Byte, q: Byte, r: Byte, s: Byte) returns (e: Byte)
    ensures e == InvMixEntry(p, q, r, s)
  {
    hide FieldMul;
    var m0 := GaloisMult(p, 14);
    var m1 := GaloisMult(s, 9);
    var m2 := GaloisMult(r, 13);
    var m3 := GaloisMult(q, 11);
    e := m0 ^ m1 ^ m2 ^ m3;
  }

  /** mixColumn: the column is overwritten from a copy of itself. */
  method MixColumnInPlace(column: array<Byte>)
    requires column.Length == 4
    modifies column
    ensures column[..] == MixColumn(old(column[..]))
  {
    var temp := column[..];
    column[0] := MixEntryOf(temp[0], temp[1], temp[2], temp[3]);
    column[1] := MixEntryOf(temp[1], temp[2], temp[3], temp[0]);
    column[2] := MixEntryOf(temp[2], temp[3], temp[0], temp[1]);
    column[3] := MixEntryOf(temp[3], temp[0], temp[1], temp[2]);
  }

  /** mixColumnInv: the column is overwritten from a copy of itself. */
  method MixColumnInvInPlace(column: array<Byte>)
    requires column.Length == 4
    modifies column
    ensures column[..] == MixColumnInv(old(column[..]))
  {
    var temp := column[..];
    column[0] := InvMixEntryOf(temp[0], temp[1], temp[2], temp[3]);
    column[1] := InvMixEntryOf(temp[1], temp[2], temp[3], temp[0]);
    column[2] := InvMixEntryOf(temp[2], temp[3], temp[0], temp[1]);
    column[3] := InvMixEntryOf(temp[3], temp[0], temp[1], temp[2]);
  }

  /** Column i of the state, read into a fresh four-byte array. */
  method ReadColumn(state: array<Byte>, i: nat) returns (column: array<Byte>)
    requires state.Length == 16 && i < 4
    ensures fresh(column) && column[..] == Column(state[..], i)
  {
    column := new Byte[4];
    for j := 0 to 4
      invariant forall m :: 0 <= m < j ==> column[m] == state[4 * m + i]
    {
      column[j] := state[j * 4 + i];
    }
  }

  /** Writes the four bytes of column back into column i of the state; the other columns keep their bytes. */
  method WriteColumn(state: array<Byte>, i: nat, column: seq<Byte>)
    requires state.Length == 16 && i < 4 && |column| == 4
    modifies state
    ensures Column(state[..], i) == column
    ensures forall c :: 0 <= c < 4 && c != i ==> Column(state[..], c) == Column(old(state[..]), c)
  {
    for j := 0 to 4
      invariant forall k :: 0 <= k < 16 && (k % 4 != i || 4 * j <= k) ==> state[k] == old(state[k])
      invariant forall m :: 0 <= m < j ==> state[4 * m + i] == column[m]
    {
      state[j * 4 + i] := column[j];
    }
  }

  /** One pass of mixColumns' loop: column i is read out, mixed and written back. */
  method MixColumnAt(state: array<Byte>, i: nat)
    requires state.Length == 16 && i < 4
    modifies state
    ensures Column(state[..], i) == MixColumn(Column(old(state[..]), i))
    ensures forall c :: 0 <= c < 4 && c != i ==> Column(state[..], c) == Column(old(state[..]), c)
  {
    hide Column;
    hide MixColumn;
    var column := ReadColumn(state, i);
    MixColumnInPlace(column);
    WriteColumn(state, i, column[..]);
  }

  /** One pass of mixColumnsInv's loop: column i is read out, inverse-mixed and written back. */
  method MixColumnInvAt(state: array<Byte>, i: nat)
    requires state.Length == 16 && i < 4
    modifies state
    ensures Column(state[..], i) == MixColumnInv(Column(old(state[..]), i))
    ensures forall c :: 0 <= c < 4 && c != i ==> Column(state[..], c) == Column(old(state[..]), c)
  {
    hide Column;
    hide MixColumnInv;
    var column := ReadColumn(state, i);
    MixColumnInvInPlace(column);
    WriteColumn(state, i, column[..]);
  }

  /**
   * One pass of a column loop keeps its invariant: columns below i + 1 are
   * f of the original column, the rest are the original column.
   */
  lemma ColumnsStep(s: seq<Byte>, before: seq<Byte>, after: seq<Byte>, i: nat, f: seq<Byte> --> seq<Byte>)
    requires |s| == 16 && |before| == 16 && |after| == 16 && i < 4
    requires forall c :: |c| == 4 ==> f.requires(c)
    requires forall c :: 0 <= c < i ==> Column(before, c) == f(Column(s, c))
    requires forall c :: i <= c < 4 ==> Column(before, c) == Column(s, c)
    requires Column(after, i) == f(Column(before, i))
    requires forall c :: 0 <= c < 4 && c != i ==> Column(after, c) == Column(before, c)
    ensures forall c :: 0 <= c < i + 1 ==> Column(after, c) == f(Column(s, c))
    ensures forall c :: i + 1 <= c < 4 ==> Column(after, c) == Column(s, c)
  {
    hide *;
  }

  /** mixColumns: each column is read out, mixed and written back. */
  method MixColumnsInPlace(state: array<Byte>)
    requires state.Length == 16
    modifies state
    ensures state[..] == MixColumns(old(state[..]))
  {
    ghost var s := state[..];
    hide *;
    for i := 0 to 4
      invariant forall c :: 0 <= c < i ==> Column(state[..], c) == MixColumn(Column(s, c))
      invariant forall c :: i <= c < 4 ==> Column(state[..], c) == Column(s, c)
    {
      ghost var before := state[..];
      MixColumnAt(state, i);
      ColumnsStep(s, before, state[..], i, MixColumn);
    }
    ColumnsDetermineState(state[..], MixColumns(s));
  }

  /** mixColumnsInv: each column is read out, inverse-mixed and written back. */
  method MixColumnsInvInPlace(state: array<Byte>)
    requires state.Length == 16
    modifies state
    ensures state[..] == MixColumnsInv(old(state[..]))
  {
    ghost var s := state[..];
    hide *;
    for i := 0 to 4
      invariant forall c :: 0 <= c < i ==> Column(state[..], c) == MixColumnInv(Column(s, c))
      invariant forall c :: i <= c < 4 ==> Column(state[..], c) == Column(s, c)
    {
      ghost var before := state[..];
      MixColumnInvAt(state, i);
      ColumnsStep(s, before, state[..], i, MixColumnInv);
    }
    ColumnsDetermineState(state[..], MixColumnsInv(s));
  }

  /** aesRound on the state array. */
  method AesRoundInPlace(state: array<Byte>, roundKey: seq<Byte>)
    requires state.Length == 16 && |roundKey| == 16
    modifies state
    ensures state[..] == Cipher.AesRound(old(state[..]), roundKey)
  {
    hide SubBytes;
    hide ShiftRows;
    hide MixColumns;
    hide AddRoundKey;
    SubBytesInPlace(state);
    ShiftRowsInPlace(state);
    MixColumnsInPlace(state);
    AddRoundKeyInPlace(state, roundKey);
  }

  /** aesRoundInv on the state array. */
  method AesRoundInvInPlace(state: array<Byte>, roundKey: seq<Byte>)
    requires state.Length == 16 && |roundKey| == 16
    modifies state
    ensures state[..] == Cipher.AesRoundInv(old(state[..]), roundKey)
  {
    hide SubBytesInv;
    hide ShiftRowsInv;
    hide MixColumnsInv;
    hide AddRoundKey;
    AddRoundKeyInPlace(state, roundKey);
    MixColumnsInvInPlace(state);
    ShiftRowsInvInPlace(state);
    SubBytesInvInPlace(state);
  }

  /** aesMain's middle loop: aesRound with round keys 1 to numRounds - 1, in that order. */
  method RoundsUpInPlace(state: array<Byte>, expandedKey: seq<Byte>, numRounds: nat)
    requires state.Length == 16 && 16 * (numRounds + 1) <= |expandedKey|
    modifies state
    ensures state[..] == Cipher.RoundsUp(old(state[..]), expandedKey, 1, numRounds)
  {
    hide Cipher.AesRound;
    hide Cipher.CreateRoundKey;
    ghost var first := state[..];
    var i := 1;
    while i < numRounds
      invariant 1 <= i <= if numRounds < 1 then 1 else numRounds
      invariant state[..] == Cipher.RoundsUp(first, expandedKey, 1, i)
    {
      var roundKey := Cipher.CreateRoundKey(expandedKey, i);
      AesRoundInPlace(state, roundKey);
      i := i + 1;
    }
  }

  /** aesMainInv's middle loop: aesRoundInv with round keys numRounds - 1 down to 1. */
  method RoundsDownInPlace(state: array<Byte>, expandedKey: seq<Byte>, numRounds: nat)
    requires state.Length == 16 && 16 * (numRounds + 1) <= |expandedKey|
    modifies state
    ensures state[..] == Cipher.RoundsDown(old(state[..]), expandedKey, 1, numRounds)
  {
    hide Cipher.AesRoundInv;
    hide Cipher.CreateRoundKey;
    ghost var last := state[..];
    var i: int := numRounds - 1;
    while i > 0
      invariant if numRounds == 0 then i == -1 else 0 <= i < numRounds
      invariant state[..] == Cipher.RoundsDown(last, expandedKey, i + 1, numRounds)
    {
      var roundKey := Cipher.CreateRoundKey(expandedKey, i);
      AesRoundInvInPlace(state, roundKey);
      i := i - 1;
    }
  }

  /** aesMain on the state array: round key 0, the middle rounds, then the last round without mixColumns. */
  method AesMainInPlace(state: array<Byte>, expandedKey: seq<Byte>, numRounds: nat)
    requires state.Length == 16 && 16 * (numRounds + 1) <= |expandedKey|
    modifies state
    ensures state[..] == Cipher.AesMain(old(state[..]), expandedKey, numRounds)
  {
    hide SubBytes;
    hide ShiftRows;
    hide AddRoundKey;
    hide Cipher.RoundsUp;
    hide Cipher.CreateRoundKey;
    var roundKey := Cipher.CreateRoundKey(expandedKey, 0);
    AddRoundKeyInPlace(state, roundKey);
    RoundsUpInPlace(state, expandedKey, numRounds);
    roundKey := Cipher.CreateRoundKey(expandedKey, numRounds);
    SubBytesInPlace(state);
    ShiftRowsInPlace(state);
    AddRoundKeyInPlace(state, roundKey);
  }

  /** aesMainInv on the state array: round key numRounds, the inverse last round, the middle rounds downwards, round key 0. */
  method AesMainInvInPlace(state: array<Byte>, expandedKey: seq<Byte>, numRounds: nat)
    requires state.Length == 16 && 16 * (numRounds + 1) <= |expandedKey|
    modifies state
    ensures state[..] == Cipher.AesMainInv(old(state[..]), expandedKey, numRounds)
  {
    hide SubBytesInv;
    hide ShiftRowsInv;
    hide AddRoundKey;
    hide Cipher.RoundsDown;
    hide Cipher.CreateRoundKey;
    var roundKey := Cipher.CreateRoundKey(expandedKey, numRounds);
    AddRoundKeyInPlace(state, roundKey);
    ShiftRowsInvInPlace(state);
    SubBytesInvInPlace(state);
    RoundsDownInPlace(state, expandedKey, numRounds);
    roundKey := Cipher.CreateRoundKey(expandedKey, 0);
    AddRoundKeyInPlace(state, roundKey);
  }

  /** aesEncrypt: a copy of the block, the key expanded, and aesMain with 14 rounds on the copy. */
  method AesEncrypt(plaintext: seq<Byte>, key: seq<Byte>) returns (block: seq<Byte>)
    requires |plaintext| == 16 && |key| == KeySize
    ensures block == Cipher.AesEncrypt(plaintext, key)
  {
    hide Cipher.AesMain;
    var state := new Byte[16](i requires 0 <= i < 16 => plaintext[i]);
    assert state[..] == plaintext;
    var expandedKey := ExpandKey(key);
    AesMainInPlace(state, expandedKey, Cipher.Rounds256);
    block := state[..];
  }

  /** aesDecrypt: a copy of the block, the key expanded, and aesMainInv with 14 rounds on the copy. */
  method AesDecrypt(ciphertext: seq<Byte>, key: seq<Byte>) returns (block: seq<Byte>)
    requires |ciphertext| == 16 && |key| == KeySize
    ensures block == Cipher.AesDecrypt(ciphertext, key)
  {
    hide Cipher.AesMainInv;
    var state := new Byte[16](i requires 0 <= i < 16 => ciphertext[i]);
    assert state[..] == ciphertext;
    var expandedKey := ExpandKey(key);
    AesMainInvInPlace(state, expandedKey, Cipher.Rounds256);
    block := state[..];
  }
}
