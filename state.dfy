// The 16-byte AES state of utils/pyAES.py and its transformations, as values.
// The state is a flat list read row by row: row i is bytes 4i to 4i+3 and
// column c is bytes c, 4+c, 8+c and 12+c.

module State {
  import opened Bytes
  import opened Tables
  import opened Columns

  /** The start index Python gives a slice bound n on a list of length len. */
  function SliceIndex(n: int, len: nat): (k: nat)
    ensures k <= len
    ensures 0 <= n <= len ==> k == n
    ensures -(len as int) <= n < 0 ==> k == len + n
  {
    if n < 0 then (if len + n < 0 then 0 else len + n)
    else if n > len then len
    else n
  }

  /** rotate(word, n): the word from slice start n to its end, then its first n bytes, with Python's slice bounds. */
  function Rotate(w: seq<Byte>, n: int): (r: seq<Byte>)
    ensures |r| == |w|
  {
    var k := SliceIndex(n, |w|);
    w[k..] + w[..k]
  }

  /** rotate(word, n) moves byte i + k to position i, k being where the slice word[n:] starts, and wraps around. */
  lemma RotateIndex(w: seq<Byte>, n: int)
    ensures forall i :: 0 <= i < |w| - SliceIndex(n, |w|) ==> Rotate(w, n)[i] == w[i + SliceIndex(n, |w|)]
    ensures forall i :: |w| - SliceIndex(n, |w|) <= i < |w| ==> Rotate(w, n)[i] == w[i + SliceIndex(n, |w|) - |w|]
  {
  }

  /** Rotating right by n undoes rotating left by n, for any n up to the word's length. */
  lemma RotateInverse(w: seq<Byte>, n: int)
    requires -|w| <= n <= |w|
    ensures Rotate(Rotate(w, n), -n) == w
  {
    var r := Rotate(w, n);
    RotateIndex(w, n);
    RotateIndex(r, -n);
    var k := SliceIndex(n, |w|);
    var k' := SliceIndex(-n, |w|);
    assert k + k' == |w| || (k == 0 && k' == 0) || (k == |w| && k' == |w|);
    var u := Rotate(r, -n);
    forall i | 0 <= i < |w| ensures u[i] == w[i] {
    }
  }

  /** Row i of the state. */
  function Row(s: seq<Byte>, i: nat): (r: seq<Byte>)
    requires |s| == 16 && i < 4
    ensures |r| == 4
  {
    s[4 * i .. 4 * i + 4]
  }

  /** Two states with the same four rows are equal. */
  lemma RowsDetermineState(s: seq<Byte>, t: seq<Byte>)
    requires |s| == 16 && |t| == 16
    requires forall i :: 0 <= i < 4 ==> Row(s, i) == Row(t, i)
    ensures s == t
  {
    forall k | 0 <= k < 16 ensures s[k] == t[k] {
      assert Row(s, k / 4)[k % 4] == Row(t, k / 4)[k % 4];
    }
  }

  /** The state whose row i is rows[i]. */
  function FromRows(rows: seq<seq<Byte>>): (r: seq<Byte>)
    requires |rows| == 4 && forall i :: 0 <= i < 4 ==> |rows[i]| == 4
    ensures |r| == 16
    ensures forall k :: 0 <= k < 16 ==> r[k] == rows[k / 4][k % 4]
    ensures forall i :: 0 <= i < 4 ==> Row(r, i) == rows[i]
  {
    rows[0] + rows[1] + rows[2] + rows[3]
  }

  /** shiftRows: row i is rotated left by i. */
  function ShiftRows(s: seq<Byte>): (r: seq<Byte>)
    requires |s| == 16
    ensures |r| == 16
  {
    FromRows(seq(4, i requires 0 <= i < 4 => Rotate(Row(s, i), i)))
  }

  /** shiftRowsInv: row i is rotated right by i. */
  function ShiftRowsInv(s: seq<Byte>): (r: seq<Byte>)
    requires |s| == 16
    ensures |r| == 16
  {
    FromRows(seq(4, i requires 0 <= i < 4 => Rotate(Row(s, i), -i)))
  }

  /** shiftRows rotates row i left by i. */
  lemma ShiftRowsRows(s: seq<Byte>)
    requires |s| == 16
    ensures forall i :: 0 <= i < 4 ==> Row(ShiftRows(s), i) == Rotate(Row(s, i), i)
  {
    hide Rotate;
  }

  /** shiftRowsInv rotates row i right by i. */
  lemma ShiftRowsInvRows(s: seq<Byte>)
    requires |s| == 16
    ensures forall i :: 0 <= i < 4 ==> Row(ShiftRowsInv(s), i) == Rotate(Row(s, i), -i)
  {
    hide Rotate;
  }

  /** On a four-byte word, rotate(word, n) puts byte (j + n) mod 4 at position j. */
  lemma RotateFour(w: seq<Byte>, n: int)
    requires |w| == 4 && 0 <= n < 4
    ensures forall j :: 0 <= j < 4 ==> Rotate(w, n)[j] == w[(j + n) % 4]
  {
    RotateIndex(w, n);
  }

  /** On a four-byte word, rotate(word, n) for n from -3 to 0 puts byte (j + 4 + n) mod 4 at position j. */
  lemma RotateFourRight(w: seq<Byte>, n: int)
    requires |w| == 4 && -4 < n <= 0
    ensures forall j :: 0 <= j < 4 ==> Rotate(w, n)[j] == w[(j + 4 + n) % 4]
  {
    RotateIndex(w, n);
  }

  /** shiftRows puts byte (j + i) mod 4 of row i at column j of that row. */
  lemma ShiftRowsMovesBytes(s: seq<Byte>)
    requires |s| == 16
    ensures forall i, j :: 0 <= i < 4 && 0 <= j < 4 ==> Row(ShiftRows(s), i)[j] == Row(s, i)[(j + i) % 4]
  {
    hide ShiftRows;
    hide ShiftRowsInv;
    hide Rotate;
    forall i, j | 0 <= i < 4 && 0 <= j < 4 ensures Row(ShiftRows(s), i)[j] == Row(s, i)[(j + i) % 4] {
      ShiftRowsRows(s);
      RotateFour(Row(s, i), i);
    }
  }

  /** shiftRowsInv puts byte (j + 4 - i) mod 4 of row i at column j of that row. */
  lemma ShiftRowsInvMovesBytes(s: seq<Byte>)
    requires |s| == 16
    ensures forall i, j :: 0 <= i < 4 && 0 <= j < 4 ==> Row(ShiftRowsInv(s), i)[j] == Row(s, i)[(j + 4 - i) % 4]
  {
    hide ShiftRows;
    hide ShiftRowsInv;
    hide Rotate;
    forall i, j | 0 <= i < 4 && 0 <= j < 4 ensures Row(ShiftRowsInv(s), i)[j] == Row(s, i)[(j + 4 - i) % 4] {
      ShiftRowsInvRows(s);
      RotateFourRight(Row(s, i), -i);
    }
  }

  lemma ShiftRowsInvShiftRows(s: seq<Byte>)
    requires |s| == 16
    ensures ShiftRowsInv(ShiftRows(s)) == s
  {
    var u := ShiftRowsInv(ShiftRows(s));
    ShiftRowsRows(s);
    ShiftRowsInvRows(ShiftRows(s));
    forall i | 0 <= i < 4 ensures Row(u, i) == Row(s, i) {
      RotateInverse(Row(s, i), i);
    }
    RowsDetermineState(u, s);
  }

  lemma ShiftRowsShiftRowsInv(s: seq<Byte>)
    requires |s| == 16
    ensures ShiftRows(ShiftRowsInv(s)) == s
  {
    var u := ShiftRows(ShiftRowsInv(s));
    ShiftRowsInvRows(s);
    ShiftRowsRows(ShiftRowsInv(s));
    forall i | 0 <= i < 4 ensures Row(u, i) == Row(s, i) {
      RotateInverse(Row(s, i), -i);
    }
    RowsDetermineState(u, s);
  }

  /** subBytes: every byte goes through the S-box. */
  function SubBytes(s: seq<Byte>): (r: seq<Byte>)
    ensures |r| == |s|
    ensures forall i :: 0 <= i < |s| ==> r[i] == Sbox(s[i])
  {
    seq(|s|, i requires 0 <= i < |s| => Sbox(s[i]))
  }

  /** subBytesInv: every byte goes through the inverse S-box. */
  function SubBytesInv(s: seq<Byte>): (r: seq<Byte>)
    ensures |r| == |s|
    ensures forall i :: 0 <= i < |s| ==> r[i] == SboxInv(s[i])
  {
    seq(|s|, i requires 0 <= i < |s| => SboxInv(s[i]))
  }

  lemma SubBytesInvSubBytes(s: seq<Byte>)
    ensures SubBytesInv(SubBytes(s)) == s
  {
    var u := SubBytesInv(SubBytes(s));
    forall i | 0 <= i < |s| ensures u[i] == s[i] {
      SboxInvSbox(s[i]);
    }
  }

  lemma SubBytesSubBytesInv(s: seq<Byte>)
    ensures SubBytes(SubBytesInv(s)) == s
  {
    var u := SubBytes(SubBytesInv(s));
    forall i | 0 <= i < |s| ensures u[i] == s[i] {
      SboxSboxInv(s[i]);
    }
  }

  /** addRoundKey: byte i of the state is XORed with byte i of the round key. */
  function AddRoundKey(s: seq<Byte>, roundKey: seq<Byte>): (r: seq<Byte>)
    requires |roundKey| >= |s|
    ensures |r| == |s|
  {
    XorBytes(s, roundKey[..|s|])
  }

  /** Adding the same round key twice gives back the state. */
  lemma AddRoundKeyTwice(s: seq<Byte>, roundKey: seq<Byte>)
    requires |roundKey| >= |s|
    ensures AddRoundKey(AddRoundKey(s, roundKey), roundKey) == s
  {
    XorBytesTwice(s, roundKey[..|s|]);
  }

  /** Column c of the state. */
  function Column(s: seq<Byte>, c: nat): (r: seq<Byte>)
    requires |s| == 16 && c < 4
    ensures |r| == 4
  {
    [s[c], s[4 + c], s[8 + c], s[12 + c]]
  }

  /** Two states with the same four columns are equal. */
  lemma ColumnsDetermineState(s: seq<Byte>, t: seq<Byte>)
    requires |s| == 16 && |t| == 16
    requires forall c :: 0 <= c < 4 ==> Column(s, c) == Column(t, c)
    ensures s == t
  {
    forall k | 0 <= k < 16 ensures s[k] == t[k] {
      assert Column(s, k % 4)[k / 4] == Column(t, k % 4)[k / 4];
    }
  }

  /** The state whose column c is cols[c]. */
  function FromColumns(cols: seq<seq<Byte>>): (r: seq<Byte>)
    requires |cols| == 4 && forall c :: 0 <= c < 4 ==> |cols[c]| == 4
    ensures |r| == 16
    ensures forall c :: 0 <= c < 4 ==> Column(r, c) == cols[c]
  {
    seq(16, k requires 0 <= k < 16 => cols[k % 4][k / 4])
  }

  /** mixColumns: every column goes through mixColumn. */
  function MixColumns(s: seq<Byte>): (r: seq<Byte>)
    requires |s| == 16
    ensures |r| == 16
    ensures forall c :: 0 <= c < 4 ==> Column(r, c) == MixColumn(Column(s, c))
  {
    FromColumns(seq(4, c requires 0 <= c < 4 => MixColumn(Column(s, c))))
  }

  /** mixColumnsInv: every column goes through mixColumnInv. */
  function MixColumnsInv(s: seq<Byte>): (r: seq<Byte>)
    requires |s| == 16
    ensures |r| == 16
    ensures forall c :: 0 <= c < 4 ==> Column(r, c) == MixColumnInv(Column(s, c))
  {
    FromColumns(seq(4, c requires 0 <= c < 4 => MixColumnInv(Column(s, c))))
  }

  lemma MixColumnsInvMixColumns(s: seq<Byte>)
    requires |s| == 16
    ensures MixColumnsInv(MixColumns(s)) == s
  {
    var u := MixColumnsInv(MixColumns(s));
    forall c | 0 <= c < 4 ensures Column(u, c) == Column(s, c) {
      MixColumnInvMixColumn(Column(s, c));
    }
    ColumnsDetermineState(u, s);
  }

  lemma MixColumnsMixColumnsInv(s: seq<Byte>)
    requires |s| == 16
    ensures MixColumns(MixColumnsInv(s)) == s
  {
    var u := MixColumns(MixColumnsInv(s));
    forall c | 0 <= c < 4 ensures Column(u, c) == Column(s, c) {
      MixColumnMixColumnInv(Column(s, c));
    }
    ColumnsDetermineState(u, s);
  }
}
