// The key schedule of utils/pyAES.py: keyScheduleCore and expandKey, which
// stretch a 32-byte (256-bit) cipher key into 240 bytes, sixteen for each of
// the fifteen round keys.

module KeySchedule {
  import opened Bytes
  import opened Tables
  import opened State

  /** Length of the cipher key the schedule accepts. */
  const KeySize := 32

  /** Length of the expanded key: fifteen round keys of sixteen bytes. */
  const ExpandedSize := 240

  /**
   * keyScheduleCore(word, i): the word rotated left by one byte, every byte
   * through the S-box, and rcon[i] added to the first byte.
   */
  function KeyScheduleCore(word: seq<Byte>, i: nat): (r: seq<Byte>)
    requires |word| == 4 && i < 255
    ensures |r| == 4
  {
    var w := SubBytes(Rotate(word, 1));
    w[0 := w[0] ^ Rcon(i as Byte)]
  }

  /** keyScheduleCore byte by byte: RotWord, then SubWord, then rcon[i] on the first byte. */
  lemma KeyScheduleCoreBytes(word: seq<Byte>, i: nat)
    requires |word| == 4 && i < 255
    ensures KeyScheduleCore(word, i) == [Sbox(word[1]) ^ Rcon(i as Byte), Sbox(word[2]), Sbox(word[3]), Sbox(word[0])]
  {
    hide Sbox;
    hide Rcon;
    var r := Rotate(word, 1);
    assert r == [word[1], word[2], word[3], word[0]];
  }

  /**
   * The word t that is XORed into the next four bytes when the expanded key
   * holds ek: its last four bytes, through keyScheduleCore at every multiple
   * of 32 (with rcon index |ek| / 32) and through the S-box halfway between.
   */
  function Temp(ek: seq<Byte>): (t: seq<Byte>)
    requires KeySize <= |ek| < ExpandedSize && |ek| % 4 == 0
    ensures |t| == 4
  {
    var w := ek[|ek| - 4..];
    if |ek| % KeySize == 0 then KeyScheduleCore(w, |ek| / KeySize)
    else if |ek| % KeySize == 16 then SubBytes(w)
    else w
  }

  /** The four bytes the schedule appends to ek: the word 32 bytes back XORed with Temp(ek). */
  function NextWord(ek: seq<Byte>): (w: seq<Byte>)
    requires KeySize <= |ek| < ExpandedSize && |ek| % 4 == 0
    ensures |w| == 4
  {
    XorBytes(ek[|ek| - KeySize .. |ek| - KeySize + 4], Temp(ek))
  }

  /** The lengths at which the schedule appends a word: multiples of 4 from 32 up to 236. */
  predicate Growing(ek: seq<Byte>)
  {
    KeySize <= |ek| < ExpandedSize && |ek| % 4 == 0
  }

  /** A rule that gives the next four bytes of a key of any growing length. */
  ghost predicate WordRule(step: seq<Byte> --> seq<Byte>)
  {
    forall e :: Growing(e) ==> step.requires(e) && |step(e)| == 4
  }

  /**
   * ek extended word by word, step giving each new word, up to 240 bytes.
   * The schedule is this with step := NextWord; the facts below hold for
   * every rule.
   */
  function ExpandFrom(ek: seq<Byte>, step: seq<Byte> --> seq<Byte>): (r: seq<Byte>)
    requires KeySize <= |ek| <= ExpandedSize && |ek| % 4 == 0
    requires WordRule(step)
    ensures |r| == ExpandedSize
    ensures r[..|ek|] == ek
    decreases ExpandedSize - |ek|
  {
    if |ek| == ExpandedSize then ek
    else
      var r := ExpandFrom(ek + step(ek), step);
      assert r[..|ek|] == (ek + step(ek))[..|ek|];
      r
  }

  /** One step of ExpandFrom below 240 bytes. */
  lemma ExpandFromStep(ek: seq<Byte>, step: seq<Byte> --> seq<Byte>)
    requires Growing(ek) && WordRule(step)
    ensures ExpandFrom(ek, step) == ExpandFrom(ek + step(ek), step)
  {
  }

  /** ExpandFrom of a full-length key is the key. */
  lemma ExpandFromDone(ek: seq<Byte>, step: seq<Byte> --> seq<Byte>)
    requires |ek| == ExpandedSize && WordRule(step)
    ensures ExpandFrom(ek, step) == ek
  {
  }

  /** Every word ExpandFrom adds is step of all bytes before it. */
  lemma {:induction false} ExpandFromRecurrence(ek: seq<Byte>, step: seq<Byte> --> seq<Byte>, n: nat)
    requires KeySize <= |ek| <= ExpandedSize && |ek| % 4 == 0
    requires WordRule(step)
    requires |ek| <= n < ExpandedSize && n % 4 == 0
    ensures ExpandFrom(ek, step)[n..n + 4] == step(ExpandFrom(ek, step)[..n])
    decreases ExpandedSize - |ek|
  {
    var ek' := ek + step(ek);
    var r := ExpandFrom(ek', step);
    assert ExpandFrom(ek, step) == r;
    if n == |ek| {
      assert r[..n] == ek' [..n] == ek;
      assert r[n..n + 4] == r[..n + 4][n..] == step(ek);
    } else {
      ExpandFromRecurrence(ek', step, n);
    }
  }

  lemma NextWordIsRule()
    ensures WordRule(NextWord)
  {
  }

  /** The expanded key expandKey returns for a 32-byte cipher key: 240 bytes that start with the key. */
  function ExpandedKey(key: seq<Byte>): (ek: seq<Byte>)
    requires |key| == KeySize
    ensures |ek| == ExpandedSize
    ensures ek[..KeySize] == key
  {
    NextWordIsRule();
    ExpandFrom(key, NextWord)
  }

  /**
   * Every four-byte word of the expanded key after the cipher key is
   * NextWord of all bytes before it: the word 32 bytes back XORed with Temp.
   */
  lemma ExpandedKeyRecurrence(key: seq<Byte>, n: nat)
    requires |key| == KeySize
    requires KeySize <= n < ExpandedSize && n % 4 == 0
    ensures ExpandedKey(key)[n..n + 4] == NextWord(ExpandedKey(key)[..n])
  {
    NextWordIsRule();
    ExpandFromRecurrence(key, NextWord, n);
  }

  /**
   * One pass of expandKey's loop up to the append: t is the last four bytes,
   * through keyScheduleCore with rcon[rconIter] (and rconIter incremented)
   * at a multiple of 32 bytes, through the S-box at 16 past one.
   */
  method NextTemp(ek: seq<Byte>, rcon: nat) returns (t: seq<Byte>, rconIter: nat)
    requires Growing(ek)
    requires |ek| <= KeySize * rcon < |ek| + KeySize
    ensures t == Temp(ek)
    ensures rconIter == if |ek| % KeySize == 0 then rcon + 1 else rcon
  {
    hide KeyScheduleCore;
    hide Sbox;
    hide Rcon;
    var currentSize := |ek|;
    rconIter := rcon;
    t := [0, 0, 0, 0];
    for i := 0 to 4
      invariant |t| == 4
      invariant forall j :: 0 <= j < i ==> t[j] == ek[currentSize - 4 + j]
    {
      t := t[i := ek[currentSize - 4 + i]];
    }
    assert t == ek[currentSize - 4..];
    if currentSize % KeySize == 0 {
      assert rconIter == currentSize / KeySize;
      t := KeyScheduleCore(t, rconIter);
      rconIter := rconIter + 1;
    }
    if currentSize % KeySize == 16 {
      ghost var t0 := t;
      for i := 0 to 4
        invariant |t| == 4
        invariant forall j :: 0 <= j < i ==> t[j] == Sbox(t0[j])
        invariant forall j :: i <= j < 4 ==> t[j] == t0[j]
      {
        t := t[i := Sbox(t[i])];
      }
      assert t == SubBytes(t0);
    }
  }

  /**
   * The inner loop of expandKey: four bytes appended to ek, byte i being
   * ek[|ek| - 32 + i] XOR t[i].
   */
  method AppendWord(ek: seq<Byte>, t: seq<Byte>) returns (r: seq<Byte>)
    requires |ek| >= KeySize && |t| == 4
    ensures r == ek + XorBytes(ek[|ek| - KeySize .. |ek| - KeySize + 4], t)
  {
    ghost var w := XorBytes(ek[|ek| - KeySize .. |ek| - KeySize + 4], t);
    r := ek;
    for i := 0 to 4
      invariant |r| == |ek| + i
      invariant forall j :: 0 <= j < |ek| ==> r[j] == ek[j]
      invariant forall j :: 0 <= j < i ==> r[|ek| + j] == w[j]
    {
      r := r + [r[|ek| + i - KeySize] ^ t[i]];
    }
  }

  /**
   * expandKey: copy the key, then append four bytes at a time until 240,
   * keeping the rcon index in rconIter.
   */
  method ExpandKey(cipherKey: seq<Byte>) returns (expandedKey: seq<Byte>)
    requires |cipherKey| == KeySize
    ensures expandedKey == ExpandedKey(cipherKey)
  {
    NextWordIsRule();
    hide ExpandFrom;
    hide Temp;
    hide Sbox;
    hide Rcon;
    expandedKey := [];
    var currentSize := 0;
    var rconIter := 1;
    var t: seq<Byte> := [0, 0, 0, 0];
    for i := 0 to KeySize
      invariant expandedKey == cipherKey[..i]
    {
      expandedKey := expandedKey + [cipherKey[i]];
    }
    currentSize := currentSize + KeySize;
    assert expandedKey == cipherKey;
    while currentSize < ExpandedSize
      invariant KeySize <= currentSize <= ExpandedSize && currentSize % 4 == 0
      invariant |expandedKey| == currentSize && |t| == 4
      invariant currentSize <= KeySize * rconIter < currentSize + KeySize
      invariant ExpandFrom(expandedKey, NextWord) == ExpandedKey(cipherKey)
      decreases ExpandedSize - currentSize
    {
      t, rconIter := NextTemp(expandedKey, rconIter);
      ghost var ek0 := expandedKey;
      ExpandFromStep(ek0, NextWord);
      expandedKey := AppendWord(expandedKey, t);
      currentSize := currentSize + 4;
      assert expandedKey == ek0 + NextWord(ek0);
    }
    ExpandFromDone(expandedKey, NextWord);
  }
}
