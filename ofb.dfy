// encrypt and decrypt of utils/pyAES.py: messages of any length in Output
// Feedback mode. The keystream starts from a 16-byte IV and each block key is
// the block cipher applied to the one before; both directions XOR the blocks
// with it, so decrypt only ever runs the cipher forwards. The specification
// below takes the block cipher as a parameter; the methods run it as
// aesEncrypt under a 32-byte key.

module Ofb {
  import opened Bytes
  import opened KeySchedule
  import opened Blocks
  import Cipher
  import Engine

  /** A block map: defined on every 16-byte block and giving 16 bytes back. */
  ghost predicate IsBlockMap(enc: seq<Byte> --> seq<Byte>)
  {
    forall b: seq<Byte> :: |b| == 16 ==> enc.requires(b) && |enc(b)| == 16
  }

  /** aesEncrypt(·, key) as a block map. */
  function AesBlocks(key: seq<Byte>): (enc: seq<Byte> --> seq<Byte>)
    requires |key| == KeySize
    ensures IsBlockMap(enc)
  {
    b requires |b| == 16 => Cipher.AesEncrypt(b, key)
  }

  /** Applying AesBlocks(key) is running aesEncrypt under key. */
  lemma AesBlocksApply(key: seq<Byte>, b: seq<Byte>)
    requires |key| == KeySize && |b| == 16
    ensures AesBlocks(key)(b) == Cipher.AesEncrypt(b, key)
  {
    hide Cipher.AesEncrypt;
  }

  /** numpads = 16 - len(text) % 16: from 1 to 16, and it fills the text up to whole blocks. */
  function PadCount(n: nat): (p: nat)
    ensures 1 <= p <= 16 && (n + p) % 16 == 0
  {
    16 - n % 16
  }

  /** encrypt's padding: the text followed by numpads copies of numpads. */
  function Pad(text: seq<Byte>): (r: seq<Byte>)
    ensures |r| == |text| + PadCount(|text|) && |r| % 16 == 0
    ensures r[..|text|] == text
    ensures forall i :: |text| <= i < |r| ==> r[i] == PadCount(|text|) as Byte
  {
    text + seq(PadCount(|text|), _ => PadCount(|text|) as Byte)
  }

  /** The keystream: block key n is the block cipher applied n times to the IV. */
  function KeyAt(enc: seq<Byte> --> seq<Byte>, iv: seq<Byte>, n: nat): (k: seq<Byte>)
    requires IsBlockMap(enc) && |iv| == 16
    ensures |k| == 16
  {
    if n == 0 then iv else enc(KeyAt(enc, iv, n - 1))
  }

  /** The number of blocks getBlock returns for n bytes. */
  function NumBlocks(n: nat): (k: nat)
    ensures 16 * k >= n && (k > 0 ==> 16 * (k - 1) < n)
  {
    (n + 15) / 16
  }

  /** Block m of d as getBlock returns it. */
  function BlockOf(d: seq<Byte>, m: nat): (b: seq<Byte>)
    requires 16 * m < |d|
    ensures |b| == 16
  {
    BlockAt(d, 16 * m).value
  }

  /** The first m blocks of d, block i XORed with block key i + 1. */
  function XorPrefix(enc: seq<Byte> --> seq<Byte>, d: seq<Byte>, iv: seq<Byte>, m: nat): (r: seq<Byte>)
    requires IsBlockMap(enc) && |iv| == 16 && 16 * m < |d| + 16
    ensures |r| == 16 * m
  {
    if m == 0 then [] else XorPrefix(enc, d, iv, m - 1) + XorBytes(BlockOf(d, m - 1), KeyAt(enc, iv, m))
  }

  /** encrypt(text): the IV, then the padded text XORed block by block with the keystream. */
  function EncryptSpec(enc: seq<Byte> --> seq<Byte>, text: seq<Byte>, iv: seq<Byte>): seq<Byte>
    requires IsBlockMap(enc) && |iv| == 16
  {
    var p := Pad(text);
    iv + XorPrefix(enc, p, iv, |p| / 16)
  }

  /**
   * decrypt(envelope): nothing unless a byte follows the 16-byte IV;
   * otherwise every block after the IV XORed with the keystream the IV
   * starts, the last one cut by the strip.
   */
  function DecryptSpec(enc: seq<Byte> --> seq<Byte>, envelope: seq<Byte>): seq<Byte>
    requires IsBlockMap(enc)
  {
    if |envelope| <= 16 then []
    else
      var d := envelope[16..];
      var iv := envelope[..16];
      var n := NumBlocks(|d|);
      XorPrefix(enc, d, iv, n - 1) + StripPad(XorBytes(BlockOf(d, n - 1), KeyAt(enc, iv, n)))
  }

  /** One more block key. */
  lemma KeyAtNext(enc: seq<Byte> --> seq<Byte>, iv: seq<Byte>, m: nat)
    requires IsBlockMap(enc) && |iv| == 16
    ensures KeyAt(enc, iv, m + 1) == enc(KeyAt(enc, iv, m))
  {
  }

  /** One more XORed block. */
  lemma XorPrefixNext(enc: seq<Byte> --> seq<Byte>, d: seq<Byte>, iv: seq<Byte>, m: nat)
    requires IsBlockMap(enc) && |iv| == 16 && 16 * m < |d|
    ensures XorPrefix(enc, d, iv, m + 1) == XorPrefix(enc, d, iv, m) + XorBytes(BlockOf(d, m), KeyAt(enc, iv, m + 1))
  {
  }

  /** The envelope is the IV followed by the padded text: 16 + len(text) + numpads bytes, whole blocks. */
  lemma EncryptSpecShape(enc: seq<Byte> --> seq<Byte>, text: seq<Byte>, iv: seq<Byte>)
    requires IsBlockMap(enc) && |iv| == 16
    ensures |EncryptSpec(enc, text, iv)| == 16 + |text| + PadCount(|text|)
    ensures |EncryptSpec(enc, text, iv)| % 16 == 0
    ensures EncryptSpec(enc, text, iv)[..16] == iv
  {
    hide XorPrefix;
    hide KeyAt;
    hide Pad;
    var p := Pad(text);
    assert |p| == 16 * (|p| / 16);
  }

  /** A block that lies wholly inside d is getBlock's bytes unchanged. */
  lemma WholeBlock(d: seq<Byte>, m: nat)
    requires 16 * m + 16 <= |d|
    ensures BlockOf(d, m) == d[16 * m .. 16 * m + 16]
  {
    var chunk := d[16 * m .. 16 * m + 16];
    assert chunk[..16] == chunk;
  }

  /** Block j of the XORed prefix is block j of d XORed with block key j + 1. */
  lemma {:induction false} XorPrefixBlock(enc: seq<Byte> --> seq<Byte>, d: seq<Byte>, iv: seq<Byte>, m: nat, j: nat)
    requires IsBlockMap(enc) && |iv| == 16 && 16 * m < |d| + 16 && j < m
    ensures XorPrefix(enc, d, iv, m)[16 * j .. 16 * j + 16] == XorBytes(BlockOf(d, j), KeyAt(enc, iv, j + 1))
  {
    hide KeyAt;
    hide BlockOf;
    hide XorBytes;
    var prev := XorPrefix(enc, d, iv, m - 1);
    var last := XorBytes(BlockOf(d, m - 1), KeyAt(enc, iv, m));
    assert XorPrefix(enc, d, iv, m) == prev + last;
    if j < m - 1 {
      XorPrefixBlock(enc, d, iv, m - 1, j);
      assert (prev + last)[16 * j .. 16 * j + 16] == prev[16 * j .. 16 * j + 16];
    } else {
      assert (prev + last)[16 * j .. 16 * j + 16] == last;
    }
  }

  /** XORing the first m blocks of an XORed text of whole blocks with the same keystream gives back the text's first m blocks. */
  lemma {:induction false} XorPrefixUndo(enc: seq<Byte> --> seq<Byte>, p: seq<Byte>, iv: seq<Byte>, n: nat, m: nat)
    requires IsBlockMap(enc) && |iv| == 16 && |p| == 16 * n && m <= n
    ensures XorPrefix(enc, XorPrefix(enc, p, iv, n), iv, m) == p[..16 * m]
  {
    hide KeyAt;
    hide BlockOf;
    if m > 0 {
      var x := XorPrefix(enc, p, iv, n);
      var k := KeyAt(enc, iv, m);
      XorPrefixUndo(enc, p, iv, n, m - 1);
      WholeBlock(x, m - 1);
      WholeBlock(p, m - 1);
      XorPrefixBlock(enc, p, iv, n, m - 1);
      var block := p[16 * (m - 1) .. 16 * m];
      XorBytesTwice(block, k);
      assert p[..16 * m] == p[..16 * (m - 1)] + block;
    }
  }

  /** DecryptSpec of an envelope whose data after the IV ends inside block m. */
  lemma DecryptSpecLast(enc: seq<Byte> --> seq<Byte>, envelope: seq<Byte>, m: nat)
    requires IsBlockMap(enc) && 16 * m < |envelope| - 16 <= 16 * m + 16
    ensures DecryptSpec(enc, envelope) ==
      XorPrefix(enc, envelope[16..], envelope[..16], m) +
      StripPad(XorBytes(BlockOf(envelope[16..], m), KeyAt(enc, envelope[..16], m + 1)))
  {
    hide KeyAt;
    hide BlockOf;
    hide XorPrefix;
    hide StripPad;
    hide XorBytes;
    assert NumBlocks(|envelope| - 16) == m + 1;
  }

  /** The padded text's blocks but the last, and the strip of the last, make up the text. */
  lemma StripPaddedText(text: seq<Byte>)
    ensures
      var p := Pad(text);
      var n := |p| / 16;
      n >= 1 && p[..16 * (n - 1)] + StripPad(p[16 * (n - 1) .. 16 * n]) == text
  {
    hide StripPad;
    hide Pad;
    var p := Pad(text);
    var n := |p| / 16;
    var c := PadCount(|text|);
    assert |p| == 16 * n;
    var last := p[16 * (n - 1) .. 16 * n];
    assert last[15] == p[|p| - 1] == c as Byte;
    StripPadCount(last, c);
    assert 16 * (n - 1) + 16 - c == |text|;
    assert StripPad(last) == last[..16 - c] == p[16 * (n - 1) .. |text|];
    assert p[..16 * (n - 1)] + p[16 * (n - 1) .. |text|] == p[..|text|];
  }

  /** decrypt(encrypt(text)) == text, for every text and IV and any block map used by both. */
  lemma DecryptEncrypt(enc: seq<Byte> --> seq<Byte>, text: seq<Byte>, iv: seq<Byte>)
    requires IsBlockMap(enc) && |iv| == 16
    ensures DecryptSpec(enc, EncryptSpec(enc, text, iv)) == text
  {
    hide KeyAt;
    hide BlockOf;
    hide XorPrefix;
    hide StripPad;
    hide DecryptSpec;
    hide Pad;
    var p := Pad(text);
    var n := |p| / 16;
    StripPaddedText(text);
    var x := XorPrefix(enc, p, iv, n);
    var envelope := iv + x;
    assert EncryptSpec(enc, text, iv) == envelope;
    assert envelope[16..] == x && envelope[..16] == iv;
    DecryptSpecLast(enc, envelope, n - 1);
    var k := KeyAt(enc, iv, n);
    XorPrefixUndo(enc, p, iv, n, n - 1);
    WholeBlock(x, n - 1);
    WholeBlock(p, n - 1);
    XorPrefixBlock(enc, p, iv, n, n - 1);
    XorBytesTwice(p[16 * (n - 1) .. 16 * n], k);
  }

  /** The round trip with the block map encrypt and decrypt run: aesEncrypt under the same key. */
  lemma DecryptEncryptAes(text: seq<Byte>, key: seq<Byte>, iv: seq<Byte>)
    requires |key| == KeySize && |iv| == 16
    ensures DecryptSpec(AesBlocks(key), EncryptSpec(AesBlocks(key), text, iv)) == text
  {
    hide Cipher.AesEncrypt;
    hide DecryptSpec;
    hide EncryptSpec;
    DecryptEncrypt(AesBlocks(key), text, iv);
  }

  /** Reading past the IV is reading the data after it. */
  lemma BlockAtShift(data: seq<Byte>, p: nat)
    requires |data| >= 16
    ensures BlockAt(data, 16 + p) == BlockAt(data[16..], p)
    ensures NextPos(data, 16 + p) == 16 + NextPos(data[16..], p)
  {
    hide PadBlock;
    var d := data[16..];
    if 16 + p < |data| {
      var e := Min(p + 16, |d|);
      assert 16 + e == Min(16 + p + 16, |data|);
      forall i | 0 <= i < e - p ensures data[16 + p .. 16 + e][i] == d[p .. e][i] {
        assert d[p + i] == data[16 + p + i];
      }
      assert data[16 + p .. 16 + e] == d[p .. e];
    }
  }

  /** A whole block needs no fill. */
  lemma PadBlockWhole(c: seq<Byte>)
    requires |c| == 16
    ensures PadBlock(c) == c
  {
    var b := PadBlock(c);
    assert b == b[..16];
  }

  /** The XOR of one block with its block key, written byte by byte into the output block. */
  method XorInto(target: array<Byte>, block: seq<Byte>, blockKey: seq<Byte>)
    requires target.Length == 16 && |block| == 16 && |blockKey| == 16
    modifies target
    ensures target[..] == XorBytes(block, blockKey)
  {
    for i := 0 to 16
      invariant forall j :: 0 <= j < i ==> target[j] == block[j] ^ blockKey[j]
    {
      target[i] := block[i] ^ blockKey[i];
    }
  }

  /**
   * The top of both block loops: the block key becomes aesEncrypt of the IV
   * in the first round and aesEncrypt of the previous block key after it;
   * then the block XORed with it is written into the output block.
   */
  method NextBlockKey(target: array<Byte>, iv: seq<Byte>, key: seq<Byte>, firstRound: bool,
                      blockKey: seq<Byte>, block: seq<Byte>, ghost m: nat)
    returns (nextKey: seq<Byte>)
    requires |iv| == 16 && |key| == KeySize && target.Length == 16 && |block| == 16
    requires firstRound <==> m == 0
    requires m > 0 ==> blockKey == KeyAt(AesBlocks(key), iv, m)
    modifies target
    ensures nextKey == KeyAt(AesBlocks(key), iv, m + 1)
    ensures target[..] == XorBytes(block, nextKey)
  {
    hide Cipher.AesEncrypt;
    hide AesBlocks;
    hide XorBytes;
    if firstRound {
      nextKey := Engine.AesEncrypt(iv, key);
    } else {
      nextKey := Engine.AesEncrypt(blockKey, key);
    }
    ghost var prev := KeyAt(AesBlocks(key), iv, m);
    AesBlocksApply(key, prev);
    KeyAtNext(AesBlocks(key), iv, m);
    XorInto(target, block, nextKey);
  }

  /** One round of encrypt's loop: the block read is block m, and the next read is block m + 1. */
  lemma EncryptStep(enc: seq<Byte> --> seq<Byte>, padded: seq<Byte>, iv: seq<Byte>, m: nat, blocks: nat,
                    block: Option<seq<Byte>>)
    requires IsBlockMap(enc) && |iv| == 16 && |padded| == 16 * blocks && m <= blocks
    requires block == BlockAt(padded, 16 * m) && block.Some?
    ensures m < blocks && block.value == BlockOf(padded, m)
    ensures XorPrefix(enc, padded, iv, m + 1) == XorPrefix(enc, padded, iv, m) + XorBytes(block.value, KeyAt(enc, iv, m + 1))
    ensures NextPos(padded, 16 * m) == 16 * (m + 1)
  {
    hide KeyAt;
    hide XorBytes;
    hide PadBlock;
    hide XorPrefix;
    XorPrefixNext(enc, padded, iv, m);
  }

  /** encrypt's loop ends after the last block. */
  lemma EncryptDone(padded: seq<Byte>, m: nat, blocks: nat, block: Option<seq<Byte>>)
    requires |padded| == 16 * blocks && m <= blocks
    requires block == BlockAt(padded, 16 * m) && block.None?
    ensures m == blocks
  {
    hide PadBlock;
  }

  /**
   * encrypt(text, password) on bytes, with the key passwordToKey would make
   * and the IV randint would draw given as parameters: pad, write the IV,
   * then XOR every block getBlock reads with the next block key.
   */
  method Encrypt(text: seq<Byte>, key: seq<Byte>, iv: seq<Byte>) returns (envelope: seq<Byte>)
    requires |key| == KeySize && |iv| == 16
    ensures envelope == EncryptSpec(AesBlocks(key), text, iv)
  {
    hide Cipher.AesEncrypt;
    hide AesBlocks;
    hide XorPrefix;
    var numpads := 16 - |text| % 16;
    var padded := text + seq(numpads, _ => numpads as Byte);
    assert padded == Pad(text);
    hide Pad;
    var fp := new Stream(padded);
    envelope := iv;
    fp.SeekEnd();
    var filesize := fp.pos;
    fp.Seek(0);
    var blocks := EncryptBlocks(fp, key, iv);
    envelope := envelope + blocks;
  }

  /**
   * encrypt's block loop over the padded text in fp, from its start: each
   * block getBlock reads XORed with the next block key, in order.
   */
  method EncryptBlocks(fp: Stream, key: seq<Byte>, iv: seq<Byte>) returns (out: seq<Byte>)
    requires |key| == KeySize && |iv| == 16 && |fp.data| % 16 == 0 && fp.pos == 0
    modifies fp
    ensures out == XorPrefix(AesBlocks(key), fp.data, iv, |fp.data| / 16)
  {
    hide Cipher.AesEncrypt;
    hide AesBlocks;
    hide PadBlock;
    hide KeyAt;
    hide XorPrefix;
    hide BlockAt;
    hide NextPos;
    ghost var enc := AesBlocks(key);
    ghost var padded := fp.data;
    ghost var blocks := |padded| / 16;
    var ciphertext := new Byte[16];
    out := [];
    var firstRound := true;
    var blockKey: seq<Byte> := [];
    ghost var m := 0;
    var block := GetBlock(fp);
    while block.Some?
      invariant fp.data == padded && m <= blocks
      invariant block.Some? ==> fp.pos == NextPos(padded, 16 * m)
      invariant block == BlockAt(padded, 16 * m)
      invariant firstRound <==> m == 0
      invariant m > 0 ==> blockKey == KeyAt(enc, iv, m)
      invariant out == XorPrefix(enc, padded, iv, m)
      decreases blocks - m
    {
      EncryptStep(enc, padded, iv, m, blocks, block);
      blockKey := NextBlockKey(ciphertext, iv, key, firstRound, blockKey, block.value, m);
      firstRound := false;
      out := out + ciphertext[..];
      block := GetBlock(fp);
      m := m + 1;
    }
    EncryptDone(padded, m, blocks, block);
  }

  /**
   * decrypt(text, password) on bytes, with the key passwordToKey would make
   * given as a parameter: the IV is the first block, the data after it is
   * read block by block from position 16.
   */
  method Decrypt(envelope: seq<Byte>, key: seq<Byte>) returns (text: seq<Byte>)
    requires |key| == KeySize
    ensures text == DecryptSpec(AesBlocks(key), envelope)
  {
    hide Cipher.AesEncrypt;
    hide AesBlocks;
    hide DecryptSpec;
    var fp := new Stream(envelope);
    var ivBlock := GetBlock(fp);
    fp.SeekEnd();
    var filesize := fp.pos;
    fp.Seek(16);
    text := DecryptBlocks(fp, key, ivBlock, filesize);
  }

  /**
   * decrypt's block loop: every block after the IV is XORed with the next
   * block key, and the block whose read reaches the end of the data
   * (fp.tell() == filesize) is cut by its last byte.
   */
  method DecryptBlocks(fp: Stream, key: seq<Byte>, ivBlock: Option<seq<Byte>>, filesize: nat) returns (text: seq<Byte>)
    requires |key| == KeySize && fp.pos == 16 && filesize == |fp.data| && ivBlock == BlockAt(fp.data, 0)
    modifies fp
    ensures text == DecryptSpec(AesBlocks(key), fp.data)
  {
    hide Cipher.AesEncrypt;
    hide AesBlocks;
    hide PadBlock;
    hide KeyAt;
    hide XorPrefix;
    hide DecryptSpec;
    hide StripPad;
    hide BlockAt;
    hide NextPos;
    ghost var enc := AesBlocks(key);
    ghost var envelope := fp.data;
    ghost var d := if |envelope| <= 16 then [] else envelope[16..];
    ghost var iv := if |envelope| <= 16 then [] else envelope[..16];
    ghost var n := NumBlocks(|d|);
    var plaintext := new Byte[16];
    text := [];
    var firstRound := true;
    var blockKey: seq<Byte> := [];
    ghost var m := 0;
    var block := GetBlock(fp);
    DecryptStart(enc, envelope, ivBlock, block);
    while block.Some?
      invariant fp.data == envelope && filesize == |envelope| && m <= n
      invariant |envelope| <= 16 ==> block.None? && text == DecryptSpec(enc, envelope)
      invariant |envelope| > 16 ==> d == envelope[16..] && iv == envelope[..16] && ivBlock == Some(iv)
      invariant |envelope| > 16 ==> block == BlockAt(d, 16 * m)
      invariant block.Some? ==> fp.pos == NextPos(envelope, 16 + 16 * m)
      invariant firstRound <==> m == 0
      invariant |envelope| > 16 && m > 0 ==> blockKey == KeyAt(enc, ivBlock.value, m)
      invariant |envelope| > 16 ==> text == if block.Some? then XorPrefix(enc, d, iv, m) else DecryptSpec(enc, envelope)
      decreases n - m
    {
      DecryptStepBlock(envelope, m, block);
      blockKey := NextBlockKey(plaintext, ivBlock.value, key, firstRound, blockKey, block.value, m);
      firstRound := false;
      var piece := plaintext[..];
      var last := fp.pos == filesize;
      if last {
        piece := StripPad(piece);
      }
      DecryptStepText(enc, envelope, m, block.value, last, piece, plaintext[..]);
      text := text + piece;
      ghost var p := fp.pos;
      block := GetBlock(fp);
      DecryptNext(envelope, m, p, block);
      m := m + 1;
    }
  }

  /** Before decrypt's loop: the IV block, and the first block after it. */
  lemma DecryptStart(enc: seq<Byte> --> seq<Byte>, envelope: seq<Byte>, ivBlock: Option<seq<Byte>>,
                     block: Option<seq<Byte>>)
    requires IsBlockMap(enc)
    requires ivBlock == BlockAt(envelope, 0) && block == BlockAt(envelope, 16)
    ensures |envelope| <= 16 ==> block.None? && DecryptSpec(enc, envelope) == []
    ensures |envelope| > 16 ==> ivBlock == Some(envelope[..16]) && block == BlockAt(envelope[16..], 0) && block.Some?
    ensures |envelope| > 16 ==> XorPrefix(enc, envelope[16..], envelope[..16], 0) == []
  {
    hide PadBlock;
    if |envelope| > 16 {
      var c := envelope[0..Min(16, |envelope|)];
      assert c == envelope[..16];
      PadBlockWhole(c);
      BlockAtShift(envelope, 0);
    }
  }

  /** The block decrypt's loop holds is block m. */
  lemma DecryptStepBlock(envelope: seq<Byte>, m: nat, block: Option<seq<Byte>>)
    requires |envelope| > 16 && block == BlockAt(envelope[16..], 16 * m) && block.Some?
    ensures 16 * m < |envelope| - 16 && m < NumBlocks(|envelope| - 16)
    ensures block.value == BlockOf(envelope[16..], m)
  {
    hide PadBlock;
  }

  /** The read after block m, from where block m's read stopped, gives block m + 1, or nothing at the end of the data. */
  lemma DecryptNext(envelope: seq<Byte>, m: nat, p: nat, block: Option<seq<Byte>>)
    requires |envelope| > 16 && 16 * m < |envelope| - 16 && p == NextPos(envelope, 16 + 16 * m)
    requires block == BlockAt(envelope, p)
    ensures block == BlockAt(envelope[16..], 16 * (m + 1))
    ensures block.Some? <==> p != |envelope|
    ensures block.Some? ==> NextPos(envelope, p) == NextPos(envelope, 16 + 16 * (m + 1))
  {
    hide PadBlock;
    BlockAtShift(envelope, 16 * m);
    BlockAtShift(envelope, p - 16);
  }

  /** The text one round of decrypt's loop appends: the next XORed block, or the strip of the last one. */
  lemma DecryptStepText(enc: seq<Byte> --> seq<Byte>, envelope: seq<Byte>, m: nat, block: seq<Byte>,
                        last: bool, piece: seq<Byte>, plain: seq<Byte>)
    requires IsBlockMap(enc) && 16 * m < |envelope| - 16
    requires block == BlockOf(envelope[16..], m)
    requires plain == XorBytes(block, KeyAt(enc, envelope[..16], m + 1))
    requires last <==> NextPos(envelope, 16 + 16 * m) == |envelope|
    requires piece == if last then StripPad(plain) else plain
    ensures XorPrefix(enc, envelope[16..], envelope[..16], m) + piece ==
      if last then DecryptSpec(enc, envelope) else XorPrefix(enc, envelope[16..], envelope[..16], m + 1)
  {
    hide KeyAt;
    hide XorPrefix;
    hide DecryptSpec;
    hide StripPad;
    hide XorBytes;
    hide BlockOf;
    if last {
      DecryptSpecLast(enc, envelope, m);
    } else {
      XorPrefixNext(enc, envelope[16..], envelope[..16], m);
    }
  }
}
