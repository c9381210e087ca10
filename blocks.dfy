// Reading a message sixteen bytes at a time, as getBlock of utils/pyAES.py
// does from an in-memory byte file, and the two paddings of the OFB layer:
// getBlock's fill of a short block and the strip decrypt applies to the last one.

module Blocks {
  import opened Bytes
  import opened State

  datatype Option<T> = None | Some(value: T)

  function Min(a: int, b: int): int
  {
    if a < b then a else b
  }

  /**
   * An in-memory byte file (io.BytesIO): fixed contents and a position that
   * reads and seeks move. Seeking past the end is allowed; reading there
   * gives nothing and leaves the position where it is.
   */
  class Stream {
    const data: seq<Byte>
    var pos: nat

    constructor (data: seq<Byte>)
      ensures this.data == data && pos == 0
    {
      this.data := data;
      pos := 0;
    }

    /** read(n): the next n bytes or as many as remain, moving the position past them. */
    method Read(n: nat) returns (chunk: seq<Byte>)
      modifies this
      ensures old(pos) >= |data| ==> chunk == [] && pos == old(pos)
      ensures old(pos) < |data| ==> pos == Min(old(pos) + n, |data|) && chunk == data[old(pos)..pos]
    {
      if pos >= |data| {
        chunk := [];
      } else {
        var end := Min(pos + n, |data|);
        chunk := data[pos..end];
        pos := end;
      }
    }

    /** seek(p): the position becomes p. */
    method Seek(p: nat)
      modifies this
      ensures pos == p
    {
      pos := p;
    }

    /** seek(0, 2): the position becomes the end of the data. */
    method SeekEnd()
      modifies this
      ensures pos == |data|
    {
      pos := |data|;
    }
  }

  /**
   * A chunk of 1 to 16 bytes filled up to sixteen with copies of the number
   * of bytes missing; a chunk of sixteen is left as it is.
   */
  function PadBlock(chunk: seq<Byte>): (b: seq<Byte>)
    requires 0 < |chunk| <= 16
    ensures |b| == 16 && b[..|chunk|] == chunk
    ensures forall i :: |chunk| <= i < 16 ==> b[i] == (16 - |chunk|) as Byte
  {
    chunk + seq(16 - |chunk|, _ => (16 - |chunk|) as Byte)
  }

  /** What getBlock returns when the file position is pos: nothing at or past the end, else the next bytes padded to a block. */
  function BlockAt(data: seq<Byte>, pos: nat): Option<seq<Byte>>
  {
    if pos >= |data| then None else Some(PadBlock(data[pos..Min(pos + 16, |data|)]))
  }

  /** The file position after getBlock read from pos. */
  function NextPos(data: seq<Byte>, pos: nat): nat
  {
    if pos >= |data| then pos else Min(pos + 16, |data|)
  }

  /** getBlock gives nothing exactly when no byte remains, and otherwise sixteen bytes that start with the bytes read. */
  lemma BlockAtShape(data: seq<Byte>, pos: nat)
    ensures BlockAt(data, pos).None? <==> pos >= |data|
    ensures pos < |data| ==>
      var n := Min(16, |data| - pos);
      var b := BlockAt(data, pos).value;
      |b| == 16 && b[..n] == data[pos..pos + n] &&
      forall i :: n <= i < 16 ==> b[i] == (16 - n) as Byte
    ensures NextPos(data, pos) == if pos >= |data| then pos else pos + Min(16, |data| - pos)
  {
  }

  /**
   * getBlock's fill: a block shorter than sixteen bytes gets copies of
   * padChar = 16 - len(block) appended until it is sixteen long.
   */
  method FillBlock(block: seq<Byte>) returns (b: seq<Byte>)
    requires 0 < |block| <= 16
    ensures b == PadBlock(block)
  {
    b := block;
    if |b| < 16 {
      var padChar := (16 - |b|) as Byte;
      while |b| < 16
        invariant |block| <= |b| <= 16
        invariant b[..|block|] == block
        invariant forall i :: |block| <= i < |b| ==> b[i] == padChar
        decreases 16 - |b|
      {
        b := b + [padChar];
      }
    }
    var pb := PadBlock(block);
    forall i | 0 <= i < 16 ensures b[i] == pb[i] {
      if i < |block| {
        assert b[i] == b[..|block|][i] && pb[i] == pb[..|block|][i];
      }
    }
  }

  /**
   * getBlock(fp): sixteen bytes from the file, padded with copies of the
   * number missing when fewer remain, or nothing at the end of the file.
   */
  method GetBlock(fp: Stream) returns (block: Option<seq<Byte>>)
    modifies fp
    ensures block == BlockAt(fp.data, old(fp.pos))
    ensures fp.pos == NextPos(fp.data, old(fp.pos))
  {
    hide PadBlock;
    var raw := fp.Read(16);
    if |raw| == 0 {
      return None;
    }
    var b: seq<Byte> := [];
    for i := 0 to |raw|
      invariant b == raw[..i]
    {
      b := b + [raw[i]];
    }
    assert b == raw;
    b := FillBlock(b);
    block := Some(b);
  }

  /**
   * decrypt's strip of the last block: a slice from the start that stops the
   * last byte's value before the end, with Python's slice bounds.
   */
  function StripPad(p: seq<Byte>): (r: seq<Byte>)
    requires |p| == 16
  {
    p[..SliceIndex(-(p[15] as int), 16)]
  }

  /**
   * The strip keeps 16 - p[15] bytes when the last byte is 1 to 16, and
   * nothing when it is 0 (the slice [0:0]) or above 16 (the stop falls before
   * the start).
   */
  lemma StripPadKeeps(p: seq<Byte>)
    requires |p| == 16
    ensures StripPad(p) == p[..|StripPad(p)|]
    ensures |StripPad(p)| == if 1 <= p[15] as int <= 16 then 16 - p[15] as int else 0
  {
  }

  /** A last byte c from 1 to 16 drops the last c bytes. */
  lemma StripPadCount(p: seq<Byte>, c: nat)
    requires |p| == 16 && 1 <= c <= 16 && p[15] == c as Byte
    ensures StripPad(p) == p[..16 - c]
  {
    assert p[15] as int == c;
  }
}
