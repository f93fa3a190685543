// Physical memory below the identity-mapped limit: 4 KiB frames of 512 words,
// with the bytes of a frame seen through its little-endian words.
module Frames {
  import opened Bits

  const PAGE_SIZE := 4096
  const ENTRIES := 512
  const IDENTITY_MAPPED_LIMIT := 0x4000_0000
  const FRAME_COUNT := 0x4_0000

  type Frame = f: seq<Word> | |f| == ENTRIES witness seq(ENTRIES, i => 0)
  type Memory = m: seq<Frame> | |m| == FRAME_COUNT
    witness seq<Frame>(FRAME_COUNT, i => ZeroFrame())

  function ZeroFrame(): (f: Frame)
    ensures forall i :: 0 <= i < ENTRIES ==> f[i] == 0
  {
    seq(ENTRIES, i => 0)
  }

  function FrameByte(f: Frame, k: nat): Byte
    requires k < PAGE_SIZE
  {
    ByteOf(f[k / 8], k % 8)
  }

  /** The frame after the byte store `((uint8_t *)f)[k] = b`. */
  function SetFrameByte(f: Frame, k: nat, b: Byte): (g: Frame)
    requires k < PAGE_SIZE
    ensures forall j :: 0 <= j < PAGE_SIZE ==> FrameByte(g, j) == if j == k then b else FrameByte(f, j)
  {
    SetByteStores(f[k / 8], 8, k % 8, b);
    assert Pow256(8) == WORD_LIMIT;
    var g: Frame := f[k / 8 := SetByte(f[k / 8], k % 8, b)];
    assert forall j :: 0 <= j < PAGE_SIZE ==> FrameByte(g, j) == if j == k then b else FrameByte(f, j) by {
      forall j | 0 <= j < PAGE_SIZE
        ensures FrameByte(g, j) == if j == k then b else FrameByte(f, j)
      {
        if j / 8 == k / 8 {
          assert j == k <==> j % 8 == k % 8;
        }
      }
    }
    g
  }

  /** A frame after its first |bytes| bytes have been stored in order. */
  function CopyBytes(f: Frame, bytes: seq<Byte>): (g: Frame)
    requires |bytes| <= PAGE_SIZE
    ensures forall k :: 0 <= k < PAGE_SIZE ==>
              FrameByte(g, k) == if k < |bytes| then bytes[k] else FrameByte(f, k)
  {
    if bytes == [] then f
    else SetFrameByte(CopyBytes(f, bytes[..|bytes| - 1]), |bytes| - 1, bytes[|bytes| - 1])
  }

  // A frame whose 4096 bytes are all zero is the zero frame.
  lemma ZeroBytesZeroFrame(f: Frame)
    requires forall k :: 0 <= k < PAGE_SIZE ==> FrameByte(f, k) == 0
    ensures f == ZeroFrame()
  {
    assert Pow256(8) == WORD_LIMIT;
    forall i | 0 <= i < ENTRIES ensures f[i] == 0 {
      forall j: nat | j < 8 ensures ByteOf(f[i], j) == 0 {
        assert (8 * i + j) / 8 == i && (8 * i + j) % 8 == j;
        assert FrameByte(f, 8 * i + j) == 0;
      }
      ZeroBytesZeroWord(f[i], 8);
    }
  }

  lemma ZeroFrameBytes(k: nat)
    requires k < PAGE_SIZE
    ensures FrameByte(ZeroFrame(), k) == 0
  {
    ZeroWordZeroBytes(k % 8);
  }
}
