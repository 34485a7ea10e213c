/** The four bytes of a word, lowest address first. */
module Bytes {
  import opened Words

  function Weight(k: nat): nat
    requires k < 4
  {
    if k == 0 then 1 else if k == 1 then 0x100 else if k == 2 then 0x1_0000 else 0x100_0000
  }

  function ByteOf(w: Word, k: nat): Byte
    requires k < 4
  {
    w / Weight(k) % 256
  }

  function Compose(b0: Byte, b1: Byte, b2: Byte, b3: Byte): Word {
    b0 + 0x100 * b1 + 0x1_0000 * b2 + 0x100_0000 * b3
  }

  /** The word after a byte store. */
  function WithByte(w: Word, k: nat, b: Byte): Word
    requires k < 4
  {
    Compose(if k == 0 then b else ByteOf(w, 0), if k == 1 then b else ByteOf(w, 1),
            if k == 2 then b else ByteOf(w, 2), if k == 3 then b else ByteOf(w, 3))
  }

  lemma ComposeBytes(b0: Byte, b1: Byte, b2: Byte, b3: Byte)
    ensures var w := Compose(b0, b1, b2, b3);
      ByteOf(w, 0) == b0 && ByteOf(w, 1) == b1 && ByteOf(w, 2) == b2 && ByteOf(w, 3) == b3
  {
    var w := Compose(b0, b1, b2, b3);
    assert w == 256 * (b1 + 256 * (b2 + 256 * b3)) + b0;
    assert w / 0x100 == 256 * (b2 + 256 * b3) + b1;
    assert w / 0x1_0000 == 256 * b3 + b2;
    assert w / 0x100_0000 == b3;
  }

  /** A byte store changes that byte and no other. */
  lemma WithByteOf(w: Word, k: nat, b: Byte, j: nat)
    requires k < 4 && j < 4
    ensures ByteOf(WithByte(w, k, b), j) == if j == k then b else ByteOf(w, j)
  {
    ComposeBytes(if k == 0 then b else ByteOf(w, 0), if k == 1 then b else ByteOf(w, 1),
                 if k == 2 then b else ByteOf(w, 2), if k == 3 then b else ByteOf(w, 3));
  }

  lemma Decompose(w: Word)
    ensures w == Compose(ByteOf(w, 0), ByteOf(w, 1), ByteOf(w, 2), ByteOf(w, 3))
  {
    var a := w / 256;
    var b := a / 256;
    assert w / 0x1_0000 == b;
    assert w / 0x100_0000 == b / 256;
  }

  /** A word is its bytes, the lowest one first. */
  lemma LowestFirst(w: Word)
    ensures w == ByteOf(w, 0) + 0x100 * ByteOf(w, 1) + 0x1_0000 * ByteOf(w, 2) + 0x100_0000 * ByteOf(w, 3)
  {
    hide ByteOf;
    Decompose(w);
  }

  /** Words with the same bytes are the same. */
  lemma SameBytes(v: Word, w: Word)
    requires forall k: nat :: k < 4 ==> ByteOf(v, k) == ByteOf(w, k)
    ensures v == w
  {
    Decompose(v);
    Decompose(w);
  }

  /** Byte q of the memory from word p on. */
  function ByteAt(flat: seq<Word>, p: nat, q: nat): Byte
    requires p + q / 4 < |flat|
  {
    ByteOf(flat[p + q / 4], q % 4)
  }

  function WithByteAt(flat: seq<Word>, p: nat, q: nat, b: Byte): (flat': seq<Word>)
    requires p + q / 4 < |flat|
    ensures |flat'| == |flat|
  {
    flat[p + q / 4 := WithByte(flat[p + q / 4], q % 4, b)]
  }

  lemma WithByteAtKeeps(flat: seq<Word>, p: nat, q: nat, b: Byte, t: nat)
    requires p + q / 4 < |flat| && p + t / 4 < |flat|
    ensures ByteAt(WithByteAt(flat, p, q, b), p, t) == if t == q then b else ByteAt(flat, p, t)
  {
    WithByteOf(flat[p + q / 4], q % 4, b, t % 4);
    assert t == t / 4 * 4 + t % 4 && q == q / 4 * 4 + q % 4;
  }
}
