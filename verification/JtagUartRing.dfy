/** The circular buffers of the JTAG UART fast driver: `in` is the next slot to fill,
    `out` the next slot to empty, equal indices mean empty, and one slot always stays free. */
module JtagUartRing {

  const BUF_LEN := 2048

  type byte = x: int | 0 <= x < 256

  type Index = i: int | 0 <= i < BUF_LEN

  type Buffer = b: seq<byte> | |b| == BUF_LEN witness seq(BUF_LEN, _ => 0)

  /** Index arithmetic of the driver, modulo the buffer length. */
  function Advance(i: Index, n: nat): Index {
    (i + n) % BUF_LEN
  }

  /** The number of bytes between `out` and `inn`. */
  function Used(out: Index, inn: Index): (n: nat)
    ensures n < BUF_LEN
  {
    if out <= inn then inn - out else BUF_LEN - out + inn
  }

  /** The queue a ring stands for, oldest byte first. */
  function Ring(buf: Buffer, out: Index, inn: Index): (q: seq<byte>)
    ensures |q| == Used(out, inn)
  {
    if out <= inn then buf[out..inn] else buf[out..] + buf[..inn]
  }

  /** Where the k-th queued byte lives. */
  lemma RingAt(buf: Buffer, out: Index, inn: Index, k: nat)
    requires k < Used(out, inn)
    ensures Ring(buf, out, inn)[k] == buf[Advance(out, k)]
  {
    if out <= inn || k < BUF_LEN - out {
      assert Advance(out, k) == out + k;
    } else {
      assert Advance(out, k) == out + k - BUF_LEN;
    }
  }

  /** Taking n bytes from the front advances `out` by n. */
  lemma RingDrop(buf: Buffer, out: Index, inn: Index, n: nat)
    requires n <= Used(out, inn)
    ensures Used(Advance(out, n), inn) == Used(out, inn) - n
    ensures Ring(buf, Advance(out, n), inn) == Ring(buf, out, inn)[n..]
  {
  }

  /** A write to a slot that holds no queued byte leaves the queue alone. */
  lemma RingUntouched(buf: Buffer, out: Index, inn: Index, i: Index, b: byte)
    requires Used(out, inn) <= Used(out, i)
    ensures Ring(buf[i := b], out, inn) == Ring(buf, out, inn)
  {
  }

  /** Publishing n contiguous free slots appends their contents. */
  lemma RingAppend(buf: Buffer, out: Index, inn: Index, n: nat)
    requires Used(out, inn) + n < BUF_LEN
    requires inn + n <= BUF_LEN
    ensures Used(out, Advance(inn, n)) == Used(out, inn) + n
    ensures Ring(buf, out, Advance(inn, n)) == Ring(buf, out, inn) + buf[inn..inn + n]
  {
    assert Advance(inn, n) == if inn + n == BUF_LEN then 0 else inn + n;
    if inn < out {
      assert buf[..inn + n] == buf[..inn] + buf[inn..inn + n];
    } else {
      assert buf[out..inn + n] == buf[out..inn] + buf[inn..inn + n];
    }
  }

  /** Storing one byte at `inn` and advancing appends it, unless the ring is full. */
  lemma RingPush(buf: Buffer, out: Index, inn: Index, b: byte)
    requires Advance(inn, 1) != out
    ensures Used(out, Advance(inn, 1)) == Used(out, inn) + 1
    ensures Ring(buf[inn := b], out, Advance(inn, 1)) == Ring(buf, out, inn) + [b]
  {
    RingUntouched(buf, out, inn, inn, b);
    RingAppend(buf[inn := b], out, inn, 1);
    assert buf[inn := b][inn..inn + 1] == [b];
  }

  /** Ring capacity: the successor test fires exactly when all but one slot is in use. */
  lemma FullWhen(out: Index, inn: Index)
    ensures Advance(inn, 1) == out <==> Used(out, inn) == BUF_LEN - 1
  {
  }
}
