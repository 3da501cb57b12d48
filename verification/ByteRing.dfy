/** What the two byte rings share: unread bytes between a tail and a head index in a buffer of any size, of
    which one slot always stays empty. */
module ByteRing {
  import opened Bitwise

  /** x modulo the size, for the x that arise; the source writes x % SIZE or x & (SIZE - 1). */
  function Slot(x: nat, size: nat): (r: nat)
    requires x < 2 * size
    ensures r < size
  {
    if x < size then x else x - size
  }

  /** (head - tail) modulo the size. */
  function Used(head: nat, tail: nat, size: nat): (n: nat)
    requires head < size && tail < size
    ensures n < size
  {
    if head >= tail then head - tail else head + size - tail
  }

  /** For the two sizes in use, these are the remainders the source computes. */
  lemma IndicesAreModulo(x: nat, head: nat, tail: nat, size: nat)
    requires size == 4096 || size == 8192
    requires x < 2 * size && head < size && tail < size
    ensures Slot(x, size) == x % size && Used(head, tail, size) == (head - tail) % size
  {
  }

  /** The unread bytes, oldest first. */
  function Queued(buf: seq<byte>, head: nat, tail: nat): (q: seq<byte>)
    requires head < |buf| && tail < |buf|
    ensures |q| == Used(head, tail, |buf|)
  {
    var n := Used(head, tail, |buf|);
    seq(n, i requires 0 <= i < n => buf[Slot(tail + i, |buf|)])
  }

  lemma NotFull(head: nat, tail: nat, size: nat)
    requires head < size && tail < size && size > 1
    ensures Slot(head + 1, size) == tail <==> Used(head, tail, size) == size - 1
    ensures Slot(head + 1, size) != head
  {
  }

  lemma UsedMoves(head: nat, tail: nat, size: nat)
    requires head < size && tail < size
    ensures Used(head, tail, size) < size - 1
            ==> Used(Slot(head + 1, size), tail, size) == Used(head, tail, size) + 1
    ensures head != tail ==> Used(head, Slot(tail + 1, size), size) == Used(head, tail, size) - 1
  {
  }

  /** A store to the empty slot at head is not seen by the reader. */
  lemma StoreUnseen(buf: seq<byte>, head: nat, tail: nat, b: byte)
    requires head < |buf| && tail < |buf|
    ensures Queued(buf[head := b], head, tail) == Queued(buf, head, tail)
  {
    var q, r := Queued(buf, head, tail), Queued(buf[head := b], head, tail);
    forall i | 0 <= i < |r| ensures r[i] == q[i] {
      assert Slot(tail + i, |buf|) != head;
    }
  }

  /** Moving the head on appends the byte stored there. */
  lemma Publish(buf: seq<byte>, head: nat, tail: nat)
    requires head < |buf| && tail < |buf| && Used(head, tail, |buf|) < |buf| - 1
    ensures Queued(buf, Slot(head + 1, |buf|), tail) == Queued(buf, head, tail) + [buf[head]]
  {
    assert Slot(tail + Used(head, tail, |buf|), |buf|) == head;
  }

  /** Moving the tail on drops the oldest bytes. */
  lemma DropOldest(buf: seq<byte>, head: nat, tail: nat, n: nat)
    requires head < |buf| && tail < |buf| && n <= Used(head, tail, |buf|)
    ensures Queued(buf, head, Slot(tail + n, |buf|)) == Queued(buf, head, tail)[n..]
  {
    var q, r := Queued(buf, head, tail), Queued(buf, head, Slot(tail + n, |buf|));
    assert Used(head, Slot(tail + n, |buf|), |buf|) == Used(head, tail, |buf|) - n;
    forall i | 0 <= i < |r| ensures r[i] == q[n..][i] {
      assert Slot(Slot(tail + n, |buf|) + i, |buf|) == Slot(tail + (n + i), |buf|);
    }
  }

  lemma Consume(buf: seq<byte>, head: nat, tail: nat)
    requires head < |buf| && tail < |buf| && head != tail
    ensures Queued(buf, head, tail) == [buf[tail]] + Queued(buf, head, Slot(tail + 1, |buf|))
  {
    var q := Queued(buf, head, tail);
    DropOldest(buf, head, tail, 1);
    assert q[0] == buf[Slot(tail + 0, |buf|)];
    assert q == [q[0]] + q[1..];
  }
}
