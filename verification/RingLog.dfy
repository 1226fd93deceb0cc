/** The circular log of lib/logfs as a value: ever-growing offsets mapped onto a ring of
    4096-byte blocks, and what the ring holds of the history of everything written. */
module RingLog {

  const BLOCK: nat := 4096
  /** size_t and loff_t sums wrap here. */
  const WORD: nat := 0x1_0000_0000_0000_0000

  type Byte = b: nat | b < 256

  // ---------------------------------------------------------------- slots of the ring

  /** The slot of offset `p`: p modulo the size, by repeated subtraction. */
  function Slot(p: nat, size: nat): (r: nat)
    requires size > 0
    ensures r < size
  {
    if p < size then p else Slot(p - size, size)
  }

  lemma {:induction false} SlotIsMod(p: nat, size: nat)
    requires size > 0
    ensures Slot(p, size) == p % size
  {
    if p >= size {
      SlotIsMod(p - size, size);
      var q, r := (p - size) / size, (p - size) % size;
      assert p == size * (q + 1) + r;
      ModUnique(p, q + 1, r, size);
    }
  }

  lemma ModUnique(a: nat, q: nat, r: nat, size: nat)
    requires size > 0 && a == size * q + r && r < size
    ensures a % size == r
  {
    var k := a / size - q;
    assert size * k == size * (a / size) - size * q;
    Multiples(size, k);
  }

  lemma {:induction false} Multiples(size: nat, k: int)
    ensures k > 0 ==> size * k >= size
    ensures k < 0 ==> size * k <= -(size as int)
    decreases if k < 0 then -k else k
  {
    if k > 1 {
      Multiples(size, k - 1);
      assert size * k == size * (k - 1) + size;
    } else if k < -1 {
      Multiples(size, k + 1);
      assert size * k == size * (k + 1) - size;
    }
  }

  lemma {:induction false} SlotStep(a: nat, d: nat, size: nat)
    requires size > 0 && Slot(a, size) + d < size
    ensures Slot(a + d, size) == Slot(a, size) + d
  {
    if a >= size {
      SlotStep(a - size, d, size);
    }
  }

  lemma {:induction false} SlotBack(a: nat, d: nat, size: nat)
    requires size > 0 && d <= Slot(a, size)
    ensures d <= a && Slot(a - d, size) == Slot(a, size) - d
  {
    if a >= size {
      SlotBack(a - size, d, size);
    }
  }

  /** Offsets less than a ring apart live in different slots. */
  lemma {:induction false} SlotsDiffer(p: nat, q: nat, size: nat)
    requires size > 0 && p < q < p + size
    ensures Slot(p, size) != Slot(q, size)
  {
    if p >= size {
      SlotsDiffer(p - size, q - size, size);
    }
  }

  lemma BlockEnds(p: nat, size: nat)
    requires p < size && size % BLOCK == 0
    ensures p + (BLOCK - p % BLOCK) <= size
  {
    assert p / BLOCK < size / BLOCK;
  }

  /** The ring is a whole number of blocks, so slots and offsets agree within a block. */
  lemma {:induction false} SlotInBlock(p: nat, size: nat)
    requires size > 0 && size % BLOCK == 0
    ensures Slot(p, size) % BLOCK == p % BLOCK
    ensures Slot(p, size) + (BLOCK - p % BLOCK) <= size
  {
    if p >= size {
      SlotInBlock(p - size, size);
    } else {
      BlockEnds(p, size);
    }
  }

  // ---------------------------------------------------------------- one byte at a time

  /** The ring after the first `n` bytes of `data` were written from offset `pos`. */
  function Written(ring: seq<Byte>, pos: nat, data: seq<Byte>, n: nat): (r: seq<Byte>)
    requires |ring| > 0 && n <= |data|
    ensures |r| == |ring|
  {
    if n == 0 then ring else Written(ring, pos, data, n - 1)[Slot(pos + n - 1, |ring|) := data[n - 1]]
  }

  /** Where the window of live bytes begins. */
  function Oldest(end: nat, size: nat): nat {
    if end > size then end - size else 0
  }

  /** The ring holds the last bytes of the history, each at its offset modulo the size. */
  ghost predicate Faithful(ring: seq<Byte>, history: seq<Byte>)
    requires |ring| > 0
  {
    forall p :: Oldest(|history|, |ring|) <= p < |history| ==> ring[Slot(p, |ring|)] == history[p]
  }

  lemma PutFaithful(ring: seq<Byte>, history: seq<Byte>, b: Byte)
    requires |ring| > 0 && Faithful(ring, history)
    ensures Faithful(ring[Slot(|history|, |ring|) := b], history + [b])
  {
    forall p | Oldest(|history| + 1, |ring|) <= p < |history| ensures Slot(p, |ring|) != Slot(|history|, |ring|) {
      SlotsDiffer(p, |history|, |ring|);
    }
  }

  /** Writing any number of bytes, more than the ring holds included, keeps the ring faithful
      to the longer history. */
  lemma {:induction false} WriteFaithful(ring: seq<Byte>, history: seq<Byte>, data: seq<Byte>, n: nat)
    requires |ring| > 0 && n <= |data| && Faithful(ring, history)
    ensures Faithful(Written(ring, |history|, data, n), history + data[..n])
  {
    if n == 0 {
      assert history + data[..0] == history;
    } else {
      WriteFaithful(ring, history, data, n - 1);
      PutFaithful(Written(ring, |history|, data, n - 1), history + data[..n - 1], data[n - 1]);
      assert history + data[..n] == history + data[..n - 1] + [data[n - 1]];
    }
  }

  /** A write inside one block is a splice of the ring. */
  lemma {:induction false} ChunkWritten(ring: seq<Byte>, pos: nat, data: seq<Byte>, n: nat, delta: nat, i: nat)
    requires |ring| > 0 && n + delta <= |data| && Slot(pos + n, |ring|) + delta <= |ring| && i < |ring|
    ensures var slot := Slot(pos + n, |ring|);
            Written(ring, pos, data, n + delta)[i] ==
            if slot <= i < slot + delta then data[n + (i - slot)] else Written(ring, pos, data, n)[i]
  {
    if delta > 0 {
      ChunkWritten(ring, pos, data, n, delta - 1, i);
      SlotStep(pos + n, delta - 1, |ring|);
      assert pos + (n + delta) - 1 == (pos + n) + (delta - 1);
    }
  }

  /** A written offset keeps its byte until the ring comes round to its slot. */
  lemma {:induction false} WrittenAt(ring: seq<Byte>, pos: nat, data: seq<Byte>, n: nat, p: nat)
    requires |ring| > 0 && n <= |data| && pos <= p < pos + n <= p + |ring|
    ensures Written(ring, pos, data, n)[Slot(p, |ring|)] == data[p - pos]
  {
    if p < pos + n - 1 {
      WrittenAt(ring, pos, data, n - 1, p);
      SlotsDiffer(p, pos + n - 1, |ring|);
    }
  }

  /** A slot that no written offset maps to keeps its byte. */
  lemma {:induction false} SlotUntouched(ring: seq<Byte>, pos: nat, data: seq<Byte>, n: nat, slot: nat)
    requires |ring| > 0 && n <= |data| && slot < |ring|
    requires forall x :: pos <= x < pos + n ==> Slot(x, |ring|) != slot
    ensures Written(ring, pos, data, n)[slot] == ring[slot]
  {
    if n > 0 {
      SlotUntouched(ring, pos, data, n - 1, slot);
    }
  }

  lemma {:induction false} WrittenPrefix(ring: seq<Byte>, pos: nat, data: seq<Byte>, m: nat, n: nat)
    requires |ring| > 0 && n <= m <= |data|
    ensures Written(ring, pos, data[..m], n) == Written(ring, pos, data, n)
  {
    if n > 0 {
      WrittenPrefix(ring, pos, data, m, n - 1);
    }
  }

  /** How many bytes of the payload fit before the `k`-th chunk of a write from `pos` begins. */
  function Boundary(pos: nat, k: nat): nat {
    if k == 0 then 0 else BLOCK - pos % BLOCK + (k - 1) * BLOCK
  }

  /** The first `n` chunks went through whole, and there was more to write after each. */
  ghost predicate Whole(pos: nat, length: nat, readable: nat -> bool, uncopied: nat -> nat, n: nat) {
    n > 0 ==>
      && Whole(pos, length, readable, uncopied, n - 1)
      && readable(n - 1) && uncopied(n - 1) == 0 && Boundary(pos, n) < length
  }

  /** How a chunked write of `length` bytes from `pos` ends: with chunk `last`, after all chunks
      before it went through whole. */
  ghost predicate Ended(pos: nat, length: nat, readable: nat -> bool, uncopied: nat -> nat,
                        last: nat, copied: nat, complete: bool)
  {
    var from, to := Min(Boundary(pos, last), length), Min(Boundary(pos, last + 1), length);
    && Whole(pos, length, readable, uncopied, last)
    && (complete <==> readable(last) && to == length && (uncopied(last) == 0 || from == to))
    && copied == if readable(last) then to - Min(uncopied(last), to - from) else from
  }

  lemma {:induction false} WholeAt(pos: nat, length: nat, readable: nat -> bool, uncopied: nat -> nat, n: nat, k: nat)
    requires Whole(pos, length, readable, uncopied, n) && k < n
    ensures readable(k) && uncopied(k) == 0 && Boundary(pos, k + 1) < length
  {
    if k < n - 1 {
      WholeAt(pos, length, readable, uncopied, n - 1, k);
    }
  }

  // ---------------------------------------------------------------- torn writes

  lemma {:induction false} ConstantWritten(ring: seq<Byte>, pos: nat, data: seq<Byte>, n: nat, q: nat, b: Byte)
    requires |ring| > 0 && n <= |data| && pos <= q < pos + n && forall i :: 0 <= i < |data| ==> data[i] == b
    ensures Written(ring, pos, data, n)[Slot(q, |ring|)] == b
  {
    if q < pos + n - 1 {
      ConstantWritten(ring, pos, data, n - 1, q, b);
    }
  }

  lemma {:induction false} ConstantKept(ring: seq<Byte>, pos: nat, data: seq<Byte>, n: nat, slot: nat, b: Byte)
    requires |ring| > 0 && n <= |data| && slot < |ring| && ring[slot] == b && forall i :: 0 <= i < |data| ==> data[i] == b
    ensures Written(ring, pos, data, n)[slot] == b
  {
    if n > 0 {
      ConstantKept(ring, pos, data, n - 1, slot, b);
    }
  }

  lemma {:induction false} SlotsKept(ring: seq<Byte>, pos: nat, data: seq<Byte>, n: nat, p: nat)
    requires |ring| > 0 && n <= |data| && p < pos && pos + n <= p + |ring|
    ensures Written(ring, pos, data, n)[Slot(p, |ring|)] == ring[Slot(p, |ring|)]
  {
    if n > 0 {
      SlotsKept(ring, pos, data, n - 1, p);
      SlotsDiffer(p, pos + n - 1, |ring|);
    }
  }

  /** The payload of an internal write is a C string. */
  ghost predicate ZeroFree(data: seq<Byte>) {
    forall i :: 0 <= i < |data| ==> data[i] != 0
  }

  /** An internal write that fails after `c` bytes leaves the offsets where they were.  That is
      harmless for every payload exactly when nothing was copied, the log was empty, or the
      copied bytes still fit the ring before the first wrap. */
  lemma TornWrite(ring: seq<Byte>, history: seq<Byte>, c: nat)
    requires |ring| > 0 && Faithful(ring, history)
    ensures (forall data: seq<Byte> :: |data| == c && ZeroFree(data) ==> Faithful(Written(ring, |history|, data, c), history)) <==>
            c == 0 || history == [] || |history| + c <= |ring|
  {
    if c == 0 || history == [] || |history| + c <= |ring| {
      forall data: seq<Byte> | |data| == c && ZeroFree(data) ensures Faithful(Written(ring, |history|, data, c), history) {
        forall p | Oldest(|history|, |ring|) <= p < |history|
          ensures Written(ring, |history|, data, c)[Slot(p, |ring|)] == history[p]
        {
          if c > 0 {
            SlotsKept(ring, |history|, data, c, p);
          }
        }
      }
    } else {
      // the first overwritten live offset, and the offset that overwrites it
      var q := if |history| >= |ring| then |history| else |ring|;
      var p := q - |ring|;
      var b: Byte := if history[p] == 1 then 2 else 1;
      var data := seq(c, _ => b);
      ConstantWritten(ring, |history|, data, c, q, b);
    }
  }

  // ---------------------------------------------------------------- runs

  datatype Log = Log(ring: seq<Byte>, start: nat, end: nat)

  /** The committing half of both writers: the offsets move by what was copied. */
  function Commit(l: Log, data: seq<Byte>): Log
    requires |l.ring| > 0
  {
    var size, copied := |l.ring|, |data|;
    var start :=
      if l.end >= size then l.start + copied
      else if l.end + copied >= size then l.start + (l.end + copied - size)
      else l.start;
    Log(Written(l.ring, l.end, data, copied), start, l.end + copied)
  }

  /** After any run of committed writes of any lengths, partial user writes included. */
  function Committed(l: Log, payloads: seq<seq<Byte>>): (r: Log)
    requires |l.ring| > 0
    ensures |r.ring| == |l.ring|
  {
    if payloads == [] then l
    else Commit(Committed(l, payloads[..|payloads| - 1]), payloads[|payloads| - 1])
  }

  function Concat(payloads: seq<seq<Byte>>): seq<Byte> {
    if payloads == [] then [] else Concat(payloads[..|payloads| - 1]) + payloads[|payloads| - 1]
  }

  /** The window is the last min(end, size) bytes, and the ring holds them. */
  ghost predicate Consistent(l: Log, history: seq<Byte>) {
    && |l.ring| > 0 && l.end == |history| && l.start == Oldest(l.end, |l.ring|)
    && Faithful(l.ring, history)
  }

  lemma CommitConsistent(l: Log, history: seq<Byte>, data: seq<Byte>)
    requires Consistent(l, history)
    ensures Consistent(Commit(l, data), history + data)
  {
    WriteFaithful(l.ring, history, data, |data|);
    assert data[..|data|] == data;
  }

  /** Refinement over whole runs: every live offset p holds byte p of everything written. */
  lemma {:induction false} RunConsistent(ring: seq<Byte>, payloads: seq<seq<Byte>>)
    requires |ring| > 0
    ensures Consistent(Committed(Log(ring, 0, 0), payloads), Concat(payloads))
    ensures var l := Committed(Log(ring, 0, 0), payloads); l.start <= l.end && l.end - l.start == Min(l.end, |ring|)
  {
    if payloads != [] {
      RunConsistent(ring, payloads[..|payloads| - 1]);
      CommitConsistent(Committed(Log(ring, 0, 0), payloads[..|payloads| - 1]),
                       Concat(payloads[..|payloads| - 1]), payloads[|payloads| - 1]);
    }
  }

  /** Bytes taken from the ring inside the window are true history. */
  lemma WindowIsHistory(l: Log, history: seq<Byte>, o: nat, data: seq<Byte>)
    requires Consistent(l, history) && l.start <= o && o + |data| <= l.end
    requires forall i :: 0 <= i < |data| ==> data[i] == l.ring[Slot(o + i, |l.ring|)]
    ensures data == history[o..o + |data|]
  {
    forall i | 0 <= i < |data| ensures data[i] == history[o..o + |data|][i] {
      assert l.ring[Slot(o + i, |l.ring|)] == history[o + i];
    }
  }

  // ---------------------------------------------------------------- how much a read returns

  /** The 64-bit sum of two words. */
  function Sum(a: nat, b: nat): (r: nat)
    requires a < WORD && b < WORD
    ensures r < WORD
  {
    if a + b < WORD then a + b else a + b - WORD
  }

  /** The clipping of onefilefs_read: at the end of the log, at the wrap of the ring, and at
      the end of the block. */
  function ToEnd(off: nat, len: nat, end: nat): (r: nat)
    requires off < end < WORD && len < WORD
    ensures r < WORD
  {
    if Sum(off, len) > end then end - off else len
  }

  function ToWrap(off: nat, len: nat, size: nat): (r: nat)
    requires 0 < size < WORD && off < WORD && len < WORD
    ensures r < WORD
  {
    if Slot(Sum(off, len), size) < Slot(off, size) then size - Slot(off, size) else len
  }

  function ToBlock(slot: nat, len: nat): (r: nat)
    requires len < WORD
  {
    if Sum(slot % BLOCK, len) > BLOCK then BLOCK - slot % BLOCK else len
  }

  function ReadLength(off: nat, len: nat, end: nat, size: nat): nat
    requires 0 < size < WORD && off < end < WORD && len < WORD
  {
    ToBlock(Slot(off, size), ToWrap(off, ToEnd(off, len, end), size))
  }

  function Min(a: int, b: int): int {
    if a < b then a else b
  }

  /** Without the wrap of the 64-bit sum the wrap test is subsumed by the block clip, and a
      read returns what is left of the request, the log and the block, whichever is least.
      With it the end of the log is not seen and the read runs to the end of the block. */
  lemma ReadLengthExactly(off: nat, len: nat, end: nat, size: nat)
    requires size > 0 && size % BLOCK == 0 && size < WORD / 2
    requires off < end < WORD / 2 && len < WORD
    ensures ReadLength(off, len, end, size) ==
            if off + len < WORD then Min(len, Min(end - off, BLOCK - off % BLOCK)) else BLOCK - off % BLOCK
  {
    if off + len < WORD {
      Clipped(off, ToEnd(off, len, end), size);
    } else {
      Wrapped(off, len, size);
    }
  }

  lemma Clipped(off: nat, len: nat, size: nat)
    requires size > 0 && size % BLOCK == 0 && size < WORD / 2 && off + len < WORD / 2
    ensures ToBlock(Slot(off, size), ToWrap(off, len, size)) == Min(len, BLOCK - off % BLOCK)
  {
    SlotInBlock(off, size);
    if Slot(off, size) + len < size {
      SlotStep(off, len, size);
    }
  }

  lemma Wrapped(off: nat, len: nat, size: nat)
    requires size > 0 && size % BLOCK == 0 && size < WORD / 2 && off < WORD / 2 && len < WORD <= off + len
    ensures ToBlock(Slot(off, size), ToWrap(off, len, size)) == BLOCK - off % BLOCK
  {
    SlotInBlock(off, size);
    if WORD - len <= Slot(off, size) {
      SlotBack(off, WORD - len, size);
    }
    WrappedClip(Slot(off, size), Slot(off + len - WORD, size), off, len, size);
  }

  /** The same over the two slots: either the request wraps behind its own slot, and the clip
      at the wrap applies, or it is long enough for the clip at the block. */
  lemma WrappedClip(slot: nat, after: nat, off: nat, len: nat, size: nat)
    requires slot < size < WORD / 2 && off < WORD / 2 && len < WORD <= off + len
    requires slot % BLOCK == off % BLOCK && slot + (BLOCK - off % BLOCK) <= size
    requires WORD - len <= slot ==> after == slot - (WORD - len)
    ensures ToBlock(slot, if after < slot then size - slot else len) == BLOCK - off % BLOCK
  {
    var toWrap := if after < slot then size - slot else len;
    assert slot + toWrap < WORD && toWrap >= BLOCK - off % BLOCK;
  }
}
