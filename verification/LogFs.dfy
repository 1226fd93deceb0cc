/** file.c and the offset handling of logfilefs_src.c: chunked writes into the blocks of the
    device, block-clipped reads, and offsets that survive a remount. */
module LogFs {
  import opened RingLog
  import opened LogRuns

  /** The offsets in the on-disk inode, block 1 of the device. */
  datatype DiskInode = DiskInode(start: nat, end: nat)

  datatype MountResult = Mounted | Busy | BadMagic | ReadError | NoMemory

  class LogFs {
    const dev: array2<Byte>   // block number, offset in the block
    const fileSize: nat
    var start: nat            // circular_buffer_start
    var end: nat              // circular_buffer_end
    var mounted: bool
    var sbLocked: bool        // sb_lock held between operations
    var inode: DiskInode

    /** mkfs sets file_size to a whole number of blocks; the data blocks begin at block 2. */
    ghost predicate Formatted() {
      && 0 < fileSize < WORD / 2 && fileSize % BLOCK == 0
      && dev.Length1 == BLOCK && dev.Length0 >= fileSize / BLOCK + 2
    }

    ghost predicate Valid()
      reads this
    {
      && Formatted() && end < WORD / 2 && inode.end < WORD / 2
      && start == Oldest(end, fileSize) && inode.start == Oldest(inode.end, fileSize)
    }

    /** The data blocks as one ring. */
    ghost function Ring(): (r: seq<Byte>)
      requires Formatted()
      reads dev
      ensures |r| == fileSize
    {
      seq(fileSize, i requires 0 <= i < fileSize reads dev => dev[i / BLOCK + 2, i % BLOCK])
    }

    ghost function Contents(): Log
      requires Formatted()
      reads this, dev
    {
      Log(Ring(), start, end)
    }

    /** The state the lives of LogRuns are made of. */
    ghost function State(): Fs
      requires Formatted()
      reads this, dev
    {
      Fs(Contents(), mounted, inode.start, inode.end)
    }

    constructor (blocks: nat)
      requires 0 < blocks * BLOCK < WORD / 2
      ensures Valid() && fresh(dev) && fileSize == blocks * 4096 && !sbLocked
      ensures State() == New(Ring())
    {
      dev := new Byte[blocks + 2, BLOCK]((_, _) => 0);
      fileSize := blocks * BLOCK;
      start, end, mounted, sbLocked, inode := 0, 0, false, false, DiskInode(0, 0);
    }

    // -------------------------------------------------------------- writing

    /** The device outside the data blocks is as it was. */
    twostate predicate OthersKept()
      reads dev
    {
      forall b, o :: 0 <= b < dev.Length0 && 0 <= o < dev.Length1 && (b < 2 || b >= fileSize / BLOCK + 2) ==>
        dev[b, o] == old(dev[b, o])
    }

    /** memcpy of `delta` bytes of the payload into one block. */
    method CopyChunk(slot: nat, payload: seq<Byte>, copied: nat, delta: nat)
      requires Formatted() && slot + delta <= fileSize && slot % BLOCK + delta <= BLOCK
      requires copied + delta <= |payload|
      modifies dev
      ensures forall i :: 0 <= i < fileSize ==>
                Ring()[i] == if slot <= i < slot + delta then payload[copied + (i - slot)] else old(Ring())[i]
      ensures OthersKept()
    {
      var sector, posIndex := slot / BLOCK + 2, slot % BLOCK;
      forall o | posIndex <= o < posIndex + delta {
        dev[sector, o] := payload[copied + (o - posIndex)];
      }
      forall i | 0 <= i < fileSize
        ensures Ring()[i] == if slot <= i < slot + delta then payload[copied + (i - slot)] else old(Ring())[i]
      {
        if slot <= i < slot + delta {
          assert i / BLOCK + 2 == sector && i % BLOCK == posIndex + (i - slot);
        }
      }
    }

    /** Where the next chunk goes, and how much fits its block. */
    method NextChunk(length: nat, copied: nat) returns (slot: nat, delta: nat)
      requires Formatted() && copied <= length
      ensures slot == Slot(end + copied, fileSize) && slot + delta <= fileSize && slot % BLOCK + delta <= BLOCK
      ensures copied + delta == Min(length, copied + (BLOCK - (end + copied) % BLOCK))
    {
      slot := (end + copied) % fileSize;
      SlotIsMod(end + copied, fileSize);
      SlotInBlock(end + copied, fileSize);
      var posIndex := slot % BLOCK;
      delta := length - copied;
      if posIndex + delta > BLOCK {
        delta := BLOCK - posIndex;
      }
    }

    /** One turn of the loop of both writers: the next chunk, up to the end of its block,
        without the `uncopied` bytes that the user copy leaves out. */
    method CopyNext(payload: seq<Byte>, copied: nat, uncopied: nat, ghost before: seq<Byte>)
      returns (now: nat, left: nat)
      requires Formatted() && copied <= |payload| && |before| == fileSize
      requires Ring() == Written(before, end, payload, copied)
      modifies dev
      ensures copied <= now <= |payload|
      ensures now + left == Min(|payload|, copied + (BLOCK - (end + copied) % BLOCK))
      ensures left == Min(uncopied, now + left - copied)
      ensures Ring() == Written(before, end, payload, now)
      ensures OthersKept()
    {
      var slot, delta := NextChunk(|payload|, copied);
      left := if uncopied < delta then uncopied else delta;
      now := copied + (delta - left);
      CopyChunk(slot, payload, copied, delta - left);
      forall i | 0 <= i < fileSize ensures Ring()[i] == Written(before, end, payload, now)[i] {
        ChunkWritten(before, end, payload, copied, delta - left, i);
      }
    }

    /** The next chunk begins where this one's block ends. */
    lemma NextBoundary(chunk: nat)
      ensures var copied := Boundary(end, chunk); Boundary(end, chunk + 1) == copied + (BLOCK - (end + copied) % BLOCK)
    {
      if chunk > 0 {
        assert end + Boundary(end, chunk) == (end / BLOCK + chunk) * BLOCK;
      }
    }

    /** The do-while loop of both writers: block-sized chunks, until all is copied, a block
        cannot be read (`readable` of the chunk), or the user copy leaves bytes out. */
    method CopyBlocks(payload: seq<Byte>, readable: nat -> bool, uncopied: nat -> nat)
      returns (copied: nat, complete: bool, ghost last: nat)
      requires Valid() && mounted
      modifies dev
      ensures copied <= |payload| && Ended(end, |payload|, readable, uncopied, last, copied, complete)
      ensures (forall k :: readable(k) && uncopied(k) == 0) ==> complete
      ensures complete ==> copied == |payload|
      ensures !complete ==> copied < |payload| || payload == []
      ensures Ring() == Written(old(Ring()), end, payload, copied)
      ensures OthersKept()
    {
      copied := 0;
      var chunk := 0;
      while true
        invariant copied == Boundary(end, chunk) && (copied < |payload| || (chunk == 0 && payload == []))
        invariant Whole(end, |payload|, readable, uncopied, chunk)
        invariant copied <= |payload| && Ring() == Written(old(Ring()), end, payload, copied)
        invariant OthersKept()
        decreases |payload| - copied
      {
        last := chunk;
        if !readable(chunk) {
          complete := false;
          return;
        }
        NextBoundary(chunk);
        var left;
        copied, left := CopyNext(payload, copied, uncopied(chunk), old(Ring()));
        assert copied + left == Min(Boundary(end, chunk + 1), |payload|);
        assert left == Min(uncopied(chunk), copied + left - Boundary(end, chunk));
        if left != 0 {
          complete := false;
          return;
        }
        if copied == |payload| {
          complete := true;
          return;
        }
        assert uncopied(chunk) == 0 && copied == Boundary(end, chunk + 1) < |payload|;
        chunk := chunk + 1;
      }
    }

    /** The committing half of both writers. */
    method Advance(copied: nat)
      requires Formatted() && end + copied < WORD / 2
      modifies this`start, this`end
      ensures end == old(end) + copied
      ensures start ==
              if old(end) >= fileSize then old(start) + copied
              else if old(end) + copied >= fileSize then old(start) + (old(end) + copied - fileSize)
              else old(start)
    {
      if end >= fileSize {
        start := start + copied;
      } else if end + copied >= fileSize {
        start := start + (end + copied - fileSize);
      }
      end := end + copied;
    }

    /** internal_logfilefs_write: commits all of the payload or, when a block cannot be read,
        returns with the bytes copied so far in place and the offsets unmoved. */
    method InternalWrite(payload: seq<Byte>, readable: nat -> bool) returns (ghost copied: nat, ghost last: nat)
      requires Valid() && end + |payload| < WORD / 2
      modifies this`start, this`end, dev
      ensures Valid() && copied <= |payload|
      ensures State() == Apply(old(State()), if copied == |payload| then Store(payload) else Tear(payload, copied))
      ensures mounted && payload != [] ==>
                Ended(old(end), |payload|, readable, _ => 0, last, copied, copied == |payload|)
      ensures mounted && (forall k :: readable(k)) ==> copied == |payload|
    {
      copied, last := 0, 0;
      if |payload| == 0 || !mounted {
        return;
      }
      var n, complete;
      n, complete, last := CopyBlocks(payload, readable, _ => 0);
      copied := n;
      if !complete {
        return;
      }
      Advance(n);
    }

    /** logfilefs_write: commits whatever was copied. */
    method UserWrite(payload: seq<Byte>, readable: nat -> bool, uncopied: nat -> nat)
      returns (copied: nat, off: nat, ghost last: nat)
      requires Valid() && mounted && end + |payload| < WORD / 2
      modifies this`start, this`end, dev
      ensures Valid() && copied <= |payload| && off == end
      ensures State() == Apply(old(State()), Store(payload[..copied]))
      ensures exists complete :: Ended(old(end), |payload|, readable, uncopied, last, copied, complete)
      // within one block
      ensures |payload| <= BLOCK - old(end) % BLOCK ==>
                copied == if readable(0) then |payload| - Min(uncopied(0), |payload|) else 0
      ensures (forall k :: readable(k) && uncopied(k) == 0) ==> copied == |payload|
    {
      var complete;
      copied, complete, last := CopyBlocks(payload, readable, uncopied);
      WrittenPrefix(old(Ring()), end, payload, copied, copied);
      if last > 0 {
        WholeAt(end, |payload|, readable, uncopied, last, 0);
      }
      Advance(copied);
      off := end;
    }

    // -------------------------------------------------------------- reading

    /** The offset a read really starts from. */
    function From(off: int): nat
      reads this`start
    {
      if off < start then start else off
    }

    /** The three clips of onefilefs_read. */
    method Clip(o: nat, len: nat) returns (n: nat, circularPos: nat)
      requires Valid() && mounted && o < end && len < WORD
      ensures n == ReadLength(o, len, end, fileSize) && circularPos == Slot(o, fileSize)
      ensures n <= BLOCK - circularPos % BLOCK && circularPos + n <= fileSize
      ensures o + len < WORD ==> n <= end - o
    {
      n := if Sum(o, len) > end then end - o else len;
      circularPos := o % fileSize;
      SlotIsMod(o, fileSize);
      SlotIsMod(Sum(o, n), fileSize);
      if Sum(o, n) % fileSize < circularPos {
        n := fileSize - circularPos;
      }
      var offset := circularPos % BLOCK;
      if Sum(offset, n) > BLOCK {
        n := BLOCK - offset;
      }
      ReadLengthExactly(o, len, end, fileSize);
      SlotInBlock(o, fileSize);
    }

    /** onefilefs_read.  It moves a lagging offset to the oldest byte; the data is what the
        ring holds from there on, and true history as long as the request does not wrap. */
    method Read(off: int, len: nat, readable: bool, uncopied: nat, ghost history: seq<Byte>)
      returns (data: seq<Byte>, off': int, eof: bool)
      requires Valid() && mounted && len < WORD
      ensures off' == From(off) + |data| && (eof <==> From(off) >= end)
      // a lagging reader goes on at the oldest byte, any other one where it is
      ensures off' - |data| >= off && off' - |data| >= start && (off' - |data| == off || off' - |data| == start)
      ensures eof || !readable ==> data == []
      ensures var o := From(off);
              !eof && readable ==>
                && |data| == ReadLength(o, len, end, fileSize) - Min(uncopied, ReadLength(o, len, end, fileSize))
                && (forall i :: 0 <= i < |data| ==> data[i] == Ring()[Slot(o + i, fileSize)])
                && (Consistent(Contents(), history) && o + len < WORD ==>
                      |data| <= end - o && data == history[o..o + |data|])
    {
      var o := From(off);
      off', data, eof := o, [], o >= end;
      if !eof && readable {
        data := ReadBlock(o, len, uncopied);
        off' := o + |data|;
        if o + len < WORD {
          ReadIsHistory(o, data, history);
        }
      }
    }

    lemma ReadIsHistory(o: nat, data: seq<Byte>, history: seq<Byte>)
      requires Formatted() && start <= o && o + |data| <= end
      requires forall i :: 0 <= i < |data| ==> data[i] == Ring()[Slot(o + i, fileSize)]
      ensures Consistent(Contents(), history) ==> data == history[o..o + |data|]
    {
      if Consistent(Contents(), history) {
        WindowIsHistory(Contents(), history, o, data);
      }
    }

    /** What a read inside the window copies. */
    method ReadBlock(o: nat, len: nat, uncopied: nat) returns (data: seq<Byte>)
      requires Valid() && mounted && o < end && len < WORD
      ensures |data| == ReadLength(o, len, end, fileSize) - Min(uncopied, ReadLength(o, len, end, fileSize))
      ensures forall i :: 0 <= i < |data| ==> data[i] == Ring()[Slot(o + i, fileSize)]
      ensures o + len < WORD ==> |data| <= end - o
    {
      var n, circularPos := Clip(o, len);
      data := CopyOut(o, circularPos, n - if uncopied < n then uncopied else n);
    }

    /** copy_to_user from one block. */
    method CopyOut(o: nat, circularPos: nat, n: nat) returns (data: seq<Byte>)
      requires Formatted() && circularPos == Slot(o, fileSize)
      requires n <= BLOCK - circularPos % BLOCK && circularPos + n <= fileSize
      ensures |data| == n && forall i :: 0 <= i < n ==> data[i] == Ring()[Slot(o + i, fileSize)]
    {
      var block, offset := circularPos / BLOCK + 2, circularPos % BLOCK;
      data := seq(n, i requires 0 <= i < n && offset + n <= dev.Length1 && block < dev.Length0 reads dev => dev[block, offset + i]);
      forall i | 0 <= i < n ensures data[i] == Ring()[Slot(o + i, fileSize)] {
        SlotStep(o, i, fileSize);
        assert (circularPos + i) / BLOCK + 2 == block && (circularPos + i) % BLOCK == offset + i;
      }
    }

    /** One read of a reader that has come to `off`. */
    method ReadOn(off: int, len: nat, ghost history: seq<Byte>) returns (data: seq<Byte>, off': int)
      requires Valid() && mounted && 0 < len < WORD / 2 && Consistent(Contents(), history) && From(off) <= end
      ensures From(off') == off' == From(off) + |data| <= end && data == history[From(off)..off']
      ensures data == [] ==> From(off) == end
    {
      var eof;
      data, off', eof := Read(off, len, true, 0, history);
      if !eof {
        ReadLengthExactly(From(off), len, end, fileSize);
      }
    }

    /** A reader that asks for `len` bytes until it gets none has read the whole window. */
    method Drain(len: nat, ghost history: seq<Byte>) returns (all: seq<Byte>)
      requires Valid() && mounted && 0 < len < WORD / 2 && Consistent(Contents(), history)
      ensures all == history[start..end]
    {
      var off: int := 0;
      all := [];
      while true
        invariant From(off) <= end && all == history[start..From(off)]
        decreases end - From(off)
      {
        ghost var o := From(off);
        var data;
        data, off := ReadOn(off, len, history);
        if data == [] {
          break;
        }
        assert history[start..o] + history[o..off] == history[start..off];
        all := all + data;
      }
    }

    // -------------------------------------------------------------- mounting

    /** singlefilefs_fill_super, as far as the offsets go.  They are loaded before the root
        inode and dentry are allocated. */
    method FillSuper(magicOk: bool, inodeReadable: bool, memory: bool) returns (r: MountResult)
      requires Valid() && (sbLocked ==> mounted)
      modifies this`start, this`end, this`mounted
      ensures Valid()
      ensures r == if old(mounted) then Busy else if !magicOk then BadMagic else if !inodeReadable then ReadError
                   else if !memory then NoMemory else Mounted
      ensures State() ==
              if r == Mounted || r == NoMemory then Apply(old(State()), Event.Mount(r == Mounted)) else old(State())
    {
      if mounted {
        return Busy;
      }
      if !magicOk {
        return BadMagic;
      }
      if !inodeReadable {
        return ReadError;
      }
      start, end := inode.start, inode.end;
      if !memory {
        return NoMemory;
      }
      mounted := true;
      r := Mounted;
    }

    /** singlefilefs_kill_superblock: without its inode block nothing changes, but sb_lock stays
        held. */
    method Kill(inodeReadable: bool)
      requires Valid() && !sbLocked
      modifies this`inode, this`mounted, this`sbLocked
      ensures Valid() && (sbLocked <==> !inodeReadable)
      ensures State() == Apply(old(State()), Event.Kill(inodeReadable))
    {
      sbLocked := true;
      if !inodeReadable {
        return;
      }
      inode := DiskInode(start, end);
      mounted := false;
      sbLocked := false;
    }

    /** A mount of this device: when fill_super fails the superblock is killed at once. */
    method Mount(magicOk: bool, inodeReadable: bool, memory: bool, readableThen: bool) returns (r: MountResult)
      requires Valid() && !mounted && !sbLocked
      modifies this`start, this`end, this`mounted, this`inode, this`sbLocked
      ensures Valid() && r != Busy && (r == Mounted <==> magicOk && inodeReadable && memory) && (mounted <==> r == Mounted)
      ensures sbLocked <==> r != Mounted && !readableThen
      ensures r == Mounted ==> State() == Apply(old(State()), Event.Mount(true))
      ensures r == NoMemory ==> State() == Apply(Apply(old(State()), Event.Mount(false)), Event.Kill(readableThen))
      ensures r == BadMagic || r == ReadError ==> State() == Apply(old(State()), Event.Kill(readableThen))
    {
      r := FillSuper(magicOk, inodeReadable, memory);
      if r != Mounted {
        Kill(readableThen);
      }
    }

    /** An unmount kills the superblock: without its inode block it stays mounted for the log. */
    method Unmount(inodeReadable: bool)
      requires Valid() && mounted && !sbLocked
      modifies this`inode, this`mounted, this`sbLocked
      ensures Valid() && (mounted <==> !inodeReadable) && (sbLocked <==> !inodeReadable)
      ensures State() == Apply(old(State()), Event.Kill(inodeReadable))
    {
      Kill(inodeReadable);
    }
  }
}
