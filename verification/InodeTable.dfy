/** What inode_store.c keeps, as a finite map: for every counted inode its reference count
    and the stamp of the last round that touched it. */
module InodeTable {

  /** `num` in a node of the table is a 32-bit uint. */
  const UINT_LIMIT: nat := 0x1_0000_0000

  const HASH_TABLE_SIZE: nat := 100

  /** The low bits under which a number is linked can be taken for another number only if that
      one lives in the same bucket. */
  predicate Shadows(inode: nat) {
    inode >= UINT_LIMIT && inode % UINT_LIMIT % HASH_TABLE_SIZE == inode % HASH_TABLE_SIZE
  }

  lemma Hundreds(n: nat, k: nat)
    ensures (n + 100 * k) % 100 == n % 100
  {
  }

  lemma Nought(b: nat, l: nat)
    requires b < 25 && l < 100
    ensures (96 * b + l) % 100 == l <==> b == 0
  {
    if (96 * b + l) % 100 == l {
      var q := (96 * b + l) / 100;
      assert 24 * b == 25 * q;
    }
  }

  /** In plain figures: from 2^32 on, where the high half is a multiple of 25. */
  lemma ShadowsExactly(inode: nat)
    ensures Shadows(inode) <==> inode >= 0x1_0000_0000 && inode / 0x1_0000_0000 % 25 == 0
  {
    var high, low := inode / 0x1_0000_0000, inode % 0x1_0000_0000;
    var a, b, m, l := high / 25, high % 25, low / 100, low % 100;
    assert inode == (96 * b + l) + 100 * (high * 42949672 + 24 * a + m);
    Hundreds(96 * b + l, high * 42949672 + 24 * a + m);
    Nought(b, l);
  }

  datatype Key = Key(device: nat, inode: nat)

  /** A count that drops to zero frees its entry, so the counts in the table are positive. */
  type Positive = n: nat | n > 0 witness 1

  datatype Entry = Entry(refCount: Positive, stamp: nat)

  /** Device tables are allocated on first use and stay. */
  datatype Table = Table(devices: set<nat>, entries: map<Key, Entry>)

  const EMPTY_TABLE := Table({}, map[])

  /** 1, -1 and 0 of the source, and the miss of rm_inode_ht that never returns: its inner
      loop reuses the cursor of the outer one, which then walks the bucket for ever. */
  datatype Outcome = Counted | Seen | Missing | Stuck

  /** What insert_inode_ht is for; `junk` is what a newly allocated refCount word contains. */
  function Insert(t: Table, nonce: nat, junk: nat, k: Key): (Table, Outcome) {
    if k in t.entries then
      var e := t.entries[k];
      if e.stamp < nonce then (t.(entries := t.entries[k := Entry(e.refCount + 1, nonce)]), Counted)
      else (t, Seen)
    else (Table(t.devices + {k.device}, t.entries[k := Entry(junk + 1, 0)]), Counted)
  }

  /** What insert_inode_ht does, shadowing numbers apart: the node of a number of 2^32 or more
      is never found again, so the number is counted at every encounter and never known. */
  function Enter(t: Table, nonce: nat, junk: nat, k: Key): (Table, Outcome) {
    if k.inode < UINT_LIMIT then Insert(t, nonce, junk, k)
    else (Table(t.devices + {k.device}, t.entries), Counted)
  }

  /** rm_inode_ht: an entry whose count drops to zero is freed. */
  function Remove(t: Table, nonce: nat, k: Key): (Table, Outcome) {
    if k in t.entries then
      var e := t.entries[k];
      if e.stamp >= nonce then (t, Seen)
      else if e.refCount == 1 then (t.(entries := t.entries - {k}), Counted)
      else (t.(entries := t.entries[k := Entry(e.refCount - 1, nonce)]), Counted)
    else (t, if k.device in t.devices then Stuck else Missing)
  }

  /** refresh_nonces on the entries. */
  function Refresh(t: Table): Table {
    t.(entries := map k | k in t.entries :: t.entries[k].(stamp := 0))
  }

  /** Every counted inode has its device table, and no stamp is ahead of the last round. */
  ghost predicate Sound(t: Table, nonce: nat) {
    forall k {:trigger t.entries[k]} :: k in t.entries ==>
      k.device in t.devices && t.entries[k].stamp <= nonce
  }
}
