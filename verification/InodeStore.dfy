/** The two-level hash table of inode_store.c: a list of per-device tables, each with 100
    bucket lists, searched and updated in place. */
module InodeStore {
  import opened InodeTable
  import opened Wrappers

  datatype InodeHt = InodeHt(num: nat, refCount: Positive, stamp: nat)

  datatype StoreFs = StoreFs(numbers: nat, inodes: seq<seq<InodeHt>>)

  // ---------------------------------------------------------------- first-match lookup

  /** The first node of a bucket whose 32-bit num equals the 64-bit inode number. */
  function FindIn(bucket: seq<InodeHt>, inode: nat): Option<Entry> {
    if bucket == [] then None
    else if bucket[0].num == inode then Some(Entry(bucket[0].refCount, bucket[0].stamp))
    else FindIn(bucket[1..], inode)
  }

  /** The position of the table of a device, or the length of the list. */
  function StoreIndex(stores: seq<StoreFs>, device: nat, i: nat): (r: nat)
    requires i <= |stores|
    ensures i <= r <= |stores|
    ensures r < |stores| ==> stores[r].numbers == device
    ensures forall k :: i <= k < r ==> stores[k].numbers != device
    decreases |stores| - i
  {
    if i == |stores| || stores[i].numbers == device then i else StoreIndex(stores, device, i + 1)
  }

  ghost predicate Shaped(stores: seq<StoreFs>) {
    forall i :: 0 <= i < |stores| ==> |stores[i].inodes| == HASH_TABLE_SIZE
  }

  function Lookup(stores: seq<StoreFs>, k: Key): Option<Entry>
    requires Shaped(stores)
  {
    var i := StoreIndex(stores, k.device, 0);
    if i == |stores| then None else FindIn(stores[i].inodes[k.inode % HASH_TABLE_SIZE], k.inode)
  }

  /** Bucket `b` holds 32-bit numbers, its own ones once; a truncated number may have strayed
      into it, any number of times. */
  ghost predicate Bucket(bucket: seq<InodeHt>, b: nat) {
    && (forall e :: 0 <= e < |bucket| ==> bucket[e].num < UINT_LIMIT)
    && (forall e, f :: 0 <= e < f < |bucket| && bucket[e].num % HASH_TABLE_SIZE == b ==> bucket[e].num != bucket[f].num)
  }

  ghost predicate WellFormed(stores: seq<StoreFs>) {
    && Shaped(stores)
    && (forall i, j :: 0 <= i < j < |stores| ==> stores[i].numbers != stores[j].numbers)
    && (forall i, b :: 0 <= i < |stores| && 0 <= b < HASH_TABLE_SIZE ==> Bucket(stores[i].inodes[b], b))
  }

  /** The lists represent the finite map `t`. */
  ghost predicate Holds(stores: seq<StoreFs>, t: Table)
    requires Shaped(stores)
  {
    && (forall d {:trigger StoreIndex(stores, d, 0)} :: d in t.devices <==> StoreIndex(stores, d, 0) < |stores|)
    && (forall k {:trigger Lookup(stores, k)} :: Lookup(stores, k) == if k in t.entries then Some(t.entries[k]) else None)
  }

  // ---------------------------------------------------------------- bucket facts

  lemma {:induction false} FindAt(bucket: seq<InodeHt>, j: nat, inode: nat)
    requires j < |bucket| && bucket[j].num == inode
    requires forall e :: 0 <= e < j ==> bucket[e].num != inode
    ensures FindIn(bucket, inode) == Some(Entry(bucket[j].refCount, bucket[j].stamp))
  {
    if j > 0 {
      FindAt(bucket[1..], j - 1, inode);
    }
  }

  lemma {:induction false} FindNone(bucket: seq<InodeHt>, inode: nat)
    ensures FindIn(bucket, inode) == None <==> forall e :: 0 <= e < |bucket| ==> bucket[e].num != inode
  {
    if bucket != [] {
      FindNone(bucket[1..], inode);
      assert forall e :: 0 < e < |bucket| ==> bucket[e] == bucket[1..][e - 1];
    }
  }

  lemma {:induction false} FindUpdated(bucket: seq<InodeHt>, b: nat, j: nat, node: InodeHt, inode: nat)
    requires j < |bucket| && Bucket(bucket, b) && node.num == bucket[j].num && node.num % HASH_TABLE_SIZE == b
    ensures Bucket(bucket[j := node], b)
    ensures FindIn(bucket[j := node], inode) ==
            if inode == node.num then Some(Entry(node.refCount, node.stamp)) else FindIn(bucket, inode)
  {
    if j == 0 {
      assert bucket[0 := node][1..] == bucket[1..];
    } else {
      assert bucket[j := node][1..] == bucket[1..][j - 1 := node];
      assert Bucket(bucket[1..], b);
      FindUpdated(bucket[1..], b, j - 1, node, inode);
    }
  }

  lemma BucketRemoved(bucket: seq<InodeHt>, b: nat, j: nat)
    requires j < |bucket| && Bucket(bucket, b)
    ensures Bucket(bucket[..j] + bucket[j + 1..], b)
  {
    var rest := bucket[..j] + bucket[j + 1..];
    assert forall e :: 0 <= e < |rest| ==> rest[e] == bucket[if e < j then e else e + 1];
  }

  lemma {:induction false} FindRemoved(bucket: seq<InodeHt>, b: nat, j: nat, inode: nat)
    requires j < |bucket| && Bucket(bucket, b) && bucket[j].num % HASH_TABLE_SIZE == b
    ensures FindIn(bucket[..j] + bucket[j + 1..], inode) ==
            if inode == bucket[j].num then None else FindIn(bucket, inode)
  {
    var rest := bucket[..j] + bucket[j + 1..];
    if j == 0 {
      assert rest == bucket[1..];
      FindNone(bucket[1..], bucket[0].num);
    } else {
      assert rest[1..] == bucket[1..][..j - 1] + bucket[1..][j..];
      assert Bucket(bucket[1..], b);
      FindRemoved(bucket[1..], b, j - 1, inode);
    }
  }

  /** A new node in front of bucket `b`: of a number that is not there yet, or a stray one. */
  lemma FindPrepended(bucket: seq<InodeHt>, b: nat, node: InodeHt)
    requires Bucket(bucket, b) && node.num < UINT_LIMIT
    requires node.num % HASH_TABLE_SIZE == b ==> FindIn(bucket, node.num) == None
    ensures Bucket([node] + bucket, b)
    ensures forall n: nat :: n % HASH_TABLE_SIZE == b ==>
              FindIn([node] + bucket, n) ==
              if n == node.num then Some(Entry(node.refCount, node.stamp)) else FindIn(bucket, n)
  {
    assert ([node] + bucket)[1..] == bucket;
    FindNone(bucket, node.num);
  }

  // ---------------------------------------------------------------- list facts

  function WithBucket(stores: seq<StoreFs>, i: nat, b: nat, bucket: seq<InodeHt>): seq<StoreFs>
    requires i < |stores| && b < |stores[i].inodes|
  {
    stores[i := stores[i].(inodes := stores[i].inodes[b := bucket])]
  }

  lemma {:induction false} SameIndex(stores: seq<StoreFs>, others: seq<StoreFs>, device: nat, i: nat)
    requires |stores| == |others| && i <= |stores|
    requires forall j :: 0 <= j < |stores| ==> stores[j].numbers == others[j].numbers
    ensures StoreIndex(stores, device, i) == StoreIndex(others, device, i)
    decreases |stores| - i
  {
    if i < |stores| && stores[i].numbers != device {
      SameIndex(stores, others, device, i + 1);
    }
  }

  /** Replacing one bucket changes the lookup of its own inodes only. */
  lemma LookupWithBucket(stores: seq<StoreFs>, i: nat, b: nat, bucket: seq<InodeHt>, k: Key)
    requires WellFormed(stores) && i < |stores| && b < HASH_TABLE_SIZE
    ensures Shaped(WithBucket(stores, i, b, bucket))
    ensures Lookup(WithBucket(stores, i, b, bucket), k) ==
            if k.device == stores[i].numbers && k.inode % HASH_TABLE_SIZE == b then FindIn(bucket, k.inode)
            else Lookup(stores, k)
    ensures StoreIndex(WithBucket(stores, i, b, bucket), k.device, 0) == StoreIndex(stores, k.device, 0)
  {
    SameIndex(stores, WithBucket(stores, i, b, bucket), k.device, 0);
  }

  lemma WithBucketFormed(stores: seq<StoreFs>, i: nat, b: nat, bucket: seq<InodeHt>)
    requires WellFormed(stores) && i < |stores| && b < HASH_TABLE_SIZE && Bucket(bucket, b)
    ensures WellFormed(WithBucket(stores, i, b, bucket))
  {
  }

  /** Replacing the bucket of `k` by one that answers differently for `k` only. */
  lemma Rebucket(stores: seq<StoreFs>, t: Table, i: nat, k: Key, bucket: seq<InodeHt>, entries: map<Key, Entry>)
    requires WellFormed(stores) && Holds(stores, t) && i < |stores| && stores[i].numbers == k.device
    requires entries == (t.entries - {k}) || (k in entries && entries == t.entries[k := entries[k]])
    requires FindIn(bucket, k.inode) == if k in entries then Some(entries[k]) else None
    requires forall n: nat :: n != k.inode && n % HASH_TABLE_SIZE == k.inode % HASH_TABLE_SIZE ==>
               FindIn(bucket, n) == FindIn(stores[i].inodes[k.inode % HASH_TABLE_SIZE], n)
    ensures var others := WithBucket(stores, i, k.inode % HASH_TABLE_SIZE, bucket);
            Shaped(others) && Holds(others, t.(entries := entries))
  {
    var b := k.inode % HASH_TABLE_SIZE;
    var others := WithBucket(stores, i, b, bucket);
    assert StoreIndex(stores, k.device, 0) == i;
    forall j: Key ensures Lookup(others, j) == if j in entries then Some(entries[j]) else None {
      LookupWithBucket(stores, i, b, bucket, j);
      if j != k {
        assert Lookup(others, j) == Lookup(stores, j);
      }
    }
    forall d ensures StoreIndex(others, d, 0) == StoreIndex(stores, d, 0) {
      LookupWithBucket(stores, i, b, bucket, Key(d, 0));
    }
  }

  /** The node of a shadowing number is found under its low bits, and the number is not. */
  lemma ShadowFound(stores: seq<StoreFs>, i: nat, inode: nat, node: InodeHt)
    requires WellFormed(stores) && i < |stores| && Shadows(inode) && node.num == inode % UINT_LIMIT
    ensures var b := inode % HASH_TABLE_SIZE;
            var others := WithBucket(stores, i, b, [node] + stores[i].inodes[b]);
            && Shaped(others)
            && Lookup(others, Key(stores[i].numbers, node.num)) == Some(Entry(node.refCount, node.stamp))
            && Lookup(others, Key(stores[i].numbers, inode)) == None
  {
    var b := inode % HASH_TABLE_SIZE;
    var bucket := [node] + stores[i].inodes[b];
    LookupWithBucket(stores, i, b, bucket, Key(stores[i].numbers, node.num));
    LookupWithBucket(stores, i, b, bucket, Key(stores[i].numbers, inode));
    FindAt(bucket, 0, node.num);
    FindNone(bucket, inode);
  }

  // ---------------------------------------------------------------- the store

  class InodeStore {
    var stores: seq<StoreFs>
    var nonce: nat
    ghost var table: Table   // the finite map the lists represent

    ghost predicate Valid()
      reads this
    {
      match table
      case Table(_, _) => WellFormed(stores) && Holds(stores, table)
    }

    constructor ()
      ensures Valid() && table == EMPTY_TABLE && nonce == 0
    {
      stores, nonce, table := [], 0, EMPTY_TABLE;
    }

    /** What the lists say of one inode. */
    lemma Knows(k: Key)
      requires Valid()
      ensures k.device in table.devices <==> StoreIndex(stores, k.device, 0) < |stores|
      ensures Lookup(stores, k) == if k in table.entries then Some(table.entries[k]) else None
    {
    }

    /** Position of the first node with this number in a bucket, or the bucket's length. */
    static method FindNode(bucket: seq<InodeHt>, inode: nat) returns (j: nat)
      ensures j <= |bucket|
      ensures j < |bucket| ==> bucket[j].num == inode
      ensures FindIn(bucket, inode) == if j < |bucket| then Some(Entry(bucket[j].refCount, bucket[j].stamp)) else None
      ensures forall e :: 0 <= e < j ==> bucket[e].num != inode
    {
      j := 0;
      while j < |bucket| && bucket[j].num != inode
        invariant j <= |bucket|
        invariant forall e :: 0 <= e < j ==> bucket[e].num != inode
      {
        j := j + 1;
      }
      if j < |bucket| {
        FindAt(bucket, j, inode);
      } else {
        FindNone(bucket, inode);
      }
    }

    /** Position of the table of a device, or the number of tables. */
    method FindStore(device: nat) returns (i: nat)
      ensures i == StoreIndex(stores, device, 0)
    {
      i := 0;
      while i < |stores| && stores[i].numbers != device
        invariant i <= |stores|
        invariant StoreIndex(stores, device, i) == StoreIndex(stores, device, 0)
      {
        i := i + 1;
      }
    }

    /** Changes the bucket of inode `k` in the table at `i`. */
    method SetBucket(i: nat, ghost k: Key, b: nat, bucket: seq<InodeHt>, ghost entries: map<Key, Entry>)
      requires Valid() && i < |stores| && stores[i].numbers == k.device && b == k.inode % HASH_TABLE_SIZE
      requires Bucket(bucket, b)
      requires entries == (table.entries - {k}) || (k in entries && entries == table.entries[k := entries[k]])
      requires FindIn(bucket, k.inode) == if k in entries then Some(entries[k]) else None
      requires forall n: nat :: n != k.inode && n % HASH_TABLE_SIZE == b ==> FindIn(bucket, n) == FindIn(stores[i].inodes[b], n)
      modifies this`stores, this`table
      ensures Valid() && stores == WithBucket(old(stores), i, b, bucket)
      ensures table == old(table).(entries := entries)
    {
      WithBucketFormed(stores, i, b, bucket);
      Rebucket(stores, table, i, k, bucket, entries);
      stores := WithBucket(stores, i, b, bucket);
      table := table.(entries := entries);
    }

    /** Overwrites node `j` of the bucket of inode `k`. */
    method TouchNode(i: nat, ghost k: Key, b: nat, j: nat, node: InodeHt)
      requires Valid() && i < |stores| && stores[i].numbers == k.device && b == k.inode % HASH_TABLE_SIZE
      requires j < |stores[i].inodes[b]| && node.num == stores[i].inodes[b][j].num == k.inode
      modifies this`stores, this`table
      ensures Valid() && table == old(table).(entries := old(table).entries[k := Entry(node.refCount, node.stamp)])
    {
      var bucket := stores[i].inodes[b];
      forall n: nat {
        FindUpdated(bucket, b, j, node, n);
      }
      FindUpdated(bucket, b, j, node, k.inode);
      SetBucket(i, k, b, bucket[j := node], table.entries[k := Entry(node.refCount, node.stamp)]);
    }

    /** Links a node for the inode `k`, which has none. */
    method AddNode(i: nat, ghost k: Key, b: nat, node: InodeHt)
      requires Valid() && i < |stores| && stores[i].numbers == k.device && b == k.inode % HASH_TABLE_SIZE
      requires node.num == k.inode < UINT_LIMIT && FindIn(stores[i].inodes[b], k.inode) == None
      modifies this`stores, this`table
      ensures Valid() && table == old(table).(entries := old(table).entries[k := Entry(node.refCount, node.stamp)])
    {
      FindPrepended(stores[i].inodes[b], b, node);
      SetBucket(i, k, b, [node] + stores[i].inodes[b], table.entries[k := Entry(node.refCount, node.stamp)]);
    }

    /** Links the truncated node of a number of 2^32 or more, which strays into the bucket of the
        whole number. */
    method AddStray(i: nat, ghost k: Key, b: nat, node: InodeHt)
      requires Valid() && i < |stores| && stores[i].numbers == k.device && b == k.inode % HASH_TABLE_SIZE
      requires k.inode >= UINT_LIMIT && !Shadows(k.inode) && node.num == k.inode % UINT_LIMIT
      modifies this`stores, this`table
      ensures Valid() && table == old(table)
    {
      FindPrepended(stores[i].inodes[b], b, node);
      NeverFound(i, k);
      FindNone([node] + stores[i].inodes[b], k.inode);
      SetBucket(i, k, b, [node] + stores[i].inodes[b], table.entries - {k});
    }

    /** A number of 2^32 or more is in no bucket and not in the table. */
    lemma NeverFound(i: nat, k: Key)
      requires Valid() && i < |stores| && stores[i].numbers == k.device && k.inode >= UINT_LIMIT
      ensures FindIn(stores[i].inodes[k.inode % HASH_TABLE_SIZE], k.inode) == None
      ensures k !in table.entries && table.entries - {k} == table.entries
    {
      FindNone(stores[i].inodes[k.inode % HASH_TABLE_SIZE], k.inode);
      InTable(i, k);
    }

    /** inode_allocate.  A number that does not fit the 32-bit num is linked under its low bits;
        a shadowing one is then what a lookup of those bits finds. */
    method InodeAllocate(i: nat, inode: nat, junk: nat) returns (r: Outcome)
      requires Valid() && i < |stores|
      modifies this`stores, this`table
      ensures !Shadows(inode) ==>
                Valid() && (table, r) == Enter(old(table), nonce, junk, Key(old(stores[i]).numbers, inode))
      ensures Shadows(inode) ==>
                && r == Counted
                && stores == WithBucket(old(stores), i, inode % HASH_TABLE_SIZE,
                               [InodeHt(inode % UINT_LIMIT, junk + 1, 0)] + old(stores[i]).inodes[inode % HASH_TABLE_SIZE])
    {
      var b := inode % HASH_TABLE_SIZE;
      var bucket := stores[i].inodes[b];
      ghost var k := Key(stores[i].numbers, inode);
      InTable(i, k);
      var j := FindNode(bucket, inode);
      if j < |bucket| {
        if bucket[j].stamp < nonce {
          TouchNode(i, k, b, j, bucket[j].(refCount := bucket[j].refCount + 1, stamp := nonce));
          return Counted;
        }
        return Seen;
      }
      var node := InodeHt(inode % UINT_LIMIT, junk + 1, 0);
      if inode < UINT_LIMIT {
        AddNode(i, k, b, node);
      } else if !Shadows(inode) {
        AddStray(i, k, b, node);
      } else {
        stores := WithBucket(stores, i, b, [node] + bucket);
      }
      r := Counted;
    }

    /** The bucket of an inode answers for the map. */
    lemma InTable(i: nat, k: Key)
      requires Valid() && i < |stores| && stores[i].numbers == k.device
      ensures FindIn(stores[i].inodes[k.inode % HASH_TABLE_SIZE], k.inode) ==
              if k in table.entries then Some(table.entries[k]) else None
      ensures k.device in table.devices && table.devices + {k.device} == table.devices
    {
      assert StoreIndex(stores, k.device, 0) == i;
      assert Lookup(stores, k) == FindIn(stores[i].inodes[k.inode % HASH_TABLE_SIZE], k.inode);
    }

    /** insert_inode_ht.  It refines the insertion it is meant to be exactly for the numbers
        that fit 32 bits; the node of a shadowing one is found under its low bits. */
    method InsertInode(device: nat, inode: nat, junk: nat) returns (r: Outcome)
      requires Valid()
      modifies this`stores, this`table
      ensures !Shadows(inode) ==> Valid() && (table, r) == Enter(old(table), nonce, junk, Key(device, inode))
      ensures Shaped(stores)
      ensures Holds(stores, Insert(old(table), nonce, junk, Key(device, inode)).0) <==> inode < 0x1_0000_0000
      ensures Shadows(inode) ==>
                r == Counted && Lookup(stores, Key(device, inode % UINT_LIMIT)) == Some(Entry(junk + 1, 0))
    {
      Knows(Key(device, inode));
      var i := FindStore(device);
      if i == |stores| {
        var empty := StoreFs(device, seq(HASH_TABLE_SIZE, _ => []));
        NewStore(stores, table, empty);
        stores := [empty] + stores;
        table := table.(devices := table.devices + {device});
        i := 0;
      }
      ghost var before, k := stores, Key(device, inode);
      if inode >= UINT_LIMIT {
        NeverFound(i, k);
      }
      r := InodeAllocate(i, inode, junk);
      if Shadows(inode) {
        ShadowFound(before, i, inode, InodeHt(inode % UINT_LIMIT, junk + 1, 0));
      } else if inode >= UINT_LIMIT {
        assert Lookup(stores, k) == None;
      }
    }

    /** rm_inode_ht */
    method RmInode(device: nat, inode: nat) returns (r: Outcome)
      requires Valid()
      modifies this`stores, this`table
      ensures Valid() && (table, r) == Remove(old(table), nonce, Key(device, inode))
    {
      Knows(Key(device, inode));
      var i := FindStore(device);
      if i == |stores| {
        return Missing;
      }
      var b := inode % HASH_TABLE_SIZE;
      var bucket := stores[i].inodes[b];
      ghost var k := Key(device, inode);
      InTable(i, k);
      var j := FindNode(bucket, inode);
      if j == |bucket| {
        return Stuck;
      }
      var node := bucket[j];
      if node.stamp >= nonce {
        return Seen;
      }
      if node.refCount == 1 {
        forall n: nat {
          FindRemoved(bucket, b, j, n);
        }
        BucketRemoved(bucket, b, j);
        SetBucket(i, k, b, bucket[..j] + bucket[j + 1..], table.entries - {k});
      } else {
        TouchNode(i, k, b, j, node.(refCount := node.refCount - 1, stamp := nonce));
      }
      r := Counted;
    }

    /** The innermost loop of refresh_nonces. */
    static method RefreshBucket(bucket: seq<InodeHt>) returns (now: seq<InodeHt>)
      ensures now == Refreshed(bucket)
    {
      now := bucket;
      var e := 0;
      while e < |now|
        invariant e <= |now| == |bucket|
        invariant forall f :: 0 <= f < |now| ==> now[f] == if f < e then bucket[f].(stamp := 0) else bucket[f]
      {
        now := now[e := now[e].(stamp := 0)];
        e := e + 1;
      }
    }

    /** refresh_nonces: membership and counts stay, every stamp and the nonce restart at 0. */
    method RefreshNonces()
      requires Valid()
      modifies this
      ensures Valid() && table == Refresh(old(table)) && nonce == 0
    {
      var i := 0;
      while i < |stores|
        invariant i <= |stores| && RefreshedTo(old(stores), stores, i, 0)
        invariant table == old(table)
      {
        var b := 0;
        while b < HASH_TABLE_SIZE
          invariant b <= HASH_TABLE_SIZE && RefreshedTo(old(stores), stores, i, b)
          invariant table == old(table)
        {
          var now := RefreshBucket(stores[i].inodes[b]);
          stores := WithBucket(stores, i, b, now);
          b := b + 1;
        }
        i := i + 1;
      }
      RefreshHolds(old(stores), stores, table);
      table := Refresh(table);
      nonce := 0;
    }

    /** check_inode */
    method CheckInode(device: nat, inode: nat) returns (r: bool)
      requires Valid()
      ensures r <==> Key(device, inode) in table.entries
      ensures inode >= UINT_LIMIT ==> !r
    {
      Knows(Key(device, inode));
      var i := FindStore(device);
      if i == |stores| {
        return false;
      }
      var j := FindNode(stores[i].inodes[inode % HASH_TABLE_SIZE], inode);
      r := j < |stores[i].inodes[inode % HASH_TABLE_SIZE]|;
    }
  }

  // ---------------------------------------------------------------- refreshing the stamps

  function Refreshed(bucket: seq<InodeHt>): seq<InodeHt> {
    seq(|bucket|, e requires 0 <= e < |bucket| => bucket[e].(stamp := 0))
  }

  /** `now` is `stores` with the stamps of the first `b` buckets of table `i`, and of all
      buckets of the tables before it, set to 0. */
  ghost predicate RefreshedTo(stores: seq<StoreFs>, now: seq<StoreFs>, i: nat, b: nat) {
    && |now| == |stores|
    && Shaped(stores) && Shaped(now)
    && forall s :: 0 <= s < |now| ==>
         && now[s].numbers == stores[s].numbers
         && forall c :: 0 <= c < HASH_TABLE_SIZE ==>
              now[s].inodes[c] ==
              if s < i || (s == i && c < b) then Refreshed(stores[s].inodes[c]) else stores[s].inodes[c]
  }

  lemma {:induction false} FindRefreshed(bucket: seq<InodeHt>, inode: nat)
    ensures FindIn(Refreshed(bucket), inode) ==
            match FindIn(bucket, inode) case None => None case Some(e) => Some(e.(stamp := 0))
  {
    if bucket != [] {
      FindRefreshed(bucket[1..], inode);
      assert Refreshed(bucket)[1..] == Refreshed(bucket[1..]);
    }
  }

  lemma RefreshHolds(stores: seq<StoreFs>, now: seq<StoreFs>, t: Table)
    requires WellFormed(stores) && Holds(stores, t) && RefreshedTo(stores, now, |stores|, 0)
    ensures WellFormed(now) && Holds(now, Refresh(t))
  {
    forall d ensures StoreIndex(now, d, 0) == StoreIndex(stores, d, 0) {
      SameIndex(stores, now, d, 0);
    }
    forall k: Key
      ensures Lookup(now, k) == if k in t.entries then Some(t.entries[k].(stamp := 0)) else None
    {
      SameIndex(stores, now, k.device, 0);
      var i := StoreIndex(stores, k.device, 0);
      assert Lookup(stores, k) == if k in t.entries then Some(t.entries[k]) else None;
      if i < |stores| {
        FindRefreshed(stores[i].inodes[k.inode % HASH_TABLE_SIZE], k.inode);
      }
    }
  }

  lemma NewStoreIndex(stores: seq<StoreFs>, empty: StoreFs, device: nat)
    ensures StoreIndex([empty] + stores, device, 0) ==
            if device == empty.numbers then 0 else StoreIndex(stores, device, 0) + 1
  {
    ShiftedIndex(stores, empty, device, 0);
  }

  lemma NewStoreLookup(stores: seq<StoreFs>, empty: StoreFs, k: Key)
    requires Shaped(stores) && StoreIndex(stores, empty.numbers, 0) == |stores|
    requires empty.inodes == seq(HASH_TABLE_SIZE, _ => [])
    ensures Shaped([empty] + stores) && Lookup([empty] + stores, k) == Lookup(stores, k)
    ensures StoreIndex([empty] + stores, k.device, 0) ==
            if k.device == empty.numbers then 0 else StoreIndex(stores, k.device, 0) + 1
  {
    NewStoreIndex(stores, empty, k.device);
    var i := StoreIndex(stores, k.device, 0);
    if k.device == empty.numbers {
      assert i == |stores| && empty.inodes[k.inode % HASH_TABLE_SIZE] == [];
    } else if i < |stores| {
      assert ([empty] + stores)[i + 1] == stores[i];
    }
  }

  lemma NewStoreFormed(stores: seq<StoreFs>, empty: StoreFs)
    requires WellFormed(stores) && StoreIndex(stores, empty.numbers, 0) == |stores|
    requires empty.inodes == seq(HASH_TABLE_SIZE, _ => [])
    ensures WellFormed([empty] + stores)
  {
  }

  lemma NewStore(stores: seq<StoreFs>, t: Table, empty: StoreFs)
    requires WellFormed(stores) && Holds(stores, t) && StoreIndex(stores, empty.numbers, 0) == |stores|
    requires empty.inodes == seq(HASH_TABLE_SIZE, _ => [])
    ensures WellFormed([empty] + stores)
    ensures Holds([empty] + stores, t.(devices := t.devices + {empty.numbers}))
  {
    NewStoreFormed(stores, empty);
    forall k: Key ensures Lookup([empty] + stores, k) == Lookup(stores, k) {
      NewStoreLookup(stores, empty, k);
    }
    forall d
      ensures StoreIndex([empty] + stores, d, 0) == if d == empty.numbers then 0 else StoreIndex(stores, d, 0) + 1
    {
      NewStoreLookup(stores, empty, Key(d, 0));
    }
  }

  lemma {:induction false} ShiftedIndex(stores: seq<StoreFs>, empty: StoreFs, device: nat, i: nat)
    requires i <= |stores|
    ensures StoreIndex([empty] + stores, device, i + 1) == StoreIndex(stores, device, i) + 1
    decreases |stores| - i
  {
    if i < |stores| && stores[i].numbers != device {
      ShiftedIndex(stores, empty, device, i + 1);
    }
  }
}
