/**
  The dentries of a directory in memory: two hash tables over the same nodes, one
  keyed by inode number and one by name hash, and two counters.
 */
module DentryCache {
  import opened Wrappers
  import opened Nvm
  import opened DirLog

  const BUCKETS: nat := 8

  /** hash_for_each_possible over one bucket, for an inode number. */
  method FindIno(bucket: seq<Dentry>, ino: nat) returns (node: Option<Dentry>)
    ensures node.Some? ==> node.value in bucket && node.value.ino == ino
    ensures node.None? ==> forall d :: d in bucket ==> d.ino != ino
  {
    for i := 0 to |bucket|
      invariant forall k :: 0 <= k < i ==> bucket[k].ino != ino
    {
      if bucket[i].ino == ino {
        return Some(bucket[i]);
      }
    }
    return None;
  }

  lemma {:induction false} DropIs(ds: seq<Dentry>, ino: nat)
    requires UniqueInos(ds)
    ensures UniqueInos(DropIno(ds, ino))
    ensures forall d :: d in DropIno(ds, ino) <==> d in ds && d.ino != ino
    decreases |ds|
  {
    if ds != [] {
      var r := DropIno(ds[1..], ino);
      DropIs(ds[1..], ino);
      assert ds == [ds[0]] + ds[1..];
      if ds[0].ino == ino {
        forall d | d in ds[1..] ensures d.ino != ino {
          var k :| 0 <= k < |ds[1..]| && ds[1..][k] == d;
          assert ds[k + 1] == d;
        }
      } else {
        ConsUnique(ds[0], r) by {
          forall d | d in r ensures d.ino != ds[0].ino {
            var k :| 0 <= k < |ds[1..]| && ds[1..][k] == d;
            assert ds[k + 1] == d;
          }
        }
      }
    }
  }

  lemma ConsUnique(d: Dentry, ds: seq<Dentry>)
    requires UniqueInos(ds) && forall x :: x in ds ==> x.ino != d.ino
    ensures UniqueInos([d] + ds)
  {
    var r := [d] + ds;
    forall i, j | 0 <= i < j < |r| ensures r[i].ino != r[j].ino { assert r[j] == ds[j - 1] && r[j] in ds; }
  }

  lemma SnocUnique(ds: seq<Dentry>, d: Dentry)
    requires UniqueInos(ds) && forall x :: x in ds ==> x.ino != d.ino
    ensures UniqueInos(ds + [d])
  {
    var r := ds + [d];
    forall i, j | 0 <= i < j < |r| ensures r[i].ino != r[j].ino { assert r[i] == ds[i] && r[i] in ds; }
  }

  lemma {:induction false} DropCounts(ds: seq<Dentry>, d: Dentry)
    requires UniqueInos(ds) && d in ds
    ensures |DropIno(ds, d.ino)| == |ds| - 1 && NameLens(DropIno(ds, d.ino)) == NameLens(ds) - d.nameLen
    decreases |ds|
  {
    if ds[0].ino == d.ino {
      var k :| 0 <= k < |ds| && ds[k] == d;
      assert k == 0;
    } else {
      assert d in ds[1..];
      DropCounts(ds[1..], d);
      assert DropIno(ds, d.ino)[1..] == DropIno(ds[1..], d.ino);
    }
  }

  lemma {:induction false} NameLensAppend(ds: seq<Dentry>, d: Dentry)
    ensures NameLens(ds + [d]) == NameLens(ds) + d.nameLen
    decreases |ds|
  {
    if ds == [] {
      assert ds + [d] == [d] && [d][1..] == [];
    } else {
      assert (ds + [d])[1..] == ds[1..] + [d];
      NameLensAppend(ds[1..], d);
    }
  }

  /** The buckets hold exactly the nodes, each in the bucket of its key and only once. */
  ghost predicate Indexes(table: seq<seq<Dentry>>, nodes: seq<Dentry>, keyBucket: Dentry -> nat) {
    && |table| == BUCKETS
    && (forall b, d :: 0 <= b < BUCKETS ==> (d in table[b] <==> d in nodes && keyBucket(d) == b))
    && (forall b :: 0 <= b < BUCKETS ==> UniqueInos(table[b]))
  }

  lemma IndexAdd(table: seq<seq<Dentry>>, nodes: seq<Dentry>, keyBucket: Dentry -> nat, d: Dentry)
    requires Indexes(table, nodes, keyBucket) && keyBucket(d) < BUCKETS && forall x :: x in nodes ==> x.ino != d.ino
    ensures Indexes(table[keyBucket(d) := [d] + table[keyBucket(d)]], nodes + [d], keyBucket)
  {
    ConsUnique(d, table[keyBucket(d)]);
  }

  lemma IndexDrop(table: seq<seq<Dentry>>, nodes: seq<Dentry>, keyBucket: Dentry -> nat, d: Dentry)
    requires Indexes(table, nodes, keyBucket) && UniqueInos(nodes) && d in nodes && keyBucket(d) < BUCKETS
    ensures Indexes(table[keyBucket(d) := DropIno(table[keyBucket(d)], d.ino)], DropIno(nodes, d.ino), keyBucket)
  {
    DropIs(nodes, d.ino);
    DropIs(table[keyBucket(d)], d.ino);
    forall x | x in nodes && x.ino == d.ino ensures x == d {
      var i :| 0 <= i < |nodes| && nodes[i] == x;
      var j :| 0 <= j < |nodes| && nodes[j] == d;
      assert i == j;
    }
  }

  class DirFileDentryCache {
    const inoBucket: nat -> nat
    const nameBucket: nat -> nat
    var inohash: seq<seq<Dentry>>
    var namehash: seq<seq<Dentry>>
    var totalDentryNameLen: nat
    var dentryNum: nat
    /** The nodes in the order they came. */
    ghost var nodes: seq<Dentry>

    ghost predicate Valid()
      reads this
    {
      && (forall k :: inoBucket(k) < BUCKETS) && (forall k :: nameBucket(k) < BUCKETS)
      && UniqueInos(nodes)
      && Indexes(inohash, nodes, ByIno()) && Indexes(namehash, nodes, ByName())
      && dentryNum == |nodes| && totalDentryNameLen == NameLens(nodes)
    }

    ghost function ByIno(): Dentry -> nat { var f := inoBucket; (d: Dentry) => f(d.ino) }

    ghost function ByName(): Dentry -> nat { var f := nameBucket; (d: Dentry) => f(d.nameHash) }

    constructor (inoHash: nat -> nat, nameHash: nat -> nat)
      requires (forall k :: inoHash(k) < BUCKETS) && (forall k :: nameHash(k) < BUCKETS)
      ensures Valid() && nodes == []
    {
      inoBucket, nameBucket := inoHash, nameHash;
      inohash, namehash := seq(BUCKETS, _ => []), seq(BUCKETS, _ => []);
      totalDentryNameLen, dentryNum, nodes := 0, 0, [];
    }

    /** The bucket of a name hash has every node with that hash. */
    lemma NameBucketHolds(h: nat)
      requires Valid()
      ensures nameBucket(h) < |namehash| && UniqueInos(nodes)
      ensures forall d :: d in namehash[nameBucket(h)] ==> d in nodes
      ensures forall d :: d in nodes && d.nameHash == h ==> d in namehash[nameBucket(h)]
    {
      hide UniqueInos;
      forall d | d in nodes && d.nameHash == h ensures d in namehash[nameBucket(h)] {
        assert ByName()(d) == nameBucket(h);
      }
    }

    method LookupByIno(ino: nat) returns (node: Option<Dentry>)
      requires Valid()
      ensures node.Some? ==> node.value in nodes && node.value.ino == ino
      ensures node.None? ==> !HasIno(nodes, ino)
    {
      hide UniqueInos;
      node := FindIno(inohash[inoBucket(ino)], ino);
      if node.None? {
        forall i | 0 <= i < |nodes| ensures nodes[i].ino != ino {
          var d := nodes[i];
          assert ByIno()(d) == inoBucket(d.ino) && d in inohash[inoBucket(d.ino)];
        }
      }
    }

    /** DirFileDentryCacheJustAppendDentry: at the head of both buckets. */
    method JustAppendDentry(d: Dentry)
      requires Valid() && !HasIno(nodes, d.ino)
      modifies this
      ensures Valid() && nodes == old(nodes) + [d]
    {
      hide Indexes;
      assert forall x :: x in nodes ==> x.ino != d.ino;
      SnocUnique(nodes, d);
      NameLensAppend(nodes, d);
      IndexAdd(inohash, nodes, ByIno(), d);
      IndexAdd(namehash, nodes, ByName(), d);
      BucketInRange(inohash, nodes, ByIno());
      BucketInRange(namehash, nodes, ByName());
      totalDentryNameLen := totalDentryNameLen + d.nameLen;
      dentryNum := dentryNum + 1;
      inohash := inohash[inoBucket(d.ino) := [d] + inohash[inoBucket(d.ino)]];
      namehash := namehash[nameBucket(d.nameHash) := [d] + namehash[nameBucket(d.nameHash)]];
      nodes := nodes + [d];
    }

    /** DirFileDentryCacheRemoveDentry: out of both tables. */
    method RemoveDentry(ino: nat) returns (found: bool)
      requires Valid()
      modifies this
      ensures Valid() && (found <==> old(HasIno(nodes, ino)))
      ensures nodes == if found then DropIno(old(nodes), ino) else old(nodes)
    {
      hide Indexes;
      BucketInRange(inohash, nodes, ByIno());
      BucketInRange(namehash, nodes, ByName());
      var node := LookupByIno(ino);
      if node.None? {
        return false;
      }
      var d := node.value;
      assert HasIno(nodes, ino) by {
        var k :| 0 <= k < |nodes| && nodes[k] == d;
        assert nodes[k].ino == ino;
      }
      DropIs(nodes, ino);
      DropCounts(nodes, d);
      IndexDrop(inohash, nodes, ByIno(), d);
      IndexDrop(namehash, nodes, ByName(), d);
      totalDentryNameLen := totalDentryNameLen - d.nameLen;
      dentryNum := dentryNum - 1;
      inohash := inohash[inoBucket(d.ino) := DropIno(inohash[inoBucket(d.ino)], ino)];
      namehash := namehash[nameBucket(d.nameHash) := DropIno(namehash[nameBucket(d.nameHash)], ino)];
      nodes := DropIno(nodes, ino);
      return true;
    }
  }

  lemma BucketInRange(table: seq<seq<Dentry>>, nodes: seq<Dentry>, keyBucket: Dentry -> nat)
    requires Indexes(table, nodes, keyBucket)
    ensures |table| == BUCKETS
  {
  }
}
