/**
 The key space of the transaction index (indexer/kv_indexer.go): big-endian keys, their byte order,
 and the smallest and largest indexed block read off the ends of the key range.
 */
module KvKeys {
  import opened Machine
  import opened Lex

  /** Keys and values; the database iterates over its keys in lexicographic order. */
  type Bytes = seq<byte>
  type Hash = h: Bytes | |h| == 32 witness seq(32, _ => 0)
  type Db = map<Bytes, Bytes>

  // ---------- Big-endian numbers ----------

  function Pow256(n: nat): (p: nat)
    ensures p >= 1
  {
    if n == 0 then 1 else 256 * Pow256(n - 1)
  }

  /** The low `n` bytes of `x`, most significant first. */
  function BigEndian(x: nat, n: nat): (s: Bytes)
    ensures |s| == n
    decreases n
  {
    if n == 0 then [] else BigEndian(x / 256, n - 1) + [x % 256]
  }

  function FromBigEndian(s: Bytes): nat {
    if s == [] then 0 else 256 * FromBigEndian(s[..|s| - 1]) + s[|s| - 1]
  }

  lemma {:induction false} BigEndianRoundTrip(x: nat, n: nat)
    requires x < Pow256(n)
    ensures FromBigEndian(BigEndian(x, n)) == x
    decreases n
  {
    if n > 0 {
      BigEndianRoundTrip(x / 256, n - 1);
      var s := BigEndian(x, n);
      assert s[..|s| - 1] == BigEndian(x / 256, n - 1);
    }
  }

  /** Big-endian numbers of one width compare as numbers. */
  lemma {:induction false} BigEndianOrder(x: nat, y: nat, n: nat)
    requires x < Pow256(n) && y < Pow256(n)
    ensures Less(BigEndian(x, n), BigEndian(y, n)) <==> x < y
    ensures BigEndian(x, n) == BigEndian(y, n) <==> x == y
    decreases n
  {
    if n > 0 {
      BigEndianOrder(x / 256, y / 256, n - 1);
      LessConcat(BigEndian(x / 256, n - 1), BigEndian(y / 256, n - 1), [x % 256], [y % 256]);
      assert BigEndian(x, n)[n - 1] == x % 256 && BigEndian(y, n)[n - 1] == y % 256;
      assert BigEndian(x, n)[..n - 1] == BigEndian(x / 256, n - 1);
      assert BigEndian(y, n)[..n - 1] == BigEndian(y / 256, n - 1);
    }
  }

  lemma Pow256Eight()
    ensures Pow256(8) == TWO64
  {
    assert Pow256(4) == 256 * Pow256(3) == 65536 * Pow256(2) == 16777216 * Pow256(1);
    assert Pow256(8) == 256 * Pow256(7) == 65536 * Pow256(6) == 16777216 * Pow256(5);
    assert Pow256(5) == 256 * Pow256(4);
  }

  // ---------- Keys ----------

  function TxHashKey(hash: Hash): Bytes {
    [1] + hash
  }

  function TxIndexKey(blockNumber: int64, txIndex: int32): (k: Bytes)
    ensures |k| == 17 && k[0] == 2
  {
    [2] + BigEndian(ToUint64(blockNumber), 8) + BigEndian(ToUint64(txIndex), 8)
  }

  /** Index keys are ordered as the pairs (height, index), each read as an unsigned number. */
  lemma TxIndexKeyOrder(h: int64, i: int32, h': int64, i': int32)
    ensures Less(TxIndexKey(h, i), TxIndexKey(h', i')) <==>
            ToUint64(h) < ToUint64(h') || (h == h' && ToUint64(i) < ToUint64(i'))
    ensures TxIndexKey(h, i) == TxIndexKey(h', i') <==> h == h' && i == i'
  {
    Pow256Eight();
    var a, b := BigEndian(ToUint64(h), 8), BigEndian(ToUint64(h'), 8);
    var c, d := BigEndian(ToUint64(i), 8), BigEndian(ToUint64(i'), 8);
    BigEndianOrder(ToUint64(h), ToUint64(h'), 8);
    BigEndianOrder(ToUint64(i), ToUint64(i'), 8);
    LessConcat([2] + a, [2] + b, c, d);
    LessConcat([2], [2], a, b);
    assert TxIndexKey(h, i)[1..9] == a && TxIndexKey(h', i')[1..9] == b;
    assert TxIndexKey(h, i)[9..] == c && TxIndexKey(h', i')[9..] == d;
  }

  /** Where no number is negative, key order is the order of (height, index). */
  lemma TxIndexKeyOrderNonNegative(h: int64, i: int32, h': int64, i': int32)
    requires 0 <= h && 0 <= i && 0 <= h' && 0 <= i'
    ensures Less(TxIndexKey(h, i), TxIndexKey(h', i')) <==> h < h' || (h == h' && i < i')
  {
    TxIndexKeyOrder(h, i, h', i');
  }

  lemma TxHashKeyInjective(a: Hash, b: Hash)
    ensures TxHashKey(a) == TxHashKey(b) <==> a == b
  {
    assert TxHashKey(a)[1..] == a && TxHashKey(b)[1..] == b;
  }

  datatype Load = Height(h: int64) | BadKeyLength

  function ParseBlockNumber(key: Bytes): Load {
    if |key| != 17 then BadKeyLength else Height(Signed64(FromBigEndian(key[1..9])))
  }

  lemma ParseTxIndexKey(h: int64, i: int32)
    ensures ParseBlockNumber(TxIndexKey(h, i)) == Height(h)
  {
    assert Signed64(ToUint64(h)) == h;
    Pow256Eight();
    BigEndianRoundTrip(ToUint64(h), 8);
    assert TxIndexKey(h, i)[1..9] == BigEndian(ToUint64(h), 8);
  }

  /** Byte 1 and the hash; byte 2, then height and index as numbers of eight bytes. */
  lemma KeyLayout(hash: Hash, h: int64, i: int32)
    ensures var k := TxHashKey(hash); |k| == 33 && k[0] == 1 && k[1..] == hash
    ensures var k := TxIndexKey(h, i);
      && |k| == 17 && k[0] == 2
      && FromBigEndian(k[1..9]) == ToUint64(h) && FromBigEndian(k[9..]) == ToUint64(i)
  {
    var k := TxIndexKey(h, i);
    Pow256Eight();
    BigEndianRoundTrip(ToUint64(h), 8);
    BigEndianRoundTrip(ToUint64(i), 8);
    assert k[1..9] == BigEndian(ToUint64(h), 8) && k[9..] == BigEndian(ToUint64(i), 8);
  }

  // ---------- Iterating over the range of index keys ----------

  /** The keys from `[2]` inclusive to `[3]` exclusive. */
  predicate InIndexRange(k: Bytes) {
    !Less(k, [2]) && Less(k, [3])
  }

  lemma InIndexRangeIff(k: Bytes)
    ensures InIndexRange(k) <==> k != [] && k[0] == 2
  {
    assert [2][1..] == [] && [3][1..] == [];
    assert k != [] ==> !Less(k[1..], []);
  }

  predicate IsFirst(k: Bytes, keys: set<Bytes>) {
    k in keys && forall x :: x in keys ==> x == k || Less(k, x)
  }

  predicate IsLast(k: Bytes, keys: set<Bytes>) {
    k in keys && forall x :: x in keys ==> x == k || Less(x, k)
  }

  lemma {:induction false} EndsExist(keys: set<Bytes>)
    requires keys != {}
    ensures (exists k: Bytes :: IsFirst(k, keys)) && (exists k: Bytes :: IsLast(k, keys))
    decreases keys
  {
    var x :| x in keys;
    var rest := keys - {x};
    if rest == {} {
      assert keys == {x};
      assert IsFirst(x, keys) && IsLast(x, keys);
    } else {
      EndsExist(rest);
      var f: Bytes :| IsFirst(f, rest);
      var l: Bytes :| IsLast(l, rest);
      LessTotal(x, f);
      LessTotal(x, l);
      assert keys == rest + {x};
      if Less(x, f) {
        forall y | y in keys ensures y == x || Less(x, y) {
          if y != x && y != f { LessTransitive(x, f, y); }
        }
        assert IsFirst(x, keys);
      } else {
        assert IsFirst(f, keys);
      }
      if Less(l, x) {
        forall y | y in keys ensures y == x || Less(y, x) {
          if y != x && y != l { LessTransitive(y, l, x); }
        }
        assert IsLast(x, keys);
      } else {
        assert IsLast(l, keys);
      }
    }
  }

  lemma EndsUnique(keys: set<Bytes>)
    ensures forall k: Bytes, k': Bytes :: IsFirst(k, keys) && IsFirst(k', keys) ==> k == k'
    ensures forall k: Bytes, k': Bytes :: IsLast(k, keys) && IsLast(k', keys) ==> k == k'
  {
    forall k: Bytes, k': Bytes | IsFirst(k, keys) && IsFirst(k', keys) && k != k' ensures false {
      LessAsymmetric(k, k');
    }
    forall k: Bytes, k': Bytes | IsLast(k, keys) && IsLast(k', keys) && k != k' ensures false {
      LessAsymmetric(k, k');
    }
  }

  function IndexKeys(db: Db): set<Bytes> {
    set k | k in db && InIndexRange(k)
  }

  function FirstKey(keys: set<Bytes>): (k: Bytes)
    requires keys != {}
    ensures IsFirst(k, keys)
  {
    EndsExist(keys);
    EndsUnique(keys);
    var k :| k in keys && IsFirst(k, keys);
    k
  }

  function LastKey(keys: set<Bytes>): (k: Bytes)
    requires keys != {}
    ensures IsLast(k, keys)
  {
    EndsExist(keys);
    EndsUnique(keys);
    var k :| k in keys && IsLast(k, keys);
    k
  }

  function LoadFirstBlock(db: Db): Load {
    if IndexKeys(db) == {} then Height(-1) else ParseBlockNumber(FirstKey(IndexKeys(db)))
  }

  function LoadLastBlock(db: Db): Load {
    if IndexKeys(db) == {} then Height(-1) else ParseBlockNumber(LastKey(IndexKeys(db)))
  }

  // ---------- What the ends mean ----------

  /** Every key of the index range was made from a height and an index that are not negative. */
  ghost predicate IndexDb(db: Db) {
    forall k :: k in db && InIndexRange(k) ==> IsIndexKey(k)
  }

  ghost predicate IsIndexKey(k: Bytes) {
    exists h: int64, i: int32 :: 0 <= h && 0 <= i && k == TxIndexKey(h, i)
  }

  ghost predicate HasTx(db: Db, h: int64) {
    exists i: int32 :: 0 <= i && TxIndexKey(h, i) in db
  }

  /** The first loaded block is the least height with an indexed transaction, or -1 if there is none. */
  lemma FirstBlockIsLeast(db: Db)
    requires IndexDb(db)
    ensures LoadFirstBlock(db).Height?
    ensures LoadFirstBlock(db).h == -1 <==> forall h: int64 :: 0 <= h ==> !HasTx(db, h)
    ensures LoadFirstBlock(db).h != -1 ==> 0 <= LoadFirstBlock(db).h && HasTx(db, LoadFirstBlock(db).h)
    ensures forall h: int64 :: 0 <= h && HasTx(db, h) ==> LoadFirstBlock(db).h <= h
  {
    if IndexKeys(db) == {} {
      NoIndexKeys(db);
    } else {
      var h, i := FirstRead(db);
      forall h': int64 | 0 <= h' && HasTx(db, h') ensures h <= h' {
        FirstBelow(db, h, i, h');
      }
    }
  }

  lemma FirstRead(db: Db) returns (h: int64, i: int32)
    requires IndexDb(db) && IndexKeys(db) != {}
    ensures LoadFirstBlock(db) == Height(h) && 0 <= h && 0 <= i && HasTx(db, h)
    ensures IsFirst(TxIndexKey(h, i), IndexKeys(db))
  {
    h, i := ReadIndexKey(db, FirstKey(IndexKeys(db)));
  }

  lemma LastRead(db: Db) returns (h: int64, i: int32)
    requires IndexDb(db) && IndexKeys(db) != {}
    ensures LoadLastBlock(db) == Height(h) && 0 <= h && 0 <= i && HasTx(db, h)
    ensures IsLast(TxIndexKey(h, i), IndexKeys(db))
  {
    h, i := ReadIndexKey(db, LastKey(IndexKeys(db)));
  }

  lemma FirstBelow(db: Db, h: int64, i: int32, h': int64)
    requires 0 <= h && 0 <= i && 0 <= h' && HasTx(db, h')
    requires IsFirst(TxIndexKey(h, i), IndexKeys(db))
    ensures h <= h'
  {
    var i': int32 :| 0 <= i' && TxIndexKey(h', i') in db;
    InIndexRangeIff(TxIndexKey(h', i'));
    assert TxIndexKey(h', i') in IndexKeys(db);
    TxIndexKeyOrder(h, i, h', i');
  }

  lemma LastAbove(db: Db, h: int64, i: int32, h': int64)
    requires 0 <= h && 0 <= i && 0 <= h' && HasTx(db, h')
    requires IsLast(TxIndexKey(h, i), IndexKeys(db))
    ensures h' <= h
  {
    var i': int32 :| 0 <= i' && TxIndexKey(h', i') in db;
    InIndexRangeIff(TxIndexKey(h', i'));
    assert TxIndexKey(h', i') in IndexKeys(db);
    TxIndexKeyOrder(h', i', h, i);
  }

  /** The last loaded block is the greatest height with an indexed transaction, or -1 if there is none. */
  lemma LastBlockIsGreatest(db: Db)
    requires IndexDb(db)
    ensures LoadLastBlock(db).Height?
    ensures LoadLastBlock(db).h == -1 <==> forall h: int64 :: 0 <= h ==> !HasTx(db, h)
    ensures LoadLastBlock(db).h != -1 ==> 0 <= LoadLastBlock(db).h && HasTx(db, LoadLastBlock(db).h)
    ensures forall h: int64 :: 0 <= h && HasTx(db, h) ==> h <= LoadLastBlock(db).h
  {
    if IndexKeys(db) == {} {
      NoIndexKeys(db);
    } else {
      var h, i := LastRead(db);
      forall h': int64 | 0 <= h' && HasTx(db, h') ensures h' <= h {
        LastAbove(db, h, i, h');
      }
    }
  }

  lemma ReadIndexKey(db: Db, k: Bytes) returns (h: int64, i: int32)
    requires IndexDb(db) && k in IndexKeys(db)
    ensures 0 <= h && 0 <= i && k == TxIndexKey(h, i) && ParseBlockNumber(k) == Height(h) && HasTx(db, h)
  {
    assert IsIndexKey(k);
    h, i :| 0 <= h && 0 <= i && k == TxIndexKey(h, i);
    ParseTxIndexKey(h, i);
  }

  lemma NoIndexKeys(db: Db)
    requires IndexKeys(db) == {}
    ensures forall h: int64 :: 0 <= h ==> !HasTx(db, h)
  {
    forall h: int64, i: int32 ensures TxIndexKey(h, i) !in db {
      InIndexRangeIff(TxIndexKey(h, i));
      assert TxIndexKey(h, i) in db ==> TxIndexKey(h, i) in IndexKeys(db);
    }
  }
}
