/** The set in which a memory region records where its chunks start: page numbers in
    blocks of 512 bits, the blocks in 256 lists by the low bits of their number. */
module PageSet {

  const BUCKETS := 256
  const BLOCK := 512
  const WORD := 64
  const WORDS := 8

  /** A machine word of 64 bits, each by itself. */
  type Word = seq<bool>

  /** 512 page numbers from 512 * key on, a bit for each. */
  datatype Trunk = Trunk(key: nat, bits: seq<Word>)

  type Table = seq<seq<Trunk>>

  predicate BitsOk(bits: seq<Word>) { |bits| == WORDS && forall w :: 0 <= w < WORDS ==> |bits[w]| == WORD }

  // ------------------------------------------------------------------------ blocks

  predicate BitAt(bits: seq<Word>, u: nat) { BitsOk(bits) && u < BLOCK && bits[u / WORD][u % WORD] }

  /** One bit of a block is set or cleared. */
  function PutBit(bits: seq<Word>, u: nat, on: bool): (r: seq<Word>)
    requires BitsOk(bits) && u < BLOCK
    ensures BitsOk(r)
  {
    bits[u / WORD := bits[u / WORD][u % WORD := on]]
  }

  lemma PutBitAt(bits: seq<Word>, u: nat, on: bool, v: nat)
    requires BitsOk(bits) && u < BLOCK && v < BLOCK
    ensures BitAt(PutBit(bits, u, on), v) <==> if v == u then on else BitAt(bits, v)
  {
    assert v == u <==> v / WORD == u / WORD && v % WORD == u % WORD;
  }

  function NoBits(): seq<Word> { seq(WORDS, _ => seq(WORD, _ => false)) }

  lemma NoneSet()
    ensures BitsOk(NoBits()) && forall u: nat :: !BitAt(NoBits(), u)
  {
  }

  // ------------------------------------------------------------------------- table

  predicate TrunkOk(t: Trunk, h: nat) { BitsOk(t.bits) && t.key % BUCKETS == h }

  ghost predicate BucketOk(bucket: seq<Trunk>, h: nat) {
    && (forall i :: 0 <= i < |bucket| ==> TrunkOk(bucket[i], h))
    && (forall i, j :: 0 <= i < j < |bucket| ==> bucket[i].key != bucket[j].key)
  }

  ghost predicate TableOk(data: Table) {
    |data| == BUCKETS && forall h :: 0 <= h < BUCKETS ==> BucketOk(data[h], h)
  }

  /** Where the block of a number is in its list, or the length of the list. */
  function Find(bucket: seq<Trunk>, key: nat): (i: nat)
    ensures i <= |bucket| && (i < |bucket| ==> bucket[i].key == key) && forall j :: 0 <= j < i ==> bucket[j].key != key
  {
    if bucket == [] || bucket[0].key == key then 0 else 1 + Find(bucket[1..], key)
  }

  /** The set that the table stands for. */
  ghost predicate Member(data: Table, q: nat) {
    |data| == BUCKETS &&
    var bucket := data[q / BLOCK % BUCKETS];
    var i := Find(bucket, q / BLOCK);
    i < |bucket| && BitAt(bucket[i].bits, q % BLOCK)
  }

  /** One block of the table gets other bits. */
  function Rebit(data: Table, h: nat, i: nat, bits: seq<Word>): Table
    requires h < |data| && i < |data[h]|
  {
    data[h := data[h][i := data[h][i].(bits := bits)]]
  }

  lemma {:induction false} FindSame(a: seq<Trunk>, b: seq<Trunk>, key: nat)
    requires |a| == |b| && forall i :: 0 <= i < |a| ==> a[i].key == b[i].key
    ensures Find(a, key) == Find(b, key)
  {
    if a != [] && a[0].key != key { FindSame(a[1..], b[1..], key); }
  }

  lemma {:induction false} FindAt(bucket: seq<Trunk>, i: nat)
    requires i < |bucket| && forall j, k :: 0 <= j < k < |bucket| ==> bucket[j].key != bucket[k].key
    ensures Find(bucket, bucket[i].key) == i
  {
    if i > 0 { FindAt(bucket[1..], i - 1); }
  }

  lemma RebitOk(data: Table, h: nat, i: nat, bits: seq<Word>)
    requires TableOk(data) && h < BUCKETS && i < |data[h]| && BitsOk(bits)
    ensures TableOk(Rebit(data, h, i, bits))
  {
    var d := Rebit(data, h, i, bits);
    assert BucketOk(data[h], h) && TrunkOk(data[h][i], h);
    forall g | 0 <= g < BUCKETS ensures BucketOk(d[g], g) {
      assert BucketOk(data[g], g);
    }
  }

  /** Numbers of other blocks are members as before; those of the block by its bits. */
  lemma RebitMember(data: Table, h: nat, i: nat, bits: seq<Word>, q: nat)
    requires TableOk(data) && h < BUCKETS && i < |data[h]|
    ensures Member(Rebit(data, h, i, bits), q)
       <==> if q / BLOCK == data[h][i].key then BitAt(bits, q % BLOCK) else Member(data, q)
  {
    var key := q / BLOCK;
    var g := key % BUCKETS;
    var d := Rebit(data, h, i, bits);
    assert BucketOk(data[h], h) && TrunkOk(data[h][i], h);
    FindAt(data[h], i);
    FindSame(data[g], d[g], key);
  }

  /** A block without bits may be put in front of a list that has none of its number. */
  lemma AddTrunk(data: Table, key: nat, q: nat)
    requires TableOk(data)
    requires var bucket := data[key % BUCKETS]; Find(bucket, key) == |bucket|
    ensures var t := Trunk(key, NoBits());
            var d := data[key % BUCKETS := [t] + data[key % BUCKETS]];
            && TableOk(d) && Find(d[key % BUCKETS], key) == 0
            && (Member(d, q) <==> Member(data, q))
  {
    hide Find, Member, NoBits;
    var h := key % BUCKETS;
    var t := Trunk(key, NoBits());
    var bucket := [t] + data[h];
    var d := data[h := bucket];
    NoneSet();
    assert BucketOk(data[h], h);
    assert BucketOk(bucket, h) by {
      forall i | 0 <= i < |bucket| ensures TrunkOk(bucket[i], h) { if i > 0 { assert TrunkOk(data[h][i - 1], h); } }
      forall i, j | 0 <= i < j < |bucket| ensures bucket[i].key != bucket[j].key { assert bucket[j] == data[h][j - 1]; }
    }
    forall g | 0 <= g < BUCKETS ensures BucketOk(d[g], g) { assert BucketOk(data[g], g); }
    NewTrunk(t, data[h], q / BLOCK);
    NewTrunk(t, data[h], key);
    NewMember(data, d, h, t, q);
  }

  lemma NewTrunk(t: Trunk, bucket: seq<Trunk>, key: nat)
    ensures Find([t] + bucket, key) == if t.key == key then 0 else 1 + Find(bucket, key)
  {
    assert ([t] + bucket)[1..] == bucket;
  }

  lemma NewMember(data: Table, d: Table, h: nat, t: Trunk, q: nat)
    requires |data| == BUCKETS && h < BUCKETS && t == Trunk(t.key, NoBits()) && t.key % BUCKETS == h
    requires d == data[h := [t] + data[h]] && Find(data[h], t.key) == |data[h]|
    ensures Member(d, q) <==> Member(data, q)
  {
    hide Find;
    NoneSet();
    NewTrunk(t, data[h], q / BLOCK);
  }

  class IntSet {
    var data: Table
    ghost var contents: set<nat>

    ghost predicate Valid()
      reads this
    {
      TableOk(data) && forall q: nat :: q in contents <==> Member(data, q)
    }

    constructor ()
      ensures Valid() && contents == {}
    {
      data, contents := seq(BUCKETS, _ => []), {};
    }

    /** The position of the block of a number in its list, or the length of the list. */
    method IntSetGet(key: nat) returns (i: nat)
      requires Valid()
      ensures i == Find(data[key % BUCKETS], key) <= |data[key % BUCKETS]|
    {
      var bucket := data[key % BUCKETS];
      i := 0;
      while i < |bucket|
        invariant i <= |bucket| && Find(bucket, key) == i + Find(bucket[i..], key)
      {
        if bucket[i].key == key { return; }
        assert bucket[i..][1..] == bucket[i + 1..];
        i := i + 1;
      }
    }

    method Contains(key: nat) returns (r: bool)
      requires Valid()
      ensures r <==> key in contents
    {
      var i := IntSetGet(key / BLOCK);
      var h := key / BLOCK % BUCKETS;
      if i < |data[h]| {
        var u := key % BLOCK;
        assert BucketOk(data[h], h) && TrunkOk(data[h][i], h);
        r := data[h][i].bits[u / WORD][u % WORD];
      } else {
        r := false;
      }
    }

    method Excl(key: nat)
      requires Valid()
      modifies this
      ensures Valid() && contents == old(contents) - {key}
    {
      hide PutBit, BitAt;
      var i := IntSetGet(key / BLOCK);
      var h := key / BLOCK % BUCKETS;
      if i < |data[h]| {
        var u := key % BLOCK;
        assert BucketOk(data[h], h) && TrunkOk(data[h][i], h);
        Changed(data, h, i, key, false);
        data := Rebit(data, h, i, PutBit(data[h][i].bits, u, false));
      }
      contents := contents - {key};
    }

    /** The block of a number, added without bits if it is missing. */
    method IntSetPut(key: nat) returns (i: nat)
      requires Valid()
      modifies this`data
      ensures Valid() && i == Find(data[key % BUCKETS], key) < |data[key % BUCKETS]|
    {
      i := IntSetGet(key);
      if i == |data[key % BUCKETS]| {
        forall q: nat ensures Member(data, q) <==> Member(data[key % BUCKETS := [Trunk(key, NoBits())] + data[key % BUCKETS]], q) {
          AddTrunk(data, key, q);
        }
        AddTrunk(data, key, 0);
        data := data[key % BUCKETS := [Trunk(key, NoBits())] + data[key % BUCKETS]];
        i := 0;
      }
    }

    method Incl(key: nat)
      requires Valid()
      modifies this
      ensures Valid() && contents == old(contents) + {key}
    {
      hide PutBit, BitAt;
      var i := IntSetPut(key / BLOCK);
      var h := key / BLOCK % BUCKETS;
      var u := key % BLOCK;
      assert BucketOk(data[h], h) && TrunkOk(data[h][i], h);
      Changed(data, h, i, key, true);
      data := Rebit(data, h, i, PutBit(data[h][i].bits, u, true));
      contents := contents + {key};
    }
  }

  /** Setting or clearing the bit of key changes the set by key alone. */
  lemma Changed(data: Table, h: nat, i: nat, key: nat, on: bool)
    requires TableOk(data) && h == key / BLOCK % BUCKETS && i == Find(data[h], key / BLOCK) < |data[h]|
    requires BitsOk(data[h][i].bits)
    ensures var d := Rebit(data, h, i, PutBit(data[h][i].bits, key % BLOCK, on));
            TableOk(d) && forall q: nat :: Member(d, q) <==> if q == key then on else Member(data, q)
  {
    hide PutBit, BitAt;
    var bits := PutBit(data[h][i].bits, key % BLOCK, on);
    RebitOk(data, h, i, bits);
    forall q: nat ensures Member(Rebit(data, h, i, bits), q) <==> if q == key then on else Member(data, q) {
      RebitMember(data, h, i, bits, q);
      PutBitAt(data[h][i].bits, key % BLOCK, on, q % BLOCK);
    }
  }
}
