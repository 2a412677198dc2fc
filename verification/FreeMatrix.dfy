/** The index of unused chunks: one doubly linked list for each size class, and two
    levels of bitmaps that say which lists are not empty. */
module FreeMatrix {
  import opened SizeClasses
  import opened Bitmaps

  type Addr = nat

  const NIL := 0

  /** The header of a chunk: bit 0 of prevSize says that the chunk is in use, the
      rest is the size of the chunk before it, or zero. */
  datatype BigChunk = BigChunk(prevSize: nat, size: nat, next: Addr, prev: Addr)

  type Memory = map<Addr, BigChunk>

  function AllClasses(): set<Class> {
    set fl, sl | 0 <= fl < REAL_FLI && 0 <= sl < SLI :: Class(fl, sl)
  }

  ghost function At(s: seq<Addr>, k: int): Addr {
    if 0 <= k < |s| then s[k] else NIL
  }

  /** s are the chunks of the list that starts at head, in order. */
  ghost predicate Linked(mem: Memory, head: Addr, s: seq<Addr>) {
    && (forall i, j :: 0 <= i < j < |s| ==> s[i] != s[j])
    && head == At(s, 0)
    && (forall i :: 0 <= i < |s| ==>
          s[i] in mem && s[i] != NIL && mem[s[i]].next == At(s, i + 1) && mem[s[i]].prev == At(s, i - 1))
  }

  ghost predicate SameLinks(mem: Memory, mem': Memory, S: set<Addr>) {
    forall a :: a in S ==> a in mem && a in mem' && mem'[a].next == mem[a].next && mem'[a].prev == mem[a].prev
  }

  lemma LinkedFrame(mem: Memory, mem': Memory, head: Addr, s: seq<Addr>)
    requires Linked(mem, head, s)
    requires forall i :: 0 <= i < |s| ==> s[i] in mem' && mem'[s[i]].next == mem[s[i]].next && mem'[s[i]].prev == mem[s[i]].prev
    ensures Linked(mem', head, s)
  {
  }

  lemma LinkedIn(mem: Memory, head: Addr, s: seq<Addr>)
    requires Linked(mem, head, s)
    ensures forall i :: 0 <= i < |s| ==> s[i] in mem && s[i] != NIL
  {
  }

  lemma LinkedPush(mem: Memory, mem': Memory, head: Addr, s: seq<Addr>, b: Addr)
    requires Linked(mem, head, s) && b !in s && b in mem' && b != NIL && mem.Keys <= mem'.Keys
    requires mem'[b].next == head && mem'[b].prev == NIL
    requires forall a :: a in mem && a != b ==> mem'[a].next == mem[a].next
    requires forall a :: a in mem && a != b && a != NIL ==> mem'[a].prev == if a == head then b else mem[a].prev
    ensures Linked(mem', b, [b] + s)
  {
    var t := [b] + s;
    forall i | 0 <= i < |t|
      ensures t[i] in mem' && t[i] != NIL && mem'[t[i]].next == At(t, i + 1) && mem'[t[i]].prev == At(t, i - 1)
    {
      if i > 0 {
        assert t[i] == s[i - 1];
        assert At(t, i + 1) == At(s, i);
      }
    }
  }

  /** The list without its k-th chunk. */
  ghost function Cut(s: seq<Addr>, k: nat): seq<Addr>
    requires k < |s|
  {
    s[..k] + s[k + 1..]
  }

  lemma LinkedCut(mem: Memory, mem': Memory, head: Addr, s: seq<Addr>, k: nat)
    requires Linked(mem, head, s) && k < |s| && mem'.Keys == mem.Keys
    requires forall a :: a in mem && a != s[k] && a != NIL ==> mem'[a].next == if a == At(s, k - 1) then At(s, k + 1) else mem[a].next
    requires forall a :: a in mem && a != s[k] && a != NIL ==> mem'[a].prev == if a == At(s, k + 1) then At(s, k - 1) else mem[a].prev
    ensures Linked(mem', if head == s[k] then At(s, k + 1) else head, Cut(s, k))
  {
    hide At;
    var t := Cut(s, k);
    CutIs(s, k);
    forall i | 0 <= i < |t|
      ensures t[i] in mem' && t[i] != NIL && mem'[t[i]].next == At(t, i + 1) && mem'[t[i]].prev == At(t, i - 1)
    {
      CutAt(s, k, i);
    }
  }

  lemma CutIs(s: seq<Addr>, k: nat)
    requires k < |s| && forall i, j :: 0 <= i < j < |s| ==> s[i] != s[j]
    ensures forall i, j :: 0 <= i < j < |Cut(s, k)| ==> Cut(s, k)[i] != Cut(s, k)[j]
    ensures At(Cut(s, k), 0) == if At(s, 0) == s[k] then At(s, k + 1) else At(s, 0)
    ensures forall a :: a in Cut(s, k) <==> a in s && a != s[k]
  {
    forall i | 0 <= i < |Cut(s, k)| ensures Cut(s, k)[i] == s[if i < k then i else i + 1] {
    }
    forall a | a in s && a != s[k] ensures a in Cut(s, k) {
      var i :| 0 <= i < |s| && s[i] == a;
      assert Cut(s, k)[if i < k then i else i - 1] == a;
    }
  }

  /** The i-th chunk that stays, at position o of the old list, and its new neighbours. */
  lemma CutAt(s: seq<Addr>, k: nat, i: nat)
    requires k < |s| && i < |Cut(s, k)|
    requires forall i, j :: 0 <= i < j < |s| ==> s[i] != s[j]
    ensures var o := if i < k then i else i + 1;
            && Cut(s, k)[i] == s[o] && s[o] != s[k]
            && At(Cut(s, k), i + 1) == (if o == k - 1 then At(s, k + 1) else At(s, o + 1))
            && At(Cut(s, k), i - 1) == (if o == k + 1 then At(s, k - 1) else At(s, o - 1))
            && (s[o] != NIL ==> (s[o] == At(s, k - 1) <==> o == k - 1) && (s[o] == At(s, k + 1) <==> o == k + 1))
  {
  }

  // -------------------------------------------------------------- the matrix

  type Lists = map<Class, seq<Addr>>

  ghost predicate Filed(mem: Memory, lists: Lists, F: set<Addr>) {
    && (forall c, a :: c in lists && a in lists[c] ==> a in F)
    && (forall a :: a in F ==>
          && a in mem && PAGE_SIZE <= mem[a].size <= MAX_BIG_CHUNK
          && MappingInsert(mem[a].size) in lists && a in lists[MappingInsert(mem[a].size)])
    && (forall c, a :: c in lists && a in lists[c] ==> MappingInsert(mem[a].size) == c)
  }

  ghost predicate Heads(mem: Memory, matrix: map<Class, Addr>, lists: Lists) {
    && matrix.Keys == lists.Keys == AllClasses()
    && forall c :: c in lists ==> Linked(mem, matrix[c], lists[c])
  }

  /** A row's bit is set exactly when its list has a chunk. */
  ghost predicate RowsAgree(slBitmap: seq<bv32>, lists: Lists) {
    && lists.Keys == AllClasses()
    && |slBitmap| == REAL_FLI
    && (forall fl, sl :: 0 <= fl < REAL_FLI && 0 <= sl < SLI ==> (Bit(slBitmap[fl], sl) <==> lists[Class(fl, sl)] != []))
  }

  ghost predicate Empty(word: bv32) { word == 0 }

  /** A bit of the first level is set exactly when its row has one. */
  ghost predicate TopAgrees(flBitmap: bv32, slBitmap: seq<bv32>) {
    && |slBitmap| == REAL_FLI
    && (forall fl :: 0 <= fl < 32 ==> (Bit(flBitmap, fl) <==> fl < REAL_FLI && !Empty(slBitmap[fl])))
  }

  ghost predicate BitsAgree(flBitmap: bv32, slBitmap: seq<bv32>, lists: Lists) {
    RowsAgree(slBitmap, lists) && TopAgrees(flBitmap, slBitmap)
  }

  ghost predicate Indexed(mem: Memory, matrix: map<Class, Addr>, flBitmap: bv32, slBitmap: seq<bv32>, lists: Lists, F: set<Addr>) {
    Heads(mem, matrix, lists) && BitsAgree(flBitmap, slBitmap, lists) && Filed(mem, lists, F)
  }

  lemma ClassIn(c: Class)
    ensures c in AllClasses() <==> c.Valid()
  {
  }

  /** Nothing in the index changes when headers keep their links and sizes. */
  lemma IndexedFrame(mem: Memory, mem': Memory, matrix: map<Class, Addr>, flBitmap: bv32, slBitmap: seq<bv32>, lists: Lists, F: set<Addr>)
    requires Indexed(mem, matrix, flBitmap, slBitmap, lists, F)
    requires forall a :: a in F ==> a in mem' && mem'[a].next == mem[a].next && mem'[a].prev == mem[a].prev && mem'[a].size == mem[a].size
    ensures Indexed(mem', matrix, flBitmap, slBitmap, lists, F)
  {
    hide MappingInsert, BitsAgree;
    forall c | c in lists ensures Linked(mem', matrix[c], lists[c]) {
      forall i | 0 <= i < |lists[c]| ensures lists[c][i] in F {
        assert lists[c][i] in lists[c];
      }
      LinkedFrame(mem, mem', matrix[c], lists[c]);
    }
  }

  lemma EmptyIff(x: bv32)
    ensures Empty(x) <==> forall i :: 0 <= i < 32 ==> !Bit(x, i)
  {
    hide Bit;
    ZeroIff(x);
  }

  lemma SetRow(slBitmap: seq<bv32>, lists: Lists, c: Class, s: seq<Addr>)
    requires RowsAgree(slBitmap, lists) && c.Valid() && s != []
    ensures RowsAgree(slBitmap[c.fl := SetBit(c.sl, slBitmap[c.fl])], lists[c := s])
    ensures !Empty(SetBit(c.sl, slBitmap[c.fl]))
  {
    hide Bit, SetBit, Empty, AllClasses;
    forall d ensures d in AllClasses() <==> d.Valid() { ClassIn(d); }
    var rows, ls := slBitmap[c.fl := SetBit(c.sl, slBitmap[c.fl])], lists[c := s];
    forall fl, sl | 0 <= fl < REAL_FLI && 0 <= sl < SLI ensures Bit(rows[fl], sl) <==> ls[Class(fl, sl)] != [] {
      BitLaws(slBitmap[c.fl], c.sl, sl);
    }
    BitLaws(slBitmap[c.fl], c.sl, c.sl);
    EmptyIff(rows[c.fl]);
  }

  lemma ClearRow(slBitmap: seq<bv32>, lists: Lists, c: Class)
    requires RowsAgree(slBitmap, lists) && c.Valid()
    ensures RowsAgree(slBitmap[c.fl := ClearBit(c.sl, slBitmap[c.fl])], lists[c := []])
    ensures Empty(slBitmap[c.fl]) ==> Empty(ClearBit(c.sl, slBitmap[c.fl]))
  {
    hide Bit, ClearBit, Empty, AllClasses;
    forall d ensures d in AllClasses() <==> d.Valid() { ClassIn(d); }
    var rows, ls := slBitmap[c.fl := ClearBit(c.sl, slBitmap[c.fl])], lists[c := []];
    forall fl, sl | 0 <= fl < REAL_FLI && 0 <= sl < SLI ensures Bit(rows[fl], sl) <==> ls[Class(fl, sl)] != [] {
      BitLaws(slBitmap[c.fl], c.sl, sl);
    }
    forall sl | 0 <= sl < SLI ensures Bit(rows[c.fl], sl) ==> Bit(slBitmap[c.fl], sl) {
      BitLaws(slBitmap[c.fl], c.sl, sl);
    }
    EmptyIff(rows[c.fl]);
    EmptyIff(slBitmap[c.fl]);
  }

  lemma TopBits(flBitmap: bv32, slBitmap: seq<bv32>, fl: nat, row: bv32)
    requires TopAgrees(flBitmap, slBitmap) && fl < REAL_FLI
    ensures !Empty(row) ==> TopAgrees(SetBit(fl, flBitmap), slBitmap[fl := row])
    ensures Empty(row) ==> TopAgrees(ClearBit(fl, flBitmap), slBitmap[fl := row])
    ensures !Empty(row) && !Empty(slBitmap[fl]) ==> TopAgrees(flBitmap, slBitmap[fl := row])
  {
    hide Bit, SetBit, ClearBit, Empty;
    forall i | 0 <= i < 32
      ensures Bit(SetBit(fl, flBitmap), i) <==> Bit(flBitmap, i) || i == fl
      ensures Bit(ClearBit(fl, flBitmap), i) <==> Bit(flBitmap, i) && i != fl {
      BitLaws(flBitmap, fl, i);
    }
  }

  lemma SetBits(flBitmap: bv32, slBitmap: seq<bv32>, lists: Lists, c: Class, s: seq<Addr>)
    requires BitsAgree(flBitmap, slBitmap, lists) && c.Valid() && s != []
    ensures BitsAgree(SetBit(c.fl, flBitmap), slBitmap[c.fl := SetBit(c.sl, slBitmap[c.fl])], lists[c := s])
  {
    hide Bit, SetBit, Empty, RowsAgree;
    SetRow(slBitmap, lists, c, s);
    TopBits(flBitmap, slBitmap, c.fl, SetBit(c.sl, slBitmap[c.fl]));
  }

  /** When a list runs empty its bit is cleared, and its row's when the row is empty. */
  lemma ClearBits(flBitmap: bv32, slBitmap: seq<bv32>, lists: Lists, c: Class)
    requires BitsAgree(flBitmap, slBitmap, lists) && c.Valid()
    ensures var row := ClearBit(c.sl, slBitmap[c.fl]);
            BitsAgree(if Empty(row) then ClearBit(c.fl, flBitmap) else flBitmap, slBitmap[c.fl := row], lists[c := []])
  {
    hide Bit, ClearBit, Empty, RowsAgree;
    ClearRow(slBitmap, lists, c);
    TopBits(flBitmap, slBitmap, c.fl, ClearBit(c.sl, slBitmap[c.fl]));
  }

  lemma KeepBits(flBitmap: bv32, slBitmap: seq<bv32>, lists: Lists, c: Class, s: seq<Addr>)
    requires BitsAgree(flBitmap, slBitmap, lists) && c in lists && (lists[c] != []) == (s != [])
    ensures BitsAgree(flBitmap, slBitmap, lists[c := s])
  {
    hide Bit, TopAgrees, AllClasses;
  }

  // ------------------------------------------------------- changes to the index

  lemma InList(mem: Memory, lists: Lists, F: set<Addr>, c: Class, i: nat)
    requires Filed(mem, lists, F) && c in lists && i < |lists[c]|
    ensures lists[c][i] in F && MappingInsert(mem[lists[c][i]].size) == c
  {
    hide MappingInsert;
    assert lists[c][i] in lists[c];
  }

  /** b is put in front of the list of its class c. */
  lemma AddedIndexed(mem: Memory, mem': Memory, matrix: map<Class, Addr>, flBitmap: bv32, slBitmap: seq<bv32>, lists: Lists, F: set<Addr>, b: Addr, c: Class)
    requires Indexed(mem, matrix, flBitmap, slBitmap, lists, F) && b !in F && b != NIL
    requires b in mem' && mem.Keys <= mem'.Keys && PAGE_SIZE <= mem'[b].size <= MAX_BIG_CHUNK
    requires c == MappingInsert(mem'[b].size) && c.Valid()
    requires mem'[b].next == (if c in matrix then matrix[c] else NIL) && mem'[b].prev == NIL
    requires forall a :: a in mem && a != b ==> mem'[a].next == mem[a].next && mem'[a].size == mem[a].size
    requires forall a :: a in mem && a != b && a != NIL ==> mem'[a].prev == if a == mem'[b].next then b else mem[a].prev
    ensures c in lists
    ensures Indexed(mem', matrix[c := b], SetBit(c.fl, flBitmap), slBitmap[c.fl := SetBit(c.sl, slBitmap[c.fl])],
                    lists[c := [b] + lists[c]], F + {b})
  {
    hide MappingInsert, BitsAgree, SetBit, Heads, Filed;
    ClassIn(c);
    assert matrix.Keys == lists.Keys == AllClasses() by { HeadKeys(mem, matrix, lists); }
    AddedHeads(mem, mem', matrix, lists, F, b, c);
    AddedFiled(mem, mem', lists, F, b, c);
    SetBits(flBitmap, slBitmap, lists, c, [b] + lists[c]);
  }

  lemma HeadKeys(mem: Memory, matrix: map<Class, Addr>, lists: Lists)
    requires Heads(mem, matrix, lists)
    ensures matrix.Keys == lists.Keys == AllClasses()
  {
  }

  lemma AddedHeads(mem: Memory, mem': Memory, matrix: map<Class, Addr>, lists: Lists, F: set<Addr>, b: Addr, c: Class)
    requires Heads(mem, matrix, lists) && Filed(mem, lists, F) && c in lists && b !in F && b != NIL && b in mem'
    requires mem.Keys <= mem'.Keys && mem'[b].next == matrix[c] && mem'[b].prev == NIL
    requires forall a :: a in mem && a != b ==> mem'[a].next == mem[a].next && mem'[a].size == mem[a].size
    requires forall a :: a in mem && a != b && a != NIL ==> mem'[a].prev == if a == mem'[b].next then b else mem[a].prev
    ensures Heads(mem', matrix[c := b], lists[c := [b] + lists[c]])
  {
    hide MappingInsert, Filed, AllClasses, Linked;
    var s := lists[c];
    forall i | 0 <= i < |s| ensures s[i] != b { InList(mem, lists, F, c, i); }
    LinkedPush(mem, mem', matrix[c], s, b);
    forall d | d in lists && d != c ensures Linked(mem', matrix[d], lists[d]) {
      OtherLists(mem, lists, matrix, F, c, d);
      LinkedIn(mem, matrix[d], lists[d]);
      forall i | 0 <= i < |lists[d]| ensures lists[d][i] != b { InList(mem, lists, F, d, i); }
      LinkedFrame(mem, mem', matrix[d], lists[d]);
    }
  }

  lemma OtherLists(mem: Memory, lists: Lists, matrix: map<Class, Addr>, F: set<Addr>, c: Class, d: Class)
    requires Filed(mem, lists, F) && Heads(mem, matrix, lists) && c in lists && d in lists && c != d
    ensures forall i :: 0 <= i < |lists[d]| ==> lists[d][i] != matrix[c] && lists[d][i] !in lists[c]
  {
    hide Filed, Heads;
    assert c in matrix by { HeadKeys(mem, matrix, lists); }
    forall i | 0 <= i < |lists[d]| ensures lists[d][i] != matrix[c] && lists[d][i] !in lists[c] {
      OtherList(mem, lists, matrix, F, c, d, i);
    }
  }

  lemma OtherList(mem: Memory, lists: Lists, matrix: map<Class, Addr>, F: set<Addr>, c: Class, d: Class, i: nat)
    requires Filed(mem, lists, F) && Heads(mem, matrix, lists) && c in lists && d in lists && c != d
    ensures i < |lists[d]| ==> lists[d][i] != matrix[c] && lists[d][i] !in lists[c]
  {
    hide MappingInsert, AllClasses;
    if i < |lists[d]| {
      InList(mem, lists, F, d, i);
    }
  }

  lemma AddedFiled(mem: Memory, mem': Memory, lists: Lists, F: set<Addr>, b: Addr, c: Class)
    requires Filed(mem, lists, F) && b !in F && c in lists
    requires b in mem' && PAGE_SIZE <= mem'[b].size <= MAX_BIG_CHUNK && c == MappingInsert(mem'[b].size)
    requires mem.Keys <= mem'.Keys && forall a :: a in mem && a != b ==> mem'[a].size == mem[a].size
    ensures Filed(mem', lists[c := [b] + lists[c]], F + {b})
  {
    hide MappingInsert;
  }

  /** The k-th chunk of the list of class c is taken out. */
  lemma CutFiled(mem: Memory, mem': Memory, lists: Lists, F: set<Addr>, c: Class, k: nat)
    requires Filed(mem, lists, F) && c in lists && k < |lists[c]|
    requires forall i, j :: 0 <= i < j < |lists[c]| ==> lists[c][i] != lists[c][j]
    requires mem'.Keys == mem.Keys && forall a :: a in mem ==> mem'[a].size == mem[a].size
    ensures Filed(mem', lists[c := Cut(lists[c], k)], F - {lists[c][k]})
  {
    hide MappingInsert, Cut;
    CutIs(lists[c], k);
    InList(mem, lists, F, c, k);
  }

  /** How the links around the k-th chunk of s change when it is taken out. */
  ghost predicate CutLinks(mem: Memory, mem': Memory, s: seq<Addr>, k: nat)
    requires k < |s|
  {
    && mem'.Keys == mem.Keys
    && (forall a :: a in mem ==> mem'[a].size == mem[a].size)
    && (forall a :: a in mem && a != s[k] && a != NIL ==> mem'[a].next == if a == At(s, k - 1) then At(s, k + 1) else mem[a].next)
    && (forall a :: a in mem && a != s[k] && a != NIL ==> mem'[a].prev == if a == At(s, k + 1) then At(s, k - 1) else mem[a].prev)
  }

  lemma CutHeads(mem: Memory, mem': Memory, matrix: map<Class, Addr>, lists: Lists, F: set<Addr>, c: Class, k: nat)
    requires Heads(mem, matrix, lists) && Filed(mem, lists, F) && c in lists && k < |lists[c]|
    requires CutLinks(mem, mem', lists[c], k)
    ensures c in matrix
    ensures Heads(mem', matrix[c := if matrix[c] == lists[c][k] then At(lists[c], k + 1) else matrix[c]], lists[c := Cut(lists[c], k)])
  {
    hide MappingInsert, Cut, AllClasses, Filed, At;
    LinkedCut(mem, mem', matrix[c], lists[c], k);
    forall d | d in lists && d != c ensures Linked(mem', matrix[d], lists[d]) {
      forall i | 0 <= i < |lists[d]|
        ensures lists[d][i] != lists[c][k] && lists[d][i] != At(lists[c], k - 1) && lists[d][i] != At(lists[c], k + 1) {
        OtherList(mem, lists, matrix, F, c, d, i);
        NotNil(mem, matrix, lists, d, i);
        AtIs(lists[c], k - 1);
        AtIs(lists[c], k + 1);
      }
      LinkedFrame(mem, mem', matrix[d], lists[d]);
    }
  }

  lemma AtIs(s: seq<Addr>, k: int)
    ensures At(s, k) == NIL || At(s, k) in s
  {
  }

  lemma CutBits(flBitmap: bv32, slBitmap: seq<bv32>, lists: Lists, c: Class, s: seq<Addr>)
    requires BitsAgree(flBitmap, slBitmap, lists) && c.Valid() && c in lists && lists[c] != []
    ensures c.fl < |slBitmap|
    ensures var row := ClearBit(c.sl, slBitmap[c.fl]);
            BitsAgree(if s == [] && Empty(row) then ClearBit(c.fl, flBitmap) else flBitmap,
                      if s == [] then slBitmap[c.fl := row] else slBitmap, lists[c := s])
  {
    hide ClearBit, Empty, AllClasses, TopAgrees, Bit;
    if s == [] {
      ClearBits(flBitmap, slBitmap, lists, c);
    } else {
      KeepBits(flBitmap, slBitmap, lists, c, s);
    }
  }

  lemma CutIndexed(mem: Memory, mem': Memory, matrix: map<Class, Addr>, flBitmap: bv32, slBitmap: seq<bv32>, lists: Lists, F: set<Addr>, c: Class, k: nat)
    requires Indexed(mem, matrix, flBitmap, slBitmap, lists, F) && c.Valid() && c in lists && k < |lists[c]|
    requires CutLinks(mem, mem', lists[c], k)
    ensures c in matrix && c.fl < |slBitmap|
    ensures var s := Cut(lists[c], k);
            var row := ClearBit(c.sl, slBitmap[c.fl]);
            var head := if matrix[c] == lists[c][k] then At(lists[c], k + 1) else matrix[c];
            && (head == NIL <==> s == [])
            && Indexed(mem', matrix[c := head],
                       if s == [] && Empty(row) then ClearBit(c.fl, flBitmap) else flBitmap,
                       if s == [] then slBitmap[c.fl := row] else slBitmap,
                       lists[c := s], F - {lists[c][k]})
  {
    hide MappingInsert, RowsAgree, TopAgrees, ClearBit, Cut, Empty, AllClasses, Filed;
    CutHeads(mem, mem', matrix, lists, F, c, k);
    CutFiled(mem, mem', lists, F, c, k);
    CutBits(flBitmap, slBitmap, lists, c, Cut(lists[c], k));
  }

  lemma NotNil(mem: Memory, matrix: map<Class, Addr>, lists: Lists, d: Class, i: nat)
    requires Heads(mem, matrix, lists) && d in lists && i < |lists[d]|
    ensures lists[d][i] != NIL && lists[d][i] in mem
  {
    hide AllClasses;
  }

  // ------------------------------------------------------------ the search

  /** What a search from class c must find: the head of the first list, going up
      from c, that is not empty. */
  ghost predicate FirstFrom(lists: Lists, c: Class, d: Class) {
    && d.Valid() && d.AtLeast(c) && d in lists && lists[d] != []
    && forall e: Class :: e in lists && e.AtLeast(c) && lists[e] != [] ==> e.AtLeast(d)
  }

  ghost predicate NoneFrom(lists: Lists, c: Class) {
    forall e: Class :: e in lists && e.AtLeast(c) ==> lists[e] == []
  }

  /** The row of c has a list at c.sl or beyond: its lowest bit there is the first. */
  lemma FoundInRow(flBitmap: bv32, slBitmap: seq<bv32>, lists: Lists, c: Class)
    requires BitsAgree(flBitmap, slBitmap, lists) && c.Valid()
    ensures var tmp := From(c.sl, slBitmap[c.fl]);
            && (!Empty(tmp) ==> 0 <= Lsbit(tmp) < 32 && FirstFrom(lists, c, Class(c.fl, Lsbit(tmp))))
            && (Empty(tmp) ==> RowEmpty(lists, c.fl, c.sl))
  {
    hide Bit, From, Lsbit, Empty, TopAgrees, AllClasses, FirstFrom, RowEmpty, Class.AtLeast;
    forall d ensures d in AllClasses() <==> d.Valid() { ClassIn(d); }
    var row := slBitmap[c.fl];
    var tmp := From(c.sl, row);
    forall sl | 0 <= sl < SLI ensures Bit(tmp, sl) <==> c.sl <= sl && lists[Class(c.fl, sl)] != [] {
      BitLaws(row, c.sl, sl);
    }
    EmptyIff(tmp);
    NonEmptyLsbit(tmp);
    forall sl | 0 <= sl < SLI ensures Class(c.fl, sl) in lists { assert Class(c.fl, sl).Valid(); }
    RowSearch(lists, c, tmp);
  }

  /** What a row of bits that agrees with its lists tells. */
  lemma RowSearch(lists: Lists, c: Class, tmp: bv32)
    requires c.Valid() && (forall d :: d in lists <==> d.Valid()) && (forall sl :: 0 <= sl < SLI ==> Class(c.fl, sl) in lists)
    requires forall sl :: 0 <= sl < SLI ==> (Bit(tmp, sl) <==> c.sl <= sl && lists[Class(c.fl, sl)] != [])
    ensures (forall sl :: 0 <= sl < SLI ==> !Bit(tmp, sl)) ==> RowEmpty(lists, c.fl, c.sl)
    ensures forall k :: 0 <= k < SLI && Bit(tmp, k) && (forall j :: 0 <= j < k ==> !Bit(tmp, j)) ==> FirstFrom(lists, c, Class(c.fl, k))
  {
    hide Bit;
    forall k | 0 <= k < SLI && Bit(tmp, k) && (forall j :: 0 <= j < k ==> !Bit(tmp, j)) ensures FirstFrom(lists, c, Class(c.fl, k)) {
      var d := Class(c.fl, k);
      forall e: Class | e in lists && e.AtLeast(c) && lists[e] != [] ensures e.AtLeast(d) {
        if e.fl == c.fl { assert Bit(tmp, e.sl) by { assert e == Class(c.fl, e.sl); } }
      }
    }
  }

  lemma NonEmptyLsbit(x: bv32)
    ensures !Empty(x) ==> 0 <= Lsbit(x) < 32 && Bit(x, Lsbit(x)) && forall j :: 0 <= j < Lsbit(x) ==> !Bit(x, j)
    ensures Empty(x) ==> Lsbit(x) == -1
  {
    hide Bit, Lsbit;
    LsbitIs(x);
  }

  ghost predicate RowEmpty(lists: Lists, fl: int, sl0: int) {
    forall sl :: sl0 <= sl < SLI ==> Class(fl, sl) in lists && lists[Class(fl, sl)] == []
  }

  lemma RowIs(slBitmap: seq<bv32>, lists: Lists, fl: nat)
    requires RowsAgree(slBitmap, lists) && fl < REAL_FLI
    ensures Empty(slBitmap[fl]) <==> RowEmpty(lists, fl, 0)
    ensures !Empty(slBitmap[fl]) ==>
              var sl := Lsbit(slBitmap[fl]);
              && 0 <= sl < SLI && Class(fl, sl) in lists && lists[Class(fl, sl)] != []
              && forall e: Class :: e in lists && e.fl == fl && lists[e] != [] ==> e.sl >= sl
  {
    hide Bit, Lsbit, Empty, AllClasses;
    forall d ensures d in AllClasses() <==> d.Valid() { ClassIn(d); }
    EmptyIff(slBitmap[fl]);
    NonEmptyLsbit(slBitmap[fl]);
    forall e: Class | e in lists && e.fl == fl ensures e == Class(fl, e.sl) && (Bit(slBitmap[fl], e.sl) <==> lists[e] != []) {
    }
  }

  lemma RowsAbove(flBitmap: bv32, slBitmap: seq<bv32>, fl0: nat)
    requires TopAgrees(flBitmap, slBitmap) && fl0 < REAL_FLI
    ensures |slBitmap| == REAL_FLI
    ensures var fl := Lsbit(From(fl0 + 1, flBitmap));
            && (fl > 0 ==> fl0 < fl < REAL_FLI && !Empty(slBitmap[fl]) && forall i :: fl0 < i < fl ==> Empty(slBitmap[i]))
            && (fl <= 0 ==> forall i :: fl0 < i < REAL_FLI ==> Empty(slBitmap[i]))
  {
    hide Bit, From, Lsbit, Empty;
    var tmp := From(fl0 + 1, flBitmap);
    forall fl | 0 <= fl < 32 ensures Bit(tmp, fl) <==> fl0 < fl < REAL_FLI && !Empty(slBitmap[fl]) {
      BitLaws(flBitmap, fl0 + 1, fl);
    }
    EmptyIff(tmp);
    NonEmptyLsbit(tmp);
  }

  /** Above the row of c: the lowest row with a list, and its lowest list. */
  lemma FoundAbove(flBitmap: bv32, slBitmap: seq<bv32>, lists: Lists, c: Class)
    requires BitsAgree(flBitmap, slBitmap, lists) && c.Valid() && RowEmpty(lists, c.fl, c.sl)
    ensures var fl := Lsbit(From(c.fl + 1, flBitmap));
            && fl < REAL_FLI
            && (fl > 0 ==> 0 <= Lsbit(slBitmap[fl]) < 32 && FirstFrom(lists, c, Class(fl, Lsbit(slBitmap[fl]))))
            && (fl <= 0 ==> NoneFrom(lists, c))
  {
    hide Bit, From, Lsbit, Empty, AllClasses, TopAgrees, RowsAgree;
    RowsAbove(flBitmap, slBitmap, c.fl);
    forall i | 0 <= i < REAL_FLI ensures Empty(slBitmap[i]) <==> RowEmpty(lists, i, 0) {
      RowIs(slBitmap, lists, i);
    }
    forall d | d in lists ensures d.Valid() && d == Class(d.fl, d.sl) { ClassesValid(slBitmap, lists, d); }
    var fl := Lsbit(From(c.fl + 1, flBitmap));
    forall e: Class | e in lists && e.AtLeast(c) && lists[e] != [] ensures e.fl > c.fl && !Empty(slBitmap[e.fl]) {
      assert e == Class(e.fl, e.sl);
    }
    if fl > 0 {
      RowIs(slBitmap, lists, fl);
    }
  }

  lemma ClassesValid(slBitmap: seq<bv32>, lists: Lists, d: Class)
    requires RowsAgree(slBitmap, lists) && d in lists
    ensures d.Valid()
  {
    ClassIn(d);
  }

  /** The head of a list is a filed chunk of that class, or there is none. */
  lemma IndexShape(mem: Memory, matrix: map<Class, Addr>, flBitmap: bv32, slBitmap: seq<bv32>, lists: Lists, F: set<Addr>, c: Class)
    requires Indexed(mem, matrix, flBitmap, slBitmap, lists, F) && c.Valid()
    ensures c in matrix && c in lists && |slBitmap| == REAL_FLI
    ensures matrix[c] == NIL <==> lists[c] == []
    ensures matrix[c] != NIL ==> matrix[c] == lists[c][0] && matrix[c] in F && matrix[c] in mem
  {
    hide MappingInsert, TopAgrees;
    ClassIn(c);
    if lists[c] != [] {
      InList(mem, lists, F, c, 0);
      NotNil(mem, matrix, lists, c, 0);
    }
  }

  /** Where a filed chunk stands, and what its links therefore are. */
  lemma FiledAt(mem: Memory, matrix: map<Class, Addr>, flBitmap: bv32, slBitmap: seq<bv32>, lists: Lists, F: set<Addr>, b: Addr)
    returns (c: Class, k: nat)
    requires Indexed(mem, matrix, flBitmap, slBitmap, lists, F) && b in F
    ensures b in mem && b != NIL && PAGE_SIZE <= mem[b].size <= MAX_BIG_CHUNK
    ensures c == MappingInsert(mem[b].size) && c.Valid() && c in lists && c in matrix && |slBitmap| == REAL_FLI
    ensures k < |lists[c]| && lists[c][k] == b
    ensures mem[b].next == At(lists[c], k + 1) && mem[b].prev == At(lists[c], k - 1)
    ensures mem[b].next != NIL ==> mem[b].next in mem && mem[b].next != b
    ensures mem[b].prev != NIL ==> mem[b].prev in mem && mem[b].prev != b
    ensures mem[b].prev != NIL ==> mem[b].prev != mem[b].next
    ensures matrix[c] == b <==> k == 0
    ensures matrix[c] != b ==> matrix[c] != NIL
  {
    hide MappingInsert, TopAgrees, AllClasses;
    c := MappingInsert(mem[b].size);
    ClassIn(c);
    var i :| 0 <= i < |lists[c]| && lists[c][i] == b;
    k := i;
    assert Linked(mem, matrix[c], lists[c]);
  }

  /** mem after b has been unhooked from its two neighbours and its links cleared. */
  ghost function Unhooked(mem: Memory, b: Addr): Memory
    requires b in mem && (mem[b].next != NIL ==> mem[b].next in mem) && (mem[b].prev != NIL ==> mem[b].prev in mem)
    requires mem[b].next != b && mem[b].prev != b
  {
    var m1 := if mem[b].next != NIL then mem[mem[b].next := mem[mem[b].next].(prev := mem[b].prev)] else mem;
    var m2 := if m1[b].prev != NIL then m1[m1[b].prev := m1[m1[b].prev].(next := m1[b].next)] else m1;
    m2[b := m2[b].(prev := NIL, next := NIL)]
  }

  lemma UnhookedCuts(mem: Memory, s: seq<Addr>, k: nat, b: Addr)
    requires b in mem && b != NIL && k < |s| && s[k] == b
    requires mem[b].next == At(s, k + 1) && mem[b].prev == At(s, k - 1)
    requires mem[b].next != NIL ==> mem[b].next in mem && mem[b].next != b
    requires mem[b].prev != NIL ==> mem[b].prev in mem && mem[b].prev != b
    requires mem[b].prev != NIL ==> mem[b].prev != mem[b].next
    ensures CutLinks(mem, Unhooked(mem, b), s, k)
    ensures Unhooked(mem, b).Keys == mem.Keys
    ensures forall a :: a in mem ==> Unhooked(mem, b)[a].size == mem[a].size && Unhooked(mem, b)[a].prevSize == mem[a].prevSize
  {
    hide At;
  }

  /** The head of a list is its first chunk, in the list of its own class. */
  lemma HeadIsFirst(mem: Memory, matrix: map<Class, Addr>, flBitmap: bv32, slBitmap: seq<bv32>, lists: Lists, F: set<Addr>, c: Class, b: Addr, d: Class, k: nat)
    requires Indexed(mem, matrix, flBitmap, slBitmap, lists, F) && c in lists && b == matrix[c] && lists[c] != [] && b == lists[c][0]
    requires d in lists && k < |lists[d]| && lists[d][k] == b
    ensures d == c && k == 0 && At(lists[d], k - 1) == NIL
  {
    hide MappingInsert, BitsAgree, AllClasses;
    InList(mem, lists, F, c, 0);
    InList(mem, lists, F, d, k);
    assert Linked(mem, matrix[c], lists[c]);
  }

  /** Without a chunk before it, unhooking touches only the chunk behind. */
  lemma UnhookedHead(mem: Memory, b: Addr)
    requires b in mem && mem[b].prev == NIL && mem[b].next != b && (mem[b].next != NIL ==> mem[b].next in mem)
    requires b != NIL
    ensures var m := if mem[b].next != NIL then mem[mem[b].next := mem[mem[b].next].(prev := NIL)] else mem;
            Unhooked(mem, b) == m[b := m[b].(prev := NIL, next := NIL)]
  {
  }

  lemma IndexBits(mem: Memory, matrix: map<Class, Addr>, flBitmap: bv32, slBitmap: seq<bv32>, lists: Lists, F: set<Addr>)
    requires Indexed(mem, matrix, flBitmap, slBitmap, lists, F)
    ensures BitsAgree(flBitmap, slBitmap, lists) && |slBitmap| == REAL_FLI
  {
    hide MappingInsert, Bit, AllClasses;
  }

  lemma FoundHead(mem: Memory, matrix: map<Class, Addr>, flBitmap: bv32, slBitmap: seq<bv32>, lists: Lists, F: set<Addr>, c: Class, d: Class)
    requires Indexed(mem, matrix, flBitmap, slBitmap, lists, F) && FirstFrom(lists, c, d)
    ensures d in matrix && d in lists && lists[d] != [] && matrix[d] == lists[d][0] && matrix[d] != NIL
  {
    hide Indexed;
    IndexShape(mem, matrix, flBitmap, slBitmap, lists, F, d);
  }

  function NoHeads(): map<Class, Addr> { map c | c in AllClasses() :: NIL }

  function NoLists(): Lists { map c | c in AllClasses() :: [] }

  function NoRows(): seq<bv32> { seq(REAL_FLI, _ => 0) }

  lemma EmptyIndexed(mem: Memory)
    ensures Indexed(mem, NoHeads(), 0, NoRows(), NoLists(), {})
  {
    hide AllClasses, Bit, MappingInsert;
    EmptyIff(0);
    forall c ensures c in AllClasses() <==> c.Valid() { ClassIn(c); }
  }
}
