/**
 The heap segment as values: chunks that tile it, which of them are in use, and the head and
 prev_foot words (the boundary tags) that record this redundantly in the chunks themselves.
 */
module HeapLayout {
  import opened ChunkSizes

  /** A head word: chunk size, whether the previous chunk is in use, whether this one is. */
  datatype Head = Head(size: nat, pinuse: bool, cinuse: bool)

  /**
   ext: the size of the chunk at each chunk address below top; used: those in use.
   base and top are 0 while the heap has no segment.
   */
  datatype Layout = Layout(ext: map<int, nat>, used: set<int>, base: int, top: int, topsize: nat)

  ghost function End(l: Layout, a: int): int
    requires a in l.ext
  {
    a + l.ext[a]
  }

  ghost predicate ChunkOk(l: Layout, a: int)
    requires a in l.ext
  {
    && 0 < l.base <= a && a % 16 == 0 && l.ext[a] >= MIN_CHUNK_SIZE && l.ext[a] % 16 == 0 && End(l, a) <= l.top
    && (End(l, a) in l.ext || End(l, a) == l.top)
  }

  ghost predicate Apart(l: Layout, a: int, b: int)
    requires a in l.ext && b in l.ext
  {
    a < b ==> End(l, a) <= b
  }

  /** A free chunk is followed by a chunk in use. */
  ghost predicate Coalesced(l: Layout, a: int)
    requires a in l.ext
  {
    a !in l.used ==> End(l, a) in l.used
  }

  /** The chunks tile the segment from base to top, and no two free ones are neighbours. */
  ghost predicate Tiled(l: Layout) {
    && l.used <= l.ext.Keys
    && (if l.top == 0 then l.ext == map[] && l.topsize == 0 && l.base == 0
        else && 0 < l.base <= l.top && l.base % 16 == 0 && l.top % 16 == 0 && l.topsize > 0 && l.topsize % 16 == 0
             && l.top + l.topsize - l.base < INDEX_LIMIT && (l.base in l.ext || l.base == l.top))
    && (forall a {:trigger ChunkOk(l, a)} :: a in l.ext ==> ChunkOk(l, a))
    && (forall a {:trigger Coalesced(l, a)} :: a in l.ext ==> Coalesced(l, a))
    && (forall a, b {:trigger Apart(l, a, b)} :: a in l.ext && b in l.ext ==> Apart(l, a, b))
  }

  /** No free chunk ends at a. */
  ghost predicate PrevUsed(l: Layout, a: int) {
    forall b {:trigger End(l, b)} :: b in l.ext && b !in l.used ==> End(l, b) != a
  }

  ghost predicate HeadOk(l: Layout, head: map<int, Head>, a: int)
    requires a in l.ext
  {
    a in head && head[a] == Head(l.ext[a], PrevUsed(l, a), a in l.used)
  }

  /** A free chunk's size is also in the prev_foot of the chunk behind it. */
  ghost predicate FootOk(l: Layout, foot: map<int, nat>, a: int)
    requires a in l.ext
  {
    a !in l.used ==> End(l, a) in foot && foot[End(l, a)] == l.ext[a]
  }

  ghost predicate Tagged(l: Layout, head: map<int, Head>, foot: map<int, nat>) {
    && (forall a {:trigger HeadOk(l, head, a)} :: a in l.ext ==> HeadOk(l, head, a))
    && (forall a {:trigger FootOk(l, foot, a)} :: a in l.ext ==> FootOk(l, foot, a))
    && (l.top != 0 ==> l.top in head && head[l.top] == Head(l.topsize, true, false))
  }

  // ---------- reading the tags ----------

  /** A clear pinuse bit leads to the free chunk in front. */
  lemma PrevChunk(l: Layout, head: map<int, Head>, foot: map<int, nat>, p: int)
    requires Tiled(l) && Tagged(l, head, foot) && p in l.ext && p in head && !head[p].pinuse
    ensures p in foot && p - foot[p] in l.ext && p - foot[p] !in l.used && End(l, p - foot[p]) == p
    ensures p in l.used
  {
    assert HeadOk(l, head, p);
    var b :| b in l.ext && b !in l.used && End(l, b) == p;
    assert FootOk(l, foot, b) && Coalesced(l, b);
  }

  lemma TopNoChunk(l: Layout)
    requires Tiled(l)
    ensures l.top !in l.ext
  {
    assert l.top in l.ext ==> ChunkOk(l, l.top);
  }

  lemma NoNullChunk(l: Layout)
    requires Tiled(l)
    ensures 0 !in l.ext
  {
    assert 0 in l.ext ==> ChunkOk(l, 0);
  }

  /** What is behind a chunk. */
  lemma NextChunk(l: Layout, head: map<int, Head>, foot: map<int, nat>, p: int)
    requires Tiled(l) && Tagged(l, head, foot) && p in l.ext
    ensures p in head && head[p] == Head(l.ext[p], PrevUsed(l, p), p in l.used)
    ensures var n := End(l, p);
            && n in head && p < n && l.top != 0
            && (n == l.top ==> !head[n].cinuse && head[n].pinuse && p in l.used && n !in l.ext)
            && (n != l.top ==> n in l.ext && head[n].size == l.ext[n] && head[n].cinuse == (n in l.used)
                               && head[n].pinuse == (p in l.used))
  {
    assert HeadOk(l, head, p) && ChunkOk(l, p) && Coalesced(l, p);
    var n := End(l, p);
    if n != l.top {
      assert HeadOk(l, head, n);
      EndUnique(l, p, n);
    }
    TopNoChunk(l);
  }

  /** Only one chunk ends at n. */
  lemma EndUnique(l: Layout, p: int, n: int)
    requires Tiled(l) && p in l.ext && End(l, p) == n
    ensures forall b :: b in l.ext && End(l, b) == n ==> b == p
    ensures PrevUsed(l, n) <==> p in l.used
  {
    forall b | b in l.ext && End(l, b) == n
      ensures b == p
    {
      assert Apart(l, b, p) && Apart(l, p, b) && ChunkOk(l, b) && ChunkOk(l, p);
    }
  }

  // ---------- the four changes of layout ----------

  /** A free chunk is put in use as a whole. */
  ghost function Taken(l: Layout, v: int): Layout {
    l.(used := l.used + {v})
  }

  /** The first n bytes of a free chunk are put in use. */
  ghost function TakenSplit(l: Layout, v: int, n: nat): Layout
    requires v in l.ext && n <= l.ext[v]
  {
    l.(ext := l.ext[v := n][v + n := l.ext[v] - n], used := l.used + {v})
  }

  /** The first n bytes of top are put in use. */
  ghost function TakenTop(l: Layout, n: nat): Layout
    requires n <= l.topsize
  {
    l.(ext := l.ext[l.top := n], used := l.used + {l.top}, top := l.top + n, topsize := l.topsize - n)
  }

  /** All chunks from a up to e become one free chunk. */
  ghost function Merged(l: Layout, a: int, e: int): Layout
    requires a <= e
  {
    l.(ext := (map b | b in l.ext && !(a <= b < e) :: l.ext[b])[a := e - a],
      used := (set b | b in l.used && !(a <= b < e)))
  }

  /** All chunks from a on become part of top. */
  ghost function MergedTop(l: Layout, a: int): Layout
    requires a <= l.top
  {
    l.(ext := (map b | b in l.ext && b < a :: l.ext[b]), used := (set b | b in l.used && b < a),
       top := a, topsize := l.topsize + (l.top - a))
  }

  ghost function TakenHeads(l: Layout, head: map<int, Head>, v: int): map<int, Head>
    requires v in l.ext && End(l, v) in head
  {
    head[v := Head(l.ext[v], true, true)][End(l, v) := head[End(l, v)].(pinuse := true)]
  }

  lemma TakenOk(l: Layout, head: map<int, Head>, foot: map<int, nat>, v: int)
    requires Tiled(l) && Tagged(l, head, foot) && v in l.ext && v !in l.used
    ensures End(l, v) in head && End(l, v) in l.used && End(l, v) in l.ext && End(l, v) != v
    ensures Tiled(Taken(l, v)) && Tagged(Taken(l, v), TakenHeads(l, head, v), foot)
  {
    var l' := Taken(l, v);
    var n := End(l, v);
    NextChunk(l, head, foot, v);
    assert Coalesced(l, v);
    var head' := TakenHeads(l, head, v);
    SameTiles(l, l');
    forall a | a in l'.ext
      ensures HeadOk(l', head', a) && FootOk(l', foot, a)
    {
      TakenTags(l, head, foot, v, a);
    }
    TopNoChunk(l);
  }

  /** Tiling depends only on extents; putting chunks in use keeps free chunks apart. */
  lemma SameTiles(l: Layout, l': Layout)
    requires Tiled(l) && l' == l.(used := l'.used) && l.used <= l'.used <= l.ext.Keys
    ensures Tiled(l')
  {
    forall a | a in l'.ext
      ensures ChunkOk(l', a) && Coalesced(l', a)
    {
      assert ChunkOk(l, a) && Coalesced(l, a);
    }
    forall a, b | a in l'.ext && b in l'.ext
      ensures Apart(l', a, b)
    {
      assert Apart(l, a, b);
    }
  }

  lemma TakenTags(l: Layout, head: map<int, Head>, foot: map<int, nat>, v: int, a: int)
    requires Tiled(l) && Tagged(l, head, foot) && v in l.ext && v !in l.used && a in l.ext && End(l, v) in head
    ensures HeadOk(Taken(l, v), TakenHeads(l, head, v), a) && FootOk(Taken(l, v), foot, a)
  {
    var l' := Taken(l, v);
    assert HeadOk(l, head, a) && FootOk(l, foot, a) && ChunkOk(l, v);
    EndUnique(l, v, End(l, v));
    FreePrevUsed(l, v);
    assert forall b :: b in l.ext ==> End(l', b) == End(l, b);
    if a == End(l, v) {
      assert PrevUsed(l', a);
    } else {
      assert PrevUsed(l', a) <==> PrevUsed(l, a);
    }
  }

  /** No free chunk is in front of a free chunk. */
  lemma FreePrevUsed(l: Layout, v: int)
    requires Tiled(l) && v in l.ext && v !in l.used
    ensures PrevUsed(l, v)
  {
    forall b | b in l.ext && b !in l.used
      ensures End(l, b) != v
    {
      assert Coalesced(l, b);
    }
  }

  /** Inside a chunk there is no other chunk. */
  lemma Inside(l: Layout, v: int, x: int)
    requires Tiled(l) && v in l.ext && v < x < End(l, v)
    ensures x !in l.ext && x != l.top
  {
    assert ChunkOk(l, v);
    assert x in l.ext ==> Apart(l, v, x);
  }

  lemma TakenSplitTiled(l: Layout, v: int, n: nat)
    requires Tiled(l) && v in l.ext && v !in l.used
    requires MIN_CHUNK_SIZE <= n && n % 16 == 0 && n + MIN_CHUNK_SIZE <= l.ext[v]
    ensures Tiled(TakenSplit(l, v, n))
  {
    hide ChunkOk, Apart, Coalesced;
    var l' := TakenSplit(l, v, n);
    forall a | a in l'.ext
      ensures ChunkOk(l', a) && Coalesced(l', a)
    {
      TakenSplitChunk(l, v, n, a);
    }
    forall a, b | a in l'.ext && b in l'.ext
      ensures Apart(l', a, b)
    {
      TakenSplitApart(l, v, n, a, b);
    }
  }

  lemma TakenSplitChunk(l: Layout, v: int, n: nat, a: int)
    requires Tiled(l) && v in l.ext && v !in l.used
    requires MIN_CHUNK_SIZE <= n && n % 16 == 0 && n + MIN_CHUNK_SIZE <= l.ext[v] && a in TakenSplit(l, v, n).ext
    ensures ChunkOk(TakenSplit(l, v, n), a) && Coalesced(TakenSplit(l, v, n), a)
  {
    Inside(l, v, v + n);
    assert ChunkOk(l, v) && Coalesced(l, v);
    Multiples(v, n);
    Multiples(l.ext[v], n);
    if a != v + n { assert ChunkOk(l, a) && Coalesced(l, a); }
  }

  lemma TakenSplitApart(l: Layout, v: int, n: nat, a: int, b: int)
    requires Tiled(l) && v in l.ext && n < l.ext[v] && a in TakenSplit(l, v, n).ext && b in TakenSplit(l, v, n).ext
    ensures Apart(TakenSplit(l, v, n), a, b)
  {
    var a0, b0 := if a == v + n then v else a, if b == v + n then v else b;
    assert Apart(l, a0, b0) && Apart(l, b0, a0) && ChunkOk(l, a0) && ChunkOk(l, b0);
  }

  lemma TakenSplitTags(l: Layout, head: map<int, Head>, foot: map<int, nat>, v: int, n: nat, a: int)
    requires Tiled(l) && Tagged(l, head, foot) && v in l.ext && v !in l.used
    requires MIN_CHUNK_SIZE <= n && n % 16 == 0 && n + MIN_CHUNK_SIZE <= l.ext[v]
    requires a in TakenSplit(l, v, n).ext
    ensures var l', r, s := TakenSplit(l, v, n), v + n, l.ext[v] - n;
            HeadOk(l', head[v := Head(n, true, true)][r := Head(s, true, false)], a)
              && FootOk(l', foot[End(l, v) := s], a)
  {
    var l', r, s := TakenSplit(l, v, n), v + n, l.ext[v] - n;
    Inside(l, v, r);
    FreePrevUsed(l, v);
    EndUnique(l, v, End(l, v));
    assert End(l', r) == End(l, v) && End(l', v) == r;
    assert forall b :: b in l.ext && b != v ==> End(l', b) == End(l, b);
    NoEndInside(l, v, r);
    if a != r {
      assert HeadOk(l, head, a) && FootOk(l, foot, a);
      assert PrevUsed(l', a) <==> PrevUsed(l, a);
    } else {
      assert PrevUsed(l', r);
    }
  }

  lemma NoEndInside(l: Layout, v: int, x: int)
    requires Tiled(l) && v in l.ext && v < x < End(l, v)
    ensures forall b :: b in l.ext ==> End(l, b) != x
  {
    Inside(l, v, x);
    forall b | b in l.ext
      ensures End(l, b) != x
    {
      assert ChunkOk(l, b);
    }
  }

  lemma TakenSplitOk(l: Layout, head: map<int, Head>, foot: map<int, nat>, v: int, n: nat)
    requires Tiled(l) && Tagged(l, head, foot) && v in l.ext && v !in l.used
    requires MIN_CHUNK_SIZE <= n && n % 16 == 0 && n + MIN_CHUNK_SIZE <= l.ext[v]
    ensures v + n !in l.ext
    ensures var l', r, s := TakenSplit(l, v, n), v + n, l.ext[v] - n;
            Tiled(l') && Tagged(l', head[v := Head(n, true, true)][r := Head(s, true, false)], foot[End(l, v) := s])
  {
    hide HeadOk, FootOk;
    var l', r, s := TakenSplit(l, v, n), v + n, l.ext[v] - n;
    Inside(l, v, r);
    TopNoChunk(l);
    TakenSplitTiled(l, v, n);
    forall a | a in l'.ext
      ensures HeadOk(l', head[v := Head(n, true, true)][r := Head(s, true, false)], a)
        && FootOk(l', foot[End(l, v) := s], a)
    {
      TakenSplitTags(l, head, foot, v, n, a);
    }
  }

  /** A chunk in use becomes two chunks in use, the first of n bytes. */
  ghost function UsedSplit(l: Layout, v: int, n: nat): Layout
    requires v in l.ext && n <= l.ext[v]
  {
    l.(ext := l.ext[v := n][v + n := l.ext[v] - n], used := l.used + {v + n})
  }

  lemma UsedSplitChunk(l: Layout, v: int, n: nat, a: int)
    requires Tiled(l) && v in l.ext && v in l.used
    requires MIN_CHUNK_SIZE <= n && n % 16 == 0 && n + MIN_CHUNK_SIZE <= l.ext[v] && a in UsedSplit(l, v, n).ext
    ensures ChunkOk(UsedSplit(l, v, n), a) && Coalesced(UsedSplit(l, v, n), a)
  {
    Inside(l, v, v + n);
    assert ChunkOk(l, v) && Coalesced(l, v);
    if a != v + n { assert ChunkOk(l, a) && Coalesced(l, a); }
  }

  lemma UsedSplitTags(l: Layout, head: map<int, Head>, foot: map<int, nat>, v: int, n: nat, a: int)
    requires Tiled(l) && Tagged(l, head, foot) && v in l.ext && v in l.used && v in head
    requires MIN_CHUNK_SIZE <= n && n % 16 == 0 && n + MIN_CHUNK_SIZE <= l.ext[v]
    requires a in UsedSplit(l, v, n).ext
    ensures var l', r, s := UsedSplit(l, v, n), v + n, l.ext[v] - n;
            HeadOk(l', head[v := Head(n, head[v].pinuse, true)][r := Head(s, true, true)], a) && FootOk(l', foot, a)
  {
    var l', r, s := UsedSplit(l, v, n), v + n, l.ext[v] - n;
    Inside(l, v, r);
    EndUnique(l, v, End(l, v));
    assert End(l', r) == End(l, v) && End(l', v) == r;
    assert forall b :: b in l.ext && b != v ==> End(l', b) == End(l, b);
    NoEndInside(l, v, r);
    assert HeadOk(l, head, v);
    if a != r {
      assert HeadOk(l, head, a) && FootOk(l, foot, a);
      assert PrevUsed(l', a) <==> PrevUsed(l, a);
    } else {
      assert PrevUsed(l', r);
    }
  }

  lemma UsedSplitOk(l: Layout, head: map<int, Head>, foot: map<int, nat>, v: int, n: nat)
    requires Tiled(l) && Tagged(l, head, foot) && v in l.ext && v in l.used
    requires MIN_CHUNK_SIZE <= n && n % 16 == 0 && n + MIN_CHUNK_SIZE <= l.ext[v]
    ensures v + n !in l.ext && v in head
    ensures var l', r, s := UsedSplit(l, v, n), v + n, l.ext[v] - n;
            Tiled(l') && Tagged(l', head[v := Head(n, head[v].pinuse, true)][r := Head(s, true, true)], foot)
  {
    hide ChunkOk, Coalesced, Apart, HeadOk, FootOk;
    var l', r, s := UsedSplit(l, v, n), v + n, l.ext[v] - n;
    NextChunk(l, head, foot, v);
    Inside(l, v, r);
    TopNoChunk(l);
    forall a | a in l'.ext
      ensures ChunkOk(l', a) && Coalesced(l', a)
      ensures HeadOk(l', head[v := Head(n, head[v].pinuse, true)][r := Head(s, true, true)], a) && FootOk(l', foot, a)
    {
      UsedSplitChunk(l, v, n, a);
      UsedSplitTags(l, head, foot, v, n, a);
    }
    forall a, b | a in l'.ext && b in l'.ext
      ensures Apart(l', a, b)
    {
      TakenSplitApart(l, v, n, a, b);
      assert Apart(TakenSplit(l, v, n), a, b) ==> Apart(l', a, b) by { SameApart(l, v, n, a, b); }
    }
  }

  lemma SameApart(l: Layout, v: int, n: nat, a: int, b: int)
    requires v in l.ext && n <= l.ext[v] && a in UsedSplit(l, v, n).ext && b in UsedSplit(l, v, n).ext
    ensures Apart(TakenSplit(l, v, n), a, b) <==> Apart(UsedSplit(l, v, n), a, b)
  {
  }

  lemma TopPrevUsed(l: Layout)
    requires Tiled(l)
    ensures PrevUsed(l, l.top)
  {
    TopNoChunk(l);
    forall b | b in l.ext && b !in l.used
      ensures End(l, b) != l.top
    {
      assert Coalesced(l, b);
    }
  }

  lemma TakenTopOk(l: Layout, head: map<int, Head>, foot: map<int, nat>, n: nat)
    requires Tiled(l) && Tagged(l, head, foot) && l.top != 0
    requires MIN_CHUNK_SIZE <= n && n % 16 == 0 && n < l.topsize
    ensures l.top !in l.ext
    ensures var l' := TakenTop(l, n);
            Tiled(l') && Tagged(l', head[l.top + n := Head(l.topsize - n, true, false)][l.top := Head(n, true, true)],
              foot)
  {
    hide ChunkOk, Apart, Coalesced, HeadOk, FootOk;
    var l' := TakenTop(l, n);
    TopNoChunk(l);
    forall a | a in l'.ext
      ensures ChunkOk(l', a) && Coalesced(l', a)
    {
      TakenTopChunk(l, n, a);
    }
    forall a, b | a in l'.ext && b in l'.ext
      ensures Apart(l', a, b)
    {
      TakenTopApart(l, n, a, b);
    }
    TopRoom(l, n);
    forall a | a in l'.ext
      ensures HeadOk(l', head[l.top + n := Head(l.topsize - n, true, false)][l.top := Head(n, true, true)], a)
      ensures FootOk(l', foot, a)
    {
      TakenTopTags(l, head, foot, n, a);
    }
  }

  lemma TopRoom(l: Layout, n: nat)
    requires Tiled(l) && l.top != 0 && n % 16 == 0 && n < l.topsize
    ensures (l.top + n) % 16 == 0 && (l.topsize - n) % 16 == 0
  {
    hide Coalesced, Apart, ChunkOk;
    Multiples(l.top, n);
    Multiples(l.topsize, n);
  }

  lemma Multiples(x: int, y: int)
    requires x % 16 == 0 && y % 16 == 0
    ensures (x + y) % 16 == 0 && (x - y) % 16 == 0
  {
  }

  lemma TakenTopChunk(l: Layout, n: nat, a: int)
    requires Tiled(l) && l.top != 0 && MIN_CHUNK_SIZE <= n && n % 16 == 0 && n < l.topsize && a in TakenTop(l, n).ext
    ensures ChunkOk(TakenTop(l, n), a) && Coalesced(TakenTop(l, n), a)
  {
    if a != l.top { assert ChunkOk(l, a) && Coalesced(l, a); }
  }

  lemma TakenTopApart(l: Layout, n: nat, a: int, b: int)
    requires Tiled(l) && l.top != 0 && n <= l.topsize && a in TakenTop(l, n).ext && b in TakenTop(l, n).ext
    ensures Apart(TakenTop(l, n), a, b)
  {
    TopNoChunk(l);
    if a != l.top { assert ChunkOk(l, a); }
    if b != l.top { assert ChunkOk(l, b); }
    if a != l.top && b != l.top { assert Apart(l, a, b); }
  }

  lemma TakenTopTags(l: Layout, head: map<int, Head>, foot: map<int, nat>, n: nat, a: int)
    requires Tiled(l) && Tagged(l, head, foot) && l.top != 0 && MIN_CHUNK_SIZE <= n && n < l.topsize
    requires a in TakenTop(l, n).ext
    ensures HeadOk(TakenTop(l, n), head[l.top + n := Head(l.topsize - n, true, false)][l.top := Head(n, true, true)], a)
    ensures FootOk(TakenTop(l, n), foot, a)
  {
    var l' := TakenTop(l, n);
    TopNoChunk(l);
    TopPrevUsed(l);
    assert forall b :: b in l.ext ==> End(l', b) == End(l, b);
    if a != l.top { assert ChunkOk(l, a) && HeadOk(l, head, a) && FootOk(l, foot, a); }
    assert PrevUsed(l', a) <==> PrevUsed(l, a);
  }

  /** a and e bound a run of chunks that can become one free chunk. */
  ghost predicate Mergeable(l: Layout, a: int, e: int) {
    a in l.ext && a < e && e in l.used && PrevUsed(l, a)
  }

  lemma MergedTiled(l: Layout, a: int, e: int)
    requires Tiled(l) && Mergeable(l, a, e)
    ensures Tiled(Merged(l, a, e))
  {
    var l' := Merged(l, a, e);
    assert ChunkOk(l, a) && ChunkOk(l, e);
    forall b | b in l'.ext
      ensures ChunkOk(l', b) && Coalesced(l', b)
    {
      MergedChunk(l, a, e, b);
    }
    forall b, c | b in l'.ext && c in l'.ext
      ensures Apart(l', b, c)
    {
      assert Apart(l, b, c);
    }
  }

  lemma MergedChunk(l: Layout, a: int, e: int, b: int)
    requires Tiled(l) && Mergeable(l, a, e) && b in Merged(l, a, e).ext
    ensures ChunkOk(Merged(l, a, e), b) && Coalesced(Merged(l, a, e), b)
  {
    assert ChunkOk(l, a) && ChunkOk(l, e) && Apart(l, a, e);
    Multiples(e, a);
    if b != a { assert ChunkOk(l, b) && Coalesced(l, b) && Apart(l, b, a); }
  }

  lemma MergedTags(l: Layout, head: map<int, Head>, foot: map<int, nat>, a: int, e: int, b: int)
    requires Tiled(l) && Tagged(l, head, foot) && Mergeable(l, a, e) && e in head && b in Merged(l, a, e).ext
    ensures var l' := Merged(l, a, e);
            && HeadOk(l', head[a := Head(e - a, true, false)][e := head[e].(pinuse := false)], b)
            && FootOk(l', foot[e := e - a], b)
  {
    var l' := Merged(l, a, e);
    assert End(l', a) == e;
    assert forall c :: c in l'.ext && c != a ==> End(l', c) == End(l, c);
    OutsideEnds(l, a, e);
    if b != a {
      assert HeadOk(l, head, b) && FootOk(l, foot, b);
    }
    if b == e {
      assert !PrevUsed(l', e);
    } else {
      assert PrevUsed(l', b) <==> PrevUsed(l, b);
    }
  }

  /** Chunks inside the run end inside it or at its end; those outside end outside it. */
  lemma OutsideEnds(l: Layout, a: int, e: int)
    requires Tiled(l) && a in l.ext && e in l.ext && a < e
    ensures forall b :: b in l.ext && a <= b < e ==> a < End(l, b) <= e
    ensures forall b :: b in l.ext && !(a <= b < e) ==> End(l, b) <= a || e < End(l, b)
  {
    forall b | b in l.ext
      ensures a <= b < e ==> a < End(l, b) <= e
      ensures !(a <= b < e) ==> End(l, b) <= a || e < End(l, b)
    {
      assert ChunkOk(l, b) && Apart(l, b, e) && Apart(l, b, a);
    }
  }

  lemma MergedOk(l: Layout, head: map<int, Head>, foot: map<int, nat>, a: int, e: int)
    requires Tiled(l) && Tagged(l, head, foot) && Mergeable(l, a, e)
    ensures e in head
    ensures Tiled(Merged(l, a, e))
    ensures Tagged(Merged(l, a, e), head[a := Head(e - a, true, false)][e := head[e].(pinuse := false)],
      foot[e := e - a])
  {
    hide HeadOk, FootOk;
    NextChunk(l, head, foot, e);
    MergedTiled(l, a, e);
    TopNoChunk(l);
    var l' := Merged(l, a, e);
    forall b | b in l'.ext
      ensures HeadOk(l', head[a := Head(e - a, true, false)][e := head[e].(pinuse := false)], b)
      ensures FootOk(l', foot[e := e - a], b)
    {
      MergedTags(l, head, foot, a, e, b);
    }
  }

  lemma MergedTopOk(l: Layout, head: map<int, Head>, foot: map<int, nat>, a: int)
    requires Tiled(l) && Tagged(l, head, foot) && a in l.ext && PrevUsed(l, a)
    ensures a < l.top
    ensures var l' := MergedTop(l, a);
            Tiled(l') && Tagged(l', head[a := Head(l'.topsize, true, false)], foot)
  {
    hide ChunkOk, Apart, Coalesced, HeadOk, FootOk;
    MergedTopRoom(l, a);
    var l' := MergedTop(l, a);
    forall b | b in l'.ext
      ensures ChunkOk(l', b) && Coalesced(l', b) && HeadOk(l', head[a := Head(l'.topsize, true, false)], b)
        && FootOk(l', foot, b)
    {
      MergedTopChunk(l, a, b);
      MergedTopTags(l, head, foot, a, b);
    }
    forall b, c | b in l'.ext && c in l'.ext
      ensures Apart(l', b, c)
    {
      MergedTopApart(l, a, b, c);
    }
  }

  lemma MergedTopRoom(l: Layout, a: int)
    requires Tiled(l) && a in l.ext
    ensures l.base <= a < l.top && 0 < l.base && a % 16 == 0 && (l.topsize + (l.top - a)) % 16 == 0
    ensures l.base in l.ext && (l.base < a || l.base == a)
  {
    assert ChunkOk(l, a);
  }

  lemma MergedTopChunk(l: Layout, a: int, b: int)
    requires Tiled(l) && a in l.ext && a <= l.top && PrevUsed(l, a) && b in MergedTop(l, a).ext
    ensures ChunkOk(MergedTop(l, a), b) && Coalesced(MergedTop(l, a), b)
  {
    assert End(MergedTop(l, a), b) == End(l, b);
    assert ChunkOk(l, b) && Coalesced(l, b) && Apart(l, b, a);
  }

  lemma MergedTopApart(l: Layout, a: int, b: int, c: int)
    requires Tiled(l) && a in l.ext && a <= l.top && b in MergedTop(l, a).ext && c in MergedTop(l, a).ext
    ensures Apart(MergedTop(l, a), b, c)
  {
    assert Apart(l, b, c);
  }

  lemma MergedTopTags(l: Layout, head: map<int, Head>, foot: map<int, nat>, a: int, b: int)
    requires Tiled(l) && Tagged(l, head, foot) && a in l.ext && a <= l.top && PrevUsed(l, a) && b in MergedTop(l, a).ext
    ensures HeadOk(MergedTop(l, a), head[a := Head(l.topsize + (l.top - a), true, false)], b)
    ensures FootOk(MergedTop(l, a), foot, b)
  {
    assert HeadOk(l, head, b) && FootOk(l, foot, b);
    assert End(MergedTop(l, a), b) == End(l, b);
    MergedTopPrev(l, a, b);
  }

  lemma MergedTopPrev(l: Layout, a: int, b: int)
    requires Tiled(l) && a in l.ext && a <= l.top && b in l.ext && b < a
    ensures PrevUsed(MergedTop(l, a), b) <==> PrevUsed(l, b)
  {
    var l' := MergedTop(l, a);
    assert forall c :: c in l'.ext ==> End(l', c) == End(l, c);
    forall c | c in l.ext && c !in l'.ext
      ensures End(l, c) != b
    {
      assert ChunkOk(l, c);
    }
  }

  // ---------- tiling, seen from the bytes ----------

  /** Every byte below top is in a chunk. */
  lemma {:induction false} CoveredFrom(l: Layout, x: int, a: int) returns (c: int)
    requires Tiled(l) && a in l.ext && a <= x < l.top
    ensures c in l.ext && c <= x < End(l, c)
    decreases x - a
  {
    assert ChunkOk(l, a);
    if x < End(l, a) {
      c := a;
    } else {
      c := CoveredFrom(l, x, End(l, a));
    }
  }

  /** Every byte of the segment below top is in exactly one chunk. */
  lemma EachByteOnce(l: Layout, x: int)
    requires Tiled(l)
    ensures l.top != 0 && l.base <= x < l.top <==> exists c :: c in l.ext && c <= x < End(l, c)
    ensures forall c, d :: c in l.ext && d in l.ext && c <= x < End(l, c) && d <= x < End(l, d) ==> c == d
  {
    if l.top != 0 && l.base <= x < l.top {
      var c := CoveredFrom(l, x, l.base);
    }
    forall c | c in l.ext && c <= x < End(l, c)
      ensures l.top != 0 && l.base <= x < l.top
    {
      assert ChunkOk(l, c);
    }
    forall c, d | c in l.ext && d in l.ext && c <= x < End(l, c) && d <= x < End(l, d)
      ensures c == d
    {
      assert Apart(l, c, d) && Apart(l, d, c);
    }
  }

  // ---------- where the free chunks are recorded ----------

  /**
   Each free chunk, except those in loose, is in exactly one place: a small bin, a large bin, or the designated
   victim.
   */
  ghost predicate Indexed(l: Layout, small: map<int, nat>, large: map<int, nat>, dv: int, dvsize: nat,
                          loose: set<int>) {
    && (dv == 0 <==> dvsize == 0)
    && (dv != 0 ==> dv in l.ext && l.ext[dv] == dvsize && dv !in small && dv !in large && dv !in loose)
    && (forall a :: a in small ==> a in l.ext && l.ext[a] == small[a] && small[a] < 256 && a !in loose)
    && (forall a :: a in large ==> a in l.ext && l.ext[a] == large[a] && large[a] >= 256 && a !in loose)
    && (forall a :: a in l.ext ==> (a !in l.used <==> a == dv || a in small || a in large || a in loose))
    && loose <= l.ext.Keys
  }

  lemma TakenIndexed(l: Layout, small: map<int, nat>, large: map<int, nat>, dv: int, dvsize: nat, v: int)
    requires Tiled(l) && Indexed(l, small, large, dv, dvsize, {v})
    ensures Indexed(Taken(l, v), small, large, dv, dvsize, {})
  {
    assert v in {v} && ChunkOk(l, v);
  }

  lemma TakenSplitIndexed(l: Layout, small: map<int, nat>, large: map<int, nat>, dv: int, dvsize: nat, v: int, n: nat)
    requires Tiled(l) && Indexed(l, small, large, dv, dvsize, {v}) && n < l.ext[v] && 0 < n && v + n !in l.ext
    ensures Indexed(TakenSplit(l, v, n), small, large, dv, dvsize, {v + n})
  {
    assert v in {v} && ChunkOk(l, v);
  }

  lemma UsedSplitIndexed(l: Layout, small: map<int, nat>, large: map<int, nat>, dv: int, dvsize: nat, v: int, n: nat)
    requires Tiled(l) && Indexed(l, small, large, dv, dvsize, {}) && v in l.ext && v in l.used && n <= l.ext[v]
      && v + n !in l.ext && v + n != 0
    ensures Indexed(UsedSplit(l, v, n), small, large, dv, dvsize, {})
  {
  }

  lemma TakenTopIndexed(l: Layout, small: map<int, nat>, large: map<int, nat>, dv: int, dvsize: nat, n: nat)
    requires Tiled(l) && Indexed(l, small, large, dv, dvsize, {}) && n <= l.topsize && l.top !in l.ext && l.top != 0
    ensures Indexed(TakenTop(l, n), small, large, dv, dvsize, {})
  {
  }

  /** The merged chunk is not recorded yet; the chunks it swallowed must not be recorded any more. */
  lemma MergedIndexed(l: Layout, small: map<int, nat>, large: map<int, nat>, dv: int, dvsize: nat, loose: set<int>,
                      a: int, e: int)
    requires Tiled(l) && Indexed(l, small, large, dv, dvsize, loose) && a in l.ext && a < e
    requires forall b :: b in l.ext && a <= b < e ==> b in l.used || b in loose
    requires forall b :: b in loose ==> a <= b < e
    ensures Indexed(Merged(l, a, e), small, large, dv, dvsize, {a})
  {
  }

  lemma MergedTopIndexed(l: Layout, small: map<int, nat>, large: map<int, nat>, dv: int, dvsize: nat, loose: set<int>,
                         a: int)
    requires Tiled(l) && Indexed(l, small, large, dv, dvsize, loose) && a in l.ext && a <= l.top
    requires forall b :: b in l.ext && a <= b ==> b in l.used || b in loose
    requires forall b :: b in loose ==> a <= b
    ensures Indexed(MergedTop(l, a), small, large, dv, dvsize, {})
  {
  }

  /** A victim that is about to be swallowed counts as not recorded. */
  lemma DropDv(l: Layout, small: map<int, nat>, large: map<int, nat>, dv: int, dvsize: nat, loose: set<int>)
    requires Tiled(l) && Indexed(l, small, large, dv, dvsize, loose) && dv != 0
    ensures dv in l.ext && l.ext[dv] == dvsize && dv !in l.used && dv !in loose
    ensures Indexed(l, small, large, 0, 0, loose + {dv})
  {
    NoNullChunk(l);
  }

  lemma AdoptDv(l: Layout, small: map<int, nat>, large: map<int, nat>, a: int)
    requires Tiled(l) && Indexed(l, small, large, 0, 0, {a}) && a in l.ext
    ensures Indexed(l, small, large, a, l.ext[a], {})
  {
    assert a in {a} && ChunkOk(l, a);
    NoNullChunk(l);
  }

  // ---------- the run of chunks that becomes free with q ----------

  /** q is in use; the run starts with q, or with the free chunk in front of it. */
  ghost predicate RunStart(l: Layout, q: int, a: int) {
    && q in l.used && q in l.ext && a in l.ext
    && (if a == q then PrevUsed(l, q) else a !in l.used && End(l, a) == q)
  }

  /** The run ends with q, or with the free chunk behind it. */
  ghost predicate RunEnd(l: Layout, q: int, e: int) {
    && q in l.ext
    && (if End(l, q) in l.used then e == End(l, q) else End(l, q) in l.ext && e == End(l, End(l, q)))
  }

  lemma RunPrev(l: Layout, q: int, a: int)
    requires Tiled(l) && RunStart(l, q, a)
    ensures 0 < a <= q && PrevUsed(l, a)
    ensures forall b :: b in l.ext && a <= b < End(l, q) ==> b == a || b == q
  {
    assert ChunkOk(l, a);
    if a != q { FreePrevUsed(l, a); }
    forall b | b in l.ext && a <= b < End(l, q)
      ensures b == a || b == q
    {
      assert Apart(l, a, b) && Apart(l, q, b);
    }
  }

  /** Only the run's own chunks are merged, and q is the only one of them in use. */
  lemma RunBounds(l: Layout, head: map<int, Head>, foot: map<int, nat>, q: int, a: int, e: int)
    requires Tiled(l) && Tagged(l, head, foot) && RunStart(l, q, a) && RunEnd(l, q, e)
    ensures Mergeable(l, a, e) && 0 < a <= q < End(l, q) <= e
    ensures End(l, q) != e ==> End(l, q) !in l.used && e in head && !head[e].pinuse
    ensures forall b :: b in l.ext && a <= b < e ==> b == a || b == q || b == End(l, q)
    ensures var l' := Merged(l, a, e);
      l'.used == l.used - {q} && forall b :: b in l'.used ==> b in l'.ext && b in l.ext && l'.ext[b] == l.ext[b]
    ensures var l' := Merged(l, a, e); l' == l.(ext := l'.ext, used := l'.used) && a in l'.ext && l'.ext[a] == e - a
  {
    RunPrev(l, q, a);
    var n := End(l, q);
    assert ChunkOk(l, q);
    if n !in l.used {
      NextChunk(l, head, foot, n);
      assert ChunkOk(l, n) && Coalesced(l, n);
    }
    forall b | b in l.ext && a <= b < e
      ensures b == a || b == q || b == n
    {
      assert n in l.ext ==> Apart(l, n, b);
    }
  }

  lemma RunToTop(l: Layout, q: int, a: int)
    requires Tiled(l) && RunStart(l, q, a) && End(l, q) == l.top
    ensures 0 < a < l.top && a in l.ext && q in l.used && PrevUsed(l, a)
    ensures forall b :: b in l.ext && a <= b ==> b == a || b == q
    ensures var l' := MergedTop(l, a);
      l'.used == l.used - {q} && forall b :: b in l'.used ==> b in l'.ext && b in l.ext && l'.ext[b] == l.ext[b]
    ensures var l' := MergedTop(l, a); l' == Layout(l'.ext, l'.used, l.base, a, l.topsize + (l.top - a))
  {
    RunPrev(l, q, a);
    assert ChunkOk(l, q);
    forall b | b in l.ext && a <= b
      ensures b == a || b == q
    {
      assert ChunkOk(l, b);
    }
  }

  /** The free chunk in front of q that still has to be recorded: none when it is q itself or the victim. */
  ghost function Unrecorded(q: int, a: int, dv: int): set<int> {
    if a == q || a == dv then {} else {a}
  }

  /** When the run has become one chunk, it is either the victim, grown, or still to be recorded. */
  lemma RunIndexed(l: Layout, head: map<int, Head>, foot: map<int, nat>, small: map<int, nat>, large: map<int, nat>,
                   dv: int, dvsize: nat, loose: set<int>, q: int, a: int, e: int)
    requires Tiled(l) && Tagged(l, head, foot) && Indexed(l, small, large, dv, dvsize, loose)
    requires RunStart(l, q, a) && RunEnd(l, q, e) && dv != End(l, q)
    requires loose == if End(l, q) == e then Unrecorded(q, a, dv) else Unrecorded(q, a, dv) + {End(l, q)}
    ensures a <= e && if a == dv then Indexed(Merged(l, a, e), small, large, a, e - a, {})
            else Indexed(Merged(l, a, e), small, large, dv, dvsize, {a})
  {
    hide Tagged, Indexed, Merged;
    RunBounds(l, head, foot, q, a, e);
    if a == dv {
      DropDv(l, small, large, dv, dvsize, loose);
      MergedIndexed(l, small, large, 0, 0, loose + {dv}, a, e);
      MergedTiled(l, a, e);
      AdoptDv(Merged(l, a, e), small, large, a);
    } else {
      MergedIndexed(l, small, large, dv, dvsize, loose, a, e);
    }
  }

  lemma DvFree(l: Layout, small: map<int, nat>, large: map<int, nat>, dv: int, dvsize: nat, loose: set<int>)
    requires Tiled(l) && Indexed(l, small, large, dv, dvsize, loose)
    ensures dv !in l.used && dv !in loose && 0 !in l.used
  {
    NoNullChunk(l);
    assert loose <= l.ext.Keys;
  }

  lemma RunTopIndexed(l: Layout, small: map<int, nat>, large: map<int, nat>, dv: int, dvsize: nat, q: int, a: int)
    requires Tiled(l) && Indexed(l, small, large, dv, dvsize, Unrecorded(q, a, dv)) && RunStart(l, q, a)
      && End(l, q) == l.top
    ensures a <= l.top
    ensures Indexed(MergedTop(l, a), small, large, if a == dv then 0 else dv, if a == dv then 0 else dvsize, {})
  {
    hide Indexed, MergedTop;
    RunToTop(l, q, a);
    if a == dv {
      DropDv(l, small, large, dv, dvsize, Unrecorded(q, a, dv));
      MergedTopIndexed(l, small, large, 0, 0, Unrecorded(q, a, dv) + {dv}, a);
    } else {
      MergedTopIndexed(l, small, large, dv, dvsize, Unrecorded(q, a, dv), a);
    }
  }

  // ---------- the layout is determined by what is in use ----------

  ghost predicate Boundary(l: Layout, x: int) { x == l.top || x in l.ext }

  /** Two layouts of one segment with the same chunks in use. */
  ghost predicate SameUse(l: Layout, m: Layout) {
    && l.base == m.base && l.top + l.topsize == m.top + m.topsize && l.top != 0 && m.top != 0
    && l.used == m.used && forall a :: a in l.used && a in l.ext && a in m.ext ==> l.ext[a] == m.ext[a]
  }

  /** A free stretch ends at the same chunk in both, or is top in both. */
  lemma SameStep(l: Layout, m: Layout, x: int)
    requires Tiled(l) && Tiled(m) && SameUse(l, m) && x in l.ext && Boundary(m, x)
    ensures x in m.ext && l.ext[x] == m.ext[x]
  {
    assert ChunkOk(l, x) && Coalesced(l, x);
    if x !in l.used {
      var y := End(l, x);
      assert ChunkOk(m, y);
      assert Coalesced(m, x) && ChunkOk(m, x);
      assert Apart(m, x, y);
      var z := End(m, x);
      assert ChunkOk(l, z) && Apart(l, x, z);
    }
  }

  lemma {:induction false} SameFrom(l: Layout, m: Layout, x: int)
    requires Tiled(l) && Tiled(m) && SameUse(l, m) && Boundary(l, x) && Boundary(m, x)
    ensures l.top == m.top && forall a :: a >= x ==>
      (a in l.ext <==> a in m.ext) && (a in l.ext ==> l.ext[a] == m.ext[a])
    decreases l.top - x
  {
    if x in l.ext {
      SameStep(l, m, x);
      assert ChunkOk(l, x) && ChunkOk(m, x);
      var y := End(l, x);
      SameFrom(l, m, y);
      forall a | x < a < y
        ensures a !in l.ext && a !in m.ext
      {
        assert a in l.ext ==> Apart(l, x, a);
        assert a in m.ext ==> Apart(m, x, a);
      }
    } else {
      if x in m.ext { SameStep(m, l, x); }
      forall a | a >= x
        ensures a !in l.ext && a !in m.ext
      {
        assert a in l.ext ==> ChunkOk(l, a);
        assert a in m.ext ==> ChunkOk(m, a);
      }
    }
  }

  /** The free chunks and top are exactly the gaps between the chunks in use: the layout has no other freedom. */
  lemma LayoutDetermined(l: Layout, m: Layout)
    requires Tiled(l) && Tiled(m) && SameUse(l, m)
    ensures l == m
  {
    SameFrom(l, m, l.base);
    forall a
      ensures a in l.ext <==> a in m.ext
      ensures a in l.ext ==> l.ext[a] == m.ext[a]
    {
      assert a in l.ext ==> ChunkOk(l, a);
      assert a in m.ext ==> ChunkOk(m, a);
    }
    assert l.ext == m.ext;
  }

  /** With nothing in use the whole segment is top again. */
  lemma AllFree(l: Layout)
    requires Tiled(l) && forall a :: a !in l.used
    ensures l.ext == map[] && l.top == l.base
  {
    forall a
      ensures a !in l.ext
    {
      assert a in l.ext ==> Coalesced(l, a);
    }
  }

  // ---------- the allocator's own words and the clients' bytes ----------

  /** Byte x of the payload of the chunk p: the payload reaches into the next chunk's prev_foot. */
  ghost predicate InPayload(l: Layout, p: int, x: int)
    requires p in l.ext
  {
    p + 16 <= x < End(l, p) + 8
  }

  /**
   No head word, no word of a free chunk's body, no prev_foot in use, not top, and no other payload overlaps a
   payload.
   */
  lemma PayloadSafe(l: Layout, p: int, x: int)
    requires Tiled(l) && p in l.used && p in l.ext && InPayload(l, p, x)
    ensures forall a :: a in l.ext ==> !(a + 8 <= x < a + 16)
    ensures forall a :: a in l.ext && a !in l.used ==> !(a + 16 <= x < End(l, a)) && !(End(l, a) <= x < End(l, a) + 8)
    ensures forall a :: a in l.used && a in l.ext && a != p ==> !InPayload(l, a, x)
    ensures x < l.top + 8
  {
    assert ChunkOk(l, p);
    forall a | a in l.ext
      ensures !(a + 8 <= x < a + 16)
      ensures a !in l.used ==> !(a + 16 <= x < End(l, a)) && !(End(l, a) <= x < End(l, a) + 8)
      ensures a in l.used && a != p ==> !InPayload(l, a, x)
    {
      assert ChunkOk(l, a) && Apart(l, a, p) && Apart(l, p, a);
      EndUnique(l, p, End(l, p));
      assert End(l, a) == End(l, p) ==> a == p;
    }
  }

  // ---------- handing out, seen from the others ----------

  /** A segment stays where it is. */
  ghost predicate SameSegment(l: Layout, m: Layout) {
    l.top != 0 ==> m.base == l.base && m.top + m.topsize == l.top + l.topsize
  }

  /** From l to m exactly the chunk p came into use, and nothing else has changed for anybody. */
  ghost predicate GivenTo(l: Layout, m: Layout, p: int) {
    && p !in l.used && m.used == l.used + {p}
    && (forall a :: a in l.used && a in l.ext ==> a in m.ext && m.ext[a] == l.ext[a])
    && SameSegment(l, m)
  }

  /** Some free chunk has room for nb. */
  ghost predicate HasRoom(l: Layout, nb: nat) {
    exists a :: a in l.ext && a !in l.used && l.ext[a] >= nb
  }

  /** From l to m exactly the chunk q went out of use. */
  ghost predicate TakenBack(l: Layout, m: Layout, q: int) {
    && q in l.used && m.used == l.used - {q}
    && (forall a :: a in m.used ==> a in m.ext && a in l.ext && m.ext[a] == l.ext[a])
    && SameSegment(l, m)
  }

  /** From l to m the chunk p in use was cut down to the chunk q of ns bytes; the rest went free. */
  ghost predicate CutTo(l: Layout, m: Layout, p: int, q: int, ns: nat) {
    && p in l.used && q !in l.used - {p} && m.used == l.used - {p} + {q} && q in m.ext && m.ext[q] == ns
    && (forall a :: a in l.used && a != p ==> a in m.ext && a in l.ext && m.ext[a] == l.ext[a])
    && SameSegment(l, m)
  }

  /** Cutting down the chunk that was just handed out. */
  lemma CutKeeps(l: Layout, l1: Layout, m: Layout, p: int, q: int, ns: nat)
    requires Tiled(l) && Tiled(l1) && GivenTo(l, l1, p) && CutTo(l1, m, p, q, ns)
    ensures GivenTo(l, m, q) && q in m.used && q in m.ext && m.ext[q] == ns
  {
    assert l1.used <= l1.ext.Keys && p in l1.used;
    assert ChunkOk(l1, p);
  }
}
