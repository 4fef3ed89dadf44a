/**
 BufferRWCursor (yacul/memory/buffer.cc): writing across a chain with copy-on-write on every
 node touched, even when nodes of the chain share a store with each other or with other buffers.
 */
module BufferWriter {
  import opened Buffers
  import opened BufferCursors

  /** The bytes of a chain before and after a position: offset off of node k. */
  function Before(cs: seq<seq<Byte>>, k: nat, off: nat): seq<Byte>
    requires k < |cs| && off <= |cs[k]|
  {
    Concat(cs[..k]) + cs[k][..off]
  }

  function After(cs: seq<seq<Byte>>, k: nat, off: nat): seq<Byte>
    requires k < |cs| && off <= |cs[k]|
  {
    cs[k][off..] + Concat(cs[k + 1..])
  }

  lemma BeforeAfter(cs: seq<seq<Byte>>, k: nat, off: nat)
    requires k < |cs| && off <= |cs[k]|
    ensures Concat(cs) == Before(cs, k, off) + After(cs, k, off)
  {
    ConcatSplit(cs, k);
    ConcatAppend(cs, k);
    assert cs[k] == cs[k][..off] + cs[k][off..];
  }

  /** The end of a node and the start of the next are the same position. */
  lemma SamePosition(cs: seq<seq<Byte>>, k: nat)
    requires k + 1 < |cs|
    ensures Before(cs, k, |cs[k]|) == Before(cs, k + 1, 0) && After(cs, k, |cs[k]|) == After(cs, k + 1, 0)
  {
    ConcatAppend(cs, k);
    ConcatAppend(cs, k + 1);
  }

  /** Node contents after piece is written at offset off of node k. */
  function Patched(cs: seq<seq<Byte>>, k: nat, off: nat, piece: seq<Byte>): (ds: seq<seq<Byte>>)
    requires k < |cs| && off + |piece| <= |cs[k]|
    ensures |ds| == |cs| && |ds[k]| == |cs[k]|
  {
    cs[k := Overwritten(cs[k], off, piece)]
  }

  lemma PatchMoves(cs: seq<seq<Byte>>, k: nat, off: nat, piece: seq<Byte>)
    requires k < |cs| && off + |piece| <= |cs[k]|
    ensures var ds := Patched(cs, k, off, piece);
            Before(ds, k, off + |piece|) == Before(cs, k, off) + piece && |piece| <= |After(cs, k, off)| &&
            After(ds, k, off + |piece|) == After(cs, k, off)[|piece|..]
  {
    var ds := Patched(cs, k, off, piece);
    assert ds[..k] == cs[..k] && ds[k + 1..] == cs[k + 1..];
    assert ds[k][..off + |piece|] == cs[k][..off] + piece;
    assert ds[k][off + |piece|..] == cs[k][off + |piece|..];
  }

  /** Where a written piece leaves the position, after stepping on to the next node or not. */
  lemma PieceMoves(cs: seq<seq<Byte>>, k: nat, off: nat, piece: seq<Byte>, onward: bool)
    requires k < |cs| && off + |piece| <= |cs[k]| && (onward ==> k + 1 < |cs| && off + |piece| == |cs[k]|)
    ensures var ds := Patched(cs, k, off, piece);
            var k', off' := if onward then k + 1 else k, if onward then 0 else off + |piece|;
            |piece| <= |After(cs, k, off)| && Before(ds, k', off') == Before(cs, k, off) + piece &&
            After(ds, k', off') == After(cs, k, off)[|piece|..]
  {
    PatchMoves(cs, k, off, piece);
    if onward {
      SamePosition(Patched(cs, k, off, piece), k);
    }
  }

  /** cs are the bytes that w gives the nodes of r. */
  ghost predicate Spelled(r: seq<Buffer>, w: World, cs: seq<seq<Byte>>)
  {
    |cs| == |r| && forall i {:trigger cs[i]} :: 0 <= i < |r| ==> r[i] in w && cs[i] == w[r[i]].bytes
  }

  /** The part of w that is on the chain. */
  ghost function OnChain(w: World, r: seq<Buffer>): World
  {
    map b | b in w && b in r :: w[b]
  }

  /** w differs from w0 on the chain only. */
  ghost predicate SameElsewhere(w0: World, w: World, r: seq<Buffer>)
  {
    w.Keys == w0.Keys && forall b <- w0 :: b !in r ==> w[b] == w0[b]
  }

  /** The nodes are on the stores they started on, or on ones of mine. */
  ghost predicate StoresKept(w0: World, w: World, r: seq<Buffer>, mine: set<Store>)
  {
    forall b <- r :: b in w0 && b in w && (w[b].store == w0[b].store || (w[b].store != null && w[b].store in mine))
  }

  lemma StoreChanged(w0: World, w: World, r: seq<Buffer>, mine: set<Store>, b: Buffer, v: View)
    requires StoresKept(w0, w, r, mine) && b in r
    requires v.store == w[b].store || v.store != null
    ensures StoresKept(w0, w[b := v], r, if v.store == w[b].store then mine else mine + {v.store})
  {
  }

  /** reach has the stores and the memory of the chain. */
  ghost predicate Reaches(w: World, r: seq<Buffer>, reach: set<object>)
  {
    forall b <- r :: b in w && (w[b].store != null ==> w[b].store in reach && w[b].store.bytes in reach)
  }

  lemma ChainReaches(w: World, r: seq<Buffer>)
    requires forall b <- r :: b in w
    ensures Reaches(w, r, StoresOf(OnChain(w, r)) + MemoryOf(OnChain(w, r)))
  {
    forall b <- r | w[b].store != null
      ensures w[b].store in StoresOf(OnChain(w, r)) && w[b].store.bytes in MemoryOf(OnChain(w, r))
    {
      assert b in OnChain(w, r) && OnChain(w, r)[b] == w[b];
    }
  }

  lemma NextOf(r: seq<Buffer>, k: nat)
    requires IsRing(r) && k < |r|
    ensures r[k].next == (if k + 1 < |r| then r[k + 1] else r[0])
    ensures k + 1 < |r| ==> r[k + 1] != r[0]
  {
    assert r[k].next == r[if k + 1 < |r| then k + 1 else 0];
  }

  // ---------------------------------------------------------------- positions and pieces

  /** A position: offset off of node k, which exists. */
  predicate At(cs: seq<seq<Byte>>, k: nat, off: nat)
  {
    k < |cs| && off <= |cs[k]|
  }

  /** From one position to the other the piece went from the bytes to come to the bytes passed. */
  predicate Moved(cs: seq<seq<Byte>>, k: nat, off: nat, ds: seq<seq<Byte>>, k': nat, off': nat, piece: seq<Byte>)
    requires At(cs, k, off) && At(ds, k', off')
  {
    |piece| <= |After(cs, k, off)| && Before(ds, k', off') == Before(cs, k, off) + piece &&
    After(ds, k', off') == After(cs, k, off)[|piece|..]
  }

  /** A turn of the loop that writes chunk bytes of src, from n on, to node k and goes on to the next node or not. */
  predicate Turn(cs: seq<seq<Byte>>, k: nat, off: nat, src: seq<Byte>, n: nat, chunk: nat, onward: bool)
  {
    At(cs, k, off) && n + chunk <= |src| && off + chunk <= |cs[k]| &&
    (onward ==> k + 1 < |cs| && off + chunk == |cs[k]|)
  }

  /** The bytes after it. */
  function Turned(cs: seq<seq<Byte>>, k: nat, off: nat, src: seq<Byte>, n: nat, chunk: nat): (ds: seq<seq<Byte>>)
    requires Turn(cs, k, off, src, n, chunk, false)
    ensures |ds| == |cs| && |ds[k]| == |cs[k]|
  {
    Patched(cs, k, off, src[n..n + chunk])
  }

  /** So far the first n bytes of src have moved. */
  predicate Going(cs0: seq<seq<Byte>>, k0: nat, off0: nat, cs: seq<seq<Byte>>, k: nat, off: nat, src: seq<Byte>, n: nat)
  {
    n <= |src| && At(cs0, k0, off0) && At(cs, k, off) && Moved(cs0, k0, off0, cs, k, off, src[..n])
  }

  lemma GoingOn(cs0: seq<seq<Byte>>, k0: nat, off0: nat, cs: seq<seq<Byte>>, k: nat, off: nat, src: seq<Byte>, n: nat,
                chunk: nat, onward: bool)
    requires Going(cs0, k0, off0, cs, k, off, src, n) && Turn(cs, k, off, src, n, chunk, onward)
    ensures Going(cs0, k0, off0, Turned(cs, k, off, src, n, chunk), if onward then k + 1 else k,
                  if onward then 0 else off + chunk, src, n + chunk)
  {
    var ds := Turned(cs, k, off, src, n, chunk);
    var k', off' := if onward then k + 1 else k, if onward then 0 else off + chunk;
    PieceMoves(cs, k, off, src[n..n + chunk], onward);
    MovedTwice(Before(cs0, k0, off0), After(cs0, k0, off0), src[..n], src[n..n + chunk],
               Before(ds, k', off'), After(ds, k', off'));
    Adjoining(src, n, chunk);
  }

  /** Two pieces one after the other are one piece. */
  lemma MovedTwice(b: seq<Byte>, a: seq<Byte>, p: seq<Byte>, q: seq<Byte>, b': seq<Byte>, a': seq<Byte>)
    requires |p| <= |a| && |q| <= |a[|p|..]| && b' == b + p + q && a' == a[|p|..][|q|..]
    ensures |p + q| <= |a| && b' == b + (p + q) && a' == a[|p + q|..]
  {
  }

  lemma Adjoining(src: seq<Byte>, n: nat, chunk: nat)
    requires n + chunk <= |src|
    ensures src[..n] + src[n..n + chunk] == src[..n + chunk]
  {
  }

  function Least(x: nat, y: nat): nat
  {
    if x < y then x else y
  }

  /** At the end of the chain nothing is left, so everything that was to come has been written. */
  lemma GoingEnds(cs0: seq<seq<Byte>>, k0: nat, off0: nat, cs: seq<seq<Byte>>, k: nat, off: nat, src: seq<Byte>, n: nat)
    requires Going(cs0, k0, off0, cs, k, off, src, n) && (n == |src| || (k == |cs| - 1 && off == |cs[k]|))
    ensures n == Least(|src|, |After(cs0, k0, off0)|)
  {
    if n < |src| {
      assert cs[k + 1..] == [] && After(cs, k, off) == [];
    }
  }

  // ---------------------------------------------------------------- the loop

  /** inv is kept by every turn. */
  ghost predicate Kept(inv: (seq<seq<Byte>>, nat, nat, nat) -> bool, src: seq<Byte>)
  {
    forall cs, k: nat, off: nat, n: nat, chunk: nat, onward
      {:trigger inv(cs, k, off, n), Turn(cs, k, off, src, n, chunk, onward)} ::
      inv(cs, k, off, n) && Turn(cs, k, off, src, n, chunk, onward) ==>
      inv(Turned(cs, k, off, src, n, chunk), if onward then k + 1 else k, if onward then 0 else off + chunk, n + chunk)
  }

  /** One turn of Write's loop. */
  method WriteChunk(cur: Buffer, off: nat, src: seq<Byte>, n: nat, head: Buffer,
                    ghost r: seq<Buffer>, ghost w: World, ghost cs: seq<seq<Byte>>, ghost k: nat)
    returns (cur': Buffer, off': nat, n': nat, ghost onward: bool)
    requires IsRing(r) && r[0] == head && Live(w) && Spelled(r, w, cs) && At(cs, k, off) && cur == r[k]
    requires n < |src| && !(off == cur.length && cur.next == head)
    modifies cur`physical, cur`data, cur.physical, if cur.physical == null then {} else {cur.physical.bytes}
    ensures n <= n' && Turn(cs, k, off, src, n, n' - n, onward) && (onward || n' > n)
    ensures IsRing(r) && Live(w[cur := View(cur.physical, Turned(cs, k, off, src, n, n' - n)[k])])
    ensures cur.physical == w[cur].store || (cur.physical != null && fresh(cur.physical) && fresh(cur.physical.bytes))
    ensures cur' == r[if onward then k + 1 else k] && off' == if onward then 0 else off + (n' - n)
  {
    NextOf(r, k);
    assert cs[k] == w[cur].bytes;
    assert Shows(cur, w[cur]);
    var available: nat := cur.length - off;
    var chunk: nat := if available < |src| - n then available else |src| - n;
    onward := off + chunk == cur.length && cur.next != head;
    cur.WriteAt(off, src[n..n + chunk], w);
    n' := n + chunk;
    cur', off' := cur, off + chunk;
    if off' == cur.length && cur.next != head {
      cur', off' := cur.next, 0;
    }
  }

  lemma InWorld(r: seq<Buffer>, w: World, cs: seq<seq<Byte>>)
    requires Spelled(r, w, cs)
    ensures forall b <- r :: b in w
  {
    forall b <- r ensures b in w {
      var i :| 0 <= i < |r| && r[i] == b;
      var c := cs[i];
      assert b in w;
    }
  }

  lemma SpelledAfter(r: seq<Buffer>, w: World, cs: seq<seq<Byte>>, k: nat, v: View)
    requires Spelled(r, w, cs) && k < |r| && forall i, j :: 0 <= i < j < |r| ==> r[i] != r[j]
    ensures Spelled(r, w[r[k] := v], cs[k := v.bytes])
  {
    var ds, w' := cs[k := v.bytes], w[r[k] := v];
    forall i | 0 <= i < |r| ensures r[i] in w' && ds[i] == w'[r[i]].bytes {
      var c := cs[i];
      assert r[i] in w && c == w[r[i]].bytes;
    }
  }

  /** The same with the world, the bytes and the new stores carried along. */
  method WriteTurn(cur: Buffer, off: nat, src: seq<Byte>, n: nat, head: Buffer, ghost r: seq<Buffer>,
                   ghost w0: World, ghost w: World, ghost cs: seq<seq<Byte>>, ghost k: nat, ghost mine: set<Store>)
    returns (cur': Buffer, off': nat, n': nat, ghost w': World, ghost cs': seq<seq<Byte>>, ghost onward: bool,
             ghost mine': set<Store>)
    requires IsRing(r) && r[0] == head && Live(w) && Spelled(r, w, cs) && At(cs, k, off) && cur == r[k]
    requires n < |src| && !(off == cur.length && cur.next == head)
    requires SameElsewhere(w0, w, r) && StoresKept(w0, w, r, mine)
    modifies cur`physical, cur`data, cur.physical, if cur.physical == null then {} else {cur.physical.bytes}
    ensures n <= n' && Turn(cs, k, off, src, n, n' - n, onward) && (onward || n' > n)
    ensures IsRing(r) && Live(w') && Spelled(r, w', cs') && SameElsewhere(w0, w', r) && StoresKept(w0, w', r, mine')
    ensures cs' == Turned(cs, k, off, src, n, n' - n)
    ensures mine <= mine' && forall p <- mine' :: p !in mine ==> fresh(p) && fresh(p.bytes)
    ensures cur' == r[if onward then k + 1 else k] && off' == if onward then 0 else off + (n' - n)
  {
    cur', off', n', onward := WriteChunk(cur, off, src, n, head, r, w, cs, k);
    cs' := Turned(cs, k, off, src, n, n' - n);
    ghost var v := View(cur.physical, cs'[k]);
    w' := w[cur := v];
    SpelledAfter(r, w, cs, k, v);
    assert cs' == cs[k := cs'[k]];
    StoreChanged(w0, w, r, mine, cur, v);
    mine' := if v.store == w[cur].store then mine else mine + {v.store};
  }

  /** The loop, for any property of the bytes, the position and the count that its turns keep. */
  method WriteLoop(cur0: Buffer, off0: nat, src: seq<Byte>, head: Buffer, ghost r: seq<Buffer>, ghost k0: nat,
                   ghost w0: World, ghost cs0: seq<seq<Byte>>, ghost inv: (seq<seq<Byte>>, nat, nat, nat) -> bool,
                   ghost reach: set<object>)
    returns (cur: Buffer, off: nat, written: nat, ghost k: nat, ghost w: World, ghost cs: seq<seq<Byte>>)
    requires IsRing(r) && r[0] == head && Live(w0) && Spelled(r, w0, cs0) && At(cs0, k0, off0) && cur0 == r[k0]
    requires inv(cs0, k0, off0, 0) && Kept(inv, src) && Reaches(w0, r, reach)
    modifies r`physical, r`data, reach
    ensures IsRing(r) && Live(w) && SameElsewhere(w0, w, r) && Spelled(r, w, cs) && At(cs, k, off) && cur == r[k]
    ensures inv(cs, k, off, written) && written <= |src|
    ensures written == |src| || (k == |r| - 1 && off == |cs[k]|)
  {
    cur, off, written, k, w, cs := cur0, off0, 0, k0, w0, cs0;
    ghost var mine: set<Store> := {};
    while written < |src| && !(off == cur.length && cur.next == head)
      invariant IsRing(r) && Live(w) && SameElsewhere(w0, w, r) && Spelled(r, w, cs) && At(cs, k, off) && cur == r[k]
      invariant StoresKept(w0, w, r, mine) && forall p <- mine :: fresh(p) && fresh(p.bytes)
      invariant inv(cs, k, off, written) && written <= |src|
      decreases |r| - k, |src| - written
    {
      assert Shows(cur, w[cur]);
      ghost var onward;
      cur, off, written, w, cs, onward, mine := WriteTurn(cur, off, src, written, head, r, w0, w, cs, k, mine);
      k := if onward then k + 1 else k;
    }
    NextOf(r, k);
    assert Shows(cur, w[cur]);
    ghost var c := cs[k];
  }

  /**
   BufferRWCursor::Write, with the cursor's current_ and offset_ passed in and out: the next bytes of the
   chain become src, as far as the chain goes, and nothing else changes.
   */
  method Write(cur0: Buffer, off0: nat, src: seq<Byte>, head: Buffer, ghost r: seq<Buffer>, ghost k0: nat,
               ghost w0: World, ghost cs0: seq<seq<Byte>>)
    returns (cur: Buffer, off: nat, written: nat, ghost k: nat, ghost w: World, ghost cs: seq<seq<Byte>>)
    requires IsRing(r) && r[0] == head && Live(w0) && Spelled(r, w0, cs0) && At(cs0, k0, off0) && cur0 == r[k0]
    modifies r`physical, r`data, StoresOf(OnChain(w0, r)), MemoryOf(OnChain(w0, r))
    ensures IsRing(r) && Live(w) && SameElsewhere(w0, w, r) && Spelled(r, w, cs) && At(cs, k, off) && cur == r[k]
    ensures written == Least(|src|, |After(cs0, k0, off0)|)
    ensures Moved(cs0, k0, off0, cs, k, off, src[..written])
  {
    ghost var inv := (cs: seq<seq<Byte>>, k: nat, off: nat, n: nat) => Going(cs0, k0, off0, cs, k, off, src, n);
    forall cs, k: nat, off: nat, n: nat, chunk: nat, onward
      | inv(cs, k, off, n) && Turn(cs, k, off, src, n, chunk, onward)
      ensures inv(Turned(cs, k, off, src, n, chunk), if onward then k + 1 else k,
                  if onward then 0 else off + chunk, n + chunk)
    {
      GoingOn(cs0, k0, off0, cs, k, off, src, n, chunk, onward);
    }
    InWorld(r, w0, cs0);
    ChainReaches(w0, r);
    cur, off, written, k, w, cs :=
      WriteLoop(cur0, off0, src, head, r, k0, w0, cs0, inv, StoresOf(OnChain(w0, r)) + MemoryOf(OnChain(w0, r)));
    GoingEnds(cs0, k0, off0, cs, k, off, src, written);
  }
}
