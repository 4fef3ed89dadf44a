/**
 Reading and writing across a chain (yacul/memory/buffer.cc): the loops that flatten a chain and
 the two cursors.  Each is proved against the concatenation of the nodes' bytes.
 */
module BufferCursors {
  import opened Buffers

  function Concat(cs: seq<seq<Byte>>): seq<Byte>
  {
    if |cs| == 0 then [] else cs[0] + Concat(cs[1..])
  }

  ghost function Memory(r: seq<Buffer>): set<array<Byte>>
    reads r
  {
    set b | b in r && b.physical != null :: b.physical.bytes
  }

  /** cs are the bytes of the nodes of r. */
  ghost predicate Carries(r: seq<Buffer>, cs: seq<seq<Byte>>)
    reads r, Memory(r)
  {
    |cs| == |r| && forall i {:trigger Node(r[i], cs[i])} :: 0 <= i < |r| ==> Node(r[i], cs[i])
  }

  ghost predicate Node(b: Buffer, c: seq<Byte>)
    reads b, if b.physical == null then {} else {b.physical.bytes}
  {
    b.Fits() && b.Content() == c && |c| == b.length
  }

  lemma {:induction false} ConcatSplit(cs: seq<seq<Byte>>, i: nat)
    requires i <= |cs|
    ensures Concat(cs) == Concat(cs[..i]) + Concat(cs[i..])
  {
    if i > 0 {
      ConcatSplit(cs[1..], i - 1);
      assert cs[..i][1..] == cs[1..][..i - 1];
      assert cs[1..][i - 1..] == cs[i..];
    }
  }

  lemma ConcatAppend(cs: seq<seq<Byte>>, i: nat)
    requires i < |cs|
    ensures Concat(cs[..i + 1]) == Concat(cs[..i]) + cs[i]
    ensures Concat(cs[i..]) == cs[i] + Concat(cs[i + 1..])
  {
    ConcatSplit(cs[..i + 1], i);
    assert cs[..i + 1][..i] == cs[..i] && cs[..i + 1][i..] == [cs[i]];
    assert cs[i..][1..] == cs[i + 1..];
  }

  /** ComputeChainDataLength. */
  method ChainDataLength(head: Buffer, ghost r: seq<Buffer>, ghost cs: seq<seq<Byte>>) returns (total: nat)
    requires IsRing(r) && r[0] == head && Carries(r, cs)
    ensures total == |Concat(cs)|
  {
    ghost var i := 1;
    total := head.length;
    assert Node(r[0], cs[0]);
    ConcatAppend(cs, 0);
    var cur := head.next;
    while cur != head
      invariant 1 <= i <= |r| && cur == if i < |r| then r[i] else head
      invariant total == |Concat(cs[..i])|
      decreases |r| - i
    {
      assert Node(r[i], cs[i]);
      ConcatAppend(cs, i);
      total := total + cur.length;
      cur := cur.next;
      i := i + 1;
    }
    assert cs[..|r|] == cs;
  }

  /** ToVector: the do-while over the ring, starting at head. */
  method ToVector(head: Buffer, ghost r: seq<Buffer>, ghost cs: seq<seq<Byte>>) returns (out: seq<Byte>)
    requires IsRing(r) && r[0] == head && Carries(r, cs)
    ensures out == Concat(cs)
  {
    ghost var i := 1;
    assert Node(r[0], cs[0]);
    out := head.Content();
    ConcatAppend(cs, 0);
    var cur := head.next;
    while cur != head
      invariant 1 <= i <= |r| && cur == if i < |r| then r[i] else head
      invariant out == Concat(cs[..i])
      decreases |r| - i
    {
      assert Node(r[i], cs[i]);
      ConcatAppend(cs, i);
      out := out + cur.Content();
      cur := cur.next;
      i := i + 1;
    }
    assert cs[..|r|] == cs;
  }

  /** CoalesceChain: one buffer, on a store of its own, with the bytes of the whole chain. */
  method CoalesceChain(head: Buffer, ghost r: seq<Buffer>, ghost cs: seq<seq<Byte>>) returns (out: Buffer)
    requires IsRing(r) && r[0] == head && Carries(r, cs)
    ensures fresh(out) && (out.physical != null ==> fresh(out.physical) && fresh(out.physical.bytes))
    ensures out.Fits() && out.Content() == Concat(cs) && IsRing([out])
  {
    var total := ChainDataLength(head, r, cs);
    if total == 0 {
      out := new Buffer();
      return;
    }
    out := new Buffer.Create(total);
    var bytes := ToVector(head, r, cs);
    var a := out.physical.bytes;
    forall i | 0 <= i < total {
      a[i] := bytes[i];
    }
    out.length := total;
    assert a[..] == bytes;
  }

  // ---------------------------------------------------------------- cursors

  /** The first len bytes of s, or all of them, and what comes after. */
  function Upto(s: seq<Byte>, len: nat): seq<Byte>
  {
    if len < |s| then s[..len] else s
  }

  function Past(s: seq<Byte>, len: nat): seq<Byte>
  {
    if len < |s| then s[len..] else []
  }

  lemma SplitPiece(c: seq<Byte>, off: nat, chunk: nat, rest: seq<Byte>)
    requires off + chunk <= |c|
    ensures c[off..off + chunk] + (c[off + chunk..] + rest) == c[off..] + rest
  {
    assert c[off..] == c[off..off + chunk] + c[off + chunk..];
  }

  lemma Regroup(a: seq<Byte>, b: seq<Byte>, c: seq<Byte>)
    ensures a + b + c == a + (b + c)
  {
  }

  lemma Divides(s: seq<Byte>, out: seq<Byte>, rest: seq<Byte>, len: nat)
    requires out + rest == s && |out| <= len && (|out| < len ==> rest == [])
    ensures out == Upto(s, len) && rest == Past(s, len)
  {
  }

  class BufferCursor {
    const head: Buffer
    var current: Buffer
    var offset: nat
    ghost const ring: seq<Buffer>          // the chain, starting at head
    ghost const cs: seq<seq<Byte>>         // the bytes of its nodes
    ghost var at: nat                      // current == ring[at]

    constructor (head: Buffer, ghost ring: seq<Buffer>, ghost cs: seq<seq<Byte>>)
      requires IsRing(ring) && ring[0] == head && Carries(ring, cs)
      ensures this.head == head && this.ring == ring && this.cs == cs && Valid() && Remaining() == Concat(cs)
    {
      this.head, this.ring, this.cs := head, ring, cs;
      current, offset, at := head, 0, 0;
      new;
      assert Node(ring[0], cs[0]);
      ConcatAppend(cs, 0);
    }

    ghost predicate Valid()
      reads this, ring, Memory(ring)
    {
      IsRing(ring) && Carries(ring, cs) && ring[0] == head && at < |ring| && current == ring[at] && offset <= |cs[at]|
    }

    /** The bytes from the cursor to the end of the chain. */
    ghost function Remaining(): seq<Byte>
      requires at < |cs| && offset <= |cs[at]|
      reads this`at, this`offset
    {
      cs[at][offset..] + Concat(cs[at + 1..])
    }

    predicate AtEnd()
      reads this, current
    {
      offset == current.length && current.next == head
    }

    lemma EndMeansEmpty()
      requires Valid() && AtEnd()
      ensures Remaining() == [] && at == |ring| - 1
    {
      assert ring[at].next == ring[if at + 1 < |ring| then at + 1 else 0];
      assert Node(ring[at], cs[at]);
      assert cs[at + 1..] == [];
    }

    /** Bytes left in the chain. */
    method TotalLength() returns (remaining: nat)
      requires Valid()
      ensures remaining == |Remaining()|
    {
      ghost var i := at + 1;
      assert Node(ring[at], cs[at]);
      remaining := current.length - offset;
      var b := current.next;
      while b != head
        invariant at < i <= |ring| && b == if i < |ring| then ring[i] else head
        invariant remaining + |Concat(cs[i..])| == |Remaining()|
        decreases |ring| - i
      {
        assert Node(ring[i], cs[i]);
        ConcatAppend(cs, i);
        remaining := remaining + b.length;
        b := b.next;
        i := i + 1;
      }
      assert cs[|ring|..] == [];
    }

    method AdvanceIfExhausted()
      requires Valid()
      modifies this`current, this`offset, this`at
      ensures Valid() && Remaining() == old(Remaining())
      ensures at == old(at) || (at == old(at) + 1 && offset == 0)
      ensures old(offset) == |cs[old(at)]| && old(at) + 1 < |ring| ==> at == old(at) + 1
      ensures at == old(at) ==> offset == old(offset)
    {
      assert Node(ring[at], cs[at]);
      assert at + 1 < |ring| ==> ring[at].next == ring[at + 1] && ring[at + 1] != ring[0];
      if offset == current.length && current.next != head {
        ConcatAppend(cs, at + 1);
        current := current.next;
        offset := 0;
        at := at + 1;
      }
    }

    /** One turn of the loops below: at most n bytes of the current node. */
    method Chunk(n: nat) returns (piece: seq<Byte>)
      requires Valid() && n > 0 && !AtEnd()
      modifies this`current, this`offset, this`at
      ensures Valid() && piece + Remaining() == old(Remaining()) && |piece| <= n
      ensures at > old(at) || (at == old(at) && |piece| > 0)
    {
      NextOf(at);
      var available: nat := current.length - offset;
      var chunk: nat := if available < n then available else n;
      piece := current.Content()[offset..offset + chunk];
      MoveBy(chunk);
    }

    method MoveBy(chunk: nat)
      requires Valid() && offset + chunk <= |cs[at]|
      modifies this`current, this`offset, this`at
      ensures Valid() && old(cs[at][offset..offset + chunk]) + Remaining() == old(Remaining())
      ensures at == old(at) || (at == old(at) + 1 && offset == 0)
      ensures old(offset) + chunk == |cs[old(at)]| && old(at) + 1 < |ring| ==> at == old(at) + 1
    {
      PieceOf(chunk);
      offset := offset + chunk;
      AdvanceIfExhausted();
    }

    lemma PieceOf(chunk: nat)
      requires at < |cs| && offset + chunk <= |cs[at]|
      ensures cs[at][offset..offset + chunk] + (cs[at][offset + chunk..] + Concat(cs[at + 1..])) == Remaining()
    {
      SplitPiece(cs[at], offset, chunk, Concat(cs[at + 1..]));
    }

    /** Read hands out the next bytes of the chain and moves past them. */
    method Read(len: nat) returns (out: seq<Byte>)
      requires Valid()
      modifies this`current, this`offset, this`at
      ensures Valid() && out == Upto(old(Remaining()), len) && Remaining() == Past(old(Remaining()), len)
    {
      out := [];
      var n: nat := len;
      while n > 0 && !AtEnd()
        invariant Valid() && out + Remaining() == old(Remaining()) && |out| + n == len
        decreases |ring| - at, n
      {
        var piece := Chunk(n);
        Regroup(out, piece, Remaining());
        out := out + piece;
        n := n - |piece|;
      }
      if n > 0 {
        EndMeansEmpty();
      }
      Divides(old(Remaining()), out, Remaining(), len);
    }

    method Skip(len: nat)
      requires Valid()
      modifies this`current, this`offset, this`at
      ensures Valid() && Remaining() == Past(old(Remaining()), len)
    {
      var n: nat := len;
      ghost var out: seq<Byte> := [];
      while n > 0 && !AtEnd()
        invariant Valid() && out + Remaining() == old(Remaining()) && |out| + n == len
        decreases |ring| - at, n
      {
        var piece := Chunk(n);
        Regroup(out, piece, Remaining());
        out := out + piece;
        n := n - |piece|;
      }
      if n > 0 {
        EndMeansEmpty();
      }
      Divides(old(Remaining()), out, Remaining(), len);
    }

    /** The bytes from offset off of node i on. */
    ghost function Left(i: nat, off: nat): seq<Byte>
      requires i < |cs| && off <= |cs[i]|
    {
      cs[i][off..] + Concat(cs[i + 1..])
    }

    /** One turn of Peek's loop; an exhausted node yields nothing and steps to its successor. */
    method PeekStep(cur: Buffer, off: nat, n: nat, ghost i: nat)
      returns (cur': Buffer, off': nat, piece: seq<Byte>, stop: bool, ghost i': nat)
      requires Valid() && i < |ring| && cur == ring[i] && off <= |cs[i]| && n > 0
      ensures stop ==> Left(i, off) == []
      ensures !stop ==> i' < |ring| && cur' == ring[i'] && off' <= |cs[i']| && |piece| <= n &&
                        piece + Left(i', off') == Left(i, off) && (i' > i || (i' == i && |piece| > 0))
    {
      NextOf(i);
      cur', off', piece, stop, i' := cur, off, [], false, i;
      var available: nat := cur.length - off;
      if available == 0 {
        cur', off' := cur.next, 0;
        if cur' == head {
          assert cs[i + 1..] == [];
          stop := true;
          return;
        }
        ConcatAppend(cs, i + 1);
        i' := i + 1;
        return;
      }
      var chunk: nat := if available < n then available else n;
      piece := cur.Content()[off..off + chunk];
      SplitPiece(cs[i], off, chunk, Concat(cs[i + 1..]));
      off' := off + chunk;
    }

    /** Peek returns what Read would, and the cursor stays where it is. */
    method Peek(len: nat) returns (out: seq<Byte>)
      requires Valid()
      ensures out == Upto(Remaining(), len)
    {
      out := [];
      var n: nat := len;
      var cur := current;
      var off: nat := offset;
      ghost var i := at;
      ghost var total, left := Remaining(), Remaining();
      while n > 0
        invariant i < |ring| && cur == ring[i] && off <= |cs[i]| && left == Left(i, off)
        invariant out + left == total && |out| + n == len
        decreases |ring| - i, n
      {
        var cur', off', piece, stop;
        ghost var i';
        cur', off', piece, stop, i' := PeekStep(cur, off, n, i);
        if stop {
          break;
        }
        Regroup(out, piece, Left(i', off'));
        out := out + piece;
        n := n - |piece|;
        cur, off, i, left := cur', off', i', Left(i', off');
      }
      Divides(total, out, left, len);
    }

    lemma NextOf(i: nat)
      requires Valid() && i < |ring|
      ensures Node(ring[i], cs[i]) && ring[i].next == (if i + 1 < |ring| then ring[i + 1] else head)
      ensures i + 1 < |ring| ==> ring[i + 1] != head
    {
      assert ring[i].next == ring[if i + 1 < |ring| then i + 1 else 0];
    }

    method Reset()
      requires Valid()
      modifies this`current, this`offset, this`at
      ensures Valid() && Remaining() == Concat(cs)
    {
      current, offset, at := head, 0, 0;
      ConcatAppend(cs, 0);
    }
  }
}
