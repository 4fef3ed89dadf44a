/**
 Buffer (yacul/memory/buffer.h, buffer.cc): a logical view (store, data, length) on a reference
 counted backing store, linked with other buffers into a doubly linked circular ring.

 A ring is described by the sequence of its buffers, starting at any of them.  A World maps every
 live buffer to its store and its bytes.  Live(w) says that the buffers are as w has them and that
 every store's reference count is the number of views on it.  A method states its effect on all
 views at once, as an update of w.
 */
module Buffers {

  type Byte = x: nat | x < 256

  /** PhysicalBuffer: capacity is bytes.Length. */
  class Store {
    var refCount: nat
    const bytes: array<Byte>

    constructor (capacity: nat)
      ensures fresh(bytes) && bytes.Length == capacity && refCount == 1
    {
      bytes := new Byte[capacity](_ => 0);
      refCount := 1;
    }

    /** A new store with len bytes of src copied to offset head. */
    constructor Filled(capacity: nat, head: nat, src: array<Byte>, from: nat, len: nat)
      requires head + len <= capacity && from + len <= src.Length
      ensures fresh(bytes) && bytes.Length == capacity && refCount == 1
      ensures bytes[head..head + len] == src[from..from + len]
    {
      var a := new Byte[capacity](_ => 0);
      forall i | 0 <= i < len {
        a[head + i] := src[from + i];
      }
      bytes := a;
      refCount := 1;
    }

    method Retain(ghost w: World)
      requires Counted(w, null, 0)
      modifies this
      ensures Counted(w, this, 1) && refCount == old(refCount) + 1
    {
      refCount := refCount + 1;
      forall q | q in StoresOf(w) ensures CountedAt(w, q, this, 1) {
        assert old(CountedAt(w, q, null, 0));
      }
    }

    /** Release: true with the last reference, when the caller frees the store. */
    method ReleaseOne(ghost w: World, ghost v: Buffer) returns (last: bool)
      requires Counted(w, null, 0) && v in w && w[v].store == this
      modifies this
      ensures Counted(w, this, -1) && last == (old(refCount) == 1)
    {
      CountedOnce(w, v);
      refCount := refCount - 1;
      last := refCount == 0;
      forall q | q in StoresOf(w) ensures CountedAt(w, q, this, -1) {
        assert old(CountedAt(w, q, null, 0));
      }
    }
  }

  /** memcpy. */
  method CopyInto(a: array<Byte>, at: nat, src: seq<Byte>)
    requires at + |src| <= a.Length
    modifies a
    ensures a[..] == old(a[..at]) + src + old(a[at + |src|..])
  {
    forall i | 0 <= i < |src| {
      a[at + i] := src[i];
    }
  }

  /** A live buffer's store and bytes. */
  datatype View = View(store: Store?, bytes: seq<Byte>)

  type World = map<Buffer, View>

  /** How a request for tailroom ends: met, the view moved but the room short of it, or our own bytes past the end. */
  datatype Room = Enough | Short | Outside

  function NewCapacity(needed: nat): nat
  {
    if needed > needed * 3 / 2 + 64 then needed else needed * 3 / 2 + 64
  }

  class Buffer {
    var physical: Store?
    var data: nat          // offset of data_ in the store
    var length: nat
    var next: Buffer
    var prev: Buffer

    // -------------------------------------------------------------- observers

    predicate Fits()
      reads this`physical, this`data, this`length
    {
      if physical == null then length == 0 && data == 0 else data + length <= physical.bytes.Length
    }

    function Content(): seq<Byte>
      requires Fits()
      reads this`physical, this`data, this`length, if physical == null then {} else {physical.bytes}
    {
      if physical == null then [] else physical.bytes[data..data + length]
    }

    function Headroom(): nat
      reads this`physical, this`data
    {
      if physical == null then 0 else data
    }

    function Tailroom(): nat
      requires Fits()
      reads this`physical, this`data, this`length
    {
      if physical == null then 0 else physical.bytes.Length - data - length
    }

    predicate IsShared()
      reads this`physical, physical
    {
      physical != null && physical.refCount > 1
    }

    // -------------------------------------------------------------- views

    /** Buffer::Create. */
    constructor Create(capacity: nat)
      ensures fresh(physical) && fresh(physical.bytes) && physical.bytes.Length == capacity && physical.refCount == 1
      ensures data == 0 && length == 0 && IsRing([this])
    {
      physical := new Store(capacity);
      data, length := 0, 0;
      next, prev := this, this;
    }

    /** A default-constructed buffer views nothing. */
    constructor ()
      ensures physical == null && data == 0 && length == 0 && IsRing([this])
    {
      physical, data, length := null, 0, 0;
      next, prev := this, this;
    }

    /** Copy construction: one more view on the same bytes, not part of rhs's chain. */
    constructor Copy(rhs: Buffer, ghost w: World)
      requires rhs in w && Live(w)
      modifies rhs.physical
      ensures this !in w && Live(w[this := w[rhs]]) && IsRing([this])
      ensures data == rhs.data
    {
      physical, data, length := null, 0, 0;
      next, prev := this, this;
      new;
      assert Shows(rhs, w[rhs]);
      Attach(rhs, 0, rhs.length, w);
      assert w[rhs].bytes[0..rhs.length] == w[rhs].bytes;
    }

    /** Slice: a new buffer that views len bytes of this one. */
    method Slice(offset: nat, len: nat, ghost w: World) returns (b: Buffer)
      requires this in w && Live(w) && offset + len <= |w[this].bytes|
      modifies physical
      ensures fresh(b) && b !in w && IsRing([b]) && b.data == data + offset
      ensures Live(w[b := View(w[this].store, w[this].bytes[offset..offset + len])])
    {
      b := new Buffer();
      b.Attach(this, offset, len, w);
    }

    /** View len bytes of src and retain its store. */
    method Attach(src: Buffer, offset: nat, len: nat, ghost w: World)
      requires src in w && this !in w && Live(w) && offset + len <= |w[src].bytes|
      modifies this`physical, this`data, this`length, src.physical
      ensures Live(w[this := View(w[src].store, w[src].bytes[offset..offset + len])])
      ensures data == src.data + offset
    {
      assert Shows(src, w[src]);
      physical, data, length := src.physical, src.data + offset, len;
      assert Live(w);
      SubView(this, src, w[src], offset, len);
      Join(src, View(physical, w[src].bytes[offset..offset + len]), w);
    }

    /** The reference this new view holds is counted. */
    method Join(ghost src: Buffer, ghost v: View, ghost w: World)
      requires src in w && this !in w && Live(w) && Shows(this, v) && v.store == w[src].store
      modifies physical
      ensures Live(w[this := v])
    {
      CountedNull(w, 1);
      if physical != null {
        physical.Retain(w);
      }
      AddView(w, this, v, src);
    }

    /** ReleasePhysical, as the destructor runs it: this view no longer counts, and the last one frees the store. */
    method Release(ghost w: World) returns (freed: bool)
      requires this in w && Live(w)
      modifies this`physical, physical
      ensures Live(w - {this}) && physical == null
      ensures freed <==> w[this].store != null && forall b <- w :: b != this ==> w[b].store != w[this].store
    {
      assert Shows(this, w[this]);
      LastView(w, this);
      freed := false;
      CountedNull(w, -1);
      if physical != null {
        freed := physical.ReleaseOne(w, this);
      }
      DropView(w, this);
      physical := null;
    }

    /** CowDetach: afterwards nobody else views this store, and no view's bytes have changed. */
    method CowDetach(ghost w: World)
      requires this in w && Live(w)
      modifies this`physical, this`data, physical
      ensures Live(w[this := View(physical, w[this].bytes)]) && !IsShared()
      ensures physical == w[this].store || (physical != null && fresh(physical) && fresh(physical.bytes))
      ensures data == old(data) && (old(IsShared()) <==> physical != old(physical))
      ensures old(physical) != null ==> physical != null && physical.bytes.Length == old(physical.bytes.Length)
    {
      assert Shows(this, w[this]);
      if physical == null || physical.refCount <= 1 {
        assert w[this := View(physical, w[this].bytes)] == w;
        return;
      }
      Relocate(physical.bytes.Length, Headroom(), w);
    }

    /** A new store with our bytes after head bytes of room. */
    method Relocate(newCap: nat, head: nat, ghost w: World)
      requires this in w && Live(w) && head + |w[this].bytes| <= newCap
      modifies this`physical, this`data, physical
      ensures physical != null && fresh(physical) && fresh(physical.bytes) && physical.refCount == 1
      ensures data == head && physical.bytes.Length == newCap
      ensures Live(w[this := View(physical, w[this].bytes)])
    {
      assert Shows(this, w[this]);
      var newPhys: Store;
      if physical != null {
        newPhys := new Store.Filled(newCap, head, physical.bytes, data, length);
      } else {
        newPhys := new Store(newCap);
      }
      Reseat(newPhys, head, w);
    }

    /** Release the current store and view a store of our own instead. */
    method Reseat(p: Store, head: nat, ghost w: World)
      requires this in w && Live(w) && p.refCount == 1 && NewTo(w, p) && head + length <= p.bytes.Length
      requires p.bytes[head..head + length] == w[this].bytes
      modifies this`physical, this`data, physical
      ensures Live(w[this := View(p, w[this].bytes)]) && physical == p && data == head && p.refCount == 1
    {
      ghost var c := w[this].bytes;
      assert Shows(this, w[this]);
      var freed := Release(w);
      Own(p, head, w - {this}, c);
      assert (w - {this})[this := View(p, c)] == w[this := View(p, c)];
    }

    method Own(p: Store, head: nat, ghost w: World, ghost c: seq<Byte>)
      requires this !in w && Live(w) && p.refCount == 1 && NewTo(w, p)
      requires head + length <= p.bytes.Length && p.bytes[head..head + length] == c
      modifies this`physical, this`data
      ensures Live(w[this := View(p, c)]) && physical == p && data == head
    {
      physical, data := p, head;
      AddOwner(w, this, View(p, c));
    }

    /** Bytes written through writable_data(): exactly this view changes. */
    method WriteAt(off: nat, src: seq<Byte>, ghost w: World)
      requires this in w && Live(w) && off + |src| <= |w[this].bytes|
      modifies this`physical, this`data, physical, if physical == null then {} else {physical.bytes}
      ensures Live(w[this := View(physical, Overwritten(w[this].bytes, off, src))]) && !IsShared()
      ensures physical == w[this].store || (physical != null && fresh(physical) && fresh(physical.bytes))
    {
      assert Shows(this, w[this]);
      CowDetach(w);
      ghost var w' := w[this := View(physical, w[this].bytes)];
      assert Shows(this, w'[this]);
      if physical != null {
        WriteOwn(off, src, w');
        assert w'[this := View(physical, Overwritten(w[this].bytes, off, src))] ==
               w[this := View(physical, Overwritten(w[this].bytes, off, src))];
      } else {
        assert Overwritten(w[this].bytes, off, src) == w[this].bytes;
      }
    }

    /** memcpy into an unshared store. */
    method WriteOwn(off: nat, src: seq<Byte>, ghost w: World)
      requires this in w && Live(w) && !IsShared() && off + |src| <= |w[this].bytes| && physical != null
      modifies physical.bytes
      ensures Live(w[this := View(physical, Overwritten(w[this].bytes, off, src))])
    {
      assert Shows(this, w[this]);
      SoleView(w, this);
      IntactWithout(w, this);
      ghost var c := w[this].bytes;
      ghost var was := physical.bytes[..];
      CopyInto(physical.bytes, data + off, src);
      PatchedWindow(was, physical.bytes[..], data, length, off, src);
      Rewritten(w, this, View(physical, Overwritten(c, off, src)));
    }

    /** EnsureTailroom needs a new store when the current one is shared or too small. */
    predicate MustGrow(n: nat)
      requires Fits()
      reads this`physical, this`data, this`length, physical
    {
      IsShared() || Tailroom() < n
    }

    /** What EnsureTailroom comes to. */
    function RoomFor(n: nat): Room
      requires Fits()
      reads this`physical, this`data, this`length, physical
    {
      if !MustGrow(n) then Enough
      else if Headroom() + length > NewCapacity(length + n) then Outside
      else if Headroom() + length + n > NewCapacity(length + n) then Short
      else Enough
    }

    /** In terms of the headroom, which the new capacity ignores although it is carried over. */
    lemma RoomBounds(n: nat)
      requires Fits()
      ensures RoomFor(n).Enough? <==> !MustGrow(n) || Headroom() <= (length + n) / 2 + 64
      ensures RoomFor(n).Outside? <==> MustGrow(n) && Headroom() > (length + n) / 2 + 64 + n
    {
    }

    /**
     The request fits exactly below one headroom bound, and below a second one our own bytes still do; beyond that
     the copy runs past the new store, and the model stops before it.
     */
    method EnsureTailroom(n: nat, ghost w: World) returns (room: Room)
      requires this in w && Live(w) && Fits()
      modifies this`physical, this`data, physical
      ensures room == old(RoomFor(n)) && data == old(data)
      ensures Live(w[this := View(physical, w[this].bytes)])
      ensures !old(MustGrow(n)) || room.Outside? ==> physical == w[this].store
      ensures old(MustGrow(n)) && !room.Outside? ==> physical != null && fresh(physical) && fresh(physical.bytes)
      ensures room.Enough? ==> Fits() && !IsShared() && Tailroom() >= n
      ensures room.Short? ==> Fits() && !IsShared() && Tailroom() < n
    {
      assert Shows(this, w[this]);
      room := RoomFor(n);
      assert w[this := View(physical, w[this].bytes)] == w;
      if !IsShared() && Tailroom() >= n {
        return;
      }
      var head := Headroom();
      var newCap := NewCapacity(length + n);
      if head + length > newCap {
        return;
      }
      Relocate(newCap, head, w);
    }

    /** AppendData: exactly this view grows, by src, unless the memcpy would run past the store. */
    method AppendData(src: seq<Byte>, ghost w: World) returns (room: Room)
      requires this in w && Live(w) && Fits()
      modifies this`physical, this`data, this`length, physical, if physical == null then {} else {physical.bytes}
      ensures room == old(RoomFor(|src|)) && data == old(data)
      ensures physical == w[this].store || (physical != null && fresh(physical) && fresh(physical.bytes))
      ensures Live(w[this := View(physical, if room.Enough? then w[this].bytes + src else w[this].bytes)])
    {
      assert Shows(this, w[this]);
      room := EnsureTailroom(|src|, w);
      ghost var w' := w[this := View(physical, w[this].bytes)];
      if room.Enough? && physical != null {
        WriteTail(src, w');
        assert w'[this := View(physical, w[this].bytes + src)] == w[this := View(physical, w[this].bytes + src)];
      } else {
        assert room.Enough? ==> w[this].bytes + src == w[this].bytes;
      }
    }

    method WriteTail(src: seq<Byte>, ghost w: World)
      requires this in w && Live(w) && Fits() && !IsShared() && physical != null && |src| <= Tailroom()
      modifies physical.bytes, this`length
      ensures Live(w[this := View(physical, w[this].bytes + src)])
    {
      assert Shows(this, w[this]);
      SoleView(w, this);
      IntactWithout(w, this);
      ghost var c := w[this].bytes;
      ghost var was := physical.bytes[..];
      CopyInto(physical.bytes, data + length, src);
      ExtendedWindow(was, physical.bytes[..], data, length, src);
      length := length + |src|;
      Rewritten(w, this, View(physical, c + src));
    }

    // -------------------------------------------------------------- assignment and moves

    /** Copy assignment: off the old ring, then one more view on rhs's bytes. */
    method AssignCopy(rhs: Buffer, ghost r: seq<Buffer>, ghost w: World)
      requires IsRing(r) && r[0] == this && this in w && rhs in w && Live(w)
      modifies this, next`prev, prev`next, physical, rhs.physical
      ensures this == rhs ==> IsRing(r) && Live(w)
      ensures this != rhs ==> IsRing([this]) && (|r| > 1 ==> IsRing(r[1..])) && Live(w[this := w[rhs]])
    {
      if this == rhs {
        return;
      }
      var rest := Unlink(r);
      CopyView(rhs, w);
    }

    /** The view half of copy assignment. */
    method CopyView(rhs: Buffer, ghost w: World)
      requires this != rhs && this in w && rhs in w && Live(w)
      modifies this`physical, this`data, this`length, physical, rhs.physical
      ensures Live(w[this := w[rhs]])
    {
      var freed := Release(w);
      ghost var rest := w - {this};
      assert Shows(rhs, rest[rhs]);
      Attach(rhs, 0, rhs.length, rest);
      assert w[rhs].bytes[0..rhs.length] == w[rhs].bytes;
      assert rest[this := w[rhs]] == w[this := w[rhs]];
    }

    /** Move construction: the new buffer takes rhs's view and place; rhs becomes standalone and empty. */
    method MoveFrom(rhs: Buffer, ghost r: seq<Buffer>, ghost w: World)
      requires IsRing(r) && r[0] == rhs && this !in r && rhs in w && this !in w && Live(w)
      modifies this, rhs, rhs.next`prev, rhs.prev`next
      ensures IsRing([this] + r[1..]) && IsRing([rhs])
      ensures Live(w[this := w[rhs]][rhs := View(null, [])])
    {
      TakePlace(rhs, r);
      TakeView(rhs, w);
    }

    method TakeView(rhs: Buffer, ghost w: World)
      requires rhs in w && Live(w) && this !in w
      modifies this`physical, this`data, this`length, rhs`physical, rhs`data, rhs`length
      ensures Live(w[this := w[rhs]][rhs := View(null, [])])
    {
      assert Shows(rhs, w[rhs]);
      IntactWithout(w, rhs);
      physical, data, length := rhs.physical, rhs.data, rhs.length;
      rhs.physical, rhs.data, rhs.length := null, 0, 0;
      MovedView(w, this, rhs);
    }

    /** Move assignment from another ring: this leaves its ring and takes rhs's place and view. */
    method AssignMove(rhs: Buffer, ghost r: seq<Buffer>, ghost q: seq<Buffer>, ghost w: World)
      requires IsRing(r) && r[0] == this && IsRing(q) && q[0] == rhs && Disjoint(r, q)
      requires this in w && rhs in w && Live(w)
      modifies this, next`prev, prev`next, rhs, rhs.next`prev, rhs.prev`next, physical
      ensures IsRing([this] + q[1..]) && IsRing([rhs]) && (|r| > 1 ==> IsRing(r[1..]))
      ensures Live(w[this := w[rhs]][rhs := View(null, [])])
    {
      TakeOver(rhs, w);
      MoveBetweenRings(rhs, r, q);
    }

    /** Move assignment when both nodes are on one ring r and rhs is r[k]: this leaves its place for rhs's. */
    method AssignMoveWithin(rhs: Buffer, ghost r: seq<Buffer>, ghost k: nat, ghost w: World)
      requires IsRing(r) && r[0] == this && 0 < k < |r| && r[k] == rhs && this in w && rhs in w && Live(w)
      modifies this, r`next, r`prev, rhs, physical
      ensures IsRing([this] + (r[k + 1..] + r[1..k])) && IsRing([rhs])
      ensures Live(w[this := w[rhs]][rhs := View(null, [])])
    {
      TakeOver(rhs, w);
      MoveWithinRing(rhs, r, k);
    }

    method MoveBetweenRings(rhs: Buffer, ghost r: seq<Buffer>, ghost q: seq<Buffer>)
      requires IsRing(r) && r[0] == this && IsRing(q) && q[0] == rhs && Disjoint(r, q)
      modifies this`next, this`prev, next`prev, prev`next, rhs`next, rhs`prev, rhs.next`prev, rhs.prev`next
      ensures IsRing([this] + q[1..]) && IsRing([rhs]) && (|r| > 1 ==> IsRing(r[1..]))
    {
      UnlinkFromRing(r);
      TakePlace(rhs, q);
    }

    /** The view half of move assignment. */
    method TakeOver(rhs: Buffer, ghost w: World)
      requires this != rhs && this in w && rhs in w && Live(w)
      modifies this`physical, this`data, this`length, rhs`physical, rhs`data, rhs`length, physical
      ensures Live(w[this := w[rhs]][rhs := View(null, [])])
    {
      var freed := Release(w);
      ghost var rest := w - {this};
      TakeView(rhs, rest);
      assert rest[this := w[rhs]][rhs := View(null, [])] == w[this := w[rhs]][rhs := View(null, [])];
    }

    // -------------------------------------------------------------- rings

    method MakeSelfRing()
      modifies this`next, this`prev
      ensures IsRing([this])
    {
      next, prev := this, this;
    }

    method TakePlace(rhs: Buffer, ghost r: seq<Buffer>)
      requires IsRing(r) && r[0] == rhs && this !in r
      modifies this`next, this`prev, rhs`next, rhs`prev, rhs.next`prev, rhs.prev`next
      ensures IsRing([this] + r[1..]) && IsRing([rhs])
    {
      StealRingPosition(rhs, r);
      rhs.MakeSelfRing();
    }

    /** Leaves rhs's own links dangling. */
    method StealRingPosition(rhs: Buffer, ghost r: seq<Buffer>)
      requires IsRing(r) && r[0] == rhs && this !in r
      modifies this`next, this`prev, rhs.next`prev, rhs.prev`next
      ensures IsRing([this] + r[1..])
    {
      if rhs.next == rhs {
        RingOfOne(r);
        assert [this] + r[1..] == [this];
        MakeSelfRing();
        return;
      }
      next := rhs.next;
      prev := rhs.prev;
      next.prev := this;
      prev.next := this;
    }

    /** Append other's ring after the tail of this ring. */
    method AppendChain(other: Buffer, ghost r: seq<Buffer>, ghost q: seq<Buffer>)
      requires IsRing(r) && r[0] == this && IsRing(q) && q[0] == other && Disjoint(r, q)
      modifies this`prev, prev`next, other`prev, other.prev`next
      ensures IsRing(r + q)
    {
      var thisTail := prev;
      var otherTail := other.prev;
      thisTail.next := other;
      other.prev := thisTail;
      otherTail.next := this;
      this.prev := otherTail;
    }

    /** Insert other's ring before this node: the same cycle, in which other's ring comes first seen from other. */
    method PrependChain(other: Buffer, ghost r: seq<Buffer>, ghost q: seq<Buffer>)
      requires IsRing(r) && r[0] == this && IsRing(q) && q[0] == other && Disjoint(r, q)
      modifies this`prev, prev`next, other`prev, other.prev`next
      ensures IsRing(r + q) && IsRing(q + r)
    {
      var otherTail := other.prev;
      otherTail.next := this;
      var thisPrev := this.prev;
      thisPrev.next := other;
      other.prev := thisPrev;
      this.prev := otherTail;
      Rotate(r, q);
    }

    /** Leaves this node's own links dangling. */
    method UnlinkFromRing(ghost r: seq<Buffer>)
      requires IsRing(r) && r[0] == this
      modifies next`prev, prev`next
      ensures |r| > 1 ==> IsRing(r[1..])
      ensures |r| == 1 ==> IsRing(r)
    {
      prev.next := next;
      next.prev := prev;
    }

    method Unlink(ghost r: seq<Buffer>) returns (rest: Buffer?)
      requires IsRing(r) && r[0] == this
      modifies this`next, this`prev, next`prev, prev`next
      ensures IsRing([this])
      ensures |r| == 1 ==> rest == null
      ensures |r| > 1 ==> rest == r[1] && IsRing(r[1..])
    {
      if next == this {
        RingOfOne(r);
        assert r == [this];
        return null;
      }
      rest := next;
      UnlinkFromRing(r);
      MakeSelfRing();
    }

    /** Ring half of move assignment when both nodes are on one ring. */
    method MoveWithinRing(rhs: Buffer, ghost r: seq<Buffer>, ghost k: nat)
      requires IsRing(r) && r[0] == this && 0 < k < |r| && r[k] == rhs
      modifies this`next, this`prev, r`next, r`prev
      ensures IsRing([this] + (r[k + 1..] + r[1..k])) && IsRing([rhs])
    {
      UnlinkFromRing(r);
      RestOfRing(r, k);
      TakePlace(rhs, r[k..] + r[1..k]);
    }

    /** The left ring is exactly the predecessor and this node; a ring of two is left as it is. */
    method SplitChainAfter(ghost r: seq<Buffer>) returns (rh: Buffer?)
      requires IsRing(r) && r[0] == this
      modifies this`next, next`prev, prev`prev, prev.prev`next
      ensures |r| == 1 ==> rh == null && IsRing(r)
      ensures |r| >= 2 ==> rh == r[1] && IsRing(BuiltLeft(r)) && IsRing(BuiltRight(r))
      ensures |r| == 2 ==> IsRing(r)
    {
      if next == this {
        RingOfOne(r);
        return null;
      }
      rh := next;
      var lh := prev;
      var rt := lh.prev;
      assert |r| >= 3 ==> rt == r[|r| - 2];
      this.next := lh;
      lh.prev := this;
      rt.next := rh;
      rh.prev := rt;
    }

    /** CountChainElements: walk next until back at this node. */
    method CountChainElements(ghost r: seq<Buffer>) returns (count: nat)
      requires IsRing(r) && r[0] == this
      ensures count == |r|
    {
      count := 1;
      var cur := next;
      while cur != this
        invariant 1 <= count <= |r|
        invariant cur == if count < |r| then r[count] else this
        decreases |r| - count
      {
        count := count + 1;
        cur := cur.next;
      }
    }
  }

  // ---------------------------------------------------------------- rings

  /** The nodes after r[0], read from r[k] on. */
  lemma RestMembers(r: seq<Buffer>, k: nat)
    requires 0 < k < |r| && r[0] !in r[1..]
    ensures var q := r[k..] + r[1..k];
            q[0] == r[k] && q[1..] == r[k + 1..] + r[1..k] && r[0] !in q && forall b <- q :: b in r
  {
    var a, b := r[1..k], r[k..];
    assert r[1..] == a + b;
    var q := b + a;
    assert q[1..] == b[1..] + a;
    forall x | x in q ensures x in r[1..] && x in r {
      assert x in a + b;
    }
  }

  /** Once r[0] is off the ring, the rest read from r[k] on. */
  lemma RestOfRing(r: seq<Buffer>, k: nat)
    requires 0 < k < |r| && IsRing(r[1..]) && r[0] !in r[1..]
    ensures var q := r[k..] + r[1..k];
            IsRing(q) && q[1..] == r[k + 1..] + r[1..k] && q[0] == r[k] && r[0] !in q &&
            q[0].next in r && q[0].prev in r
  {
    var a, b := r[1..k], r[k..];
    assert r[1..] == a + b;
    Rotate(a, b);
    NeighboursOnRing(b + a);
    RestMembers(r, k);
  }

  /** next and prev are mutually inverse and run through exactly the buffers of s as one cycle. */
  ghost predicate IsRing(s: seq<Buffer>)
    reads s`next, s`prev
  {
    |s| > 0 && (forall i, j :: 0 <= i < j < |s| ==> s[i] != s[j]) &&
    (forall i {:trigger s[i].next} :: 0 <= i < |s| ==> s[i].next == s[if i + 1 < |s| then i + 1 else 0]) &&
    (forall i {:trigger s[i].prev} :: 0 <= i < |s| ==> s[i].prev == s[if i > 0 then i - 1 else |s| - 1])
  }

  ghost predicate Disjoint(s: seq<Buffer>, t: seq<Buffer>)
  {
    forall i, j :: 0 <= i < |s| && 0 <= j < |t| ==> s[i] != t[j]
  }

  lemma RingOfOne(s: seq<Buffer>)
    requires IsRing(s) && s[0].next == s[0]
    ensures |s| == 1
  {
  }

  lemma NeighboursOnRing(s: seq<Buffer>)
    requires IsRing(s)
    ensures s[0].next in s && s[0].prev in s
  {
    assert s[0].next == s[if 1 < |s| then 1 else 0] && s[0].prev == s[|s| - 1];
  }

  /** A ring may be read from any of its nodes. */
  lemma Rotate(a: seq<Buffer>, b: seq<Buffer>)
    requires IsRing(a + b)
    ensures IsRing(b + a)
  {
    var s, t := a + b, b + a;
    forall i | 0 <= i < |t| ensures t[i] == s[if i < |b| then |a| + i else i - |b|] {
    }
    forall i | 0 <= i < |t|
      ensures t[i].next == t[if i + 1 < |t| then i + 1 else 0] && t[i].prev == t[if i > 0 then i - 1 else |t| - 1]
    {
      var k := if i < |b| then |a| + i else i - |b|;
      assert t[i] == s[k];
      assert s[k].next == s[if k + 1 < |s| then k + 1 else 0];
      assert s[k].prev == s[if k > 0 then k - 1 else |s| - 1];
    }
  }

  /** The rings the header promises when the caller's head is j nodes before the split point r[0]. */
  function DocumentedLeft(r: seq<Buffer>, j: nat): seq<Buffer>
    requires j < |r|
  {
    r[|r| - j..] + [r[0]]
  }

  function DocumentedRight(r: seq<Buffer>, j: nat): seq<Buffer>
    requires j < |r|
  {
    r[1..|r| - j]
  }

  /** The rings that come about: of this node, and of the node returned; on a ring of two they are one. */
  function BuiltLeft(r: seq<Buffer>): seq<Buffer>
    requires |r| >= 2
  {
    [r[|r| - 1], r[0]]
  }

  function BuiltRight(r: seq<Buffer>): seq<Buffer>
    requires |r| >= 2
  {
    if |r| == 2 then [r[1], r[0]] else r[1..|r| - 1]
  }

  /** Both are the promised ones exactly when there are three nodes or more and the head directly precedes the node. */
  lemma SplitMatchesDocumentation(r: seq<Buffer>, j: nat)
    requires j < |r| && |r| >= 2
    ensures DocumentedLeft(r, j) == BuiltLeft(r) && DocumentedRight(r, j) == BuiltRight(r) <==> |r| >= 3 && j == 1
  {
    assert |DocumentedLeft(r, j)| == j + 1;
    assert |DocumentedRight(r, j)| == if j + 1 < |r| then |r| - j - 1 else 0;
  }

  // ---------------------------------------------------------------- worlds

  function Overwritten(c: seq<Byte>, off: nat, src: seq<Byte>): (d: seq<Byte>)
    requires off + |src| <= |c|
    ensures |d| == |c|
  {
    c[..off] + src + c[off + |src|..]
  }

  /** src written inside the window of n elements at d. */
  lemma PatchedWindow(s: seq<Byte>, t: seq<Byte>, d: nat, n: nat, off: nat, src: seq<Byte>)
    requires off + |src| <= n && d + n <= |s| && t == s[..d + off] + src + s[d + off + |src|..]
    ensures t[d..d + n] == Overwritten(s[d..d + n], off, src)
  {
    var x, y := t[d..d + n], Overwritten(s[d..d + n], off, src);
    forall i | 0 <= i < n ensures x[i] == y[i] {
      assert x[i] == t[d + i];
      assert i < off || i >= off + |src| ==> y[i] == s[d + i];
    }
  }

  /** src written right after it. */
  lemma ExtendedWindow(s: seq<Byte>, t: seq<Byte>, d: nat, n: nat, src: seq<Byte>)
    requires d + n + |src| <= |s| && t == s[..d + n] + src + s[d + n + |src|..]
    ensures t[d..d + n + |src|] == s[d..d + n] + src
  {
  }

  /** b is the view v: on its store, inside it, with its bytes. */
  ghost predicate Shows(b: Buffer, v: View)
    reads b`physical, b`data, b`length, if v.store == null then {} else {v.store.bytes}
  {
    b.physical == v.store && b.length == |v.bytes| &&
    if v.store == null then b.data == 0 && v.bytes == []
    else b.data + b.length <= v.store.bytes.Length && v.store.bytes[b.data..b.data + b.length] == v.bytes
  }

  ghost function MemoryOf(w: World): set<array<Byte>>
  {
    set b | b in w && w[b].store != null :: w[b].store.bytes
  }

  /** Every buffer of w is as w has it. */
  ghost predicate Intact(w: World)
    reads w.Keys`physical, w.Keys`data, w.Keys`length, MemoryOf(w)
  {
    forall b {:trigger Shows(b, w[b])} :: b in w ==> Shows(b, w[b])
  }

  /** Different stores have different memory. */
  ghost predicate Separate(w: World)
  {
    forall p, q :: p in StoresOf(w) && q in StoresOf(w) && p.bytes == q.bytes ==> p == q
  }

  ghost function Viewers(w: World, p: Store): set<Buffer>
  {
    set b | b in w && w[b].store == p
  }

  ghost function StoresOf(w: World): set<Store>
  {
    set b | b in w && w[b].store != null :: w[b].store
  }

  /** q's reference count is the number of its views, or d more if q is p. */
  ghost predicate CountedAt(w: World, q: Store, p: Store?, d: int)
    reads q
  {
    q.refCount == |Viewers(w, q)| + if q == p then d else 0
  }

  ghost predicate Counted(w: World, p: Store?, d: int)
    reads StoresOf(w)
  {
    forall q {:trigger CountedAt(w, q, p, d)} :: q in StoresOf(w) ==> CountedAt(w, q, p, d)
  }

  ghost predicate Live(w: World)
    reads w.Keys`physical, w.Keys`data, w.Keys`length, MemoryOf(w), StoresOf(w)
  {
    Intact(w) && Separate(w) && Counted(w, null, 0)
  }

  /** No view of w is on p or shares its memory. */
  ghost predicate NewTo(w: World, p: Store)
  {
    forall q <- StoresOf(w) :: q != p && q.bytes != p.bytes
  }

  lemma SubView(b: Buffer, src: Buffer, v: View, offset: nat, len: nat)
    requires Shows(src, v) && offset + len <= |v.bytes|
    requires b.physical == src.physical && b.data == src.data + offset && b.length == len
    ensures Shows(b, View(v.store, v.bytes[offset..offset + len]))
  {
  }

  lemma IntactWith(w: World, b: Buffer, v: View)
    requires Intact(w - {b}) && Shows(b, v)
    ensures Intact(w[b := v])
  {
    var w' := w[b := v];
    forall c | c in w' ensures Shows(c, w'[c]) {
      assert c != b ==> Shows(c, (w - {b})[c]);
    }
  }

  lemma IntactWithout(w: World, b: Buffer)
    requires Intact(w)
    ensures Intact(w - {b})
  {
    var w' := w - {b};
    forall c | c in w' ensures Shows(c, w'[c]) {
      assert Shows(c, w[c]);
    }
  }

  /** With p null nothing is off. */
  lemma CountedNull(w: World, d: int)
    requires Counted(w, null, 0)
    ensures Counted(w, null, d)
  {
    forall q | q in StoresOf(w) ensures CountedAt(w, q, null, d) {
      assert CountedAt(w, q, null, 0);
    }
  }

  lemma CountedOnce(w: World, b: Buffer)
    requires b in w && w[b].store != null && Counted(w, null, 0)
    ensures w[b].store.refCount > 0
  {
    assert CountedAt(w, w[b].store, null, 0) && b in Viewers(w, w[b].store);
  }

  /** Every store of w is a store of w'. */
  lemma StoresWithin(w: World, w': World)
    requires forall b <- w :: w[b].store != null ==> w[b].store in StoresOf(w')
    ensures StoresOf(w) <= StoresOf(w')
  {
  }

  /** One more view on a store that is viewed and has been retained once more. */
  lemma AddView(w: World, b: Buffer, v: View, src: Buffer)
    requires b !in w && src in w && w[src].store == v.store
    requires Intact(w) && Separate(w) && Counted(w, v.store, 1) && Shows(b, v)
    ensures Live(w[b := v])
  {
    var w' := w[b := v];
    assert w - {b} == w;
    IntactWith(w, b, v);
    forall c | c in w' && w'[c].store != null ensures w'[c].store in StoresOf(w) {
      assert w'[c].store == w[if c == b then src else c].store;
    }
    StoresWithin(w', w);
    forall q | q in StoresOf(w') ensures CountedAt(w', q, null, 0) {
      assert CountedAt(w, q, v.store, 1);
      assert Viewers(w', q) == if q == v.store then Viewers(w, q) + {b} else Viewers(w, q);
    }
  }

  /** A view with a store of its own joins. */
  lemma AddOwner(w: World, b: Buffer, v: View)
    requires b !in w && Live(w) && Shows(b, v) && v.store != null && v.store.refCount == 1 && NewTo(w, v.store)
    ensures Live(w[b := v])
  {
    var w' := w[b := v];
    assert w - {b} == w;
    IntactWith(w, b, v);
    forall q | q in StoresOf(w') ensures q == v.store || q in StoresOf(w) {
    }
    forall q | q in StoresOf(w') ensures CountedAt(w', q, null, 0) {
      if q == v.store {
        assert Viewers(w', q) == {b};
      } else {
        assert CountedAt(w, q, null, 0);
        assert Viewers(w', q) == Viewers(w, q);
      }
    }
  }

  /** A view whose store has been released once goes away. */
  lemma DropView(w: World, b: Buffer)
    requires b in w && Intact(w) && Separate(w) && Counted(w, w[b].store, -1)
    ensures Live(w - {b})
  {
    var w' := w - {b};
    IntactWithout(w, b);
    StoresWithin(w', w);
    forall q | q in StoresOf(w') ensures CountedAt(w', q, null, 0) {
      assert CountedAt(w, q, w[b].store, -1);
      assert Viewers(w, q) == if q == w[b].store then Viewers(w', q) + {b} else Viewers(w', q);
    }
  }

  /** The bytes of one view change, its store does not. */
  lemma Rewritten(w: World, b: Buffer, v: View)
    requires b in w && w[b].store == v.store && Shows(b, v)
    requires Intact(w - {b}) && Separate(w) && Counted(w, null, 0)
    ensures Live(w[b := v])
  {
    var w' := w[b := v];
    IntactWith(w, b, v);
    forall c | c in w' && w'[c].store != null ensures w'[c].store in StoresOf(w) {
      assert w'[c].store == w[c].store;
    }
    StoresWithin(w', w);
    forall q | q in StoresOf(w') ensures CountedAt(w', q, null, 0) {
      assert CountedAt(w, q, null, 0);
      assert Viewers(w', q) == Viewers(w, q);
    }
  }

  /** b has taken over the view of rhs, which views nothing now. */
  lemma MovedView(w: World, b: Buffer, rhs: Buffer)
    requires b !in w && rhs in w && Shows(b, w[rhs]) && Shows(rhs, View(null, []))
    requires Intact(w - {rhs}) && Separate(w) && Counted(w, null, 0)
    ensures Live(w[b := w[rhs]][rhs := View(null, [])])
  {
    var w' := w[b := w[rhs]][rhs := View(null, [])];
    IntactWith(w, rhs, View(null, []));
    assert w' - {b} == w[rhs := View(null, [])];
    IntactWith(w', b, w[rhs]);
    assert w'[b := w[rhs]] == w';
    forall c | c in w' && w'[c].store != null ensures w'[c].store in StoresOf(w) {
      assert w'[c].store == w[if c == b then rhs else c].store;
    }
    StoresWithin(w', w);
    forall q | q in StoresOf(w') ensures CountedAt(w', q, null, 0) {
      assert CountedAt(w, q, null, 0);
      SwapCount(w, b, rhs, q);
    }
  }

  lemma SwapCount(w: World, b: Buffer, rhs: Buffer, q: Store)
    requires b !in w && rhs in w
    ensures |Viewers(w[b := w[rhs]][rhs := View(null, [])], q)| == |Viewers(w, q)|
  {
    var w' := w[b := w[rhs]][rhs := View(null, [])];
    if q == w[rhs].store {
      assert Viewers(w', q) == Viewers(w, q) - {rhs} + {b};
    } else {
      assert Viewers(w', q) == Viewers(w, q);
    }
  }

  /** The count is 1 exactly if there is no other view. */
  lemma LastView(w: World, b: Buffer)
    requires Counted(w, null, 0) && b in w
    ensures w[b].store != null ==> (w[b].store.refCount == 1 <==> forall c <- w :: c != b ==> w[c].store != w[b].store)
  {
    if w[b].store != null {
      var vs := Viewers(w, w[b].store);
      assert CountedAt(w, w[b].store, null, 0) && b in vs;
      if forall c <- w :: c != b ==> w[c].store != w[b].store {
        assert vs == {b};
      } else {
        var c :| c in w && c != b && w[c].store == w[b].store;
        assert vs == {b, c} + (vs - {b, c});
      }
    }
  }

  /** An unshared store has no other view, and nobody else has its memory. */
  lemma SoleView(w: World, b: Buffer)
    requires Live(w) && b in w && w[b].store != null && w[b].store.refCount <= 1
    ensures NewTo(w - {b}, w[b].store) && w[b].store.bytes !in MemoryOf(w - {b})
  {
    CountedOnce(w, b);
    LastView(w, b);
    var rest := w - {b};
    StoresWithin(rest, w);
    forall c | c in rest && rest[c].store != null ensures rest[c].store.bytes != w[b].store.bytes {
      assert w[c].store in StoresOf(w) && w[b].store in StoresOf(w);
    }
  }

  // ---------------------------------------------------------------- tailroom of a slice

  lemma NewWorld(b: Buffer)
    requires b.physical != null && b.physical.refCount == 1 && b.data == 0 && b.length == 0
    ensures Live(map[b := View(b.physical, [])])
  {
    var w: World := map[];
    assert w[b := View(b.physical, [])] == map[b := View(b.physical, [])];
    AddOwner(w, b, View(b.physical, []));
  }

  /** A new buffer filled to the brim. */
  method FilledBuffer(bytes: seq<Byte>) returns (a: Buffer)
    ensures fresh(a) && a.physical != null && fresh(a.physical) && fresh(a.physical.bytes) && a.data == 0
    ensures Live(map[a := View(a.physical, bytes)])
  {
    a := new Buffer.Create(|bytes|);
    ghost var w: World := map[a := View(a.physical, [])];
    NewWorld(a);
    assert a.RoomFor(|bytes|).Enough?;
    var room := a.AppendData(bytes, w);
    assert [] + bytes == bytes;
    assert w[a := View(a.physical, bytes)] == map[a := View(a.physical, bytes)];
    assert Shows(a, map[a := View(a.physical, bytes)][a]);
  }

  /** A run that ends in appending n bytes to a slice: fill a new buffer, slice it, append. */
  method AppendToSlice(total: nat, offset: nat, len: nat, n: nat) returns (room: Room)
    requires offset + len <= total
    ensures room.Enough? <==> offset <= (len + n) / 2 + 64
    ensures room.Outside? <==> offset > (len + n) / 2 + 64 + n
  {
    var zero: Byte := 0;
    var bytes := seq(total, _ => zero);
    var a := FilledBuffer(bytes);
    ghost var w: World := map[a := View(a.physical, bytes)];
    var b := a.Slice(offset, len, w);
    ghost var w' := w[b := View(a.physical, bytes[offset..offset + len])];
    SlicedRoom(w', a, b, n);
    assert Shows(b, w'[b]);
    room := b.AppendData(seq(n, _ => zero), w');
  }

  lemma SlicedRoom(w: World, a: Buffer, b: Buffer, n: nat)
    requires Live(w) && a in w && b in w && a != b && w[a].store == w[b].store && w[a].store != null
    ensures b.Fits() && b.MustGrow(n) && b.Headroom() == b.data
    ensures b.RoomFor(n).Enough? <==> b.data <= (b.length + n) / 2 + 64
    ensures b.RoomFor(n).Outside? <==> b.data > (b.length + n) / 2 + 64 + n
    ensures b.length == |w[b].bytes|
  {
    assert Shows(b, w[b]);
    CountedOnce(w, a);
    LastView(w, a);
    b.RoomBounds(n);
  }

  /** One byte appended to 10 bytes at offset 900: the copy itself runs past the new store. */
  method CopyOverflows() returns (room: Room)
    ensures room.Outside?
  {
    room := AppendToSlice(1000, 900, 10, 1);
  }

  /** Ten bytes appended to 100 at offset 125: the view moves safely, and the append then runs past the store. */
  method AppendOverflows() returns (room: Room)
    ensures room.Short?
  {
    room := AppendToSlice(300, 125, 100, 10);
  }

  /** A new buffer at the end of a ring. */
  method Extend(a: Buffer, ghost r: seq<Buffer>) returns (b: Buffer, ghost q: seq<Buffer>)
    requires IsRing(r) && r[0] == a
    modifies a`prev, a.prev`next
    ensures fresh(b) && q == r + [b] && IsRing(q)
  {
    b := new Buffer();
    assert b !in r;
    NeighboursOnRing([b]);
    a.AppendChain(b, r, [b]);
    q := r + [b];
  }

  /** Four buffers in one ring, each appended to the first. */
  method RingOfFour() returns (a: Buffer, b: Buffer, c: Buffer, d: Buffer)
    ensures fresh(a) && fresh(b) && fresh(c) && fresh(d) && IsRing([a, b, c, d])
  {
    a := new Buffer();
    ghost var r := [a];
    NeighboursOnRing(r);
    b, r := Extend(a, r);
    NeighboursOnRing(r);
    c, r := Extend(a, r);
    NeighboursOnRing(r);
    d, r := Extend(a, r);
    assert r == [a, b, c, d];
  }

  /** Splitting it after the third is documented to leave the first three and the last; the head goes with the last. */
  method SplitMovesHead() returns (a: Buffer, b: Buffer, c: Buffer, d: Buffer, rh: Buffer?)
    ensures rh == d && IsRing([b, c]) && IsRing([d, a])
    ensures DocumentedLeft([c, d, a, b], 2) == [a, b, c] && DocumentedRight([c, d, a, b], 2) == [d]
  {
    a, b, c, d := RingOfFour();
    ghost var r := [c, d, a, b];
    assert [a, b] + [c, d] == [a, b, c, d] && [c, d] + [a, b] == r;
    Rotate([a, b], [c, d]);
    rh := SplitFresh(c, r);
  }

  /** The split of a ring of four. */
  method SplitFresh(c: Buffer, ghost r: seq<Buffer>) returns (rh: Buffer?)
    requires IsRing(r) && |r| == 4 && r[0] == c
    modifies r
    ensures rh == r[1] && IsRing([r[3], r[0]]) && IsRing([r[1], r[2]])
  {
    assert c.next == r[1] && c.prev == r[3] && r[3].prev == r[2];
    rh := c.SplitChainAfter(r);
    assert BuiltLeft(r) == [r[3], r[0]] && BuiltRight(r) == [r[1], r[2]];
  }
}
