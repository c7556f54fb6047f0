/**
 RcPtr and the slots it counts, as objects on the heap: each member function changes the
 pointer and the counters in place, and keeps every counter equal to the number of
 pointers to the slot. The handles of im_str have the same special members.
 */
module RcPtr {
  import opened Wrappers

  /** cnt is -1 without an object, 0 for an object nobody refers to yet, and otherwise the number of references. */
  class Slot {
    var cnt: int
    var alive: bool

    constructor Reserved()
      ensures cnt == 0 && alive
    {
      cnt, alive := 0, true;
    }

    method RcInc()
      modifies this`cnt
      ensures cnt == old(cnt) + 1
    {
      cnt := cnt + 1;
    }

    /** The last reference destroys the object and frees the slot. */
    method RcDec()
      modifies this
      ensures old(cnt) == 1 ==> cnt == -1 && !alive
      ensures old(cnt) != 1 ==> cnt == old(cnt) - 1 && alive == old(alive)
    {
      cnt := cnt - 1;
      if cnt == 0 {
        alive := false;
        cnt := -1;
      }
    }
  }

  /** Where all pointers point. */
  ghost function Targets(ptrs: set<Pointer>): map<Pointer, Slot?>
    reads ptrs
  {
    map p | p in ptrs :: p.ptr
  }

  ghost function Users(m: map<Pointer, Slot?>, x: Slot): set<Pointer> {
    set p | p in m && m[p] == x
  }

  /** The one legal content of a slot that n pointers refer to, except that an unreferenced one may be reserved. */
  predicate Counts(cnt: int, alive: bool, n: nat) {
    (cnt == n > 0 && alive) || (n == 0 && cnt == 0 && alive) || (n == 0 && cnt == -1 && !alive)
  }

  ghost predicate Exact(ptrs: set<Pointer>, slots: set<Slot>)
    reads ptrs, slots
  {
    && (forall p | p in ptrs && p.ptr != null :: p.ptr in slots)
    && (forall x | x in slots :: Counts(x.cnt, x.alive, |Users(Targets(ptrs), x)|))
  }

  lemma UsersUpdate(m: map<Pointer, Slot?>, p: Pointer, y: Slot?, x: Slot)
    requires p in m
    ensures |Users(m[p := y], x)| + If(m[p] == x) == |Users(m, x)| + If(y == x)
  {
    assert Users(m[p := y], x) - {p} == Users(m, x) - {p};
    assert |Users(m, x)| == |Users(m, x) - {p}| + If(p in Users(m, x));
    assert |Users(m[p := y], x)| == |Users(m[p := y], x) - {p}| + If(p in Users(m[p := y], x));
  }

  lemma UsersAdd(m: map<Pointer, Slot?>, p: Pointer, y: Slot?, x: Slot)
    requires p !in m
    ensures |Users(m[p := y], x)| == |Users(m, x)| + If(y == x)
  {
    assert Users(m[p := y], x) - {p} == Users(m, x);
  }

  lemma UsersRemove(m: map<Pointer, Slot?>, p: Pointer, x: Slot)
    requires p in m
    ensures |Users(m - {p}, x)| + If(m[p] == x) == |Users(m, x)|
  {
    assert Users(m - {p}, x) == Users(m, x) - {p};
  }

  lemma UsersMoved(m: map<Pointer, Slot?>, dst: Pointer, src: Pointer, x: Slot)
    requires dst in m && src in m
    ensures |Users(m[src := null][dst := m[src]], x)| + If(m[dst] == x)
         == |Users(m, x)| + if dst != src then 0 else If(m[dst] == x)
  {
    UsersUpdate(m, src, null, x);
    UsersUpdate(m[src := null], dst, m[src], x);
  }

  lemma UserCounts(m: map<Pointer, Slot?>, p: Pointer, x: Slot)
    requires p in m && m[p] == x
    ensures |Users(m, x)| > 0
  {
    assert p in Users(m, x);
  }

  class Pointer {
    var ptr: Slot?

    /** RcPtr( E* e ), on a slot that holds an object. ptrs and slots are all that exist. */
    constructor (e: Slot?, ghost ptrs: set<Pointer>, ghost slots: set<Slot>)
      requires Exact(ptrs, slots) && (e != null ==> e in slots && e.alive)
      modifies e
      ensures ptr == e && Exact(ptrs + {this}, slots)
    {
      ptr := e;
      new;
      if ptr != null { ptr.RcInc(); }
      assert Targets(ptrs + {this}) == old(Targets(ptrs))[this := e];
      forall x | x in slots { UsersAdd(old(Targets(ptrs)), this, e, x); }
    }

    constructor Copy(other: Pointer, ghost ptrs: set<Pointer>, ghost slots: set<Slot>)
      requires Exact(ptrs, slots) && other in ptrs
      modifies other.ptr
      ensures ptr == old(other.ptr) && Exact(ptrs + {this}, slots)
    {
      ptr := other.ptr;
      new;
      if ptr != null {
        UserCounts(Targets(ptrs), other, ptr);
        ptr.RcInc();
      }
      assert Targets(ptrs + {this}) == old(Targets(ptrs))[this := ptr];
      forall x | x in slots { UsersAdd(old(Targets(ptrs)), this, ptr, x); }
    }

    constructor Move(other: Pointer, ghost ptrs: set<Pointer>, ghost slots: set<Slot>)
      requires Exact(ptrs, slots) && other in ptrs
      modifies other
      ensures ptr == old(other.ptr) && other.ptr == null && Exact(ptrs + {this}, slots)
    {
      ptr := other.ptr;
      new;
      other.ptr := null;
      ghost var m := old(Targets(ptrs));
      ghost var m1: map<Pointer, Slot?> := m[other := null];
      assert Targets(ptrs + {this}) == m1[this := ptr];
      forall x | x in slots
        ensures |Users(m1[this := ptr], x)| == |Users(m, x)|
      {
        UsersUpdate(m, other, null, x);
        UsersAdd(m1, this, ptr, x);
      }
    }

    /** Increments before it decrements, so assigning a pointer to itself is harmless. */
    method CopyAssign(other: Pointer, ghost ptrs: set<Pointer>, ghost slots: set<Slot>)
      requires Exact(ptrs, slots) && this in ptrs && other in ptrs
      modifies this, ptr, other.ptr
      ensures ptr == old(other.ptr) && Exact(ptrs, slots)
      ensures old(ptr) != null ==> (old(ptr).alive <==> Users(Targets(ptrs), old(ptr)) != {})
    {
      ghost var m := Targets(ptrs);
      if other.ptr != null {
        UserCounts(m, other, other.ptr);
        other.ptr.RcInc();
      }
      if ptr != null {
        UserCounts(m, this, ptr);
        ptr.RcDec();
      }
      ptr := other.ptr;
      assert Targets(ptrs) == m[this := ptr];
      forall x | x in slots { UsersUpdate(m, this, ptr, x); }
    }

    /** Correct exactly if the pointer is not moved onto itself while it refers to something. */
    method MoveAssign(other: Pointer, ghost ptrs: set<Pointer>, ghost slots: set<Slot>)
      requires Exact(ptrs, slots) && this in ptrs && other in ptrs
      modifies this, other, ptr
      ensures ptr == old(other.ptr) && (this != other ==> other.ptr == null)
      ensures Exact(ptrs, slots) <==> this != other || old(ptr) == null
      ensures old(ptr) != null && this != other ==> (old(ptr).alive <==> Users(Targets(ptrs), old(ptr)) != {})
    {
      ghost var m := Targets(ptrs);
      if ptr != null {
        UserCounts(m, this, ptr);
        ptr.RcDec();
      }
      var p := other.ptr;
      other.ptr := null;
      ptr := p;
      ghost var m1: map<Pointer, Slot?> := m[other := null];
      assert Targets(ptrs) == m1[this := ptr];
      forall x | x in slots { UsersMoved(m, this, other, x); }
      if this == other && ptr != null { assert !Counts(ptr.cnt, ptr.alive, |Users(Targets(ptrs), ptr)|); }
    }

    /** reset( e ): a move assignment from a temporary pointer to e, which dies empty. */
    method Reset(e: Slot?, ghost ptrs: set<Pointer>, ghost slots: set<Slot>)
      requires Exact(ptrs, slots) && this in ptrs && (e != null ==> e in slots && e.alive)
      modifies this, ptr, e
      ensures ptr == e && Exact(ptrs, slots)
    {
      var tmp := new Pointer(e, ptrs, slots);
      MoveAssign(tmp, ptrs + {tmp}, slots);
      tmp.Destroy(ptrs + {tmp}, slots);
      assert ptrs + {tmp} - {tmp} == ptrs;
    }

    /** The destructor: afterwards this pointer is no longer one of ptrs. */
    method Destroy(ghost ptrs: set<Pointer>, ghost slots: set<Slot>)
      requires Exact(ptrs, slots) && this in ptrs
      modifies ptr
      ensures Exact(ptrs - {this}, slots)
      ensures old(ptr) != null ==> (ptr.alive <==> Users(Targets(ptrs - {this}), ptr) != {})
    {
      ghost var m := Targets(ptrs);
      if ptr != null {
        UserCounts(m, this, ptr);
        ptr.RcDec();
      }
      assert Targets(ptrs - {this}) == m - {this};
      forall x | x in slots { UsersRemove(m, this, x); }
    }
  }
}
