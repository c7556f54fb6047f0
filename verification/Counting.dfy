/** Counted references: who holds a share of which object, and how many hold each. */
module Counting {
  import opened Wrappers

  /** A share is held by a handle variable, or by a thread that is in the middle of an assignment. */
  datatype Ref = Handle(v: nat) | Thread(t: nat)

  function Owners(owns: map<Ref, nat>, b: nat): set<Ref> {
    set r | r in owns && owns[r] == b
  }

  lemma NoOwners(owns: map<Ref, nat>, b: nat)
    requires |Owners(owns, b)| == 0
    ensures forall r | r in owns :: owns[r] != b
  {
    forall r | r in owns ensures owns[r] != b { assert r !in Owners(owns, b); }
  }

  lemma OwnersAddAt(owns: map<Ref, nat>, r: Ref, b: nat, c: nat)
    requires r !in owns
    ensures |Owners(owns[r := b], c)| == |Owners(owns, c)| + If(c == b)
  {
    assert Owners(owns[r := b], c) == if c == b then Owners(owns, c) + {r} else Owners(owns, c);
  }

  lemma OwnersRemoveAt(owns: map<Ref, nat>, r: Ref, c: nat)
    requires r in owns
    ensures |Owners(owns - {r}, c)| + If(c == owns[r]) == |Owners(owns, c)|
  {
    assert Owners(owns, c) == if c == owns[r] then Owners(owns - {r}, c) + {r} else Owners(owns - {r}, c);
  }

  lemma OwnersAdd(owns: map<Ref, nat>, r: Ref, b: nat)
    requires r !in owns
    ensures forall c :: |Owners(owns[r := b], c)| == |Owners(owns, c)| + If(c == b)
  {
    hide Owners;
    forall c ensures |Owners(owns[r := b], c)| == |Owners(owns, c)| + If(c == b) { OwnersAddAt(owns, r, b, c); }
  }

  lemma OwnersRemove(owns: map<Ref, nat>, r: Ref)
    requires r in owns
    ensures forall c :: |Owners(owns - {r}, c)| + If(c == owns[r]) == |Owners(owns, c)|
  {
    hide Owners;
    forall c ensures |Owners(owns - {r}, c)| + If(c == owns[r]) == |Owners(owns, c)| { OwnersRemoveAt(owns, r, c); }
  }

  /** Handing a share on changes no count. */
  lemma OwnersTransfer(owns: map<Ref, nat>, from: Ref, to: Ref)
    requires from in owns && to !in owns
    ensures forall c :: |Owners((owns - {from})[to := owns[from]], c)| == |Owners(owns, c)|
  {
    OwnersRemove(owns, from);
    OwnersAdd(owns - {from}, to, owns[from]);
  }

  /** Exchanging two shares changes no count. */
  lemma OwnersExchange(owns: map<Ref, nat>, x: Ref, y: Ref)
    requires x in owns && y in owns
    ensures forall c :: |Owners(owns[x := owns[y]][y := owns[x]], c)| == |Owners(owns, c)|
  {
    if x != y {
      var o: map<Ref, nat> := owns - {x} - {y};
      OwnersRemove(owns, x);
      OwnersRemove(owns - {x}, y);
      OwnersAdd(o, x, owns[y]);
      OwnersAdd(o[x := owns[y]], y, owns[x]);
      assert owns[x := owns[y]][y := owns[x]] == o[x := owns[y]][y := owns[x]];
    } else {
      assert owns[x := owns[y]][y := owns[x]] == owns;
    }
  }

  function AddAll(owns: map<Ref, nat>, vs: set<nat>, b: nat): map<Ref, nat> {
    owns + map v | v in vs :: Handle(v) := b
  }

  lemma {:induction false} OwnersAddAll(owns: map<Ref, nat>, vs: set<nat>, b: nat)
    requires forall v | v in vs :: Handle(v) !in owns
    ensures forall c :: |Owners(AddAll(owns, vs, b), c)| == |Owners(owns, c)| + (if c == b then |vs| else 0)
    decreases |vs|
  {
    if vs == {} {
      assert AddAll(owns, vs, b) == owns;
    } else {
      var v :| v in vs;
      OwnersAddAll(owns, vs - {v}, b);
      OwnersAdd(AddAll(owns, vs - {v}, b), Handle(v), b);
      assert AddAll(owns, vs, b) == AddAll(owns, vs - {v}, b)[Handle(v) := b];
    }
  }

  lemma {:induction false} FreshNumber(vs: set<nat>) returns (v: nat)
    ensures forall w | w in vs :: w < v
  {
    if vs == {} {
      v := 0;
    } else {
      var w :| w in vs;
      v := FreshNumber(vs - {w});
      v := if v > w then v else w + 1;
      assert forall x | x in vs :: x == w || x in vs - {w};
    }
  }
}
