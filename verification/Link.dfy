/**
 Links that follow their target: a link points to its target, and the target's table of back
 references points to its links, so that a target can be moved without its links losing it.
 Both ends are objects changed in place. TwoWay says that the two directions agree.
 */
module Links {
  import opened Wrappers

  // ---------- tables as sequences ----------

  /** std::find: the first position of x, or the length. */
  function First(s: seq<Link?>, x: Link?): (r: nat)
    ensures r <= |s| && (forall j | 0 <= j < r :: s[j] != x)
    ensures r < |s| ==> s[r] == x
  {
    if s == [] || s[0] == x then 0 else 1 + First(s[1..], x)
  }

  /** Only the first x becomes y. */
  function Replace(s: seq<Link?>, x: Link?, y: Link?): seq<Link?> {
    if First(s, x) < |s| then s[First(s, x) := y] else s
  }

  function Nulls(n: nat): (s: seq<Link?>)
    ensures |s| == n && forall i | 0 <= i < n :: s[i] == null
  {
    seq(n, _ => null)
  }

  predicate NoLinks(s: seq<Link?>) { forall i | 0 <= i < |s| :: s[i] == null }

  function Occurrences(s: seq<Link?>, l: Link): nat { multiset(s)[l] }

  lemma FoundIfIn(s: seq<Link?>, x: Link?)
    ensures First(s, x) < |s| <==> x in s
  {
  }

  lemma ReplaceCounts(s: seq<Link?>, x: Link?, y: Link?, l: Link)
    requires x in s
    ensures |Replace(s, x, y)| == |s|
    ensures Occurrences(Replace(s, x, y), l) + If(l == x) == Occurrences(s, l) + If(l == y)
  {
    FoundIfIn(s, x);
    var m := multiset(s) - multiset{x} + multiset{y};
    assert multiset(Replace(s, x, y)) == m;
  }

  // ---------- the two-way relation ----------

  /** Where the links point, and what the tables of the targets hold. */
  type LinkMap = map<Link, LinkTarget?>
  type TableMap = map<LinkTarget, seq<Link?>>

  /** No dangling pointer either way, and a link is in t's table exactly once if it points to t, else not at all. */
  ghost predicate TwoWay(to: LinkMap, tab: TableMap) {
    && (forall l | l in to && to[l] != null :: to[l] in tab)
    && (forall t, l | t in tab && l in tab[t] && l != null :: l in to)
    && (forall l, t | l in to && t in tab :: Occurrences(tab[t], l) == If(to[l] == t))
  }

  lemma InTableIffPointing(to: LinkMap, tab: TableMap, l: Link, t: LinkTarget)
    requires TwoWay(to, tab) && t in tab
    ensures l in tab[t] <==> l in to && to[l] == t
  {
    assert l in tab[t] <==> l in multiset(tab[t]);
    assert l in to ==> Occurrences(tab[t], l) == If(to[l] == t);
  }

  lemma PointedTo(to: LinkMap, tab: TableMap, l: Link)
    requires TwoWay(to, tab) && l in to && to[l] != null
    ensures to[l] in tab && l in tab[to[l]]
  {
    InTableIffPointing(to, tab, l, to[l]);
  }

  lemma ReplaceMembers(s: seq<Link?>, x: Link?, y: Link?, l: Link)
    requires l in Replace(s, x, y)
    ensures l in s || l == y
  {
  }

  lemma FreshLink(to: LinkMap, tab: TableMap, l: Link)
    requires TwoWay(to, tab) && l !in to
    ensures TwoWay(to[l := null], tab)
  {
    forall t | t in tab ensures Occurrences(tab[t], l) == 0 { InTableIffPointing(to, tab, l, t); }
  }

  lemma TableChangeCount(to: LinkMap, tab: TableMap, t: LinkTarget, x: Link?, y: Link?, l: Link, u: LinkTarget)
    requires TwoWay(to, tab) && t in tab && x in tab[t] && x != y
    requires y != null ==> y in to && to[y] == null
    requires l in to && u in tab
    ensures Occurrences(if u == t then Replace(tab[t], x, y) else tab[u], l)
         == If((if l == y then t else if l == x then null else to[l]) == u)
  {
    InTableIffPointing(to, tab, l, t);
    ReplaceCounts(tab[t], x, y, l);
  }

  /** An entry x of t's table (null for a free one) is replaced by y, the links' targets change accordingly. */
  lemma TableChange(to: LinkMap, tab: TableMap, t: LinkTarget, x: Link?, y: Link?, to': LinkMap)
    requires TwoWay(to, tab) && t in tab && x in tab[t] && x != y
    requires y != null ==> y in to && to[y] == null
    requires to'.Keys == to.Keys
    requires forall l | l in to :: to'[l] == if l == y then t else if l == x then null else to[l]
    ensures TwoWay(to', tab[t := Replace(tab[t], x, y)])
  {
    hide Replace, Occurrences;
    forall l, u | l in to' && u in tab
      ensures Occurrences(if u == t then Replace(tab[t], x, y) else tab[u], l) == If(to'[l] == u)
    {
      TableChangeCount(to, tab, t, x, y, l, u);
    }
    forall l: Link | l in Replace(tab[t], x, y) ensures l in to' { ReplaceMembers(tab[t], x, y, l); }
  }

  /** A table that got l a second time loses the first of the two. */
  lemma ConnectAgain(to: LinkMap, tab: TableMap, t: LinkTarget, l: Link)
    requires TwoWay(to, tab) && l in to && to[l] == t && t in tab && null in tab[t]
    ensures TwoWay(to, tab[t := Replace(Replace(tab[t], null, l), l, null)])
  {
    var s := Replace(tab[t], null, l);
    var tab' := tab[t := Replace(s, l, null)];
    ReplaceCounts(tab[t], null, l, l);
    assert l in multiset(s);
    forall k, u | k in to && u in tab' ensures Occurrences(tab'[u], k) == If(to[k] == u) {
      ReplaceCounts(tab[t], null, l, k);
      ReplaceCounts(s, l, null, k);
    }
    forall u, k: Link | u in tab' && k in tab'[u] ensures k in to {
      if u == t {
        ReplaceMembers(s, l, null, k);
        ReplaceMembers(tab[t], null, l, k);
      }
    }
  }

  /** The tables after x is replaced by y in the table of t, if there is a t. */
  ghost function Replaced(tab: TableMap, t: LinkTarget?, x: Link?, y: Link?): TableMap
    requires t == null || t in tab
  {
    if t == null then tab else tab[t := Replace(tab[t], x, y)]
  }

  lemma ReplaceNothing(s: seq<Link?>, x: Link?, y: Link?)
    requires x !in s
    ensures Replace(s, x, y) == s
  {
  }

  lemma ReplacedIn(s: seq<Link?>, x: Link?, y: Link?)
    requires x in s
    ensures y in Replace(s, x, y)
    ensures forall z | z in s && z != x :: z in Replace(s, x, y)
  {
    FoundIfIn(s, x);
    var r := Replace(s, x, y);
    assert r[First(s, x)] == y;
    forall z | z in s && z != x ensures z in r {
      var i :| 0 <= i < |s| && s[i] == z;
      assert r[i] == z;
    }
  }

  lemma Leaving(to: LinkMap, tab: TableMap, l: Link)
    requires TwoWay(to, tab) && l in to
    ensures to[l] != null ==> to[l] in tab
    ensures TwoWay(to[l := null], Replaced(tab, to[l], l, null))
  {
    if to[l] == null {
      assert to[l := null] == to;
    } else {
      PointedTo(to, tab, l);
      TableChange(to, tab, to[l], l, null, to[l := null]);
    }
  }

  /** Leaving a table frees a slot of it. */
  lemma LeavingFrees(to: LinkMap, tab: TableMap, l: Link, t: LinkTarget)
    requires TwoWay(to, tab) && l in to && t in tab && (to[l] != null ==> to[l] in tab)
    ensures null in Replaced(tab, to[l], l, null)[t] <==> null in tab[t] || t == to[l]
  {
    if t == to[l] {
      PointedTo(to, tab, l);
      ReplacedIn(tab[t], l, null);
    }
  }

  lemma UnlistedLink(to: LinkMap, tab: TableMap, l: Link, t: LinkTarget)
    requires TwoWay(to, tab) && l in to && to[l] == null && t in tab
    ensures l !in tab[t] && !TwoWay(to[l := t], tab)
  {
    InTableIffPointing(to, tab, l, t);
    if TwoWay(to[l := t], tab) { InTableIffPointing(to[l := t], tab, l, t); }
  }

  /** l leaves its target and enters the one of o. */
  lemma CopyAssigned(to: LinkMap, tab: TableMap, l: Link, o: Link)
    requires TwoWay(to, tab) && l in to && o in to
    ensures (to[l] != null ==> to[l] in tab) && (to[o] != null ==> to[o] in tab)
    ensures TwoWay(to[l := to[o]], Replaced(Replaced(tab, to[l], l, null), to[o], null, l)) <==>
            to[o] == null || to[o] == to[l] || null in tab[to[o]]
  {
    hide Replace, Occurrences;
    Leaving(to, tab, l);
    var t, to1: LinkMap, tab1 := to[o], to[l := null], Replaced(tab, to[l], l, null);
    assert to1[l := t] == to[l := t];
    if t != null {
      LeavingFrees(to, tab, l, t);
      if null in tab1[t] {
        TableChange(to1, tab1, t, null, l, to1[l := t]);
      } else {
        UnlistedLink(to1, tab1, l, t);
        ReplaceNothing(tab1[t], null, l);
        assert tab1[t := tab1[t]] == tab1;
      }
    }
  }

  /** l leaves its target and takes over the entry of o. */
  lemma MoveAssigned(to: LinkMap, tab: TableMap, l: Link, o: Link)
    requires TwoWay(to, tab) && l in to && o in to
    ensures (to[l] != null ==> to[l] in tab) && (to[o] != null ==> to[o] in tab)
    ensures TwoWay(to[o := null][l := to[o]], Replaced(Replaced(tab, to[l], l, null), to[o], o, l)) <==>
            l != o || to[o] == null
  {
    hide Replace, Occurrences;
    Leaving(to, tab, l);
    var t, to1: LinkMap, tab1 := to[o], to[l := null], Replaced(tab, to[l], l, null);
    var to2: LinkMap := to[o := null][l := t];
    if t == null {
      assert to2 == to1;
    } else if l == o {
      UnlistedLink(to1, tab1, l, t);
      ReplaceNothing(tab1[t], o, l);
      assert tab1[t := tab1[t]] == tab1;
      assert to2 == to1[l := t];
    } else {
      PointedTo(to1, tab1, o);
      TableChange(to1, tab1, t, o, l, to2);
    }
  }

  /** l enters the table of t and then leaves the one it was in, which may be the same. */
  lemma ConnectKeepsTwoWay(to: LinkMap, tab: TableMap, l: Link, t: LinkTarget)
    requires TwoWay(to, tab) && l in to && t in tab && null in tab[t]
    ensures to[l] != null ==> to[l] in tab
    ensures TwoWay(to[l := t], Replaced(Replaced(tab, t, null, l), to[l], l, null))
  {
    hide Replace, Occurrences;
    Leaving(to, tab, l);
    var tab' := Replaced(Replaced(tab, t, null, l), to[l], l, null);
    if to[l] == t {
      ConnectAgain(to, tab, t, l);
      assert to[l := t] == to;
      assert tab' == tab[t := Replace(Replace(tab[t], null, l), l, null)];
    } else {
      var to1: LinkMap, tab1 := to[l := null], Replaced(tab, to[l], l, null);
      TableChange(to1, tab1, t, null, l, to1[l := t]);
      assert to1[l := t] == to[l := t];
      assert tab' == tab1[t := Replace(tab1[t], null, l)];
    }
  }

  function LinksOf(to: LinkMap, t: LinkTarget): set<Link> {
    set l | l in to && to[l] == t
  }

  lemma {:induction false} OnlyNulls(s: seq<Link?>)
    requires NoLinks(s)
    ensures multiset(s)[null] == |s|
  {
    if s != [] {
      OnlyNulls(s[1..]);
      assert s == [s[0]] + s[1..];
    }
  }

  /** A table with exactly one entry for each of the links in p has all its other entries free. */
  lemma {:induction false} FreeEntries(s: seq<Link?>, p: set<Link>)
    requires (forall l | l in p :: Occurrences(s, l) == 1) && forall i | 0 <= i < |s| && s[i] != null :: s[i] in p
    ensures |s| == |p| + multiset(s)[null]
    decreases |p|
  {
    if p == {} {
      OnlyNulls(s);
    } else {
      var l :| l in p;
      var s' := Replace(s, l, null);
      assert l in multiset(s);
      FoundIfIn(s, l);
      assert multiset(s') == multiset(s) - multiset{l} + multiset{null};
      forall k | k in p - {l} ensures Occurrences(s', k) == 1 { ReplaceCounts(s, l, null, k); }
      forall i | 0 <= i < |s'| && s'[i] != null ensures s'[i] in p - {l} {
        assert s'[i] in multiset(s') && Occurrences(s', s'[i]) > 0;
      }
      FreeEntries(s', p - {l});
    }
  }

  /** A target has room for another link exactly if fewer links than its table has entries point to it. */
  lemma RoomIffBelowCapacity(to: LinkMap, tab: TableMap, t: LinkTarget)
    requires TwoWay(to, tab) && t in tab
    ensures null in tab[t] <==> |LinksOf(to, t)| < |tab[t]|
  {
    forall i | 0 <= i < |tab[t]| && tab[t][i] != null ensures tab[t][i] in LinksOf(to, t) {
      InTableIffPointing(to, tab, tab[t][i], t);
    }
    FreeEntries(tab[t], LinksOf(to, t));
    assert null in tab[t] <==> null in multiset(tab[t]);
  }

  /** The links in s now point to t. */
  function Retargeted(to: LinkMap, s: seq<Link?>, t: LinkTarget?): LinkMap {
    map l | l in to :: if l in s then t else to[l]
  }

  lemma NullsCount(n: nat, l: Link)
    ensures Occurrences(Nulls(n), l) == 0
  {
    assert l !in Nulls(n);
    assert l !in multiset(Nulls(n));
  }

  /** n takes over the whole table of o, which is left empty. */
  lemma TakeOver(to: LinkMap, tab: TableMap, o: LinkTarget, n: LinkTarget)
    requires TwoWay(to, tab) && o in tab && n != o && (n in tab ==> NoLinks(tab[n]))
    ensures TwoWay(Retargeted(to, tab[o], n), tab[n := tab[o]][o := Nulls(|tab[o]|)])
  {
    var to', tab' := Retargeted(to, tab[o], n), tab[n := tab[o]][o := Nulls(|tab[o]|)];
    forall l, u | l in to' && u in tab' ensures Occurrences(tab'[u], l) == If(to'[l] == u) {
      NullsCount(|tab[o]|, l);
      InTableIffPointing(to, tab, l, o);
      if n in tab { InTableIffPointing(to, tab, l, n); }
    }
  }

  /** A link has no destructor, so it may only die unconnected. */
  lemma LinkMayDieIffUnconnected(to: LinkMap, tab: TableMap, l: Link)
    requires TwoWay(to, tab) && l in to
    ensures TwoWay(to - {l}, tab) <==> to[l] == null
  {
    if to[l] == null {
      forall t | t in tab ensures l !in tab[t] { InTableIffPointing(to, tab, l, t); }
    } else {
      InTableIffPointing(to, tab, l, to[l]);
    }
  }

  /** sever_all_links empties a table behind the back of its links. */
  lemma SeveringKeepsTwoWayIffUnlinked(to: LinkMap, tab: TableMap, t: LinkTarget)
    requires TwoWay(to, tab) && t in tab
    ensures TwoWay(to, tab[t := Nulls(|tab[t]|)]) <==> NoLinks(tab[t])
  {
    if NoLinks(tab[t]) {
      assert tab[t] == Nulls(|tab[t]|);
      assert tab[t := Nulls(|tab[t]|)] == tab;
    } else {
      var i :| 0 <= i < |tab[t]| && tab[t][i] != null;
      var l: Link := tab[t][i];
      InTableIffPointing(to, tab, l, t);
      NullsCount(|tab[t]|, l);
      assert Occurrences(tab[t := Nulls(|tab[t]|)][t], l) == 0;
    }
  }

  /** Taking over fails to keep the relation if n still had links of its own. */
  lemma TakeOverLosesLinks(to: LinkMap, tab: TableMap, o: LinkTarget, n: LinkTarget)
    requires TwoWay(to, tab) && o in tab && n in tab && !NoLinks(tab[n])
    ensures !TwoWay(Retargeted(to, if n == o then Nulls(|tab[o]|) else tab[o], n),
                    tab[n := tab[o]][o := Nulls(|tab[o]|)])
  {
    var i :| 0 <= i < |tab[n]| && tab[n][i] != null;
    var l: Link := tab[n][i];
    InTableIffPointing(to, tab, l, n);
    InTableIffPointing(to, tab, l, o);
    var tab' := tab[n := tab[o]][o := Nulls(|tab[o]|)];
    assert l !in tab'[n];
    assert l !in multiset(tab'[n]);
    assert Occurrences(tab'[n], l) == 0;
    assert n != o ==> l !in tab[o];
    assert Retargeted(to, if n == o then Nulls(|tab[o]|) else tab[o], n)[l] == n;
  }

  /** n is move-assigned from o, with the loss of its own links made explicit. */
  lemma MoveAssignedTarget(to: LinkMap, tab: TableMap, o: LinkTarget, n: LinkTarget)
    requires TwoWay(to, tab) && o in tab && n in tab
    ensures NoLinks(tab[n]) <==>
            TwoWay(Retargeted(to, if n == o then Nulls(|tab[o]|) else tab[o], n),
                   tab[n := tab[o]][o := Nulls(|tab[o]|)])
  {
    if n == o {
      assert Retargeted(to, Nulls(|tab[o]|), n) == to;
      assert tab[n := tab[o]] == tab;
      SeveringKeepsTwoWayIffUnlinked(to, tab, n);
    } else if NoLinks(tab[n]) {
      TakeOver(to, tab, o, n);
    } else {
      TakeOverLosesLinks(to, tab, o, n);
    }
  }

  lemma ListedLinks(to: LinkMap, tab: TableMap, t: LinkTarget)
    requires TwoWay(to, tab) && t in tab
    ensures forall l: Link | l in tab[t] :: l in to
  {
  }

  lemma DropTarget(to: LinkMap, tab: TableMap, t: LinkTarget)
    requires TwoWay(to, tab) && t in tab
    ensures TwoWay(Retargeted(to, tab[t], null), tab - {t})
  {
    var to', tab' := Retargeted(to, tab[t], null), tab - {t};
    forall l | l in to
      ensures to'[l] == if to[l] == t then null else to[l]
    {
      InTableIffPointing(to, tab, l, t);
    }
  }

  // ---------- the objects ----------

  ghost function To(links: set<Link>): LinkMap
    reads links
  {
    map l | l in links :: l.target
  }

  ghost function Stores(targets: set<LinkTarget>): set<object> {
    set t | t in targets :: t.table
  }

  function TableOf(t: LinkTarget?): set<object> {
    if t == null then {} else {t.table}
  }

  ghost function Tables(targets: set<LinkTarget>): TableMap
    reads Stores(targets)
  {
    map t | t in targets :: t.table[..]
  }

  /** Every target has a table of its own. */
  ghost predicate OwnTables(targets: set<LinkTarget>) {
    forall t, u | t in targets && u in targets && t != u :: t.table != u.table
  }

  /** links and targets are all that exist, every target has a table of its own, and the two directions agree. */
  ghost predicate Consistent(links: set<Link>, targets: set<LinkTarget>)
    reads links, Stores(targets)
  {
    && OwnTables(targets)
    && TwoWay(To(links), Tables(targets))
  }

  method CopyOf(a: array<Link?>) returns (b: array<Link?>)
    ensures fresh(b) && b[..] == a[..]
  {
    b := new Link?[a.Length](i requires 0 <= i < a.Length reads a => a[i]);
  }

  lemma OneMoreTarget(targets: set<LinkTarget>, t: LinkTarget)
    ensures Tables(targets + {t}) == Tables(targets)[t := t.table[..]]
  {
  }

  lemma TookOver(to: LinkMap, tab: TableMap, o: LinkTarget, n: LinkTarget, links: set<Link>, targets: set<LinkTarget>)
    requires TwoWay(to, tab) && o in tab && n !in tab && tab.Keys == targets && OwnTables(targets + {n})
    requires To(links) == Retargeted(to, tab[o], n)
    requires Tables(targets) == tab[o := Nulls(|tab[o]|)] && n.table[..] == tab[o]
    ensures Consistent(links, targets + {n})
  {
    hide TwoWay;
    TakeOver(to, tab, o, n);
    OneMoreTarget(targets, n);
    UpdatesCommute(tab, o, Nulls(|tab[o]|), n, tab[o]);
  }

  lemma UpdatesCommute(tab: TableMap, t: LinkTarget, s: seq<Link?>, u: LinkTarget, r: seq<Link?>)
    requires t != u
    ensures tab[t := s][u := r] == tab[u := r][t := s]
  {
  }

  class LinkTarget {
    const table: array<Link?>

    constructor (maxLinks: nat, ghost links: set<Link>, ghost targets: set<LinkTarget>)
      requires Consistent(links, targets)
      ensures fresh(table) && table.Length == maxLinks
      ensures Consistent(links, targets + {this}) && NoLinks(table[..])
    {
      table := new Link?[maxLinks](_ => null);
      new;
      assert table[..] == Nulls(maxLinks);
      forall l | l in links { NullsCount(maxLinks, l); }
      assert Tables(targets + {this}) == old(Tables(targets))[this := Nulls(maxLinks)];
    }

    method Find(x: Link?) returns (i: nat)
      ensures i == First(table[..], x)
    {
      i := 0;
      while i < table.Length && table[i] != x
        invariant i <= table.Length && forall j | 0 <= j < i :: table[j] != x
      {
        i := i + 1;
      }
    }

    method UpdateBackRef(oldAddr: Link?, newAddr: Link?, ghost targets: set<LinkTarget>) returns (ok: bool)
      requires OwnTables(targets) && this in targets
      modifies table
      ensures ok <==> oldAddr in old(table[..])
      ensures Tables(targets) == old(Tables(targets))[this := Replace(old(table[..]), oldAddr, newAddr)]
    {
      FoundIfIn(table[..], oldAddr);
      var i := Find(oldAddr);
      if i < table.Length {
        table[i] := newAddr;
        return true;
      } else {
        return false;
      }
    }

    method AddBackRef(newAddr: Link, ghost targets: set<LinkTarget>) returns (ok: bool)
      requires OwnTables(targets) && this in targets
      modifies table
      ensures ok <==> null in old(table[..])
      ensures Tables(targets) == old(Tables(targets))[this := Replace(old(table[..]), null, newAddr)]
    {
      FoundIfIn(table[..], null);
      var i := Find(null);
      if i < table.Length {
        table[i] := newAddr;
        return true;
      } else {
        return false;
      }
    }

    method RemoveBackRef(oldAddr: Link, ghost targets: set<LinkTarget>) returns (ok: bool)
      requires OwnTables(targets) && this in targets
      modifies table
      ensures ok <==> oldAddr in old(table[..])
      ensures Tables(targets) == old(Tables(targets))[this := Replace(old(table[..]), oldAddr, null)]
    {
      FoundIfIn(table[..], oldAddr);
      var i := Find(oldAddr);
      if i < table.Length {
        table[i] := null;
        return true;
      } else {
        return false;
      }
    }

    /** The loop of update_refs_after_move and of the destructor: the links in the table get a new target. */
    method Retarget(t: LinkTarget?, ghost links: set<Link>, ghost targets: set<LinkTarget>)
      requires forall l: Link | l in table[..] :: l in links
      modifies links
      ensures To(links) == Retargeted(old(To(links)), table[..], t)
      ensures table[..] == old(table[..]) && Tables(targets) == old(Tables(targets))
    {
      var i := 0;
      while i < table.Length
        invariant i <= table.Length
        invariant forall l | l in links :: l.target == if l in table[..i] then t else old(l.target)
      {
        if table[i] != null {
          table[i].target := t;
        }
        i := i + 1;
        assert table[..i] == table[..i - 1] + [table[i - 1]];
      }
      assert table[..i] == table[..];
    }

    /** The move constructor: the table of other, and the links in it, now belong to this. */
    constructor Move(other: LinkTarget, ghost links: set<Link>, ghost targets: set<LinkTarget>)
      requires Consistent(links, targets) && other in targets
      modifies other.table, links
      ensures fresh(table) && table[..] == old(other.table[..]) && NoLinks(other.table[..])
      ensures To(links) == Retargeted(old(To(links)), old(other.table[..]), this)
      ensures Consistent(links, targets + {this})
    {
      hide Replace, Occurrences, TwoWay;
      var store := CopyOf(other.table);
      table := store;
      new;
      ghost var to, tab := old(To(links)), old(Tables(targets));
      ListedLinks(to, tab, other);
      other.Clear(targets);
      Retarget(this, links, targets);
      TookOver(to, tab, other, this, links, targets);
    }

    method Clear(ghost targets: set<LinkTarget>)
      requires OwnTables(targets) && this in targets
      modifies table
      ensures table[..] == Nulls(table.Length)
      ensures Tables(targets) == old(Tables(targets))[this := Nulls(table.Length)]
    {
      forall i | 0 <= i < table.Length { table[i] := null; }
      assert table[..] == Nulls(table.Length);
      OnlyTableChanged(targets);
    }

    method CopyStore(other: LinkTarget, ghost targets: set<LinkTarget>)
      requires OwnTables(targets) && this in targets && other in targets && table.Length == other.table.Length
      modifies table
      ensures Tables(targets) == old(Tables(targets))[this := old(other.table[..])]
    {
      forall i | 0 <= i < table.Length { table[i] := other.table[i]; }
      assert table[..] == old(other.table[..]);
      OnlyTableChanged(targets);
    }

    twostate lemma OnlyTableChanged(targets: set<LinkTarget>)
      requires OwnTables(targets) && this in targets
      requires forall t | t in targets && t.table != table :: t.table[..] == old(t.table[..])
      ensures Tables(targets) == old(Tables(targets))[this := table[..]]
    {
    }

    /** Move assignment forgets the links this target had, so it is correct exactly if there were none. */
    method MoveAssign(other: LinkTarget, ghost links: set<Link>, ghost targets: set<LinkTarget>)
      requires Consistent(links, targets) && this in targets && other in targets
      requires table.Length == other.table.Length
      modifies table, other.table, links
      ensures table[..] == if this == other then Nulls(table.Length) else old(other.table[..])
      ensures this != other ==> other.table[..] == Nulls(table.Length)
      ensures To(links) == Retargeted(old(To(links)), table[..], this)
      ensures Consistent(links, targets) <==> NoLinks(old(table[..]))
    {
      hide Replace, Occurrences, TwoWay;
      MoveAssignedTarget(To(links), Tables(targets), other, this);
      ListedLinks(To(links), Tables(targets), other);
      CopyStore(other, targets);
      other.Clear(targets);
      ghost var tab := Tables(targets);
      assert table[..] == tab[this] && other.table[..] == tab[other];
      Retarget(this, links, targets);
      assert other.table[..] == tab[other];
    }

    /** The destructor lets the remaining links point nowhere. */
    method Destroy(ghost links: set<Link>, ghost targets: set<LinkTarget>)
      requires Consistent(links, targets) && this in targets
      modifies links
      ensures To(links) == Retargeted(old(To(links)), table[..], null)
      ensures Consistent(links, targets - {this})
    {
      hide Replace, Occurrences, TwoWay;
      DropTarget(To(links), Tables(targets), this);
      ListedLinks(To(links), Tables(targets), this);
      Retarget(null, links, targets);
      assert Tables(targets - {this}) == Tables(targets) - {this};
    }

    /** Empties the table but not the links. */
    method SeverAllLinks(ghost links: set<Link>, ghost targets: set<LinkTarget>)
      requires Consistent(links, targets) && this in targets
      modifies table
      ensures table[..] == Nulls(table.Length)
      ensures Consistent(links, targets) <==> NoLinks(old(table[..]))
    {
      hide Replace, Occurrences, TwoWay;
      SeveringKeepsTwoWayIffUnlinked(To(links), Tables(targets), this);
      Clear(targets);
    }
  }

  class Link {
    var target: LinkTarget?

    constructor (ghost links: set<Link>, ghost targets: set<LinkTarget>)
      requires Consistent(links, targets)
      ensures target == null && Consistent(links + {this}, targets)
    {
      target := null;
      new;
      FreshLink(old(To(links)), Tables(targets), this);
      assert To(links + {this}) == old(To(links))[this := null];
    }

    constructor Copy(other: Link, ghost links: set<Link>, ghost targets: set<LinkTarget>)
      requires Consistent(links, targets) && other in links
      modifies TableOf(other.target)
      ensures target == if other.target != null && null in old(other.target.table[..]) then other.target else null
      ensures Consistent(links + {this}, targets)
    {
      hide Replace, Occurrences, TwoWay;
      target := null;
      new;
      ghost var to, tab := old(To(links))[this := null], old(Tables(targets));
      FreshLink(old(To(links)), tab, this);
      assert To(links + {this}) == to && Tables(targets) == tab;
      if other.target != null {
        assert to[other] == other.target;
        PointedTo(to, tab, other);
        var ok := other.target.AddBackRef(this, targets);
        if ok {
          target := other.target;
          assert Tables(targets) == tab[target := Replace(tab[target], null, this)];
          TableChange(to, tab, target, null, this, To(links + {this}));
        } else {
          ReplaceNothing(tab[other.target], null, this);
          assert Tables(targets) == tab && To(links + {this}) == to;
        }
      }
    }

    constructor Move(other: Link, ghost links: set<Link>, ghost targets: set<LinkTarget>)
      requires Consistent(links, targets) && other in links
      modifies other, TableOf(other.target)
      ensures target == old(other.target) && other.target == null
      ensures Consistent(links + {this}, targets)
    {
      hide Replace, Occurrences, TwoWay;
      target := other.target;
      new;
      other.target := null;
      ghost var to, tab := old(To(links))[this := null], old(Tables(targets));
      FreshLink(old(To(links)), tab, this);
      assert Tables(targets) == tab;
      if target != null {
        assert to[other] == target;
        PointedTo(to, tab, other);
        var _ := target.UpdateBackRef(other, this, targets);
        TableChange(to, tab, target, other, this, To(links + {this}));
      } else {
        assert To(links + {this}) == to;
      }
    }

    /** The first step of both assignments; the pointer itself is not reset. */
    method Unregister(ghost targets: set<LinkTarget>)
      requires OwnTables(targets) && (target != null ==> target in targets)
      modifies TableOf(target)
      ensures Tables(targets) == Replaced(old(Tables(targets)), target, this, null)
    {
      if target != null {
        var _ := target.RemoveBackRef(this, targets);
      }
    }

    /** The result of add_back_ref is ignored: correct exactly if a slot is free once the old target is left. */
    method CopyAssign(other: Link, ghost links: set<Link>, ghost targets: set<LinkTarget>)
      requires Consistent(links, targets) && this in links && other in links
      modifies this, TableOf(target), TableOf(other.target)
      ensures target == old(other.target)
      ensures Consistent(links, targets) <==>
              target == null || target == old(target) || null in old(other.target.table[..])
    {
      hide Replace, Occurrences, TwoWay;
      CopyAssigned(To(links), Tables(targets), this, other);
      Unregister(targets);
      ghost var tab1 := Tables(targets);
      target := other.target;
      assert Tables(targets) == tab1;
      if target != null {
        var _ := target.AddBackRef(this, targets);
      }
      assert To(links) == old(To(links))[this := target];
    }

    /** Exchanges the other pointer for null. */
    method Take(other: Link, ghost links: set<Link>, ghost targets: set<LinkTarget>)
      requires this in links && other in links
      modifies this, other
      ensures target == old(other.target) && (this != other ==> other.target == null)
      ensures To(links) == old(To(links))[other := null][this := target]
      ensures Tables(targets) == old(Tables(targets))
    {
      var t := other.target;
      other.target := null;
      target := t;
    }

    /** Moving a connected link onto itself removes its entry but keeps it pointing. */
    method MoveAssign(other: Link, ghost links: set<Link>, ghost targets: set<LinkTarget>)
      requires Consistent(links, targets) && this in links && other in links
      modifies this, other, TableOf(target), TableOf(other.target)
      ensures target == old(other.target) && (this != other ==> other.target == null)
      ensures Consistent(links, targets) <==> this != other || target == null
    {
      hide Replace, Occurrences, TwoWay;
      MoveAssigned(To(links), Tables(targets), this, other);
      Unregister(targets);
      Take(other, links, targets);
      if target != null {
        var _ := target.UpdateBackRef(other, this, targets);
      }
    }

    method Disconnect(ghost links: set<Link>, ghost targets: set<LinkTarget>) returns (ok: bool)
      requires Consistent(links, targets) && this in links
      modifies this, TableOf(target)
      ensures ok <==> old(target) != null
      ensures target == null && Consistent(links, targets)
    {
      hide Replace, Occurrences, TwoWay;
      Leaving(To(links), Tables(targets), this);
      if target != null {
        var _ := target.RemoveBackRef(this, targets);
        target := null;
        assert To(links) == old(To(links))[this := null];
        assert Tables(targets) == Replaced(old(Tables(targets)), old(target), this, null);
        return true;
      } else {
        return false;
      }
    }

    /** Registers with the new target before it leaves the old one, so a full table leaves everything as it was. */
    method Connect(t: LinkTarget, ghost links: set<Link>, ghost targets: set<LinkTarget>) returns (ok: bool)
      requires Consistent(links, targets) && this in links && t in targets
      modifies this, t.table, TableOf(target)
      ensures ok <==> old(|LinksOf(To(links), t)|) < t.table.Length
      ensures target == if ok then t else old(target)
      ensures !ok ==> Tables(targets) == old(Tables(targets))
      ensures Consistent(links, targets)
    {
      hide Replace, Occurrences, TwoWay;
      RoomIffBelowCapacity(To(links), Tables(targets), t);
      ok := t.AddBackRef(this, targets);
      if ok {
        ConnectKeepsTwoWay(old(To(links)), old(Tables(targets)), this, t);
        ghost var tab1 := Tables(targets);
        // disconnect()
        if target != null {
          var _ := target.RemoveBackRef(this, targets);
          tab1 := Tables(targets);
          target := null;
        }
        target := t;
        assert Tables(targets) == tab1;
        assert To(links) == old(To(links))[this := t];
      } else {
        ReplaceNothing(old(t.table[..]), null, this);
        assert Tables(targets) == old(Tables(targets));
      }
    }
  }

  /** std::swap: one move construction and two move assignments exchange the complete link sets. */
  method Swap(a: LinkTarget, b: LinkTarget, ghost links: set<Link>, ghost targets: set<LinkTarget>)
    requires Consistent(links, targets) && a in targets && b in targets
    requires a.table.Length == b.table.Length
    modifies a.table, b.table, links
    ensures Consistent(links, targets)
    ensures a.table[..] == old(b.table[..]) && b.table[..] == old(a.table[..])
    ensures forall l | l in links ::
      l.target == if old(l.target) == a then b else if old(l.target) == b then a else old(l.target)
  {
    hide Replace, Occurrences, TwoWay;
    ghost var to, tab := To(links), Tables(targets);
    var tmp := new LinkTarget.Move(a, links, targets);
    a.MoveAssign(b, links, targets + {tmp});
    b.MoveAssign(tmp, links, targets + {tmp});
    tmp.Destroy(links, targets + {tmp});
    assert targets + {tmp} - {tmp} == targets;
    forall l | l in links
      ensures l.target == if to[l] == a then b else if to[l] == b then a else to[l]
    {
      InTableIffPointing(to, tab, l, a);
      InTableIffPointing(to, tab, l, b);
      assert l.target == To(links)[l];
    }
  }
}
