/**
 * The circular doubly linked list of ion/list.h, with poison pointers as null, and its chains with a
 * back pointer to the pointer before. A ring is the sequence of its nodes, head first: every
 * operation is stated by what it does to that sequence, and by the nodes that it leaves alone.
 */
module RingList {
  class ListHead {
    var next: ListHead?
    var prev: ListHead?

    /** INIT_LIST_HEAD */
    constructor ()
      ensures Ring([this])
    {
      next, prev := this, this;
    }
  }

  predicate Distinct<T(==)>(s: seq<T>) {
    forall i, j | 0 <= i < j < |s| :: s[i] != s[j]
  }

  function Succ(n: nat, i: nat): nat {
    if i + 1 < n then i + 1 else 0
  }

  function Pred(n: nat, i: nat): nat
    requires i < n
  {
    if i > 0 then i - 1 else n - 1
  }

  /** Neighbours in the order of a ring. */
  function After(s: seq<ListHead>, i: nat): ListHead
    requires i < |s|
  {
    s[Succ(|s|, i)]
  }

  function Before(s: seq<ListHead>, i: nat): ListHead
    requires i < |s|
  {
    s[Pred(|s|, i)]
  }

  ghost predicate Linked(s: seq<ListHead>, i: nat)
    requires i < |s|
    reads s
  {
    s[i].next == s[Succ(|s|, i)] && s[Succ(|s|, i)].prev == s[i]
  }

  /** The nodes of a ring in order; next and prev undo each other all the way round. */
  ghost predicate Ring(s: seq<ListHead>)
    reads s
  {
    s != [] && Distinct(s) && forall i: nat | i < |s| :: Linked(s, i)
  }

  function Without<T>(s: seq<T>, k: nat): (r: seq<T>)
    requires k < |s|
    ensures |r| == |s| - 1
  {
    s[..k] + s[k + 1..]
  }

  function Inserted<T>(s: seq<T>, k: nat, x: T): (r: seq<T>)
    requires k <= |s|
    ensures |r| == |s| + 1
  {
    s[..k] + [x] + s[k..]
  }

  /** Any node of a ring may be taken as its first. */
  lemma RingRotates(s: seq<ListHead>, r: nat)
    requires Ring(s) && r < |s|
    ensures Ring(s[r..] + s[..r])
  {
    var t := s[r..] + s[..r];
    forall i: nat | i < |t| ensures Linked(t, i) {
      var j := if i < |s| - r then r + i else i - (|s| - r);
      assert t[i] == s[j] && Linked(s, j);
      assert t[Succ(|t|, i)] == s[Succ(|s|, j)];
    }
  }

  /** The heap determines the order: two readings of a ring from the same node are the same. */
  lemma RingUnique(s: seq<ListHead>, t: seq<ListHead>)
    requires Ring(s) && Ring(t) && s[0] == t[0]
    ensures s == t
  {
    var m := if |s| <= |t| then |s| else |t|;
    SamePrefix(s, t, m);
    assert Linked(s, m - 1) && Linked(t, m - 1);
  }

  lemma {:induction false} SamePrefix(s: seq<ListHead>, t: seq<ListHead>, m: nat)
    requires Ring(s) && Ring(t) && s[0] == t[0] && m <= |s| && m <= |t|
    ensures s[..m] == t[..m]
  {
    if m > 1 {
      SamePrefix(s, t, m - 1);
      assert s[m - 2] == s[..m - 1][m - 2] == t[..m - 1][m - 2] == t[m - 2];
      assert Linked(s, m - 2) && Linked(t, m - 2);
    }
  }

  /** __list_add between two neighbours of a ring */
  method InsertBetween(n: ListHead, prev: ListHead, next: ListHead, ghost s: seq<ListHead>, ghost k: nat)
    requires Ring(s) && k < |s| && prev == s[k] && next == s[Succ(|s|, k)] && n !in s
    modifies n, prev`next, next`prev
    ensures Ring(Inserted(s, k + 1, n))
  {
    assert Linked(s, k);
    next.prev := n;
    n.next := next;
    n.prev := prev;
    prev.next := n;
    ghost var t := Inserted(s, k + 1, n);
    forall i: nat | i < |t| ensures Linked(t, i) {
      if i < k {
        assert old(Linked(s, i));
      } else if i > k + 1 {
        assert old(Linked(s, i - 1));
      }
    }
  }

  /** list_add: the new node comes right after the head. */
  method ListAdd(n: ListHead, head: ListHead, ghost s: seq<ListHead>)
    requires Ring(s) && s[0] == head && n !in s
    modifies n, head`next, After(s, 0)`prev
    ensures Ring([head, n] + s[1..])
  {
    assert Linked(s, 0);
    InsertBetween(n, head, head.next, s, 0);
    assert Inserted(s, 1, n) == [head, n] + s[1..];
  }

  /** list_add_tail: the new node comes last. */
  method ListAddTail(n: ListHead, head: ListHead, ghost s: seq<ListHead>)
    requires Ring(s) && s[0] == head && n !in s
    modifies n, head`prev, Before(s, 0)`next
    ensures Ring(s + [n])
  {
    assert Linked(s, |s| - 1);
    InsertBetween(n, head.prev, head, s, |s| - 1);
    assert Inserted(s, |s|, n) == s + [n];
  }

  /** __list_del on the neighbours of a node of a ring */
  method Unlink(prev: ListHead, next: ListHead, ghost s: seq<ListHead>, ghost k: nat)
    requires Ring(s) && k < |s| && s[k].prev == prev && s[k].next == next
    modifies prev`next, next`prev
    ensures |s| > 1 ==> Ring(Without(s, k)) && s[k].next == old(s[k].next) && s[k].prev == old(s[k].prev)
    ensures |s| == 1 ==> Ring(s)
  {
    ghost var before := Pred(|s|, k);
    assert Linked(s, before) && Linked(s, k) && Succ(|s|, before) == k;
    next.prev := prev;
    prev.next := next;
    if |s| > 1 {
      ghost var t := Without(s, k);
      forall i: nat | i < |t| ensures Linked(t, i) {
        ghost var j := if i < k then i else i + 1;
        assert t[i] == s[j] && old(Linked(s, j));
      }
    } else {
      assert Linked(s, 0);
    }
  }

  /** list_del: the others form a ring, and the node points nowhere. */
  method ListDel(entry: ListHead, ghost s: seq<ListHead>, ghost k: nat)
    requires Ring(s) && k < |s| && entry == s[k]
    modifies entry, Before(s, k)`next, After(s, k)`prev
    ensures |s| > 1 ==> Ring(Without(s, k))
    ensures entry.next == null && entry.prev == null
  {
    assert Linked(s, k) && Linked(s, Pred(|s|, k));
    Unlink(entry.prev, entry.next, s, k);
    entry.next, entry.prev := null, null;
  }

  /** list_del_init: the node is a ring of its own. */
  method ListDelInit(entry: ListHead, ghost s: seq<ListHead>, ghost k: nat)
    requires Ring(s) && k < |s| && entry == s[k]
    modifies entry, Before(s, k)`next, After(s, k)`prev
    ensures |s| > 1 ==> Ring(Without(s, k))
    ensures Ring([entry])
  {
    assert Linked(s, k) && Linked(s, Pred(|s|, k));
    Unlink(entry.prev, entry.next, s, k);
    entry.next, entry.prev := entry, entry;
  }

  predicate Apart(s: seq<ListHead>, t: seq<ListHead>) {
    forall i, j | 0 <= i < |s| && 0 <= j < |t| :: s[i] != t[j]
  }

  lemma WithoutGone(s: seq<ListHead>, k: nat)
    requires k < |s| && Distinct(s)
    ensures s[k] !in Without(s, k)
  {}

  /** list_move within one ring. */
  method ListMoveWithin(list: ListHead, head: ListHead, ghost s: seq<ListHead>, ghost k: nat)
    requires Ring(s) && s[0] == head && 0 < k < |s| && list == s[k]
    modifies s
    ensures Ring([head, list] + Without(s, k)[1..])
  {
    assert Linked(s, k) && Linked(s, Pred(|s|, k));
    Unlink(list.prev, list.next, s, k);
    WithoutGone(s, k);
    ListAdd(list, head, Without(s, k));
  }

  /** list_move from one ring to another. */
  method ListMoveAcross(list: ListHead, head: ListHead, ghost s: seq<ListHead>, ghost k: nat, ghost t: seq<ListHead>)
    requires Ring(s) && k < |s| && list == s[k] && Ring(t) && t[0] == head && Apart(s, t)
    modifies s, head`next, After(t, 0)`prev
    ensures Ring([head, list] + t[1..])
    ensures |s| > 1 ==> Ring(Without(s, k))
  {
    assert Linked(s, k) && Linked(s, Pred(|s|, k));
    Unlink(list.prev, list.next, s, k);
    ListAdd(list, head, t);
  }

  /** list_move_tail within one ring. */
  method ListMoveTailWithin(list: ListHead, head: ListHead, ghost s: seq<ListHead>, ghost k: nat)
    requires Ring(s) && s[0] == head && 0 < k < |s| && list == s[k]
    modifies s
    ensures Ring(Without(s, k) + [list])
  {
    assert Linked(s, k) && Linked(s, Pred(|s|, k));
    Unlink(list.prev, list.next, s, k);
    WithoutGone(s, k);
    ListAddTail(list, head, Without(s, k));
  }

  /** list_move_tail from one ring to another. */
  method ListMoveTailAcross(list: ListHead, head: ListHead, ghost s: seq<ListHead>, ghost k: nat, ghost t: seq<ListHead>)
    requires Ring(s) && k < |s| && list == s[k] && Ring(t) && t[0] == head && Apart(s, t)
    modifies s, head`prev, Before(t, 0)`next
    ensures Ring(t + [list])
    ensures |s| > 1 ==> Ring(Without(s, k))
  {
    assert Linked(s, k) && Linked(s, Pred(|s|, k));
    Unlink(list.prev, list.next, s, k);
    ListAddTail(list, head, t);
  }

  /** list_empty: the head is alone in its ring. */
  method ListEmpty(head: ListHead, ghost s: seq<ListHead>) returns (empty: bool)
    requires Ring(s) && s[0] == head
    ensures empty <==> s == [head]
  {
    assert Linked(s, 0);
    empty := head.next == head;
  }

  /** __list_splice of a list that has entries */
  method SpliceEntries(list: ListHead, head: ListHead, ghost s: seq<ListHead>, ghost t: seq<ListHead>)
    requires Ring(s) && s[0] == list && |s| > 1 && Ring(t) && t[0] == head && Apart(s, t)
    modifies After(s, 0)`prev, Before(s, 0)`next, head`next, After(t, 0)`prev
    ensures Ring([head] + s[1..] + t[1..])
    ensures list.next == old(list.next) && list.prev == old(list.prev)
  {
    assert Linked(s, 0) && Linked(s, |s| - 1) && Linked(t, 0);
    var first, last, at := list.next, list.prev, head.next;
    first.prev := head;
    head.next := first;
    last.next := at;
    at.prev := last;
    ghost var u := [head] + s[1..] + t[1..];
    forall i: nat | i < |u| ensures Linked(u, i) {
      if 0 < i < |s| - 1 {
        assert old(Linked(s, i));
      } else if i >= |s| {
        assert old(Linked(t, i - (|s| - 1)));
      }
    }
  }

  /** list_splice: the entries of the list, without its head, come right after the other head. */
  method ListSplice(list: ListHead, head: ListHead, ghost s: seq<ListHead>, ghost t: seq<ListHead>)
    requires Ring(s) && s[0] == list && Ring(t) && t[0] == head && Apart(s, t)
    modifies After(s, 0)`prev, Before(s, 0)`next, head`next, After(t, 0)`prev
    ensures Ring([head] + s[1..] + t[1..])
  {
    var empty := ListEmpty(list, s);
    if !empty {
      SpliceEntries(list, head, s, t);
    } else {
      assert [head] + s[1..] + t[1..] == t;
    }
  }

  /** list_splice_init: the emptied list is a ring of its own again. */
  method ListSpliceInit(list: ListHead, head: ListHead, ghost s: seq<ListHead>, ghost t: seq<ListHead>)
    requires Ring(s) && s[0] == list && Ring(t) && t[0] == head && Apart(s, t)
    modifies list, After(s, 0)`prev, Before(s, 0)`next, head`next, After(t, 0)`prev
    ensures Ring([head] + s[1..] + t[1..]) && Ring([list])
  {
    var empty := ListEmpty(list, s);
    if !empty {
      SpliceEntries(list, head, s, t);
      list.next, list.prev := list, list;
      assert forall x <- [head] + s[1..] + t[1..] :: x != list;
    } else {
      assert [head] + s[1..] + t[1..] == t;
    }
  }

  // ---------------------------------------------------------------- hash lists

  class HListHead {
    var first: HListNode?
  }

  /** What a pprev field holds: the address of a head's first field or of a node's next field. */
  datatype Slot = Unhashed | FirstOf(head: HListHead) | NextOf(node: HListNode) | Poison

  class HListNode {
    var next: HListNode?
    var pprev: Slot
  }

  /** *slot */
  function Load(slot: Slot): HListNode?
    reads if slot.FirstOf? then {slot.head as object} else if slot.NextOf? then {slot.node} else {}
  {
    if slot.FirstOf? then slot.head.first else if slot.NextOf? then slot.node.next else null
  }

  function SlotBefore(h: HListHead, s: seq<HListNode>, i: nat): Slot
    requires i <= |s|
  {
    if i == 0 then FirstOf(h) else NextOf(s[i - 1])
  }

  function NodeAt(s: seq<HListNode>, i: nat): HListNode? {
    if i < |s| then s[i] else null
  }

  ghost predicate Hooked(h: HListHead, s: seq<HListNode>, i: nat)
    requires i < |s|
    reads s
  {
    s[i].pprev == SlotBefore(h, s, i) && s[i].next == NodeAt(s, i + 1)
  }

  ghost predicate Chain(h: HListHead, s: seq<HListNode>)
    reads h, s
  {
    Distinct(s) && h.first == NodeAt(s, 0) && forall i: nat | i < |s| :: Hooked(h, s, i)
  }

  /** *pprev is the node itself. */
  lemma PprevPointsHere(h: HListHead, s: seq<HListNode>, i: nat)
    requires Chain(h, s) && i < |s|
    ensures Load(s[i].pprev) == s[i]
  {
    assert Hooked(h, s, i);
    if i > 0 { assert Hooked(h, s, i - 1); }
  }

  /** *slot = node */
  method Store(slot: Slot, node: HListNode?)
    requires slot.FirstOf? || slot.NextOf?
    modifies if slot.FirstOf? then {slot.head as object} else {slot.node}
    ensures slot.FirstOf? ==> slot.head.first == node
    ensures slot.NextOf? ==> slot.node.next == node && slot.node.pprev == old(slot.node.pprev)
  {
    if slot.FirstOf? { slot.head.first := node; } else { slot.node.next := node; }
  }

  /** __hlist_del */
  method HListUnlink(n: HListNode, ghost h: HListHead, ghost s: seq<HListNode>, ghost k: nat)
    requires Chain(h, s) && k < |s| && n == s[k]
    modifies h, s
    ensures Chain(h, Without(s, k)) && n.next == old(n.next) && n.pprev == old(n.pprev)
  {
    assert Hooked(h, s, k);
    var next, pprev := n.next, n.pprev;
    Store(pprev, next);
    if next != null {
      next.pprev := pprev;
    }
    ghost var t := Without(s, k);
    forall i: nat | i < |t| ensures Hooked(h, t, i) {
      assert old(Hooked(h, s, if i < k then i else i + 1));
    }
  }

  /** hlist_del */
  method HListDel(n: HListNode, ghost h: HListHead, ghost s: seq<HListNode>, ghost k: nat)
    requires Chain(h, s) && k < |s| && n == s[k]
    modifies h, s
    ensures Chain(h, Without(s, k)) && n.next == null && n.pprev == Poison
  {
    HListUnlink(n, h, s, k);
    n.next, n.pprev := null, Poison;
  }

  /** hlist_del_init: a node that is on no list stays as it is. */
  method HListDelInit(n: HListNode, ghost h: HListHead, ghost s: seq<HListNode>, ghost k: nat)
    requires Chain(h, s) && (n.pprev == Unhashed || (k < |s| && n == s[k]))
    modifies h, s
    ensures n.pprev == Unhashed
    ensures old(n.pprev) == Unhashed ==> Chain(h, s) && n.next == old(n.next)
    ensures old(n.pprev) != Unhashed ==> Chain(h, Without(s, k)) && n.next == null
  {
    if n.pprev != Unhashed {
      HListUnlink(n, h, s, k);
      n.next, n.pprev := null, Unhashed;
    }
  }

  /** hlist_add_head */
  method HListAddHead(n: HListNode, h: HListHead, ghost s: seq<HListNode>)
    requires Chain(h, s) && n !in s
    modifies n, h, s
    ensures Chain(h, [n] + s)
  {
    var first := h.first;
    n.next := first;
    if first != null {
      first.pprev := NextOf(n);
    }
    h.first := n;
    n.pprev := FirstOf(h);
    ghost var t := [n] + s;
    forall i: nat | i < |t| ensures Hooked(h, t, i) {
      if i > 0 { assert old(Hooked(h, s, i - 1)); }
    }
  }

  /** hlist_add_before */
  method HListAddBefore(n: HListNode, next: HListNode, ghost h: HListHead, ghost s: seq<HListNode>, ghost k: nat)
    requires Chain(h, s) && k < |s| && next == s[k] && n !in s
    modifies n, h, s
    ensures Chain(h, Inserted(s, k, n))
  {
    assert Hooked(h, s, k);
    n.pprev := next.pprev;
    n.next := next;
    next.pprev := NextOf(n);
    Store(n.pprev, n);
    ghost var t := Inserted(s, k, n);
    forall i: nat | i < |t| ensures Hooked(h, t, i) {
      if i != k { assert old(Hooked(h, s, if i < k then i else i - 1)); }
    }
  }

  /** hlist_add_after: the second node goes after the first. */
  method HListAddAfter(n: HListNode, next: HListNode, ghost h: HListHead, ghost s: seq<HListNode>, ghost k: nat)
    requires Chain(h, s) && k < |s| && n == s[k] && next !in s
    modifies next, h, s
    ensures Chain(h, Inserted(s, k + 1, next))
  {
    assert Hooked(h, s, k);
    next.next := n.next;
    n.next := next;
    next.pprev := NextOf(n);
    if next.next != null {
      next.next.pprev := NextOf(next);
    }
    ghost var t := Inserted(s, k + 1, next);
    forall i: nat | i < |t| ensures Hooked(h, t, i) {
      if i != k + 1 { assert old(Hooked(h, s, if i <= k then i else i - 1)); }
    }
  }
}
