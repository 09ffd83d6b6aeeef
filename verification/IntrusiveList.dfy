/** The circular doubly linked list whose links live in its elements (libusbi.h: list_init, list_add,
list_add_tail, list_del). A list is a ring of nodes; the first node of the ring is the list head, which
is no element itself.
*/
module IntrusiveList {
  class Node {
    var prev: Node
    var next: Node

    /** list_init */
    constructor ()
      ensures prev == this && next == this && IsRing([this])
    {
      prev, next := this, this;
    }
  }

  function After(i: nat, n: nat): (j: nat)
    requires i < n
    ensures j < n
  {
    if i + 1 == n then 0 else i + 1
  }

  function Prior(i: nat, n: nat): (j: nat)
    requires i < n
    ensures j < n && After(j, n) == i
  {
    if i == 0 then n - 1 else i - 1
  }

  predicate Distinct(ring: seq<Node>) {
    forall i, j | 0 <= i < j < |ring| :: ring[i] != ring[j]
  }

  /** The nodes of `ring` are linked in that order, forwards and backwards, and nowhere else. */
  ghost predicate IsRing(ring: seq<Node>)
    reads ring
  {
    && ring != [] && Distinct(ring)
    && (forall i {:trigger ring[i].next} | 0 <= i < |ring| :: ring[i].next == ring[After(i, |ring|)])
    && (forall i {:trigger ring[i].prev} | 0 <= i < |ring| :: ring[i].prev == ring[Prior(i, |ring|)])
  }

  function Insert<T>(s: seq<T>, i: nat, x: T): (r: seq<T>)
    requires i <= |s|
    ensures |r| == |s| + 1 && r[i] == x
  {
    s[..i] + [x] + s[i..]
  }

  function Remove<T>(s: seq<T>, i: nat): (r: seq<T>)
    requires i < |s|
    ensures |r| == |s| - 1
  {
    s[..i] + s[i + 1..]
  }

  lemma InsertRemove<T>(s: seq<T>, i: nat, x: T)
    requires i <= |s|
    ensures Remove(Insert(s, i, x), i) == s
  {
  }

  /** list_empty, for the list with head `ring[0]`. */
  method IsEmpty(head: Node, ghost ring: seq<Node>) returns (empty: bool)
    requires IsRing(ring) && head == ring[0]
    ensures empty <==> ring[1..] == []
  {
    assert ring[0].next == ring[After(0, |ring|)];
    assert |ring| > 1 ==> ring[1] != ring[0];
    empty := head.next == head;
  }

  // ---------------------------------------------------------------- adding

  /** `entry` is linked between the node at position `i` and the next one; all other links are as in `ring`. */
  ghost predicate LinkedIn(ring: seq<Node>, i: nat, entry: Node)
    requires i < |ring|
    reads ring, entry
  {
    var n := |ring|;
    && entry !in ring && Distinct(ring)
    && entry.next == ring[After(i, n)] && entry.prev == ring[i]
    && (forall k {:trigger ring[k].next} | 0 <= k < n :: ring[k].next == if k == i then entry else ring[After(k, n)])
    && (forall k {:trigger ring[k].prev} | 0 <= k < n ::
          ring[k].prev == if k == After(i, n) then entry else ring[Prior(k, n)])
  }

  lemma InsertedRing(ring: seq<Node>, i: nat, entry: Node)
    requires i < |ring| && LinkedIn(ring, i, entry)
    ensures IsRing(Insert(ring, i + 1, entry))
  {
    var linked := Insert(ring, i + 1, entry);
    forall k {:trigger linked[k].next} | 0 <= k < |linked|
      ensures linked[k].next == linked[After(k, |linked|)] && linked[k].prev == linked[Prior(k, |linked|)]
    {
      InsertedLinks(ring, i, entry, k);
      if k <= i { assert linked[k] == ring[k]; } else if k > i + 1 { assert linked[k] == ring[k - 1]; }
    }
  }

  /** What is at position `k`, before it and behind it once `entry` is at position `i + 1`. */
  lemma InsertedLinks(ring: seq<Node>, i: nat, entry: Node, k: nat)
    requires i < |ring| && k <= |ring|
    ensures var r := Insert(ring, i + 1, entry); var n := |ring|; var a, b := r[After(k, n + 1)], r[Prior(k, n + 1)];
      && (k <= i ==>
            && r[k] == ring[k] && a == (if k == i then entry else ring[After(k, n)])
            && b == (if k == After(i, n) then entry else ring[Prior(k, n)]))
      && (k == i + 1 ==> r[k] == entry && a == ring[After(i, n)] && b == ring[i])
      && (k > i + 1 ==>
            && r[k] == ring[k - 1] && a == ring[After(k - 1, n)]
            && b == (if k - 1 == After(i, n) then entry else ring[Prior(k - 1, n)]))
  {
  }

  /** list_add: after the node at position `i`. */
  method Add(entry: Node, head: Node, ghost ring: seq<Node>, ghost i: nat)
    requires IsRing(ring) && i < |ring| && ring[i] == head && entry !in ring
    modifies entry, ring
    ensures IsRing(Insert(ring, i + 1, entry))
  {
    assert head.next == ring[i].next && ring[i].next == ring[After(i, |ring|)];
    entry.next := head.next;
    entry.prev := head;
    head.next.prev := entry;
    head.next := entry;
    assert LinkedIn(ring, i, entry);
    InsertedRing(ring, i, entry);
  }

  /** What list_add_tail leaves of the list `ring`, where `p` is the position before the head. */
  ghost predicate TailAdded(ring: seq<Node>, entry: Node, head: Node, p: nat)
    requires p < |ring|
    reads ring, entry, head
  {
    && Distinct(ring) && ring[After(p, |ring|)] == head
    && head.prev == entry && ring[p].next == entry
    && entry.next == (if entry == head || entry == ring[p] then entry else head)
    && entry.prev == (if entry == head then entry else ring[p])
    && (forall m {:trigger ring[m].next} | 0 <= m < |ring| && m != p && ring[m] != entry ::
          ring[m].next == ring[After(m, |ring|)])
    && (forall m {:trigger ring[m].prev} | 0 <= m < |ring| && ring[m] != head && ring[m] != entry ::
          ring[m].prev == ring[Prior(m, |ring|)])
  }

  lemma TailLinked(ring: seq<Node>, entry: Node, head: Node, p: nat)
    requires p < |ring| && entry !in ring && TailAdded(ring, entry, head, p)
    ensures IsRing(Insert(ring, p + 1, entry))
  {
    assert LinkedIn(ring, p, entry);
    InsertedRing(ring, p, entry);
  }

  /** The links stay among the nodes of `ring`, but none leads forwards to `q`. */
  ghost predicate Lost(ring: seq<Node>, q: Node)
    reads ring
  {
    && q in ring
    && (forall n {:trigger n.next} | n in ring :: n.next in ring && n.next != q)
    && (forall n {:trigger n.prev} | n in ring :: n.prev in ring)
  }

  /** Then there is no order in which the nodes are a list. */
  lemma LostIsNoRing(ring: seq<Node>, q: Node, r: seq<Node>)
    requires Lost(ring, q) && q in r && forall n | n in r :: n in ring
    ensures !IsRing(r)
  {
    var k :| 0 <= k < |r| && r[k] == q;
    var before := Prior(k, |r|);
    assert r[before] in r && r[before].next != r[After(before, |r|)];
  }

  /** The entry was at position `k`: it leads somewhere else now, and so does every other node. */
  lemma TailRelinked(ring: seq<Node>, entry: Node, head: Node, p: nat, k: nat)
    requires p < |ring| && 1 <= k < |ring| && ring[k] == entry && TailAdded(ring, entry, head, p)
    ensures Lost(ring, ring[After(k, |ring|)])
  {
    var q := ring[After(k, |ring|)];
    forall n {:trigger n.next} | n in ring ensures n.next in ring && n.prev in ring && n.next != q {
      var m :| 0 <= m < |ring| && ring[m] == n;
      NextOf(ring, entry, head, p, k, m);
      PrevOf(ring, entry, head, p, m);
    }
  }

  lemma NextOf(ring: seq<Node>, entry: Node, head: Node, p: nat, k: nat, m: nat)
    requires p < |ring| && k < |ring| && m < |ring| && ring[k] == entry && TailAdded(ring, entry, head, p) && |ring| > 1
    ensures ring[m].next in ring && ring[m].next != ring[After(k, |ring|)]
  {
    if m == k || m == p {
      assert ring[m].next == entry || ring[m].next == head;
    } else {
      assert ring[m].next == ring[After(m, |ring|)];
    }
  }

  lemma PrevOf(ring: seq<Node>, entry: Node, head: Node, p: nat, m: nat)
    requires p < |ring| && m < |ring| && entry in ring && TailAdded(ring, entry, head, p)
    ensures ring[m].prev in ring
  {
    if ring[m] == head || ring[m] == entry {
      assert ring[m].prev == entry || ring[m].prev == ring[p];
    } else {
      assert ring[m].prev == ring[Prior(m, |ring|)];
    }
  }

  /** list_add_tail: before the node at position `i`; before the head is the end of the list. If the entry
      is in the list already, the node behind it gets lost. */
  method AddTail(entry: Node, head: Node, ghost ring: seq<Node>, ghost i: nat)
    requires IsRing(ring) && i < |ring| && ring[i] == head && entry != ring[0]
    modifies entry, ring
    ensures entry !in ring ==> IsRing(Insert(ring, if i == 0 then |ring| else i, entry))
    ensures entry in ring ==> Lost(ring, old(entry.next))
    ensures entry.next == if entry == head || old(head.prev) == entry then entry else head
  {
    ghost var p, k := Prior(i, |ring|), 0;
    assert head.prev == ring[i].prev && ring[i].prev == ring[p];
    if entry in ring {
      k :| 0 <= k < |ring| && ring[k] == entry;
      assert entry.next == ring[k].next && ring[k].next == ring[After(k, |ring|)];
    }
    entry.next := head;
    entry.prev := head.prev;
    head.prev.next := entry;
    head.prev := entry;
    assert TailAdded(ring, entry, head, p);
    if entry in ring { TailRelinked(ring, entry, head, p, k); } else { TailLinked(ring, entry, head, p); }
  }

  // ---------------------------------------------------------------- deleting

  /** What list_del of the node at position `i` leaves of the list `ring`. */
  ghost predicate Unlinked(ring: seq<Node>, i: nat)
    requires 1 <= i < |ring|
    reads ring
  {
    var n := |ring|;
    && Distinct(ring)
    && (forall k {:trigger ring[k].next} | 0 <= k < n :: ring[k].next == ring[After(if k == i - 1 then i else k, n)])
    && (forall k {:trigger ring[k].prev} | 0 <= k < n ::
          ring[k].prev == ring[Prior(if k == After(i, n) then i else k, n)])
  }

  lemma RingUnlinked(ring: seq<Node>, i: nat)
    requires 1 <= i < |ring| && Unlinked(ring, i)
    ensures IsRing(Remove(ring, i)) && Remove(ring, i)[0] == ring[0] && ring[i] !in Remove(ring, i)
  {
    var linked := Remove(ring, i);
    forall k {:trigger linked[k].next} | 0 <= k < |linked|
      ensures linked[k].next == linked[After(k, |linked|)] && linked[k].prev == linked[Prior(k, |linked|)]
    {
      RemovedLinks(ring, i, k);
      var m := if k < i then k else k + 1;
      assert linked[k].next == ring[m].next && linked[k].prev == ring[m].prev;
    }
  }

  lemma RemovedLinks(ring: seq<Node>, i: nat, k: nat)
    requires 1 <= i < |ring| && k < |ring| - 1
    ensures var r := Remove(ring, i); var n := |ring|; var m := if k < i then k else k + 1;
      && r[k] == ring[m] && r[After(k, n - 1)] == ring[After(if m == i - 1 then i else m, n)]
      && r[Prior(k, n - 1)] == ring[Prior(if m == After(i, n) then i else m, n)]
  {
  }

  /** list_del: any element but the head. If `q` is lost already, it stays so. */
  method Delete(entry: Node, ghost ring: seq<Node>, ghost i: nat, ghost intact: bool, ghost q: Node)
    requires if intact then IsRing(ring) && 1 <= i < |ring| && ring[i] == entry else Lost(ring, q) && entry in ring
    modifies ring
    ensures intact ==> IsRing(Remove(ring, i)) && Remove(ring, i)[0] == ring[0] && entry !in Remove(ring, i)
    ensures !intact ==> Lost(ring, q)
    ensures entry.next == old(entry.next)
  {
    if intact { Neighbours(ring, i); }
    ghost var before, behind := entry.prev, entry.next;
    assert before in ring && behind in ring;
    entry.next.prev := entry.prev;
    entry.prev.next := entry.next;
    if intact {
      assert before == ring[i - 1] && behind == ring[After(i, |ring|)];
      assert Unlinked(ring, i);
      RingUnlinked(ring, i);
    }
  }

  lemma Neighbours(ring: seq<Node>, i: nat)
    requires IsRing(ring) && i < |ring|
    ensures ring[i].next == ring[After(i, |ring|)] && ring[i].prev == ring[Prior(i, |ring|)]
    ensures ring[i].next in ring && ring[i].prev in ring
  {
  }

  // ---------------------------------------------------------------- a submission that fails

  /** list_del of an entry that has just been added at position `at`. */
  method TakeBack(entry: Node, ghost ring: seq<Node>, ghost at: nat, ghost lost: Node)
    requires 1 <= at <= |ring| && if entry in ring then Lost(ring, lost) else IsRing(Insert(ring, at, entry))
    modifies entry, ring
    ensures if entry in ring then Lost(ring, lost) else IsRing(ring)
  {
    ghost var added := if entry in ring then ring else Insert(ring, at, entry);
    InsertRemove(ring, at, entry);
    Delete(entry, added, at, entry !in ring, lost);
  }

  /** A failed submission adds and deletes: the list is as before, if the entry was in no list. */
  method AddThenDelete(entry: Node, head: Node, ghost ring: seq<Node>, ghost i: nat)
    requires IsRing(ring) && i < |ring| && ring[i] == head && entry !in ring
    modifies entry, ring
    ensures IsRing(ring)
  {
    AddTail(entry, head, ring, i);
    TakeBack(entry, ring, if i == 0 then |ring| else i, entry);
  }

  /** An entry that is in the list already does not leave it as it was, wherever it is added: the node
      behind it is no node's next any more. */
  method AddTwice(entry: Node, head: Node, ghost ring: seq<Node>, ghost i: nat, ghost j: nat)
    requires IsRing(ring) && 1 <= i < |ring| && ring[i] == entry && j < |ring| && ring[j] == head
    modifies ring
    ensures entry.next == (if j == i || j == After(i, |ring|) then entry else head)
    ensures entry.next != ring[After(i, |ring|)] && Lost(ring, ring[After(i, |ring|)]) && !IsRing(ring)
  {
    ghost var lost := ring[After(i, |ring|)];
    Neighbours(ring, i);
    Neighbours(ring, j);
    assert head.prev == entry <==> j == After(i, |ring|);
    AddTail(entry, head, ring, j);
    assert Lost(ring, lost);
    Delete(entry, ring, i, false, lost);
    LostIsNoRing(ring, lost, ring);
  }
}
