/** The intrusive circular list every other part of the library stands on (list.c, list.h). */
module Ring {
  import opened Lists

  class Node {
    var prev: Node?
    var next: Node?
  }

  function Succ(i: nat, n: nat): nat
    requires i < n
  {
    if i + 1 == n then 0 else i + 1
  }

  function Pred(i: nat, n: nat): nat
    requires i < n
  {
    if i == 0 then n - 1 else i - 1
  }

  /** The nodes of `s`, and only they, are linked into a circle in this order. */
  ghost predicate Linked(s: seq<Node>)
    reads s
  {
    |s| > 0 &&
    (forall i, j :: 0 <= i < j < |s| ==> s[i] != s[j]) &&
    (forall i :: 0 <= i < |s| ==> s[i].next == s[Succ(i, |s|)]) &&
    (forall i :: 0 <= i < |s| ==> s[i].prev == s[Pred(i, |s|)])
  }

  ghost predicate Detached(n: Node)
    reads n
  {
    n.prev == null || n.next == null
  }

  method ListInit(entry: Node)
    modifies entry
    ensures Linked([entry])
  {
    entry.prev, entry.next := entry, entry;
  }

  /** Appends `entry` at the tail of the list headed by `head`, whose nodes are `s`. */
  method ListAdd(entry: Node, head: Node, ghost s: seq<Node>)
    requires Linked(s) && s[0] == head && entry !in s
    modifies entry, head, head.prev
    ensures Linked(s + [entry])
  {
    entry.next := head;
    entry.prev := head.prev;
    head.prev.next := entry;
    head.prev := entry;
  }

  /** Takes `entry`, which is element `i` of the circle `s`, out of it; writes nothing if it is detached. */
  method ListDel(entry: Node, ghost s: seq<Node>, ghost i: nat)
    requires Detached(entry) || (Linked(s) && i < |s| && s[i] == entry)
    modifies if Detached(entry) then {} else {entry, entry.prev, entry.next}
    ensures !old(Detached(entry)) ==>
              entry.prev == null && entry.next == null && (|s| > 1 ==> Linked(Without(s, i)))
  {
    if entry.prev == null || entry.next == null {
      return;
    }
    ghost var before, behind := Pred(i, |s|), Succ(i, |s|);
    assert entry.prev == s[before] && entry.next == s[behind];
    entry.next.prev := entry.prev;
    entry.prev.next := entry.next;
    entry.prev := null;
    entry.next := null;
    if |s| > 1 {
      assert forall j :: 0 <= j < |s| && j != i && j != before ==> s[j].next == s[Succ(j, |s|)];
      assert forall j :: 0 <= j < |s| && j != i && j != behind ==> s[j].prev == s[Pred(j, |s|)];
      Bridged(s, i);
    }
  }

  /** `s` is the circle it was before, but for element `i`, over which its neighbours now link. */
  ghost predicate LinkedOver(s: seq<Node>, i: nat)
    requires i < |s|
    reads s
  {
    (forall j, k :: 0 <= j < k < |s| ==> s[j] != s[k]) &&
    (forall j :: 0 <= j < |s| && j != i ==>
      s[j].next == s[if Succ(j, |s|) == i then Succ(i, |s|) else Succ(j, |s|)] &&
      s[j].prev == s[if Pred(j, |s|) == i then Pred(i, |s|) else Pred(j, |s|)])
  }

  lemma Bridged(s: seq<Node>, i: nat)
    requires i < |s| && |s| > 1 && LinkedOver(s, i)
    ensures Linked(Without(s, i))
  {
    var t := Without(s, i);
    assert forall j :: 0 <= j < |t| ==> t[j] == s[if j < i then j else j + 1];
    forall j | 0 <= j < |t|
      ensures t[j].next == t[Succ(j, |t|)] && t[j].prev == t[Pred(j, |t|)]
    {
    }
  }

  /** Deleting twice is deleting once. */
  method ListDelTwice(entry: Node, s: seq<Node>, i: nat)
    requires Linked(s) && i < |s| && s[i] == entry && |s| > 1
    modifies s
    ensures Linked(Without(s, i)) && Detached(entry)
  {
    ListDel(entry, s, i);
    assert Linked(Without(s, i)) && Detached(entry);
    ListDel(entry, s, i);
  }

  /** The nodes of `s` outside `doomed`, in order. */
  ghost function Kept(s: seq<Node>, doomed: set<Node>): seq<Node> {
    if s == [] then []
    else Kept(s[..|s| - 1], doomed) + if s[|s| - 1] in doomed then [] else [s[|s| - 1]]
  }

  /** list_for_each_entry: visits the nodes behind the head, once each and in order. */
  method Traverse(head: Node, ghost s: seq<Node>) returns (visited: seq<Node>)
    requires Linked(s) && s[0] == head
    ensures visited == s[1..]
  {
    visited := [];
    var pos := head.next;
    while pos != head
      invariant |visited| < |s| && visited == s[1..1 + |visited|]
      invariant pos == s[Succ(|visited|, |s|)]
      decreases |s| - |visited|
    {
      visited := visited + [pos];
      pos := pos.next;
    }
  }

  /** The nodes of `gone` are out of the circle. */
  ghost predicate Gone(gone: set<Node>, ring: seq<Node>)
    reads gone
  {
    forall m :: m in gone ==> Detached(m) && m !in ring
  }

  /** The body of the traversal below: deletes the visited node if it is doomed. */
  method Visit(pos: Node, ghost ring: seq<Node>, ghost k: nat, doomed: set<Node>, ghost gone: set<Node>)
    returns (ghost ring': seq<Node>, ghost k': nat, ghost gone': set<Node>)
    requires Linked(ring) && 0 < k < |ring| && ring[k] == pos && Gone(gone, ring)
    modifies ring
    ensures Linked(ring') && 0 < k' <= |ring'| && ring'[0] == ring[0]
    ensures forall i :: 0 <= i < |ring'| ==> ring'[i] in ring
    ensures ring'[..k'] == ring[..k] + (if pos in doomed then [] else [pos]) && ring'[k'..] == ring[k + 1..]
    ensures old(pos.next) == if k' < |ring'| then ring'[k'] else ring'[0]
    ensures gone' == (if pos in doomed then gone + {pos} else gone) && Gone(gone', ring')
  {
    if pos in doomed {
      ListDel(pos, ring, k);
      ring', k', gone' := Without(ring, k), k, gone + {pos};
    } else {
      ring', k', gone' := ring, k + 1, gone;
    }
  }

  /** list_for_each_entry_safe with a body that deletes the node it visits if that is in `doomed`:
      every node that was behind the head is visited once and in order, and the others stay linked. */
  method TraverseSafe(head: Node, ghost s: seq<Node>, doomed: set<Node>) returns (visited: seq<Node>)
    requires Linked(s) && s[0] == head && head !in doomed
    modifies s
    ensures visited == s[1..]
    ensures Linked([head] + Kept(s[1..], doomed))
    ensures forall n :: n in s && n in doomed ==> Detached(n)
  {
    visited := [];
    var pos: Node := head.next;
    var n: Node := pos.next;
    ghost var ring, k, gone := s, 1, {};
    Starting(s, head, doomed);
    while pos != head
      invariant Linked(ring) && OnTheWay(s, head, visited, ring, k, doomed, gone)
      invariant pos == (if k == |ring| then head else ring[k]) && n == pos.next
      invariant Gone(gone, ring)
      decreases |ring| - k
    {
      ghost var before, at, out := ring, k, gone;
      ring, k, gone := Visit(pos, ring, k, doomed, gone);
      StepOnTheWay(s, head, visited, before, at, out, ring, k, doomed);
      visited := visited + [pos];
      pos := n;
      HasNext(ring, if k == |ring| then 0 else k);
      n := n.next;
    }
    Arrived(s, head, visited, ring, k, doomed, gone);
  }

  lemma HasNext(ring: seq<Node>, i: nat)
    requires Linked(ring) && i < |ring|
    ensures ring[i].next != null
  {
  }

  /** `ring` is what is linked of `s` now: the head, the visited nodes that stay, and from `k` on the nodes still to
      come. */
  ghost predicate OnTheWay(s: seq<Node>, head: Node, visited: seq<Node>, ring: seq<Node>, k: nat, doomed: set<Node>,
                           gone: set<Node>) {
    1 <= k <= |ring| && ring[0] == head && s == [head] + visited + ring[k..] &&
    ring[..k] == [head] + Kept(visited, doomed) && (forall i :: 0 <= i < |ring| ==> ring[i] in s) &&
    gone == set m | m in visited && m in doomed
  }

  lemma StepOnTheWay(s: seq<Node>, head: Node, visited: seq<Node>, ring: seq<Node>, k: nat, gone: set<Node>,
                     ring': seq<Node>, k': nat, doomed: set<Node>)
    requires OnTheWay(s, head, visited, ring, k, doomed, gone) && k < |ring|
    requires 0 < k' <= |ring'| && ring'[0] == head && ring'[k'..] == ring[k + 1..]
    requires ring'[..k'] == ring[..k] + if ring[k] in doomed then [] else [ring[k]]
    requires forall i :: 0 <= i < |ring'| ==> ring'[i] in ring
    ensures OnTheWay(s, head, visited + [ring[k]], ring', k', doomed,
                     if ring[k] in doomed then gone + {ring[k]} else gone)
  {
    var pos := ring[k];
    HeadOff(ring, k);
    KeptSnoc(visited, pos, doomed);
    Shift([head] + visited, pos, ring[k + 1..]);
    assert [head] + (visited + [pos]) == [head] + visited + [pos];
  }

  lemma Starting(s: seq<Node>, head: Node, doomed: set<Node>)
    requires |s| > 0 && s[0] == head
    ensures OnTheWay(s, head, [], s, 1, doomed, {})
  {
    assert s == [head] + s[1..];
    assert s[..1] == [head];
  }

  lemma Arrived(s: seq<Node>, head: Node, visited: seq<Node>, ring: seq<Node>, k: nat, doomed: set<Node>,
                gone: set<Node>)
    requires OnTheWay(s, head, visited, ring, k, doomed, gone) && k == |ring| && head !in doomed
    ensures visited == s[1..] && ring == [head] + Kept(s[1..], doomed)
    ensures forall n :: n in s && n in doomed ==> n in gone
  {
    assert ring == ring[..k] + ring[k..];
  }

  lemma HeadOff(s: seq<Node>, k: nat)
    requires k < |s|
    ensures s[k..] == [s[k]] + s[k + 1..]
  {
  }

  lemma Shift(before: seq<Node>, n: Node, behind: seq<Node>)
    ensures before + ([n] + behind) == before + [n] + behind
  {
  }

  lemma KeptSnoc(s: seq<Node>, n: Node, doomed: set<Node>)
    ensures Kept(s + [n], doomed) == Kept(s, doomed) + if n in doomed then [] else [n]
  {
    assert (s + [n])[..|s|] == s;
  }
}
