/** The circular doubly linked list of SimplePrograms/List/list.c. */
module CircularList {
  class Node {
    var next: Node?
    var prev: Node?
    var value: int
  }

  ghost predicate Linked(a: Node, b: Node)
    reads a, b
  {
    a.next == b && b.prev == a
  }

  predicate Different(r: seq<Node>) {
    forall i, j :: 0 <= i < j < |r| ==> r[i] != r[j]
  }

  ghost predicate Chain(r: seq<Node>)
    reads r
  {
    forall i :: 0 <= i < |r| - 1 ==> Linked(r[i], r[i + 1])
  }

  /** Different nodes, each linked both ways with the one after it, and the last with the first. */
  ghost predicate Ring(r: seq<Node>)
    reads r
  {
    Different(r) && Chain(r) && (r != [] ==> Linked(r[|r| - 1], r[0]))
  }

  /** The list with this head: the ring read from the head on. */
  ghost predicate List(head: Node, items: seq<Node>)
    reads {head} + set n | n in items
  {
    Ring([head] + items)
  }

  lemma RotatedNodes<T>(a: seq<T>, b: seq<T>)
    ensures forall i :: 0 <= i < |a| ==> (a + b)[i] == a[i] && (b + a)[|b| + i] == a[i]
    ensures forall i :: 0 <= i < |b| ==> (a + b)[|a| + i] == b[i] && (b + a)[i] == b[i]
  {
  }

  lemma RotateDifferent(a: seq<Node>, b: seq<Node>)
    requires Different(a + b)
    ensures Different(b + a)
  {
    var r, s, m, n := a + b, b + a, |a|, |b|;
    forall i, j | 0 <= i < j < |s| ensures s[i] != s[j] {
      var i', j' := if i < n then m + i else i - n, if j < n then m + j else j - n;
      assert r[i'] == s[i] && r[j'] == s[j] && i' != j';
    }
  }

  lemma RotateChain(a: seq<Node>, b: seq<Node>)
    requires Chain(a + b) && (a + b != [] ==> Linked((a + b)[|a + b| - 1], (a + b)[0]))
    ensures Chain(b + a) && (b + a != [] ==> Linked((b + a)[|b + a| - 1], (b + a)[0]))
  {
    var r, s, m, n := a + b, b + a, |a|, |b|;
    RotatedNodes(a, b);
    forall i | 0 <= i < |s| - 1 ensures Linked(s[i], s[i + 1]) {
      if i < n - 1 {
        assert Linked(r[m + i], r[m + i + 1]);
      } else if i >= n {
        assert Linked(r[i - n], r[i - n + 1]);
      }
    }
    if m > 0 && n > 0 {
      assert Linked(r[m - 1], r[m - 1 + 1]);
    }
  }

  /** A ring may be read from any of its nodes. */
  lemma Rotate(a: seq<Node>, b: seq<Node>)
    requires Ring(a + b)
    ensures Ring(b + a)
  {
    hide Different, Chain, Linked;
    RotateDifferent(a, b);
    RotateChain(a, b);
  }

  /** The same nodes can only be read in one order: the links determine the ring. */
  lemma {:induction false} RingIsUnique(a: seq<Node>, b: seq<Node>, k: nat)
    requires Ring(a) && Ring(b) && a != [] && b != [] && a[0] == b[0]
    requires k < |a| && k < |b|
    ensures a[k] == b[k]
  {
    if k > 0 {
      RingIsUnique(a, b, k - 1);
      assert Linked(a[k - 1], a[k - 1 + 1]) && Linked(b[k - 1], b[k - 1 + 1]);
    }
  }

  lemma NotShorter(a: seq<Node>, b: seq<Node>)
    requires Ring(a) && Ring(b) && a != [] && b != [] && a[0] == b[0]
    ensures |a| >= |b|
  {
    if |a| < |b| {
      assert Linked(b[|a| - 1], b[|a| - 1 + 1]);
      RingIsUnique(a, b, |a| - 1);
    }
  }

  /** From the head there is only one list. */
  lemma ListIsUnique(head: Node, items: seq<Node>, others: seq<Node>)
    requires List(head, items) && List(head, others)
    ensures items == others
  {
    var a, b := [head] + items, [head] + others;
    NotShorter(a, b);
    NotShorter(b, a);
    forall k | 0 <= k < |items| ensures items[k] == others[k] {
      RingIsUnique(a, b, k + 1);
      assert items[k] == a[k + 1] && others[k] == b[k + 1];
    }
  }

  lemma HeadIsNoItem(head: Node, items: seq<Node>)
    requires List(head, items)
    ensures head !in items
  {
    var r := [head] + items;
    forall k | 0 <= k < |items| ensures items[k] != head {
      assert r[0] == head && r[k + 1] == items[k];
    }
  }

  // ---------------------------------------------------------------- operations

  function First(head: Node, items: seq<Node>): Node { if items == [] then head else items[0] }

  function Last(head: Node, items: seq<Node>): Node { if items == [] then head else items[|items| - 1] }

  method ListInit(list: Node)
    modifies list`next, list`prev
    ensures List(list, [])
  {
    list.prev := list;
    list.next := list;
  }

  /** Four links are written, and these only. */
  method LinkBetween(item: Node, prev: Node, next: Node)
    requires item != prev && item != next
    modifies prev`next, next`prev, item`next, item`prev
    ensures prev.next == item && next.prev == item && item.prev == prev && item.next == next
  {
    prev.next := item;
    next.prev := item;
    item.prev := prev;
    item.next := next;
  }

  /** The item goes between two neighbours, here the last and the first of `r`. */
  method ListAddBetween(item: Node, prev: Node, next: Node, ghost r: seq<Node>)
    requires Ring(r) && item !in r && r != [] && prev == r[|r| - 1] && next == r[0]
    modifies prev`next, next`prev, item`next, item`prev
    ensures Ring(r + [item])
  {
    LinkBetween(item, prev, next);
    ghost var s := r + [item];
    assert forall i :: 0 <= i < |r| ==> s[i] == r[i];
    forall i | 0 <= i < |s| - 1 ensures Linked(s[i], s[i + 1]) {
      if i < |r| - 1 {
        assert old(Linked(r[i], r[i + 1]));
      }
    }
  }

  /** A new first item. */
  method ListAdd(item: Node, head: Node, ghost items: seq<Node>)
    requires List(head, items) && item != head && item !in items
    modifies head`next, First(head, items)`prev, item`next, item`prev
    ensures List(head, [item] + items)
  {
    hide Ring;
    Rotate([head], items);
    NextOfHead(head, items);
    ListAddBetween(item, head, head.next, items + [head]);
    assert items + [head] + [item] == items + [head, item];
    Rotate(items, [head, item]);
    assert [head, item] + items == [head] + ([item] + items);
  }

  lemma NextOfHead(head: Node, items: seq<Node>)
    requires List(head, items)
    ensures head.next == First(head, items) && head.prev == Last(head, items)
  {
    var r := [head] + items;
    assert Linked(r[|r| - 1], r[0]);
    if items != [] { assert Linked(r[0], r[0 + 1]); }
  }

  /** A new last item. */
  method ListAddBack(item: Node, head: Node, ghost items: seq<Node>)
    requires List(head, items) && item != head && item !in items
    modifies Last(head, items)`next, head`prev, item`next, item`prev
    ensures List(head, items + [item])
  {
    hide Ring;
    NextOfHead(head, items);
    ListAddBetween(item, head.prev, head, [head] + items);
    assert [head] + items + [item] == [head] + (items + [item]);
  }

  /** The node between `before` and `after` leaves the ring, whichever node of the ring it is; its
      own links stay as they were. */
  method ListDel(node: Node, ghost before: seq<Node>, ghost after: seq<Node>)
    requires Ring(before + [node] + after) && node.prev != null && node.next != null
    modifies node.prev`next, node.next`prev
    ensures Ring(before + after)
    ensures node.next == old(node.next) && node.prev == old(node.prev)
  {
    Rotate(before + [node], after);
    assert after + (before + [node]) == after + before + [node];
    Unlink(node, after + before);
    Rotate(after, before);
  }

  /** The neighbours are linked to each other; the node's own links stay. */
  method LinkAround(node: Node)
    requires node.prev != null && node.next != null
    modifies node.prev`next, node.next`prev
    ensures node.next == old(node.next) && node.prev == old(node.prev)
    ensures node.prev.next == node.next && node.next.prev == node.prev
  {
    node.prev.next := node.next;
    node.next.prev := node.prev;
  }

  method Unlink(node: Node, ghost s: seq<Node>)
    requires Ring(s + [node]) && node.prev != null && node.next != null
    modifies node.prev`next, node.next`prev
    ensures Ring(s)
    ensures node.next == old(node.next) && node.prev == old(node.prev)
  {
    ghost var r := s + [node];
    assert Linked(r[|r| - 1], r[0]);
    if |s| > 0 { assert Linked(r[|s| - 1], r[|s| - 1 + 1]); }
    assert forall i :: 0 <= i < |s| ==> r[i] == s[i];
    LinkAround(node);
    forall i | 0 <= i < |s| - 1 ensures Linked(s[i], s[i + 1]) {
      assert old(Linked(r[i], r[i + 1]));
    }
  }

  // ---------------------------------------------------------------- reading the list

  /** From the head along `next`, as list_for_each goes. */
  method ReadForward(head: Node, ghost items: seq<Node>) returns (r: seq<Node>)
    requires List(head, items)
    ensures r == items
  {
    r := [];
    NextOfHead(head, items);
    HeadIsNoItem(head, items);
    var pos := head.next;
    while pos != head
      invariant |r| <= |items| && r == items[..|r|]
      invariant pos == if |r| < |items| then items[|r|] else head
      decreases |items| - |r|
    {
      ghost var k := |r| + 1;
      assert Linked(([head] + items)[k], if k < |items| then ([head] + items)[k + 1] else head) by {
        if k < |items| { assert Linked(([head] + items)[k], ([head] + items)[k + 1]); }
      }
      r := r + [pos];
      pos := pos.next;
    }
  }

  /** From the head along `prev`: the same items, the other way round. */
  method ReadBackward(head: Node, ghost items: seq<Node>) returns (r: seq<Node>)
    requires List(head, items)
    ensures |r| == |items| && forall k :: 0 <= k < |r| ==> r[k] == items[|items| - 1 - k]
  {
    r := [];
    NextOfHead(head, items);
    HeadIsNoItem(head, items);
    var pos := head.prev;
    while pos != head
      invariant |r| <= |items| && forall k :: 0 <= k < |r| ==> r[k] == items[|items| - 1 - k]
      invariant pos == if |r| < |items| then items[|items| - 1 - |r|] else head
      decreases |items| - |r|
    {
      ghost var k := |items| - |r|;
      assert Linked(([head] + items)[k - 1], ([head] + items)[k - 1 + 1]);
      r := r + [pos];
      pos := pos.prev;
    }
  }

  // ---------------------------------------------------------------- any sequence of calls

  datatype Call = AddFront(node: Node) | AddBack(node: Node) | Delete(node: Node)

  /** Items are added when they are not in the list and deleted when they are. */
  predicate Fits(head: Node, items: seq<Node>, c: Call) {
    c.node != head && if c.Delete? then c.node in items else c.node !in items
  }

  function Without(items: seq<Node>, n: Node): seq<Node> {
    if items == [] then []
    else if items[0] == n then items[1..]
    else [items[0]] + Without(items[1..], n)
  }

  function Effect(items: seq<Node>, c: Call): seq<Node> {
    match c
    case AddFront(n) => [n] + items
    case AddBack(n) => items + [n]
    case Delete(n) => Without(items, n)
  }

  predicate AllFit(head: Node, items: seq<Node>, cs: seq<Call>)
    decreases |cs|
  {
    cs == [] || (Fits(head, items, cs[0]) && AllFit(head, Effect(items, cs[0]), cs[1..]))
  }

  function Effects(items: seq<Node>, cs: seq<Call>): seq<Node>
    decreases |cs|
  {
    if cs == [] then items else Effects(Effect(items, cs[0]), cs[1..])
  }

  /** First come, first done. */
  lemma {:induction false} EffectsInOrder(items: seq<Node>, first: seq<Call>, last: Call)
    ensures Effects(items, []) == items
    ensures Effects(items, first + [last]) == Effect(Effects(items, first), last)
    decreases |first|
  {
    hide Effect;
    if first == [] {
      assert [] + [last] == [last];
    } else {
      EffectsInOrder(Effect(items, first[0]), first[1..], last);
      assert (first + [last])[1..] == first[1..] + [last];
    }
  }

  lemma {:induction false} Split(items: seq<Node>, n: Node) returns (before: seq<Node>, after: seq<Node>)
    requires n in items
    ensures items == before + [n] + after && Without(items, n) == before + after
  {
    if items[0] == n {
      before, after := [], items[1..];
    } else {
      var b, a := Split(items[1..], n);
      before, after := [items[0]] + b, a;
      assert items == [items[0]] + items[1..];
    }
  }

  /** The nodes a call may touch are the head, the list's and the call's own. */
  method Perform(c: Call, head: Node, ghost items: seq<Node>)
    requires List(head, items) && Fits(head, items, c)
    modifies {head, c.node}, set n | n in items
    ensures List(head, Effect(items, c))
    ensures c.AddFront? ==> List(head, [c.node] + items)
    ensures c.AddBack? ==> List(head, items + [c.node])
    ensures c.Delete? ==>
      forall before, after :: items == before + [c.node] + after ==> List(head, before + after)
  {
    match c
    case AddFront(n) => ListAdd(n, head, items);
    case AddBack(n) => ListAddBack(n, head, items);
    case Delete(n) =>
      ghost var before, after := Split(items, n);
      assert [head] + items == ([head] + before) + [n] + after;
      NeighboursInRing([head] + before, n, after);
      ListDel(n, [head] + before, after);
      assert ([head] + before) + after == [head] + (before + after);
      forall front, back | items == front + [n] + back ensures front + back == before + after {
        OneSplit(front, n, back, before, after, [head] + items);
      }
  }

  /** A node that is there once splits the items in one way only. */
  lemma OneSplit(a: seq<Node>, n: Node, b: seq<Node>, c: seq<Node>, d: seq<Node>, r: seq<Node>)
    requires a + [n] + b == c + [n] + d && |r| > 0 && r[1..] == a + [n] + b && Different(r)
    ensures a == c && b == d
  {
    var s := a + [n] + b;
    assert s == c + [n] + d && |s| == |a| + 1 + |b| == |c| + 1 + |d|;
    assert s[|a|] == n && s[|c|] == n;
    assert r[|a| + 1] == n && r[|c| + 1] == n;
    assert a == s[..|a|] && c == s[..|c|] && b == s[|a| + 1..] && d == s[|c| + 1..];
  }

  lemma NeighboursInRing(before: seq<Node>, n: Node, after: seq<Node>)
    requires Ring(before + [n] + after)
    ensures n.prev != null && n.prev in before + [n] + after
    ensures n.next != null && n.next in before + [n] + after
  {
    Rotate(before + [n], after);
    var r := after + (before + [n]);
    assert forall m :: m in r ==> m in before + [n] + after;
    assert r[|r| - 1] == n && Linked(r[|r| - 1], r[0]);
    if |r| > 1 { assert Linked(r[|r| - 2], r[|r| - 2 + 1]); }
  }

  /** Any calls that add what is not in the list and delete what is leave the list the calls describe. */
  method PerformAll(cs: seq<Call>, head: Node, ghost items: seq<Node>)
    requires List(head, items) && AllFit(head, items, cs)
    modifies {head}, set n | n in items, set c | c in cs :: c.node
    ensures List(head, Effects(items, cs))
    decreases |cs|
  {
    if cs != [] {
      assert cs[0] in cs;
      Perform(cs[0], head, items);
      StaysWithin(items, cs[0]);
      assert forall c :: c in cs[1..] ==> c in cs;
      PerformAll(cs[1..], head, Effect(items, cs[0]));
    }
  }

  lemma StaysWithin(items: seq<Node>, c: Call)
    ensures forall n :: n in Effect(items, c) ==> n in items || n == c.node
  {
    if c.Delete? && c.node in items {
      var before, after := Split(items, c.node);
    } else if c.Delete? {
      KeepsAll(items, c.node);
    }
  }

  lemma {:induction false} KeepsAll(items: seq<Node>, n: Node)
    requires n !in items
    ensures Without(items, n) == items
  {
    if items != [] { KeepsAll(items[1..], n); }
  }

  // ---------------------------------------------------------------- adding through a deleted node

  lemma NextInRing(r: seq<Node>, n: Node)
    requires Ring(r) && n in r
    ensures n.next != null && n.next in r && n.next.prev == n
  {
    var i :| 0 <= i < |r| && r[i] == n;
    if i + 1 < |r| {
      assert Linked(r[i], r[i + 1]);
    }
  }

  /** A ring that holds a node holds all that follow it. */
  lemma {:induction false} RingHoldsFollowers(r: seq<Node>, s: seq<Node>, k: nat)
    requires Ring(r) && k < |s| && s[0] in r
    requires forall i :: 0 <= i < |s| - 1 ==> s[i].next == s[i + 1]
    ensures s[k] in r
  {
    if k > 0 {
      RingHoldsFollowers(r, s, k - 1);
      NextInRing(r, s[k - 1]);
      assert s[k - 1].next == s[k - 1 + 1];
    }
  }

  /** The remaining nodes still follow each other round, but the way back from the first leads out. */
  ghost predicate Astray(s: seq<Node>, back: Node)
    reads s
  {
    && s != [] && back !in s && s[0].prev == back
    && (forall i :: 0 <= i < |s| - 1 ==> s[i].next == s[i + 1])
    && s[|s| - 1].next == s[0]
  }

  lemma AstrayIsInNoRing(r: seq<Node>, s: seq<Node>, back: Node)
    requires Astray(s, back) && s[0] in r
    ensures !Ring(r)
  {
    if Ring(r) {
      RingHoldsFollowers(r, s, |s| - 1);
      NextInRing(r, s[|s| - 1]);
    }
  }

  /** After its deletion a node's own links still lead into the ring it has left. */
  lemma StaleLinks(before: seq<Node>, node: Node, after: seq<Node>)
    requires Ring(before + [node] + after)
    ensures node.next == (if before + after == [] then node else (after + before)[0])
    ensures node.prev == (if before + after == [] then node else (after + before)[|after + before| - 1])
  {
    Rotate(before + [node], after);
    var s := after + before;
    var r := s + [node];
    assert r == after + (before + [node]);
    assert Linked(r[|r| - 1], r[0]);
    if s != [] { assert Linked(r[|s| - 1], r[|s| - 1 + 1]); }
  }

  lemma RingFollows(s: seq<Node>)
    requires Ring(s) && s != []
    ensures forall i :: 0 <= i < |s| - 1 ==> s[i].next == s[i + 1] && s[i + 1].prev == s[i]
    ensures s[|s| - 1].next == s[0] && s[0].prev == s[|s| - 1]
  {
    forall i | 0 <= i < |s| - 1 ensures s[i].next == s[i + 1] && s[i + 1].prev == s[i] {
      assert Linked(s[i], s[i + 1]);
    }
  }

  /** A node is deleted and an item then added behind it, as list_add does.  The item lands in a ring
      exactly when the deleted node was alone; otherwise the nodes that remain are led astray. */
  method AddAfterDeleted(node: Node, item: Node, ghost before: seq<Node>, ghost after: seq<Node>)
    requires Ring(before + [node] + after) && item !in before + [node] + after
    requires node.prev != null && node.next != null
    modifies {node, item}, set n | n in before + after
    ensures (exists r: seq<Node> :: item in r && Ring(r)) <==> before + after == []
    ensures node.next == item && item.prev == node
    ensures before + after != [] ==>
      && Astray(after + before, item) && item.next == (after + before)[0]
      && node.prev == (after + before)[|after + before| - 1]
      && forall i :: 0 < i < |after + before| ==> (after + before)[i].prev == (after + before)[i - 1]
  {
    ghost var s := after + before;
    StaleLinks(before, node, after);
    Outside(before, node, after);
    NeighboursInRing(before, node, after);
    ListDel(node, before, after);
    Rotate(before, after);
    if s != [] { RingFollows(s); }
    LinkBetween(item, node, node.next);
    if before + after == [] {
      assert Ring([node, item]);
      assert item in [node, item];
    } else {
      assert Astray(s, item);
      forall r: seq<Node> | item in r ensures !Ring(r) {
        LeadsAstray(r, s, item);
      }
    }
  }

  lemma LeadsAstray(r: seq<Node>, s: seq<Node>, item: Node)
    requires Astray(s, item) && item.next == s[0] && item in r
    ensures !Ring(r)
  {
    if Ring(r) {
      NextInRing(r, item);
      AstrayIsInNoRing(r, s, item);
    }
  }

  lemma Outside(before: seq<Node>, node: Node, after: seq<Node>)
    requires Different(before + [node] + after)
    ensures node !in after + before
  {
    var r := before + [node] + after;
    assert r[|before|] == node;
    forall i | 0 <= i < |before| ensures before[i] != node { assert r[i] == before[i]; }
    forall i | 0 <= i < |after| ensures after[i] != node { assert r[|before| + 1 + i] == after[i]; }
  }

  /** The same with the item added in front of the deleted node, as list_add_back does. */
  method AddBeforeDeleted(node: Node, item: Node, ghost before: seq<Node>, ghost after: seq<Node>)
    requires Ring(before + [node] + after) && item !in before + [node] + after
    requires node.prev != null && node.next != null
    modifies {node, item}, set n | n in before + after
    ensures (exists r: seq<Node> :: item in r && Ring(r)) <==> before + after == []
  {
    ghost var s := after + before;
    StaleLinks(before, node, after);
    Outside(before, node, after);
    NeighboursInRing(before, node, after);
    ListDel(node, before, after);
    Rotate(before, after);
    if s != [] { RingFollows(s); }
    LinkBetween(item, node.prev, node);
    if before + after == [] {
      assert Ring([node, item]);
      assert item in [node, item];
    } else {
      assert node.next == s[0] && s[0].prev != node;
      forall r: seq<Node> | item in r ensures !Ring(r) {
        if Ring(r) {
          NextInRing(r, item);
          NextInRing(r, node);
        }
      }
    }
  }

  /** main does so with the head of two items: it adds through the head it has deleted. */
  method DeleteHeadAndAdd() returns (l: Node, it1: Node, it2: Node, it3: Node)
    ensures l.next == it3 && it3.next == it2 && it2.next == it1 && it1.next == it2
    ensures l.prev == it1 && it1.prev == it2 && it2.prev == it3 && it3.prev == l
    ensures forall r: seq<Node> :: l in r || it1 in r || it2 in r || it3 in r ==> !Ring(r)
  {
    l := new Node;
    it1 := new Node;
    it2 := new Node;
    it3 := new Node;
    hide Ring, Astray;
    ListInit(l);
    ListAdd(it1, l, []);
    assert [it1] + [] == [it1];
    ListAdd(it2, l, [it1]);
    assert [it2] + [it1] == [it2, it1];
    NextOfHead(l, [it2, it1]);
    assert [l] + [it2, it1] == [] + [l] + [it2, it1] && [] + [it2, it1] == [it2, it1] == [it2, it1] + [];
    AddAfterDeleted(l, it3, [], [it2, it1]);
    ghost var s := [it2, it1];
    TwoAstray(s, it3);
    assert s[1].prev == s[1 - 1];
    forall r: seq<Node> | l in r || it1 in r || it2 in r || it3 in r ensures !Ring(r) {
      NoRingIsLeft(l, it1, it2, it3, r);
    }
  }

  lemma TwoAstray(s: seq<Node>, back: Node)
    requires Astray(s, back) && |s| == 2
    ensures s[0].next == s[1] && s[1].next == s[0] && s[0].prev == back != s[1]
  {
    assert s[0].next == s[0 + 1];
  }

  /** No ring holds any of the four nodes it leaves behind. */
  lemma NoRingIsLeft(l: Node, it1: Node, it2: Node, it3: Node, r: seq<Node>)
    requires l.next == it3 && it3.next == it2 && it2.next == it1 && it1.next == it2
    requires it2.prev == it3 && it3 != it1
    requires l in r || it1 in r || it2 in r || it3 in r
    ensures !Ring(r)
  {
    if Ring(r) {
      if l in r { NextInRing(r, l); }
      if it3 in r { NextInRing(r, it3); }
      if it2 in r { NextInRing(r, it2); }
      NextInRing(r, it1);
    }
  }
}
