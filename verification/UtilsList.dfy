/** The null-terminated doubly linked list with head, tail and length. */
module UtilsList {
  import opened Common

  /** The `match` callback; `None` stands for NULL, which compares values for identity. */
  type Matcher<!V> = Option<(V, V) -> bool>

  function MatchWith<V(==)>(m: Matcher<V>, key: V, v: V): bool {
    if m.Some? then m.value(key, v) else key == v
  }

  /** The first position in `vals` whose value matches, or the length. */
  function FirstIndex<V(==)>(vals: seq<V>, m: Matcher<V>, key: V): (i: nat)
    ensures i <= |vals|
    ensures forall j :: 0 <= j < i ==> !MatchWith(m, key, vals[j])
    ensures i < |vals| ==> MatchWith(m, key, vals[i])
  {
    if vals == [] || MatchWith(m, key, vals[0]) then 0 else 1 + FirstIndex(vals[1..], m, key)
  }

  /** No value before position `k` matches; whether the one at `k` does decides whether it is the first. */
  lemma {:induction false} FirstIndexStep<V>(vals: seq<V>, m: Matcher<V>, key: V, k: nat)
    requires k <= FirstIndex(vals, m, key) && k < |vals|
    ensures FirstIndex(vals, m, key) == k <==> MatchWith(m, key, vals[k])
  {
    hide MatchWith;
  }

  function Reversed<T>(s: seq<T>): (r: seq<T>)
    ensures |r| == |s| && forall i :: 0 <= i < |s| ==> r[i] == s[|s| - 1 - i]
  {
    if s == [] then [] else Reversed(s[1..]) + [s[0]]
  }

  class ListNode<V> {
    var prev: ListNode?<V>
    var next: ListNode?<V>
    const val: V

    /** `_list_node_new`. */
    constructor (val: V)
      ensures prev == null && next == null && this.val == val
    {
      prev, next := null, null;
      this.val := val;
    }
  }

  ghost function At<V>(nodes: seq<ListNode<V>>, i: int): ListNode?<V> {
    if 0 <= i < |nodes| then nodes[i] else null
  }

  /** Each node of `nodes` points to its neighbours, and to null at the ends. */
  ghost predicate Linked<V>(nodes: seq<ListNode<V>>)
    reads nodes
  {
    && (forall i {:trigger nodes[i].next} :: 0 <= i < |nodes| ==> nodes[i].next == At(nodes, i + 1))
    && (forall i {:trigger nodes[i].prev} :: 0 <= i < |nodes| ==> nodes[i].prev == At(nodes, i - 1))
  }

  /** As `Linked`, except that the neighbours of `nodes[k]` point past it. */
  ghost predicate Bridged<V>(nodes: seq<ListNode<V>>, k: nat)
    requires k < |nodes|
    reads nodes
  {
    && (forall i {:trigger nodes[i].next} :: 0 <= i < |nodes| && i != k ==>
          nodes[i].next == At(nodes, if i == k - 1 then k + 1 else i + 1))
    && (forall i {:trigger nodes[i].prev} :: 0 <= i < |nodes| && i != k ==>
          nodes[i].prev == At(nodes, if i == k + 1 then k - 1 else i - 1))
  }

  lemma {:induction false} BridgedLinked<V>(nodes: seq<ListNode<V>>, k: nat)
    requires k < |nodes| && Bridged(nodes, k) && Distinct(nodes)
    ensures Linked(Without(nodes, k)) && Distinct(Without(nodes, k))
    ensures At(Without(nodes, k), 0) == At(nodes, if k == 0 then 1 else 0)
    ensures At(Without(nodes, k), |nodes| - 2) == At(nodes, if k == |nodes| - 1 then k - 1 else |nodes| - 1)
  {
    var rest := Without(nodes, k);
    forall i | 0 <= i < |rest| ensures rest[i].next == At(rest, i + 1) && rest[i].prev == At(rest, i - 1) {
      var j := if i < k then i else i + 1;
      assert rest[i] == nodes[j];
      assert nodes[j].next == At(rest, i + 1);
      assert nodes[j].prev == At(rest, i - 1);
    }
  }

  function Vals<V>(nodes: seq<ListNode<V>>): (vals: seq<V>)
    ensures |vals| == |nodes| && forall i :: 0 <= i < |nodes| ==> vals[i] == nodes[i].val
  {
    seq(|nodes|, i requires 0 <= i < |nodes| => nodes[i].val)
  }

  datatype ListDirection = LIST_HEAD | LIST_TAIL

  /** The order in which an iterator of the given direction visits the nodes. */
  ghost function Order<V>(nodes: seq<ListNode<V>>, direction: ListDirection): seq<ListNode<V>> {
    if direction == LIST_HEAD then nodes else Reversed(nodes)
  }

  class ListIterator<V> {
    var next: ListNode?<V>
    const direction: ListDirection

    /** `_list_iterator_new_from_node`. */
    constructor (node: ListNode?<V>, direction: ListDirection)
      ensures next == node && this.direction == direction
    {
      next := node;
      this.direction := direction;
    }

    /** The iterator stands before the `k`-th node of its walk over `nodes`. */
    ghost predicate Before(nodes: seq<ListNode<V>>, k: nat)
      reads this
    {
      next == At(Order(nodes, direction), k)
    }

    /** `_list_iterator_next`: one step of the walk. */
    method Next(ghost nodes: seq<ListNode<V>>, ghost k: nat) returns (curr: ListNode?<V>)
      requires Linked(nodes) && k <= |nodes| && Before(nodes, k)
      modifies this
      ensures curr == At(Order(nodes, direction), k)
      ensures curr != null ==> Before(nodes, k + 1)
      ensures curr == null ==> k == |nodes| && next == null
    {
      curr := next;
      if curr != null {
        ghost var i := if direction == LIST_HEAD then k else |nodes| - 1 - k;
        assert curr == nodes[i];
        next := if direction == LIST_HEAD then curr.next else curr.prev;
      }
    }
  }

  /** A use of a node's memory. */
  datatype NodeUse<V> = Read(node: ListNode<V>) | Freed(node: ListNode<V>)

  function FreedIn<V>(uses: seq<NodeUse<V>>): seq<ListNode<V>> {
    if uses == [] then []
    else
      var m := |uses| - 1;
      FreedIn(uses[..m]) + if uses[m].Freed? then [uses[m].node] else []
  }

  /** No node is read, or freed again, after it has been freed. */
  ghost predicate NeverReadFreed<V>(uses: seq<NodeUse<V>>) {
    forall i, j :: 0 <= i < j < |uses| && uses[i].Freed? ==> uses[i].node != uses[j].node
  }

  lemma {:induction false} FreedIsFreed<V>(uses: seq<NodeUse<V>>, i: nat)
    requires i < |uses| && uses[i].Freed?
    ensures uses[i].node in FreedIn(uses)
  {
    if i < |uses| - 1 {
      FreedIsFreed(uses[..|uses| - 1], i);
    }
  }

  /** A node that has not been freed may be read and then freed. */
  lemma {:induction false} FreedBefore<V>(uses: seq<NodeUse<V>>, node: ListNode<V>)
    ensures FreedIn(uses + [Read(node), Freed(node)]) == FreedIn(uses) + [node]
    ensures NeverReadFreed(uses) && node !in FreedIn(uses) ==> NeverReadFreed(uses + [Read(node), Freed(node)])
  {
    var r, t := uses + [Read(node)], uses + [Read(node), Freed(node)];
    assert t[..|uses| + 1] == r && r[..|uses|] == uses;
    hide FreedIn;
    forall i | 0 <= i < |uses| && uses[i].Freed? ensures uses[i].node in FreedIn(uses) {
      FreedIsFreed(uses, i);
    }
  }

  class List<V(==)> {
    var head: ListNode?<V>
    var tail: ListNode?<V>
    var len: nat
    var frees: bool          // whether the `free` callback is set
    var matcher: Matcher<V>
    ghost var nodes: seq<ListNode<V>>

    /** The shape of the list: its ends, its length and the links of its distinct nodes. */
    ghost predicate Valid()
      reads this, nodes
    {
      && len == |nodes| && Distinct(nodes) && Linked(nodes)
      && head == At(nodes, 0) && tail == At(nodes, |nodes| - 1)
    }

    /** `_list_new`. */
    constructor ()
      ensures Valid() && nodes == [] && !frees && matcher == None
    {
      head, tail, len := null, null, 0;
      frees, matcher := false, None;
      nodes := [];
    }

    /** `_list_rpush`. */
    method Rpush(node: ListNode?<V>) returns (r: ListNode?<V>)
      requires Valid() && node !in nodes
      modifies this`head, this`tail, this`len, this`nodes, node, nodes
      ensures Valid() && r == node
      ensures nodes == if node == null then old(nodes) else old(nodes) + [node]
    {
      if node == null {
        return null;
      }
      if len != 0 {
        node.prev := tail;
        node.next := null;
        tail.next := node;
        tail := node;
      } else {
        head, tail := node, node;
        node.prev, node.next := null, null;
      }
      len := len + 1;
      nodes := nodes + [node];
      return node;
    }

    /** `_list_lpush`. */
    method Lpush(node: ListNode?<V>) returns (r: ListNode?<V>)
      requires Valid() && node !in nodes
      modifies this`head, this`tail, this`len, this`nodes, node, nodes
      ensures Valid() && r == node
      ensures nodes == if node == null then old(nodes) else [node] + old(nodes)
    {
      if node == null {
        return null;
      }
      if len != 0 {
        node.next := head;
        node.prev := null;
        head.prev := node;
        head := node;
      } else {
        head, tail := node, node;
        node.prev, node.next := null, null;
      }
      len := len + 1;
      nodes := [node] + nodes;
      return node;
    }

    /** `_list_rpop`. */
    method Rpop() returns (node: ListNode?<V>)
      requires Valid()
      modifies this`head, this`tail, this`len, this`nodes, nodes
      ensures Valid()
      ensures old(nodes) == [] ==> node == null && nodes == []
      ensures old(nodes) != [] ==> old(nodes) == nodes + [node] && node.prev == null && node.next == null
    {
      if len == 0 {
        return null;
      }
      node := tail;
      len := len - 1;
      if len != 0 {
        tail := node.prev;
        tail.next := null;
      } else {
        head, tail := null, null;
      }
      node.next, node.prev := null, null;
      nodes := nodes[..|nodes| - 1];
    }

    /** `_list_lpop`. */
    method Lpop() returns (node: ListNode?<V>)
      requires Valid()
      modifies this`head, this`tail, this`len, this`nodes, nodes
      ensures Valid()
      ensures old(nodes) == [] ==> node == null && nodes == []
      ensures old(nodes) != [] ==> old(nodes) == [node] + nodes && node.prev == null && node.next == null
    {
      if len == 0 {
        return null;
      }
      node := head;
      len := len - 1;
      if len != 0 {
        head := node.next;
        head.prev := null;
      } else {
        head, tail := null, null;
      }
      node.next, node.prev := null, null;
      nodes := nodes[1..];
    }

    /** `_list_iterator_new`. */
    method NewIterator(direction: ListDirection) returns (it: ListIterator<V>)
      requires Valid()
      ensures fresh(it) && it.direction == direction && it.Before(nodes, 0)
    {
      it := new ListIterator(if direction == LIST_HEAD then head else tail, direction);
    }

    /** A walk with `_list_iterator_new` and `_list_iterator_next`: from the head it visits the nodes in
        order, and from the tail in exactly the reverse order. */
    method Walk(direction: ListDirection) returns (visited: seq<ListNode<V>>)
      requires Valid()
      ensures visited == Order(nodes, direction)
      ensures direction == LIST_HEAD ==> visited == nodes
      ensures direction == LIST_TAIL ==> visited == Reversed(nodes)
    {
      assert Linked(nodes);
      hide Linked, Distinct, Reversed;
      ghost var order := Order(nodes, direction);
      var it := NewIterator(direction);
      visited := [];
      var node := it.Next(nodes, 0);
      while node != null
        invariant Linked(nodes) && it.direction == direction && |visited| <= |order| == |nodes|
        invariant visited == order[..|visited|] && node == At(order, |visited|)
        invariant node != null ==> it.Before(nodes, |visited| + 1)
        decreases |order| - |visited|
      {
        visited := visited + [node];
        node := it.Next(nodes, |visited|);
      }
    }

    /** `_list_find`: the first node, from the head, whose value matches. */
    method Find(val: V) returns (node: ListNode?<V>)
      requires Valid()
      ensures node == At(nodes, FirstIndex(Vals(nodes), matcher, val))
    {
      assert Linked(nodes);
      hide Linked, Distinct, FirstIndex;
      var it := NewIterator(LIST_HEAD);
      ghost var k := 0;
      node := it.Next(nodes, k);
      while node != null
        invariant Linked(nodes) && it.direction == LIST_HEAD && k <= |nodes|
        invariant node == At(nodes, k)
        invariant node != null ==> it.Before(nodes, k + 1)
        invariant k <= FirstIndex(Vals(nodes), matcher, val)
        decreases |nodes| - k
      {
        FirstIndexStep(Vals(nodes), matcher, val, k);
        if matcher.Some? {
          if matcher.value(val, node.val) {
            return node;
          }
        } else {
          if val == node.val {
            return node;
          }
        }
        k := k + 1;
        node := it.Next(nodes, k);
      }
    }

    /** `_list_at`: a negative index counts from the tail, -1 being the last node. */
    method NodeAt(index: int) returns (node: ListNode?<V>)
      requires Valid()
      ensures node == At(nodes, if index < 0 then |nodes| + index else index)
    {
      assert Linked(nodes) && len == |nodes|;
      hide Linked, Distinct;
      var direction := LIST_HEAD;
      var i := index;
      if i < 0 {
        direction := LIST_TAIL;
        i := -i - 1;   // ~index
      }
      if i < len {
        var it := NewIterator(direction);
        node := it.Next(nodes, 0);
        ghost var k := 0;
        while i != 0
          invariant Linked(nodes) && it.direction == direction && 0 <= i && k + i < |nodes|
          invariant k + i == if index < 0 then -index - 1 else index
          invariant node == At(Order(nodes, direction), k) && it.Before(nodes, k + 1)
          decreases i
        {
          i := i - 1;
          k := k + 1;
          node := it.Next(nodes, k);
        }
        return node;
      }
      return null;
    }

    /** The part of `_list_remove` that bridges the node's neighbours. */
    method Unlink(node: ListNode<V>, ghost k: nat)
      requires Valid() && k < |nodes| && nodes[k] == node
      modifies this`head, this`tail, nodes
      ensures Bridged(nodes, k)
      ensures head == At(nodes, if k == 0 then 1 else 0)
      ensures tail == At(nodes, if k == |nodes| - 1 then k - 1 else |nodes| - 1)
    {
      if node.prev != null {
        node.prev.next := node.next;
      } else {
        head := node.next;
      }
      if node.next != null {
        node.next.prev := node.prev;
      } else {
        tail := node.prev;
      }
    }

    /** `_list_remove`; with a `free` callback the value is freed, and the node always is. */
    method Remove(node: ListNode<V>, ghost k: nat) returns (freedVals: seq<V>)
      requires Valid() && k < |nodes| && nodes[k] == node
      modifies this`head, this`tail, this`len, this`nodes, nodes
      ensures Valid() && nodes == Without(old(nodes), k)
      ensures freedVals == if frees then [node.val] else []
    {
      hide Linked, Bridged, At, Without, Distinct;
      ghost var was := nodes;
      Unlink(node, k);
      BridgedLinked(was, k);
      freedVals := if frees then [node.val] else [];
      len := len - 1;
      nodes := Without(was, k);
    }

    /** `_list_destroy`: what it frees, in order, and how it uses the nodes. */
    method Destroy() returns (freedNodes: seq<ListNode<V>>, freedVals: seq<V>, uses: seq<NodeUse<V>>)
      requires Valid()
      ensures freedNodes == nodes
      ensures freedVals == if frees then Vals(nodes) else []
      ensures freedNodes == FreedIn(uses) && NeverReadFreed(uses)
    {
      hide Linked, Distinct, NeverReadFreed, FreedIn, Vals;
      NothingUsed(nodes);
      var remaining := len;
      var curr := head;
      freedNodes, freedVals, uses := [], [], [];
      ghost var k := 0;
      while remaining != 0
        invariant k + remaining == |nodes| && freedNodes == nodes[..k] && curr == At(nodes, k)
        invariant freedVals == if frees then Vals(nodes)[..k] else []
        invariant freedNodes == FreedIn(uses) && NeverReadFreed(uses)
        decreases remaining
      {
        NextToFree(nodes, k);
        FreedBefore(uses, curr);
        remaining := remaining - 1;
        var next := curr.next;
        if frees {
          freedVals := freedVals + [curr.val];
        }
        freedNodes := freedNodes + [curr];
        uses := uses + [Read(curr), Freed(curr)];
        curr := next;
        k := k + 1;
      }
    }
  }

  lemma {:induction false} NothingUsed<V>(nodes: seq<ListNode<V>>)
    ensures nodes[..0] == [] && nodes[..|nodes|] == nodes && Vals(nodes)[..0] == []
    ensures |Vals(nodes)| == |nodes| && Vals(nodes)[..|nodes|] == Vals(nodes)
    ensures FreedIn<V>([]) == [] && NeverReadFreed<V>([])
  {
  }

  lemma {:induction false} NextToFree<V>(nodes: seq<ListNode<V>>, k: nat)
    requires Linked(nodes) && Distinct(nodes) && k < |nodes|
    ensures nodes[k] !in nodes[..k] && nodes[k].next == At(nodes, k + 1)
    ensures nodes[..k + 1] == nodes[..k] + [nodes[k]]
    ensures Vals(nodes)[..k + 1] == Vals(nodes)[..k] + [nodes[k].val]
  {
  }
}
