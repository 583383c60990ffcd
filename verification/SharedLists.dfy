/** The locked wrappers around the list: add, find, and find-then-remove, each one atomic step
    under its mutex. */
module SharedLists {
  import opened Common
  import opened UtilsList

  datatype NatsStatus = NATS_OK | NATS_ERR

  /** The values left when the first match is taken out. */
  function RemoveFirst<V(==)>(vals: seq<V>, m: Matcher<V>, key: V): seq<V> {
    var i := FirstIndex(vals, m, key);
    if i < |vals| then Without(vals, i) else vals
  }

  /** `_add_to_list`. */
  method AddToList<V(==)>(list: List<V>, val: V) returns (status: NatsStatus)
    requires list.Valid()
    modifies list`head, list`tail, list`len, list`nodes, list.nodes
    ensures list.Valid() && status == NATS_OK
    ensures Vals(list.nodes) == Vals(old(list.nodes)) + [val]
    ensures |list.nodes| > 0 && fresh(list.nodes[|list.nodes| - 1])
    ensures list.nodes[..|list.nodes| - 1] == old(list.nodes)
  {
    var node := new ListNode(val);
    var r := list.Rpush(node);
    status := NATS_OK;
  }

  /** `_find_in_list`. */
  method FindInList<V(==)>(list: List<V>, val: V) returns (node: ListNode?<V>)
    requires list.Valid()
    ensures node == At(list.nodes, FirstIndex(Vals(list.nodes), list.matcher, val))
    ensures node == null <==> forall i :: 0 <= i < |list.nodes| ==> !MatchWith(list.matcher, val, list.nodes[i].val)
  {
    node := list.Find(val);
  }

  /** `_remove_from_list`: exactly the first match goes, and its value is what is freed. */
  method RemoveFromList<V(==)>(list: List<V>, val: V) returns (status: NatsStatus, freedVals: seq<V>)
    requires list.Valid()
    modifies list`head, list`tail, list`len, list`nodes, list.nodes
    ensures list.Valid()
    ensures Vals(list.nodes) == RemoveFirst(Vals(old(list.nodes)), list.matcher, val)
    ensures var vals := Vals(old(list.nodes));
            var i := FirstIndex(vals, list.matcher, val);
            if i < |vals| then
              && status == NATS_OK && list.nodes == Without(old(list.nodes), i)
              && freedVals == (if list.frees then [vals[i]] else [])
            else status == NATS_ERR && freedVals == [] && list.nodes == old(list.nodes)
  {
    var node := list.Find(val);
    ghost var i := FirstIndex(Vals(list.nodes), list.matcher, val);
    if node == null {
      status, freedVals := NATS_ERR, [];
    } else {
      freedVals := list.Remove(node, i);
      status := NATS_OK;
      assert Vals(list.nodes) == Without(Vals(old(list.nodes)), i);
    }
  }

  /** What the removal of the first match means for the values: one match less, in the same order,
      or no match at all. */
  lemma {:induction false} RemoveFirstTakesOne<V>(vals: seq<V>, m: Matcher<V>, key: V)
    ensures var i := FirstIndex(vals, m, key);
            if i < |vals| then
              && MatchWith(m, key, vals[i])
              && vals == RemoveFirst(vals, m, key)[..i] + [vals[i]] + RemoveFirst(vals, m, key)[i..]
              && multiset(vals) == multiset(RemoveFirst(vals, m, key)) + multiset{vals[i]}
            else RemoveFirst(vals, m, key) == vals && forall v :: v in vals ==> !MatchWith(m, key, v)
  {
    hide MatchWith, FirstIndex, Without;
    if FirstIndex(vals, m, key) < |vals| {
      WithoutParts(vals, FirstIndex(vals, m, key));
    }
  }

  /** A list whose callback compares a key of the values is searched as the list of the keys. */
  lemma {:induction false} FindByKey<V, K>(vals: seq<V>, keyOf: V -> K, keys: seq<K>, v: V)
    requires |keys| == |vals| && forall i :: 0 <= i < |vals| ==> keys[i] == keyOf(vals[i])
    ensures FirstIndex(vals, Some((a: V, b: V) => keyOf(a) == keyOf(b)), v) == FirstIndex(keys, None, keyOf(v))
  {
    var i := FirstIndex(vals, Some((a: V, b: V) => keyOf(a) == keyOf(b)), v);
    var j := FirstIndex(keys, None, keyOf(v));
    assert i < |vals| ==> MatchWith(None, keyOf(v), keys[i]);
  }
}
