/** Lists as seen from their heads: moves within and between lists, rotation, the tests, and
    the traversal that is safe against deletion. */
module LiteListOps {
  import opened Arithmetic
  import opened Common
  import opened LiteList

  /** The rest of the ring behind the `k`-th entry of a list. */
  ghost function Behind(head: Entry, es: seq<Entry>, k: nat): seq<Entry>
    requires k < |es|
  {
    es[k + 1..] + [head] + es[..k]
  }

  lemma {:induction false} RingFromEntry(head: Entry, es: seq<Entry>, k: nat)
    requires k < |es| && Ring([head] + es)
    ensures Ring([es[k]] + Behind(head, es, k)) && es[k] != head
    ensures EntriesBehind(Behind(head, es, k), head, Without(es, k))
    ensures head in Behind(head, es, k)
  {
    var a, b := [head] + es[..k], es[k..];
    assert [head] + es == a + b && b + a == [es[k]] + Behind(head, es, k);
    RotateRing(a, b);
    var r, j := Behind(head, es, k), |es| - k - 1;
    assert r[j] == head && r[j + 1..] == es[..k] && r[..j] == es[k + 1..];
    assert ([head] + es)[0] != ([head] + es)[k + 1];
  }

  /** Moving an entry of a list behind, or before, its own head. */
  lemma {:induction false} MoveWithin(head: Entry, es: seq<Entry>, k: nat)
    requires k < |es| && Ring([head] + es)
    ensures MovePossible(es[k], Behind(head, es, k), head, Without(es, k))
  {
    RingFromEntry(head, es, k);
  }

  /** Moving an entry from one list to another: the lists together keep their entries. */
  lemma {:induction false} MoveBetween(from: Entry, xs: seq<Entry>, k: nat, to: Entry, es: seq<Entry>)
    requires k < |xs| && Ring([from] + xs) && Ring([to] + es) && Apart([from] + xs, [to] + es)
    ensures MovePossible(xs[k], Behind(from, xs, k), to, es) && to !in Behind(from, xs, k)
    ensures multiset(Without(xs, k)) + multiset([xs[k]] + es) == multiset(xs) + multiset(es)
  {
    hide Ring, Without;
    RingFromEntry(from, xs, k);
    var rest := Behind(from, xs, k);
    hide Behind;
    var r := [xs[k]] + rest;
    forall x | x in r ensures x !in [to] + es {
      SameEntries(from, xs, k, x);
    }
    assert to in [to] + es && xs[k] in r;
    forall x | x in rest ensures x in r {}
    WithoutParts(xs, k);
  }

  lemma {:induction false} SameEntries(head: Entry, es: seq<Entry>, k: nat, x: Entry)
    requires k < |es|
    ensures x in [es[k]] + Behind(head, es, k) <==> x in [head] + es
  {
    var a, b := [head] + es[..k], es[k..];
    assert [head] + es == a + b && b + a == [es[k]] + Behind(head, es, k);
    assert x in a + b <==> x in a || x in b;
    assert x in b + a <==> x in a || x in b;
  }

  /** The list an entry was taken from, seen from its head again. */
  lemma {:induction false} SourceAfterMove(from: Entry, xs: seq<Entry>, k: nat)
    requires k < |xs| && Ring(Behind(from, xs, k))
    ensures Ring([from] + Without(xs, k))
  {
    var r, j := Behind(from, xs, k), |xs| - k - 1;
    assert r[j] == from && r[j + 1..] == xs[..k] && r[..j] == xs[k + 1..];
    SeenFrom(r, from, Without(xs, k));
  }

  /** `list_move` or `list_move_tail` from one list to another: both stay lists, and together
      they keep their entries. */
  method MoveToOther(list: Entry, to: Entry, atTail: bool, ghost from: Entry, ghost xs: seq<Entry>, ghost k: nat,
                     ghost es: seq<Entry>)
    returns (ghost xs': seq<Entry>, ghost es': seq<Entry>)
    requires k < |xs| && xs[k] == list
    requires Ring([from] + xs) && Ring([to] + es) && Apart([from] + xs, [to] + es)
    modifies Entries([from] + xs) + Entries([to] + es)
    ensures Ring([from] + xs') && Ring([to] + es')
    ensures xs' == Without(xs, k) && es' == if atTail then es + [list] else [list] + es
    ensures multiset(xs') + multiset(es') == multiset(xs) + multiset(es)
  {
    ghost var rest := Behind(from, xs, k);
    MoveBetween(from, xs, k, to, es);
    forall x ensures x in [list] + rest <==> x in [from] + xs {
      SameEntries(from, xs, k, x);
    }
    assert Entries([list] + rest) == Entries([from] + xs) && rest != [];
    xs', es' := Without(xs, k), if atTail then es + [list] else [list] + es;
    assert [to, list] + es == [to] + ([list] + es) && [to] + es + [list] == [to] + (es + [list]);
    assert multiset(es + [list]) == multiset([list] + es);
    hide *;
    if atTail {
      ListMoveTail(list, to, rest, es);
    } else {
      ListMove(list, to, rest, es);
    }
    SourceAfterMove(from, xs, k);
  }

  /** The entries involved in a move within a list, before and after. */
  lemma {:induction false} MovedInOwn(head: Entry, es: seq<Entry>, k: nat)
    requires k < |es|
    ensures var x, others := es[k], Without(es, k);
            && Entries([x] + Behind(head, es, k)) == Entries([head] + es)
            && Entries([head] + others) <= Entries([head] + es)
            && [head, x] + others == [head] + ([x] + others) && [head] + others + [x] == [head] + (others + [x])
            && multiset([x] + others) == multiset(es) && multiset(others + [x]) == multiset(es)
  {
    var x, others, rest := es[k], Without(es, k), Behind(head, es, k);
    forall y ensures y in [x] + rest <==> y in [head] + es {
      SameEntries(head, es, k, y);
    }
    hide Behind;
    WithoutParts(es, k);
    WithoutEntries(head, es, k);
  }

  lemma {:induction false} WithoutEntries(head: Entry, es: seq<Entry>, k: nat)
    requires k < |es|
    ensures Entries([head] + Without(es, k)) <= Entries([head] + es)
  {
    var r, t := [head] + es, [head] + Without(es, k);
    forall i | 0 <= i < |t| ensures t[i] in r {
      assert t[i] == r[if i <= k then i else i + 1];
    }
  }

  /** `list_move` or `list_move_tail` of an entry within its own list, also next to the head. */
  method MoveInOwn(list: Entry, head: Entry, atTail: bool, ghost es: seq<Entry>, ghost k: nat)
    returns (ghost es': seq<Entry>)
    requires k < |es| && es[k] == list && Ring([head] + es)
    modifies Entries([head] + es)
    ensures Ring([head] + es')
    ensures es' == if atTail then Without(es, k) + [list] else [list] + Without(es, k)
    ensures multiset(es') == multiset(es)
  {
    ghost var rest, others := Behind(head, es, k), Without(es, k);
    hide *;
    MoveWithin(head, es, k);
    MovedInOwn(head, es, k);
    es' := if atTail then others + [list] else [list] + others;
    if atTail {
      ListMoveTail(list, head, rest, others);
    } else {
      ListMove(list, head, rest, others);
    }
  }

  // ---------------------------------------------------------------- tests

  /** `list_empty`. */
  method ListEmpty(head: Entry, ghost es: seq<Entry>) returns (b: bool)
    requires Ring([head] + es)
    ensures b <==> es == []
  {
    FirstOfRing(head, es);
    assert es != [] ==> es[0] in es;
    b := head.next == head;
  }

  /** `list_empty_careful`. */
  method ListEmptyCareful(head: Entry, ghost es: seq<Entry>) returns (b: bool)
    requires Ring([head] + es)
    ensures b <==> es == []
  {
    FirstOfRing(head, es);
    assert es != [] ==> es[0] in es;
    var next := head.next;
    b := next == head && next == head.prev;
  }

  /** `list_is_last`. */
  method ListIsLast(list: Entry, head: Entry, ghost es: seq<Entry>) returns (b: bool)
    requires Ring([head] + es) && list in es
    ensures b <==> list == es[|es| - 1]
  {
    ghost var k :| 0 <= k < |es| && es[k] == list;
    RingFromEntry(head, es, k);
    FirstOfRing(list, Behind(head, es, k));
    FirstOfRing(head, es);
    ghost var r := [head] + es;
    assert r[k + 1] == es[k] && r[|es|] == es[|es| - 1];
    b := list.next == head;
  }

  /** `list_is_singular`. */
  method ListIsSingular(head: Entry, ghost es: seq<Entry>) returns (b: bool)
    requires Ring([head] + es)
    ensures b <==> |es| == 1
  {
    FirstOfRing(head, es);
    ghost var r := [head] + es;
    assert |es| > 1 ==> r[1] != r[|es|];
    var e := ListEmpty(head, es);
    b := !e && head.next == head.prev;
  }

  // ------------------------------------------------------------- rotation

  function Rotated<T>(es: seq<T>): seq<T> {
    if es == [] then [] else es[1..] + [es[0]]
  }

  function RotatedBy<T>(es: seq<T>, k: nat): seq<T> {
    if k == 0 then es else Rotated(RotatedBy(es, k - 1))
  }

  /** `list_rotate_left`. */
  method ListRotateLeft(head: Entry, ghost es: seq<Entry>)
    requires Ring([head] + es)
    modifies Entries([head] + es)
    ensures Ring([head] + Rotated(es))
  {
    var empty := ListEmpty(head, es);
    if !empty {
      RotationParts(head, es);
      hide *;
      var first := head.next;
      ListMoveTail(first, head, es[1..] + [head], es[1..]);
    }
  }

  /** The rotation as a move of the first entry to the tail of its own list. */
  lemma {:induction false} RotationParts(head: Entry, es: seq<Entry>)
    requires es != [] && Ring([head] + es)
    ensures head.next == es[0]
    ensures MovePossible(es[0], es[1..] + [head], head, es[1..]) && head in es[1..] + [head]
    ensures Entries([es[0]] + (es[1..] + [head])) <= Entries([head] + es)
    ensures Entries([head] + es[1..]) <= Entries([head] + es)
    ensures [head] + es[1..] + [es[0]] == [head] + Rotated(es)
  {
    hide *;
    FirstOfRing(head, es);
    MoveWithin(head, es, 0);
    RotationSequences(head, es);
    var t := es[1..];
    EntriesConcat([head], es);
    EntriesConcat(es, [head]);
    EntriesConcat([es[0]], t);
    EntriesConcat([head], t);
  }

  lemma {:induction false} RotationSequences(head: Entry, es: seq<Entry>)
    requires es != []
    ensures var t := es[1..];
            && Behind(head, es, 0) == t + [head] && Without(es, 0) == t && head in t + [head]
            && es == [es[0]] + t && [es[0]] + (t + [head]) == es + [head]
            && [head] + t + [es[0]] == [head] + Rotated(es)
  {
    var t, x := es[1..], es[0];
    assert (t + [head])[|t|] == head;
    assert es[..0] == [] && t + [head] + [] == t + [head];
    assert [] + t == t;
    assert es == [x] + t;
    AssociateEntries([x], t, [head]);
    AssociateEntries([head], t, [x]);
  }

  lemma {:induction false} AssociateEntries(a: seq<Entry>, b: seq<Entry>, c: seq<Entry>)
    ensures a + (b + c) == a + b + c
  {
  }

  /** `k` rotations of `n` entries rotate by `k` mod `n`. */
  lemma {:induction false} RotatedByIs<T>(es: seq<T>, k: nat)
    requires es != []
    ensures RotatedBy(es, k) == es[k % |es|..] + es[..k % |es|]
  {
    WrapIsRemainder(k, |es|);
    RotatedByWrap(es, k);
  }

  /** Counting to `k` and starting again at zero after `n - 1`. */
  function Wrap(k: nat, n: nat): (w: nat)
    requires n > 0
    ensures w < n
  {
    if k == 0 then 0 else
      var w := Wrap(k - 1, n);
      if w + 1 == n then 0 else w + 1
  }

  lemma {:induction false} RotatedByWrap<T>(es: seq<T>, k: nat)
    requires es != []
    ensures RotatedBy(es, k) == es[Wrap(k, |es|)..] + es[..Wrap(k, |es|)]
  {
    if k == 0 {
      assert es[0..] + es[..0] == es;
    } else {
      RotatedByWrap(es, k - 1);
      RotatedStep(es, Wrap(k - 1, |es|), Wrap(k, |es|));
    }
  }

  lemma {:induction false} RotatedStep<T>(es: seq<T>, j: nat, j': nat)
    requires j < |es| && j' == if j + 1 == |es| then 0 else j + 1
    ensures Rotated(es[j..] + es[..j]) == es[j'..] + es[..j']
  {
    var r, t := es[j..] + es[..j], es[j + 1..] + es[..j];
    assert r[0] == es[j] && r[1..] == t;
    assert Rotated(r) == t + [es[j]];
    assert es[..j + 1] == es[..j] + [es[j]];
    if j' == 0 {
      assert es[j + 1..] == [] && es[..j + 1] == es;
    } else {
      assert t + [es[j]] == es[j + 1..] + (es[..j] + [es[j]]);
    }
  }

  lemma {:induction false} WrapIsRemainder(k: nat, n: nat)
    requires n > 0
    ensures Wrap(k, n) == k % n
  {
    if k == 0 {
      assert 0 % n == 0;
    } else {
      WrapIsRemainder(k - 1, n);
      NextRemainder(k - 1, k, n);
    }
  }

  lemma {:induction false} NextRemainder(k: nat, k': nat, n: nat)
    requires n > 0 && k' == k + 1
    ensures k' % n == if k % n + 1 == n then 0 else k % n + 1
  {
    var q, r := k / n, k % n;
    assert k == n * q + r;
    if r + 1 == n {
      assert n * (q + 1) == n * q + n;
      QuotientIs(k', n, q + 1, 0);
    } else {
      QuotientIs(k', n, q, r + 1);
    }
  }

  // ------------------------------------------------- traversal with deletion

  /** `x` stands before `y` in `es`. */
  ghost predicate Before(es: seq<Entry>, x: Entry, y: Entry) {
    exists i, j :: 0 <= i < j < |es| && es[i] == x && es[j] == y
  }

  /** The entries that the deletion of `dead` leaves, in order. */
  ghost function Survivors(es: seq<Entry>, dead: set<Entry>): (r: seq<Entry>)
    ensures |r| <= |es|
  {
    if es == [] then []
    else
      var m := |es| - 1;
      Survivors(es[..m], dead) + if es[m] in dead then [] else [es[m]]
  }

  lemma {:induction false} SurvivorsSnoc(es: seq<Entry>, dead: set<Entry>, x: Entry)
    ensures Survivors(es + [x], dead) == Survivors(es, dead) + if x in dead then [] else [x]
  {
    assert (es + [x])[..|es|] == es;
  }

  /** The survivors are the entries that are not dead, and nothing else. */
  lemma {:induction false} SurvivorsAre(es: seq<Entry>, dead: set<Entry>, x: Entry)
    ensures x in Survivors(es, dead) <==> x in es && x !in dead
  {
    if es != [] {
      var m := |es| - 1;
      SurvivorsAre(es[..m], dead, x);
      assert es == es[..m] + [es[m]];
    }
  }

  /** The survivors stand in the order in which they stood. */
  lemma {:induction false} SurvivorsInOrder(es: seq<Entry>, dead: set<Entry>, i: nat, j: nat)
    requires i < j < |Survivors(es, dead)|
    ensures Before(es, Survivors(es, dead)[i], Survivors(es, dead)[j])
  {
    var m := |es| - 1;
    var front, s := Survivors(es[..m], dead), Survivors(es, dead);
    if j < |front| {
      SurvivorsInOrder(es[..m], dead, i, j);
      var p, q :| 0 <= p < q < m && es[..m][p] == s[i] && es[..m][q] == s[j];
      assert es[p] == s[i] && es[q] == s[j];
    } else {
      SurvivorsAre(es[..m], dead, s[i]);
      assert s[i] in front;
      var p :| 0 <= p < m && es[..m][p] == s[i];
      assert es[p] == s[i] && es[m] == s[j];
    }
  }

  /** Where the survivor `x` stands, and who survives it. */
  lemma {:induction false} SurvivorAt(es: seq<Entry>, dead: set<Entry>, x: Entry) returns (k: nat)
    requires Distinct(es) && x in es && x !in dead
    ensures k < |Survivors(es, dead)| && Survivors(es, dead)[k] == x
    ensures Survivors(es, dead + {x}) == Without(Survivors(es, dead), k)
  {
    var m := |es| - 1;
    var front, s := Survivors(es[..m], dead), Survivors(es, dead);
    assert es == es[..m] + [es[m]];
    if es[m] == x {
      k := |front|;
      NotAmongSurvivors(es[..m], dead, x);
      assert x !in es[..m];
      assert Without(s, k) == front;
    } else {
      k := SurvivorAt(es[..m], dead, x);
      assert Without(s, k) == Without(front, k) + s[|front|..];
    }
  }

  lemma {:induction false} NotAmongSurvivors(es: seq<Entry>, dead: set<Entry>, x: Entry)
    ensures x !in es ==> Survivors(es, dead + {x}) == Survivors(es, dead)
  {
    if es != [] {
      NotAmongSurvivors(es[..|es| - 1], dead, x);
    }
  }

  /** What a deleted entry is left with: after `list_del_init` it is a ring of its own, and after
      `list_del` its pointers still lead forward and backward in the list as it was. */
  ghost predicate Buried(head: Entry, es: seq<Entry>, x: Entry, inits: set<Entry>)
    reads {x}
  {
    if x in inits then Ring([x])
    else
      && (x.next == head || Before(es, x, x.next))
      && (x.prev == head || Before(es, x.prev, x))
  }

  ghost predicate RingWithin(r: seq<Entry>, all: seq<Entry>)
    reads all
  {
    (forall i :: 0 <= i < |r| ==> r[i] in all) && Ring(r)
  }

  /** What the loop of `list_for_each_safe` keeps: the visited entries that are not dead, in order,
      and the entries to come form the list, and the dead are buried. */
  ghost predicate Traversal(head: Entry, es: seq<Entry>, visited: seq<Entry>, todo: seq<Entry>,
                            dead: set<Entry>, inits: set<Entry>)
    reads [head] + es
  {
    && es == visited + todo && Distinct([head] + es)
    && RingWithin([head] + Survivors(visited, dead) + todo, [head] + es)
    && forall x :: x in dead ==> x in visited && x in [head] + es && Buried(head, es, x, inits)
  }

  lemma {:induction false} TraversalStart(head: Entry, es: seq<Entry>, inits: set<Entry>)
    requires Ring([head] + es)
    ensures Traversal(head, es, [], es, {}, inits)
  {
    assert [head] + Survivors([], {}) + es == [head] + es && [] + es == es;
  }

  /** The ring of a list from its `k`-th entry, for the deletion of that entry. */
  lemma {:induction false} EntryToDelete(head: Entry, xs: seq<Entry>, k: nat)
    requires k < |xs| && Ring([head] + xs)
    ensures Ring([xs[k]] + Behind(head, xs, k)) && xs[k] != head
    ensures xs[k].next == (if k + 1 < |xs| then xs[k + 1] else head)
    ensures xs[k].prev == (if k > 0 then xs[k - 1] else head)
    ensures xs[k].next in [head] + xs && xs[k].prev in [head] + xs
  {
    RingFromEntry(head, xs, k);
    FirstOfRing(xs[k], Behind(head, xs, k));
    assert ([head] + xs)[if k > 0 then k else 0] == if k > 0 then xs[k - 1] else head;
  }

  /** Deleting the `k`-th entry of a list, with or without initialising it. */
  method DeleteEntry(head: Entry, x: Entry, init: bool, ghost xs: seq<Entry>, ghost k: nat)
    requires k < |xs| && xs[k] == x && Ring([head] + xs)
    modifies Entries([head] + xs)
    ensures Ring([head] + Without(xs, k))
    ensures init ==> Ring([x])
    ensures !init ==> x.next == (if k + 1 < |xs| then xs[k + 1] else head)
    ensures !init ==> x.prev == (if k > 0 then xs[k - 1] else head)
  {
    EntryToDelete(head, xs, k);
    ghost var rest := Behind(head, xs, k);
    assert x in [head] + xs && rest != [];
    hide *;
    if init {
      ListDelInit(x, rest);
    } else {
      ListDel(x, rest);
    }
    SourceAfterMove(head, xs, k);
  }

  /** The neighbours of a surviving entry stand where they stood in the list as it was. */
  lemma {:induction false} NeighboursInOrder(visited: seq<Entry>, todo: seq<Entry>, dead: set<Entry>, k: nat)
    requires k < |Survivors(visited, dead)|
    ensures var es, xs := visited + todo, Survivors(visited, dead) + todo;
            && (k + 1 < |xs| ==> Before(es, xs[k], xs[k + 1]))
            && (k > 0 ==> Before(es, xs[k - 1], xs[k]))
  {
    var es, kept := visited + todo, Survivors(visited, dead);
    if k > 0 {
      SurvivorsInOrder(visited, dead, k - 1, k);
      BeforeInFront(visited, todo, kept[k - 1], kept[k]);
    }
    if k + 1 < |kept| {
      SurvivorsInOrder(visited, dead, k, k + 1);
      BeforeInFront(visited, todo, kept[k], kept[k + 1]);
    } else if todo != [] {
      assert kept[k] in kept;
      SurvivorsAre(visited, dead, kept[k]);
      var p :| 0 <= p < |visited| && visited[p] == kept[k];
      assert es[p] == kept[k] && es[|visited|] == todo[0];
    }
  }

  lemma {:induction false} BeforeInFront(es: seq<Entry>, tail: seq<Entry>, x: Entry, y: Entry)
    requires Before(es, x, y)
    ensures Before(es + tail, x, y)
  {
    var i, j :| 0 <= i < j < |es| && es[i] == x && es[j] == y;
    assert (es + tail)[i] == x && (es + tail)[j] == y;
  }

  /** The entries still in the list, without the one at `k`. */
  lemma {:induction false} ListWithout(head: Entry, kept: seq<Entry>, todo: seq<Entry>, k: nat, all: seq<Entry>)
    requires k < |kept| && forall i :: 0 <= i < |[head] + kept + todo| ==> ([head] + kept + todo)[i] in all
    ensures [head] + kept + todo == [head] + (kept + todo)
    ensures [head] + Without(kept, k) + todo == [head] + Without(kept + todo, k)
    ensures forall i :: 0 <= i < |[head] + Without(kept, k) + todo| ==> ([head] + Without(kept, k) + todo)[i] in all
    ensures Entries([head] + (kept + todo)) <= Entries(all)
  {
    var r, t := [head] + kept + todo, [head] + Without(kept, k) + todo;
    forall i | 0 <= i < |t| ensures t[i] in all {
      assert t[i] == r[if i <= k then i else i + 1];
    }
    assert r == [head] + (kept + todo);
  }

  /** The list in which the visited entry `x`, which is not dead, is deleted. */
  lemma {:induction false} BeforeDeletion(head: Entry, x: Entry, inits: set<Entry>, es: seq<Entry>,
                                          visited: seq<Entry>, todo: seq<Entry>, dead: set<Entry>)
    returns (k: nat)
    requires Traversal(head, es, visited, todo, dead, inits) && x in visited && x !in dead
    ensures var kept := Survivors(visited, dead);
            && k < |kept| && kept[k] == (kept + todo)[k] == x && Survivors(visited, dead + {x}) == Without(kept, k)
            && Ring([head] + (kept + todo)) && Entries([head] + (kept + todo)) <= Entries([head] + es)
            && forall y :: y in dead ==> y !in Entries([head] + (kept + todo))
  {
    var kept := Survivors(visited, dead);
    DistinctParts(head, visited, todo);
    k := SurvivorAt(visited, dead, x);
    ListWithout(head, kept, todo, k, [head] + es);
    forall y | y in dead ensures y !in [head] + (kept + todo) {
      SurvivorsAre(visited, dead, y);
    }
    hide Survivors, Before, Distinct, Ring, Buried;
  }

  /** The list from which it has been deleted. */
  lemma {:induction false} AfterDeletion(head: Entry, x: Entry, inits: set<Entry>, es: seq<Entry>,
                                         visited: seq<Entry>, todo: seq<Entry>, dead: set<Entry>, k: nat)
    requires es == visited + todo && Distinct([head] + es) && x in visited
    requires var kept := Survivors(visited, dead);
             && k < |kept| && kept[k] == x && Survivors(visited, dead + {x}) == Without(kept, k)
             && (forall i :: 0 <= i < |[head] + kept + todo| ==> ([head] + kept + todo)[i] in [head] + es)
             && Ring([head] + Without(kept + todo, k))
             && if x in inits then Ring([x])
                else
                  && x.next == (if k + 1 < |kept + todo| then (kept + todo)[k + 1] else head)
                  && x.prev == (if k > 0 then (kept + todo)[k - 1] else head)
    requires forall y :: y in dead ==> y in visited && y in [head] + es && Buried(head, es, y, inits)
    ensures Traversal(head, es, visited, todo, dead + {x}, inits)
  {
    var kept := Survivors(visited, dead);
    NeighboursInOrder(visited, todo, dead, k);
    ListWithout(head, kept, todo, k, [head] + es);
    hide Survivors, Before, Distinct, Ring;
    assert Buried(head, es, x, inits);
    assert x in [head] + es;
  }

  /** The body of the loop deletes an entry that was visited and is still in the list. */
  method DeleteVisited(head: Entry, x: Entry, inits: set<Entry>, ghost es: seq<Entry>, ghost visited: seq<Entry>,
                       ghost todo: seq<Entry>, ghost dead: set<Entry>)
    requires Traversal(head, es, visited, todo, dead, inits) && x in visited && x !in dead
    modifies Entries([head] + es)
    ensures Traversal(head, es, visited, todo, dead + {x}, inits)
  {
    hide Survivors, Before, Distinct, Ring, Buried, Entries, Without;
    ghost var k := BeforeDeletion(head, x, inits, es, visited, todo, dead);
    DeleteEntry(head, x, x in inits, Survivors(visited, dead) + todo, k);
    AfterDeletion(head, x, inits, es, visited, todo, dead, k);
  }

  lemma {:induction false} DistinctParts(head: Entry, visited: seq<Entry>, todo: seq<Entry>)
    requires Distinct([head] + (visited + todo))
    ensures Distinct(visited)
    ensures forall x :: x in visited ==> x != head && x !in todo
  {
    var r := [head] + (visited + todo);
    forall i, j | 0 <= i < j < |visited| ensures visited[i] != visited[j] {
      assert r[i + 1] == visited[i] && r[j + 1] == visited[j];
    }
    forall i | 0 <= i < |visited| ensures visited[i] != head {
      assert r[0] == head && r[i + 1] == visited[i];
    }
    forall i, j | 0 <= i < |visited| && 0 <= j < |todo| ensures visited[i] != todo[j] {
      assert r[i + 1] == visited[i] && r[1 + |visited| + j] == todo[j];
    }
  }

  /** The entries that the first `n` turns of the loop delete. */
  function Deleted(plan: seq<seq<Entry>>, n: nat): set<Entry>
    requires n <= |plan|
  {
    if n == 0 then {} else Deleted(plan, n - 1) + Entries(plan[n - 1])
  }

  /** The entries `xs` have been visited and are not dead. */
  ghost predicate Deletable(xs: seq<Entry>, visited: seq<Entry>, dead: set<Entry>) {
    Distinct(xs) && forall x :: x in xs ==> x in visited && x !in dead
  }

  /** What a loop body may do: in turn `i` it deletes the entries `plan[i]`, in that order, all of
      them visited by then and not deleted before. */
  ghost predicate Permitted(es: seq<Entry>, plan: seq<seq<Entry>>) {
    |plan| == |es| && forall i :: 0 <= i < |es| ==> Deletable(plan[i], es[..i + 1], Deleted(plan, i))
  }

  /** The loop advances over an entry, which survives for the time being. */
  lemma {:induction false} Advance(head: Entry, es: seq<Entry>, visited: seq<Entry>, todo: seq<Entry>,
                                   dead: set<Entry>, inits: set<Entry>)
    requires Traversal(head, es, visited, todo, dead, inits) && todo != []
    ensures Traversal(head, es, visited + [todo[0]], todo[1..], dead, inits)
  {
    hide Survivors, Ring, Distinct, Before, Buried;
    var x := todo[0];
    DistinctParts(head, visited, todo);
    assert visited + todo == visited + [x] + todo[1..];
    SurvivorsSnoc(visited, dead, x);
    assert x !in dead;
    assert [head] + Survivors(visited, dead) + todo == [head] + (Survivors(visited, dead) + [x]) + todo[1..];
  }

  /** Where the cursor and the look-ahead of the loop stand. */
  lemma {:induction false} Cursor(head: Entry, es: seq<Entry>, visited: seq<Entry>, todo: seq<Entry>,
                                  dead: set<Entry>, inits: set<Entry>)
    requires Traversal(head, es, visited, todo, dead, inits)
    ensures todo != [] ==> todo[0] != head && todo[0].next == if |todo| > 1 then todo[1] else head
    ensures todo == [] ==> visited == es && Ring([head] + Survivors(es, dead))
    ensures todo == [] ==> forall x :: x in dead ==> Buried(head, es, x, inits)
  {
    hide Survivors, Before;
    var kept := Survivors(visited, dead);
    var r := [head] + kept + todo;
    if todo != [] {
      var i := |kept| + 1;
      assert r[i] == todo[0] && r[i].next == Succ(r, i) && r[0] == head;
      assert |todo| > 1 ==> r[i + 1] == todo[1];
    } else {
      assert r == [head] + kept && visited + todo == visited;
    }
  }

  /** The body of the loop in one turn. */
  method TurnBody(head: Entry, xs: seq<Entry>, inits: set<Entry>, ghost es: seq<Entry>, ghost visited: seq<Entry>,
                  ghost todo: seq<Entry>, ghost dead: set<Entry>)
    requires Traversal(head, es, visited, todo, dead, inits)
    requires Deletable(xs, visited, dead)
    modifies Entries([head] + es)
    ensures Traversal(head, es, visited, todo, dead + Entries(xs), inits)
  {
    hide Traversal;
    var i := 0;
    assert dead + Entries(xs[..0]) == dead;
    while i < |xs|
      invariant 0 <= i <= |xs| && Traversal(head, es, visited, todo, dead + Entries(xs[..i]), inits)
    {
      assert xs[i] !in xs[..i];
      assert Entries(xs[..i + 1]) == Entries(xs[..i]) + {xs[i]};
      assert dead + Entries(xs[..i + 1]) == dead + Entries(xs[..i]) + {xs[i]};
      DeleteVisited(head, xs[i], inits, es, visited, todo, dead + Entries(xs[..i]));
      i := i + 1;
    }
    assert xs[..i] == xs;
  }

  /** After `i` turns of the loop. */
  ghost predicate Progress(head: Entry, es: seq<Entry>, plan: seq<seq<Entry>>, inits: set<Entry>,
                           i: nat, visited: seq<Entry>, todo: seq<Entry>)
    reads [head] + es
  {
    && i <= |es| == |plan| && visited == es[..i] && todo == es[i..]
    && Traversal(head, es, visited, todo, Deleted(plan, i), inits)
  }

  lemma {:induction false} ProgressStart(head: Entry, es: seq<Entry>, plan: seq<seq<Entry>>, inits: set<Entry>)
    requires Ring([head] + es) && Permitted(es, plan)
    ensures Progress(head, es, plan, inits, 0, [], es)
  {
    hide Ring, Traversal;
    TraversalStart(head, es, inits);
    assert Deleted(plan, 0) == {} && es[..0] == [] && es[0..] == es;
  }

  /** Turn `i` advances over an entry; what its body deletes may be deleted. */
  lemma {:induction false} TurnStart(head: Entry, es: seq<Entry>, plan: seq<seq<Entry>>, inits: set<Entry>,
                                     i: nat, visited: seq<Entry>, todo: seq<Entry>)
    requires Permitted(es, plan) && Progress(head, es, plan, inits, i, visited, todo) && todo != []
    ensures i < |es| == |plan| && Deletable(plan[i], visited + [todo[0]], Deleted(plan, i))
    ensures Traversal(head, es, visited + [todo[0]], todo[1..], Deleted(plan, i), inits)
    ensures visited + [todo[0]] == es[..i + 1] && todo[1..] == es[i + 1..]
  {
    hide Deletable, Traversal, Deleted;
    Advance(head, es, visited, todo, Deleted(plan, i), inits);
    assert visited + [todo[0]] == es[..i + 1];
  }

  lemma {:induction false} TurnEnd(head: Entry, es: seq<Entry>, plan: seq<seq<Entry>>, inits: set<Entry>,
                                   i: nat, visited: seq<Entry>, todo: seq<Entry>)
    requires i < |es| == |plan| && visited == es[..i + 1] && todo == es[i + 1..]
    requires Traversal(head, es, visited, todo, Deleted(plan, i) + Entries(plan[i]), inits)
    ensures Progress(head, es, plan, inits, i + 1, visited, todo)
  {
    hide Traversal, Entries;
    assert Deleted(plan, i + 1) == Deleted(plan, i) + Entries(plan[i]);
  }

  /** Where the cursor stands in the loop, and what holds at its end. */
  lemma {:induction false} CursorAt(head: Entry, es: seq<Entry>, plan: seq<seq<Entry>>, inits: set<Entry>,
                                    i: nat, visited: seq<Entry>, todo: seq<Entry>)
    requires Progress(head, es, plan, inits, i, visited, todo)
    ensures todo != [] ==> todo[0] != head && todo[0].next == if |todo| > 1 then todo[1] else head
    ensures todo == [] ==> |plan| == i && visited == es && Ring([head] + Survivors(es, Deleted(plan, i)))
    ensures todo == [] ==> forall x :: x in Deleted(plan, i) ==> Buried(head, es, x, inits)
  {
    hide Traversal, Ring, Buried, Survivors;
    Cursor(head, es, visited, todo, Deleted(plan, i), inits);
  }

  /** The loop `list_for_each_safe` with a body that deletes, in each turn, any of the entries
      visited so far: every entry is visited once and in order, and the survivors stay in order. */
  method ForEachSafe(head: Entry, plan: seq<seq<Entry>>, inits: set<Entry>, ghost es: seq<Entry>)
    returns (visited: seq<Entry>)
    requires Ring([head] + es) && Permitted(es, plan)
    modifies Entries([head] + es)
    ensures visited == es
    ensures Ring([head] + Survivors(es, Deleted(plan, |plan|)))
    ensures forall x :: x in Deleted(plan, |plan|) ==> Buried(head, es, x, inits)
  {
    hide *;
    visited := [];
    ghost var todo := es;
    FirstOfRing(head, es);
    ProgressStart(head, es, plan, inits);
    var pos := head.next;
    var n := pos.next;
    var i := 0;
    while pos != head
      invariant 0 <= i && Progress(head, es, plan, inits, i, visited, todo)
      invariant pos == if todo != [] then todo[0] else head
      invariant n == pos.next
      decreases |todo|
    {
      CursorAt(head, es, plan, inits, i, visited, todo);
      TurnStart(head, es, plan, inits, i, visited, todo);
      visited, todo := visited + [pos], todo[1..];
      TurnBody(head, plan[i], inits, es, visited, todo, Deleted(plan, i));
      TurnEnd(head, es, plan, inits, i, visited, todo);
      i := i + 1;
      pos := n;
      n := pos.next;
    }
    CursorAt(head, es, plan, inits, i, visited, todo);
  }
}
