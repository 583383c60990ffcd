/** The intrusive circular list.  A ring is a nonempty sequence of distinct entries, each
    pointing to its neighbours around the ring; a list is a ring seen from its head. */
module LiteList {
  import opened Common

  class Entry {
    var next: Entry
    var prev: Entry

    /** `INIT_LIST_HEAD`. */
    constructor ()
      ensures next == this && prev == this
    {
      next, prev := this, this;
    }
  }

  ghost function Succ(r: seq<Entry>, i: int): Entry
    requires 0 <= i < |r|
  {
    if i + 1 < |r| then r[i + 1] else r[0]
  }

  ghost function Pred(r: seq<Entry>, i: int): Entry
    requires 0 <= i < |r|
  {
    if i > 0 then r[i - 1] else r[|r| - 1]
  }

  ghost predicate Ring(r: seq<Entry>)
    reads r
  {
    && r != [] && Distinct(r)
    && (forall i {:trigger r[i].next} :: 0 <= i < |r| ==> r[i].next == Succ(r, i))
    && (forall i {:trigger r[i].prev} :: 0 <= i < |r| ==> r[i].prev == Pred(r, i))
  }

  /** Two rings, or an entry and a ring, without a common entry. */
  ghost predicate Apart(r: seq<Entry>, s: seq<Entry>) {
    forall x :: x in r ==> x !in s
  }

  /** The first entry of a ring, its neighbours, and its other entries. */
  lemma {:induction false} FirstOfRing(x: Entry, rest: seq<Entry>)
    requires Ring([x] + rest)
    ensures x !in rest
    ensures x.next == (if rest == [] then x else rest[0])
    ensures x.prev == (if rest == [] then x else rest[|rest| - 1])
    ensures x in [x] + rest && x.next in [x] + rest && x.prev in [x] + rest
  {
    var r := [x] + rest;
    assert x == r[0];
    assert r[0].next == Succ(r, 0) && r[0].prev == Pred(r, 0);
    forall i | 0 <= i < |rest| ensures rest[i] != x {
      assert r[i + 1] != r[0];
    }
  }

  /** A ring has no distinguished first entry. */
  lemma {:induction false} RotateRing(a: seq<Entry>, b: seq<Entry>)
    requires Ring(a + b)
    ensures Ring(b + a)
  {
    if a == [] || b == [] {
      assert a + b == b + a;
    } else {
      var r, s := a + b, b + a;
      forall i | 0 <= i < |s| ensures s[i].next == Succ(s, i) && s[i].prev == Pred(s, i) {
        var j := if i < |b| then i + |a| else i - |b|;
        assert s[i] == r[j];
        assert r[j].next == Succ(r, j) && r[j].prev == Pred(r, j);
      }
      forall i, j | 0 <= i < j < |s| ensures s[i] != s[j] {
        assert s[i] == r[if i < |b| then i + |a| else i - |b|];
        assert s[j] == r[if j < |b| then j + |a| else j - |b|];
      }
    }
  }

  /** `__list_add`: between the last and the first entry of a ring it extends the ring. */
  method AddBetween(newPtr: Entry, prev: Entry, next: Entry, ghost r: seq<Entry>)
    modifies newPtr, prev, next
    ensures old(Ring(r)) && newPtr !in r && prev == r[|r| - 1] && next == r[0] ==> Ring(r + [newPtr])
    ensures prev.next == newPtr && newPtr.prev == prev
    ensures prev != newPtr ==> newPtr.next == next
    ensures next != newPtr ==> next.prev == newPtr
  {
    next.prev := newPtr;
    newPtr.next := next;
    newPtr.prev := prev;
    prev.next := newPtr;
    if old(Ring(r)) && newPtr !in r && prev == r[|r| - 1] && next == r[0] {
      ghost var s := r + [newPtr];
      forall i | 0 <= i < |s| ensures s[i].next == Succ(s, i) && s[i].prev == Pred(s, i) {
        if i < |r| {
          assert old(r[i].next) == Succ(r, i) && old(r[i].prev) == Pred(r, i);
        }
      }
    }
  }

  /** `list_add`.  An entry added behind itself is left self-looped. */
  method ListAdd(newPtr: Entry, head: Entry, ghost es: seq<Entry>)
    requires newPtr == head || (Ring([head] + es) && newPtr !in [head] + es)
    modifies newPtr, head, head.next
    ensures newPtr != head ==> Ring([head, newPtr] + es)
    ensures newPtr == head ==> Ring([head]) && old(head.next).prev == head
  {
    if newPtr != head {
      assert ([head] + es)[0].next == Succ([head] + es, 0);
      RotateRing([head], es);
    }
    AddBetween(newPtr, head, head.next, es + [head]);
    if newPtr != head {
      assert es + [head] + [newPtr] == es + [head, newPtr];
      RotateRing(es, [head, newPtr]);
    }
  }

  /** `list_add_tail`.  An entry added before itself is left pointing to itself in one direction only. */
  method ListAddTail(newPtr: Entry, head: Entry, ghost es: seq<Entry>)
    requires newPtr == head || (Ring([head] + es) && newPtr !in [head] + es)
    modifies newPtr, head, head.prev
    ensures newPtr != head ==> Ring([head] + es + [newPtr])
    ensures newPtr == head ==> head.next == head && head.prev == old(head.prev) && old(head.prev).next == head
  {
    if newPtr != head {
      assert ([head] + es)[0].prev == Pred([head] + es, 0);
    }
    AddBetween(newPtr, head.prev, head, [head] + es);
  }

  /** `list_del`, `__list_del_entry`: the entry leaves the ring but keeps its own pointers. */
  method ListDel(entry: Entry, ghost rest: seq<Entry>)
    requires Ring([entry] + rest)
    modifies entry.prev, entry.next
    ensures rest != [] ==> Ring(rest)
    ensures rest == [] ==> Ring([entry])
    ensures entry.next == old(entry.next) && entry.prev == old(entry.prev)
  {
    ghost var r := [entry] + rest;
    assert r[0] == entry;
    var prev, next := entry.prev, entry.next;
    next.prev := prev;
    prev.next := next;
    if rest != [] {
      forall i | 0 <= i < |rest| ensures rest[i].next == Succ(rest, i) && rest[i].prev == Pred(rest, i) {
        assert r[i + 1] == rest[i];
        assert old(r[i + 1].next) == Succ(r, i + 1) && old(r[i + 1].prev) == Pred(r, i + 1);
      }
      forall i, j | 0 <= i < j < |rest| ensures rest[i] != rest[j] {
        assert r[i + 1] != r[j + 1];
      }
    } else {
      assert r == [entry];
    }
  }

  /** `list_del_init`. */
  method ListDelInit(entry: Entry, ghost rest: seq<Entry>)
    requires Ring([entry] + rest)
    modifies entry, entry.prev, entry.next
    ensures Ring([entry]) && (rest != [] ==> Ring(rest))
  {
    FirstOfRing(entry, rest);
    ListDel(entry, rest);
    entry.next, entry.prev := entry, entry;
  }

  /** `list_replace`.  A self-looped `old` leaves `newPtr` self-looped, through writes that
      go to `old` and to `newPtr` itself. */
  method ListReplace(oldPtr: Entry, newPtr: Entry, ghost rest: seq<Entry>)
    requires Ring([oldPtr] + rest) && newPtr !in [oldPtr] + rest
    modifies newPtr, oldPtr.next, oldPtr.prev
    ensures Ring([newPtr] + rest)
    ensures oldPtr.next == old(oldPtr.next)
    ensures oldPtr.prev == if rest == [] then newPtr else old(oldPtr.prev)
  {
    ghost var r, s := [oldPtr] + rest, [newPtr] + rest;
    assert r[0] == oldPtr;
    newPtr.next := oldPtr.next;
    newPtr.next.prev := newPtr;
    newPtr.prev := oldPtr.prev;
    newPtr.prev.next := newPtr;
    forall i | 0 <= i < |s| ensures s[i].next == Succ(s, i) && s[i].prev == Pred(s, i) {
      assert old(r[i].next) == Succ(r, i) && old(r[i].prev) == Pred(r, i);
    }
    forall i, j | 0 <= i < j < |s| ensures s[i] != s[j] {
      assert r[i] != r[j] && s[j] == r[j];
    }
  }

  /** `list_replace_init`. */
  method ListReplaceInit(oldPtr: Entry, newPtr: Entry, ghost rest: seq<Entry>)
    requires Ring([oldPtr] + rest) && newPtr !in [oldPtr] + rest
    modifies newPtr, oldPtr, oldPtr.next, oldPtr.prev
    ensures Ring([newPtr] + rest) && Ring([oldPtr])
  {
    FirstOfRing(oldPtr, rest);
    ListReplace(oldPtr, newPtr, rest);
    oldPtr.next, oldPtr.prev := oldPtr, oldPtr;
  }

  function Entries(s: seq<Entry>): set<Entry> {
    set x | x in s
  }

  lemma {:induction false} EntriesConcat(a: seq<Entry>, b: seq<Entry>)
    ensures Entries(a + b) == Entries(a) + Entries(b)
  {
  }

  /** The entries behind `head` in the ring `r` that contains it, in ring order. */
  ghost predicate EntriesBehind(r: seq<Entry>, head: Entry, es: seq<Entry>) {
    exists j :: 0 <= j < |r| && r[j] == head && es == r[j + 1..] + r[..j]
  }

  /** Where `list_move` and `list_move_tail` take the entry from and to: within one ring, or
      between two rings. */
  ghost predicate MovePossible(entry: Entry, rest: seq<Entry>, head: Entry, es: seq<Entry>)
    reads [entry] + rest, [head] + es
  {
    && entry != head && Ring([entry] + rest)
    && (if head in rest then EntriesBehind(rest, head, es)
        else Ring([head] + es) && Apart([entry] + rest, [head] + es))
  }

  /** A ring seen from one of its entries. */
  lemma {:induction false} SeenFrom(rest: seq<Entry>, head: Entry, es: seq<Entry>)
    requires EntriesBehind(rest, head, es)
    ensures Ring(rest) ==> Ring([head] + es)
    ensures multiset(rest) == multiset([head] + es)
    ensures forall x :: x in [head] + es <==> x in rest
  {
    var j :| 0 <= j < |rest| && rest[j] == head && es == rest[j + 1..] + rest[..j];
    var a, b := rest[..j], rest[j..];
    assert rest == a + b && [head] + es == b + a;
    if Ring(rest) {
      RotateRing(a, b);
    }
    hide Ring;
    SameElements(a, b);
  }

  lemma {:induction false} SameElements(a: seq<Entry>, b: seq<Entry>)
    ensures multiset(a + b) == multiset(b + a)
    ensures forall x :: x in b + a <==> x in a + b
  {
    forall x ensures x in b + a <==> x in a + b {
      assert x in a + b <==> x in a || x in b;
      assert x in b + a <==> x in a || x in b;
    }
  }

  /** What `list_move` and `list_move_tail` accept: a possible move, or an entry given as its own
      head. */
  ghost predicate MoveAccepted(entry: Entry, rest: seq<Entry>, head: Entry, es: seq<Entry>)
    reads [entry] + rest, [head] + es
  {
    if entry == head then Ring([entry] + rest) && es == rest else MovePossible(entry, rest, head, es)
  }

  /** After the deletion both rings stand, the destination seen from its head; an entry that is its
      own head keeps its pointers. */
  method DelForMove(entry: Entry, ghost rest: seq<Entry>, ghost head: Entry, ghost es: seq<Entry>)
    requires MoveAccepted(entry, rest, head, es)
    modifies [entry] + rest
    ensures entry != head ==> Ring([head] + es) && entry !in [head] + es
    ensures rest != [] ==> Ring(rest)
    ensures entry != head && head !in rest ==> Apart(rest, [head] + es)
    ensures entry == head ==> entry.next == old(entry.next) && entry.prev == old(entry.prev)
  {
    FirstOfRing(entry, rest);
    if entry != head {
      if head in rest {
        SeenFrom(rest, head, es);
      } else {
        ApartParts(entry, rest, [head] + es);
      }
    }
    ListDel(entry, rest);
    if entry != head && head in rest {
      SeenFrom(rest, head, es);
    }
  }

  lemma {:induction false} ApartParts(entry: Entry, rest: seq<Entry>, d: seq<Entry>)
    requires Apart([entry] + rest, d)
    ensures entry !in d && Apart(rest, d)
  {
    assert entry in [entry] + rest;
    forall x | x in rest ensures x !in d {
      assert x in [entry] + rest;
    }
  }

  /** `list_move`.  An entry moved behind itself is left self-looped, and lost to the others: they stay
      a ring exactly if there are none. */
  method ListMove(list: Entry, head: Entry, ghost rest: seq<Entry>, ghost es: seq<Entry>)
    requires MoveAccepted(list, rest, head, es)
    modifies Entries([list] + rest) + Entries([head] + es)
    ensures list != head ==> Ring([head, list] + es)
    ensures list != head && head !in rest && rest != [] ==> Ring(rest)
    ensures list == head ==> Ring([list]) && (rest != [] ==> !Ring(rest))
  {
    FirstOfRing(list, rest);
    DelForMove(list, rest, head, es);
    if list != head {
      FirstOfRing(head, es);
      assert head.next in [head] + es;
    } else {
      assert rest != [] ==> head.next == rest[0] && rest[0] in rest;
    }
    ListAdd(list, head, es);
    if list == head && rest != [] {
      NotARing(rest, 0, list);
    }
  }

  /** `list_move_tail`.  An entry moved before itself stays a ring of its own, and the others a ring,
      exactly if there are no others. */
  method ListMoveTail(list: Entry, head: Entry, ghost rest: seq<Entry>, ghost es: seq<Entry>)
    requires MoveAccepted(list, rest, head, es)
    modifies Entries([list] + rest) + Entries([head] + es)
    ensures list != head ==> Ring([head] + es + [list])
    ensures list != head && head !in rest && rest != [] ==> Ring(rest)
    ensures list == head ==> (Ring([list]) <==> rest == []) && (rest != [] ==> !Ring(rest))
  {
    FirstOfRing(list, rest);
    DelForMove(list, rest, head, es);
    if list != head {
      FirstOfRing(head, es);
      assert head.prev in [head] + es;
    } else {
      assert rest != [] ==> head.prev == rest[|rest| - 1] && rest[|rest| - 1] in rest;
    }
    ListAddTail(list, head, es);
    if list == head {
      if rest != [] {
        NotARing(rest, |rest| - 1, list);
      }
      NotARing([list], 0, head.prev);
    }
  }

  /** An entry that points out of a sequence is not part of a ring of it. */
  lemma {:induction false} NotARing(r: seq<Entry>, i: nat, x: Entry)
    requires i < |r|
    ensures x !in r && (r[i].next == x || r[i].prev == x) ==> !Ring(r)
  {
    assert Succ(r, i) in r && Pred(r, i) in r;
  }
}
