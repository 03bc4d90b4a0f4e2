/**
  The circular doubly linked list of the event handler (`CircularLinkedList`).

  The heap ring refines a sequence: `Contents()` lists the items from the head
  once around, and every operation is specified by what it does to that
  sequence.
 */
module CircularList {
  import opened Sequences

  /** `s` without its first occurrence of `x`. */
  function RemoveFirst<T(==)>(s: seq<T>, x: T): seq<T>
  {
    if s == [] then [] else if s[0] == x then s[1..] else [s[0]] + RemoveFirst(s[1..], x)
  }

  lemma {:induction false} RemoveFirstAbsent<T>(s: seq<T>, x: T)
    requires x !in s
    ensures RemoveFirst(s, x) == s
  {
    if s != [] {
      RemoveFirstAbsent(s[1..], x);
      assert s == [s[0]] + s[1..];
    }
  }

  lemma {:induction false} RemoveFirstAt<T>(s: seq<T>, x: T, i: nat)
    requires i < |s| && s[i] == x && x !in s[..i]
    ensures RemoveFirst(s, x) == s[..i] + s[i + 1..]
    decreases |s|
  {
    if i > 0 {
      assert s[0] in s[..i];
      assert s[1..][..i - 1] == s[..i][1..];
      RemoveFirstAt(s[1..], x, i - 1);
      assert s[..i] == [s[0]] + s[1..][..i - 1];
    } else {
      assert s[..0] + s[1..] == s[1..];
    }
  }

  function RotateLeft<T>(s: seq<T>): seq<T> {
    if s == [] then [] else s[1..] + [s[0]]
  }

  class Entry<T> {
    const item: T
    var next: Entry?<T>
    var prev: Entry?<T>

    constructor (item: T)
      ensures this.item == item && next == null && prev == null
    {
      this.item := item;
      next, prev := null, null;
    }
  }

  class CircularLinkedList<T(==)> {
    var head: Entry?<T>
    /** The entries from the head once around. */
    ghost var ring: seq<Entry<T>>

    /** The index after `i`, and the one before it, on a ring of `n` entries. */
    static function After(i: nat, n: nat): nat {
      if i + 1 == n then 0 else i + 1
    }

    static function Before(i: nat, n: nat): int {
      if i == 0 then n - 1 else i - 1
    }

    static ghost function Items(entries: seq<Entry<T>>): (s: seq<T>)
      ensures |s| == |entries|
    {
      seq(|entries|, i requires 0 <= i < |entries| => entries[i].item)
    }

    /** `next` and `prev` are each other's inverse, once around the ring. */
    static ghost predicate Linked(r: seq<Entry<T>>)
      reads r
    {
      && (forall i {:trigger r[i].next} | 0 <= i < |r| :: r[i].next == r[After(i, |r|)])
      && (forall i {:trigger r[i].prev} | 0 <= i < |r| :: r[i].prev == r[Before(i, |r|)])
    }

    ghost predicate Valid()
      reads this, ring
    {
      && (head == null <==> ring == [])
      && (ring != [] ==> head == ring[0])
      && NoDuplicates(ring) && Linked(ring)
    }

    ghost function Contents(): (s: seq<T>)
      reads this
    {
      Items(ring)
    }

    constructor ()
      ensures Valid() && ring == [] && Contents() == []
    {
      head := null;
      ring := [];
    }

    /** Appends an item; tells whether the list was empty. */
    method Add(t: T) returns (wasEmpty: bool)
      requires Valid()
      modifies this, ring
      ensures Valid() && Contents() == old(Contents()) + [t]
      ensures wasEmpty == (old(Contents()) == [])
      ensures forall i | 0 <= i < |ring| :: ring[i] in old(ring) || fresh(ring[i])
    {
      var e := new Entry<T>(t);
      ghost var before := ring;
      if head == null {
        e.next := e;
        e.prev := e;
        head := e;
        ring := [e];
        wasEmpty := true;
      } else {
        InsertLast(e);
        wasEmpty := false;
      }
      assert Items(before + [e]) == Items(before) + [t];
    }

    /** Links `e` in as the last entry of a non-empty ring. */
    method InsertLast(e: Entry<T>)
      requires Valid() && head != null && e !in ring
      modifies this, ring, e
      ensures Valid() && ring == old(ring) + [e]
    {
      ghost var before, n := ring, |ring|;
      assert ring[0].prev == ring[n - 1];
      e.prev := head.prev;
      e.next := head;
      e.prev.next := e;
      head.prev := e;
      ring := ring + [e];
      forall j | 0 <= j <= n ensures ring[j].next == ring[After(j, n + 1)] {
        assert j < n ==> old(before[j].next) == before[After(j, n)];
      }
      forall j | 0 <= j <= n ensures ring[j].prev == ring[Before(j, n + 1)] {
        assert j < n ==> old(before[j].prev) == before[Before(j, n)];
      }
    }

    /** Drops the first entry; its item is handed to the clearing function. */
    method RemoveHead() returns (t: T)
      requires Valid() && Contents() != []
      modifies this, ring
      ensures Valid() && ring == old(ring[1..])
      ensures old(Contents()) == [t] + Contents()
    {
      var e := head;
      t := e.item;
      assert ring[0].next == ring[After(0, |ring|)] && ring[0].prev == ring[|ring| - 1];
      if e.next == e {
        head := null;
      } else {
        e.prev.next := e.next;
        e.next.prev := e.prev;
        head := e.next;
      }
      ring := ring[1..];
      forall j | 0 <= j < |ring| ensures ring[j].next == ring[After(j, |ring|)] {
        assert old(ring)[j + 1] == ring[j] && old(ring[j + 1].next) == old(ring)[After(j + 1, |old(ring)|)];
      }
      forall j | 0 <= j < |ring| ensures ring[j].prev == ring[Before(j, |ring|)] {
        assert old(ring)[j + 1] == ring[j] && old(ring[j + 1].prev) == old(ring)[Before(j + 1, |old(ring)|)];
      }
      assert old(Contents()) == [t] + Items(ring);
    }

    /** Deletes the first occurrence of `item`, if there is one. */
    method Remove(item: T)
      requires Valid()
      modifies this, ring
      ensures Valid() && Contents() == RemoveFirst(old(Contents()), item)
      ensures forall i | 0 <= i < |ring| :: ring[i] in old(ring)
    {
      if head == null {
        return;
      } else if head == head.next {
        assert ring[0].next == ring[After(0, |ring|)];
        assert Contents() == [head.item];
        if head.item == item {
          head := null;
          ring := [];
          return;
        }
      } else {
        var current: Entry<T> := head;
        ghost var i := 0;
        while true
          invariant Valid() && unchanged(this) && unchanged(ring)
          invariant 0 <= i < |ring| && current == ring[i]
          invariant item !in Contents()[..i]
          decreases |ring| - i
        {
          assert ring[i].next == ring[After(i, |ring|)];
          if current.item == item {
            RemoveFirstAt(Contents(), item, i);
            assert ring[0].next == ring[After(0, |ring|)];
            Unlink(current, i);
            return;
          }
          assert Contents()[..i + 1] == Contents()[..i] + [current.item];
          current := current.next;
          i := i + 1;
          if current == head {
            break;
          }
        }
        assert Contents()[..i] == Contents();
        RemoveFirstAbsent(Contents(), item);
      }
    }

    /** Unlinks the entry at position `i` of a ring of at least two. */
    method Unlink(current: Entry<T>, ghost i: nat)
      requires Valid() && |ring| >= 2 && i < |ring| && current == ring[i]
      modifies this, ring
      ensures Valid() && ring == old(ring[..i] + ring[i + 1..])
      ensures Contents() == old(Contents()[..i] + Contents()[i + 1..])
    {
      ItemsCut(ring, i);
      UnlinkEntry(current, i);
    }

    static lemma ItemsCut(r: seq<Entry<T>>, i: nat)
      requires i < |r|
      ensures Items(r[..i] + r[i + 1..]) == Items(r)[..i] + Items(r)[i + 1..]
    {
    }

    /** Where a neighbour of position `j` of the cut ring was before the cut. */
    static lemma CutNeighbours(r: seq<Entry<T>>, i: nat, j: nat)
      requires i < |r| && j + 1 < |r| && NoDuplicates(r)
      ensures var n, k, cut := |r|, Kept(i, j), r[..i] + r[i + 1..];
              && NoDuplicates(cut)
              && cut[j] == r[k]
              && cut[After(j, n - 1)] == (if k == Before(i, n) then r[After(i, n)] else r[After(k, n)])
              && cut[Before(j, n - 1)] == (if k == After(i, n) then r[Before(i, n)] else r[Before(k, n)])
    {
    }

    /** The old position of entry `j` once the entry at `i` is gone. */
    static function Kept(i: nat, j: nat): nat {
      if j < i then j else j + 1
    }

    /** The two neighbours of entry `i` point past it. */
    static ghost predicate Bypassed(r: seq<Entry<T>>, i: nat)
      requires i < |r|
      reads r
    {
      && (forall k {:trigger r[k].next} | 0 <= k < |r| :: r[k].next == r[After(if k == Before(i, |r|) then i else k, |r|)])
      && (forall k {:trigger r[k].prev} | 0 <= k < |r| :: r[k].prev == r[Before(if k == After(i, |r|) then i else k, |r|)])
    }

    method Bypass(current: Entry<T>, ghost i: nat)
      requires Valid() && |ring| >= 2 && i < |ring| && current == ring[i]
      modifies ring
      ensures Bypassed(ring, i)
    {
      assert ring[i].next == ring[After(i, |ring|)] && ring[i].prev == ring[Before(i, |ring|)];
      var next := current.next;
      var prev := current.prev;
      prev.next := next;
      next.prev := prev;
    }

    static lemma CutLinked(r: seq<Entry<T>>, i: nat)
      requires |r| >= 2 && i < |r| && NoDuplicates(r) && Bypassed(r, i)
      ensures NoDuplicates(r[..i] + r[i + 1..]) && Linked(r[..i] + r[i + 1..])
    {
      hide NoDuplicates;
      var cut := r[..i] + r[i + 1..];
      CutNeighbours(r, i, 0);
      forall j {:trigger cut[j].next} {:trigger cut[j].prev} | 0 <= j < |cut|
        ensures cut[j].next == cut[After(j, |cut|)]
        ensures cut[j].prev == cut[Before(j, |cut|)]
      {
        CutNeighbours(r, i, j);
        assert cut[j].next == r[Kept(i, j)].next && cut[j].prev == r[Kept(i, j)].prev;
      }
    }

    method UnlinkEntry(current: Entry<T>, ghost i: nat)
      requires Valid() && |ring| >= 2 && i < |ring| && current == ring[i]
      requires current == head <==> i == 0
      modifies this, ring
      ensures Valid() && ring == old(ring[..i] + ring[i + 1..])
    {
      hide NoDuplicates, Linked;
      Bypass(current, i);
      CutLinked(ring, i);
      ghost var cut := ring[..i] + ring[i + 1..];
      if current == head {
        assert ring[0].next == ring[1];
        head := head.next;
      }
      ring := cut;
    }

    /** Empties the list; returns the items handed to the clearing function, in order. */
    method RemoveAll() returns (cleared: seq<T>)
      requires Valid()
      modifies this, ring
      ensures Valid() && Contents() == [] && cleared == old(Contents())
    {
      hide Linked, NoDuplicates, Items;
      cleared := [];
      ghost var k := 0;
      while head != null
        invariant Valid() && cleared + Contents() == old(Contents())
        invariant 0 <= k <= |old(ring)| && ring == old(ring)[k..]
        decreases |ring|
      {
        var t := RemoveHead();
        cleared := cleared + [t];
        k := k + 1;
      }
    }

    /** Moves the first item to the end. */
    method Rotate()
      requires Valid()
      modifies this
      ensures Valid() && Contents() == RotateLeft(old(Contents()))
      ensures forall i | 0 <= i < |ring| :: ring[i] in old(ring)
    {
      if head != null {
        assert ring[0].next == ring[After(0, |ring|)];
        Rotated(ring);
        hide Linked, NoDuplicates;
        head := head.next;
        ring := RotateLeft(ring);
        assert Contents() == RotateLeft(old(Contents()));
      }
    }

    static lemma Rotated(r: seq<Entry<T>>)
      requires r != [] && NoDuplicates(r) && Linked(r)
      ensures NoDuplicates(RotateLeft(r)) && Linked(RotateLeft(r))
    {
      var s, n := RotateLeft(r), |r|;
      forall i | 0 <= i < n ensures s[i].next == s[After(i, n)] && s[i].prev == s[Before(i, n)] {
        assert s[i] == r[After(i, n)];
        assert s[After(i, n)] == r[After(After(i, n), n)] && s[Before(i, n)] == r[Before(After(i, n), n)];
      }
    }
  }
}
