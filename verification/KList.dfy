/** The linked queue behind the request backlog: a sentinel node at the tail, and
    a pool from which removed nodes are reused. */
module KList {
  import opened Wrappers

  class Cell<T(0)> {
    var data: T
    var next: Cell?<T>

    constructor ()
      ensures next == null
    {
      next := null;
      new;
    }
  }

  class Queue<T(0)> {
    var head: Cell<T>
    var tail: Cell<T>
    var size: nat
    var pool: seq<Cell<T>>
    var count: nat

    ghost var Contents: seq<T>
    ghost var spine: seq<Cell<T>>

    ghost var Repr: set<object>

    ghost predicate Valid()
      reads this, Repr
    {
      Owned() && Linked() && Apart(spine, pool)
    }

    ghost predicate Owned()
      reads this
    {
      this in Repr && (forall c | c in spine :: c in Repr) && (forall c | c in pool :: c in Repr)
    }

    /** The spine from head to tail holds the contents; the tail is the sentinel. */
    ghost predicate Linked()
      requires Owned()
      reads this, Repr
    {
      && |spine| == |Contents| + 1 && size == |Contents| && count == |spine|
      && head == spine[0] && tail == spine[|spine| - 1] && tail.next == null
      && (forall i | 0 <= i < |Contents| :: spine[i].next == spine[i + 1] && spine[i].data == Contents[i])
    }

    constructor ()
      ensures Valid() && fresh(Repr) && Contents == []
    {
      var c := new Cell<T>();
      head, tail, size, pool, count := c, c, 0, [], 1;
      Contents, spine := [], [c];
      Repr := {this, c};
    }

    /** Takes a node from the pool, or makes a new one. */
    method Alloc() returns (p: Cell<T>)
      requires Distinct(pool)
      modifies this`pool, this`count
      ensures count == old(count) + 1
      ensures if old(pool) == [] then fresh(p) && pool == []
              else p == old(pool)[|old(pool)| - 1] && pool == old(pool)[..|old(pool)| - 1]
    {
      count := count + 1;
      if |pool| == 0 {
        p := new Cell<T>();
      } else {
        p := pool[|pool| - 1];
        pool := pool[..|pool| - 1];
      }
    }

    method Push(x: T)
      requires Valid()
      modifies Repr
      ensures Valid() && fresh(Repr - old(Repr))
      ensures Contents == old(Contents) + [x]
    {
      hide Distinct, Apart;
      ghost var was := pool;
      SpineApart(spine, pool);
      var p := Alloc();
      PushApart(spine, was, pool, p);
      Append(p, x);
    }

    /** The linking of `kl_pushp`, and the value written through its result. */
    method Append(p: Cell<T>, x: T)
      requires this in Repr && (forall c | c in spine :: c in Repr && c != p)
      requires (forall c | c in pool :: c in Repr)
      requires |spine| == |Contents| + 1 && size == |Contents| && count == |spine| + 1
      requires head == spine[0] && tail == spine[|spine| - 1]
      requires forall i | 0 <= i < |Contents| ::
                 spine[i].next == spine[i + 1] && spine[i].data == Contents[i] && spine[i] != tail
      modifies this, tail, p
      ensures Owned() && Linked()
      ensures spine == old(spine) + [p] && pool == old(pool)
      ensures Contents == old(Contents) + [x] && Repr == old(Repr) + {p}
    {
      var q := tail;
      p.next := null;
      tail.next := p;
      tail := p;
      size := size + 1;
      q.data := x;
      Contents := Contents + [x];
      spine := spine + [p];
      Repr := Repr + {p};
    }

    method Shift() returns (x: Option<T>)
      requires Valid()
      modifies Repr
      ensures Valid() && fresh(Repr - old(Repr))
      ensures if old(Contents) == [] then x == None && Contents == []
              else x == Some(old(Contents)[0]) && Contents == old(Contents)[1..]
    {
      hide Distinct;
      ShiftApart(spine, pool);
      assert |Contents| > 0 ==> spine[0].next == spine[1];
      if head.next == null {
        return None;
      }
      assert spine[0] in spine;
      size := size - 1;
      var p := head;
      head := head.next;
      x := Some(p.data);
      count := count - 1;
      pool := pool + [p];
      Contents := Contents[1..];
      spine := spine[1..];
    }
  }

  ghost predicate Distinct<T>(s: seq<T>) {
    forall i, j | 0 <= i < j < |s| :: s[i] != s[j]
  }

  /** No node is used twice, and none of the pool is in use. */
  ghost predicate Apart<T>(spine: seq<T>, pool: seq<T>) {
    Distinct(spine) && Distinct(pool) && forall c | c in spine :: c !in pool
  }

  lemma SpineApart<T>(spine: seq<T>, pool: seq<T>)
    requires Apart(spine, pool)
    ensures Distinct(pool) && forall i | 0 <= i < |spine| - 1 :: spine[i] != spine[|spine| - 1]
  {
  }

  /** The node added to the spine is the last of the pool, or a new one. */
  lemma PushApart<T>(spine: seq<T>, was: seq<T>, pool: seq<T>, p: T)
    requires Apart(spine, was)
    requires if was == [] then pool == [] && p !in spine else p == was[|was| - 1] && pool == was[..|was| - 1]
    ensures p !in spine && Apart(spine + [p], pool) && forall c | c in pool :: c in was
  {
    assert was != [] ==> p in was;
  }

  /** The first node of the spine goes to the pool. */
  lemma ShiftApart<T>(spine: seq<T>, pool: seq<T>)
    requires Apart(spine, pool) && spine != []
    ensures Apart(spine[1..], pool + [spine[0]]) && forall c | c in spine[1..] :: c in spine
  {
    forall c | c in spine[1..]
      ensures c != spine[0] && c in spine
    {
      var i :| 0 <= i < |spine| - 1 && spine[1..][i] == c;
      assert spine[i + 1] == c;
    }
    assert spine[0] in spine;
    var grown := pool + [spine[0]];
    forall i, j | 0 <= i < j < |grown|
      ensures grown[i] != grown[j]
    {
      assert grown[i] == pool[i] && pool[i] in pool;
    }
  }
}
