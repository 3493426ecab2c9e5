/**
 * The circular lists of requests in `evdns.c`: a head and two links in every request. They change by `Enqueued`,
 * `Without` and `InFront`, and so do the queues of `Resolvers`, which are kept as sequences.
 */
module RequestRings {
  import opened Distinctness

  class Item {
    var next: Item?
    var prev: Item?
  }

  function Succ(i: nat, n: nat): nat {
    if i + 1 == n then 0 else i + 1
  }

  function Pred(i: nat, n: nat): nat
    requires n > 0
  {
    if i == 0 then n - 1 else i - 1
  }

  /** Every item leads on to the one after it and back to the one before, and the last to the first. */
  ghost predicate Circle(s: seq<Item>)
    reads s
  {
    && (forall i {:trigger s[i].next} :: 0 <= i < |s| ==> s[i].next == s[Succ(i, |s|)])
    && (forall i {:trigger s[i].prev} :: 0 <= i < |s| ==> s[i].prev == s[Pred(i, |s|)])
  }

  /** The last item becomes the first. */
  function Backward(s: seq<Item>): seq<Item>
    requires s != []
  {
    [s[|s| - 1]] + s[..|s| - 1]
  }

  class Queue {
    var head: Item?
    ghost var items: seq<Item>

    ghost predicate Valid()
      reads this, items
    {
      NoDup(items) && Circle(items) && head == if items == [] then null else items[0]
    }

    constructor ()
      ensures Valid() && items == []
    {
      head, items := null, [];
    }

    /** `evdns_request_insert`: at the tail of the queue. */
    method Insert(r: Item)
      requires Valid() && r !in items
      modifies this, r, items
      ensures Valid() && items == Enqueued(old(items), r)
    {
      ghost var s := items;
      NoDupConcat(s, [r]);
      if s != [] { NoDupApart(s, |s| - 1); NoDupApart(s, 0); }
      items := items + [r];
      if head == null {
        head := r;
        r.next, r.prev := r, r;
        return;
      }
      r.prev := head.prev;
      r.prev.next := r;
      r.next := head;
      head.prev := r;
    }

    /** The neighbours of an item come together. */
    static method Unlink(r: Item, ghost s: seq<Item>, ghost k: nat)
      requires NoDup(s) && Circle(s) && |s| > 1 && k < |s| && r == s[k]
      modifies s
      ensures Circle(Without(s, k)) && r.next == null && r.prev == null
    {
      NoDupWithout(s, k);
      NoDupApart(s, k);
      NoDupApart(s, Succ(k, |s|));
      NoDupApart(s, Pred(k, |s|));
      r.next.prev := r.prev;
      r.prev.next := r.next;
      r.next, r.prev := null, null;
      ghost var t := Without(s, k);
      forall i | 0 <= i < |t| ensures t[i].next == t[Succ(i, |t|)] && t[i].prev == t[Pred(i, |t|)] {
        WithoutAt(s, k, i);
        WithoutAt(s, k, Succ(i, |t|));
        WithoutAt(s, k, Pred(i, |t|));
      }
    }

    /** `evdns_request_remove`. */
    method Remove(r: Item, ghost k: nat)
      requires Valid() && k < |items| && r == items[k]
      modifies this, items
      ensures Valid() && items == Without(old(items), k) && r.next == null && r.prev == null
    {
      NoDupWithout(items, k);
      NoDupApart(items, k);
      if r.next == r {
        assert |items| == 1;
        head := null;
        r.next, r.prev := null, null;
      } else {
        var next := r.next;
        Unlink(r, items, k);
        if head == r { head := next; }
      }
      items := Without(items, k);
    }

    /** `head = head->prev`: what was inserted last comes to the front. */
    method StepBack()
      requires Valid() && items != []
      modifies this
      ensures Valid() && items == Backward(old(items))
    {
      head := head.prev;
      NoDupBackward(items);
      CircleBackward(items);
      items := Backward(items);
    }

    /** A suspended request goes in front of all that wait. */
    method PutFront(r: Item)
      requires Valid() && r !in items
      modifies this, r, items
      ensures Valid() && items == InFront(r, old(items))
    {
      Insert(r);
      assert items[..|items| - 1] == old(items);
      StepBack();
    }

    static lemma CircleBackward(s: seq<Item>)
      requires Circle(s) && s != []
      ensures Circle(Backward(s))
    {
      var t := Backward(s);
      forall i | 0 <= i < |t| ensures t[i].next == t[Succ(i, |t|)] && t[i].prev == t[Pred(i, |t|)] {
        assert t[i] == s[Pred(i, |s|)];
      }
    }

    static lemma NoDupBackward(s: seq<Item>)
      requires NoDup(s) && s != []
      ensures NoDup(Backward(s))
    {
      NoDupWithout(s, |s| - 1);
      assert Without(s, |s| - 1) == s[..|s| - 1];
      NoDupCons(s[|s| - 1], s[..|s| - 1]);
    }
  }
}
