/**
 * The doubly linked list of the interceptor framework (fred_framework/klist.c),
 * against a sequence of its nodes.
 */
module KernelList {
  class Node<T> {
    const data: T
    var front: Node?<T>
    var back: Node?<T>

    constructor (d: T)
      ensures data == d && front == null && back == null
    {
      data := d;
      front, back := null, null;
    }
  }

  function At<T>(spine: seq<Node<T>>, i: int): Node?<T> {
    if 0 <= i < |spine| then spine[i] else null
  }

  ghost predicate Distinct<T>(spine: seq<Node<T>>) {
    forall i, j :: 0 <= i < j < |spine| ==> spine[i] != spine[j]
  }

  /** `front` leads forward through the spine. */
  ghost predicate Forward<T>(spine: seq<Node<T>>)
    reads spine`front
  {
    forall i {:trigger spine[i].front} :: 0 <= i < |spine| ==> spine[i].front == At(spine, i + 1)
  }

  /** `back` leads backward through the spine. */
  ghost predicate Backward<T>(spine: seq<Node<T>>)
    reads spine`back
  {
    forall i {:trigger spine[i].back} :: 0 <= i < |spine| ==> spine[i].back == At(spine, i - 1)
  }

  /** The spine with a node put in at `k`, and with the node at `k` taken out. */
  ghost function Insert<T>(spine: seq<Node<T>>, k: nat, n: Node<T>): seq<Node<T>>
    requires k <= |spine|
  {
    seq(|spine| + 1, i requires 0 <= i <= |spine| => if i < k then spine[i] else if i == k then n else spine[i - 1])
  }

  ghost function Delete<T>(spine: seq<Node<T>>, k: nat): seq<Node<T>>
    requires k < |spine|
  {
    seq(|spine| - 1, i requires 0 <= i < |spine| - 1 => if i < k then spine[i] else spine[i + 1])
  }

  ghost function DataOf<T>(spine: seq<Node<T>>): (r: seq<T>)
    ensures |r| == |spine| && forall i :: 0 <= i < |spine| ==> r[i] == spine[i].data
  {
    seq(|spine|, i requires 0 <= i < |spine| => spine[i].data)
  }

  lemma DataOfInsert<T>(spine: seq<Node<T>>, k: nat, n: Node<T>)
    requires k <= |spine|
    ensures DataOf(Insert(spine, k, n)) == DataOf(spine)[..k] + [n.data] + DataOf(spine)[k..]
  {
  }

  lemma DataOfDelete<T>(spine: seq<Node<T>>, k: nat)
    requires k < |spine|
    ensures DataOf(Delete(spine, k)) == DataOf(spine)[..k] + DataOf(spine)[k + 1..]
  {
  }

  lemma DistinctInsert<T>(spine: seq<Node<T>>, k: nat, n: Node<T>)
    requires Distinct(spine) && k <= |spine| && n !in spine
    ensures Distinct(Insert(spine, k, n))
  {
  }

  lemma DistinctDelete<T>(spine: seq<Node<T>>, k: nat)
    requires Distinct(spine) && k < |spine|
    ensures Distinct(Delete(spine, k))
  {
  }

  class KList<T> {
    var first: Node?<T>
    var last: Node?<T>
    ghost var spine: seq<Node<T>>

    ghost predicate Valid()
      reads this, spine
    {
      && Distinct(spine) && Forward(spine) && Backward(spine)
      && first == At(spine, 0) && last == At(spine, |spine| - 1)
    }

    /** The data of the nodes, in order. */
    ghost function Contents(): seq<T>
      reads this
    {
      DataOf(spine)
    }

    constructor ()
      ensures Valid() && spine == [] && Contents() == []
    {
      first, last, spine := null, null, [];
    }

    /** add_klist_node_to_klist */
    method Add(n: Node<T>)
      requires Valid() && n !in spine && n.front == null && n.back == null
      modifies this, n, spine
      ensures Valid() && spine == Insert(old(spine), |old(spine)|, n)
    {
      if first == null {
        first, last := n, n;
      } else {
        n.back := last;
        last.front := n;
        last := n;
      }
      spine := Insert(spine, |spine|, n);
    }

    /** The forward half of klist_iterator_insert_before. */
    method LinkForward(cur: Node<T>, n: Node<T>, ghost k: nat)
      requires Distinct(spine) && Forward(spine) && k < |spine| && spine[k] == cur && n !in spine
      requires cur.back == At(spine, k - 1) && Backward(spine)
      modifies n`front, spine`front
      ensures Forward(Insert(spine, k, n)) && Backward(spine)
    {
      n.front := cur;
      if cur.back != null {
        cur.back.front := n;
      }
      ghost var all := Insert(spine, k, n);
      forall i | 0 <= i < |all|
        ensures all[i].front == At(all, i + 1)
      {
        if i < k - 1 {
          assert spine[i].front == old(spine[i].front) == spine[i + 1];
        } else if i > k {
          assert spine[i - 1].front == old(spine[i - 1].front) == At(spine, i);
        }
      }
    }

    /** The backward half. */
    method LinkBackward(cur: Node<T>, n: Node<T>, ghost k: nat)
      requires Distinct(spine) && Backward(spine) && k < |spine| && spine[k] == cur && n !in spine
      requires Forward(Insert(spine, k, n))
      modifies n`back, spine`back
      ensures Backward(Insert(spine, k, n)) && Forward(Insert(spine, k, n))
    {
      assert cur.back == At(spine, k - 1);
      n.back := cur.back;
      cur.back := n;
      ghost var all := Insert(spine, k, n);
      forall i | 0 <= i < |all|
        ensures all[i].back == At(all, i - 1)
      {
        if i < k {
          assert spine[i].back == old(spine[i].back) == At(spine, i - 1);
        } else if i > k + 1 {
          assert spine[i - 1].back == old(spine[i - 1].back) == spine[i - 2];
        }
      }
    }

    /** klist_iterator_insert_before, at a node of the list. */
    method InsertBefore(cur: Node<T>, n: Node<T>, ghost k: nat)
      requires Valid() && k < |spine| && spine[k] == cur && n !in spine
      modifies this, n, spine
      ensures Valid() && spine == Insert(old(spine), k, n)
    {
      LinkFirst(cur, n, k);
      LinkForward(cur, n, k);
      LinkBackward(cur, n, k);
      DistinctInsert(spine, k, n);
      spine := Insert(spine, k, n);
    }

    /** The node becomes the first if it goes before the first. */
    method LinkFirst(cur: Node<T>, n: Node<T>, ghost k: nat)
      requires Valid() && k < |spine| && spine[k] == cur && n !in spine
      modifies this`first
      ensures cur.back == At(spine, k - 1)
      ensures var all := Insert(spine, k, n); first == At(all, 0) && last == At(all, |all| - 1)
    {
      assert cur.back == At(spine, k - 1) && (cur == first <==> k == 0);
      if cur == first {
        first := n;
      }
    }

    /** The forward half of remove_klist_node_from_klist: the node before skips the node. */
    method UnlinkForward(n: Node<T>, ghost k: nat)
      requires Distinct(spine) && Forward(spine) && Backward(spine)
      requires k < |spine| && spine[k] == n && n.back == At(spine, k - 1)
      modifies spine`front
      ensures Forward(Delete(spine, k)) && Backward(spine) && n.front == old(n.front)
    {
      if n.back != null {
        n.back.front := n.front;
      }
      ghost var all := Delete(spine, k);
      forall i | 0 <= i < |all|
        ensures all[i].front == At(all, i + 1)
      {
        if i < k - 1 {
          assert spine[i].front == old(spine[i].front) == spine[i + 1];
        } else if i >= k {
          assert spine[i + 1].front == old(spine[i + 1].front) == At(spine, i + 2);
        }
      }
    }

    /** The backward half: the node after skips the node. */
    method UnlinkBackward(n: Node<T>, ghost k: nat)
      requires Distinct(spine) && Backward(spine) && k < |spine| && spine[k] == n && n.front == At(spine, k + 1)
      requires Forward(Delete(spine, k))
      modifies spine`back
      ensures Backward(Delete(spine, k)) && Forward(Delete(spine, k))
    {
      if n.front != null {
        n.front.back := n.back;
      }
      ghost var all := Delete(spine, k);
      forall i | 0 <= i < |all|
        ensures all[i].back == At(all, i - 1)
      {
        if i < k {
          assert spine[i].back == old(spine[i].back) == At(spine, i - 1);
        } else if i > k {
          assert spine[i + 1].back == old(spine[i + 1].back) == spine[i];
        }
      }
    }

    /** remove_klist_node_from_klist, for a node of the list. */
    method Remove(n: Node<T>, ghost k: nat)
      requires Valid() && k < |spine| && spine[k] == n
      modifies this, spine
      ensures Valid() && spine == Delete(old(spine), k)
    {
      UnlinkEnds(n, k);
      UnlinkForward(n, k);
      UnlinkBackward(n, k);
      assert Distinct(Delete(spine, k)) by { DistinctDelete(spine, k); }
      spine := Delete(spine, k);
    }

    /** The ends of the list step over the node. */
    method UnlinkEnds(n: Node<T>, ghost k: nat)
      requires Valid() && k < |spine| && spine[k] == n
      modifies this`first, this`last
      ensures n.front == At(spine, k + 1) && n.back == At(spine, k - 1)
      ensures var all := Delete(spine, k); first == At(all, 0) && last == At(all, |all| - 1)
    {
      assert n.front == At(spine, k + 1) && n.back == At(spine, k - 1);
      assert (first == n <==> k == 0) && (last == n <==> k == |spine| - 1);
      if first == n {
        first := n.front;
      }
      if last == n {
        last := n.back;
      }
    }
  }
}
