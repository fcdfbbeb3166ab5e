/** The intrusive doubly linked lists of observers: one list per observed row, whose heads a class info
    holds.  Joining and leaving keep every list well formed; the walk calls each observer of a row once. */
module Observation {
  /** `RLMObservationInfo`, with the index of the row it observes. */
  class Info {
    var row: nat
    var next: Info?
    var prev: Info?

    constructor ()
      ensures next == null && prev == null
    {
      row, next, prev := 0, null, null;
    }

    /** `forEach`: the predecessors nearest first, then this node and its successors. */
    method ForEach(ghost nodes: seq<Info>, ghost k: nat) returns (called: seq<Info>)
      requires Linked(nodes) && k < |nodes| && nodes[k] == this
      ensures called == Reversed(nodes[..k]) + nodes[k..]
    {
      called := [];
      var info := prev;
      ghost var i: nat := k;
      while info != null
        invariant i <= k && info == Ahead(nodes, i)
        invariant |called| == k - i && forall j :: 0 <= j < |called| ==> called[j] == nodes[k - 1 - j]
        decreases i
      {
        called := called + [info];
        info := info.prev;
        i := i - 1;
      }
      assert called == Reversed(nodes[..k]);
      ghost var before := called;
      info := this;
      i := k;
      while info != null
        invariant k <= i <= |nodes| && info == At(nodes, i)
        invariant called == before + nodes[k..i]
        decreases |nodes| - i
      {
        called := called + [info];
        info := info.next;
        i := i + 1;
      }
    }

    /** Join a list right behind its head. */
    method JoinBehind(head: Info, ghost nodes: seq<Info>)
      requires Linked(nodes) && nodes != [] && nodes[0] == head && this !in nodes
      modifies this, nodes
      ensures Linked([head, this] + nodes[1..])
      ensures row == old(row) && forall n :: n in nodes ==> n.row == old(n.row)
    {
      prev := head;
      next := head.next;
      if next != null {
        next.prev := this;
      }
      head.next := this;
      ghost var joined := [head, this] + nodes[1..];
      forall i | 2 <= i < |joined|
        ensures joined[i] == nodes[i - 1] && joined[i] != this && joined[i] != head
      {
      }
    }

    /** Leave a list this node does not head. */
    method LeaveMiddle(ghost nodes: seq<Info>, ghost k: nat)
      requires Linked(nodes) && 0 < k < |nodes| && nodes[k] == this
      modifies nodes
      ensures Linked(nodes[..k] + nodes[k + 1..])
      ensures forall n :: n in nodes ==> n.row == old(n.row)
    {
      ghost var left := nodes[..k] + nodes[k + 1..];
      assert next == At(nodes, k + 1) && prev == nodes[k - 1];
      prev.next := next;
      if next != null {
        next.prev := prev;
      }
      forall i | 0 <= i < |left|
        ensures left[i].next == At(left, i + 1) && left[i].prev == Ahead(left, i)
      {
        var j := if i < k then i else i + 1;
        assert left[i] == nodes[j];
      }
    }

    /** Leave a list this node heads, making its successor the head. */
    method LeaveHead(ghost nodes: seq<Info>)
      requires Linked(nodes) && nodes != [] && nodes[0] == this
      modifies nodes
      ensures Linked(nodes[1..])
      ensures forall n :: n in nodes ==> n.row == old(n.row)
    {
      if next != null {
        next.prev := null;
      }
    }
  }

  ghost function Reversed(nodes: seq<Info>): (r: seq<Info>)
    ensures |r| == |nodes|
    ensures forall j :: 0 <= j < |r| ==> r[j] == nodes[|nodes| - 1 - j]
  {
    seq(|nodes|, j requires 0 <= j < |nodes| => nodes[|nodes| - 1 - j])
  }

  lemma {:induction false} ReversedMultiset(nodes: seq<Info>)
    ensures multiset(Reversed(nodes)) == multiset(nodes)
    decreases |nodes|
  {
    if nodes != [] {
      ReversedMultiset(nodes[1..]);
      assert Reversed(nodes) == Reversed(nodes[1..]) + [nodes[0]];
      assert nodes == [nodes[0]] + nodes[1..];
    }
  }

  /** The walk's calls are the row's observers, each exactly once, wherever it starts. */
  lemma CalledOnce(nodes: seq<Info>, k: nat)
    requires k < |nodes|
    ensures multiset(Reversed(nodes[..k]) + nodes[k..]) == multiset(nodes)
  {
    ReversedMultiset(nodes[..k]);
    assert nodes == nodes[..k] + nodes[k..];
  }

  ghost function At(nodes: seq<Info>, i: nat): Info? {
    if i < |nodes| then nodes[i] else null
  }

  ghost function Ahead(nodes: seq<Info>, i: nat): Info? {
    if 0 < i <= |nodes| then nodes[i - 1] else null
  }

  ghost predicate DistinctNodes(nodes: seq<Info>) {
    forall i, j :: 0 <= i < j < |nodes| ==> nodes[i] != nodes[j]
  }

  /** Distinct nodes whose links run along the sequence and back. */
  ghost predicate Linked(nodes: seq<Info>)
    reads nodes
  {
    && DistinctNodes(nodes)
    && (forall i {:trigger nodes[i].next} :: 0 <= i < |nodes| ==> nodes[i].next == At(nodes, i + 1))
    && (forall i {:trigger nodes[i].prev} :: 0 <= i < |nodes| ==> nodes[i].prev == Ahead(nodes, i))
  }

  /** `RLMClassInfo`: the head of each observed row's list. */
  class ClassInfo {
    var observedObjects: seq<Info>
    ghost var lists: seq<seq<Info>>
    ghost var members: set<Info>

    ghost predicate Valid()
      reads this, members
    {
      && |observedObjects| == |lists|
      && (forall i :: 0 <= i < |lists| ==>
          (forall n :: n in lists[i] ==> n in members) && ListOk(lists[i], observedObjects[i]))
      && (forall i, j :: 0 <= i < j < |lists| ==> observedObjects[i].row != observedObjects[j].row)
    }

    /** A well-formed list of observers of one row. */
    static ghost predicate ListOk(nodes: seq<Info>, head: Info)
      reads nodes
    {
      && nodes != [] && nodes[0] == head
      && Linked(nodes)
      && forall n :: n in nodes ==> n.row == head.row
    }

    constructor ()
      ensures Valid() && lists == []
    {
      observedObjects, lists, members := [], [], {};
    }

    /** The position of the row's list, or the number of lists if the row is not observed. */
    method FindRow(row: nat) returns (i: nat)
      requires Valid()
      ensures i <= |lists| && (forall j :: 0 <= j < i ==> observedObjects[j].row != row)
      ensures i < |lists| ==> observedObjects[i].row == row
    {
      i := 0;
      while i < |observedObjects|
        invariant i <= |lists|
        invariant forall j :: 0 <= j < i ==> observedObjects[j].row != row
      {
        if observedObjects[i].row == row {
          return;
        }
        i := i + 1;
      }
    }

    /** Join the list at position `at`. */
    method JoinList(info: Info, at: nat)
      requires Valid() && at < |lists| && info !in members && info.row == observedObjects[at].row
      modifies this, info, members
      ensures Valid() && info.row == old(info.row) && members == old(members) + {info}
      ensures forall n :: n in old(members) ==> n.row == old(n.row)
      ensures observedObjects == old(observedObjects)
      ensures lists == old(lists)[at := [old(lists)[at][0], info] + old(lists)[at][1..]]
    {
      ghost var nodes := lists[at];
      assert ListOk(nodes, observedObjects[at]);
      forall j, n | 0 <= j < |lists| && j != at && n in lists[j]
        ensures n !in nodes && n != info
      {
        assert ListOk(lists[j], observedObjects[j]);
      }
      info.JoinBehind(observedObjects[at], nodes);
      forall j | 0 <= j < |lists| && j != at
        ensures ListOk(lists[j], observedObjects[j])
      {
        ghost var other := lists[j];
        assert old(ListOk(other, observedObjects[j]));
        forall k | 0 <= k < |other|
          ensures other[k].next == At(other, k + 1) && other[k].prev == Ahead(other, k)
        {
          assert other[k] in other;
          assert other[k].next == old(other[k].next) && other[k].prev == old(other[k].prev);
        }
      }
      lists := lists[at := [nodes[0], info] + nodes[1..]];
      members := members + {info};
    }

    /** `setRow`: the new observer joins behind the head of its row's list, or heads a new list. */
    method SetRow(info: Info, newRow: nat) returns (ghost i: nat)
      requires Valid() && info !in members && info.next == null && info.prev == null
      modifies this, info, members
      ensures Valid() && info.row == newRow && members == old(members) + {info}
      ensures forall n :: n in old(members) ==> n.row == old(n.row)
      ensures i <= |old(lists)| && (forall j :: 0 <= j < i ==> old(observedObjects[j].row) != newRow)
      ensures if i < |old(lists)| then
                old(observedObjects[i].row) == newRow &&
                  lists == old(lists)[i := [old(lists)[i][0], info] + old(lists)[i][1..]]
              else lists == old(lists) + [[info]]
    {
      assert forall j :: 0 <= j < |lists| ==> observedObjects[j] == lists[j][0] && observedObjects[j] in members;
      info.row := newRow;
      assert forall j :: 0 <= j < |lists| ==> ListOk(lists[j], observedObjects[j]);
      var at := FindRow(newRow);
      i := at;
      if at < |observedObjects| {
        JoinList(info, at);
      } else {
        observedObjects := observedObjects + [info];
        lists := lists + [[info]];
        members := members + {info};
      }
    }

    /** The destructor of an observer that is not a head: leave the list. */
    method LeaveBehind(info: Info, ghost i: nat, ghost k: nat)
      requires Valid() && i < |lists| && 0 < k < |lists[i]| && lists[i][k] == info
      modifies this, members
      ensures Valid() && members == old(members) - {info} && observedObjects == old(observedObjects)
      ensures lists == old(lists)[i := old(lists)[i][..k] + old(lists)[i][k + 1..]]
    {
      ghost var nodes := lists[i];
      assert ListOk(nodes, observedObjects[i]);
      Apart(i);
      info.LeaveMiddle(nodes, k);
      forall j | 0 <= j < |lists| && j != i
        ensures ListOk(lists[j], observedObjects[j])
      {
        ghost var other := lists[j];
        assert old(ListOk(other, observedObjects[j]));
        forall m | 0 <= m < |other|
          ensures other[m].next == At(other, m + 1) && other[m].prev == Ahead(other, m)
        {
          assert other[m] in other;
          assert other[m].next == old(other[m].next) && other[m].prev == old(other[m].prev);
        }
      }
      lists := lists[i := nodes[..k] + nodes[k + 1..]];
      members := members - {info};
    }

    /** Different lists share no node. */
    lemma Apart(i: nat)
      requires Valid() && i < |lists|
      ensures forall j, n :: 0 <= j < |lists| && j != i && n in lists[j] ==> n !in lists[i]
    {
      assert ListOk(lists[i], observedObjects[i]);
      forall j, n | 0 <= j < |lists| && j != i && n in lists[j]
        ensures n !in lists[i]
      {
        assert ListOk(lists[j], observedObjects[j]);
      }
    }

    /** The destructor of a head with a successor: the successor takes its place. */
    method LeaveFront(info: Info, at: nat)
      requires Valid() && at < |lists| && |lists[at]| > 1 && observedObjects[at] == info
      modifies this, members
      ensures Valid() && members == old(members) - {info}
      ensures lists == old(lists)[at := old(lists)[at][1..]]
    {
      ghost var nodes := lists[at];
      assert ListOk(nodes, info);
      Apart(at);
      assert info.next == nodes[1];
      observedObjects := observedObjects[at := info.next];
      info.LeaveHead(nodes);
      forall j | 0 <= j < |lists| && j != at
        ensures ListOk(lists[j], observedObjects[j])
      {
        ghost var other := lists[j];
        assert old(ListOk(other, observedObjects[j]));
        forall m | 0 <= m < |other|
          ensures other[m].next == At(other, m + 1) && other[m].prev == Ahead(other, m)
        {
          assert other[m] in other;
          assert other[m].next == old(other[m].next) && other[m].prev == old(other[m].prev);
        }
      }
      lists := lists[at := nodes[1..]];
      members := members - {info};
    }

    /** The destructor of a row's only observer: the last list takes the emptied place. */
    method LeaveAlone(info: Info, at: nat)
      requires Valid() && at < |lists| && lists[at] == [info]
      modifies this
      ensures Valid() && members == old(members) - {info}
      ensures lists == old(lists)[at := old(lists)[|old(lists)| - 1]][..|old(lists)| - 1]
    {
      Apart(at);
      var last := |observedObjects| - 1;
      assert ListOk(lists[last], observedObjects[last]);
      observedObjects := observedObjects[at := observedObjects[last]][..last];
      lists := lists[at := lists[last]][..last];
      members := members - {info};
    }

    /** The destructor: the observer is gone from its row's list and the others keep their order; the place
        of an emptied list goes to the last one. */
    method Leave(info: Info, ghost i: nat, ghost k: nat)
      requires Valid() && i < |lists| && k < |lists[i]| && lists[i][k] == info
      modifies this, members
      ensures Valid() && members == old(members) - {info}
      ensures var rest := old(lists)[i][..k] + old(lists)[i][k + 1..];
              if rest != [] then lists == old(lists)[i := rest]
              else lists == old(lists)[i := old(lists)[|old(lists)| - 1]][..|old(lists)| - 1]
    {
      assert ListOk(lists[i], observedObjects[i]);
      if info.prev != null {
        LeaveBehind(info, i, k);
        return;
      }
      var at := 0;
      while observedObjects[at] != info
        invariant at <= i
        decreases i - at
      {
        at := at + 1;
      }
      HeadsDiffer(at, i);
      assert k == 0;
      assert lists[i][..0] + lists[i][1..] == lists[i][1..];
      if info.next != null {
        LeaveFront(info, at);
      } else {
        assert lists[at] == [info];
        LeaveAlone(info, at);
      }
    }

    lemma HeadsDiffer(i: nat, j: nat)
      requires Valid() && i < |lists| && j < |lists| && observedObjects[i] == observedObjects[j]
      ensures i == j
    {
    }
  }
}
