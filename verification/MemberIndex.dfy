/**
 The members of an object in indexed storage: the member array, a multimap from
 names to positions, and one iterator per member that leads back to its entry in
 the multimap. Adding, removing by swapping with the last, erasing a range and
 reallocating keep the three in step.
 */
module MemberIndex {
  import opened Bytes
  import opened Dom

  /** An entry of the multimap; entries keep their identity while their position changes. */
  datatype Node = Node(name: seq<Byte>, pos: nat)

  type Nodes = map<nat, Node>

  /** The multimap holds exactly the pairs (name, position), and the iterators lead to them. */
  ghost predicate Exact(ms: seq<Member>, its: seq<nat>, nodes: Nodes) {
    && |its| == |ms|
    && (forall i :: 0 <= i < |ms| ==> its[i] in nodes && nodes[its[i]] == Node(ms[i].name, i))
    && (forall n :: n in nodes ==> nodes[n].pos < |ms| && its[nodes[n].pos] == n)
  }

  /** `FindMember` over the member array: the first member with this name, or the number of members. */
  function Scan(ms: seq<Member>, name: seq<Byte>): (i: nat)
    ensures i <= |ms| && (i < |ms| ==> ms[i].name == name) && forall j :: 0 <= j < i ==> ms[j].name != name
  {
    if ms == [] || ms[0].name == name then 0 else 1 + Scan(ms[1..], name)
  }

  /** The loop of the storage without an index. */
  method FindByScan(ms: seq<Member>, name: seq<Byte>) returns (i: nat)
    ensures i == Scan(ms, name)
  {
    i := 0;
    while i < |ms| && ms[i].name != name
      invariant i <= |ms| && i + Scan(ms[i..], name) == Scan(ms, name)
    {
      i := i + 1;
    }
  }

  ghost predicate UniqueNames(ms: seq<Member>) {
    forall i, j :: 0 <= i < j < |ms| ==> ms[i].name != ms[j].name
  }

  /** Whatever entry the multimap finds for a name, it finds one exactly when the scan does; it leads
      to a member of that name, and to the scan's own when names are unique. */
  lemma FindAgrees(ms: seq<Member>, its: seq<nat>, nodes: Nodes, name: seq<Byte>)
    requires Exact(ms, its, nodes)
    ensures (exists n :: n in nodes && nodes[n].name == name) <==> Scan(ms, name) < |ms|
    ensures forall n :: n in nodes && nodes[n].name == name ==>
                          nodes[n].pos < |ms| && ms[nodes[n].pos].name == name
                          && (UniqueNames(ms) ==> nodes[n].pos == Scan(ms, name))
  {
    var k := Scan(ms, name);
    if k < |ms| {
      assert its[k] in nodes && nodes[its[k]].name == name;
    }
    forall n | n in nodes && nodes[n].name == name
      ensures ms[nodes[n].pos].name == name && k < |ms| && (UniqueNames(ms) ==> nodes[n].pos == k)
    {
      var p := nodes[n].pos;
      assert its[p] == n;
    }
  }

  // ---- One change ----

  lemma AddExact(ms: seq<Member>, its: seq<nat>, nodes: Nodes, m: Member, n: nat)
    requires Exact(ms, its, nodes) && n !in nodes
    ensures Exact(ms + [m], its + [n], nodes[n := Node(m.name, |ms|)])
  {
  }

  /** The member array after a removal: the last member takes the place. */
  function SwapRemoved<T>(s: seq<T>, i: nat): (r: seq<T>)
    requires i < |s|
    ensures |r| == |s| - 1
  {
    var last := |s| - 1;
    if i == last then s[..last] else s[..last][i := s[last]]
  }

  /** Exactly the member at `i` is gone, the last one is at its place, and the others are where they were. */
  lemma SwapRemovedIs<T>(s: seq<T>, i: nat)
    requires i < |s|
    ensures var r := SwapRemoved(s, i);
            && multiset(r) == multiset(s) - multiset{s[i]}
            && (i < |s| - 1 ==> r[i] == s[|s| - 1])
            && forall k :: 0 <= k < |s| - 1 && k != i ==> r[k] == s[k]
  {
    var last := |s| - 1;
    assert s == s[..last] + [s[last]];
  }

  /** The multimap after the same removal. */
  function NodesRemoved(its: seq<nat>, nodes: Nodes, i: nat): Nodes
    requires i < |its| && its[|its| - 1] in nodes
  {
    var last := |its| - 1;
    var left := nodes - {its[i]};
    if i == last then left else left[its[last] := nodes[its[last]].(pos := i)]
  }

  lemma RemoveExact(ms: seq<Member>, its: seq<nat>, nodes: Nodes, i: nat)
    requires Exact(ms, its, nodes) && i < |ms|
    ensures Exact(SwapRemoved(ms, i), SwapRemoved(its, i), NodesRemoved(its, nodes, i))
  {
    var last := |ms| - 1;
    assert i != last ==> its[i] != its[last];
    var ms', its', nodes' := SwapRemoved(ms, i), SwapRemoved(its, i), NodesRemoved(its, nodes, i);
    forall k | 0 <= k < |ms'|
      ensures its'[k] in nodes' && nodes'[its'[k]] == Node(ms'[k].name, k)
    {
      if k != i {
        assert its[k] != its[i] && its[k] != its[last];
      }
    }
    forall n | n in nodes'
      ensures nodes'[n].pos < |ms'| && its'[nodes'[n].pos] == n
    {
      if n != its[last] {
        assert n in nodes && its[nodes[n].pos] == n && nodes[n].pos != i && nodes[n].pos != last;
      }
    }
  }

  lemma LastNode(ms: seq<Member>, its: seq<nat>, nodes: Nodes, i: nat)
    requires Exact(ms, its, nodes) && i < |ms|
    ensures its[|ms| - 1] in nodes && (i != |ms| - 1 ==> its[i] != its[|ms| - 1])
  {
    assert nodes[its[i]].pos == i;
  }

  lemma NoNodesAdded(its: seq<nat>, nodes: Nodes, i: nat, bound: nat)
    requires i < |its| && its[|its| - 1] in nodes && forall n :: n in nodes ==> n < bound
    ensures forall n :: n in NodesRemoved(its, nodes, i) ==> n < bound
  {
  }

  // ---- Erasing a range ----

  /** The multimap once the entries of positions `first` to `k` are erased. */
  ghost predicate Erased(its: seq<nat>, nodes: Nodes, left: Nodes, first: nat, k: nat)
    requires first <= k <= |its|
  {
    && (forall n :: n in left ==> n in nodes && left[n] == nodes[n])
    && (forall n :: n in nodes ==> (n in left <==> forall j :: first <= j < k ==> its[j] != n))
  }

  lemma EraseOne(ms: seq<Member>, its: seq<nat>, nodes: Nodes, left: Nodes, first: nat, k: nat)
    requires Exact(ms, its, nodes) && first <= k < |its| && Erased(its, nodes, left, first, k)
    ensures its[k] in left && Erased(its, nodes, left - {its[k]}, first, k + 1)
  {
    var n := its[k];
    forall j | first <= j < k
      ensures its[j] != n
    {
      assert nodes[its[j]].pos == j;
    }
    var left' := left - {n};
    forall m | m in nodes
      ensures m in left' <==> forall j :: first <= j < k + 1 ==> its[j] != m
    {
      if m in left && m != n {
        assert forall j :: first <= j < k + 1 ==> its[j] != m;
      }
    }
  }

  /** While what is behind the range moves up by `d`: before `p` is final, from `p + d` on is as it was. */
  ghost predicate Moved<T>(s: seq<T>, s': seq<T>, first: nat, d: nat, p: nat) {
    && first <= p && p + d <= |s| && |s'| == |s|
    && (forall i :: 0 <= i < first ==> s'[i] == s[i])
    && (forall i :: first <= i < p ==> s'[i] == s[i + d])
    && (forall i :: p + d <= i < |s| ==> s'[i] == s[i])
  }

  /** The entries of the range are gone; those of the members that have moved know their new place. */
  ghost predicate Renumbered(nodes: Nodes, nodes': Nodes, first: nat, d: nat, p: nat) {
    && (forall n :: n in nodes' <==> n in nodes && !(first <= nodes[n].pos < first + d))
    && (forall n :: n in nodes' ==>
          nodes'[n] == if first + d <= nodes[n].pos < p + d then nodes[n].(pos := nodes[n].pos - d) else nodes[n])
  }

  lemma RenumberingStarts(ms: seq<Member>, its: seq<nat>, nodes: Nodes, left: Nodes, first: nat, last: nat)
    requires Exact(ms, its, nodes) && first <= last <= |ms| && Erased(its, nodes, left, first, last)
    ensures Renumbered(nodes, left, first, last - first, first)
  {
    forall n | n in nodes
      ensures n in left <==> !(first <= nodes[n].pos < last)
    {
      if first <= nodes[n].pos < last {
        assert its[nodes[n].pos] == n;
      } else {
        forall j | first <= j < last
          ensures its[j] != n
        {
          assert nodes[its[j]].pos == j;
        }
      }
    }
  }

  lemma MoveOne<T>(s: seq<T>, s': seq<T>, first: nat, d: nat, p: nat)
    requires Moved(s, s', first, d, p) && d > 0 && p + d < |s|
    ensures s'[p + d] == s[p + d] && Moved(s, s'[p := s'[p + d]], first, d, p + 1)
  {
  }

  lemma RenumberOne(ms: seq<Member>, its: seq<nat>, nodes: Nodes, nodes': Nodes, first: nat, d: nat, p: nat)
    requires Exact(ms, its, nodes) && Renumbered(nodes, nodes', first, d, p) && d > 0 && first <= p && p + d < |ms|
    ensures var n := its[p + d];
            n in nodes' && Renumbered(nodes, nodes'[n := nodes'[n].(pos := p)], first, d, p + 1)
  {
    var n := its[p + d];
    assert nodes[n] == Node(ms[p + d].name, p + d);
    assert n in nodes' && nodes'[n] == nodes[n];
    forall m | m in nodes' && m != n
      ensures nodes[m].pos != p + d
    {
      assert m in nodes && its[nodes[m].pos] == m;
    }
  }

  function Without<T>(s: seq<T>, first: nat, last: nat): (r: seq<T>)
    requires first <= last <= |s|
    ensures |r| == |s| - (last - first)
  {
    s[..first] + s[last..]
  }

  lemma MovingEnds<T>(s: seq<T>, s': seq<T>, first: nat, d: nat)
    requires first + d <= |s| && Moved(s, s', first, d, |s| - d)
    ensures s'[..|s| - d] == Without(s, first, first + d)
  {
  }

  lemma EraseExact(ms: seq<Member>, its: seq<nat>, nodes: Nodes, nodes': Nodes, first: nat, d: nat)
    requires Exact(ms, its, nodes) && first + d <= |ms| && Renumbered(nodes, nodes', first, d, |ms| - d)
    ensures Exact(Without(ms, first, first + d), Without(its, first, first + d), nodes')
  {
    var ms', its', k := Without(ms, first, first + d), Without(its, first, first + d), |ms| - d;
    forall i | 0 <= i < k
      ensures its'[i] in nodes' && nodes'[its'[i]] == Node(ms'[i].name, i)
    {
      var j := if i < first then i else i + d;
      assert its'[i] == its[j] && ms'[i] == ms[j] && nodes[its[j]] == Node(ms[j].name, j);
    }
    forall n | n in nodes'
      ensures nodes'[n].pos < k && its'[nodes'[n].pos] == n
    {
      assert n in nodes && its[nodes[n].pos] == n;
    }
  }

  // ---- The object's storage ----

  const DEFAULT_CAPACITY := 16

  class Members {
    var members: array<Member>
    var iterators: array<nat>
    var size: nat
    var nodes: Nodes
    var nextNode: nat

    ghost predicate Valid()
      reads this, members, iterators
    {
      && members.Length == iterators.Length && size <= members.Length
      && Exact(members[..size], iterators[..size], nodes)
      && forall n :: n in nodes ==> n < nextNode
    }

    function Contents(): seq<Member>
      requires size <= members.Length
      reads this, members
    {
      members[..size]
    }

    constructor ()
      ensures Valid() && Contents() == [] && fresh(members) && fresh(iterators)
    {
      members := new Member[0];
      iterators := new nat[0];
      size := 0;
      nodes := map[];
      nextNode := 0;
    }

    /** DoReserveMembers: a larger block, with members and iterators moved over. */
    method Reserve(newCapacity: nat)
      requires Valid()
      modifies this
      ensures Valid() && Contents() == old(Contents()) && size == old(size)
      ensures members.Length == (if newCapacity > old(members.Length) then newCapacity else old(members.Length))
      ensures (members == old(members) && iterators == old(iterators)) || (fresh(members) && fresh(iterators))
    {
      if newCapacity <= members.Length {
        return;
      }
      var ms := new Member[newCapacity](_ => Member([], NullValue));
      var its := new nat[newCapacity];
      for i := 0 to size
        modifies ms, its
        invariant ms[..i] == members[..i] && its[..i] == iterators[..i]
      {
        ms[i] := members[i];
        its[i] := iterators[i];
      }
      members, iterators := ms, its;
    }

    method Add(m: Member)
      requires Valid()
      modifies this, members, iterators
      ensures Valid() && Contents() == old(Contents()) + [m]
      ensures (members == old(members) && iterators == old(iterators)) || (fresh(members) && fresh(iterators))
    {
      hide Exact;
      if size >= members.Length {
        var c := members.Length;
        Reserve(if c > 0 then c + (c + 1) / 2 else DEFAULT_CAPACITY);
      }
      assert nextNode !in nodes;
      AddExact(members[..size], iterators[..size], nodes, m, nextNode);
      ghost var ms, its := members[..size], iterators[..size];
      members[size] := m;
      iterators[size] := nextNode;
      nodes := nodes[nextNode := Node(m.name, size)];
      nextNode := nextNode + 1;
      size := size + 1;
      assert members[..size] == ms + [m] && iterators[..size] == its + [nextNode - 1];
    }

    /** Remove a member: the last one is moved into its place. */
    method Remove(i: nat)
      requires Valid() && i < size
      modifies this, members, iterators
      ensures Valid() && Contents() == SwapRemoved(old(Contents()), i)
      ensures members == old(members) && iterators == old(iterators)
    {
      hide Exact;
      ghost var ms, its, all := members[..size], iterators[..size], nodes;
      RemoveExact(ms, its, all, i);
      LastNode(ms, its, all, i);
      NoNodesAdded(its, all, i, nextNode);
      nodes := nodes - {iterators[i]};
      var last := size - 1;
      if size > 1 && i != last {
        iterators[i] := iterators[last];
        nodes := nodes[iterators[i] := nodes[iterators[i]].(pos := i)];
        members[i] := members[last];
      }
      size := size - 1;
      assert members[..size] == SwapRemoved(ms, i);
      assert iterators[..size] == SwapRemoved(its, i);
      assert nodes == NodesRemoved(its, all, i);
    }

    /** Erase the entries of the members from `first` to before `last`. */
    method EraseNodes(first: nat, last: nat)
      requires members.Length == iterators.Length && first <= last <= size <= members.Length
      requires Exact(members[..size], iterators[..size], nodes)
      modifies `nodes
      ensures Erased(iterators[..size], old(nodes), nodes, first, last)
    {
      hide Exact, Erased;
      ghost var ms, its, all := members[..size], iterators[..size], nodes;
      var k := first;
      ErasedNone(its, all, first);
      while k < last
        invariant first <= k <= last && Erased(its, all, nodes, first, k)
      {
        EraseOne(ms, its, all, nodes, first, k);
        assert iterators[k] == its[k];
        nodes := nodes - {iterators[k]};
        k := k + 1;
      }
    }

    /** Move the members behind an erased range up, with their iterators. */
    method MoveUp(first: nat, d: nat, ghost ms: seq<Member>, ghost its: seq<nat>, ghost all: Nodes)
      requires members.Length == iterators.Length && size <= members.Length && 0 < d && first + d <= size
      requires members[..size] == ms && iterators[..size] == its && Exact(ms, its, all) && Renumbered(all, nodes, first, d, first)
      modifies `nodes, members, iterators
      ensures members[..size - d] == Without(ms, first, first + d) && iterators[..size - d] == Without(its, first, first + d)
      ensures Renumbered(all, nodes, first, d, size - d)
    {
      hide Exact, Moved, Renumbered, Without;
      MovesNothing(ms, first, d);
      MovesNothing(its, first, d);
      var p := first;
      while p + d < size
        invariant first <= p <= size - d && Renumbered(all, nodes, first, d, p)
        invariant Moved(ms, members[..size], first, d, p) && Moved(its, iterators[..size], first, d, p)
      {
        ghost var ms1, its1 := members[..size], iterators[..size];
        MoveOne(ms, ms1, first, d, p);
        MoveOne(its, its1, first, d, p);
        RenumberOne(ms, its, all, nodes, first, d, p);
        assert iterators[p + d] == its1[p + d] == its[p + d];
        members[p] := members[p + d];
        iterators[p] := iterators[p + d];
        nodes := nodes[iterators[p] := nodes[iterators[p]].(pos := p)];
        assert members[..size] == ms1[p := ms1[p + d]] && iterators[..size] == its1[p := its1[p + d]];
        p := p + 1;
      }
      MovingEnds(ms, members[..size], first, d);
      MovingEnds(its, iterators[..size], first, d);
      assert members[..size - d] == members[..size][..size - d] && iterators[..size - d] == iterators[..size][..size - d];
    }

    /** Erase the members from `first` to before `last`, keeping the order of the others. */
    method Erase(first: nat, last: nat)
      requires Valid() && first <= last <= size
      modifies this, members, iterators
      ensures Valid() && Contents() == Without(old(Contents()), first, last)
      ensures members == old(members) && iterators == old(iterators)
    {
      hide Exact, Erased, Renumbered, Without;
      ghost var ms, its, all := members[..size], iterators[..size], nodes;
      var d := last - first;
      EraseNodes(first, last);
      RenumberingStarts(ms, its, all, nodes, first, last);
      if first != last {
        MoveUp(first, d, ms, its, all);
        EraseExact(ms, its, all, nodes, first, d);
        NoNewNodes(all, nodes, first, d, size - d, nextNode);
      } else {
        NothingErased(ms, its, all, nodes, first);
        NoNewNodes(all, nodes, first, d, first, nextNode);
      }
      size := size - d;
    }

    method Clear()
      requires Valid()
      modifies this
      ensures Valid() && Contents() == [] && nodes == map[] && members == old(members) && iterators == old(iterators)
    {
      hide Exact, Erased;
      ghost var all := nodes;
      EraseNodes(0, size);
      ErasedAll(members[..size], iterators[..size], all, nodes);
      size := 0;
      EmptyExact(members[..0], iterators[..0]);
    }

    /** The multimap's find: any entry with this name. */
    method Find(name: seq<Byte>) returns (r: Option<nat>)
      requires Valid()
      ensures r.None? <==> Scan(Contents(), name) == size
      ensures r.Some? ==> r.value < size && members[r.value].name == name
      ensures r.Some? && UniqueNames(Contents()) ==> r.value == Scan(Contents(), name)
    {
      hide Exact;
      FindAgrees(members[..size], iterators[..size], nodes, name);
      if n :| n in nodes && nodes[n].name == name {
        r := Some(nodes[n].pos);
      } else {
        r := None;
      }
    }
  }

  lemma ErasedNone(its: seq<nat>, nodes: Nodes, first: nat)
    requires first <= |its|
    ensures Erased(its, nodes, nodes, first, first)
  {
  }

  lemma ErasedAll(ms: seq<Member>, its: seq<nat>, nodes: Nodes, left: Nodes)
    requires Exact(ms, its, nodes) && Erased(its, nodes, left, 0, |its|)
    ensures left == map[]
  {
    forall n | n in nodes
      ensures n !in left
    {
      assert its[nodes[n].pos] == n;
    }
  }

  lemma EmptyExact(ms: seq<Member>, its: seq<nat>)
    requires |ms| == 0 && |its| == 0
    ensures Exact(ms, its, map[])
  {
  }

  lemma NoNewNodes(nodes: Nodes, nodes': Nodes, first: nat, d: nat, p: nat, bound: nat)
    requires Renumbered(nodes, nodes', first, d, p) && forall n :: n in nodes ==> n < bound
    ensures forall n :: n in nodes' ==> n < bound
  {
  }

  lemma MovesNothing<T>(s: seq<T>, first: nat, d: nat)
    requires first + d <= |s|
    ensures Moved(s, s, first, d, first)
  {
  }

  lemma NothingErased(ms: seq<Member>, its: seq<nat>, nodes: Nodes, left: Nodes, first: nat)
    requires Exact(ms, its, nodes) && first <= |ms| && Renumbered(nodes, left, first, 0, first)
    ensures Exact(ms, its, left) && Without(ms, first, first) == ms
  {
    assert left == nodes;
  }
}
