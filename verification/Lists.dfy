/** Lists of distinct nodes, by identity. */
module Lists {
  predicate Distinct(list: seq<nat>) {
    forall i, j :: 0 <= i < j < |list| ==> list[i] != list[j]
  }

  /** list_del: the node leaves the list, if it is there. */
  function Without(list: seq<nat>, b: nat): seq<nat> {
    if list == [] then [] else (if list[0] == b then [] else [list[0]]) + Without(list[1..], b)
  }

  lemma WithoutCons(x: nat, rest: seq<nat>, b: nat)
    ensures Without([x] + rest, b) == if x == b then Without(rest, b) else [x] + Without(rest, b)
  {
    assert ([x] + rest)[1..] == rest;
    assert [] + Without(rest, b) == Without(rest, b);
  }

  lemma {:induction false} WithoutMembers(list: seq<nat>, b: nat)
    ensures forall x :: x in Without(list, b) <==> x in list && x != b
  {
    if list != [] {
      WithoutMembers(list[1..], b);
      assert list == [list[0]] + list[1..];
    }
  }

  lemma {:induction false} WithoutAbsent(list: seq<nat>, b: nat)
    requires b !in list
    ensures Without(list, b) == list
  {
    if list != [] {
      WithoutAbsent(list[1..], b);
    }
  }

  lemma WithoutHead(list: seq<nat>)
    requires list != [] && Distinct(list)
    ensures Without(list, list[0]) == list[1..] && list[0] !in list[1..] && Distinct(list[1..])
  {
    var head, rest := list[0], list[1..];
    forall i | 0 <= i < |rest| ensures rest[i] != head {
      assert list[i + 1] == rest[i];
    }
    forall i, j | 0 <= i < j < |rest| ensures rest[i] != rest[j] {
      assert list[i + 1] == rest[i] && list[j + 1] == rest[j];
    }
    WithoutAbsent(rest, head);
    assert Without(list, head) == [] + Without(rest, head);
  }

  lemma {:induction false} WithoutExact(list: seq<nat>, id: nat)
    requires Distinct(list)
    ensures Distinct(Without(list, id))
    ensures forall x :: x in Without(list, id) <==> x in list && x != id
    ensures |Without(list, id)| == if id in list then |list| - 1 else |list|
  {
    WithoutMembers(list, id);
    if list != [] {
      var rest := list[1..];
      WithoutHead(list);
      WithoutExact(rest, id);
      if list[0] != id {
        var w := Without(list, id);
        assert forall k :: 0 < k < |w| ==> w[k] in rest;
      }
    }
  }

  lemma {:induction false} WithoutLast(list: seq<nat>)
    requires list != [] && Distinct(list)
    ensures Without(list, list[|list| - 1]) == list[..|list| - 1]
  {
    var n := |list| - 1;
    if n > 0 {
      var rest := list[1..];
      assert rest[n - 1] == list[n];
      WithoutLast(rest);
      assert list[..n] == [list[0]] + rest[..n - 1];
    }
  }
}
