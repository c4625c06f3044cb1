/**
 When the innermost message wins (`clients/js/src/errors.ts`, which says that it does). The last
 message of the visit is reported; which message that is depends on the shape of what was thrown, and
 the theorems below say for which shapes it is the innermost one, whoever in it has a message.
 */
module Innermost {
  import opened Results
  import opened Text
  import opened SendErrors

  // --- one shape, many messages ----------------------------------------------------------------------

  /** The same objects leading to the same objects; what they say may differ. */
  ghost predicate SameShape(heap: Heap, other: Heap) {
    && Closed(other) && heap.Keys == other.Keys
    && forall id <- heap :: heap[id].Array? == other[id].Array? && Children(heap[id]) == Children(other[id])
  }

  lemma {:induction false} ShapeDecidesVisit(heap: Heap, other: Heap, todo: seq<Value>, seen: set<nat>)
    requires Closed(heap) && SameShape(heap, other) && AllInHeap(heap, todo)
    ensures AllInHeap(other, todo) && Preorder(other, todo, seen) == Preorder(heap, todo, seen)
    decreases heap.Keys - seen, |todo|
  {
    if todo != [] {
      if todo[0].Ref? && todo[0].id !in seen {
        var id := todo[0].id;
        ChildrenInHeap(heap, id);
        ShapeDecidesVisit(heap, other, Children(heap[id]) + todo[1..], seen + {id});
      } else {
        ShapeDecidesVisit(heap, other, todo[1..], seen);
      }
    }
  }

  lemma ShapeDecidesReach(heap: Heap, other: Heap, x: nat, y: nat)
    requires Closed(heap) && SameShape(heap, other)
    ensures Reachable(heap, [Ref(x)], {}, y) <==> Reachable(other, [Ref(x)], {}, y)
  {
    if Reachable(heap, [Ref(x)], {}, y) {
      var path :| IsPath(heap, path, {}) && Ref(path[0]) in [Ref(x)] && path[|path| - 1] == y;
      assert IsPath(other, path, {});
    }
    if Reachable(other, [Ref(x)], {}, y) {
      var path :| IsPath(other, path, {}) && Ref(path[0]) in [Ref(x)] && path[|path| - 1] == y;
      assert IsPath(heap, path, {});
    }
  }

  /** The heap with messages on two of its objects only. */
  function SayOnly(heap: Heap, a: nat, b: nat): Heap {
    map id | id in heap ::
      match heap[id]
      case Array(items) => Array(items)
      case Object(fields) =>
        Object(if id == a || id == b then fields["message" := Str("failed")] else fields - {"message"})
  }

  lemma MessagesAreNotDescended()
    ensures forall k :: 0 <= k < |DESCEND| ==> DESCEND[k] != "message"
  {
    assert DESCEND[4][0] != "message"[0];
  }

  lemma SayOnlyHasTheShape(heap: Heap, a: nat, b: nat)
    requires Closed(heap)
    ensures SameShape(heap, SayOnly(heap, a, b))
    ensures forall id <- heap ::
      MessageOf(SayOnly(heap, a, b), id).Some? <==> heap[id].Object? && (id == a || id == b)
  {
    MessagesAreNotDescended();
    NothingToTrim("failed");
    var other := SayOnly(heap, a, b);
    forall id <- heap
      ensures Children(other[id]) == Children(heap[id])
    {
      if heap[id].Object? {
        assert forall k :: 0 <= k < |DESCEND| ==>
          Field(other[id].fields, DESCEND[k]) == Field(heap[id].fields, DESCEND[k]);
      }
    }
  }

  // --- whom nobody beats -----------------------------------------------------------------------------

  /** Whoever is reported is beaten by no other object in the visit that has a message. */
  ghost predicate Unbeaten(heap: Heap, thrown: Value, beats: (nat, nat) -> bool)
    requires Closed(heap) && InHeap(heap, thrown)
  {
    var order := Visited(heap, thrown);
    var reported := LastSpeaker(heap, order);
    reported.Some? ==>
      forall y <- order :: y != reported.value && MessageOf(heap, y).Some? ==> !beats(y, reported.value)
  }

  /** No object in the visit is beaten by one visited before it. Arrays never have a message. */
  ghost predicate BeatenByNoneBefore(heap: Heap, thrown: Value, beats: (nat, nat) -> bool)
    requires Closed(heap) && InHeap(heap, thrown)
  {
    var order := Visited(heap, thrown);
    forall i, j :: 0 <= i < j < |order| && heap[order[i]].Object? && heap[order[j]].Object? ==>
      !beats(order[i], order[j])
  }

  /** Where in the visit the object reported is. */
  lemma LastSpeakerAt(heap: Heap, order: seq<nat>) returns (p: nat)
    requires AreIds(heap, order) && LastSpeaker(heap, order).Some?
    ensures p < |order| && order[p] == LastSpeaker(heap, order).value && MessageOf(heap, order[p]).Some?
    ensures forall i :: p < i < |order| ==> MessageOf(heap, order[i]).None?
  {
    LastMessageIsItsSpeakers(heap, order);
    p :| 0 <= p < |order| && order[p] == LastSpeaker(heap, order).value
      && MessageOf(heap, order[p]).Some?
      && forall i :: p < i < |order| ==> MessageOf(heap, order[i]).None?;
  }

  lemma ReportedIsUnbeaten(heap: Heap, thrown: Value, beats: (nat, nat) -> bool)
    requires Closed(heap) && InHeap(heap, thrown) && BeatenByNoneBefore(heap, thrown, beats)
    ensures Unbeaten(heap, thrown, beats)
  {
    var order := Visited(heap, thrown);
    if LastSpeaker(heap, order).Some? {
      var p := LastSpeakerAt(heap, order);
      forall y <- order | y != order[p] && MessageOf(heap, y).Some?
        ensures !beats(y, order[p])
      {
        var q :| 0 <= q < |order| && order[q] == y;
        assert q < p;
      }
    }
  }

  lemma TwoSpeakers(heap: Heap, thrown: Value, i: nat, j: nat)
    requires Closed(heap) && InHeap(heap, thrown)
    requires i < j < |Visited(heap, thrown)|
    requires heap[Visited(heap, thrown)[i]].Object? && heap[Visited(heap, thrown)[j]].Object?
    ensures var order := Visited(heap, thrown);
      var other := SayOnly(heap, order[i], order[j]);
      && SameShape(heap, other) && Visited(other, thrown) == order && order[i] != order[j]
      && MessageOf(other, order[i]).Some? && LastSpeaker(other, order) == Some(order[j])
  {
    var order := Visited(heap, thrown);
    var other := SayOnly(heap, order[i], order[j]);
    SayOnlyHasTheShape(heap, order[i], order[j]);
    ShapeDecidesVisit(heap, other, [thrown], {});
    VisitedOnce(heap, [thrown], {});
    assert MessageOf(other, order[j]).Some?;
    LastMessageIsItsSpeakers(other, order);
    var p := LastSpeakerAt(other, order);
    assert p == j;
  }

  /**
   For any way in which one object can beat another: whoever in the structure has a message, the one
   reported is not beaten, if and only if no object is beaten by one visited before it.
   */
  lemma UnbeatenIff(heap: Heap, thrown: Value, beats: (nat, nat) -> bool)
    requires Closed(heap) && InHeap(heap, thrown)
    ensures BeatenByNoneBefore(heap, thrown, beats) <==>
            forall other: Heap | SameShape(heap, other) :: Unbeaten(other, thrown, beats)
  {
    var order := Visited(heap, thrown);
    if BeatenByNoneBefore(heap, thrown, beats) {
      forall other: Heap | SameShape(heap, other)
        ensures Unbeaten(other, thrown, beats)
      {
        ShapeDecidesVisit(heap, other, [thrown], {});
        ReportedIsUnbeaten(other, thrown, beats);
      }
    } else {
      var i, j :| 0 <= i < j < |order| && heap[order[i]].Object? && heap[order[j]].Object?
        && beats(order[i], order[j]);
      TwoSpeakers(heap, thrown, i, j);
      assert !Unbeaten(SayOnly(heap, order[i], order[j]), thrown, beats);
    }
  }

  // --- the innermost ---------------------------------------------------------------------------------

  lemma {:induction false} PathStaysVisited(heap: Heap, thrown: Value, path: seq<nat>, i: nat)
    requires Closed(heap) && InHeap(heap, thrown) && IsPath(heap, path, {}) && i < |path|
    requires path[0] in Visited(heap, thrown)
    ensures path[i] in Visited(heap, thrown)
  {
    if i > 0 {
      PathStaysVisited(heap, thrown, path, i - 1);
      VisitIsClosed(heap, [thrown], {}, path[i]);
      assert Ref(path[i - 1 + 1]) in Children(heap[path[i - 1]]);
    }
  }

  /** Nothing that the reported object leads to has a message. */
  ghost predicate InnermostReported(heap: Heap, thrown: Value)
    requires Closed(heap) && InHeap(heap, thrown)
  {
    var reported := LastSpeaker(heap, Visited(heap, thrown));
    reported.Some? ==>
      forall y <- heap :: y != reported.value && MessageOf(heap, y).Some? ==>
        !Reachable(heap, [Ref(reported.value)], {}, y)
  }

  /** No object leads back to one visited before it: no cycle, and nothing shared with a later branch's parent. */
  ghost predicate LeadsOnlyForward(heap: Heap, thrown: Value)
    requires Closed(heap) && InHeap(heap, thrown)
  {
    var order := Visited(heap, thrown);
    forall i, j :: 0 <= i < j < |order| && heap[order[i]].Object? && heap[order[j]].Object? ==>
      !Reachable(heap, [Ref(order[j])], {}, order[i])
  }

  lemma InnermostIsUnbeaten(heap: Heap, other: Heap, thrown: Value, leads: (nat, nat) -> bool)
    requires Closed(heap) && InHeap(heap, thrown) && SameShape(heap, other)
    requires forall x: nat, y: nat :: leads(y, x) <==> Reachable(heap, [Ref(x)], {}, y)
    ensures InnermostReported(other, thrown) <==> Unbeaten(other, thrown, leads)
  {
    var order := Visited(other, thrown);
    var reported := LastSpeaker(other, order);
    if reported.Some? {
      LastMessageIsItsSpeakers(other, order);
      var s := reported.value;
      assert s in order;
      forall y <- other
        ensures Reachable(other, [Ref(s)], {}, y) <==> leads(y, s)
        ensures Reachable(other, [Ref(s)], {}, y) ==> y in order
      {
        ShapeDecidesReach(heap, other, s, y);
        if Reachable(other, [Ref(s)], {}, y) {
          var path :| IsPath(other, path, {}) && Ref(path[0]) in [Ref(s)] && path[|path| - 1] == y;
          PathStaysVisited(other, thrown, path, |path| - 1);
        }
      }
    }
  }

  /**
   The innermost message wins, whoever in the structure has one, if and only if no object leads back
   to an object visited before it.
   */
  lemma InnermostReportedIff(heap: Heap, thrown: Value)
    requires Closed(heap) && InHeap(heap, thrown)
    ensures LeadsOnlyForward(heap, thrown) <==>
            forall other: Heap | SameShape(heap, other) :: InnermostReported(other, thrown)
  {
    ghost var leads: (nat, nat) -> bool := (y: nat, x: nat) => Reachable(heap, [Ref(x)], {}, y);
    UnbeatenIff(heap, thrown, leads);
    forall other: Heap | SameShape(heap, other)
      ensures InnermostReported(other, thrown) <==> Unbeaten(other, thrown, leads)
    {
      InnermostIsUnbeaten(heap, other, thrown, leads);
    }
  }

  /** The reported object is at least as deep as any other with a message. */
  ghost predicate DeepestReported(heap: Heap, thrown: Value, depth: nat -> int)
    requires Closed(heap) && InHeap(heap, thrown)
  {
    var order := Visited(heap, thrown);
    var reported := LastSpeaker(heap, order);
    reported.Some? ==> forall y <- order :: MessageOf(heap, y).Some? ==> depth(y) <= depth(reported.value)
  }

  /**
   However depth is measured, the deepest message wins, whoever in the structure has one, if and only
   if depth never falls from one object to another visited later.
   */
  lemma DeepestReportedIff(heap: Heap, thrown: Value, depth: nat -> int)
    requires Closed(heap) && InHeap(heap, thrown)
    ensures (forall other: Heap | SameShape(heap, other) :: DeepestReported(other, thrown, depth)) <==>
            var order := Visited(heap, thrown);
            forall i, j :: 0 <= i < j < |order| && heap[order[i]].Object? && heap[order[j]].Object? ==>
              depth(order[i]) <= depth(order[j])
  {
    var deeper := (y: nat, x: nat) => depth(y) > depth(x);
    UnbeatenIff(heap, thrown, deeper);
    forall other: Heap | SameShape(heap, other)
      ensures DeepestReported(other, thrown, depth) <==> Unbeaten(other, thrown, deeper)
    {
    }
  }

  // --- a plan that failed twice ------------------------------------------------------------------------

  predicate OnlyAt(values: seq<Value>, k: nat, child: nat)
    requires k < |values|
  {
    values[k] == Ref(child) && forall i :: 0 <= i < |values| && i != k ==> !values[i].Ref?
  }

  /** An object with a single child, at one of its keys. */
  ghost predicate OneChild(heap: Heap, id: nat, child: nat) {
    id in heap && exists k :: 0 <= k < |Children(heap[id])| && OnlyAt(Children(heap[id]), k, child)
  }

  ghost predicate IsLeaf(heap: Heap, id: nat) {
    id in heap && forall i :: 0 <= i < |Children(heap[id])| ==> !Children(heap[id])[i].Ref?
  }

  lemma VisitOneChild(heap: Heap, id: nat, child: nat, seen: set<nat>)
    requires Closed(heap) && OneChild(heap, id, child) && id !in seen
    ensures child in heap
    ensures Preorder(heap, [Ref(id)], seen) == [id] + Preorder(heap, [Ref(child)], seen + {id})
  {
    var all := Children(heap[id]);
    var k :| 0 <= k < |all| && OnlyAt(all, k, child);
    ChildrenInHeap(heap, id);
    PreorderOfOne(heap, Ref(id), seen);
    OnlyRef(heap, all, k, seen + {id});
  }

  lemma OnlyRef(heap: Heap, all: seq<Value>, k: nat, seen: set<nat>)
    requires Closed(heap) && AllInHeap(heap, all) && k < |all|
    requires forall i :: 0 <= i < |all| && i != k ==> !all[i].Ref?
    ensures InHeap(heap, all[k]) && Preorder(heap, all, seen) == Preorder(heap, [all[k]], seen)
  {
    NothingToVisit(heap, all[..k], seen);
    PreorderSplits(heap, all[..k], all[k..], seen);
    assert all[..k] + all[k..] == all;
    assert seen + Elements([]) == seen;
    PreorderSplits(heap, [all[k]], all[k + 1..], seen);
    NothingToVisit(heap, all[k + 1..], seen + Elements(Preorder(heap, [all[k]], seen)));
    assert [all[k]] + all[k + 1..] == all[k..];
  }

  lemma VisitLeaf(heap: Heap, id: nat, seen: set<nat>)
    requires Closed(heap) && IsLeaf(heap, id) && id !in seen
    ensures Preorder(heap, [Ref(id)], seen) == [id]
  {
    PreorderOfOne(heap, Ref(id), seen);
    NothingToVisit(heap, Children(heap[id]), seen + {id});
  }

  /**
   As the executor throws it: a wrapper around the results of two plans, each with an error. The
   first error has a cause of its own, the second has none.
   */
  ghost predicate TwoPlans(heap: Heap) {
    && Closed(heap) && heap.Keys == {0, 1, 2, 3, 4, 5, 6, 7}
    && OneChild(heap, 0, 1) && OneChild(heap, 1, 2)
    && Children(heap[2]) == [Ref(3), Ref(6)]
    && OneChild(heap, 3, 4) && OneChild(heap, 4, 5) && IsLeaf(heap, 5)
    && OneChild(heap, 6, 7) && IsLeaf(heap, 7)
  }

  lemma OrderOfFirstPlan(heap: Heap, seen: set<nat>)
    requires TwoPlans(heap) && 3 !in seen && 4 !in seen && 5 !in seen
    ensures Preorder(heap, [Ref(3)], seen) == [3, 4, 5]
  {
    VisitOneChild(heap, 3, 4, seen);
    VisitOneChild(heap, 4, 5, seen + {3});
    VisitLeaf(heap, 5, seen + {3} + {4});
  }

  lemma OrderOfSecondPlan(heap: Heap, seen: set<nat>)
    requires TwoPlans(heap) && 6 !in seen && 7 !in seen
    ensures Preorder(heap, [Ref(6)], seen) == [6, 7]
  {
    VisitOneChild(heap, 6, 7, seen);
    VisitLeaf(heap, 7, seen + {6});
  }

  lemma OrderOfBothPlans(heap: Heap, seen: set<nat>)
    requires TwoPlans(heap) && forall id: nat :: id in seen ==> id < 3
    ensures Preorder(heap, [Ref(3), Ref(6)], seen) == [3, 4, 5, 6, 7]
  {
    OrderOfFirstPlan(heap, seen);
    OrderOfSecondPlan(heap, seen + Elements([3, 4, 5]));
    PreorderSplits(heap, [Ref(3)], [Ref(6)], seen);
    assert [Ref(3)] + [Ref(6)] == [Ref(3), Ref(6)];
  }

  lemma OrderOfPlans(heap: Heap, seen: set<nat>)
    requires TwoPlans(heap) && forall id: nat :: id in seen ==> id < 2
    ensures Preorder(heap, [Ref(2)], seen) == [2, 3, 4, 5, 6, 7]
  {
    PreorderOfOne(heap, Ref(2), seen);
    OrderOfBothPlans(heap, seen + {2});
  }

  lemma OrderOfFailures(heap: Heap)
    requires TwoPlans(heap)
    ensures Visited(heap, Ref(0)) == [0, 1, 2, 3, 4, 5, 6, 7]
  {
    VisitOneChild(heap, 0, 1, {});
    VisitOneChild(heap, 1, 2, {} + {0});
    OrderOfPlans(heap, {} + {0} + {1});
  }

  /** How many links from the thrown object. */
  function Depth(id: nat): int {
    if id < 6 then id else id - 3
  }

  lemma TheOneChild(heap: Heap, id: nat, child: nat, x: nat)
    requires OneChild(heap, id, child) && Ref(x) in Children(heap[id])
    ensures x == child
  {
    var i :| 0 <= i < |Children(heap[id])| && Children(heap[id])[i] == Ref(x);
  }

  lemma DepthOfFailures(heap: Heap, id: nat, child: nat)
    requires TwoPlans(heap) && id in heap && Ref(child) in Children(heap[id])
    ensures Depth(child) == Depth(id) + 1
  {
    if id == 0 { TheOneChild(heap, 0, 1, child); }
    if id == 1 { TheOneChild(heap, 1, 2, child); }
    if id == 3 { TheOneChild(heap, 3, 4, child); }
    if id == 4 { TheOneChild(heap, 4, 5, child); }
    if id == 6 { TheOneChild(heap, 6, 7, child); }
  }

  /**
   It is not the deepest message that wins: of such a plan the second error is reported, although
   the cause of the first sits one level further down.
   */
  lemma DeepestIsNotAlwaysReported(heap: Heap)
    requires TwoPlans(heap) && MessageOf(heap, 5).Some? && MessageOf(heap, 7).Some?
    ensures LastSpeaker(heap, Visited(heap, Ref(0))) == Some(7)
    ensures 5 in Visited(heap, Ref(0)) && Depth(5) > Depth(7) && !DeepestReported(heap, Ref(0), Depth)
  {
    OrderOfFailures(heap);
    var order := Visited(heap, Ref(0));
    assert order[5] == 5 && order[7] == 7;
    LastMessageIsItsSpeakers(heap, order);
    var p := LastSpeakerAt(heap, order);
    assert p == 7;
  }

  const FAILED_TWICE: Heap := map[
    0 := Object(map["message" := Str("failed to execute"), "transactionPlanResult" := Ref(1)]),
    1 := Object(map["plans" := Ref(2)]),
    2 := Array([Ref(3), Ref(6)]),
    3 := Object(map["error" := Ref(4)]),
    4 := Object(map["message" := Str("simulation failed"), "cause" := Ref(5)]),
    5 := Object(map["message" := Str("no funds")]),
    6 := Object(map["error" := Ref(7)]),
    7 := Object(map["message" := Str("expired")])]

  lemma KeysDiffer()
    ensures forall i, j :: 0 <= i < j < |DESCEND| ==> DESCEND[i] != DESCEND[j]
  {
    assert DESCEND[2][0] == 'e' && DESCEND[3][0] == 'c' && DESCEND[1][0] == 'p' && DESCEND[6][0] == 'v';
  }

  /** Nothing but a message and one link. */
  lemma LinkAndMessage(heap: Heap, id: nat, k: nat, child: nat)
    requires id in heap && heap[id].Object? && k < |DESCEND|
    requires heap[id].fields.Keys <= {DESCEND[k], "message"} && Field(heap[id].fields, DESCEND[k]) == Ref(child)
    ensures OneChild(heap, id, child)
  {
    KeysDiffer();
    MessagesAreNotDescended();
    assert OnlyAt(Children(heap[id]), k, child);
  }

  lemma OnlyAMessage(heap: Heap, id: nat)
    requires id in heap && heap[id].Object? && heap[id].fields.Keys <= {"message"}
    ensures IsLeaf(heap, id)
  {
    MessagesAreNotDescended();
  }

  lemma FailedTwiceIsAPlan()
    ensures Closed(FAILED_TWICE) && FAILED_TWICE.Keys == {0, 1, 2, 3, 4, 5, 6, 7}
    ensures Children(FAILED_TWICE[2]) == [Ref(3), Ref(6)]
  {
  }

  lemma FailedTwiceBegins()
    ensures OneChild(FAILED_TWICE, 0, 1) && OneChild(FAILED_TWICE, 1, 2) && OneChild(FAILED_TWICE, 3, 4)
  {
    LinkAndMessage(FAILED_TWICE, 0, 0, 1);
    LinkAndMessage(FAILED_TWICE, 1, 1, 2);
    LinkAndMessage(FAILED_TWICE, 3, 2, 4);
  }

  lemma FailedTwiceEnds()
    ensures OneChild(FAILED_TWICE, 4, 5) && IsLeaf(FAILED_TWICE, 5)
    ensures OneChild(FAILED_TWICE, 6, 7) && IsLeaf(FAILED_TWICE, 7)
  {
    LinkAndMessage(FAILED_TWICE, 4, 3, 5);
    LinkAndMessage(FAILED_TWICE, 6, 2, 7);
    OnlyAMessage(FAILED_TWICE, 5);
    OnlyAMessage(FAILED_TWICE, 7);
  }

  lemma FailedTwiceSpeaks()
    ensures MessageOf(FAILED_TWICE, 5) == Some("no funds") && MessageOf(FAILED_TWICE, 7) == Some("expired")
  {
    NothingToTrim("no funds");
    NothingToTrim("expired");
  }

  /** And this is such a plan. */
  lemma FailedTwice()
    ensures TwoPlans(FAILED_TWICE) && MessageOf(FAILED_TWICE, 5).Some? && MessageOf(FAILED_TWICE, 7).Some?
  {
    FailedTwiceIsAPlan();
    FailedTwiceBegins();
    FailedTwiceEnds();
    FailedTwiceSpeaks();
  }
}
