/**
 Making a failed send readable (`clients/js/src/errors.ts`): a depth-first walk over whatever was
 thrown, which may be cyclic, collecting messages and the first program logs.

 The thrown structure is a finite heap of objects and arrays. `Preorder` is the plain definition of
 the visit, a worklist with a seen set; the recursive method of the source is proved to follow it.
 The two regular expressions that read an Anchor log line are parameters.
 */
module SendErrors {
  import opened Results
  import opened Text

  /** What a field or an array slot can hold; `Scalar` is any value that is neither text nor object. */
  datatype Value = Absent | Str(text: string) | Scalar | Ref(id: nat)

  datatype Node =
    | Array(items: seq<Value>)
    | Object(fields: map<string, Value>)

  type Heap = map<nat, Node>

  /** The keys worth descending, in the order they are descended. */
  const DESCEND: seq<string> := [
    "transactionPlanResult", "plans", "error", "cause", "context",
    "data", "value", "err", "abortReason", "preflightData"]

  predicate InHeap(heap: Heap, v: Value) {
    v.Ref? ==> v.id in heap
  }

  /** No reference dangles. */
  predicate Closed(heap: Heap) {
    forall id <- heap ::
      match heap[id]
      case Array(items) => forall i :: 0 <= i < |items| ==> InHeap(heap, items[i])
      case Object(fields) => forall key <- fields :: InHeap(heap, fields[key])
  }

  function Field(fields: map<string, Value>, key: string): Value {
    if key in fields then fields[key] else Absent
  }

  /** What the walk descends into from a node, in order. */
  function Children(node: Node): seq<Value> {
    match node
    case Array(items) => items
    case Object(fields) => seq(|DESCEND|, i requires 0 <= i < |DESCEND| => Field(fields, DESCEND[i]))
  }

  /** `isStringArray(v) ? v : undefined`. */
  function Strings(heap: Heap, v: Value): Option<seq<string>>
    requires InHeap(heap, v)
  {
    if v.Ref? && heap[v.id].Array? && forall i :: 0 <= i < |heap[v.id].items| ==> heap[v.id].items[i].Str?
    then
      var items := heap[v.id].items;
      Some(seq(|items|, i requires 0 <= i < |items| => items[i].text))
    else None
  }

  function LogsOf(heap: Heap, id: nat): Option<seq<string>>
    requires Closed(heap) && id in heap
  {
    match heap[id]
    case Array(_) => None
    case Object(fields) => Strings(heap, Field(fields, "logs"))
  }

  function MessageOf(heap: Heap, id: nat): Option<string>
    requires id in heap
  {
    match heap[id]
    case Array(_) => None
    case Object(fields) =>
      var m := Field(fields, "message");
      if m.Str? && Trim(m.text) != "" then Some(m.text) else None
  }

  /** The ten keys followed out of an object, in their order; out of an array, all its elements. */
  lemma FollowedKeys(fields: map<string, Value>, items: seq<Value>)
    ensures Children(Array(items)) == items
    ensures var c := Children(Object(fields));
      && |c| == 10
      && c[0] == Field(fields, "transactionPlanResult") && c[1] == Field(fields, "plans")
      && c[2] == Field(fields, "error") && c[3] == Field(fields, "cause") && c[4] == Field(fields, "context")
      && c[5] == Field(fields, "data") && c[6] == Field(fields, "value") && c[7] == Field(fields, "err")
      && c[8] == Field(fields, "abortReason") && c[9] == Field(fields, "preflightData")
  {
    assert |DESCEND| == 10;
    var c := Children(Object(fields));
    assert forall i :: 0 <= i < 10 ==> c[i] == Field(fields, DESCEND[i]);
    assert DESCEND[0] == "transactionPlanResult" && DESCEND[1] == "plans" && DESCEND[2] == "error";
    assert DESCEND[3] == "cause" && DESCEND[4] == "context" && DESCEND[5] == "data";
    assert DESCEND[6] == "value" && DESCEND[7] == "err" && DESCEND[8] == "abortReason";
    assert DESCEND[9] == "preflightData";
  }

  /** A field that is not there leads nowhere. */
  lemma FieldIs(fields: map<string, Value>, key: string)
    ensures key in fields ==> Field(fields, key) == fields[key]
    ensures key !in fields ==> !Field(fields, key).Ref?
  {
  }

  /** A message is collected as it stands, and never when it is blank. */
  lemma CollectedMessage(heap: Heap, id: nat, text: string)
    requires id in heap
    ensures MessageOf(heap, id) == Some(text) <==>
            && heap[id].Object? && "message" in heap[id].fields && heap[id].fields["message"] == Str(text)
            && exists c <- text :: !IsSpace(c)
  {
    BlankIffAllSpaces(text);
  }

  /** Logs are taken from an object's `logs`, when that is an array of nothing but text. */
  lemma CollectedLogs(heap: Heap, id: nat, lines: seq<string>)
    requires Closed(heap) && id in heap
    ensures LogsOf(heap, id) == Some(lines) <==>
            && heap[id].Object? && "logs" in heap[id].fields && heap[id].fields["logs"].Ref?
            && var logs := heap[heap[id].fields["logs"].id];
            && logs.Array? && |logs.items| == |lines|
            && forall i :: 0 <= i < |lines| ==> logs.items[i] == Str(lines[i])
  {
    if LogsOf(heap, id).Some? {
      assert heap[id].Object? && "logs" in heap[id].fields && heap[id].fields["logs"].Ref?;
    }
    if heap[id].Object? && "logs" in heap[id].fields && heap[id].fields["logs"].Ref? {
      var logs := heap[heap[id].fields["logs"].id];
      if logs.Array? && |logs.items| == |lines| && forall i :: 0 <= i < |lines| ==> logs.items[i] == Str(lines[i]) {
        assert LogsOf(heap, id).value == lines;
      }
    }
  }

  // --- the order of the visit ------------------------------------------------------------------------

  predicate AllInHeap(heap: Heap, todo: seq<Value>) {
    forall i :: 0 <= i < |todo| ==> InHeap(heap, todo[i])
  }

  lemma ChildrenInHeap(heap: Heap, id: nat)
    requires Closed(heap) && id in heap
    ensures AllInHeap(heap, Children(heap[id]))
  {
  }

  /** The objects visited from `todo`, in order, when those in `seen` have been visited already. */
  function Preorder(heap: Heap, todo: seq<Value>, seen: set<nat>): seq<nat>
    requires Closed(heap) && AllInHeap(heap, todo)
    decreases heap.Keys - seen, |todo|
  {
    if todo == [] then []
    else if todo[0].Ref? && todo[0].id !in seen then
      var id := todo[0].id;
      ChildrenInHeap(heap, id);
      [id] + Preorder(heap, Children(heap[id]) + todo[1..], seen + {id})
    else Preorder(heap, todo[1..], seen)
  }

  function Elements(s: seq<nat>): set<nat> {
    set x <- s
  }

  lemma SeenThrough(id: nat, visited: seq<nat>, seen: set<nat>)
    ensures seen + {id} + Elements(visited) == seen + Elements([id] + visited)
  {
  }

  lemma Prepend(id: nat, a: seq<nat>, b: seq<nat>)
    ensures [id] + (a + b) == ([id] + a) + b
  {
  }

  /** Visiting a longer list is visiting its front, and then its back with more already seen. */
  lemma {:induction false} PreorderSplits(heap: Heap, front: seq<Value>, back: seq<Value>, seen: set<nat>)
    requires Closed(heap) && AllInHeap(heap, front) && AllInHeap(heap, back)
    ensures Preorder(heap, front + back, seen)
      == Preorder(heap, front, seen) + Preorder(heap, back, seen + Elements(Preorder(heap, front, seen)))
    decreases heap.Keys - seen, |front|
  {
    if front == [] {
      assert front + back == back;
      assert seen + Elements([]) == seen;
    } else {
      assert (front + back)[1..] == front[1..] + back;
      if front[0].Ref? && front[0].id !in seen {
        var id := front[0].id;
        ChildrenInHeap(heap, id);
        var first := Children(heap[id]) + front[1..];
        assert Children(heap[id]) + (front[1..] + back) == first + back;
        PreorderSplits(heap, first, back, seen + {id});
        var visited := Preorder(heap, first, seen + {id});
        SeenThrough(id, visited, seen);
        Prepend(id, visited, Preorder(heap, back, seen + Elements([id] + visited)));
      } else {
        PreorderSplits(heap, front[1..], back, seen);
      }
    }
  }

  /** Each object is visited at most once, and none that was seen before. */
  lemma {:induction false} VisitedOnce(heap: Heap, todo: seq<Value>, seen: set<nat>)
    requires Closed(heap) && AllInHeap(heap, todo)
    ensures var order := Preorder(heap, todo, seen);
      && AreIds(heap, order)
      && (forall i :: 0 <= i < |order| ==> order[i] !in seen)
      && (forall i, j :: 0 <= i < j < |order| ==> order[i] != order[j])
    decreases heap.Keys - seen, |todo|
  {
    if todo != [] {
      if todo[0].Ref? && todo[0].id !in seen {
        var id := todo[0].id;
        ChildrenInHeap(heap, id);
        VisitedOnce(heap, Children(heap[id]) + todo[1..], seen + {id});
        var later := Preorder(heap, Children(heap[id]) + todo[1..], seen + {id});
        assert Preorder(heap, todo, seen) == [id] + later;
        assert forall j :: 0 <= j < |later| ==> later[j] != id;
      } else {
        VisitedOnce(heap, todo[1..], seen);
        assert Preorder(heap, todo, seen) == Preorder(heap, todo[1..], seen);
      }
    }
  }

  ghost predicate AreIds(heap: Heap, order: seq<nat>) {
    forall i :: 0 <= i < |order| ==> order[i] in heap
  }

  // --- reachability --------------------------------------------------------------------------------

  /** A chain of objects, each among the children of the one before, keeping out of `avoiding`. */
  ghost predicate IsPath(heap: Heap, path: seq<nat>, avoiding: set<nat>) {
    && |path| > 0
    && (forall i :: 0 <= i < |path| ==> path[i] in heap && path[i] !in avoiding)
    && (forall i :: 0 <= i < |path| - 1 ==> Ref(path[i + 1]) in Children(heap[path[i]]))
  }

  ghost predicate Reachable(heap: Heap, roots: seq<Value>, avoiding: set<nat>, x: nat) {
    exists path :: IsPath(heap, path, avoiding) && Ref(path[0]) in roots && path[|path| - 1] == x
  }

  lemma PathLengthens(heap: Heap, id: nat, path: seq<nat>, seen: set<nat>)
    requires id in heap && id !in seen && IsPath(heap, path, seen + {id})
    ensures IsPath(heap, path, seen)
    ensures Ref(path[0]) in Children(heap[id]) ==> IsPath(heap, [id] + path, seen)
  {
    var longer := [id] + path;
    assert forall i :: 0 < i < |longer| ==> longer[i] == path[i - 1];
  }

  /** A path from an object's children or from elsewhere is a path from the object or from elsewhere. */
  lemma ReachableThrough(heap: Heap, id: nat, others: seq<Value>, seen: set<nat>, x: nat)
    requires id in heap && id !in seen
    requires Reachable(heap, Children(heap[id]) + others, seen + {id}, x)
    ensures Reachable(heap, [Ref(id)] + others, seen, x)
  {
    var next := Children(heap[id]) + others;
    var path :| IsPath(heap, path, seen + {id}) && Ref(path[0]) in next && path[|path| - 1] == x;
    PathLengthens(heap, id, path, seen);
    if Ref(path[0]) in Children(heap[id]) {
      var longer := [id] + path;
      assert Ref(longer[0]) == ([Ref(id)] + others)[0] && longer[|longer| - 1] == x;
    }
  }

  /** Everything visited was reachable, without passing through what had been seen. */
  lemma {:induction false} VisitedIsReachable(heap: Heap, todo: seq<Value>, seen: set<nat>, x: nat)
    requires Closed(heap) && AllInHeap(heap, todo) && x in Preorder(heap, todo, seen)
    ensures Reachable(heap, todo, seen, x)
    decreases heap.Keys - seen, |todo|
  {
    if todo[0].Ref? && todo[0].id !in seen {
      var id := todo[0].id;
      assert todo == [Ref(id)] + todo[1..];
      if x == id {
        assert IsPath(heap, [id], seen) && Ref([id][0]) in todo;
      } else {
        ChildrenInHeap(heap, id);
        VisitedIsReachable(heap, Children(heap[id]) + todo[1..], seen + {id}, x);
        ReachableThrough(heap, id, todo[1..], seen, x);
      }
    } else {
      VisitedIsReachable(heap, todo[1..], seen, x);
      var path :| IsPath(heap, path, seen) && Ref(path[0]) in todo[1..] && path[|path| - 1] == x;
    }
  }

  /** The roots, and the children of everything visited, end up visited or were seen before. */
  lemma {:induction false} VisitIsClosed(heap: Heap, todo: seq<Value>, seen: set<nat>, y: nat)
    requires Closed(heap) && AllInHeap(heap, todo)
    ensures Ref(y) in todo ==> y in seen || y in Preorder(heap, todo, seen)
    ensures forall x <- Preorder(heap, todo, seen) ::
      x in heap && (Ref(y) in Children(heap[x]) ==> y in seen || y in Preorder(heap, todo, seen))
    decreases heap.Keys - seen, |todo|
  {
    if todo != [] {
      if todo[0].Ref? && todo[0].id !in seen {
        var id := todo[0].id;
        ChildrenInHeap(heap, id);
        VisitIsClosed(heap, Children(heap[id]) + todo[1..], seen + {id}, y);
      } else {
        VisitIsClosed(heap, todo[1..], seen, y);
      }
    }
  }

  lemma {:induction false} PathIsVisited(heap: Heap, todo: seq<Value>, seen: set<nat>, path: seq<nat>, i: nat)
    requires Closed(heap) && AllInHeap(heap, todo)
    requires IsPath(heap, path, seen) && Ref(path[0]) in todo && i < |path|
    ensures path[i] in Preorder(heap, todo, seen)
  {
    VisitIsClosed(heap, todo, seen, path[i]);
    if i > 0 {
      PathIsVisited(heap, todo, seen, path, i - 1);
      assert Ref(path[i - 1 + 1]) in Children(heap[path[i - 1]]);
    }
  }

  /** The walk visits exactly the reachable objects, on any heap, cyclic or not. */
  lemma VisitsExactlyTheReachable(heap: Heap, todo: seq<Value>, seen: set<nat>, x: nat)
    requires Closed(heap) && AllInHeap(heap, todo)
    ensures x in Preorder(heap, todo, seen) <==> Reachable(heap, todo, seen, x)
  {
    if x in Preorder(heap, todo, seen) {
      VisitedIsReachable(heap, todo, seen, x);
    }
    if Reachable(heap, todo, seen, x) {
      var path :| IsPath(heap, path, seen) && Ref(path[0]) in todo && path[|path| - 1] == x;
      PathIsVisited(heap, todo, seen, path, |path| - 1);
    }
  }

  lemma SeenSoFar(id: nat, later: seq<nat>, seen: set<nat>, p: nat)
    requires 0 < p <= |later|
    ensures var order := [id] + later;
      && order[p] == later[p - 1] && order[p..] == later[p - 1..]
      && seen + {id} + Elements(later[..p - 1]) == seen + Elements(order[..p])
  {
    var order := [id] + later;
    assert order[..p] == [id] + later[..p - 1];
  }

  /** From any point on, the visit is that of the object there and of some list still to do. */
  lemma {:induction false} VisitFrom(heap: Heap, todo: seq<Value>, seen: set<nat>, p: nat) returns (rest: seq<Value>)
    requires Closed(heap) && AllInHeap(heap, todo) && p < |Preorder(heap, todo, seen)|
    ensures var order := Preorder(heap, todo, seen);
      && order[p] in heap && AllInHeap(heap, [Ref(order[p])] + rest)
      && order[p..] == Preorder(heap, [Ref(order[p])] + rest, seen + Elements(order[..p]))
    decreases heap.Keys - seen, |todo|
  {
    var order := Preorder(heap, todo, seen);
    if todo[0].Ref? && todo[0].id !in seen {
      var id := todo[0].id;
      ChildrenInHeap(heap, id);
      if p == 0 {
        rest := todo[1..];
        assert [Ref(id)] + rest == todo;
        assert seen + Elements(order[..0]) == seen;
      } else {
        var next := Children(heap[id]) + todo[1..];
        rest := VisitFrom(heap, next, seen + {id}, p - 1);
        SeenSoFar(id, Preorder(heap, next, seen + {id}), seen, p);
      }
    } else {
      rest := VisitFrom(heap, todo[1..], seen, p);
    }
  }

  // --- what is collected ------------------------------------------------------------------------------

  ghost function Messages(heap: Heap, order: seq<nat>): seq<string>
    requires AreIds(heap, order)
  {
    if order == [] then []
    else
      var m := MessageOf(heap, order[0]);
      (if m.Some? then [m.value] else []) + Messages(heap, order[1..])
  }

  ghost function FirstLogs(heap: Heap, order: seq<nat>): Option<seq<string>>
    requires Closed(heap) && AreIds(heap, order)
  {
    if order == [] then None
    else if LogsOf(heap, order[0]).Some? then LogsOf(heap, order[0])
    else FirstLogs(heap, order[1..])
  }

  /** The logs reported are those of the first object in the order that has any. */
  lemma {:induction false} FirstLogsAre(heap: Heap, order: seq<nat>)
    requires Closed(heap) && AreIds(heap, order)
    ensures FirstLogs(heap, order).None? <==> forall i :: 0 <= i < |order| ==> LogsOf(heap, order[i]).None?
    ensures FirstLogs(heap, order).Some? ==>
      exists p :: 0 <= p < |order| && LogsOf(heap, order[p]) == FirstLogs(heap, order)
        && forall i :: 0 <= i < p ==> LogsOf(heap, order[i]).None?
  {
    if order != [] && LogsOf(heap, order[0]).None? {
      var rest := order[1..];
      FirstLogsAre(heap, rest);
      if FirstLogs(heap, rest).Some? {
        var p :| 0 <= p < |rest| && LogsOf(heap, rest[p]) == FirstLogs(heap, rest)
          && forall i :: 0 <= i < p ==> LogsOf(heap, rest[i]).None?;
        assert LogsOf(heap, order[p + 1]) == FirstLogs(heap, order);
        forall i | 0 <= i < p + 1
          ensures LogsOf(heap, order[i]).None?
        {
          assert i > 0 ==> order[i] == rest[i - 1];
        }
      } else {
        assert forall i :: 0 < i < |order| ==> order[i] == rest[i - 1];
      }
    }
  }

  lemma {:induction false} CollectingSplits(heap: Heap, a: seq<nat>, b: seq<nat>)
    requires Closed(heap) && AreIds(heap, a) && AreIds(heap, b)
    ensures Messages(heap, a + b) == Messages(heap, a) + Messages(heap, b)
    ensures FirstLogs(heap, a + b) == if FirstLogs(heap, a).Some? then FirstLogs(heap, a) else FirstLogs(heap, b)
  {
    if a == [] {
      assert a + b == b;
    } else {
      assert (a + b)[1..] == a[1..] + b;
      CollectingSplits(heap, a[1..], b);
    }
  }

  /** The last object in the order that has something to say. */
  ghost function LastSpeaker(heap: Heap, order: seq<nat>): Option<nat>
    requires AreIds(heap, order)
  {
    if order == [] then None
    else
      var later := LastSpeaker(heap, order[1..]);
      if later.Some? then later
      else if MessageOf(heap, order[0]).Some? then Some(order[0])
      else None
  }

  /** Its message is the last one collected; nothing after it speaks. */
  lemma {:induction false} LastMessageIsItsSpeakers(heap: Heap, order: seq<nat>)
    requires AreIds(heap, order)
    ensures LastSpeaker(heap, order).None? <==> Messages(heap, order) == []
    ensures LastSpeaker(heap, order).None? <==> forall i :: 0 <= i < |order| ==> MessageOf(heap, order[i]).None?
    ensures LastSpeaker(heap, order).Some? ==>
      exists p :: 0 <= p < |order| && order[p] == LastSpeaker(heap, order).value
        && MessageOf(heap, order[p]) == Some(Messages(heap, order)[|Messages(heap, order)| - 1])
        && forall i :: p < i < |order| ==> MessageOf(heap, order[i]).None?
  {
    if order != [] {
      var tail := order[1..];
      LastMessageIsItsSpeakers(heap, tail);
      assert forall i :: 0 < i < |order| ==> order[i] == tail[i - 1];
      if LastSpeaker(heap, tail).Some? {
        var q :| 0 <= q < |tail| && tail[q] == LastSpeaker(heap, tail).value
          && MessageOf(heap, tail[q]) == Some(Messages(heap, tail)[|Messages(heap, tail)| - 1])
          && forall i :: q < i < |tail| ==> MessageOf(heap, tail[i]).None?;
        assert order[q + 1] == tail[q];
        var own := if MessageOf(heap, order[0]).Some? then [MessageOf(heap, order[0]).value] else [];
        assert Messages(heap, order) == own + Messages(heap, tail);
      }
    }
  }

  // --- the walk, as the source runs it -----------------------------------------------------------------

  datatype Found = Found(seen: set<nat>, messages: seq<string>, logs: Option<seq<string>>)

  /** What has been found once the objects in `order` have been visited too. */
  ghost function After(heap: Heap, f: Found, order: seq<nat>): Found
    requires Closed(heap) && AreIds(heap, order)
  {
    Found(f.seen + Elements(order), f.messages + Messages(heap, order),
          if f.logs.Some? then f.logs else FirstLogs(heap, order))
  }

  lemma AfterSplits(heap: Heap, f: Found, a: seq<nat>, b: seq<nat>)
    requires Closed(heap) && AreIds(heap, a) && AreIds(heap, b)
    ensures After(heap, f, a + b) == After(heap, After(heap, f, a), b)
  {
    CollectingSplits(heap, a, b);
    assert Elements(a + b) == Elements(a) + Elements(b);
  }

  lemma AfterOne(heap: Heap, f: Found, id: nat)
    requires Closed(heap) && id in heap
    ensures After(heap, f, [id]) == Found(
      f.seen + {id},
      f.messages + (if MessageOf(heap, id).Some? then [MessageOf(heap, id).value] else []),
      if f.logs.Some? then f.logs else LogsOf(heap, id))
  {
    assert [id][1..] == [];
    assert Messages(heap, [id][1..]) == [] && FirstLogs(heap, [id][1..]) == None;
    assert Elements([id]) == {id};
  }

  lemma AfterNothing(heap: Heap, f: Found)
    requires Closed(heap)
    ensures After(heap, f, []) == f
  {
    assert f.seen + Elements([]) == f.seen;
  }

  /** The visit of one unseen object: itself, then its children with it seen. */
  lemma PreorderOfOne(heap: Heap, v: Value, seen: set<nat>)
    requires Closed(heap) && InHeap(heap, v)
    ensures v.Ref? && v.id !in seen ==>
      AllInHeap(heap, Children(heap[v.id]))
      && Preorder(heap, [v], seen) == [v.id] + Preorder(heap, Children(heap[v.id]), seen + {v.id})
    ensures !(v.Ref? && v.id !in seen) ==> Preorder(heap, [v], seen) == []
  {
    assert [v][1..] == [];
    if v.Ref? {
      ChildrenInHeap(heap, v.id);
      assert Children(heap[v.id]) + [] == Children(heap[v.id]);
    }
  }

  class Walk {
    const heap: Heap
    var seen: set<nat>
    var messages: seq<string>
    var logs: Option<seq<string>>

    constructor (heap: Heap)
      ensures this.heap == heap && View() == Found({}, [], None)
    {
      this.heap := heap;
      seen, messages, logs := {}, [], None;
    }

    ghost function View(): Found
      reads this
    {
      Found(seen, messages, logs)
    }

    /** An unseen object: it is marked, and its logs and message collected. */
    method Enter(id: nat)
      requires Closed(heap) && id in heap
      modifies this
      ensures View() == After(heap, old(View()), [id])
    {
      AfterOne(heap, View(), id);
      seen := seen + {id};
      var node := heap[id];
      if node.Object? {
        if logs.None? {
          logs := Strings(heap, Field(node.fields, "logs"));
        }
        var m := Field(node.fields, "message");
        if m.Str? && Trim(m.text) != "" {
          messages := messages + [m.text];
        }
      }
    }

    /** The recursive visit: it terminates, and finds exactly what the plain order says. */
    method Visit(v: Value)
      requires Closed(heap) && InHeap(heap, v)
      modifies this
      ensures AreIds(heap, Preorder(heap, [v], old(seen)))
      ensures View() == After(heap, old(View()), Preorder(heap, [v], old(seen)))
      decreases heap.Keys - seen
    {
      ghost var start := View();
      VisitedOnce(heap, [v], seen);
      PreorderOfOne(heap, v, seen);
      if !v.Ref? || v.id in seen {
        AfterNothing(heap, start);
        return;
      }
      var todo := Children(heap[v.id]);
      Enter(v.id);
      ghost var entered := View();
      AfterOne(heap, start, v.id);
      AfterNothing(heap, entered);
      for k := 0 to |todo|
        invariant AreIds(heap, Preorder(heap, todo[..k], entered.seen))
        invariant View() == After(heap, entered, Preorder(heap, todo[..k], entered.seen))
      {
        VisitGoesOn(heap, entered, todo, k);
        Visit(todo[k]);
      }
      assert todo[..|todo|] == todo;
      AfterSplits(heap, start, [v.id], Preorder(heap, todo, entered.seen));
    }
  }

  /** Visiting the next child after its predecessors is visiting one more of them. */
  lemma VisitGoesOn(heap: Heap, f: Found, todo: seq<Value>, k: nat)
    requires Closed(heap) && AllInHeap(heap, todo) && k < |todo|
    ensures AreIds(heap, Preorder(heap, todo[..k], f.seen)) && AreIds(heap, Preorder(heap, todo[..k + 1], f.seen))
    ensures var g := After(heap, f, Preorder(heap, todo[..k], f.seen));
      && AreIds(heap, Preorder(heap, [todo[k]], g.seen))
      && After(heap, g, Preorder(heap, [todo[k]], g.seen)) == After(heap, f, Preorder(heap, todo[..k + 1], f.seen))
  {
    var soFar := Preorder(heap, todo[..k], f.seen);
    VisitedOnce(heap, todo[..k], f.seen);
    var next := Preorder(heap, [todo[k]], f.seen + Elements(soFar));
    VisitedOnce(heap, [todo[k]], f.seen + Elements(soFar));
    PreorderSplits(heap, todo[..k], [todo[k]], f.seen);
    assert todo[..k] + [todo[k]] == todo[..k + 1];
    AfterSplits(heap, f, soFar, next);
  }

  // --- the diagnosis ---------------------------------------------------------------------------------

  datatype Diagnosis = Diagnosis(message: string, logs: Option<seq<string>>)

  /** The first line that `read` makes something of. */
  ghost function FirstMatch(lines: seq<string>, read: string -> Option<string>): Option<string> {
    if lines == [] then None
    else if read(lines[0]).Some? then read(lines[0])
    else FirstMatch(lines[1..], read)
  }

  predicate Truthy(s: Option<string>) {
    s.Some? && s.value != ""
  }

  /** The program's own sentence, joined from the code and the message. */
  function Sentence(name: Option<string>, text: Option<string>): Option<string> {
    if Truthy(text) then Some(if Truthy(name) then text.value + " (" + name.value + ")" else text.value)
    else if Truthy(name) then Some("Refused: " + name.value)
    else None
  }

  ghost function AnchorSentence(
    logs: Option<seq<string>>, code: string -> Option<string>, text: string -> Option<string>): Option<string>
  {
    if logs.None? then None else Sentence(FirstMatch(logs.value, code), FirstMatch(logs.value, text))
  }

  /** It is the first in order: nothing before it is read as anything. */
  lemma {:induction false} FirstMatchIs(lines: seq<string>, read: string -> Option<string>)
    ensures FirstMatch(lines, read).None? <==> forall i :: 0 <= i < |lines| ==> read(lines[i]).None?
    ensures FirstMatch(lines, read).Some? ==>
      exists i :: 0 <= i < |lines| && read(lines[i]) == FirstMatch(lines, read)
        && forall j :: 0 <= j < i ==> read(lines[j]).None?
  {
    if lines != [] && read(lines[0]).None? {
      FirstMatchIs(lines[1..], read);
      if FirstMatch(lines[1..], read).Some? {
        var i :| 0 <= i < |lines[1..]| && read(lines[1..][i]) == FirstMatch(lines[1..], read)
          && forall j :: 0 <= j < i ==> read(lines[1..][j]).None?;
        assert read(lines[i + 1]) == FirstMatch(lines, read);
        forall j | 0 <= j < i + 1
          ensures read(lines[j]).None?
        {
          assert j > 0 ==> lines[j] == lines[1..][j - 1];
        }
      } else {
        assert forall i :: 0 < i < |lines| ==> lines[i] == lines[1..][i - 1];
      }
    }
  }

  /**
   How a sentence reads: the message found, with the code found in parentheses after it; without a
   message the code alone; without either there is none. What is found empty counts as not found.
   */
  predicate ReadsAs(sentence: Option<string>, code: Option<string>, message: Option<string>) {
    && (sentence.None? <==> (code.None? || code.value == "") && (message.None? || message.value == ""))
    && (message.Some? && message.value != "" ==>
          && |sentence.value| >= |message.value| && sentence.value[..|message.value|] == message.value
          && sentence.value[|message.value|..]
             == if code.Some? && code.value != "" then " (" + code.value + ")" else "")
    && (sentence.Some? && (message.None? || message.value == "") ==> sentence.value == "Refused: " + code.value)
  }

  lemma {:induction false} FirstMatchSplits(a: seq<string>, b: seq<string>, read: string -> Option<string>)
    ensures FirstMatch(a + b, read) == if FirstMatch(a, read).Some? then FirstMatch(a, read) else FirstMatch(b, read)
  {
    if a == [] {
      assert a + b == b;
    } else {
      assert (a + b)[1..] == a[1..] + b;
      FirstMatchSplits(a[1..], b, read);
    }
  }

  method AnchorMessage(logs: Option<seq<string>>, code: string -> Option<string>, text: string -> Option<string>)
    returns (sentence: Option<string>)
    ensures sentence == AnchorSentence(logs, code, text)
    ensures logs.None? ==> sentence == None
    ensures logs.Some? ==> ReadsAs(sentence, FirstMatch(logs.value, code), FirstMatch(logs.value, text))
  {
    if logs.None? {
      return None;
    }
    var lines := logs.value;
    var name: Option<string>, words: Option<string> := None, None;
    for i := 0 to |lines|
      invariant name == FirstMatch(lines[..i], code) && words == FirstMatch(lines[..i], text)
    {
      assert lines[..i + 1] == lines[..i] + [lines[i]];
      FirstMatchSplits(lines[..i], [lines[i]], code);
      FirstMatchSplits(lines[..i], [lines[i]], text);
      assert [lines[i]][1..] == [];
      if name.None? {
        name := code(lines[i]);
      }
      if words.None? {
        words := text(lines[i]);
      }
    }
    assert lines[..|lines|] == lines;
    return Sentence(name, words);
  }

  /** The objects a thrown value leads to, in the order they are visited. */
  ghost function Visited(heap: Heap, thrown: Value): (order: seq<nat>)
    requires Closed(heap) && InHeap(heap, thrown)
    ensures AreIds(heap, order)
  {
    VisitedOnce(heap, [thrown], {});
    Preorder(heap, [thrown], {})
  }

  /**
   The report on a thrown value: the logs of the first object in the visit that has any; and as the
   message the program's own sentence from them, else the last message in the visit, else the fallback.
   */
  method DiagnoseSendError(
      heap: Heap, thrown: Value, fallback: string,
      code: string -> Option<string>, text: string -> Option<string>)
    returns (d: Diagnosis)
    requires Closed(heap) && InHeap(heap, thrown)
    ensures d.logs == FirstLogs(heap, Visited(heap, thrown))
    ensures AnchorSentence(d.logs, code, text).Some? ==>
      d.logs.Some? && ReadsAs(Some(d.message), FirstMatch(d.logs.value, code), FirstMatch(d.logs.value, text))
    ensures AnchorSentence(d.logs, code, text).None? <==>
      d.logs.None? || ReadsAs(None, FirstMatch(d.logs.value, code), FirstMatch(d.logs.value, text))
    ensures AnchorSentence(d.logs, code, text).None? ==>
      var speaker := LastSpeaker(heap, Visited(heap, thrown));
      if speaker.None? then d.message == fallback
      else speaker.value in heap && MessageOf(heap, speaker.value) == Some(d.message)
  {
    var walk := new Walk(heap);
    walk.Visit(thrown);
    LastMessageIsItsSpeakers(heap, Visited(heap, thrown));
    var sentence := AnchorMessage(walk.logs, code, text);
    var message :=
      if sentence.Some? then sentence.value
      else if walk.messages != [] then walk.messages[|walk.messages| - 1]
      else fallback;
    return Diagnosis(message, walk.logs);
  }

  /**
   The wrapper speaks only when nobody else does: the object thrown is the one whose message is
   reported if and only if it has one and no other reachable object does.
   */
  lemma WrapperSpeaksOnlyAlone(heap: Heap, root: nat)
    requires Closed(heap) && root in heap
    ensures LastSpeaker(heap, Visited(heap, Ref(root))) == Some(root) <==>
      && MessageOf(heap, root).Some?
      && forall y <- heap :: y != root && Reachable(heap, [Ref(root)], {}, y) ==> MessageOf(heap, y).None?
  {
    var order := Visited(heap, Ref(root));
    PreorderOfOne(heap, Ref(root), {});
    VisitedOnce(heap, [Ref(root)], {});
    LastMessageIsItsSpeakers(heap, order);
    assert order[0] == root;
    forall y <- heap
      ensures Reachable(heap, [Ref(root)], {}, y) <==> y in order
    {
      VisitsExactlyTheReachable(heap, [Ref(root)], {}, y);
    }
    if LastSpeaker(heap, order) != Some(root) && MessageOf(heap, root).Some? {
      var p :| 0 <= p < |order| && order[p] == LastSpeaker(heap, order).value
        && MessageOf(heap, order[p]).Some?;
      assert order[p] in order && order[p] in heap;
    }
  }

  /**
   What "innermost" amounts to. Whoever is reported, no other object with a message can be reached
   from it except through objects that had been visited before it.
   */
  lemma NothingDeeperSpeaks(heap: Heap, thrown: Value, p: nat, y: nat)
    requires Closed(heap) && InHeap(heap, thrown)
    requires var order := Visited(heap, thrown);
      p < |order| && MessageOf(heap, order[p]).Some? && LastSpeaker(heap, order) == Some(order[p])
    requires y in heap && y != Visited(heap, thrown)[p] && MessageOf(heap, y).Some?
    ensures var order := Visited(heap, thrown);
      !Reachable(heap, [Ref(order[p])], Elements(order[..p]), y)
  {
    VisitedOnce(heap, [thrown], {});
    NobodySpeaksAfter(heap, Visited(heap, thrown), p);
    if Reachable(heap, [Ref(Visited(heap, thrown)[p])], Elements(Visited(heap, thrown)[..p]), y) {
      ReachedLater(heap, thrown, p, y);
      assert false;
    }
  }

  /** What an object leads to, other than through objects visited before it, is visited from it on. */
  lemma ReachedLater(heap: Heap, thrown: Value, p: nat, y: nat)
    requires Closed(heap) && InHeap(heap, thrown) && p < |Visited(heap, thrown)|
    requires Reachable(heap, [Ref(Visited(heap, thrown)[p])], Elements(Visited(heap, thrown)[..p]), y)
    ensures y in Visited(heap, thrown)[p..]
  {
    var order := Visited(heap, thrown);
    var rest := VisitFrom(heap, [thrown], {}, p);
    var before := Elements(order[..p]);
    assert {} + before == before;
    var path :| IsPath(heap, path, before) && Ref(path[0]) in [Ref(order[p])] && path[|path| - 1] == y;
    assert Ref(path[0]) == ([Ref(order[p])] + rest)[0];
    PathIsVisited(heap, [Ref(order[p])] + rest, before, path, |path| - 1);
  }

  lemma NobodySpeaksAfter(heap: Heap, order: seq<nat>, p: nat)
    requires AreIds(heap, order) && forall i, j :: 0 <= i < j < |order| ==> order[i] != order[j]
    requires p < |order| && LastSpeaker(heap, order) == Some(order[p])
    ensures forall i :: p < i < |order| ==> MessageOf(heap, order[i]).None?
    ensures forall y <- order[p..] :: y != order[p] ==> y in heap && MessageOf(heap, y).None?
  {
    LastMessageIsItsSpeakers(heap, order);
    var q :| 0 <= q < |order| && order[q] == LastSpeaker(heap, order).value
      && forall i :: q < i < |order| ==> MessageOf(heap, order[i]).None?;
    assert q == p;
  }

  lemma {:induction false} NothingToVisit(heap: Heap, todo: seq<Value>, seen: set<nat>)
    requires Closed(heap) && AllInHeap(heap, todo)
    requires forall i :: 0 <= i < |todo| ==> !todo[i].Ref?
    ensures Preorder(heap, todo, seen) == []
  {
    if todo != [] {
      NothingToVisit(heap, todo[1..], seen);
    }
  }
}
