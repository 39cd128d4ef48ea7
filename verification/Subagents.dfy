/** Cancelling the subagents below a session: a worklist over the session table. */
module Subagents {
  import opened Common

  type Id = nat

  datatype Session = Session(parent: Option<Id>, active: bool)

  type Sessions = map<Id, Session>

  ghost predicate ActiveChild(db: Sessions, parent: Id, child: Id) {
    child in db && db[child].active && db[child].parent == Some(parent)
  }

  /** What the per-parent query may answer: each ACTIVE child once, in any order. */
  ghost predicate Lists(db: Sessions, children: Id -> seq<Id>) {
    forall id :: Distinct(children(id)) && forall c :: c in children(id) <==> ActiveChild(db, id, c)
  }

  ghost predicate Chain(db: Sessions, p: seq<Id>) {
    |p| >= 2 && forall i :: 0 <= i < |p| - 1 ==> ActiveChild(db, p[i], p[i + 1])
  }

  /** Reachable from root through ACTIVE children, in one step or more. */
  ghost predicate Descends(db: Sessions, root: Id, x: Id) {
    exists p :: Chain(db, p) && p[0] == root && p[|p| - 1] == x
  }

  lemma {:induction false} ChildDescends(db: Sessions, root: Id, x: Id, child: Id)
    requires (x == root || Descends(db, root, x)) && ActiveChild(db, x, child)
    ensures Descends(db, root, child)
  {
    var p := [root];
    if x != root {
      p :| Chain(db, p) && p[0] == root && p[|p| - 1] == x;
    }
    assert Chain(db, p + [child]);
  }

  lemma {:induction false} ClosedSetHoldsChain(db: Sessions, p: seq<Id>, closed: set<Id>)
    requires Chain(db, p) && p[0] in closed
    requires forall x, c :: x in closed && ActiveChild(db, x, c) ==> c in closed
    ensures p[|p| - 1] in closed
  {
    if |p| > 2 {
      ClosedSetHoldsChain(db, p[..|p| - 1], closed);
    }
    assert ActiveChild(db, p[|p| - 2], p[|p| - 1]);
  }

  /** The worklist as sets: done has been popped, todo is still to visit, and found holds every child
      of done, each there because its parent is done. */
  ghost predicate Frontier(db: Sessions, root: Id, found: set<Id>, todo: set<Id>, done: set<Id>) {
    && root !in found
    && (forall x :: x in found ==> Descends(db, root, x))
    && found + {root} == todo + done
    && todo !! done
    && (forall x, c :: x in done && ActiveChild(db, x, c) ==> c in found)
    && (forall x :: x in found ==> x in db && db[x].parent.Some? && db[x].parent.value in done)
  }

  lemma {:induction false} KidIsNew(db: Sessions, root: Id, found: set<Id>, todo: set<Id>, done: set<Id>,
                                    current: Id, kid: Id)
    requires Frontier(db, root, found, todo, done) && current in todo && !Descends(db, root, root)
    requires ActiveChild(db, current, kid)
    ensures Descends(db, root, kid) && kid !in found && kid != root && kid !in todo
  {
    ChildDescends(db, root, current, kid);
  }

  /** The children of the session just popped are new, so nothing is collected twice. */
  lemma {:induction false} KidsAreNew(db: Sessions, root: Id, found: set<Id>, todo: set<Id>, done: set<Id>,
                                      current: Id, kids: set<Id>)
    requires Frontier(db, root, found, todo, done) && current in todo && !Descends(db, root, root)
    requires forall c :: c in kids <==> ActiveChild(db, current, c)
    ensures root !in kids && found !! kids && todo !! kids && done !! kids
    ensures forall c :: c in kids ==> Descends(db, root, c)
  {
    forall c | c in kids ensures Descends(db, root, c) && c !in found && c != root && c !in todo {
      KidIsNew(db, root, found, todo, done, current, c);
    }
  }

  lemma {:induction false} VisitOne(db: Sessions, root: Id, found: set<Id>, todo: set<Id>, done: set<Id>,
                                    current: Id, kids: set<Id>)
    requires Frontier(db, root, found, todo, done) && current in todo
    requires forall c :: c in kids <==> ActiveChild(db, current, c)
    requires root !in kids && found !! kids && todo !! kids && done !! kids
    requires forall c :: c in kids ==> Descends(db, root, c)
    ensures Frontier(db, root, found + kids, todo - {current} + kids, done + {current})
  {
    var todo', done' := todo - {current} + kids, done + {current};
    assert found + kids + {root} == todo' + done' by {
      assert todo' + done' == todo + done + kids;
    }
  }

  lemma {:induction false} VisitsAreBounded(db: Sessions, root: Id, found: set<Id>, todo: set<Id>, done: set<Id>,
                                            current: Id)
    requires Frontier(db, root, found, todo, done) && current in todo
    ensures |done| < |done + {current}| <= |db.Keys + {root}|
  {
    assert done + {current} <= db.Keys + {root} by {
      assert todo + done <= db.Keys + {root};
    }
    SubsetSize(done + {current}, db.Keys + {root});
  }

  lemma {:induction false} DistinctAppend<T>(a: seq<T>, b: seq<T>)
    requires Distinct(a) && Distinct(b) && Elements(a) !! Elements(b)
    ensures Distinct(a + b) && Elements(a + b) == Elements(a) + Elements(b)
  {
    var s := a + b;
    forall i, j | 0 <= i < j < |s| ensures s[i] != s[j] {
      if i < |a| <= j {
        assert s[i] in Elements(a) && s[j] in Elements(b);
      }
    }
  }

  lemma {:induction false} PopLast(todo: seq<Id>)
    requires Distinct(todo) && todo != []
    ensures var rest, last := todo[..|todo| - 1], todo[|todo| - 1];
            Distinct(rest) && last in todo && Elements(rest) == Elements(todo) - {last}
  {
    assert todo == todo[..|todo| - 1] + [todo[|todo| - 1]];
  }

  lemma {:induction false} NothingLeftOut(db: Sessions, root: Id, found: set<Id>, done: set<Id>)
    requires Frontier(db, root, found, {}, done) && !Descends(db, root, root)
    ensures forall x :: x in found <==> Descends(db, root, x)
  {
    forall x | Descends(db, root, x) ensures x in found {
      var p :| Chain(db, p) && p[0] == root && p[|p| - 1] == x;
      ClosedSetHoldsChain(db, p, done);
    }
  }

  method AppendEach(found: seq<Id>, toVisit: seq<Id>, kids: seq<Id>) returns (found': seq<Id>, toVisit': seq<Id>)
    ensures found' == found + kids && toVisit' == toVisit + kids
  {
    found', toVisit' := found, toVisit;
    for j := 0 to |kids|
      invariant found' == found + kids[..j] && toVisit' == toVisit + kids[..j]
    {
      assert kids[..j + 1] == kids[..j] + [kids[j]];
      found' := found' + [kids[j]];
      toVisit' := toVisit' + [kids[j]];
    }
    assert kids[..|kids|] == kids;
  }

  ghost predicate Collecting(db: Sessions, root: Id, found: seq<Id>, toVisit: seq<Id>, done: set<Id>) {
    Distinct(found) && Distinct(toVisit) && Frontier(db, root, Elements(found), Elements(toVisit), done)
  }

  lemma {:induction false} CollectOne(db: Sessions, root: Id, found: seq<Id>, rest: seq<Id>, current: Id,
                                      done: set<Id>, kids: seq<Id>)
    requires Collecting(db, root, found, rest + [current], done) && !Descends(db, root, root)
    requires Distinct(kids) && forall c :: c in kids <==> ActiveChild(db, current, c)
    ensures Collecting(db, root, found + kids, rest + kids, done + {current})
    ensures |done| < |done + {current}| <= |db.Keys + {root}|
  {
    var toVisit := rest + [current];
    PopLast(toVisit);
    assert toVisit[..|toVisit| - 1] == rest;
    KidsAreNew(db, root, Elements(found), Elements(toVisit), done, current, Elements(kids));
    VisitOne(db, root, Elements(found), Elements(toVisit), done, current, Elements(kids));
    VisitsAreBounded(db, root, Elements(found), Elements(toVisit), done, current);
    DistinctAppend(found, kids);
    DistinctAppend(rest, kids);
  }

  lemma {:induction false} StartCollecting(db: Sessions, root: Id)
    ensures Collecting(db, root, [], [root], {})
  {}

  /** One round: pop a session and append its children to both lists. */
  method VisitNext(db: Sessions, children: Id -> seq<Id>, root: Id, found: seq<Id>, toVisit: seq<Id>,
                   ghost done: set<Id>)
    returns (found': seq<Id>, toVisit': seq<Id>, ghost done': set<Id>)
    requires Lists(db, children) && !Descends(db, root, root) && toVisit != []
    requires Collecting(db, root, found, toVisit, done)
    ensures Collecting(db, root, found', toVisit', done')
    ensures |done| < |done'| <= |db.Keys + {root}|
  {
    var current := toVisit[|toVisit| - 1];
    var rest, kids := toVisit[..|toVisit| - 1], children(current);
    assert toVisit == rest + [current];
    CollectOne(db, root, found, rest, current, done, kids);
    found', toVisit' := AppendEach(found, rest, kids);
    done' := done + {current};
  }

  /** On any finite forest of sessions the worklist terminates and collects, each exactly once, the
      sessions reachable from the root through ACTIVE children. */
  method CollectDescendants(db: Sessions, children: Id -> seq<Id>, root: Id) returns (found: seq<Id>)
    requires Lists(db, children) && !Descends(db, root, root)
    ensures Distinct(found)
    ensures forall x :: x in found <==> Descends(db, root, x)
  {
    var toVisit;
    found, toVisit := [], [root];
    ghost var done: set<Id> := {};
    StartCollecting(db, root);
    while toVisit != []
      invariant Collecting(db, root, found, toVisit, done)
      decreases |db.Keys + {root}| - |done|
    {
      found, toVisit, done := VisitNext(db, children, root, found, toVisit, done);
    }
    AllCollected(db, root, found, done);
  }

  lemma {:induction false} AllCollected(db: Sessions, root: Id, found: seq<Id>, done: set<Id>)
    requires Collecting(db, root, found, [], done) && !Descends(db, root, root)
    ensures Distinct(found) && forall x :: x in found <==> Descends(db, root, x)
  {
    assert Elements<Id>([]) == {};
    NothingLeftOut(db, root, Elements(found), done);
    forall x ensures x in found <==> x in Elements(found) {}
  }

  datatype Handle = Handle(finished: bool)

  ghost predicate ToCancel(tracked: map<Id, Handle>, x: Id) {
    x in tracked && !tracked[x].finished
  }

  ghost function Victims(tracked: map<Id, Handle>, xs: seq<Id>): set<Id> {
    set x | x in xs && ToCancel(tracked, x)
  }

  lemma {:induction false} CancelOne(start: map<Id, Handle>, xs: seq<Id>, i: nat)
    requires Distinct(xs) && i < |xs|
    ensures var now, next := start - Elements(xs[..i]), start - Elements(xs[..i + 1]);
            && next == now - {xs[i]}
            && (xs[i] in now <==> xs[i] in start)
            && xs[i] !in Victims(start, xs[..i])
            && Victims(start, xs[..i + 1]) == Victims(start, xs[..i]) + if ToCancel(start, xs[i]) then {xs[i]} else {}
  {
    assert xs[..i + 1] == xs[..i] + [xs[i]];
    assert xs[i] !in xs[..i];
    assert Elements(xs[..i + 1]) == Elements(xs[..i]) + {xs[i]};
  }

  class Orchestrator {
    var tracked: map<Id, Handle>

    /** The cancelling loop: each collected session is popped once. */
    method CancelEach(descendants: seq<Id>) returns (count: nat, cancelled: set<Id>)
      requires Distinct(descendants)
      modifies this
      ensures tracked == old(tracked) - Elements(descendants)
      ensures cancelled == Victims(old(tracked), descendants) && count == |cancelled|
    {
      count, cancelled := 0, {};
      ghost var start := tracked;
      for i := 0 to |descendants|
        invariant tracked == start - Elements(descendants[..i])
        invariant cancelled == Victims(start, descendants[..i])
        invariant count == |cancelled|
      {
        var child := descendants[i];
        CancelOne(start, descendants, i);
        if child in tracked {
          var task := tracked[child];
          tracked := tracked - {child};
          if !task.finished {
            cancelled := cancelled + {child};
            count := count + 1;
          }
        }
      }
      assert descendants[..|descendants|] == descendants;
    }

    /** Every collected session stops being tracked; exactly the unfinished ones are cancelled and counted. */
    method CancelSubagentTasks(db: Sessions, children: Id -> seq<Id>, parent: Id)
      returns (count: nat, cancelled: set<Id>)
      requires Lists(db, children) && !Descends(db, parent, parent)
      modifies this
      ensures forall x :: x in cancelled <==>
                Descends(db, parent, x) && x in old(tracked) && !old(tracked)[x].finished
      ensures count == |cancelled|
      ensures forall x :: x in tracked <==> x in old(tracked) && !Descends(db, parent, x)
      ensures forall x :: x in tracked ==> tracked[x] == old(tracked)[x]
    {
      var descendants := CollectDescendants(db, children, parent);
      count, cancelled := CancelEach(descendants);
    }
  }
}
