/** The walk that finds what hangs below a root, and what it means for a set of
    nodes to be settled: a forest of its own, with nothing left out below it. */
module Marking {
  import opened Trace
  import opened Sorting
  import opened Links

  type Children = map<SpanID, seq<SpanID>>

  /** Parent and children links are each other's inverse. */
  ghost predicate Inverse(children: Children, parent: Links, nodes: set<SpanID>) {
    && children.Keys == nodes
    && (forall n :: n in parent ==> n in nodes && parent[n] in nodes)
    && (forall p :: p in nodes ==> ListsChildren(children[p], parent, p))
  }

  /** s lists each child of p once. */
  ghost predicate ListsChildren(s: seq<SpanID>, parent: Links, p: SpanID) {
    NoDuplicates(s) && forall c :: c in s <==> c in parent && parent[c] == p
  }

  /** A set of nodes whose links form a forest, closed under children. */
  ghost predicate Settled(parent: Links, nodes: set<SpanID>, reached: set<SpanID>, depth: map<SpanID, nat>) {
    && reached <= nodes
    && IsDepth(parent, reached, depth)
    && (forall n :: n in parent && parent[n] in reached ==> n in reached)
  }

  /** The walk below from, half way: what is on the stack hangs directly below
      what was reached, and whatever hangs below is reached or on the stack. */
  ghost predicate Marking(parent: Links, nodes: set<SpanID>, from: SpanID, before: set<SpanID>,
                          stack: seq<SpanID>, reached: set<SpanID>, depth: map<SpanID, nat>)
  {
    && before <= reached <= nodes
    && IsDepth(parent, reached, depth)
    && NoDuplicates(stack)
    && (forall x :: x in stack ==> x in nodes && x !in reached && (x in parent ==> parent[x] in reached))
    && (forall x :: x in stack && x !in parent ==> x == from)
    && (from in reached || from in stack)
    && (forall n :: n in parent && parent[n] in reached ==> n in reached || n in stack)
    && (forall n :: n in reached && n !in before && n !in parent ==> n == from)
  }

  lemma MarkStart(parent: Links, nodes: set<SpanID>, from: SpanID, reached: set<SpanID>, depth: map<SpanID, nat>)
    requires Settled(parent, nodes, reached, depth)
    requires from in nodes && from !in parent && from !in reached
    ensures reached <= nodes && Marking(parent, nodes, from, reached, [from], reached, depth)
  {
    hide IsDepth;
  }

  lemma MarkDone(parent: Links, nodes: set<SpanID>, from: SpanID, before: set<SpanID>,
                 reached: set<SpanID>, depth: map<SpanID, nat>)
    requires Marking(parent, nodes, from, before, [], reached, depth)
    ensures Settled(parent, nodes, reached, depth) && before <= reached && from in reached
    ensures forall n :: n in reached && n !in before && n !in parent ==> n == from
  {
    hide IsDepth;
  }

  /** The children of what is popped are new. */
  lemma NewOnStack(parent: Links, nodes: set<SpanID>, from: SpanID, before: set<SpanID>, stack: seq<SpanID>,
                   reached: set<SpanID>, depth: map<SpanID, nat>, kids: seq<SpanID>)
    requires Marking(parent, nodes, from, before, stack, reached, depth) && stack != [] && from !in parent
    requires (forall n :: n in parent ==> n in nodes && parent[n] in nodes)
    requires ListsChildren(kids, parent, stack[|stack| - 1])
    ensures var n := stack[|stack| - 1];
            forall x :: x in kids ==> x in nodes && x !in reached && x != n && x !in stack && x in parent && parent[x] == n
  {
    var n := stack[|stack| - 1];
    assert n in stack;
    forall x | x in kids
      ensures x in nodes && x !in reached && x != n && x !in stack && x in parent && parent[x] == n
    {
      assert x in parent && parent[x] == n;
    }
  }

  lemma PopPush(stack: seq<SpanID>, kids: seq<SpanID>)
    requires stack != [] && NoDuplicates(stack) && NoDuplicates(kids) && forall x :: x in kids ==> x !in stack
    ensures var n := stack[|stack| - 1];
            var more := stack[..|stack| - 1] + kids;
            && NoDuplicates(more)
            && (forall x :: x in more <==> (x in stack && x != n) || x in kids)
  {
    var n := stack[|stack| - 1];
    var rest := stack[..|stack| - 1];
    assert stack == rest + [n];
    assert forall x :: x in rest ==> x in stack && x != n;
    var more := rest + kids;
    forall i, j | 0 <= i < j < |more|
      ensures more[i] != more[j]
    {
      if i < |rest| <= j {
        assert more[i] in rest && more[j] in kids;
      }
    }
  }

  /** What is on the stack after a node is popped and its children are pushed. */
  lemma StackAfter(parent: Links, nodes: set<SpanID>, from: SpanID, before: set<SpanID>, stack: seq<SpanID>,
                   reached: set<SpanID>, depth: map<SpanID, nat>, kids: seq<SpanID>, more: seq<SpanID>)
    requires Marking(parent, nodes, from, before, stack, reached, depth) && stack != []
    requires var n := stack[|stack| - 1];
             && ListsChildren(kids, parent, n)
             && (forall x :: x in kids ==> x in nodes && x !in reached && x != n && x in parent && parent[x] == n)
             && (forall x :: x in more <==> (x in stack && x != n) || x in kids)
    ensures var now := reached + {stack[|stack| - 1]};
            && before <= now <= nodes
            && (forall x :: x in more ==> x in nodes && x !in now && (x in parent ==> parent[x] in now))
            && (forall x :: x in more && x !in parent ==> x == from)
            && (from in now || from in more)
            && (forall x :: x in parent && parent[x] in now ==> x in now || x in more)
            && (forall x :: x in now && x !in before && x !in parent ==> x == from)
  {
    hide IsDepth, NoDuplicates;
    var n := stack[|stack| - 1];
    forall x | x in parent && parent[x] in reached + {n}
      ensures x in reached + {n} || x in more
    {
      assert parent[x] == n ==> x in kids;
    }
  }

  lemma TopOfStack(parent: Links, nodes: set<SpanID>, from: SpanID, before: set<SpanID>,
                   stack: seq<SpanID>, reached: set<SpanID>, depth: map<SpanID, nat>)
    requires Marking(parent, nodes, from, before, stack, reached, depth) && stack != []
    ensures var n := stack[|stack| - 1];
            n in nodes && n !in reached && (n in parent ==> parent[n] in reached)
    ensures IsDepth(parent, reached, depth) && NoDuplicates(stack)
  {
    assert stack[|stack| - 1] in stack;
    hide IsDepth, NoDuplicates;
  }

  lemma MarkOne(children: Children, parent: Links, nodes: set<SpanID>, from: SpanID, before: set<SpanID>,
                stack: seq<SpanID>, reached: set<SpanID>, depth: map<SpanID, nat>)
    requires Inverse(children, parent, nodes) && from !in parent
    requires Marking(parent, nodes, from, before, stack, reached, depth) && stack != []
    ensures var n := stack[|stack| - 1];
            n !in reached && n in nodes && n in children && (n in parent ==> parent[n] in depth)
            && Marking(parent, nodes, from, before, stack[..|stack| - 1] + children[n], reached + {n},
                       depth[n := if n in parent then depth[parent[n]] + 1 else 0])
  {
    hide *;
    var n := stack[|stack| - 1];
    TopOfStack(parent, nodes, from, before, stack, reached, depth);
    InverseAt(children, parent, nodes, n);
    PopDepth(parent, reached, depth, n);
    MarkNext(parent, nodes, from, before, stack, reached, depth, children[n],
             depth[n := if n in parent then depth[parent[n]] + 1 else 0]);
  }

  lemma InverseAt(children: Children, parent: Links, nodes: set<SpanID>, n: SpanID)
    requires Inverse(children, parent, nodes) && n in nodes
    ensures n in children && ListsChildren(children[n], parent, n)
    ensures forall x :: x in parent ==> x in nodes && parent[x] in nodes
  {
    hide ListsChildren;
  }

  lemma MarkNext(parent: Links, nodes: set<SpanID>, from: SpanID, before: set<SpanID>, stack: seq<SpanID>,
                 reached: set<SpanID>, depth: map<SpanID, nat>, kids: seq<SpanID>, deeper: map<SpanID, nat>)
    requires Marking(parent, nodes, from, before, stack, reached, depth) && stack != [] && from !in parent
    requires forall x :: x in parent ==> x in nodes && parent[x] in nodes
    requires ListsChildren(kids, parent, stack[|stack| - 1]) && IsDepth(parent, reached + {stack[|stack| - 1]}, deeper)
    ensures Marking(parent, nodes, from, before, stack[..|stack| - 1] + kids, reached + {stack[|stack| - 1]}, deeper)
  {
    NewOnStack(parent, nodes, from, before, stack, reached, depth, kids);
    TopOfStack(parent, nodes, from, before, stack, reached, depth);
    ListsOnce(kids, parent, stack[|stack| - 1]);
    hide *;
    var more := stack[..|stack| - 1] + kids;
    PopPush(stack, kids);
    StackAfter(parent, nodes, from, before, stack, reached, depth, kids, more);
    MarkingIs(parent, nodes, from, before, more, reached + {stack[|stack| - 1]}, deeper);
  }

  lemma ListsOnce(kids: seq<SpanID>, parent: Links, n: SpanID)
    requires ListsChildren(kids, parent, n)
    ensures NoDuplicates(kids)
  {
  }

  lemma MarkingIs(parent: Links, nodes: set<SpanID>, from: SpanID, before: set<SpanID>,
                  stack: seq<SpanID>, reached: set<SpanID>, depth: map<SpanID, nat>)
    requires before <= reached <= nodes && IsDepth(parent, reached, depth) && NoDuplicates(stack)
    requires forall x :: x in stack ==> x in nodes && x !in reached && (x in parent ==> parent[x] in reached)
    requires forall x :: x in stack && x !in parent ==> x == from
    requires from in reached || from in stack
    requires forall n :: n in parent && parent[n] in reached ==> n in reached || n in stack
    requires forall n :: n in reached && n !in before && n !in parent ==> n == from
    ensures Marking(parent, nodes, from, before, stack, reached, depth)
  {
    hide IsDepth, NoDuplicates;
  }

  lemma PopDepth(parent: Links, reached: set<SpanID>, depth: map<SpanID, nat>, n: SpanID)
    requires IsDepth(parent, reached, depth) && n !in reached
    requires n in parent ==> parent[n] in reached
    ensures IsDepth(parent, reached + {n}, depth[n := if n in parent then depth[parent[n]] + 1 else 0])
  {
  }

  /** mark: everything below a root is reached, each node once, and nothing else. */
  method Mark(children: Children, from: SpanID, reached: set<SpanID>,
              ghost parent: Links, ghost nodes: set<SpanID>, ghost depth: map<SpanID, nat>)
    returns (after: set<SpanID>, ghost deeper: map<SpanID, nat>)
    requires Inverse(children, parent, nodes) && Settled(parent, nodes, reached, depth)
    requires from in nodes && from !in parent && from !in reached
    ensures Settled(parent, nodes, after, deeper) && reached <= after && from in after
    ensures forall n :: n in after && n !in reached && n !in parent ==> n == from
  {
    hide Inverse, Marking, Settled;
    var stack := [from];
    after, deeper := reached, depth;
    MarkStart(parent, nodes, from, reached, depth);
    while stack != []
      invariant after <= nodes
      invariant Marking(parent, nodes, from, reached, stack, after, deeper)
      decreases nodes - after
    {
      MarkOne(children, parent, nodes, from, reached, stack, after, deeper);
      var n := stack[|stack| - 1];
      stack := stack[..|stack| - 1];
      deeper := deeper[n := if n in parent then deeper[parent[n]] + 1 else 0];
      after := after + {n};
      stack := stack + children[n];
    }
    MarkDone(parent, nodes, from, reached, after, deeper);
  }
}
