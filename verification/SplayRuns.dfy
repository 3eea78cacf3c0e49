/** Iterating over a splay tree, and whole runs of operations on it. */
module SplayRuns {
  import opened Elements
  import opened OrderedMap
  import opened SplayModel
  import opened SplayTree

  /** SPLAY_FOREACH visits every element once, in order, although each step rebuilds the tree. */
  method Foreach(head: Head) returns (visited: seq<Node>)
    requires head.Valid()
    modifies head, head.links.Keys
    ensures head.Valid() && head.Contents() == old(head.Contents()) && head.links.Keys == old(head.links.Keys)
    ensures visited == head.Contents()
  {
    hide Ascending, IndexOf, Head.Valid;
    ghost var s := head.Contents();
    head.InOrderly();
    visited := [];
    var x := head.MinMax(-1);
    while x != null
      invariant head.Valid() && head.Contents() == s && head.links.Keys == old(head.links.Keys)
      invariant visited <= s && x == NodeAt(s, |visited|)
      decreases |s| - |visited|
    {
      IndexAt(s, |visited|);
      visited := visited + [x];
      x := head.Next(x);
    }
  }

  ghost predicate Supported(op: Op) {
    !op.Remove? && !op.NFind?
  }

  /** One operation, as a step of the ordered map. */
  method Do(head: Head, op: Op) returns (r: Node?)
    requires head.Valid() && Supported(op)
    modifies head, head.links.Keys, Subject(op)
    ensures head.Valid() && head.links.Keys <= old(head.links.Keys) + Subject(op)
    ensures Answer(MapOf(old(head.Contents())), op, r)
    ensures MapOf(head.Contents()) == Then(MapOf(old(head.Contents())), op)
  {
    hide Ascending, IsInserted, IsRemoved, MapOf, Lookup, Head.Valid;
    ghost var s := head.Contents();
    head.InOrderly();
    match op
    case Insert(n) =>
      r := head.Insert(n);
      head.InOrderly();
      MapOfLookup(s, n.key);
      if r == null {
        MapOfInserted(s, n, head.Contents());
      }
    case RemoveKey(n) =>
      r := head.Remove(n);
      head.InOrderly();
      MapOfLookup(s, n.key);
      ghost var found := Lookup(s, n.key);
      if found != null {
        MapOfRemoved(s, found, head.Contents());
      }
    case Find(n) =>
      r := head.Find(n);
      MapOfLookup(s, n.key);
    case First =>
      r := head.MinMax(-1);
      EndAnswers(s);
    case Last =>
      r := head.MinMax(1);
      EndAnswers(s);
  }

  /** Over every run, the splay tree answers as the ordered map does. */
  method Run(head: Head, ops: seq<Op>) returns (rs: seq<Node?>)
    requires head.Valid()
    requires forall i | 0 <= i < |ops| :: Supported(ops[i])
    modifies head, head.links.Keys, Subjects(ops)
    ensures head.Valid() && head.links.Keys <= old(head.links.Keys) + Subjects(ops)
    ensures Answers(MapOf(old(head.Contents())), ops, rs)
    ensures forall rs' | Answers(MapOf(old(head.Contents())), ops, rs') :: rs' == rs
    ensures MapOf(head.Contents()) == ThenAll(MapOf(old(head.Contents())), ops)
    decreases |ops|
  {
    hide MapOf, Answer, Answers, Then, Head.Valid;
    ghost var m := MapOf(head.Contents());
    if ops == [] {
      rs := [];
      NoAnswers(m);
    } else {
      var r := Do(head, ops[0]);
      var rest := Run(head, ops[1..]);
      rs := [r] + rest;
      FirstAnswer(m, ops, r, rest);
    }
    forall rs' | Answers(m, ops, rs') ensures rs' == rs {
      AnswersUnique(m, ops, rs, rs');
    }
  }
}
