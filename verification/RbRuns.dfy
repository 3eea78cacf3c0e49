/** Whole runs of operations on a red-black tree. */
module RbRuns {
  import opened Elements
  import opened OrderedMap
  import opened RbModel
  import opened RbTree

  ghost predicate Supported(op: Op) {
    !op.RemoveKey?
  }

  /** One operation, as a step of the ordered map. */
  method Do(head: Head, op: Op) returns (r: Node?)
    requires head.Valid() && Supported(op) && Legal(MapOf(head.Contents()), op)
    modifies head, head.links.Keys, Subject(op)
    ensures head.Valid() && head.links.Keys <= old(head.links.Keys) + Subject(op)
    ensures Answer(MapOf(old(head.Contents())), op, r)
    ensures MapOf(head.Contents()) == Then(MapOf(old(head.Contents())), op)
  {
    hide Ascending, IsInserted, IsRemoved, IsCeiling, MapOf, Lookup;
    ghost var s, comparisons := head.Contents(), 0;
    head.InOrderly();
    match op
    case Insert(n) =>
      r, comparisons := head.Insert(n);
      head.InOrderly();
      MapOfLookup(s, n.key);
      if r == null {
        MapOfInserted(s, n, head.Contents());
      }
    case Remove(n) =>
      ghost var i := MapOfKey(s, n.key);
      r := head.Remove(n);
      head.InOrderly();
      MapOfRemoved(s, n, head.Contents());
    case Find(n) =>
      r, comparisons := head.Find(n);
      MapOfLookup(s, n.key);
    case NFind(n) =>
      r, comparisons := head.NFind(n);
      CeilingAnswer(s, n, r);
    case First =>
      r := head.MinMax(-1);
      EndAnswers(s);
    case Last =>
      r := head.MinMax(1);
      EndAnswers(s);
  }

  /** Over every run, the red-black tree answers as the ordered map does. */
  method Run(head: Head, ops: seq<Op>) returns (rs: seq<Node?>)
    requires head.Valid() && AllLegal(MapOf(head.Contents()), ops)
    requires forall i | 0 <= i < |ops| :: Supported(ops[i])
    modifies head, head.links.Keys, Subjects(ops)
    ensures head.Valid() && head.links.Keys <= old(head.links.Keys) + Subjects(ops)
    ensures Answers(MapOf(old(head.Contents())), ops, rs)
    ensures forall rs' | Answers(MapOf(old(head.Contents())), ops, rs') :: rs' == rs
    ensures MapOf(head.Contents()) == ThenAll(MapOf(old(head.Contents())), ops)
    decreases |ops|
  {
    hide MapOf, Answer, Answers, Then;
    ghost var m := MapOf(head.Contents());
    if ops == [] {
      rs := [];
      NoAnswers(m);
    } else {
      var r := Do(head, ops[0]);
      var rest := Run(head, ops[1..]);
      rs := [r] + rest;
      FirstAnswer(m, ops, r, rest);
    }
    forall rs' | Answers(m, ops, rs') ensures rs' == rs {
      AnswersUnique(m, ops, rs, rs');
    }
  }
}
