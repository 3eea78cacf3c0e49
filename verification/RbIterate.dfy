/** Iterating over a red-black tree, also while the body of the loop removes elements. */
module RbIterate {
  import opened Elements
  import opened RbModel
  import opened RbTree

  // ---------- there and back ----------

  /** RB_NEXT and then RB_PREV lead back, except from the last element. */
  method NextThenPrev(head: Head, elm: Node) returns (back: Node?)
    requires head.Valid() && elm in head.Contents()
    ensures var s := head.Contents(); back == if elm == s[|s| - 1] then null else elm
  {
    hide Ascending, IndexOf;
    ghost var s, i := head.Contents(), IndexOf(head.Contents(), elm);
    head.InOrderly();
    IndexAt(s, i);
    IndexAt(s, |s| - 1);
    var next := head.Next(elm);
    if next == null {
      return null;
    }
    IndexAt(s, i + 1);
    back := head.Prev(next);
  }

  /** RB_PREV and then RB_NEXT lead back, except from the first element. */
  method PrevThenNext(head: Head, elm: Node) returns (back: Node?)
    requires head.Valid() && elm in head.Contents()
    ensures back == if elm == head.Contents()[0] then null else elm
  {
    hide Ascending, IndexOf;
    ghost var s, i := head.Contents(), IndexOf(head.Contents(), elm);
    head.InOrderly();
    IndexAt(s, i);
    IndexAt(s, 0);
    var prev := head.Prev(elm);
    if prev == null {
      return null;
    }
    IndexAt(s, i - 1);
    back := head.Next(prev);
  }

  // ---------- a tree that does not change ----------

  /** RB_FOREACH */
  method Foreach(head: Head) returns (visited: seq<Node>)
    requires head.Valid()
    ensures visited == head.Contents()
  {
    hide Ascending, IndexOf;
    ghost var s := head.Contents();
    head.InOrderly();
    visited := [];
    var x := head.MinMax(-1);
    while x != null
      invariant visited <= s && x == NodeAt(s, |visited|)
      decreases |s| - |visited|
    {
      IndexAt(s, |visited|);
      visited := visited + [x];
      x := head.Next(x);
    }
  }

  /** RB_FOREACH_REVERSE */
  method ForeachReverse(head: Head) returns (visited: seq<Node>)
    requires head.Valid()
    ensures visited == Reversed(head.Contents())
  {
    hide Ascending, IndexOf;
    ghost var s := head.Contents();
    ghost var r := Reversed(s);
    head.InOrderly();
    visited := [];
    var x := head.MinMax(1);
    while x != null
      invariant visited <= r && x == NodeAt(r, |visited|)
      decreases |r| - |visited|
    {
      IndexAt(s, |s| - 1 - |visited|);
      visited := visited + [x];
      x := head.Prev(x);
    }
  }

  // ---------- a body that removes elements ----------

  /** What the loop body removes when it meets an element. As no element is met twice, a function says it all. */
  type Body = Node -> seq<Node>

  /** The body may remove anything but the element that is saved as the next one. */
  ghost function Gone(rest: seq<Node>, body: Body): set<Node>
    requires rest != []
  {
    set n | n in body(rest[0]) && n != NodeAt(rest, 1)
  }

  /** The elements that the loop meets, when `rest` is still before it. */
  ghost function Visits(rest: seq<Node>, body: Body): seq<Node>
    decreases |rest|
  {
    if rest == [] then [] else [rest[0]] + Visits(Kept(rest[1..], Gone(rest, body)), body)
  }

  /** What is in the tree afterwards, when `kept` is behind the loop. */
  ghost function Remains(kept: seq<Node>, rest: seq<Node>, body: Body): seq<Node>
    decreases |rest|
  {
    if rest == [] then kept
    else Remains(Kept(kept + [rest[0]], Gone(rest, body)), Kept(rest[1..], Gone(rest, body)), body)
  }

  lemma Done(kept: seq<Node>, body: Body)
    ensures Visits([], body) == [] && Remains(kept, [], body) == kept
  {}

  lemma OneMore(kept: seq<Node>, rest: seq<Node>, body: Body)
    requires rest != []
    ensures var x, gone := rest[0], Gone(rest, body);
            && Visits(rest, body) == [x] + Visits(Kept(rest[1..], gone), body)
            && Remains(kept, rest, body) == Remains(Kept(kept + [x], gone), Kept(rest[1..], gone), body)
  {}

  ghost function Others(ns: seq<Node>, y: Node?): set<Node> {
    set n | n in ns && n != y
  }

  /** A body that removes those of the elements that are in the tree. */
  method RemoveEach(head: Head, ns: seq<Node>, y: Node?)
    requires head.Valid()
    modifies head, head.links.Keys
    ensures head.Valid() && head.links.Keys <= old(head.links.Keys)
    ensures head.Contents() == Kept(old(head.Contents()), Others(ns, y))
  {
    hide Ascending, IsRemoved, Lookup, Head.Valid, Head.Contents;
    ghost var s := head.Contents();
    KeptAll(s, {});
    var i := 0;
    assert Others(ns[..0], y) == {};
    while i < |ns|
      invariant 0 <= i <= |ns| && head.Valid() && head.links.Keys <= old(head.links.Keys)
      invariant head.Contents() == Kept(s, Others(ns[..i], y))
    {
      assert ns[..i + 1] == ns[..i] + [ns[i]];
      if ns[i] != y {
        assert Others(ns[..i + 1], y) == Others(ns[..i], y) + {ns[i]};
        KeptTwice(s, Others(ns[..i], y), {ns[i]});
        RemoveIfIn(head, ns[i]);
      } else {
        assert Others(ns[..i + 1], y) == Others(ns[..i], y);
      }
      i := i + 1;
    }
    assert ns[..i] == ns;
  }

  method RemoveIfIn(head: Head, n: Node)
    requires head.Valid()
    modifies head, head.links.Keys
    ensures head.Valid() && head.links.Keys <= old(head.links.Keys)
    ensures head.Contents() == Kept(old(head.Contents()), {n})
  {
    hide Ascending, IsRemoved, Head.Valid, Head.Contents;
    ghost var s := head.Contents();
    head.InOrderly();
    var found, comparisons := head.Find(n);
    if found == n {
      var removed := head.Remove(n);
      RemovedKept(s, n, head.Contents());
    } else {
      if n in s {
        LookupHit(s, n);
      }
      KeptAll(s, {n});
    }
  }

  /** One round of the loop: the next element is saved before the body runs. */
  method Visit(head: Head, x: Node, body: Body, ghost kept: seq<Node>, ghost rest: seq<Node>) returns (y: Node?)
    requires head.Valid() && head.Contents() == kept + rest && rest != [] && rest[0] == x
    modifies head, head.links.Keys
    ensures head.Valid() && head.links.Keys <= old(head.links.Keys)
    ensures y == NodeAt(Kept(rest[1..], Gone(rest, body)), 0)
    ensures head.Contents() == Kept(kept + [x], Gone(rest, body)) + Kept(rest[1..], Gone(rest, body))
  {
    hide Ascending, IndexOf, Head.Valid, Head.Contents;
    head.InOrderly();
    assert kept + rest == kept + [x] + rest[1..];
    IndexUnique(kept, x, rest[1..]);
    y := head.Next(x);
    assert y == NodeAt(rest, 1);
    RemoveEach(head, body(x), y);
    assert Others(body(x), y) == Gone(rest, body);
    KeptConcat(kept + [x], rest[1..], Gone(rest, body));
  }

  /** RB_FOREACH_FROM */
  method ForeachFrom(head: Head, start: Node?, body: Body) returns (visited: seq<Node>)
    requires head.Valid() && (start != null ==> start in head.Contents())
    modifies head, head.links.Keys
    ensures head.Valid() && head.links.Keys <= old(head.links.Keys)
    ensures var s := old(head.Contents());
            var i := if start == null then |s| else IndexOf(s, start);
            visited == Visits(s[i..], body) && head.Contents() == Remains(s[..i], s[i..], body)
  {
    hide Ascending, IndexOf, Kept, Gone, Visits, Remains, Head.Valid, Head.Contents;
    ghost var s := head.Contents();
    ghost var i := if start == null then |s| else IndexOf(s, start);
    ghost var kept, rest := s[..i], s[i..];
    visited := [];
    assert s == kept + rest;
    var x := start;
    while x != null
      invariant head.Valid() && head.links.Keys <= old(head.links.Keys)
      invariant x == NodeAt(rest, 0) && head.Contents() == kept + rest
      invariant visited + Visits(rest, body) == Visits(s[i..], body)
      invariant Remains(kept, rest, body) == Remains(s[..i], s[i..], body)
      decreases |rest|
    {
      ghost var gone := Gone(rest, body);
      OneMore(kept, rest, body);
      assert visited + Visits(rest, body) == (visited + [x]) + Visits(Kept(rest[1..], gone), body);
      visited := visited + [x];
      x := Visit(head, x, body, kept, rest);
      kept, rest := Kept(kept + [rest[0]], gone), Kept(rest[1..], gone);
    }
    Done(kept, body);
    assert visited + [] == visited && kept + [] == kept;
  }

  /** The body removes nothing that is still before it. */
  ghost predicate LooksBack(s: seq<Node>, body: Body) {
    forall x, n | x in s && n in body(x) :: n.key <= x.key
  }

  ghost function Removed(s: seq<Node>, body: Body): set<Node> {
    set x, n | x in s && n in body(x) :: n
  }

  /** RB_FOREACH_SAFE, whose body may remove any elements but the saved next one. */
  method ForeachSafe(head: Head, body: Body) returns (visited: seq<Node>)
    requires head.Valid()
    modifies head, head.links.Keys
    ensures head.Valid()
    ensures visited == Visits(old(head.Contents()), body) && head.Contents() == Remains([], old(head.Contents()), body)
    // if it removes no element before its turn, every element is met once and in order
    ensures LooksBack(old(head.Contents()), body) ==>
              && visited == old(head.Contents())
              && head.Contents() == Kept(old(head.Contents()), Removed(old(head.Contents()), body))
  {
    hide Ascending, IndexOf, Visits, Remains, LooksBack, Removed;
    ghost var s := head.Contents();
    head.InOrderly();
    var x := head.MinMax(-1);
    if x != null {
      IndexAt(s, 0);
    }
    assert s[..0] == [] && s[0..] == s;
    visited := ForeachFrom(head, x, body);
    if LooksBack(s, body) {
      assert [] + s == s;
      VisitsAll([], s, body);
    }
  }

  // ---------- what such a loop meets and leaves ----------

  lemma {:induction false} VisitsAll(kept: seq<Node>, rest: seq<Node>, body: Body)
    requires Ascending(kept + rest) && LooksBack(rest, body)
    ensures Visits(rest, body) == rest && Remains(kept, rest, body) == Kept(kept + rest, Removed(rest, body))
    decreases |rest|
  {
    hide Ascending, Kept, Gone, Removed, LooksBack, Visits, Remains;
    if rest == [] {
      Done(kept, body);
      NothingRemoved(body);
      KeptAll(kept + rest, {});
      assert kept + rest == kept;
    } else {
      var x, r, gone := rest[0], rest[1..], Gone(rest, body);
      var kept' := Kept(kept + [x], gone);
      assert kept + rest == kept + [x] + r;
      AscendingSlice(kept + rest, |kept|, |kept + rest|);
      assert (kept + rest)[|kept|..|kept + rest|] == rest;
      GoneIsBehind(rest, body);
      KeptAll(r, gone);
      KeptConcat(kept + [x], r, gone);
      KeptAscending(kept + rest, gone);
      OneMore(kept, rest, body);
      VisitsAll(kept', r, body);
      KeptTwice(kept + rest, gone, Removed(r, body));
      RemovedSplit(rest, body);
    }
  }

  lemma NothingRemoved(body: Body)
    ensures Removed([], body) == {}
  {}

  lemma GoneIsBehind(rest: seq<Node>, body: Body)
    requires rest != [] && Ascending(rest) && LooksBack(rest, body)
    ensures forall i | 0 <= i < |rest[1..]| :: rest[1..][i] !in Gone(rest, body)
    ensures LooksBack(rest[1..], body)
  {
    forall i | 0 <= i < |rest[1..]| ensures rest[1..][i] !in Gone(rest, body) {
      assert rest[0].key < rest[i + 1].key;
    }
  }

  lemma RemovedSplit(rest: seq<Node>, body: Body)
    requires rest != [] && Ascending(rest) && LooksBack(rest, body)
    ensures Gone(rest, body) + Removed(rest[1..], body) == Removed(rest, body)
  {
    assert |rest| > 1 ==> rest[0].key < rest[1].key;
    forall n | n in Removed(rest, body) ensures n in Gone(rest, body) + Removed(rest[1..], body) {
      var x :| x in rest && n in body(x);
      assert x == rest[0] || x in rest[1..];
    }
  }

  /** n comes right after x. */
  ghost predicate Follows(s: seq<Node>, x: Node, n: Node) {
    exists i | 0 <= i < |s| - 1 :: s[i] == x && s[i + 1] == n
  }

  /** The loop meets elements of the tree, in ascending order. */
  lemma {:induction false} VisitsAscending(rest: seq<Node>, body: Body)
    requires Ascending(rest)
    ensures Ascending(Visits(rest, body)) && forall n | n in Visits(rest, body) :: n in rest
    decreases |rest|
  {
    hide Ascending, Kept;
    if rest != [] {
      var x, r, gone := rest[0], rest[1..], Gone(rest, body);
      var v := Visits(Kept(r, gone), body);
      AscendingHead(rest);
      KeptIn(r, gone);
      KeptAscending(r, gone);
      VisitsAscending(Kept(r, gone), body);
      forall n | n in v ensures n in r {
        assert n in Kept(r, gone);
      }
      AscendingCons(x, r, v);
    }
  }

  /** An element is met unless it was removed before its turn; the saved next one cannot be. */
  lemma {:induction false} MeetsExactly(rest: seq<Node>, body: Body, n: Node)
    requires Ascending(rest)
    ensures var v := Visits(rest, body);
            n in v <==> n in rest && forall x | x in v && x.key < n.key && n in body(x) :: Follows(v, x, n)
    decreases |rest|
  {
    hide Ascending, Kept;
    if rest != [] {
      var x, r, gone := rest[0], rest[1..], Gone(rest, body);
      var rest' := Kept(r, gone);
      var v, v' := Visits(rest, body), Visits(rest', body);
      AscendingHead(rest);
      KeptIn(r, gone);
      KeptAscending(r, gone);
      VisitsAscending(rest', body);
      NextStays(rest, body);
      MeetsExactly(rest', body, n);
      FollowsCons(x, v', n);
      if n in r {
        if n in gone {
          assert x in v && x.key < n.key && n in body(x);
          assert v' != [] ==> v'[0] == rest'[0] != n;
          assert n !in v';
          assert !Follows(v, x, n);
        } else {
          assert n in body(x) ==> n == v'[0];
        }
      }
    }
  }

  lemma NextStays(rest: seq<Node>, body: Body)
    requires rest != []
    ensures NodeAt(Kept(rest[1..], Gone(rest, body)), 0) == NodeAt(rest, 1)
  {}

  lemma FollowsCons(x: Node, v: seq<Node>, n: Node)
    requires forall y | y in v :: x.key < y.key
    ensures Follows([x] + v, x, n) <==> v != [] && v[0] == n
    ensures forall y | y in v :: Follows([x] + v, y, n) <==> Follows(v, y, n)
  {
    var w := [x] + v;
    if v != [] && v[0] == n {
      assert w[0] == x && w[1] == n;
    }
    forall i | 0 < i < |w| ensures w[i] != x {
      assert w[i] == v[i - 1] && v[i - 1] in v;
    }
    forall y | y in v ensures Follows(w, y, n) <==> Follows(v, y, n) {
      if Follows(v, y, n) {
        var i :| 0 <= i < |v| - 1 && v[i] == y && v[i + 1] == n;
        assert w[i + 1] == y && w[i + 2] == n;
      }
      if Follows(w, y, n) {
        var i :| 0 <= i < |w| - 1 && w[i] == y && w[i + 1] == n;
        assert i > 0 && v[i - 1] == y && v[i] == n;
      }
    }
  }

  /** An element is left exactly if it was behind the loop or met, and not removed when it was met or later. */
  lemma {:induction false} RemainsExactly(kept: seq<Node>, rest: seq<Node>, body: Body, n: Node)
    requires Ascending(kept + rest)
    ensures var v := Visits(rest, body);
            n in Remains(kept, rest, body) <==>
            (n in kept || n in v) && forall x | x in v && n.key <= x.key :: n !in body(x)
    decreases |rest|
  {
    hide Ascending, Kept;
    if rest != [] {
      var x, r, gone := rest[0], rest[1..], Gone(rest, body);
      var kept', rest' := Kept(kept + [x], gone), Kept(r, gone);
      assert kept + rest == kept + [x] + r;
      AscendingAround(kept, x, r);
      KeptConcat(kept + [x], r, gone);
      KeptAscending(kept + rest, gone);
      KeptIn(kept + [x], gone);
      KeptIn(r, gone);
      KeptAscending(r, gone);
      VisitsAscending(rest', body);
      RemainsExactly(kept', rest', body, n);
      assert r != [] ==> x.key < r[0].key;
      assert n in kept ==> n.key < x.key;
      forall y | y in Visits(rest', body) ensures x.key < y.key {
        assert y in r;
      }
    }
  }
}
