/** The elements that are linked into the trees, and ascending sequences of them. */
module Elements {

  datatype Color = Red | Black

  /** The two sides of a node. */
  datatype Side = L | R

  function Other(s: Side): Side {
    if s == L then R else L
  }

  /** An element whose type declares both a red-black entry and a splay entry.
      The key is what the user's comparison function looks at. */
  class Node {
    const key: int

    var left: Node?
    var right: Node?
    var parent: Node?
    var color: Color

    var speLeft: Node?
    var speRight: Node?

    constructor (key: int)
      ensures this.key == key
    {
      this.key := key;
      left, right, parent, color := null, null, null, Black;
      speLeft, speRight := null, null;
    }
  }

  /** The comparison function: negative, zero or positive. */
  function Cmp(a: Node, b: Node): int {
    if a.key < b.key then -1 else if a.key > b.key then 1 else 0
  }

  ghost predicate Ascending(s: seq<Node>) {
    forall i, j | 0 <= i < j < |s| :: s[i].key < s[j].key
  }

  ghost predicate AllBelow(s: seq<Node>, key: int) {
    forall i | 0 <= i < |s| :: s[i].key < key
  }

  ghost predicate AllAbove(s: seq<Node>, key: int) {
    forall i | 0 <= i < |s| :: key < s[i].key
  }

  /** A sequence is ascending exactly when it is so on both sides of any of its elements
      and that element separates the sides. */
  lemma AscendingAround(a: seq<Node>, n: Node, b: seq<Node>)
    ensures Ascending(a + [n] + b) <==>
            Ascending(a) && Ascending(b) && AllBelow(a, n.key) && AllAbove(b, n.key)
  {
    var s := a + [n] + b;
    assert s[|a|] == n && s[..|a|] == a && s[|a| + 1..] == b;
    if Ascending(s) {
      AscendingSlice(s, 0, |a|);
      AscendingSlice(s, |a| + 1, |s|);
      forall i | 0 <= i < |b| ensures n.key < b[i].key {
        assert s[|a| + 1 + i] == b[i];
      }
    }
  }

  lemma BelowParts(a: seq<Node>, n: Node, b: seq<Node>, key: int)
    ensures AllBelow(a + [n] + b, key) <==> AllBelow(a, key) && n.key < key && AllBelow(b, key)
  {
    var s := a + [n] + b;
    assert s[|a|] == n;
    assert forall i | 0 <= i < |a| :: a[i] == s[i];
    assert forall i | 0 <= i < |b| :: b[i] == s[|a| + 1 + i];
  }

  lemma AboveParts(a: seq<Node>, n: Node, b: seq<Node>, key: int)
    ensures AllAbove(a + [n] + b, key) <==> AllAbove(a, key) && key < n.key && AllAbove(b, key)
  {
    var s := a + [n] + b;
    assert s[|a|] == n;
    assert forall i | 0 <= i < |a| :: a[i] == s[i];
    assert forall i | 0 <= i < |b| :: b[i] == s[|a| + 1 + i];
  }

  lemma NothingBetween(s: seq<Node>, key: int)
    ensures AllBelow(s, key) && AllAbove(s, key) ==> s == []
  {
    assert s == [] || s[0].key < key || key <= s[0].key;
  }

  /** A key below (above) those of all nodes. */
  ghost function Beyond(s: seq<Node>, direction: int): (key: int)
    requires s != [] && Ascending(s)
    ensures if direction < 0 then AllAbove(s, key) else AllBelow(s, key)
  {
    if direction < 0 then s[0].key - 1 else s[|s| - 1].key + 1
  }

  lemma AscendingSlice(s: seq<Node>, i: nat, j: nat)
    requires Ascending(s) && i <= j <= |s|
    ensures Ascending(s[i..j])
  {}

  lemma AscendingHead(s: seq<Node>)
    requires Ascending(s) && s != []
    ensures Ascending(s[1..]) && forall n | n in s[1..] :: s[0].key < n.key
  {}

  lemma AscendingCons(x: Node, r: seq<Node>, v: seq<Node>)
    requires Ascending(v) && forall n | n in r :: x.key < n.key
    requires forall n | n in v :: n in r
    ensures Ascending([x] + v)
  {
    forall i | 0 <= i < |v| ensures x.key < v[i].key {
      assert v[i] in r;
    }
  }

  /** The node of s with the given key, or null. */
  ghost function Lookup(s: seq<Node>, key: int): (r: Node?)
    ensures r != null ==> r in s && r.key == key
    ensures r == null ==> forall i | 0 <= i < |s| :: s[i].key != key
  {
    if s == [] then null else if s[0].key == key then s[0] else Lookup(s[1..], key)
  }

  lemma LookupHit(s: seq<Node>, n: Node)
    requires Ascending(s) && n in s
    ensures Lookup(s, n.key) == n
  {
    var i :| 0 <= i < |s| && s[i] == n;
    var m := Lookup(s, n.key);
    var j :| 0 <= j < |s| && s[j] == m;
    assert !(i < j) && !(j < i);
  }

  lemma LookupMiss(a: seq<Node>, b: seq<Node>, key: int)
    requires AllBelow(a, key) && AllAbove(b, key)
    ensures Lookup(a + b, key) == null
  {
    var s := a + b;
    forall i | 0 <= i < |s| ensures s[i].key != key {
      assert s[i] == if i < |a| then a[i] else b[i - |a|];
    }
  }

  /** s' is s with n put in somewhere. */
  ghost predicate IsInserted(s: seq<Node>, n: Node, s': seq<Node>) {
    exists i | 0 <= i <= |s| :: s' == s[..i] + [n] + s[i..]
  }

  /** s' is s without n. */
  ghost predicate IsRemoved(s: seq<Node>, n: Node, s': seq<Node>) {
    exists i | 0 <= i < |s| :: s[i] == n && s' == s[..i] + s[i + 1..]
  }

  lemma InsertedAscending(a: seq<Node>, n: Node, b: seq<Node>)
    requires Ascending(a + b) && AllBelow(a, n.key) && AllAbove(b, n.key)
    ensures Ascending(a + [n] + b) && IsInserted(a + b, n, a + [n] + b)
  {
    var s := a + b;
    assert s[..|a|] == a && s[|a|..] == b;
    AscendingSlice(s, 0, |a|);
    AscendingSlice(s, |a|, |s|);
    AscendingAround(a, n, b);
    assert a + [n] + b == s[..|a|] + [n] + s[|a|..];
  }

  lemma RemovedAscending(a: seq<Node>, n: Node, b: seq<Node>)
    requires Ascending(a + [n] + b)
    ensures Ascending(a + b) && IsRemoved(a + [n] + b, n, a + b)
  {
    var s := a + [n] + b;
    assert s[|a|] == n && s[..|a|] == a && s[|a| + 1..] == b;
    forall i, j | 0 <= i < j < |a + b| ensures (a + b)[i].key < (a + b)[j].key {
      var i', j' := if i < |a| then i else i + 1, if j < |a| then j else j + 1;
      assert (a + b)[i] == s[i'] && (a + b)[j] == s[j'];
    }
  }

  /** The place of a node in a sequence. */
  ghost function IndexOf(s: seq<Node>, n: Node): (i: nat)
    requires n in s
    ensures i < |s| && s[i] == n
  {
    if s[0] == n then 0 else 1 + IndexOf(s[1..], n)
  }

  lemma IndexUnique(a: seq<Node>, n: Node, b: seq<Node>)
    requires Ascending(a + [n] + b)
    ensures n in a + [n] + b && IndexOf(a + [n] + b, n) == |a|
  {
    var s := a + [n] + b;
    assert s[|a|] == n;
    var i := IndexOf(s, n);
    assert !(i < |a|) && !(|a| < i);
  }

  lemma IndexAt(s: seq<Node>, i: nat)
    requires Ascending(s) && i < |s|
    ensures s[i] in s && IndexOf(s, s[i]) == i
  {
    hide Ascending, IndexOf;
    var a, n, b := s[..i], s[i], s[i + 1..];
    assert s == a + [n] + b;
    IndexUnique(a, n, b);
  }

  /** The element at an index, or null beyond the ends. */
  function NodeAt(s: seq<Node>, i: int): Node? {
    if 0 <= i < |s| then s[i] else null
  }

  /** r is the first element of s that is not below the key, or null if there is none. */
  ghost predicate IsCeiling(s: seq<Node>, key: int, r: Node?) {
    if r == null then AllBelow(s, key)
    else exists i | 0 <= i < |s| :: s[i] == r && key <= r.key && AllBelow(s[..i], key)
  }

  ghost function Reversed(s: seq<Node>): (r: seq<Node>)
    ensures |r| == |s| && forall i | 0 <= i < |s| :: r[i] == s[|s| - 1 - i]
  {
    if s == [] then [] else Reversed(s[1..]) + [s[0]]
  }

  /** The elements of s outside `removed`. */
  ghost function Kept(s: seq<Node>, removed: set<Node>): (r: seq<Node>)
    ensures |r| <= |s|
  {
    if s == [] then [] else (if s[0] in removed then [] else [s[0]]) + Kept(s[1..], removed)
  }

  lemma {:induction false} KeptConcat(a: seq<Node>, b: seq<Node>, removed: set<Node>)
    ensures Kept(a + b, removed) == Kept(a, removed) + Kept(b, removed)
  {
    if a == [] {
      assert a + b == b;
    } else {
      assert (a + b)[1..] == a[1..] + b;
      KeptConcat(a[1..], b, removed);
    }
  }

  lemma {:induction false} KeptIn(s: seq<Node>, removed: set<Node>)
    ensures forall n | n in s && n !in removed :: n in Kept(s, removed)
    ensures forall n | n in Kept(s, removed) :: n in s && n !in removed
  {
    if s != [] {
      KeptIn(s[1..], removed);
    }
  }

  lemma {:induction false} KeptAll(s: seq<Node>, removed: set<Node>)
    requires forall i | 0 <= i < |s| :: s[i] !in removed
    ensures Kept(s, removed) == s
  {
    if s != [] {
      KeptAll(s[1..], removed);
    }
  }

  lemma {:induction false} KeptTwice(s: seq<Node>, first: set<Node>, second: set<Node>)
    ensures Kept(Kept(s, first), second) == Kept(s, first + second)
  {
    if s != [] {
      KeptTwice(s[1..], first, second);
      var r := Kept(s[1..], first);
      if s[0] in first {
        assert Kept(s, first) == r;
        assert Kept(s, first + second) == Kept(s[1..], first + second);
      } else {
        assert Kept(s, first)[1..] == r;
      }
    }
  }

  lemma {:induction false} KeptAscending(s: seq<Node>, removed: set<Node>)
    requires Ascending(s)
    ensures Ascending(Kept(s, removed))
  {
    hide Ascending;
    if s != [] {
      AscendingHead(s);
      KeptAscending(s[1..], removed);
      KeptIn(s[1..], removed);
      AscendingCons(s[0], s[1..], Kept(s[1..], removed));
      assert s[0] in removed ==> Kept(s, removed) == Kept(s[1..], removed);
    }
  }

  /** Removing one element is keeping all others. */
  lemma RemovedKept(s: seq<Node>, n: Node, s': seq<Node>)
    requires Ascending(s) && IsRemoved(s, n, s')
    ensures s' == Kept(s, {n})
  {
    hide Ascending, Kept, AllBelow, AllAbove;
    var i :| 0 <= i < |s| && s[i] == n && s' == s[..i] + s[i + 1..];
    var a, b := s[..i], s[i + 1..];
    assert s == a + [n] + b;
    AscendingAround(a, n, b);
    KeptConcat(a + [n], b, {n});
    KeptConcat(a, [n], {n});
    NotAmong(a, n);
    NotAmong(b, n);
    KeptAll(a, {n});
    KeptAll(b, {n});
    KeptNone(n);
    assert a + [] == a;
  }

  lemma NotAmong(s: seq<Node>, n: Node)
    requires AllBelow(s, n.key) || AllAbove(s, n.key)
    ensures forall i | 0 <= i < |s| :: s[i] !in {n}
  {}

  lemma KeptNone(n: Node)
    ensures Kept([n], {n}) == []
  {}
}
