/** The abstract type that both trees implement: a finite map from keys to elements,
    with answers that depend on the order of the keys. */
module OrderedMap {
  import opened Elements

  datatype Op =
    | Insert(elm: Node)
    | Remove(elm: Node)      // elm itself is in the map
    | RemoveKey(elm: Node)   // whatever has the key of elm
    | Find(elm: Node)
    | NFind(elm: Node)
    | First
    | Last

  type State = map<int, Node>

  ghost predicate Legal(m: State, op: Op) {
    op.Remove? ==> op.elm.key in m && m[op.elm.key] == op.elm
  }

  ghost function Then(m: State, op: Op): State {
    match op
    case Insert(n) => if n.key in m then m else m[n.key := n]
    case Remove(n) => m - {n.key}
    case RemoveKey(n) => m - {n.key}
    case _ => m
  }

  /** r is the right answer to op in m. */
  ghost predicate Answer(m: State, op: Op, r: Node?) {
    match op
    case Insert(n) => r == if n.key in m then m[n.key] else null
    case Remove(n) => r == n
    case RemoveKey(n) => r == if n.key in m then n else null
    case Find(n) => r == if n.key in m then m[n.key] else null
    case NFind(n) =>
      if r == null then forall key | key in m :: key < n.key
      else r.key in m && m[r.key] == r && n.key <= r.key && forall key | key in m && n.key <= key :: r.key <= key
    case First =>
      if r == null then m == map[] else r.key in m && m[r.key] == r && forall key | key in m :: r.key <= key
    case Last =>
      if r == null then m == map[] else r.key in m && m[r.key] == r && forall key | key in m :: key <= r.key
  }

  /** There is only one right answer. */
  lemma AnswerUnique(m: State, op: Op, r: Node?, r': Node?)
    requires Answer(m, op, r) && Answer(m, op, r')
    ensures r == r'
  {
    if r != null && r' != null && (op.NFind? || op.First? || op.Last?) {
      assert r.key == r'.key;
    }
  }

  // ---------- runs ----------

  ghost predicate AllLegal(m: State, ops: seq<Op>)
    decreases |ops|
  {
    ops == [] || (Legal(m, ops[0]) && AllLegal(Then(m, ops[0]), ops[1..]))
  }

  ghost function ThenAll(m: State, ops: seq<Op>): State
    decreases |ops|
  {
    if ops == [] then m else ThenAll(Then(m, ops[0]), ops[1..])
  }

  ghost predicate Answers(m: State, ops: seq<Op>, rs: seq<Node?>)
    decreases |ops|
  {
    |rs| == |ops| && (ops == [] || (Answer(m, ops[0], rs[0]) && Answers(Then(m, ops[0]), ops[1..], rs[1..])))
  }

  lemma NoAnswers(m: State)
    ensures Answers(m, [], [])
  {}

  lemma FirstAnswer(m: State, ops: seq<Op>, r: Node?, rest: seq<Node?>)
    requires ops != [] && Answer(m, ops[0], r) && Answers(Then(m, ops[0]), ops[1..], rest)
    ensures Answers(m, ops, [r] + rest)
  {
    hide Answer, Then;
    assert ([r] + rest)[1..] == rest;
  }

  /** A run has only one right sequence of answers. */
  lemma {:induction false} AnswersUnique(m: State, ops: seq<Op>, rs: seq<Node?>, rs': seq<Node?>)
    requires Answers(m, ops, rs) && Answers(m, ops, rs')
    ensures rs == rs'
    decreases |ops|
  {
    hide Answer, Then;
    if ops != [] {
      AnswerUnique(m, ops[0], rs[0], rs'[0]);
      AnswersUnique(Then(m, ops[0]), ops[1..], rs[1..], rs'[1..]);
      assert rs == [rs[0]] + rs[1..] && rs' == [rs'[0]] + rs'[1..];
    }
  }

  ghost function Subject(op: Op): set<Node> {
    if op.First? || op.Last? then {} else {op.elm}
  }

  ghost function Subjects(ops: seq<Op>): set<Node>
    decreases |ops|
  {
    if ops == [] then {} else Subject(ops[0]) + Subjects(ops[1..])
  }

  // ---------- ascending sequences as maps ----------

  ghost function Keys(s: seq<Node>): set<int> {
    set i | 0 <= i < |s| :: s[i].key
  }

  ghost function MapOf(s: seq<Node>): (m: State)
    ensures forall key | key in m :: m[key].key == key
  {
    map key | key in Keys(s) :: Lookup(s, key)
  }

  lemma MapOfElement(s: seq<Node>, i: nat)
    requires Ascending(s) && i < |s|
    ensures s[i].key in MapOf(s) && MapOf(s)[s[i].key] == s[i]
  {
    LookupHit(s, s[i]);
  }

  lemma MapOfKey(s: seq<Node>, key: int) returns (i: nat)
    requires Ascending(s) && key in MapOf(s)
    ensures i < |s| && s[i].key == key && s[i] == MapOf(s)[key]
  {
    i :| 0 <= i < |s| && s[i].key == key;
    MapOfElement(s, i);
  }

  lemma MapOfMiss(s: seq<Node>, key: int)
    requires forall i | 0 <= i < |s| :: s[i].key != key
    ensures key !in MapOf(s)
  {}

  lemma MapOfLookup(s: seq<Node>, key: int)
    ensures Lookup(s, key) == if key in MapOf(s) then MapOf(s)[key] else null
  {}

  lemma MapsEqual(s: seq<Node>, m: State)
    requires Ascending(s)
    requires forall i | 0 <= i < |s| :: s[i].key in m && m[s[i].key] == s[i]
    requires forall key | key in m :: exists i | 0 <= i < |s| :: s[i].key == key
    ensures MapOf(s) == m
  {
    forall key | key in m ensures key in MapOf(s) && MapOf(s)[key] == m[key] {
      var i :| 0 <= i < |s| && s[i].key == key;
      MapOfElement(s, i);
    }
    assert MapOf(s).Keys == m.Keys;
  }

  lemma MapOfInserted(s: seq<Node>, n: Node, s': seq<Node>)
    requires Ascending(s) && Ascending(s') && IsInserted(s, n, s')
    ensures n.key !in MapOf(s) && MapOf(s') == MapOf(s)[n.key := n]
  {
    hide Ascending, MapOf, AllBelow, AllAbove;
    var i :| 0 <= i <= |s| && s' == s[..i] + [n] + s[i..];
    NewKey(s, n, i);
    MapOfMiss(s, n.key);
    InsertedElements(s, n, i);
    InsertedKeys(s, n, i);
    MapsEqual(s', MapOf(s)[n.key := n]);
  }

  lemma NewKey(s: seq<Node>, n: Node, i: nat)
    requires i <= |s| && Ascending(s[..i] + [n] + s[i..])
    ensures forall j | 0 <= j < |s| :: s[j].key != n.key
  {
    hide Ascending;
    AscendingAround(s[..i], n, s[i..]);
    forall j | 0 <= j < |s| ensures s[j].key != n.key {
      assert s[j] == if j < i then s[..i][j] else s[i..][j - i];
    }
  }

  lemma InsertedElements(s: seq<Node>, n: Node, i: nat)
    requires Ascending(s) && i <= |s| && forall j | 0 <= j < |s| :: s[j].key != n.key
    ensures var s', m := s[..i] + [n] + s[i..], MapOf(s)[n.key := n];
            forall j | 0 <= j < |s'| :: s'[j].key in m && m[s'[j].key] == s'[j]
  {
    hide Ascending, MapOf;
    var s', m := s[..i] + [n] + s[i..], MapOf(s)[n.key := n];
    forall j | 0 <= j < |s'| ensures s'[j].key in m && m[s'[j].key] == s'[j] {
      if j != i {
        var j' := if j < i then j else j - 1;
        assert s'[j] == s[j'];
        MapOfElement(s, j');
      }
    }
  }

  lemma InsertedKeys(s: seq<Node>, n: Node, i: nat)
    requires Ascending(s) && i <= |s|
    ensures var s', m := s[..i] + [n] + s[i..], MapOf(s)[n.key := n];
            forall key | key in m :: exists j | 0 <= j < |s'| :: s'[j].key == key
  {
    hide Ascending, MapOf;
    var s', m := s[..i] + [n] + s[i..], MapOf(s)[n.key := n];
    forall key | key in m ensures exists j | 0 <= j < |s'| :: s'[j].key == key {
      if key == n.key {
        assert s'[i].key == key;
      } else {
        var j := MapOfKey(s, key);
        assert s'[if j < i then j else j + 1] == s[j];
      }
    }
  }

  lemma MapOfRemoved(s: seq<Node>, n: Node, s': seq<Node>)
    requires Ascending(s) && Ascending(s') && IsRemoved(s, n, s')
    ensures n.key in MapOf(s) && MapOf(s') == MapOf(s) - {n.key}
  {
    hide Ascending, MapOf;
    var i :| 0 <= i < |s| && s[i] == n && s' == s[..i] + s[i + 1..];
    MapOfElement(s, i);
    RemovedElements(s, i);
    RemovedKeys(s, i);
    MapsEqual(s', MapOf(s) - {n.key});
  }

  lemma RemovedElements(s: seq<Node>, i: nat)
    requires Ascending(s) && i < |s|
    ensures var s', m := s[..i] + s[i + 1..], MapOf(s) - {s[i].key};
            forall j | 0 <= j < |s'| :: s'[j].key in m && m[s'[j].key] == s'[j]
  {
    hide Ascending, MapOf;
    var s', m := s[..i] + s[i + 1..], MapOf(s) - {s[i].key};
    forall j | 0 <= j < |s'| ensures s'[j].key in m && m[s'[j].key] == s'[j] {
      var j' := if j < i then j else j + 1;
      assert s'[j] == s[j'];
      MapOfElement(s, j');
      OtherKey(s, i, j');
    }
  }

  lemma OtherKey(s: seq<Node>, i: nat, j: nat)
    requires Ascending(s) && i < |s| && j < |s| && i != j
    ensures s[i].key != s[j].key
  {}

  lemma RemovedKeys(s: seq<Node>, i: nat)
    requires Ascending(s) && i < |s|
    ensures var s', m := s[..i] + s[i + 1..], MapOf(s) - {s[i].key};
            forall key | key in m :: exists j | 0 <= j < |s'| :: s'[j].key == key
  {
    hide Ascending, MapOf;
    var s', m := s[..i] + s[i + 1..], MapOf(s) - {s[i].key};
    forall key | key in m ensures exists j | 0 <= j < |s'| :: s'[j].key == key {
      var j := MapOfKey(s, key);
      assert s'[if j < i then j else j - 1] == s[j];
    }
  }

  lemma CeilingAnswer(s: seq<Node>, elm: Node, r: Node?)
    requires Ascending(s) && IsCeiling(s, elm.key, r)
    ensures Answer(MapOf(s), NFind(elm), r)
  {
    hide MapOf;
    if r == null {
      forall key | key in MapOf(s) ensures key < elm.key {
        var j := MapOfKey(s, key);
      }
    } else {
      var i :| 0 <= i < |s| && s[i] == r && elm.key <= r.key && AllBelow(s[..i], elm.key);
      MapOfElement(s, i);
      forall j | 0 <= j < i ensures s[j].key < elm.key {
        assert s[..i][j] == s[j];
      }
      forall key | key in MapOf(s) && elm.key <= key ensures r.key <= key {
        var j := MapOfKey(s, key);
      }
    }
  }

  lemma EndAnswers(s: seq<Node>)
    requires Ascending(s)
    ensures Answer(MapOf(s), First, NodeAt(s, 0)) && Answer(MapOf(s), Last, NodeAt(s, |s| - 1))
  {
    hide MapOf;
    if s == [] {
      assert MapOf(s) == map[] by {
        MapsEqual(s, map[]);
      }
    } else {
      MapOfElement(s, 0);
      MapOfElement(s, |s| - 1);
      forall key | key in MapOf(s) ensures s[0].key <= key <= s[|s| - 1].key {
        var j := MapOfKey(s, key);
      }
    }
  }
}
