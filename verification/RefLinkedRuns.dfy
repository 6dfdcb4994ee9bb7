/** Runs of reference-linked pointers. The links change as `RefLinkedBase` changes them; `members` says, the way a
    reference count would, which object each pointer shares. No step consults `members`: the theorem is that the
    links alone decide every destruction correctly. */
module RefLinkedRuns {
  import opened Common
  import opened Rings

  type Node = nat
  type Object = nat

  datatype State = State(
    next: map<Node, Node>, prev: map<Node, Node>,
    members: map<Node, Object>, created: set<Object>, destroyed: multiset<Object>)

  datatype Act = New(n: Node, o: Object) | Copy(rhs: Node, n: Node) | Swap(a: Node, b: Node) | Release(n: Node)

  const EMPTY := State(map[], map[], map[], {}, multiset{})

  /** What `Release` answers: `next_ == this`. */
  predicate AnswersLast(s: State, n: Node)
    requires n in s.next
  {
    s.next[n] == n
  }

  ghost predicate Step(s: State, a: Act, s': State) {
    match a
    case New(n, o) =>
      && n !in s.next && o !in s.created
      && s' == State(s.next[n := n], s.prev[n := n], s.members[n := o], s.created + {o}, s.destroyed)
    case Copy(rhs, n) =>
      && rhs in s.next && rhs in s.members && n !in s.next
      && s' == s.(next := s.next[n := s.next[rhs]][rhs := n],
                  prev := s.prev[n := rhs][s.next[rhs] := n],
                  members := s.members[n := s.members[rhs]])
    case Swap(x, y) =>
      && x in s.next && y in s.next && x in s.members && y in s.members
      && Conjugated(s.next, s'.next, x, y) && Conjugated(s.prev, s'.prev, x, y)
      && s'.members == s.members[x := s.members[y]][y := s.members[x]]
      && s'.created == s.created && s'.destroyed == s.destroyed
    case Release(n) =>
      && n in s.next && n in s.prev && n in s.members
      && s'.members == s.members - {n} && s'.created == s.created
      && if AnswersLast(s, n) then
           && s'.next == s.next - {n} && s'.prev == s.prev - {n}
           && s'.destroyed == s.destroyed + multiset{s.members[n]}
         else
           && s'.next == s.next[s.prev[n] := s.next[n]] - {n} && s'.prev == s.prev[s.next[n] := s.prev[n]] - {n}
           && s'.destroyed == s.destroyed
  }

  /** No other pointer shares the object of `n`. */
  ghost predicate IsLastReference(s: State, n: Node)
    requires n in s.members
  {
    forall m | m in s.members && s.members[m] == s.members[n] :: m == n
  }

  type Table = map<Object, seq<Node>>

  /** The ring of each object lists exactly the pointers that share it. */
  ghost predicate Lists(members: map<Node, Object>, rings: Table) {
    && (forall n {:trigger n in members} | n in members :: members[n] in rings && n in rings[members[n]])
    && (forall o, n {:trigger n in rings[o]} | o in rings && n in rings[o] :: n in members && members[n] == o)
  }

  ghost predicate RingsHold(next: map<Node, Node>, prev: map<Node, Node>, rings: Table) {
    forall o <- rings :: IsRing(next, prev, rings[o])
  }

  ghost predicate Represents(s: State, rings: Table) {
    && RingsHold(s.next, s.prev, rings)
    && Lists(s.members, rings)
    && s.next.Keys == s.prev.Keys == s.members.Keys
  }

  /** Every object created is shared by somebody or was destroyed once, and not both. */
  ghost predicate Balanced(s: State, rings: Table) {
    && rings.Keys <= s.created
    && forall o: Object :: s.destroyed[o] == if o in s.created && o !in rings then 1 else 0
  }

  // ---------------------------------------------------------------- one step

  lemma FindMember(s: State, rings: Table, n: Node) returns (i: nat)
    requires Represents(s, rings) && n in s.members
    ensures i < |rings[s.members[n]]| && rings[s.members[n]][i] == n
    ensures IsRing(s.next, s.prev, rings[s.members[n]])
  {
    i :| 0 <= i < |rings[s.members[n]]| && rings[s.members[n]][i] == n;
  }

  /** The links decide exactly what a reference count would. */
  lemma LastIffAlone(s: State, rings: Table, n: Node)
    requires Represents(s, rings) && n in s.members
    ensures AnswersLast(s, n) <==> |rings[s.members[n]]| == 1
    ensures AnswersLast(s, n) <==> IsLastReference(s, n)
  {
    var o := s.members[n];
    var i := FindMember(s, rings, n);
    assert LinkAt(s.next, s.prev, rings[o], i);
    if |rings[o]| == 1 {
      forall m | m in s.members && s.members[m] == o
        ensures m == n
      {
        assert m in rings[o];
      }
    } else {
      var m := rings[o][Succ(|rings[o]|, i)];
      assert m in rings[o] && m != n;
    }
  }

  /** A ring other than the ones a step touches keeps its links. */
  lemma OtherRing(s: State, s': State, rings: Table, o: Object)
    requires Represents(s, rings) && o in rings
    requires forall x <- rings[o] :: x in s.next && x in s.prev ==>
                                      x in s'.next && x in s'.prev && s'.next[x] == s.next[x] && s'.prev[x] == s.prev[x]
    ensures IsRing(s'.next, s'.prev, rings[o])
  {
    RingFrame(s.next, s.prev, s'.next, s'.prev, rings[o]);
  }

  lemma NotInTwoRings(members: map<Node, Object>, rings: Table, o: Object, k: nat, o': Object)
    requires Lists(members, rings) && o in rings && o' in rings && o != o' && k < |rings[o]|
    ensures rings[o][k] !in rings[o']
  {
    assert rings[o][k] in rings[o];
  }

  lemma NewStep(s: State, n: Node, o: Object, s': State, rings: Table) returns (rings': Table)
    requires Represents(s, rings) && Balanced(s, rings) && Step(s, New(n, o), s')
    ensures Represents(s', rings') && Balanced(s', rings')
  {
    rings' := rings[o := [n]];
    assert LinkAt(s'.next, s'.prev, [n], 0);
    forall o' | o' in rings
      ensures IsRing(s'.next, s'.prev, rings[o'])
    {
      OtherRing(s, s', rings, o');
    }
  }

  lemma CopyStep(s: State, rhs: Node, n: Node, s': State, rings: Table) returns (rings': Table)
    requires Represents(s, rings) && Balanced(s, rings) && Step(s, Copy(rhs, n), s')
    ensures Represents(s', rings') && Balanced(s', rings')
  {
    var o := s.members[rhs];
    var i := FindMember(s, rings, rhs);
    rings' := rings[o := Inserted(rings[o], i, n)];
    assert LinkAt(s.next, s.prev, rings[o], i);
    InsertKeepsRing(s.next, s.prev, s'.next, s'.prev, rings[o], i, n);
    forall o' | o' in rings' && o' != o
      ensures IsRing(s'.next, s'.prev, rings'[o'])
    {
      NotInTwoRings(s.members, rings, o, i, o');
      NotInTwoRings(s.members, rings, o, Succ(|rings[o]|, i), o');
      OtherRing(s, s', rings, o');
    }
    InsertedMembers(rings[o], i, n);
  }

  lemma InsertedMembers(r: seq<Node>, i: nat, n: Node)
    requires i < |r|
    ensures forall m :: m in Inserted(r, i, n) <==> m == n || m in r
  {
  }

  function ExchangedTable(a: Node, b: Node, rings: Table): (t: Table)
    ensures t.Keys == rings.Keys
    ensures forall o <- rings :: t[o] == Exchanged(a, b, rings[o])
  {
    map o <- rings :: Exchanged(a, b, rings[o])
  }

  lemma SwapStep(s: State, a: Node, b: Node, s': State, rings: Table) returns (rings': Table)
    requires Represents(s, rings) && Balanced(s, rings) && Step(s, Swap(a, b), s')
    ensures Represents(s', rings') && Balanced(s', rings')
  {
    rings' := ExchangedTable(a, b, rings);
    ExchangeKeepsRings(s, a, b, s', rings);
    ExchangeKeepsLists(s.members, rings, a, b);
    assert s'.members.Keys == s.members.Keys;
  }

  lemma ExchangeKeepsRings(s: State, a: Node, b: Node, s': State, rings: Table)
    requires RingsHold(s.next, s.prev, rings)
    requires Conjugated(s.next, s'.next, a, b) && Conjugated(s.prev, s'.prev, a, b)
    ensures RingsHold(s'.next, s'.prev, ExchangedTable(a, b, rings))
  {
    forall o | o in rings
      ensures IsRing(s'.next, s'.prev, ExchangedTable(a, b, rings)[o])
    {
      ExchangeKeepsRing(s.next, s.prev, s'.next, s'.prev, a, b, rings[o]);
    }
  }

  lemma ExchangeKeepsLists(members: map<Node, Object>, rings: Table, a: Node, b: Node)
    requires Lists(members, rings) && a in members && b in members
    ensures Lists(members[a := members[b]][b := members[a]], ExchangedTable(a, b, rings))
  {
    var members', rings' := members[a := members[b]][b := members[a]], ExchangedTable(a, b, rings);
    forall n | n in members'
      ensures members'[n] in rings' && n in rings'[members'[n]]
    {
      var m := Exchange(a, b, n);
      assert m in members && members'[n] == members[m];
      ExchangedMembers(a, b, rings[members[m]], n);
    }
    forall o, n | o in rings' && n in rings'[o]
      ensures n in members' && members'[n] == o
    {
      ExchangedMembers(a, b, rings[o], n);
      assert Exchange(a, b, n) in rings[o];
    }
  }

  lemma ExchangedMembers(a: Node, b: Node, r: seq<Node>, m: Node)
    ensures m in Exchanged(a, b, r) <==> Exchange(a, b, m) in r
  {
    if i :| 0 <= i < |r| && r[i] == Exchange(a, b, m) {
      assert Exchanged(a, b, r)[i] == m;
    }
  }

  lemma ReleaseStep(s: State, n: Node, s': State, rings: Table) returns (rings': Table)
    requires Represents(s, rings) && Balanced(s, rings) && Step(s, Release(n), s')
    ensures Represents(s', rings') && Balanced(s', rings')
  {
    LastIffAlone(s, rings, n);
    if AnswersLast(s, n) {
      rings' := ReleaseLast(s, n, s', rings);
    } else {
      rings' := ReleaseOther(s, n, s', rings);
    }
  }

  lemma ReleaseLast(s: State, n: Node, s': State, rings: Table) returns (rings': Table)
    requires Represents(s, rings) && Balanced(s, rings) && Step(s, Release(n), s')
    requires |rings[s.members[n]]| == 1 && AnswersLast(s, n)
    ensures Represents(s', rings') && Balanced(s', rings')
  {
    var o := s.members[n];
    var i := FindMember(s, rings, n);
    rings' := rings - {o};
    forall o' | o' in rings'
      ensures IsRing(s'.next, s'.prev, rings'[o'])
    {
      NotInTwoRings(s.members, rings, o, i, o');
      OtherRing(s, s', rings, o');
    }
  }

  lemma ReleaseOther(s: State, n: Node, s': State, rings: Table) returns (rings': Table)
    requires Represents(s, rings) && Balanced(s, rings) && Step(s, Release(n), s')
    requires |rings[s.members[n]]| != 1 && !AnswersLast(s, n)
    ensures Represents(s', rings') && Balanced(s', rings')
  {
    var o := s.members[n];
    var i := FindMember(s, rings, n);
    var r := rings[o];
    var h, k := Pred(|r|, i), Succ(|r|, i);
    assert LinkAt(s.next, s.prev, r, i) && LinkAt(s.next, s.prev, r, h);
    rings' := rings[o := Without(r, i)];
    WithoutMembers(r, i);
    var next1, prev1 := s.next[r[h] := r[k]], s.prev[r[k] := r[h]];
    RemoveKeepsRing(s.next, s.prev, next1, prev1, r, i);
    RingFrame(next1, prev1, s'.next, s'.prev, Without(r, i));
    forall o' | o' in rings' && o' != o
      ensures IsRing(s'.next, s'.prev, rings'[o'])
    {
      NotInTwoRings(s.members, rings, o, i, o');
      NotInTwoRings(s.members, rings, o, h, o');
      NotInTwoRings(s.members, rings, o, k, o');
      OtherRing(s, s', rings, o');
    }
  }

  lemma WithoutMembers(r: seq<Node>, i: nat)
    requires i < |r| && Distinct(r)
    ensures forall m :: m in Without(r, i) <==> m != r[i] && m in r
  {
  }

  lemma StepKeeps(s: State, a: Act, s': State, rings: Table) returns (rings': Table)
    requires Represents(s, rings) && Balanced(s, rings) && Step(s, a, s')
    ensures Represents(s', rings') && Balanced(s', rings')
  {
    match a
    case New(n, o) => rings' := NewStep(s, n, o, s', rings);
    case Copy(rhs, n) => rings' := CopyStep(s, rhs, n, s', rings);
    case Swap(x, y) => rings' := SwapStep(s, x, y, s', rings);
    case Release(n) => rings' := ReleaseStep(s, n, s', rings);
  }

  // ---------------------------------------------------------------- runs

  ghost predicate IsRun(trace: seq<State>, acts: seq<Act>) {
    && |trace| == |acts| + 1
    && trace[0] == EMPTY
    && forall i {:trigger acts[i]} | 0 <= i < |acts| :: Step(trace[i], acts[i], trace[i + 1])
  }

  lemma {:induction false} RunKeepsRings(trace: seq<State>, acts: seq<Act>, i: nat) returns (rings: Table)
    requires IsRun(trace, acts) && i < |trace|
    ensures Represents(trace[i], rings) && Balanced(trace[i], rings)
  {
    if i == 0 {
      rings := map[];
    } else {
      rings := RunKeepsRings(trace, acts, i - 1);
      var s, a, s' := trace[i - 1], acts[i - 1], trace[i];
      rings := StepKeeps(s, a, s', rings);
    }
  }

  /** In every run, `Release` answers true for exactly the last pointer that shares its object. */
  lemma ReleaseDestroysWithLastReference(trace: seq<State>, acts: seq<Act>, i: nat)
    requires IsRun(trace, acts) && i < |acts| && acts[i].Release?
    ensures acts[i].n in trace[i].next && acts[i].n in trace[i].members
    ensures AnswersLast(trace[i], acts[i].n) <==> IsLastReference(trace[i], acts[i].n)
  {
    var rings := RunKeepsRings(trace, acts, i);
    LastIffAlone(trace[i], rings, acts[i].n);
  }

  /** In every state of every run: an object that some pointer shares has not been destroyed, and an object created
      that no pointer shares any more has been destroyed exactly once. */
  lemma DestroyedOnce(trace: seq<State>, acts: seq<Act>, i: nat, o: Object)
    requires IsRun(trace, acts) && i < |trace| && o in trace[i].created
    ensures trace[i].destroyed[o] == if o in trace[i].members.Values then 0 else 1
  {
    var rings := RunKeepsRings(trace, acts, i);
    var s := trace[i];
    if o in rings {
      assert IsRing(s.next, s.prev, rings[o]);
      var n := rings[o][0];
      assert n in rings[o];
      assert s.members[n] == o;
    }
  }
}
