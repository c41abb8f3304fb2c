// src/ids/bits.rs: Set64, a set of numbers below 64 held in one machine word.
module Voters {
  /** An index the set can hold; a larger shift is out of contract. */
  type Member = i: bv64 | i < 64

  function Single(i: Member): bv64 {
    1 << i
  }

  /** Bit i of the word is 1. */
  predicate Contains(w: bv64, i: Member) {
    (w >> i) & 1 == 1
  }

  /** The numbers below n that the word holds. */
  function MembersBelow(w: bv64, n: bv64): set<Member>
    requires n <= 64
    decreases n, w
  {
    if n == 0 then {} else MembersBelow(w, n - 1) + (if Contains(w, n - 1) then {n - 1} else {})
  }

  /** The set that the word stands for: the positions of its 1 bits. */
  function Members(w: bv64): set<Member> {
    MembersBelow(w, 64)
  }

  lemma {:induction false} MembersBelowAre(w: bv64, n: bv64, i: Member)
    requires n <= 64
    ensures i in MembersBelow(w, n) <==> i < n && Contains(w, i)
    decreases n, w
  {
    if n > 0 {
      MembersBelowAre(w, n - 1, i);
    }
  }

  lemma MembersAre(w: bv64)
    ensures forall i: Member :: i in Members(w) <==> Contains(w, i)
  {
    forall i: Member
      ensures i in Members(w) <==> Contains(w, i)
    {
      MembersBelowAre(w, 64, i);
    }
  }

  /** The number of 1 bits at positions below n: the size of the set they stand for. */
  function OnesBelow(w: bv64, n: bv64): (c: nat)
    requires n <= 64
    ensures c == |MembersBelow(w, n)|
    decreases n, w
  {
    if n == 0 then 0
    else
      MembersBelowAre(w, n - 1, n - 1);
      OnesBelow(w, n - 1) + (if Contains(w, n - 1) then 1 else 0)
  }

  // ---- one bit of the word operations ----

  lemma MaskContains(w: bv64, i: Member)
    ensures w & Single(i) != 0 <==> Contains(w, i)
  {
  }

  lemma SingleContains(i: Member, j: Member)
    ensures Contains(Single(i), j) <==> i == j
  {
  }

  lemma OrContains(w: bv64, v: bv64, i: Member)
    ensures Contains(w | v, i) <==> Contains(w, i) || Contains(v, i)
  {
  }

  lemma AndContains(w: bv64, v: bv64, i: Member)
    ensures Contains(w & v, i) <==> Contains(w, i) && Contains(v, i)
  {
  }

  lemma AndNotContains(w: bv64, v: bv64, i: Member)
    ensures Contains(w & !v, i) <==> Contains(w, i) && !Contains(v, i)
  {
  }

  /** The membership test, with a mask instead of a shifted word. */
  predicate Tests(w: bv64, i: Member)
    ensures Tests(w, i) <==> Contains(w, i)
  {
    MaskContains(w, i);
    w & Single(i) != 0
  }

  // ---- the word operations are the set operations ----

  lemma SingleMembers(i: Member)
    ensures Members(Single(i)) == {i}
  {
    MembersAre(Single(i));
    forall j: Member
      ensures j in Members(Single(i)) <==> j == i
    {
      SingleContains(i, j);
    }
  }

  lemma OrMembers(w: bv64, v: bv64, r: bv64)
    requires r == w | v
    ensures Members(r) == Members(w) + Members(v)
  {
    MembersAre(w);
    MembersAre(v);
    MembersAre(r);
    forall j: Member
      ensures Contains(r, j) <==> Contains(w, j) || Contains(v, j)
    {
      OrContains(w, v, j);
    }
  }

  lemma AndMembers(w: bv64, v: bv64, r: bv64)
    requires r == w & v
    ensures Members(r) == Members(w) * Members(v)
  {
    MembersAre(w);
    MembersAre(v);
    MembersAre(r);
    forall j: Member
      ensures Contains(r, j) <==> Contains(w, j) && Contains(v, j)
    {
      AndContains(w, v, j);
    }
  }

  lemma AndNotMembers(w: bv64, v: bv64, r: bv64)
    requires r == w & !v
    ensures Members(r) == Members(w) - Members(v)
  {
    MembersAre(w);
    MembersAre(v);
    MembersAre(r);
    forall j: Member
      ensures Contains(r, j) <==> Contains(w, j) && !Contains(v, j)
    {
      AndNotContains(w, v, j);
    }
  }

  class Set64 {
    var word: bv64

    function Elements(): set<Member>
      reads this
    {
      Members(word)
    }

    constructor ()
      ensures Elements() == {}
    {
      word := 0;
      MembersAre(0);
    }

    /** A copy: Set64 is copied when it is passed. */
    constructor Copy(s: Set64)
      ensures Elements() == s.Elements()
    {
      word := s.word;
    }

    method Add(i: Member)
      modifies this
      ensures Elements() == old(Elements()) + {i}
    {
      word := word | (1 << i);
      OrMembers(old(word), Single(i), word);
      SingleMembers(i);
    }

    method Union(s: Set64)
      modifies this
      ensures Elements() == old(Elements() + s.Elements())
    {
      word := word | s.word;
      OrMembers(old(word), old(s.word), word);
    }

    method Intersection(s: Set64)
      modifies this
      ensures Elements() == old(Elements() * s.Elements())
    {
      word := word & s.word;
      AndMembers(old(word), old(s.word), word);
    }

    method Difference(s: Set64)
      modifies this
      ensures Elements() == old(Elements() - s.Elements())
    {
      word := word & !s.word;
      AndNotMembers(old(word), old(s.word), word);
    }

    method Remove(i: Member)
      modifies this
      ensures Elements() == old(Elements()) - {i}
    {
      word := word & !((1 as bv64) << i);
      AndNotMembers(old(word), Single(i), word);
      SingleMembers(i);
    }

    method Clear()
      modifies this
      ensures Elements() == {}
    {
      word := 0;
      MembersAre(0);
    }

    method Has(i: Member) returns (r: bool)
      ensures r <==> i in Elements()
    {
      MembersAre(word);
      r := Tests(word, i);
    }

    /** count_ones, position by position. */
    method Len() returns (n: nat)
      ensures n == |Elements()|
    {
      n := OnesBelow(word, 64);
    }

    method IsEmpty() returns (r: bool)
      ensures r <==> Elements() == {}
    {
      var n := Len();
      r := n == 0;
    }
  }
}
