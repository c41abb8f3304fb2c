// src/ids/bag.rs: Unique, a map from an id to the set of voters that chose it. Every set sits in a cell of its own.
module Uniques {
  import opened Ids
  import opened Bags
  import opened Voters

  /** What the cells of a Unique hold. */
  type View = map<Id, set<Member>>

  function SetOf(v: View, id: Id): set<Member> {
    if id in v then v[id] else {}
  }

  /** The votes: pairs of an id and a voter. */
  ghost function Pairs(v: View): set<(Id, Member)> {
    set id, i | id in v && i in v[id] :: (id, i)
  }

  ghost function Voted(id: Id, s: set<Member>): set<(Id, Member)> {
    set i | i in s :: (id, i)
  }

  // ---- the operations on cells are set operations on votes ----

  ghost function Unioned(v: View, id: Id, s: set<Member>): View {
    v[id := SetOf(v, id) + s]
  }

  ghost function Lessened(v: View, id: Id, s: set<Member>): View {
    if id in v then v[id := v[id] - s] else v
  }

  ghost function AddedTo(v: View, ids: seq<Id>, s: set<Member>): View {
    if ids == [] then v else Unioned(AddedTo(v, ids[..|ids| - 1], s), ids[|ids| - 1], s)
  }

  ghost function Without(v: View, d: View): View {
    map id | id in v :: v[id] - SetOf(d, id)
  }

  lemma UnionedPairs(v: View, id: Id, s: set<Member>)
    ensures Pairs(Unioned(v, id, s)) == Pairs(v) + Voted(id, s)
  {
  }

  lemma LessenedPairs(v: View, id: Id, s: set<Member>)
    ensures Pairs(Lessened(v, id, s)) == Pairs(v) - Voted(id, s)
  {
  }

  lemma {:induction false} AddedPairs(v: View, ids: seq<Id>, i: Member)
    ensures Pairs(AddedTo(v, ids, {i})) == Pairs(v) + set id | id in ids :: (id, i)
  {
    if ids != [] {
      var n := |ids| - 1;
      AddedPairs(v, ids[..n], i);
      UnionedPairs(AddedTo(v, ids[..n], {i}), ids[n], {i});
      assert ids == ids[..n] + [ids[n]];
    }
  }

  lemma WithoutPairs(v: View, d: View)
    ensures Pairs(Without(v, d)) == Pairs(v) - Pairs(d)
  {
  }

  lemma RemovedPairs(v: View, id: Id)
    ensures Pairs(v - {id}) == Pairs(v) - Voted(id, SetOf(v, id))
  {
  }

  // ---- tallying ----

  /** Each id with the number of its voters; ids without voters are dropped. */
  ghost function Tally(v: View): Counts {
    map id | id in v && v[id] != {} :: |v[id]|
  }

  lemma VotedSize(id: Id, s: set<Member>)
    ensures |Voted(id, s)| == |s|
    decreases s
  {
    if s != {} {
      var i :| i in s;
      VotedSize(id, s - {i});
      assert Voted(id, s) == Voted(id, s - {i}) + {(id, i)};
    }
  }

  lemma PairsWithout(v: View, id: Id)
    requires id in v
    ensures |Pairs(v)| == |Pairs(v - {id})| + |v[id]|
  {
    VotedSize(id, v[id]);
    assert Pairs(v) == Pairs(v - {id}) + Voted(id, v[id]);
  }

  lemma TallyWithout(v: View, id: Id)
    requires id in v
    ensures Total(Tally(v)) == Total(Tally(v - {id})) + |v[id]|
  {
    assert Tally(v) - {id} == Tally(v - {id});
    if v[id] != {} {
      TotalWithout(Tally(v), id);
    } else {
      assert Tally(v) == Tally(v - {id});
    }
  }

  /** The counts add up to the number of votes. */
  lemma {:induction false} TallyTotal(v: View)
    ensures Total(Tally(v)) == |Pairs(v)|
    decreases |v|
  {
    if v == map[] {
      assert Tally(v) == map[] && Pairs(v) == {};
    } else {
      var id :| id in v;
      TallyTotal(v - {id});
      PairsWithout(v, id);
      TallyWithout(v, id);
    }
  }

  /** One id more of a tally: rest is still to be looked at. */
  lemma TallyStep(v: View, rest: set<Id>, id: Id)
    requires id in rest && rest <= v.Keys
    ensures var sofar := Tally(v - rest);
            && id !in sofar
            && Total(sofar) + |v[id]| <= Total(Tally(v))
            && Tally(v - (rest - {id})) == if |v[id]| == 0 then sofar else sofar[id := |v[id]|]
  {
    var sofar, after := Tally(v - rest), Tally(v - (rest - {id}));
    assert |v[id]| == 0 <==> v[id] == {};
    assert after == if |v[id]| == 0 then sofar else sofar[id := |v[id]|];
    TotalPut(sofar, id, |v[id]|);
    TotalPart(after, Tally(v));
    TotalPart(sofar, Tally(v));
  }

  ghost predicate Tallied(b: Bag, v: View, alpha: nat)
    reads b
  {
    b.Valid() && b.threshold == alpha && b.counts == Tally(v)
  }

  lemma TalliedAll(b: Bag, v: View, rest: set<Id>, alpha: nat)
    requires rest == {} && Tallied(b, v - rest, alpha)
    ensures b.counts == Tally(v) && b.threshold == alpha && b.size == |Pairs(v)| && b.Valid()
    ensures b.met == Met(Tally(v), alpha)
  {
    assert v - rest == v;
    TallyTotal(v);
  }

  method NewTally(alpha: nat, ghost v: View) returns (b: Bag)
    ensures fresh(b) && Tallied(b, v - v.Keys, alpha)
  {
    b := new Bag();
    b.SetThreshold(alpha);
    assert v - v.Keys == map[];
  }

  /** One step of the loop in bag. */
  method AddTallied(b: Bag, id: Id, n: nat, ghost v: View, ghost rest: set<Id>, ghost alpha: nat)
    requires Tallied(b, v - rest, alpha) && Total(Tally(v)) <= MAX_U32
    requires id in rest && rest <= v.Keys && n == |v[id]|
    modifies b
    ensures Tallied(b, v - (rest - {id}), alpha)
  {
    TallyStep(v, rest, id);
    b.AddCount(id, n);
  }

  class Unique {
    var cells: map<Id, Set64>

    /** No cell serves two ids. */
    ghost predicate Valid()
      reads this
    {
      forall a, b | a in cells && b in cells && a != b :: cells[a] != cells[b]
    }

    ghost function Now(): View
      reads this, cells.Values
    {
      map id | id in cells :: cells[id].Elements()
    }

    constructor ()
      ensures Valid() && Now() == map[] && cells == map[]
    {
      cells := map[];
    }

    /** The set is passed by value: the cell of id ends up with its elements, not with the object. */
    method UnionSet(id: Id, s: Set64)
      requires Valid()
      modifies this, cells.Values
      ensures Valid() && fresh(cells.Values - old(cells.Values))
      ensures Now() == Unioned(old(Now()), id, old(s.Elements()))
    {
      if id in cells {
        cells[id].Union(s);
        return;
      }
      var c := new Set64.Copy(s);
      cells := cells[id := c];
      assert {} + c.Elements() == c.Elements();
    }

    method DifferenceSet(id: Id, s: Set64)
      requires Valid()
      modifies cells.Values
      ensures Valid()
      ensures Now() == Lessened(old(Now()), id, old(s.Elements()))
    {
      if id in cells {
        cells[id].Difference(s);
      }
    }

    method Add(setId: Member, ids: seq<Id>)
      requires Valid()
      modifies this, cells.Values
      ensures Valid() && fresh(cells.Values - old(cells.Values))
      ensures Now() == AddedTo(old(Now()), ids, {setId})
    {
      var bs := new Set64();
      bs.Add(setId);
      for n := 0 to |ids|
        invariant Valid() && fresh(cells.Values - old(cells.Values))
        invariant bs !in cells.Values && bs.Elements() == {setId}
        invariant Now() == AddedTo(old(Now()), ids[..n], {setId})
      {
        assert ids[..n + 1][..n] == ids[..n];
        UnionSet(ids[n], bs);
      }
      assert ids[..|ids|] == ids;
    }

    /** With itself as argument, or with shared cells, the call is out of contract. */
    method Difference(diff: Unique)
      requires Valid() && diff.Valid()
      requires this != diff && cells.Values !! diff.cells.Values
      modifies cells.Values
      ensures Valid()
      ensures Now() == Without(old(Now()), diff.Now())
    {
      var rest := cells.Keys;
      while rest != {}
        invariant rest <= cells.Keys
        invariant forall id | id in rest :: cells[id].Elements() == old(cells[id].Elements())
        invariant forall id | id in cells && id !in rest ::
                    cells[id].Elements() == old(cells[id].Elements()) - SetOf(old(diff.Now()), id)
      {
        var id :| id in rest;
        rest := rest - {id};
        if id in diff.cells {
          var vv := new Set64.Copy(diff.cells[id]);
          cells[id].Difference(vv);
        }
      }
    }

    method GetSet(id: Id) returns (s: Set64)
      ensures fresh(s) && s.Elements() == SetOf(Now(), id)
    {
      if id in cells {
        s := new Set64.Copy(cells[id]);
      } else {
        s := new Set64();
      }
    }

    method RemoveSet(id: Id)
      requires Valid()
      modifies this
      ensures Valid() && Now() == old(Now()) - {id}
    {
      cells := cells - {id};
    }

    method Clear()
      modifies this
      ensures Valid() && Now() == map[]
    {
      cells := map[];
    }

    ghost predicate Shows(v: View)
      reads this, cells.Values
    {
      cells.Keys == v.Keys && forall id | id in cells :: cells[id].Elements() == v[id]
    }

    lemma ShowsNow(v: View)
      requires Shows(v)
      ensures Now() == v
    {
    }

    /** The body of the loop in bag: the cells stay as they are. */
    method AddCell(b: Bag, id: Id, ghost v: View, ghost rest: set<Id>, ghost alpha: nat)
      requires Shows(v) && Tallied(b, v - rest, alpha) && Total(Tally(v)) <= MAX_U32
      requires id in rest && rest <= v.Keys
      modifies b
      ensures Shows(v) && Tallied(b, v - (rest - {id}), alpha)
    {
      var n := cells[id].Len();
      AddTallied(b, id, n, v, rest, alpha);
    }

    /** The tally, with a threshold. More votes than 32 bits can count are out of contract. */
    method Bag(alpha: nat) returns (b: Bag)
      requires |Pairs(Now())| <= MAX_U32
      ensures fresh(b) && b.Valid()
      ensures b.counts == Tally(Now()) && b.threshold == alpha && b.size == |Pairs(Now())|
      ensures b.met == Met(Tally(Now()), alpha)
      ensures forall id :: id in b.counts <==> id in Now() && Now()[id] != {}
      ensures forall id | id in b.counts :: b.counts[id] == |Now()[id]|
      ensures forall id :: id in b.met <==> id in Now() && Now()[id] != {} && |Now()[id]| >= alpha
    {
      ghost var v := Now();
      TallyTotal(v);
      b := NewTally(alpha, v);
      var rest := cells.Keys;
      while rest != {}
        invariant rest <= v.Keys && Shows(v)
        invariant fresh(b) && Tallied(b, v - rest, alpha)
      {
        var id :| id in rest;
        AddCell(b, id, v, rest, alpha);
        rest := rest - {id};
      }
      TalliedAll(b, v, rest, alpha);
      ShowsNow(v);
    }
  }
}
