// src/ids/bag.rs: Bag, vote counts with a cached size, mode and set of ids that met a threshold.
module Bags {
  import opened Ids
  import opened Bits

  const MAX_U32: nat := 0xFFFF_FFFF

  type Counts = map<Id, nat>

  function Count(m: Counts, id: Id): nat {
    if id in m then m[id] else 0
  }

  /** The sum of all counts. */
  ghost function Total(m: Counts): nat {
    if m == map[] then 0 else
      var id :| id in m;
      m[id] + Total(m - {id})
  }

  lemma {:induction false} TotalWithout(m: Counts, id: Id)
    requires id in m
    ensures Total(m) == m[id] + Total(m - {id})
    decreases |m|
  {
    var first :| first in m && Total(m) == m[first] + Total(m - {first});
    if first != id {
      TotalWithout(m - {first}, id);
      TotalWithout(m - {id}, first);
      assert (m - {first}) - {id} == (m - {id}) - {first};
    }
  }

  lemma TotalPut(m: Counts, id: Id, n: nat)
    ensures Total(m[id := n]) + Count(m, id) == Total(m) + n
  {
    var p := m[id := n];
    TotalWithout(p, id);
    if id in m {
      TotalWithout(m, id);
      assert p - {id} == m - {id};
    } else {
      assert p - {id} == m;
    }
  }

  /** Every entry of a is an entry of b. */
  ghost predicate Part(a: Counts, b: Counts) {
    forall id | id in a :: id in b && a[id] == b[id]
  }

  lemma {:induction false} TotalPart(a: Counts, b: Counts)
    requires Part(a, b)
    ensures Total(a) <= Total(b)
    ensures (forall id | id in b :: b[id] >= 1) && Total(a) == Total(b) ==> a == b
    decreases |a|
  {
    if a == map[] {
      if b != map[] {
        var id :| id in b;
        TotalWithout(b, id);
      }
    } else {
      var id :| id in a;
      TotalWithout(a, id);
      TotalWithout(b, id);
      TotalPart(a - {id}, b - {id});
      if a - {id} == b - {id} {
        assert a == (a - {id})[id := a[id]] == (b - {id})[id := b[id]] == b;
      }
    }
  }

  lemma CountWithin(m: Counts, id: Id)
    ensures Count(m, id) <= Total(m)
  {
    if id in m {
      TotalWithout(m, id);
    }
  }

  /** The ids counted at least t times. */
  function Met(m: Counts, t: nat): set<Id> {
    set id | id in m && m[id] >= t
  }

  /** What a bag holds. */
  datatype State = State(counts: Counts, size: nat, mode: Id, modeFreq: nat, threshold: nat, met: set<Id>)

  const NEW_BAG: State := State(map[], 0, EMPTY_ID, 0, 0, {})

  /** The caches say what a recount would: size is the total, no id is counted more often than the mode, and the
      ids that met the threshold are exactly those. No id is kept with count 0. */
  ghost predicate Inv(s: State) {
    && (forall id | id in s.counts :: s.counts[id] >= 1)
    && s.size == Total(s.counts)
    && (forall id | id in s.counts :: s.counts[id] <= s.modeFreq)
    && s.modeFreq == Count(s.counts, s.mode)
    && (s.counts == map[] ==> s.mode == EMPTY_ID)
    && s.met == Met(s.counts, s.threshold)
  }

  datatype Op = AddCount(id: Id, n: nat) | SetThreshold(t: nat)

  /** One call. The caches are changed only for the id at hand. */
  function Step(s: State, op: Op): State {
    match op
    case AddCount(id, n) =>
      if n == 0 then s
      else
        var total := Count(s.counts, id) + n;
        State(s.counts[id := total],
              s.size + n,
              if total > s.modeFreq then id else s.mode,
              if total > s.modeFreq then total else s.modeFreq,
              s.threshold,
              if total >= s.threshold then s.met + {id} else s.met)
    case SetThreshold(t) =>
      if s.threshold == t then s
      else s.(threshold := t, met := Met(s.counts, t))
  }

  function Run(s: State, ops: seq<Op>): State {
    if ops == [] then s else Step(Run(s, ops[..|ops| - 1]), ops[|ops| - 1])
  }

  lemma AddKeeps(s: State, id: Id, n: nat)
    requires Inv(s) && n > 0
    ensures Inv(Step(s, AddCount(id, n)))
  {
    var total := Count(s.counts, id) + n;
    TotalPut(s.counts, id, total);
    MetPut(s.counts, id, total, s.threshold);
  }

  lemma MetPut(m: Counts, id: Id, n: nat, t: nat)
    requires Count(m, id) <= n
    ensures Met(m[id := n], t) == Met(m, t) + if n >= t then {id} else {}
  {
  }

  lemma StepKeeps(s: State, op: Op)
    requires Inv(s)
    ensures Inv(Step(s, op))
  {
    if op.AddCount? && op.n > 0 {
      AddKeeps(s, op.id, op.n);
    }
  }

  /** Every reachable bag has correct caches. */
  lemma {:induction false} RunKeeps(ops: seq<Op>)
    ensures Inv(Run(NEW_BAG, ops))
  {
    if ops == [] {
      assert Met(map[], 0) == {};
    } else {
      RunKeeps(ops[..|ops| - 1]);
      StepKeeps(Run(NEW_BAG, ops[..|ops| - 1]), ops[|ops| - 1]);
    }
  }

  // ---- runs in different orders ----

  /** How often the calls in ops add id, in all. */
  function Sum(ops: seq<Op>, id: Id): nat {
    if ops == [] then 0
    else
      var op := ops[|ops| - 1];
      Sum(ops[..|ops| - 1], id) + if op.AddCount? && op.id == id then op.n else 0
  }

  /** The threshold the last call set. */
  function LastThreshold(ops: seq<Op>): nat {
    if ops == [] then 0
    else
      var op := ops[|ops| - 1];
      if op.SetThreshold? then op.t else LastThreshold(ops[..|ops| - 1])
  }

  /** The counts are the sums, whatever the order. */
  lemma {:induction false} RunCounts(ops: seq<Op>, id: Id)
    ensures Count(Run(NEW_BAG, ops).counts, id) == Sum(ops, id)
    ensures id in Run(NEW_BAG, ops).counts <==> Sum(ops, id) > 0
    ensures Run(NEW_BAG, ops).threshold == LastThreshold(ops)
  {
    if ops != [] {
      RunCounts(ops[..|ops| - 1], id);
    }
  }

  /** What the calls in ops add to any id, in all. */
  function SumAll(ops: seq<Op>): nat {
    if ops == [] then 0
    else
      var op := ops[|ops| - 1];
      SumAll(ops[..|ops| - 1]) + if op.AddCount? then op.n else 0
  }

  lemma {:induction false} RunSize(ops: seq<Op>)
    ensures Run(NEW_BAG, ops).size == SumAll(ops)
  {
    if ops != [] {
      RunSize(ops[..|ops| - 1]);
    }
  }

  /** The caches of a reachable bag, in terms of the calls alone. */
  lemma RunMeans(ops: seq<Op>)
    ensures var s := Run(NEW_BAG, ops);
            && s.size == SumAll(ops)
            && (forall id :: id in s.counts <==> Sum(ops, id) > 0)
            && (forall id :: id in s.counts ==> s.counts[id] == Sum(ops, id))
            && (forall id :: Sum(ops, id) <= s.modeFreq) && Sum(ops, s.mode) == s.modeFreq
            && (forall id :: id in s.met <==> Sum(ops, id) > 0 && Sum(ops, id) >= LastThreshold(ops))
  {
    var s := Run(NEW_BAG, ops);
    RunSize(ops);
    RunKeeps(ops);
    forall id: Id
      ensures Count(s.counts, id) == Sum(ops, id) && (id in s.counts <==> Sum(ops, id) > 0)
      ensures s.threshold == LastThreshold(ops)
    {
      RunCounts(ops, id);
    }
  }

  lemma SumGrows(ops: seq<Op>, j: nat, id: Id)
    requires j <= |ops|
    ensures Sum(ops[..j], id) <= Sum(ops, id)
  {
    SumSplits(ops[..j], ops[j..], id);
    assert ops == ops[..j] + ops[j..];
  }

  /**
   Which id is the mode when several are counted equally often: the one that first reached that
   number. After the first k calls it was counted as often as the mode is now, and before that no id
   was.
   */
  lemma {:induction false} RunMode(ops: seq<Op>) returns (k: nat)
    ensures var s := Run(NEW_BAG, ops);
            && k <= |ops| && Sum(ops[..k], s.mode) == s.modeFreq
            && forall j, id :: 0 <= j < k ==> Sum(ops[..j], id) < s.modeFreq
  {
    if ops == [] {
      return 0;
    }
    var n := |ops| - 1;
    var before, after := Run(NEW_BAG, ops[..n]), Run(NEW_BAG, ops);
    if after.modeFreq == before.modeFreq {
      k := RunMode(ops[..n]);
      assert forall j {:trigger ops[..j]} :: 0 <= j <= n ==> ops[..n][..j] == ops[..j];
    } else {
      k := |ops|;
      assert ops[..k] == ops;
      RunMeans(ops);
      RunMeans(ops[..n]);
      forall j, id | 0 <= j < k
        ensures Sum(ops[..j], id) < after.modeFreq
      {
        SumGrows(ops[..n], j, id);
        assert ops[..n][..j] == ops[..j];
        assert Sum(ops[..n], id) <= before.modeFreq;
      }
    }
  }

  lemma {:induction false} SumSplits(a: seq<Op>, b: seq<Op>, id: Id)
    ensures Sum(a + b, id) == Sum(a, id) + Sum(b, id)
  {
    if b == [] {
      assert a + b == a;
    } else {
      var n := |b| - 1;
      assert (a + b)[..|a + b| - 1] == a + b[..n];
      SumSplits(a, b[..n], id);
    }
  }

  lemma SumWithout(b: seq<Op>, k: nat, id: Id)
    requires k < |b|
    ensures Sum(b, id) == Sum(b[..k] + b[k + 1..], id) + Sum([b[k]], id)
  {
    SumSplits(b[..k], b[k + 1..], id);
    SumSplits(b[..k], [b[k]] + b[k + 1..], id);
    SumSplits([b[k]], b[k + 1..], id);
    assert b == b[..k] + ([b[k]] + b[k + 1..]);
  }

  lemma CallsWithout(b: seq<Op>, k: nat)
    requires k < |b|
    ensures multiset(b[..k] + b[k + 1..]) == multiset(b) - multiset{b[k]}
  {
    assert b == b[..k] + ([b[k]] + b[k + 1..]);
    assert multiset(b) == multiset(b[..k]) + (multiset{b[k]} + multiset(b[k + 1..]));
  }

  lemma {:induction false} SumPermutes(a: seq<Op>, b: seq<Op>, id: Id)
    requires multiset(a) == multiset(b)
    ensures Sum(a, id) == Sum(b, id)
  {
    if a == [] {
      assert |multiset(b)| == 0;
    } else {
      var n := |a| - 1;
      assert a[n] in multiset(a);
      var k :| 0 <= k < |b| && b[k] == a[n];
      SumWithout(a, n, id);
      SumWithout(b, k, id);
      CallsWithout(a, n);
      CallsWithout(b, k);
      assert a[..n] + a[n + 1..] == a[..n];
      SumPermutes(a[..n], b[..k] + b[k + 1..], id);
    }
  }

  lemma Determined(s: State, t: State)
    requires Inv(s) && Inv(t)
    requires s.counts == t.counts && s.threshold == t.threshold
    ensures s.size == t.size && s.modeFreq == t.modeFreq && s.met == t.met
  {
    if s.counts != map[] {
      var id :| id in s.counts;
      assert s.counts[id] >= 1 && s.counts[id] <= s.modeFreq && s.counts[id] <= t.modeFreq;
      assert s.mode in s.counts && t.mode in s.counts;
    }
  }

  /** The same calls in any order, with the same last threshold: only the mode may differ, and only among ties. */
  lemma OrderIrrelevant(a: seq<Op>, b: seq<Op>)
    requires multiset(a) == multiset(b) && LastThreshold(a) == LastThreshold(b)
    ensures var s, t := Run(NEW_BAG, a), Run(NEW_BAG, b);
            && s.(mode := EMPTY_ID) == t.(mode := EMPTY_ID)
            && Count(s.counts, s.mode) == Count(s.counts, t.mode)
  {
    var s, t := Run(NEW_BAG, a), Run(NEW_BAG, b);
    RunKeeps(a);
    RunKeeps(b);
    forall id: Id
      ensures id in s.counts <==> id in t.counts
      ensures Count(s.counts, id) == Count(t.counts, id)
    {
      RunCounts(a, id);
      RunCounts(b, id);
      SumPermutes(a, b, id);
    }
    assert s.counts == t.counts by {
      forall id | id in s.counts
        ensures s.counts[id] == t.counts[id]
      {
        assert Count(s.counts, id) == Count(t.counts, id);
      }
    }
    RunCounts(a, EMPTY_ID);
    RunCounts(b, EMPTY_ID);
    Determined(s, t);
  }

  // ---- filter and split ----

  ghost function Chosen(m: Counts, p: Id -> bool): Counts {
    map vote | vote in m && p(vote) :: m[vote]
  }

  /** Bit by bit the same in [start, end); a range past the last bit matches nothing. */
  ghost predicate Matches(start: nat, end: nat, id: Id, vote: Id) {
    start >= end || (end <= 256 && Agree(start, end, Raw(id), Raw(vote)))
  }

  ghost function Matching(start: nat, end: nat, id: Id): Id -> bool {
    (vote: Id) => Matches(start, end, id, vote)
  }

  ghost function HasBit(index: nat, b: bool): Id -> bool
    requires index < NUM_BITS
  {
    (vote: Id) => RawBit(Raw(vote), index) == b
  }

  /** The votes that agree with id on bits [start, end). */
  ghost function Kept(m: Counts, start: nat, end: nat, id: Id): Counts {
    Chosen(m, Matching(start, end, id))
  }

  /** The votes whose bit at index is b. */
  ghost function Half(m: Counts, index: nat, b: bool): Counts
    requires index < NUM_BITS
  {
    Chosen(m, HasBit(index, b))
  }

  /** One vote more of a choice among the votes of m: rest is still to be looked at. */
  lemma ChosenStep(m: Counts, rest: set<Id>, vote: Id, p: Id -> bool)
    requires vote in rest && rest <= m.Keys
    ensures var sofar := Chosen(m - rest, p);
            && (p(vote) ==> vote !in sofar && Total(sofar) + m[vote] <= Total(m))
            && Chosen(m - (rest - {vote}), p) == if p(vote) then sofar[vote := m[vote]] else sofar
  {
    var sofar := Chosen(m - rest, p);
    var after := Chosen(m - (rest - {vote}), p);
    assert after == if p(vote) then sofar[vote := m[vote]] else sofar;
    if p(vote) {
      TotalPut(sofar, vote, m[vote]);
      TotalPart(after, m);
    }
  }

  /** Filtering by adjoining ranges is filtering by the whole range. */
  lemma FilterTwice(m: Counts, a: nat, b: nat, c: nat, id: Id)
    requires a <= b <= c <= NUM_BITS
    ensures Kept(Kept(m, a, b, id), b, c, id) == Kept(m, a, c, id)
  {
    forall vote | vote in m
      ensures Matches(a, c, id, vote) <==> Matches(a, b, id, vote) && Matches(b, c, id, vote)
    {
      AgreeSplits(a, b, c, c, Raw(id), Raw(vote));
    }
  }

  lemma {:induction false} ChoicesTotal(m: Counts, p: Id -> bool, q: Id -> bool)
    requires forall id | id in m :: q(id) == !p(id)
    ensures Total(Chosen(m, p)) + Total(Chosen(m, q)) == Total(m)
    decreases |m|
  {
    if m == map[] {
      assert Chosen(m, p) == m && Chosen(m, q) == m;
    } else {
      var id :| id in m;
      var less := m - {id};
      ChoicesTotal(less, p, q);
      TotalWithout(m, id);
      ChosenWithout(m, p, id);
      ChosenWithout(m, q, id);
    }
  }

  lemma ChosenWithout(m: Counts, p: Id -> bool, id: Id)
    requires id in m
    ensures Total(Chosen(m, p)) == Total(Chosen(m - {id}, p)) + if p(id) then m[id] else 0
  {
    var c, d := Chosen(m, p), Chosen(m - {id}, p);
    if p(id) {
      TotalWithout(c, id);
      assert c - {id} == d;
    } else {
      assert c == d;
    }
  }

  lemma ChoicesApart(m: Counts, p: Id -> bool, q: Id -> bool)
    requires forall id | id in m :: q(id) == !p(id)
    ensures Chosen(m, p).Keys !! Chosen(m, q).Keys && Chosen(m, p) + Chosen(m, q) == m
  {
  }

  /** Splitting loses no vote and counts none twice. */
  lemma SplitPartitions(m: Counts, index: nat)
    requires index < NUM_BITS
    ensures Half(m, index, false).Keys !! Half(m, index, true).Keys
    ensures Half(m, index, false) + Half(m, index, true) == m
    ensures Total(Half(m, index, false)) + Total(Half(m, index, true)) == Total(m)
  {
    ChoicesTotal(m, HasBit(index, false), HasBit(index, true));
    ChoicesApart(m, HasBit(index, false), HasBit(index, true));
  }

  /** Two votes that first differ at d in a range both pass a filter on the bits before d, and splitting at d
      separates them. */
  lemma FirstDifferenceSeparates(m: Counts, start: nat, stop: nat, u: Id, v: Id, d: nat)
    requires u in m && v in m
    requires stop <= NUM_BITS && FirstDiffers(start, stop, Raw(u), Raw(v), d)
    ensures u in Kept(m, start, d, u) && v in Kept(m, start, d, u)
    ensures var kept := Kept(m, start, d, u);
            var b := RawBit(Raw(u), d);
            && u in Half(kept, d, b) && v !in Half(kept, d, b)
            && v in Half(kept, d, !b) && u !in Half(kept, d, !b)
  {
    assert Matches(start, d, u, u) && Matches(start, d, u, v);
  }

  class Bag {
    var counts: Counts
    var size: nat
    var mode: Id
    var modeFreq: nat
    var threshold: nat
    var met: set<Id>

    function Now(): State
      reads this
    {
      State(counts, size, mode, modeFreq, threshold, met)
    }

    /** Correct caches, and a size that its 32-bit cell can hold. */
    ghost predicate Valid()
      reads this
    {
      Inv(Now()) && size <= MAX_U32
    }

    /** A bag fresh from new() that was given the votes of m that p chooses. */
    ghost predicate Holds(m: Counts, p: Id -> bool)
      reads this
    {
      Valid() && threshold == 0 && counts == Chosen(m, p)
    }

    constructor ()
      ensures Valid() && Now() == NEW_BAG
    {
      counts, size, mode, modeFreq, threshold, met := map[], 0, EMPTY_ID, 0, 0, {};
    }

    constructor DeepCopy(b: Bag)
      requires b.Valid()
      ensures Valid() && Now() == b.Now()
    {
      counts, size, mode := b.counts, b.size, b.mode;
      modeFreq, threshold, met := b.modeFreq, b.threshold, b.met;
    }

    method IsEmpty() returns (r: bool)
      requires Valid()
      ensures r <==> counts == map[]
    {
      if counts != map[] {
        ghost var id :| id in counts;
        CountWithin(counts, id);
      }
      r := size == 0;
    }

    method SetThreshold(t: nat)
      requires Valid()
      modifies this
      ensures Valid() && Now() == Step(old(Now()), Op.SetThreshold(t))
    {
      StepKeeps(Now(), Op.SetThreshold(t));
      if threshold == t {
        return;
      }
      threshold := t;
      met := {};
      var rest := counts.Keys;
      while rest != {}
        invariant rest <= counts.Keys
        invariant met == Met(counts - rest, t)
        invariant Now() == old(Now()).(threshold := t, met := met)
      {
        var vote :| vote in rest;
        rest := rest - {vote};
        if counts[vote] >= t {
          met := met + {vote};
        }
      }
      assert counts - rest == counts;
    }

    /** A total beyond 32 bits is out of contract. */
    method AddCount(id: Id, n: nat)
      requires Valid() && size + n <= MAX_U32
      modifies this
      ensures Valid() && Now() == Step(old(Now()), Op.AddCount(id, n))
      ensures mode == if n > 0 && Count(old(counts), id) + n > old(modeFreq) then id else old(mode)
    {
      StepKeeps(Now(), Op.AddCount(id, n));
      if n == 0 {
        return;
      }
      var total := Count(counts, id) + n;
      counts := counts[id := total];
      size := size + n;
      if total > modeFreq {
        mode := id;
        modeFreq := total;
      }
      if total >= threshold {
        met := met + {id};
      }
    }

    /** add_count for a vote of m, when this bag holds what p chose among the votes not in rest. */
    method AddChosen(vote: Id, n: nat, ghost m: Counts, ghost rest: set<Id>, ghost p: Id -> bool)
      requires Holds(m - rest, p) && Total(m) <= MAX_U32
      requires vote in rest && rest <= m.Keys && n == m[vote] && n > 0 && p(vote)
      modifies this
      ensures Holds(m - (rest - {vote}), p)
    {
      ChosenStep(m, rest, vote, p);
      AddCount(vote, n);
    }

    lemma HoldsStill(m: Counts, rest: set<Id>, vote: Id, p: Id -> bool)
      requires Holds(m - rest, p) && vote in rest && rest <= m.Keys && !p(vote)
      ensures Holds(m - (rest - {vote}), p)
    {
      ChosenStep(m, rest, vote, p);
    }

    /** Compares sizes, and then counts in one direction only. */
    method Equals(other: Bag) returns (r: bool)
      requires Valid() && other.Valid()
      ensures r <==> counts == other.counts
    {
      if size != other.size {
        return false;
      }
      var rest := counts.Keys;
      while rest != {}
        invariant rest <= counts.Keys
        invariant Part(counts - rest, other.counts)
      {
        var vote :| vote in rest;
        rest := rest - {vote};
        if vote !in other.counts {
          return false;
        }
        if counts[vote] != other.counts[vote] {
          return false;
        }
      }
      assert counts - rest == counts;
      TotalPart(counts, other.counts);
      return true;
    }

    method Filter(start: nat, end: nat, id: Id) returns (b: Bag)
      requires Valid()
      ensures fresh(b) && b.Holds(counts, Matching(start, end, id))
      ensures b.counts == Kept(counts, start, end, id)
    {
      ghost var p := Matching(start, end, id);
      b := new Bag();
      var rest := counts.Keys;
      while rest != {}
        invariant rest <= counts.Keys
        invariant fresh(b) && b.Holds(counts - rest, p)
      {
        var vote :| vote in rest;
        EqualSubsetMeans(start, end, Raw(id), Raw(vote));
        if EqualSubset(start, end, Raw(id), Raw(vote)) {
          b.AddChosen(vote, counts[vote], counts, rest, p);
        } else {
          b.HoldsStill(counts, rest, vote, p);
        }
        rest := rest - {vote};
      }
      assert counts - rest == counts;
    }

    lemma NewHolds(m: Counts, p: Id -> bool)
      requires Now() == NEW_BAG
      ensures Holds(m - m.Keys, p)
    {
    }

    /** An index past the last bit is out of contract. */
    method Split(index: nat) returns (zeros: Bag, ones: Bag)
      requires Valid() && index < NUM_BITS
      ensures fresh(zeros) && fresh(ones) && zeros != ones
      ensures zeros.Holds(counts, HasBit(index, false)) && ones.Holds(counts, HasBit(index, true))
      ensures zeros.counts == Half(counts, index, false) && ones.counts == Half(counts, index, true)
      ensures zeros.size + ones.size == size
    {
      zeros := new Bag();
      ones := new Bag();
      NewDealt(counts, index, zeros, ones);
      DealAll(counts, index, zeros, ones);
      AllDealt(counts, index, zeros, ones);
    }
  }

  /** What both halves hold while the votes of m that are in rest are still to be dealt. */
  ghost predicate Dealt(m: Counts, rest: set<Id>, index: nat, zeros: Bag, ones: Bag)
    requires index < NUM_BITS
    reads zeros, ones
  {
    zeros.Holds(m - rest, HasBit(index, false)) && ones.Holds(m - rest, HasBit(index, true))
  }

  lemma NewDealt(m: Counts, index: nat, zeros: Bag, ones: Bag)
    requires index < NUM_BITS && zeros.Now() == NEW_BAG && ones.Now() == NEW_BAG
    ensures Dealt(m, m.Keys, index, zeros, ones)
  {
    zeros.NewHolds(m, HasBit(index, false));
    ones.NewHolds(m, HasBit(index, true));
  }

  lemma AllDealt(m: Counts, index: nat, zeros: Bag, ones: Bag)
    requires index < NUM_BITS && Dealt(m, {}, index, zeros, ones)
    ensures zeros.Holds(m, HasBit(index, false)) && ones.Holds(m, HasBit(index, true))
    ensures zeros.size + ones.size == Total(m)
  {
    assert m - {} == m;
    HalvesSize(m, Half(m, index, false), Half(m, index, true), index, zeros, ones);
  }

  lemma HalvesSize(m: Counts, no: Counts, yes: Counts, index: nat, zeros: Bag, ones: Bag)
    requires index < NUM_BITS && no == Half(m, index, false) && yes == Half(m, index, true)
    requires zeros.Valid() && zeros.counts == no && ones.Valid() && ones.counts == yes
    ensures zeros.size + ones.size == Total(m)
  {
    SplitPartitions(m, index);
  }

  /** The body of the loop in split: one vote goes to the bag of its bit. */
  method Deal(m: Counts, index: nat, zeros: Bag, ones: Bag, vote: Id, ghost rest: set<Id>)
    requires index < NUM_BITS && vote in rest && rest <= m.Keys && m[vote] > 0 && Total(m) <= MAX_U32
    requires zeros != ones && Dealt(m, rest, index, zeros, ones)
    modifies zeros, ones
    ensures Dealt(m, rest - {vote}, index, zeros, ones)
  {
    var bit := IdBit(Raw(vote), index);
    if bit {
      zeros.HoldsStill(m, rest, vote, HasBit(index, false));
      ones.AddChosen(vote, m[vote], m, rest, HasBit(index, true));
    } else {
      ones.HoldsStill(m, rest, vote, HasBit(index, true));
      zeros.AddChosen(vote, m[vote], m, rest, HasBit(index, false));
    }
  }

  /** The loop of split. */
  method DealAll(m: Counts, index: nat, zeros: Bag, ones: Bag)
    requires index < NUM_BITS && Total(m) <= MAX_U32 && forall id | id in m :: m[id] > 0
    requires zeros != ones && Dealt(m, m.Keys, index, zeros, ones)
    modifies zeros, ones
    ensures Dealt(m, {}, index, zeros, ones)
  {
    var rest := m.Keys;
    while rest != {}
      invariant rest <= m.Keys && Dealt(m, rest, index, zeros, ones)
    {
      var vote :| vote in rest;
      Deal(m, index, zeros, ones, vote, rest);
      rest := rest - {vote};
    }
  }
}
