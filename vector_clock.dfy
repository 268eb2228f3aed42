// Vector clocks (consistency/vector_clock.py): a map from node id to a
// counter, compared entry by entry with an absent entry reading as 0.

module VectorClocks {
  import opened Base

  /** Node id -> counter. */
  type Clock = map<int, int>

  /** `clock.get(n, 0)`. */
  function At(c: Clock, n: int): int
  {
    if n in c then c[n] else 0
  }

  /** Every counter is at least 0, as every counter built by `Inc` is. */
  predicate NonNeg(c: Clock)
  {
    forall n :: n in c ==> c[n] >= 0
  }

  /** `happens_before`: no entry is larger and at least one is smaller. */
  predicate Before(a: Clock, b: Clock)
  {
    (forall n :: n in a.Keys + b.Keys ==> At(a, n) <= At(b, n)) &&
    (exists n :: n in a.Keys + b.Keys && At(a, n) < At(b, n))
  }

  /** `__eq__`: equal once absent entries are read as 0. */
  predicate Equiv(a: Clock, b: Clock)
  {
    forall n :: n in a.Keys + b.Keys ==> At(a, n) == At(b, n)
  }

  /** `dominates`: no entry of `a` is smaller than the same entry of `b`. */
  predicate Dominates(a: Clock, b: Clock)
  {
    forall n :: n in a.Keys + b.Keys ==> At(a, n) >= At(b, n)
  }

  /** `concurrent_with`: neither clock happens before the other. */
  predicate Concurrent(a: Clock, b: Clock)
  {
    !Before(a, b) && !Before(b, a)
  }

  /** `increment`: entry `n` goes up by one, every other entry stays. */
  function Inc(c: Clock, n: int): (r: Clock)
    ensures r.Keys == c.Keys + {n}
    ensures At(r, n) == At(c, n) + 1
    ensures forall k :: k != n ==> At(r, k) == At(c, k)
  {
    c[n := At(c, n) + 1]
  }

  /**
   * `update`: every entry of `d` becomes the larger of the two; entries
   * only `c` has are kept as they are.
   */
  function Join(c: Clock, d: Clock): (r: Clock)
    ensures r.Keys == c.Keys + d.Keys
    ensures Dominates(r, c)
    ensures forall n :: n in d ==> At(r, n) >= d[n]
    ensures forall n :: At(r, n) == At(c, n) || At(r, n) == At(d, n)
  {
    map n | n in c.Keys + d.Keys :: if n in d then Max(At(c, n), d[n]) else c[n]
  }

  // ---------------------------------------------------------------------
  // The order on clocks.

  lemma BeforeIrreflexive(a: Clock)
    ensures !Before(a, a)
  {
  }

  lemma BeforeAsymmetric(a: Clock, b: Clock)
    ensures Before(a, b) ==> !Before(b, a)
  {
    if Before(a, b) {
      var n :| At(a, n) < At(b, n);
      assert At(b, n) > At(a, n);
    }
  }

  lemma BeforeTransitive(a: Clock, b: Clock, c: Clock)
    requires Before(a, b) && Before(b, c)
    ensures Before(a, c)
  {
    var n :| At(a, n) < At(b, n);
    assert At(b, n) <= At(c, n);
  }

  lemma DominatesTransitive(a: Clock, b: Clock, c: Clock)
    requires Dominates(a, b) && Dominates(b, c)
    ensures Dominates(a, c)
  {
    forall n | n in a.Keys + c.Keys
      ensures At(a, n) >= At(c, n)
    {
      assert At(a, n) >= At(b, n) >= At(c, n);
    }
  }

  /** Equal clocks are ordered in neither direction. */
  lemma EquivNotBefore(a: Clock, b: Clock)
    requires Equiv(a, b)
    ensures !Before(a, b) && !Before(b, a)
  {
  }

  /**
   * `__ge__` (`other < self or self == other`) and `dominates` agree: a
   * clock dominates another exactly when it is equal to it or after it.
   */
  lemma DominatesIffAfterOrEqual(a: Clock, b: Clock)
    ensures Dominates(a, b) <==> Before(b, a) || Equiv(a, b)
  {
    if Dominates(a, b) && !Equiv(a, b) {
      var n :| At(a, n) != At(b, n);
      assert At(b, n) < At(a, n);
    }
  }

  /** An increment moves a clock strictly forward. */
  lemma IncIsAfter(c: Clock, n: int)
    ensures Before(c, Inc(c, n))
  {
    assert At(c, n) < At(Inc(c, n), n);
  }

  /**
   * `update` yields an upper bound of both clocks when the receiving clock
   * has no negative counter, and it is the least one.
   */
  lemma JoinIsLeastUpperBound(c: Clock, d: Clock, e: Clock)
    requires NonNeg(c)
    ensures Dominates(Join(c, d), c) && Dominates(Join(c, d), d)
    ensures Dominates(e, c) && Dominates(e, d) ==> Dominates(e, Join(c, d))
  {
    var j := Join(c, d);
    forall n ensures At(j, n) >= At(d, n) {
      if n !in d {
        assert At(j, n) == At(c, n) || At(j, n) == 0;
      }
    }
  }

  /**
   * `merge` (update, then increment the receiver's own entry) yields a
   * clock strictly after both the receiver and the sender.
   */
  lemma MergeIsAfterBoth(c: Clock, d: Clock, n: int)
    requires NonNeg(c)
    ensures Before(c, Inc(Join(c, d), n)) && Before(d, Inc(Join(c, d), n))
  {
    JoinIsLeastUpperBound(c, d, c);
    var m := Inc(Join(c, d), n);
    assert At(Join(c, d), n) < At(m, n);
    assert At(c, n) < At(m, n);
    assert At(d, n) < At(m, n);
  }

  // ---------------------------------------------------------------------
  // The clock object: `increment`, `update` and `merge` change it in place.

  class VectorClock {
    var clock: Clock

    constructor (init: Clock)
      ensures clock == init
    {
      clock := init;
    }

    method Increment(n: int)
      modifies this
      ensures clock == Inc(old(clock), n)
    {
      clock := clock[n := At(clock, n) + 1];
    }

    /** Entrywise maximum with `other`, which may be this very clock. */
    method Update(other: VectorClock)
      modifies this
      ensures clock == Join(old(clock), old(other.clock))
    {
      var src := other.clock;
      ghost var start := clock;
      var todo := src.Keys;
      while todo != {}
        invariant todo <= src.Keys
        invariant clock.Keys == start.Keys + (src.Keys - todo)
        invariant forall n :: n in clock ==>
          clock[n] == if n in src && n !in todo then Max(At(start, n), src[n]) else start[n]
        decreases todo
      {
        assert (forall k :: k !in todo) ==> todo == {};
        var n :| n in todo;
        clock := clock[n := Max(At(clock, n), src[n])];
        todo := todo - {n};
      }
      forall n | n in clock ensures clock[n] == Join(start, src)[n] {
      }
    }

    method Merge(other: VectorClock, n: int)
      modifies this
      ensures clock == Inc(Join(old(clock), old(other.clock)), n)
    {
      Update(other);
      Increment(n);
    }

    method Copy() returns (c: VectorClock)
      ensures fresh(c) && c.clock == clock
    {
      c := new VectorClock(clock);
    }

    method HappensBefore(other: VectorClock) returns (b: bool)
      ensures b == Before(clock, other.clock)
    {
      var allLe, oneLt := true, false;
      var keys := clock.Keys + other.clock.Keys;
      var todo := keys;
      while todo != {}
        invariant todo <= keys
        invariant forall n :: n in keys - todo ==> At(clock, n) <= At(other.clock, n)
        invariant oneLt <==> exists n :: n in keys - todo && At(clock, n) < At(other.clock, n)
        decreases todo
      {
        assert (forall k :: k !in todo) ==> todo == {};
        var n :| n in todo;
        if At(clock, n) > At(other.clock, n) {
          allLe := false;
          break;
        } else if At(clock, n) < At(other.clock, n) {
          oneLt := true;
        }
        todo := todo - {n};
      }
      b := allLe && oneLt;
    }

    method ConcurrentWith(other: VectorClock) returns (b: bool)
      ensures b == Concurrent(clock, other.clock)
    {
      var ab := HappensBefore(other);
      var ba := other.HappensBefore(this);
      b := !ab && !ba;
    }

    method DominatesClock(other: VectorClock) returns (b: bool)
      ensures b == Dominates(clock, other.clock)
    {
      var keys := clock.Keys + other.clock.Keys;
      var todo := keys;
      while todo != {}
        invariant todo <= keys
        invariant forall n :: n in keys - todo ==> At(clock, n) >= At(other.clock, n)
        decreases todo
      {
        assert (forall k :: k !in todo) ==> todo == {};
        var n :| n in todo;
        if At(clock, n) < At(other.clock, n) {
          return false;
        }
        todo := todo - {n};
      }
      b := true;
    }

    /** `__eq__`. */
    method Equals(other: VectorClock) returns (b: bool)
      ensures b == Equiv(clock, other.clock)
    {
      var keys := clock.Keys + other.clock.Keys;
      var todo := keys;
      while todo != {}
        invariant todo <= keys
        invariant forall n :: n in keys - todo ==> At(clock, n) == At(other.clock, n)
        decreases todo
      {
        assert (forall k :: k !in todo) ==> todo == {};
        var n :| n in todo;
        if At(clock, n) != At(other.clock, n) {
          return false;
        }
        todo := todo - {n};
      }
      b := true;
    }

    /** `__le__`: before or equal, which is being dominated. */
    method AtMost(other: VectorClock) returns (b: bool)
      ensures b == Dominates(other.clock, clock)
    {
      var lt := HappensBefore(other);
      var eq := Equals(other);
      b := lt || eq;
      DominatesIffAfterOrEqual(other.clock, clock);
    }

    /** `__ge__`: after or equal, which is dominating. */
    method AtLeast(other: VectorClock) returns (b: bool)
      ensures b == Dominates(clock, other.clock)
    {
      var gt := other.HappensBefore(this);
      var eq := Equals(other);
      b := gt || eq;
      DominatesIffAfterOrEqual(clock, other.clock);
    }
  }

  // ---------------------------------------------------------------------
  // compare_versions and get_latest_version.

  datatype ClockOrder = Equal | Less | Greater | Incomparable

  /** The four answers of `compare_versions` are exclusive and each is exact. */
  function CompareVersions(v1: Clock, v2: Clock): (r: ClockOrder)
    ensures r == Equal <==> Equiv(v1, v2)
    ensures r == Less <==> Before(v1, v2)
    ensures r == Greater <==> Before(v2, v1)
    ensures r == Incomparable <==> Concurrent(v1, v2) && !Equiv(v1, v2)
  {
    BeforeAsymmetric(v1, v2);
    if Equiv(v1, v2) then Equal
    else if Before(v1, v2) then Less
    else if Before(v2, v1) then Greater
    else Incomparable
  }

  /** `v` happens before no version of `all`. */
  predicate IsMaximal(v: Clock, all: seq<Clock>)
  {
    forall i :: 0 <= i < |all| ==> !Before(v, all[i])
  }

  /** The `candidates` list: the members of `vs` maximal in `all`, in order. */
  function Candidates(vs: seq<Clock>, all: seq<Clock>): seq<Clock>
  {
    if vs == [] then []
    else Candidates(vs[..|vs| - 1], all) + (if IsMaximal(vs[|vs| - 1], all) then [vs[|vs| - 1]] else [])
  }

  /** What `get_latest_version` returns. */
  function Latest(vs: seq<Clock>): Option<Clock>
  {
    if |vs| == 0 then None
    else if |vs| == 1 then Some(vs[0])
    else
      var c := Candidates(vs, vs);
      if |c| == 1 then Some(c[0]) else None
  }

  method GetLatestVersion(versions: seq<Clock>) returns (r: Option<Clock>)
    ensures r == Latest(versions)
  {
    if |versions| == 0 {
      return None;
    }
    if |versions| == 1 {
      return Some(versions[0]);
    }
    var candidates: seq<Clock> := [];
    var i := 0;
    while i < |versions|
      invariant 0 <= i <= |versions|
      invariant candidates == Candidates(versions[..i], versions)
    {
      var dominated := IsDominated(versions[i], versions);
      CandidatesSnoc(versions, i);
      if !dominated {
        candidates := candidates + [versions[i]];
      }
      i := i + 1;
    }
    assert versions[..i] == versions;
    if |candidates| == 1 {
      return Some(candidates[0]);
    }
    return None;
  }

  /** The inner loop of `get_latest_version`: is some version after `v`? */
  method IsDominated(v: Clock, versions: seq<Clock>) returns (dominated: bool)
    ensures dominated <==> !IsMaximal(v, versions)
  {
    dominated := false;
    var j := 0;
    while j < |versions|
      invariant 0 <= j <= |versions|
      invariant !dominated
      invariant forall k :: 0 <= k < j ==> !Before(v, versions[k])
    {
      var other := versions[j];
      if Before(other, v) {
        BeforeAsymmetric(other, v);
        j := j + 1;
        continue;
      } else if Before(v, other) {
        return true;
      }
      j := j + 1;
    }
  }

  /** Scanning one more version adds it to the candidates exactly when it is maximal. */
  lemma CandidatesSnoc(versions: seq<Clock>, i: nat)
    requires i < |versions|
    ensures Candidates(versions[..i + 1], versions) ==
      Candidates(versions[..i], versions) + (if IsMaximal(versions[i], versions) then [versions[i]] else [])
  {
    assert versions[..i + 1][..i] == versions[..i];
  }

  lemma {:induction false} CandidatesAreMaximal(vs: seq<Clock>, all: seq<Clock>, x: Clock)
    requires x in Candidates(vs, all)
    ensures x in vs && IsMaximal(x, all)
  {
    if vs != [] {
      var init := vs[..|vs| - 1];
      if x in Candidates(init, all) {
        CandidatesAreMaximal(init, all, x);
      }
    }
  }

  lemma {:induction false} MaximalIsCandidate(vs: seq<Clock>, all: seq<Clock>, i: int)
    requires 0 <= i < |vs| && IsMaximal(vs[i], all)
    ensures vs[i] in Candidates(vs, all)
  {
    var init := vs[..|vs| - 1];
    if i < |vs| - 1 {
      MaximalIsCandidate(init, all, i);
    }
  }

  /** Two maximal positions give at least two candidates. */
  lemma {:induction false} TwoMaximalTwoCandidates(vs: seq<Clock>, all: seq<Clock>, i: int, j: int)
    requires 0 <= i < j < |vs|
    requires IsMaximal(vs[i], all) && IsMaximal(vs[j], all)
    ensures |Candidates(vs, all)| >= 2
  {
    var init := vs[..|vs| - 1];
    if j == |vs| - 1 {
      MaximalIsCandidate(init, all, i);
    } else {
      TwoMaximalTwoCandidates(init, all, i, j);
    }
  }

  /** At least two candidates come from two different maximal positions. */
  lemma {:induction false} TwoCandidatesTwoMaximal(vs: seq<Clock>, all: seq<Clock>) returns (i: int, j: int)
    requires |Candidates(vs, all)| >= 2
    ensures 0 <= i < j < |vs| && IsMaximal(vs[i], all) && IsMaximal(vs[j], all)
  {
    var init := vs[..|vs| - 1];
    var c := Candidates(init, all);
    assert Candidates(vs, all) == c + (if IsMaximal(vs[|vs| - 1], all) then [vs[|vs| - 1]] else []);
    if |c| >= 2 {
      i, j := TwoCandidatesTwoMaximal(init, all);
      assert vs[i] == init[i] && vs[j] == init[j];
    } else {
      assert |c| == 1 && IsMaximal(vs[|vs| - 1], all);
      CandidatesAreMaximal(init, all, c[0]);
      i :| 0 <= i < |init| && init[i] == c[0];
      j := |vs| - 1;
      assert vs[i] == init[i];
    }
  }

  /** Positions of `vs` whose version is strictly after `x`. */
  function Above(x: Clock, vs: seq<Clock>): set<int>
  {
    set j | 0 <= j < |vs| && Before(x, vs[j])
  }

  /**
   * In a finite list every version is maximal or happens before a maximal
   * one: follow strictly later versions until none is left.
   */
  lemma {:induction false} BelowSomeMaximal(vs: seq<Clock>, i: int) returns (k: int)
    requires 0 <= i < |vs|
    ensures 0 <= k < |vs| && IsMaximal(vs[k], vs)
    ensures k == i || Before(vs[i], vs[k])
    decreases |Above(vs[i], vs)|
  {
    if IsMaximal(vs[i], vs) {
      return i;
    }
    var j :| 0 <= j < |vs| && Before(vs[i], vs[j]);
    assert Above(vs[j], vs) < Above(vs[i], vs) by {
      forall t | t in Above(vs[j], vs) ensures t in Above(vs[i], vs) {
        BeforeTransitive(vs[i], vs[j], vs[t]);
      }
      BeforeIrreflexive(vs[j]);
      assert j in Above(vs[i], vs) && j !in Above(vs[j], vs);
    }
    assert |Above(vs[j], vs)| < |Above(vs[i], vs)| by {
      var big, small := Above(vs[i], vs), Above(vs[j], vs);
      assert big == small + (big - small);
      assert j in big - small;
    }
    k := BelowSomeMaximal(vs, j);
    if k != j {
      BeforeTransitive(vs[i], vs[j], vs[k]);
    }
  }

  /**
   * When `get_latest_version` picks a version out of two or more, it occurs
   * once in the list and every other version happens before it.
   */
  lemma LatestIsAfterAllOthers(vs: seq<Clock>, v: Clock)
    requires |vs| >= 2 && Latest(vs) == Some(v)
    ensures exists j :: 0 <= j < |vs| && vs[j] == v
    ensures forall i :: 0 <= i < |vs| && vs[i] != v ==> Before(vs[i], v)
    ensures forall i, j :: 0 <= i < j < |vs| ==> vs[i] != v || vs[j] != v
  {
    var c := Candidates(vs, vs);
    assert v == c[0] && v in c;
    CandidatesAreMaximal(vs, vs, v);
    forall i, j | 0 <= i < j < |vs| && IsMaximal(vs[i], vs) && IsMaximal(vs[j], vs)
      ensures false
    {
      TwoMaximalTwoCandidates(vs, vs, i, j);
    }
    forall i | 0 <= i < |vs| && vs[i] != v ensures Before(vs[i], v) {
      var k := BelowSomeMaximal(vs, i);
      MaximalIsCandidate(vs, vs, k);
      assert vs[k] in c;
      assert vs[k] == v;
    }
  }

  /**
   * With two or more versions, `get_latest_version` reports a conflict
   * exactly when two positions hold versions that nothing is after.
   */
  lemma LatestConflictIffTwoMaximal(vs: seq<Clock>)
    requires |vs| >= 2
    ensures Latest(vs) == None <==>
      exists i, j :: 0 <= i < j < |vs| && IsMaximal(vs[i], vs) && IsMaximal(vs[j], vs)
  {
    var c := Candidates(vs, vs);
    if Latest(vs) == None {
      var k := BelowSomeMaximal(vs, 0);
      MaximalIsCandidate(vs, vs, k);
      assert |c| >= 2;
      var i, j := TwoCandidatesTwoMaximal(vs, vs);
    } else {
      forall i, j | 0 <= i < j < |vs| && IsMaximal(vs[i], vs) && IsMaximal(vs[j], vs)
        ensures false
      {
        TwoMaximalTwoCandidates(vs, vs, i, j);
      }
    }
  }

  /** `Equiv` is entry-wise equality with absent entries read as 0. */
  lemma EquivAt(a: Clock, b: Clock)
    ensures Equiv(a, b) <==> forall n :: At(a, n) == At(b, n)
  {
  }

  /** `Dominates` is entry-wise comparison with absent entries read as 0. */
  lemma DominatesAt(a: Clock, b: Clock)
    ensures Dominates(a, b) <==> forall n :: At(a, n) >= At(b, n)
  {
  }

  /**
   * With two or more versions, `get_latest_version` as written reports a
   * conflict when the newest version is held twice: `[{1: 1}, {1: 2},
   * {1: 2}]` has no concurrent pair, yet both copies of `{1: 2}` become
   * candidates and the answer is `None`.
   */
  lemma LatestAsWrittenConflictsOnAgreement()
    ensures Latest([map[1 := 1], map[1 := 2], map[1 := 2]]) == None
    ensures Before(map[1 := 1], map[1 := 2])
  {
    var old1, new1: Clock := map[1 := 1], map[1 := 2];
    var vs := [old1, new1, new1];
    assert At(old1, 1) < At(new1, 1);
    assert Before(old1, new1);
    BeforeIrreflexive(new1);
    BeforeAsymmetric(old1, new1);
    assert !IsMaximal(old1, vs) by {
      assert Before(vs[0], vs[1]);
    }
    assert IsMaximal(new1, vs);
    TwoMaximalTwoCandidates(vs, vs, 1, 2);
  }

  /** `c` already holds a version equal to `v`. */
  predicate HasEquiv(c: seq<Clock>, v: Clock)
  {
    exists i :: 0 <= i < |c| && Equiv(c[i], v)
  }

  /**
   * The `candidates` list with the evident repair: a maximal version is
   * added only when no equal version is already a candidate.
   */
  function AgreedCandidates(vs: seq<Clock>, all: seq<Clock>): seq<Clock>
  {
    if vs == [] then []
    else
      var c := AgreedCandidates(vs[..|vs| - 1], all);
      var v := vs[|vs| - 1];
      if IsMaximal(v, all) && !HasEquiv(c, v) then c + [v] else c
  }

  /** `get_latest_version` with the candidates kept up to equality. */
  function LatestAgreed(vs: seq<Clock>): Option<Clock>
  {
    if |vs| == 0 then None
    else if |vs| == 1 then Some(vs[0])
    else
      var c := AgreedCandidates(vs, vs);
      if |c| == 1 then Some(c[0]) else None
  }

  lemma {:induction false} AgreedCandidatesAreMaximal(vs: seq<Clock>, all: seq<Clock>)
    ensures forall x :: x in AgreedCandidates(vs, all) ==> x in vs && IsMaximal(x, all)
    ensures forall i, j :: 0 <= i < j < |AgreedCandidates(vs, all)| ==>
      !Equiv(AgreedCandidates(vs, all)[i], AgreedCandidates(vs, all)[j])
  {
    if vs != [] {
      var init := vs[..|vs| - 1];
      AgreedCandidatesAreMaximal(init, all);
      var c := AgreedCandidates(init, all);
      var v := vs[|vs| - 1];
      forall x | x in AgreedCandidates(vs, all) ensures x in vs && IsMaximal(x, all) {
        if x in c {
          assert x in init;
        }
      }
      if IsMaximal(v, all) && !HasEquiv(c, v) {
        var r := c + [v];
        forall i, j | 0 <= i < j < |r| ensures !Equiv(r[i], r[j]) {
          if j == |c| {
            assert r[i] == c[i];
          }
        }
      }
    }
  }

  lemma {:induction false} MaximalHasAgreedCandidate(vs: seq<Clock>, all: seq<Clock>, i: int)
    requires 0 <= i < |vs| && IsMaximal(vs[i], all)
    ensures HasEquiv(AgreedCandidates(vs, all), vs[i])
  {
    var init := vs[..|vs| - 1];
    var c := AgreedCandidates(init, all);
    if i < |vs| - 1 {
      MaximalHasAgreedCandidate(init, all, i);
      var k :| 0 <= k < |c| && Equiv(c[k], init[i]);
      assert AgreedCandidates(vs, all)[k] == c[k];
    } else if HasEquiv(c, vs[i]) {
      var k :| 0 <= k < |c| && Equiv(c[k], vs[i]);
      assert AgreedCandidates(vs, all)[k] == c[k];
    } else {
      assert AgreedCandidates(vs, all)[|c|] == vs[i];
    }
  }

  /**
   * When the repaired `get_latest_version` picks a version, that version
   * is one of the list and is equal to or after every version in it.
   */
  lemma LatestAgreedDominatesAll(vs: seq<Clock>, v: Clock)
    requires LatestAgreed(vs) == Some(v)
    ensures v in vs
    ensures forall x :: x in vs ==> Dominates(v, x)
  {
    if |vs| == 1 {
      assert vs == [v];
    } else {
      var c := AgreedCandidates(vs, vs);
      AgreedCandidatesAreMaximal(vs, vs);
      assert c[0] == v && v in c;
      forall x | x in vs ensures Dominates(v, x) {
        var i :| 0 <= i < |vs| && vs[i] == x;
        var k := BelowSomeMaximal(vs, i);
        MaximalHasAgreedCandidate(vs, vs, k);
        var t :| 0 <= t < |c| && Equiv(c[t], vs[k]);
        assert t == 0;
        EquivAt(v, vs[k]);
        DominatesAt(v, x);
      }
    }
  }

  /**
   * The repaired `get_latest_version` reports a conflict on a non-empty
   * list exactly when two versions that nothing is after differ, which
   * makes them concurrent.
   */
  lemma LatestAgreedConflictIffConcurrentMaximal(vs: seq<Clock>)
    requires vs != []
    ensures LatestAgreed(vs) == None <==>
      exists i, j :: 0 <= i < |vs| && 0 <= j < |vs| && IsMaximal(vs[i], vs) && IsMaximal(vs[j], vs) &&
        !Equiv(vs[i], vs[j])
    ensures forall i, j :: 0 <= i < |vs| && 0 <= j < |vs| && IsMaximal(vs[i], vs) && IsMaximal(vs[j], vs) ==>
      Concurrent(vs[i], vs[j])
  {
    var c := AgreedCandidates(vs, vs);
    AgreedCandidatesAreMaximal(vs, vs);
    if |vs| >= 2 {
      if LatestAgreed(vs) == None {
        var k := BelowSomeMaximal(vs, 0);
        MaximalHasAgreedCandidate(vs, vs, k);
        assert |c| >= 2;
        assert c[0] in vs && c[1] in vs;
        var i :| 0 <= i < |vs| && vs[i] == c[0];
        var j :| 0 <= j < |vs| && vs[j] == c[1];
        assert IsMaximal(vs[i], vs) && IsMaximal(vs[j], vs) && !Equiv(vs[i], vs[j]);
      } else {
        forall i, j | 0 <= i < |vs| && 0 <= j < |vs| && IsMaximal(vs[i], vs) && IsMaximal(vs[j], vs)
          ensures Equiv(vs[i], vs[j])
        {
          MaximalHasAgreedCandidate(vs, vs, i);
          MaximalHasAgreedCandidate(vs, vs, j);
          EquivAt(c[0], vs[i]);
          EquivAt(c[0], vs[j]);
          EquivAt(vs[i], vs[j]);
        }
      }
    }
  }

  /** On the list above, the repaired version picks the newest version. */
  lemma LatestAgreedPicksNewest()
    ensures LatestAgreed([map[1 := 1], map[1 := 2], map[1 := 2]]) == Some(map[1 := 2])
  {
    var old1, new1: Clock := map[1 := 1], map[1 := 2];
    var vs := [old1, new1, new1];
    assert At(old1, 1) < At(new1, 1);
    assert Before(vs[0], vs[1]);
    BeforeIrreflexive(new1);
    assert Equiv(new1, new1);
    assert AgreedCandidates(vs[..1], vs) == [] by {
      assert vs[..1][..0] == [];
    }
    assert vs[..2][..1] == vs[..1];
    assert AgreedCandidates(vs[..2], vs) == [new1];
    assert HasEquiv([new1], new1) by {
      assert [new1][0] == new1;
    }
    assert vs[..3][..2] == vs[..2];
    assert vs[..3] == vs;
  }

  // ---------------------------------------------------------------------
  // to_dict / from_dict: node ids travel as decimal strings.

  predicate IsDigit(ch: char)
  {
    '0' <= ch <= '9'
  }

  predicate AllDigits(s: string)
  {
    forall i :: 0 <= i < |s| ==> IsDigit(s[i])
  }

  function DigitChar(d: int): char
    requires 0 <= d < 10
  {
    (48 + d) as char
  }

  /** `str(n)` for a natural number. */
  function ShowNat(n: nat): string
  {
    if n < 10 then [DigitChar(n)] else ShowNat(n / 10) + [DigitChar(n % 10)]
  }

  /** `str(n)`. */
  function Show(n: int): string
  {
    if n < 0 then "-" + ShowNat(-n) else ShowNat(n)
  }

  function ParseNat(s: string): nat
    requires AllDigits(s)
  {
    if s == [] then 0 else 10 * ParseNat(s[..|s| - 1]) + (s[|s| - 1] as int - 48)
  }

  /** `int(s)` on an optional minus sign followed by decimal digits. */
  function Parse(s: string): Option<int>
  {
    if |s| >= 2 && s[0] == '-' && AllDigits(s[1..]) then Some(0 - ParseNat(s[1..]) as int)
    else if |s| >= 1 && AllDigits(s) then Some(ParseNat(s))
    else None
  }

  /** A key in the form `str` writes. */
  predicate Canonical(s: string)
  {
    Parse(s).Some? && Show(Parse(s).value) == s
  }

  lemma {:induction false} ParseShowNat(n: nat)
    ensures |ShowNat(n)| >= 1 && AllDigits(ShowNat(n))
    ensures ParseNat(ShowNat(n)) == n
  {
    if n >= 10 {
      ParseShowNat(n / 10);
      var s := ShowNat(n);
      assert s[..|s| - 1] == ShowNat(n / 10);
    }
  }

  lemma ParseShow(n: int)
    ensures Parse(Show(n)) == Some(n)
  {
    var s := Show(n);
    if n < 0 {
      ParseShowNat(-n);
      assert s == "-" + ShowNat(-n) && s[1..] == ShowNat(-n);
      assert |s| >= 2 && s[0] == '-' && AllDigits(s[1..]);
      assert Parse(s) == Some(0 - ParseNat(ShowNat(-n)) as int);
    } else {
      ParseShowNat(n);
      assert s == ShowNat(n) && IsDigit(s[0]);
      assert Parse(s) == Some(ParseNat(s));
    }
  }

  lemma ShowInjective()
    ensures forall a, b :: Show(a) == Show(b) ==> a == b
  {
    forall a, b | Show(a) == Show(b) ensures a == b {
      ParseShow(a);
      ParseShow(b);
    }
  }

  /** `to_dict`: the same clock with its node ids written as strings. */
  function ToDict(c: Clock): map<string, int>
  {
    ShowInjective();
    map n | n in c :: Show(n) := c[n]
  }

  /**
   * `from_dict`: reads the node ids back; `None` stands for the `ValueError`
   * that `int(k)` raises on a key that is not a number.
   */
  function FromDict(d: map<string, int>): Option<Clock>
  {
    if forall s :: s in d ==> Canonical(s) then
      Some(map s | s in d :: Parse(s).value := d[s])
    else None
  }

  lemma ToDictHas(c: Clock, n: int)
    requires n in c
    ensures Show(n) in ToDict(c) && ToDict(c)[Show(n)] == c[n]
  {
    ShowInjective();
  }

  lemma ToDictKey(c: Clock, s: string)
    requires s in ToDict(c)
    ensures Canonical(s) && Parse(s).value in c && Show(Parse(s).value) == s
  {
    var n :| n in c && Show(n) == s;
    ParseShow(n);
  }

  /** What `from_dict` builds out of a dictionary whose keys are all canonical. */
  lemma FromDictEntries(d: map<string, int>) returns (r: Clock)
    requires forall s :: s in d ==> Canonical(s)
    ensures FromDict(d) == Some(r)
    ensures forall n :: n in r <==> Show(n) in d
    ensures forall n :: n in r ==> r[n] == d[Show(n)]
  {
    r := FromDict(d).value;
    forall n | n in r ensures Show(n) in d && r[n] == d[Show(n)] {
      var s :| s in d && Parse(s).value == n;
    }
    forall n | Show(n) in d ensures n in r {
      ParseShow(n);
    }
  }

  /** The keys `to_dict` writes are canonical, one per node id. */
  lemma ToDictAt(c: Clock)
    ensures forall s :: s in ToDict(c) ==> Canonical(s)
    ensures forall n :: Show(n) in ToDict(c) <==> n in c
    ensures forall n :: n in c ==> ToDict(c)[Show(n)] == c[n]
  {
    forall s | s in ToDict(c) ensures Canonical(s) {
      ToDictKey(c, s);
    }
    forall n | Show(n) in ToDict(c) ensures n in c {
      ToDictKey(c, Show(n));
      ParseShow(n);
    }
    forall n | n in c ensures Show(n) in ToDict(c) && ToDict(c)[Show(n)] == c[n] {
      ToDictHas(c, n);
    }
  }

  /** Two clocks that agree with the same dictionary, key `Show(n)` for id `n`, are equal. */
  lemma SameThroughKeys(a: Clock, b: Clock, d: map<string, int>)
    requires forall n :: n in a <==> Show(n) in d
    requires forall n :: n in a ==> a[n] == d[Show(n)]
    requires forall n :: n in b <==> Show(n) in d
    requires forall n :: n in b ==> b[n] == d[Show(n)]
    ensures a == b
  {
    forall n ensures n in a <==> n in b {
      assert n in a <==> Show(n) in d;
      assert n in b <==> Show(n) in d;
    }
    assert a.Keys == b.Keys;
    forall n | n in a ensures a[n] == b[n] {
      assert a[n] == d[Show(n)];
    }
  }

  /** `from_dict(to_dict(v))` gives back exactly the clock `v`. */
  lemma DictRoundTrip(c: Clock)
    ensures FromDict(ToDict(c)) == Some(c)
  {
    ToDictAt(c);
    var back := FromDictEntries(ToDict(c));
    SameThroughKeys(back, c, ToDict(c));
  }

  /** The only dictionary `from_dict` reads as `c` is `to_dict(c)`. */
  lemma FromDictOnlyToDict(d: map<string, int>, c: Clock)
    requires FromDict(d) == Some(c)
    ensures d == ToDict(c)
  {
    assert forall s :: s in d ==> Canonical(s);
    var r := FromDictEntries(d);
    ToDictAt(c);
    SameDict(d, ToDict(c));
  }

  /** Two dictionaries with canonical keys that agree on every id `Show(n)` are equal. */
  lemma SameDict(d: map<string, int>, e: map<string, int>)
    requires forall s :: s in d ==> Canonical(s)
    requires forall s :: s in e ==> Canonical(s)
    requires forall n :: Show(n) in d <==> Show(n) in e
    requires forall n :: Show(n) in d ==> d[Show(n)] == e[Show(n)]
    ensures d == e
  {
    forall s | s in d ensures s in e && e[s] == d[s] {
      assert s == Show(Parse(s).value);
    }
    forall s | s in e ensures s in d {
      assert s == Show(Parse(s).value);
    }
  }
}
