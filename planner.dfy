/** The sports-hall planner: gives each request, in list order, a distinct hall able to host
    it, trying halls in list order and backtracking when a choice leads nowhere. Halls are
    addressed by their index in the list of halls; an assignment is the sequence of hall
    indices chosen for the requests so far. */
module Planner {
  import opened Wrappers

  datatype Property = NearCityCentre | ClosePublicTransport | HasRestaurant

  datatype Field = Basketball | Tennis | Volleyball | Badminton

  /** A booking request: the properties the hall must have, the sport, and how many fields of
      that sport it needs at least. */
  datatype Request = Request(properties: set<Property>, field: Field, minFields: int)

  /** A hall: its properties and the number of fields it has per sport. */
  datatype SportsHall = SportsHall(properties: set<Property>, fields: map<Field, int>)

  /** The outcome of planning: a hall-to-request mapping, no plan (every hall tried without a
      full assignment), or the error raised for a list of halls holding duplicates. */
  datatype Plan = Planned(assignment: map<SportsHall, Request>) | NoPlan | DuplicateHalls

  /** A hall can host a request when it has every property asked for and at least the minimum
      number of fields of the requested sport (exactly the minimum is enough). */
  predicate CanFulfill(h: SportsHall, r: Request)
    ensures !(r.properties <= h.properties) ==> !CanFulfill(h, r)
    ensures r.field !in h.fields ==> !CanFulfill(h, r)
    ensures r.field in h.fields && h.fields[r.field] < r.minFields ==> !CanFulfill(h, r)
    ensures r.properties <= h.properties && r.field in h.fields && h.fields[r.field] == r.minFields
            ==> CanFulfill(h, r)
  {
    && r.properties <= h.properties
    && r.field in h.fields
    && h.fields[r.field] >= r.minFields
  }

  predicate NoDuplicates(hs: seq<SportsHall>) {
    forall i, j :: 0 <= i < j < |hs| ==> hs[i] != hs[j]
  }

  /** No hall index is used twice. */
  ghost predicate Distinct(a: seq<nat>) {
    forall i, j :: 0 <= i < j < |a| ==> a[i] != a[j]
  }

  /** `a` assigns to each of the first `|a|` requests a hall that can host it, no hall twice. */
  ghost predicate Partial(rs: seq<Request>, hs: seq<SportsHall>, a: seq<nat>) {
    && |a| <= |rs|
    && (forall i :: 0 <= i < |a| ==> a[i] < |hs| && CanFulfill(hs[a[i]], rs[i]))
    && Distinct(a)
  }

  /** `a` is a full assignment: every request has a hall that can host it, no hall twice. */
  ghost predicate Complete(rs: seq<Request>, hs: seq<SportsHall>, a: seq<nat>) {
    Partial(rs, hs, a) && |a| == |rs|
  }

  /** `x` comes no later than `y` in lexicographic order: the two are equal, or `x` picks an
      earlier hall at the first request where they differ. */
  ghost predicate LexLeq(x: seq<nat>, y: seq<nat>) {
    x == y || exists k :: 0 <= k < |x| && k < |y| && x[..k] == y[..k] && x[k] < y[k]
  }

  /** Completes the partial assignment `a`: halls are tried for the next request in list order. */
  function Extend(rs: seq<Request>, hs: seq<SportsHall>, a: seq<nat>): Option<seq<nat>>
    decreases |rs| - |a|, |hs| + 1
  {
    if |a| >= |rs| then Some(a) else TryFrom(rs, hs, a, 0)
  }

  /** Tries halls `h`, `h + 1`, ... for request `|a|`, backtracking to the next hall when the
      rest of the requests cannot be served after a choice. */
  function TryFrom(rs: seq<Request>, hs: seq<SportsHall>, a: seq<nat>, h: nat): Option<seq<nat>>
    requires |a| < |rs|
    decreases |rs| - |a|, |hs| - h
  {
    if h >= |hs| then None
    else if h !in a && CanFulfill(hs[h], rs[|a|]) then
      match Extend(rs, hs, a + [h])
      case Some(full) => Some(full)
      case None => TryFrom(rs, hs, a, h + 1)
    else TryFrom(rs, hs, a, h + 1)
  }

  /** Choosing a fresh hall able to host the next request keeps an assignment partial. */
  lemma PartialAppend(rs: seq<Request>, hs: seq<SportsHall>, a: seq<nat>, h: nat)
    requires Partial(rs, hs, a) && |a| < |rs| && h < |hs| && h !in a && CanFulfill(hs[h], rs[|a|])
    ensures Partial(rs, hs, a + [h])
  {
    forall i, j | 0 <= i < j < |a + [h]|
      ensures (a + [h])[i] != (a + [h])[j]
    {
      if j == |a| {
        assert (a + [h])[i] == a[i];
      }
    }
  }

  /** A full assignment extending `a` with hall `c[|a|]` for the next request extends
      `a + [c[|a|]]`, and that hall was not used by `a`. */
  lemma NextOfComplete(rs: seq<Request>, hs: seq<SportsHall>, a: seq<nat>, c: seq<nat>)
    requires Complete(rs, hs, c) && a <= c && |a| < |c|
    ensures a + [c[|a|]] <= c
    ensures c[|a|] !in a && c[|a|] < |hs| && CanFulfill(hs[c[|a|]], rs[|a|])
  {
    assert c[..|a| + 1] == a + [c[|a|]];
  }

  /** Extension answers with the lexicographically least full assignment extending `a`, and
      with `None` exactly when there is none. */
  lemma {:induction false} ExtendFinds(rs: seq<Request>, hs: seq<SportsHall>, a: seq<nat>)
    requires Partial(rs, hs, a)
    ensures Extend(rs, hs, a).Some? ==>
              && Complete(rs, hs, Extend(rs, hs, a).value)
              && a <= Extend(rs, hs, a).value
              && forall c :: Complete(rs, hs, c) && a <= c ==> LexLeq(Extend(rs, hs, a).value, c)
    ensures Extend(rs, hs, a).None? ==> forall c :: Complete(rs, hs, c) ==> !(a <= c)
    decreases |rs| - |a|, |hs| + 1
  {
    if |a| < |rs| {
      TryFromFinds(rs, hs, a, 0);
    }
  }

  /** Trying halls from `h` on answers with the lexicographically least full assignment
      extending `a` whose next hall is `h` or later, and with `None` exactly when there is none. */
  lemma {:induction false} TryFromFinds(rs: seq<Request>, hs: seq<SportsHall>, a: seq<nat>, h: nat)
    requires Partial(rs, hs, a) && |a| < |rs|
    ensures TryFrom(rs, hs, a, h).Some? ==>
              && Complete(rs, hs, TryFrom(rs, hs, a, h).value)
              && a <= TryFrom(rs, hs, a, h).value
              && TryFrom(rs, hs, a, h).value[|a|] >= h
              && forall c :: Complete(rs, hs, c) && a <= c && c[|a|] >= h ==>
                               LexLeq(TryFrom(rs, hs, a, h).value, c)
    ensures TryFrom(rs, hs, a, h).None? ==>
              forall c :: Complete(rs, hs, c) && a <= c ==> c[|a|] < h
    decreases |rs| - |a|, |hs| - h
  {
    if h >= |hs| {
      forall c | Complete(rs, hs, c) && a <= c
        ensures c[|a|] < h
      {
        NextOfComplete(rs, hs, a, c);
      }
    } else if h !in a && CanFulfill(hs[h], rs[|a|]) {
      PartialAppend(rs, hs, a, h);
      ExtendFinds(rs, hs, a + [h]);
      match Extend(rs, hs, a + [h])
      case Some(f) =>
        assert f[..|a|] == a && f[|a|] == h by {
          assert f[..|a| + 1] == a + [h];
        }
        forall c | Complete(rs, hs, c) && a <= c && c[|a|] >= h
          ensures LexLeq(f, c)
        {
          NextOfComplete(rs, hs, a, c);
          if c[|a|] != h {
            assert f[..|a|] == c[..|a|] && f[|a|] < c[|a|];
          }
        }
      case None =>
        TryFromFinds(rs, hs, a, h + 1);
        forall c | Complete(rs, hs, c) && a <= c && c[|a|] >= h
          ensures c[|a|] >= h + 1
        {
          NextOfComplete(rs, hs, a, c);
        }
    } else {
      TryFromFinds(rs, hs, a, h + 1);
      forall c | Complete(rs, hs, c) && a <= c && c[|a|] >= h
        ensures c[|a|] >= h + 1
      {
        NextOfComplete(rs, hs, a, c);
      }
    }
  }

  /** The mapping an assignment stands for: each assigned hall mapped to its request. */
  function ToMap(rs: seq<Request>, hs: seq<SportsHall>, a: seq<nat>): map<SportsHall, Request>
    requires Partial(rs, hs, a)
    decreases |a|
  {
    if |a| == 0 then map[]
    else
      var front := a[..|a| - 1];
      assert Partial(rs, hs, front);
      ToMap(rs, hs, front)[hs[a[|a| - 1]] := rs[|a| - 1]]
  }

  /** The mapping of an assignment maps each chosen hall to the request it was chosen for. */
  lemma {:induction false} ToMapHas(rs: seq<Request>, hs: seq<SportsHall>, a: seq<nat>)
    requires NoDuplicates(hs) && Partial(rs, hs, a)
    ensures forall i :: 0 <= i < |a| ==> hs[a[i]] in ToMap(rs, hs, a) && ToMap(rs, hs, a)[hs[a[i]]] == rs[i]
    decreases |a|
  {
    if |a| > 0 {
      var front := a[..|a| - 1];
      assert Partial(rs, hs, front);
      ToMapHas(rs, hs, front);
      forall i | 0 <= i < |front|
        ensures hs[a[i]] != hs[a[|a| - 1]]
      {
        assert a[i] != a[|a| - 1];
      }
    }
  }

  /** The mapping of an assignment holds no hall that was not chosen. */
  lemma {:induction false} ToMapOnly(rs: seq<Request>, hs: seq<SportsHall>, a: seq<nat>)
    requires Partial(rs, hs, a)
    ensures forall h :: h in ToMap(rs, hs, a) ==> exists i :: 0 <= i < |a| && hs[a[i]] == h
    decreases |a|
  {
    if |a| > 0 {
      var front := a[..|a| - 1];
      assert Partial(rs, hs, front);
      ToMapOnly(rs, hs, front);
      assert ToMap(rs, hs, a) == ToMap(rs, hs, front)[hs[a[|a| - 1]] := rs[|a| - 1]];
      forall h | h in ToMap(rs, hs, a)
        ensures exists i :: 0 <= i < |a| && hs[a[i]] == h
      {
        if h != hs[a[|a| - 1]] {
          var i :| 0 <= i < |front| && hs[front[i]] == h;
          assert hs[a[i]] == h;
        }
      }
    }
  }

  /** Halls being distinct, the mapping of an assignment has one entry per assigned request. */
  lemma {:induction false} ToMapSize(rs: seq<Request>, hs: seq<SportsHall>, a: seq<nat>)
    requires NoDuplicates(hs) && Partial(rs, hs, a)
    ensures |ToMap(rs, hs, a)| == |a|
    decreases |a|
  {
    if |a| > 0 {
      var front := a[..|a| - 1];
      assert Partial(rs, hs, front);
      ToMapSize(rs, hs, front);
      ToMapOnly(rs, hs, front);
    }
  }

  /** Plans the halls: duplicate halls are an error (checked first, even with no requests); no
      requests give the empty mapping; otherwise the first full assignment in list order, or
      no plan. */
  function PlanHalls(rs: seq<Request>, hs: seq<SportsHall>): (p: Plan)
    ensures p == DuplicateHalls <==> !NoDuplicates(hs)
    ensures NoDuplicates(hs) && |rs| == 0 ==> p == Planned(map[])
  {
    if !NoDuplicates(hs) then DuplicateHalls
    else if |rs| == 0 then Planned(map[])
    else
      ExtendFinds(rs, hs, []);
      match Extend(rs, hs, [])
      case None => NoPlan
      case Some(a) => Planned(ToMap(rs, hs, a))
  }

  /** The error is raised exactly for duplicate halls, whatever the requests (even none);
      with distinct halls, no requests give the empty mapping. */
  lemma PlanRejectsDuplicates(rs: seq<Request>, hs: seq<SportsHall>)
    ensures PlanHalls(rs, hs) == DuplicateHalls <==> exists i, j :: 0 <= i < j < |hs| && hs[i] == hs[j]
    ensures |rs| == 0 && NoDuplicates(hs) ==> PlanHalls(rs, hs) == Planned(map[])
  {
  }

  /** There is no plan exactly when the halls are distinct and no full assignment exists. */
  lemma PlanNoneIff(rs: seq<Request>, hs: seq<SportsHall>)
    ensures PlanHalls(rs, hs) == NoPlan <==> NoDuplicates(hs) && forall c :: !Complete(rs, hs, c)
  {
    ExtendFinds(rs, hs, []);
    if NoDuplicates(hs) && |rs| == 0 {
      assert Complete(rs, hs, []);
    }
  }

  /** A plan comes from the first full assignment in list order: requests in order, each
      taking the earliest hall that still leaves the rest servable. */
  lemma PlanIsFirstFit(rs: seq<Request>, hs: seq<SportsHall>)
    requires PlanHalls(rs, hs).Planned?
    ensures exists a :: && Complete(rs, hs, a)
                        && (forall c :: Complete(rs, hs, c) ==> LexLeq(a, c))
                        && PlanHalls(rs, hs).assignment == ToMap(rs, hs, a)
  {
    ExtendFinds(rs, hs, []);
    if |rs| == 0 {
      assert Complete(rs, hs, []);
      assert ToMap(rs, hs, []) == map[];
    }
  }

  /** A plan serves every request: it has one entry per request, each hall in it comes from
      the list and can host the request it is given, and no hall serves two requests. */
  lemma PlanServesEveryRequest(rs: seq<Request>, hs: seq<SportsHall>)
    requires PlanHalls(rs, hs).Planned?
    ensures var m := PlanHalls(rs, hs).assignment;
            && |m| == |rs|
            && (forall h :: h in m ==> h in hs && CanFulfill(h, m[h]))
            && (forall i :: 0 <= i < |rs| ==> exists h :: h in m && m[h] == rs[i])
  {
    PlanIsFirstFit(rs, hs);
    var a :| Complete(rs, hs, a) && PlanHalls(rs, hs).assignment == ToMap(rs, hs, a);
    ToMapHas(rs, hs, a);
    ToMapOnly(rs, hs, a);
    ToMapSize(rs, hs, a);
    var m := PlanHalls(rs, hs).assignment;
    forall h | h in m
      ensures h in hs && CanFulfill(h, m[h])
    {
      var i :| 0 <= i < |a| && hs[a[i]] == h;
    }
    forall i | 0 <= i < |rs|
      ensures exists h :: h in m && m[h] == rs[i]
    {
      assert hs[a[i]] in m;
    }
  }

  /** With a single request, the plan gives it the first hall in the list that can host it. */
  lemma OneRequestFirstHall(r: Request, hs: seq<SportsHall>, k: nat)
    requires NoDuplicates(hs) && k < |hs| && CanFulfill(hs[k], r)
    requires forall j :: 0 <= j < k ==> !CanFulfill(hs[j], r)
    ensures PlanHalls([r], hs) == Planned(map[hs[k] := r])
  {
    var rs := [r];
    assert Complete(rs, hs, [k]);
    ExtendFinds(rs, hs, []);
    PlanIsFirstFit(rs, hs);
    var a :| Complete(rs, hs, a) && (forall c :: Complete(rs, hs, c) ==> LexLeq(a, c))
             && PlanHalls(rs, hs).assignment == ToMap(rs, hs, a);
    assert LexLeq(a, [k]);
    assert a == [k];
    assert [k][..0] == [];
  }

  /** Distinct hall indices below `n` number at most `n`. */
  lemma {:induction false} Pigeonhole(a: seq<nat>, n: nat)
    requires Distinct(a) && forall i :: 0 <= i < |a| ==> a[i] < n
    ensures |a| <= n
    decreases n
  {
    if n > 0 {
      if n - 1 in a {
        var k :| 0 <= k < |a| && a[k] == n - 1;
        var rest := a[..k] + a[k + 1..];
        forall i | 0 <= i < |rest|
          ensures rest[i] == if i < k then a[i] else a[i + 1]
        {
        }
        Pigeonhole(rest, n - 1);
      } else {
        Pigeonhole(a, n - 1);
      }
    }
  }

  /** More requests than halls (in particular, no halls at all) leave no plan. */
  lemma MoreRequestsThanHalls(rs: seq<Request>, hs: seq<SportsHall>)
    requires NoDuplicates(hs) && |rs| > |hs|
    ensures PlanHalls(rs, hs) == NoPlan
  {
    forall c | Complete(rs, hs, c)
      ensures false
    {
      Pigeonhole(c, |hs|);
    }
    PlanNoneIff(rs, hs);
  }

  /** Two requests each hostable only by the other's first choice: the plan backtracks to the
      cross assignment. */
  lemma BacktracksToCrossAssignment()
    ensures var r1 := Request({HasRestaurant}, Tennis, 1);
            var r2 := Request({NearCityCentre}, Volleyball, 1);
            var h1 := SportsHall({NearCityCentre}, map[Volleyball := 1]);
            var h2 := SportsHall({HasRestaurant}, map[Tennis := 1]);
            PlanHalls([r1, r2], [h1, h2]) == Planned(map[h2 := r1, h1 := r2])
  {
    var r1 := Request({HasRestaurant}, Tennis, 1);
    var r2 := Request({NearCityCentre}, Volleyball, 1);
    var h1 := SportsHall({NearCityCentre}, map[Volleyball := 1]);
    var h2 := SportsHall({HasRestaurant}, map[Tennis := 1]);
    var rs, hs := [r1, r2], [h1, h2];
    assert HasRestaurant !in h1.properties;
    assert h1 != h2;
    assert [] + [1] == [1] && [1] + [0] == [1, 0];
    assert TryFrom(rs, hs, [1], 0) == Some([1, 0]);
    assert TryFrom(rs, hs, [], 1) == Some([1, 0]);
    assert TryFrom(rs, hs, [], 0) == Some([1, 0]);
    assert [1, 0][..1] == [1] && [1][..0] == [];
    assert ToMap(rs, hs, [1, 0]) == map[h2 := r1, h1 := r2];
  }

  /** With two distinct halls, each able to host the request of its own position, the first
      request takes the first hall and the second request the second. */
  lemma TakeInOrder(rs: seq<Request>, hs: seq<SportsHall>)
    requires |rs| == 2 && |hs| == 2 && hs[0] != hs[1]
    requires CanFulfill(hs[0], rs[0]) && CanFulfill(hs[1], rs[1])
    ensures NoDuplicates(hs) && Extend(rs, hs, []) == Some([0, 1])
    ensures PlanHalls(rs, hs) == Planned(ToMap(rs, hs, [0, 1]))
  {
    assert [] + [0] == [0] && [0] + [1] == [0, 1];
    assert Extend(rs, hs, [0, 1]) == Some([0, 1]);
    assert TryFrom(rs, hs, [0], 1) == Some([0, 1]);
    assert TryFrom(rs, hs, [0], 0) == Some([0, 1]);
    assert Extend(rs, hs, [0]) == Some([0, 1]);
    assert TryFrom(rs, hs, [], 0) == Some([0, 1]);
  }

  /** Two requests both hostable by both halls: the first request takes the first hall and the
      second request the second. */
  lemma RequestsTakeHallsInOrder()
    ensures var r1 := Request({NearCityCentre}, Badminton, 1);
            var r2 := Request({ClosePublicTransport}, Basketball, 1);
            var h1 := SportsHall({NearCityCentre, ClosePublicTransport}, map[Badminton := 2, Basketball := 1]);
            var h2 := SportsHall({NearCityCentre, ClosePublicTransport}, map[Badminton := 1, Basketball := 2]);
            PlanHalls([r1, r2], [h1, h2]) == Planned(map[h1 := r1, h2 := r2])
  {
    var r1 := Request({NearCityCentre}, Badminton, 1);
    var r2 := Request({ClosePublicTransport}, Basketball, 1);
    var h1 := SportsHall({NearCityCentre, ClosePublicTransport}, map[Badminton := 2, Basketball := 1]);
    var h2 := SportsHall({NearCityCentre, ClosePublicTransport}, map[Badminton := 1, Basketball := 2]);
    var rs, hs := [r1, r2], [h1, h2];
    assert h1.fields[Badminton] != h2.fields[Badminton];
    assert CanFulfill(h1, r1) && CanFulfill(h2, r2);
    TakeInOrder(rs, hs);
    assert [0, 1][..1] == [0] && [0][..0] == [];
    assert ToMap(rs, hs, [0]) == map[h1 := r1];
    assert ToMap(rs, hs, [0, 1]) == map[h1 := r1, h2 := r2];
  }

  /** A hall must have every requested property and enough fields: of a hall missing a
      property, one with too few fields and one with exactly the minimum, the last is chosen. */
  lemma AllPropertiesAndEnoughFields()
    ensures var r := Request({NearCityCentre, ClosePublicTransport}, Volleyball, 3);
            var missing := SportsHall({NearCityCentre}, map[Volleyball := 5]);
            var few := SportsHall({NearCityCentre, ClosePublicTransport}, map[Volleyball := 2]);
            var ok := SportsHall({NearCityCentre, ClosePublicTransport}, map[Volleyball := 3]);
            PlanHalls([r], [missing, few, ok]) == Planned(map[ok := r])
  {
    var r := Request({NearCityCentre, ClosePublicTransport}, Volleyball, 3);
    var missing := SportsHall({NearCityCentre}, map[Volleyball := 5]);
    var few := SportsHall({NearCityCentre, ClosePublicTransport}, map[Volleyball := 2]);
    var ok := SportsHall({NearCityCentre, ClosePublicTransport}, map[Volleyball := 3]);
    var hs := [missing, few, ok];
    assert ClosePublicTransport !in missing.properties;
    assert missing.properties != few.properties && few.fields[Volleyball] != ok.fields[Volleyball];
    OneRequestFirstHall(r, hs, 2);
  }

  /** A hall without any field of the requested sport cannot host it, however many other
      fields it has: there is no plan. */
  lemma MissingSportLeavesNoPlan()
    ensures var r := Request({}, Volleyball, 1);
            var h := SportsHall({NearCityCentre, ClosePublicTransport}, map[Tennis := 5]);
            PlanHalls([r], [h]) == NoPlan
  {
    var r := Request({}, Volleyball, 1);
    var h := SportsHall({NearCityCentre, ClosePublicTransport}, map[Tennis := 5]);
    assert Volleyball !in h.fields;
    PlanNoneIff([r], [h]);
  }

  /** Exactly the minimum number of fields is enough. */
  lemma ExactMinimumAccepted()
    ensures var r := Request({}, Badminton, 3);
            var h := SportsHall({}, map[Badminton := 3]);
            PlanHalls([r], [h]) == Planned(map[h := r])
  {
    OneRequestFirstHall(Request({}, Badminton, 3), [SportsHall({}, map[Badminton := 3])], 0);
  }
}
