/** Reconciling the published DNS records with the crawl's candidates. */
module Reconcile {
  import opened Bytes

  datatype ReconcilePlan = ReconcilePlan(toDelete: seq<string>, toAdd: seq<string>, keep: seq<string>)

  function Inside<T(==,!new)>(s: seq<T>, of: seq<T>): (t: seq<T>)
    ensures forall x :: x in t <==> x in s && x in of
    ensures |t| <= |s|
  {
    if s == [] then [] else (if s[0] in of then [s[0]] else []) + Inside(s[1..], of)
  }

  function Outside<T(==,!new)>(s: seq<T>, of: seq<T>): (t: seq<T>)
    ensures forall x :: x in t <==> x in s && x !in of
    ensures |t| <= |s|
  {
    if s == [] then [] else (if s[0] in of then [] else [s[0]]) + Outside(s[1..], of)
  }

  function Min(a: nat, b: nat): nat { if a < b then a else b }

  function Take<T>(s: seq<T>, n: nat): (t: seq<T>)
    ensures |t| == Min(n, |s|)
  {
    s[..Min(n, |s|)]
  }

  function Drop<T>(s: seq<T>, n: nat): seq<T> { s[Min(n, |s|)..] }

  /** The candidates with the seeder's own address in front, if they lack it. */
  function WithOwn(candidates: seq<string>, own: Option<string>): seq<string> {
    if own.Some? && own.value != "" && own.value !in candidates then [own.value] + candidates else candidates
  }

  /** What the plan should be: of the published candidates keep as many as the cap allows,
      delete the rest, and fill up with candidates that are not kept, in order. */
  function Planned(current: seq<string>, candidates: seq<string>, own: Option<string>, maxSeeds: nat): ReconcilePlan {
    var all := WithOwn(candidates, own);
    var survivors := Inside(current, all);
    var keep := Take(survivors, maxSeeds);
    ReconcilePlan(Outside(current, all) + Drop(survivors, maxSeeds),
                  Take(Outside(all, keep), maxSeeds - |keep|), keep)
  }

  method Reconcile(current: seq<string>, candidates: seq<string>, own: Option<string>, maxSeeds: nat)
    returns (plan: ReconcilePlan)
    ensures plan == Planned(current, candidates, own, maxSeeds)
  {
    var all := candidates;
    if own.Some? {
      if own.value != "" && own.value !in all {
        all := [own.value] + all;
      }
    }
    var toDelete := Outside(current, all);
    var keep := Outside(current, toDelete);
    KeptAreInside(current, all, current);
    ghost var survivors := keep;
    if |keep| > maxSeeds {
      toDelete := toDelete + keep[maxSeeds..];
      keep := keep[..maxSeeds];
    }
    assert toDelete == Outside(current, all) + Drop(survivors, maxSeeds);
    assert keep == Take(survivors, maxSeeds);
    hide Inside, Outside, Take, Drop;
    var toAdd := Grow(all, keep, maxSeeds);
    plan := ReconcilePlan(toDelete, toAdd, keep);
  }

  /** Growing towards the cap from the candidates. */
  method Grow(all: seq<string>, keep: seq<string>, maxSeeds: nat) returns (toAdd: seq<string>)
    requires |keep| <= maxSeeds
    ensures toAdd == Take(Outside(all, keep), maxSeeds - |keep|)
  {
    hide Outside, Take;
    toAdd := [];
    ghost var whole := Take(Outside(all, keep), maxSeeds - |keep|);
    assert all[0..] == all;
    assert [] + whole == whole;
    for i := 0 to |all|
      invariant |toAdd| + |keep| <= maxSeeds
      invariant toAdd + Take(Outside(all[i..], keep), maxSeeds - |keep| - |toAdd|) == whole
    {
      var room: nat := maxSeeds - |keep| - |toAdd|;
      if |toAdd| + |keep| >= maxSeeds {
        TakeNone(Outside(all[i..], keep));
        assert toAdd + [] == toAdd;
        return;
      }
      GrowStep(all, i, keep, room);
      if all[i] !in keep {
        ghost var rest := Take(Outside(all[i + 1..], keep), room - 1);
        assert toAdd + ([all[i]] + rest) == (toAdd + [all[i]]) + rest;
        toAdd := toAdd + [all[i]];
      }
    }
    GrowEnd(all, keep, maxSeeds - |keep| - |toAdd|);
    assert toAdd + [] == toAdd;
  }

  lemma TakeNone<T>(s: seq<T>)
    ensures Take(s, 0) == []
  {
  }

  lemma TakeOne<T>(x: T, rest: seq<T>, n: nat)
    requires n > 0
    ensures Take([x] + rest, n) == [x] + Take(rest, n - 1)
  {
  }

  lemma GrowEnd<T(!new)>(all: seq<T>, keep: seq<T>, room: nat)
    ensures Take(Outside(all[|all|..], keep), room) == []
  {
  }

  lemma GrowStep<T(!new)>(all: seq<T>, i: nat, keep: seq<T>, room: nat)
    requires i < |all| && room > 0
    ensures Take(Outside(all[i..], keep), room)
            == if all[i] in keep then Take(Outside(all[i + 1..], keep), room)
               else [all[i]] + Take(Outside(all[i + 1..], keep), room - 1)
  {
    assert all[i..][1..] == all[i + 1..];
    OutsideStep(all[i..], keep);
    hide Outside;
    if all[i] !in keep {
      TakeOne(all[i], Outside(all[i + 1..], keep), room);
    }
  }

  /** Dropping what is to be deleted leaves the published candidates. */
  lemma {:induction false} KeptAreInside<T(!new)>(s: seq<T>, all: seq<T>, current: seq<T>)
    requires forall x :: x in s ==> x in current
    ensures Outside(s, Outside(current, all)) == Inside(s, all)
  {
    if s != [] {
      KeptAreInside(s[1..], all, current);
    }
  }

  // ---------------------------------------------------------------- conservation

  lemma {:induction false} InsideAndOutside<T(!new)>(s: seq<T>, of: seq<T>)
    ensures multiset(Inside(s, of)) + multiset(Outside(s, of)) == multiset(s)
    ensures |Inside(s, of)| + |Outside(s, of)| == |s|
  {
    if s != [] {
      InsideAndOutside(s[1..], of);
      assert s == [s[0]] + s[1..];
    }
  }

  /** No record is lost or invented: kept and deleted together are the published ones. */
  lemma NothingLost(current: seq<string>, candidates: seq<string>, own: Option<string>, maxSeeds: nat)
    ensures var plan := Planned(current, candidates, own, maxSeeds);
            multiset(plan.keep) + multiset(plan.toDelete) == multiset(current)
  {
    var all := WithOwn(candidates, own);
    InsideAndOutside(current, all);
    hide Inside, Outside;
    var survivors := Inside(current, all);
    assert survivors == Take(survivors, maxSeeds) + Drop(survivors, maxSeeds);
  }

  /** Nothing is added that is deleted or kept; and everything kept or added is a candidate. */
  lemma AddedIsNew(current: seq<string>, candidates: seq<string>, own: Option<string>, maxSeeds: nat, x: string)
    ensures var plan := Planned(current, candidates, own, maxSeeds);
            && (x in plan.toAdd ==> x !in plan.toDelete && x !in plan.keep)
            && (x in plan.toAdd || x in plan.keep ==> x in WithOwn(candidates, own))
  {
    var all := WithOwn(candidates, own);
    var survivors := Inside(current, all);
    var plan := Planned(current, candidates, own, maxSeeds);
    hide Inside, Outside, WithOwn;
    if |survivors| > maxSeeds {
      assert plan.toAdd == [];
    } else {
      assert Drop(survivors, maxSeeds) == [];
    }
    if x in plan.toAdd {
      assert x in Outside(all, plan.keep);
    }
    if x in plan.keep {
      assert x in survivors;
    }
  }

  ghost predicate NoTwice<T>(s: seq<T>) { forall i, j :: 0 <= i < j < |s| ==> s[i] != s[j] }

  /** What is kept is not deleted exactly when no record beyond the cap repeats one within it:
      always, if nothing is published twice. */
  lemma KeptIsNotDeleted(current: seq<string>, candidates: seq<string>, own: Option<string>, maxSeeds: nat)
    ensures var plan := Planned(current, candidates, own, maxSeeds);
            var survivors := Inside(current, WithOwn(candidates, own));
            (forall x :: x in plan.keep ==> x !in plan.toDelete)
            <==> (forall x :: x in Take(survivors, maxSeeds) ==> x !in Drop(survivors, maxSeeds))
    ensures NoTwice(current) ==>
              forall x :: x in Planned(current, candidates, own, maxSeeds).keep
                          ==> x !in Planned(current, candidates, own, maxSeeds).toDelete
  {
    var all := WithOwn(candidates, own);
    var survivors := Inside(current, all);
    forall x | x in Take(survivors, maxSeeds)
      ensures x !in Outside(current, all)
    {
      assert x in survivors;
    }
    if NoTwice(current) {
      InsideNoTwice(current, all);
      forall x | x in Take(survivors, maxSeeds)
        ensures x !in Drop(survivors, maxSeeds)
      {
      }
    }
  }

  lemma {:induction false} InsideNoTwice<T(!new)>(s: seq<T>, of: seq<T>)
    requires NoTwice(s)
    ensures NoTwice(Inside(s, of))
  {
    if s != [] {
      InsideNoTwice(s[1..], of);
      assert s[0] !in s[1..];
    }
  }

  /** A record published twice can be both kept and deleted. */
  lemma TwicePublished()
    ensures Planned(["a", "a"], ["a"], None, 1) == ReconcilePlan(["a"], [], ["a"])
  {
    var c := ["a", "a"];
    assert c[1..] == ["a"] && c[1..][1..] == [];
    assert Inside(c[1..], ["a"]) == ["a"] + [] by { assert Inside(c[1..][1..], ["a"]) == []; }
    assert Inside(c, ["a"]) == ["a", "a"];
    assert Outside(c, ["a"]) == [];
    assert Outside(["a"], Take(Inside(c, ["a"]), 1)) == [];
  }

  // ---------------------------------------------------------------- record by record

  /** What becomes of each published record: one that is no candidate is deleted; of the others
      the first are kept, in the order in which they are published, up to the cap, and the rest is
      deleted. */
  lemma EachRecord(current: seq<string>, candidates: seq<string>, own: Option<string>, maxSeeds: nat, i: nat)
    requires i < |current|
    ensures var plan := Planned(current, candidates, own, maxSeeds);
            var listed := candidates + if own.Some? && own.value != "" then [own.value] else [];
            var before := |Inside(current[..i], listed)|;
            if current[i] !in listed then current[i] in plan.toDelete && current[i] !in plan.keep
            else if before < maxSeeds then before < |plan.keep| && plan.keep[before] == current[i]
            else current[i] in plan.toDelete
  {
    var all := WithOwn(candidates, own);
    var listed := candidates + if own.Some? && own.value != "" then [own.value] else [];
    SameListed(current[..i], all, listed);
    hide WithOwn;
    if current[i] in listed {
      InsideAt(current, all, i);
    } else {
      assert current[i] in Outside(current, all) && current[i] !in Inside(current, all);
    }
  }

  lemma {:induction false} SameListed<T(!new)>(s: seq<T>, a: seq<T>, b: seq<T>)
    requires forall x :: x in a <==> x in b
    ensures Inside(s, a) == Inside(s, b)
  {
    if s != [] {
      SameListed(s[1..], a, b);
    }
  }

  lemma {:induction false} InsideAt<T(!new)>(s: seq<T>, of: seq<T>, i: nat)
    requires i < |s| && s[i] in of
    ensures var before := |Inside(s[..i], of)|;
            before < |Inside(s, of)| && Inside(s, of)[before] == s[i]
  {
    hide *;
    InsideStep(s, of);
    if i == 0 {
      assert s[..0] == [];
      InsideNone(of);
    } else {
      InsideAt(s[1..], of, i - 1);
      var front := s[..i];
      assert front[0] == s[0] && front[1..] == s[1..][..i - 1];
      InsideStep(front, of);
    }
  }

  lemma InsideStep<T(!new)>(s: seq<T>, of: seq<T>)
    requires s != []
    ensures Inside(s, of) == if s[0] in of then [s[0]] + Inside(s[1..], of) else Inside(s[1..], of)
  {
    assert [] + Inside(s[1..], of) == Inside(s[1..], of);
  }

  lemma InsideNone<T(!new)>(of: seq<T>)
    ensures Inside([], of) == []
  {
  }

  /** What becomes of each candidate: one that is not kept is added, in the order of the list, as
      long as the records kept and added before it stay below the cap. */
  lemma EachCandidate(current: seq<string>, candidates: seq<string>, maxSeeds: nat, i: nat)
    requires i < |candidates|
    ensures var plan := Planned(current, candidates, None, maxSeeds);
            var before := |Outside(candidates[..i], plan.keep)|;
            candidates[i] !in plan.keep ==>
              (|plan.keep| + before < maxSeeds ==> before < |plan.toAdd| && plan.toAdd[before] == candidates[i])
              && (|plan.keep| + before >= maxSeeds ==> |plan.toAdd| <= before)
  {
    var plan := Planned(current, candidates, None, maxSeeds);
    assert WithOwn(candidates, None) == candidates;
    hide Inside, WithOwn;
    if candidates[i] !in plan.keep {
      OutsideAt(candidates, plan.keep, i);
    }
  }

  lemma {:induction false} OutsideAt<T(!new)>(s: seq<T>, of: seq<T>, i: nat)
    requires i < |s| && s[i] !in of
    ensures var before := |Outside(s[..i], of)|;
            before < |Outside(s, of)| && Outside(s, of)[before] == s[i]
  {
    hide *;
    OutsideStep(s, of);
    if i == 0 {
      assert s[..0] == [];
      OutsideNone(of);
    } else {
      OutsideAt(s[1..], of, i - 1);
      var front := s[..i];
      assert front[0] == s[0] && front[1..] == s[1..][..i - 1];
      OutsideStep(front, of);
    }
  }

  /** The seeder's own address counts as the first candidate, unless it is empty or among the
      candidates anyway. */
  lemma OwnAddressIsACandidate(current: seq<string>, candidates: seq<string>, own: Option<string>, maxSeeds: nat)
    ensures Planned(current, candidates, own, maxSeeds)
            == if own.None? || own.value == "" || own.value in candidates
               then Planned(current, candidates, None, maxSeeds)
               else Planned(current, [own.value] + candidates, None, maxSeeds)
  {
    hide Inside, Outside, Take, Drop;
  }

  // ---------------------------------------------------------------- the cap

  /** The cap is met exactly: as many records as there are candidates, as far as it allows. A
      candidate listed twice counts twice where it is new, and a record published twice where
      it survives. */
  lemma CapIsMet(current: seq<string>, candidates: seq<string>, own: Option<string>, maxSeeds: nat)
    ensures var plan := Planned(current, candidates, own, maxSeeds);
            |plan.keep| + |plan.toAdd|
            == Min(maxSeeds, |plan.keep| + |Outside(WithOwn(candidates, own), plan.keep)|)
    ensures var plan := Planned(current, candidates, own, maxSeeds);
            NoTwice(current) && NoTwice(candidates) ==>
              |plan.keep| + |plan.toAdd| == Min(maxSeeds, |WithOwn(candidates, own)|)
  {
    var all := WithOwn(candidates, own);
    var plan := Planned(current, candidates, own, maxSeeds);
    if NoTwice(current) && NoTwice(candidates) {
      InsideNoTwice(current, all);
      assert NoTwice(all);
      forall x | x in plan.keep
        ensures x in all
      {
        assert x in Inside(current, all);
      }
      OutsideSize(all, plan.keep);
    }
  }

  /** Of a list without repetitions, another such list picks out exactly its own length. */
  lemma {:induction false} OutsideSize<T(!new)>(all: seq<T>, keep: seq<T>)
    requires NoTwice(all) && NoTwice(keep)
    requires forall x :: x in keep ==> x in all
    ensures |Outside(all, keep)| + |keep| == |all|
    decreases |keep|
  {
    if keep == [] {
      OutsideNothing(all);
    } else {
      OutsideSize(all, keep[1..]);
      assert keep[0] !in keep[1..];
      OutsideOneMore(all, keep);
    }
  }

  lemma {:induction false} OutsideNothing<T(!new)>(all: seq<T>)
    ensures Outside(all, []) == all
  {
    if all != [] {
      OutsideNothing(all[1..]);
    }
  }

  lemma {:induction false} OutsideOneMore<T(!new)>(all: seq<T>, keep: seq<T>)
    requires NoTwice(all) && keep != [] && keep[0] !in keep[1..]
    ensures |Outside(all, keep)| + (if keep[0] in all then 1 else 0) == |Outside(all, keep[1..])|
  {
    if all != [] {
      OutsideOneMore(all[1..], keep);
      assert all[0] !in all[1..];
      assert all[0] in keep <==> all[0] == keep[0] || all[0] in keep[1..];
    }
  }

  // ---------------------------------------------------------------- convergence

  /** Once carried out the plan leaves nothing to do: whatever order the records come back in,
      reconciling them again with the same candidates deletes nothing and adds nothing. */
  lemma Converges(current: seq<string>, candidates: seq<string>, own: Option<string>, maxSeeds: nat,
                  published: seq<string>)
    requires var plan := Planned(current, candidates, own, maxSeeds);
             multiset(published) == multiset(plan.keep + plan.toAdd)
    ensures Planned(published, candidates, own, maxSeeds) == ReconcilePlan([], [], published)
  {
    var all := WithOwn(candidates, own);
    var plan := Planned(current, candidates, own, maxSeeds);
    hide WithOwn, Inside, Outside;
    SameMembers(published, plan.keep + plan.toAdd);
    forall x | x in published
      ensures x in all
    {
      AddedIsNew(current, candidates, own, maxSeeds, x);
    }
    AllInside(published, all);
    assert |plan.keep| + |plan.toAdd| <= maxSeeds;
    assert Take(published, maxSeeds) == published;
    if |published| < maxSeeds {
      assert plan.toAdd == Outside(all, plan.keep);
      forall x | x in all
        ensures x in published
      {
      }
      assert Outside(all, published) == [] by {
        if Outside(all, published) != [] {
          assert Outside(all, published)[0] in Outside(all, published);
        }
      }
    }
  }

  lemma SameMembers<T(!new)>(a: seq<T>, b: seq<T>)
    requires multiset(a) == multiset(b)
    ensures |a| == |b| && forall x :: x in a <==> x in b
  {
    assert |multiset(a)| == |multiset(b)|;
    forall x
      ensures x in a <==> x in b
    {
      assert x in a <==> x in multiset(a);
      assert x in b <==> x in multiset(b);
    }
  }

  lemma {:induction false} AllInside<T(!new)>(s: seq<T>, of: seq<T>)
    requires forall x :: x in s ==> x in of
    ensures Inside(s, of) == s && Outside(s, of) == []
  {
    if s != [] {
      AllInside(s[1..], of);
    }
  }

  // ---------------------------------------------------------------- the seeder's own address

  /** Where an address is first listed. */
  function First<T(==,!new)>(s: seq<T>, x: T): (n: nat)
    requires x in s
    ensures n < |s| && s[n] == x && x !in s[..n]
  {
    if s[0] == x then 0 else 1 + First(s[1..], x)
  }

  /** Exactly when the seeder's own address ends up published: when it is among the surviving
      records the cap allows; or it is not published yet, and the surviving records together
      with the new candidates listed before it stay below the cap. */
  lemma OwnAddressPublished(current: seq<string>, candidates: seq<string>, own: string, maxSeeds: nat)
    requires own != ""
    ensures var all := WithOwn(candidates, Some(own));
            var survivors := Inside(current, all);
            var plan := Planned(current, candidates, Some(own), maxSeeds);
            && own in all
            && (own in plan.keep || own in plan.toAdd
                <==> || own in Take(survivors, maxSeeds)
                     || (own !in current && |survivors| + |Outside(all[..First(all, own)], survivors)| < maxSeeds))
  {
    var all := WithOwn(candidates, Some(own));
    var survivors := Inside(current, all);
    var keep := Take(survivors, maxSeeds);
    if |survivors| < maxSeeds {
      assert keep == survivors;
      if own !in current {
        TakenUpTo(all, survivors, own, maxSeeds - |survivors|);
      } else {
        assert own in survivors;
      }
    } else {
      assert Take(Outside(all, keep), maxSeeds - |keep|) == [];
    }
  }

  lemma {:induction false} TakenUpTo<T(!new)>(all: seq<T>, keep: seq<T>, x: T, n: nat)
    requires x in all && x !in keep
    ensures x in Take(Outside(all, keep), n) <==> |Outside(all[..First(all, x)], keep)| < n
    decreases |all|
  {
    hide *;
    OutsideStep(all, keep);
    var rest := all[1..];
    if all[0] == x {
      assert First(all, x) == 0;
      assert all[..0] == [];
      OutsideNone(keep);
      TakeHead(x, Outside(rest, keep), n);
    } else {
      FirstStep(all, x);
      var before := rest[..First(rest, x)];
      OutsideStep([all[0]] + before, keep);
      assert ([all[0]] + before)[1..] == before;
      if all[0] in keep {
        TakenUpTo(rest, keep, x, n);
      } else if n == 0 {
        TakeNone(Outside(all, keep));
      } else {
        TakenUpTo(rest, keep, x, n - 1);
        TakeOne(all[0], Outside(rest, keep), n);
      }
    }
  }

  lemma FirstStep<T(!new)>(all: seq<T>, x: T)
    requires x in all && all[0] != x
    ensures x in all[1..] && all[..First(all, x)] == [all[0]] + all[1..][..First(all[1..], x)]
  {
  }

  lemma TakeHead<T(!new)>(x: T, rest: seq<T>, n: nat)
    ensures x in Take([x] + rest, n) <==> n > 0
  {
    if n > 0 {
      assert Take([x] + rest, n)[0] == x;
    }
  }

  lemma OutsideStep<T(!new)>(all: seq<T>, keep: seq<T>)
    requires all != []
    ensures Outside(all, keep) == if all[0] in keep then Outside(all[1..], keep) else [all[0]] + Outside(all[1..], keep)
  {
    assert [] + Outside(all[1..], keep) == Outside(all[1..], keep);
  }

  lemma OutsideNone<T(!new)>(keep: seq<T>)
    ensures Outside([], keep) == []
  {
  }

  /** The promise as it stands: an own address the crawl did not find is published, and first
      among the added, as long as the surviving records stay below the cap. */
  lemma OwnAddressFirst(current: seq<string>, candidates: seq<string>, own: string, maxSeeds: nat)
    requires own != "" && own !in candidates && own !in current
    ensures var plan := Planned(current, candidates, Some(own), maxSeeds);
            && (own in plan.keep || own in plan.toAdd <==> |Inside(current, candidates)| < maxSeeds)
            && (own in plan.toAdd ==> plan.toAdd[0] == own)
  {
    var all := WithOwn(candidates, Some(own));
    assert all == [own] + candidates;
    SameInside(current, candidates, own);
    OwnAddressPublished(current, candidates, own, maxSeeds);
    assert First(all, own) == 0;
    assert all[..0] == [];
    var keep := Take(Inside(current, all), maxSeeds);
    assert own !in keep;
    assert Outside(all, keep)[0] == own;
  }

  lemma {:induction false} SameInside<T(!new)>(s: seq<T>, of: seq<T>, x: T)
    requires x !in s
    ensures Inside(s, [x] + of) == Inside(s, of)
  {
    if s != [] {
      SameInside(s[1..], of, x);
    }
  }

  /** A full zone keeps the seeder's own address out. */
  lemma FullZoneLacksOwnAddress()
    ensures Planned(["a"], ["a"], Some("b"), 1) == ReconcilePlan([], [], ["a"])
  {
    var c := ["a"];
    var all := ["b", "a"];
    assert c[1..] == [];
    assert WithOwn(["a"], Some("b")) == ["b"] + ["a"] == all;
    assert Inside(c, all) == ["a"] + [];
    assert Outside(c, all) == [];
  }
}
