/** Ignore marks and hand-outs: exactly when a peer whose mark is still running is handed out. */
module HandOuts {
  import opened Bytes
  import opened Score
  import opened CrawlerDb
  import opened DbInvariants

  predicate StillMarked(db: Db, id: int, now: int) {
    id in db.idToInfo && now <= db.idToInfo[id].ignoreTill
  }

  /** These draws hand out a peer whose ignore mark is still running. */
  ghost predicate ServesMarked(db: Db, now: int, draws: nat -> Draw) {
    var outcome := db.GetOne(now, draws).1;
    outcome.Served? && StillMarked(db, outcome.id, now)
  }

  ghost predicate MarkedNew(db: Db, now: int) {
    exists id :: id in db.unkId && StillMarked(db, id, now)
  }

  /** The `k`-th queue entry is marked and has rested, and everything ahead of it is skipped. */
  ghost predicate MarkedAt(db: Db, now: int, k: nat) {
    && k < |db.ourId| && StillMarked(db, db.ourId[k], now)
    && MIN_RETRY <= now - db.idToInfo[db.ourId[k]].ourLastTry
    && forall j :: 0 <= j < k ==> db.ourId[j] in db.idToInfo && 0 < db.idToInfo[db.ourId[j]].ignoreTill < now
  }

  ghost predicate MarkedInReach(db: Db, now: int) {
    MarkedNew(db, now) || exists k: nat :: MarkedAt(db, now, k)
  }

  // ---------------------------------------------------------------- handed out, so in reach

  /** What is in reach after an id was put back was in reach before. */
  lemma ReachShrinks(decay: Decay, db: Db, taken: Db, id: int, now: int)
    requires Healthy(decay, db, now) && TakenOut(decay, db, taken, id, now) && id in taken.idToInfo && taken.Skips(id, now)
    ensures MarkedInReach(taken.Requeued(id, now), now) ==> MarkedInReach(db, now)
  {
    hide Healthy, MarkedAt, Moved, Leased;
    var next := taken.Requeued(id, now);
    if MarkedNew(next, now) {
      assert MarkedNew(db, now);
    } else if MarkedInReach(next, now) {
      var k: nat :| MarkedAt(next, now, k);
      PutBackLast(decay, db, taken, id, now, k);
      if taken.ourId == db.ourId {
        SameLine(db, next, now, k);
      } else {
        LineBehindHead(db, next, now, k);
      }
    }
  }

  /** An entry in reach is not the one just put back. */
  lemma PutBackLast(decay: Decay, db: Db, taken: Db, id: int, now: int, k: nat)
    requires TakenOut(decay, db, taken, id, now) && id in taken.idToInfo && MarkedAt(taken.Requeued(id, now), now, k)
    ensures var next := taken.Requeued(id, now);
            && k < |taken.ourId| && next.ourId[..|taken.ourId|] == taken.ourId
            && forall j :: 0 <= j <= k ==>
                 && next.ourId[j] == taken.ourId[j]
                 && taken.ourId[j] in db.idToInfo && next.idToInfo[taken.ourId[j]] == db.idToInfo[taken.ourId[j]]
  {
    hide Scored, Timed, Moved, Inverse;
    var next := taken.Requeued(id, now);
    assert id !in taken.ourId;
    assert next.ourId[|next.ourId| - 1] == id;
    assert k < |taken.ourId|;
    forall j | 0 <= j <= k
      ensures next.ourId[j] == taken.ourId[j] && taken.ourId[j] != id
    {
      assert taken.ourId[j] in taken.ourId;
    }
  }

  lemma SameLine(db: Db, next: Db, now: int, k: nat)
    requires MarkedAt(next, now, k) && k < |db.ourId|
    requires forall j :: 0 <= j <= k ==>
               next.ourId[j] == db.ourId[j] && db.ourId[j] in db.idToInfo && next.idToInfo[db.ourId[j]] == db.idToInfo[db.ourId[j]]
    ensures MarkedAt(db, now, k)
  {
  }

  lemma LineBehindHead(db: Db, next: Db, now: int, k: nat)
    requires MarkedAt(next, now, k) && db.ourId != [] && k < |db.ourId[1..]|
    requires db.ourId[0] in db.idToInfo && 0 < db.idToInfo[db.ourId[0]].ignoreTill < now
    requires forall j :: 0 <= j <= k ==>
               && next.ourId[j] == db.ourId[1..][j] && db.ourId[1..][j] in db.idToInfo
               && next.idToInfo[db.ourId[1..][j]] == db.idToInfo[db.ourId[1..][j]]
    ensures MarkedAt(db, now, k + 1)
  {
    assert forall j :: 0 < j <= k + 1 ==> db.ourId[j] == db.ourId[1..][j - 1] == next.ourId[j - 1];
  }

  lemma ServedIsInReach(decay: Decay, db: Db, taken: Db, id: int, now: int)
    requires TakenOut(decay, db, taken, id, now) && StillMarked(taken, id, now)
    ensures MarkedInReach(db, now)
  {
    hide Healthy, Moved, Leased;
    if id in db.unkId {
      assert MarkedNew(db, now);
    } else {
      assert MarkedAt(db, now, 0);
    }
  }

  lemma {:induction false} RoundsStayInReach(decay: Decay, db: Db, now: int, draws: nat -> Draw, tot: nat, i: nat)
    requires Healthy(decay, db, now) && 0 < tot == |db.unkId| + |db.ourId|
    ensures var outcome := db.Rounds(now, draws, tot, i).1;
            outcome.Served? && StillMarked(db, outcome.id, now) ==> MarkedInReach(db, now)
    decreases tot - i
  {
    hide Healthy, Leased, SameTracking, AllResting, Db.Take, MarkedInReach;
    if i < tot {
      TakeKeeps(decay, db, now, tot, draws(i));
      match db.Take(now, tot, draws(i))
      case Stop(_) =>
      case Got(taken, id) =>
        LeasedIsTracked(taken, id);
        if taken.Skips(id, now) {
          var next := taken.Requeued(id, now);
          RequeuedKeeps(decay, taken, id, now);
          ReachShrinks(decay, db, taken, id, now);
          RoundsStayInReach(decay, next, now, draws, tot, i + 1);
          assert forall x :: StillMarked(db, x, now) ==> StillMarked(next, x, now);
        } else if StillMarked(db, id, now) {
          ServedIsInReach(decay, db, taken, id, now);
        }
    }
  }

  // ---------------------------------------------------------------- in reach, so handed out

  ghost function Anywhere(): Picker {
    t => SomeMember(t)
  }

  lemma NewIsServed(db: Db, now: int, id: int) returns (draws: nat -> Draw)
    requires id in db.unkId && StillMarked(db, id, now)
    ensures ServesMarked(db, now, draws)
  {
    hide *;
    draws := NewDraws(db.unkId, id);
    var tot := |db.unkId| + |db.ourId|;
    HasSize(db.unkId, id);
    NewTakenBy(db, now, tot, draws(0), id);
    NewRound(db, id, now, draws, tot);
  }

  ghost function NewDraws(s: set<int>, id: int): (draws: nat -> Draw)
    requires id in s
    ensures draws(0).rnd == 0 && draws(0).last(s) == id
  {
    var p := EndingOn(s, id);
    (_: nat) => Draw(0, p)
  }

  lemma HasSize(s: set<int>, id: int)
    requires id in s
    ensures |s| > 0
  {
    assert s == (s - {id}) + {id};
  }

  lemma NewRound(db: Db, id: int, now: int, draws: nat -> Draw, tot: nat)
    requires 0 < tot == |db.unkId| + |db.ourId| && StillMarked(db, id, now)
    requires db.Take(now, tot, draws(0)) == Got(db.(unkId := db.unkId - {id}), id)
    ensures ServesMarked(db, now, draws)
  {
    hide Db.Take;
    RoundAfter(db, db.(unkId := db.unkId - {id}), id, now, draws, tot, 0);
    hide Db.Rounds;
  }

  lemma NewTakenBy(db: Db, now: int, tot: nat, draw: Draw, id: int)
    requires 0 < |db.unkId| && |db.unkId| <= tot && draw.rnd == 0 && draw.last(db.unkId) == id
    ensures db.Take(now, tot, draw) == Got(db.(unkId := db.unkId - {id}), id)
  {
  }

  /** Draws that always land in the queue, as long as it holds anything. */
  ghost function QueueDraws(unknown: u64): nat -> Draw {
    var p := Anywhere();
    (_: nat) => Draw(unknown, p)
  }

  /** Such draws put back what is skipped ahead of the entry, and then hand it out. */
  lemma {:induction false} QueuedIsServed(decay: Decay, db: Db, now: int, tot: nat, i: nat, k: nat)
    requires Healthy(decay, db, now) && MarkedAt(db, now, k)
    requires tot == |db.unkId| + |db.ourId| && i + k < tot && |db.unkId| < 0x1_0000_0000_0000_0000
    ensures var outcome := db.Rounds(now, QueueDraws(|db.unkId|), tot, i).1;
            outcome.Served? && outcome.id == db.ourId[k]
    decreases k
  {
    hide *;
    var draws := QueueDraws(|db.unkId|);
    HeadHasRested(decay, db, now, k);
    var head := db.ourId[0];
    var taken := db.(ourId := db.ourId[1..]);
    QueueDraw(db, now, tot, i);
    RoundAfter(db, taken, head, now, draws, tot, i);
    MarkedIsNotSkipped(db, now, k);
    if k > 0 {
      QueuedTaken(decay, db, now);
      TakenIsLeased(decay, db, taken, head, now);
      RequeuedKeeps(decay, taken, head, now);
      NextInLine(decay, db, taken, now, k);
      QueuedIsServed(decay, taken.Requeued(head, now), now, tot, i + 1, k - 1);
    }
  }

  lemma QueueDraw(db: Db, now: int, tot: nat, i: nat)
    requires tot == |db.unkId| + |db.ourId| && |db.unkId| < 0x1_0000_0000_0000_0000
    requires db.ourId != [] && db.ourId[0] in db.idToInfo && MIN_RETRY <= now - db.idToInfo[db.ourId[0]].ourLastTry
    ensures db.Take(now, tot, QueueDraws(|db.unkId|)(i)) == Got(db.(ourId := db.ourId[1..]), db.ourId[0])
  {
    var draw := QueueDraws(|db.unkId|)(i);
    assert draw.rnd == |db.unkId|;
    SmallRemainder(|db.unkId|, tot);
    hide QueueDraws;
  }

  lemma SmallRemainder(a: nat, b: nat)
    requires a < b
    ensures a % b == a
  {
  }

  lemma RoundAfter(db: Db, taken: Db, id: int, now: int, draws: nat -> Draw, tot: nat, i: nat)
    requires i < tot && db.Take(now, tot, draws(i)) == Got(taken, id) && id in taken.idToInfo
    ensures db.Rounds(now, draws, tot, i)
            == if taken.Skips(id, now) then taken.Requeued(id, now).Rounds(now, draws, tot, i + 1)
               else (taken.(nDirty := taken.nDirty + 1), Served(id, taken.Lease(id)))
  {
    hide Db.Take;
  }

  lemma MarkedIsNotSkipped(db: Db, now: int, k: nat)
    requires MarkedAt(db, now, k)
    ensures var taken := db.(ourId := db.ourId[1..]);
            && k < |db.ourId| && db.ourId[0] in taken.idToInfo
            && (taken.Skips(db.ourId[0], now) <==> k > 0)
  {
  }

  lemma TakenIsLeased(decay: Decay, db: Db, taken: Db, id: int, now: int)
    requires TakenOut(decay, db, taken, id, now)
    ensures Healthy(decay, taken, now) && id in Leased(taken)
  {
  }

  lemma HeadHasRested(decay: Decay, db: Db, now: int, k: nat)
    requires Healthy(decay, db, now) && MarkedAt(db, now, k)
    ensures WellFormed(db) && db.ourId != [] && db.ourId[0] in db.idToInfo
    ensures MIN_RETRY <= now - db.idToInfo[db.ourId[0]].ourLastTry
  {
    hide Scored, Inverse;
    HeadIsOldest(db, now);
    assert db.ourId[k] in db.ourId;
  }

  /** With the head put back, the entry is one place further ahead. */
  lemma NextInLine(decay: Decay, db: Db, taken: Db, now: int, k: nat)
    requires WellFormed(db) && MarkedAt(db, now, k) && k > 0 && taken == db.(ourId := db.ourId[1..])
    ensures var next := taken.Requeued(db.ourId[0], now);
            MarkedAt(next, now, k - 1) && next.ourId[k - 1] == db.ourId[k] && next.unkId == db.unkId
            && |next.ourId| == |db.ourId|
  {
    hide Inverse;
    var next := taken.Requeued(db.ourId[0], now);
    assert forall j :: 0 <= j < |db.ourId| - 1 ==> next.ourId[j] == db.ourId[j + 1] && next.ourId[j] != db.ourId[0];
  }

  /** Exactly when some draws hand out a peer whose mark is still running, in any database that
      a run can reach: when a new one has such a mark, or one in the queue that has rested and
      has only skipped ones ahead of it. (Ids are 32 bits wide, so new ones are fewer than a
      random number can tell apart.) */
  lemma MarkedPeersAreServedExactly(decay: Decay, db: Db, t: int, now: int)
    requires Healthy(decay, db, t) && t <= now && |db.unkId| < 0x1_0000_0000_0000_0000
    ensures (exists draws: nat -> Draw :: ServesMarked(db, now, draws)) <==> MarkedInReach(db, now)
  {
    hide Healthy, Db.Rounds, MarkedAt, StillMarked;
    SameHealth(decay, db, t, now);
    var tot := |db.unkId| + |db.ourId|;
    forall draws: nat -> Draw | ServesMarked(db, now, draws)
      ensures MarkedInReach(db, now)
    {
      RoundsStayInReach(decay, db, now, draws, tot, 0);
    }
    if MarkedNew(db, now) {
      var id :| id in db.unkId && StillMarked(db, id, now);
      var draws := NewIsServed(db, now, id);
    } else if MarkedInReach(db, now) {
      var k: nat :| MarkedAt(db, now, k);
      MarkedIsNotSkipped(db, now, k);
      QueuedIsServed(decay, db, now, tot, 0, k);
      MarkedIsMarked(db, now, k);
      assert ServesMarked(db, now, QueueDraws(|db.unkId|));
    }
  }

  lemma MarkedIsMarked(db: Db, now: int, k: nat)
    requires MarkedAt(db, now, k)
    ensures StillMarked(db, db.ourId[k], now)
  {
  }

  lemma SameHealth(decay: Decay, db: Db, t: int, now: int)
    requires Healthy(decay, db, t) && t <= now
    ensures Healthy(decay, db, now)
  {
    ClockMayAdvance(db, t, now);
  }
}
