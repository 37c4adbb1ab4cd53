/** `ManualTransitionView`: the sessions the view keeps for the models it shows, so that
    an appearing model can be drawn first in its pre-insert state and a disappearing one
    can stay on screen in its removed state until a purge timer fires. */
module ManualTransition {

  datatype Phase = PreInsert | Inserted | Removed

  /** An `Identifiable & Equatable` model: its identity and the rest of it. */
  datatype Model<I, C> = Model(id: I, content: C)

  /** A session: the phase, the latest model with its id, and when it was inserted. */
  datatype Session<I, C> = Session(phase: Phase, lastModel: Model<I, C>, insertDate: int)

  function Ids<I(==, !new), C(==, !new)>(models: seq<Model<I, C>>): set<I> {
    set m | m in models :: m.id
  }

  /** `Dictionary(uniqueKeysWithValues:)` traps unless the ids are distinct. */
  predicate DistinctIds<I(==, !new), C(==, !new)>(models: seq<Model<I, C>>) {
    forall i, j :: 0 <= i < j < |models| ==> models[i].id != models[j].id
  }

  /** `modelsById`: `Dictionary(uniqueKeysWithValues:)` over the models and their ids. */
  function ById<I(==, !new), C(==, !new)>(models: seq<Model<I, C>>): (r: map<I, Model<I, C>>)
    requires DistinctIds(models)
    ensures r.Keys == Ids(models)
    ensures forall k :: 0 <= k < |models| ==> r[models[k].id] == models[k]
    ensures forall id :: id in r ==> r[id].id == id
  {
    if models == [] then map[]
    else
      var rest := ById(models[1..]);
      assert forall k :: 1 <= k < |models| ==> models[k] == models[1..][k - 1];
      assert Ids(models) == Ids(models[1..]) + {models[0].id} by {
        assert forall m :: m in models <==> m in models[1..] || m == models[0];
      }
      rest[models[0].id := models[0]]
  }

  /** Every session is stored under the id of its model. */
  predicate Keyed<I(==, !new), C(==, !new)>(m: map<I, Session<I, C>>) {
    forall k :: k in m ==> m[k].lastModel.id == k
  }

  // ---------------------------------------------------------------------------
  // The three passes of `processChanged(models:)`

  /** The first pass: the given sessions are marked removed. */
  function MarkRemoved<I(==, !new), C(==, !new)>(m: map<I, Session<I, C>>, ids: set<I>): (r: map<I, Session<I, C>>)
    ensures r.Keys == m.Keys
  {
    map k | k in m :: if k in ids then m[k].(phase := Removed) else m[k]
  }

  /** The second pass: a fresh pre-insert session for each given id. */
  function AddSessions<I(==, !new), C(==, !new)>(m: map<I, Session<I, C>>, ids: set<I>, byId: map<I, Model<I, C>>, now: int)
    : (r: map<I, Session<I, C>>)
    requires ids <= byId.Keys
    ensures r.Keys == m.Keys + ids
  {
    map k | k in m.Keys + ids :: if k in ids then Session(PreInsert, byId[k], now) else m[k]
  }

  /** The third pass: the given sessions take the new model and keep the rest. */
  function Refresh<I(==, !new), C(==, !new)>(m: map<I, Session<I, C>>, ids: set<I>, byId: map<I, Model<I, C>>)
    : (r: map<I, Session<I, C>>)
    requires ids <= byId.Keys
    ensures r.Keys == m.Keys
  {
    map k | k in m :: if k in ids then m[k].(lastModel := byId[k]) else m[k]
  }

  /** The sessions after `processChanged(models:)` at time `now`: what each id's
      session becomes, by whether the id was a key and whether a model carries it. */
  function Processed<I(==, !new), C(==, !new)>(before: map<I, Session<I, C>>, models: seq<Model<I, C>>, now: int)
    : (r: map<I, Session<I, C>>)
    requires DistinctIds(models)
    ensures r.Keys == before.Keys + Ids(models)
    ensures forall id :: id in before && id !in Ids(models) ==>
      r[id] == before[id].(phase := Removed)
    ensures forall id :: id !in before && id in Ids(models) ==>
      r[id] == Session(PreInsert, ById(models)[id], now)
    ensures forall id :: id in before && id in Ids(models) ==>
      r[id] == before[id].(lastModel := ById(models)[id])
    ensures Keyed(before) ==> Keyed(r)
  {
    var byId := ById(models);
    var newIds := Ids(models);
    var oldIds := before.Keys;
    Refresh(AddSessions(MarkRemoved(before, oldIds - newIds), newIds - oldIds, byId, now), newIds * oldIds, byId)
  }

  /** The promote tick: every pre-insert session becomes inserted. */
  function Promoted<I(==, !new), C(==, !new)>(m: map<I, Session<I, C>>): (r: map<I, Session<I, C>>)
    ensures r.Keys == m.Keys
    ensures forall k :: k in r ==> r[k].phase != PreInsert
    ensures forall k :: k in r ==> r[k].lastModel == m[k].lastModel && r[k].insertDate == m[k].insertDate
    ensures forall k :: k in r && m[k].phase != PreInsert ==> r[k] == m[k]
  {
    map k | k in m :: if m[k].phase == PreInsert then m[k].(phase := Inserted) else m[k]
  }

  /** The purge timer for `id`: the session goes only if it is still removed. */
  function Purged<I(==, !new), C(==, !new)>(m: map<I, Session<I, C>>, id: I): (r: map<I, Session<I, C>>)
    ensures id !in r <==> id !in m || m[id].phase == Removed
    ensures forall k :: k != id ==> (k in r <==> k in m) && (k in r ==> r[k] == m[k])
    ensures id in r ==> r[id] == m[id]
  {
    if id in m && m[id].phase == Removed then m - {id} else m
  }

  lemma MarkRemovedStep<I(!new), C(!new)>(start: map<I, Session<I, C>>, done: set<I>, id: I)
    requires id in start
    ensures MarkRemoved(start, done)[id := MarkRemoved(start, done)[id].(phase := Removed)]
      == MarkRemoved(start, done + {id})
  {
  }

  lemma AddSessionsStep<I(!new), C(!new)>(start: map<I, Session<I, C>>, done: set<I>, id: I, byId: map<I, Model<I, C>>, now: int)
    requires done + {id} <= byId.Keys
    ensures AddSessions(start, done, byId, now)[id := Session(PreInsert, byId[id], now)]
      == AddSessions(start, done + {id}, byId, now)
  {
  }

  lemma RefreshStep<I(!new), C(!new)>(start: map<I, Session<I, C>>, done: set<I>, id: I, byId: map<I, Model<I, C>>)
    requires done + {id} <= byId.Keys && id in start
    ensures Refresh(start, done, byId)[id := Refresh(start, done, byId)[id].(lastModel := byId[id])]
      == Refresh(start, done + {id}, byId)
  {
  }

  lemma MarkRemovedAbsent<I(!new), C(!new)>(start: map<I, Session<I, C>>, done: set<I>, id: I)
    requires id !in start
    ensures MarkRemoved(start, done) == MarkRemoved(start, done + {id})
  {
  }

  lemma AddSessionsPointwise<I(!new), C(!new)>(m: map<I, Session<I, C>>, r: map<I, Session<I, C>>, ids: set<I>, byId: map<I, Model<I, C>>, now: int)
    requires ids <= byId.Keys
    requires forall k :: k in r <==> k in m || k in ids
    requires forall k :: k in r ==> r[k] == if k in ids then Session(PreInsert, byId[k], now) else m[k]
    ensures r == AddSessions(m, ids, byId, now)
  {
  }

  lemma AddSessionsNone<I(!new), C(!new)>(start: map<I, Session<I, C>>, byId: map<I, Model<I, C>>, now: int)
    ensures AddSessions(start, {}, byId, now) == start
  {
  }

  lemma RefreshNone<I(!new), C(!new)>(start: map<I, Session<I, C>>, byId: map<I, Model<I, C>>)
    ensures Refresh(start, {}, byId) == start
  {
  }

  // ---------------------------------------------------------------------------
  // Properties

  /** A second tick changes nothing. */
  lemma PromoteIdempotent<I(!new), C(!new)>(m: map<I, Session<I, C>>)
    ensures Promoted(Promoted(m)) == Promoted(m)
  {
    var p := Promoted(m);
    assert forall k :: k in p ==> Promoted(p)[k] == p[k];
  }

  /** A model that disappears and comes back before its purge timer fires is kept as
      removed, so the timer still deletes its session although the model is shown. */
  lemma ReturnBeforePurgeIsDropped<I(!new), C(!new)>(
    s0: map<I, Session<I, C>>, models1: seq<Model<I, C>>, t1: int,
    models2: seq<Model<I, C>>, t2: int, id: I)
    requires DistinctIds(models1) && DistinctIds(models2)
    requires id in s0 && id !in Ids(models1) && id in Ids(models2)
    ensures var s2 := Processed(Processed(s0, models1, t1), models2, t2);
      id in s2 && s2[id].phase == Removed && id !in Purged(s2, id)
    ensures var s2 := Promoted(Processed(Processed(s0, models1, t1), models2, t2));
      id in s2 && s2[id].phase == Removed && id !in Purged(s2, id)
  {
    var s1 := Processed(s0, models1, t1);
    assert id in s1 && s1[id].phase == Removed;
    var s2 := Processed(s1, models2, t2);
    assert id in s2 && s2[id].phase == Removed;
    var s3 := Promoted(s2);
    assert id in s3 && s3[id] == s2[id];
  }

  /** With distinct ids, a new session and a refreshed one carry the very model from
      the list. */
  lemma ProcessedTakesListedModel<I(!new), C(!new)>(before: map<I, Session<I, C>>, models: seq<Model<I, C>>, now: int, k: nat)
    requires DistinctIds(models) && k < |models|
    ensures Processed(before, models, now)[models[k].id].lastModel == models[k]
  {
  }

  /** Whether the sessions are in display order. */
  predicate SortedByDate<I(==, !new), C(==, !new)>(r: seq<Session<I, C>>) {
    forall i, j :: 0 <= i < j < |r| ==> r[i].insertDate <= r[j].insertDate
  }

  /** One session inserted into a list in display order, before the first later one. */
  function InsertByDate<I(==, !new), C(==, !new)>(r: seq<Session<I, C>>, x: Session<I, C>): (q: seq<Session<I, C>>)
    ensures multiset(q) == multiset(r) + multiset{x}
  {
    if r == [] then [x]
    else if x.insertDate <= r[0].insertDate then [x] + r
    else
      assert r == [r[0]] + r[1..];
      [r[0]] + InsertByDate(r[1..], x)
  }

  lemma InsertMembers<I(!new), C(!new)>(r: seq<Session<I, C>>, x: Session<I, C>)
    ensures forall y :: y in InsertByDate(r, x) <==> y in r || y == x
  {
    var q := InsertByDate(r, x);
    forall y
      ensures y in q <==> y in r || y == x
    {
      assert y in q <==> y in multiset(q);
      assert y in r <==> y in multiset(r);
    }
  }

  lemma {:induction false} InsertKeepsSorted<I(!new), C(!new)>(r: seq<Session<I, C>>, x: Session<I, C>)
    requires SortedByDate(r)
    ensures SortedByDate(InsertByDate(r, x))
  {
    if r != [] && x.insertDate > r[0].insertDate {
      var rest := InsertByDate(r[1..], x);
      InsertKeepsSorted(r[1..], x);
      forall i | 0 <= i < |rest|
        ensures r[0].insertDate <= rest[i].insertDate
      {
        assert rest[i] in multiset(rest);
        if rest[i] != x {
          assert rest[i] in r[1..];
        }
      }
    }
  }

  // ---------------------------------------------------------------------------
  // The view's state

  class Tracker<I(==, !new), C(==, !new)> {
    var sessions: map<I, Session<I, C>>

    predicate Valid()
      reads this
    {
      Keyed(sessions)
    }

    constructor()
      ensures sessions == map[] && Valid()
    {
      sessions := map[];
    }

    /** `processChanged(models:)` with `Date()` as `now`. Returns the ids whose purge
        timer it starts; the promote tick it schedules is `Promote`. */
    method ProcessChanged(models: seq<Model<I, C>>, now: int) returns (purges: set<I>)
      requires DistinctIds(models)
      modifies this
      ensures sessions == Processed(old(sessions), models, now)
      ensures purges == old(sessions).Keys - Ids(models)
      ensures old(Valid()) ==> Valid()
    {
      var newIds := Ids(models);
      var oldIds := sessions.Keys;
      var byId := ById(models);
      purges := oldIds - newIds;
      MarkRemovedPass(oldIds - newIds);
      AddPass(newIds - oldIds, byId, now);
      RefreshPass(newIds * oldIds, byId);
    }

    /** The loop over removed ids. */
    method MarkRemovedPass(ids: set<I>)
      modifies this
      ensures sessions == MarkRemoved(old(sessions), ids)
    {
      var start := sessions;
      var todo := ids;
      ghost var done: set<I> := {};
      while todo != {}
        invariant todo <= ids && done == ids - todo
        invariant sessions == MarkRemoved(start, done)
        decreases |todo|
      {
        var id :| id in todo;
        if id in sessions {
          MarkRemovedStep(start, done, id);
          sessions := sessions[id := sessions[id].(phase := Removed)];
        } else {
          MarkRemovedAbsent(start, done, id);
        }
        todo := todo - {id};
        done := done + {id};
      }
    }

    /** The loop over added ids. */
    method AddPass(ids: set<I>, byId: map<I, Model<I, C>>, now: int)
      requires ids <= byId.Keys
      modifies this
      ensures sessions == AddSessions(old(sessions), ids, byId, now)
    {
      var start := sessions;
      var todo := ids;
      ghost var done: set<I> := {};
      while todo != {}
        invariant todo <= ids && done == ids - todo
        invariant forall k :: k in sessions <==> k in start || k in done
        invariant forall k :: k in sessions ==>
          sessions[k] == if k in done then Session(PreInsert, byId[k], now) else start[k]
        decreases |todo|
      {
        var id :| id in todo;
        sessions := sessions[id := Session(PreInsert, byId[id], now)];
        todo := todo - {id};
        done := done + {id};
      }
      AddSessionsPointwise(start, sessions, ids, byId, now);
    }

    /** The loop over kept ids. */
    method RefreshPass(ids: set<I>, byId: map<I, Model<I, C>>)
      requires ids <= byId.Keys && ids <= sessions.Keys
      modifies this
      ensures sessions == Refresh(old(sessions), ids, byId)
    {
      var start := sessions;
      var todo := ids;
      ghost var done: set<I> := {};
      RefreshNone(start, byId);
      while todo != {}
        invariant todo <= ids && done == ids - todo
        invariant sessions == Refresh(start, done, byId)
        decreases |todo|
      {
        var id :| id in todo;
        RefreshStep(start, done, id, byId);
        sessions := sessions[id := sessions[id].(lastModel := byId[id])];
        todo := todo - {id};
        done := done + {id};
      }
    }

    /** The scheduled promote tick, over every session in turn. */
    method Promote()
      modifies this
      ensures sessions == Promoted(old(sessions))
      ensures old(Valid()) ==> Valid()
    {
      var start := sessions;
      var todo := sessions.Keys;
      while todo != {}
        invariant todo <= start.Keys
        invariant forall k :: k in sessions <==> k in start
        invariant forall k :: k in sessions ==>
          sessions[k] == if k !in todo then Promoted(start)[k] else start[k]
        decreases |todo|
      {
        var id :| id in todo;
        if sessions[id].phase == PreInsert {
          sessions := sessions[id := sessions[id].(phase := Inserted)];
        }
        todo := todo - {id};
      }
    }

    /** The purge timer of `id` firing. */
    method Purge(id: I)
      modifies this
      ensures sessions == Purged(old(sessions), id)
      ensures old(Valid()) ==> Valid()
    {
      if id in sessions && sessions[id].phase == Removed {
        sessions := sessions - {id};
      }
    }

    /** `sortedSessions`: every session once, in order of insertion date. */
    method SortedSessions() returns (r: seq<Session<I, C>>)
      requires Valid()
      ensures SortedByDate(r)
      ensures (set x | x in r) == sessions.Values
      ensures forall x :: x in r ==> multiset(r)[x] == 1
    {
      r := [];
      var todo := sessions.Keys;
      while todo != {}
        invariant todo <= sessions.Keys
        invariant SortedByDate(r)
        invariant forall x :: x in r <==> exists k :: k in sessions && k !in todo && sessions[k] == x
        invariant forall x :: x in r ==> multiset(r)[x] == 1
        decreases |todo|
      {
        var id :| id in todo;
        var x := sessions[id];
        assert x !in r;
        InsertKeepsSorted(r, x);
        InsertMembers(r, x);
        r := InsertByDate(r, x);
        todo := todo - {id};
      }
    }
  }
}
