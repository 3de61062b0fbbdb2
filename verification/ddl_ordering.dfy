/** Step 2 of `order_sql_commands`: the queue-based topological sort of the
    recognised tables by the names their statements reference.

    `deps` maps every recognised table to its reference list (in order of
    occurrence, duplicates kept). The order in which a Python `set` is
    iterated is not fixed, so the sort is modelled with arbitrary choices
    where the source iterates `all_tables`, and its result is specified up
    to that choice by `IsKahnOrder`. */
module DdlOrdering {

  predicate Distinct<T(==)>(s: seq<T>) {
    forall i, j :: 0 <= i < j < |s| ==> s[i] != s[j]
  }

  /** `all(dep not in all_tables for dep in refs)`. */
  predicate NoneInBatch(refs: seq<string>, tables: set<string>)
    decreases |refs|
  {
    refs == [] || (refs[0] !in tables && NoneInBatch(refs[1..], tables))
  }

  lemma {:induction false} NoneInBatchMeans(refs: seq<string>, tables: set<string>)
    ensures NoneInBatch(refs, tables) <==> forall d :: d in refs ==> d !in tables
    decreases |refs|
  {
    if refs != [] {
      NoneInBatchMeans(refs[1..], tables);
      assert refs == [refs[0]] + refs[1..];
    }
  }

  /** The seeding test: no references at all, or none to a table of the
      batch. Only tested once, before the queue is processed. */
  predicate SeedReady(refs: seq<string>, tables: set<string>) {
    refs == [] || NoneInBatch(refs, tables)
  }

  /** The test `not deps or all(...)` holds exactly when no reference names
      a table of the batch: the `not deps` half adds nothing. */
  lemma SeedReadyMeans(refs: seq<string>, tables: set<string>)
    ensures SeedReady(refs, tables) <==> forall d :: d in refs ==> d !in tables
  {
    NoneInBatchMeans(refs, tables);
  }

  /** A table can be emitted after the tables `before` when it was seeded,
      or when every reference it makes is to a distinct table among
      `before`: the queue removes one occurrence of a name per emitted
      table and enqueues a table once its list has become empty. */
  ghost predicate Admissible(refs: seq<string>, tables: set<string>, before: seq<string>) {
    SeedReady(refs, tables) || multiset(refs) <= multiset(before)
  }

  /** What any run of the sort computes: no table twice, each emitted table
      admissible after the ones before it, and no table left out that would
      have been admissible after all of them. */
  ghost predicate IsKahnOrder(deps: map<string, seq<string>>, order: seq<string>) {
    EmitsAdmissibly(deps, order) && Saturated(deps, order)
  }

  /** No table twice, each admissible after the ones before it. */
  ghost predicate EmitsAdmissibly(deps: map<string, seq<string>>, order: seq<string>) {
    Distinct(order)
    && forall i :: 0 <= i < |order| ==> order[i] in deps && Admissible(deps[order[i]], deps.Keys, order[..i])
  }

  /** No table left out that is admissible after the whole order. */
  ghost predicate Saturated(deps: map<string, seq<string>>, order: seq<string>) {
    forall t :: t in deps && t !in order ==> !Admissible(deps[t], deps.Keys, order)
  }

  /** Python's `list.remove`: drops the first occurrence of `x`. */
  function RemoveFirst(s: seq<string>, x: string): (r: seq<string>)
    requires x in s
    ensures multiset(r) == multiset(s) - multiset{x}
  {
    if s[0] == x then
      assert s == [s[0]] + s[1..];
      s[1..]
    else
      assert s == [s[0]] + s[1..];
      [s[0]] + RemoveFirst(s[1..], x)
  }

  /** It is the first occurrence that goes; the rest keeps its order. */
  lemma {:induction false} RemoveFirstIsFirst(s: seq<string>, x: string, k: nat)
    requires k < |s| && s[k] == x && x !in s[..k]
    ensures RemoveFirst(s, x) == s[..k] + s[k + 1..]
  {
    if k > 0 {
      assert s[0] in s[..k];
      assert s[1..][k - 1] == x;
      assert s[1..][..k - 1] == s[..k][1..];
      RemoveFirstIsFirst(s[1..], x, k - 1);
      assert s[..k] == [s[0]] + s[1..][..k - 1];
      assert s[k + 1..] == s[1..][k..];
    }
  }

  lemma {:induction false} DistinctSubsetCard(s: seq<string>, tables: set<string>)
    requires Distinct(s)
    requires forall x :: x in s ==> x in tables
    ensures |s| <= |tables|
    decreases |s|
  {
    if s != [] {
      var last := s[|s| - 1];
      var init := s[..|s| - 1];
      assert last !in init;
      forall x | x in init ensures x in tables - {last} {
        assert x in s;
      }
      DistinctSubsetCard(init, tables - {last});
    }
  }

  /** A distinct sequence holds each of its elements exactly once. */
  lemma {:induction false} DistinctMultiplicity(s: seq<string>, x: string)
    requires Distinct(s)
    ensures multiset(s)[x] == if x in s then 1 else 0
    decreases |s|
  {
    if s != [] {
      assert s == [s[0]] + s[1..];
      assert Distinct(s[1..]) by {
        forall i, j | 0 <= i < j < |s[1..]| ensures s[1..][i] != s[1..][j] {
          assert s[1..][i] == s[i + 1] && s[1..][j] == s[j + 1];
        }
      }
      assert s[0] !in s[1..];
      DistinctMultiplicity(s[1..], x);
    }
  }

  /** Every table emitted so far was admissible when it was emitted. */
  ghost predicate PrefixAdmissible(deps0: map<string, seq<string>>, order: seq<string>)
    requires forall t :: t in order ==> t in deps0
  {
    forall i :: 0 <= i < |order| ==> Admissible(deps0[order[i]], deps0.Keys, order[..i])
  }

  /** The state of the queue loop (`ready_to_process`, `ordered_tables` and
      the remaining reference lists) between two iterations. The remaining
      list of a table not yet ordered is its original list less one
      occurrence of each ordered table. */
  ghost predicate QueueState(deps0: map<string, seq<string>>, deps: map<string, seq<string>>,
                             order: seq<string>, ready: seq<string>)
  {
    deps.Keys == deps0.Keys
    && Distinct(order) && Distinct(ready)
    && (forall t :: t in order ==> t in deps0 && t !in ready)
    && (forall t :: t in ready ==> t in deps0 && Admissible(deps0[t], deps0.Keys, order))
    && (forall t :: t in deps0 && t !in order ==> multiset(deps[t]) == multiset(deps0[t]) - multiset(order))
    && (forall t :: t in deps0 && (SeedReady(deps0[t], deps0.Keys) || deps[t] == []) ==> t in order || t in ready)
  }

  /** The state right after the head of the queue has been emitted as the
      last element of `order`, before the rescan: the remaining lists still
      count the emitted table. */
  ghost predicate RescanState(deps0: map<string, seq<string>>, deps: map<string, seq<string>>,
                              order: seq<string>, ready: seq<string>)
  {
    |order| > 0
    && deps.Keys == deps0.Keys
    && Distinct(order) && Distinct(ready)
    && (forall t :: t in order ==> t in deps0 && t !in ready)
    && (forall t :: t in ready ==> t in deps0 && Admissible(deps0[t], deps0.Keys, order))
    && (forall t :: t in deps0 && t !in order ==> multiset(deps[t]) == multiset(deps0[t]) - multiset(order[..|order| - 1]))
    && (forall t :: t in deps0 && (SeedReady(deps0[t], deps0.Keys) || deps[t] == []) ==> t in order || t in ready)
  }

  /** Popping the head of the queue and emitting it. */
  lemma PopStep(deps0: map<string, seq<string>>, deps: map<string, seq<string>>,
                order: seq<string>, ready: seq<string>)
    requires QueueState(deps0, deps, order, ready) && PrefixAdmissible(deps0, order)
    requires ready != []
    ensures RescanState(deps0, deps, order + [ready[0]], ready[1..])
    ensures PrefixAdmissible(deps0, order + [ready[0]])
  {
    var c := ready[0];
    var order' := order + [c];
    var rest := ready[1..];
    assert order'[..|order'| - 1] == order;
    PopQueue(deps0, order, ready);
    PopSeen(deps0, deps, order, ready);
    PopPrefix(deps0, order, c);
  }

  lemma PopQueue(deps0: map<string, seq<string>>, order: seq<string>, ready: seq<string>)
    requires ready != [] && Distinct(order) && Distinct(ready)
    requires forall t :: t in order ==> t in deps0 && t !in ready
    requires forall t :: t in ready ==> t in deps0 && Admissible(deps0[t], deps0.Keys, order)
    ensures Distinct(order + [ready[0]]) && Distinct(ready[1..])
    ensures forall t :: t in order + [ready[0]] ==> t in deps0 && t !in ready[1..]
    ensures forall t :: t in ready[1..] ==> t in deps0 && Admissible(deps0[t], deps0.Keys, order + [ready[0]])
  {
    var order' := order + [ready[0]];
    assert ready[0] !in order;
    assert multiset(order) <= multiset(order');
    forall t | t in ready[1..] ensures t in deps0 && Admissible(deps0[t], deps0.Keys, order') {
      assert t in ready;
    }
  }

  lemma PopSeen(deps0: map<string, seq<string>>, deps: map<string, seq<string>>,
                order: seq<string>, ready: seq<string>)
    requires ready != [] && deps.Keys == deps0.Keys
    requires forall t :: t in deps0 && (SeedReady(deps0[t], deps0.Keys) || deps[t] == []) ==> t in order || t in ready
    ensures forall t :: t in deps0 && (SeedReady(deps0[t], deps0.Keys) || deps[t] == []) ==> t in order + [ready[0]] || t in ready[1..]
  {
    forall t | t in deps0 && (SeedReady(deps0[t], deps0.Keys) || deps[t] == [])
      ensures t in order + [ready[0]] || t in ready[1..]
    {
      assert ready == [ready[0]] + ready[1..];
    }
  }

  lemma PopPrefix(deps0: map<string, seq<string>>, order: seq<string>, c: string)
    requires forall t :: t in order ==> t in deps0
    requires c in deps0
    requires PrefixAdmissible(deps0, order)
    requires Admissible(deps0[c], deps0.Keys, order)
    ensures PrefixAdmissible(deps0, order + [c])
  {
    var order' := order + [c];
    forall i | 0 <= i < |order'| ensures Admissible(deps0[order'[i]], deps0.Keys, order'[..i]) {
      if i < |order| {
        assert order'[..i] == order[..i];
      } else {
        assert order'[..i] == order;
      }
    }
  }

  lemma MultisetStep(A: multiset<string>, B: multiset<string>, c: string)
    requires B[c] == 0
    ensures (A - B) - multiset{c} == A - (B + multiset{c})
    ensures (A - B)[c] == 0 ==> A - B == A - (B + multiset{c})
  {
    forall x ensures ((A - B) - multiset{c})[x] == (A - (B + multiset{c}))[x] {
    }
    assert (A - B) - multiset{c} == A - (B + multiset{c});
    if (A - B)[c] == 0 {
      forall x ensures (A - B)[x] == (A - (B + multiset{c}))[x] {
      }
      assert A - B == A - (B + multiset{c});
    }
  }

  /** Removing one occurrence of the table just emitted keeps a remaining
      list equal to its original list less the ordered tables. */
  lemma RemoveStep(d0: seq<string>, d: seq<string>, order: seq<string>)
    requires |order| > 0 && Distinct(order)
    requires multiset(d) == multiset(d0) - multiset(order[..|order| - 1])
    ensures multiset(d) - multiset{order[|order| - 1]} == multiset(d0) - multiset(order)
  {
    var before, c := order[..|order| - 1], order[|order| - 1];
    assert order == before + [c];
    forall k | 0 <= k < |before| ensures before[k] != c {
      assert order[k] == before[k];
    }
    assert multiset(order) == multiset(before) + multiset{c};
    MultisetStep(multiset(d0), multiset(before), c);
  }

  /** One pass of the rescan loop body (lines 168-173) for `dependent`:
      one occurrence of `current` leaves its list, and the table joins the
      queue when that empties the list and it is not queued already. */
  function RescanOne(deps: map<string, seq<string>>, ready: seq<string>,
                     dependent: string, current: string): (r: (map<string, seq<string>>, seq<string>))
    requires dependent in deps
    ensures r.0.Keys == deps.Keys
    ensures forall t :: t in deps && t != dependent ==> r.0[t] == deps[t]
    ensures multiset(r.0[dependent]) == multiset(deps[dependent]) - multiset{current}
    ensures r.1 == ready || (r.1 == ready + [dependent] && r.0[dependent] == [] && current in deps[dependent] && dependent !in ready)
  {
    if current in deps[dependent] then
      var shorter := RemoveFirst(deps[dependent], current);
      var deps' := deps[dependent := shorter];
      if shorter == [] && dependent !in ready then (deps', ready + [dependent]) else (deps', ready)
    else
      assert multiset(deps[dependent])[current] == 0;
      (deps, ready)
  }

  /** The invariant of the rescan loop, first part: the tables of
      `pending` still have their lists from before the rescan, the others
      have lost one occurrence of the emitted table. */
  ghost predicate RescanLists(deps0: map<string, seq<string>>, deps: map<string, seq<string>>,
                              order: seq<string>, pending: set<string>, deps': map<string, seq<string>>)
  {
    pending <= deps0.Keys && deps.Keys == deps0.Keys && deps'.Keys == deps0.Keys
    && (forall t :: t in pending ==> t !in order && deps'[t] == deps[t])
    && (forall t :: t in deps0 && t !in order && t !in pending ==> multiset(deps'[t]) == multiset(deps0[t]) - multiset(order))
  }

  /** Second part: the queue holds distinct, admissible, unordered tables. */
  ghost predicate RescanQueue(deps0: map<string, seq<string>>, deps: map<string, seq<string>>,
                              order: seq<string>, pending: set<string>,
                              deps': map<string, seq<string>>, ready': seq<string>)
  {
    pending <= deps0.Keys && deps.Keys == deps0.Keys && deps'.Keys == deps0.Keys
    && Distinct(ready')
    && (forall t :: t in order ==> t !in ready')
    && (forall t :: t in ready' ==> t in deps0 && Admissible(deps0[t], deps0.Keys, order))
  }

  /** And every table whose list is empty, or that was seeded, is ordered or
      queued. */
  ghost predicate RescanSeen(deps0: map<string, seq<string>>, deps: map<string, seq<string>>,
                             order: seq<string>, pending: set<string>,
                             deps': map<string, seq<string>>, ready': seq<string>)
  {
    pending <= deps0.Keys && deps.Keys == deps0.Keys && deps'.Keys == deps0.Keys
    && (forall t :: t in deps0 && t !in pending && (SeedReady(deps0[t], deps0.Keys) || deps'[t] == []) ==> t in order || t in ready')
    && (forall t :: t in pending && (SeedReady(deps0[t], deps0.Keys) || deps[t] == []) ==> t in order || t in ready')
  }

  lemma RescanStart(deps0: map<string, seq<string>>, deps: map<string, seq<string>>,
                    order: seq<string>, ready: seq<string>)
    requires RescanState(deps0, deps, order, ready)
    ensures RescanLists(deps0, deps, order, deps0.Keys - (set t | t in order), deps)
    ensures RescanQueue(deps0, deps, order, deps0.Keys - (set t | t in order), deps, ready)
    ensures RescanSeen(deps0, deps, order, deps0.Keys - (set t | t in order), deps, ready)
  {
  }

  lemma RescanDone(deps0: map<string, seq<string>>, deps: map<string, seq<string>>,
                   order: seq<string>, deps': map<string, seq<string>>, ready': seq<string>)
    requires Distinct(order) && forall t :: t in order ==> t in deps0
    requires RescanLists(deps0, deps, order, {}, deps') && RescanQueue(deps0, deps, order, {}, deps', ready')
    requires RescanSeen(deps0, deps, order, {}, deps', ready')
    ensures QueueState(deps0, deps', order, ready')
  {
  }

  lemma DifferenceEmpty(A: multiset<string>, B: multiset<string>)
    ensures A - B == multiset{} <==> A <= B
  {
    if A - B == multiset{} {
      forall x ensures A[x] <= B[x] {
        assert (A - B)[x] == 0;
      }
    }
  }

  /** The queue after one pass: still duplicate-free, still disjoint from
      the ordered tables, still holding only admissible tables. */
  lemma StepQueue(deps0: map<string, seq<string>>, order: seq<string>, deps': map<string, seq<string>>,
                  ready': seq<string>, dependent: string, current: string)
    requires dependent in deps' && dependent in deps0 && dependent !in order
    requires Distinct(ready')
    requires forall t :: t in order ==> t !in ready'
    requires forall t :: t in ready' ==> t in deps0 && Admissible(deps0[t], deps0.Keys, order)
    requires multiset(deps'[dependent]) - multiset{current} == multiset(deps0[dependent]) - multiset(order)
    ensures Distinct(RescanOne(deps', ready', dependent, current).1)
    ensures forall t :: t in order ==> t !in RescanOne(deps', ready', dependent, current).1
    ensures forall t :: t in RescanOne(deps', ready', dependent, current).1 ==>
              t in deps0 && Admissible(deps0[t], deps0.Keys, order)
  {
    var r := RescanOne(deps', ready', dependent, current);
    if r.1 != ready' {
      DifferenceEmpty(multiset(deps0[dependent]), multiset(order));
    }
  }

  /** The lists after one pass: the table just passed over has lost the
      emitted table, the others are unchanged. */
  lemma StepLists(deps0: map<string, seq<string>>, order: seq<string>, pending: set<string>,
                  deps': map<string, seq<string>>, ready': seq<string>, dependent: string, current: string)
    requires dependent in deps' && deps'.Keys == deps0.Keys
    requires forall t :: t in deps0 && t !in order && t !in pending ==> multiset(deps'[t]) == multiset(deps0[t]) - multiset(order)
    requires multiset(deps'[dependent]) - multiset{current} == multiset(deps0[dependent]) - multiset(order)
    ensures forall t :: t in deps0 && t !in order && t !in pending - {dependent} ==>
              multiset(RescanOne(deps', ready', dependent, current).0[t]) == multiset(deps0[t]) - multiset(order)
  {
    var r := RescanOne(deps', ready', dependent, current);
    forall t | t in deps0 && t !in order && t !in pending - {dependent}
      ensures multiset(r.0[t]) == multiset(deps0[t]) - multiset(order)
    {
      if t != dependent {
        assert r.0[t] == deps'[t];
      }
    }
  }

  /** Every table with an empty list is ordered or queued after one pass. */
  lemma StepSeen(deps0: map<string, seq<string>>, deps: map<string, seq<string>>, order: seq<string>,
                 pending: set<string>, deps': map<string, seq<string>>, ready': seq<string>,
                 dependent: string, current: string)
    requires dependent in pending && pending <= deps0.Keys && deps'.Keys == deps0.Keys && deps.Keys == deps0.Keys
    requires deps'[dependent] == deps[dependent]
    requires forall t :: t in deps0 && t !in pending && (SeedReady(deps0[t], deps0.Keys) || deps'[t] == []) ==> t in order || t in ready'
    requires forall t :: t in pending && (SeedReady(deps0[t], deps0.Keys) || deps[t] == []) ==> t in order || t in ready'
    ensures forall t :: (t in deps0 && t !in pending - {dependent} &&
              (SeedReady(deps0[t], deps0.Keys) || RescanOne(deps', ready', dependent, current).0[t] == [])) ==>
              t in order || t in RescanOne(deps', ready', dependent, current).1
    ensures forall t :: t in pending - {dependent} && (SeedReady(deps0[t], deps0.Keys) || deps[t] == []) ==>
              t in order || t in RescanOne(deps', ready', dependent, current).1
  {
    var r := RescanOne(deps', ready', dependent, current);
    forall t | t in deps0 && t !in pending - {dependent} && (SeedReady(deps0[t], deps0.Keys) || r.0[t] == [])
      ensures t in order || t in r.1
    {
      if t != dependent {
        assert r.0[t] == deps'[t];
      } else if !SeedReady(deps0[t], deps0.Keys) && deps[t] != [] && dependent !in ready' {
        assert multiset(deps'[t]) != multiset{};
        assert multiset(deps'[t]) - multiset{current} == multiset{};
        assert current in deps'[t];
      }
    }
  }

  lemma RescanStepLists(deps0: map<string, seq<string>>, deps: map<string, seq<string>>,
                        order: seq<string>, pending: set<string>,
                        deps': map<string, seq<string>>, ready': seq<string>, dependent: string)
    requires |order| > 0 && Distinct(order)
    requires RescanLists(deps0, deps, order, pending, deps')
    requires dependent in pending
    requires multiset(deps[dependent]) - multiset{order[|order| - 1]} == multiset(deps0[dependent]) - multiset(order)
    ensures dependent in deps'
    ensures RescanLists(deps0, deps, order, pending - {dependent},
                        RescanOne(deps', ready', dependent, order[|order| - 1]).0)
  {
    StepLists(deps0, order, pending, deps', ready', dependent, order[|order| - 1]);
  }

  lemma RescanStepQueue(deps0: map<string, seq<string>>, deps: map<string, seq<string>>,
                        order: seq<string>, pending: set<string>,
                        deps': map<string, seq<string>>, ready': seq<string>, dependent: string)
    requires |order| > 0 && Distinct(order)
    requires RescanLists(deps0, deps, order, pending, deps')
    requires RescanQueue(deps0, deps, order, pending, deps', ready')
    requires dependent in pending
    requires multiset(deps[dependent]) - multiset{order[|order| - 1]} == multiset(deps0[dependent]) - multiset(order)
    ensures RescanQueue(deps0, deps, order, pending - {dependent},
                        RescanOne(deps', ready', dependent, order[|order| - 1]).0,
                        RescanOne(deps', ready', dependent, order[|order| - 1]).1)
  {
    StepQueue(deps0, order, deps', ready', dependent, order[|order| - 1]);
  }

  lemma RescanStepSeen(deps0: map<string, seq<string>>, deps: map<string, seq<string>>,
                       order: seq<string>, pending: set<string>,
                       deps': map<string, seq<string>>, ready': seq<string>, dependent: string)
    requires |order| > 0
    requires RescanLists(deps0, deps, order, pending, deps')
    requires RescanSeen(deps0, deps, order, pending, deps', ready')
    requires dependent in pending
    ensures RescanSeen(deps0, deps, order, pending - {dependent},
                       RescanOne(deps', ready', dependent, order[|order| - 1]).0,
                       RescanOne(deps', ready', dependent, order[|order| - 1]).1)
  {
    StepSeen(deps0, deps, order, pending, deps', ready', dependent, order[|order| - 1]);
  }

  /** Python's `for dependent_table in list(all_tables - set(ordered_tables))`
      (lines 167-173), in set-iteration order: removes one occurrence of the
      table just emitted from every unordered table's list and enqueues each
      table whose list becomes empty. */
  method Rescan(deps0: map<string, seq<string>>, deps: map<string, seq<string>>,
                order: seq<string>, ready: seq<string>)
    returns (deps': map<string, seq<string>>, ready': seq<string>)
    requires RescanState(deps0, deps, order, ready)
    ensures QueueState(deps0, deps', order, ready')
  {
    var current := order[|order| - 1];
    deps', ready' := deps, ready;
    var pending := deps0.Keys - set t | t in order;
    RescanStart(deps0, deps, order, ready);
    while pending != {}
      invariant RescanLists(deps0, deps, order, pending, deps')
      invariant RescanQueue(deps0, deps, order, pending, deps', ready')
      invariant RescanSeen(deps0, deps, order, pending, deps', ready')
      decreases pending
    {
      var dependent :| dependent in pending;
      RemoveStep(deps0[dependent], deps[dependent], order);
      RescanStepLists(deps0, deps, order, pending, deps', ready', dependent);
      RescanStepQueue(deps0, deps, order, pending, deps', ready', dependent);
      RescanStepSeen(deps0, deps, order, pending, deps', ready', dependent);
      ghost var next := RescanOne(deps', ready', dependent, current);
      pending := pending - {dependent};
      if dependent in deps' && current in deps'[dependent] {
        deps' := deps'[dependent := RemoveFirst(deps'[dependent], current)];
        if deps'[dependent] == [] && dependent !in ready' {
          ready' := ready' + [dependent];
        }
      }
      assert (deps', ready') == next;
    }
    RescanDone(deps0, deps, order, deps', ready');
  }

  /** Python's seeding of `ready_to_process` (lines 156-159): the tables that
      pass the seeding test, in set-iteration order. */
  method SeedQueue(deps: map<string, seq<string>>) returns (ready: seq<string>)
    ensures Distinct(ready)
    ensures forall t :: t in ready <==> t in deps && SeedReady(deps[t], deps.Keys)
  {
    ready := [];
    var unseen := deps.Keys;
    while unseen != {}
      invariant unseen <= deps.Keys
      invariant Distinct(ready)
      invariant forall t :: t in ready ==> t in deps && t !in unseen
      invariant forall t :: t in deps && t !in unseen ==> (t in ready <==> SeedReady(deps[t], deps.Keys))
      decreases unseen
    {
      var t :| t in unseen;
      unseen := unseen - {t};
      if SeedReady(deps[t], deps.Keys) {
        ready := ready + [t];
      }
    }
  }

  /** When the queue is empty, every table not ordered is stuck. */
  lemma Exhausted(deps0: map<string, seq<string>>, deps: map<string, seq<string>>, order: seq<string>)
    requires QueueState(deps0, deps, order, []) && PrefixAdmissible(deps0, order)
    ensures IsKahnOrder(deps0, order)
  {
    forall t | t in deps0 && t !in order ensures !Admissible(deps0[t], deps0.Keys, order) {
      assert deps[t] != [];
      assert multiset(deps[t]) != multiset{};
      DifferenceEmpty(multiset(deps0[t]), multiset(order));
    }
  }

  /** Only known tables are emitted. */
  lemma KahnOrderMembers(deps: map<string, seq<string>>, order: seq<string>)
    requires IsKahnOrder(deps, order)
    ensures forall t :: t in order ==> t in deps
  {
    forall t | t in order ensures t in deps {
      var i :| 0 <= i < |order| && order[i] == t;
    }
  }

  /** `order_sql_commands` lines 152-173: the topological sort. The loop pops
      one table per iteration and never pops a table twice, so it stops
      after at most as many iterations as there are tables. */
  method TopoSort(deps0: map<string, seq<string>>) returns (order: seq<string>)
    ensures IsKahnOrder(deps0, order)
    ensures |order| <= |deps0.Keys|
  {
    var deps := deps0;
    var ready := SeedQueue(deps);
    order := [];
    while ready != []
      invariant QueueState(deps0, deps, order, ready) && PrefixAdmissible(deps0, order)
      invariant |order| <= |deps0.Keys|
      decreases |deps0.Keys| - |order|
    {
      PopStep(deps0, deps, order, ready);
      var current := ready[0];
      ready := ready[1..];
      if current !in order {
        order := order + [current];
      }
      DistinctSubsetCard(order, deps0.Keys);
      deps, ready := Rescan(deps0, deps, order, ready);
    }
    Exhausted(deps0, deps, order);
  }

  // ---------------------------------------------------------------------
  // What a Kahn order guarantees, whatever order the sets were iterated in.

  /** A table that references a table of the batch is not seeded. */
  lemma BatchReferenceNotSeeded(refs: seq<string>, tables: set<string>, d: string)
    requires d in refs && d in tables
    ensures !SeedReady(refs, tables)
  {
    NoneInBatchMeans(refs, tables);
  }

  /** Every table of the batch that an ordered table references is ordered
      before it: the order respects the FOREIGN KEY dependencies. */
  lemma ReferencesComeFirst(deps: map<string, seq<string>>, order: seq<string>, i: nat, d: string)
    requires IsKahnOrder(deps, order)
    requires i < |order| && d in deps[order[i]] && d in deps
    ensures d in order[..i]
  {
    var refs := deps[order[i]];
    BatchReferenceNotSeeded(refs, deps.Keys, d);
    assert multiset(refs) <= multiset(order[..i]);
    assert multiset(refs)[d] >= 1;
  }

  /** An ordered table that was not seeded had every one of its references
      emitted before it. */
  lemma OrderedRefsEmitted(deps: map<string, seq<string>>, order: seq<string>, i: nat)
    requires IsKahnOrder(deps, order)
    requires i < |order|
    ensures SeedReady(deps[order[i]], deps.Keys) || forall d :: d in deps[order[i]] ==> d in order[..i]
  {
    var refs := deps[order[i]];
    forall d | d in refs && !SeedReady(refs, deps.Keys) ensures d in order[..i] {
      assert multiset(refs)[d] >= 1;
    }
  }

  /** A table that references itself is never ordered. */
  lemma SelfReferenceNeverOrdered(deps: map<string, seq<string>>, order: seq<string>, t: string)
    requires IsKahnOrder(deps, order)
    requires t in deps && t in deps[t]
    ensures t !in order
  {
    forall i | 0 <= i < |order| ensures order[i] != t {
      if order[i] == t {
        ReferencesComeFirst(deps, order, i, t);
        assert false;
      }
    }
  }

  /** A table that references the same table of the batch twice is never
      ordered: emitting that table removes only one of the two. */
  lemma DuplicateReferenceNeverOrdered(deps: map<string, seq<string>>, order: seq<string>, t: string, d: string)
    requires IsKahnOrder(deps, order)
    requires t in deps && d in deps && multiset(deps[t])[d] >= 2
    ensures t !in order
  {
    forall i | 0 <= i < |order| ensures order[i] != t {
      if order[i] == t {
        BatchReferenceNotSeeded(deps[t], deps.Keys, d);
        assert Distinct(order[..i]);
        DistinctMultiplicity(order[..i], d);
        assert false;
      }
    }
  }

  /** A table that references both a table of the batch and a table outside
      it is never ordered: it is not seeded, and the outside table is never
      emitted. */
  lemma MixedReferenceNeverOrdered(deps: map<string, seq<string>>, order: seq<string>, t: string, d: string, e: string)
    requires IsKahnOrder(deps, order)
    requires t in deps && d in deps[t] && d in deps && e in deps[t] && e !in deps
    ensures t !in order
  {
    BatchReferenceNotSeeded(deps[t], deps.Keys, d);
    forall i | 0 <= i < |order| ensures order[i] != t {
      OrderedRefsEmitted(deps, order, i);
    }
  }

  /** A table whose references all lie outside the batch (or that has none)
      is always ordered. */
  lemma ExternalOnlyOrdered(deps: map<string, seq<string>>, order: seq<string>, t: string)
    requires IsKahnOrder(deps, order)
    requires t in deps && forall d :: d in deps[t] ==> d !in deps
    ensures t in order
  {
    NoneInBatchMeans(deps[t], deps.Keys);
    assert Admissible(deps[t], deps.Keys, order);
  }

  /** The tables of a dependency cycle within the batch are never ordered. */
  lemma CycleNeverOrdered(deps: map<string, seq<string>>, order: seq<string>, cycle: seq<string>)
    requires IsKahnOrder(deps, order)
    requires |cycle| > 0
    requires forall k :: 0 <= k < |cycle| ==> cycle[k] in deps
    requires forall k :: 0 <= k < |cycle| ==> cycle[(k + 1) % |cycle|] in deps[cycle[k]]
    ensures forall k :: 0 <= k < |cycle| ==> cycle[k] !in order
  {
    forall k | 0 <= k < |cycle| ensures cycle[k] !in order {
      if cycle[k] in order {
        var p :| 0 <= p < |order| && order[p] == cycle[k];
        CycleDescends(deps, order, cycle, k, p, p + 1);
        assert false;
      }
    }
  }

  /** Following the cycle from an ordered table `cycle[k]` at position `p`
      walks `n` steps to earlier and earlier positions. */
  lemma {:induction false} CycleDescends(deps: map<string, seq<string>>, order: seq<string>, cycle: seq<string>,
                                         k: nat, p: nat, n: nat)
    requires IsKahnOrder(deps, order)
    requires k < |cycle| && p < |order| && order[p] == cycle[k]
    requires forall j :: 0 <= j < |cycle| ==> cycle[j] in deps
    requires forall j :: 0 <= j < |cycle| ==> cycle[(j + 1) % |cycle|] in deps[cycle[j]]
    ensures n <= p
    decreases n
  {
    if n > 0 {
      var next := cycle[(k + 1) % |cycle|];
      ReferencesComeFirst(deps, order, p, next);
      var q :| 0 <= q < p && order[..p][q] == next;
      CycleDescends(deps, order, cycle, (k + 1) % |cycle|, q, n - 1);
    }
  }

  lemma DistinctIncluded(a: seq<string>, b: seq<string>)
    requires Distinct(a) && Distinct(b)
    requires forall x :: x in a ==> x in b
    ensures multiset(a) <= multiset(b)
  {
    forall x ensures multiset(a)[x] <= multiset(b)[x] {
      DistinctMultiplicity(a, x);
      DistinctMultiplicity(b, x);
    }
  }

  /** A table admissible after tables that a Kahn order all emits is
      admissible after that whole order, so the order emits it too. */
  lemma AdmittedIncluded(deps: map<string, seq<string>>, before: seq<string>, t: string, o2: seq<string>)
    requires Distinct(o2) && Saturated(deps, o2)
    requires t in deps && Admissible(deps[t], deps.Keys, before)
    requires Distinct(before) && forall x :: x in before ==> x in o2
    ensures t in o2
  {
    DistinctIncluded(before, o2);
    assert Admissible(deps[t], deps.Keys, o2);
  }

  /** Every table one Kahn order emits, any other Kahn order emits too. */
  lemma {:induction false} KahnOrderIncluded(deps: map<string, seq<string>>, o1: seq<string>, o2: seq<string>, i: nat)
    requires EmitsAdmissibly(deps, o1) && Distinct(o2) && Saturated(deps, o2)
    requires i <= |o1|
    ensures forall x :: x in o1[..i] ==> x in o2
    decreases i
  {
    if i > 0 {
      KahnOrderIncluded(deps, o1, o2, i - 1);
      var before := o1[..i - 1];
      KahnStep(deps, o1, i - 1);
      AdmittedIncluded(deps, before, o1[i - 1], o2);
      assert o1[..i] == before + [o1[i - 1]];
    }
  }

  /** What a Kahn order says about its `i`-th table. */
  lemma KahnStep(deps: map<string, seq<string>>, o: seq<string>, i: nat)
    requires EmitsAdmissibly(deps, o) && i < |o|
    ensures o[i] in deps && Admissible(deps[o[i]], deps.Keys, o[..i]) && Distinct(o[..i])
  {
  }

  /** The set of tables the sort emits does not depend on the order in which
      the sets were iterated: any two runs emit the same tables. */
  lemma KahnOrderSameTables(deps: map<string, seq<string>>, o1: seq<string>, o2: seq<string>)
    requires IsKahnOrder(deps, o1) && IsKahnOrder(deps, o2)
    ensures forall x :: x in o1 <==> x in o2
    ensures |o1| == |o2|
  {
    KahnOrderIncluded(deps, o1, o2, |o1|);
    KahnOrderIncluded(deps, o2, o1, |o2|);
    assert o1[..|o1|] == o1 && o2[..|o2|] == o2;
    DistinctIncluded(o1, o2);
    DistinctIncluded(o2, o1);
    assert multiset(o1) == multiset(o2);
  }
}
