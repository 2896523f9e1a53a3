/**
 Listing notes page by page (api/notes.py `list_notes`, NoteRepository.list): descending by
 (updated_at, id), each page starting strictly below the cursor the page before it returned, while
 notes are created, saved and deleted between the pages. A cursor is the pair it encodes.
 */
module Pagination {
  import opened Ids
  import opened Wrappers
  import opened Notes
  import opened Store
  import opened Queue
  import opened QueueLaws
  import opened SplitSave
  import Workers
  import ChunkLaws

  datatype Key = Key(at: Time, id: Uuid)

  predicate Less(a: Key, b: Key) {
    a.at < b.at || (a.at == b.at && a.id < b.id)
  }

  predicate Under(k: Key, before: Option<Key>) {
    before.None? || Less(k, before.value)
  }

  /** The sort keys of the user's notes. */
  function Keys(db: Db, user: Uuid): set<Key> {
    set n | n in db.notes && db.notes[n].userId == user :: Key(db.notes[n].updatedAt, n)
  }

  function Below(keys: set<Key>, before: Option<Key>): set<Key> {
    set k | k in keys && Under(k, before)
  }

  predicate Decreasing(r: seq<Key>) {
    forall i, j :: 0 <= i < j < |r| ==> Less(r[j], r[i])
  }

  lemma {:induction false} HasGreatest(s: set<Key>) returns (m: Key)
    requires s != {}
    ensures m in s && forall k :: k in s ==> k == m || Less(k, m)
    decreases |s|
  {
    var some :| some in s;
    m := some;
    assert forall k :: k in s ==> k == some || k in s - {some};
    if s - {some} != {} {
      var other := HasGreatest(s - {some});
      if Less(some, other) { m := other; }
    }
  }

  ghost function Greatest(s: set<Key>): (m: Key)
    requires s != {}
    ensures m in s && forall k :: k in s ==> k == m || Less(k, m)
  {
    assert exists m :: m in s && forall k :: k in s ==> k == m || Less(k, m) by { var m := HasGreatest(s); }
    var m :| m in s && forall k :: k in s ==> k == m || Less(k, m);
    m
  }

  /** `ORDER BY updated_at DESC, id DESC` */
  ghost function Descending(s: set<Key>): (r: seq<Key>)
    ensures Decreasing(r) && |r| == |s|
    ensures forall k :: k in r <==> k in s
    decreases |s|
  {
    if s == {} then [] else [Greatest(s)] + Descending(s - {Greatest(s)})
  }

  /** There is only one way to list a set in descending order. */
  lemma {:induction false} DescendingUnique(s: set<Key>, r: seq<Key>)
    requires Decreasing(r) && forall k :: k in r <==> k in s
    ensures r == Descending(s)
    decreases |s|
  {
    hide Less, Decreasing;
    if r == [] {
      assert s == {};
    } else {
      assert r[0] in s;
      var m := Greatest(s);
      FirstIsGreatest(s, r, m);
      DescendingUnique(s - {m}, r[1..]);
      assert r == [m] + r[1..];
    }
  }

  lemma FirstIsGreatest(s: set<Key>, r: seq<Key>, m: Key)
    requires Decreasing(r) && r != [] && forall k :: k in r <==> k in s
    requires m in s && forall k :: k in s ==> k == m || Less(k, m)
    ensures r[0] == m && Decreasing(r[1..]) && forall k :: k in r[1..] <==> k in s - {m}
  {
    assert r[0] in s && m in r;
    forall k ensures k in r[1..] <==> k in s - {m} {
      if k in r[1..] { var i :| 1 <= i < |r| && r[i] == k; }
      if k in s - {m} { var i :| 0 <= i < |r| && r[i] == k; assert i > 0 && r[1..][i - 1] == k; }
    }
  }

  datatype Page = Page(items: seq<Key>, next: Option<Key>)

  function Take<T>(s: seq<T>, n: nat): seq<T> {
    if n <= |s| then s[..n] else s
  }

  ghost function List(db: Db, user: Uuid, limit: nat, before: Option<Key>): seq<Key> {
    Take(Descending(Below(Keys(db, user), before)), limit)
  }

  /** `list_notes`: one row more than asked tells whether there is another page. */
  function PageOf(values: seq<Key>, limit: nat): Page {
    var more := |values| > limit;
    var items := Take(values, limit);
    Page(items, if more && items != [] then Some(items[|items| - 1]) else None)
  }

  ghost function ListNotes(db: Db, user: Uuid, before: Option<Key>, limit: nat): Page {
    PageOf(List(db, user, limit + 1, before), limit)
  }

  /** A page holds the part of the descending list above the cursor it returns. */
  lemma PageOfList(all: seq<Key>, limit: nat, k: Key)
    requires limit >= 1 && Decreasing(all)
    ensures var page := PageOf(Take(all, limit + 1), limit);
            && page.items == Take(all, limit) && Decreasing(page.items)
            && page.next == (if |all| > limit then Some(all[limit - 1]) else None)
            && (k in page.items <==> k in all && (page.next.Some? ==> !Less(k, page.next.value)))
  {
    var page := PageOf(Take(all, limit + 1), limit);
    assert page.items == Take(all, limit);
    if |all| > limit && k in all {
      var i :| 0 <= i < |all| && all[i] == k;
      if i < limit { assert page.items[i] == k; }
    }
  }

  /** A page holds everything under the cursor it was given and not under the one it returns. */
  lemma PageCovers(db: Db, user: Uuid, before: Option<Key>, limit: nat, k: Key)
    requires limit >= 1
    ensures var page := ListNotes(db, user, before, limit);
            && (k in page.items <==> k in Keys(db, user) && Under(k, before) && (page.next.Some? ==> !Less(k, page.next.value)))
            && (page.next.Some? ==> Under(page.next.value, before))
  {
    hide Keys, PageOf, Take;
    var all := Descending(Below(Keys(db, user), before));
    PageOfList(all, limit, k);
    if |all| > limit { assert all[limit - 1] in all; }
  }

  /**
   A page in terms of the rows: exactly the user's own notes whose update time and identifier lie below
   the cursor given and not below the one returned, newest first, no more than asked for.
   */
  lemma PageIsExact(db: Db, user: Uuid, before: Option<Key>, limit: nat, n: Uuid)
    requires limit >= 1
    ensures var page := ListNotes(db, user, before, limit);
            && |page.items| <= limit
            && (page.next.Some? ==> |page.items| == limit && page.next.value == page.items[limit - 1])
            && (forall k :: k in page.items ==> k.id in db.notes && k.at == db.notes[k.id].updatedAt)
            && (forall i, j :: 0 <= i < j < |page.items| ==>
                 page.items[j].at < page.items[i].at || (page.items[j].at == page.items[i].at && page.items[j].id < page.items[i].id))
            && ((exists k :: k in page.items && k.id == n) <==>
                && n in db.notes && db.notes[n].userId == user
                && var at := db.notes[n].updatedAt;
                && (before.Some? ==> at < before.value.at || (at == before.value.at && n < before.value.id))
                && (page.next.Some? ==> at > page.next.value.at || (at == page.next.value.at && n >= page.next.value.id)))
  {
    hide ListNotes;
    var page := ListNotes(db, user, before, limit);
    PageShape(db, user, before, limit);
    forall k | k in page.items ensures k in Keys(db, user) { PageCovers(db, user, before, limit, k); }
    if n in db.notes { PageCovers(db, user, before, limit, Key(db.notes[n].updatedAt, n)); }
  }

  lemma PageShape(db: Db, user: Uuid, before: Option<Key>, limit: nat)
    requires limit >= 1
    ensures var page := ListNotes(db, user, before, limit);
            && |page.items| <= limit && Decreasing(page.items)
            && (page.next.Some? ==> |page.items| == limit && page.next.value == page.items[limit - 1])
  {
    hide Keys, Below, Less, Decreasing;
    PageOfList(Descending(Below(Keys(db, user), before)), limit, Key(0, 0));
  }

  /** The pages a client sees that follows each cursor, page i taken from the i-th state of the store. */
  ghost function Walk(dbs: seq<Db>, user: Uuid, before: Option<Key>, limit: nat): seq<Page>
    decreases |dbs|
  {
    if dbs == [] then []
    else
      var page := ListNotes(dbs[0], user, before, limit);
      [page] + if page.next.None? then [] else Walk(dbs[1..], user, page.next, limit)
  }

  /** The walk came to a page without a next cursor. */
  predicate Finished(pages: seq<Page>) {
    pages != [] && pages[|pages| - 1].next.None?
  }

  /** A note that is in two of the states was not updated earlier in the later one. */
  predicate NeverEarlier(dbs: seq<Db>) {
    forall i, j, n :: 0 <= i < j < |dbs| && n in dbs[i].notes && n in dbs[j].notes ==>
      dbs[i].notes[n].updatedAt <= dbs[j].notes[n].updatedAt
  }

  lemma {:induction false} WalkStaysUnder(dbs: seq<Db>, user: Uuid, before: Option<Key>, limit: nat, i: nat, k: Key)
    requires limit >= 1 && i < |Walk(dbs, user, before, limit)| && k in Walk(dbs, user, before, limit)[i].items
    ensures i < |dbs| && k in Keys(dbs[i], user) && Under(k, before)
    decreases |dbs|
  {
    hide ListNotes, Keys;
    PageCovers(dbs[0], user, before, limit, k);
    if i > 0 {
      var next := ListNotes(dbs[0], user, before, limit).next;
      WalkStaysUnder(dbs[1..], user, next, limit, i - 1, k);
    }
  }

  /** Whatever happens to the notes between the pages, no note is returned twice. */
  lemma {:induction false} NoNoteTwice(dbs: seq<Db>, user: Uuid, before: Option<Key>, limit: nat, i: nat, j: nat, a: Key, b: Key)
    requires limit >= 1 && NeverEarlier(dbs)
    requires var pages := Walk(dbs, user, before, limit); i <= j < |pages| && a in pages[i].items && b in pages[j].items
    requires i == j ==> a != b
    ensures a.id != b.id
    decreases |dbs|
  {
    hide ListNotes;
    var page := ListNotes(dbs[0], user, before, limit);
    var rest := Walk(dbs[1..], user, page.next, limit);
    if j == 0 {
      PageCovers(dbs[0], user, before, limit, a);
      PageCovers(dbs[0], user, before, limit, b);
    } else if i == 0 {
      PageCovers(dbs[0], user, before, limit, a);
      WalkStaysUnder(dbs[1..], user, page.next, limit, j - 1, b);
      assert dbs[1..][j - 1] == dbs[j];
      assert a.id == b.id ==> a.at <= b.at;
    } else {
      LaterStates(dbs);
      NoNoteTwice(dbs[1..], user, page.next, limit, i - 1, j - 1, a, b);
    }
  }

  lemma LaterStates(dbs: seq<Db>)
    requires NeverEarlier(dbs) && dbs != []
    ensures NeverEarlier(dbs[1..])
  {
    var rest := dbs[1..];
    forall i, j, n | 0 <= i < j < |rest| && n in rest[i].notes && n in rest[j].notes
      ensures rest[i].notes[n].updatedAt <= rest[j].notes[n].updatedAt
    {
      assert rest[i] == dbs[i + 1] && rest[j] == dbs[j + 1];
    }
  }

  /** A note nobody touches during the walk is on one of its pages. */
  lemma {:induction false} UntouchedIsReturned(dbs: seq<Db>, user: Uuid, before: Option<Key>, limit: nat, k: Key) returns (i: nat)
    requires limit >= 1 && Finished(Walk(dbs, user, before, limit)) && Under(k, before)
    requires forall i :: 0 <= i < |dbs| ==> k in Keys(dbs[i], user)
    ensures i < |Walk(dbs, user, before, limit)| && k in Walk(dbs, user, before, limit)[i].items
    decreases |dbs|
  {
    hide ListNotes, Keys;
    PageCovers(dbs[0], user, before, limit, k);
    var page := ListNotes(dbs[0], user, before, limit);
    if k in page.items {
      i := 0;
    } else {
      var rest := Walk(dbs[1..], user, page.next, limit);
      i := UntouchedIsReturned(dbs[1..], user, page.next, limit, k);
      i := i + 1;
    }
  }

  function Items(pages: seq<Page>): seq<Key>
    decreases |pages|
  {
    if pages == [] then [] else pages[0].items + Items(pages[1..])
  }

  function PageCount(notes: nat, limit: nat): nat
    requires limit >= 1
  {
    if notes == 0 then 1 else (notes + limit - 1) / limit
  }

  /** Over a store that stands still the pages are the whole list, in order, in exactly max(1, ceil(n / limit)) pages. */
  lemma {:induction false} StaticWalk(db: Db, dbs: seq<Db>, user: Uuid, before: Option<Key>, limit: nat)
    requires limit >= 1 && forall i :: 0 <= i < |dbs| ==> dbs[i] == db
    requires |dbs| >= PageCount(|Below(Keys(db, user), before)|, limit)
    ensures var pages := Walk(dbs, user, before, limit);
            && Items(pages) == Descending(Below(Keys(db, user), before))
            && |pages| == PageCount(|Below(Keys(db, user), before)|, limit)
            && Finished(pages)
    decreases |dbs|
  {
    hide Keys, Below, Descending, PageCount, ListNotes, Walk, Decreasing;
    var all := Descending(Below(Keys(db, user), before));
    var page := ListNotes(db, user, before, limit);
    CountStep(|all|, limit);
    NextPage(db, user, before, limit);
    WalkStep(dbs, user, before, limit);
    if |all| > limit {
      StaticWalk(db, dbs[1..], user, page.next, limit);
    }
  }

  /** The first page of a walk, and what follows it. */
  lemma WalkStep(dbs: seq<Db>, user: Uuid, before: Option<Key>, limit: nat)
    requires dbs != []
    ensures var pages := Walk(dbs, user, before, limit);
            var page := ListNotes(dbs[0], user, before, limit);
            var rest := if page.next.None? then [] else Walk(dbs[1..], user, page.next, limit);
            pages == [page] + rest && Items(pages) == page.items + Items(rest)
  {
    hide ListNotes;
    var page := ListNotes(dbs[0], user, before, limit);
    var rest := if page.next.None? then [] else Walk(dbs[1..], user, page.next, limit);
    assert ([page] + rest)[1..] == rest;
  }

  lemma CountStep(notes: nat, limit: nat)
    requires limit >= 1
    ensures PageCount(notes, limit) >= 1
    ensures notes <= limit ==> PageCount(notes, limit) == 1
    ensures notes > limit ==> PageCount(notes, limit) == 1 + PageCount(notes - limit, limit)
  {
    if notes > limit {
      ChunkLaws.CeilStep(notes - limit, limit);
    } else if notes > 0 {
      ChunkLaws.DivIsOne(notes, limit);
    }
  }

  /** What is under the returned cursor is what the page left of the list. */
  lemma NextPage(db: Db, user: Uuid, before: Option<Key>, limit: nat)
    requires limit >= 1
    ensures var all := Descending(Below(Keys(db, user), before));
            var page := ListNotes(db, user, before, limit);
            if |all| <= limit then page == Page(all, None)
            else
              && page == Page(all[..limit], Some(all[limit - 1]))
              && Descending(Below(Keys(db, user), page.next)) == all[limit..]
              && |Below(Keys(db, user), page.next)| == |all| - limit
  {
    hide Keys, PageOf, Below, Decreasing;
    var all := Descending(Below(Keys(db, user), before));
    PageOfList(all, limit, Key(0, 0));
    if |all| > limit {
      RestIsListed(Keys(db, user), before, limit);
    }
  }

  lemma RestIsListed(keys: set<Key>, before: Option<Key>, limit: nat)
    requires 1 <= limit < |Descending(Below(keys, before))|
    ensures var all := Descending(Below(keys, before));
            Descending(Below(keys, Some(all[limit - 1]))) == all[limit..]
  {
    hide Below, Less;
    var all := Descending(Below(keys, before));
    RestIsUnder(keys, before, limit);
    DescendingUnique(Below(keys, Some(all[limit - 1])), all[limit..]);
  }

  lemma RestIsUnder(keys: set<Key>, before: Option<Key>, limit: nat)
    requires 1 <= limit < |Descending(Below(keys, before))|
    ensures var all := Descending(Below(keys, before));
            forall k :: k in all[limit..] <==> k in Below(keys, Some(all[limit - 1]))
  {
    hide Descending, Below;
    forall k ensures k in Descending(Below(keys, before))[limit..] <==> k in Below(keys, Some(Descending(Below(keys, before))[limit - 1])) {
      TailIsUnder(keys, before, Descending(Below(keys, before)), limit, k);
    }
  }

  lemma TailIsUnder(keys: set<Key>, before: Option<Key>, all: seq<Key>, limit: nat, k: Key)
    requires Decreasing(all) && (forall x :: x in all <==> x in Below(keys, before)) && 1 <= limit < |all|
    ensures k in all[limit..] <==> k in Below(keys, Some(all[limit - 1]))
  {
    assert all[limit - 1] in all;
    if k in all[limit..] {
      var i :| 0 <= i < |all[limit..]| && all[limit..][i] == k;
      assert all[limit + i] == k && k in all;
    }
    if k in Below(keys, Some(all[limit - 1])) {
      assert k in all;
      var i :| 0 <= i < |all| && all[i] == k;
      assert i >= limit && all[limit..][i - limit] == k;
    }
  }

  // ---- pages during runs ----

  /**
   A note's update time never falls: the version check lets a save through only if the row is the one its
   request has read, and the request read its clock after that.
   */
  lemma StepMovesForward(s: State, step: Step, n: Uuid)
    requires Inv(s) && n in s.db.notes && n in Apply(s, step).db.notes
    ensures s.db.notes[n].updatedAt <= Apply(s, step).db.notes[n].updatedAt
  {
    hide Inv, AfterCreate, AfterUpdate, AfterWork, Store.Delete, Reopen, Retryable;
    if Apply(s, step).db.notes[n].version == s.db.notes[n].version {
      var j := CurrentJob(s, n);
      CurrentJobKept(s, step, n, j);
    } else {
      UpdatesChain(s, step, n);
    }
  }

  lemma {:induction false} RunMovesForward(s: State, steps: seq<Step>, n: Uuid)
    requires Inv(s) && n in s.db.notes && n in Run(s, steps).db.notes
    ensures s.db.notes[n].updatedAt <= Run(s, steps).db.notes[n].updatedAt
    decreases |steps|
  {
    hide Inv, Apply;
    if steps != [] {
      var k := (n, s.db.notes[n].version);
      StoredIsRecorded(s, n);
      StepKeepsInv(s, steps[0]);
      TextKept(s, steps[0], k);
      if n in Apply(s, steps[0]).db.notes {
        StepMovesForward(s, steps[0], n);
        RunMovesForward(Apply(s, steps[0]), steps[1..], n);
      } else {
        GoneForGood(Apply(s, steps[0]), steps[1..], n, k);
      }
    }
  }

  /** The states of the interleaved system before and between runs of actions. */
  ghost function StatesOf(sys: Workers.System, between: seq<seq<Workers.Action>>): seq<State>
    decreases |between|
  {
    [sys.state] + if between == [] then [] else StatesOf(Workers.Interleave(sys, between[0]), between[1..])
  }

  ghost function DbsOf(states: seq<State>): (r: seq<Db>)
    ensures |r| == |states| && forall i :: 0 <= i < |r| ==> r[i] == states[i].db
  {
    seq(|states|, i requires 0 <= i < |states| => states[i].db)
  }

  /** Every later state of an interleaving is one a run of whole steps reaches. */
  lemma {:induction false} LaterIsRun(sys: Workers.System, between: seq<seq<Workers.Action>>, j: nat) returns (steps: seq<Step>)
    requires Workers.SysInv(sys) && j < |StatesOf(sys, between)|
    ensures StatesOf(sys, between)[j] == Run(sys.state, steps)
    decreases |between|
  {
    hide Workers.SysInv, Workers.Interleave;
    steps := [];
    if j > 0 {
      var first := Workers.SerialSteps(sys, between[0]);
      Workers.InterleavingRefinesQueue(sys, between[0]);
      var rest := LaterIsRun(Workers.Interleave(sys, between[0]), between[1..], j - 1);
      RunConcat(sys.state, first, rest);
      steps := first + rest;
    }
  }

  lemma {:induction false} RunsNeverGoBack(sys: Workers.System, between: seq<seq<Workers.Action>>, i: nat, j: nat, n: Uuid)
    requires Workers.SysInv(sys) && i < j < |StatesOf(sys, between)|
    requires n in StatesOf(sys, between)[i].db.notes && n in StatesOf(sys, between)[j].db.notes
    ensures StatesOf(sys, between)[i].db.notes[n].updatedAt <= StatesOf(sys, between)[j].db.notes[n].updatedAt
    decreases |between|
  {
    hide Workers.Interleave, Run, Inv;
    if i == 0 {
      var steps := LaterIsRun(sys, between, j);
      RunMovesForward(sys.state, steps, n);
    } else {
      Workers.InterleavingRefinesQueue(sys, between[0]);
      RunsNeverGoBack(Workers.Interleave(sys, between[0]), between[1..], i - 1, j - 1, n);
    }
  }

  /**
   Paging through one's notes while the queue runs: whatever actions of requests and of overlapping
   workers happen between the pages, no note is returned twice.
   */
  lemma PagingDuringRuns(sys: Workers.System, between: seq<seq<Workers.Action>>, user: Uuid, limit: nat, i: nat, j: nat, a: Key, b: Key)
    requires Workers.SysInv(sys) && limit >= 1
    requires var pages := Walk(DbsOf(StatesOf(sys, between)), user, None, limit);
             i <= j < |pages| && a in pages[i].items && b in pages[j].items && (i == j ==> a != b)
    ensures a.id != b.id
  {
    hide Workers.SysInv, Walk, StatesOf;
    var dbs := DbsOf(StatesOf(sys, between));
    forall i, j, n | 0 <= i < j < |dbs| && n in dbs[i].notes && n in dbs[j].notes
      ensures dbs[i].notes[n].updatedAt <= dbs[j].notes[n].updatedAt
    {
      RunsNeverGoBack(sys, between, i, j, n);
    }
    NoNoteTwice(dbs, user, None, limit, i, j, a, b);
  }

  /**
   A note whose text was just changed is listed before all others, or with them, exactly if none of the
   user's other notes was stamped after the clock its request read.
   */
  lemma ChangedNoteIsNewestExactlyIf(s: State, step: Step, n: Uuid)
    requires Inv(s) && n in s.db.notes && n in Apply(s, step).db.notes && TextOf(Apply(s, step).db.notes[n]) != TextOf(s.db.notes[n])
    ensures step.UpdateNote?
    ensures var user, after := s.db.notes[n].userId, Apply(s, step).db;
            (forall k :: k in Keys(after, user) ==> k.at <= after.notes[n].updatedAt) <==>
            (forall m :: m in s.db.notes && m != n && s.db.notes[m].userId == user ==> s.db.notes[m].updatedAt <= step.now)
  {
    hide Apply, Inv;
    UpdatesChain(s, step, n);
    OthersUnchanged(s, step, n);
    var user, after := s.db.notes[n].userId, Apply(s, step).db;
    forall m | m in s.db.notes && m != n && s.db.notes[m].userId == user
      ensures Key(s.db.notes[m].updatedAt, m) in Keys(after, user)
    {
    }
  }

  /** An update touches no other note. */
  lemma OthersUnchanged(s: State, step: Step, n: Uuid)
    requires Inv(s) && step.UpdateNote? && step.noteId == n && n in s.db.notes
    ensures var notes := Apply(s, step).db.notes;
            && notes.Keys == s.db.notes.Keys && notes[n].userId == s.db.notes[n].userId
            && forall m :: m in s.db.notes && m != n ==> notes[m] == s.db.notes[m]
  {
    hide IndexInv, WellFormed, JobInv, ValidateText;
    assert NoteLocal(s, n);
  }

  // ---- when a save is lost, a page can be too ----

  lemma NewestFirst(db: Db, user: Uuid, before: Option<Key>, top: Key, other: Key)
    requires top in Below(Keys(db, user), before) && other in Below(Keys(db, user), before) && other != top
    requires forall k :: k in Below(Keys(db, user), before) ==> k == top || Less(k, top)
    ensures ListNotes(db, user, before, 1) == Page([top], Some(top))
  {
    hide Keys, Below, Less, Decreasing;
    var all := Descending(Below(Keys(db, user), before));
    assert top in all && other in all;
    FirstIsGreatest(Below(Keys(db, user), before), all, top);
    assert |all| >= 2 by {
      var i :| 0 <= i < |all| && all[i] == other;
    }
    PageOfList(all, 1, top);
  }

  /**
   The statements of two saves can interleave so that the later one to commit carries the earlier clock
   reading; then the note's update time falls, and a walk returns it twice.
   */
  lemma LostUpdateShowsTwice(s: State, n: Uuid, m: Uuid, first: Note, second: Note, jobs: (Uuid, Uuid))
    requires Inv(s) && n in s.db.notes && m in s.db.notes && m != n && s.db.notes[m].userId == s.db.notes[n].userId
    requires forall x :: x in s.db.notes && s.db.notes[x].userId == s.db.notes[n].userId ==> x == n || x == m
    requires jobs.0 !in s.db.jobs && jobs.1 !in s.db.jobs && jobs.0 != jobs.1
    requires NextVersion(s.db.notes[n], first, first.updatedAt) && NextVersion(s.db.notes[n], second, second.updatedAt)
    requires s.db.notes[n].updatedAt < second.updatedAt < first.updatedAt && s.db.notes[m].updatedAt < second.updatedAt
    ensures var read, user := s.db.notes[n], s.db.notes[n].userId;
            var once := Flush(s.db, read, first, OpenJobs(s.db, n), jobs.0);
            && once.Success?
            && var twice := Flush(once.value, read, second, OpenJobs(once.value, n), jobs.1);
            && twice.Success?
            && var pages := Walk([once.value, twice.value], user, None, 1);
            && |pages| == 2 && pages[0].items == [Key(first.updatedAt, n)] && pages[1].items == [Key(second.updatedAt, n)]
  {
    hide Inv, Flush, ListNotes, NextVersion;
    var read, user := s.db.notes[n], s.db.notes[n].userId;
    SavedFields(s, n, first, second, jobs);
    var once := Flush(s.db, read, first, OpenJobs(s.db, n), jobs.0).value;
    var twice := Flush(once, read, second, OpenJobs(once, n), jobs.1).value;
    var older := Key(s.db.notes[m].updatedAt, m);
    assert m in once.notes && once.notes[m] == s.db.notes[m] && m in twice.notes && twice.notes[m] == s.db.notes[m];
    NewestFirst(once, user, None, Key(first.updatedAt, n), older);
    NewestFirst(twice, user, Some(Key(first.updatedAt, n)), Key(second.updatedAt, n), older);
    var dbs := [once, twice];
    assert dbs[1..] == [twice] && dbs[1..][1..] == [];
    WalkStep(dbs, user, None, 1);
    WalkStep(dbs[1..], user, Some(Key(first.updatedAt, n)), 1);
    assert Walk(dbs[1..][1..], user, Some(Key(second.updatedAt, n)), 1) == [];
  }

  lemma SavedFields(s: State, n: Uuid, first: Note, second: Note, jobs: (Uuid, Uuid))
    requires Inv(s) && n in s.db.notes && jobs.0 !in s.db.jobs && jobs.1 !in s.db.jobs && jobs.0 != jobs.1
    requires NextVersion(s.db.notes[n], first, first.updatedAt) && NextVersion(s.db.notes[n], second, second.updatedAt)
    requires s.db.notes[n].updatedAt < second.updatedAt < first.updatedAt
    ensures var read := s.db.notes[n];
            var once := Flush(s.db, read, first, OpenJobs(s.db, n), jobs.0);
            && once.Success? && once.value.notes.Keys == s.db.notes.Keys
            && once.value.notes == s.db.notes[n := once.value.notes[n]]
            && once.value.notes[n].updatedAt == first.updatedAt && once.value.notes[n].userId == read.userId
            && var twice := Flush(once.value, read, second, OpenJobs(once.value, n), jobs.1);
            && twice.Success? && twice.value.notes == once.value.notes[n := twice.value.notes[n]]
            && twice.value.notes[n].updatedAt == second.updatedAt && twice.value.notes[n].userId == read.userId
  {
    hide Inv, Flush, WellFormed;
    var read := s.db.notes[n];
    StoredIsRecorded(s, n);
    TwoSavesBothCommit(s, n, first, second, jobs);
    FlushedJobs(s.db, read, first, OpenJobs(s.db, n), jobs.0);
    var once := Flush(s.db, read, first, OpenJobs(s.db, n), jobs.0).value;
    FlushedJobs(once, read, second, OpenJobs(once, n), jobs.1);
  }
}
