// Reading logs page by page: the numbered pages of the event and tool-call logs, and
// the cursor walk of the inbox.
module Paging {
  import opened Common

  // ---------------------------------------------------------------- numbered pages

  function PageSize(size: int): int {
    Max(1, size)
  }

  function TotalPages(total: nat, size: int): int {
    Max(1, (total + PageSize(size) - 1) / PageSize(size))
  }

  /** One page of a query, newest first: page 1 is the end of the log. */
  function Page<T>(all: seq<T>, page: int, size: int): seq<T> {
    var p, n := Max(1, page), PageSize(size);
    var start := Max(0, |all| - p * n);
    var end := |all| - (p - 1) * n;
    Reverse(JsSlice(all, start, end))
  }

  function FirstPages<T>(all: seq<T>, pages: nat, size: int): seq<T> {
    if pages == 0 then [] else FirstPages(all, pages - 1, size) + Page(all, pages, size)
  }

  /** What is left of the log in front of the first p pages. */
  function Before(total: nat, pages: nat, size: int): int {
    Max(0, total - pages * PageSize(size))
  }

  lemma NextPage(total: nat, pages: nat, size: int)
    requires pages > 0
    ensures pages * PageSize(size) == (pages - 1) * PageSize(size) + PageSize(size)
  {
  }

  /** Page p is the stretch of the log between two starts. */
  lemma PageIsStretch<T>(all: seq<T>, pages: nat, size: int)
    requires pages > 0 && (pages - 1) * PageSize(size) <= |all|
    ensures 0 <= Before(|all|, pages, size) <= Before(|all|, pages - 1, size) <= |all|
    ensures Page(all, pages, size) == Reverse(all[Before(|all|, pages, size)..Before(|all|, pages - 1, size)])
  {
    NextPage(|all|, pages, size);
    var start, end := Before(|all|, pages, size), Before(|all|, pages - 1, size);
    assert (pages - 1) * PageSize(size) >= 0;
    assert JsSlice(all, start, end) == all[start..end];
  }

  lemma JoinStretches<T>(all: seq<T>, start: int, end: int)
    requires 0 <= start <= end <= |all|
    ensures Reverse(all[end..]) + Reverse(all[start..end]) == Reverse(all[start..])
  {
    assert all[start..] == all[start..end] + all[end..];
    ReverseOfConcat(all[start..end], all[end..]);
  }

  lemma {:induction false} FirstPagesAreTheTail<T>(all: seq<T>, pages: nat, size: int)
    requires pages > 0 ==> (pages - 1) * PageSize(size) <= |all|
    ensures 0 <= Before(|all|, pages, size) <= |all|
    ensures FirstPages(all, pages, size) == Reverse(all[Before(|all|, pages, size)..])
    decreases pages
  {
    if pages == 0 {
      assert all[|all|..] == [];
    } else {
      if pages > 1 {
        NextPage(|all|, pages - 1, size);
      }
      hide Before, Page, PageSize;
      FirstPagesAreTheTail(all, pages - 1, size);
      PageIsStretch(all, pages, size);
      JoinStretches(all, Before(|all|, pages, size), Before(|all|, pages - 1, size));
    }
  }

  /** Rounding up: the last page starts inside the log and reaches its front. */
  lemma TotalPagesCover(total: nat, size: int)
    ensures (TotalPages(total, size) - 1) * PageSize(size) <= total <= TotalPages(total, size) * PageSize(size)
  {
    var n := PageSize(size);
    var q := (total + n - 1) / n;
    assert q * n <= total + n - 1 < q * n + n;
    assert (q - 1) * n == q * n - n;
  }

  /** Main result: pages 1 to totalPages are the whole log, newest first, each entry exactly once. */
  lemma PagesAreTheLog<T>(all: seq<T>, size: int)
    ensures FirstPages(all, TotalPages(|all|, size), size) == Reverse(all)
  {
    TotalPagesCover(|all|, size);
    FirstPagesAreTheTail(all, TotalPages(|all|, size), size);
    assert all[0..] == all;
  }

  /** Past the last page the end of the slice goes negative and counts from the back: such a page is
      empty only when it starts exactly at the front, or a whole log length before it. */
  lemma PageBeyondTheLastExactly<T>(all: seq<T>, page: int, size: int)
    requires page > TotalPages(|all|, size)
    ensures Page(all, page, size) == []
            <==> (page - 1) * PageSize(size) == |all| || (page - 1) * PageSize(size) >= 2 * |all|
  {
    var n := PageSize(size);
    TotalPagesCover(|all|, size);
    MonotoneProduct(TotalPages(|all|, size), page - 1, n);
    var end := |all| - (page - 1) * n;
    assert page * n == (page - 1) * n + n;
    assert Max(0, |all| - page * n) == 0;
    var slice := JsSlice(all, 0, end);
    assert |Page(all, page, size)| == |slice|;
  }

  lemma MonotoneProduct(a: int, b: int, n: int)
    requires a <= b && n >= 0
    ensures a * n <= b * n
  {
  }

  /** Two entries, page size one: the fourth page of two is the first entry again. */
  lemma GhostPage<T>(older: T, newer: T)
    ensures TotalPages(2, 1) == 2 && Page([older, newer], 4, 1) == [older]
  {
    assert JsSlice([older, newer], 0, -1) == [older];
  }

  // ---------------------------------------------------------------- the inbox walk

  datatype InboxEntry = InboxEntry(id: string, workspaceId: string, body: string)

  datatype InboxPage = InboxPage(entries: seq<InboxEntry>, hasMore: bool)

  predicate DistinctIds(log: seq<InboxEntry>) {
    forall i, j :: 0 <= i < j < |log| ==> log[i].id != log[j].id
  }

  predicate WithIds(log: seq<InboxEntry>) {
    forall i :: 0 <= i < |log| ==> log[i].id != ""
  }

  /** The entries of one workspace; the empty id keeps them all. */
  function Scope(log: seq<InboxEntry>, workspaceId: string): seq<InboxEntry> {
    if log == [] then []
    else
      Scope(log[..|log| - 1], workspaceId)
      + (if workspaceId == "" || log[|log| - 1].workspaceId == workspaceId then [log[|log| - 1]] else [])
  }

  lemma ScopeOfAppend(log: seq<InboxEntry>, e: InboxEntry, workspaceId: string)
    ensures Scope(log + [e], workspaceId) == Scope(log, workspaceId) + if workspaceId in {"", e.workspaceId} then [e] else []
  {
    assert (log + [e])[..|log|] == log;
  }

  /** In order and entry by entry: those of the workspace asked for, or all of them. */
  lemma {:induction false} ScopeExactly(a: seq<InboxEntry>, b: seq<InboxEntry>, workspaceId: string)
    ensures Scope(a + b, workspaceId) == Scope(a, workspaceId) + Scope(b, workspaceId)
    ensures |b| == 1 ==> Scope(b, workspaceId) == if workspaceId in {"", b[0].workspaceId} then b else []
  {
    hide Scope;
    ScopeOfNone(workspaceId);
    if b == [] {
      assert a + b == a;
    } else {
      var init, last := b[..|b| - 1], b[|b| - 1];
      ScopeExactly(a, init, workspaceId);
      ScopeOfAppend(init, last, workspaceId);
      ScopeOfAppend(a + init, last, workspaceId);
      SplitLast(b);
      ConcatAssociates(a, init, [last]);
    }
  }

  lemma ScopeOfNone(workspaceId: string)
    ensures Scope([], workspaceId) == []
  {
  }

  /** findIndex by id; the length when there is none. */
  function IndexOfId(log: seq<InboxEntry>, id: string): (i: nat)
    ensures i <= |log|
    ensures i < |log| ==> log[i].id == id
    ensures forall j :: 0 <= j < i ==> log[j].id != id
  {
    if log == [] || log[0].id == id then 0 else 1 + IndexOfId(log[1..], id)
  }

  /** One read of the inbox; an empty `before` starts at the newest entry. */
  function ReadInbox(log: seq<InboxEntry>, workspaceId: string, before: string, limit: int): InboxPage {
    var all := Scope(log, workspaceId);
    var i := IndexOfId(all, before);
    var scoped := if before == "" then all else if i < |all| then all[..i] else [];
    var window := JsSlice(scoped, -limit, |scoped|);
    InboxPage(Reverse(window), |window| < |scoped|)
  }

  /** Reads until there is no more, each from the last entry of the one before; `logs[n]` is the
      inbox as the n-th read finds it. Gives up when the snapshots run out. */
  function Walk(logs: seq<seq<InboxEntry>>, workspaceId: string, before: string, limit: int): (seq<InboxEntry>, bool) {
    if logs == [] then ([], false)
    else
      var page := ReadInbox(logs[0], workspaceId, before, limit);
      if !page.hasMore then (page.entries, true)
      else if page.entries == [] then ([], false)
      else
        var (rest, finished) := Walk(logs[1..], workspaceId, page.entries[|page.entries| - 1].id, limit);
        (page.entries + rest, finished)
  }

  /** Later snapshots only add entries at the end. */
  predicate Grows(base: seq<InboxEntry>, logs: seq<seq<InboxEntry>>, workspaceId: string) {
    forall n :: 0 <= n < |logs| ==>
      && DistinctIds(Scope(logs[n], workspaceId)) && WithIds(Scope(logs[n], workspaceId))
      && base <= Scope(logs[n], workspaceId)
  }

  lemma IndexInExtension(base: seq<InboxEntry>, log: seq<InboxEntry>, k: nat)
    requires base <= log && DistinctIds(log) && k < |base|
    ensures IndexOfId(log, base[k].id) == k
  {
    assert base[k] == log[k];
  }

  /** What one read returns when its scope is the first k entries of the base. */
  function PageAt(base: seq<InboxEntry>, k: nat, limit: int): InboxPage
    requires k <= |base| && limit >= 1
  {
    var from := Max(0, k - limit);
    InboxPage(Reverse(base[from..k]), from > 0)
  }

  lemma ScopedWindow(scoped: seq<InboxEntry>, base: seq<InboxEntry>, k: nat, limit: int)
    requires k <= |base| && scoped == base[..k] && limit >= 1
    ensures var window := JsSlice(scoped, -limit, |scoped|);
            InboxPage(Reverse(window), |window| < |scoped|) == PageAt(base, k, limit)
  {
    assert JsSlice(scoped, -limit, k) == base[Max(0, k - limit)..k];
  }

  lemma ReadFrom(base: seq<InboxEntry>, log: seq<InboxEntry>, workspaceId: string, k: nat, limit: int)
    requires DistinctIds(Scope(log, workspaceId)) && WithIds(Scope(log, workspaceId)) && base <= Scope(log, workspaceId)
    requires k < |base| && limit >= 1
    ensures ReadInbox(log, workspaceId, base[k].id, limit) == PageAt(base, k, limit)
  {
    var all := Scope(log, workspaceId);
    IndexInExtension(base, all, k);
    assert base[k] == all[k] && all[..k] == base[..k];
    hide Scope, JsSlice, PageAt;
    ScopedWindow(all[..k], base, k, limit);
  }

  /** A page and the pages after it. */
  lemma PagesJoin(base: seq<InboxEntry>, k: nat, limit: int)
    requires k <= |base| && limit >= 1
    ensures var from := Max(0, k - limit);
            PageAt(base, k, limit).entries + Reverse(base[..from]) == Reverse(base[..k])
  {
    var from := Max(0, k - limit);
    assert base[..k] == base[..from] + base[from..k];
    ReverseOfConcat(base[..from], base[from..k]);
  }

  /** From an entry of the base on, the walk returns everything older, newest first, whatever is
      appended meanwhile. */
  lemma {:induction false} WalkFrom(base: seq<InboxEntry>, logs: seq<seq<InboxEntry>>, workspaceId: string, k: nat, limit: int)
    requires Grows(base, logs, workspaceId) && k < |base| && limit >= 1 && |logs| > k
    ensures Walk(logs, workspaceId, base[k].id, limit) == (Reverse(base[..k]), true)
    decreases k
  {
    ReadFrom(base, logs[0], workspaceId, k, limit);
    WalkRest(base, logs, workspaceId, base[k].id, k, limit);
  }

  /** After a read whose page is that of the first k entries of the base. */
  lemma {:induction false} WalkRest(base: seq<InboxEntry>, logs: seq<seq<InboxEntry>>, workspaceId: string,
                                    before: string, k: nat, limit: int)
    requires Grows(base, logs, workspaceId) && k <= |base| && limit >= 1 && |logs| > k
    requires ReadInbox(logs[0], workspaceId, before, limit) == PageAt(base, k, limit)
    ensures Walk(logs, workspaceId, before, limit) == (Reverse(base[..k]), true)
    decreases k, 0
  {
    hide ReadInbox, Scope;
    PagesJoin(base, k, limit);
    var from := Max(0, k - limit);
    var page := PageAt(base, k, limit);
    if from > 0 {
      assert page.entries[|page.entries| - 1] == base[from];
      assert Grows(base, logs[1..], workspaceId);
      WalkFrom(base, logs[1..], workspaceId, from, limit);
    } else {
      assert page.entries + [] == page.entries;
      assert base[..0] == [];
    }
  }

  /** Main result: the walk returns what the inbox held at the first read, newest first, each entry
      exactly once, even while entries keep being appended. */
  lemma WalkIsTheInbox(logs: seq<seq<InboxEntry>>, workspaceId: string, limit: int)
    requires logs != [] && limit >= 1
    requires Grows(Scope(logs[0], workspaceId), logs, workspaceId) && |logs| > |Scope(logs[0], workspaceId)|
    ensures Walk(logs, workspaceId, "", limit) == (Reverse(Scope(logs[0], workspaceId)), true)
  {
    var base := Scope(logs[0], workspaceId);
    assert base[..|base|] == base;
    ScopedWindow(base, base, |base|, limit);
    WalkRest(base, logs, workspaceId, "", |base|, limit);
  }

  // ---------------------------------------------------------------- the walk while entries come and go

  /** The inbox at one read, out of every entry ever appended: how many had been, and which ids had
      been deleted. */
  datatype Snapshot = Snapshot(appended: nat, deleted: set<string>)

  /** The file's entries: the first n of all, less the deleted ones. */
  function LogAt(all: seq<InboxEntry>, n: nat, deleted: set<string>): seq<InboxEntry>
    requires n <= |all|
  {
    if n == 0 then []
    else LogAt(all, n - 1, deleted) + (if all[n - 1].id !in deleted then [all[n - 1]] else [])
  }

  predicate InScope(e: InboxEntry, workspaceId: string) {
    workspaceId == "" || e.workspaceId == workspaceId
  }

  predicate Shown(e: InboxEntry, workspaceId: string, deleted: set<string>) {
    e.id !in deleted && InScope(e, workspaceId)
  }

  /** The surviving entries of the workspace among the first n of all. */
  function Survivors(all: seq<InboxEntry>, n: nat, workspaceId: string, deleted: set<string>): (r: seq<InboxEntry>)
    requires n <= |all|
    ensures |r| <= n
  {
    if n == 0 then []
    else
      var older := Survivors(all, n - 1, workspaceId, deleted);
      if Shown(all[n - 1], workspaceId, deleted) then older + [all[n - 1]] else older
  }

  lemma {:induction false} ScopeOfLog(all: seq<InboxEntry>, n: nat, workspaceId: string, deleted: set<string>)
    requires n <= |all|
    ensures Scope(LogAt(all, n, deleted), workspaceId) == Survivors(all, n, workspaceId, deleted)
  {
    if n > 0 {
      ScopeOfLog(all, n - 1, workspaceId, deleted);
      var older := LogAt(all, n - 1, deleted);
      if all[n - 1].id !in deleted {
        assert (older + [all[n - 1]])[..|older|] == older;
      } else {
        assert LogAt(all, n, deleted) == older;
      }
    }
  }

  /** Survivors are counted by position: those before p come first, then p itself if it survives. */
  lemma {:induction false} SurvivorsSplit(all: seq<InboxEntry>, p: nat, n: nat, workspaceId: string, deleted: set<string>)
    requires p < n <= |all|
    ensures var older := Survivors(all, p, workspaceId, deleted);
            var r := Survivors(all, n, workspaceId, deleted);
            && older <= r
            && (Shown(all[p], workspaceId, deleted) ==> |older| < |r| && r[|older|] == all[p])
    decreases n
  {
    if p < n - 1 {
      SurvivorsSplit(all, p, n - 1, workspaceId, deleted);
    }
  }

  lemma {:induction false} SurvivorsMembers(all: seq<InboxEntry>, n: nat, workspaceId: string, deleted: set<string>, e: InboxEntry)
    requires n <= |all|
    ensures e in Survivors(all, n, workspaceId, deleted) ==> e in all[..n] && Shown(e, workspaceId, deleted)
  {
    if n > 0 {
      SurvivorsMembers(all, n - 1, workspaceId, deleted, e);
      assert all[..n] == all[..n - 1] + [all[n - 1]];
    }
  }

  lemma OlderHaveOtherIds(all: seq<InboxEntry>, p: nat, workspaceId: string, deleted: set<string>)
    requires p < |all| && DistinctIds(all)
    ensures forall e :: e in Survivors(all, p, workspaceId, deleted) ==> e.id != all[p].id
  {
    forall e | e in Survivors(all, p, workspaceId, deleted)
      ensures e.id != all[p].id
    {
      SurvivorsMembers(all, p, workspaceId, deleted, e);
      var k :| 0 <= k < p && all[k] == e;
    }
  }

  lemma DeletedNotFound(all: seq<InboxEntry>, n: nat, workspaceId: string, deleted: set<string>, id: string)
    requires n <= |all| && id in deleted
    ensures IndexOfId(Survivors(all, n, workspaceId, deleted), id) == |Survivors(all, n, workspaceId, deleted)|
  {
    hide Survivors;
    var r := Survivors(all, n, workspaceId, deleted);
    var i := IndexOfId(r, id);
    if i < |r| {
      SurvivorsMembers(all, n, workspaceId, deleted, r[i]);
    }
  }

  lemma FoundAt(r: seq<InboxEntry>, older: seq<InboxEntry>, id: string)
    requires older <= r && |older| < |r| && r[|older|].id == id
    requires forall e :: e in older ==> e.id != id
    ensures IndexOfId(r, id) == |older| && r[..|older|] == older
  {
    hide IndexOfId;
    assert forall j :: 0 <= j < |older| ==> r[j] == older[j] && r[j].id != id;
  }

  /** A cursor that survives is found right behind the survivors older than it; a deleted one is not found. */
  lemma CursorFound(all: seq<InboxEntry>, p: nat, n: nat, workspaceId: string, deleted: set<string>)
    requires p < n <= |all| && DistinctIds(all) && InScope(all[p], workspaceId)
    ensures var r := Survivors(all, n, workspaceId, deleted);
            var i := IndexOfId(r, all[p].id);
            if all[p].id in deleted then i == |r|
            else i < |r| && r[..i] == Survivors(all, p, workspaceId, deleted)
  {
    hide Survivors, DistinctIds, IndexOfId;
    if all[p].id in deleted {
      DeletedNotFound(all, n, workspaceId, deleted, all[p].id);
    } else {
      SurvivorsSplit(all, p, n, workspaceId, deleted);
      OlderHaveOtherIds(all, p, workspaceId, deleted);
      FoundAt(Survivors(all, n, workspaceId, deleted), Survivors(all, p, workspaceId, deleted), all[p].id);
    }
  }

  /** The positions of the newest n survivors below p, newest first. */
  function Newest(all: seq<InboxEntry>, p: nat, workspaceId: string, deleted: set<string>, n: nat): (r: seq<nat>)
    requires p <= |all|
    ensures |r| == Min(n, |Survivors(all, p, workspaceId, deleted)|)
    ensures forall i :: 0 <= i < |r| ==> r[i] < p
  {
    if p == 0 || n == 0 then []
    else if Shown(all[p - 1], workspaceId, deleted) then [p - 1] + Newest(all, p - 1, workspaceId, deleted, n - 1)
    else Newest(all, p - 1, workspaceId, deleted, n)
  }

  predicate Descending(r: seq<nat>) {
    forall i, j :: 0 <= i < j < |r| ==> r[i] > r[j]
  }

  lemma {:induction false} NewestFacts(all: seq<InboxEntry>, p: nat, workspaceId: string, deleted: set<string>, n: nat)
    requires p <= |all|
    ensures var r := Newest(all, p, workspaceId, deleted, n);
            Descending(r) && forall i :: 0 <= i < |r| ==> Shown(all[r[i]], workspaceId, deleted)
  {
    if p > 0 && n > 0 {
      hide Shown, Survivors;
      var shown := Shown(all[p - 1], workspaceId, deleted);
      var rest := Newest(all, p - 1, workspaceId, deleted, if shown then n - 1 else n);
      NewestFacts(all, p - 1, workspaceId, deleted, if shown then n - 1 else n);
      assert Newest(all, p, workspaceId, deleted, n) == if shown then [p - 1] + rest else rest;
    }
  }

  function At(all: seq<InboxEntry>, positions: seq<nat>): (r: seq<InboxEntry>)
    requires forall i :: 0 <= i < |positions| ==> positions[i] < |all|
    ensures |r| == |positions| && forall i :: 0 <= i < |r| ==> r[i] == all[positions[i]]
  {
    seq(|positions|, i requires 0 <= i < |positions| => all[positions[i]])
  }

  lemma AtOfConcat(all: seq<InboxEntry>, a: seq<nat>, b: seq<nat>)
    requires forall i :: 0 <= i < |a| ==> a[i] < |all|
    requires forall i :: 0 <= i < |b| ==> b[i] < |all|
    ensures At(all, a + b) == At(all, a) + At(all, b)
  {
  }

  lemma AtOfOne(all: seq<InboxEntry>, p: nat)
    requires p < |all|
    ensures At(all, [p]) == [all[p]]
  {
  }

  lemma LastWithOneMore<T>(older: seq<T>, x: T, n: nat)
    requires n > 0
    ensures Reverse(LastN(older + [x], n)) == [x] + Reverse(LastN(older, n - 1))
  {
    assert LastN(older + [x], n) == LastN(older, n - 1) + [x];
    ReverseOfConcat(LastN(older, n - 1), [x]);
  }

  lemma {:induction false} NewestAreLast(all: seq<InboxEntry>, p: nat, workspaceId: string, deleted: set<string>, n: nat)
    requires p <= |all|
    ensures At(all, Newest(all, p, workspaceId, deleted, n)) == Reverse(LastN(Survivors(all, p, workspaceId, deleted), n))
  {
    hide Reverse, At, Shown;
    if p == 0 || n == 0 {
      assert LastN(Survivors(all, p, workspaceId, deleted), n) == [];
    } else {
      hide LastN;
      var shown := Shown(all[p - 1], workspaceId, deleted);
      var older := Survivors(all, p - 1, workspaceId, deleted);
      var rest := Newest(all, p - 1, workspaceId, deleted, if shown then n - 1 else n);
      assert Newest(all, p, workspaceId, deleted, n) == if shown then [p - 1] + rest else rest;
      assert Survivors(all, p, workspaceId, deleted) == if shown then older + [all[p - 1]] else older;
      hide Survivors, Newest;
      NewestAreLast(all, p - 1, workspaceId, deleted, if shown then n - 1 else n);
      AtOfConcat(all, [p - 1], rest);
      AtOfOne(all, p - 1);
      LastWithOneMore(older, all[p - 1], n);
    }
  }

  /** A survivor left out stands below everything taken. */
  lemma {:induction false} LeftOutIsOlder(all: seq<InboxEntry>, p: nat, workspaceId: string, deleted: set<string>, n: nat, k: nat)
    requires k < p <= |all| && Shown(all[k], workspaceId, deleted)
    ensures var r := Newest(all, p, workspaceId, deleted, n);
            k in r || (|r| == n && (n > 0 ==> k < r[n - 1]))
    decreases p
  {
    hide Shown, Survivors;
    if n > 0 {
      var shown := Shown(all[p - 1], workspaceId, deleted);
      var rest := Newest(all, p - 1, workspaceId, deleted, if shown then n - 1 else n);
      assert Newest(all, p, workspaceId, deleted, n) == if shown then [p - 1] + rest else rest;
      if k < p - 1 {
        LeftOutIsOlder(all, p - 1, workspaceId, deleted, if shown then n - 1 else n, k);
      }
    }
  }

  /** A page with room for every survivor has them all. */
  lemma {:induction false} NoneLeftOut(all: seq<InboxEntry>, p: nat, workspaceId: string, deleted: set<string>, n: nat, k: nat)
    requires k < p <= |all| && Shown(all[k], workspaceId, deleted)
    requires |Survivors(all, p, workspaceId, deleted)| <= n
    ensures k in Newest(all, p, workspaceId, deleted, n)
    decreases p
  {
    hide Shown;
    var shown := Shown(all[p - 1], workspaceId, deleted);
    SurvivorsSplit(all, k, p, workspaceId, deleted);
    if k < p - 1 {
      NoneLeftOut(all, p - 1, workspaceId, deleted, if shown then n - 1 else n, k);
    }
  }

  /** What a walk owes from position p on: at each read the newest survivors below its place, until a
      read shows no more. The place is kept as a position, so no deletion can lose it. */
  function Owed(all: seq<InboxEntry>, p: nat, snaps: seq<Snapshot>, workspaceId: string, limit: nat): (r: (seq<nat>, bool))
    requires p <= |all| && limit >= 1
    ensures forall i :: 0 <= i < |r.0| ==> r.0[i] < p
    decreases |snaps|
  {
    if snaps == [] then ([], false)
    else
      var page := Newest(all, p, workspaceId, snaps[0].deleted, limit);
      if |Survivors(all, p, workspaceId, snaps[0].deleted)| <= limit then (page, true)
      else
        var (rest, finished) := Owed(all, page[limit - 1], snaps[1..], workspaceId, limit);
        (page + rest, finished)
  }

  /** Shown at every one of the reads. */
  predicate AlwaysShown(e: InboxEntry, snaps: seq<Snapshot>, workspaceId: string) {
    forall n :: 0 <= n < |snaps| ==> Shown(e, workspaceId, snaps[n].deleted)
  }

  /** Every entry below p is owed at most once, newest first. */
  lemma {:induction false} OwedDescends(all: seq<InboxEntry>, p: nat, snaps: seq<Snapshot>, workspaceId: string, limit: nat)
    requires p <= |all| && limit >= 1
    ensures Descending(Owed(all, p, snaps, workspaceId, limit).0)
    decreases |snaps|
  {
    if snaps != [] {
      var page := Newest(all, p, workspaceId, snaps[0].deleted, limit);
      NewestFacts(all, p, workspaceId, snaps[0].deleted, limit);
      if |Survivors(all, p, workspaceId, snaps[0].deleted)| > limit {
        hide Newest, Survivors, Shown;
        OwedDescends(all, page[limit - 1], snaps[1..], workspaceId, limit);
        DescendsOn(page, Owed(all, page[limit - 1], snaps[1..], workspaceId, limit).0);
      }
    }
  }

  lemma DescendsOn(a: seq<nat>, b: seq<nat>)
    requires a != [] && Descending(a) && Descending(b)
    requires forall i :: 0 <= i < |b| ==> b[i] < a[|a| - 1]
    ensures Descending(a + b)
  {
    forall i, j | 0 <= i < j < |a + b|
      ensures (a + b)[i] > (a + b)[j]
    {
      if i < |a| <= j {
        assert a[i] >= a[|a| - 1] > b[j - |a|];
      }
    }
  }

  /** The walk comes to its end, and whatever survives every read is owed. */
  lemma {:induction false} OwedIsComplete(all: seq<InboxEntry>, p: nat, snaps: seq<Snapshot>, workspaceId: string, limit: nat)
    requires p <= |all| && limit >= 1 && |snaps| > p
    ensures Owed(all, p, snaps, workspaceId, limit).1
    ensures forall k :: 0 <= k < p && AlwaysShown(all[k], snaps, workspaceId) ==> k in Owed(all, p, snaps, workspaceId, limit).0
    decreases p
  {
    var page := Newest(all, p, workspaceId, snaps[0].deleted, limit);
    var more := |Survivors(all, p, workspaceId, snaps[0].deleted)| > limit;
    if more {
      OwedIsComplete(all, page[limit - 1], snaps[1..], workspaceId, limit);
    }
    forall k | 0 <= k < p && AlwaysShown(all[k], snaps, workspaceId)
      ensures k in Owed(all, p, snaps, workspaceId, limit).0
    {
      hide Newest, Survivors, Shown;
      LeftOutIsOlder(all, p, workspaceId, snaps[0].deleted, limit, k);
      if !more {
        NoneLeftOut(all, p, workspaceId, snaps[0].deleted, limit, k);
      }
      if k !in page {
        assert AlwaysShown(all[k], snaps[1..], workspaceId);
      }
    }
  }

  /** The cursor `before` stands for position p: the empty one for the end of the first snapshot. */
  predicate Places(all: seq<InboxEntry>, p: nat, before: string, snaps: seq<Snapshot>, workspaceId: string) {
    && DistinctIds(all) && WithIds(all)
    && (forall n :: 0 <= n < |snaps| ==> p <= snaps[n].appended <= |all|)
    && (if before == "" then snaps != [] ==> p == snaps[0].appended
        else
          && p < |all| && before == all[p].id && InScope(all[p], workspaceId)
          && forall n :: 0 <= n < |snaps| ==> p < snaps[n].appended)
  }

  function Logs(all: seq<InboxEntry>, snaps: seq<Snapshot>): (r: seq<seq<InboxEntry>>)
    requires forall n :: 0 <= n < |snaps| ==> snaps[n].appended <= |all|
    ensures |r| == |snaps|
    ensures forall n :: 0 <= n < |snaps| ==> r[n] == LogAt(all, snaps[n].appended, snaps[n].deleted)
  {
    seq(|snaps|, n requires 0 <= n < |snaps| => LogAt(all, snaps[n].appended, snaps[n].deleted))
  }

  /** The cursor is still in the log, or nothing older survives. */
  predicate CursorHolds(all: seq<InboxEntry>, p: nat, before: string, deleted: set<string>, workspaceId: string)
    requires p <= |all|
  {
    before == "" || before !in deleted || Survivors(all, p, workspaceId, deleted) == []
  }

  /** The page owed at position p. */
  function OwedPage(all: seq<InboxEntry>, p: nat, deleted: set<string>, workspaceId: string, limit: nat): InboxPage
    requires p <= |all|
  {
    InboxPage(At(all, Newest(all, p, workspaceId, deleted, limit)), |Survivors(all, p, workspaceId, deleted)| > limit)
  }

  /** One read returns the newest surviving entries older than its cursor exactly when the cursor is
      still in the log or nothing older survives; otherwise it reads as the end of the inbox. */
  lemma ReadAfterDeletions(all: seq<InboxEntry>, p: nat, before: string, snap: Snapshot, workspaceId: string, limit: nat)
    requires Places(all, p, before, [snap], workspaceId) && limit >= 1
    ensures var page := ReadInbox(LogAt(all, snap.appended, snap.deleted), workspaceId, before, limit);
            if CursorHolds(all, p, before, snap.deleted, workspaceId)
            then page == OwedPage(all, p, snap.deleted, workspaceId, limit)
            else page == InboxPage([], false) && page != OwedPage(all, p, snap.deleted, workspaceId, limit)
  {
    var deleted := snap.deleted;
    assert [snap][0] == snap;
    ScopeOfLog(all, snap.appended, workspaceId, deleted);
    NewestAreLast(all, p, workspaceId, deleted, limit);
    if before != "" {
      CursorFound(all, p, snap.appended, workspaceId, deleted);
    }
    LastWindow(Survivors(all, p, workspaceId, deleted), limit);
    LastWindow<InboxEntry>([], limit);
  }

  lemma LastWindow<T>(scoped: seq<T>, limit: nat)
    requires limit >= 1
    ensures JsSlice(scoped, 0 - limit, |scoped|) == LastN(scoped, limit)
  {
  }

  /** At each read the walk's cursor holds. */
  predicate CursorsHold(all: seq<InboxEntry>, p: nat, before: string, snaps: seq<Snapshot>, workspaceId: string, limit: nat)
    requires p <= |all| && limit >= 1
    decreases |snaps|
  {
    snaps == []
    || (&& CursorHolds(all, p, before, snaps[0].deleted, workspaceId)
        && (|Survivors(all, p, workspaceId, snaps[0].deleted)| > limit ==>
              var place := Newest(all, p, workspaceId, snaps[0].deleted, limit)[limit - 1];
              CursorsHold(all, place, all[place].id, snaps[1..], workspaceId, limit)))
  }

  /** The next place of a walk that goes on. */
  lemma PlacesNext(all: seq<InboxEntry>, p: nat, before: string, snaps: seq<Snapshot>, workspaceId: string, limit: nat)
    requires Places(all, p, before, snaps, workspaceId) && snaps != [] && p <= |all| && limit >= 1
    requires |Survivors(all, p, workspaceId, snaps[0].deleted)| > limit
    ensures var place := Newest(all, p, workspaceId, snaps[0].deleted, limit)[limit - 1];
            place < p && Places(all, place, all[place].id, snaps[1..], workspaceId) && all[place].id != ""
    ensures Logs(all, snaps)[1..] == Logs(all, snaps[1..])
  {
    NewestFacts(all, p, workspaceId, snaps[0].deleted, limit);
    hide DistinctIds, Survivors, LogAt, Newest;
  }

  /** Main result: while entries are appended and deleted between its reads, the walk returns what it
      owes, every surviving entry once and newest first, if and only if at each read its cursor is
      still in the log or nothing older survives. */
  lemma {:induction false} WalkUnderDeletionsExactly(
      all: seq<InboxEntry>, p: nat, before: string, snaps: seq<Snapshot>, workspaceId: string, limit: nat)
    requires p <= |all| && limit >= 1 && Places(all, p, before, snaps, workspaceId)
    ensures var owed := Owed(all, p, snaps, workspaceId, limit);
            Walk(Logs(all, snaps), workspaceId, before, limit) == (At(all, owed.0), owed.1)
            <==> CursorsHold(all, p, before, snaps, workspaceId, limit)
    decreases |snaps|
  {
    hide Scope, LogAt, JsSlice, Survivors, ReadInbox, DistinctIds, Places, At, Logs, Walk, Newest, CursorHolds;
    if snaps == [] {
      NothingToWalk(all, p, before, workspaceId, limit);
    } else {
      var snap := snaps[0];
      PlacesFirst(all, p, before, snaps, workspaceId);
      WalkStep(all, p, before, snaps, workspaceId, limit);
      if |Survivors(all, p, workspaceId, snap.deleted)| > limit {
        var page := Newest(all, p, workspaceId, snap.deleted, limit);
        PlacesNext(all, p, before, snaps, workspaceId, limit);
        var place := page[limit - 1];
        PlacesFit(all, place, all[place].id, snaps[1..], workspaceId);
        WalkUnderDeletionsExactly(all, place, all[place].id, snaps[1..], workspaceId, limit);
        var owed := Owed(all, place, snaps[1..], workspaceId, limit);
        AtOfConcat(all, page, owed.0);
        ConcatCancels(At(all, page), Walk(Logs(all, snaps[1..]), workspaceId, all[place].id, limit).0, At(all, owed.0));
      } else if !CursorHolds(all, p, before, snap.deleted, workspaceId) {
        assert |At(all, Newest(all, p, workspaceId, snap.deleted, limit))| > 0;
      }
    }
  }

  lemma PlacesFit(all: seq<InboxEntry>, p: nat, before: string, snaps: seq<Snapshot>, workspaceId: string)
    requires Places(all, p, before, snaps, workspaceId)
    ensures forall n :: 0 <= n < |snaps| ==> snaps[n].appended <= |all|
  {
  }

  lemma NothingToWalk(all: seq<InboxEntry>, p: nat, before: string, workspaceId: string, limit: nat)
    requires p <= |all| && limit >= 1 && Places(all, p, before, [], workspaceId)
    ensures var owed := Owed(all, p, [], workspaceId, limit);
            Walk(Logs(all, []), workspaceId, before, limit) == (At(all, owed.0), owed.1)
    ensures CursorsHold(all, p, before, [], workspaceId, limit)
  {
    assert At(all, []) == [];
  }

  lemma ConcatCancels<T>(a: seq<T>, b: seq<T>, c: seq<T>)
    ensures a + b == a + c <==> b == c
    ensures a != [] ==> a + b != []
  {
    if a + b == a + c {
      assert b == (a + b)[|a|..] && c == (a + c)[|a|..];
    }
  }

  /** The first read of a walk, and what follows it. */
  lemma WalkStep(all: seq<InboxEntry>, p: nat, before: string, snaps: seq<Snapshot>, workspaceId: string, limit: nat)
    requires p <= |all| && limit >= 1 && Places(all, p, before, snaps, workspaceId) && snaps != []
    ensures var page := Newest(all, p, workspaceId, snaps[0].deleted, limit);
            var survivors := Survivors(all, p, workspaceId, snaps[0].deleted);
            var walk := Walk(Logs(all, snaps), workspaceId, before, limit);
            if !CursorHolds(all, p, before, snaps[0].deleted, workspaceId) then walk == ([], true) && survivors != []
            else if |survivors| <= limit then walk == (At(all, page), true)
            else
              var rest := Walk(Logs(all, snaps)[1..], workspaceId, all[page[limit - 1]].id, limit);
              walk == (At(all, page) + rest.0, rest.1)
  {
    hide Scope, LogAt, JsSlice, Survivors, ReadInbox, DistinctIds, Places, Newest;
    PlacesFirst(all, p, before, snaps, workspaceId);
    ReadAfterDeletions(all, p, before, snaps[0], workspaceId, limit);
  }

  lemma PlacesFirst(all: seq<InboxEntry>, p: nat, before: string, snaps: seq<Snapshot>, workspaceId: string)
    requires Places(all, p, before, snaps, workspaceId) && snaps != []
    ensures Places(all, p, before, [snaps[0]], workspaceId)
  {
    hide DistinctIds, WithIds;
  }

  /** The same snapshot at every read. */
  function Still(snap: Snapshot, n: nat): (r: seq<Snapshot>)
    ensures |r| == n && forall i :: 0 <= i < n ==> r[i] == snap
  {
    seq(n, _ => snap)
  }

  /** After some deletions and no more changes, a walk from its last returned entry returns all the
      surviving older ones, newest first and once each, if and only if that entry is still in the log
      or none of them survives. */
  lemma DeletedCursorExactly(all: seq<InboxEntry>, p: nat, snap: Snapshot, workspaceId: string, limit: nat)
    requires p < snap.appended <= |all| && DistinctIds(all) && WithIds(all) && InScope(all[p], workspaceId) && limit >= 1
    ensures Walk(Logs(all, Still(snap, p + 1)), workspaceId, all[p].id, limit)
            == (Reverse(Survivors(all, p, workspaceId, snap.deleted)), true)
            <==> all[p].id !in snap.deleted || Survivors(all, p, workspaceId, snap.deleted) == []
  {
    hide Walk, Survivors, Newest, Logs, Scope, DistinctIds;
    var snaps := Still(snap, p + 1);
    WalkUnderDeletionsExactly(all, p, all[p].id, snaps, workspaceId, limit);
    OwedOfStill(all, p, snap, p + 1, workspaceId, limit);
    if all[p].id !in snap.deleted {
      CursorsHoldStill(all, p, snap, p + 1, workspaceId, limit);
    }
  }

  lemma StillRest(snap: Snapshot, n: nat)
    requires n > 0
    ensures Still(snap, n)[1..] == Still(snap, n - 1)
  {
  }

  lemma {:induction false} CursorsHoldStill(all: seq<InboxEntry>, p: nat, snap: Snapshot, n: nat, workspaceId: string, limit: nat)
    requires p < |all| && limit >= 1 && all[p].id !in snap.deleted
    ensures CursorsHold(all, p, all[p].id, Still(snap, n), workspaceId, limit)
    decreases n
  {
    if n > 0 {
      StillRest(snap, n);
      if |Survivors(all, p, workspaceId, snap.deleted)| > limit {
        NewestFacts(all, p, workspaceId, snap.deleted, limit);
        CursorsHoldStill(all, Newest(all, p, workspaceId, snap.deleted, limit)[limit - 1], snap, n - 1, workspaceId, limit);
      }
    }
  }

  lemma OwedStillStep(all: seq<InboxEntry>, p: nat, snap: Snapshot, n: nat, workspaceId: string, limit: nat)
    requires p <= |all| && limit >= 1 && n > 0
    ensures var page := Newest(all, p, workspaceId, snap.deleted, limit);
            Owed(all, p, Still(snap, n), workspaceId, limit)
            == if |Survivors(all, p, workspaceId, snap.deleted)| <= limit then (page, true)
               else
                 var rest := Owed(all, page[limit - 1], Still(snap, n - 1), workspaceId, limit);
                 (page + rest.0, rest.1)
  {
    hide Survivors, Newest, Still;
    StillRest(snap, n);
  }

  lemma LastThenRest<T>(survivors: seq<T>, limit: nat)
    requires limit < |survivors|
    ensures Reverse(LastN(survivors, limit)) + Reverse(survivors[..|survivors| - limit]) == Reverse(survivors)
  {
    var older := survivors[..|survivors| - limit];
    assert survivors == older + LastN(survivors, limit);
    ReverseOfConcat(older, LastN(survivors, limit));
  }

  /** With nothing changing, what is owed is exactly the survivors. */
  lemma {:induction false} OwedOfStill(all: seq<InboxEntry>, p: nat, snap: Snapshot, n: nat, workspaceId: string, limit: nat)
    requires p <= |all| && limit >= 1 && n > p
    ensures var owed := Owed(all, p, Still(snap, n), workspaceId, limit);
            owed.1 && At(all, owed.0) == Reverse(Survivors(all, p, workspaceId, snap.deleted))
    decreases p
  {
    hide Survivors, Newest, Owed, Still, At, Reverse;
    var survivors := Survivors(all, p, workspaceId, snap.deleted);
    NewestAreLast(all, p, workspaceId, snap.deleted, limit);
    OwedStillStep(all, p, snap, n, workspaceId, limit);
    if |survivors| > limit {
      var page := Newest(all, p, workspaceId, snap.deleted, limit);
      var place := page[limit - 1];
      OwedOfStill(all, place, snap, n - 1, workspaceId, limit);
      AtOfConcat(all, page, Owed(all, place, Still(snap, n - 1), workspaceId, limit).0);
      SurvivorsBelow(all, p, workspaceId, snap.deleted, limit);
      LastThenRest(survivors, limit);
    }
  }

  /** Below the last entry of a page stand exactly the survivors the page left out. */
  lemma {:induction false} SurvivorsBelow(all: seq<InboxEntry>, p: nat, workspaceId: string, deleted: set<string>, n: nat)
    requires p <= |all| && 1 <= n <= |Survivors(all, p, workspaceId, deleted)|
    ensures var r := Survivors(all, p, workspaceId, deleted);
            Survivors(all, Newest(all, p, workspaceId, deleted, n)[n - 1], workspaceId, deleted) == r[..|r| - n]
    decreases p
  {
    var older := Survivors(all, p - 1, workspaceId, deleted);
    if !Shown(all[p - 1], workspaceId, deleted) {
      SurvivorsBelow(all, p - 1, workspaceId, deleted, n);
    } else if n > 1 {
      SurvivorsBelow(all, p - 1, workspaceId, deleted, n - 1);
    } else {
      assert (older + [all[p - 1]])[..|older|] == older;
    }
  }

  // ---------------------------------------------------------------- deletes that race with appends

  /** What changes the inbox file: an append, or the rename that ends a delete whose read came after the
      first `read` changes. A delete that finds nothing renames nothing. */
  datatype Change = Appends(entry: InboxEntry) | Renames(read: nat, id: string)

  function Without(log: seq<InboxEntry>, id: string): seq<InboxEntry> {
    if log == [] then []
    else if log[|log| - 1].id == id then Without(log[..|log| - 1], id)
    else Without(log[..|log| - 1], id) + [log[|log| - 1]]
  }

  predicate Possible(changes: seq<Change>) {
    forall k :: 0 <= k < |changes| && changes[k].Renames? ==> changes[k].read <= k
  }

  /** The file after the first n changes: a rename puts in place what its delete read, less one entry. */
  function FileAfter(base: seq<InboxEntry>, changes: seq<Change>, n: nat): seq<InboxEntry>
    requires n <= |changes| && Possible(changes)
    decreases n
  {
    if n == 0 then base
    else match changes[n - 1]
      case Appends(e) => FileAfter(base, changes, n - 1) + [e]
      case Renames(read, id) => Without(FileAfter(base, changes, read), id)
  }

  /** Whether the file after n changes was built from the file change a made, following every rename back to
      its delete's read. */
  predicate OnLineage(changes: seq<Change>, n: nat, a: nat)
    requires n <= |changes| && Possible(changes)
    decreases n
  {
    n > 0
    && (if changes[n - 1].Appends? then a == n - 1 || OnLineage(changes, n - 1, a)
        else OnLineage(changes, changes[n - 1].read, a))
  }

  lemma {:induction false} WithoutMembers(log: seq<InboxEntry>, id: string, e: InboxEntry)
    ensures e in Without(log, id) <==> e in log && e.id != id
  {
    if log != [] {
      WithoutMembers(log[..|log| - 1], id, e);
      assert log == log[..|log| - 1] + [log[|log| - 1]];
    }
  }

  /** The append of an entry nobody deletes, and no other. */
  predicate AppendedOnce(base: seq<InboxEntry>, changes: seq<Change>, a: nat) {
    && a < |changes| && changes[a].Appends? && changes[a].entry !in base
    && (forall k :: 0 <= k < |changes| && k != a && changes[k].Appends? ==> changes[k].entry != changes[a].entry)
    && (forall k :: 0 <= k < |changes| && changes[k].Renames? ==> changes[k].id != changes[a].entry.id)
  }

  /** Main result: an appended entry that nobody deletes is in the file exactly when the file was built from
      the one its append made: a delete that read before the append and renamed after it loses it, and only a
      later rename whose delete had read it in between brings it back. */
  lemma {:induction false} AppendSurvivesExactly(base: seq<InboxEntry>, changes: seq<Change>, n: nat, a: nat)
    requires n <= |changes| && Possible(changes) && AppendedOnce(base, changes, a)
    ensures changes[a].entry in FileAfter(base, changes, n) <==> OnLineage(changes, n, a)
    decreases n
  {
    if n > 0 {
      match changes[n - 1]
      case Appends(e) => AppendSurvivesExactly(base, changes, n - 1, a);
      case Renames(read, id) =>
        AppendSurvivesExactly(base, changes, read, a);
        WithoutMembers(FileAfter(base, changes, read), id, changes[a].entry);
    }
  }

  /** Deletes that do not overlap each other: each reads after the renames before its own. */
  predicate DeletesInTurn(changes: seq<Change>) {
    forall i, k :: 0 <= i < k < |changes| && changes[i].Renames? && changes[k].Renames? ==> changes[k].read > i
  }

  /** A delete read before change a and renamed after it. */
  predicate Straddled(changes: seq<Change>, n: nat, a: nat)
    requires n <= |changes|
  {
    exists k :: a < k < n && changes[k].Renames? && changes[k].read <= a
  }

  lemma {:induction false} LineageInTurn(changes: seq<Change>, n: nat, a: nat)
    requires n <= |changes| && Possible(changes) && DeletesInTurn(changes) && a < |changes| && changes[a].Appends?
    ensures OnLineage(changes, n, a) <==> a < n && !Straddled(changes, n, a)
    decreases n
  {
    if n > 0 {
      if changes[n - 1].Appends? {
        LineageInTurn(changes, n - 1, a);
      } else {
        LineageInTurn(changes, changes[n - 1].read, a);
        StraddledInTurn(changes, n, a);
      }
    }
  }

  lemma StraddledInTurn(changes: seq<Change>, n: nat, a: nat)
    requires 0 < n <= |changes| && Possible(changes) && DeletesInTurn(changes) && changes[n - 1].Renames?
    requires a < |changes| && changes[a].Appends?
    ensures a < n && !Straddled(changes, n, a) <==> a < changes[n - 1].read && !Straddled(changes, changes[n - 1].read, a)
  {
    if a < n && !Straddled(changes, n, a) {
      assert changes[n - 1].read > a;
    }
  }

  /** With deletes in turn: the entry is lost exactly when a delete read before its append and renamed after. */
  lemma AppendLostExactly(base: seq<InboxEntry>, changes: seq<Change>, a: nat)
    requires Possible(changes) && AppendedOnce(base, changes, a) && DeletesInTurn(changes)
    ensures changes[a].entry !in FileAfter(base, changes, |changes|) <==> Straddled(changes, |changes|, a)
  {
    AppendSurvivesExactly(base, changes, |changes|, a);
    LineageInTurn(changes, |changes|, a);
  }
}
