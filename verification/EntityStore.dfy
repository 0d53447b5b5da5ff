// The durable entity store: concurrent upserts and deletes go through a promise
// queue around read, modify, write tmp, rename. Modelled as interleaved steps over
// a shared file and a shared tmp file, and proved to behave like the in-memory Map
// store run in call order.
module EntityStores {
  import opened Common
  import opened Text

  datatype EntityType = Asset | Topic
  datatype EntityInput = EntityInput(name: string, description: string, kind: EntityType)
  datatype Entity = Entity(name: string, description: string, kind: EntityType, createdAt: int)
  datatype Call = Upsert(input: EntityInput) | Delete(name: string)
  datatype Reply = Upserted(entity: Entity) | Removed(found: bool) | Failed

  /** Case-insensitive identity of a name. */
  function KeyOf(name: string): string {
    Lower(Trim(name))
  }

  predicate Validates(input: EntityInput) {
    var name := Trim(input.name);
    && name != []
    && (forall c :: c in name ==> !IsSpace(c))
    && Trim(input.description) != []
  }

  function Made(input: EntityInput, createdAt: int): Entity {
    Entity(Trim(input.name), Trim(input.description), input.kind, createdAt)
  }

  /** Names that differ at most in white space around them and in the case of ASCII letters. */
  predicate SameName(a: string, b: string) {
    && |Trim(a)| == |Trim(b)|
    && forall i :: 0 <= i < |Trim(a)| ==> SameLetter(Trim(a)[i], Trim(b)[i])
  }

  lemma SameKeyExactly(a: string, b: string)
    ensures KeyOf(a) == KeyOf(b) <==> SameName(a, b)
  {
    SameLowerExactly(Trim(a), Trim(b));
  }

  /** The characters i..j are no spaces and all the others are. */
  predicate OneWord(s: string, i: nat, j: nat) {
    i < j <= |s| && forall k :: 0 <= k < |s| ==> (IsSpace(s[k]) <==> !(i <= k < j))
  }

  /** An upsert is accepted exactly when its name is one word and its description is not blank. */
  lemma ValidatesExactly(input: EntityInput)
    ensures Validates(input) <==>
            && (exists i: nat, j: nat :: OneWord(input.name, i, j))
            && exists k :: 0 <= k < |input.description| && !IsSpace(input.description[k])
  {
    var s := input.name;
    TrimOfBlank(input.description);
    var a, b := TrimStrips(s);
    hide IsSpace, Trim;
    if Validates(input) {
      forall k | a <= k < b
        ensures !IsSpace(s[k])
      {
        assert s[k] == s[a..b][k - a];
      }
      assert OneWord(s, a, b);
    }
    if i: nat, j: nat :| OneWord(s, i, j) {
      assert s[i..j][0] == s[i] && s[i..j][j - i - 1] == s[j - 1];
      TrimExactly(s, i, j);
      assert forall c :: c in s[i..j] ==> !IsSpace(c);
    }
  }

  lemma MadeKeepsKey(input: EntityInput, createdAt: int)
    ensures KeyOf(Made(input, createdAt).name) == KeyOf(input.name)
  {
    TrimIdempotent(input.name);
  }

  // ---------------------------------------------------------------- the in-memory Map store

  /** A JavaScript Map: values by key, keys in insertion order. */
  datatype Table = Table(keys: seq<string>, byKey: map<string, Entity>)

  predicate WellKeyed(t: Table) {
    && Distinct(t.keys)
    && (forall i :: 0 <= i < |t.keys| ==> t.keys[i] in t.byKey)
    && (forall k :: k in t.byKey ==> k in t.keys && KeyOf(t.byKey[k].name) == k)
  }

  function MapApply(t: Table, c: Call, now: int): (Table, Reply) {
    match c
    case Upsert(input) =>
      var k := KeyOf(input.name);
      var e := Made(input, if k in t.byKey then t.byKey[k].createdAt else now);
      (Table(if k in t.byKey then t.keys else t.keys + [k], t.byKey[k := e]), Upserted(e))
    case Delete(name) =>
      var k := KeyOf(name);
      if k in t.byKey then (Table(WithoutKey(t.keys, k), t.byKey - {k}), Removed(true)) else (t, Removed(false))
  }

  function WithoutKey(keys: seq<string>, k: string): seq<string> {
    if keys == [] then []
    else WithoutKey(keys[..|keys| - 1], k) + (if keys[|keys| - 1] != k then [keys[|keys| - 1]] else [])
  }

  class MemoryEntityStore {
    var keys: seq<string>
    var byKey: map<string, Entity>

    function Contents(): Table
      reads this
    {
      Table(keys, byKey)
    }

    constructor ()
      ensures Contents() == Table([], map[]) && WellKeyed(Contents())
    {
      keys, byKey := [], map[];
    }

    method UpsertEntity(input: EntityInput, now: int) returns (r: Result<Entity, string>)
      requires WellKeyed(Contents())
      modifies this
      ensures WellKeyed(Contents())
      ensures r.Ok? <==> Validates(input)
      ensures r.Err? ==> Contents() == old(Contents())
      ensures r.Ok? ==> (Contents(), Upserted(r.value)) == MapApply(old(Contents()), Upsert(input), now)
      ensures r.Ok? ==> r.value == Entity(Trim(input.name), Trim(input.description), input.kind, r.value.createdAt)
      ensures r.Ok? ==> Upserts(old(Values(Contents())), input.name, now, r.value, Values(Contents()))
    {
      if !Validates(input) {
        return Err("EntityStore.upsert: invalid input");
      }
      FileApplyRefines(Contents(), Upsert(input), now);
      UpsertExactly(Values(Contents()), input, now);
      var k := KeyOf(input.name);
      var createdAt := if k in byKey then byKey[k].createdAt else now;
      var entity := Made(input, createdAt);
      if k !in byKey {
        keys := keys + [k];
      }
      byKey := byKey[k := entity];
      r := Ok(entity);
    }

    method DeleteEntity(name: string) returns (removed: bool)
      requires WellKeyed(Contents())
      modifies this
      ensures WellKeyed(Contents())
      ensures (Contents(), Removed(removed)) == MapApply(old(Contents()), Delete(name), 0)
      ensures Deleted(old(Values(Contents())), name, removed, Values(Contents()))
    {
      FileApplyRefines(Contents(), Delete(name), 0);
      TableNamesDiffer(Contents());
      DeleteExactly(Values(Contents()), name, 0);
      var k := KeyOf(name);
      removed := k in byKey;
      if removed {
        keys := WithoutKey(keys, k);
        byKey := byKey - {k};
      }
    }

    method Get(name: string) returns (e: Option<Entity>)
      requires WellKeyed(Contents())
      ensures e == Find(Values(Contents()), KeyOf(name))
      ensures e.Some? ==> e.value in Values(Contents()) && SameName(e.value.name, name)
      ensures e.None? ==> forall row :: row in Values(Contents()) ==> !SameName(row.name, name)
    {
      FindInValues(Contents(), KeyOf(name));
      forall row | row in Values(Contents())
        ensures SameName(row.name, name) <==> KeyOf(row.name) == KeyOf(name)
      {
        SameKeyExactly(row.name, name);
      }
      var k := KeyOf(name);
      e := if k in byKey then Some(byKey[k]) else None;
    }
  }

  // ---------------------------------------------------------------- the file's rows

  function Find(rows: seq<Entity>, k: string): Option<Entity> {
    var i := IndexOf(rows, k);
    if i < |rows| then Some(rows[i]) else None
  }

  /** findIndex by key; the length when there is none. */
  function IndexOf(rows: seq<Entity>, k: string): (i: nat)
    ensures i <= |rows|
    ensures i < |rows| ==> KeyOf(rows[i].name) == k
    ensures forall j :: 0 <= j < i ==> KeyOf(rows[j].name) != k
  {
    if rows == [] || KeyOf(rows[0].name) == k then 0 else 1 + IndexOf(rows[1..], k)
  }

  function WithoutRow(rows: seq<Entity>, k: string): seq<Entity> {
    if rows == [] then []
    else WithoutRow(rows[..|rows| - 1], k) + (if KeyOf(rows[|rows| - 1].name) != k then [rows[|rows| - 1]] else [])
  }

  /** The read-modify part of an operation, on the rows just read. */
  function FileApply(rows: seq<Entity>, c: Call, now: int): (seq<Entity>, Reply) {
    match c
    case Upsert(input) =>
      var i := IndexOf(rows, KeyOf(input.name));
      var e := Made(input, if i < |rows| then rows[i].createdAt else now);
      (if i < |rows| then rows[i := e] else rows + [e], Upserted(e))
    case Delete(name) =>
      var next := WithoutRow(rows, KeyOf(name));
      (next, Removed(|next| != |rows|))
  }

  /** The table's entities in insertion order. */
  function Values(t: Table): (r: seq<Entity>)
    requires WellKeyed(t)
    ensures |r| == |t.keys|
    ensures forall i :: 0 <= i < |r| ==> r[i] == t.byKey[t.keys[i]]
  {
    seq(|t.keys|, i requires 0 <= i < |t.keys| => t.byKey[t.keys[i]])
  }

  lemma FindInValues(t: Table, k: string)
    requires WellKeyed(t)
    ensures Find(Values(t), k) == if k in t.byKey then Some(t.byKey[k]) else None
    ensures IndexOf(Values(t), k) < |t.keys| <==> k in t.byKey
    ensures k in t.byKey ==> t.keys[IndexOf(Values(t), k)] == k
  {
    var rows := Values(t);
    var i := IndexOf(rows, k);
    if i < |rows| {
      assert t.keys[i] in t.byKey && KeyOf(rows[i].name) == t.keys[i];
    }
    if k in t.byKey {
      var j :| 0 <= j < |t.keys| && t.keys[j] == k;
      assert KeyOf(rows[j].name) == k && i <= j;
    }
  }

  lemma {:induction false} WithoutKeyMembers(keys: seq<string>, k: string)
    requires Distinct(keys)
    ensures Distinct(WithoutKey(keys, k))
    ensures forall x :: x in WithoutKey(keys, k) <==> x in keys && x != k
  {
    if keys != [] {
      var init, last := keys[..|keys| - 1], keys[|keys| - 1];
      WithoutKeyMembers(init, k);
      assert keys == init + [last];
      assert last !in init;
    }
  }

  lemma MapApplyKeeps(t: Table, c: Call, now: int)
    requires WellKeyed(t)
    ensures WellKeyed(MapApply(t, c, now).0)
  {
    match c
    case Upsert(input) =>
      var k := KeyOf(input.name);
      MadeKeepsKey(input, if k in t.byKey then t.byKey[k].createdAt else now);
    case Delete(name) =>
      WithoutKeyMembers(t.keys, KeyOf(name));
      var u := MapApply(t, c, now).0;
      forall i | 0 <= i < |u.keys|
        ensures u.keys[i] in u.byKey
      {
        assert u.keys[i] in u.keys;
      }
  }

  /** Filtering the rows by key is deleting the key from the map. */
  lemma {:induction false} WithoutRowIsWithoutKey(keys: seq<string>, rows: seq<Entity>, byKey: map<string, Entity>, k: string)
    requires |keys| == |rows|
    requires forall i :: 0 <= i < |keys| ==> keys[i] in byKey && rows[i] == byKey[keys[i]] && KeyOf(rows[i].name) == keys[i]
    ensures |WithoutRow(rows, k)| == |WithoutKey(keys, k)|
    ensures forall i :: 0 <= i < |WithoutKey(keys, k)| ==>
              && WithoutKey(keys, k)[i] in byKey && WithoutKey(keys, k)[i] != k
              && WithoutRow(rows, k)[i] == byKey[WithoutKey(keys, k)[i]]
  {
    if keys != [] {
      WithoutRowIsWithoutKey(keys[..|keys| - 1], rows[..|rows| - 1], byKey, k);
    }
  }

  lemma UpsertRefines(t: Table, input: EntityInput, now: int)
    requires WellKeyed(t) && WellKeyed(MapApply(t, Upsert(input), now).0)
    ensures FileApply(Values(t), Upsert(input), now)
            == (Values(MapApply(t, Upsert(input), now).0), MapApply(t, Upsert(input), now).1)
  {
    var k := KeyOf(input.name);
    FindInValues(t, k);
    hide KeyOf, Made, IndexOf, WellKeyed;
    var u := MapApply(t, Upsert(input), now).0;
    if k in t.byKey {
      ValuesReplaced(t, u, k, IndexOf(Values(t), k));
    } else {
      ValuesAdded(t, u, k);
    }
  }

  lemma ValuesReplaced(t: Table, u: Table, k: string, i: nat)
    requires WellKeyed(t) && WellKeyed(u) && k in t.byKey && k in u.byKey
    requires u.keys == t.keys && u.byKey == t.byKey[k := u.byKey[k]] && i < |t.keys| && t.keys[i] == k
    ensures Values(u) == Values(t)[i := u.byKey[k]] && Values(t)[i] == t.byKey[k]
  {
    assert forall j :: 0 <= j < |t.keys| && j != i ==> t.keys[j] != k;
    hide WellKeyed;
  }

  lemma ValuesAdded(t: Table, u: Table, k: string)
    requires WellKeyed(t) && WellKeyed(u) && k !in t.byKey && k in u.byKey
    requires u.keys == t.keys + [k] && u.byKey == t.byKey[k := u.byKey[k]]
    ensures Values(u) == Values(t) + [u.byKey[k]]
  {
    assert forall j :: 0 <= j < |t.keys| ==> t.keys[j] in t.byKey;
    hide WellKeyed;
  }

  lemma {:induction false} WithoutKeyCount(keys: seq<string>, k: string)
    ensures k !in keys ==> WithoutKey(keys, k) == keys
    ensures k in keys ==> |WithoutKey(keys, k)| < |keys|
  {
    if keys != [] {
      var init, last := keys[..|keys| - 1], keys[|keys| - 1];
      WithoutKeyCount(init, k);
      assert keys == init + [last];
    }
  }

  lemma ValuesWithout(t: Table, u: Table, k: string)
    requires WellKeyed(t) && WellKeyed(u) && u == Table(WithoutKey(t.keys, k), t.byKey - {k})
    ensures WithoutRow(Values(t), k) == Values(u)
  {
    WithoutRowIsWithoutKey(t.keys, Values(t), t.byKey, k);
    hide KeyOf, WithoutKey, WithoutRow, WellKeyed;
  }

  lemma NothingToDelete(t: Table, k: string)
    requires WellKeyed(t) && k !in t.byKey
    ensures WithoutRow(Values(t), k) == Values(t)
  {
    WithoutRowIsWithoutKey(t.keys, Values(t), t.byKey, k);
    WithoutKeyCount(t.keys, k);
    hide KeyOf, WithoutKey, WithoutRow;
    assert k !in t.keys;
  }

  lemma SomethingToDelete(t: Table, k: string)
    requires WellKeyed(t) && k in t.byKey
    ensures |WithoutRow(Values(t), k)| < |Values(t)|
  {
    WithoutRowIsWithoutKey(t.keys, Values(t), t.byKey, k);
    WithoutKeyCount(t.keys, k);
    hide KeyOf, WithoutKey, WithoutRow;
  }

  lemma DeleteRefines(t: Table, name: string, now: int)
    requires WellKeyed(t) && WellKeyed(MapApply(t, Delete(name), now).0)
    ensures FileApply(Values(t), Delete(name), now)
            == (Values(MapApply(t, Delete(name), now).0), MapApply(t, Delete(name), now).1)
  {
    hide KeyOf, WithoutKey, WithoutRow, WellKeyed;
    var k := KeyOf(name);
    if k in t.byKey {
      SomethingToDelete(t, k);
      ValuesWithout(t, MapApply(t, Delete(name), now).0, k);
    } else {
      NothingToDelete(t, k);
    }
  }

  /** One operation on the file's rows is the Map operation, reply included. */
  lemma FileApplyRefines(t: Table, c: Call, now: int)
    requires WellKeyed(t)
    ensures WellKeyed(MapApply(t, c, now).0)
    ensures FileApply(Values(t), c, now) == (Values(MapApply(t, c, now).0), MapApply(t, c, now).1)
  {
    MapApplyKeeps(t, c, now);
    match c
    case Upsert(input) => UpsertRefines(t, input, now);
    case Delete(name) => DeleteRefines(t, name, now);
  }

  /** What an upsert of a name does to the rows: the first row of the same name is replaced in its place
      and keeps its creation time, otherwise the entity is a new last row created now. */
  predicate Upserts(rows: seq<Entity>, name: string, now: int, e: Entity, next: seq<Entity>) {
    && (forall i :: 0 <= i < |rows| && SameName(rows[i].name, name) && (forall j :: 0 <= j < i ==> !SameName(rows[j].name, name)) ==>
          next == rows[i := e] && e.createdAt == rows[i].createdAt)
    && ((forall i :: 0 <= i < |rows| ==> !SameName(rows[i].name, name)) ==>
          next == rows + [e] && e.createdAt == now)
  }

  lemma UpsertExactly(rows: seq<Entity>, input: EntityInput, now: int)
    ensures var (next, reply) := FileApply(rows, Upsert(input), now);
            && reply.Upserted?
            && reply.entity == Entity(Trim(input.name), Trim(input.description), input.kind, reply.entity.createdAt)
            && Upserts(rows, input.name, now, reply.entity, next)
  {
    forall i | 0 <= i < |rows|
      ensures SameName(rows[i].name, input.name) <==> KeyOf(rows[i].name) == KeyOf(input.name)
    {
      SameKeyExactly(rows[i].name, input.name);
    }
    hide SameName, KeyOf;
  }

  /** What a delete of a name does to rows of distinct names: it takes out the one row of that name. */
  predicate Deleted(rows: seq<Entity>, name: string, found: bool, next: seq<Entity>) {
    && (forall i :: 0 <= i < |rows| && SameName(rows[i].name, name) ==> found && next == rows[..i] + rows[i + 1..])
    && ((forall i :: 0 <= i < |rows| ==> !SameName(rows[i].name, name)) ==> !found && next == rows)
  }

  lemma {:induction false} WithoutRowOfOthers(rows: seq<Entity>, k: string)
    requires forall row :: row in rows ==> KeyOf(row.name) != k
    ensures WithoutRow(rows, k) == rows
  {
    if rows != [] {
      WithoutRowOfOthers(rows[..|rows| - 1], k);
      assert rows[|rows| - 1] in rows;
      SplitLast(rows);
    }
  }

  lemma {:induction false} WithoutRowOfOne(rows: seq<Entity>, k: string, i: nat)
    requires i < |rows| && KeyOf(rows[i].name) == k
    requires forall j :: 0 <= j < |rows| && j != i ==> KeyOf(rows[j].name) != k
    ensures WithoutRow(rows, k) == rows[..i] + rows[i + 1..]
  {
    hide KeyOf;
    var init, last := rows[..|rows| - 1], rows[|rows| - 1];
    if i == |rows| - 1 {
      WithoutRowOfOthers(init, k);
    } else {
      WithoutRowOfOne(init, k, i);
      assert rows[i + 1..] == init[i + 1..] + [last];
    }
  }

  lemma DeletedOne(rows: seq<Entity>, name: string, i: nat)
    requires i < |rows| && SameName(rows[i].name, name)
    requires forall j :: 0 <= j < |rows| && j != i ==> !SameName(rows[j].name, name)
    ensures Deleted(rows, name, true, WithoutRow(rows, KeyOf(name)))
    ensures |WithoutRow(rows, KeyOf(name))| == |rows| - 1
  {
    forall j | 0 <= j < |rows|
      ensures SameName(rows[j].name, name) <==> KeyOf(rows[j].name) == KeyOf(name)
    {
      SameKeyExactly(rows[j].name, name);
    }
    WithoutRowOfOne(rows, KeyOf(name), i);
    hide SameName, KeyOf, WithoutRow;
  }

  lemma DeletedNone(rows: seq<Entity>, name: string)
    requires forall j :: 0 <= j < |rows| ==> !SameName(rows[j].name, name)
    ensures WithoutRow(rows, KeyOf(name)) == rows
  {
    forall row | row in rows
      ensures KeyOf(row.name) != KeyOf(name)
    {
      SameKeyExactly(row.name, name);
    }
    WithoutRowOfOthers(rows, KeyOf(name));
  }

  /** Rows no two of which have the same name. */
  predicate NamesDiffer(rows: seq<Entity>) {
    forall i, j :: 0 <= i < j < |rows| ==> !SameName(rows[i].name, rows[j].name)
  }

  lemma TableNamesDiffer(t: Table)
    requires WellKeyed(t)
    ensures NamesDiffer(Values(t))
  {
    var rows := Values(t);
    hide KeyOf, SameName;
    forall i, j | 0 <= i < j < |rows|
      ensures !SameName(rows[i].name, rows[j].name)
    {
      SameKeyExactly(rows[i].name, rows[j].name);
      assert KeyOf(rows[i].name) == t.keys[i] && KeyOf(rows[j].name) == t.keys[j];
    }
  }

  /** Sameness of names is that of their keys, so it is transitive. */
  lemma SameNameIsTransitive(a: string, b: string, c: string)
    requires SameName(a, c) && SameName(b, c)
    ensures SameName(a, b)
  {
    SameKeyExactly(a, c);
    SameKeyExactly(b, c);
    SameKeyExactly(a, b);
  }

  /** The file's read-modify of a delete, on rows of distinct names. */
  lemma DeleteExactly(rows: seq<Entity>, name: string, now: int)
    requires NamesDiffer(rows)
    ensures var (next, reply) := FileApply(rows, Delete(name), now);
            reply.Removed? && Deleted(rows, name, reply.found, next)
  {
    hide SameName, KeyOf, WithoutRow;
    if i :| 0 <= i < |rows| && SameName(rows[i].name, name) {
      forall j | 0 <= j < |rows| && j != i
        ensures !SameName(rows[j].name, name)
      {
        if SameName(rows[j].name, name) {
          SameNameIsTransitive(rows[i].name, rows[j].name, name);
          SameNameIsTransitive(rows[j].name, rows[i].name, name);
        }
      }
      DeletedOne(rows, name, i);
    } else {
      DeletedNone(rows, name);
    }
  }

  // ---------------------------------------------------------------- interleaved operations

  /** A line of the file; a malformed one is skipped by every read. */
  datatype Line = Row(entity: Entity) | Malformed

  function Rows(file: Option<seq<Line>>): seq<Entity> {
    if file.None? then [] else RowsOf(file.value)
  }

  function RowsOf(lines: seq<Line>): seq<Entity> {
    if lines == [] then []
    else RowsOf(lines[..|lines| - 1]) + (if lines[|lines| - 1].Row? then [lines[|lines| - 1].entity] else [])
  }

  function AsLines(rows: seq<Entity>): (r: seq<Line>)
    ensures |r| == |rows|
  {
    seq(|rows|, i requires 0 <= i < |rows| => Row(rows[i]))
  }

  lemma {:induction false} RowsOfAsLines(rows: seq<Entity>)
    ensures RowsOf(AsLines(rows)) == rows
  {
    if rows != [] {
      RowsOfAsLines(rows[..|rows| - 1]);
      assert AsLines(rows)[..|rows| - 1] == AsLines(rows[..|rows| - 1]);
    }
  }

  /** Where an operation is between its awaits. `at` is Date.now() when it ran. */
  datatype Phase =
    | Queued
    | Loaded(next: seq<Entity>, reply: Reply, at: int)
    | Staged(reply: Reply, at: int)
    | Settled(reply: Reply, at: int)

  datatype Op = Op(call: Call, phase: Phase)

  /** The store: the file, the one tmp path, and the chain of operation promises in call order. */
  datatype Store = Store(file: Option<seq<Line>>, tmp: seq<Line>, ops: seq<Op>, changed: nat)

  /** `fails` is an I/O error; `torn` is what a failed tmp write left behind. */
  datatype Event =
    | Invoke(call: Call)
    | Load(i: nat, now: int, fails: bool)
    | Stage(i: nat, fails: bool, torn: seq<Line>)
    | Rename(i: nat, fails: bool)

  /** `writeTail.then(op, op)`: an operation starts once the one before it has settled either way. */
  predicate MayStart(ops: seq<Op>, i: nat) {
    i < |ops| && ops[i].phase.Queued? && (i == 0 || ops[i - 1].phase.Settled?)
  }

  function At(s: Store, i: nat, phase: Phase): Store
    requires i < |s.ops|
  {
    s.(ops := s.ops[i := s.ops[i].(phase := phase)])
  }

  function Step(s: Store, e: Event): Store {
    match e
    case Invoke(call) =>
      if call.Upsert? && !Validates(call.input) then s else s.(ops := s.ops + [Op(call, Queued)])
    case Load(i, now, fails) =>
      if !MayStart(s.ops, i) then s
      else if fails then At(s, i, Settled(Failed, now))
      else
        var (next, reply) := FileApply(Rows(s.file), s.ops[i].call, now);
        if reply == Removed(false) then At(s, i, Settled(reply, now)) else At(s, i, Loaded(next, reply, now))
    case Stage(i, fails, torn) =>
      if i >= |s.ops| || !s.ops[i].phase.Loaded? then s
      else if fails then At(s, i, Settled(Failed, s.ops[i].phase.at)).(tmp := torn)
      else At(s, i, Staged(s.ops[i].phase.reply, s.ops[i].phase.at)).(tmp := AsLines(s.ops[i].phase.next))
    case Rename(i, fails) =>
      if i >= |s.ops| || !s.ops[i].phase.Staged? then s
      else if fails then At(s, i, Settled(Failed, s.ops[i].phase.at))
      else At(s, i, Settled(s.ops[i].phase.reply, s.ops[i].phase.at)).(file := Some(s.tmp), changed := s.changed + 1)
  }

  function Run(s: Store, events: seq<Event>): Store {
    if events == [] then s else Step(Run(s, events[..|events| - 1]), events[|events| - 1])
  }

  /** The Map store after the settled, non-failed operations of ops, in call order. */
  function Replayed(t: Table, ops: seq<Op>): Table {
    if ops == [] then t
    else
      var before, op := Replayed(t, ops[..|ops| - 1]), ops[|ops| - 1];
      if op.phase.Settled? && op.phase.reply != Failed then MapApply(before, op.call, op.phase.at).0 else before
  }

  /** Every settled operation answered its caller as the Map store would have, or failed. */
  predicate RepliesAgree(t: Table, ops: seq<Op>) {
    forall i :: 0 <= i < |ops| && ops[i].phase.Settled? ==>
      ops[i].phase.reply == Failed
      || ops[i].phase.reply == MapApply(Replayed(t, ops[..i]), ops[i].call, ops[i].phase.at).1
  }

  /** Operations before k have settled, those after k have not begun: at most one is under way. */
  predicate InOrder(ops: seq<Op>, k: nat) {
    && k <= |ops|
    && (forall i :: 0 <= i < k ==> ops[i].phase.Settled?)
    && (forall i :: k < i < |ops| ==> ops[i].phase.Queued?)
    && (k < |ops| ==> !ops[k].phase.Settled?)
  }

  /** What the operation under way holds, and the tmp file once it has been written. */
  predicate ActiveIsCurrent(s: Store, k: nat) {
    k < |s.ops| ==>
      match s.ops[k].phase
      case Loaded(next, reply, at) => (next, reply) == FileApply(Rows(s.file), s.ops[k].call, at) && reply != Failed
      case Staged(reply, at) =>
        (RowsOf(s.tmp), reply) == FileApply(Rows(s.file), s.ops[k].call, at) && reply != Failed
        && s.tmp == AsLines(RowsOf(s.tmp))
      case _ => true
  }

  /** The file is the Map store run in call order over the operations that did not fail. */
  predicate Inv(s: Store, t: Table, k: nat) {
    && InOrder(s.ops, k)
    && ActiveIsCurrent(s, k)
    && WellKeyed(Replayed(t, s.ops[..k]))
    && Rows(s.file) == Values(Replayed(t, s.ops[..k]))
    && RepliesAgree(t, s.ops[..k])
    && (s.changed > 0 ==> s.file == Some(AsLines(Rows(s.file))))
  }

  /** The operation's effect and answer, as the Map store has them after the operations before it. */
  predicate Answers(t: Table, ops: seq<Op>, k: nat, reply: Reply, at: int)
    requires k < |ops|
  {
    reply == Failed || reply == MapApply(Replayed(t, ops[..k]), ops[k].call, at).1
  }

  lemma Settles(s: Store, t: Table, k: nat, reply: Reply, at: int)
    requires Inv(s, t, k) && k < |s.ops| && Answers(t, s.ops, k, reply, at)
    ensures var ops := At(s, k, Settled(reply, at)).ops;
            && InOrder(ops, k + 1)
            && Replayed(t, ops[..k + 1])
               == (if reply != Failed then MapApply(Replayed(t, s.ops[..k]), s.ops[k].call, at).0 else Replayed(t, s.ops[..k]))
            && RepliesAgree(t, ops[..k + 1])
  {
    hide MapApply, FileApply, Rows, RowsOf, WellKeyed;
    var ops := At(s, k, Settled(reply, at)).ops;
    var done := ops[..k + 1];
    assert done[..k] == s.ops[..k];
    forall i | 0 <= i < k
      ensures done[i] == s.ops[..k][i] && done[..i] == s.ops[..k][..i]
    {
    }
  }

  /** An operation that fails, or finds nothing to delete, settles without touching the file. */
  lemma SettlesQuietly(s: Store, t: Table, k: nat, reply: Reply, at: int)
    requires Inv(s, t, k) && k < |s.ops| && Answers(t, s.ops, k, reply, at)
    requires reply == Failed || reply == Removed(false)
    ensures forall tmp :: Inv(At(s, k, Settled(reply, at)).(tmp := tmp), t, k + 1)
  {
    Settles(s, t, k, reply, at);
    hide RowsOf, AsLines, Rows, WellKeyed, Replayed;
  }

  /** An operation that moves on without settling leaves the order and the file alone. */
  lemma Begins(s: Store, t: Table, k: nat, out: Store)
    requires Inv(s, t, k) && k < |s.ops|
    requires exists phase: Phase :: !phase.Settled? && out.ops == s.ops[k := s.ops[k].(phase := phase)]
    requires out.file == s.file && out.changed == s.changed && ActiveIsCurrent(out, k)
    ensures Inv(out, t, k)
  {
    hide MapApply, RowsOf, WellKeyed, Replayed, AsLines, FileApply, Rows;
    assert out.ops[..k] == s.ops[..k];
  }

  lemma LoadKeeps(s: Store, t: Table, k: nat, i: nat, now: int, fails: bool) returns (k': nat)
    requires Inv(s, t, k)
    ensures Inv(Step(s, Load(i, now, fails)), t, k')
  {
    k' := k;
    if MayStart(s.ops, i) {
      assert i == k;
      FileApplyRefines(Replayed(t, s.ops[..k]), s.ops[k].call, now);
      hide MapApply, RowsOf, WellKeyed, Replayed, AsLines, FileApply, Rows;
      var reply := FileApply(Rows(s.file), s.ops[k].call, now).1;
      if fails {
        k' := k + 1;
        SettlesQuietly(s, t, k, Failed, now);
      } else if reply == Removed(false) {
        k' := k + 1;
        SettlesQuietly(s, t, k, reply, now);
      } else {
        NeverFails(Rows(s.file), s.ops[k].call, now);
        Begins(s, t, k, Step(s, Load(i, now, fails)));
      }
    }
  }

  lemma NeverFails(rows: seq<Entity>, c: Call, now: int)
    ensures FileApply(rows, c, now).1 != Failed
  {
  }

  lemma StageKeeps(s: Store, t: Table, k: nat, i: nat, fails: bool, torn: seq<Line>) returns (k': nat)
    requires Inv(s, t, k)
    ensures Inv(Step(s, Stage(i, fails, torn)), t, k')
  {
    k' := k;
    if i < |s.ops| && s.ops[i].phase.Loaded? {
      assert i == k;
      if fails {
        k' := k + 1;
        SettlesQuietly(s, t, k, Failed, s.ops[k].phase.at);
      } else {
        RowsOfAsLines(s.ops[k].phase.next);
        Begins(s, t, k, Step(s, Stage(i, fails, torn)));
      }
    }
  }

  lemma RenameKeeps(s: Store, t: Table, k: nat, i: nat, fails: bool) returns (k': nat)
    requires Inv(s, t, k)
    ensures Inv(Step(s, Rename(i, fails)), t, k')
  {
    k' := k;
    if i < |s.ops| && s.ops[i].phase.Staged? {
      assert i == k;
      k' := k + 1;
      var phase := s.ops[k].phase;
      if fails {
        SettlesQuietly(s, t, k, Failed, phase.at);
      } else {
        FileApplyRefines(Replayed(t, s.ops[..k]), s.ops[k].call, phase.at);
        Settles(s, t, k, phase.reply, phase.at);
        hide MapApply, FileApply, Replayed, WellKeyed, RowsOf, AsLines;
        assert Rows(Some(s.tmp)) == RowsOf(s.tmp);
      }
    }
  }

  lemma StepKeeps(s: Store, t: Table, k: nat, e: Event) returns (k': nat)
    requires Inv(s, t, k)
    ensures Inv(Step(s, e), t, k')
  {
    match e
    case Invoke(call) =>
      k' := k;
      assert Step(s, e).ops[..k] == s.ops[..k];
    case Load(i, now, fails) => k' := LoadKeeps(s, t, k, i, now, fails);
    case Stage(i, fails, torn) => k' := StageKeeps(s, t, k, i, fails, torn);
    case Rename(i, fails) => k' := RenameKeeps(s, t, k, i, fails);
  }

  /** A call waits behind all the others; an upsert that is no valid one is refused outright. */
  lemma InvokeExactly(s: Store, c: Call)
    ensures Step(s, Invoke(c)) ==
            if c.Delete? || Validates(c.input) then s.(ops := s.ops + [Op(c, Queued)]) else s
  {
  }

  /** Once the calls before it have settled, a call runs to its end when no step of it fails: it is answered
      as the Map store answers, the file is what the Map store then holds, and a change is signalled once
      unless there was nothing to delete. */
  lemma NextCallSettles(s: Store, t: Table, k: nat, now: int)
    requires Inv(s, t, k) && k < |s.ops| && s.ops[k].phase.Queued?
    ensures var u := Step(Step(Step(s, Load(k, now, false)), Stage(k, false, [])), Rename(k, false));
            var (table, reply) := MapApply(Replayed(t, s.ops[..k]), s.ops[k].call, now);
            && u.ops == s.ops[k := Op(s.ops[k].call, Settled(reply, now))]
            && WellKeyed(table) && Rows(u.file) == Values(table)
            && u.changed == if reply == Removed(false) then s.changed else s.changed + 1
  {
    FileApplyRefines(Replayed(t, s.ops[..k]), s.ops[k].call, now);
    hide MapApply, RowsOf, WellKeyed, Replayed, FileApply;
    var (next, reply) := FileApply(Rows(s.file), s.ops[k].call, now);
    NeverFails(Rows(s.file), s.ops[k].call, now);
    RowsOfAsLines(next);
    if reply == Removed(false) {
      NothingRemoved(Rows(s.file), s.ops[k].call, now);
    }
  }

  lemma {:induction false} WithoutRowShrinks(rows: seq<Entity>, k: string)
    ensures |WithoutRow(rows, k)| <= |rows|
    ensures |WithoutRow(rows, k)| == |rows| ==> WithoutRow(rows, k) == rows
  {
    if rows != [] {
      WithoutRowShrinks(rows[..|rows| - 1], k);
      SplitLast(rows);
    }
  }

  lemma NothingRemoved(rows: seq<Entity>, c: Call, now: int)
    requires FileApply(rows, c, now).1 == Removed(false)
    ensures FileApply(rows, c, now).0 == rows
  {
    WithoutRowShrinks(rows, KeyOf(c.name));
  }

  /** Main result: in every interleaving, what a reader sees is the Map store after some prefix of
      the calls, in call order, less the ones that failed; and every settled call got the Map store's
      own answer. */
  lemma {:induction false} EveryInterleaving(file: Option<seq<Line>>, tmp: seq<Line>, t: Table, events: seq<Event>) returns (k: nat)
    requires WellKeyed(t) && Rows(file) == Values(t)
    ensures Inv(Run(Store(file, tmp, [], 0), events), t, k)
  {
    if events == [] {
      k := 0;
    } else {
      var before := EveryInterleaving(file, tmp, t, events[..|events| - 1]);
      k := StepKeeps(Run(Store(file, tmp, [], 0), events[..|events| - 1]), t, before, events[|events| - 1]);
    }
  }

  /** Once every call has settled, the file holds exactly what the Map store would, rows in its order,
      keys unique ignoring case. */
  lemma QuiescentAgrees(file: Option<seq<Line>>, tmp: seq<Line>, t: Table, events: seq<Event>)
    requires WellKeyed(t) && Rows(file) == Values(t)
    requires forall op :: op in Run(Store(file, tmp, [], 0), events).ops ==> op.phase.Settled?
    ensures var s := Run(Store(file, tmp, [], 0), events);
            && WellKeyed(Replayed(t, s.ops))
            && Rows(s.file) == Values(Replayed(t, s.ops))
            && RepliesAgree(t, s.ops)
            && NamesDiffer(Rows(s.file))
  {
    var s := Run(Store(file, tmp, [], 0), events);
    var k := EveryInterleaving(file, tmp, t, events);
    assert forall i :: 0 <= i < |s.ops| ==> s.ops[i] in s.ops;
    assert s.ops[..k] == s.ops;
    TableNamesDiffer(Replayed(t, s.ops));
  }

  predicate Deletes(op: Op, k: string) {
    op.call.Delete? && KeyOf(op.call.name) == k && op.phase.Settled? && op.phase.reply != Failed
  }

  /** An entity that is never deleted keeps its createdAt through every operation. */
  lemma {:induction false} CreatedAtPreserved(t: Table, ops: seq<Op>, k: string)
    requires WellKeyed(t) && k in t.byKey
    requires forall op :: op in ops ==> !Deletes(op, k)
    ensures WellKeyed(Replayed(t, ops))
    ensures k in Replayed(t, ops).byKey && Replayed(t, ops).byKey[k].createdAt == t.byKey[k].createdAt
  {
    if ops != [] {
      var init, op := ops[..|ops| - 1], ops[|ops| - 1];
      CreatedAtPreserved(t, init, k);
      assert op in ops;
      if op.phase.Settled? && op.phase.reply != Failed {
        MapApplyKeeps(Replayed(t, init), op.call, op.phase.at);
      }
    }
  }
}
