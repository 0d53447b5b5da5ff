// Schedule expressions: the cron field parser and minute search, and the next run of
// any schedule. Clocks have a fixed offset of whole minutes from UTC.
module Schedules {
  import opened Common
  import Durations
  import opened Numerals
  import opened Text

  // ---------------------------------------------------------------- splitting

  function IndexOfChar(s: string, c: char): (i: nat)
    ensures i <= |s|
    ensures i < |s| ==> s[i] == c
    ensures forall j :: 0 <= j < i ==> s[j] != c
  {
    if s == [] || s[0] == c then 0 else 1 + IndexOfChar(s[1..], c)
  }

  /** String.prototype.split with a one-character separator. */
  function Split(s: string, c: char): (parts: seq<string>)
    ensures parts != []
    decreases |s|
  {
    var i := IndexOfChar(s, c);
    if i == |s| then [s] else [s[..i]] + Split(s[i + 1..], c)
  }

  function Join(parts: seq<string>, c: char): string
    requires parts != []
  {
    if |parts| == 1 then parts[0] else parts[0] + [c] + Join(parts[1..], c)
  }

  lemma IndexWhenAbsent(s: string, c: char)
    requires c !in s
    ensures IndexOfChar(s, c) == |s|
  {
    assert forall j :: 0 <= j < |s| ==> s[j] in s;
  }

  lemma IndexOfFirst(a: string, c: char, b: string)
    requires c !in a
    ensures IndexOfChar(a + [c] + b, c) == |a|
  {
    var s := a + [c] + b;
    assert s[|a|] == c;
    assert forall j :: 0 <= j < |a| ==> s[j] == a[j];
  }

  /** Joining with the separator and splitting again gives the parts back. */
  lemma {:induction false} SplitOfJoin(parts: seq<string>, c: char)
    requires parts != [] && forall i :: 0 <= i < |parts| ==> c !in parts[i]
    ensures Split(Join(parts, c), c) == parts
  {
    if |parts| == 1 {
      IndexWhenAbsent(parts[0], c);
    } else {
      var rest := Join(parts[1..], c);
      assert Join(parts, c) == parts[0] + [c] + rest;
      SplitOfJoin(parts[1..], c);
      hide Join, Split, IndexOfChar;
      SplitOfFirst(parts[0], c, rest);
    }
  }

  lemma SplitOfFirst(a: string, c: char, rest: string)
    requires c !in a
    ensures Split(a + [c] + rest, c) == [a] + Split(rest, c)
  {
    hide IndexOfChar;
    IndexOfFirst(a, c, rest);
    var s := a + [c] + rest;
    assert s[..|a|] == a && s[|a| + 1..] == rest;
  }

  // ---------------------------------------------------------------- field items

  /** What one comma-separated part of a field can be. */
  datatype Item =
    | Num(n: string)
    | Range(a: string, b: string)
    | Star
    | StarStep(step: string)
    | RangeStep(a: string, b: string, step: string)

  predicate WellFormed(it: Item) {
    match it
    case Num(n) => n == [] || Digits(n)
    case Range(a, b) => Digits(a) && Digits(b)
    case Star => true
    case StarStep(step) => Digits(step)
    case RangeStep(a, b, step) => Digits(a) && Digits(b) && Digits(step)
  }

  function Render(it: Item): string {
    match it
    case Num(n) => n
    case Range(a, b) => a + "-" + b
    case Star => "*"
    case StarStep(step) => "*" + "/" + step
    case RangeStep(a, b, step) => (a + "-" + b) + "/" + step
  }

  /** A step of zero makes the whole field unparseable. */
  predicate ZeroStep(it: Item)
    requires WellFormed(it)
  {
    (it.StarStep? || it.RangeStep?) && Value(it.step) == 0
  }

  /** The values an item stands for; `*` is 0 to 59 in every field. */
  predicate Denotes(it: Item, v: int)
    requires WellFormed(it) && !ZeroStep(it)
  {
    match it
    case Num(n) => v == Value(n)
    case Range(a, b) => Value(a) <= v <= Value(b)
    case Star => 0 <= v <= 59
    case StarStep(step) => 0 <= v <= 59 && OnStep(v, 0, Value(step))
    case RangeStep(a, b, step) => Value(a) <= v <= Value(b) && OnStep(v, Value(a), Value(step))
  }

  /** The `digits-digits` form. */
  function AsRange(s: string): Option<(string, string)> {
    var i := IndexOfChar(s, '-');
    if i < |s| && Digits(s[..i]) && Digits(s[i + 1..]) then Some((s[..i], s[i + 1..])) else None
  }

  /** The tests of the source in order: step form, range form, star, number. */
  function Classify(part: string): (r: Option<Item>)
    ensures r.Some? ==> WellFormed(r.value)
  {
    var i := IndexOfChar(part, '/');
    if i < |part| && Digits(part[i + 1..]) && part[..i] == "*" then Some(StarStep(part[i + 1..]))
    else if i < |part| && Digits(part[i + 1..]) && AsRange(part[..i]).Some? then
      var (a, b) := AsRange(part[..i]).value;
      Some(RangeStep(a, b, part[i + 1..]))
    else if AsRange(part).Some? then
      var (a, b) := AsRange(part).value;
      Some(Range(a, b))
    else if part == "*" then Some(Star)
    else if part == [] || Digits(part) then Some(Num(part))
    else None
  }

  lemma AsRangeOfRender(a: string, b: string)
    requires Digits(a) && Digits(b)
    ensures AsRange(a + "-" + b) == Some((a, b))
  {
    DigitsExclude(a, '-');
    IndexOfFirst(a, '-', b);
    var s := a + "-" + b;
    assert s[..|a|] == a && s[|a| + 1..] == b;
  }

  lemma NotInRange(a: string, b: string)
    requires Digits(a) && Digits(b)
    ensures '/' !in a + "-" + b && a + "-" + b != "*" && ',' !in a + "-" + b
  {
    DigitsExclude(a, '/');
    DigitsExclude(b, '/');
    DigitsExclude(a, ',');
    DigitsExclude(b, ',');
    assert IsDigit((a + "-" + b)[0]);
  }

  /** Every item reads back as itself. */
  lemma ClassifyOfRender(it: Item)
    requires WellFormed(it)
    ensures Classify(Render(it)) == Some(it)
  {
    match it
    case Num(n) =>
      if n != [] {
        DigitsExclude(n, '/');
        DigitsExclude(n, '-');
        DigitsExclude(n, '*');
      }
      IndexWhenAbsent(n, '/');
      IndexWhenAbsent(n, '-');
    case Range(a, b) =>
      NotInRange(a, b);
      IndexWhenAbsent(Render(it), '/');
      AsRangeOfRender(a, b);
    case Star =>
      IndexWhenAbsent("*", '/');
      IndexWhenAbsent("*", '-');
    case StarStep(step) =>
      IndexOfFirst("*", '/', step);
      assert Render(it)[..1] == "*" && Render(it)[2..] == step;
    case RangeStep(a, b, step) =>
      var base := a + "-" + b;
      NotInRange(a, b);
      IndexOfFirst(base, '/', step);
      AsRangeOfRender(a, b);
      assert Render(it)[..|base|] == base && Render(it)[|base| + 1..] == step;
  }

  lemma AsRangeRenders(s: string)
    requires AsRange(s).Some?
    ensures var (a, b) := AsRange(s).value; s == a + "-" + b
  {
    var i := IndexOfChar(s, '-');
    assert s == s[..i] + [s[i]] + s[i + 1..];
  }

  /** And nothing else is accepted: what classifies is the rendering of its item. */
  lemma ClassifyRenders(part: string)
    requires Classify(part).Some?
    ensures Render(Classify(part).value) == part
  {
    var i := IndexOfChar(part, '/');
    if i < |part| {
      assert part == part[..i] + [part[i]] + part[i + 1..];
      if AsRange(part[..i]).Some? {
        AsRangeRenders(part[..i]);
      }
    }
    if AsRange(part).Some? {
      AsRangeRenders(part);
    }
  }

  /** The items of a field, when every part is one and no step is zero. */
  function Items(parts: seq<string>): Option<seq<Item>> {
    if parts == [] then Some([])
    else
      var before := Items(parts[..|parts| - 1]);
      var it := Classify(parts[|parts| - 1]);
      if before.None? || it.None? || ZeroStep(it.value) then None else Some(before.value + [it.value])
  }

  predicate Usable(it: Item) {
    WellFormed(it) && !ZeroStep(it)
  }

  predicate AllUsable(items: seq<Item>) {
    forall i :: 0 <= i < |items| ==> Usable(items[i])
  }

  lemma {:induction false} ItemsUsable(parts: seq<string>)
    ensures Items(parts).Some? ==> |Items(parts).value| == |parts| && AllUsable(Items(parts).value)
  {
    if parts != [] {
      ItemsUsable(parts[..|parts| - 1]);
    }
  }

  predicate Denoted(items: seq<Item>, v: int)
    requires AllUsable(items)
  {
    exists i :: 0 <= i < |items| && Denotes(items[i], v)
  }

  // ---------------------------------------------------------------- the field parser

  lemma ModStep(x: int, d: int, s: int)
    requires s > 0 && x % s == 0 && 0 <= d < s
    ensures (x + d) % s == d && (x + s) % s == 0
  {
    var q := x / s;
    assert x == q * s;
    assert x + s == (q + 1) * s + 0;
    ModUnique(x + d, s, q, d);
    ModUnique(x + s, s, q + 1, 0);
  }

  lemma ModUnique(x: int, s: int, q: int, r: int)
    requires s > 0 && x == q * s + r && 0 <= r < s
    ensures x % s == r && x / s == q
  {
    var q', r' := x / s, x % s;
    assert x == q' * s + r';
    assert (q - q') * s == r' - r;
    if q > q' {
      MulAtLeast(q - q', s);
    } else if q < q' {
      MulAtLeast(q' - q, s);
    }
  }

  lemma MulAtLeast(a: int, s: int)
    requires a >= 1 && s > 0
    ensures a * s >= s
  {
  }

  /** The push loop of ranges and steps. */
  method PushRange(result: seq<int>, start: int, end: int, step: int) returns (out: seq<int>)
    requires step > 0
    ensures forall v :: v in out <==> v in result || (start <= v <= end && OnStep(v, start, step))
  {
    hide OnStep;
    out := result;
    var i := start;
    StepFollows(start, start, step);
    while i <= end
      invariant start <= i && OnStep(i, start, step)
      invariant forall v :: v in out <==> v in result || (start <= v <= end && v < i && OnStep(v, start, step))
      decreases end - i
    {
      StepFollows(i, start, step);
      out := out + [i];
      i := i + step;
    }
  }

  /** v is a whole number of steps from start. */
  predicate OnStep(v: int, start: int, step: int)
    requires step > 0
  {
    (v - start) % step == 0
  }

  /** The next value on the step is one step on, and none lies between. */
  lemma StepFollows(i: int, start: int, step: int)
    requires step > 0 && (i == start || OnStep(i, start, step))
    ensures OnStep(i, start, step) && OnStep(i + step, start, step)
    ensures forall v :: i < v < i + step ==> !OnStep(v, start, step)
  {
    forall v | i < v < i + step
      ensures !OnStep(v, start, step)
    {
      ModStep(i - start, v - i, step);
    }
    ModStep(i - start, 0, step);
  }

  method PushEach(result: seq<int>, start: int, end: int) returns (out: seq<int>)
    ensures forall v :: v in out <==> v in result || start <= v <= end
  {
    out := result;
    var i := start;
    while i <= end
      invariant start <= i
      invariant forall v :: v in out <==> v in result || (start <= v <= end && v < i)
    {
      out := out + [i];
      i := i + 1;
    }
  }

  /** Pushes the values of one part. */
  method PushItem(result: seq<int>, it: Item) returns (out: seq<int>)
    requires Usable(it)
    ensures forall v :: v in out <==> v in result || Denotes(it, v)
  {
    match it
    case StarStep(step) => out := PushRange(result, 0, 59, Value(step));
    case RangeStep(a, b, step) => out := PushRange(result, Value(a), Value(b), Value(step));
    case Range(a, b) => out := PushEach(result, Value(a), Value(b));
    case Star => out := PushEach(result, 0, 59);
    case Num(n) => out := result + [Value(n)];
  }

  /** Main result for fields: the values are exactly the denoted set, and null comes exactly for an
      unreadable part, a zero step, or an empty set. */
  method ParseFieldValues(field: string) returns (r: Option<seq<int>>)
    ensures var items := Items(Split(field, ','));
            items.None? ==> r.None?
    ensures var items := Items(Split(field, ','));
            items.Some? ==>
              && AllUsable(items.value)
              && (r.None? <==> forall v :: !Denoted(items.value, v))
              && (r.Some? ==> forall v :: v in r.value <==> Denoted(items.value, v))
    ensures r.Some? ==> r.value != []
    ensures forall parts: seq<Part> :: WrittenAs(parts, field) ==> ReadsAs(parts, r)
  {
    hide ReadsAs, WrittenAs, Classify, Split, OnStep;
    var parts := Split(field, ',');
    var result: seq<int> := [];
    var k := 0;
    ItemsUsable(parts[..0]);
    while k < |parts|
      invariant 0 <= k <= |parts|
      invariant Items(parts[..k]).Some? && AllUsable(Items(parts[..k]).value)
      invariant forall v :: v in result <==> Denoted(Items(parts[..k]).value, v)
    {
      var it := Classify(parts[k]);
      assert parts[..k + 1][..k] == parts[..k];
      if it.None? || ZeroStep(it.value) {
        BadPartSpoils(parts, k);
        ReadsWritten(field, None);
        return None;
      }
      ItemsUsable(parts[..k + 1]);
      DenotedOfAppend(Items(parts[..k]).value, it.value);
      result := PushItem(result, it.value);
      k := k + 1;
    }
    assert parts[..k] == parts;
    if |result| > 0 {
      assert result[0] in result && Denoted(Items(parts).value, result[0]);
      r := Some(result);
    } else {
      r := None;
    }
    ReadsWritten(field, r);
  }

  lemma {:induction false} BadPartSpoils(parts: seq<string>, k: nat)
    requires k < |parts| && Items(parts[..k + 1]).None?
    ensures Items(parts).None?
    decreases |parts|
  {
    if k + 1 == |parts| {
      assert parts[..k + 1] == parts;
    } else {
      assert parts[..|parts| - 1][..k + 1] == parts[..k + 1];
      BadPartSpoils(parts[..|parts| - 1], k);
    }
  }

  lemma DenotedOfAppend(items: seq<Item>, it: Item)
    requires AllUsable(items) && Usable(it)
    ensures AllUsable(items + [it])
    ensures forall v :: Denoted(items + [it], v) <==> Denoted(items, v) || Denotes(it, v)
  {
    hide Denotes, WellFormed, ZeroStep;
    var all := items + [it];
    forall v
      ensures Denoted(all, v) <==> Denoted(items, v) || Denotes(it, v)
    {
      if Denoted(items, v) {
        var i :| 0 <= i < |items| && Denotes(items[i], v);
        assert Denotes(all[i], v);
      }
      if Denotes(it, v) {
        assert Denotes(all[|items|], v);
      }
    }
  }

  function RenderAll(items: seq<Item>): (r: seq<string>)
    ensures |r| == |items|
  {
    if items == [] then [] else RenderAll(items[..|items| - 1]) + [Render(items[|items| - 1])]
  }

  lemma {:induction false} ItemsOfRender(items: seq<Item>)
    requires AllUsable(items)
    ensures Items(RenderAll(items)) == Some(items)
    ensures forall i :: 0 <= i < |items| ==> ',' !in RenderAll(items)[i]
  {
    if items != [] {
      var init, last := items[..|items| - 1], items[|items| - 1];
      ItemsOfRender(init);
      ClassifyOfRender(last);
      assert Usable(items[|items| - 1]);
      NoComma(last);
      assert RenderAll(items)[..|items| - 1] == RenderAll(init);
      SplitLast(items);
    }
  }

  lemma NoComma(it: Item)
    requires WellFormed(it)
    ensures ',' !in Render(it)
  {
    match it
    case Num(n) =>
    case Range(a, b) => NotInRange(a, b);
    case Star =>
    case StarStep(step) => DigitsExclude(step, ',');
    case RangeStep(a, b, step) =>
      NotInRange(a, b);
      DigitsExclude(step, ',');
  }

  /** Writing a list of items down and parsing the field gives those items back. */
  lemma FieldRoundTrip(items: seq<Item>)
    requires items != [] && AllUsable(items)
    ensures Items(Split(Join(RenderAll(items), ','), ',')) == Some(items)
  {
    ItemsOfRender(items);
    SplitOfJoin(RenderAll(items), ',');
  }

  // ---------------------------------------------------------------- fields of numbers

  /** One part of a field, by its numbers. */
  datatype Part =
    | Single(n: nat)
    | FromTo(a: nat, b: nat)
    | All
    | AllBy(step: nat)
    | FromToBy(a: nat, b: nat, step: nat)

  /** The part with its numbers written out. */
  function WrittenPart(p: Part): string {
    match p
    case Single(n) => Written(n)
    case FromTo(a, b) => Written(a) + "-" + Written(b)
    case All => "*"
    case AllBy(step) => "*" + "/" + Written(step)
    case FromToBy(a, b, step) => (Written(a) + "-" + Written(b)) + "/" + Written(step)
  }

  predicate HasStep(p: Part, step: nat) {
    (p.AllBy? && p.step == step) || (p.FromToBy? && p.step == step)
  }

  predicate StepsTo(v: int, start: nat, step: nat, times: nat) {
    v == start + times * step
  }

  /** What crontab(5) lets the part stand for; `*` is 0 to 59 in every field. */
  ghost predicate Means(p: Part, v: int) {
    match p
    case Single(n) => v == n
    case FromTo(a, b) => a <= v <= b
    case All => 0 <= v <= 59
    case AllBy(step) => v <= 59 && exists times: nat :: StepsTo(v, 0, step, times)
    case FromToBy(a, b, step) => v <= b && exists times: nat :: StepsTo(v, a, step, times)
  }

  ghost predicate Meant(parts: seq<Part>, v: int) {
    exists i :: 0 <= i < |parts| && Means(parts[i], v)
  }

  predicate HasZeroStep(parts: seq<Part>) {
    exists i :: 0 <= i < |parts| && HasStep(parts[i], 0)
  }

  /** The field is these parts, written with commas between them. */
  predicate WrittenAs(parts: seq<Part>, field: string) {
    parts != [] && field == Join(seq(|parts|, i requires 0 <= i < |parts| => WrittenPart(parts[i])), ',')
  }

  /** What reading those parts has to give. */
  ghost predicate ReadsAs(parts: seq<Part>, r: Option<seq<int>>) {
    && (r.None? <==> HasZeroStep(parts) || forall v :: !Meant(parts, v))
    && (r.Some? ==> forall v :: v in r.value <==> Meant(parts, v))
  }

  function Code(p: Part): Item {
    match p
    case Single(n) => Num(Written(n))
    case FromTo(a, b) => Range(Written(a), Written(b))
    case All => Star
    case AllBy(step) => StarStep(Written(step))
    case FromToBy(a, b, step) => RangeStep(Written(a), Written(b), Written(step))
  }

  function Coded(parts: seq<Part>): (items: seq<Item>)
    ensures |items| == |parts| && forall i :: 0 <= i < |parts| ==> items[i] == Code(parts[i])
  {
    seq(|parts|, i requires 0 <= i < |parts| => Code(parts[i]))
  }

  lemma CodeIsWritten(p: Part)
    ensures WellFormed(Code(p)) && Render(Code(p)) == WrittenPart(p)
    ensures ZeroStep(Code(p)) <==> HasStep(p, 0)
  {
    hide Written, Value, Digits;
    match p
    case Single(n) => ValueOfWritten(n);
    case FromTo(a, b) =>
      ValueOfWritten(a);
      ValueOfWritten(b);
    case All =>
    case AllBy(step) => ValueOfWritten(step);
    case FromToBy(a, b, step) =>
      ValueOfWritten(a);
      ValueOfWritten(b);
      ValueOfWritten(step);
  }

  lemma OnStepExactly(v: int, start: nat, step: nat)
    requires step > 0 && start <= v
    ensures OnStep(v, start, step) <==> exists times: nat :: StepsTo(v, start, step, times)
  {
    if OnStep(v, start, step) {
      assert v - start == (v - start) / step * step;
      assert StepsTo(v, start, step, (v - start) / step);
    }
    if times: nat :| StepsTo(v, start, step, times) {
      ModUnique(v - start, step, times, 0);
    }
  }

  lemma StepsStart(v: int, start: nat, step: nat, times: nat)
    requires StepsTo(v, start, step, times)
    ensures start <= v
  {
    assert times * step >= 0;
  }

  lemma CodeDenotes(p: Part, v: int)
    requires !HasStep(p, 0)
    ensures WellFormed(Code(p)) && !ZeroStep(Code(p)) && (Denotes(Code(p), v) <==> Means(p, v))
  {
    CodeIsWritten(p);
    hide Written, Value, OnStep, StepsTo, Digits;
    match p
    case Single(n) => ValueOfWritten(n);
    case FromTo(a, b) =>
      ValueOfWritten(a);
      ValueOfWritten(b);
    case All =>
    case AllBy(step) =>
      ValueOfWritten(step);
      if 0 <= v {
        OnStepExactly(v, 0, step);
      } else if times: nat :| StepsTo(v, 0, step, times) {
        StepsStart(v, 0, step, times);
      }
    case FromToBy(a, b, step) =>
      ValueOfWritten(a);
      ValueOfWritten(b);
      ValueOfWritten(step);
      if a <= v {
        OnStepExactly(v, a, step);
      } else if times: nat :| StepsTo(v, a, step, times) {
        StepsStart(v, a, step, times);
      }
  }

  /** The parts of a written field are the writings of its coded items. */
  lemma SplitOfWritten(parts: seq<Part>, field: string)
    requires WrittenAs(parts, field)
    ensures var w := Split(field, ',');
            |w| == |parts| && forall i :: 0 <= i < |parts| ==> w[i] == Render(Code(parts[i]))
  {
    hide Split, Join, Code, Render, WrittenPart;
    var w := seq(|parts|, i requires 0 <= i < |parts| => WrittenPart(parts[i]));
    forall i | 0 <= i < |parts|
      ensures ',' !in w[i] && w[i] == Render(Code(parts[i]))
    {
      CodeIsWritten(parts[i]);
      NoComma(Code(parts[i]));
    }
    SplitOfJoin(w, ',');
  }

  lemma ZeroStepSpoils(w: seq<string>, it: Item, i: nat)
    requires i < |w| && WellFormed(it) && ZeroStep(it) && w[i] == Render(it)
    ensures Items(w).None?
  {
    ClassifyOfRender(it);
    assert w[..i + 1][i] == w[i];
    hide Classify, Render;
    BadPartSpoils(w, i);
  }

  lemma {:induction false} ItemsOfWritings(w: seq<string>, items: seq<Item>)
    requires |w| == |items| && AllUsable(items)
    requires forall i :: 0 <= i < |w| ==> w[i] == Render(items[i])
    ensures Items(w) == Some(items)
  {
    hide Classify, Render;
    if items != [] {
      var last := items[|items| - 1];
      assert Usable(last);
      ItemsOfWritings(w[..|w| - 1], items[..|items| - 1]);
      ClassifyOfRender(last);
      SplitLast(items);
    }
  }

  lemma MeantByCode(parts: seq<Part>, v: int)
    requires !HasZeroStep(parts) && AllUsable(Coded(parts))
    ensures Denoted(Coded(parts), v) <==> Meant(parts, v)
  {
    hide Denotes, Means, Code, HasStep, Usable;
    forall i | 0 <= i < |parts|
      ensures Usable(Coded(parts)[i]) && WellFormed(Code(parts[i])) && !ZeroStep(Code(parts[i]))
      ensures Denotes(Code(parts[i]), v) <==> Means(parts[i], v)
    {
      CodeDenotes(parts[i], v);
    }
  }

  lemma CodedUsable(parts: seq<Part>)
    requires !HasZeroStep(parts)
    ensures AllUsable(Coded(parts))
  {
    hide Code, HasStep, WellFormed, ZeroStep;
    forall i | 0 <= i < |parts|
      ensures Usable(Coded(parts)[i])
    {
      CodeIsWritten(parts[i]);
    }
  }

  /** A field of written numbers is read as what those numbers mean. */
  lemma WrittenField(parts: seq<Part>, field: string)
    requires WrittenAs(parts, field)
    ensures HasZeroStep(parts) ==> Items(Split(field, ',')).None?
    ensures !HasZeroStep(parts) ==> Items(Split(field, ',')) == Some(Coded(parts)) && AllUsable(Coded(parts))
    ensures !HasZeroStep(parts) ==> forall v :: Denoted(Coded(parts), v) <==> Meant(parts, v)
  {
    hide Split, Items, Code, Render, HasStep, Denoted, Meant, AllUsable, WrittenAs, WellFormed, ZeroStep;
    SplitOfWritten(parts, field);
    var w := Split(field, ',');
    if i :| 0 <= i < |parts| && HasStep(parts[i], 0) {
      CodeIsWritten(parts[i]);
      ZeroStepSpoils(w, Code(parts[i]), i);
    } else {
      CodedUsable(parts);
      ItemsOfWritings(w, Coded(parts));
      forall v
        ensures Denoted(Coded(parts), v) <==> Meant(parts, v)
      {
        MeantByCode(parts, v);
      }
    }
  }

  /** What the items say of a field, its numbers say. */
  lemma ReadsWritten(field: string, r: Option<seq<int>>)
    requires Items(Split(field, ',')).None? ==> r.None?
    requires var items := Items(Split(field, ','));
             items.Some? ==>
               && AllUsable(items.value)
               && (r.None? <==> forall v :: !Denoted(items.value, v))
               && (r.Some? ==> forall v :: v in r.value <==> Denoted(items.value, v))
    ensures forall parts: seq<Part> :: WrittenAs(parts, field) ==> ReadsAs(parts, r)
  {
    hide Split, Items, AllUsable, Denoted, Meant, WrittenAs, HasZeroStep;
    forall parts: seq<Part> | WrittenAs(parts, field)
      ensures ReadsAs(parts, r)
    {
      WrittenField(parts, field);
    }
  }

  // ---------------------------------------------------------------- the calendar

  datatype Date = Date(year: int, month: int, day: int)

  predicate Leap(y: int) {
    y % 4 == 0 && (y % 100 != 0 || y % 400 == 0)
  }

  function DaysIn(y: int, m: int): int {
    if m == 2 then (if Leap(y) then 29 else 28)
    else if m == 4 || m == 6 || m == 9 || m == 11 then 30
    else 31
  }

  function NextDay(d: Date): Date {
    if d.day < DaysIn(d.year, d.month) then Date(d.year, d.month, d.day + 1)
    else if d.month < 12 then Date(d.year, d.month + 1, 1)
    else Date(d.year + 1, 1, 1)
  }

  function PreviousDay(d: Date): Date {
    if d.day > 1 then Date(d.year, d.month, d.day - 1)
    else if d.month > 1 then Date(d.year, d.month - 1, DaysIn(d.year, d.month - 1))
    else Date(d.year - 1, 12, 31)
  }

  /** The date `days` days after 1 January 1970. */
  function DateOf(days: int): Date
    decreases if days < 0 then -days else days
  {
    if days == 0 then Date(1970, 1, 1)
    else if days > 0 then NextDay(DateOf(days - 1))
    else PreviousDay(DateOf(days + 1))
  }

  predicate OnCalendar(d: Date) {
    1 <= d.month <= 12 && 1 <= d.day <= DaysIn(d.year, d.month)
  }

  lemma {:induction false} DateOfIsOnCalendar(days: int)
    ensures OnCalendar(DateOf(days))
    decreases if days < 0 then -days else days
  {
    if days > 0 {
      DateOfIsOnCalendar(days - 1);
    } else if days < 0 {
      DateOfIsOnCalendar(days + 1);
    }
  }

  /** The calendar has no seam: every day is followed by its successor, on both sides of 1970. */
  lemma {:induction false} DaysFollow(days: int)
    ensures DateOf(days + 1) == NextDay(DateOf(days))
  {
    if days < 0 {
      DateOfIsOnCalendar(days + 1);
    }
  }

  /** Leap years from year 1 to year y, before it downwards. */
  function LeapYears(y: int): int {
    y / 4 - y / 100 + y / 400
  }

  /** The days of a year of 365 days before each month. */
  const DAYS_BEFORE := [0, 31, 59, 90, 120, 151, 181, 212, 243, 273, 304, 334]

  /** Days from 1 January 1970 to a date, counted from years, leap years and months: 477 leap years end
      before 1970, and a year's leap day comes before its third month. */
  function DayNumber(d: Date): int
    requires 1 <= d.month <= 12
  {
    365 * (d.year - 1970) + LeapYears(if d.month > 2 then d.year else d.year - 1) - 477
    + DAYS_BEFORE[d.month - 1] + d.day - 1
  }

  lemma MultiplesGrow(y: int, k: int)
    requires k > 1
    ensures y / k - (y - 1) / k == if y % k == 0 then 1 else 0
  {
    var q, r := y / k, y % k;
    assert y == q * k + r;
    if r == 0 {
      assert (q - 1) * k == q * k - k;
      ModUnique(y - 1, k, q - 1, k - 1);
    } else {
      ModUnique(y - 1, k, q, r - 1);
    }
  }

  lemma LeapYearsGrow(y: int)
    ensures LeapYears(y) - LeapYears(y - 1) == if Leap(y) then 1 else 0
  {
    MultiplesGrow(y, 4);
    MultiplesGrow(y, 100);
    MultiplesGrow(y, 400);
    if y % 400 == 0 {
      ModUnique(y, 100, y / 400 * 4, 0);
    }
    if y % 100 == 0 {
      ModUnique(y, 4, y / 100 * 25, 0);
    }
  }

  lemma NextDayNumber(d: Date)
    requires OnCalendar(d)
    ensures DayNumber(NextDay(d)) == DayNumber(d) + 1
  {
    LeapYearsGrow(d.year);
    hide LeapYears, Leap;
  }

  lemma PreviousDayNumber(d: Date)
    requires OnCalendar(d)
    ensures DayNumber(PreviousDay(d)) == DayNumber(d) - 1
  {
    LeapYearsGrow(d.year);
    hide LeapYears, Leap;
  }

  /** Main result for the calendar: stepping from day to day gives the date that the count of years, leap
      years and months gives. */
  lemma {:induction false} DateOfIsCounted(days: int)
    ensures OnCalendar(DateOf(days)) && DayNumber(DateOf(days)) == days
    decreases if days < 0 then -days else days
  {
    hide OnCalendar, LeapYears, DaysIn;
    DateOfIsOnCalendar(days);
    if days > 0 {
      DateOfIsCounted(days - 1);
      NextDayNumber(DateOf(days - 1));
    } else if days < 0 {
      DateOfIsCounted(days + 1);
      PreviousDayNumber(DateOf(days + 1));
    } else {
      EpochDay();
    }
  }

  lemma EpochDay()
    ensures DayNumber(Date(1970, 1, 1)) == 0
  {
  }

  const MINUTE_MS := 60_000
  const WINDOW_MS := 366 * 24 * 60 * 60 * 1000

  /** The five fields of an expression, each a list of accepted values. */
  datatype CronFields = CronFields(minutes: seq<int>, hours: seq<int>, doms: seq<int>, months: seq<int>, dows: seq<int>)

  /** Local clock reading of the whole minute m (minutes since the epoch, UTC). */
  function LocalDays(m: int, offset: int): int {
    (m + offset) / 1440
  }

  /** All five fields must match: day of month and day of week are both required. */
  predicate MatchesAt(c: CronFields, offset: int, m: int) {
    var local := m + offset;
    var date := DateOf(LocalDays(m, offset));
    && date.month in c.months
    && date.day in c.doms
    && (LocalDays(m, offset) + 4) % 7 in c.dows
    && local % 1440 / 60 in c.hours
    && local % 60 in c.minutes
  }

  /** The clock at h:mi of the local day d days after 1 January 1970, a Thursday: w is the weekday of that
      day, Sunday being 0, when it is w - 4 days off a whole number of weeks. */
  lemma MatchesAtClock(c: CronFields, offset: int, d: int, h: int, mi: int, weeks: int, w: int)
    requires 0 <= h < 24 && 0 <= mi < 60 && 0 <= w < 7 && d == weeks * 7 + w - 4
    ensures MatchesAt(c, offset, d * 1440 + h * 60 + mi - offset)
            <==> && mi in c.minutes && h in c.hours
                 && DateOf(d).day in c.doms && DateOf(d).month in c.months && w in c.dows
  {
    hide DateOf;
    var m := d * 1440 + h * 60 + mi - offset;
    ModUnique(m + offset, 1440, d, h * 60 + mi);
    ModUnique(d + 4, 7, weeks, w);
    ModUnique(h * 60 + mi, 60, h, mi);
    ModUnique(m + offset, 60, d * 24 + h, mi);
  }

  /** A whole minute strictly after afterMs and inside the search window. */
  predicate InWindow(m: int, afterMs: int) {
    afterMs < m * MINUTE_MS < afterMs + WINDOW_MS
  }

  /** The window is 366 days, in milliseconds. */
  lemma WindowExactly(m: int, afterMs: int)
    ensures InWindow(m, afterMs) <==> afterMs < m * 60_000 < afterMs + 31_622_400_000
  {
  }

  /** The least matching minute of the window, or none when there is none. */
  ghost predicate IsNextFire(c: CronFields, offset: int, afterMs: int, r: Option<int>) {
    match r
    case Some(t) =>
      && t % MINUTE_MS == 0
      && InWindow(t / MINUTE_MS, afterMs)
      && MatchesAt(c, offset, t / MINUTE_MS)
      && forall m :: InWindow(m, afterMs) && m < t / MINUTE_MS ==> !MatchesAt(c, offset, m)
    case None =>
      forall m :: InWindow(m, afterMs) ==> !MatchesAt(c, offset, m)
  }

  lemma NextFireUnique(c: CronFields, offset: int, afterMs: int, r1: Option<int>, r2: Option<int>)
    requires IsNextFire(c, offset, afterMs, r1) && IsNextFire(c, offset, afterMs, r2)
    ensures r1 == r2
  {
    hide MatchesAt;
    if r1.Some? && r2.Some? {
      assert r1.value == r1.value / MINUTE_MS * MINUTE_MS && r2.value == r2.value / MINUTE_MS * MINUTE_MS;
    }
  }

  /** The minute search. */
  method Search(c: CronFields, offset: int, afterMs: int) returns (r: Option<int>)
    ensures IsNextFire(c, offset, afterMs, r)
  {
    hide MatchesAt;
    var start := (afterMs / MINUTE_MS + 1) * MINUTE_MS;
    var limit := afterMs + WINDOW_MS;
    var cursor := start;
    while cursor < limit
      invariant cursor % MINUTE_MS == 0 && afterMs < start <= cursor
      invariant forall m :: InWindow(m, afterMs) && m < cursor / MINUTE_MS ==> !MatchesAt(c, offset, m)
      decreases limit - cursor
    {
      if MatchesAt(c, offset, cursor / MINUTE_MS) {
        return Some(cursor);
      }
      cursor := cursor + MINUTE_MS;
    }
    r := None;
  }

  /** split(/\s+/): maximal runs of white space separate. */
  function Words(s: string): (w: seq<string>)
    ensures w != []
    decreases |s|
  {
    var i := SpaceAt(s);
    if i == |s| then [s] else [s[..i]] + Words(SkipSpaces(s[i..]))
  }

  function SpaceAt(s: string): (i: nat)
    ensures i <= |s|
    ensures i < |s| ==> IsSpace(s[i])
    ensures forall j :: 0 <= j < i ==> !IsSpace(s[j])
  {
    if s == [] || IsSpace(s[0]) then 0 else 1 + SpaceAt(s[1..])
  }

  function SkipSpaces(s: string): (r: string)
    ensures |r| <= |s|
    ensures s != [] && IsSpace(s[0]) ==> |r| < |s|
  {
    if s != [] && IsSpace(s[0]) then SkipSpaces(s[1..]) else s
  }

  predicate Word(s: string) {
    s != [] && forall i :: 0 <= i < |s| ==> !IsSpace(s[i])
  }

  /** White space between words. */
  predicate Gap(s: string) {
    s != [] && forall i :: 0 <= i < |s| ==> IsSpace(s[i])
  }

  lemma FirstSpace(a: string, rest: string)
    requires Word(a) && rest != [] && IsSpace(rest[0])
    ensures SpaceAt(a + rest) == |a|
  {
    hide IsSpace, SpaceAt;
    var s, i := a + rest, SpaceAt(a + rest);
    assert s[|a|] == rest[0];
    assert forall j :: 0 <= j < |a| ==> s[j] == a[j];
  }

  lemma {:induction false} SkipGap(gap: string, rest: string)
    requires Gap(gap) && rest != [] && !IsSpace(rest[0])
    ensures SkipSpaces(gap + rest) == rest
  {
    hide IsSpace;
    assert (gap + rest)[1..] == gap[1..] + rest;
    if |gap| == 1 {
      assert gap[1..] + rest == rest;
    } else {
      SkipGap(gap[1..], rest);
    }
  }

  lemma WordsOfFirst(a: string, gap: string, rest: string)
    requires Word(a) && Gap(gap) && rest != [] && !IsSpace(rest[0])
    ensures Words(a + (gap + rest)) == [a] + Words(rest)
  {
    hide SpaceAt, SkipSpaces, IsSpace;
    FirstSpace(a, gap + rest);
    SkipGap(gap, rest);
    var s := a + (gap + rest);
    assert s[..|a|] == a && s[|a|..] == gap + rest;
  }

  /** Words with gaps between them. */
  function Spaced(words: seq<string>, gaps: seq<string>): string
    requires words != [] && |gaps| == |words| - 1
  {
    if |words| == 1 then words[0] else words[0] + (gaps[0] + Spaced(words[1..], gaps[1..]))
  }

  /** Words written with any white space between them read back as those words. */
  lemma {:induction false} WordsOfSpaced(words: seq<string>, gaps: seq<string>)
    requires words != [] && |gaps| == |words| - 1
    requires forall i :: 0 <= i < |words| ==> Word(words[i])
    requires forall i :: 0 <= i < |gaps| ==> Gap(gaps[i])
    ensures Words(Spaced(words, gaps)) == words
    ensures Spaced(words, gaps) != [] && !IsSpace(Spaced(words, gaps)[0])
  {
    assert Word(words[0]);
    if |words| > 1 {
      assert Gap(gaps[0]);
      WordsOfSpaced(words[1..], gaps[1..]);
      WordsOfFirst(words[0], gaps[0], Spaced(words[1..], gaps[1..]));
    }
  }

  /** The parsed fields of an expression: five of them, each readable and denoting something. */
  ghost predicate Parses(expr: string, c: CronFields) {
    WordsParse(Words(Trim(expr)), c)
  }

  ghost predicate WordsParse(w: seq<string>, c: CronFields) {
    && |w| == 5
    && FieldIs(w[0], c.minutes) && FieldIs(w[1], c.hours) && FieldIs(w[2], c.doms)
    && FieldIs(w[3], c.months) && FieldIs(w[4], c.dows)
  }

  /** A field's list holds exactly its denoted values, and there are some. */
  ghost predicate FieldIs(field: string, values: seq<int>) {
    var items := Items(Split(field, ','));
    && items.Some? && AllUsable(items.value)
    && values != []
    && forall v :: v in values <==> Denoted(items.value, v)
  }

  ghost predicate FieldFails(field: string) {
    var items := Items(Split(field, ','));
    items.Some? ==> AllUsable(items.value) && forall v :: !Denoted(items.value, v)
  }

  /** The expression has not five fields, or one of them cannot be read. */
  ghost predicate Unparseable(expr: string) {
    var w := Words(Trim(expr));
    |w| == 5 ==> exists i :: 0 <= i < 5 && FieldFails(w[i])
  }

  method ParseField(field: string) returns (r: Option<seq<int>>)
    ensures r.Some? ==> FieldIs(field, r.value)
    ensures r.None? <==> FieldFails(field)
  {
    r := ParseFieldValues(field);
    hide Denoted, Items, Split;
    if r.Some? {
      assert r.value[0] in r.value;
    }
  }

  /** Main result for cron: the least whole minute of the window whose five fields all match, null
      exactly when the expression cannot be parsed or there is no such minute. */
  method NextCronFire(expr: string, offset: int, afterMs: int) returns (r: Option<int>)
    ensures Unparseable(expr) ==> r == None
    ensures !Unparseable(expr) ==> exists c :: Parses(expr, c) && IsNextFire(c, offset, afterMs, r)
  {
    hide FieldIs, FieldFails, Words, IsNextFire;
    var parts := Words(Trim(expr));
    if |parts| != 5 {
      return None;
    }
    var minutes := ParseField(parts[0]);
    var hours := ParseField(parts[1]);
    var doms := ParseField(parts[2]);
    var months := ParseField(parts[3]);
    var dows := ParseField(parts[4]);
    if minutes.None? || hours.None? || doms.None? || months.None? || dows.None? {
      return None;
    }
    var c := CronFields(minutes.value, hours.value, doms.value, months.value, dows.value);
    r := Search(c, offset, afterMs);
    assert Parses(expr, c);
  }

  /** A lone star accepts every value a clock field can take, in all five positions. */
  lemma StarMatchesAlways(m: int, offset: int)
    ensures var date := DateOf(LocalDays(m, offset));
            && Denotes(Star, date.month) && Denotes(Star, date.day)
            && Denotes(Star, (LocalDays(m, offset) + 4) % 7)
            && Denotes(Star, (m + offset) % 1440 / 60) && Denotes(Star, (m + offset) % 60)
  {
    DateOfIsOnCalendar(LocalDays(m, offset));
  }

  // ---------------------------------------------------------------- any schedule

  // ---------------------------------------------------------------- the crontab rule for days

  /** The tests of one minute, and which of the month, day-of-month and day-of-week fields are a lone star. */
  datatype DayTests = DayTests(month: bool, dom: bool, dow: bool, monthStar: bool, domStar: bool, dowStar: bool)

  predicate IsStar(field: string) {
    field == "*"
  }

  function TestsAt(parts: seq<string>, c: CronFields, offset: int, m: int): DayTests
    requires |parts| == 5
  {
    var days := LocalDays(m, offset);
    DayTests(DateOf(days).month in c.months, DateOf(days).day in c.doms, (days + 4) % 7 in c.dows,
             IsStar(parts[3]), IsStar(parts[2]), IsStar(parts[4]))
  }

  predicate TimeMatches(c: CronFields, offset: int, m: int) {
    (m + offset) % 1440 / 60 in c.hours && (m + offset) % 60 in c.minutes
  }

  /** The days POSIX.1-2017 selects: those of month and day of month, those of the day of week when only that
      is specified, and either of the two when both are. */
  predicate CrontabDay(t: DayTests) {
    if t.dowStar then t.month && t.dom
    else if t.monthStar && t.domStar then t.dow
    else (t.month && t.dom) || t.dow
  }

  /** The reading in which the month is always required, and only the two day fields are alternatives. */
  predicate CrontabDayWithinMonth(t: DayTests) {
    t.month && (if t.domStar || t.dowStar then t.dom && t.dow else t.dom || t.dow)
  }

  /** The code's rule: all three. */
  predicate CodeDay(t: DayTests) {
    t.month && t.dom && t.dow
  }

  /** A lone star's test always passes. */
  predicate StarsPass(t: DayTests) {
    (t.monthStar ==> t.month) && (t.domStar ==> t.dom) && (t.dowStar ==> t.dow)
  }

  /** A field of one item. */
  lemma OneItemField(it: Item, field: string)
    requires Usable(it) && field == Render(it)
    ensures Items(Split(field, ',')) == Some([it]) && AllUsable([it])
    ensures forall v :: Denoted([it], v) <==> Denotes(it, v)
  {
    hide Split, Items, Denotes, Render;
    assert AllUsable([it]);
    FieldRoundTrip([it]);
    assert RenderAll([it]) == [Render(it)] by { assert [it][1..] == [] && [it][..0] == []; }
    assert Join([Render(it)], ',') == Render(it);
    forall v
      ensures Denoted([it], v) <==> Denotes(it, v)
    {
      if Denotes(it, v) {
        assert Denotes([it][0], v);
      }
    }
  }

  /** The values of a lone star are those it denotes. */
  lemma StarValues(field: string, values: seq<int>, v: int)
    requires FieldIs(field, values) && IsStar(field)
    ensures v in values <==> Denotes(Star, v)
  {
    OneItemField(Star, field);
    hide Split, Items, Denotes, Denoted;
  }

  lemma ParsedStarsPass(expr: string, c: CronFields, offset: int, m: int)
    requires Parses(expr, c)
    ensures StarsPass(TestsAt(Words(Trim(expr)), c, offset, m))
  {
    hide FieldIs, Words, Denotes, DateOf;
    var parts := Words(Trim(expr));
    var days := LocalDays(m, offset);
    StarMatchesAlways(m, offset);
    if IsStar(parts[3]) {
      StarValues(parts[3], c.months, DateOf(days).month);
    }
    if IsStar(parts[2]) {
      StarValues(parts[2], c.doms, DateOf(days).day);
    }
    if IsStar(parts[4]) {
      StarValues(parts[4], c.dows, (days + 4) % 7);
    }
  }

  /** Main result: the code fires where crontab does, except where the day of week is specified beside the
      month or the day of month: there it misses exactly the minutes whose time of day matches and whose
      date matches month and day of month but not the day of week, or the reverse. */
  lemma CrontabRuleExactly(expr: string, c: CronFields, offset: int, m: int)
    requires Parses(expr, c)
    ensures var t := TestsAt(Words(Trim(expr)), c, offset, m);
            var crontab := TimeMatches(c, offset, m) && CrontabDay(t);
            && (MatchesAt(c, offset, m) ==> crontab)
            && (crontab && !MatchesAt(c, offset, m)
                <==> && TimeMatches(c, offset, m) && !t.dowStar && !(t.monthStar && t.domStar)
                     && (t.month && t.dom) != t.dow)
  {
    MatchesAtByTests(expr, c, offset, m);
    ParsedStarsPass(expr, c, offset, m);
    hide TestsAt, MatchesAt, TimeMatches, Words;
  }

  /** With the month always required: the two agree when either day field is a star, and otherwise differ
      exactly at the matching minutes of the month on which one of the day fields matches and the other not. */
  lemma CrontabWithinMonthExactly(expr: string, c: CronFields, offset: int, m: int)
    requires Parses(expr, c)
    ensures var t := TestsAt(Words(Trim(expr)), c, offset, m);
            var crontab := TimeMatches(c, offset, m) && CrontabDayWithinMonth(t);
            && (MatchesAt(c, offset, m) ==> crontab)
            && (crontab && !MatchesAt(c, offset, m)
                <==> TimeMatches(c, offset, m) && !t.domStar && !t.dowStar && t.month && t.dom != t.dow)
  {
    MatchesAtByTests(expr, c, offset, m);
    hide TestsAt, MatchesAt, TimeMatches, Words;
  }

  lemma MatchesAtByTests(expr: string, c: CronFields, offset: int, m: int)
    requires Parses(expr, c)
    ensures MatchesAt(c, offset, m) <==> TimeMatches(c, offset, m) && CodeDay(TestsAt(Words(Trim(expr)), c, offset, m))
  {
    hide FieldIs, Words, DateOf;
  }

  /** Midnight on the first of the month and on Mondays. */
  const FIRST_OR_MONDAY := "0 0 1 * 1"

  function FirstOrMonday(): CronFields {
    CronFields([0], [0], [1], seq(60, i => i), [1])
  }

  lemma FieldOfOne(field: string, it: Item, values: seq<int>)
    requires Usable(it) && field == Render(it) && values != []
    requires forall v :: v in values <==> Denotes(it, v)
    ensures FieldIs(field, values)
  {
    OneItemField(it, field);
    hide Split, Items, Denotes, Denoted, Render;
  }

  lemma DigitField(n: string, d: char)
    requires n == [d] && '0' <= d <= '9'
    ensures FieldIs(n, [(d - '0') as int])
  {
    assert n[..0] == [];
    assert Value(n) == (d - '0') as int;
    hide FieldIs;
    FieldOfOne(n, Num(n), [(d - '0') as int]);
  }

  lemma StarField()
    ensures FieldIs("*", FirstOrMonday().months)
  {
    hide FieldIs;
    var values := FirstOrMonday().months;
    forall v
      ensures v in values <==> Denotes(Star, v)
    {
      if 0 <= v <= 59 {
        assert values[v] == v;
      }
    }
    FieldOfOne("*", Star, values);
  }

  /** A word, a single space and a text that starts with a word. */
  function Before(a: string, rest: string): string {
    a + (" " + rest)
  }

  lemma WordsOfBefore(a: string, rest: string)
    requires Word(a) && rest != [] && !IsSpace(rest[0])
    ensures var s := Before(a, rest);
            && s != [] && !IsSpace(s[0]) && s[|s| - 1] == rest[|rest| - 1]
            && Words(s) == [a] + Words(rest)
  {
    assert Gap(" ");
    hide IsSpace, Gap, Words;
    WordsOfFirst(a, " ", rest);
  }

  /** Five words with single spaces between them. */
  lemma WordsOfFive(s: string, a: string, b: string, c: string, d: string, e: string)
    requires Word(a) && Word(b) && Word(c) && Word(d) && Word(e)
    requires s == Before(a, Before(b, Before(c, Before(d, e))))
    ensures Words(Trim(s)) == [a, b, c, d, e]
  {
    hide IsSpace, Words, Trim, Before;
    WordsOfOne(e);
    WordsOfBefore(d, e);
    WordsOfBefore(c, Before(d, e));
    WordsOfBefore(b, Before(c, Before(d, e)));
    WordsOfBefore(a, Before(b, Before(c, Before(d, e))));
    TrimOfTrimmed(s);
  }

  lemma WordsOfOne(e: string)
    requires Word(e)
    ensures Words(e) == [e]
  {
    hide IsSpace;
  }

  lemma WordsOfFirstOrMonday()
    ensures Words(Trim(FIRST_OR_MONDAY)) == ["0", "0", "1", "*", "1"]
  {
    hide Words, Trim;
    WordsOfFive(FIRST_OR_MONDAY, "0", "0", "1", "*", "1");
  }

  lemma FirstOrMondayParses()
    ensures Parses(FIRST_OR_MONDAY, FirstOrMonday())
  {
    hide Words, Trim, FieldIs;
    WordsOfFirstOrMonday();
    DigitField("0", '0');
    DigitField("1", '1');
    StarField();
    assert WordsParse(["0", "0", "1", "*", "1"], FirstOrMonday());
    hide WordsParse;
  }

  /** 1 January 1970 was a Thursday: crontab selects its midnight under either reading, the code does not. */
  lemma FirstOfMonthMissed()
    ensures var c := FirstOrMonday();
            && Parses(FIRST_OR_MONDAY, c) && TimeMatches(c, 0, 0)
            && var t := TestsAt(Words(Trim(FIRST_OR_MONDAY)), c, 0, 0);
               CrontabDay(t) && CrontabDayWithinMonth(t) && !MatchesAt(c, 0, 0)
  {
    FirstOrMondayParses();
    WordsOfFirstOrMonday();
    hide Words, Trim, Parses;
    var c := FirstOrMonday();
    assert LocalDays(0, 0) == 0 && DateOf(0) == Date(1970, 1, 1);
    assert c.months[1] == 1;
  }

  // ---------------------------------------------------------------- half past nine on weekdays

  const WEEKDAYS_NINE_THIRTY := "30 9 * * 1-5"

  lemma WordsOfNineThirty()
    ensures Words(Trim(WEEKDAYS_NINE_THIRTY)) == ["30", "9", "*", "*", "1-5"]
  {
    hide Words, Trim;
    WordsOfFive(WEEKDAYS_NINE_THIRTY, "30", "9", "*", "*", "1-5");
  }

  lemma OneDigit(s: string, x: char)
    requires s == [x] && IsDigit(x)
    ensures Digits(s) && Value(s) == (x - '0') as int
  {
    assert s[..0] == [];
  }

  lemma TwoDigits(s: string, x: char, y: char)
    requires s == [x, y] && IsDigit(x) && IsDigit(y)
    ensures Digits(s) && Value(s) == 10 * (x - '0') as int + (y - '0') as int
  {
    OneDigit([x], x);
    assert s[..1] == [x];
  }

  /** What a field of one item holds. */
  lemma ValuesOfOne(field: string, it: Item, values: seq<int>)
    requires Usable(it) && field == Render(it) && FieldIs(field, values)
    ensures forall v :: v in values <==> Denotes(it, v)
  {
    OneItemField(it, field);
    hide Split, Items, Denotes, Denoted, Render;
  }

  /** What the fields `minute hour * * from-to` hold. */
  lemma TimeOnDays(w: seq<string>, c: CronFields, from: string, to: string)
    requires WordsParse(w, c)
    requires Digits(w[0]) && Digits(w[1]) && Digits(from) && Digits(to)
    requires IsStar(w[2]) && IsStar(w[3]) && w[4] == from + "-" + to
    ensures forall v :: v in c.minutes <==> v == Value(w[0])
    ensures forall v :: v in c.hours <==> v == Value(w[1])
    ensures forall v :: 0 <= v <= 59 ==> v in c.doms && v in c.months
    ensures forall v :: v in c.dows <==> Value(from) <= v <= Value(to)
  {
    hide FieldIs, Value, Digits;
    ValuesOfOne(w[0], Num(w[0]), c.minutes);
    ValuesOfOne(w[1], Num(w[1]), c.hours);
    ValuesOfOne(w[2], Star, c.doms);
    ValuesOfOne(w[3], Star, c.months);
    ValuesOfOne(w[4], Range(from, to), c.dows);
  }

  /** Any parse of the expression holds 30, 9, everything, everything and 1 to 5. */
  lemma NineThirtyParse(c: CronFields)
    requires Parses(WEEKDAYS_NINE_THIRTY, c)
    ensures forall v :: v in c.minutes <==> v == 30
    ensures forall v :: v in c.hours <==> v == 9
    ensures forall v :: 0 <= v <= 59 ==> v in c.doms && v in c.months
    ensures forall v :: v in c.dows <==> 1 <= v <= 5
  {
    hide Words, Trim, FieldIs, Value, Digits, WordsParse;
    WordsOfNineThirty();
    var w := ["30", "9", "*", "*", "1-5"];
    TwoDigits("30", '3', '0');
    OneDigit("9", '9');
    OneDigit("1", '1');
    OneDigit("5", '5');
    TimeOnDays(w, c, "1", "5");
  }

  /** 1 January 1970 was a Thursday: from its midnight the expression next fires at half past nine. */
  lemma NineThirtyFires(c: CronFields, r: Option<int>)
    requires Parses(WEEKDAYS_NINE_THIRTY, c) && IsNextFire(c, 0, 0, r)
    ensures r == Some(34_200_000)
  {
    NineThirtyParse(c);
    hide Parses;
    NineThirtyIsNext(c);
    NextFireUnique(c, 0, 0, r, Some(34_200_000));
  }

  lemma NineThirtyIsNext(c: CronFields)
    requires forall v :: v in c.minutes <==> v == 30
    requires forall v :: v in c.hours <==> v == 9
    requires forall v :: 0 <= v <= 59 ==> v in c.doms && v in c.months
    requires forall v :: v in c.dows <==> 1 <= v <= 5
    ensures IsNextFire(c, 0, 0, Some(34_200_000))
  {
    assert DateOf(0) == Date(1970, 1, 1);
    hide MatchesAt, DateOf;
    MatchesAtClock(c, 0, 0, 9, 30, 0, 4);
    forall m | InWindow(m, 0) && m < 570
      ensures !MatchesAt(c, 0, m)
    {
      MatchesAtClock(c, 0, 0, m / 60, m % 60, 0, 4);
    }
  }

  /** `at` carries the parsed timestamp, when readable. */
  datatype Schedule = At(time: Option<int>) | Every(duration: string) | Cron(expr: string)

  method ComputeNextRun(s: Schedule, offset: int, afterMs: int) returns (r: Option<int>)
    ensures r.Some? ==> r.value > afterMs
    ensures s.At? ==> (r.Some? <==> s.time.Some? && s.time.value > afterMs) && (r.Some? ==> r == s.time)
    ensures s.Every? ==> (r.None? <==> Durations.ParseDuration(s.duration).None?)
    ensures s.Every? ==> forall h: Option<nat>, m: Option<nat>, sec: Option<nat> ::
              Durations.Says(s.duration, h, m, sec) ==>
                var ms := Durations.OrZero(h) * 3_600_000 + Durations.OrZero(m) * 60_000 + Durations.OrZero(sec) * 1000;
                r == if ms == 0 then None else Some(afterMs + ms)
    ensures s.Cron? && Unparseable(s.expr) ==> r == None
    ensures s.Cron? && !Unparseable(s.expr) ==> exists c :: Parses(s.expr, c) && IsNextFire(c, offset, afterMs, r)
  {
    hide MatchesAt, Parses, Unparseable, IsNextFire, Durations.ParseDuration, Durations.Says;
    match s
    case At(t) =>
      r := if t.None? then None else if t.value > afterMs then t else None;
    case Every(duration) =>
      var ms := Durations.ParseDuration(duration);
      Durations.ParsedIsPositive(duration);
      Durations.DurationOfAnyNumbers(duration);
      r := if ms.Some? then Some(afterMs + ms.value) else None;
    case Cron(expr) =>
      r := NextCronFire(expr, offset, afterMs);
      FiresLater(s.expr, offset, afterMs, r);
  }

  lemma FiresLater(expr: string, offset: int, afterMs: int, r: Option<int>)
    requires Unparseable(expr) ==> r == None
    requires !Unparseable(expr) ==> exists c :: Parses(expr, c) && IsNextFire(c, offset, afterMs, r)
    ensures r.Some? ==> r.value > afterMs
  {
    hide MatchesAt, Parses, Unparseable;
  }
}
