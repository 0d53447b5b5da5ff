// Durations such as "30m" or "5m30s": hours, minutes and seconds, in that order.
module Durations {
  import opened Common
  import opened Numerals
  import opened Text

  /** How many digits a text begins with. */
  function DigitRun(s: string): (n: nat)
    ensures n <= |s|
    ensures forall i :: 0 <= i < n ==> IsDigit(s[i])
    ensures n < |s| ==> !IsDigit(s[n])
  {
    if s == [] || !IsDigit(s[0]) then 0 else 1 + DigitRun(s[1..])
  }

  /** The optional group `(\d+)unit` at the front of a text, and what follows it. */
  function Group(s: string, unit: char): (r: (Option<string>, string))
    ensures r.0.Some? ==> Digits(r.0.value)
  {
    var n := DigitRun(s);
    if 0 < n < |s| && s[n] == unit then (Some(s[..n]), s[n + 1..]) else (None, s)
  }

  function Amount(group: Option<string>): nat
    requires group.Some? ==> Digits(group.value)
  {
    if group.Some? then Value(group.value) else 0
  }

  /** Milliseconds; none for another format or a total of zero. */
  function ParseDuration(s: string): Option<nat> {
    var (h, afterHours) := Group(Trim(s), 'h');
    var (m, afterMinutes) := Group(afterHours, 'm');
    var (sec, rest) := Group(afterMinutes, 's');
    if rest != [] then None else Total(Amount(h), Amount(m), Amount(sec))
  }

  function Total(h: nat, m: nat, s: nat): Option<nat> {
    if h == 0 && m == 0 && s == 0 then None else Some((h * 3600 + m * 60 + s) * 1000)
  }

  // ---------------------------------------------------------------- reading what was written

  function GroupText(group: Option<string>, unit: char): string {
    if group.Some? then group.value + [unit] else []
  }

  predicate WellFormed(group: Option<string>) {
    group.Some? ==> Digits(group.value)
  }

  /** A text that does not begin with a group of this unit: it is over, or its first group has another. */
  predicate StartsOther(s: string, unit: char) {
    s == [] || (DigitRun(s) < |s| && s[DigitRun(s)] != unit)
  }

  lemma {:induction false} DigitRunOf(digits: string, rest: string)
    requires forall i :: 0 <= i < |digits| ==> IsDigit(digits[i])
    requires rest != [] && !IsDigit(rest[0])
    ensures DigitRun(digits + rest) == |digits|
  {
    hide IsDigit;
    var s, n := digits + rest, DigitRun(digits + rest);
    assert s[|digits|] == rest[0];
    assert forall i :: 0 <= i < |digits| ==> s[i] == digits[i];
  }

  lemma GroupOfText(group: Option<string>, unit: char, rest: string)
    requires WellFormed(group) && !IsDigit(unit) && (group.None? ==> StartsOther(rest, unit))
    ensures Group(GroupText(group, unit) + rest, unit) == (group, rest)
  {
    if group.Some? {
      var d := group.value;
      var s := GroupText(group, unit) + rest;
      assert s == d + ([unit] + rest);
      DigitRunOf(d, [unit] + rest);
      assert s[..|d|] == d && s[|d|] == unit && s[|d| + 1..] == rest;
    } else {
      assert GroupText(group, unit) + rest == rest;
    }
  }

  lemma StartsWithGroup(group: Option<string>, unit: char, other: char, rest: string)
    requires WellFormed(group) && !IsDigit(unit) && unit != other
    requires group.None? ==> StartsOther(rest, other)
    ensures StartsOther(GroupText(group, unit) + rest, other)
  {
    if group.Some? {
      var d := group.value;
      assert GroupText(group, unit) + rest == d + ([unit] + rest);
      DigitRunOf(d, [unit] + rest);
    } else {
      assert GroupText(group, unit) + rest == rest;
    }
  }

  /** A duration's text. */
  function DurationText(h: Option<string>, m: Option<string>, s: Option<string>): string {
    GroupText(h, 'h') + (GroupText(m, 'm') + GroupText(s, 's'))
  }

  lemma GroupTextTrimmed(group: Option<string>, unit: char, rest: string)
    requires WellFormed(group) && !IsSpace(unit) && Trimmed(rest)
    ensures Trimmed(GroupText(group, unit) + rest)
  {
    if group.Some? {
      assert IsDigit(group.value[0]);
    } else {
      assert GroupText(group, unit) + rest == rest;
    }
  }

  lemma LastGroup(group: Option<string>, unit: char)
    requires WellFormed(group) && !IsDigit(unit) && !IsSpace(unit)
    ensures Group(GroupText(group, unit), unit) == (group, [])
    ensures Trimmed(GroupText(group, unit))
    ensures forall other :: other != unit ==> StartsOther(GroupText(group, unit), other)
  {
    assert GroupText(group, unit) + [] == GroupText(group, unit);
    GroupOfText(group, unit, []);
    GroupTextTrimmed(group, unit, []);
    forall other | other != unit
      ensures StartsOther(GroupText(group, unit), other)
    {
      StartsWithGroup(group, unit, other, []);
    }
  }

  lemma TextIsTrimmed(h: Option<string>, m: Option<string>, s: Option<string>)
    requires WellFormed(h) && WellFormed(m) && WellFormed(s)
    ensures Trim(DurationText(h, m, s)) == DurationText(h, m, s)
  {
    var seconds := GroupText(s, 's');
    LastGroup(s, 's');
    GroupTextTrimmed(m, 'm', seconds);
    GroupTextTrimmed(h, 'h', GroupText(m, 'm') + seconds);
    hide GroupText, Trimmed;
    TrimOfTrimmed(DurationText(h, m, s));
  }

  lemma GroupsOfText(h: Option<string>, m: Option<string>, s: Option<string>)
    requires WellFormed(h) && WellFormed(m) && WellFormed(s)
    ensures Group(DurationText(h, m, s), 'h') == (h, GroupText(m, 'm') + GroupText(s, 's'))
    ensures Group(GroupText(m, 'm') + GroupText(s, 's'), 'm') == (m, GroupText(s, 's'))
    ensures Group(GroupText(s, 's'), 's') == (s, [])
  {
    var seconds := GroupText(s, 's');
    LastGroup(s, 's');
    StartsWithGroup(m, 'm', 'h', seconds);
    hide Group, GroupText, StartsOther;
    GroupOfText(h, 'h', GroupText(m, 'm') + seconds);
    GroupOfText(m, 'm', seconds);
  }

  /** Any groups of digits, in order and with any of them missing, read back as what they say. */
  lemma ParseOfText(text: string, h: Option<string>, m: Option<string>, s: Option<string>)
    requires WellFormed(h) && WellFormed(m) && WellFormed(s) && Trim(text) == DurationText(h, m, s)
    ensures ParseDuration(text) == Total(Amount(h), Amount(m), Amount(s))
  {
    hide Total, Group, GroupText, DurationText, Trim, Amount;
    GroupsOfText(h, m, s);
  }

  lemma GroupSplits(s: string, unit: char)
    ensures GroupText(Group(s, unit).0, unit) + Group(s, unit).1 == s
  {
  }

  lemma NothingIsLeft(text: string)
    requires ParseDuration(text).Some?
    ensures var afterHours := Group(Trim(text), 'h').1; Group(Group(afterHours, 'm').1, 's').1 == []
  {
    hide Trim, Amount, Group, Total;
  }

  lemma GroupsSplit(t: string)
    requires Group(Group(Group(t, 'h').1, 'm').1, 's').1 == []
    ensures var afterHours := Group(t, 'h').1;
            var afterMinutes := Group(afterHours, 'm').1;
            t == DurationText(Group(t, 'h').0, Group(afterHours, 'm').0, Group(afterMinutes, 's').0)
  {
    hide Group, GroupText;
    var afterHours := Group(t, 'h').1;
    var afterMinutes := Group(afterHours, 'm').1;
    GroupSplits(t, 'h');
    GroupSplits(afterHours, 'm');
    GroupSplits(afterMinutes, 's');
    assert GroupText(Group(afterMinutes, 's').0, 's') + [] == GroupText(Group(afterMinutes, 's').0, 's');
  }

  /** And nothing else is accepted. */
  lemma ParsedIsText(text: string) returns (h: Option<string>, m: Option<string>, s: Option<string>)
    requires ParseDuration(text).Some?
    ensures WellFormed(h) && WellFormed(m) && WellFormed(s)
    ensures Trim(text) == DurationText(h, m, s)
  {
    hide Trim, Group, DurationText, ParseDuration;
    NothingIsLeft(text);
    var t := Trim(text);
    GroupsSplit(t);
    h, m := Group(t, 'h').0, Group(Group(t, 'h').1, 'm').0;
    s := Group(Group(Group(t, 'h').1, 'm').1, 's').0;
  }

  function WrittenGroup(n: Option<nat>): Option<string> {
    if n.Some? then Some(Written(n.value)) else None
  }

  function OrZero(n: Option<nat>): nat {
    if n.Some? then n.value else 0
  }

  /** The text is hours, minutes and seconds, those that are there, with their numbers written out. */
  predicate Says(text: string, h: Option<nat>, m: Option<nat>, s: Option<nat>) {
    Trim(text) == DurationText(WrittenGroup(h), WrittenGroup(m), WrittenGroup(s))
  }

  lemma WrittenGroupIs(n: Option<nat>)
    ensures WellFormed(WrittenGroup(n)) && Amount(WrittenGroup(n)) == OrZero(n)
  {
    ValueOfWritten(OrZero(n));
  }

  lemma WritingSays(h: Option<nat>, m: Option<nat>, s: Option<nat>)
    ensures Says(DurationText(WrittenGroup(h), WrittenGroup(m), WrittenGroup(s)), h, m, s)
  {
    WrittenGroupIs(h);
    WrittenGroupIs(m);
    WrittenGroupIs(s);
    hide WellFormed, DurationText, WrittenGroup, Amount;
    TextIsTrimmed(WrittenGroup(h), WrittenGroup(m), WrittenGroup(s));
  }

  /** Main result: hours, minutes and seconds written as numbers read back as their milliseconds, and as
      nothing when they come to zero. */
  lemma DurationOfNumbers(text: string, h: Option<nat>, m: Option<nat>, s: Option<nat>)
    requires Says(text, h, m, s)
    ensures var total := OrZero(h) * 3_600_000 + OrZero(m) * 60_000 + OrZero(s) * 1000;
            ParseDuration(text) == if total == 0 then None else Some(total)
  {
    hide WellFormed, ParseDuration, DurationText, WrittenGroup, Amount;
    WrittenGroupIs(h);
    WrittenGroupIs(m);
    WrittenGroupIs(s);
    ParseOfText(text, WrittenGroup(h), WrittenGroup(m), WrittenGroup(s));
  }

  lemma DurationOfAnyNumbers(text: string)
    ensures forall h, m, s :: Says(text, h, m, s) ==>
              var total := OrZero(h) * 3_600_000 + OrZero(m) * 60_000 + OrZero(s) * 1000;
              ParseDuration(text) == if total == 0 then None else Some(total)
  {
    hide Says, ParseDuration;
    forall h, m, s | Says(text, h, m, s)
      ensures var total := OrZero(h) * 3_600_000 + OrZero(m) * 60_000 + OrZero(s) * 1000;
              ParseDuration(text) == if total == 0 then None else Some(total)
    {
      DurationOfNumbers(text, h, m, s);
    }
  }

  lemma ParsedIsPositive(text: string)
    ensures ParseDuration(text).Some? ==> ParseDuration(text).value > 0
  {
    hide Group, Trim, Amount;
  }
}
