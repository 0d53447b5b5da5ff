// Conversation compaction: token estimates by ceiling division, the in-memory strip of
// old tool results, and the full compaction that appends to a linked log.
module Compaction {
  import opened Common
  import opened SessionTypes

  const TRUNCATION_PLACEHOLDER := "[content truncated during compaction]"
  const LARGE_TOOL_RESULT_THRESHOLD: nat := 500
  const MIN_MICROCOMPACT_SAVINGS: int := 20_000

  datatype Config = Config(maxContextTokens: int, maxOutputTokens: int, autoCompactBuffer: int, microcompactKeepRecent: int)

  // ---------------------------------------------------------------- token estimates

  /** ceil(chars / 3.5). */
  function Tokens(chars: nat): nat {
    (2 * chars + 6) / 7
  }

  function BlockChars(b: Block): nat {
    match b
    case Text(text) => |text|
    case Image(_) => 0
    case ToolUse(_, name, input) => |input.json| + |name|
    case ToolResult(_, content) => |content|
  }

  function Chars(blocks: seq<Block>): nat {
    if blocks == [] then 0 else Chars(blocks[..|blocks| - 1]) + BlockChars(blocks[|blocks| - 1])
  }

  function EntryTokens(e: Entry): nat {
    match e.content
    case Plain(text) => Tokens(|text|)
    case Blocks(blocks) => Tokens(Chars(blocks))
  }

  function SessionTokens(es: seq<Entry>): nat {
    if es == [] then 0 else SessionTokens(es[..|es| - 1]) + EntryTokens(es[|es| - 1])
  }

  /** Tokens is the least whole number not below chars / 3.5. */
  lemma TokensIsCeiling(chars: nat)
    ensures 2 * chars <= 7 * Tokens(chars) <= 2 * chars + 6
  {
  }

  /** The characters an entry is estimated by: its text, or those of its texts, tool inputs, tool names
      and tool results. Images do not count. */
  function CountedText(e: Entry): string {
    if e.content.Plain? then e.content.text else CountedBlocks(e.content.blocks)
  }

  function CountedBlock(b: Block): string {
    match b
    case Text(text) => text
    case Image(_) => ""
    case ToolUse(_, name, input) => input.json + name
    case ToolResult(_, content) => content
  }

  function CountedBlocks(blocks: seq<Block>): string {
    Flatten(seq(|blocks|, i requires 0 <= i < |blocks| => CountedBlock(blocks[i])))
  }

  lemma {:induction false} CharsAreCounted(blocks: seq<Block>)
    ensures Chars(blocks) == |CountedBlocks(blocks)|
  {
    if blocks != [] {
      var init, last := blocks[..|blocks| - 1], blocks[|blocks| - 1];
      CharsAreCounted(init);
      CountedOfAppend(init, last);
      SplitLast(blocks);
    }
  }

  lemma CountedOfAppend(blocks: seq<Block>, b: Block)
    ensures |CountedBlocks(blocks + [b])| == |CountedBlocks(blocks)| + BlockChars(b)
  {
    hide Flatten;
    var pieces := seq(|blocks|, i requires 0 <= i < |blocks| => CountedBlock(blocks[i]));
    var all := blocks + [b];
    FlattenOfAppend(pieces, CountedBlock(b));
    assert seq(|all|, i requires 0 <= i < |all| => CountedBlock(all[i])) == pieces + [CountedBlock(b)];
  }

  /** An entry's estimate is its counted characters over 3.5, rounded up once. */
  lemma EntryTokensExactly(e: Entry)
    ensures var n := |CountedText(e)|; 2 * n <= 7 * EntryTokens(e) <= 2 * n + 6
  {
    if e.content.Blocks? {
      CharsAreCounted(e.content.blocks);
    }
  }

  /** A log's estimate is the sum of its entries' estimates. */
  lemma {:induction false} SessionTokensAdd(a: seq<Entry>, b: seq<Entry>)
    ensures SessionTokens(a + b) == SessionTokens(a) + SessionTokens(b)
    ensures SessionTokens([]) == 0
    ensures forall e :: SessionTokens([e]) == EntryTokens(e)
  {
    hide EntryTokens;
    forall e
      ensures SessionTokens([e]) == EntryTokens(e)
    {
      assert [e][..0] == [];
    }
    if b == [] {
      assert a + b == a;
    } else {
      SessionTokensAdd(a, b[..|b| - 1]);
      assert (a + b)[..|a + b| - 1] == a + b[..|b| - 1];
    }
  }

  // ---------------------------------------------------------------- microcompact

  predicate HasToolResult(e: Entry) {
    e.content.Blocks? && exists i :: 0 <= i < |e.content.blocks| && e.content.blocks[i].ToolResult?
  }

  /** How many entries with tool results there are. */
  function ToolResultEntries(es: seq<Entry>): nat {
    if es == [] then 0 else ToolResultEntries(es[..|es| - 1]) + (if HasToolResult(es[|es| - 1]) then 1 else 0)
  }

  /** Entry i holds tool results and at least keepRecent later entries do too. */
  predicate Truncatable(es: seq<Entry>, keepRecent: int, i: nat)
    requires i < |es|
  {
    HasToolResult(es[i]) && ToolResultEntries(es[..i]) < ToolResultEntries(es) - keepRecent
  }

  predicate Large(b: Block) {
    b.ToolResult? && |b.content| > LARGE_TOOL_RESULT_THRESHOLD
  }

  function ShrunkBlock(b: Block): Block {
    if Large(b) then b.(content := TRUNCATION_PLACEHOLDER) else b
  }

  function ShrunkBlocks(blocks: seq<Block>): (r: seq<Block>)
    ensures |r| == |blocks|
    ensures forall i :: 0 <= i < |blocks| ==> r[i] == ShrunkBlock(blocks[i])
  {
    seq(|blocks|, i requires 0 <= i < |blocks| => ShrunkBlock(blocks[i]))
  }

  function Shrunk(e: Entry): Entry {
    if e.content.Blocks? then e.(content := Blocks(ShrunkBlocks(e.content.blocks))) else e
  }

  /** What microcompact returns: the same entries, in order, the truncatable ones shrunk. */
  function Compacted(es: seq<Entry>, keepRecent: int): (r: seq<Entry>)
    ensures |r| == |es|
    ensures forall i :: 0 <= i < |es| ==> r[i] == if Truncatable(es, keepRecent, i) then Shrunk(es[i]) else es[i]
  {
    seq(|es|, i requires 0 <= i < |es| => if Truncatable(es, keepRecent, i) then Shrunk(es[i]) else es[i])
  }

  function BlockSaving(b: Block): int {
    if Large(b) then Tokens(|b.content|) - Tokens(|TRUNCATION_PLACEHOLDER|) else 0
  }

  function BlocksSaving(blocks: seq<Block>): int {
    if blocks == [] then 0 else BlocksSaving(blocks[..|blocks| - 1]) + BlockSaving(blocks[|blocks| - 1])
  }

  function EntrySaving(es: seq<Entry>, keepRecent: int, i: nat): int
    requires i < |es|
  {
    if Truncatable(es, keepRecent, i) && es[i].content.Blocks? then BlocksSaving(es[i].content.blocks) else 0
  }

  /** savedTokens over the first n entries. */
  function Saved(es: seq<Entry>, keepRecent: int, n: nat): int
    requires n <= |es|
  {
    if n == 0 then 0 else Saved(es, keepRecent, n - 1) + EntrySaving(es, keepRecent, n - 1)
  }

  /** Indices of the entries holding tool results, in order. */
  method ToolResultIndices(es: seq<Entry>) returns (indices: seq<nat>)
    ensures |indices| == ToolResultEntries(es)
    ensures forall k :: 0 <= k < |indices| ==>
              indices[k] < |es| && HasToolResult(es[indices[k]]) && ToolResultEntries(es[..indices[k]]) == k
    ensures forall i :: 0 <= i < |es| && HasToolResult(es[i]) ==>
              ToolResultEntries(es[..i]) < |indices| && indices[ToolResultEntries(es[..i])] == i
  {
    indices := [];
    var i := 0;
    while i < |es|
      invariant 0 <= i <= |es|
      invariant |indices| == ToolResultEntries(es[..i])
      invariant forall k :: 0 <= k < |indices| ==>
                  indices[k] < i && HasToolResult(es[indices[k]]) && ToolResultEntries(es[..indices[k]]) == k
      invariant forall j :: 0 <= j < i && HasToolResult(es[j]) ==>
                  ToolResultEntries(es[..j]) < |indices| && indices[ToolResultEntries(es[..j])] == j
    {
      assert es[..i + 1][..i] == es[..i];
      if HasToolResult(es[i]) {
        indices := indices + [i];
      }
      i := i + 1;
    }
    assert es[..i] == es;
  }

  /** The truncatable set is a prefix of the indices: all but the most recent keepRecent. */
  method Microcompact(es: seq<Entry>, keepRecent: int) returns (result: seq<Entry>, savedTokens: int)
    ensures result == Compacted(es, keepRecent)
    ensures savedTokens == Saved(es, keepRecent, |es|)
    ensures Stripped(es, keepRecent, result)
  {
    StrippedExactly(es, keepRecent);
    hide Stripped;
    var indices := ToolResultIndices(es);
    var cut := Max(0, |indices| - keepRecent);
    var truncatable := JsSlice(indices, 0, cut);
    hide HasToolResult, ToolResultEntries, Shrunk, BlocksSaving;
    assert truncatable == indices[..Min(cut, |indices|)];
    result, savedTokens := [], 0;
    var i := 0;
    while i < |es|
      invariant 0 <= i <= |es|
      invariant result == Compacted(es, keepRecent)[..i]
      invariant savedTokens == Saved(es, keepRecent, i)
    {
      assert i in truncatable <==> Truncatable(es, keepRecent, i) by {
        InTruncatable(es, keepRecent, indices, truncatable, i);
      }
      if i !in truncatable || es[i].content.Plain? {
        PlainStays(es[i]);
        result := result + [es[i]];
      } else {
        var blocks, saving := ShrinkBlocks(es[i].content.blocks);
        ShrinksTo(es[i], blocks);
        result := result + [es[i].(content := Blocks(blocks))];
        savedTokens := savedTokens + saving;
      }
      i := i + 1;
    }
  }

  /** The entries after i that hold a tool result. */
  ghost function LaterResults(es: seq<Entry>, i: nat): set<nat> {
    set j: nat | i < j < |es| && es[j].content.Blocks? && exists b :: b in es[j].content.blocks && b.ToolResult?
  }

  /** What becomes of a block: a tool result of more than 500 characters, with at least keepRecent later
      entries that hold one, loses its content and nothing else; every other block stays. */
  ghost predicate StrippedBlock(es: seq<Entry>, keepRecent: int, i: nat, b: Block, after: Block) {
    if b.ToolResult? && |b.content| > 500 && |LaterResults(es, i)| >= keepRecent
    then after == ToolResult(b.toolUseId, "[content truncated during compaction]")
    else after == b
  }

  ghost predicate StrippedEntry(es: seq<Entry>, keepRecent: int, i: nat, after: Entry)
    requires i < |es|
  {
    var e := es[i];
    && after == e.(content := after.content)
    && (e.content.Plain? ==> after.content == e.content)
    && (e.content.Blocks? ==>
          && after.content.Blocks? && |after.content.blocks| == |e.content.blocks|
          && forall k :: 0 <= k < |e.content.blocks| ==>
               StrippedBlock(es, keepRecent, i, e.content.blocks[k], after.content.blocks[k]))
  }

  /** The same entries in the same order, each stripped. */
  ghost predicate Stripped(es: seq<Entry>, keepRecent: int, result: seq<Entry>) {
    |result| == |es| && forall i :: 0 <= i < |es| ==> StrippedEntry(es, keepRecent, i, result[i])
  }

  lemma HasToolResultExactly(e: Entry)
    ensures HasToolResult(e) <==> e.content.Blocks? && exists b :: b in e.content.blocks && b.ToolResult?
  {
    if e.content.Blocks? {
      if b :| b in e.content.blocks && b.ToolResult? {
        var i :| 0 <= i < |e.content.blocks| && e.content.blocks[i] == b;
        assert e.content.blocks[i].ToolResult?;
      }
    }
  }

  ghost function ResultsBetween(es: seq<Entry>, i: nat, n: nat): set<nat>
    requires n <= |es|
  {
    set j: nat | i < j < n && HasToolResult(es[j])
  }

  lemma {:induction false} CountBetween(es: seq<Entry>, i: nat, n: nat)
    requires i < n <= |es|
    ensures |ResultsBetween(es, i, n)| == ToolResultEntries(es[..n]) - ToolResultEntries(es[..i + 1])
  {
    hide HasToolResult;
    if n == i + 1 {
      assert ResultsBetween(es, i, n) == {};
    } else {
      CountBetween(es, i, n - 1);
      assert es[..n][..n - 1] == es[..n - 1];
      var before := ResultsBetween(es, i, n - 1);
      if HasToolResult(es[n - 1]) {
        assert ResultsBetween(es, i, n) == before + {n - 1};
      } else {
        assert ResultsBetween(es, i, n) == before;
      }
    }
  }

  lemma LaterAreBetween(es: seq<Entry>, i: nat)
    requires i < |es|
    ensures LaterResults(es, i) == ResultsBetween(es, i, |es|)
  {
    hide HasToolResult;
    forall j: nat | i < j < |es|
      ensures j in LaterResults(es, i) <==> j in ResultsBetween(es, i, |es|)
    {
      HasToolResultExactly(es[j]);
    }
  }

  lemma TruncatableExactly(es: seq<Entry>, keepRecent: int, i: nat)
    requires i < |es|
    ensures Truncatable(es, keepRecent, i) <==> HasToolResult(es[i]) && |LaterResults(es, i)| >= keepRecent
  {
    hide HasToolResult, LaterResults, ResultsBetween;
    LaterAreBetween(es, i);
    CountBetween(es, i, |es|);
    assert es[..|es|] == es && es[..i + 1][..i] == es[..i];
  }

  /** Main result for stripping: which contents go, block by block. */
  lemma StrippedExactly(es: seq<Entry>, keepRecent: int)
    ensures Stripped(es, keepRecent, Compacted(es, keepRecent))
  {
    hide LaterResults, Truncatable, HasToolResult;
    forall i | 0 <= i < |es|
      ensures StrippedEntry(es, keepRecent, i, Compacted(es, keepRecent)[i])
    {
      TruncatableExactly(es, keepRecent, i);
      HasToolResultExactly(es[i]);
    }
  }

  lemma PlainStays(e: Entry)
    ensures e.content.Plain? ==> Shrunk(e) == e
  {
  }

  lemma ShrinksTo(e: Entry, blocks: seq<Block>)
    requires e.content.Blocks? && blocks == ShrunkBlocks(e.content.blocks)
    ensures Shrunk(e) == e.(content := Blocks(blocks))
  {
  }

  lemma InTruncatable(es: seq<Entry>, keepRecent: int, indices: seq<nat>, truncatable: seq<nat>, i: nat)
    requires i < |es| && |indices| == ToolResultEntries(es)
    requires forall k :: 0 <= k < |indices| ==>
               indices[k] < |es| && HasToolResult(es[indices[k]]) && ToolResultEntries(es[..indices[k]]) == k
    requires forall j :: 0 <= j < |es| && HasToolResult(es[j]) ==>
               ToolResultEntries(es[..j]) < |indices| && indices[ToolResultEntries(es[..j])] == j
    requires truncatable == indices[..Min(Max(0, |indices| - keepRecent), |indices|)]
    ensures i in truncatable <==> Truncatable(es, keepRecent, i)
  {
    hide HasToolResult, ToolResultEntries;
    if Truncatable(es, keepRecent, i) {
      assert truncatable[ToolResultEntries(es[..i])] == i;
    }
    if i in truncatable {
      var k :| 0 <= k < |truncatable| && truncatable[k] == i;
      assert indices[k] == i;
    }
  }

  method ShrinkBlocks(blocks: seq<Block>) returns (out: seq<Block>, saving: int)
    ensures out == ShrunkBlocks(blocks) && saving == BlocksSaving(blocks)
  {
    out, saving := [], 0;
    var k := 0;
    while k < |blocks|
      invariant 0 <= k <= |blocks|
      invariant out == ShrunkBlocks(blocks)[..k] && saving == BlocksSaving(blocks[..k])
    {
      assert blocks[..k + 1][..k] == blocks[..k];
      var block := blocks[k];
      if block.ToolResult? && |block.content| > LARGE_TOOL_RESULT_THRESHOLD {
        saving := saving + Tokens(|block.content|) - Tokens(|TRUNCATION_PLACEHOLDER|);
        block := block.(content := TRUNCATION_PLACEHOLDER);
      }
      out := out + [block];
      k := k + 1;
    }
    assert blocks[..k] == blocks;
  }

  // ---------------------------------------------------------------- idempotence

  lemma ShrunkHasToolResult(e: Entry)
    ensures HasToolResult(Shrunk(e)) == HasToolResult(e)
    ensures Shrunk(Shrunk(e)) == Shrunk(e)
  {
    if e.content.Blocks? {
      var blocks := e.content.blocks;
      assert forall i :: 0 <= i < |blocks| ==> ShrunkBlocks(blocks)[i].ToolResult? == blocks[i].ToolResult?;
      assert |TRUNCATION_PLACEHOLDER| == 37;
      assert ShrunkBlocks(ShrunkBlocks(blocks)) == ShrunkBlocks(blocks);
    }
  }

  lemma {:induction false} SameToolResultEntries(a: seq<Entry>, b: seq<Entry>)
    requires |a| == |b| && forall i :: 0 <= i < |a| ==> HasToolResult(a[i]) == HasToolResult(b[i])
    ensures ToolResultEntries(a) == ToolResultEntries(b)
  {
    if a != [] {
      SameToolResultEntries(a[..|a| - 1], b[..|b| - 1]);
    }
  }

  lemma SameTruncatable(es: seq<Entry>, keepRecent: int, i: nat)
    requires i < |es|
    ensures Truncatable(Compacted(es, keepRecent), keepRecent, i) == Truncatable(es, keepRecent, i)
  {
    var c := Compacted(es, keepRecent);
    forall j | 0 <= j < |es|
      ensures HasToolResult(c[j]) == HasToolResult(es[j])
    {
      ShrunkHasToolResult(es[j]);
    }
    hide HasToolResult, Shrunk;
    SameToolResultEntries(c, es);
    SameToolResultEntries(c[..i], es[..i]);
  }

  lemma {:induction false} ShrunkSavesNothing(blocks: seq<Block>)
    ensures BlocksSaving(ShrunkBlocks(blocks)) == 0
  {
    if blocks != [] {
      assert |TRUNCATION_PLACEHOLDER| == 37;
      ShrunkSavesNothing(blocks[..|blocks| - 1]);
      assert ShrunkBlocks(blocks)[..|blocks| - 1] == ShrunkBlocks(blocks[..|blocks| - 1]);
    }
  }

  /** Main result: a second microcompact changes nothing and saves nothing. */
  lemma Idempotent(es: seq<Entry>, keepRecent: int)
    ensures Compacted(Compacted(es, keepRecent), keepRecent) == Compacted(es, keepRecent)
    ensures Saved(Compacted(es, keepRecent), keepRecent, |es|) == 0
  {
    var c := Compacted(es, keepRecent);
    forall i | 0 <= i < |es|
      ensures Compacted(c, keepRecent)[i] == c[i] && EntrySaving(c, keepRecent, i) == 0
    {
      SameTruncatable(es, keepRecent, i);
      ShrunkHasToolResult(es[i]);
      if es[i].content.Blocks? {
        ShrunkSavesNothing(es[i].content.blocks);
      }
    }
    SavesNothing(c, keepRecent, |es|);
  }

  lemma {:induction false} SavesNothing(es: seq<Entry>, keepRecent: int, n: nat)
    requires n <= |es| && forall i :: 0 <= i < n ==> EntrySaving(es, keepRecent, i) == 0
    ensures Saved(es, keepRecent, n) == 0
  {
    if n > 0 {
      SavesNothing(es, keepRecent, n - 1);
    }
  }

  // ---------------------------------------------------------------- the error of the estimate

  /** How many blocks are truncated. */
  function Cuts(blocks: seq<Block>): nat {
    if blocks == [] then 0 else Cuts(blocks[..|blocks| - 1]) + CutOf(blocks[|blocks| - 1])
  }

  function EntryCuts(es: seq<Entry>, keepRecent: int, i: nat): nat
    requires i < |es|
  {
    if Truncatable(es, keepRecent, i) && es[i].content.Blocks? then Cuts(es[i].content.blocks) else 0
  }

  function TotalCuts(es: seq<Entry>, keepRecent: int, n: nat): nat
    requires n <= |es|
  {
    if n == 0 then 0 else TotalCuts(es, keepRecent, n - 1) + EntryCuts(es, keepRecent, n - 1)
  }

  /** How many entries lose at least one block's content. */
  function CutEntries(es: seq<Entry>, keepRecent: int, n: nat): nat
    requires n <= |es|
  {
    if n == 0 then 0 else CutEntries(es, keepRecent, n - 1) + (if EntryCuts(es, keepRecent, n - 1) > 0 then 1 else 0)
  }

  function CutOf(b: Block): nat {
    if Large(b) then 1 else 0
  }

  /** One block: cutting removes at least 464 characters, and seven times the booked saving is within
      3 of twice the characters removed. */
  lemma BlockError(b: Block)
    ensures var removed := BlockChars(b) - BlockChars(ShrunkBlock(b));
            && removed >= 464 * CutOf(b)
            && -3 * CutOf(b) <= 7 * BlockSaving(b) - 2 * removed <= 3 * CutOf(b)
            && (CutOf(b) == 0 ==> ShrunkBlock(b) == b)
  {
    assert |TRUNCATION_PLACEHOLDER| == 37;
    if Large(b) {
      TokensIsCeiling(|b.content|);
    }
  }

  lemma {:induction false} BlocksError(blocks: seq<Block>)
    ensures var removed := Chars(blocks) - Chars(ShrunkBlocks(blocks));
            && removed >= 464 * Cuts(blocks)
            && -3 * Cuts(blocks) <= 7 * BlocksSaving(blocks) - 2 * removed <= 3 * Cuts(blocks)
            && (Cuts(blocks) == 0 ==> ShrunkBlocks(blocks) == blocks)
  {
    if blocks != [] {
      hide BlockChars, ShrunkBlock, BlockSaving, CutOf;
      var init, last := blocks[..|blocks| - 1], blocks[|blocks| - 1];
      BlocksError(init);
      BlockError(last);
      assert ShrunkBlocks(blocks)[..|blocks| - 1] == ShrunkBlocks(init);
      SplitLast(blocks);
    }
  }

  /** Over one entry: 7 |saved - drop| <= 3 cuts + 6, nothing without a cut, a real drop with one. */
  lemma EntryError(blocks: seq<Block>)
    ensures var drop := Tokens(Chars(blocks)) - Tokens(Chars(ShrunkBlocks(blocks)));
            var cuts := Cuts(blocks);
            && (cuts > 0 ==> drop > 0 && -3 * cuts - 6 <= 7 * (BlocksSaving(blocks) - drop) <= 3 * cuts + 6)
            && (cuts == 0 ==> drop == 0 && BlocksSaving(blocks) == 0)
  {
    BlocksError(blocks);
    TokensIsCeiling(Chars(blocks));
    TokensIsCeiling(Chars(ShrunkBlocks(blocks)));
  }

  /** The drop in the estimate that truncation really brings, over the first n entries. */
  function Drop(es: seq<Entry>, keepRecent: int, n: nat): int
    requires n <= |es|
  {
    SessionTokens(es[..n]) - SessionTokens(Compacted(es, keepRecent)[..n])
  }

  lemma DropStep(es: seq<Entry>, keepRecent: int, n: nat)
    requires 0 < n <= |es|
    ensures Drop(es, keepRecent, n)
            == Drop(es, keepRecent, n - 1) + EntryTokens(es[n - 1]) - EntryTokens(Compacted(es, keepRecent)[n - 1])
  {
    var c := Compacted(es, keepRecent);
    assert es[..n][..n - 1] == es[..n - 1] && c[..n][..n - 1] == c[..n - 1];
    hide EntryTokens, Compacted;
  }

  /** `saved` misses `drop` by at most 3/7 per cut plus 6/7 per cut entry, in particular by at most
      the number of cuts; and there is a real drop exactly when something was cut. */
  predicate ErrorBound(saved: int, drop: int, cuts: int, cutEntries: int) {
    && 0 - 3 * cuts - 6 * cutEntries <= 7 * (saved - drop) <= 3 * cuts + 6 * cutEntries
    && 0 - cuts <= saved - drop <= cuts
    && drop >= 0
    && (drop > 0 <==> cuts > 0)
  }

  lemma BoundsAdd(saved: int, drop: int, cuts: nat, cutEntries: nat, saving: int, entryDrop: int, entryCuts: nat)
    requires ErrorBound(saved, drop, cuts, cutEntries)
    requires ErrorBound(saving, entryDrop, entryCuts, if entryCuts > 0 then 1 else 0)
    ensures ErrorBound(saved + saving, drop + entryDrop, cuts + entryCuts, cutEntries + if entryCuts > 0 then 1 else 0)
  {
  }

  predicate ErrorWithin(es: seq<Entry>, keepRecent: int, n: nat)
    requires n <= |es|
  {
    ErrorBound(Saved(es, keepRecent, n), Drop(es, keepRecent, n), TotalCuts(es, keepRecent, n), CutEntries(es, keepRecent, n))
  }

  lemma ErrorStep(es: seq<Entry>, keepRecent: int, n: nat)
    requires 0 < n <= |es| && ErrorWithin(es, keepRecent, n - 1)
    ensures ErrorWithin(es, keepRecent, n)
  {
    hide ErrorBound, Drop, EntrySaving, EntryCuts, EntryTokens, Compacted;
    DropStep(es, keepRecent, n);
    OneEntryError(es, keepRecent, n - 1);
    TotalsStep(es, keepRecent, n);
    BoundsAdd(Saved(es, keepRecent, n - 1), Drop(es, keepRecent, n - 1), TotalCuts(es, keepRecent, n - 1),
              CutEntries(es, keepRecent, n - 1), EntrySaving(es, keepRecent, n - 1),
              EntryTokens(es[n - 1]) - EntryTokens(Compacted(es, keepRecent)[n - 1]), EntryCuts(es, keepRecent, n - 1));
  }

  /** Main result: the error of savedTokens against the true drop of the estimate. */
  lemma {:induction false} SavedErrorBound(es: seq<Entry>, keepRecent: int, n: nat)
    requires n <= |es|
    ensures ErrorBound(Saved(es, keepRecent, n), Drop(es, keepRecent, n), TotalCuts(es, keepRecent, n), CutEntries(es, keepRecent, n))
  {
    if n == 0 {
      assert es[..0] == [] && Compacted(es, keepRecent)[..0] == [];
    } else {
      hide ErrorBound, Saved, Drop, TotalCuts, CutEntries;
      SavedErrorBound(es, keepRecent, n - 1);
      ErrorStep(es, keepRecent, n);
    }
  }

  lemma TotalsStep(es: seq<Entry>, keepRecent: int, n: nat)
    requires 0 < n <= |es|
    ensures Saved(es, keepRecent, n) == Saved(es, keepRecent, n - 1) + EntrySaving(es, keepRecent, n - 1)
    ensures TotalCuts(es, keepRecent, n) == TotalCuts(es, keepRecent, n - 1) + EntryCuts(es, keepRecent, n - 1)
    ensures CutEntries(es, keepRecent, n)
            == CutEntries(es, keepRecent, n - 1) + (if EntryCuts(es, keepRecent, n - 1) > 0 then 1 else 0)
  {
  }

  lemma OneEntryError(es: seq<Entry>, keepRecent: int, i: nat)
    requires i < |es|
    ensures ErrorBound(EntrySaving(es, keepRecent, i),
                       EntryTokens(es[i]) - EntryTokens(Compacted(es, keepRecent)[i]),
                       EntryCuts(es, keepRecent, i),
                       if EntryCuts(es, keepRecent, i) > 0 then 1 else 0)
  {
    hide Truncatable, BlocksSaving, Cuts, Chars;
    if Truncatable(es, keepRecent, i) && es[i].content.Blocks? {
      EntryError(es[i].content.blocks);
    }
  }

  // ---------------------------------------------------------------- thresholds and the active window

  /** The percentage override applies when it is in (0, 100]. */
  function Threshold(c: Config, pctOverride: Option<real>): int {
    var window := c.maxContextTokens - c.maxOutputTokens;
    if pctOverride.Some? && 0.0 < pctOverride.value <= 100.0
    then Min((window as real * (pctOverride.value / 100.0)).Floor, window - c.autoCompactBuffer)
    else window - c.autoCompactBuffer
  }

  /** The greatest whole number that exceeds neither the percentage of the window, when there is a usable
      one, nor the window less its buffer. */
  lemma ThresholdExactly(c: Config, pctOverride: Option<real>)
    ensures var t, window := Threshold(c, pctOverride), c.maxContextTokens - c.maxOutputTokens;
            && t <= window - c.autoCompactBuffer
            && (pctOverride.Some? && 0.0 < pctOverride.value <= 100.0 ==>
                  && 100.0 * t as real <= window as real * pctOverride.value
                  && (t < window - c.autoCompactBuffer ==> window as real * pctOverride.value < 100.0 * (t + 1) as real))
            && (!(pctOverride.Some? && 0.0 < pctOverride.value <= 100.0) ==> t == window - c.autoCompactBuffer)
  {
    if pctOverride.Some? {
      var window := (c.maxContextTokens - c.maxOutputTokens) as real;
      PercentOf(window, pctOverride.value);
      var share := window * (pctOverride.value / 100.0);
      assert share.Floor as real <= share < (share.Floor + 1) as real;
    }
  }

  lemma PercentOf(window: real, pct: real)
    ensures 100.0 * (window * (pct / 100.0)) == window * pct
  {
    var share := pct / 100.0;
    assert share * 100.0 == pct;
    assert 100.0 * (window * share) == window * (share * 100.0);
  }

  predicate NoBoundary(es: seq<Entry>) {
    forall i :: 0 <= i < |es| ==> !IsBoundary(es[i])
  }

  /** The index of the last boundary, -1 when there is none. */
  function LastBoundary(es: seq<Entry>): (i: int)
    ensures -1 <= i < |es|
    ensures i >= 0 ==> IsBoundary(es[i])
    ensures forall k :: i < k < |es| ==> !IsBoundary(es[k])
  {
    if es == [] then -1 else if IsBoundary(es[|es| - 1]) then |es| - 1 else LastBoundary(es[..|es| - 1])
  }

  /** Everything from the last boundary on. */
  function Active(es: seq<Entry>): seq<Entry> {
    if LastBoundary(es) < 0 then es else es[LastBoundary(es)..]
  }

  /** The backward search. */
  method ActiveEntries(es: seq<Entry>) returns (window: seq<Entry>)
    ensures window == Active(es)
  {
    var boundaryIdx := -1;
    var i := |es| - 1;
    while i >= 0
      invariant -1 <= i < |es| && boundaryIdx == -1
      invariant forall k :: i < k < |es| ==> !IsBoundary(es[k])
      decreases i
    {
      if IsBoundary(es[i]) {
        boundaryIdx := i;
        break;
      }
      i := i - 1;
    }
    window := if boundaryIdx == -1 then es else es[boundaryIdx..];
  }

  // ---------------------------------------------------------------- the log

  /** Each entry's parent is the entry before it. */
  predicate Linked(es: seq<Entry>) {
    forall i :: 0 <= i < |es| ==> es[i].parent == UuidBefore(es, i)
  }

  function UuidBefore(es: seq<Entry>, i: nat): Option<nat>
    requires i <= |es|
  {
    if i == 0 then None else Some(es[i - 1].uuid)
  }

  function LastUuid(es: seq<Entry>): Option<nat> {
    if es == [] then None else Some(es[|es| - 1].uuid)
  }

  /** readAll drops meta entries. */
  function Readable(es: seq<Entry>): seq<Entry> {
    if es == [] then []
    else Readable(es[..|es| - 1]) + (if es[|es| - 1].kind.Meta? then [] else [es[|es| - 1]])
  }

  predicate NoMeta(es: seq<Entry>) {
    forall i :: 0 <= i < |es| ==> !es[i].kind.Meta?
  }

  lemma {:induction false} ReadableIsAll(es: seq<Entry>)
    requires NoMeta(es)
    ensures Readable(es) == es
  {
    if es != [] {
      ReadableIsAll(es[..|es| - 1]);
      SplitLast(es);
    }
  }

  function Boundary(readable: seq<Entry>, uuid: nat): Entry {
    Entry(System, SystemRole, Plain("Conversation compacted"), uuid, LastUuid(readable), true)
  }

  /** `text` is the whole message, the fixed introduction included. */
  function Summary(text: string, boundary: Entry, uuid: nat): Entry {
    Entry(User, UserRole, Plain(text), uuid, Some(boundary.uuid), false)
  }

  /** The log after a full compaction. */
  function WithCompaction(es: seq<Entry>, text: string, u: nat): seq<Entry> {
    var boundary := Boundary(es, u);
    es + [boundary] + [Summary(text, boundary, u + 1)]
  }

  /** The log has grown by two entries: a boundary linked to the entry before it, and after it a user's
      message with the summary, linked to the boundary. */
  predicate FullyCompacted(before: seq<Entry>, text: string, after: seq<Entry>) {
    && |after| == |before| + 2 && after[..|before|] == before
    && var boundary, summary := after[|before|], after[|before| + 1];
       && boundary.kind == System && boundary.role == SystemRole && boundary.boundary
       && boundary.content == Plain("Conversation compacted")
       && boundary.parent == (if before == [] then None else Some(before[|before| - 1].uuid))
       && summary.kind == User && summary.role == UserRole && !summary.boundary
       && summary.content == Plain(text) && summary.parent == Some(boundary.uuid)
  }

  lemma WithCompactionExactly(es: seq<Entry>, text: string, u: nat)
    ensures FullyCompacted(es, text, WithCompaction(es, text, u))
  {
  }

  lemma LinkedExtends(es: seq<Entry>, e: Entry)
    requires Linked(es) && e.parent == LastUuid(es)
    ensures Linked(es + [e])
  {
    var out := es + [e];
    forall i | 0 <= i < |out|
      ensures out[i].parent == UuidBefore(out, i)
    {
      if i < |es| {
        assert out[i] == es[i] && UuidBefore(out, i) == UuidBefore(es, i);
      }
    }
  }

  /** No two entries have the same uuid, and fresh ones start at n. */
  predicate UniquelyNumbered(es: seq<Entry>, n: nat) {
    && (forall i :: 0 <= i < |es| ==> es[i].uuid < n)
    && (forall i, j :: 0 <= i < j < |es| ==> es[i].uuid != es[j].uuid)
  }

  /** Linked, uniquely numbered, and built of readable entries only. */
  predicate WellFormed(es: seq<Entry>, nextUuid: nat) {
    Linked(es) && NoMeta(es) && UniquelyNumbered(es, nextUuid)
  }

  lemma WellFormedExtends(es: seq<Entry>, e: Entry, nextUuid: nat)
    requires WellFormed(es, nextUuid) && e.parent == LastUuid(es) && !e.kind.Meta? && nextUuid <= e.uuid
    ensures WellFormed(es + [e], e.uuid + 1)
  {
    LinkedExtends(es, e);
  }

  /** A full compaction keeps the chain: boundary after the last entry, summary after the boundary. */
  lemma CompactionKeepsChain(es: seq<Entry>, text: string, u: nat)
    requires WellFormed(es, u)
    ensures WellFormed(WithCompaction(es, text, u), u + 2)
  {
    var boundary := Boundary(es, u);
    WellFormedExtends(es, boundary, u);
    WellFormedExtends(es + [boundary], Summary(text, boundary, u + 1), u + 1);
  }

  /** Stripping old tool results saves enough to be worth it and brings the window under the threshold. */
  predicate StrippingSuffices(active: seq<Entry>, c: Config, pctOverride: Option<real>) {
    && Saved(active, c.microcompactKeepRecent, |active|) >= 20_000
    && SessionTokens(Compacted(active, c.microcompactKeepRecent)) < Threshold(c, pctOverride)
  }

  datatype Outcome = NotNeeded | Micro(active: seq<Entry>) | Full | SummaryFailed | Empty

  class SessionStore {
    var entries: seq<Entry>
    var lastUuid: Option<nat>
    var nextUuid: nat

    /** A log built by appends and compactions alone. */
    ghost predicate Valid()
      reads this
    {
      WellFormed(entries, nextUuid) && lastUuid == LastUuid(entries)
    }

    constructor ()
      ensures Valid() && entries == []
    {
      entries, lastUuid, nextUuid := [], None, 0;
    }

    /** appendUser and appendAssistant. */
    method Append(kind: EntryKind, role: Role, content: Content) returns (e: Entry)
      requires Valid() && (kind.User? || kind.Assistant?)
      modifies this
      ensures Valid() && entries == old(entries) + [e]
      ensures e == Entry(kind, role, content, old(nextUuid), LastUuid(old(entries)), false)
    {
      e := Entry(kind, role, content, nextUuid, lastUuid, false);
      WellFormedExtends(entries, e, nextUuid);
      hide WellFormed;
      entries := entries + [e];
      lastUuid := Some(e.uuid);
      nextUuid := nextUuid + 1;
    }

    method AppendRaw(e: Entry)
      modifies this`entries, this`lastUuid
      ensures entries == old(entries) + [e] && lastUuid == Some(e.uuid)
    {
      entries := entries + [e];
      lastUuid := Some(e.uuid);
    }

    method ReadActive() returns (window: seq<Entry>)
      ensures window == Active(Readable(entries))
    {
      window := ActiveEntries(Readable(entries));
    }

    /** Boundary, then summary; nothing is written when the summary cannot be had. */
    method WriteCompaction(all: seq<Entry>, summary: Option<string>) returns (done: bool)
      requires Valid() && all == entries
      modifies this
      ensures Valid() && done == summary.Some?
      ensures done ==> entries == WithCompaction(old(entries), summary.value, old(nextUuid))
      ensures if done then FullyCompacted(old(entries), summary.value, entries) else entries == old(entries)
    {
      hide WellFormed, FullyCompacted;
      if summary.None? {
        return false;
      }
      CompactionKeepsChain(entries, summary.value, nextUuid);
      WithCompactionExactly(entries, summary.value, nextUuid);
      var boundary := Boundary(all, nextUuid);
      var recap := Summary(summary.value, boundary, nextUuid + 1);
      AppendRaw(boundary);
      AppendRaw(recap);
      nextUuid := nextUuid + 2;
      done := true;
    }

    /** Below the threshold nothing happens; when stripping old tool results is enough the stripped
        entries are returned and nothing is written; otherwise the log grows by boundary and summary. */
    method CompactIfNeeded(c: Config, pctOverride: Option<real>, summary: Option<string>) returns (r: Outcome)
      requires Valid()
      modifies this
      ensures Valid()
      ensures r.NotNeeded? <==> SessionTokens(Active(old(entries))) < Threshold(c, pctOverride)
      ensures r.Micro? <==> !r.NotNeeded? && StrippingSuffices(Active(old(entries)), c, pctOverride)
      ensures r.Micro? ==> r.active == Compacted(Active(old(entries)), c.microcompactKeepRecent)
      ensures r.Micro? ==> Stripped(Active(old(entries)), c.microcompactKeepRecent, r.active)
      ensures r.Full? <==> !r.NotNeeded? && !r.Micro? && summary.Some?
      ensures r.Full? ==> FullyCompacted(old(entries), summary.value, entries)
      ensures !r.Full? ==> entries == old(entries)
      ensures !r.Empty?
    {
      hide Linked, Threshold, LastBoundary, SessionTokens, Saved, UniquelyNumbered, FullyCompacted, Stripped;
      ReadableIsAll(entries);
      var all := Readable(entries);
      var active := ActiveEntries(all);
      if SessionTokens(active) < Threshold(c, pctOverride) {
        return NotNeeded;
      }
      var stripped, savedTokens := Microcompact(active, c.microcompactKeepRecent);
      if savedTokens >= MIN_MICROCOMPACT_SAVINGS && SessionTokens(stripped) < Threshold(c, pctOverride) {
        return Micro(stripped);
      }
      var done := WriteCompaction(all, summary);
      r := if done then Full else SummaryFailed;
    }

    /** The manual command: straight to the full compaction, unless there is nothing to compact. */
    method ForceCompact(summary: Option<string>) returns (r: Outcome, preTokens: nat)
      requires Valid()
      modifies this
      ensures Valid()
      ensures r.Empty? <==> old(entries) == []
      ensures r.Full? <==> old(entries) != [] && summary.Some?
      ensures r.Full? || r.Empty? || r.SummaryFailed?
      ensures r.Full? ==> preTokens == SessionTokens(Active(old(entries)))
      ensures r.Full? ==> FullyCompacted(old(entries), summary.value, entries)
      ensures !r.Full? ==> entries == old(entries)
    {
      hide Linked, UniquelyNumbered, FullyCompacted;
      ReadableIsAll(entries);
      var all := Readable(entries);
      var active := ActiveEntries(all);
      if |active| == 0 {
        return Empty, 0;
      }
      preTokens := SessionTokens(active);
      var done := WriteCompaction(all, summary);
      r := if done then Full else SummaryFailed;
    }
  }

  /** A microcompact that is accepted really lowers the estimate, by its booked saving less at most one
      token per truncated block. */
  lemma MicroReallySaves(active: seq<Entry>, keepRecent: int)
    requires Saved(active, keepRecent, |active|) >= 20_000
    ensures SessionTokens(Compacted(active, keepRecent)) < SessionTokens(active)
    ensures SessionTokens(active) - SessionTokens(Compacted(active, keepRecent))
            >= 20_000 - TotalCuts(active, keepRecent, |active|)
  {
    SavedErrorBound(active, keepRecent, |active|);
    assert active[..|active|] == active && Compacted(active, keepRecent)[..|active|] == Compacted(active, keepRecent);
  }

  /** Main result: after a full compaction the active window is the boundary, the summary, and exactly
      what was appended since. */
  lemma ActiveAfterCompaction(before: seq<Entry>, text: string, after: seq<Entry>, later: seq<Entry>)
    requires FullyCompacted(before, text, after) && NoBoundary(later)
    ensures Active(after + later) == [after[|before|], after[|before| + 1]] + later
  {
    var es := after + later;
    assert IsBoundary(es[|before|]);
    assert forall k :: |before| + 2 <= k < |es| ==> es[k] == later[k - |before| - 2];
    assert LastBoundary(es) == |before|;
  }

  /** Compaction links its boundary to the last readable entry, so the chain survives exactly when
      the last entry of all is readable: a trailing meta entry is skipped over. */
  lemma CompactionLinksExactly(es: seq<Entry>, u: nat)
    requires Linked(es) && forall i :: 0 <= i < |es| - 1 ==> es[i].uuid != es[|es| - 1].uuid
    ensures Linked(es + [Boundary(Readable(es), u)]) <==> es == [] || !es[|es| - 1].kind.Meta?
  {
    var boundary := Boundary(Readable(es), u);
    if es == [] || !es[|es| - 1].kind.Meta? {
      assert LastUuid(Readable(es)) == LastUuid(es);
      LinkedExtends(es, boundary);
    } else {
      hide Readable;
      MetaSkipped(es);
      assert (es + [boundary])[|es|].parent != Some((es + [boundary])[|es| - 1].uuid);
    }
  }

  lemma MetaSkipped(es: seq<Entry>)
    requires es != [] && es[|es| - 1].kind.Meta?
    requires forall i :: 0 <= i < |es| - 1 ==> es[i].uuid != es[|es| - 1].uuid
    ensures LastUuid(Readable(es)) != Some(es[|es| - 1].uuid)
  {
    var r := Readable(es);
    ReadableMembers(es[..|es| - 1]);
    assert r == Readable(es[..|es| - 1]);
    if r != [] {
      assert r[|r| - 1] in es[..|es| - 1];
    }
  }

  lemma {:induction false} ReadableMembers(es: seq<Entry>)
    ensures forall e :: e in Readable(es) ==> e in es
  {
    if es != [] {
      ReadableMembers(es[..|es| - 1]);
      SplitLast(es);
    }
  }
}
