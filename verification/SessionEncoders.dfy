// The two provider encodings of a conversation log: chat messages grouped by turn, and a
// flat list of response items. Both drop tool calls that no result answers.
module SessionEncoders {
  import opened Common
  import opened SessionTypes

  datatype Part = TextPart(text: string) | CallPart(id: string, name: string, input: Input)

  datatype Output = Output(id: string, toolName: string, value: string)

  datatype Message =
    | UserMessage(text: string)
    | AssistantMessage(text: string)
    | AssistantParts(parts: seq<Part>)
    | ToolMessage(results: seq<Output>)

  datatype Item =
    | Said(role: Role, text: string)
    | FunctionCall(callId: string, name: string, arguments: string)
    | FunctionOutput(outputId: string, output: string)

  // ---------------------------------------------------------------- chat messages

  function TextsOf(blocks: seq<Block>): (r: seq<string>)
    ensures |r| <= |blocks|
  {
    if blocks == [] then []
    else
      var last := blocks[|blocks| - 1];
      TextsOf(blocks[..|blocks| - 1]) + (if last.Text? then [last.text] else [])
  }

  function ResultsOf(blocks: seq<Block>): (r: seq<Output>)
    ensures |r| <= |blocks|
  {
    if blocks == [] then []
    else
      var last := blocks[|blocks| - 1];
      ResultsOf(blocks[..|blocks| - 1])
      + (if last.ToolResult? then [Output(last.toolUseId, "unknown", last.content)] else [])
  }

  function BlockPart(b: Block): seq<Part> {
    match b
    case Text(text) => [TextPart(text)]
    case ToolUse(id, name, input) => [CallPart(id, name, input)]
    case _ => []
  }

  function PartsOf(blocks: seq<Block>): seq<Part> {
    if blocks == [] then [] else PartsOf(blocks[..|blocks| - 1]) + BlockPart(blocks[|blocks| - 1])
  }

  /** Array.prototype.join with a newline. */
  function Joined(texts: seq<string>): string {
    if texts == [] then "" else if |texts| == 1 then texts[0]
    else Joined(texts[..|texts| - 1]) + "\n" + texts[|texts| - 1]
  }

  function UserBlocks(blocks: seq<Block>): seq<Message> {
    var results := ResultsOf(blocks);
    var text := Joined(TextsOf(blocks));
    if results != [] then [ToolMessage(results)] else if text != "" then [UserMessage(text)] else []
  }

  function AssistantBlocks(blocks: seq<Block>): seq<Message> {
    var parts := PartsOf(blocks);
    if parts != [] then [AssistantParts(parts)] else []
  }

  function EntryMessages(e: Entry): seq<Message> {
    if IsBoundary(e) then []
    else match e.role
      case UserRole =>
        (match e.content case Plain(text) => [UserMessage(text)] case Blocks(blocks) => UserBlocks(blocks))
      case AssistantRole =>
        (match e.content case Plain(text) => [AssistantMessage(text)] case Blocks(blocks) => AssistantBlocks(blocks))
      case SystemRole => []
  }

  function RawMessages(entries: seq<Entry>): seq<Message> {
    if entries == [] then []
    else RawMessages(entries[..|entries| - 1]) + EntryMessages(entries[|entries| - 1])
  }

  function ResultIds(messages: seq<Message>): set<string> {
    if messages == [] then {}
    else
      var last := messages[|messages| - 1];
      ResultIds(messages[..|messages| - 1])
      + (if last.ToolMessage? then IdsOf(last.results) else {})
  }

  function IdsOf(results: seq<Output>): set<string> {
    if results == [] then {} else IdsOf(results[..|results| - 1]) + {results[|results| - 1].id}
  }

  function AnsweredPart(ids: set<string>): Part -> bool {
    (p: Part) => p.CallPart? ==> p.id in ids
  }

  function SanitizedMessage(ids: set<string>, m: Message): seq<Message> {
    if m.AssistantParts? then
      var kept := Filter(AnsweredPart(ids), m.parts);
      if kept != [] then [AssistantParts(kept)] else []
    else [m]
  }

  function SanitizeWith(ids: set<string>, messages: seq<Message>): seq<Message> {
    if messages == [] then []
    else SanitizeWith(ids, messages[..|messages| - 1]) + SanitizedMessage(ids, messages[|messages| - 1])
  }

  function Sanitized(messages: seq<Message>): seq<Message> {
    SanitizeWith(ResultIds(messages), messages)
  }

  function ModelMessages(entries: seq<Entry>): seq<Message> {
    Sanitized(RawMessages(entries))
  }

  // ---------------------------------------------------------------- response items

  function Arguments(input: Input): string {
    if input.bare.Some? then input.bare.value else input.json
  }

  function UserItem(b: Block): seq<Item> {
    match b
    case ToolResult(id, content) => [FunctionOutput(id, content)]
    case Text(text) => [Said(UserRole, text)]
    case _ => []
  }

  function AssistantItem(b: Block): seq<Item> {
    match b
    case Text(text) => [Said(AssistantRole, text)]
    case ToolUse(id, name, input) => [FunctionCall(id, name, Arguments(input))]
    case _ => []
  }

  function UserItems(blocks: seq<Block>): seq<Item> {
    if blocks == [] then [] else UserItems(blocks[..|blocks| - 1]) + UserItem(blocks[|blocks| - 1])
  }

  function AssistantItems(blocks: seq<Block>): seq<Item> {
    if blocks == [] then [] else AssistantItems(blocks[..|blocks| - 1]) + AssistantItem(blocks[|blocks| - 1])
  }

  function EntryItems(e: Entry): seq<Item> {
    if IsBoundary(e) then []
    else match e.role
      case UserRole =>
        (match e.content case Plain(text) => [Said(UserRole, text)] case Blocks(blocks) => UserItems(blocks))
      case AssistantRole =>
        (match e.content case Plain(text) => [Said(AssistantRole, text)] case Blocks(blocks) => AssistantItems(blocks))
      case SystemRole => []
  }

  function RawItems(entries: seq<Entry>): seq<Item> {
    if entries == [] then []
    else RawItems(entries[..|entries| - 1]) + EntryItems(entries[|entries| - 1])
  }

  function OutputIds(items: seq<Item>): set<string> {
    if items == [] then {}
    else
      var last := items[|items| - 1];
      OutputIds(items[..|items| - 1]) + (if last.FunctionOutput? then {last.outputId} else {})
  }

  function Answered(ids: set<string>): Item -> bool {
    (i: Item) => i.FunctionCall? ==> i.callId in ids
  }

  function KeepAnswered(items: seq<Item>): seq<Item> {
    Filter(Answered(OutputIds(items)), items)
  }

  function ResponsesInput(entries: seq<Entry>): seq<Item> {
    KeepAnswered(RawItems(entries))
  }

  // ---------------------------------------------------------------- reading messages item by item

  function PartItem(p: Part): Item {
    match p
    case TextPart(text) => Said(AssistantRole, text)
    case CallPart(id, name, input) => FunctionCall(id, name, Arguments(input))
  }

  function PartItems(parts: seq<Part>): seq<Item> {
    if parts == [] then [] else PartItems(parts[..|parts| - 1]) + [PartItem(parts[|parts| - 1])]
  }

  function ResultItems(results: seq<Output>): seq<Item> {
    if results == [] then []
    else
      var last := results[|results| - 1];
      ResultItems(results[..|results| - 1]) + [FunctionOutput(last.id, last.value)]
  }

  /** What a message says, as the response items that say the same. */
  function ReadMessage(m: Message): seq<Item> {
    match m
    case UserMessage(text) => [Said(UserRole, text)]
    case AssistantMessage(text) => [Said(AssistantRole, text)]
    case AssistantParts(parts) => PartItems(parts)
    case ToolMessage(results) => ResultItems(results)
  }

  function Reading(messages: seq<Message>): seq<Item> {
    if messages == [] then []
    else Reading(messages[..|messages| - 1]) + ReadMessage(messages[|messages| - 1])
  }

  predicate IsUserText(i: Item) {
    i.Said? && i.role.UserRole?
  }

  /** Assistant texts, calls and results: everything but user text. */
  predicate IsOther(i: Item) {
    !IsUserText(i)
  }

  predicate IsNotCall(i: Item) {
    !i.FunctionCall?
  }

  lemma {:induction false} ReadingOfConcat(a: seq<Message>, b: seq<Message>)
    ensures Reading(a + b) == Reading(a) + Reading(b)
  {
    if b == [] {
      assert a + b == a;
    } else {
      var init, last := b[..|b| - 1], b[|b| - 1];
      ReadingOfConcat(a, init);
      assert (a + b)[..|a + b| - 1] == a + init && (a + b)[|a + b| - 1] == last;
      ConcatAssociates(Reading(a), Reading(init), ReadMessage(last));
    }
  }

  lemma ReadingOfAtMostOne(ms: seq<Message>)
    requires |ms| <= 1
    ensures Reading(ms) == if ms == [] then [] else ReadMessage(ms[0])
  {
    if ms != [] {
      assert ms[..0] == [] && Reading([]) == [];
    }
  }

  lemma {:induction false} OutputIdsOfConcat(a: seq<Item>, b: seq<Item>)
    ensures OutputIds(a + b) == OutputIds(a) + OutputIds(b)
  {
    if b == [] {
      assert a + b == a;
    } else {
      OutputIdsOfConcat(a, b[..|b| - 1]);
      assert (a + b)[..|a + b| - 1] == a + b[..|b| - 1] && (a + b)[|a + b| - 1] == b[|b| - 1];
    }
  }

  lemma {:induction false} OutputIdsMembers(items: seq<Item>, id: string)
    ensures id in OutputIds(items) <==> exists i :: i in items && i.FunctionOutput? && i.outputId == id
  {
    if items != [] {
      OutputIdsMembers(items[..|items| - 1], id);
      SplitLast(items);
    }
  }

  // ---------------------------------------------------------------- sanitizing, read item by item

  lemma {:induction false} ReadingOfKeptParts(ids: set<string>, parts: seq<Part>)
    ensures PartItems(Filter(AnsweredPart(ids), parts)) == Filter(Answered(ids), PartItems(parts))
  {
    if parts != [] {
      var init, last := parts[..|parts| - 1], parts[|parts| - 1];
      ReadingOfKeptParts(ids, init);
      FilterOfAppend(Answered(ids), PartItems(init), PartItem(last));
      if AnsweredPart(ids)(last) {
        var kept := Filter(AnsweredPart(ids), init);
        assert (kept + [last])[..|kept|] == kept;
        assert PartItems(kept + [last]) == PartItems(kept) + [PartItem(last)];
      }
    }
  }

  lemma {:induction false} ResultsAreAllKept(ids: set<string>, results: seq<Output>)
    ensures Filter(Answered(ids), ResultItems(results)) == ResultItems(results)
  {
    if results != [] {
      var init, last := results[..|results| - 1], results[|results| - 1];
      ResultsAreAllKept(ids, init);
      FilterOfAppend(Answered(ids), ResultItems(init), FunctionOutput(last.id, last.value));
    }
  }

  lemma ReadingOfSanitizedMessage(ids: set<string>, m: Message)
    ensures Reading(SanitizedMessage(ids, m)) == Filter(Answered(ids), ReadMessage(m))
  {
    ReadingOfAtMostOne(SanitizedMessage(ids, m));
    match m
    case UserMessage(text) => FilterOfOne(Answered(ids), Said(UserRole, text));
    case AssistantMessage(text) => FilterOfOne(Answered(ids), Said(AssistantRole, text));
    case AssistantParts(parts) => ReadingOfKeptParts(ids, parts);
    case ToolMessage(results) => ResultsAreAllKept(ids, results);
  }

  /** Filtering parts inside messages is filtering calls in their reading. */
  lemma {:induction false} ReadingOfSanitizeWith(ids: set<string>, messages: seq<Message>)
    ensures Reading(SanitizeWith(ids, messages)) == Filter(Answered(ids), Reading(messages))
  {
    if messages != [] {
      hide SanitizedMessage, ReadMessage, Filter;
      var init, last := messages[..|messages| - 1], messages[|messages| - 1];
      ReadingOfSanitizeWith(ids, init);
      ReadingOfSanitizedMessage(ids, last);
      ReadingOfConcat(SanitizeWith(ids, init), SanitizedMessage(ids, last));
      FilterOfConcat(Answered(ids), Reading(init), ReadMessage(last));
    } else {
      assert Filter(Answered(ids), Reading(messages)) == [];
    }
  }

  lemma {:induction false} NoOutputsInParts(parts: seq<Part>)
    ensures OutputIds(PartItems(parts)) == {}
  {
    if parts != [] {
      NoOutputsInParts(parts[..|parts| - 1]);
      assert PartItems(parts)[..|PartItems(parts)| - 1] == PartItems(parts[..|parts| - 1]);
    }
  }

  lemma {:induction false} OutputIdsOfResults(results: seq<Output>)
    ensures OutputIds(ResultItems(results)) == IdsOf(results)
  {
    if results != [] {
      OutputIdsOfResults(results[..|results| - 1]);
      assert ResultItems(results)[..|ResultItems(results)| - 1] == ResultItems(results[..|results| - 1]);
    }
  }

  lemma OutputIdsOfText(role: Role, text: string)
    ensures OutputIds([Said(role, text)]) == {}
  {
    assert [Said(role, text)][..0] == [];
  }

  lemma OutputIdsOfMessage(m: Message)
    ensures OutputIds(ReadMessage(m)) == if m.ToolMessage? then IdsOf(m.results) else {}
  {
    match m
    case UserMessage(text) => OutputIdsOfText(UserRole, text);
    case AssistantMessage(text) => OutputIdsOfText(AssistantRole, text);
    case AssistantParts(parts) => NoOutputsInParts(parts);
    case ToolMessage(results) => OutputIdsOfResults(results);
  }

  lemma {:induction false} ResultIdsAsRead(messages: seq<Message>)
    ensures ResultIds(messages) == OutputIds(Reading(messages))
  {
    if messages != [] {
      hide OutputIds, ReadMessage, IdsOf;
      var init, last := messages[..|messages| - 1], messages[|messages| - 1];
      ResultIdsAsRead(init);
      OutputIdsOfMessage(last);
      OutputIdsOfConcat(Reading(init), ReadMessage(last));
    }
  }

  /** Sanitizing messages and sanitizing items are the same operation on what is read. */
  lemma SanitizersAgree(messages: seq<Message>)
    ensures Reading(Sanitized(messages)) == KeepAnswered(Reading(messages))
  {
    ResultIdsAsRead(messages);
    ReadingOfSanitizeWith(ResultIds(messages), messages);
  }

  // ---------------------------------------------------------------- the encoders agree

  lemma {:induction false} OutputIdsIgnoreFilter(keep: Item -> bool, items: seq<Item>)
    requires forall i: Item :: i.FunctionOutput? ==> keep(i)
    ensures OutputIds(Filter(keep, items)) == OutputIds(items)
  {
    if items != [] {
      var init, last := items[..|items| - 1], items[|items| - 1];
      OutputIdsIgnoreFilter(keep, init);
      if keep(last) {
        assert (Filter(keep, init) + [last])[..|Filter(keep, init)|] == Filter(keep, init);
      }
    }
  }

  lemma {:induction false} PartsReadAsItems(blocks: seq<Block>)
    ensures PartItems(PartsOf(blocks)) == AssistantItems(blocks)
  {
    if blocks != [] {
      var init, last := blocks[..|blocks| - 1], blocks[|blocks| - 1];
      PartsReadAsItems(init);
      if BlockPart(last) != [] {
        var parts := PartsOf(init);
        assert PartsOf(blocks) == parts + [BlockPart(last)[0]];
        assert PartsOf(blocks)[..|parts|] == parts;
      } else {
        assert PartsOf(blocks) == PartsOf(init) && AssistantItems(blocks) == AssistantItems(init);
      }
    }
  }

  lemma {:induction false} ResultsReadAsItems(blocks: seq<Block>)
    ensures Filter(IsOther, UserItems(blocks)) == ResultItems(ResultsOf(blocks))
  {
    hide Filter;
    NothingFiltered(IsOther);
    if blocks != [] {
      var init, last := blocks[..|blocks| - 1], blocks[|blocks| - 1];
      ResultsReadAsItems(init);
      FilterOfConcat(IsOther, UserItems(init), UserItem(last));
      if last.ToolResult? {
        FilterOfOne(IsOther, UserItem(last)[0]);
        assert ResultsOf(blocks)[..|ResultsOf(init)|] == ResultsOf(init);
      } else {
        if last.Text? { FilterOfOne(IsOther, UserItem(last)[0]); }
        assert ResultsOf(blocks) == ResultsOf(init);
      }
    }
  }

  lemma {:induction false} ResultsAreOther(results: seq<Output>)
    ensures Filter(IsOther, ResultItems(results)) == ResultItems(results)
  {
    if results != [] {
      var init, last := results[..|results| - 1], results[|results| - 1];
      ResultsAreOther(init);
      FilterOfAppend(IsOther, ResultItems(init), FunctionOutput(last.id, last.value));
    }
  }

  lemma UserBlocksAgree(blocks: seq<Block>)
    ensures Filter(IsOther, Reading(UserBlocks(blocks))) == Filter(IsOther, UserItems(blocks))
  {
    hide UserItems, TextsOf, ResultsOf, Reading, Joined;
    ReadingOfAtMostOne(UserBlocks(blocks));
    ResultsReadAsItems(blocks);
    ResultsAreOther(ResultsOf(blocks));
    FilterOfOne(IsOther, Said(UserRole, Joined(TextsOf(blocks))));
  }

  lemma AssistantBlocksAgree(blocks: seq<Block>)
    ensures Reading(AssistantBlocks(blocks)) == AssistantItems(blocks)
  {
    hide AssistantItems, PartsOf, Reading;
    ReadingOfAtMostOne(AssistantBlocks(blocks));
    PartsReadAsItems(blocks);
  }

  lemma EntryEncodersAgree(e: Entry)
    ensures Filter(IsOther, Reading(EntryMessages(e))) == Filter(IsOther, EntryItems(e))
  {
    hide UserBlocks, AssistantBlocks, UserItems, AssistantItems, Filter, Reading, Joined;
    if e.content.Blocks? {
      UserBlocksAgree(e.content.blocks);
      AssistantBlocksAgree(e.content.blocks);
    } else {
      ReadingOfAtMostOne(EntryMessages(e));
    }
    assert Reading([]) == [] by { ReadingOfAtMostOne([]); }
  }

  lemma {:induction false} RawEncodersAgree(entries: seq<Entry>)
    ensures Filter(IsOther, Reading(RawMessages(entries))) == Filter(IsOther, RawItems(entries))
  {
    if entries != [] {
      hide Filter, EntryMessages, EntryItems, Reading;
      var init, last := entries[..|entries| - 1], entries[|entries| - 1];
      RawEncodersAgree(init);
      EntryEncodersAgree(last);
      ReadingOfConcat(RawMessages(init), EntryMessages(last));
      FilterOfConcat(IsOther, Reading(RawMessages(init)), Reading(EntryMessages(last)));
      FilterOfConcat(IsOther, RawItems(init), EntryItems(last));
    }
  }

  /** Sanitizing commutes with leaving user text out. */
  lemma KeepAnsweredOther(items: seq<Item>)
    ensures Filter(IsOther, KeepAnswered(items)) == KeepAnswered(Filter(IsOther, items))
  {
    OutputIdsIgnoreFilter(IsOther, items);
    FilterCommutes(IsOther, Answered(OutputIds(items)), items);
  }

  /** For every session the two encodings hold the same assistant texts, tool calls (id, name and
      arguments) and tool results, in the same order. */
  lemma EncodersAgree(entries: seq<Entry>)
    ensures Filter(IsOther, Reading(ModelMessages(entries))) == Filter(IsOther, ResponsesInput(entries))
  {
    hide Filter, Reading, RawMessages, RawItems, KeepAnswered, Sanitized;
    RawEncodersAgree(entries);
    SanitizersAgree(RawMessages(entries));
    KeepAnsweredOther(Reading(RawMessages(entries)));
    KeepAnsweredOther(RawItems(entries));
  }

  // ---------------------------------------------------------------- where user text differs

  /** An entry whose user text both encoders carry alike: a block list with no text, or with a single
      nonempty text and no tool result beside it. */
  predicate SpeaksPlainly(e: Entry) {
    !IsBoundary(e) && e.role.UserRole? && e.content.Blocks? ==>
      var texts := TextsOf(e.content.blocks);
      texts == [] || (|texts| == 1 && texts[0] != "" && ResultsOf(e.content.blocks) == [])
  }

  predicate AllSpeakPlainly(entries: seq<Entry>) {
    forall i :: 0 <= i < |entries| ==> SpeaksPlainly(entries[i])
  }

  function UserTexts(items: seq<Item>): seq<Item> {
    Filter(IsUserText, items)
  }

  lemma UserTextsOfItem(b: Block)
    ensures |UserTexts(UserItem(b))| == if b.Text? then 1 else 0
  {
    if UserItem(b) != [] {
      FilterOfOne(IsUserText, UserItem(b)[0]);
    }
  }

  lemma {:induction false} UserTextCount(blocks: seq<Block>)
    ensures |UserTexts(UserItems(blocks))| == |TextsOf(blocks)|
  {
    if blocks != [] {
      hide Filter, UserItem;
      var init, last := blocks[..|blocks| - 1], blocks[|blocks| - 1];
      UserTextCount(init);
      UserTextsOfItem(last);
      FilterOfConcat(IsUserText, UserItems(init), UserItem(last));
    }
  }

  lemma {:induction false} OnlyResults(blocks: seq<Block>)
    requires TextsOf(blocks) == []
    ensures UserItems(blocks) == ResultItems(ResultsOf(blocks))
  {
    if blocks != [] {
      var init, last := blocks[..|blocks| - 1], blocks[|blocks| - 1];
      OnlyResults(init);
      if last.ToolResult? {
        assert ResultsOf(blocks)[..|ResultsOf(init)|] == ResultsOf(init);
      } else {
        assert ResultsOf(blocks) == ResultsOf(init) && UserItems(blocks) == UserItems(init);
      }
    }
  }

  lemma {:induction false} OnlyTexts(blocks: seq<Block>)
    requires ResultsOf(blocks) == []
    ensures |UserItems(blocks)| == |TextsOf(blocks)|
    ensures forall i :: 0 <= i < |TextsOf(blocks)| ==> UserItems(blocks)[i] == Said(UserRole, TextsOf(blocks)[i])
  {
    if blocks != [] {
      OnlyTexts(blocks[..|blocks| - 1]);
    }
  }

  lemma {:induction false} NoUserTextInParts(parts: seq<Part>)
    ensures UserTexts(PartItems(parts)) == []
  {
    if parts != [] {
      var init, last := parts[..|parts| - 1], parts[|parts| - 1];
      NoUserTextInParts(init);
      FilterOfAppend(IsUserText, PartItems(init), PartItem(last));
    }
  }

  lemma {:induction false} NoUserTextInResults(results: seq<Output>)
    ensures UserTexts(ResultItems(results)) == []
  {
    if results != [] {
      var init, last := results[..|results| - 1], results[|results| - 1];
      NoUserTextInResults(init);
      FilterOfAppend(IsUserText, ResultItems(init), FunctionOutput(last.id, last.value));
    }
  }

  lemma UserBlocksPlainly(blocks: seq<Block>)
    ensures var texts := TextsOf(blocks);
            var plainly := texts == [] || (|texts| == 1 && texts[0] != "" && ResultsOf(blocks) == []);
            if plainly then Reading(UserBlocks(blocks)) == UserItems(blocks)
            else |UserTexts(Reading(UserBlocks(blocks)))| < |UserTexts(UserItems(blocks))|
  {
    hide UserItems, TextsOf, ResultsOf, UserTexts, Filter;
    ReadingOfAtMostOne(UserBlocks(blocks));
    UserTextCount(blocks);
    if ResultsOf(blocks) != [] {
      NoUserTextInResults(ResultsOf(blocks));
    } else {
      OnlyTexts(blocks);
      UserTextOfOne(Said(UserRole, Joined(TextsOf(blocks))));
    }
    if TextsOf(blocks) == [] {
      OnlyResults(blocks);
    }
  }

  lemma UserTextOfOne(i: Item)
    ensures |UserTexts([i])| <= 1 && UserTexts([]) == []
  {
    FilterOfOne(IsUserText, i);
  }

  lemma EntryPlainly(e: Entry)
    ensures if SpeaksPlainly(e) then Reading(EntryMessages(e)) == EntryItems(e)
            else |UserTexts(Reading(EntryMessages(e)))| < |UserTexts(EntryItems(e))|
  {
    if e.content.Blocks? && e.role.UserRole? {
      UserBlocksPlainly(e.content.blocks);
    } else {
      hide UserBlocks;
      ReadingOfAtMostOne(EntryMessages(e));
      if e.content.Blocks? {
        PartsReadAsItems(e.content.blocks);
      }
    }
  }

  lemma {:induction false} RawPlainly(entries: seq<Entry>)
    ensures if AllSpeakPlainly(entries) then Reading(RawMessages(entries)) == RawItems(entries)
            else |UserTexts(Reading(RawMessages(entries)))| < |UserTexts(RawItems(entries))|
  {
    if entries != [] {
      hide Filter, EntryMessages, EntryItems, Reading, SpeaksPlainly;
      var init, last := entries[..|entries| - 1], entries[|entries| - 1];
      RawPlainly(init);
      EntryPlainly(last);
      ReadingOfConcat(RawMessages(init), EntryMessages(last));
      FilterOfConcat(IsUserText, Reading(RawMessages(init)), Reading(EntryMessages(last)));
      FilterOfConcat(IsUserText, RawItems(init), EntryItems(last));
      PlainlyOfAppend(entries);
    }
  }

  lemma PlainlyOfAppend(entries: seq<Entry>)
    requires entries != []
    ensures AllSpeakPlainly(entries) <==>
            AllSpeakPlainly(entries[..|entries| - 1]) && SpeaksPlainly(entries[|entries| - 1])
  {
    hide SpeaksPlainly;
  }

  lemma UserTextsAreKept(items: seq<Item>)
    ensures UserTexts(KeepAnswered(items)) == UserTexts(items)
  {
    StricterFilterWins(IsUserText, Answered(OutputIds(items)), items);
  }

  /** The encodings say exactly the same when every user entry speaks plainly, and then only: the chat
      form drops text beside a tool result, joins several texts, and drops an empty one. */
  lemma EncodersEqualExactly(entries: seq<Entry>)
    ensures Reading(ModelMessages(entries)) == ResponsesInput(entries) <==> AllSpeakPlainly(entries)
  {
    hide Filter, Reading, RawMessages, RawItems, KeepAnswered, Sanitized, AllSpeakPlainly, UserTexts;
    RawPlainly(entries);
    SanitizersAgree(RawMessages(entries));
    UserTextsAreKept(Reading(RawMessages(entries)));
    UserTextsAreKept(RawItems(entries));
  }

  // ---------------------------------------------------------------- what sanitizing keeps

  /** A call is in the sanitized list exactly when it was there before and some result carries its id;
      the results are the same before and after, so every kept call is answered in the output and no
      dropped one is. */
  lemma CallKeptExactly(items: seq<Item>, call: Item)
    requires call.FunctionCall?
    ensures OutputIds(KeepAnswered(items)) == OutputIds(items)
    ensures call in KeepAnswered(items) <==> call in items && call.callId in OutputIds(KeepAnswered(items))
  {
    OutputIdsIgnoreFilter(Answered(OutputIds(items)), items);
    FilterMembers(Answered(OutputIds(items)), items, call);
  }

  /** The same of the messages, for a call read out of any of them. */
  lemma MessageCallKeptExactly(messages: seq<Message>, call: Item)
    requires call.FunctionCall?
    ensures ResultIds(Sanitized(messages)) == ResultIds(messages)
    ensures call in Reading(Sanitized(messages)) <==>
            call in Reading(messages) && call.callId in ResultIds(Sanitized(messages))
  {
    hide Reading, KeepAnswered, Sanitized, ResultIds, OutputIds;
    SanitizersAgree(messages);
    CallKeptExactly(Reading(messages), call);
    ResultIdsAsRead(messages);
    ResultIdsAsRead(Sanitized(messages));
  }

  /** Texts and results stay, all of them and in order. */
  lemma OnlyCallsDropped(items: seq<Item>)
    ensures Filter(IsNotCall, KeepAnswered(items)) == Filter(IsNotCall, items)
  {
    StricterFilterWins(IsNotCall, Answered(OutputIds(items)), items);
  }

  lemma KeepAnsweredIdempotent(items: seq<Item>)
    ensures KeepAnswered(KeepAnswered(items)) == KeepAnswered(items)
  {
    var test := Answered(OutputIds(items));
    OutputIdsIgnoreFilter(test, items);
    StricterFilterWins(test, test, items);
  }

  lemma SanitizeMessageTwice(ids: set<string>, m: Message)
    ensures SanitizeWith(ids, SanitizedMessage(ids, m)) == SanitizedMessage(ids, m)
  {
    var once := SanitizedMessage(ids, m);
    if m.AssistantParts? {
      StricterFilterWins(AnsweredPart(ids), AnsweredPart(ids), m.parts);
    }
    if once != [] {
      assert once[..0] == [] && SanitizeWith(ids, []) == [];
    }
  }

  lemma {:induction false} SanitizeOfConcat(ids: set<string>, a: seq<Message>, b: seq<Message>)
    ensures SanitizeWith(ids, a + b) == SanitizeWith(ids, a) + SanitizeWith(ids, b)
  {
    if b == [] {
      assert a + b == a;
    } else {
      hide SanitizedMessage;
      var init, last := b[..|b| - 1], b[|b| - 1];
      SanitizeOfConcat(ids, a, init);
      assert (a + b)[..|a + b| - 1] == a + init && (a + b)[|a + b| - 1] == last;
      ConcatAssociates(SanitizeWith(ids, a), SanitizeWith(ids, init), SanitizedMessage(ids, last));
    }
  }

  lemma {:induction false} SanitizeWithTwice(ids: set<string>, messages: seq<Message>)
    ensures SanitizeWith(ids, SanitizeWith(ids, messages)) == SanitizeWith(ids, messages)
  {
    if messages != [] {
      hide SanitizedMessage;
      var init, last := messages[..|messages| - 1], messages[|messages| - 1];
      SanitizeWithTwice(ids, init);
      SanitizeMessageTwice(ids, last);
      SanitizeOfConcat(ids, SanitizeWith(ids, init), SanitizedMessage(ids, last));
    }
  }

  /** A sanitized conversation passes through unchanged. */
  lemma SanitizeIdempotent(messages: seq<Message>)
    ensures Sanitized(Sanitized(messages)) == Sanitized(messages)
  {
    hide Reading, KeepAnswered, SanitizeWith, ResultIds, OutputIds;
    SanitizersAgree(messages);
    ResultIdsAsRead(messages);
    ResultIdsAsRead(Sanitized(messages));
    ResultsKept(Reading(messages));
    SanitizeWithTwice(ResultIds(messages), messages);
  }

  lemma ResultsKept(items: seq<Item>)
    ensures OutputIds(KeepAnswered(items)) == OutputIds(items)
  {
    OutputIdsIgnoreFilter(Answered(OutputIds(items)), items);
  }

  // ---------------------------------------------------------------- results ahead of their calls

  predicate AnsweredFrom(items: seq<Item>, i: nat, id: string)
    requires i <= |items|
  {
    exists j :: i <= j < |items| && items[j].FunctionOutput? && items[j].outputId == id
  }

  /** Every call has a result with its id further down. */
  predicate AnsweredDownstream(items: seq<Item>) {
    forall i :: 0 <= i < |items| && items[i].FunctionCall? ==> AnsweredFrom(items, i + 1, items[i].callId)
  }

  function UseIds(blocks: seq<Block>): set<string> {
    set b | b in blocks && b.ToolUse? :: b.id
  }

  function ToolResultIds(blocks: seq<Block>): set<string> {
    set b | b in blocks && b.ToolResult? :: b.toolUseId
  }

  /** The tool calls of an entry that is encoded as the assistant's. */
  function EntryCalls(e: Entry): set<string> {
    if !IsBoundary(e) && e.role.AssistantRole? && e.content.Blocks?
    then UseIds(e.content.blocks) else {}
  }

  /** The tool results of an entry that is encoded as the user's. */
  function EntryResults(e: Entry): set<string> {
    if !IsBoundary(e) && e.role.UserRole? && e.content.Blocks?
    then ToolResultIds(e.content.blocks) else {}
  }

  predicate ResultFrom(entries: seq<Entry>, i: nat, id: string)
    requires i <= |entries|
  {
    exists j :: i <= j < |entries| && id in EntryResults(entries[j])
  }

  /** Whatever call has a result in the session has one in a later entry. */
  predicate ResultsFollow(entries: seq<Entry>) {
    forall i, id :: 0 <= i < |entries| && id in EntryCalls(entries[i]) && ResultFrom(entries, 0, id)
      ==> ResultFrom(entries, i + 1, id)
  }

  /** The same of a list in front of others whose results are `later`. */
  predicate AnsweredBefore(items: seq<Item>, later: set<string>) {
    items == []
    || var init, last := items[..|items| - 1], items[|items| - 1];
       (last.FunctionCall? ==> last.callId in later)
       && AnsweredBefore(init, if last.FunctionOutput? then later + {last.outputId} else later)
  }

  lemma AnsweredFromLast(items: seq<Item>, i: nat, id: string)
    requires i < |items|
    ensures var init, last := items[..|items| - 1], items[|items| - 1];
            AnsweredFrom(items, i, id) <==> AnsweredFrom(init, i, id) || (last.FunctionOutput? && last.outputId == id)
  {
    var init, last := items[..|items| - 1], items[|items| - 1];
    if AnsweredFrom(init, i, id) {
      var j :| i <= j < |init| && init[j].FunctionOutput? && init[j].outputId == id;
      assert items[j] == init[j];
    }
    if AnsweredFrom(items, i, id) {
      var j :| i <= j < |items| && items[j].FunctionOutput? && items[j].outputId == id;
      assert j < |init| ==> init[j] == items[j];
    }
  }

  lemma {:induction false} AnsweredBeforeAt(items: seq<Item>, later: set<string>)
    ensures AnsweredBefore(items, later) <==>
            forall i :: 0 <= i < |items| && items[i].FunctionCall? ==>
              items[i].callId in later || AnsweredFrom(items, i + 1, items[i].callId)
  {
    if items != [] {
      hide AnsweredFrom;
      var init, last := items[..|items| - 1], items[|items| - 1];
      var more := if last.FunctionOutput? then later + {last.outputId} else later;
      AnsweredBeforeAt(init, more);
      forall i | 0 <= i < |init| && items[i].FunctionCall?
        ensures items[i] == init[i]
        ensures (items[i].callId in later || AnsweredFrom(items, i + 1, items[i].callId))
                <==> (items[i].callId in more || AnsweredFrom(init, i + 1, items[i].callId))
      {
        AnsweredFromLast(items, i + 1, items[i].callId);
      }
      NoneFromEnd(items, last.FunctionCall?, if last.FunctionCall? then last.callId else "");
    }
  }

  lemma NoneFromEnd(items: seq<Item>, isCall: bool, id: string)
    ensures !AnsweredFrom(items, |items|, id)
  {
  }

  /** Taken apart in the middle. */
  lemma {:induction false} AnsweredBeforeConcat(a: seq<Item>, b: seq<Item>, later: set<string>)
    ensures AnsweredBefore(a + b, later) <==> AnsweredBefore(b, later) && AnsweredBefore(a, later + OutputIds(b))
  {
    if b == [] {
      assert a + b == a && later + OutputIds(b) == later;
    } else {
      var init, last := b[..|b| - 1], b[|b| - 1];
      var more := if last.FunctionOutput? then later + {last.outputId} else later;
      AnsweredBeforeConcat(a, init, more);
      assert (a + b)[..|a + b| - 1] == a + init && (a + b)[|a + b| - 1] == last;
      assert more + OutputIds(init) == later + OutputIds(b);
    }
  }

  /** User text plays no part. */
  lemma {:induction false} AnsweredBeforeOther(items: seq<Item>, later: set<string>)
    ensures AnsweredBefore(Filter(IsOther, items), later) <==> AnsweredBefore(items, later)
  {
    if items != [] {
      var init, last := items[..|items| - 1], items[|items| - 1];
      var kept := Filter(IsOther, init);
      AnsweredBeforeOther(init, if last.FunctionOutput? then later + {last.outputId} else later);
      if IsOther(last) {
        assert (kept + [last])[..|kept|] == kept;
      } else {
        assert Filter(IsOther, items) == kept;
      }
    }
  }

  function CallIds(items: seq<Item>): set<string> {
    set i | i in items && i.FunctionCall? :: i.callId
  }

  /** A list of calls and texts, sanitized. */
  lemma {:induction false} CallsAnsweredBefore(items: seq<Item>, ids: set<string>, later: set<string>)
    requires OutputIds(items) == {}
    ensures AnsweredBefore(Filter(Answered(ids), items), later) <==> CallIds(items) * ids <= later
  {
    if items != [] {
      var init, last := items[..|items| - 1], items[|items| - 1];
      var kept := Filter(Answered(ids), init);
      SplitLast(items);
      CallsAnsweredBefore(init, ids, later);
      assert CallIds(items) == CallIds(init) + (if last.FunctionCall? then {last.callId} else {});
      if Answered(ids)(last) {
        assert (kept + [last])[..|kept|] == kept;
      } else {
        assert Filter(Answered(ids), items) == kept;
      }
    }
  }

  lemma CallHasId(items: seq<Item>, call: Item)
    requires call in items && call.FunctionCall?
    ensures call.callId in CallIds(items)
  {
  }

  lemma NoCalls(items: seq<Item>)
    requires CallIds(items) == {} && items != []
    ensures !items[|items| - 1].FunctionCall? && CallIds(items[..|items| - 1]) == {}
  {
    SplitLast(items);
    CallIdsOfConcat(items[..|items| - 1], [items[|items| - 1]]);
    if items[|items| - 1].FunctionCall? {
      CallHasId(items, items[|items| - 1]);
      assert false;
    }
  }

  lemma CallIdsOfConcat(a: seq<Item>, b: seq<Item>)
    ensures CallIds(a + b) == CallIds(a) + CallIds(b)
  {
  }

  /** A list of results and texts. */
  lemma {:induction false} ResultsAnsweredBefore(items: seq<Item>, later: set<string>)
    requires CallIds(items) == {}
    ensures AnsweredBefore(items, later)
  {
    if items != [] {
      var init, last := items[..|items| - 1], items[|items| - 1];
      NoCalls(items);
      ResultsAnsweredBefore(init, if last.FunctionOutput? then later + {last.outputId} else later);
    }
  }

  lemma {:induction false} KeepsAllWithoutCalls(items: seq<Item>, ids: set<string>)
    requires CallIds(items) == {}
    ensures Filter(Answered(ids), items) == items
  {
    if items != [] {
      var init, last := items[..|items| - 1], items[|items| - 1];
      NoCalls(items);
      KeepsAllWithoutCalls(init, ids);
      SplitLast(items);
    }
  }

  lemma UseIdsOfAppend(blocks: seq<Block>, b: Block)
    ensures UseIds(blocks + [b]) == UseIds(blocks) + (if b.ToolUse? then {b.id} else {})
  {
  }

  lemma ToolResultIdsOfAppend(blocks: seq<Block>, b: Block)
    ensures ToolResultIds(blocks + [b]) == ToolResultIds(blocks) + (if b.ToolResult? then {b.toolUseId} else {})
  {
  }

  lemma {:induction false} AssistantItemCalls(blocks: seq<Block>)
    ensures CallIds(AssistantItems(blocks)) == UseIds(blocks)
  {
    if blocks != [] {
      var init, last := blocks[..|blocks| - 1], blocks[|blocks| - 1];
      AssistantItemCalls(init);
      CallIdsOfConcat(AssistantItems(init), AssistantItem(last));
      assert CallIds(AssistantItem(last)) == if last.ToolUse? then {last.id} else {};
      hide CallIds, UseIds, AssistantItem;
      UseIdsOfAppend(init, last);
      SplitLast(blocks);
    }
  }

  lemma {:induction false} AssistantItemOutputs(blocks: seq<Block>)
    ensures OutputIds(AssistantItems(blocks)) == {}
  {
    hide OutputIds;
    if blocks != [] {
      var init, last := blocks[..|blocks| - 1], blocks[|blocks| - 1];
      AssistantItemOutputs(init);
      OutputIdsOfFew(AssistantItem(last));
      OutputIdsOfConcat(AssistantItems(init), AssistantItem(last));
    } else {
      OutputIdsOfFew([]);
    }
  }

  lemma {:induction false} UserItemCalls(blocks: seq<Block>)
    ensures CallIds(UserItems(blocks)) == {}
  {
    if blocks != [] {
      var init, last := blocks[..|blocks| - 1], blocks[|blocks| - 1];
      UserItemCalls(init);
      CallIdsOfConcat(UserItems(init), UserItem(last));
    }
  }

  lemma {:induction false} UserItemOutputs(blocks: seq<Block>)
    ensures OutputIds(UserItems(blocks)) == ToolResultIds(blocks)
  {
    hide OutputIds;
    if blocks != [] {
      var init, last := blocks[..|blocks| - 1], blocks[|blocks| - 1];
      UserItemOutputs(init);
      OutputIdsOfFew(UserItem(last));
      hide ToolResultIds;
      OutputIdsOfConcat(UserItems(init), UserItem(last));
      ToolResultIdsOfAppend(init, last);
      SplitLast(blocks);
    } else {
      OutputIdsOfFew([]);
    }
  }

  lemma OutputIdsOfFew(items: seq<Item>)
    requires |items| <= 1
    ensures OutputIds(items) == if items != [] && items[0].FunctionOutput? then {items[0].outputId} else {}
  {
    if items != [] {
      assert items[..0] == [];
    }
  }

  lemma EntryItemIds(e: Entry)
    ensures CallIds(EntryItems(e)) == EntryCalls(e) && OutputIds(EntryItems(e)) == EntryResults(e)
    ensures EntryCalls(e) == {} || EntryResults(e) == {}
  {
    EntryItemCalls(e);
    EntryItemOutputs(e);
  }

  lemma EntryItemCalls(e: Entry)
    ensures CallIds(EntryItems(e)) == EntryCalls(e)
  {
    if e.content.Blocks? {
      AssistantItemCalls(e.content.blocks);
      UserItemCalls(e.content.blocks);
      hide AssistantItems, UserItems, UseIds;
      assert CallIds([]) == {};
    }
  }

  lemma EntryItemOutputs(e: Entry)
    ensures OutputIds(EntryItems(e)) == EntryResults(e)
  {
    if e.content.Blocks? {
      AssistantItemOutputs(e.content.blocks);
      UserItemOutputs(e.content.blocks);
      hide AssistantItems, UserItems, ToolResultIds, OutputIds;
      OutputIdsOfFew([]);
    } else {
      hide OutputIds;
      OutputIdsOfFew(EntryItems(e));
    }
  }

  /** One entry's items, sanitized, in front of results that are `later`. */
  lemma EntryAnsweredBefore(e: Entry, ids: set<string>, later: set<string>)
    ensures AnsweredBefore(Filter(Answered(ids), EntryItems(e)), later) <==> EntryCalls(e) * ids <= later
  {
    hide EntryItems, AnsweredBefore, Filter, EntryCalls, EntryResults;
    EntryItemIds(e);
    if EntryResults(e) == {} {
      CallsAnsweredBefore(EntryItems(e), ids, later);
    } else {
      KeepsAllWithoutCalls(EntryItems(e), ids);
      ResultsAnsweredBefore(EntryItems(e), later);
    }
  }

  lemma ResultFromLast(entries: seq<Entry>, i: nat, id: string)
    requires i < |entries|
    ensures var init, last := entries[..|entries| - 1], entries[|entries| - 1];
            ResultFrom(entries, i, id) <==> ResultFrom(init, i, id) || id in EntryResults(last)
  {
    hide EntryResults;
    var init, last := entries[..|entries| - 1], entries[|entries| - 1];
    if ResultFrom(init, i, id) {
      var j :| i <= j < |init| && id in EntryResults(init[j]);
      assert entries[j] == init[j];
    }
    if ResultFrom(entries, i, id) {
      var j :| i <= j < |entries| && id in EntryResults(entries[j]);
      assert j < |init| ==> init[j] == entries[j];
    }
  }

  /** Each entry's calls, among ids, are answered in a later entry or by `later`. */
  predicate FollowedBy(entries: seq<Entry>, ids: set<string>, later: set<string>) {
    forall i, id :: 0 <= i < |entries| && id in EntryCalls(entries[i]) && id in ids
      ==> id in later || ResultFrom(entries, i + 1, id)
  }

  lemma FollowedByLast(entries: seq<Entry>, ids: set<string>, later: set<string>)
    requires entries != []
    ensures var init, last := entries[..|entries| - 1], entries[|entries| - 1];
            FollowedBy(entries, ids, later) <==>
            FollowedBy(init, ids, later + EntryResults(last)) && EntryCalls(last) * ids <= later
  {
    hide EntryCalls, EntryResults, ResultFrom;
    var init, last := entries[..|entries| - 1], entries[|entries| - 1];
    forall i, id | 0 <= i < |init| && id in EntryCalls(entries[i]) && id in ids
      ensures entries[i] == init[i]
      ensures (id in later || ResultFrom(entries, i + 1, id))
              <==> (id in later + EntryResults(last) || ResultFrom(init, i + 1, id))
    {
      ResultFromLast(entries, i + 1, id);
    }
    forall id
      ensures !ResultFrom(entries, |entries|, id)
    {
      NoResultFromEnd(entries, id);
    }
    assert forall i :: 0 <= i < |init| ==> entries[i] == init[i];
    if FollowedBy(entries, ids, later) {
      forall id | id in EntryCalls(last) * ids
        ensures id in later
      {
        assert id in EntryCalls(entries[|entries| - 1]);
      }
    }
  }

  lemma NoResultFromEnd(entries: seq<Entry>, id: string)
    ensures !ResultFrom(entries, |entries|, id)
  {
  }

  lemma {:induction false} RawAnsweredBefore(entries: seq<Entry>, ids: set<string>, later: set<string>)
    requires OutputIds(RawItems(entries)) + later <= ids
    ensures AnsweredBefore(Filter(Answered(ids), RawItems(entries)), later) <==> FollowedBy(entries, ids, later)
  {
    if entries == [] {
    } else {
      hide EntryItems, EntryCalls, EntryResults, FollowedBy, Filter, AnsweredBefore, OutputIds, CallIds;
      var init, last := entries[..|entries| - 1], entries[|entries| - 1];
      EntryItemIds(last);
      OutputIdsOfConcat(RawItems(init), EntryItems(last));
      RawAnsweredBefore(init, ids, later + EntryResults(last));
      FilterOfConcat(Answered(ids), RawItems(init), EntryItems(last));
      ResultsSurvive(EntryItems(last), ids);
      AnsweredBeforeConcat(Filter(Answered(ids), RawItems(init)), Filter(Answered(ids), EntryItems(last)), later);
      EntryAnsweredBefore(last, ids, later);
      FollowedByLast(entries, ids, later);
    }
  }

  lemma ResultsSurvive(items: seq<Item>, ids: set<string>)
    ensures OutputIds(Filter(Answered(ids), items)) == OutputIds(items)
  {
    OutputIdsIgnoreFilter(Answered(ids), items);
  }

  lemma {:induction false} SessionResults(entries: seq<Entry>, id: string)
    ensures id in OutputIds(RawItems(entries)) <==> ResultFrom(entries, 0, id)
  {
    if entries != [] {
      hide EntryItems, EntryCalls, EntryResults, ResultFrom, OutputIds, CallIds;
      var init, last := entries[..|entries| - 1], entries[|entries| - 1];
      SessionResults(init, id);
      EntryItemIds(last);
      OutputIdsOfConcat(RawItems(init), EntryItems(last));
      ResultFromLast(entries, 0, id);
    }
  }

  lemma FollowIsFollowedBy(entries: seq<Entry>)
    ensures ResultsFollow(entries) <==> FollowedBy(entries, OutputIds(RawItems(entries)), {})
  {
    hide EntryCalls, ResultFrom, RawItems, OutputIds;
    forall id
      ensures id in OutputIds(RawItems(entries)) <==> ResultFrom(entries, 0, id)
    {
      SessionResults(entries, id);
    }
  }

  lemma DownstreamIsBefore(items: seq<Item>)
    ensures AnsweredDownstream(items) <==> AnsweredBefore(items, {})
  {
    hide AnsweredFrom, AnsweredBefore;
    AnsweredBeforeAt(items, {});
  }

  /** Sanitizing matches ids anywhere, not only downstream: in either encoding every kept call has a
      result after it exactly when no call of the session has its results in earlier entries only. */
  lemma AnsweredDownstreamExactly(entries: seq<Entry>)
    ensures AnsweredDownstream(Reading(ModelMessages(entries))) <==> ResultsFollow(entries)
    ensures AnsweredDownstream(ResponsesInput(entries)) <==> ResultsFollow(entries)
  {
    hide AnsweredDownstream, AnsweredBefore, ResultsFollow, FollowedBy, RawItems, Reading, ModelMessages, Filter, OutputIds;
    var ids := OutputIds(RawItems(entries));
    EncodersAgree(entries);
    AnsweredBeforeOther(Reading(ModelMessages(entries)), {});
    AnsweredBeforeOther(ResponsesInput(entries), {});
    RawAnsweredBefore(entries, ids, {});
    FollowIsFollowedBy(entries);
    DownstreamIsBefore(Reading(ModelMessages(entries)));
    DownstreamIsBefore(ResponsesInput(entries));
  }

  /** A result, and behind it the call it answers. */
  function ResultFirst(id: string, name: string, input: Input, output: string): seq<Entry> {
    [Entry(User, UserRole, Blocks([ToolResult(id, output)]), 0, None, false),
     Entry(Assistant, AssistantRole, Blocks([ToolUse(id, name, input)]), 1, Some(0), false)]
  }

  /** In such a session the call is kept, with no result after it. */
  lemma EarlyResultKeepsCall(id: string, name: string, input: Input, output: string)
    ensures var entries := ResultFirst(id, name, input, output);
            && !AnsweredDownstream(Reading(ModelMessages(entries)))
            && ResponsesInput(entries) == [FunctionOutput(id, output), FunctionCall(id, name, Arguments(input))]
  {
    hide Reading, ModelMessages, ResponsesInput, AnsweredDownstream, ResultsFollow;
    var entries := ResultFirst(id, name, input, output);
    AnsweredDownstreamExactly(entries);
    ResultFirstIsEarly(id, name, input, output);
    ResultFirstItems(id, name, input, output);
  }

  lemma ResultFirstIsEarly(id: string, name: string, input: Input, output: string)
    ensures !ResultsFollow(ResultFirst(id, name, input, output))
  {
    var entries := ResultFirst(id, name, input, output);
    assert ToolUse(id, name, input) in entries[1].content.blocks && ToolResult(id, output) in entries[0].content.blocks;
    assert id in EntryCalls(entries[1]) && id in EntryResults(entries[0]);
    hide EntryCalls, EntryResults;
    assert ResultFrom(entries, 0, id) && !ResultFrom(entries, 2, id);
  }

  lemma ResultFirstItems(id: string, name: string, input: Input, output: string)
    ensures ResponsesInput(ResultFirst(id, name, input, output))
            == [FunctionOutput(id, output), FunctionCall(id, name, Arguments(input))]
  {
    var entries := ResultFirst(id, name, input, output);
    var result, call := FunctionOutput(id, output), FunctionCall(id, name, Arguments(input));
    assert UserItems([ToolResult(id, output)]) == [result] by { assert [ToolResult(id, output)][..0] == []; }
    assert AssistantItems([ToolUse(id, name, input)]) == [call] by { assert [ToolUse(id, name, input)][..0] == []; }
    assert EntryItems(entries[0]) == [result] && EntryItems(entries[1]) == [call];
    hide EntryItems;
    RawItemsOfTwo(entries[0], entries[1]);
    assert entries == [entries[0], entries[1]] && [result] + [call] == [result, call];
    hide RawItems;
    KeptBehindItsResult(result, call);
  }

  lemma KeptBehindItsResult(result: Item, call: Item)
    requires result.FunctionOutput? && call.FunctionCall? && result.outputId == call.callId
    ensures KeepAnswered([result, call]) == [result, call]
  {
    hide OutputIds, Filter;
    assert [result] + [call] == [result, call];
    OutputIdsOfFew([result]);
    OutputIdsOfFew([call]);
    OutputIdsOfConcat([result], [call]);
    var ids := OutputIds([result, call]);
    FilterOfOne(Answered(ids), result);
    FilterOfAppend(Answered(ids), [result], call);
  }

  lemma RawItemsOfTwo(a: Entry, b: Entry)
    ensures RawItems([a, b]) == EntryItems(a) + EntryItems(b)
  {
    hide EntryItems;
    assert [a, b][..1] == [a] && [a][..0] == [];
    assert RawItems([]) == [] && RawItems([a]) == [] + EntryItems(a);
    assert [] + EntryItems(a) == EntryItems(a);
  }

  // ---------------------------------------------------------------- what every entry comes to

  /** The blocks of an entry that can be encoded; a plain text counts as one text block. */
  function BlocksToSend(e: Entry): seq<Block> {
    if e.kind == System && e.boundary then []
    else if e.content.Plain? then [Text(e.content.text)]
    else e.content.blocks
  }

  /** The ids that the tool results of the user's entries carry. */
  function AnsweredIds(entries: seq<Entry>): set<string> {
    set e, b | e in entries && b in BlocksToSend(e) && e.role == UserRole && b.ToolResult? :: b.toolUseId
  }

  /** A user's texts and results, an assistant's texts and answered calls. */
  predicate IsSent(role: Role, ids: set<string>, b: Block) {
    match role
    case UserRole => b.Text? || b.ToolResult?
    case AssistantRole => b.Text? || (b.ToolUse? && b.id in ids)
    case SystemRole => false
  }

  function Sent(role: Role, ids: set<string>): Block -> bool {
    (b: Block) => IsSent(role, ids, b)
  }

  /** The item tells the block: a call's arguments are its input string, or the JSON of any other input. */
  predicate ItemTells(role: Role, b: Block, item: Item) {
    match b
    case Text(text) => item == Said(role, text)
    case Image(_) => false
    case ToolUse(id, name, input) =>
      && item.FunctionCall? && item.callId == id && item.name == name
      && (input.bare.None? ==> item.arguments == input.json)
      && (input.bare.Some? ==> item.arguments == input.bare.value)
    case ToolResult(id, content) => item == FunctionOutput(id, content)
  }

  /** The items tell the sent blocks one by one, in order. */
  predicate ItemsTell(role: Role, ids: set<string>, blocks: seq<Block>, items: seq<Item>) {
    var sent := Filter(Sent(role, ids), blocks);
    |items| == |sent| && forall k :: 0 <= k < |items| ==> ItemTells(role, sent[k], items[k])
  }

  /** Entry by entry. */
  ghost predicate ItemsTellAll(entries: seq<Entry>, items: seq<Item>) {
    exists pieces: seq<seq<Item>> :: Flatten(pieces) == items && PiecesTell(entries, AnsweredIds(entries), pieces)
  }

  predicate PiecesTell(entries: seq<Entry>, ids: set<string>, pieces: seq<seq<Item>>) {
    && |pieces| == |entries|
    && forall i :: 0 <= i < |entries| ==> ItemsTell(entries[i].role, ids, BlocksToSend(entries[i]), pieces[i])
  }

  lemma AnsweredIdsAreOutputs(entries: seq<Entry>)
    ensures AnsweredIds(entries) == OutputIds(RawItems(entries))
  {
    hide RawItems, OutputIds;
    forall id
      ensures id in AnsweredIds(entries) <==> id in OutputIds(RawItems(entries))
    {
      SessionResults(entries, id);
      if e, b :| e in entries && b in BlocksToSend(e) && e.role == UserRole && b.ToolResult? && b.toolUseId == id {
        var i :| 0 <= i < |entries| && entries[i] == e;
        assert id in EntryResults(entries[i]);
      }
      if ResultFrom(entries, 0, id) {
        var i :| 0 <= i < |entries| && id in EntryResults(entries[i]);
        var b :| b in entries[i].content.blocks && b.ToolResult? && b.toolUseId == id;
        assert entries[i] in entries && b in BlocksToSend(entries[i]);
      }
    }
  }

  function ItemsOfBlock(role: Role, b: Block): seq<Item> {
    match role case UserRole => UserItem(b) case AssistantRole => AssistantItem(b) case SystemRole => []
  }

  function ItemsOfBlocks(role: Role, blocks: seq<Block>): seq<Item> {
    match role
    case UserRole => UserItems(blocks)
    case AssistantRole => AssistantItems(blocks)
    case SystemRole => []
  }

  /** One block: sent and told by one item, or neither. */
  lemma BlockTold(role: Role, ids: set<string>, b: Block)
    ensures var items := Filter(Answered(ids), ItemsOfBlock(role, b));
            if IsSent(role, ids, b) then |items| == 1 && ItemTells(role, b, items[0]) else items == []
  {
    hide Filter;
    if ItemsOfBlock(role, b) != [] {
      FilterOfOne(Answered(ids), ItemsOfBlock(role, b)[0]);
    } else {
      NothingFiltered(Answered(ids));
    }
  }

  lemma {:induction false} BlocksTold(role: Role, ids: set<string>, blocks: seq<Block>)
    ensures ItemsTell(role, ids, blocks, Filter(Answered(ids), ItemsOfBlocks(role, blocks)))
  {
    hide Filter, IsSent, ItemTells, UserItem, AssistantItem;
    if blocks == [] {
      NothingFiltered(Sent(role, ids));
      NothingFiltered(Answered(ids));
    } else {
      var init, last := blocks[..|blocks| - 1], blocks[|blocks| - 1];
      BlocksTold(role, ids, init);
      BlockTold(role, ids, last);
      SplitLast(blocks);
      FilterOfAppend(Sent(role, ids), init, last);
      FilterOfConcat(Answered(ids), ItemsOfBlocks(role, init), ItemsOfBlock(role, last));
      if role == SystemRole {
        NothingFiltered(Answered(ids));
      }
    }
  }

  lemma EntryTold(e: Entry, ids: set<string>)
    ensures ItemsTell(e.role, ids, BlocksToSend(e), Filter(Answered(ids), EntryItems(e)))
  {
    hide ItemsTell, Filter, UserItems, AssistantItems;
    BlocksTold(e.role, ids, BlocksToSend(e));
    if e.content.Plain? {
      ItemsOfOneBlock(e.role, Text(e.content.text));
    }
    ItemsOfNoBlock(e.role);
  }

  lemma ItemsOfNoBlock(role: Role)
    ensures ItemsOfBlocks(role, []) == []
  {
  }

  lemma ItemsOfOneBlock(role: Role, b: Block)
    ensures ItemsOfBlocks(role, [b]) == ItemsOfBlock(role, b)
  {
    assert [b][..0] == [];
    ItemsOfNoBlock(role);
    assert [] + ItemsOfBlock(role, b) == ItemsOfBlock(role, b);
  }

  lemma {:induction false} FlattenOfKept(entries: seq<Entry>, ids: set<string>, pieces: seq<seq<Item>>)
    requires |pieces| == |entries|
    requires forall i :: 0 <= i < |entries| ==> pieces[i] == Filter(Answered(ids), EntryItems(entries[i]))
    ensures Flatten(pieces) == Filter(Answered(ids), RawItems(entries))
  {
    hide Filter, EntryItems, Flatten;
    if entries == [] {
      NothingFiltered(Answered(ids));
      FlattenOfNothing<Item>();
    } else {
      var init, last := entries[..|entries| - 1], entries[|entries| - 1];
      FlattenOfKept(init, ids, pieces[..|entries| - 1]);
      FilterOfConcat(Answered(ids), RawItems(init), EntryItems(last));
      FlattenOfAppend(pieces[..|entries| - 1], pieces[|entries| - 1]);
      SplitLast(pieces);
    }
  }

  /** Main result for the item list: entry by entry it tells every text and result, and of the calls the
      answered ones, with nothing added, changed or moved. */
  lemma ResponsesInputTells(entries: seq<Entry>)
    ensures ItemsTellAll(entries, ResponsesInput(entries))
  {
    hide Filter, RawItems, EntryItems, OutputIds, ItemsTell, Flatten, AnsweredIds;
    AnsweredIdsAreOutputs(entries);
    var ids := AnsweredIds(entries);
    var pieces := seq(|entries|, i requires 0 <= i < |entries| => Filter(Answered(ids), EntryItems(entries[i])));
    forall i | 0 <= i < |entries|
      ensures ItemsTell(entries[i].role, ids, BlocksToSend(entries[i]), pieces[i])
    {
      EntryTold(entries[i], ids);
    }
    FlattenOfKept(entries, ids, pieces);
    assert PiecesTell(entries, ids, pieces);
  }

  // ---------------------------------------------------------------- the same of the messages

  predicate IsResult(b: Block) {
    b.ToolResult?
  }

  predicate IsText(b: Block) {
    b.Text?
  }

  /** Nonempty lines with newlines between them make up the text. */
  predicate JoinsTexts(blocks: seq<Block>, text: string) {
    var texts := Filter(IsText, blocks);
    if texts == [] then text == ""
    else
      (forall i :: 0 <= i < |texts| ==> texts[i].Text?)
      && "\n" + text == Flatten(seq(|texts|, i requires 0 <= i < |texts| => "\n" + (if texts[i].Text? then texts[i].text else "")))
  }

  predicate PartTells(b: Block, p: Part) {
    (b.Text? && p == TextPart(b.text)) || (b.ToolUse? && p == CallPart(b.id, b.name, b.input))
  }

  predicate ResultTells(b: Block, r: Output) {
    b.ToolResult? && r == Output(b.toolUseId, "unknown", b.content)
  }

  /** What a user's block list comes to: all its results and nothing else, or its joined texts. */
  predicate UserMessageTells(blocks: seq<Block>, ms: seq<Message>) {
    var results := Filter(IsResult, blocks);
    if results != [] then
      && |ms| == 1 && ms[0].ToolMessage? && |ms[0].results| == |results|
      && forall k :: 0 <= k < |results| ==> ResultTells(results[k], ms[0].results[k])
    else if ms == [] then JoinsTexts(blocks, "")
    else |ms| == 1 && ms[0].UserMessage? && ms[0].text != "" && JoinsTexts(blocks, ms[0].text)
  }

  /** What an assistant's block list comes to: its texts and answered calls, in order, if any. */
  predicate AssistantMessageTells(ids: set<string>, blocks: seq<Block>, ms: seq<Message>) {
    var sent := Filter(Sent(AssistantRole, ids), blocks);
    if sent == [] then ms == []
    else
      && |ms| == 1 && ms[0].AssistantParts? && |ms[0].parts| == |sent|
      && forall k :: 0 <= k < |sent| ==> PartTells(sent[k], ms[0].parts[k])
  }

  predicate EntryMessageTells(e: Entry, ids: set<string>, ms: seq<Message>) {
    if (e.kind == System && e.boundary) || e.role == SystemRole then ms == []
    else if e.role == UserRole then
      (if e.content.Plain? then ms == [UserMessage(e.content.text)] else UserMessageTells(e.content.blocks, ms))
    else
      (if e.content.Plain? then ms == [AssistantMessage(e.content.text)]
       else AssistantMessageTells(ids, e.content.blocks, ms))
  }

  ghost predicate MessagesTellAll(entries: seq<Entry>, messages: seq<Message>) {
    exists pieces: seq<seq<Message>> ::
      Flatten(pieces) == messages && MessagePiecesTell(entries, AnsweredIds(entries), pieces)
  }

  predicate MessagePiecesTell(entries: seq<Entry>, ids: set<string>, pieces: seq<seq<Message>>) {
    |pieces| == |entries| && forall i :: 0 <= i < |entries| ==> EntryMessageTells(entries[i], ids, pieces[i])
  }

  lemma {:induction false} ResultsTold(blocks: seq<Block>)
    ensures var results := Filter(IsResult, blocks);
            && |ResultsOf(blocks)| == |results|
            && forall k :: 0 <= k < |results| ==> ResultTells(results[k], ResultsOf(blocks)[k])
  {
    if blocks != [] {
      ResultsTold(blocks[..|blocks| - 1]);
    }
  }

  lemma {:induction false} TextsTold(blocks: seq<Block>)
    ensures var texts := Filter(IsText, blocks);
            && |TextsOf(blocks)| == |texts|
            && forall k :: 0 <= k < |texts| ==> texts[k].Text? && TextsOf(blocks)[k] == texts[k].text
  {
    if blocks != [] {
      TextsTold(blocks[..|blocks| - 1]);
    }
  }

  lemma {:induction false} PartsTold(ids: set<string>, blocks: seq<Block>)
    ensures var sent, parts := Filter(Sent(AssistantRole, ids), blocks), Filter(AnsweredPart(ids), PartsOf(blocks));
            |parts| == |sent| && forall k :: 0 <= k < |sent| ==> PartTells(sent[k], parts[k])
  {
    hide Filter;
    if blocks == [] {
      NothingFiltered(Sent(AssistantRole, ids));
      NothingFiltered(AnsweredPart(ids));
    } else {
      var init, last := blocks[..|blocks| - 1], blocks[|blocks| - 1];
      PartsTold(ids, init);
      SplitLast(blocks);
      FilterOfAppend(Sent(AssistantRole, ids), init, last);
      FilterOfConcat(AnsweredPart(ids), PartsOf(init), BlockPart(last));
      if BlockPart(last) != [] {
        FilterOfOne(AnsweredPart(ids), BlockPart(last)[0]);
      } else {
        NothingFiltered(AnsweredPart(ids));
      }
    }
  }

  lemma {:induction false} JoinedIsFlat(texts: seq<string>)
    requires texts != []
    ensures "\n" + Joined(texts) == Flatten(seq(|texts|, i requires 0 <= i < |texts| => "\n" + texts[i]))
  {
    hide Flatten;
    var init, last := texts[..|texts| - 1], texts[|texts| - 1];
    var lines := seq(|init|, i requires 0 <= i < |init| => "\n" + init[i]);
    assert seq(|texts|, i requires 0 <= i < |texts| => "\n" + texts[i]) == lines + ["\n" + last];
    FlattenOfAppend(lines, "\n" + last);
    if init == [] {
      FlattenOfNothing<char>();
    } else {
      JoinedIsFlat(init);
      ConcatAssociates("\n", Joined(init), "\n" + last);
      ConcatAssociates(Joined(init), "\n", last);
    }
  }

  lemma JoinedOfNone()
    ensures Joined([]) == ""
  {
  }

  lemma UserBlocksTold(blocks: seq<Block>)
    ensures UserMessageTells(blocks, UserBlocks(blocks))
  {
    hide Filter, ResultsOf, TextsOf, Joined, Flatten;
    ResultsTold(blocks);
    TextsTold(blocks);
    var texts := Filter(IsText, blocks);
    if texts != [] {
      JoinedIsFlat(TextsOf(blocks));
      assert seq(|texts|, i requires 0 <= i < |texts| => "\n" + (if texts[i].Text? then texts[i].text else ""))
             == seq(|texts|, i requires 0 <= i < |texts| => "\n" + TextsOf(blocks)[i]);
    } else {
      JoinedOfNone();
    }
  }

  lemma SanitizeOfAtMostOne(ids: set<string>, ms: seq<Message>)
    requires |ms| <= 1
    ensures SanitizeWith(ids, ms) == if ms == [] then [] else SanitizedMessage(ids, ms[0])
  {
    hide SanitizedMessage;
    if ms != [] {
      assert ms[..0] == [] && SanitizeWith(ids, []) == [];
    }
  }

  lemma AssistantBlocksTold(ids: set<string>, blocks: seq<Block>)
    ensures AssistantMessageTells(ids, blocks, SanitizeWith(ids, AssistantBlocks(blocks)))
  {
    hide Filter, PartsOf, SanitizeWith, PartTells;
    PartsTold(ids, blocks);
    SanitizeOfAtMostOne(ids, AssistantBlocks(blocks));
    if PartsOf(blocks) == [] {
      NothingFiltered(AnsweredPart(ids));
    }
  }

  lemma EntryMessageTold(e: Entry, ids: set<string>)
    ensures EntryMessageTells(e, ids, SanitizeWith(ids, EntryMessages(e)))
  {
    hide UserMessageTells, AssistantMessageTells, SanitizeWith, Filter, ResultsOf, TextsOf, Joined, PartsOf;
    SanitizeOfAtMostOne(ids, EntryMessages(e));
    if e.content.Blocks? {
      UserBlocksTold(e.content.blocks);
      AssistantBlocksTold(ids, e.content.blocks);
    }
  }

  lemma {:induction false} FlattenOfSanitized(entries: seq<Entry>, ids: set<string>, pieces: seq<seq<Message>>)
    requires |pieces| == |entries|
    requires forall i :: 0 <= i < |entries| ==> pieces[i] == SanitizeWith(ids, EntryMessages(entries[i]))
    ensures Flatten(pieces) == SanitizeWith(ids, RawMessages(entries))
  {
    hide EntryMessages, Flatten, SanitizeWith;
    if entries == [] {
      SanitizeOfAtMostOne(ids, []);
      FlattenOfNothing<Message>();
    } else {
      var init, last := entries[..|entries| - 1], entries[|entries| - 1];
      FlattenOfSanitized(init, ids, pieces[..|entries| - 1]);
      SanitizeOfConcat(ids, RawMessages(init), EntryMessages(last));
      FlattenOfAppend(pieces[..|entries| - 1], pieces[|entries| - 1]);
      SplitLast(pieces);
    }
  }

  lemma AnsweredIdsAreResults(entries: seq<Entry>)
    ensures AnsweredIds(entries) == ResultIds(RawMessages(entries))
  {
    hide AnsweredIds, RawMessages, RawItems, ResultIds, OutputIds, Reading, Filter;
    AnsweredIdsAreOutputs(entries);
    ResultIdsAsRead(RawMessages(entries));
    RawEncodersAgree(entries);
    OutputIdsIgnoreFilter(IsOther, RawItems(entries));
    OutputIdsIgnoreFilter(IsOther, Reading(RawMessages(entries)));
  }

  /** Main result for the messages: entry by entry they tell its text, its results, or its texts and
      answered calls with their inputs as they were, with nothing added, changed or moved. */
  lemma ModelMessagesTell(entries: seq<Entry>)
    ensures MessagesTellAll(entries, ModelMessages(entries))
  {
    hide RawMessages, EntryMessages, ResultIds, SanitizeWith, EntryMessageTells, Flatten, AnsweredIds;
    AnsweredIdsAreResults(entries);
    var ids := AnsweredIds(entries);
    var pieces := seq(|entries|, i requires 0 <= i < |entries| => SanitizeWith(ids, EntryMessages(entries[i])));
    forall i | 0 <= i < |entries|
      ensures EntryMessageTells(entries[i], ids, pieces[i])
    {
      EntryMessageTold(entries[i], ids);
    }
    FlattenOfSanitized(entries, ids, pieces);
    assert MessagePiecesTell(entries, ids, pieces);
  }

  // ---------------------------------------------------------------- the encoders' loops

  method ToolCallParts(blocks: seq<Block>) returns (parts: seq<Part>)
    ensures parts == PartsOf(blocks)
  {
    parts := [];
    for i := 0 to |blocks|
      invariant parts == PartsOf(blocks[..i])
    {
      assert blocks[..i + 1][..i] == blocks[..i];
      match blocks[i] {
        case Text(text) => parts := parts + [TextPart(text)];
        case ToolUse(id, name, input) => parts := parts + [CallPart(id, name, input)];
        case _ =>
      }
    }
    assert blocks[..|blocks|] == blocks;
  }

  method CollectResultIds(messages: seq<Message>) returns (ids: set<string>)
    ensures ids == ResultIds(messages)
  {
    ids := {};
    for i := 0 to |messages|
      invariant ids == ResultIds(messages[..i])
    {
      assert messages[..i + 1][..i] == messages[..i];
      if messages[i].ToolMessage? {
        var results := messages[i].results;
        for j := 0 to |results|
          invariant ids == ResultIds(messages[..i]) + IdsOf(results[..j])
        {
          assert results[..j + 1][..j] == results[..j];
          ids := ids + {results[j].id};
        }
        assert results[..|results|] == results;
      }
    }
    assert messages[..|messages|] == messages;
  }

  method SanitizeToolMessages(messages: seq<Message>) returns (out: seq<Message>)
    ensures out == Sanitized(messages)
  {
    var ids := CollectResultIds(messages);
    out := [];
    for i := 0 to |messages|
      invariant out == SanitizeWith(ids, messages[..i])
    {
      assert messages[..i + 1][..i] == messages[..i];
      var m := messages[i];
      if m.AssistantParts? {
        var kept := Filter(AnsweredPart(ids), m.parts);
        if |kept| > 0 {
          out := out + [AssistantParts(kept)];
        }
      } else {
        out := out + [m];
      }
    }
    assert messages[..|messages|] == messages;
  }

  method ToModelMessages(entries: seq<Entry>) returns (out: seq<Message>)
    ensures out == ModelMessages(entries)
    ensures MessagesTellAll(entries, out)
  {
    ModelMessagesTell(entries);
    hide MessagesTellAll;
    var messages := [];
    for i := 0 to |entries|
      invariant messages == RawMessages(entries[..i])
    {
      hide TextsOf, ResultsOf, PartsOf, Joined;
      assert entries[..i + 1][..i] == entries[..i];
      var e := entries[i];
      if e.kind.System? && e.boundary { continue; }
      if e.role.UserRole? {
        if e.content.Plain? {
          messages := messages + [UserMessage(e.content.text)];
        } else {
          var results := ResultsOf(e.content.blocks);
          if |results| > 0 {
            messages := messages + [ToolMessage(results)];
          } else {
            var text := Joined(TextsOf(e.content.blocks));
            if text != "" {
              messages := messages + [UserMessage(text)];
            }
          }
        }
      } else if e.role.AssistantRole? {
        if e.content.Plain? {
          messages := messages + [AssistantMessage(e.content.text)];
        } else {
          var parts := ToolCallParts(e.content.blocks);
          if |parts| > 0 {
            messages := messages + [AssistantParts(parts)];
          }
        }
      }
    }
    assert entries[..|entries|] == entries;
    out := SanitizeToolMessages(messages);
  }

  method PushUserItems(items: seq<Item>, blocks: seq<Block>) returns (more: seq<Item>)
    ensures more == items + UserItems(blocks)
  {
    more := items;
    for i := 0 to |blocks|
      invariant more == items + UserItems(blocks[..i])
    {
      assert blocks[..i + 1][..i] == blocks[..i];
      ConcatAssociates(items, UserItems(blocks[..i]), UserItem(blocks[i]));
      match blocks[i] {
        case ToolResult(id, content) => more := more + [FunctionOutput(id, content)];
        case Text(text) => more := more + [Said(UserRole, text)];
        case _ =>
      }
    }
    assert blocks[..|blocks|] == blocks;
  }

  method PushAssistantItems(items: seq<Item>, blocks: seq<Block>) returns (more: seq<Item>)
    ensures more == items + AssistantItems(blocks)
  {
    more := items;
    for i := 0 to |blocks|
      invariant more == items + AssistantItems(blocks[..i])
    {
      assert blocks[..i + 1][..i] == blocks[..i];
      ConcatAssociates(items, AssistantItems(blocks[..i]), AssistantItem(blocks[i]));
      match blocks[i] {
        case Text(text) => more := more + [Said(AssistantRole, text)];
        case ToolUse(id, name, input) =>
          more := more + [FunctionCall(id, name, if input.bare.Some? then input.bare.value else input.json)];
        case _ =>
      }
    }
    assert blocks[..|blocks|] == blocks;
  }

  method CollectOutputIds(items: seq<Item>) returns (ids: set<string>)
    ensures ids == OutputIds(items)
  {
    ids := {};
    for i := 0 to |items|
      invariant ids == OutputIds(items[..i])
    {
      assert items[..i + 1][..i] == items[..i];
      if items[i].FunctionOutput? {
        ids := ids + {items[i].outputId};
      }
    }
    assert items[..|items|] == items;
  }

  method ToResponsesInput(entries: seq<Entry>) returns (out: seq<Item>)
    ensures out == ResponsesInput(entries)
    ensures ItemsTellAll(entries, out)
  {
    ResponsesInputTells(entries);
    hide ItemsTellAll;
    var items := [];
    for i := 0 to |entries|
      invariant items == RawItems(entries[..i])
    {
      hide UserItems, AssistantItems;
      assert entries[..i + 1][..i] == entries[..i];
      var e := entries[i];
      if e.kind.System? && e.boundary { continue; }
      if e.role.UserRole? {
        if e.content.Plain? {
          items := items + [Said(UserRole, e.content.text)];
        } else {
          items := PushUserItems(items, e.content.blocks);
        }
      } else if e.role.AssistantRole? {
        if e.content.Plain? {
          items := items + [Said(AssistantRole, e.content.text)];
        } else {
          items := PushAssistantItems(items, e.content.blocks);
        }
      }
    }
    assert entries[..|entries|] == entries;
    var outputIds := CollectOutputIds(items);
    out := Filter(Answered(outputIds), items);
  }
}
