// Entries of a conversation log and their content blocks.
module SessionTypes {
  import opened Common

  /** A tool's input: its JSON text, and the string itself when the input was a bare string. */
  datatype Input = Input(json: string, bare: Option<string>)

  datatype Block =
    | Text(text: string)
    | Image(url: string)
    | ToolUse(id: string, name: string, input: Input)
    | ToolResult(toolUseId: string, content: string)

  datatype Content = Plain(text: string) | Blocks(blocks: seq<Block>)

  datatype EntryKind = User | Assistant | Meta | System

  datatype Role = UserRole | AssistantRole | SystemRole

  /** `boundary` is subtype compact_boundary; uuids are numbered. */
  datatype Entry = Entry(kind: EntryKind, role: Role, content: Content, uuid: nat, parent: Option<nat>, boundary: bool)

  predicate IsBoundary(e: Entry) {
    e.kind.System? && e.boundary
  }
}
