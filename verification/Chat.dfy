/** The parts of a chat message that the streaming pipeline builds and compares. */
module Chat {

  datatype ToolCall = ToolCall(name: string, arguments: string, id: string)

  datatype Message = Message(reasoning: string, content: string, calls: seq<ToolCall>)

  const EMPTY_MESSAGE := Message("", "", [])
}
