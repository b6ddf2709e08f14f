/** What an LLM runtime is asked and what it answers (llm/include/galculus/llm). Floats are their 32 raw bits. */
module LlmTypes {
  import opened Bytes

  datatype Role = System | User | Assistant | Tool

  datatype Turn = Turn(role: Role, content: bytes)

  type Prompt = seq<Turn>

  datatype Config = Config(maxTokens: u32, temperature: u32, topP: u32, seed: u32, timeoutMs: u32, stream: bool)

  datatype Status = Ready | Timeout | Cancelled | InvalidPrompt | BackendError

  datatype Reply = Reply(
    status: Status, text: bytes, promptTokens: u32, completionTokens: u32, elapsedMs: u32, errorMessage: bytes)
}
