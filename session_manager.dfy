/** The conversation log kept in the session. The session container holds a
    reference to one live list object; `GetChatHistory` hands out that same
    object, so a caller holding it sees every later append. Message ids and
    timestamps come from outside (a fresh UUID, the wall clock) and are
    parameters here. */
module SessionManager {
  import opened Types

  /** The list object `chat_messages`, updated in place by appends. */
  class ChatLog {
    var messages: seq<ChatMessage>

    constructor ()
      ensures messages == []
    {
      messages := [];
    }
  }

  /** The session container; `chatMessages` is null until the log is created. */
  class SessionState {
    var chatMessages: ChatLog?

    constructor ()
      ensures chatMessages == null
    {
      chatMessages := null;
    }
  }

  /** The names of the uploaded files, in order. */
  function FileNames(files: seq<UploadedFile>): (names: seq<string>)
    ensures |names| == |files| && forall i :: 0 <= i < |files| ==> names[i] == files[i].name
  {
    seq(|files|, i requires 0 <= i < |files| => files[i].name)
  }

  /** The record `add_message` stores: file names only when files were given
      and the list is non-empty. */
  function NewMessage(id: string, timestamp: string, role: string, content: string, files: Option<seq<UploadedFile>>)
    : (m: ChatMessage)
    ensures m.id == id && m.timestamp == timestamp && m.role == role && m.content == content
    ensures m.uploadedFilenames.Some? <==> files.Some? && files.value != []
    ensures m.uploadedFilenames.Some? ==> m.uploadedFilenames.value == FileNames(files.value)
  {
    var uploaded := if files.Some? && files.value != [] then Some(FileNames(files.value)) else None;
    ChatMessage(id, role, content, timestamp, uploaded)
  }

  /** The ids in the log are pairwise different. */
  predicate DistinctIds(messages: seq<ChatMessage>)
  {
    forall i, j :: 0 <= i < j < |messages| ==> messages[i].id != messages[j].id
  }

  /** `id` is not used by any message of the log. */
  predicate FreshId(messages: seq<ChatMessage>, id: string)
  {
    forall i :: 0 <= i < |messages| ==> messages[i].id != id
  }

  /** `initialize_session`: create an empty log only when there is none; an
      existing log, and its contents, are kept. */
  method InitializeSession(state: SessionState)
    modifies state
    ensures old(state.chatMessages) != null ==> state.chatMessages == old(state.chatMessages)
    ensures old(state.chatMessages) == null ==>
      state.chatMessages != null && fresh(state.chatMessages) && state.chatMessages.messages == []
  {
    if state.chatMessages == null {
      state.chatMessages := new ChatLog();
    }
  }

  /** `add_message`: append one record to the end of the log. With a fresh id
      (what a random UUID provides) the ids stay distinct. */
  method AddMessage(state: SessionState, role: string, content: string, files: Option<seq<UploadedFile>>,
                    id: string, timestamp: string)
    requires state.chatMessages != null
    requires DistinctIds(state.chatMessages.messages) && FreshId(state.chatMessages.messages, id)
    modifies state.chatMessages
    ensures state.chatMessages.messages
            == old(state.chatMessages.messages) + [NewMessage(id, timestamp, role, content, files)]
    ensures DistinctIds(state.chatMessages.messages)
  {
    var log := state.chatMessages;
    log.messages := log.messages + [NewMessage(id, timestamp, role, content, files)];
  }

  /** `get_chat_history`: the live log object itself, not a copy. */
  method GetChatHistory(state: SessionState) returns (log: ChatLog)
    requires state.chatMessages != null
    ensures log == state.chatMessages
  {
    log := state.chatMessages;
  }
}
