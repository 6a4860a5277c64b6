/** One turn of the chat, as the UI runs it: read the input, encode the
    images, build the request from the stored history, ask the completion
    service, and only when it answers append the user turn and the assistant
    turn together. Rendering is not modelled; the completion service is a
    parameter that answers with text or fails. */
module ChatUi {
  import opened Types
  import TokenManager
  import InputHandler
  import MessageProcessor
  import SessionManager

  /** How a turn ended. */
  datatype TurnOutcome =
    | NoInput
    | Replied(responseText: string)
    | InputFailed(error: InputHandler.InputError)
    | ResponseFailed(reason: string)

  /** Python's truthiness of the widget's value: nothing, or an empty string,
      means there is no turn to process. */
  predicate IsSubmitted(userInput: Option<InputHandler.UserInput>)
  {
    userInput.Some? && !(userInput.value.PlainText? && userInput.value.text == "")
  }

  /** `handle_user_input`, without the rendering. */
  method HandleUserInput(state: SessionManager.SessionState, userInput: Option<InputHandler.UserInput>,
                         count: string -> nat, encode: UploadedFile -> Option<string>,
                         complete: UserMessage -> Result<string, string>,
                         userId: string, userTimestamp: string, assistantId: string, assistantTimestamp: string)
    returns (outcome: TurnOutcome)
    requires state.chatMessages != null
    requires SessionManager.DistinctIds(state.chatMessages.messages)
    requires SessionManager.FreshId(state.chatMessages.messages, userId)
    requires SessionManager.FreshId(state.chatMessages.messages, assistantId) && userId != assistantId
    modifies state.chatMessages
    ensures SessionManager.DistinctIds(state.chatMessages.messages)
    ensures !IsSubmitted(userInput) ==> outcome == NoInput
    ensures IsSubmitted(userInput) ==>
      match InputHandler.ProcessUserInput(userInput.value)
      case Err(e) => outcome == InputFailed(e)
      case Ok((prompt, files)) =>
        var request := MessageProcessor.BuildUserMessage(count, TokenManager.ModelMaxInputToken, prompt,
          Some(old(state.chatMessages.messages)), InputHandler.EncodedImages(files, encode));
        match complete(request)
        case Err(reason) => outcome == ResponseFailed(reason)
        case Ok(responseText) =>
          && outcome == Replied(responseText)
          && state.chatMessages.messages == old(state.chatMessages.messages) + [
               SessionManager.NewMessage(userId, userTimestamp, "user", prompt, Some(files)),
               SessionManager.NewMessage(assistantId, assistantTimestamp, "assistant", responseText, None)]
    ensures !outcome.Replied? ==> state.chatMessages.messages == old(state.chatMessages.messages)
  {
    if !IsSubmitted(userInput) {
      return NoInput;
    }
    var processed := InputHandler.ProcessUserInput(userInput.value);
    if processed.Err? {
      return InputFailed(processed.error);
    }
    var (prompt, files) := processed.value;
    var images := InputHandler.EncodeImages(files, encode);
    var history := SessionManager.GetChatHistory(state);
    var userMessage := MessageProcessor.GenerateUserMessage(count, TokenManager.ModelMaxInputToken, prompt,
                                                            Some(history.messages), Some(images));
    var response := complete(userMessage);
    if response.Err? {
      return ResponseFailed(response.error);
    }
    SessionManager.AddMessage(state, "user", prompt, Some(files), userId, userTimestamp);
    SessionManager.AddMessage(state, "assistant", response.value, None, assistantId, assistantTimestamp);
    outcome := Replied(response.value);
  }
}
