/**
 * The submit handler: a create-message request is issued only when both the
 * typed text and the device's push token are non-empty, and then carries the
 * text as the body, the token as the sender and the fixed room id.
 */
module Submission {
  import opened Wrappers

  /** The one chat room the application uses. */
  const ChatRoomId: string := "1"

  /** The `input` argument of the create-message mutation. */
  datatype CreateMessageInput = CreateMessageInput(body: string, from: string, roomId: string)

  /** The request `handleSubmit` sends for the current text field contents
      and push token, or `None` when it sends nothing. */
  function SubmitRequest(messageInput: string, pushToken: string): (r: Option<CreateMessageInput>)
    ensures r.Some? <==> messageInput != "" && pushToken != ""
    ensures r.Some? ==> r.value.body == messageInput
    ensures r.Some? ==> r.value.from == pushToken
    ensures r.Some? ==> r.value.roomId == ChatRoomId
  {
    if messageInput != "" && pushToken != "" then
      Some(CreateMessageInput(messageInput, pushToken, ChatRoomId))
    else
      None
  }
}
