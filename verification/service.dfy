/**
  The controller's view of the relationship service: the arguments it passes
  and the results it gets back. The service's own rules are not part of this
  model; a handler receives the service as a function from call arguments to
  result, so every property below holds whatever the service answers.
 */
module FriendshipService {

  /** FrienshipServiceInput: the requesting user and the target user. */
  datatype ServiceInput = ServiceInput(requestEmail: string, targetEmail: string)

  /**
    A query's `(list, err)` pair as the controller uses it: the list when `err`
    is nil, otherwise only the error's text.
   */
  datatype QueryResult = Found(list: seq<string>) | Failed(message: string)

  /** The service operation a handler invoked, with the arguments it passed. */
  datatype Call =
    | MakeFriendCall(input: ServiceInput)
    | GetFriendsListCall(email: string)
    | GetMutualFriendsListCall(input: ServiceInput)
    | SubscribeCall(input: ServiceInput)
    | BlockCall(input: ServiceInput)
    | GetUsersReceiveUpdateCall(sender: string, mentioned: seq<string>)
}
