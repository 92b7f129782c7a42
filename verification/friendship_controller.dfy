/**
  The six HTTP handlers of the friendship controller, each as a decision
  procedure: from the bound request, the e-mail format check and the
  relationship service's answer, to the response written and the service call
  made (if any).

  Every handler runs its checks in the same order: request binding, then the
  request's shape (two different users), then the e-mail format, and only then
  the service. The first failing check answers 400 with its own message and
  the service is not consulted.

  The e-mail check, the mention extractor and the service are parameters: the
  properties hold for every implementation of them.
 */
module FriendshipController {

  import opened Wrappers
  import opened Dedup
  import opened Responses
  import opened FriendshipService

  /** `{"friends": [first, second]}` */
  datatype RequestFriend = RequestFriend(friends: seq<string>)

  /** The user whose friend list is asked for. */
  datatype RequestListFriends = RequestListFriends(mail: string)

  /** `{"requestor": .., "target": ..}`, shared by subscribe and block. */
  datatype RequestUpdate = RequestUpdate(requestor: string, target: string)

  /** `{"sender": .., "text": ..}` */
  datatype RequestReceiveUpdate = RequestReceiveUpdate(sender: string, text: string)

  /**
    The outcome of binding the JSON body to the request record. Which bodies
    fail to bind is decided by the request records' binding tags, which are
    not part of this model, so it is an input.
   */
  datatype Bind<T> = BindFailed | Bound(request: T)

  /** What a handler did: the response it wrote, and the service call it made if any. */
  datatype Handled = Handled(response: Response, call: Option<Call>)

  /** A 400 answer written before the service is consulted. */
  function Reject(message: string): (h: Handled)
    ensures WellFormed(h.response) && h.call.None?
    ensures h.response.body == ErrorBody(message)
  {
    Handled(BadRequest(message), None)
  }

  /** The shape the pair requests must have: exactly two entries, naming different users. */
  predicate IsUserPair(friends: seq<string>) {
    |friends| == 2 && friends[0] != friends[1]
  }

  /** Both addresses pass the e-mail format check. */
  predicate BothValid(validateEmail: string -> bool, first: string, second: string) {
    validateEmail(first) && validateEmail(second)
  }

  /** The answer of a list query: 200 with the list when the service found one, else 400 with its error. */
  function ListFriendsResponse(result: QueryResult): (r: Response)
    ensures WellFormed(r)
    ensures result.Failed? ==> r == BadRequest(result.message)
    ensures result.Found? ==>
      && r.status == StatusOK && r.body.ListFriendsBody?
      && r.body.list.friends.Items() == result.list && r.body.list.count == |result.list|
  {
    match result
    case Failed(message) => BadRequest(message)
    case Found(list) => Response(StatusOK, ListFriendsBody(ToListFriends(list)))
  }

  /** The verdict of a handler's checks: go ahead with this service input, or answer 400 with this message. */
  datatype Verdict = Accepted(input: ServiceInput) | Rejected(message: string)

  /**
    The checks shared by MakeFriendController and GetMutualFriendsController,
    in their order: the service input when all pass, the first failure's message otherwise.
    Testing the length first is what makes reading entries 0 and 1 safe.
   */
  function CheckUserPair(req: Bind<RequestFriend>, validateEmail: string -> bool): Verdict
  {
    if req.BindFailed? then Rejected(BindErrorMessage)
    else
      var friends := req.request.friends;
      if |friends| != 2 || friends[0] == friends[1] then Rejected(RequestInvalidMessage)
      else
        var firstUser := friends[0];
        var secondUser := friends[1];
        if !validateEmail(firstUser) || !validateEmail(secondUser) then Rejected(EmailInvalidMessage)
        else Accepted(ServiceInput(firstUser, secondUser))
  }

  /** The checks shared by SubscribeController and BlockController, in their order. */
  function CheckUpdateRequest(req: Bind<RequestUpdate>, validateEmail: string -> bool): Verdict
  {
    if req.BindFailed? then Rejected(BindErrorMessage)
    else if req.request.requestor == req.request.target then Rejected(RequestInvalidMessage)
    else
      var firstUser := req.request.requestor;
      var secondUser := req.request.target;
      if !validateEmail(firstUser) || !validateEmail(secondUser) then Rejected(EmailInvalidMessage)
      else Accepted(ServiceInput(firstUser, secondUser))
  }

  /** MakeFriendController */
  function MakeFriend(req: Bind<RequestFriend>, validateEmail: string -> bool,
                      makeFriend: ServiceInput -> Option<string>): (h: Handled)
    ensures WellFormed(h.response)
    ensures req.BindFailed? ==> h == Reject(BindErrorMessage)
    ensures h == Reject(RequestInvalidMessage) <==> req.Bound? && !IsUserPair(req.request.friends)
    ensures h == Reject(EmailInvalidMessage) <==>
      && req.Bound? && IsUserPair(req.request.friends)
      && !BothValid(validateEmail, req.request.friends[0], req.request.friends[1])
    ensures h.call.Some? <==>
      && req.Bound? && IsUserPair(req.request.friends)
      && BothValid(validateEmail, req.request.friends[0], req.request.friends[1])
    ensures req.Bound? && IsUserPair(req.request.friends) && h.call.Some? ==>
      var input := ServiceInput(req.request.friends[0], req.request.friends[1]);
      && h.call == Some(MakeFriendCall(input))
      && h.response == MutationResponse(makeFriend(input))
  {
    match CheckUserPair(req, validateEmail)
    case Rejected(message) => Reject(message)
    case Accepted(input) => Handled(MutationResponse(makeFriend(input)), Some(MakeFriendCall(input)))
  }

  /** GetFriendsListController */
  function GetFriendsList(req: Bind<RequestListFriends>, validateEmail: string -> bool,
                          getFriendsList: string -> QueryResult): (h: Handled)
    ensures WellFormed(h.response)
    ensures req.BindFailed? ==> h == Reject(BindErrorMessage)
    ensures h == Reject(EmailInvalidMessage) <==> req.Bound? && !validateEmail(req.request.mail)
    ensures h.call.Some? <==> req.Bound? && validateEmail(req.request.mail)
    ensures req.Bound? && h.call.Some? ==>
      && h.call == Some(GetFriendsListCall(req.request.mail))
      && h.response == ListFriendsResponse(getFriendsList(req.request.mail))
  {
    if req.BindFailed? then Reject(BindErrorMessage)
    else if !validateEmail(req.request.mail) then Reject(EmailInvalidMessage)
    else
      var email := req.request.mail;
      Handled(ListFriendsResponse(getFriendsList(email)), Some(GetFriendsListCall(email)))
  }

  /** GetMutualFriendsController */
  function GetMutualFriends(req: Bind<RequestFriend>, validateEmail: string -> bool,
                            getMutualFriendsList: ServiceInput -> QueryResult): (h: Handled)
    ensures WellFormed(h.response)
    ensures req.BindFailed? ==> h == Reject(BindErrorMessage)
    ensures h == Reject(RequestInvalidMessage) <==> req.Bound? && !IsUserPair(req.request.friends)
    ensures h == Reject(EmailInvalidMessage) <==>
      && req.Bound? && IsUserPair(req.request.friends)
      && !BothValid(validateEmail, req.request.friends[0], req.request.friends[1])
    ensures h.call.Some? <==>
      && req.Bound? && IsUserPair(req.request.friends)
      && BothValid(validateEmail, req.request.friends[0], req.request.friends[1])
    ensures req.Bound? && IsUserPair(req.request.friends) && h.call.Some? ==>
      var input := ServiceInput(req.request.friends[0], req.request.friends[1]);
      && h.call == Some(GetMutualFriendsListCall(input))
      && h.response == ListFriendsResponse(getMutualFriendsList(input))
  {
    match CheckUserPair(req, validateEmail)
    case Rejected(message) => Reject(message)
    case Accepted(input) => Handled(ListFriendsResponse(getMutualFriendsList(input)), Some(GetMutualFriendsListCall(input)))
  }

  /** SubscribeController */
  function Subscribe(req: Bind<RequestUpdate>, validateEmail: string -> bool,
                     subscribe: ServiceInput -> Option<string>): (h: Handled)
    ensures WellFormed(h.response)
    ensures req.BindFailed? ==> h == Reject(BindErrorMessage)
    ensures h == Reject(RequestInvalidMessage) <==> req.Bound? && req.request.requestor == req.request.target
    ensures h == Reject(EmailInvalidMessage) <==>
      && req.Bound? && req.request.requestor != req.request.target
      && !BothValid(validateEmail, req.request.requestor, req.request.target)
    ensures h.call.Some? <==>
      && req.Bound? && req.request.requestor != req.request.target
      && BothValid(validateEmail, req.request.requestor, req.request.target)
    ensures req.Bound? && h.call.Some? ==>
      var input := ServiceInput(req.request.requestor, req.request.target);
      && h.call == Some(SubscribeCall(input))
      && h.response == MutationResponse(subscribe(input))
  {
    match CheckUpdateRequest(req, validateEmail)
    case Rejected(message) => Reject(message)
    case Accepted(input) => Handled(MutationResponse(subscribe(input)), Some(SubscribeCall(input)))
  }

  /** BlockController */
  function Block(req: Bind<RequestUpdate>, validateEmail: string -> bool,
                 block: ServiceInput -> Option<string>): (h: Handled)
    ensures WellFormed(h.response)
    ensures req.BindFailed? ==> h == Reject(BindErrorMessage)
    ensures h == Reject(RequestInvalidMessage) <==> req.Bound? && req.request.requestor == req.request.target
    ensures h == Reject(EmailInvalidMessage) <==>
      && req.Bound? && req.request.requestor != req.request.target
      && !BothValid(validateEmail, req.request.requestor, req.request.target)
    ensures h.call.Some? <==>
      && req.Bound? && req.request.requestor != req.request.target
      && BothValid(validateEmail, req.request.requestor, req.request.target)
    ensures req.Bound? && h.call.Some? ==>
      var input := ServiceInput(req.request.requestor, req.request.target);
      && h.call == Some(BlockCall(input))
      && h.response == MutationResponse(block(input))
  {
    match CheckUpdateRequest(req, validateEmail)
    case Rejected(message) => Reject(message)
    case Accepted(input) => Handled(MutationResponse(block(input)), Some(BlockCall(input)))
  }

  /**
    GetUsersReceiveUpdateController: the mentions are extracted from the text
    only once the sender's address has passed the format check, and the
    service's list is deduplicated before it is written.
   */
  function GetUsersReceiveUpdate(req: Bind<RequestReceiveUpdate>, validateEmail: string -> bool,
                                 extractMentionEmail: string -> seq<string>,
                                 getUsersReceiveUpdate: (string, seq<string>) -> QueryResult): (h: Handled)
    ensures WellFormed(h.response)
    ensures req.BindFailed? ==> h == Reject(BindErrorMessage)
    ensures h == Reject(EmailInvalidMessage) <==> req.Bound? && !validateEmail(req.request.sender)
    ensures h.call.Some? <==> req.Bound? && validateEmail(req.request.sender)
    ensures req.Bound? && h.call.Some? ==>
      var sender := req.request.sender;
      var mentioned := extractMentionEmail(req.request.text);
      && h.call == Some(GetUsersReceiveUpdateCall(sender, mentioned))
      && match getUsersReceiveUpdate(sender, mentioned)
         case Failed(message) => h.response == BadRequest(message)
         case Found(list) =>
           && h.response.status == StatusOK
           && h.response.body.ReceiveUpdateBody?
           && h.response.body.update.success
           && h.response.body.update.recipients.Items() == Unique(list)
           && (h.response.body.update.recipients.Nil? <==> |list| == 0)
  {
    if req.BindFailed? then Reject(BindErrorMessage)
    else if !validateEmail(req.request.sender) then Reject(EmailInvalidMessage)
    else
      var sender := req.request.sender;
      var mentionedUsers := extractMentionEmail(req.request.text);
      var call := Some(GetUsersReceiveUpdateCall(sender, mentionedUsers));
      match getUsersReceiveUpdate(sender, mentionedUsers)
      case Failed(message) => Handled(BadRequest(message), call)
      case Found(list) =>
        assert |list| > 0 ==> list[0] in Elements(Unique(list));
        Handled(Response(StatusOK, ReceiveUpdateBody(ToReceiveUpdate(Unique(list)))), call)
  }
}
