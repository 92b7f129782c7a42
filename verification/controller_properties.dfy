/**
  Properties relating the friendship handlers to each other and to the
  service: the order of the checks, what the service can and cannot
  influence, and the recipients list of an update.
 */
module ControllerProperties {

  import opened Wrappers
  import opened Dedup
  import opened Responses
  import opened FriendshipService
  import opened FriendshipController

  /**
    A pair naming the same user twice is rejected as "Request Invalid" by both
    pair handlers, before and regardless of the e-mail format check, so it is
    never answered "Email Invalid Format" and never reaches the service.
   */
  lemma SamePairIsRequestInvalid(x: string, validateEmail: string -> bool,
                                 makeFriend: ServiceInput -> Option<string>,
                                 getMutualFriendsList: ServiceInput -> QueryResult)
    ensures MakeFriend(Bound(RequestFriend([x, x])), validateEmail, makeFriend) == Reject(RequestInvalidMessage)
    ensures GetMutualFriends(Bound(RequestFriend([x, x])), validateEmail, getMutualFriendsList) == Reject(RequestInvalidMessage)
    ensures MakeFriend(Bound(RequestFriend([x, x])), validateEmail, makeFriend) != Reject(EmailInvalidMessage)
  {
    assert !IsUserPair([x, x]);
  }

  /** Subscribing to or blocking oneself is "Request Invalid" whatever the addresses look like. */
  lemma SelfUpdateIsRequestInvalid(x: string, validateEmail: string -> bool,
                                   subscribe: ServiceInput -> Option<string>,
                                   block: ServiceInput -> Option<string>)
    ensures Subscribe(Bound(RequestUpdate(x, x)), validateEmail, subscribe) == Reject(RequestInvalidMessage)
    ensures Block(Bound(RequestUpdate(x, x)), validateEmail, block) == Reject(RequestInvalidMessage)
  {
  }

  /**
    MakeFriendController and GetMutualFriendsController run the same checks:
    for the same request one consults its service exactly when the other
    does, and when neither does they answer alike.
   */
  lemma PairHandlersShareChecks(req: Bind<RequestFriend>, validateEmail: string -> bool,
                                makeFriend: ServiceInput -> Option<string>,
                                getMutualFriendsList: ServiceInput -> QueryResult)
    ensures MakeFriend(req, validateEmail, makeFriend).call.None?
        <==> GetMutualFriends(req, validateEmail, getMutualFriendsList).call.None?
    ensures MakeFriend(req, validateEmail, makeFriend).call.None? ==>
      MakeFriend(req, validateEmail, makeFriend).response == GetMutualFriends(req, validateEmail, getMutualFriendsList).response
    ensures MakeFriend(req, validateEmail, makeFriend).call.Some? ==>
      MakeFriend(req, validateEmail, makeFriend).call.value.input
        == GetMutualFriends(req, validateEmail, getMutualFriendsList).call.value.input
  {
  }

  /**
    SubscribeController and BlockController differ only in the service
    operation they call: given the same answer they write the same response.
   */
  lemma SubscribeAndBlockAgree(req: Bind<RequestUpdate>, validateEmail: string -> bool,
                               service: ServiceInput -> Option<string>)
    ensures Subscribe(req, validateEmail, service).response == Block(req, validateEmail, service).response
    ensures Subscribe(req, validateEmail, service).call.Some? <==> Block(req, validateEmail, service).call.Some?
    ensures Subscribe(req, validateEmail, service).call.Some? ==>
      Subscribe(req, validateEmail, service).call.value.input == Block(req, validateEmail, service).call.value.input
  {
  }

  /**
    A handler that rejects a request before the service is consulted answers
    the same whatever the service would have said.
   */
  lemma RejectionIgnoresService(friendReq: Bind<RequestFriend>, updateReq: Bind<RequestUpdate>,
                                listReq: Bind<RequestListFriends>, recvReq: Bind<RequestReceiveUpdate>,
                                validateEmail: string -> bool, extractMentionEmail: string -> seq<string>,
                                mutation1: ServiceInput -> Option<string>, mutation2: ServiceInput -> Option<string>,
                                pair1: ServiceInput -> QueryResult, pair2: ServiceInput -> QueryResult,
                                list1: string -> QueryResult, list2: string -> QueryResult,
                                recv1: (string, seq<string>) -> QueryResult, recv2: (string, seq<string>) -> QueryResult)
    ensures MakeFriend(friendReq, validateEmail, mutation1).call.None? ==>
      MakeFriend(friendReq, validateEmail, mutation1) == MakeFriend(friendReq, validateEmail, mutation2)
    ensures GetMutualFriends(friendReq, validateEmail, pair1).call.None? ==>
      GetMutualFriends(friendReq, validateEmail, pair1) == GetMutualFriends(friendReq, validateEmail, pair2)
    ensures Subscribe(updateReq, validateEmail, mutation1).call.None? ==>
      Subscribe(updateReq, validateEmail, mutation1) == Subscribe(updateReq, validateEmail, mutation2)
    ensures Block(updateReq, validateEmail, mutation1).call.None? ==>
      Block(updateReq, validateEmail, mutation1) == Block(updateReq, validateEmail, mutation2)
    ensures GetFriendsList(listReq, validateEmail, list1).call.None? ==>
      GetFriendsList(listReq, validateEmail, list1) == GetFriendsList(listReq, validateEmail, list2)
    ensures GetUsersReceiveUpdate(recvReq, validateEmail, extractMentionEmail, recv1).call.None? ==>
      GetUsersReceiveUpdate(recvReq, validateEmail, extractMentionEmail, recv1)
        == GetUsersReceiveUpdate(recvReq, validateEmail, extractMentionEmail, recv2)
  {
  }

  /**
    When the recipient query succeeds, the recipients written are the
    service's list with repeats removed: every user it named appears exactly
    once, in the order of each user's first occurrence in the service's list,
    nobody else appears, and a list
    without repeats is written unchanged.
   */
  lemma RecipientsAreDeduplicated(req: Bind<RequestReceiveUpdate>, validateEmail: string -> bool,
                                  extractMentionEmail: string -> seq<string>,
                                  getUsersReceiveUpdate: (string, seq<string>) -> QueryResult)
    requires req.Bound? && validateEmail(req.request.sender)
    requires getUsersReceiveUpdate(req.request.sender, extractMentionEmail(req.request.text)).Found?
    ensures
      var list := getUsersReceiveUpdate(req.request.sender, extractMentionEmail(req.request.text)).list;
      var h := GetUsersReceiveUpdate(req, validateEmail, extractMentionEmail, getUsersReceiveUpdate);
      && h.response.status == StatusOK
      && h.response.body.ReceiveUpdateBody?
      && IsDedupOf(list, h.response.body.update.recipients.Items())
      && (NoDuplicates(list) ==> h.response.body.update.recipients.Items() == list)
  {
    var list := getUsersReceiveUpdate(req.request.sender, extractMentionEmail(req.request.text)).list;
    UniqueIsDedup(list);
    UniqueIdentity(list);
  }

  /**
    The receive-update success scenario of the controller's tests: a service
    list without repeats comes back unchanged, in order, with status 200.
   */
  lemma ReceiveUpdateSuccessScenario(validateEmail: string -> bool, extractMentionEmail: string -> seq<string>,
                                     getUsersReceiveUpdate: (string, seq<string>) -> QueryResult)
    requires validateEmail("arel@gmail.com")
    requires getUsersReceiveUpdate("arel@gmail.com", extractMentionEmail("Hello world!, hi @gema@yahoo.com"))
      == Found(["gema@yahoo.com", "muhammadfaurel.augistta@gmail.com", "faurellorentermcastilla@gmail.com"])
    ensures
      var h := GetUsersReceiveUpdate(Bound(RequestReceiveUpdate("arel@gmail.com", "Hello world!, hi @gema@yahoo.com")),
                                     validateEmail, extractMentionEmail, getUsersReceiveUpdate);
      && h.response.status == StatusOK
      && h.response.body.ReceiveUpdateBody?
      && h.response.body.update.recipients
         == Array(["gema@yahoo.com", "muhammadfaurel.augistta@gmail.com", "faurellorentermcastilla@gmail.com"])
  {
    var list := ["gema@yahoo.com", "muhammadfaurel.augistta@gmail.com", "faurellorentermcastilla@gmail.com"];
    assert NoDuplicates(list);
    UniqueIdentity(list);
  }
}
