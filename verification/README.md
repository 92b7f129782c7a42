# Friendship controller of friend-connection-rest-api, in Dafny

This project models the HTTP controller of a friend-connection REST service.
The controller lets users make friends, subscribe to and block one another,
list friends and mutual friends, and ask who receives a posted update.
Each handler is a pure function. It takes the bound request, the e-mail format
check and the relationship service's answer. It returns the response written
(status plus JSON body) and the service call made, if any.

Modules:

- `Dedup` (`dedup.dfy`): `removeDuplicates`. `Unique` is a reference definition
  that keeps an entry when its value has not occurred earlier. `RemoveDuplicates`
  is the controller's loop with an "encountered" set, proved equal to `Unique`.
  Lemmas show that `Unique` is the only duplicate-free sequence that has the
  input's values in first-occurrence order. Further lemmas give its identity on
  clean input, idempotence and length.
- `Responses` (`responses.dfy`): status codes, the fixed error messages and the
  response records. It includes Go's nil-versus-empty slice distinction
  (`append` of nothing onto a nil slice stays nil).
  It also holds the two response builders and the 201/400 answer of a mutation.
- `FriendshipService` (`service.dfy`): the arguments the controller passes to
  the relationship service and the results it gets back.
- `FriendshipController` (`friendship_controller.dfy`): the six handlers, with
  their checks in source order: binding, then the request shape, then the
  e-mail format, then the service.
- `ControllerProperties` (`controller_properties.dfy`): properties that relate
  the handlers to one another and to the service.

`utils.ValidateEmail`, `utils.ExtractMentionEmail` and every service operation
are function parameters. Every property therefore holds whatever they return.
Request binding (`c.BindJSON`) is an input: the request either failed to bind
or bound to a record.

The model follows the code in these respects:

- For an empty friend or recipient list the builders leave the list field a
  nil slice, not an empty one, because they append nothing onto a nil slice.
  How that field is rendered in JSON depends on the records' field tags, which
  are not part of this model.
- `toUsersCanReceiveUpdate` sets only the success flag and the recipients; it
  fills no count.
- The controller itself neither drops the sender nor applies blocks; it only
  removes repeats from whatever the service returns.

## Model

| member | source | states |
|---|---|---|
| Dedup.RemoveDuplicates | controller/friendship/friendship_controller.go:202-219 | the loop returns exactly the reference deduplication: each input value appears once, in the order of its first occurrence, and no other value appears |
| Dedup.Unique | controller/friendship/friendship_controller.go:207-216 | keeping only first occurrences yields no repeated value and exactly the input's set of values |
| Dedup.UniqueIsDedup | controller/friendship/friendship_controller.go:207-216 | the output lists each input value once, ordered by where that value first occurs in the input, so it is the subsequence of first occurrences |
| Dedup.DedupIsUnique | controller/friendship/friendship_controller.go:202-219 | any duplicate-free sequence with the input's values in first-occurrence order equals the output, so those properties determine the result |
| Dedup.UniqueCharacterization | controller/friendship/friendship_controller.go:202-219 | a sequence is the output exactly when it lists the input's values once each in first-occurrence order |
| Dedup.UniqueIdentity | controller/friendship/friendship_controller.go:207-216 | the input comes back unchanged if and only if it has no repeated value |
| Dedup.UniqueIdempotent | controller/friendship/friendship_controller.go:202-219 | deduplicating twice gives the same as deduplicating once |
| Dedup.UniqueLength | controller/friendship/friendship_controller.go:202-219 | the output length is the number of distinct input values, so it never exceeds the input length; it is strictly shorter than the input exactly when the input repeats a value |
| Responses.Append | controller/friendship/friendship_controller.go:191 | appending copies the list after the existing items; the slice stays nil exactly when it was nil and nothing was appended |
| Responses.ToListFriends | controller/friendship/friendship_controller.go:187-193 | the record has success set, the friends in the input order, a count equal to the list length, and a nil list exactly when the input is empty |
| Responses.ToReceiveUpdate | controller/friendship/friendship_controller.go:195-200 | the record has success set and the recipients in the input order, nil exactly when the input is empty |
| Responses.MutationResponse | controller/friendship/friendship_controller.go:37-42 | a nil service error gives 201 with `{"success":true}`; an error gives 400 whose message is exactly the error's text |
| FriendshipController.ListFriendsResponse | controller/friendship/friendship_controller.go:60-65 | a service error gives 400 with its text; a found list gives 200 with that list in order and its length as count |
| FriendshipController.MakeFriend | controller/friendship/friendship_controller.go:14-43 | bind failure gives the bind error; "Request Invalid" exactly when the list is not two different entries; "Email Invalid Format" exactly when it is, but an address fails the check; the service is called exactly when all checks pass, with requester = entry 0 and target = entry 1, and its result decides 201 or 400 |
| FriendshipController.GetFriendsList | controller/friendship/friendship_controller.go:45-66 | "Email Invalid Format" exactly when the address fails the check; the service is called exactly when it passes, with that address; its list or error is answered as a list response |
| FriendshipController.GetMutualFriends | controller/friendship/friendship_controller.go:68-97 | the same gate as make-friend, in the same order; on success the service's list is answered with its count, and its error as 400 with its text |
| FriendshipController.Subscribe | controller/friendship/friendship_controller.go:99-128 | "Request Invalid" exactly when requestor equals target, checked before the e-mail format; the service is called with (requestor, target) exactly when both checks pass; nil gives 201 `{"success":true}`, an error gives 400 with its text |
| FriendshipController.Block | controller/friendship/friendship_controller.go:130-159 | the same checks and answers as subscribe, calling the block operation |
| FriendshipController.GetUsersReceiveUpdate | controller/friendship/friendship_controller.go:161-185 | "Email Invalid Format" exactly when the sender fails the check, without calling the service; otherwise the service is called with the sender and the mentions extracted from the text; an error gives 400 with its text, success gives 200 with the deduplicated list, a nil slice exactly when the service's list is empty |
| Responses.BadRequest | controller/friendship/friendship_controller.go:42 | an error answer is well formed: status 400 with an `{"error": message}` body carrying exactly the given message |
| FriendshipController.Reject | controller/friendship/friendship_controller.go:17-20 | an early rejection answers 400 with the given message and records no service call |
| ControllerProperties.SamePairIsRequestInvalid | controller/friendship/friendship_controller.go:22-25 | `[x, x]` is "Request Invalid" for both pair handlers whatever the e-mail check says, so it is never "Email Invalid Format" |
| ControllerProperties.SelfUpdateIsRequestInvalid | controller/friendship/friendship_controller.go:107-110 | subscribing to or blocking oneself is "Request Invalid" whatever the e-mail check says |
| ControllerProperties.PairHandlersShareChecks | controller/friendship/friendship_controller.go:14-97 | make-friend and mutual-friends consult the service for exactly the same requests, with the same input, and otherwise answer alike |
| ControllerProperties.SubscribeAndBlockAgree | controller/friendship/friendship_controller.go:99-159 | subscribe and block write the same response for the same request and service answer, and pass the same input |
| ControllerProperties.RejectionIgnoresService | controller/friendship/friendship_controller.go:14-185 | a request rejected before the service call is answered the same whatever the service would return |
| ControllerProperties.RecipientsAreDeduplicated | controller/friendship/friendship_controller.go:177-184 | on success the recipients are the service's users, each once, in the order of each user's first occurrence in the service's list, and a list without repeats is written unchanged |
| ControllerProperties.ReceiveUpdateSuccessScenario | controller/friendship/friendship_controller_test.go:464-475 | the test's three distinct recipients come back in order with status 200 |

## Left out

- The relationship service (`services/friendship`): the friend, subscribe and block rules and recipient resolution. Its source is not part of this model, so each operation is an arbitrary function parameter.
- `utils.ValidateEmail` and `utils.ExtractMentionEmail`: not part of this model. They are a predicate parameter and a function parameter.
- Gin request binding: which bodies fail to bind depends on binding tags of request records that are not part of this model. The bind outcome is an input.
- JSON encoding beyond the response records and the nil/empty slice distinction, and the wiring of statuses into HTTP. The declarations of `ResponeListFriends` and `ResponeReceiveUpdate` and their JSON tags are not part of this model. So whether a nil list is written as `null` or omitted (an `omitempty` tag) is not modelled; the model only says the field is a nil slice.
- `Count` is a Go `uint` filled from `len`. The length is never negative, so it is a `nat` with no wrap-around.
- The `encountered` map of `removeDuplicates` (a `map[string]bool` read with a default of false) is a set of strings.
- Route wiring and swagger (`controller/routes.go`), server start-up (`main.go`), the database connection (`utils/connection_db.go`) and migrations (`migrations/init_migration.go`): plumbing with no logic of its own.
- The user controller (`controller/user/user_controller.go`): HTTP glue over the user service, whose source is not part of this model. It has its own bind and e-mail gate (message "Invalid Email") and answers 500 on a listing error; none of that is modelled here.
- The controller's test file serves only as evidence. Its receive-update success case compares the scenario name with `"Recvice Success"` (line 522). That comparison is false for the "Receive Success" case, so the else branch runs and expects status 400 with an empty body (test lines 526-527). `ReceiveUpdateSuccessScenario` proves the handler answers 200 with the three recipients, so as written that test case fails, assuming the e-mail check accepts arel@gmail.com and the mocked service returns the three listed users.
