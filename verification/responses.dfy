/**
  The JSON bodies and HTTP statuses the friendship controller answers with.

  A Go slice is either nil or a (possibly empty) array. The response builders
  start from zero-valued records and `append` the list onto a nil slice, so an
  empty list leaves the field nil; the distinction is kept here. How a nil
  field is rendered depends on the records' JSON tags, which this model does
  not include.
 */
module Responses {

  import opened Wrappers

  const StatusOK: nat := 200
  const StatusCreated: nat := 201
  const StatusBadRequest: nat := 400

  const BindErrorMessage: string := "BindJson Error, cause body request invalid"
  const RequestInvalidMessage: string := "Request Invalid"
  const EmailInvalidMessage: string := "Email Invalid Format"

  /** A Go `[]string`: nil, or an array of items. */
  datatype Slice = Nil | Array(items: seq<string>) {
    /** The items the slice holds; nil holds none. */
    function Items(): seq<string> {
      if Nil? then [] else items
    }
  }

  /**
    Go's `append(dst, list...)`: when nothing is appended the result is `dst`
    itself, so appending an empty list to a nil slice stays nil.
   */
  function Append(dst: Slice, list: seq<string>): (r: Slice)
    ensures r.Items() == dst.Items() + list
    ensures r.Nil? <==> dst.Nil? && |list| == 0
  {
    if |list| == 0 then dst else Array(dst.Items() + list)
  }

  /** `{"success":..,"friends":[..],"count":N}` */
  datatype ListFriends = ListFriends(success: bool, friends: Slice, count: nat)

  /** `{"success":..,"recipients":[..]}` */
  datatype ReceiveUpdate = ReceiveUpdate(success: bool, recipients: Slice)

  datatype Body =
    | ErrorBody(message: string)          // {"error": message}
    | SuccessBody(success: bool)          // {"success": true}
    | ListFriendsBody(list: ListFriends)
    | ReceiveUpdateBody(update: ReceiveUpdate)

  datatype Response = Response(status: nat, body: Body)

  /**
    The status/body pairing every handler keeps: errors go out with 400,
    mutations succeed with 201 and `success: true`, queries with 200,
    `success: true` and, for friend lists, a count equal to the list length.
   */
  predicate WellFormed(r: Response) {
    match r.body
    case ErrorBody(_) => r.status == StatusBadRequest
    case SuccessBody(ok) => r.status == StatusCreated && ok
    case ListFriendsBody(l) => r.status == StatusOK && l.success && l.count == |l.friends.Items()|
    case ReceiveUpdateBody(u) => r.status == StatusOK && u.success
  }

  /** A 400 answer carrying `message`. */
  function BadRequest(message: string): (r: Response)
    ensures WellFormed(r) && r.body.ErrorBody? && r.body.message == message
  {
    Response(StatusBadRequest, ErrorBody(message))
  }

  /**
    toListFriendsStruct: fill a zero-valued record with the count, the success
    flag and a copy of the list.
   */
  function ToListFriends(list: seq<string>): (r: ListFriends)
    ensures r.success
    ensures r.friends.Items() == list
    ensures r.count == |list|
    ensures r.friends.Nil? <==> |list| == 0
  {
    var zero := ListFriends(false, Nil, 0);
    var counted := zero.(count := |list|);
    var flagged := counted.(success := true);
    flagged.(friends := Append(flagged.friends, list))
  }

  /** toUsersCanReceiveUpdate: a zero-valued record with the success flag set and the list copied in. */
  function ToReceiveUpdate(list: seq<string>): (r: ReceiveUpdate)
    ensures r.success
    ensures r.recipients.Items() == list
    ensures r.recipients.Nil? <==> |list| == 0
  {
    var zero := ReceiveUpdate(false, Nil);
    var flagged := zero.(success := true);
    flagged.(recipients := Append(flagged.recipients, list))
  }

  /** The 201 `{"success":true}` answer of a mutation whose service call returned no error, else 400 with the error's text. */
  function MutationResponse(err: Option<string>): (r: Response)
    ensures WellFormed(r)
    ensures r.status == StatusCreated <==> err.None?
    ensures err.Some? ==> r == BadRequest(err.value)
    ensures err.None? ==> r.body == SuccessBody(true)
  {
    if err.Some? then BadRequest(err.value) else Response(StatusCreated, SuccessBody(true))
  }
}
