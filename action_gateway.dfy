/** The request gateway of static/live-updates.js: the page-wide `isProcessingRequest`
    flag and the `pendingActions` set that let at most one group action be in flight,
    the handling of each action's reply, and the recent-group rejoin that shares the
    flag. Replies are inputs; a reload is reported to the caller. */
module ActionGateway {
  import opened Wrappers
  import opened FlashMessages
  import opened PageSession

  datatype Action = CreateGroup(courtId: string) | JoinGroup(groupId: string) | LeaveGroup

  /** The reply of a group action's request: `success` true or false, or a failed request. */
  datatype Reply = Succeeded(message: string) | Refused(message: string) | NetworkError

  /** The reply of /rejoin-with-group; `joinedCourt` is `data.joined_court`. */
  datatype RejoinReply = RejoinSucceeded(message: string, joinedCourt: bool) | RejoinRefused(message: string) | RejoinFailed

  const CREATE_PREFIX: string := "create_group_"
  const JOIN_PREFIX: string := "join_group_"
  const LEAVE_ID: string := "leave_group"

  /** The first character of each kind of key. */
  function Tag(a: Action): char
  {
    match a
    case CreateGroup(_) => 'c'
    case JoinGroup(_) => 'j'
    case LeaveGroup => 'l'
  }

  /** The pendingActions key of an action. */
  function ActionId(a: Action): (id: string)
    ensures |id| > 0 && id[0] == Tag(a)
    ensures a.CreateGroup? ==> |id| == |CREATE_PREFIX| + |a.courtId| && id[..|CREATE_PREFIX|] == CREATE_PREFIX && id[|CREATE_PREFIX|..] == a.courtId
    ensures a.JoinGroup? ==> |id| == |JOIN_PREFIX| + |a.groupId| && id[..|JOIN_PREFIX|] == JOIN_PREFIX && id[|JOIN_PREFIX|..] == a.groupId
    ensures a.LeaveGroup? ==> id == LEAVE_ID
  {
    match a
    case CreateGroup(courtId) => CREATE_PREFIX + courtId
    case JoinGroup(groupId) => JOIN_PREFIX + groupId
    case LeaveGroup => LEAVE_ID
  }

  /** Different actions never share a key, so one action can never block another by
      its id alone. */
  lemma {:induction false} ActionIdIsInjective(a: Action, b: Action)
    requires ActionId(a) == ActionId(b)
    ensures a == b
  {
    assert Tag(a) == ActionId(a)[0] == ActionId(b)[0] == Tag(b);
    if a.CreateGroup? && b.CreateGroup? {
      assert a.courtId == ActionId(a)[|CREATE_PREFIX|..] == ActionId(b)[|CREATE_PREFIX|..] == b.courtId;
    } else if a.JoinGroup? && b.JoinGroup? {
      assert a.groupId == ActionId(a)[|JOIN_PREFIX|..] == ActionId(b)[|JOIN_PREFIX|..] == b.groupId;
    }
  }

  /** The flash shown when an action succeeds: leaving is a warning. */
  function SuccessCategory(a: Action): (category: string)
    ensures IsKnownCategory(category)
    ensures category == "warning" <==> a.LeaveGroup?
  {
    if a.LeaveGroup? then "warning" else "success"
  }

  /** The flash shown when a request fails outright. */
  function NetworkErrorText(a: Action): (text: string)
    ensures |text| <= MAX_FLASH_LENGTH
  {
    match a
    case CreateGroup(_) => "Error creating group"
    case JoinGroup(_) => "Error joining group"
    case LeaveGroup => "Error leaving group"
  }

  /** rejoinGroup's success text. */
  function RejoinText(message: string, joinedCourt: bool): (text: string)
    ensures |text| == |message| + 15 && text[..|message|] == message
    ensures joinedCourt <==> text[|text| - 6] == 'c'
  {
    message + " (joined " + (if joinedCourt then "court" else "queue") + ")"
  }

  class Gateway {
    var isProcessingRequest: bool
    var pendingActions: set<string>
    const session: SessionStorage

    /** A pending action always holds the flag, and at most one is pending. */
    ghost predicate Valid()
      reads this
    {
      && (pendingActions != {} ==> isProcessingRequest)
      && (forall x, y :: x in pendingActions && y in pendingActions ==> x == y)
    }

    /** A fresh page, also after `location.reload()`; sessionStorage carries over. */
    constructor (session: SessionStorage)
      ensures Valid()
      ensures !isProcessingRequest && pendingActions == {} && this.session == session
    {
      isProcessingRequest := false;
      pendingActions := {};
      this.session := session;
    }

    /** The guard at the top of createNewGroup, joinGroup and leaveGroup: while a request
        is in flight or the same action is pending the click does nothing; otherwise the
        flag is raised and the action recorded. */
    method Submit(a: Action) returns (accepted: bool)
      requires Valid()
      modifies this`isProcessingRequest, this`pendingActions
      ensures Valid()
      ensures accepted <==> !old(isProcessingRequest) && ActionId(a) !in old(pendingActions)
      ensures accepted ==> isProcessingRequest && pendingActions == old(pendingActions) + {ActionId(a)}
      ensures !accepted ==> isProcessingRequest == old(isProcessingRequest) && pendingActions == old(pendingActions)
    {
      if isProcessingRequest {
        return false;
      }
      var id := ActionId(a);
      if id in pendingActions {
        return false;
      }
      isProcessingRequest := true;
      pendingActions := pendingActions + {id};
      accepted := true;
    }

    /** resetInteractionState: the action leaves the pending set, and the flag drops only
        once nothing is left pending. */
    method ResetInteractionState(id: string)
      requires Valid()
      modifies this`isProcessingRequest, this`pendingActions
      ensures Valid()
      ensures pendingActions == old(pendingActions) - {id}
      ensures isProcessingRequest == (old(isProcessingRequest) && pendingActions != {})
    {
      pendingActions := pendingActions - {id};
      if pendingActions == {} {
        isProcessingRequest := false;
      }
    }

    /** The `.then`/`.catch` of an accepted action. Success flashes the message, sets the
        force flag and reloads the page (the flag stays raised until then); a refusal or a
        failed request flashes an error and releases the action. */
    method Settle(a: Action, reply: Reply) returns (flash: Flash, reload: bool)
      requires Valid()
      modifies this`isProcessingRequest, this`pendingActions, session`forceUpdate
      ensures Valid()
      ensures reload <==> reply.Succeeded?
      ensures reply.Succeeded? ==>
        && flash == ShowFlashMessage(reply.message, SuccessCategory(a))
        && session.forceUpdate
        && isProcessingRequest == old(isProcessingRequest) && pendingActions == old(pendingActions)
      ensures !reply.Succeeded? ==>
        && flash == ShowFlashMessage(if reply.Refused? then reply.message else NetworkErrorText(a), "error")
        && session.forceUpdate == old(session.forceUpdate)
        && pendingActions == old(pendingActions) - {ActionId(a)}
        && isProcessingRequest == (old(isProcessingRequest) && pendingActions != {})
    {
      match reply {
        case Succeeded(message) =>
          flash := ShowFlashMessage(message, SuccessCategory(a));
          session.forceUpdate := true;
          reload := true;
        case Refused(message) =>
          flash := ShowFlashMessage(message, "error");
          ResetInteractionState(ActionId(a));
          reload := false;
        case NetworkError =>
          flash := ShowFlashMessage(NetworkErrorText(a), "error");
          ResetInteractionState(ActionId(a));
          reload := false;
      }
    }

    /** The guard of recentGroupsManager.rejoinGroup: only the flag is checked, and no
        action is recorded. */
    method RejoinGroup() returns (accepted: bool)
      requires Valid()
      modifies this`isProcessingRequest
      ensures Valid()
      ensures accepted <==> !old(isProcessingRequest)
      ensures isProcessingRequest
    {
      if isProcessingRequest {
        return false;
      }
      isProcessingRequest := true;
      accepted := true;
    }

    /** The reply of a rejoin; its `finally` drops the flag whatever happened, before the
        page reloads on success. */
    method SettleRejoin(reply: RejoinReply) returns (flash: Flash, reload: bool)
      requires Valid() && pendingActions == {}
      modifies this`isProcessingRequest, session`forceUpdate
      ensures Valid()
      ensures !isProcessingRequest
      ensures reload <==> reply.RejoinSucceeded?
      ensures flash == match reply
        case RejoinSucceeded(message, joinedCourt) => ShowFlashMessage(RejoinText(message, joinedCourt), "success")
        case RejoinRefused(message) => ShowFlashMessage(message, "error")
        case RejoinFailed => ShowFlashMessage("Error rejoining group", "error")
      ensures session.forceUpdate == (old(session.forceUpdate) || reply.RejoinSucceeded?)
    {
      match reply {
        case RejoinSucceeded(message, joinedCourt) =>
          flash := ShowFlashMessage(RejoinText(message, joinedCourt), "success");
          session.forceUpdate := true;
          reload := true;
        case RejoinRefused(message) =>
          flash := ShowFlashMessage(message, "error");
          reload := false;
        case RejoinFailed =>
          flash := ShowFlashMessage("Error rejoining group", "error");
          reload := false;
      }
      isProcessingRequest := false;
    }
  }

  /** Two clicks before the first reply: the second is ignored, whatever the action. A
      refused first action frees the gateway for the next click. */
  method DoubleClick(first: Action, second: Action, message: string)
    returns (firstAccepted: bool, secondAccepted: bool, thirdAccepted: bool)
    ensures firstAccepted && !secondAccepted && thirdAccepted
  {
    var session := new SessionStorage();
    var gateway := new Gateway(session);
    firstAccepted := gateway.Submit(first);
    secondAccepted := gateway.Submit(second);
    var flash, reload := gateway.Settle(first, Refused(message));
    thirdAccepted := gateway.Submit(second);
  }
}
