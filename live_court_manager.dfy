/** CourtManager of static/live-updates.js without the page: the live-stream reconnect
    and polling fallback, the decision whether to redraw a court, what a redraw shows,
    the timer text, and the set of slots whose leave button is open. The page, the
    network replies and whether the pointer rests on the user's own slot are inputs. */
module LiveCourtManager {
  import opened Wrappers
  import opened ClientSnapshot
  import opened SlotRendering
  import opened TimerDisplay
  import opened PageSession

  /** this.maxConnectionAttempts. */
  const MAX_CONNECTION_ATTEMPTS: int := 5

  /** One message of the live stream or one poll reply: unparsable, without a `courts`
      key, or with one. */
  datatype Payload = Malformed | WithoutCourts | WithCourts(courts: Snapshot)

  /** The `.court-group` container as the page currently shows it: whether a loading
      slot is in it, and the names in the occupied slots of each `.player-group`. */
  datatype GroupContainer = GroupContainer(loadingSlot: bool, shown: seq<seq<string>>)

  /** The court's element: its active-group container and whether it has a queue container. */
  datatype CourtElement = CourtElement(groups: Option<GroupContainer>, hasQueueContainer: bool)

  /** What happened to the active groups of a court during a redraw. */
  datatype GroupsOutcome =
    | Kept
    | Rendered(groups: seq<RenderedGroup>)
    | AskedForEmptyGroup(courtId: int)

  datatype CourtRender = CourtRender(name: string, groups: GroupsOutcome, queue: Option<QueuePanel>)

  /** One `.player-slot.my-slot.show-leave-button` on the page at an outside click. */
  datatype OpenSlot = OpenSlot(playerName: string, containsTarget: bool)

  /** The reply of /timer/status, or TimerFailed when the request or its JSON failed. */
  datatype TimerReply = TimerFailed | TimerReply(remaining: int, expired: bool, courts: Option<Snapshot>)

  /** `courtName.replace(' ', '-')`: a string pattern replaces only the first space. */
  function ElementId(name: string): (id: string)
    ensures |id| == |name|
    ensures forall i :: 0 <= i < |name| ==> id[i] == if name[i] == ' ' && ' ' !in name[..i] then '-' else name[i]
  {
    if name == [] then []
    else if name[0] == ' ' then
      assert forall i :: 1 <= i < |name| ==> ' ' in name[..i] by {
        forall i | 1 <= i < |name| ensures ' ' in name[..i] { assert name[..i][0] == ' '; }
      }
      "-" + name[1..]
    else
      var rest := ElementId(name[1..]);
      assert forall i :: 1 <= i < |name| ==> (' ' in name[..i] <==> ' ' in name[1..][..i - 1]) by {
        forall i | 1 <= i < |name| ensures ' ' in name[..i] <==> ' ' in name[1..][..i - 1] {
          assert name[..i] == [name[0]] + name[1..][..i - 1];
        }
      }
      [name[0]] + rest
  }

  /** The players list of each group, in order. */
  function PlayerLists(groups: seq<Group>): (r: seq<seq<string>>)
    ensures |r| == |groups| && forall i :: 0 <= i < |groups| ==> r[i] == groups[i].players
  {
    seq(|groups|, i requires 0 <= i < |groups| => groups[i].players)
  }

  /** shouldUpdateDisplay's answer, given the sessionStorage flag it finds: missing data
      or a loading slot always redraws; past those checks the force flag redraws, an
      interaction with the user's own slot blocks the redraw, and otherwise the court
      is redrawn exactly when the names on the page differ from the new players. */
  function UpdateDecision(groups: Option<seq<Group>>, container: Option<GroupContainer>,
                          forceUpdate: bool, interacting: bool): (r: bool)
    ensures groups.None? || container.None? || container.value.loadingSlot ==> r
    ensures groups.Some? && container.Some? && !container.value.loadingSlot ==>
      && (forceUpdate ==> r)
      && (!forceUpdate && interacting ==> !r)
      && (!forceUpdate && !interacting ==> (r <==> container.value.shown != PlayerLists(groups.value)))
  {
    if groups.None? || container.None? then true
    else if container.value.loadingSlot then true
    else if forceUpdate then true
    else if interacting then false
    else if |container.value.shown| != |groups.value| then true
    else exists i :: 0 <= i < |groups.value| && container.value.shown[i] != groups.value[i].players
  }

  /** shouldUpdateDisplay reads (and so clears) the flag only past its first two checks,
      which are exactly the cases where the flag and the interaction can change the answer. */
  function ReachesForceCheck(groups: Option<seq<Group>>, container: Option<GroupContainer>): (r: bool)
    ensures !r ==> forall f: bool, i: bool :: UpdateDecision(groups, container, f, i)
    ensures r ==> UpdateDecision(groups, container, true, true) && !UpdateDecision(groups, container, false, true)
  {
    groups.Some? && container.Some? && !container.value.loadingSlot
  }

  /** Without a force flag, a court whose page already shows its groups' players is not
      redrawn, whether or not the user is interacting with their slot. */
  lemma {:induction false} ShownGroupsAreNotRedrawn(groups: seq<Group>, container: GroupContainer, interacting: bool)
    requires !container.loadingSlot
    requires |container.shown| == |groups|
    requires forall i :: 0 <= i < |groups| ==> container.shown[i] == groups[i].players
    ensures !UpdateDecision(Some(groups), Some(container), false, interacting)
  {
  }

  /** The page reading back a fresh rendering of the groups shows no change. */
  lemma {:induction false} RedrawIsStable(groups: seq<Group>, rendered: seq<RenderedGroup>, maxPlayers: nat,
                                         currentUser: string, activeLeaveSlots: set<string>, userActive: bool,
                                         interacting: bool)
    requires |rendered| == |groups|
    requires forall i :: 0 <= i < |groups| ==>
      ShowsGroup(rendered[i].slots, groups[i], maxPlayers, currentUser, activeLeaveSlots, userActive)
    ensures var shown := seq(|rendered|, i requires 0 <= i < |rendered| => OccupiedNames(rendered[i].slots));
      !UpdateDecision(Some(groups), Some(GroupContainer(false, shown)), false, interacting)
  {
    var shown := seq(|rendered|, i requires 0 <= i < |rendered| => OccupiedNames(rendered[i].slots));
    forall i | 0 <= i < |groups| ensures shown[i] == groups[i].players {
      ShownNamesArePlayers(rendered[i].slots, groups[i], maxPlayers, currentUser, activeLeaveSlots, userActive);
    }
    ShownGroupsAreNotRedrawn(groups, GroupContainer(false, shown), interacting);
  }

  /** The `currentGroupElements.forEach` of shouldUpdateDisplay: whether some rendered
      group's names differ from the new group's players. */
  method GroupsChanged(shown: seq<seq<string>>, groups: seq<Group>) returns (changed: bool)
    ensures changed <==> exists i :: 0 <= i < |shown| && i < |groups| && shown[i] != groups[i].players
  {
    changed := false;
    var i := 0;
    while i < |shown|
      invariant 0 <= i <= |shown|
      invariant changed <==> exists j :: 0 <= j < i && j < |groups| && shown[j] != groups[j].players
    {
      if i < |groups| {
        if |shown[i]| != |groups[i].players| {
          changed := true;
        } else if !ArraysEqual(shown[i], groups[i].players) {
          changed := true;
        }
      }
      i := i + 1;
    }
  }

  /** The active-group half of a court's redraw agrees with the court's groups. */
  ghost predicate GroupsFit(o: GroupsOutcome, view: CourtView, element: CourtElement, maxPlayers: nat,
                            currentUser: string, activeLeaveSlots: set<string>, userActive: bool)
  {
    match o
    case Kept => true
    case Rendered(gs) =>
      && element.groups.Some? && view.activeGroups.Some?
      && |gs| == |view.activeGroups.value| > 0
      && forall i :: 0 <= i < |gs| ==>
        && gs[i].full == view.activeGroups.value[i].isFull
        && ShowsGroup(gs[i].slots, view.activeGroups.value[i], maxPlayers, currentUser, activeLeaveSlots, userActive)
    case AskedForEmptyGroup(id) =>
      element.groups.Some? && id == view.id && OrEmpty(view.activeGroups) == []
  }

  /** A court's redraw: its name, its groups as above, and its queue panel exactly when
      the court has a queue container. */
  ghost predicate Fits(r: CourtRender, entry: CourtEntry, element: CourtElement, maxPlayers: nat,
                       currentUser: string, activeLeaveSlots: set<string>, userActive: bool)
  {
    && r.name == entry.name
    && GroupsFit(r.groups, entry.view, element, maxPlayers, currentUser, activeLeaveSlots, userActive)
    && (r.queue.Some? <==> element.hasQueueContainer)
    && (r.queue.Some? ==> ShowsQueue(r.queue.value, entry.view, maxPlayers, currentUser, activeLeaveSlots, userActive))
  }

  /** The court has an element and shouldUpdateDisplay would read the flag for it. */
  ghost predicate ReadsFlagAt(s: Snapshot, page: map<string, CourtElement>, k: int)
    requires 0 <= k < |s|
  {
    ElementId(s[k].name) in page && ReachesForceCheck(s[k].view.activeGroups, page[ElementId(s[k].name)].groups)
  }

  /** The force flag as court `k` of snapshot `s` finds it: still up only if no earlier
      court read it. */
  ghost predicate FlagBefore(s: Snapshot, page: map<string, CourtElement>, flag: bool, k: int)
    requires 0 <= k <= |s|
  {
    flag && !exists j :: 0 <= j < k && ReadsFlagAt(s, page, j)
  }

  /** updateCourtsDisplay drew snapshot `s`, starting with force flag `flag`: one entry per
      court, None where the page has no element for it; a court's groups are redrawn
      exactly when shouldUpdateDisplay says so with the flag as that court finds it. */
  ghost predicate Displays(renders: seq<Option<CourtRender>>, s: Snapshot, page: map<string, CourtElement>,
                           maxPlayers: nat, currentUser: string, activeLeaveSlots: set<string>,
                           flag: bool, interacting: bool)
  {
    && |renders| == |s|
    && forall k :: 0 <= k < |s| ==>
      && (renders[k].Some? <==> ElementId(s[k].name) in page)
      && (renders[k].Some? ==>
            && Fits(renders[k].value, s[k], page[ElementId(s[k].name)], maxPlayers, currentUser, activeLeaveSlots,
                    IsUserActive(Some(s), currentUser))
            && (renders[k].value.groups.Kept? <==>
                  (page[ElementId(s[k].name)].groups.Some? ==>
                     !UpdateDecision(s[k].view.activeGroups, page[ElementId(s[k].name)].groups,
                                     FlagBefore(s, page, flag, k), interacting))))
  }

  /** The set after a click on one's own slot: that name goes in or out. */
  function Toggled(s: set<string>, name: string): (r: set<string>)
    ensures name in r <==> name !in s
    ensures forall x :: x != name ==> (x in r <==> x in s)
  {
    if name in s then s - {name} else s + {name}
  }

  /** Clicking one's own slot twice leaves the set as it was. */
  lemma ToggleTwiceRestores(s: set<string>, name: string)
    ensures Toggled(Toggled(s, name), name) == s
  {
  }

  /** The names an outside click closes: open slots the click was not inside. */
  function ClosedNames(openSlots: seq<OpenSlot>): (names: set<string>)
    ensures forall n :: n in names <==>
      n != "" && exists i :: 0 <= i < |openSlots| && !openSlots[i].containsTarget && openSlots[i].playerName == n
  {
    set i | 0 <= i < |openSlots| && !openSlots[i].containsTarget && openSlots[i].playerName != "" :: openSlots[i].playerName
  }

  class CourtManager {
    var connectionAttempts: int
    /** this.evtSource is open (not yet closed by onerror). */
    var streamOpen: bool
    /** A `setTimeout(() => this.initializeEventSource(), 3000)` is pending. */
    var retryScheduled: bool
    /** this.pollingInterval is set. */
    var polling: bool
    /** this.courts, the last snapshot drawn. */
    var courts: Option<Snapshot>
    /** window.activeLeaveSlots. */
    var activeLeaveSlots: set<string>
    /** window.currentUser, "" without a logged-in user. */
    const currentUser: string
    /** window.MAX_PLAYERS. */
    const maxPlayers: nat
    const session: SessionStorage

    /** The page always has a way to hear about court changes: an open stream, a
        scheduled reconnect, or polling; polling begins only after the fifth error. */
    ghost predicate Valid()
      reads this
    {
      && 0 <= connectionAttempts <= MAX_CONNECTION_ATTEMPTS
      && (streamOpen || retryScheduled || polling)
      && !(streamOpen && retryScheduled)
      && (streamOpen || retryScheduled ==> connectionAttempts < MAX_CONNECTION_ATTEMPTS)
      && (polling ==> !streamOpen && !retryScheduled && connectionAttempts == MAX_CONNECTION_ATTEMPTS)
    }

    constructor (currentUser: string, maxPlayers: nat, session: SessionStorage)
      ensures Valid()
      ensures this.currentUser == currentUser && this.maxPlayers == maxPlayers && this.session == session
      ensures connectionAttempts == 0 && streamOpen && !retryScheduled && !polling
      ensures courts == None && activeLeaveSlots == {}
    {
      this.currentUser := currentUser;
      this.maxPlayers := maxPlayers;
      this.session := session;
      connectionAttempts := 0;
      streamOpen := true;
      retryScheduled := false;
      polling := false;
      courts := None;
      activeLeaveSlots := {};
    }

    /** evtSource.onmessage: any message resets the error count; a parsed snapshot is
        drawn unless the user is interacting with their slot or it equals the last one. */
    method OnMessage(payload: Payload, interacting: bool, page: map<string, CourtElement>)
      returns (renders: seq<Option<CourtRender>>)
      requires Valid() && streamOpen
      modifies this`connectionAttempts, this`courts, session`forceUpdate
      ensures Valid()
      ensures connectionAttempts == 0
      ensures var update := payload.WithCourts? && !interacting && payload.courts != Current(old(courts));
        && courts == (if update then Some(payload.courts) else old(courts))
        && (update ==>
              && Displays(renders, payload.courts, page, maxPlayers, currentUser, activeLeaveSlots,
                          old(session.forceUpdate), false)
              && session.forceUpdate == FlagBefore(payload.courts, page, old(session.forceUpdate), |payload.courts|))
        && (!update ==> renders == [] && session.forceUpdate == old(session.forceUpdate))
    {
      connectionAttempts := 0;
      renders := [];
      if payload.WithCourts? && !interacting {
        if Current(courts) != payload.courts {
          renders := UpdateCourtsDisplay(payload.courts, page, false);
        }
      }
    }

    /** evtSource.onerror: the stream is closed and the error counted; below five errors
        a reconnect is scheduled, at the fifth polling starts instead. */
    method OnError() returns (retry: bool)
      requires Valid() && streamOpen
      modifies this`streamOpen, this`connectionAttempts, this`retryScheduled, this`polling
      ensures Valid()
      ensures !streamOpen && connectionAttempts == old(connectionAttempts) + 1
      ensures retry <==> connectionAttempts < MAX_CONNECTION_ATTEMPTS
      ensures retryScheduled == retry && polling == !retry
    {
      streamOpen := false;
      connectionAttempts := connectionAttempts + 1;
      if connectionAttempts < MAX_CONNECTION_ATTEMPTS {
        retryScheduled := true;
        retry := true;
      } else {
        polling := true;
        retry := false;
      }
    }

    /** The reconnect timer fires: initializeEventSource opens a new stream. */
    method RetryElapsed()
      requires Valid() && retryScheduled
      modifies this`streamOpen, this`retryScheduled
      ensures Valid()
      ensures streamOpen && !retryScheduled
    {
      retryScheduled := false;
      streamOpen := true;
    }

    /** evtSource.onopen: a running poll is stopped. A stream only opens while no poll
        runs, so this leaves the state as it was. */
    method OnOpen()
      requires Valid() && streamOpen
      modifies this`polling
      ensures Valid()
      ensures !polling && !old(polling)
    {
      polling := false;
    }

    /** One tick of startPolling: a reply with courts is drawn as it is. */
    method PollTick(payload: Payload, interacting: bool, page: map<string, CourtElement>)
      returns (renders: seq<Option<CourtRender>>)
      requires Valid() && polling
      modifies this`courts, session`forceUpdate
      ensures Valid()
      ensures payload.WithCourts? ==>
        && courts == Some(payload.courts)
        && Displays(renders, payload.courts, page, maxPlayers, currentUser, activeLeaveSlots,
                    old(session.forceUpdate), interacting)
        && session.forceUpdate == FlagBefore(payload.courts, page, old(session.forceUpdate), |payload.courts|)
      ensures !payload.WithCourts? ==>
        courts == old(courts) && renders == [] && session.forceUpdate == old(session.forceUpdate)
    {
      renders := [];
      if payload.WithCourts? {
        renders := UpdateCourtsDisplay(payload.courts, page, interacting);
      }
    }

    /** updateTimerDisplay: the timer text, and on expiry a redraw from the courts in the
        reply or, lacking those, from a poll. */
    method TimerTick(reply: TimerReply, polled: Payload, interacting: bool, page: map<string, CourtElement>)
      returns (text: Option<string>, renders: seq<Option<CourtRender>>)
      requires Valid()
      modifies this`courts, session`forceUpdate
      ensures Valid()
      ensures text == if reply.TimerReply? then Some(FormatTime(reply.remaining)) else None
      ensures var drawn :=
          if reply.TimerFailed? || !reply.expired then None
          else if reply.courts.Some? then reply.courts
          else if polled.WithCourts? then Some(polled.courts)
          else None;
        && (drawn.Some? ==>
              && courts == drawn
              && Displays(renders, drawn.value, page, maxPlayers, currentUser, activeLeaveSlots,
                          old(session.forceUpdate), interacting)
              && session.forceUpdate == FlagBefore(drawn.value, page, old(session.forceUpdate), |drawn.value|))
        && (drawn.None? ==> courts == old(courts) && renders == [] && session.forceUpdate == old(session.forceUpdate))
    {
      renders := [];
      if reply.TimerFailed? {
        return None, [];
      }
      text := Some(FormatTime(reply.remaining));
      if reply.expired {
        if reply.courts.Some? {
          renders := UpdateCourtsDisplay(reply.courts.value, page, interacting);
        } else if polled.WithCourts? {
          renders := UpdateCourtsDisplay(polled.courts, page, interacting);
        }
      }
    }

    /** shouldUpdateDisplay; the sessionStorage flag is one-shot. */
    method ShouldUpdateDisplay(groups: Option<seq<Group>>, container: Option<GroupContainer>, interacting: bool)
      returns (update: bool)
      modifies session`forceUpdate
      ensures update == UpdateDecision(groups, container, old(session.forceUpdate), interacting)
      ensures session.forceUpdate == (old(session.forceUpdate) && !ReachesForceCheck(groups, container))
    {
      if groups.None? || container.None? {
        return true;
      }
      if container.value.loadingSlot {
        return true;
      }
      if session.forceUpdate {
        session.forceUpdate := false;
        return true;
      }
      if interacting {
        return false;
      }
      if |container.value.shown| != |groups.value| {
        return true;
      }
      update := GroupsChanged(container.value.shown, groups.value);
    }

    /** One court of updateCourtsDisplay's loop. */
    method RenderCourt(entry: CourtEntry, element: CourtElement, userActive: bool, interacting: bool)
      returns (render: CourtRender)
      modifies session`forceUpdate
      ensures Fits(render, entry, element, maxPlayers, currentUser, activeLeaveSlots, userActive)
      ensures element.groups.Some? ==>
        (render.groups.Kept? <==> !UpdateDecision(entry.view.activeGroups, element.groups, old(session.forceUpdate), interacting))
      ensures element.groups.None? ==> render.groups.Kept?
      ensures session.forceUpdate ==
        (old(session.forceUpdate) && !(element.groups.Some? && ReachesForceCheck(entry.view.activeGroups, element.groups)))
    {
      var groups := Kept;
      if element.groups.Some? {
        var update := ShouldUpdateDisplay(entry.view.activeGroups, element.groups, interacting);
        if update {
          if entry.view.activeGroups.Some? && |entry.view.activeGroups.value| > 0 {
            var rendered := RenderActiveGroups(entry.view.activeGroups.value, maxPlayers, currentUser,
                                               activeLeaveSlots, userActive);
            groups := Rendered(rendered);
          } else {
            groups := AskedForEmptyGroup(entry.view.id);
          }
        }
      }
      var queue := None;
      if element.hasQueueContainer {
        var panel := RenderQueue(entry.view, maxPlayers, currentUser, activeLeaveSlots, userActive);
        queue := Some(panel);
      }
      render := CourtRender(entry.name, groups, queue);
    }

    /** updateCourtsDisplay: remember the snapshot, then redraw every court the page has
        an element for, in snapshot order. */
    method UpdateCourtsDisplay(s: Snapshot, page: map<string, CourtElement>, interacting: bool)
      returns (renders: seq<Option<CourtRender>>)
      modifies this`courts, session`forceUpdate
      ensures courts == Some(s)
      ensures Displays(renders, s, page, maxPlayers, currentUser, activeLeaveSlots, old(session.forceUpdate), interacting)
      ensures session.forceUpdate == FlagBefore(s, page, old(session.forceUpdate), |s|)
    {
      courts := Some(s);
      var userActive := IsUserActive(courts, currentUser);
      renders := [];
      var i := 0;
      while i < |s|
        invariant 0 <= i <= |s|
        invariant courts == Some(s)
        invariant |renders| == i
        invariant forall k :: 0 <= k < i ==>
          && (renders[k].Some? <==> ElementId(s[k].name) in page)
          && (renders[k].Some? ==>
                && Fits(renders[k].value, s[k], page[ElementId(s[k].name)], maxPlayers, currentUser, activeLeaveSlots, userActive)
                && (renders[k].value.groups.Kept? <==>
                      (page[ElementId(s[k].name)].groups.Some? ==>
                         !UpdateDecision(s[k].view.activeGroups, page[ElementId(s[k].name)].groups,
                                         FlagBefore(s, page, old(session.forceUpdate), k), interacting))))
        invariant session.forceUpdate == FlagBefore(s, page, old(session.forceUpdate), i)
      {
        var id := ElementId(s[i].name);
        ghost var before := renders;
        if id in page {
          var render := RenderCourt(s[i], page[id], userActive, interacting);
          renders := renders + [Some(render)];
        } else {
          renders := renders + [None];
        }
        assert forall k :: 0 <= k < i ==> renders[k] == before[k];
        assert (exists k :: 0 <= k < i + 1 && ReadsFlagAt(s, page, k)) <==>
               (exists k :: 0 <= k < i && ReadsFlagAt(s, page, k)) || ReadsFlagAt(s, page, i);
        i := i + 1;
      }
    }

    /** The click handler on the user's own slot: unless the click is on the leave
        button, the slot's name goes into or out of the open set. */
    method ToggleLeaveSlot(playerName: string, onLeaveButton: bool)
      modifies this`activeLeaveSlots
      ensures activeLeaveSlots ==
        if onLeaveButton || playerName == "" then old(activeLeaveSlots) else Toggled(old(activeLeaveSlots), playerName)
    {
      if onLeaveButton {
        return;
      }
      if playerName != "" {
        if playerName !in activeLeaveSlots {
          activeLeaveSlots := activeLeaveSlots + {playerName};
        } else {
          activeLeaveSlots := activeLeaveSlots - {playerName};
        }
      }
    }

    /** The document click handler: every open slot the click was outside of closes. */
    method OutsideClick(openSlots: seq<OpenSlot>)
      modifies this`activeLeaveSlots
      ensures activeLeaveSlots == old(activeLeaveSlots) - ClosedNames(openSlots)
    {
      var i := 0;
      while i < |openSlots|
        invariant 0 <= i <= |openSlots|
        invariant activeLeaveSlots == old(activeLeaveSlots) - ClosedNames(openSlots[..i])
      {
        assert ClosedNames(openSlots[..i + 1]) ==
          ClosedNames(openSlots[..i]) +
          (if !openSlots[i].containsTarget && openSlots[i].playerName != "" then {openSlots[i].playerName} else {});
        var slot := openSlots[i];
        if !slot.containsTarget {
          if slot.playerName != "" {
            activeLeaveSlots := activeLeaveSlots - {slot.playerName};
          }
        }
        i := i + 1;
      }
      assert openSlots[..i] == openSlots;
    }
  }

  /** Five stream errors in a row with no message between them: the first four each
      schedule a reconnect, the fifth starts polling. */
  method FiveErrorsInARow(session: SessionStorage) returns (retries: seq<bool>, pollingStarted: bool)
    ensures retries == [true, true, true, true, false] && pollingStarted
  {
    var manager := new CourtManager("", 2, session);
    retries := [];
    var i := 0;
    while i < 4
      invariant 0 <= i <= 4
      invariant manager.Valid() && manager.streamOpen && manager.connectionAttempts == i
      invariant retries == seq(i, _ => true)
    {
      var retry := manager.OnError();
      manager.RetryElapsed();
      retries := retries + [retry];
      i := i + 1;
    }
    var last := manager.OnError();
    retries := retries + [last];
    pollingStarted := manager.polling;
  }
}
