/** What updateCourtsDisplay and handleEmptyCourt put on the page for one court, as
    abstract slots instead of HTML: occupied slots with their "You"/leave affordance,
    empty slots that may carry a group to join, the position-sorted queue and the
    "Create New Group" button. */
module SlotRendering {
  import opened Wrappers
  import opened ClientSnapshot

  /** `joinGroup` is the `data-group-id` that makes an empty slot clickable. */
  datatype Slot =
    | Occupied(name: string, mine: bool, showLeave: bool)
    | Empty(joinGroup: Option<int>)

  /** generatePlayerSlotHTML. */
  function PlayerSlot(player: string, currentUser: string, activeLeaveSlots: set<string>): (s: Slot)
    ensures s.Occupied? && s.name == player
    ensures s.mine <==> player == currentUser
    ensures s.showLeave <==> player in activeLeaveSlots
  {
    Occupied(player, player == currentUser, player in activeLeaveSlots)
  }

  /** An empty slot can be clicked to join only while the user is in no group. */
  function EmptySlot(groupId: int, userActive: bool): (s: Slot)
    ensures s.Empty?
    ensures s.joinGroup.Some? <==> !userActive
    ensures s.joinGroup.Some? ==> s.joinGroup.value == groupId
  {
    Empty(if userActive then None else Some(groupId))
  }

  /** `slots` shows the group's players in order and then `MAX_PLAYERS - |players|` empty
      slots (none when the group is already full). */
  ghost predicate ShowsGroup(slots: seq<Slot>, g: Group, maxPlayers: nat, currentUser: string,
                             activeLeaveSlots: set<string>, userActive: bool)
  {
    && |slots| == |g.players| + Max(0, maxPlayers - |g.players|)
    && (forall i :: 0 <= i < |g.players| ==> slots[i] == PlayerSlot(g.players[i], currentUser, activeLeaveSlots))
    && (forall i :: |g.players| <= i < |slots| ==> slots[i] == EmptySlot(g.id, userActive))
  }

  /** The occupied slots of one group and the `for (i < emptySlots)` loop after them. */
  method RenderSlots(g: Group, maxPlayers: nat, currentUser: string, activeLeaveSlots: set<string>, userActive: bool)
    returns (slots: seq<Slot>)
    ensures ShowsGroup(slots, g, maxPlayers, currentUser, activeLeaveSlots, userActive)
  {
    slots := [];
    var i := 0;
    while i < |g.players|
      invariant 0 <= i <= |g.players|
      invariant |slots| == i
      invariant forall j :: 0 <= j < i ==> slots[j] == PlayerSlot(g.players[j], currentUser, activeLeaveSlots)
    {
      slots := slots + [PlayerSlot(g.players[i], currentUser, activeLeaveSlots)];
      i := i + 1;
    }
    var emptySlots := maxPlayers - |g.players|;
    var k := 0;
    while k < emptySlots
      invariant 0 <= k <= Max(0, emptySlots)
      invariant |slots| == |g.players| + k
      invariant forall j :: 0 <= j < |g.players| ==> slots[j] == PlayerSlot(g.players[j], currentUser, activeLeaveSlots)
      invariant forall j :: |g.players| <= j < |slots| ==> slots[j] == EmptySlot(g.id, userActive)
    {
      slots := slots + [EmptySlot(g.id, userActive)];
      k := k + 1;
    }
  }

  /** The names the page reads back from a group's occupied slots. */
  function OccupiedNames(slots: seq<Slot>): (names: seq<string>)
    ensures |names| <= |slots|
  {
    if slots == [] then []
    else (if slots[0].Occupied? then [slots[0].name] else []) + OccupiedNames(slots[1..])
  }

  /** A rendered group reads back as exactly its players. */
  lemma {:induction false} ShownNamesArePlayers(slots: seq<Slot>, g: Group, maxPlayers: nat, currentUser: string,
                                               activeLeaveSlots: set<string>, userActive: bool)
    requires ShowsGroup(slots, g, maxPlayers, currentUser, activeLeaveSlots, userActive)
    ensures OccupiedNames(slots) == g.players
    decreases |slots|
  {
    if slots != [] {
      var rest := Group(g.id, g.position, if g.players == [] then [] else g.players[1..], g.isFull);
      if g.players == [] {
        assert slots[0] == EmptySlot(g.id, userActive);
        assert ShowsGroup(slots[1..], g, Max(0, maxPlayers - 1), currentUser, activeLeaveSlots, userActive);
        ShownNamesArePlayers(slots[1..], g, Max(0, maxPlayers - 1), currentUser, activeLeaveSlots, userActive);
      } else {
        assert slots[0] == PlayerSlot(g.players[0], currentUser, activeLeaveSlots);
        assert ShowsGroup(slots[1..], rest, Max(0, maxPlayers - 1), currentUser, activeLeaveSlots, userActive);
        ShownNamesArePlayers(slots[1..], rest, Max(0, maxPlayers - 1), currentUser, activeLeaveSlots, userActive);
        assert g.players == [g.players[0]] + g.players[1..];
      }
    }
  }

  /** A group that is not over-full always shows exactly MAX_PLAYERS slots, and it can be
      joined through an empty slot exactly when it has room and the user is in no group. */
  lemma GroupShowsCapacity(slots: seq<Slot>, g: Group, maxPlayers: nat, currentUser: string,
                           activeLeaveSlots: set<string>, userActive: bool)
    requires ShowsGroup(slots, g, maxPlayers, currentUser, activeLeaveSlots, userActive)
    requires |g.players| <= maxPlayers
    ensures |slots| == maxPlayers
    ensures (exists i :: 0 <= i < |slots| && slots[i] == Empty(Some(g.id))) <==> |g.players| < maxPlayers && !userActive
  {
    if |g.players| < maxPlayers && !userActive {
      assert slots[|g.players|] == Empty(Some(g.id));
    }
  }

  datatype RenderedGroup = RenderedGroup(full: bool, slots: seq<Slot>)

  /** The `active_groups.forEach` of updateCourtsDisplay. */
  method RenderActiveGroups(groups: seq<Group>, maxPlayers: nat, currentUser: string,
                            activeLeaveSlots: set<string>, userActive: bool)
    returns (rendered: seq<RenderedGroup>)
    ensures |rendered| == |groups|
    ensures forall i :: 0 <= i < |groups| ==>
      && rendered[i].full == groups[i].isFull
      && ShowsGroup(rendered[i].slots, groups[i], maxPlayers, currentUser, activeLeaveSlots, userActive)
  {
    rendered := [];
    var i := 0;
    while i < |groups|
      invariant 0 <= i <= |groups|
      invariant |rendered| == i
      invariant forall j :: 0 <= j < i ==>
        && rendered[j].full == groups[j].isFull
        && ShowsGroup(rendered[j].slots, groups[j], maxPlayers, currentUser, activeLeaveSlots, userActive)
    {
      var slots := RenderSlots(groups[i], maxPlayers, currentUser, activeLeaveSlots, userActive);
      rendered := rendered + [RenderedGroup(groups[i].isFull, slots)];
      i := i + 1;
    }
  }

  /** What handleEmptyCourt's request to create an empty active group came back with. */
  datatype EmptyGroupReply = Created(groupId: int) | NotCreated | RequestFailed

  /** handleEmptyCourt: MAX_PLAYERS empty slots, joinable through the new group when it
      was created and the user is in no group; plain empty slots otherwise. */
  method RenderEmptyCourt(reply: EmptyGroupReply, maxPlayers: nat, userActive: bool) returns (group: RenderedGroup)
    ensures !group.full && |group.slots| == maxPlayers
    ensures forall i :: 0 <= i < maxPlayers ==>
      group.slots[i] == Empty(if reply.Created? && !userActive then Some(reply.groupId) else None)
  {
    if reply.Created? {
      var slots: seq<Slot> := [];
      var i := 0;
      while i < maxPlayers
        invariant 0 <= i <= maxPlayers
        invariant |slots| == i
        invariant forall j :: 0 <= j < i ==> slots[j] == EmptySlot(reply.groupId, userActive)
      {
        slots := slots + [EmptySlot(reply.groupId, userActive)];
        i := i + 1;
      }
      group := RenderedGroup(false, slots);
    } else {
      group := RenderedGroup(false, seq(maxPlayers, _ => Empty(None)));
    }
  }

  // ---------------------------------------------------------------------------
  // The queue order

  predicate SortedByPosition(gs: seq<Group>)
  {
    forall i, j :: 0 <= i < j < |gs| ==> gs[i].position <= gs[j].position
  }

  /** The groups at one queue position, in order. */
  function AtPosition(gs: seq<Group>, p: int): seq<Group>
  {
    if gs == [] then []
    else (if gs[0].position == p then [gs[0]] else []) + AtPosition(gs[1..], p)
  }

  /** Puts `g` in front of the first group at a position not below its own. */
  function Insert(g: Group, gs: seq<Group>): (r: seq<Group>)
    ensures multiset(r) == multiset(gs) + multiset{g}
    ensures |r| == |gs| + 1
  {
    if gs == [] || g.position <= gs[0].position then [g] + gs
    else
      assert gs == [gs[0]] + gs[1..];
      [gs[0]] + Insert(g, gs[1..])
  }

  lemma {:induction false} InsertKeepsSorted(g: Group, gs: seq<Group>)
    requires SortedByPosition(gs)
    ensures SortedByPosition(Insert(g, gs))
    decreases |gs|
  {
    if gs != [] && g.position > gs[0].position {
      var rest := Insert(g, gs[1..]);
      InsertKeepsSorted(g, gs[1..]);
      var r := [gs[0]] + rest;
      forall i, j | 0 <= i < j < |r| ensures r[i].position <= r[j].position {
        if i == 0 {
          assert r[j] == rest[j - 1];
          assert rest[j - 1] in multiset(rest);
          assert rest[j - 1] == g || rest[j - 1] in multiset(gs[1..]);
          if rest[j - 1] != g {
            var k :| 0 <= k < |gs[1..]| && gs[1..][k] == rest[j - 1];
            assert gs[k + 1] == rest[j - 1];
          }
        } else {
          assert r[i] == rest[i - 1] && r[j] == rest[j - 1];
        }
      }
    }
  }

  /** `[...queue_groups].sort((a, b) => a.position - b.position)`; the comparator is a
      difference of integers and Array.prototype.sort is stable. */
  function SortByPosition(gs: seq<Group>): (r: seq<Group>)
    ensures SortedByPosition(r)
    ensures multiset(r) == multiset(gs)
    ensures |r| == |gs|
  {
    if gs == [] then []
    else
      assert gs == [gs[0]] + gs[1..];
      InsertKeepsSorted(gs[0], SortByPosition(gs[1..]));
      Insert(gs[0], SortByPosition(gs[1..]))
  }

  lemma {:induction false} InsertAtPosition(g: Group, gs: seq<Group>, p: int)
    ensures AtPosition(Insert(g, gs), p) == (if g.position == p then [g] else []) + AtPosition(gs, p)
    decreases |gs|
  {
    if gs == [] || g.position <= gs[0].position {
      assert ([g] + gs)[1..] == gs;
    } else {
      var rest := Insert(g, gs[1..]);
      assert ([gs[0]] + rest)[1..] == rest;
      InsertAtPosition(g, gs[1..], p);
      if gs[0].position == p {
        assert g.position != p;
      }
    }
  }

  /** Groups at the same position keep their relative order. */
  lemma {:induction false} SortIsStable(gs: seq<Group>, p: int)
    ensures AtPosition(SortByPosition(gs), p) == AtPosition(gs, p)
    decreases |gs|
  {
    if gs != [] {
      SortIsStable(gs[1..], p);
      InsertAtPosition(gs[0], SortByPosition(gs[1..]), p);
    }
  }

  // ---------------------------------------------------------------------------
  // The queue panel

  datatype QueueRow = QueueRow(position: int, slots: seq<Slot>)

  /** `createButton` is the court id the "Create New Group" button carries. */
  datatype QueuePanel = QueuePanel(rows: seq<QueueRow>, emptyMessage: bool, createButton: Option<int>)

  /** The queue panel shows the court's queue groups sorted by position, each as a
      group, the "No one in queue" message when there are none, and the create button
      for a logged-in user who is in no group. */
  ghost predicate ShowsQueue(panel: QueuePanel, view: CourtView, maxPlayers: nat, currentUser: string,
                             activeLeaveSlots: set<string>, userActive: bool)
  {
    var queue := OrEmpty(view.queueGroups);
    && panel.emptyMessage == (queue == [])
    && |panel.rows| == |queue|
    && (forall i :: 0 <= i < |queue| ==>
      && panel.rows[i].position == SortByPosition(queue)[i].position
      && ShowsGroup(panel.rows[i].slots, SortByPosition(queue)[i], maxPlayers, currentUser, activeLeaveSlots, userActive))
    && panel.createButton == if currentUser != "" && !userActive then Some(view.id) else None
  }

  /** The queue half of updateCourtsDisplay for one court. */
  method RenderQueue(view: CourtView, maxPlayers: nat, currentUser: string,
                     activeLeaveSlots: set<string>, userActive: bool)
    returns (panel: QueuePanel)
    ensures ShowsQueue(panel, view, maxPlayers, currentUser, activeLeaveSlots, userActive)
  {
    var queue := OrEmpty(view.queueGroups);
    var button := if currentUser != "" && !userActive then Some(view.id) else None;
    if queue == [] {
      return QueuePanel([], true, button);
    }
    var sorted := SortByPosition(queue);
    var rows: seq<QueueRow> := [];
    var i := 0;
    while i < |sorted|
      invariant 0 <= i <= |sorted|
      invariant |rows| == i
      invariant forall j :: 0 <= j < i ==>
        && rows[j].position == sorted[j].position
        && ShowsGroup(rows[j].slots, sorted[j], maxPlayers, currentUser, activeLeaveSlots, userActive)
    {
      var slots := RenderSlots(sorted[i], maxPlayers, currentUser, activeLeaveSlots, userActive);
      rows := rows + [QueueRow(sorted[i].position, slots)];
      i := i + 1;
    }
    panel := QueuePanel(rows, false, button);
  }
}
