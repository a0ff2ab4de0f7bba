/** The court snapshot as static/live-updates.js reads it (`active_groups` and
    `queue_groups` of player groups per court), and the queries the page asks of it. */
module ClientSnapshot {
  import opened Wrappers

  datatype Group = Group(id: int, position: int, players: seq<string>, isFull: bool)

  /** One court of the snapshot; a missing `active_groups` or `queue_groups` key is None. */
  datatype CourtView = CourtView(id: int, activeGroups: Option<seq<Group>>, queueGroups: Option<seq<Group>>)

  datatype CourtEntry = CourtEntry(name: string, view: CourtView)

  /** `courts` in the order of `Object.entries`, which is also the order JSON.stringify uses. */
  type Snapshot = seq<CourtEntry>

  /** `this.courts || {}`: nothing received yet reads as no courts. */
  function Current(courts: Option<Snapshot>): Snapshot
  {
    if courts.Some? then courts.value else []
  }

  function OrEmpty(groups: Option<seq<Group>>): seq<Group>
  {
    if groups.Some? then groups.value else []
  }

  /** arraysEqual: same length and the same element at every index. */
  function ArraysEqual(a: seq<string>, b: seq<string>): (r: bool)
    ensures r <==> a == b
  {
    |a| == |b| && forall i :: 0 <= i < |a| ==> a[i] == b[i]
  }

  /** The `for (const group of ...)` scans of isUserInCourt. */
  function GroupsInclude(groups: seq<Group>, user: string): (r: bool)
    ensures r <==> exists i :: 0 <= i < |groups| && user in groups[i].players
  {
    if groups == [] then false
    else if user in groups[0].players then true
    else
      var rest := GroupsInclude(groups[1..], user);
      assert rest <==> exists i :: 1 <= i < |groups| && user in groups[i].players by {
        if rest {
          var i :| 0 <= i < |groups[1..]| && user in groups[1..][i].players;
          assert groups[i + 1] == groups[1..][i];
        }
        if exists i :: 1 <= i < |groups| && user in groups[i].players {
          var i :| 1 <= i < |groups| && user in groups[i].players;
          assert groups[1..][i - 1] == groups[i];
        }
      }
      rest
  }

  /** The user's name is in the players of one of the court's active or queue groups. */
  ghost predicate Listed(court: CourtView, user: string)
  {
    exists g :: (g in OrEmpty(court.activeGroups) || g in OrEmpty(court.queueGroups)) && user in g.players
  }

  /** isUserInCourt; the empty name stands for a page without a logged-in user. */
  function IsUserInCourt(court: CourtView, currentUser: string): (r: bool)
    ensures r <==> currentUser != "" && Listed(court, currentUser)
  {
    if currentUser == "" then false
    else
      var inActive := court.activeGroups.Some? && GroupsInclude(court.activeGroups.value, currentUser);
      var inQueue := court.queueGroups.Some? && GroupsInclude(court.queueGroups.value, currentUser);
      assert inActive || inQueue ==> Listed(court, currentUser);
      assert Listed(court, currentUser) ==> inActive || inQueue by {
        if Listed(court, currentUser) {
          var g :| (g in OrEmpty(court.activeGroups) || g in OrEmpty(court.queueGroups)) && currentUser in g.players;
          if g in OrEmpty(court.activeGroups) {
            var i :| 0 <= i < |court.activeGroups.value| && court.activeGroups.value[i] == g;
          } else {
            var i :| 0 <= i < |court.queueGroups.value| && court.queueGroups.value[i] == g;
          }
        }
      }
      inActive || inQueue
  }

  /** The `.some(...)` over the courts in isUserActive. */
  function SomeCourtLists(cs: Snapshot, currentUser: string): (r: bool)
    ensures r <==> exists k :: 0 <= k < |cs| && IsUserInCourt(cs[k].view, currentUser)
  {
    if cs == [] then false
    else if IsUserInCourt(cs[0].view, currentUser) then true
    else
      var rest := SomeCourtLists(cs[1..], currentUser);
      assert rest <==> exists k :: 1 <= k < |cs| && IsUserInCourt(cs[k].view, currentUser) by {
        if rest {
          var k :| 0 <= k < |cs[1..]| && IsUserInCourt(cs[1..][k].view, currentUser);
          assert cs[k + 1] == cs[1..][k];
        }
        if exists k :: 1 <= k < |cs| && IsUserInCourt(cs[k].view, currentUser) {
          var k :| 1 <= k < |cs| && IsUserInCourt(cs[k].view, currentUser);
          assert cs[1..][k - 1] == cs[k];
        }
      }
      rest
  }

  /** isUserActive: false without a logged-in user, otherwise whether the user's name is
      in some group of some court of the last snapshot. */
  function IsUserActive(courts: Option<Snapshot>, currentUser: string): (r: bool)
    ensures r <==> currentUser != "" && exists k :: 0 <= k < |Current(courts)| && Listed(Current(courts)[k].view, currentUser)
  {
    currentUser != "" && SomeCourtLists(Current(courts), currentUser)
  }
}
