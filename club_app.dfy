/** The club server of badminton_club_app.py as an object: the module-level dictionaries
    `courts`, `users`, `timer_state` and `club_state` become fields of `Club`, and each
    route handler becomes a method that updates them in place. The logged-in user of the
    session and the request method are parameters. */
module ClubApp {
  import opened Wrappers
  import opened CourtRules

  /** Stands for the stored `generate_password_hash(secret)`; hashing is not modelled. */
  datatype Credential = Hashed(secret: string)

  /** One entry of `users`; `checkedIn` is absent for accounts made through signup. */
  datatype UserRecord = UserRecord(credential: Credential, isAdmin: bool, checkedIn: Option<bool>)

  datatype Page = LoginPage | HomePage | AdminPage | SignupPage

  /** What a handler sends back. */
  datatype Reply =
    | Redirect(to: Page, flash: Option<string>)
    | ShowForm(page: Page)
    | HttpError(status: nat, message: string)
    | JsonSuccess
    | TimerStarted(remaining: int)

  /** The JSON of /timer/status without the court snapshot (which is the `courts` field). */
  datatype TimerStatus = TimerStatus(running: bool, remaining: int, expired: bool)

  /** 15 minutes, in seconds. */
  const DEFAULT_DURATION: int := 15 * 60

  const UNAUTHORIZED: Reply := HttpError(401, "Unauthorized")

  /** The accounts the server starts with. */
  function InitialUsers(): (users: map<string, UserRecord>)
    ensures users.Keys == {"admin", "a", "b", "c", "d"}
    ensures "admin" in users && users["admin"].isAdmin
    ensures forall u :: u in users && u != "admin" ==> !users[u].isAdmin
  {
    map[
      "admin" := UserRecord(Hashed("adminpass"), true, Some(true)),
      "a" := UserRecord(Hashed("a"), false, None),
      "b" := UserRecord(Hashed("b"), false, None),
      "c" := UserRecord(Hashed("c"), false, None),
      "d" := UserRecord(Hashed("d"), false, None)
    ]
  }

  lemma CourtNamesDistinct()
    ensures Distinct(COURT_NAMES)
  {
    assert COURT_NAMES[0][6] == '1' && COURT_NAMES[1][6] == '2';
    assert COURT_NAMES[2][6] == '3' && COURT_NAMES[3][6] == '4';
  }

  /** rotate_players: while the court has room and somebody waits, the front of the
      queue steps onto the court. */
  method RotatePlayers(c: Court) returns (r: Court)
    ensures Members(r) == Members(c)
    ensures |r.players| >= MAX_PLAYERS || r.queue == []
    ensures |r.players| <= Max(MAX_PLAYERS, |c.players|)
    ensures r == Promoted(c)
  {
    var players, queue := c.players, c.queue;
    while |players| < MAX_PLAYERS && queue != []
      invariant |c.players| <= |players| <= Max(MAX_PLAYERS, |c.players|)
      invariant |players| - |c.players| <= |c.queue|
      invariant players == c.players + c.queue[..|players| - |c.players|]
      invariant queue == c.queue[|players| - |c.players|..]
      decreases |queue|
    {
      var next := queue[0];
      assert c.queue[..|players| - |c.players| + 1] == c.queue[..|players| - |c.players|] + [next];
      players := players + [next];
      queue := queue[1..];
    }
    r := Court(players, queue);
    assert c.queue[..|players| - |c.players|] + queue == c.queue;
    assert Members(r) == c.players + (c.queue[..|players| - |c.players|] + queue);
  }

  /** `r` agrees with `target` on the first `i` court names and with `cs` on the rest. */
  ghost predicate FilledUpTo(r: Courts, cs: Courts, target: Courts, i: nat)
    requires i <= |COURT_NAMES|
  {
    && r.Keys == cs.Keys
    && (forall j :: 0 <= j < i ==> COURT_NAMES[j] in r && COURT_NAMES[j] in target && r[COURT_NAMES[j]] == target[COURT_NAMES[j]])
    && (forall j :: i <= j < |COURT_NAMES| ==> COURT_NAMES[j] in r && COURT_NAMES[j] in cs && r[COURT_NAMES[j]] == cs[COURT_NAMES[j]])
  }

  /** One step of a loop over COURT_NAMES that writes `target`'s court into `r`. */
  lemma FillStep(r: Courts, cs: Courts, target: Courts, i: nat)
    requires i < |COURT_NAMES| && FilledUpTo(r, cs, target, i) && COURT_NAMES[i] in target
    ensures FilledUpTo(r[COURT_NAMES[i] := target[COURT_NAMES[i]]], cs, target, i + 1)
  {
    CourtNamesDistinct();
  }

  /** Once every court name is written, `r` is `target`. */
  lemma FillDone(r: Courts, cs: Courts, target: Courts)
    requires WellFormed(cs) && target.Keys == cs.Keys && FilledUpTo(r, cs, target, |COURT_NAMES|)
    ensures r == target
  {
    forall n | n in r ensures r[n] == target[n] {
      var j :| 0 <= j < |COURT_NAMES| && COURT_NAMES[j] == n;
    }
  }

  /** The loop of remove_user over every court: drop the user's first entry from its
      players and from its queue. */
  method RemoveFromEveryCourt(cs: Courts, user: string) returns (r: Courts)
    requires WellFormed(cs)
    ensures r == WithoutUser(cs, user)
  {
    ghost var target := WithoutUser(cs, user);
    r := cs;
    var i := 0;
    while i < |COURT_NAMES|
      invariant 0 <= i <= |COURT_NAMES|
      invariant FilledUpTo(r, cs, target, i)
    {
      var name := COURT_NAMES[i];
      var court := r[name];
      var stripped := Court(RemoveFirst(court.players, user), RemoveFirst(court.queue, user));
      assert stripped == target[name];
      FillStep(r, cs, target, i);
      r := r[name := stripped];
      i := i + 1;
    }
    FillDone(r, cs, target);
  }

  /** The loop of clear_courts: empty every players list and queue. */
  method ClearEveryCourt(cs: Courts) returns (r: Courts)
    requires WellFormed(cs)
    ensures r == Cleared(cs)
  {
    ghost var target := Cleared(cs);
    r := cs;
    var i := 0;
    while i < |COURT_NAMES|
      invariant 0 <= i <= |COURT_NAMES|
      invariant FilledUpTo(r, cs, target, i)
    {
      FillStep(r, cs, target, i);
      r := r[COURT_NAMES[i] := Court([], [])];
      i := i + 1;
    }
    FillDone(r, cs, target);
  }

  /** The loop of get_timer_status on expiry: every court's players leave and
      rotate_players refills it from its queue. */
  method RotateEveryCourt(cs: Courts) returns (r: Courts)
    requires WellFormed(cs)
    ensures r == AfterExpiry(cs)
  {
    ghost var target := AfterExpiry(cs);
    r := cs;
    var i := 0;
    while i < |COURT_NAMES|
      invariant 0 <= i <= |COURT_NAMES|
      invariant FilledUpTo(r, cs, target, i)
    {
      var name := COURT_NAMES[i];
      var rotated := RotatePlayers(Court([], r[name].queue));
      assert rotated == target[name];
      FillStep(r, cs, target, i);
      r := r[name := rotated];
      i := i + 1;
    }
    FillDone(r, cs, target);
  }

  class Club {
    var courts: Courts
    var users: map<string, UserRecord>
    /** timer_state['duration'] in seconds. */
    var duration: int
    /** timer_state['remaining_time'] in whole seconds. */
    var remainingTime: int
    /** timer_state['is_running']. */
    var isRunning: bool
    /** club_state['is_active']. */
    var clubActive: bool

    ghost predicate Valid()
      reads this
    {
      && Invariant(courts)
      && "admin" in users && users["admin"].isAdmin
      && 0 <= remainingTime && 0 <= duration
    }

    /** The check repeated at the top of every admin handler. */
    predicate IsAdmin(sessionUser: Option<string>)
      reads this
      ensures IsAdmin(sessionUser) ==> sessionUser.Some?
      ensures Valid() && sessionUser == Some("admin") ==> IsAdmin(sessionUser)
    {
      sessionUser.Some? && sessionUser.value in users && users[sessionUser.value].isAdmin
    }

    constructor ()
      ensures Valid()
      ensures courts == InitialCourts() && users == InitialUsers()
      ensures duration == DEFAULT_DURATION && remainingTime == DEFAULT_DURATION
      ensures !isRunning && !clubActive
    {
      courts := InitialCourts();
      users := InitialUsers();
      duration := DEFAULT_DURATION;
      remainingTime := DEFAULT_DURATION;
      isRunning := false;
      clubActive := false;
    }

    /** join_court: a POST puts the user on the named court when it has room and the user
        is on no court and in no queue; nothing else changes. */
    method JoinCourt(sessionUser: Option<string>, isPost: bool, courtName: string) returns (reply: Reply)
      requires Valid()
      modifies this`courts
      ensures Valid()
      ensures reply == if sessionUser.None? then Redirect(LoginPage, None) else Redirect(HomePage, None)
      ensures courts ==
        if && sessionUser.Some? && isPost && courtName in old(courts)
           && |old(courts)[courtName].players| < MAX_PLAYERS
           && !Active(old(courts), sessionUser.value) && !Playing(old(courts), sessionUser.value)
        then JoinedCourt(old(courts), courtName, sessionUser.value)
        else old(courts)
    {
      if sessionUser.None? {
        return Redirect(LoginPage, None);
      }
      var user := sessionUser.value;
      if isPost && courtName in courts {
        var court := courts[courtName];
        if |court.players| < MAX_PLAYERS {
          if !IsUserActiveElsewhere(courts, user) && !IsPlayerOnCourt(courts, user) {
            JoinCourtKeepsInvariant(courts, courtName, user);
            courts := courts[courtName := Court(court.players + [user], court.queue)];
          }
        }
      }
      reply := Redirect(HomePage, None);
    }

    /** join_queue: a POST puts the user at the back of the named court's queue when the
        user is not in it already and is on no court and in no queue. */
    method JoinQueue(sessionUser: Option<string>, isPost: bool, courtName: string) returns (reply: Reply)
      requires Valid()
      modifies this`courts
      ensures Valid()
      ensures reply == if sessionUser.None? then Redirect(LoginPage, None) else Redirect(HomePage, None)
      ensures courts ==
        if && sessionUser.Some? && isPost && courtName in old(courts)
           && sessionUser.value !in old(courts)[courtName].queue
           && !Active(old(courts), sessionUser.value) && !Playing(old(courts), sessionUser.value)
        then JoinedQueue(old(courts), courtName, sessionUser.value)
        else old(courts)
    {
      if sessionUser.None? {
        return Redirect(LoginPage, None);
      }
      var user := sessionUser.value;
      if isPost && courtName in courts {
        var court := courts[courtName];
        if user !in court.queue {
          if !IsUserActiveElsewhere(courts, user) && !IsPlayerOnCourt(courts, user) {
            JoinQueueKeepsInvariant(courts, courtName, user);
            courts := courts[courtName := Court(court.players, court.queue + [user])];
          }
        }
      }
      reply := Redirect(HomePage, None);
    }

    /** leave_court: a POST removes the user's queue entry on that court if there is one,
        otherwise removes the user from its players while the timer is stopped. */
    method LeaveCourt(sessionUser: Option<string>, isPost: bool, courtName: string) returns (reply: Reply)
      requires Valid()
      modifies this`courts
      ensures Valid()
      ensures reply == if sessionUser.None? then Redirect(LoginPage, None) else Redirect(HomePage, None)
      ensures courts ==
        if sessionUser.Some? && isPost && courtName in old(courts)
        then AfterLeave(old(courts), courtName, sessionUser.value, isRunning)
        else old(courts)
    {
      if sessionUser.None? {
        return Redirect(LoginPage, None);
      }
      var user := sessionUser.value;
      if isPost && courtName in courts {
        LeaveKeepsInvariant(courts, courtName, user, isRunning);
        var court := courts[courtName];
        if user in court.queue {
          courts := courts[courtName := Court(court.players, RemoveFirst(court.queue, user))];
        } else if user in court.players && !isRunning {
          courts := courts[courtName := Court(RemoveFirst(court.players, user), court.queue)];
        }
      }
      reply := Redirect(HomePage, None);
    }

    /** /admin/add_user: an admin's POST adds a non-admin account unless the username or
        password is missing or empty, or the username is taken. */
    method AddUser(sessionUser: Option<string>, isPost: bool, username: Option<string>, password: Option<string>)
      returns (reply: Reply)
      requires Valid()
      modifies this`users
      ensures Valid()
      ensures !old(IsAdmin(sessionUser)) ==> reply == Redirect(LoginPage, None) && users == old(users)
      ensures old(IsAdmin(sessionUser)) && !isPost ==> reply == Redirect(AdminPage, None) && users == old(users)
      ensures old(IsAdmin(sessionUser)) && isPost ==>
        if username.None? || username.value == "" || password.None? || password.value == "" then
          reply == Redirect(AdminPage, Some("Username and password are required")) && users == old(users)
        else if username.value in old(users) then
          reply == Redirect(AdminPage, Some("User already exists")) && users == old(users)
        else
          && reply == Redirect(AdminPage, Some("User " + username.value + " added successfully"))
          && users == old(users)[username.value := UserRecord(Hashed(password.value), false, Some(false))]
    {
      if !IsAdmin(sessionUser) {
        return Redirect(LoginPage, None);
      }
      if !isPost {
        return Redirect(AdminPage, None);
      }
      if username.None? || username.value == "" || password.None? || password.value == "" {
        return Redirect(AdminPage, Some("Username and password are required"));
      }
      if username.value in users {
        return Redirect(AdminPage, Some("User already exists"));
      }
      users := users[username.value := UserRecord(Hashed(password.value), false, Some(false))];
      reply := Redirect(AdminPage, Some("User " + username.value + " added successfully"));
    }

    /** /admin/remove_user: an admin's POST deletes a non-admin account and takes that
        user off every court and queue. */
    method RemoveUser(sessionUser: Option<string>, isPost: bool, username: Option<string>) returns (reply: Reply)
      requires Valid()
      modifies this`users, this`courts
      ensures Valid()
      ensures !old(IsAdmin(sessionUser)) ==> reply == Redirect(LoginPage, None)
      ensures old(IsAdmin(sessionUser)) && !isPost ==> reply == Redirect(AdminPage, None)
      ensures old(IsAdmin(sessionUser)) && isPost && (username.None? || username.value !in old(users)) ==>
        reply == Redirect(AdminPage, Some("User does not exist"))
      ensures old(IsAdmin(sessionUser)) && isPost && username.Some? && username.value in old(users)
              && old(users)[username.value].isAdmin ==>
        reply == Redirect(AdminPage, Some("Cannot remove admin user"))
      ensures if old(IsAdmin(sessionUser)) && isPost && username.Some? && username.value in old(users)
                 && !old(users)[username.value].isAdmin
        then
          && reply == Redirect(AdminPage, Some("User " + username.value + " removed successfully"))
          && courts == WithoutUser(old(courts), username.value)
          && users == old(users) - {username.value}
        else courts == old(courts) && users == old(users)
    {
      if !IsAdmin(sessionUser) {
        return Redirect(LoginPage, None);
      }
      if !isPost {
        return Redirect(AdminPage, None);
      }
      if username.None? || username.value !in users {
        return Redirect(AdminPage, Some("User does not exist"));
      }
      var target := username.value;
      if users[target].isAdmin {
        return Redirect(AdminPage, Some("Cannot remove admin user"));
      }
      RemoveUserClearsCourts(courts, target);
      courts := RemoveFromEveryCourt(courts, target);
      users := users - {target};
      reply := Redirect(AdminPage, Some("User " + target + " removed successfully"));
    }

    /** signup: a POST registers a non-admin account unless the username is taken. An
        absent form field is a bad request. An empty username is accepted. */
    method Signup(isPost: bool, username: Option<string>, password: Option<string>) returns (reply: Reply)
      requires Valid()
      modifies this`users
      ensures Valid()
      ensures !isPost ==> reply == ShowForm(SignupPage) && users == old(users)
      ensures isPost && (username.None? || password.None?) ==>
        reply == HttpError(400, "Bad Request") && users == old(users)
      ensures isPost && username.Some? && password.Some? ==>
        if username.value in old(users) then
          reply == HttpError(400, "Username already exists") && users == old(users)
        else
          && reply == Redirect(LoginPage, None)
          && users == old(users)[username.value := UserRecord(Hashed(password.value), false, None)]
    {
      if !isPost {
        return ShowForm(SignupPage);
      }
      if username.None? || password.None? {
        return HttpError(400, "Bad Request");
      }
      if username.value in users {
        return HttpError(400, "Username already exists");
      }
      users := users[username.value := UserRecord(Hashed(password.value), false, None)];
      reply := Redirect(LoginPage, None);
    }

    /** clear-courts: an admin empties every players list and queue. */
    method ClearCourts(sessionUser: Option<string>) returns (reply: Reply)
      requires Valid()
      modifies this`courts
      ensures Valid()
      ensures reply == if IsAdmin(sessionUser) then JsonSuccess else UNAUTHORIZED
      ensures courts == if IsAdmin(sessionUser) then Cleared(old(courts)) else old(courts)
    {
      if !IsAdmin(sessionUser) {
        return UNAUTHORIZED;
      }
      ClearKeepsInvariant(courts);
      courts := ClearEveryCourt(courts);
      reply := JsonSuccess;
    }

    /** toggle-club-status: an admin flips whether the club is open. */
    method ToggleClubStatus(sessionUser: Option<string>) returns (reply: Reply)
      requires Valid()
      modifies this`clubActive
      ensures Valid()
      ensures reply == if IsAdmin(sessionUser) then JsonSuccess else UNAUTHORIZED
      ensures clubActive == if IsAdmin(sessionUser) then !old(clubActive) else old(clubActive)
    {
      if !IsAdmin(sessionUser) {
        return UNAUTHORIZED;
      }
      clubActive := !clubActive;
      reply := JsonSuccess;
    }

    /** timer/start: an admin resumes a paused timer with its remaining time, or starts
        it afresh with the full duration. */
    method StartTimer(sessionUser: Option<string>) returns (reply: Reply)
      requires Valid()
      modifies this`isRunning, this`remainingTime
      ensures Valid()
      ensures !IsAdmin(sessionUser) ==> reply == UNAUTHORIZED && unchanged(this)
      ensures IsAdmin(sessionUser) ==>
        && isRunning
        && remainingTime == (if !old(isRunning) && old(remainingTime) > 0 then old(remainingTime) else duration)
        && reply == TimerStarted(remainingTime)
    {
      if !IsAdmin(sessionUser) {
        return UNAUTHORIZED;
      }
      if !(!isRunning && remainingTime > 0) {
        remainingTime := duration;
      }
      isRunning := true;
      reply := TimerStarted(remainingTime);
    }

    /** timer/reset: an admin stops the timer and restores the full duration. */
    method ResetTimer(sessionUser: Option<string>) returns (reply: Reply)
      requires Valid()
      modifies this`isRunning, this`remainingTime
      ensures Valid()
      ensures !IsAdmin(sessionUser) ==> reply == UNAUTHORIZED && unchanged(this)
      ensures IsAdmin(sessionUser) ==> !isRunning && remainingTime == duration && reply == JsonSuccess
    {
      if !IsAdmin(sessionUser) {
        return UNAUTHORIZED;
      }
      isRunning := false;
      remainingTime := duration;
      reply := JsonSuccess;
    }

    /** timer/status, `elapsed` whole seconds after the timer was (re)started. When a
        running timer has no time left, the timer stops at 0 and every court is emptied
        and refilled from the front of its queue. */
    method GetTimerStatus(elapsed: nat) returns (status: TimerStatus)
      requires Valid()
      modifies this`courts, this`isRunning, this`remainingTime
      ensures Valid()
      ensures var expired := old(isRunning) && old(remainingTime) - elapsed <= 0;
        && status == (if expired then TimerStatus(false, 0, true)
                      else if old(isRunning) then TimerStatus(true, old(remainingTime) - elapsed, false)
                      else TimerStatus(false, old(remainingTime), false))
        && courts == (if expired then AfterExpiry(old(courts)) else old(courts))
        && isRunning == (old(isRunning) && !expired)
        && remainingTime == (if expired then 0 else old(remainingTime))
    {
      if !isRunning {
        return TimerStatus(false, remainingTime, false);
      }
      var remaining := Max(0, remainingTime - elapsed);
      if remaining > 0 {
        return TimerStatus(true, remaining, false);
      }
      isRunning := false;
      remainingTime := 0;
      ExpiryKeepsInvariant(courts);
      courts := RotateEveryCourt(courts);
      status := TimerStatus(false, 0, true);
    }
  }
}
