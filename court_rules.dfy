/** The court and queue rules of the club server (badminton_club_app.py) stated on values:
    a court's players and its FIFO queue, the global invariant that the handlers keep,
    and the transition each handler applies to the courts. The class in club_app.dfy
    performs these transitions in place. */
module CourtRules {
  import opened Wrappers

  /** Players allowed on one court at the same time. */
  const MAX_PLAYERS: nat := 2

  /** The four courts the server creates at start-up, in dictionary order. */
  const COURT_NAMES: seq<string> := ["Court 1", "Court 2", "Court 3", "Court 4"]

  /** One court: who is playing and who waits, front of the queue first. */
  datatype Court = Court(players: seq<string>, queue: seq<string>)

  type Courts = map<string, Court>

  /** Everyone on a court, players before the queue. */
  function Members(c: Court): seq<string>
  {
    c.players + c.queue
  }

  predicate Distinct(s: seq<string>)
  {
    forall i, j :: 0 <= i < j < |s| ==> s[i] != s[j]
  }

  /** The court map holds exactly the four courts. */
  ghost predicate WellFormed(cs: Courts)
  {
    forall n :: n in cs <==> n in COURT_NAMES
  }

  ghost predicate WithinCapacity(cs: Courts)
  {
    forall n :: n in cs ==> |cs[n].players| <= MAX_PLAYERS
  }

  /** Every user occurs at most once across all players lists and queues. */
  ghost predicate EachUserOnce(cs: Courts)
  {
    && (forall n :: n in cs ==> Distinct(Members(cs[n])))
    && (forall n, m, u :: n in cs && m in cs && n != m && u in Members(cs[n]) ==> u !in Members(cs[m]))
  }

  /** The global invariant of the court state. */
  ghost predicate Invariant(cs: Courts)
  {
    WellFormed(cs) && WithinCapacity(cs) && EachUserOnce(cs)
  }

  /** The user plays on, or waits for, some court. */
  ghost predicate Active(cs: Courts, user: string)
  {
    exists n :: n in cs && user in Members(cs[n])
  }

  /** The user plays on some court. */
  ghost predicate Playing(cs: Courts, user: string)
  {
    exists n :: n in cs && user in cs[n].players
  }

  function InitialCourts(): (cs: Courts)
    ensures Invariant(cs)
    ensures forall n :: n in cs ==> cs[n] == Court([], [])
  {
    map n | n in COURT_NAMES :: Court([], [])
  }

  // ---------------------------------------------------------------------------
  // Queries

  /** The loop of is_user_active_elsewhere over the courts named in `names`,
      returning as soon as one court lists the user. */
  function ActiveAmong(cs: Courts, names: seq<string>, user: string): (r: bool)
    ensures r <==> exists i :: 0 <= i < |names| && names[i] in cs && user in Members(cs[names[i]])
  {
    if names == [] then false
    else if names[0] in cs && (user in cs[names[0]].players || user in cs[names[0]].queue) then true
    else
      var rest := ActiveAmong(cs, names[1..], user);
      assert rest ==> exists i :: 0 <= i < |names| && names[i] in cs && user in Members(cs[names[i]]) by {
        if rest {
          var i :| 0 <= i < |names[1..]| && names[1..][i] in cs && user in Members(cs[names[1..][i]]);
          assert names[i + 1] == names[1..][i];
        }
      }
      rest
  }

  function IsUserActiveElsewhere(cs: Courts, user: string): (r: bool)
    requires WellFormed(cs)
    ensures r <==> Active(cs, user)
  {
    ActiveAmong(cs, COURT_NAMES, user)
  }

  /** `any(username in court['players'] ...)` over the courts named in `names`. */
  function PlayingAmong(cs: Courts, names: seq<string>, user: string): (r: bool)
    ensures r <==> exists i :: 0 <= i < |names| && names[i] in cs && user in cs[names[i]].players
  {
    if names == [] then false
    else if names[0] in cs && user in cs[names[0]].players then true
    else
      var rest := PlayingAmong(cs, names[1..], user);
      assert rest ==> exists i :: 0 <= i < |names| && names[i] in cs && user in cs[names[i]].players by {
        if rest {
          var i :| 0 <= i < |names[1..]| && names[1..][i] in cs && user in cs[names[1..][i]].players;
          assert names[i + 1] == names[1..][i];
        }
      }
      rest
  }

  function IsPlayerOnCourt(cs: Courts, user: string): (r: bool)
    requires WellFormed(cs)
    ensures r <==> Playing(cs, user)
  {
    PlayingAmong(cs, COURT_NAMES, user)
  }

  // ---------------------------------------------------------------------------
  // Transitions

  /** Index of the first occurrence of `x` in `s`, or |s| when there is none. */
  function FirstIndex(s: seq<string>, x: string): (i: nat)
    ensures i <= |s|
    ensures i < |s| ==> s[i] == x
    ensures x !in s[..i]
    ensures i == |s| <==> x !in s
  {
    if s == [] then 0
    else if s[0] == x then 0
    else
      var i := FirstIndex(s[1..], x);
      assert s[..i + 1] == [s[0]] + s[1..][..i];
      i + 1
  }

  /** Python's `list.remove(x)` guarded by `x in list`: drops the first occurrence. */
  function RemoveFirst(s: seq<string>, x: string): (r: seq<string>)
    ensures var i := FirstIndex(s, x); r == if i < |s| then s[..i] + s[i + 1..] else s
  {
    if s == [] then []
    else if s[0] == x then s[1..]
    else
      var rest := RemoveFirst(s[1..], x);
      var i := FirstIndex(s[1..], x);
      assert FirstIndex(s, x) == i + 1;
      if i < |s| - 1 then
        ConsSplice(s, i);
        [s[0]] + rest
      else
        assert [s[0]] + s[1..] == s;
        [s[0]] + rest
  }

  /** Putting back the head of a list in front of its tail with one element cut out. */
  lemma ConsSplice(s: seq<string>, i: nat)
    requires i + 1 < |s|
    ensures [s[0]] + (s[1..][..i] + s[1..][i + 1..]) == s[..i + 1] + s[i + 2..]
  {
    assert [s[0]] + s[1..][..i] == s[..i + 1];
    assert s[1..][i + 1..] == s[i + 2..];
  }

  /** Removing the first occurrence keeps the others in order: a repeat-free list loses
      exactly `x` and nothing else. */
  lemma RemoveFirstFacts(s: seq<string>, x: string)
    ensures forall v :: v != x ==> (v in RemoveFirst(s, x) <==> v in s)
    ensures Distinct(s) ==> Distinct(RemoveFirst(s, x)) && x !in RemoveFirst(s, x)
  {
    var i := FirstIndex(s, x);
    if i < |s| {
      var r := s[..i] + s[i + 1..];
      assert s == s[..i] + [x] + s[i + 1..];
      if Distinct(s) {
        DistinctSplit(s[..i] + [x], s[i + 1..]);
        DistinctSplit(s[..i], [x]);
        DistinctJoin(s[..i], s[i + 1..]);
      }
    }
  }

  /** join_court's update: the user becomes the last player of that court. */
  function JoinedCourt(cs: Courts, name: string, user: string): (r: Courts)
    requires name in cs
    ensures r.Keys == cs.Keys
    ensures forall n :: n in cs && n != name ==> r[n] == cs[n]
    ensures r[name].queue == cs[name].queue
    ensures |r[name].players| == |cs[name].players| + 1 && r[name].players[|cs[name].players|] == user
    ensures r[name].players[..|cs[name].players|] == cs[name].players
  {
    cs[name := Court(cs[name].players + [user], cs[name].queue)]
  }

  /** join_queue's update: the user goes to the back of that court's queue. */
  function JoinedQueue(cs: Courts, name: string, user: string): (r: Courts)
    requires name in cs
    ensures r.Keys == cs.Keys
    ensures forall n :: n in cs && n != name ==> r[n] == cs[n]
    ensures r[name].players == cs[name].players
    ensures |r[name].queue| == |cs[name].queue| + 1 && r[name].queue[|cs[name].queue|] == user
    ensures r[name].queue[..|cs[name].queue|] == cs[name].queue
  {
    cs[name := Court(cs[name].players, cs[name].queue + [user])]
  }

  /** leave_court's update: a queue entry is removed first, leaving the players as they
      were; a player leaves only while the timer is stopped, leaving the queue as it was;
      so nobody is promoted and everybody else stays on the list they were on. */
  function AfterLeave(cs: Courts, name: string, user: string, timerRunning: bool): (r: Courts)
    requires name in cs
    ensures r.Keys == cs.Keys
    ensures forall n :: n in cs && n != name ==> r[n] == cs[n]
    ensures forall v :: v != user ==> (v in Members(r[name]) <==> v in Members(cs[name]))
    ensures |Members(r[name])| == |Members(cs[name])| - (if user in cs[name].queue || (user in cs[name].players && !timerRunning) then 1 else 0)
    ensures user !in cs[name].queue && timerRunning ==> r == cs
    ensures user !in Members(cs[name]) ==> r == cs
    ensures user in cs[name].queue ==>
      r[name].players == cs[name].players && r[name].queue == RemoveFirst(cs[name].queue, user)
    ensures user !in cs[name].queue && user in cs[name].players && !timerRunning ==>
      r[name].queue == cs[name].queue && r[name].players == RemoveFirst(cs[name].players, user)
    ensures forall v :: v != user ==>
      (v in r[name].players <==> v in cs[name].players) && (v in r[name].queue <==> v in cs[name].queue)
  {
    var c := cs[name];
    RemoveFirstFacts(c.queue, user);
    RemoveFirstFacts(c.players, user);
    if user in c.queue then cs[name := Court(c.players, RemoveFirst(c.queue, user))]
    else if user in c.players && !timerRunning then cs[name := Court(RemoveFirst(c.players, user), c.queue)]
    else cs
  }

  /** rotate_players: moves people from the front of the queue onto the court while
      there is room. */
  function Promoted(c: Court): (r: Court)
    ensures |c.players| <= |r.players| && r.players[..|c.players|] == c.players
    ensures |r.queue| <= |c.queue| && r.queue == c.queue[|c.queue| - |r.queue|..]
  {
    var k := if |c.players| < MAX_PLAYERS then Min(MAX_PLAYERS - |c.players|, |c.queue|) else 0;
    Court(c.players + c.queue[..k], c.queue[k..])
  }

  /** The expiry branch of get_timer_status: every court is emptied and refilled from
      its queue. */
  function AfterExpiry(cs: Courts): (r: Courts)
    ensures r.Keys == cs.Keys
    ensures forall n :: n in cs ==>
      var k := Min(MAX_PLAYERS, |cs[n].queue|);
      r[n].players == cs[n].queue[..k] && r[n].queue == cs[n].queue[k..]
  {
    map n | n in cs :: Refilled(cs[n])
  }

  /** One court at expiry: its players leave and its queue refills it. */
  function Refilled(c: Court): (r: Court)
    ensures Members(r) == c.queue
    ensures |r.players| <= MAX_PLAYERS
  {
    var k := Min(MAX_PLAYERS, |c.queue|);
    assert c.queue[..k] + c.queue[k..] == c.queue;
    Promoted(Court([], c.queue))
  }

  /** remove_user's loop: the user's first entry leaves every players list and queue. */
  function WithoutUser(cs: Courts, user: string): (r: Courts)
    ensures r.Keys == cs.Keys
    ensures forall n :: n in cs && user !in Members(cs[n]) ==> r[n] == cs[n]
    ensures forall n, v :: n in cs && v != user ==> (v in Members(r[n]) <==> v in Members(cs[n]))
    ensures forall n :: n in cs ==>
      r[n].players == RemoveFirst(cs[n].players, user) && r[n].queue == RemoveFirst(cs[n].queue, user)
    ensures forall n, v :: n in cs && v != user ==>
      (v in r[n].players <==> v in cs[n].players) && (v in r[n].queue <==> v in cs[n].queue)
  {
    map n | n in cs :: Stripped(cs[n], user)
  }

  /** One court of remove_user's loop. */
  function Stripped(c: Court, user: string): (r: Court)
    ensures user !in Members(c) ==> r == c
    ensures forall v :: v != user ==> (v in Members(r) <==> v in Members(c))
    ensures |r.players| == |c.players| - (if user in c.players then 1 else 0)
    ensures |r.queue| == |c.queue| - (if user in c.queue then 1 else 0)
    ensures r.players == RemoveFirst(c.players, user) && r.queue == RemoveFirst(c.queue, user)
    ensures forall v :: v != user ==> (v in r.players <==> v in c.players) && (v in r.queue <==> v in c.queue)
  {
    RemoveFirstFacts(c.players, user);
    RemoveFirstFacts(c.queue, user);
    Court(RemoveFirst(c.players, user), RemoveFirst(c.queue, user))
  }

  /** clear_courts: every players list and queue is emptied. */
  function Cleared(cs: Courts): (r: Courts)
    ensures r.Keys == cs.Keys
    ensures forall n :: n in r ==> Members(r[n]) == []
  {
    map n | n in cs :: Court([], [])
  }

  // ---------------------------------------------------------------------------
  // Sequence facts

  lemma DistinctSplit(a: seq<string>, b: seq<string>)
    requires Distinct(a + b)
    ensures Distinct(a) && Distinct(b)
    ensures forall x :: x in a ==> x !in b
  {
    forall i, j | 0 <= i < j < |a| ensures a[i] != a[j] {
      assert a[i] == (a + b)[i] && a[j] == (a + b)[j];
    }
    forall i, j | 0 <= i < j < |b| ensures b[i] != b[j] {
      assert b[i] == (a + b)[|a| + i] && b[j] == (a + b)[|a| + j];
    }
    forall x | x in a ensures x !in b {
      var i :| 0 <= i < |a| && a[i] == x;
      forall j | 0 <= j < |b| ensures b[j] != x {
        assert (a + b)[i] == a[i] && (a + b)[|a| + j] == b[j];
      }
    }
  }

  lemma DistinctJoin(a: seq<string>, b: seq<string>)
    requires Distinct(a) && Distinct(b)
    requires forall x :: x in a ==> x !in b
    ensures Distinct(a + b)
  {
    forall i, j | 0 <= i < j < |a + b| ensures (a + b)[i] != (a + b)[j] {
      if j < |a| {
      } else if i >= |a| {
        assert (a + b)[i] == b[i - |a|] && (a + b)[j] == b[j - |a|];
      } else {
        assert (a + b)[i] == a[i] && (a + b)[j] == b[j - |a|];
        assert a[i] in a;
      }
    }
  }

  /** Replacing one court by a line-up of distinct people, each of whom was already on
      that court or on no court, keeps every user at most once. */
  lemma ReplaceCourtKeepsUnique(cs: Courts, n: string, c: Court)
    requires EachUserOnce(cs) && n in cs
    requires Distinct(Members(c))
    requires forall u :: u in Members(c) ==> u in Members(cs[n]) || !Active(cs, u)
    ensures EachUserOnce(cs[n := c])
  {
    var cs' := cs[n := c];
    forall a, b, u | a in cs' && b in cs' && a != b && u in Members(cs'[a])
      ensures u !in Members(cs'[b])
    {
      if a == n {
        assert cs'[b] == cs[b];
        if u !in Members(cs[n]) {
          assert !Active(cs, u);
        }
      } else if b == n {
        assert cs'[a] == cs[a];
        assert Active(cs, u);
        assert u !in Members(cs[n]);
      }
    }
  }

  /** Courts that keep only some of their people, without repeats, keep every user at
      most once. */
  lemma ShrinkKeepsUnique(cs: Courts, cs': Courts)
    requires EachUserOnce(cs) && cs'.Keys == cs.Keys
    requires forall n :: n in cs' ==> Distinct(Members(cs'[n]))
    requires forall n, u :: n in cs' && u in Members(cs'[n]) ==> u in Members(cs[n])
    ensures EachUserOnce(cs')
  {
  }

  // ---------------------------------------------------------------------------
  // Properties of the transitions

  /** join_court keeps the invariant and makes the user a player of exactly that court. */
  lemma JoinCourtKeepsInvariant(cs: Courts, name: string, user: string)
    requires Invariant(cs) && name in cs
    requires |cs[name].players| < MAX_PLAYERS && !Active(cs, user)
    ensures Invariant(JoinedCourt(cs, name, user))
    ensures user in JoinedCourt(cs, name, user)[name].players
  {
    var c := cs[name];
    var c' := Court(c.players + [user], c.queue);
    DistinctSplit(c.players, c.queue);
    assert user !in c.players && user !in c.queue by {
      assert user !in Members(cs[name]);
    }
    assert Distinct(c.players + [user]);
    DistinctJoin(c.players + [user], c.queue);
    assert Members(c') == c.players + [user] + c.queue;
    ReplaceCourtKeepsUnique(cs, name, c');
  }

  /** join_queue keeps the invariant and puts the user last in that queue. */
  lemma JoinQueueKeepsInvariant(cs: Courts, name: string, user: string)
    requires Invariant(cs) && name in cs
    requires !Active(cs, user)
    ensures Invariant(JoinedQueue(cs, name, user))
    ensures JoinedQueue(cs, name, user)[name].queue[|cs[name].queue|] == user
  {
    var c := cs[name];
    var c' := Court(c.players, c.queue + [user]);
    assert user !in Members(c);
    assert Members(c') == Members(c) + [user];
    assert Distinct(Members(c'));
    ReplaceCourtKeepsUnique(cs, name, c');
  }

  /** leave_court keeps the invariant. */
  lemma LeaveKeepsInvariant(cs: Courts, name: string, user: string, timerRunning: bool)
    requires Invariant(cs) && name in cs
    ensures Invariant(AfterLeave(cs, name, user, timerRunning))
  {
    var c := cs[name];
    DistinctSplit(c.players, c.queue);
    if user in c.queue {
      var q := RemoveFirst(c.queue, user);
      RemoveFirstFacts(c.queue, user);
      DistinctJoin(c.players, q);
      ReplaceCourtKeepsUnique(cs, name, Court(c.players, q));
    } else if user in c.players && !timerRunning {
      var p := RemoveFirst(c.players, user);
      RemoveFirstFacts(c.players, user);
      DistinctJoin(p, c.queue);
      ReplaceCourtKeepsUnique(cs, name, Court(p, c.queue));
    }
  }

  /** A successful leave ends the user's membership everywhere, so the user may join
      again; nobody else joins or leaves any court. */
  lemma LeaveEndsMembership(cs: Courts, name: string, user: string, timerRunning: bool)
    requires Invariant(cs) && name in cs
    requires user in cs[name].queue || (user in cs[name].players && !timerRunning)
    ensures !Active(AfterLeave(cs, name, user, timerRunning), user)
    ensures forall n, v :: n in cs && v != user ==>
      (v in Members(AfterLeave(cs, name, user, timerRunning)[n]) <==> v in Members(cs[n]))
  {
    var c := cs[name];
    var cs' := AfterLeave(cs, name, user, timerRunning);
    DistinctSplit(c.players, c.queue);
    RemoveFirstFacts(c.queue, user);
    RemoveFirstFacts(c.players, user);
    assert user !in Members(cs'[name]);
    forall n | n in cs' ensures user !in Members(cs'[n]) {
      if n != name {
        assert user in Members(cs[name]);
        assert cs'[n] == cs[n];
      }
    }
  }

  /** rotate_players keeps the line-up `players ++ queue` as it is (nobody lost,
      duplicated or reordered) and stops only when the court is full or the queue is empty. */
  lemma PromotionKeepsLineUp(c: Court)
    ensures Members(Promoted(c)) == Members(c)
    ensures |Promoted(c).players| >= MAX_PLAYERS || Promoted(c).queue == []
    ensures |c.players| <= MAX_PLAYERS ==> |Promoted(c).players| <= MAX_PLAYERS
  {
    var k := if |c.players| < MAX_PLAYERS then Min(MAX_PLAYERS - |c.players|, |c.queue|) else 0;
    assert c.queue[..k] + c.queue[k..] == c.queue;
    assert c.players + c.queue[..k] + c.queue[k..] == c.players + (c.queue[..k] + c.queue[k..]);
  }

  /** Timer expiry keeps the invariant. */
  lemma ExpiryKeepsInvariant(cs: Courts)
    requires Invariant(cs)
    ensures Invariant(AfterExpiry(cs))
  {
    var cs' := AfterExpiry(cs);
    forall n | n in cs'
      ensures Distinct(Members(cs'[n]))
      ensures forall u :: u in Members(cs'[n]) ==> u in Members(cs[n])
    {
      var q := cs[n].queue;
      var k := Min(MAX_PLAYERS, |q|);
      assert Members(cs'[n]) == q by {
        assert q[..k] + q[k..] == q;
      }
      DistinctSplit(cs[n].players, q);
    }
    ShrinkKeepsUnique(cs, cs');
  }

  /** After expiry, nobody who was playing is on any court or in any queue. */
  lemma ExpiryBenchesPlayers(cs: Courts, name: string, player: string)
    requires EachUserOnce(cs) && name in cs && player in cs[name].players
    ensures !Active(AfterExpiry(cs), player)
  {
    var cs' := AfterExpiry(cs);
    forall n | n in cs' ensures player !in Members(cs'[n]) {
      var q := cs[n].queue;
      var k := Min(MAX_PLAYERS, |q|);
      assert Members(cs'[n]) == q by {
        assert q[..k] + q[k..] == q;
      }
      DistinctSplit(cs[n].players, q);
      if n != name {
        assert player in Members(cs[name]);
      }
    }
  }

  /** remove_user takes the user off every court and queue, keeps the invariant, and
      nobody else joins or leaves any court. */
  lemma RemoveUserClearsCourts(cs: Courts, user: string)
    requires Invariant(cs)
    ensures Invariant(WithoutUser(cs, user))
    ensures !Active(WithoutUser(cs, user), user)
    ensures forall n, v :: n in cs && v != user ==>
      (v in Members(WithoutUser(cs, user)[n]) <==> v in Members(cs[n]))
  {
    var cs' := WithoutUser(cs, user);
    assert cs'.Keys == cs.Keys;
    forall n | n in cs'
      ensures Distinct(Members(cs'[n])) && user !in Members(cs'[n])
      ensures forall v :: v != user ==> (v in Members(cs'[n]) <==> v in Members(cs[n]))
      ensures |cs'[n].players| <= |cs[n].players|
    {
      RemoveFromCourt(cs[n], user);
    }
    ShrinkKeepsUnique(cs, cs');
  }

  /** One court of remove_user's loop. */
  lemma RemoveFromCourt(c: Court, user: string)
    requires Distinct(Members(c))
    ensures var c' := Court(RemoveFirst(c.players, user), RemoveFirst(c.queue, user));
      && Distinct(Members(c')) && user !in Members(c')
      && (forall v :: v != user ==> (v in Members(c') <==> v in Members(c)))
      && |c'.players| <= |c.players|
  {
    DistinctSplit(c.players, c.queue);
    RemoveFirstFacts(c.players, user);
    RemoveFirstFacts(c.queue, user);
    DistinctJoin(RemoveFirst(c.players, user), RemoveFirst(c.queue, user));
  }

  /** clear_courts leaves every court empty, which satisfies the invariant. */
  lemma ClearKeepsInvariant(cs: Courts)
    requires WellFormed(cs)
    ensures Invariant(Cleared(cs))
    ensures forall n, u :: n in Cleared(cs) ==> u !in Members(Cleared(cs)[n])
  {
  }
}
