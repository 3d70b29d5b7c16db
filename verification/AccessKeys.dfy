/** Login sessions and personal access tokens: sliding expiry, revocation, token resolution. */
module AccessKeys {
  import opened Prelude
  import opened GoText

  /** 24 hours in nanoseconds. */
  const DAY: int := 24 * 3600 * 1_000_000_000

  datatype KeyType = Session | Personal

  datatype AccessKey = AccessKey(id: Text, userId: Text, expiresAt: Option<int>, active: bool, keyType: KeyType)

  /** access_keys by key_hash, which is UNIQUE; id is the primary key. */
  type Keys = map<Text, AccessKey>

  predicate IdsUnique(keys: Keys) {
    forall g, h | g in keys && h in keys && g != h :: keys[g].id != keys[h].id
  }

  predicate Live(k: AccessKey, now: int) {
    k.active && (k.expiresAt.Some? ==> k.expiresAt.value > now)
  }

  predicate Accepts(keys: Keys, hash: Text, now: int) {
    hash in keys && Live(keys[hash], now)
  }

  /** The UPDATE of ValidateAccessKey: a session's expiry slides, a personal token's does not. */
  function AfterValidate(keys: Keys, hash: Text, now: int): Keys {
    if Accepts(keys, hash, now) && keys[hash].keyType.Session?
    then keys[hash := keys[hash].(expiresAt := Some(now + DAY))]
    else keys
  }

  function AfterInvalidate(keys: Keys, id: Text): Keys {
    map h | h in keys :: if keys[h].id == id then keys[h].(active := false) else keys[h]
  }

  predicate Insertable(keys: Keys, hash: Text, key: AccessKey) {
    hash !in keys && forall h | h in keys :: keys[h].id != key.id
  }

  /** An INSERT that breaks a key fails and changes nothing. */
  function AfterCreate(keys: Keys, hash: Text, key: AccessKey): Keys {
    if Insertable(keys, hash, key) then keys[hash := key] else keys
  }

  /** What deactivating a user means for the keys. */
  function AfterDeactivate(keys: Keys, user: Text): Keys {
    map h | h in keys :: if keys[h].userId == user then keys[h].(active := false) else keys[h]
  }

  /** The keys with the listed ones inactive. */
  function Flagged(keys: Keys, listed: seq<AccessKey>): Keys {
    map h | h in keys :: if keys[h] in listed then keys[h].(active := false) else keys[h]
  }

  /** Every key of the user, and no others. */
  ghost predicate Lists(keys: Keys, user: Text, listed: seq<AccessKey>) {
    && (forall k | k in listed :: k.userId == user && exists h | h in keys :: keys[h] == k)
    && (forall h | h in keys && keys[h].userId == user :: keys[h] in listed)
  }

  lemma ListedIsAll(keys: Keys, user: Text, listed: seq<AccessKey>)
    requires Lists(keys, user, listed)
    ensures Flagged(keys, listed) == AfterDeactivate(keys, user)
  {
  }

  const BEARER: Text := "Bearer "

  datatype LogoutResult = LoggedOut | NotAuthenticated | BadRequest | KeyNotFound | LogoutFailed

  /** How a deactivation ends: the error exits leave what was done before them. */
  datatype Outcome = Done | NotFound | Failed

  lemma FlaggedNone(keys: Keys)
    ensures Flagged(keys, []) == keys
  {
  }

  lemma FlaggedSnoc(keys: Keys, listed: seq<AccessKey>, k: AccessKey)
    requires IdsUnique(keys) && exists h | h in keys :: keys[h] == k
    ensures AfterInvalidate(Flagged(keys, listed), k.id) == Flagged(keys, listed + [k])
  {
    var g :| g in keys && keys[g] == k;
    forall h | h in keys
      ensures AfterInvalidate(Flagged(keys, listed), k.id)[h] == Flagged(keys, listed + [k])[h]
    {
      assert h != g ==> keys[h].id != k.id;
    }
  }

  class Store {
    var keys: Keys
    /** users by id, with is_active. */
    var users: map<Text, bool>

    ghost predicate Valid()
      reads this
    {
      IdsUnique(keys)
    }

    constructor (users: map<Text, bool>)
      ensures Valid() && keys == map[] && this.users == users
    {
      keys, this.users := map[], users;
    }

    method ValidateAccessKey(hash: Text, now: int) returns (key: Option<AccessKey>)
      requires Valid()
      modifies this`keys
      ensures Valid() && keys == AfterValidate(old(keys), hash, now)
      ensures key == if Accepts(old(keys), hash, now) then Some(keys[hash]) else None
      ensures key.Some? <==> hash in old(keys) && old(keys)[hash].active &&
                             (old(keys)[hash].expiresAt.None? || now < old(keys)[hash].expiresAt.value)
      ensures key.Some? && old(keys)[hash].keyType.Session? ==>
                keys == old(keys)[hash := old(keys)[hash].(expiresAt := Some(now + 86_400_000_000_000))]
      ensures key.None? || old(keys)[hash].keyType.Personal? ==> keys == old(keys)
    {
      if hash !in keys || !Live(keys[hash], now) {
        return None;
      }
      var row := keys[hash];
      if row.keyType.Session? {
        row := row.(expiresAt := Some(now + DAY));
      }
      keys := keys[hash := row];
      assert keys == AfterValidate(old(keys), hash, now);
      return Some(row);
    }

    method InvalidateAccessKey(id: Text)
      requires Valid()
      modifies this`keys
      ensures Valid() && keys == AfterInvalidate(old(keys), id) && keys.Keys == old(keys).Keys
      ensures forall h | h in keys ::
                keys[h] == if old(keys)[h].id == id then old(keys)[h].(active := false) else old(keys)[h]
    {
      keys := map h | h in keys :: if keys[h].id == id then keys[h].(active := false) else keys[h];
    }

    method CreateAccessKey(hash: Text, key: AccessKey) returns (ok: bool)
      requires Valid()
      modifies this`keys
      ensures Valid() && ok == Insertable(old(keys), hash, key) && keys == AfterCreate(old(keys), hash, key)
      ensures ok <==> hash !in old(keys) && forall h | h in old(keys) :: old(keys)[h].id != key.id
      ensures keys == if ok then old(keys)[hash := key] else old(keys)
    {
      ok := hash !in keys && forall h | h in keys :: keys[h].id != key.id;
      if ok {
        keys := keys[hash := key];
      }
    }

    /** The login of an active user with the right password: a session key that starts at 24 hours. */
    method Login(user: Text, passwordOk: bool, hash: Text, id: Text, now: int) returns (ok: bool)
      requires Valid()
      modifies this`keys
      ensures Valid()
      ensures var key := AccessKey(id, user, Some(now + DAY), true, Session);
        && (ok <==> user in users && users[user] && passwordOk && Insertable(old(keys), hash, key))
        && keys == if ok then AfterCreate(old(keys), hash, key) else old(keys)
    {
      if user !in users || !passwordOk || !users[user] {
        return false;
      }
      ok := CreateAccessKey(hash, AccessKey(id, user, Some(now + DAY), true, Session));
    }

    method ListUserAccessKeys(user: Text) returns (listed: seq<AccessKey>)
      ensures Lists(keys, user, listed)
    {
      listed := [];
      var left := set h | h in keys && keys[h].userId == user;
      while left != {}
        invariant left <= keys.Keys && forall h | h in left :: keys[h].userId == user
        invariant forall k | k in listed :: k.userId == user && exists h | h in keys :: keys[h] == k
        invariant forall h | h in keys && keys[h].userId == user :: h in left || keys[h] in listed
        decreases left
      {
        var h :| h in left;
        listed := listed + [keys[h]];
        left := left - {h};
      }
    }

    /**
     handleDeactivateUser, and the end of handleUpdateUser with isActive false: look up, mark,
     list, then one key after another; statements is how many more the connection lasts.
     */
    method DeactivateUser(user: Text, statements: nat) returns (outcome: Outcome, ghost listed: seq<AccessKey>)
      requires Valid()
      modifies this
      ensures Valid()
      ensures statements == 0 ==> outcome == Failed
      ensures statements > 0 ==> (outcome == NotFound <==> user !in old(users))
      ensures users == if user in old(users) && statements > 1 then old(users)[user := false] else old(users)
      ensures user !in users || statements <= 3 ==> keys == old(keys)
      ensures user in users && statements >= 3 ==> Lists(old(keys), user, listed)
      ensures user in users && statements >= 3 ==> (outcome == Done <==> |listed| <= statements - 3)
      ensures user in users && statements >= 3 ==>
                keys == Flagged(old(keys), if |listed| <= statements - 3 then listed else listed[..statements - 3])
      ensures outcome == Done ==> user in users && statements >= 3 && keys == AfterDeactivate(old(keys), user)
      ensures outcome == Done ==> !users[user] && keys.Keys == old(keys).Keys
      ensures outcome == Done ==> forall h | h in keys ::
                keys[h] == if old(keys)[h].userId == user then old(keys)[h].(active := false) else old(keys)[h]
    {
      listed := [];
      if statements == 0 {
        return Failed, listed;
      }
      if user !in users {
        return NotFound, listed;
      }
      if statements == 1 {
        return Failed, listed;
      }
      users := users[user := false];
      if statements == 2 {
        return Failed, listed;
      }
      var all := ListUserAccessKeys(user);
      listed := all;
      FlaggedNone(keys);
      ListedIsAll(keys, user, all);
      var ok := InvalidateListed(all, statements - 3);
      outcome := if ok then Done else Failed;
    }

    /** The loop over the listed keys, up to the first failure. */
    method InvalidateListed(listed: seq<AccessKey>, statements: nat) returns (ok: bool)
      requires Valid() && forall k | k in listed :: exists h | h in keys :: keys[h] == k
      modifies this`keys
      ensures Valid() && (ok <==> |listed| <= statements)
      ensures keys == Flagged(old(keys), if ok then listed else listed[..statements])
    {
      ghost var before := keys;
      FlaggedNone(before);
      for i := 0 to |listed|
        invariant Valid() && i <= statements && keys == Flagged(before, listed[..i])
      {
        if i == statements {
          return false;
        }
        assert listed[..i + 1] == listed[..i] + [listed[i]] && listed[i] in listed;
        FlaggedSnoc(before, listed[..i], listed[i]);
        InvalidateAccessKey(listed[i].id);
      }
      assert listed[..|listed|] == listed;
      return true;
    }

    method ActivateUser(user: Text)
      requires Valid()
      modifies this`users
      ensures users == if user in old(users) then old(users)[user := true] else old(users)
    {
      if user in users {
        users := users[user := true];
      }
    }

    /** The bearer path of NewAuthMiddleware: hashed lookup, then the raw one, then the user. */
    method ResolveToken(hashToken: Text -> Text, token: Text, now: int) returns (user: Option<Text>)
      requires Valid()
      modifies this`keys
      ensures Valid()
      ensures var hash := if Accepts(old(keys), hashToken(token), now) then hashToken(token) else token;
        && keys == AfterValidate(old(keys), hash, now)
        && user == (if Accepts(old(keys), hash, now) && old(keys)[hash].userId in users && users[old(keys)[hash].userId]
                    then Some(old(keys)[hash].userId) else None)
    {
      var key := ValidateAccessKey(hashToken(token), now);
      if key.None? {
        key := ValidateAccessKey(token, now);
        if key.None? {
          return None;
        }
      }
      if key.value.userId !in users || !users[key.value.userId] {
        return None;
      }
      return Some(key.value.userId);
    }

    /**
     handleLogout: checks the request, validates the token as it was sent, then revokes its
     key; statements is how many more the connection lasts. A failing revocation leaves the
     expiry the validation has moved.
     */
    method Logout(authenticated: bool, authorization: Text, now: int, statements: nat) returns (result: LogoutResult)
      requires Valid()
      modifies this`keys
      ensures Valid()
      ensures result == NotAuthenticated <==> !authenticated
      ensures result == BadRequest <==> authenticated && !(BEARER <= authorization)
      ensures authenticated && BEARER <= authorization ==>
                var found := Accepts(old(keys), authorization[|BEARER|..], now);
                && (result == KeyNotFound <==> statements >= 1 && !found)
                && (result == LoggedOut <==> statements >= 2 && found)
      ensures result == LoggedOut ==>
                var token := authorization[|BEARER|..];
                keys == AfterInvalidate(AfterValidate(old(keys), token, now), old(keys)[token].id)
      ensures result == LogoutFailed && statements >= 1 ==>
                keys == AfterValidate(old(keys), authorization[|BEARER|..], now)
      ensures result != LoggedOut && !(result == LogoutFailed && statements >= 1) ==> keys == old(keys)
    {
      if !authenticated {
        return NotAuthenticated;
      }
      if !(BEARER <= authorization) {
        return BadRequest;
      }
      if statements == 0 {
        return LogoutFailed;
      }
      var key := ValidateAccessKey(authorization[|BEARER|..], now);
      if key.None? {
        return KeyNotFound;
      }
      if statements == 1 {
        return LogoutFailed;
      }
      InvalidateAccessKey(key.value.id);
      return LoggedOut;
    }
  }

  // ----- runs -----

  datatype Event =
    | Create(hash: Text, key: AccessKey)
    | Validate(hash: Text, now: int)
    | Invalidate(id: Text)
    | Deactivate(user: Text)

  function Step(keys: Keys, e: Event): Keys {
    match e
    case Create(hash, key) => AfterCreate(keys, hash, key)
    case Validate(hash, now) => AfterValidate(keys, hash, now)
    case Invalidate(id) => AfterInvalidate(keys, id)
    case Deactivate(user) => AfterDeactivate(keys, user)
  }

  function Play(keys: Keys, events: seq<Event>): Keys
    decreases |events|
  {
    if events == [] then keys else Play(Step(keys, events[0]), events[1..])
  }

  /** The times at which one key is presented. */
  function Uses(events: seq<Event>, hash: Text): seq<int> {
    if events == [] then []
    else (if events[0].Validate? && events[0].hash == hash then [events[0].now] else []) + Uses(events[1..], hash)
  }

  predicate RevokedIn(events: seq<Event>, id: Text, user: Text) {
    Invalidate(id) in events || Deactivate(user) in events
  }

  /** Each use comes before the deadline the use before it set. */
  predicate Kept(deadline: int, uses: seq<int>)
    decreases |uses|
  {
    uses == [] || (uses[0] < deadline && Kept(uses[0] + DAY, uses[1..]))
  }

  predicate NotBefore(times: seq<int>, start: int) {
    forall t | t in times :: start <= t
  }

  predicate Sorted(times: seq<int>) {
    forall i, j | 0 <= i < j < |times| :: times[i] <= times[j]
  }

  /** A key that is gone stays: once revoked, no event brings it back. */
  lemma {:induction false} InactiveForever(keys: Keys, events: seq<Event>, hash: Text)
    requires hash in keys && !keys[hash].active
    ensures hash in Play(keys, events) && !Play(keys, events)[hash].active
    decreases |events|
  {
    if events != [] {
      InactiveForever(Step(keys, events[0]), events[1..], hash);
    }
  }

  /** A key past its deadline stays rejected while the clock does not go back. */
  lemma {:induction false} ExpiredForever(keys: Keys, events: seq<Event>, hash: Text, now: int)
    requires hash in keys && keys[hash].expiresAt.Some? && keys[hash].expiresAt.value <= now
    requires NotBefore(Uses(events, hash), now)
    ensures hash in Play(keys, events)
    ensures Play(keys, events)[hash].expiresAt == keys[hash].expiresAt
    decreases |events|
  {
    if events != [] {
      var e := events[0];
      if e.Validate? && e.hash == hash {
        assert e.now in Uses(events, hash);
      }
      forall t | t in Uses(events[1..], hash)
        ensures t in Uses(events, hash)
      {
      }
      ExpiredForever(Step(keys, e), events[1..], hash, now);
    }
  }

  /** Whatever happens to other keys, and any failed insert, leaves this key alone. */
  lemma OtherEventsLeaveKey(keys: Keys, e: Event, hash: Text)
    requires hash in keys
    requires e != Invalidate(keys[hash].id) && e != Deactivate(keys[hash].userId)
    requires !(e.Validate? && e.hash == hash)
    ensures hash in Step(keys, e) && Step(keys, e)[hash] == keys[hash]
  {
  }

  lemma RevokingEvent(keys: Keys, e: Event, hash: Text)
    requires hash in keys && (e == Invalidate(keys[hash].id) || e == Deactivate(keys[hash].userId))
    ensures hash in Step(keys, e) && !Step(keys, e)[hash].active
  {
  }

  /** A use before the deadline moves it; a later one is rejected and changes nothing. */
  lemma SessionUse(keys: Keys, e: Event, hash: Text, deadline: int)
    requires hash in keys && keys[hash].active && keys[hash].keyType.Session? && keys[hash].expiresAt == Some(deadline)
    requires e.Validate? && e.hash == hash
    ensures hash in Step(keys, e)
    ensures Step(keys, e)[hash] == keys[hash].(expiresAt := Some(if e.now < deadline then e.now + DAY else deadline))
  {
  }

  lemma NoEvents(keys: Keys, hash: Text, id: Text, user: Text)
    ensures Play(keys, []) == keys && Uses([], hash) == [] && !RevokedIn([], id, user)
  {
  }

  lemma FirstEvent(keys: Keys, events: seq<Event>, hash: Text)
    requires events != []
    ensures Play(keys, events) == Play(Step(keys, events[0]), events[1..])
    ensures Uses(events, hash)
         == (if events[0].Validate? && events[0].hash == hash then [events[0].now] else []) + Uses(events[1..], hash)
  {
  }

  lemma FirstUse(deadline: int, uses: seq<int>, first: int, later: seq<int>)
    requires uses == [first] + later
    ensures Kept(deadline, uses) <==> first < deadline && Kept(first + DAY, later)
  {
    assert uses[1..] == later;
  }

  lemma SessionNow(keys: Keys, hash: Text, deadline: int, now: int)
    requires hash in keys && keys[hash].active && keys[hash].expiresAt == Some(deadline)
    ensures Accepts(keys, hash, now) <==> Kept(deadline, [] + [now])
  {
    FirstUse(deadline, [] + [now], now, []);
  }

  /** Once a use comes after the deadline, every later request is rejected. */
  lemma RejectedAfterLateUse(keys: Keys, events: seq<Event>, hash: Text, late: int, now: int)
    requires hash in keys && keys[hash].expiresAt.Some? && keys[hash].expiresAt.value <= late
    requires NotBefore(Uses(events, hash) + [now], late)
    ensures !Accepts(Play(keys, events), hash, now)
  {
    UsesNotBefore(events, hash, now, late);
    ExpiredForever(keys, events, hash, late);
    assert now in Uses(events, hash) + [now];
  }

  /**
   A live session key with a deadline is accepted at a request exactly when nothing revoked
   it and every use up to and including that request met the deadline the one before set.
   */
  lemma {:induction false} SessionAcceptance(keys: Keys, events: seq<Event>, hash: Text, deadline: int, now: int)
    requires hash in keys && keys[hash].active && keys[hash].keyType.Session? && keys[hash].expiresAt == Some(deadline)
    requires Sorted(Uses(events, hash) + [now])
    ensures Accepts(Play(keys, events), hash, now) <==>
      !RevokedIn(events, keys[hash].id, keys[hash].userId) && Kept(deadline, Uses(events, hash) + [now])
    decreases |events|
  {
    hide Step, Play, Uses, Kept, Sorted, NotBefore, RevokedIn;
    var id, user := keys[hash].id, keys[hash].userId;
    if events == [] {
      NoEvents(keys, hash, id, user);
      SessionNow(keys, hash, deadline, now);
    } else {
      var e, rest := events[0], events[1..];
      var next, later := Step(keys, e), Uses(rest, hash) + [now];
      FirstEvent(keys, events, hash);
      RevokedCons(events, id, user);
      if e == Invalidate(id) || e == Deactivate(user) {
        RevokingEvent(keys, e, hash);
        InactiveForever(next, rest, hash);
      } else if e.Validate? && e.hash == hash {
        assert Uses(events, hash) + [now] == [e.now] + later;
        SortedTail(e.now, later, Uses(events, hash) + [now]);
        FirstUse(deadline, Uses(events, hash) + [now], e.now, later);
        SessionUse(keys, e, hash, deadline);
        if e.now < deadline {
          SessionAcceptance(next, rest, hash, e.now + DAY, now);
        } else {
          RejectedAfterLateUse(next, rest, hash, e.now, now);
        }
      } else {
        assert Uses(events, hash) == Uses(rest, hash);
        OtherEventsLeaveKey(keys, e, hash);
        SessionAcceptance(next, rest, hash, deadline, now);
      }
    }
  }

  lemma RevokedCons(events: seq<Event>, id: Text, user: Text)
    requires events != []
    ensures RevokedIn(events, id, user) <==>
      events[0] == Invalidate(id) || events[0] == Deactivate(user) || RevokedIn(events[1..], id, user)
  {
    assert events == [events[0]] + events[1..];
  }

  lemma SortedTail(first: int, later: seq<int>, all: seq<int>)
    requires all == [first] + later && Sorted(all)
    ensures Sorted(later) && NotBefore(later, first) && all[1..] == later
  {
    assert all[0] == first && forall i | 0 <= i < |later| :: all[i + 1] == later[i];
    forall i, j | 0 <= i < j < |later|
      ensures later[i] <= later[j]
    {
      assert all[i + 1] <= all[j + 1];
    }
    forall t | t in later
      ensures first <= t
    {
      var i :| 0 <= i < |later| && later[i] == t;
      assert all[0] <= all[i + 1];
    }
  }

  lemma UsesNotBefore(events: seq<Event>, hash: Text, now: int, start: int)
    requires NotBefore(Uses(events, hash) + [now], start)
    ensures NotBefore(Uses(events, hash), start)
  {
    forall t | t in Uses(events, hash)
      ensures start <= t
    {
      assert t in Uses(events, hash) + [now];
    }
  }

  /** After a login, a session is good as long as every gap stays under 24 hours. */
  predicate GapsUnderADay(times: seq<int>) {
    forall i | 0 < i < |times| :: times[i] - times[i - 1] < DAY
  }

  lemma GapsCons(start: int, first: int, uses: seq<int>)
    ensures GapsUnderADay([start] + ([first] + uses)) <==> first - start < DAY && GapsUnderADay([first] + uses)
  {
    var tail := [first] + uses;
    var all := [start] + tail;
    assert forall i | 0 < i < |all| :: all[i] == tail[i - 1];
    if GapsUnderADay(all) {
      assert all[1] - all[0] < DAY;
      forall i | 0 < i < |tail|
        ensures tail[i] - tail[i - 1] < DAY
      {
        assert all[i + 1] - all[i] < DAY;
      }
    }
  }

  lemma {:induction false} KeptIsGaps(start: int, uses: seq<int>)
    ensures Kept(start + DAY, uses) <==> GapsUnderADay([start] + uses)
    decreases |uses|
  {
    if uses == [] {
      assert |[start] + uses| == 1;
    } else {
      var first, rest := uses[0], uses[1..];
      assert uses == [first] + rest;
      GapsCons(start, first, rest);
      FirstUse(start + DAY, uses, first, rest);
      hide GapsUnderADay, Kept;
      KeptIsGaps(first, rest);
    }
  }

  /**
   The session a login creates at time start is accepted at a later request exactly when it
   was not revoked and every gap from the login through that request is under 24 hours.
   */
  lemma LoginSessionAcceptance(keys: Keys, hash: Text, id: Text, user: Text, start: int, events: seq<Event>, now: int)
    requires Insertable(keys, hash, AccessKey(id, user, Some(start + DAY), true, Session))
    requires Sorted(Uses(events, hash) + [now])
    ensures Accepts(
              Play(AfterCreate(keys, hash, AccessKey(id, user, Some(start + DAY), true, Session)), events), hash, now)
       <==> !RevokedIn(events, id, user) && GapsUnderADay([start] + (Uses(events, hash) + [now]))
  {
    var created := AfterCreate(keys, hash, AccessKey(id, user, Some(start + DAY), true, Session));
    SessionAcceptance(created, events, hash, start + DAY, now);
    KeptIsGaps(start, Uses(events, hash) + [now]);
  }

  /** An existing key that is rejected once is rejected at every later time. */
  lemma RejectedForever(keys: Keys, events: seq<Event>, hash: Text, now: int, later: int)
    requires hash in keys && !Accepts(keys, hash, now)
    requires NotBefore(Uses(events, hash), now) && now <= later
    ensures !Accepts(Play(keys, events), hash, later)
  {
    if !keys[hash].active {
      InactiveForever(keys, events, hash);
    } else {
      ExpiredForever(keys, events, hash, now);
    }
  }

  /** Nothing ever moves a personal token's expiry. */
  lemma {:induction false} PersonalExpiryFixed(keys: Keys, events: seq<Event>, hash: Text)
    requires hash in keys && keys[hash].keyType.Personal?
    ensures hash in Play(keys, events)
    ensures Play(keys, events)[hash].expiresAt == keys[hash].expiresAt && Play(keys, events)[hash].keyType.Personal?
    decreases |events|
  {
    if events != [] {
      PersonalExpiryFixed(Step(keys, events[0]), events[1..], hash);
    }
  }

  /**
   An active personal token is accepted at a request exactly when nothing revoked it and the
   request comes before the expiry it was created with, if it has one; no use matters.
   */
  lemma {:induction false} PersonalAcceptance(keys: Keys, events: seq<Event>, hash: Text, now: int)
    requires hash in keys && keys[hash].active && keys[hash].keyType.Personal?
    ensures Accepts(Play(keys, events), hash, now) <==>
      !RevokedIn(events, keys[hash].id, keys[hash].userId) &&
      (keys[hash].expiresAt.None? || now < keys[hash].expiresAt.value)
    decreases |events|
  {
    var id, user := keys[hash].id, keys[hash].userId;
    if events == [] {
      NoEvents(keys, hash, id, user);
    } else {
      hide Step, Play, RevokedIn;
      var e, rest := events[0], events[1..];
      FirstEvent(keys, events, hash);
      RevokedCons(events, id, user);
      if e == Invalidate(id) || e == Deactivate(user) {
        RevokingEvent(keys, e, hash);
        InactiveForever(Step(keys, e), rest, hash);
      } else {
        PersonalUntouched(keys, e, hash);
        PersonalAcceptance(Step(keys, e), rest, hash, now);
      }
    }
  }

  lemma PersonalUntouched(keys: Keys, e: Event, hash: Text)
    requires hash in keys && keys[hash].keyType.Personal?
    requires e != Invalidate(keys[hash].id) && e != Deactivate(keys[hash].userId)
    ensures hash in Step(keys, e) && Step(keys, e)[hash] == keys[hash]
  {
  }

  /** After a deactivation no key the user held is ever accepted, re-activated or not. */
  lemma DeactivationIsFinal(keys: Keys, events: seq<Event>, hash: Text, now: int)
    requires hash in keys
    ensures !Accepts(Play(AfterDeactivate(keys, keys[hash].userId), events), hash, now)
  {
    InactiveForever(AfterDeactivate(keys, keys[hash].userId), events, hash);
  }

  /** After a deactivation that failed on the way, exactly the keys it did not reach are as good as before. */
  lemma KeysThatSurvive(keys: Keys, reached: seq<AccessKey>, hash: Text, now: int)
    requires hash in keys
    ensures Accepts(Flagged(keys, reached), hash, now) <==> keys[hash] !in reached && Accepts(keys, hash, now)
  {
  }

  /** Whatever happens from time t on, the key is rejected at every request from then on. */
  ghost predicate NeverAcceptedFrom(keys: Keys, hash: Text, t: int) {
    forall events: seq<Event>, now: int | NotBefore(Uses(events, hash), t) && t <= now ::
      !Accepts(Play(keys, events), hash, now)
  }

  /**
   A deactivation at time t that failed on the way is final for a key exactly when its loop
   reached the key or the key was no longer live; a live key it did not reach is accepted
   again once the user is active.
   */
  lemma PartialDeactivationIsFinalIff(keys: Keys, reached: seq<AccessKey>, hash: Text, t: int)
    requires hash in keys
    ensures NeverAcceptedFrom(Flagged(keys, reached), hash, t) <==> keys[hash] in reached || !Live(keys[hash], t)
  {
    var after := Flagged(keys, reached);
    KeysThatSurvive(keys, reached, hash, t);
    if keys[hash] in reached || !Live(keys[hash], t) {
      forall events: seq<Event>, now: int | NotBefore(Uses(events, hash), t) && t <= now
        ensures !Accepts(Play(after, events), hash, now)
      {
        RejectedForever(after, events, hash, t, now);
      }
    } else {
      NoEvents(after, hash, keys[hash].id, keys[hash].userId);
      assert Accepts(Play(after, []), hash, t);
    }
  }
}
