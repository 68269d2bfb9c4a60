/**
 * RefreshTokenService over the refresh token table: issuing a token while
 * capping the user's active sessions, rotating a token, and revoking one.
 * The table is kept in insertion order; the clock is a parameter `now` and
 * the random token string is a parameter the caller guarantees is new.
 */
module RefreshTokens {
  import opened Wrappers
  import opened Text
  import opened Rows

  /** The service's defaults: seven days, five sessions. */
  const DEFAULT_TTL: int := 604800
  const DEFAULT_MAX_SESSIONS: int := 5
  /** RefreshToken::create() keeps the first 255 characters of the user agent. */
  const USER_AGENT_LIMIT: nat := 255

  /** A row of the refresh token table; times are Unix timestamps. */
  datatype RefreshToken = RefreshToken(
    token: string,
    userId: int,
    expiresAt: int,
    createdAt: int,
    ipAddress: Option<string>,
    userAgent: Option<string>)

  /** The repositories' `expiresAt > :now`. */
  predicate IsActiveAt(t: RefreshToken, now: int) {
    t.expiresAt > now
  }

  /** `$userAgent ? mb_substr($userAgent, 0, 255) : null`: "" and "0" are falsy in PHP. */
  function StoredUserAgent(userAgent: Option<string>): (stored: Option<string>)
    ensures stored.None? <==> userAgent.None? || PhpEmpty(userAgent.value)
    ensures stored.Some? ==> |stored.value| <= USER_AGENT_LIMIT && stored.value <= userAgent.value
    ensures stored.Some? && |userAgent.value| <= USER_AGENT_LIMIT ==> stored.value == userAgent.value
  {
    if userAgent.None? || PhpEmpty(userAgent.value) then None
    else if |userAgent.value| <= USER_AGENT_LIMIT then userAgent
    else Some(userAgent.value[..USER_AGENT_LIMIT])
  }

  // ---------------------------------------------------------------------------
  // The table and its queries

  /** The token column is unique. */
  predicate TokensUnique(tokens: seq<RefreshToken>) {
    forall i, j :: 0 <= i < j < |tokens| ==> tokens[i].token != tokens[j].token
  }

  /** Rows are inserted with the current time, so createdAt never decreases along the table. */
  predicate CreatedInOrder(tokens: seq<RefreshToken>) {
    forall i, j :: 0 <= i < j < |tokens| ==> tokens[i].createdAt <= tokens[j].createdAt
  }

  /** Two rows of a table with unique token strings that carry the same string are the same row. */
  lemma SameTokenSameRow(tokens: seq<RefreshToken>, a: RefreshToken, b: RefreshToken)
    requires TokensUnique(tokens) && a in tokens && b in tokens && a.token == b.token
    ensures a == b
  {
    var i :| 0 <= i < |tokens| && tokens[i] == a;
    var j :| 0 <= j < |tokens| && tokens[j] == b;
    assert i == j;
  }

  lemma UniqueTokensAreDistinctRows(tokens: seq<RefreshToken>)
    requires TokensUnique(tokens)
    ensures NoDuplicates(tokens)
  {
  }

  /** The user's active rows, in table order (the WHERE clause of findActiveByUser and countActiveByUser). */
  function ActiveOf(tokens: seq<RefreshToken>, userId: int, now: int): (active: seq<RefreshToken>)
    ensures |active| <= |tokens|
    ensures forall t :: t in active <==> t in tokens && t.userId == userId && IsActiveAt(t, now)
  {
    if |tokens| == 0 then []
    else
      var rest := ActiveOf(tokens[1..], userId, now);
      assert forall t :: t in tokens <==> t == tokens[0] || t in tokens[1..];
      if tokens[0].userId == userId && IsActiveAt(tokens[0], now) then [tokens[0]] + rest else rest
  }

  /** countActiveByUser(): the number of the user's active rows, zero exactly when there is none. */
  function CountActiveByUser(tokens: seq<RefreshToken>, userId: int, now: int): (count: nat)
    ensures count <= |tokens|
    ensures count == 0 <==> forall t :: t in tokens ==> !(t.userId == userId && IsActiveAt(t, now))
  {
    var active := ActiveOf(tokens, userId, now);
    assert |active| > 0 ==> active[0] in active;
    |active|
  }

  function Reverse<T>(s: seq<T>): (r: seq<T>)
    ensures |r| == |s|
    ensures forall i :: 0 <= i < |s| ==> r[i] == s[|s| - 1 - i]
  {
    if |s| == 0 then [] else Reverse(s[1..]) + [s[0]]
  }

  /**
   * findActiveByUser(): ORDER BY createdAt DESC. The table is in creation
   * order, so the newest row comes first; rows created in the same second
   * come newest-inserted first.
   */
  function FindActiveByUser(tokens: seq<RefreshToken>, userId: int, now: int): (sessions: seq<RefreshToken>)
    ensures |sessions| == CountActiveByUser(tokens, userId, now)
    ensures forall t :: t in sessions <==> t in tokens && t.userId == userId && IsActiveAt(t, now)
  {
    var active := ActiveOf(tokens, userId, now);
    ReverseSameElements(active);
    Reverse(active)
  }

  /** Reversing keeps the elements. */
  lemma ReverseSameElements<T>(s: seq<T>)
    ensures forall t :: t in Reverse(s) <==> t in s
  {
    var r := Reverse(s);
    forall t | t in s
      ensures t in r
    {
      var i :| 0 <= i < |s| && s[i] == t;
      assert r[|s| - 1 - i] == t;
    }
  }

  /** array_slice($s, $offset) without a length: a negative offset counts from the end. */
  function ArraySlice<T>(s: seq<T>, offset: int): (r: seq<T>)
    ensures 0 <= offset <= |s| ==> r == s[offset..]
    ensures offset > |s| ==> r == []
    ensures offset < 0 && -offset <= |s| ==> r == s[|s| + offset..]
    ensures offset < 0 && -offset > |s| ==> r == s
  {
    if offset >= 0 then (if offset <= |s| then s[offset..] else [])
    else if -offset <= |s| then s[|s| + offset..]
    else s
  }

  /**
   * What enforceSessionLimit() revokes: nothing below the limit; otherwise
   * every session from position max - 1 of the newest-first list onwards.
   */
  function SessionsToRevoke(tokens: seq<RefreshToken>, userId: int, now: int, maxSessions: int): (revoked: seq<RefreshToken>)
    ensures forall t :: t in revoked ==> t in tokens && t.userId == userId && IsActiveAt(t, now)
    ensures CountActiveByUser(tokens, userId, now) < maxSessions ==> revoked == []
    ensures 1 <= maxSessions <= CountActiveByUser(tokens, userId, now) ==>
              |revoked| == CountActiveByUser(tokens, userId, now) - maxSessions + 1
  {
    var sessions := FindActiveByUser(tokens, userId, now);
    assert forall k, t :: 0 <= k <= |sessions| && t in sessions[k..] ==> t in sessions;
    if CountActiveByUser(tokens, userId, now) >= maxSessions
    then ArraySlice(FindActiveByUser(tokens, userId, now), maxSessions - 1)
    else []
  }

  /** The rows of a list, as a set. */
  function Elements(s: seq<RefreshToken>): set<RefreshToken> {
    set t | t in s
  }

  lemma ElementsOfEmpty()
    ensures Elements([]) == {}
  {
  }

  lemma ElementsOfLongerPrefix(s: seq<RefreshToken>, i: int)
    requires 0 <= i < |s|
    ensures Elements(s[..i + 1]) == Elements(s[..i]) + {s[i]}
  {
    assert s[..i + 1] == s[..i] + [s[i]];
  }

  /** The rows that are not in `removed`, in table order. */
  function Keep(tokens: seq<RefreshToken>, removed: set<RefreshToken>): (kept: seq<RefreshToken>)
    ensures |kept| <= |tokens|
    ensures forall t :: t in kept <==> t in tokens && t !in removed
  {
    if |tokens| == 0 then []
    else
      var rest := Keep(tokens[1..], removed);
      assert forall t :: t in tokens <==> t == tokens[0] || t in tokens[1..];
      if tokens[0] in removed then rest else [tokens[0]] + rest
  }

  /** findValidToken(): the row with that token string that has not expired, or null. */
  function FindValidToken(tokens: seq<RefreshToken>, token: string, now: int): (found: Option<RefreshToken>)
    ensures found.Some? ==> found.value in tokens && found.value.token == token && IsActiveAt(found.value, now)
    ensures found.None? <==> forall t :: t in tokens ==> !(t.token == token && IsActiveAt(t, now))
  {
    if |tokens| == 0 then None
    else if tokens[0].token == token && IsActiveAt(tokens[0], now) then Some(tokens[0])
    else
      assert forall t :: t in tokens <==> t == tokens[0] || t in tokens[1..];
      FindValidToken(tokens[1..], token, now)
  }

  // ---------------------------------------------------------------------------
  // Facts about the queries

  lemma KeepNothing(tokens: seq<RefreshToken>)
    ensures Keep(tokens, {}) == tokens
  {
  }

  /** Removing rows one after the other is removing them together. */
  lemma {:induction false} KeepTwice(tokens: seq<RefreshToken>, removed: set<RefreshToken>, t: RefreshToken)
    ensures Keep(Keep(tokens, removed), {t}) == Keep(tokens, removed + {t})
  {
    if |tokens| > 0 {
      KeepTwice(tokens[1..], removed, t);
    }
  }

  /** Removing rows keeps the token strings unique and the creation order. */
  lemma {:induction false} KeepKeepsValid(tokens: seq<RefreshToken>, removed: set<RefreshToken>)
    requires TokensUnique(tokens) && CreatedInOrder(tokens)
    ensures TokensUnique(Keep(tokens, removed)) && CreatedInOrder(Keep(tokens, removed))
  {
    if |tokens| > 0 {
      var rest := tokens[1..];
      assert TokensUnique(rest) && CreatedInOrder(rest);
      KeepKeepsValid(rest, removed);
      if tokens[0] !in removed {
        var kept := Keep(rest, removed);
        ConsKeepsValid(tokens[0], kept, rest);
      }
    }
  }

  /** A row that is older than, and has a different token from, every row of `rest` can go in front of a part of `rest`. */
  lemma ConsKeepsValid(head: RefreshToken, kept: seq<RefreshToken>, rest: seq<RefreshToken>)
    requires TokensUnique(kept) && CreatedInOrder(kept)
    requires forall t :: t in kept ==> t in rest
    requires forall t :: t in rest ==> t.token != head.token && head.createdAt <= t.createdAt
    ensures TokensUnique([head] + kept) && CreatedInOrder([head] + kept)
  {
    var s := [head] + kept;
    forall i, j | 0 <= i < j < |s|
      ensures s[i].token != s[j].token && s[i].createdAt <= s[j].createdAt
    {
      assert s[j] == kept[j - 1] && s[j] in rest;
      if i > 0 {
        assert s[i] == kept[i - 1];
      }
    }
  }

  /** A table that stays valid when a new, newer row with a fresh token is appended. */
  lemma AppendKeepsValid(tokens: seq<RefreshToken>, created: RefreshToken)
    requires TokensUnique(tokens) && CreatedInOrder(tokens)
    requires forall t :: t in tokens ==> t.token != created.token && t.createdAt <= created.createdAt
    ensures TokensUnique(tokens + [created]) && CreatedInOrder(tokens + [created])
  {
    var s := tokens + [created];
    forall i, j | 0 <= i < j < |s|
      ensures s[i].token != s[j].token && s[i].createdAt <= s[j].createdAt
    {
      assert s[i] == tokens[i];
      if j < |tokens| {
        assert s[j] == tokens[j];
      } else {
        assert tokens[i] in tokens;
      }
    }
  }

  /** Filtering the active rows commutes with removing rows. */
  lemma {:induction false} ActiveOfKeep(tokens: seq<RefreshToken>, removed: set<RefreshToken>, userId: int, now: int)
    ensures ActiveOf(Keep(tokens, removed), userId, now) == Keep(ActiveOf(tokens, userId, now), removed)
  {
    if |tokens| > 0 {
      ActiveOfKeep(tokens[1..], removed, userId, now);
    }
  }

  /** The active rows of a table with unique tokens in creation order are distinct and in creation order. */
  lemma {:induction false} ActiveOfKeepsValid(tokens: seq<RefreshToken>, userId: int, now: int)
    requires TokensUnique(tokens) && CreatedInOrder(tokens)
    ensures TokensUnique(ActiveOf(tokens, userId, now)) && CreatedInOrder(ActiveOf(tokens, userId, now))
  {
    if |tokens| > 0 {
      var rest := tokens[1..];
      assert TokensUnique(rest) && CreatedInOrder(rest);
      ActiveOfKeepsValid(rest, userId, now);
      if tokens[0].userId == userId && IsActiveAt(tokens[0], now) {
        ConsKeepsValid(tokens[0], ActiveOf(rest, userId, now), rest);
      }
    }
  }

  /** The sessions findActiveByUser() lists run from the newest to the oldest. */
  lemma NewestFirst(tokens: seq<RefreshToken>, userId: int, now: int)
    requires TokensUnique(tokens) && CreatedInOrder(tokens)
    ensures var sessions := FindActiveByUser(tokens, userId, now);
            forall i, j :: 0 <= i < j < |sessions| ==> sessions[i].createdAt >= sessions[j].createdAt
  {
    ActiveOfKeepsValid(tokens, userId, now);
  }

  /** A sequence without duplicates has as many distinct elements as it has elements. */
  lemma {:induction false} DistinctCardinality(s: seq<RefreshToken>)
    requires NoDuplicates(s)
    ensures |Elements(s)| == |s|
  {
    if |s| > 0 {
      var rest := s[1..];
      assert NoDuplicates(rest);
      DistinctCardinality(rest);
      assert Elements(s) == Elements(rest) + {s[0]};
      assert s[0] !in rest;
    }
  }

  /** Removing a set of its elements from a sequence without duplicates shortens it by the size of the set. */
  lemma {:induction false} KeepCount(s: seq<RefreshToken>, removed: set<RefreshToken>)
    requires NoDuplicates(s)
    requires forall t :: t in removed ==> t in s
    ensures |Keep(s, removed)| == |s| - |removed|
  {
    var kept := Keep(s, removed);
    KeepDistinct(s, removed);
    DistinctCardinality(s);
    DistinctCardinality(kept);
    assert Elements(kept) == Elements(s) - removed;
    assert removed <= Elements(s);
    CardinalityOfDifference(Elements(s), removed);
  }

  lemma CardinalityOfDifference(whole: set<RefreshToken>, part: set<RefreshToken>)
    requires part <= whole
    ensures |whole - part| == |whole| - |part|
  {
    assert whole == (whole - part) + part;
  }

  lemma {:induction false} KeepDistinct(s: seq<RefreshToken>, removed: set<RefreshToken>)
    requires NoDuplicates(s)
    ensures NoDuplicates(Keep(s, removed))
  {
    if |s| > 0 {
      var rest := s[1..];
      assert NoDuplicates(rest);
      KeepDistinct(rest, removed);
      if s[0] !in removed {
        assert s[0] !in rest;
        ConsDistinct(s[0], Keep(rest, removed));
      }
    }
  }

  /**
   * The session cap: for a limit of at least one, the user has at most
   * max - 1 active sessions once enforceSessionLimit() has revoked its list,
   * which leaves room for the token about to be issued.
   */
  lemma SessionLimitLeavesRoom(tokens: seq<RefreshToken>, userId: int, now: int, maxSessions: int)
    requires TokensUnique(tokens) && CreatedInOrder(tokens)
    requires maxSessions >= 1
    ensures var revoked := Elements(SessionsToRevoke(tokens, userId, now, maxSessions));
            CountActiveByUser(Keep(tokens, revoked), userId, now) <= maxSessions - 1
  {
    var active := ActiveOf(tokens, userId, now);
    var toRemove := SessionsToRevoke(tokens, userId, now, maxSessions);
    var revoked := Elements(toRemove);
    ActiveOfKeep(tokens, revoked, userId, now);
    if |active| >= maxSessions {
      ActiveOfKeepsValid(tokens, userId, now);
      UniqueTokensAreDistinctRows(active);
      RevokedTail(active, maxSessions);
      DistinctCardinality(toRemove);
      KeepCount(active, revoked);
    } else {
      ElementsOfEmpty();
      KeepNothing(active);
    }
  }

  /** The revoked list: the max - 1 newest sessions stay, the rest go, each once. */
  lemma RevokedTail(active: seq<RefreshToken>, maxSessions: int)
    requires NoDuplicates(active) && 1 <= maxSessions <= |active|
    ensures var toRemove := ArraySlice(Reverse(active), maxSessions - 1);
            && NoDuplicates(toRemove)
            && |toRemove| == |active| - maxSessions + 1
            && forall t :: t in toRemove ==> t in active
  {
    var toRemove := ArraySlice(Reverse(active), maxSessions - 1);
    assert toRemove == Reverse(active)[maxSessions - 1..];
    forall i | 0 <= i < |toRemove|
      ensures toRemove[i] == active[|active| - maxSessions - i]
    {
    }
  }

  /** With a limit of 0 the offset is -1, so array_slice() picks only the oldest active session. */
  lemma ZeroLimitRevokesOldest(tokens: seq<RefreshToken>, userId: int, now: int)
    requires CountActiveByUser(tokens, userId, now) > 0
    ensures SessionsToRevoke(tokens, userId, now, 0) == [ActiveOf(tokens, userId, now)[0]]
  {
  }

  /** Once its row is gone, a token string is no longer valid. */
  lemma RevokedTokenIsGone(tokens: seq<RefreshToken>, found: RefreshToken, now: int)
    requires TokensUnique(tokens) && found in tokens
    ensures FindValidToken(Keep(tokens, {found}), found.token, now).None?
  {
    forall t | t in Keep(tokens, {found}) && t.token == found.token
      ensures false
    {
      SameTokenSameRow(tokens, t, found);
    }
  }

  // ---------------------------------------------------------------------------
  // The service

  /** What a successful consumeRefreshToken() returns: the token's user and the new token. */
  datatype Rotation = Rotation(userId: int, newToken: RefreshToken)

  class RefreshTokenService {
    const refreshTokenTtl: int
    const maxSessionsPerUser: int
    /** The refresh token table, in insertion order. */
    var tokens: seq<RefreshToken>

    ghost predicate Valid()
      reads this
    {
      TokensUnique(tokens) && CreatedInOrder(tokens)
    }

    constructor (refreshTokenTtl: int, maxSessionsPerUser: int, tokens: seq<RefreshToken>)
      requires TokensUnique(tokens) && CreatedInOrder(tokens)
      ensures Valid()
      ensures this.refreshTokenTtl == refreshTokenTtl && this.maxSessionsPerUser == maxSessionsPerUser
      ensures this.tokens == tokens
    {
      this.refreshTokenTtl := refreshTokenTtl;
      this.maxSessionsPerUser := maxSessionsPerUser;
      this.tokens := tokens;
    }

    /** RefreshTokenRepository::revoke(): the row is deleted. */
    method Revoke(t: RefreshToken)
      requires Valid()
      modifies this
      ensures Valid()
      ensures tokens == Keep(old(tokens), {t})
    {
      KeepKeepsValid(tokens, {t});
      tokens := Keep(tokens, {t});
    }

    /** The foreach of enforceSessionLimit(): revoke each listed token in turn. */
    method RevokeEach(toRemove: seq<RefreshToken>)
      requires Valid()
      modifies this
      ensures Valid()
      ensures tokens == Keep(old(tokens), Elements(toRemove))
    {
      var i := 0;
      assert toRemove[..0] == [];
      ElementsOfEmpty();
      KeepNothing(tokens);
      while i < |toRemove|
        invariant 0 <= i <= |toRemove|
        invariant Valid()
        invariant tokens == Keep(old(tokens), Elements(toRemove[..i]))
      {
        ghost var done := Elements(toRemove[..i]);
        assert Keep(tokens, {toRemove[i]}) == Keep(old(tokens), done + {toRemove[i]}) by {
          KeepTwice(old(tokens), done, toRemove[i]);
        }
        ElementsOfLongerPrefix(toRemove, i);
        Revoke(toRemove[i]);
        i := i + 1;
      }
      assert toRemove[..i] == toRemove;
    }

    /** enforceSessionLimit(): at or over the limit, revoke the list computed by SessionsToRevoke. */
    method EnforceSessionLimit(userId: int, now: int)
      requires Valid()
      modifies this
      ensures Valid()
      ensures tokens == Keep(old(tokens), Elements(SessionsToRevoke(old(tokens), userId, now, maxSessionsPerUser)))
    {
      var activeCount := CountActiveByUser(tokens, userId, now);
      if activeCount >= maxSessionsPerUser {
        var sessions := FindActiveByUser(tokens, userId, now);
        RevokeEach(ArraySlice(sessions, maxSessionsPerUser - 1));
      } else {
        ElementsOfEmpty();
        KeepNothing(tokens);
      }
    }

    /**
     * createRefreshToken(): enforce the limit, then insert a row for the user
     * that expires after the TTL. With a limit of at least one, the user then
     * has at most that many active sessions.
     */
    method CreateRefreshToken(userId: int, now: int, newToken: string,
                              ipAddress: Option<string>, userAgent: Option<string>) returns (created: RefreshToken)
      requires Valid()
      requires forall t :: t in tokens ==> t.token != newToken && t.createdAt <= now
      modifies this
      ensures Valid()
      ensures created == RefreshToken(newToken, userId, now + refreshTokenTtl, now, ipAddress, StoredUserAgent(userAgent))
      ensures tokens == Keep(old(tokens), Elements(SessionsToRevoke(old(tokens), userId, now, maxSessionsPerUser))) + [created]
      ensures maxSessionsPerUser >= 1 ==> CountActiveByUser(tokens, userId, now) <= maxSessionsPerUser
    {
      ghost var before := tokens;
      EnforceSessionLimit(userId, now);
      created := RefreshToken(newToken, userId, now + refreshTokenTtl, now, ipAddress, StoredUserAgent(userAgent));
      AppendKeepsValid(tokens, created);
      ghost var kept := tokens;
      tokens := tokens + [created];
      if maxSessionsPerUser >= 1 {
        SessionLimitLeavesRoom(before, userId, now, maxSessionsPerUser);
        ActiveOfAppend(kept, created, userId, now);
      }
    }

    /**
     * consumeRefreshToken(): a token that is unknown or expired, or whose user
     * is gone, yields null and changes nothing; otherwise the token is revoked
     * and a new one is issued for its user.
     */
    method ConsumeRefreshToken(token: string, now: int, users: set<int>, newToken: string,
                               ipAddress: Option<string>, userAgent: Option<string>) returns (result: Option<Rotation>)
      requires Valid()
      requires forall t :: t in tokens ==> t.token != newToken && t.createdAt <= now
      modifies this
      ensures Valid()
      ensures var found := FindValidToken(old(tokens), token, now);
              found.None? || found.value.userId !in users ==> result.None? && tokens == old(tokens)
      ensures var found := FindValidToken(old(tokens), token, now);
              found.Some? && found.value.userId in users ==>
                && result.Some? && result.value.userId == found.value.userId
                && (var rest := Keep(old(tokens), {found.value});
                    tokens == Keep(rest, Elements(SessionsToRevoke(rest, found.value.userId, now, maxSessionsPerUser)))
                              + [result.value.newToken])
                && result.value.newToken.token == newToken
                && FindValidToken(tokens, token, now).None?
    {
      var found := FindValidToken(tokens, token, now);
      if found.None? {
        return None;
      }
      var refreshToken := found.value;
      if refreshToken.userId !in users {
        return None;
      }
      RevokedTokenIsGone(tokens, refreshToken, now);
      Revoke(refreshToken);
      ghost var rest := tokens;
      var created := CreateRefreshToken(refreshToken.userId, now, newToken, ipAddress, userAgent);
      result := Some(Rotation(refreshToken.userId, created));
      RotatedTokenIsGone(rest, Elements(SessionsToRevoke(rest, refreshToken.userId, now, maxSessionsPerUser)),
                         created, token, now);
    }

    /** revokeToken(): false for a token that is unknown or expired; otherwise its row is deleted. */
    method RevokeToken(token: string, now: int) returns (revoked: bool)
      requires Valid()
      modifies this
      ensures Valid()
      ensures revoked <==> FindValidToken(old(tokens), token, now).Some?
      ensures !revoked ==> tokens == old(tokens)
      ensures revoked ==> tokens == Keep(old(tokens), {FindValidToken(old(tokens), token, now).value})
      ensures FindValidToken(tokens, token, now).None?
    {
      var found := FindValidToken(tokens, token, now);
      if found.None? {
        return false;
      }
      RevokedTokenIsGone(tokens, found.value, now);
      Revoke(found.value);
      return true;
    }
    /** validateRefreshToken(): the user of the valid token, without consuming it. */
    function ValidateRefreshToken(token: string, now: int): (userId: Option<int>)
      reads this
      ensures userId.Some? <==> exists t :: t in tokens && t.token == token && IsActiveAt(t, now)
      ensures userId.Some? ==> exists t :: t in tokens && t.token == token && IsActiveAt(t, now) && t.userId == userId.value
    {
      var found := FindValidToken(tokens, token, now);
      if found.Some? then Some(found.value.userId) else None
    }

    /** revokeAllTokens(): deletes every row of the user and answers how many went. */
    method RevokeAllTokens(userId: int) returns (count: nat)
      requires Valid()
      modifies this
      ensures Valid()
      ensures tokens == Keep(old(tokens), set t | t in old(tokens) && t.userId == userId)
      ensures count == |set t | t in old(tokens) && t.userId == userId|
      ensures forall t :: t in tokens ==> t.userId != userId
    {
      var removed := set t | t in tokens && t.userId == userId;
      count := DeleteWhere(removed);
    }

    /** cleanupExpiredTokens(): deletes the rows whose expiry lies strictly in the past. */
    method CleanupExpiredTokens(now: int) returns (count: nat)
      requires Valid()
      modifies this
      ensures Valid()
      ensures tokens == Keep(old(tokens), set t | t in old(tokens) && t.expiresAt < now)
      ensures count == |set t | t in old(tokens) && t.expiresAt < now|
      ensures forall t :: t in old(tokens) && IsActiveAt(t, now) ==> t in tokens
    {
      var removed := set t | t in tokens && t.expiresAt < now;
      count := DeleteWhere(removed);
    }

    /** A DELETE query: the rows in `removed` go, and the affected-row count comes back. */
    method DeleteWhere(removed: set<RefreshToken>) returns (count: nat)
      requires Valid()
      requires forall t :: t in removed ==> t in tokens
      modifies this
      ensures Valid()
      ensures tokens == Keep(old(tokens), removed)
      ensures count == |removed|
    {
      UniqueTokensAreDistinctRows(tokens);
      KeepCount(tokens, removed);
      KeepKeepsValid(tokens, removed);
      count := |tokens| - |Keep(tokens, removed)|;
      tokens := Keep(tokens, removed);
    }
  }

  /** Appending a row adds it to the user's active rows exactly when it is theirs and active. */
  lemma {:induction false} ActiveOfAppend(tokens: seq<RefreshToken>, created: RefreshToken, userId: int, now: int)
    ensures CountActiveByUser(tokens + [created], userId, now)
         == CountActiveByUser(tokens, userId, now) + (if created.userId == userId && IsActiveAt(created, now) then 1 else 0)
  {
    if |tokens| > 0 {
      assert (tokens + [created])[1..] == tokens[1..] + [created];
      ActiveOfAppend(tokens[1..], created, userId, now);
    }
  }

  /** A token that no row carries stays absent when rows are removed and a row with another token is appended. */
  lemma RotatedTokenIsGone(tokens: seq<RefreshToken>, removed: set<RefreshToken>, created: RefreshToken,
                           token: string, now: int)
    requires FindValidToken(tokens, token, now).None?
    requires created.token != token
    ensures FindValidToken(Keep(tokens, removed) + [created], token, now).None?
  {
  }
}
