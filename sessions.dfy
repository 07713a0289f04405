/**
 * In-memory session manager (src/session.rs): sessions keyed by a random hex
 * token, each valid for one hour from its creation, looked up through an
 * expiry filter and swept by a two-phase cleanup.
 *
 * The system clock becomes an explicit `now` parameter and the random
 * generator an explicit byte-sequence parameter.
 */
module Sessions {
  import opened Wrappers

  /** An instant of wall-clock time, in nanoseconds relative to the UNIX epoch. */
  type Time = int

  /** A span of time, in nanoseconds. */
  type Duration = nat

  const NanosPerSecond: nat := 1_000_000_000

  /** Every session lives for one hour. */
  const SessionTtl: Duration := 60 * 60 * NanosPerSecond

  newtype byte = x: int | 0 <= x < 256

  datatype Session = Session(session_id: string, user: string, create_time: Time, exp_time: Duration)

  /**
   * `SystemTime::elapsed().unwrap_or_default()`: the time since `since`, where
   * an instant still in the future fails and defaults to zero.
   */
  function Elapsed(since: Time, now: Time): Duration {
    if now >= since then now - since else 0
  }

  /**
   * `Session::is_expired`: strictly more time than the session's lifetime has
   * elapsed. A session exactly at its lifetime is still live, and one created
   * in the future is never expired.
   */
  function IsExpired(s: Session, now: Time): (expired: bool)
    ensures expired <==> now - s.create_time > s.exp_time
    ensures now <= s.create_time + s.exp_time ==> !expired
  {
    Elapsed(s.create_time, now) > s.exp_time
  }

  /** Once a session has expired it stays expired as the clock moves on. */
  lemma ExpiryIsPermanent(s: Session, earlier: Time, later: Time)
    requires earlier <= later
    requires IsExpired(s, earlier)
    ensures IsExpired(s, later)
  {
  }

  /** A session created at `created` with the one-hour lifetime is live up to and including `created + SessionTtl`, and expired after it. */
  lemma FreshSessionLifetime(id: string, user: string, created: Time, now: Time)
    ensures !IsExpired(Session(id, user, created, SessionTtl), now) <==> now <= created + 3_600_000_000_000
  {
  }

  // ---------------------------------------------------------------------------
  // Hex encoding of the random session token (lower-case, two digits per byte).

  predicate IsLowerHex(c: char) {
    '0' <= c <= '9' || 'a' <= c <= 'f'
  }

  /** The lower-case digit of a nibble. */
  function HexDigit(n: int): (c: char)
    requires 0 <= n < 16
    ensures IsLowerHex(c)
  {
    if n < 10 then ('0' as int + n) as char else ('a' as int + n - 10) as char
  }

  /** The nibble a lower-case digit stands for. */
  function HexValue(c: char): (n: int)
    requires IsLowerHex(c)
    ensures 0 <= n < 16
    ensures HexDigit(n) == c
  {
    if c <= '9' then c as int - '0' as int else c as int - 'a' as int + 10
  }

  lemma NibbleRoundTrip(n: int)
    requires 0 <= n < 16
    ensures HexValue(HexDigit(n)) == n
  {
  }

  /** `hex::encode`: each byte becomes its high nibble's digit followed by its low nibble's digit. */
  function HexEncode(bytes: seq<byte>): (s: string)
    ensures |s| == 2 * |bytes|
    ensures forall i :: 0 <= i < |s| ==> IsLowerHex(s[i])
  {
    if bytes == [] then []
    else [HexDigit(bytes[0] as int / 16), HexDigit(bytes[0] as int % 16)] + HexEncode(bytes[1..])
  }

  predicate IsHexString(s: string) {
    |s| % 2 == 0 && forall i :: 0 <= i < |s| ==> IsLowerHex(s[i])
  }

  /** The byte a high and a low nibble make up. */
  function JoinNibbles(hi: int, lo: int): (b: byte)
    requires 0 <= hi < 16 && 0 <= lo < 16
    ensures b as int / 16 == hi && b as int % 16 == lo
  {
    (hi * 16 + lo) as byte
  }

  /** The inverse of HexEncode on even-length lower-case hex strings. */
  function HexDecode(s: string): (bytes: seq<byte>)
    requires IsHexString(s)
    ensures |bytes| == |s| / 2
  {
    if s == [] then []
    else [JoinNibbles(HexValue(s[0]), HexValue(s[1]))] + HexDecode(s[2..])
  }

  /** Decoding an encoded token gives back the random bytes. */
  lemma {:induction false} HexDecodeEncode(bytes: seq<byte>)
    ensures IsHexString(HexEncode(bytes))
    ensures HexDecode(HexEncode(bytes)) == bytes
  {
    if bytes != [] {
      var s := HexEncode(bytes);
      var hi, lo := bytes[0] as int / 16, bytes[0] as int % 16;
      HexDecodeEncode(bytes[1..]);
      assert s[2..] == HexEncode(bytes[1..]);
      NibbleRoundTrip(hi);
      NibbleRoundTrip(lo);
      assert JoinNibbles(HexValue(s[0]), HexValue(s[1])) == bytes[0];
    }
  }

  /** Encoding a decoded hex string gives back the string: every such string is some token. */
  lemma {:induction false} HexEncodeDecode(s: string)
    requires IsHexString(s)
    ensures HexEncode(HexDecode(s)) == s
  {
    if s != [] {
      var d := HexDecode(s);
      assert IsHexString(s[2..]);
      HexEncodeDecode(s[2..]);
      assert d[1..] == HexDecode(s[2..]);
      assert HexEncode(d)[..2] == s[..2];
    }
  }

  /** Distinct random byte strings give distinct tokens. */
  lemma HexEncodeInjective(a: seq<byte>, b: seq<byte>)
    requires HexEncode(a) == HexEncode(b)
    ensures a == b
  {
    HexDecodeEncode(a);
    HexDecodeEncode(b);
  }

  // ---------------------------------------------------------------------------
  // The session store.

  /** The sessions of `m` that are live at `now`: what the expiry sweep keeps. */
  ghost function LiveAt(m: map<string, Session>, now: Time): map<string, Session> {
    map id | id in m && !IsExpired(m[id], now) :: m[id]
  }

  /** Sweeping twice at the same instant removes nothing more. */
  lemma LiveAtIdempotent(m: map<string, Session>, now: Time)
    ensures LiveAt(LiveAt(m, now), now) == LiveAt(m, now)
  {
  }

  /** A later sweep keeps no session an earlier sweep would have removed. */
  lemma LiveAtShrinks(m: map<string, Session>, earlier: Time, later: Time)
    requires earlier <= later
    ensures LiveAt(m, later).Keys <= LiveAt(m, earlier).Keys
  {
  }

  class SessionManager {
    /** Sessions by token. */
    var sessions: map<string, Session>

    /** Every session is filed under its own token. */
    ghost predicate Valid()
      reads this
    {
      forall id :: id in sessions ==> sessions[id].session_id == id
    }

    /** `SessionManager::new`: an empty store. */
    constructor ()
      ensures Valid()
      ensures sessions == map[]
    {
      sessions := map[];
    }

    /**
     * `create_session`: hex-encodes 32 random bytes into a token and files a
     * new one-hour session for `user` under it. Nothing else in the store
     * changes; earlier sessions of the same user stay where they are.
     */
    method CreateSession(user: string, random: seq<byte>, now: Time) returns (session_id: string)
      requires Valid()
      requires |random| == 32
      requires now >= 0
      modifies this
      ensures Valid()
      ensures session_id == HexEncode(random)
      ensures |session_id| == 64 && forall i :: 0 <= i < |session_id| ==> IsLowerHex(session_id[i])
      ensures sessions == old(sessions)[session_id := Session(session_id, user, now, SessionTtl)]
      ensures forall id :: id in old(sessions) && id != session_id ==> id in sessions && sessions[id] == old(sessions)[id]
      ensures GetSession(session_id, now) == Some(Session(session_id, user, now, SessionTtl))
    {
      session_id := HexEncode(random);
      var session := Session(session_id, user, now, SessionTtl);
      sessions := sessions[session_id := session];
    }

    /**
     * `get_session`: the session filed under `session_id`, unless it has
     * expired at `now`.
     */
    function GetSession(session_id: string, now: Time): (r: Option<Session>)
      reads this
      ensures r.Some? <==> session_id in sessions && !IsExpired(sessions[session_id], now)
      ensures r.Some? ==> r.value == sessions[session_id] && now - r.value.create_time <= r.value.exp_time
      ensures Valid() && r.Some? ==> r.value.session_id == session_id
    {
      if session_id in sessions && !IsExpired(sessions[session_id], now) then Some(sessions[session_id]) else None
    }

    /**
     * `clean_up_expired`: first collects the tokens of every session expired
     * at `now`, then removes them one by one. Exactly the live sessions stay,
     * unchanged, and no lookup at `now` can tell the difference.
     */
    method CleanUpExpired(now: Time)
      requires Valid()
      modifies this
      ensures Valid()
      ensures sessions == LiveAt(old(sessions), now)
      ensures forall id :: id in sessions ==> GetSession(id, now).Some?
      ensures forall id :: GetSession(id, now) == old(GetSession(id, now))
    {
      // Phase 1: collect the expired tokens.
      var expiredIds: seq<string> := [];
      var unvisited := sessions.Keys;
      while unvisited != {}
        invariant unvisited <= sessions.Keys
        invariant forall id :: id in expiredIds ==> id in sessions && IsExpired(sessions[id], now)
        invariant forall id :: id in sessions && id !in unvisited && IsExpired(sessions[id], now) ==> id in expiredIds
        decreases unvisited
      {
        var id :| id in unvisited;
        if IsExpired(sessions[id], now) {
          expiredIds := expiredIds + [id];
        }
        unvisited := unvisited - {id};
      }

      // Phase 2: remove them.
      ghost var before := sessions;
      for i := 0 to |expiredIds|
        invariant forall id :: id in sessions <==> id in before && id !in expiredIds[..i]
        invariant forall id :: id in sessions ==> sessions[id] == before[id]
      {
        sessions := sessions - {expiredIds[i]};
      }
      assert expiredIds[..|expiredIds|] == expiredIds;
      assert sessions.Keys == LiveAt(before, now).Keys;
    }
  }
}
