/**
 * The layout of the database file: a magic number, the next user id, the
 * users, the episode history and the sessions, each list preceded by its
 * `uint32_t` count.  `EncodeImage` is what the serialiser writes and
 * `DecodeFile` is what the deserialiser reads back; `ImageRoundTrip` states
 * that one undoes the other.
 */
module DbFormat {
  import opened Common
  import opened Codec

  /** "OMNI" read as a little-endian `uint32_t`. */
  const MAGIC: uint32 := 0x4F4D4E49

  datatype User = User(id: uint32, email: Bytes, username: Bytes, passwordHash: Bytes, registrationTime: uint64)

  datatype EpisodeMetadata = EpisodeMetadata(episodeNumber: uint32, startTimestamp: uint64, endTimestamp: uint64)

  /** One `(session id, user id)` pair of the session table. */
  datatype SessionRecord = SessionRecord(sid: Bytes, uid: uint32)

  /** Everything the file holds, in file order. */
  datatype Image = Image(nextUserId: uint32, users: seq<User>, episodes: seq<EpisodeMetadata>, sessions: seq<SessionRecord>)

  /** A count written as `uint32_t`: the size of the list modulo 2^32. */
  function Count(n: nat): (b: Bytes)
    ensures |b| == 4
  {
    U32(n % TWO_TO_32)
  }

  function EncodeUser(u: User): Bytes
  {
    U32(u.id) + Str(u.email) + Str(u.username) + Str(u.passwordHash) + U64(u.registrationTime)
  }

  function EncodeEpisode(e: EpisodeMetadata): (b: Bytes)
    ensures |b| == 20
  {
    U32(e.episodeNumber) + U64(e.startTimestamp) + U64(e.endTimestamp)
  }

  function EncodeSession(s: SessionRecord): Bytes
  {
    Str(s.sid) + U32(s.uid)
  }

  /** The records of a list one after the other, each encoded by `enc`. */
  function EncodeList<T>(enc: T -> Bytes, xs: seq<T>): Bytes
  {
    if xs == [] then [] else enc(xs[0]) + EncodeList(enc, xs[1..])
  }

  /** The whole file. */
  function EncodeImage(img: Image): Bytes
  {
    U32(MAGIC) + U32(img.nextUserId)
    + Count(|img.users|) + EncodeList(EncodeUser, img.users)
    + Count(|img.episodes|) + EncodeList(EncodeEpisode, img.episodes)
    + Count(|img.sessions|) + EncodeList(EncodeSession, img.sessions)
  }

  /** Reads one user record. */
  function ReadUser(s: Bytes): (r: Option<(User, Bytes)>)
    ensures r.Some? ==> |r.value.1| < |s|
  {
    var id := ReadU32(s);
    if id.None? then None else
    var email := ReadStr(id.value.1);
    if email.None? then None else
    var name := ReadStr(email.value.1);
    if name.None? then None else
    var hash := ReadStr(name.value.1);
    if hash.None? then None else
    var time := ReadU64(hash.value.1);
    if time.None? then None else
    Some((User(id.value.0, email.value.0, name.value.0, hash.value.0, time.value.0), time.value.1))
  }

  /** Reads one episode record. */
  function ReadEpisode(s: Bytes): (r: Option<(EpisodeMetadata, Bytes)>)
    ensures r.Some? ==> |r.value.1| < |s|
  {
    var n := ReadU32(s);
    if n.None? then None else
    var start := ReadU64(n.value.1);
    if start.None? then None else
    var end := ReadU64(start.value.1);
    if end.None? then None else
    Some((EpisodeMetadata(n.value.0, start.value.0, end.value.0), end.value.1))
  }

  /** Reads one session record. */
  function ReadSession(s: Bytes): (r: Option<(SessionRecord, Bytes)>)
    ensures r.Some? ==> |r.value.1| < |s|
  {
    var sid := ReadStr(s);
    if sid.None? then None else
    var uid := ReadU32(sid.value.1);
    if uid.None? then None else
    Some((SessionRecord(sid.value.0, uid.value.0), uid.value.1))
  }

  /** `acc` put in front of a parse result; a failed parse stays failed. */
  function Prefixed<T>(acc: seq<T>, r: Option<(seq<T>, Bytes)>): Option<(seq<T>, Bytes)>
  {
    if r.None? then None else Some((acc + r.value.0, r.value.1))
  }

  /** Reads `n` records, each with `read`. */
  function ParseList<T>(read: Bytes -> Option<(T, Bytes)>, s: Bytes, n: nat): (r: Option<(seq<T>, Bytes)>)
    ensures r.Some? ==> |r.value.0| == n
    decreases n
  {
    if n == 0 then Some(([], s)) else
    var x := read(s);
    if x.None? then None else Prefixed([x.value.0], ParseList(read, x.value.1, n - 1))
  }

  /** The magic number is missing or wrong: the deserialiser throws. */
  predicate BadMagic(s: Bytes)
  {
    var m := ReadU32(s);
    m.None? || m.value.0 != MAGIC
  }

  /**
   * The sessions section: a file that ends right before it (one written
   * before sessions were saved) holds no sessions, because the count keeps
   * its initial value 0 when the read fails.
   */
  function ParseSessionSection(s: Bytes): (r: Option<seq<SessionRecord>>)
  {
    if s == [] then Some([]) else
    var n := ReadU32(s);
    if n.None? then None else
    var ss := ParseList(ReadSession, n.value.1, n.value.0);
    if ss.None? then None else Some(ss.value.0)
  }

  /** What a well-formed file holds; `None` for a bad magic number or a file cut short. */
  function DecodeFile(s: Bytes): (r: Option<Image>)
    ensures BadMagic(s) ==> r.None?
  {
    if BadMagic(s) then None else DecodeBody(s[4..])
  }

  /** The file after its magic number. */
  function DecodeBody(s: Bytes): Option<Image>
  {
    var next := ReadU32(s);
    if next.None? then None else DecodeUsers(next.value.1, next.value.0)
  }

  /** The file from the user count on. */
  function DecodeUsers(s: Bytes, next: uint32): Option<Image>
  {
    var n := ReadU32(s);
    if n.None? then None else AfterUsers(ParseList(ReadUser, n.value.1, n.value.0), next)
  }

  function AfterUsers(r: Option<(seq<User>, Bytes)>, next: uint32): Option<Image>
  {
    if r.None? then None else DecodeEpisodes(r.value.1, next, r.value.0)
  }

  /** The file from the episode count on. */
  function DecodeEpisodes(s: Bytes, next: uint32, users: seq<User>): Option<Image>
  {
    var n := ReadU32(s);
    if n.None? then None else AfterEpisodes(ParseList(ReadEpisode, n.value.1, n.value.0), next, users)
  }

  function AfterEpisodes(r: Option<(seq<EpisodeMetadata>, Bytes)>, next: uint32, users: seq<User>): Option<Image>
  {
    if r.None? then None else
    var ss := ParseSessionSection(r.value.1);
    if ss.None? then None else Some(Image(next, users, r.value.0, ss.value))
  }

  /** Every string and list fits its `uint32_t` length field. */
  predicate Encodable(img: Image)
  {
    |img.users| < TWO_TO_32 && |img.episodes| < TWO_TO_32 && |img.sessions| < TWO_TO_32
    && (forall u :: u in img.users ==> UserFits(u))
    && (forall s :: s in img.sessions ==> |s.sid| < TWO_TO_32)
  }

  predicate UserFits(u: User)
  {
    |u.email| < TWO_TO_32 && |u.username| < TWO_TO_32 && |u.passwordHash| < TWO_TO_32
  }

  lemma {:induction false} UserRoundTrip(u: User, rest: Bytes)
    requires UserFits(u)
    ensures ReadUser(EncodeUser(u) + rest) == Some((u, rest))
  {
    var t := U64(u.registrationTime) + rest;
    var h := Str(u.passwordHash) + t;
    var n := Str(u.username) + h;
    var e := Str(u.email) + n;
    UserLayout(u, rest);
    U32RoundTrip(u.id, e);
    StrRoundTrip(u.email, n);
    StrRoundTrip(u.username, h);
    StrRoundTrip(u.passwordHash, t);
    U64RoundTrip(u.registrationTime, rest);
    ReadUserFields(U32(u.id) + e, u, e, n, h, t, rest);
  }

  lemma {:induction false} UserLayout(u: User, rest: Bytes)
    ensures EncodeUser(u) + rest
         == U32(u.id) + (Str(u.email) + (Str(u.username) + (Str(u.passwordHash) + (U64(u.registrationTime) + rest))))
  {
    Assoc6(U32(u.id), Str(u.email), Str(u.username), Str(u.passwordHash), U64(u.registrationTime), rest);
  }

  lemma {:induction false} Assoc6(a: Bytes, b: Bytes, c: Bytes, d: Bytes, e: Bytes, f: Bytes)
    ensures a + b + c + d + e + f == a + (b + (c + (d + (e + f))))
  {
    assert a + b + c == a + (b + c);
    assert d + e + f == d + (e + f);
    assert a + b + c + d + e + f == (a + b + c) + (d + e + f);
  }

  lemma {:induction false} ReadUserFields(s: Bytes, u: User, s1: Bytes, s2: Bytes, s3: Bytes, s4: Bytes, s5: Bytes)
    requires ReadU32(s) == Some((u.id, s1))
    requires ReadStr(s1) == Some((u.email, s2))
    requires ReadStr(s2) == Some((u.username, s3))
    requires ReadStr(s3) == Some((u.passwordHash, s4))
    requires ReadU64(s4) == Some((u.registrationTime, s5))
    ensures ReadUser(s) == Some((u, s5))
  {
  }

  lemma {:induction false} EpisodeRoundTrip(e: EpisodeMetadata, rest: Bytes)
    ensures ReadEpisode(EncodeEpisode(e) + rest) == Some((e, rest))
  {
    var t := U64(e.endTimestamp) + rest;
    var st := U64(e.startTimestamp) + t;
    EpisodeLayout(e, rest);
    U32RoundTrip(e.episodeNumber, st);
    U64RoundTrip(e.startTimestamp, t);
    U64RoundTrip(e.endTimestamp, rest);
    ReadEpisodeFields(U32(e.episodeNumber) + st, e, st, t, rest);
  }

  lemma {:induction false} EpisodeLayout(e: EpisodeMetadata, rest: Bytes)
    ensures EncodeEpisode(e) + rest == U32(e.episodeNumber) + (U64(e.startTimestamp) + (U64(e.endTimestamp) + rest))
  {
  }

  lemma {:induction false} ReadEpisodeFields(s: Bytes, e: EpisodeMetadata, s1: Bytes, s2: Bytes, s3: Bytes)
    requires ReadU32(s) == Some((e.episodeNumber, s1))
    requires ReadU64(s1) == Some((e.startTimestamp, s2))
    requires ReadU64(s2) == Some((e.endTimestamp, s3))
    ensures ReadEpisode(s) == Some((e, s3))
  {
  }

  lemma {:induction false} SessionRoundTrip(s: SessionRecord, rest: Bytes)
    requires |s.sid| < TWO_TO_32
    ensures ReadSession(EncodeSession(s) + rest) == Some((s, rest))
  {
    assert EncodeSession(s) + rest == Str(s.sid) + (U32(s.uid) + rest);
    StrRoundTrip(s.sid, U32(s.uid) + rest);
    U32RoundTrip(s.uid, rest);
  }

  /** Reading back a list gives the list, provided each record reads back. */
  lemma {:induction false} ListRoundTrip<T>(read: Bytes -> Option<(T, Bytes)>, enc: T -> Bytes, xs: seq<T>, rest: Bytes)
    requires forall x, r :: x in xs ==> read(enc(x) + r) == Some((x, r))
    ensures ParseList(read, EncodeList(enc, xs) + rest, |xs|) == Some((xs, rest))
    decreases xs
  {
    if xs != [] {
      var tail := EncodeList(enc, xs[1..]) + rest;
      assert EncodeList(enc, xs) + rest == enc(xs[0]) + tail;
      assert xs[0] in xs;
      assert read(enc(xs[0]) + tail) == Some((xs[0], tail));
      assert forall x :: x in xs[1..] ==> x in xs;
      ListRoundTrip(read, enc, xs[1..], rest);
      assert ParseList(read, tail, |xs| - 1) == Some((xs[1..], rest));
      assert ParseList(read, enc(xs[0]) + tail, |xs|) == Prefixed([xs[0]], Some((xs[1..], rest)));
      assert [xs[0]] + xs[1..] == xs;
    } else {
      assert EncodeList(enc, xs) + rest == rest;
    }
  }

  lemma {:induction false} UsersRoundTrip(us: seq<User>, rest: Bytes)
    requires forall u :: u in us ==> UserFits(u)
    ensures ParseList(ReadUser, EncodeList(EncodeUser, us) + rest, |us|) == Some((us, rest))
  {
    forall u, r | u in us ensures ReadUser(EncodeUser(u) + r) == Some((u, r)) {
      UserRoundTrip(u, r);
    }
    ListRoundTrip(ReadUser, EncodeUser, us, rest);
  }

  lemma {:induction false} EpisodesRoundTrip(es: seq<EpisodeMetadata>, rest: Bytes)
    ensures ParseList(ReadEpisode, EncodeList(EncodeEpisode, es) + rest, |es|) == Some((es, rest))
  {
    forall e, r | e in es ensures ReadEpisode(EncodeEpisode(e) + r) == Some((e, r)) {
      EpisodeRoundTrip(e, r);
    }
    ListRoundTrip(ReadEpisode, EncodeEpisode, es, rest);
  }

  lemma {:induction false} SessionsRoundTrip(ss: seq<SessionRecord>, rest: Bytes)
    requires forall s :: s in ss ==> |s.sid| < TWO_TO_32
    ensures ParseList(ReadSession, EncodeList(EncodeSession, ss) + rest, |ss|) == Some((ss, rest))
  {
    forall s, r | s in ss ensures ReadSession(EncodeSession(s) + r) == Some((s, r)) {
      SessionRoundTrip(s, r);
    }
    ListRoundTrip(ReadSession, EncodeSession, ss, rest);
  }

  /** Reading back what the serialiser wrote gives the same image. */
  lemma {:induction false} ImageRoundTrip(img: Image)
    requires Encodable(img)
    ensures DecodeFile(EncodeImage(img)) == Some(img)
  {
    var s1 := Count(|img.episodes|) + (EncodeList(EncodeEpisode, img.episodes) + SessionSection(img.sessions));
    var u2 := EncodeList(EncodeUser, img.users) + s1;
    var u1 := Count(|img.users|) + u2;
    var n1 := U32(img.nextUserId) + u1;
    Assoc8(U32(MAGIC), U32(img.nextUserId), Count(|img.users|), EncodeList(EncodeUser, img.users),
      Count(|img.episodes|), EncodeList(EncodeEpisode, img.episodes), Count(|img.sessions|), EncodeList(EncodeSession, img.sessions));
    U32RoundTrip(MAGIC, n1);
    U32RoundTrip(img.nextUserId, u1);
    CountRoundTrip(|img.users|, u2);
    UsersRoundTrip(img.users, s1);
    var s2, s3, s4 := AfterUsersRoundTrip(img);
    DecodeFields(U32(MAGIC) + n1, img, n1, u1, u2, s1, s2, s3, s4);
  }

  lemma {:induction false} Assoc8(a: Bytes, b: Bytes, c: Bytes, d: Bytes, e: Bytes, f: Bytes, g: Bytes, h: Bytes)
    ensures a + b + c + d + e + f + g + h == a + (b + (c + (d + (e + (f + (g + h))))))
  {
    assert a + b + c + d == a + (b + (c + d));
    assert e + f + g + h == e + (f + (g + h));
    assert a + b + c + d + e + f + g + h == (a + b + c + d) + (e + f + g + h);
  }

  /** The sessions section as the serialiser writes it. */
  function SessionSection(ss: seq<SessionRecord>): Bytes
  {
    Count(|ss|) + EncodeList(EncodeSession, ss)
  }

  /** Reading back the episode and session sections. */
  lemma {:induction false} AfterUsersRoundTrip(img: Image) returns (s2: Bytes, s3: Bytes, s4: Bytes)
    requires Encodable(img)
    ensures var s1 := Count(|img.episodes|) + (EncodeList(EncodeEpisode, img.episodes) + SessionSection(img.sessions));
      && ReadU32(s1) == Some((|img.episodes|, s2))
      && ParseList(ReadEpisode, s2, |img.episodes|) == Some((img.episodes, s3))
      && s3 != [] && ReadU32(s3) == Some((|img.sessions|, s4))
      && ParseList(ReadSession, s4, |img.sessions|) == Some((img.sessions, []))
  {
    s4 := EncodeList(EncodeSession, img.sessions);
    s3 := SessionSection(img.sessions);
    s2 := EncodeList(EncodeEpisode, img.episodes) + s3;
    CountRoundTrip(|img.episodes|, s2);
    EpisodesRoundTrip(img.episodes, s3);
    CountRoundTrip(|img.sessions|, s4);
    assert s4 == s4 + [];
    SessionsRoundTrip(img.sessions, []);
  }

  lemma {:induction false} CountRoundTrip(n: nat, rest: Bytes)
    requires n < TWO_TO_32
    ensures ReadU32(Count(n) + rest) == Some((n, rest))
  {
    assert Count(n) == U32(n);
    U32RoundTrip(n, rest);
  }

  lemma {:induction false} DecodeFields(s: Bytes, img: Image, n1: Bytes, u1: Bytes, u2: Bytes, s1: Bytes, s2: Bytes, s3: Bytes, s4: Bytes)
    requires ReadU32(s) == Some((MAGIC, n1))
    requires ReadU32(n1) == Some((img.nextUserId, u1))
    requires ReadU32(u1) == Some((|img.users|, u2))
    requires ParseList(ReadUser, u2, |img.users|) == Some((img.users, s1))
    requires ReadU32(s1) == Some((|img.episodes|, s2))
    requires ParseList(ReadEpisode, s2, |img.episodes|) == Some((img.episodes, s3))
    requires s3 != [] && ReadU32(s3) == Some((|img.sessions|, s4))
    requires ParseList(ReadSession, s4, |img.sessions|) == Some((img.sessions, []))
    ensures DecodeFile(s) == Some(img)
  {
    assert ParseSessionSection(s3) == Some(img.sessions);
    assert DecodeEpisodes(s1, img.nextUserId, img.users) == Some(img);
    assert DecodeUsers(u1, img.nextUserId) == Some(img);
    assert DecodeBody(n1) == Some(img);
  }
}
