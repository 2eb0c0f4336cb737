/**
 * The user database of the server (backend/database.cpp): users kept in
 * registration order, a B-tree from user id to position, a map from email to
 * user id, login sessions, the recent episode history, and the binary file
 * they are saved to and loaded from.
 *
 * `Valid()` ties the two indexes to the user list: the B-tree holds exactly
 * one entry `(id, position)` per user, and the email map is what
 * loading the users in order builds (a later user with the same email
 * wins, as in the load loop).  The password hash (SHA-256 in the program)
 * is a parameter, and so is the current time.
 */
module Store {
  import opened Common
  import opened Codec
  import opened DbFormat
  import opened BTreeView
  import opened BTreeIndex

  /** Episodes kept by `SaveEpisode`. */
  const HISTORY_LIMIT := 10

  // ----- the indexes, as functions of the user list -----

  /** One index entry per user: its id and its position. */
  function IndexEntries(us: seq<User>): (es: seq<Entry>)
    ensures |es| == |us|
  {
    seq(|us|, i requires 0 <= i < |us| => Entry(us[i].id, i))
  }

  /** The email map that loading `us` in order builds: a later user with the same email wins. */
  function EmailIndex(us: seq<User>): map<Bytes, uint32>
  {
    if us == [] then map[] else
    var last := us[|us| - 1];
    EmailIndex(us[..|us| - 1])[last.email := last.id]
  }

  predicate Registered(us: seq<User>, email: Bytes)
  {
    exists i :: 0 <= i < |us| && us[i].email == email
  }

  predicate UniqueIds(us: seq<User>)
  {
    forall i, j :: 0 <= i < j < |us| ==> us[i].id != us[j].id
  }

  predicate UniqueEmails(us: seq<User>)
  {
    forall i, j :: 0 <= i < j < |us| ==> us[i].email != us[j].email
  }

  /** An index entry names a user and its position, and every user has one. */
  lemma {:induction false} IndexLookup(es: seq<Entry>, us: seq<User>, k: Key)
    requires multiset(es) == multiset(IndexEntries(us))
    ensures forall v :: Entry(k, v) in es <==> 0 <= v < |us| && us[v].id == k
    ensures HasKey(es, k) <==> exists i :: 0 <= i < |us| && us[i].id == k
  {
    forall v ensures Entry(k, v) in es <==> 0 <= v < |us| && us[v].id == k {
      calc {
        Entry(k, v) in es;
        Entry(k, v) in multiset(es);
        Entry(k, v) in IndexEntries(us);
      }
      if 0 <= v < |us| && us[v].id == k {
        assert IndexEntries(us)[v] == Entry(k, v);
      }
    }
    if HasKey(es, k) {
      var e :| e in es && e.key == k;
      assert Entry(k, e.value) in es;
    }
    if i :| 0 <= i < |us| && us[i].id == k {
      assert Entry(k, i) in es;
    }
  }

  lemma {:induction false} IndexEntriesSnoc(us: seq<User>, u: User)
    ensures IndexEntries(us + [u]) == IndexEntries(us) + [Entry(u.id, |us|)]
  {
  }

  /** `us[i]` is the last user registered with `em`. */
  predicate LastWith(us: seq<User>, em: Bytes, i: int)
  {
    0 <= i < |us| && us[i].email == em && forall j :: i < j < |us| ==> us[j].email != em
  }

  /** After appending `u`, both indexes describe the longer list. */
  lemma {:induction false} AppendKeepsIndexes(es: seq<Entry>, es': seq<Entry>, us: seq<User>, u: User)
    requires multiset(es) == multiset(IndexEntries(us))
    requires multiset(es') == multiset(es) + multiset{Entry(u.id, |us|)}
    ensures multiset(es') == multiset(IndexEntries(us + [u]))
    ensures EmailIndex(us + [u]) == EmailIndex(us)[u.email := u.id]
  {
    IndexEntriesSnoc(us, u);
    assert (us + [u])[..|us|] == us;
  }

  /**
   * The email map knows exactly the registered emails, and maps each to the
   * id of the LAST user registered with it.
   */
  lemma {:induction false} EmailIndexLast(us: seq<User>, em: Bytes)
    ensures em in EmailIndex(us) <==> Registered(us, em)
    ensures em in EmailIndex(us) ==> exists i :: LastWith(us, em, i) && us[i].id == EmailIndex(us)[em]
    decreases |us|
  {
    if us != [] {
      var init, last := us[..|us| - 1], us[|us| - 1];
      EmailIndexLast(init, em);
      if em == last.email {
        assert LastWith(us, em, |us| - 1);
      } else {
        if Registered(us, em) {
          var i :| 0 <= i < |us| && us[i].email == em;
          assert init[i].email == em;
        }
        if em in EmailIndex(init) {
          var i :| LastWith(init, em, i) && init[i].id == EmailIndex(init)[em];
          assert LastWith(us, em, i);
        }
      }
    }
  }

  /** With no duplicate emails, the map sends each user's email to its id. */
  lemma {:induction false} EmailIndexUnique(us: seq<User>, i: nat)
    requires UniqueEmails(us) && i < |us|
    ensures us[i].email in EmailIndex(us) && EmailIndex(us)[us[i].email] == us[i].id
  {
    EmailIndexLast(us, us[i].email);
    assert Registered(us, us[i].email);
    var k :| LastWith(us, us[i].email, k) && us[k].id == EmailIndex(us)[us[i].email];
    assert k == i;
  }

  // ----- episode history -----

  // ----- sessions -----

  /** Sessions after storing `rs` in order over `m`: a later record wins. */
  function MergeSessions(m: map<Bytes, uint32>, rs: seq<SessionRecord>): map<Bytes, uint32>
  {
    if rs == [] then m else
    var last := rs[|rs| - 1];
    MergeSessions(m, rs[..|rs| - 1])[last.sid := last.uid]
  }

  /** Merging over `m` is merging into nothing and overriding `m`. */
  lemma {:induction false} MergeOver(m: map<Bytes, uint32>, rs: seq<SessionRecord>)
    ensures MergeSessions(m, rs) == m + MergeSessions(map[], rs)
    decreases |rs|
  {
    if rs != [] {
      MergeOver(m, rs[..|rs| - 1]);
    }
  }

  lemma {:induction false} MergeSnoc(m: map<Bytes, uint32>, rs: seq<SessionRecord>, r: SessionRecord)
    ensures MergeSessions(m, rs + [r]) == MergeSessions(m, rs)[r.sid := r.uid]
  {
    assert (rs + [r])[..|rs|] == rs;
  }

  /** Every record merged in names a key of the result. */
  lemma {:induction false} SidsAreKeys(m: map<Bytes, uint32>, rs: seq<SessionRecord>)
    ensures forall r :: r in rs ==> r.sid in MergeSessions(m, rs)
    decreases |rs|
  {
    if rs != [] {
      var init := rs[..|rs| - 1];
      SidsAreKeys(m, init);
      assert rs == init + [rs[|rs| - 1]];
      forall r | r in rs ensures r.sid in MergeSessions(m, rs) {
        if r != rs[|rs| - 1] {
          assert r in init;
        }
      }
    }
  }

  /** `m` cut down to the keys in `ks`. */
  function Restrict(m: map<Bytes, uint32>, ks: set<Bytes>): map<Bytes, uint32>
  {
    map k | k in m.Keys && k in ks :: m[k]
  }

  lemma {:induction false} RestrictGrow(m: map<Bytes, uint32>, ks: set<Bytes>, k: Bytes)
    requires k in m
    ensures Restrict(m, ks)[k := m[k]] == Restrict(m, ks + {k})
  {
  }

  // ----- list encoding, one record at a time -----

  lemma {:induction false} EncodeListSnoc<T>(enc: T -> Bytes, xs: seq<T>, x: T)
    ensures EncodeList(enc, xs + [x]) == EncodeList(enc, xs) + enc(x)
    decreases |xs|
  {
    if xs == [] {
      assert EncodeList(enc, [x]) == enc(x) + EncodeList(enc, []);
    } else {
      assert (xs + [x])[1..] == xs[1..] + [x];
      EncodeListSnoc(enc, xs[1..], x);
    }
  }

  /** Appending the next record to what a writing loop has written so far. */
  lemma {:induction false} AppendRecord<T>(base: Bytes, enc: T -> Bytes, xs: seq<T>, i: nat)
    requires i < |xs|
    ensures base + EncodeList(enc, xs[..i]) + enc(xs[i]) == base + EncodeList(enc, xs[..i + 1])
  {
    assert xs[..i + 1] == xs[..i] + [xs[i]];
    EncodeListSnoc(enc, xs[..i], xs[i]);
  }

  /** Reading the next record in a reading loop. */
  lemma {:induction false} ParseStep<T>(read: Bytes -> Option<(T, Bytes)>, s: Bytes, n: nat, x: T, rest: Bytes)
    requires n > 0 && read(s) == Some((x, rest))
    ensures ParseList(read, s, n) == Prefixed([x], ParseList(read, rest, n - 1))
  {
  }

  lemma {:induction false} PrefixedNil<T>(r: Option<(seq<T>, Bytes)>)
    ensures Prefixed([], r) == r
  {
    if r.Some? {
      assert [] + r.value.0 == r.value.0;
    }
  }

  lemma {:induction false} PrefixedTwice<T>(a: seq<T>, b: seq<T>, r: Option<(seq<T>, Bytes)>)
    ensures Prefixed(a, Prefixed(b, r)) == Prefixed(a + b, r)
  {
    if r.Some? {
      assert a + (b + r.value.0) == a + b + r.value.0;
    }
  }

  /** The bytes of an ASCII string literal. */
  function Ascii(s: string): (b: Bytes)
    ensures |b| == |s|
  {
    seq(|s|, i requires 0 <= i < |s| => (s[i] as int) % 0x100)
  }

  /**
   * What registration alone guarantees: ids between 1 and `next`, no id and
   * no email twice.  A loaded file need not satisfy it.
   */
  predicate IssuedBelow(us: seq<User>, next: int)
  {
    (forall i :: 0 <= i < |us| ==> 1 <= us[i].id < next)
    && UniqueIds(us) && UniqueEmails(us)
  }

  /** Registering a new email under the next id keeps the ids issued, short of wrap-around. */
  lemma {:induction false} RegisterKeepsIssued(us: seq<User>, next: int, u: User)
    requires IssuedBelow(us, next) && !Registered(us, u.email) && u.id == next >= 1
    ensures IssuedBelow(us + [u], next + 1)
  {
    var us' := us + [u];
    forall i, j | 0 <= i < j < |us'| ensures us'[i].email != us'[j].email && us'[i].id != us'[j].id {
      if j == |us| {
        assert us[i].email != u.email;
        assert us[i].id < next;
      }
    }
  }

  /** The accounts `initialize` registers, all with the password "itu123". */
  const PASSWORD: Bytes := Ascii("itu123")
  const EMAIL_1: Bytes := Ascii("bscs24045@itu.edu.pk")
  const EMAIL_2: Bytes := Ascii("bscs24009@itu.edu.pk")
  const EMAIL_3: Bytes := Ascii("bscs24017@itu.edu.pk")
  const NAME_1: Bytes := Ascii("israr")
  const NAME_2: Bytes := Ascii("abdullah")
  const NAME_3: Bytes := Ascii("ali")

  /** The users `initialize` creates, in order. */
  function DefaultUsers(hash: Bytes -> Bytes, now: uint64): (us: seq<User>)
    ensures |us| == 3
  {
    [User(1, EMAIL_1, NAME_1, hash(PASSWORD), now),
     User(2, EMAIL_2, NAME_2, hash(PASSWORD), now),
     User(3, EMAIL_3, NAME_3, hash(PASSWORD), now)]
  }

  /** The default emails differ (in their eighth character). */
  lemma DefaultEmailsDistinct()
    ensures EMAIL_1 != EMAIL_2 && EMAIL_1 != EMAIL_3 && EMAIL_2 != EMAIL_3
  {
    assert EMAIL_1[7] == 52 && EMAIL_2[7] == 48 && EMAIL_3[7] == 49;
  }

  /** The database: the user list and its two indexes, sessions and episodes. */
  class Database {
    /** The password hash (SHA-256 in the program). */
    const hash: Bytes -> Bytes
    var nextUserId: uint32
    var userIdIndex: BTree
    var emailToUserId: map<Bytes, uint32>
    var sessions: map<Bytes, uint32>
    var users: seq<User>
    var episodes: seq<EpisodeMetadata>

    ghost predicate Valid()
      reads this, userIdIndex
    {
      userIdIndex.Valid()
      && multiset(userIdIndex.Contents()) == multiset(IndexEntries(users))
      && emailToUserId == EmailIndex(users)
    }

    /** Ids issued by registration only (see `IssuedBelow`). */
    predicate Issued()
      reads this
    {
      IssuedBelow(users, nextUserId)
    }

    constructor (hash: Bytes -> Bytes)
      ensures Valid() && Issued() && this.hash == hash
      ensures nextUserId == 1 && users == [] && episodes == [] && sessions == map[]
    {
      this.hash := hash;
      nextUserId := 1;
      userIdIndex := new BTree();
      emailToUserId := map[];
      sessions := map[];
      users := [];
      episodes := [];
    }

    /**
     * Registers a user under the next id, unless the email is taken: then
     * nothing changes and the answer is 0.
     */
    method RegisterUser(email: Bytes, username: Bytes, password: Bytes, now: uint64) returns (id: uint32)
      requires Valid()
      modifies this, userIdIndex
      ensures Valid() && userIdIndex == old(userIdIndex)
      ensures episodes == old(episodes) && sessions == old(sessions)
      ensures Registered(old(users), email) ==>
        id == 0 && unchanged(this) && unchanged(userIdIndex)
      ensures !Registered(old(users), email) ==>
        id == old(nextUserId) && nextUserId == Increment(old(nextUserId))
        && users == old(users) + [User(id, email, username, hash(password), now)]
      ensures old(Issued()) && 1 <= old(nextUserId) < TWO_TO_32 - 1 ==> Issued()
    {
      EmailIndexLast(users, email);
      if email in emailToUserId {
        return 0;
      }
      id := nextUserId;
      nextUserId := Increment(nextUserId);
      var user := User(id, email, username, hash(password), now);
      AppendUser(user);
      if old(Issued()) && 1 <= old(nextUserId) < TWO_TO_32 - 1 {
        RegisterKeepsIssued(old(users), old(nextUserId), user);
      }
    }

    /** Stores `u` at the end of the user list and enters it in both indexes. */
    method AppendUser(u: User)
      requires Valid()
      modifies this, userIdIndex
      ensures Valid() && userIdIndex == old(userIdIndex)
      ensures users == old(users) + [u]
      ensures nextUserId == old(nextUserId) && episodes == old(episodes) && sessions == old(sessions)
    {
      userIdIndex.Insert(u.id, |users|);
      AppendKeepsIndexes(old(userIdIndex.Contents()), userIdIndex.Contents(), users, u);
      users := users + [u];
      emailToUserId := emailToUserId[u.email := u.id];
    }

    /**
     * The id of the user registered with `email` when the password hashes
     * to the stored hash; 0 otherwise.
     */
    method AuthenticateUser(email: Bytes, password: Bytes) returns (r: uint32)
      requires Valid()
      ensures !Registered(users, email) ==> r == 0
      ensures r != 0 ==>
        && email in emailToUserId && emailToUserId[email] == r
        && exists i :: 0 <= i < |users| && users[i].id == r && users[i].passwordHash == hash(password)
      ensures UniqueIds(users) && UniqueEmails(users) ==>
        forall i :: 0 <= i < |users| && users[i].email == email ==>
          r == (if users[i].passwordHash == hash(password) then users[i].id else 0)
    {
      EmailIndexLast(users, email);
      r := 0;
      if email in emailToUserId {
        var userId := emailToUserId[email];
        var user := GetUserById(userId);
        if user.Some? && hash(password) == user.value.passwordHash {
          r := userId;
        }
        if UniqueIds(users) && UniqueEmails(users) {
          forall i | 0 <= i < |users| && users[i].email == email
            ensures r == if users[i].passwordHash == hash(password) then users[i].id else 0
          {
            EmailIndexUnique(users, i);
          }
        }
      }
    }

    /** The user with id `id`, looked up in the B-tree. */
    method GetUserById(id: uint32) returns (r: Option<User>)
      requires Valid()
      ensures r.Some? ==> r.value in users && r.value.id == id
      ensures r.None? <==> forall i :: 0 <= i < |users| ==> users[i].id != id
      ensures UniqueIds(users) ==> forall i :: 0 <= i < |users| && users[i].id == id ==> r == Some(users[i])
    {
      var userIndex := userIdIndex.Search(id);
      IndexLookup(userIdIndex.Contents(), users, id);
      if 0 <= userIndex < |users| {
        r := Some(users[userIndex]);
      } else {
        r := None;
      }
    }

    /** The user registered with `email`, through its id. */
    method GetUserByEmail(email: Bytes) returns (r: Option<User>)
      requires Valid()
      ensures r.Some? <==> Registered(users, email)
      ensures r.Some? ==> email in emailToUserId && r.value in users && r.value.id == emailToUserId[email]
      ensures UniqueIds(users) && UniqueEmails(users) ==>
        forall i :: 0 <= i < |users| && users[i].email == email ==> r == Some(users[i])
    {
      EmailIndexLast(users, email);
      if email in emailToUserId {
        r := GetUserById(emailToUserId[email]);
        if UniqueIds(users) && UniqueEmails(users) {
          forall i | 0 <= i < |users| && users[i].email == email ensures r == Some(users[i]) {
            EmailIndexUnique(users, i);
          }
        }
      } else {
        r := None;
      }
    }

    /** The user a session belongs to; 0 for an unknown session. */
    function GetUserIdFromSession(sid: Bytes): (r: uint32)
      reads this
      ensures sid !in sessions ==> r == 0
      ensures sid in sessions ==> r == sessions[sid]
    {
      if sid in sessions then sessions[sid] else 0
    }

    method CreateSession(sid: Bytes, uid: uint32)
      modifies this
      ensures sessions == old(sessions)[sid := uid]
      ensures GetUserIdFromSession(sid) == uid
      ensures forall s :: s != sid ==> GetUserIdFromSession(s) == old(GetUserIdFromSession(s))
      ensures users == old(users) && emailToUserId == old(emailToUserId) && userIdIndex == old(userIdIndex)
      ensures nextUserId == old(nextUserId) && episodes == old(episodes)
    {
      sessions := sessions[sid := uid];
    }

    method RemoveSession(sid: Bytes)
      modifies this
      ensures sessions == old(sessions) - {sid}
      ensures GetUserIdFromSession(sid) == 0
      ensures forall s :: s != sid ==> GetUserIdFromSession(s) == old(GetUserIdFromSession(s))
      ensures users == old(users) && emailToUserId == old(emailToUserId) && userIdIndex == old(userIdIndex)
      ensures nextUserId == old(nextUserId) && episodes == old(episodes)
    {
      sessions := sessions - {sid};
    }

    /** Appends an episode to the history, dropping the oldest beyond ten. */
    method SaveEpisode(episodeNumber: uint32, startTime: uint64, endTime: uint64)
      modifies this
      ensures episodes == KeepLatest(old(episodes), EpisodeMetadata(episodeNumber, startTime, endTime), HISTORY_LIMIT)
      ensures users == old(users) && emailToUserId == old(emailToUserId) && userIdIndex == old(userIdIndex)
      ensures nextUserId == old(nextUserId) && sessions == old(sessions)
    {
      episodes := episodes + [EpisodeMetadata(episodeNumber, startTime, endTime)];
      if |episodes| > HISTORY_LIMIT {
        episodes := episodes[1..];
      }
    }

    /** The latest `count` episodes, oldest first. */
    function GetEpisodeHistory(count: int32): (h: seq<EpisodeMetadata>)
      reads this
      requires count >= 0
      ensures |h| == if count < |episodes| then count as int else |episodes|
      ensures h == episodes[|episodes| - |h|..]
    {
      var start := if |episodes| - count > 0 then |episodes| - count else 0;
      episodes[start..]
    }

    /**
     * Empties the database and registers the three default accounts, which
     * get ids 1, 2 and 3.
     */
    method Initialize(now: uint64)
      modifies this
      ensures Valid() && Issued()
      ensures nextUserId == 4 && episodes == [] && sessions == map[]
      ensures users == DefaultUsers(hash, now)
    {
      nextUserId := 1;
      users := [];
      episodes := [];
      emailToUserId := map[];
      sessions := map[];
      userIdIndex := new BTree();
      assert users == DefaultUsers(hash, now)[..0];
      RegisterDefault(0, now);
      RegisterDefault(1, now);
      RegisterDefault(2, now);
      assert DefaultUsers(hash, now)[..3] == DefaultUsers(hash, now);
    }

    /** The `k`-th `registerUser` call of `initialize`. */
    method RegisterDefault(k: nat, now: uint64)
      requires k < 3 && Valid() && Issued()
      requires nextUserId == k + 1 && users == DefaultUsers(hash, now)[..k]
      modifies this, userIdIndex
      ensures Valid() && Issued() && userIdIndex == old(userIdIndex)
      ensures nextUserId == k + 2 && users == DefaultUsers(hash, now)[..k + 1]
      ensures episodes == old(episodes) && sessions == old(sessions)
    {
      var defaults := DefaultUsers(hash, now);
      DefaultEmailsDistinct();
      assert !Registered(users, defaults[k].email);
      var id := RegisterUser(defaults[k].email, defaults[k].username, PASSWORD, now);
      assert defaults[..k + 1] == defaults[..k] + [defaults[k]];
    }

    /**
     * The bytes `save` writes: header, users, episodes, then the sessions in
     * the unspecified order `order` of the hash map, each session once.
     */
    method Serialize() returns (out: Bytes, ghost order: seq<SessionRecord>)
      ensures out == EncodeImage(Image(nextUserId, users, episodes, order))
      ensures |order| == |sessions| && MergeSessions(map[], order) == sessions
      ensures forall r :: r in order ==> r.sid in sessions
      ensures Fits() ==> Encodable(Image(nextUserId, users, episodes, order))
    {
      out := U32(MAGIC);
      out := out + U32(nextUserId);
      out := out + Count(|users|);
      ghost var header := out;
      var i := 0;
      while i < |users|
        invariant i <= |users|
        invariant out == header + EncodeList(EncodeUser, users[..i])
      {
        AppendRecord(header, EncodeUser, users, i);
        out := out + EncodeUser(users[i]);
        i := i + 1;
      }
      assert users[..i] == users;
      out := out + Count(|episodes|);
      ghost var withUsers := out;
      i := 0;
      while i < |episodes|
        invariant i <= |episodes|
        invariant out == withUsers + EncodeList(EncodeEpisode, episodes[..i])
      {
        AppendRecord(withUsers, EncodeEpisode, episodes, i);
        out := out + EncodeEpisode(episodes[i]);
        i := i + 1;
      }
      assert episodes[..i] == episodes;
      out := out + Count(|sessions|);
      var records;
      records, order := WriteSessions();
      out := out + records;
      SidsAreKeys(map[], order);
    }

    /** Every count and string of the state fits its `uint32_t` length field. */
    predicate Fits()
      reads this
    {
      |users| < TWO_TO_32 && |episodes| < TWO_TO_32 && |sessions| < TWO_TO_32
      && (forall u :: u in users ==> UserFits(u))
      && (forall sid :: sid in sessions ==> |sid| < TWO_TO_32)
    }

    /**
     * `save` followed by `load` into a new database: the loaded database has
     * the saved next id, users, episodes and sessions, and consistent indexes.
     */
    method SaveThenLoad() returns (loaded: Database)
      requires Valid() && Fits()
      ensures fresh(loaded) && loaded.Valid() && loaded.hash == hash
      ensures loaded.nextUserId == nextUserId && loaded.users == users
      ensures loaded.episodes == episodes && loaded.sessions == sessions
    {
      var file, order := Serialize();
      ImageRoundTrip(Image(nextUserId, users, episodes, order));
      MergeOver(map[], order);
      loaded := LoadNew(hash, file);
    }

    /** A new database for `hash`, loaded from `file`. */
    static method LoadNew(hash: Bytes -> Bytes, file: Bytes) returns (loaded: Database)
      ensures fresh(loaded) && loaded.Valid() && loaded.hash == hash
      ensures DecodeFile(file).Some? ==>
        && loaded.nextUserId == DecodeFile(file).value.nextUserId
        && loaded.users == DecodeFile(file).value.users
        && loaded.episodes == DecodeFile(file).value.episodes
        && loaded.sessions == MergeSessions(map[], DecodeFile(file).value.sessions)
    {
      loaded := new Database(hash);
      var ok := loaded.Load(Some(file));
    }

    /** The session records `save` writes, one per session, in the map's order. */
    method WriteSessions() returns (out: Bytes, ghost order: seq<SessionRecord>)
      ensures out == EncodeList(EncodeSession, order)
      ensures |order| == |sessions| && MergeSessions(map[], order) == sessions
    {
      out := [];
      order := [];
      var pending := sessions.Keys;
      while pending != {}
        invariant pending <= sessions.Keys
        invariant out == EncodeList(EncodeSession, order)
        invariant |order| + |pending| == |sessions|
        invariant MergeSessions(map[], order) == Restrict(sessions, sessions.Keys - pending)
        decreases |pending|
      {
        var sid :| sid in pending;
        var rec := SessionRecord(sid, sessions[sid]);
        EncodeListSnoc(EncodeSession, order, rec);
        MergeSnoc(map[], order, rec);
        RestrictGrow(sessions, sessions.Keys - pending, sid);
        assert sessions.Keys - pending + {sid} == sessions.Keys - (pending - {sid});
        out := out + EncodeSession(rec);
        order := order + [rec];
        pending := pending - {sid};
      }
      assert Restrict(sessions, sessions.Keys) == sessions;
    }

    /**
     * Reads a saved file over the current state: false (and no change) when
     * the magic number is wrong; otherwise the users, their indexes, the
     * next id and the episodes are replaced by the file's, and the file's
     * sessions are added to the current ones.
     */
    method Deserialize(file: Bytes) returns (ok: bool)
      requires Valid()
      modifies this
      ensures Valid()
      ensures ok <==> !BadMagic(file)
      ensures !ok ==> unchanged(this)
      ensures DecodeFile(file).Some? ==>
        && nextUserId == DecodeFile(file).value.nextUserId
        && users == DecodeFile(file).value.users
        && episodes == DecodeFile(file).value.episodes
        && sessions == MergeSessions(old(sessions), DecodeFile(file).value.sessions)
    {
      var magic := ReadU32(file);
      if magic.None? || magic.value.0 != MAGIC {
        return false;
      }
      ok := true;
      var input := magic.value.1;
      assert DecodeFile(file) == DecodeBody(input);
      var next := ReadU32(input);
      if next.None? {
        return;
      }
      nextUserId, input := next.value.0, next.value.1;
      var userCount := ReadU32(input);
      if userCount.None? {
        return;
      }
      var afterUsers := ReadUsers(userCount.value.1, userCount.value.0);
      if afterUsers.None? {
        return;
      }
      assert DecodeFile(file) == DecodeEpisodes(afterUsers.value, nextUserId, users);
      var episodeCount := ReadU32(afterUsers.value);
      if episodeCount.None? {
        return;
      }
      var afterEpisodes := ReadEpisodes(episodeCount.value.1, episodeCount.value.0);
      if afterEpisodes.None? {
        return;
      }
      assert DecodeFile(file) == AfterEpisodes(Some((episodes, afterEpisodes.value)), nextUserId, users);
      ReadSessions(afterEpisodes.value);
    }

    /**
     * The user records of a file: the user list and both indexes are
     * emptied and rebuilt one record at a time.  `None` when the file ends
     * early; otherwise what follows the records.
     */
    method ReadUsers(input: Bytes, count: uint32) returns (rest: Option<Bytes>)
      modifies this
      ensures Valid() && fresh(userIdIndex)
      ensures nextUserId == old(nextUserId) && episodes == old(episodes) && sessions == old(sessions)
      ensures rest.Some? <==> ParseList(ReadUser, input, count).Some?
      ensures rest.Some? ==> ParseList(ReadUser, input, count) == Some((users, rest.value))
    {
      users := [];
      emailToUserId := map[];
      userIdIndex := new BTree();
      var s := input;
      var i := 0;
      PrefixedNil(ParseList(ReadUser, input, count));
      while i < count
        invariant i <= count && fresh(userIdIndex) && Valid()
        invariant nextUserId == old(nextUserId) && episodes == old(episodes) && sessions == old(sessions)
        invariant ParseList(ReadUser, input, count) == Prefixed(users, ParseList(ReadUser, s, count - i))
      {
        var user := ReadUser(s);
        if user.None? {
          return None;
        }
        ParseStep(ReadUser, s, count - i, user.value.0, user.value.1);
        PrefixedTwice(users, [user.value.0], ParseList(ReadUser, user.value.1, count - i - 1));
        AppendUser(user.value.0);
        s := user.value.1;
        i := i + 1;
      }
      assert users + [] == users;
      return Some(s);
    }

    /** The episode records of a file, replacing the history. */
    method ReadEpisodes(input: Bytes, count: uint32) returns (rest: Option<Bytes>)
      modifies this
      ensures users == old(users) && emailToUserId == old(emailToUserId) && userIdIndex == old(userIdIndex)
      ensures nextUserId == old(nextUserId) && sessions == old(sessions)
      ensures rest.Some? <==> ParseList(ReadEpisode, input, count).Some?
      ensures rest.Some? ==> ParseList(ReadEpisode, input, count) == Some((episodes, rest.value))
    {
      episodes := [];
      var s := input;
      var i := 0;
      PrefixedNil(ParseList(ReadEpisode, input, count));
      while i < count
        invariant i <= count
        invariant users == old(users) && emailToUserId == old(emailToUserId) && userIdIndex == old(userIdIndex)
        invariant nextUserId == old(nextUserId) && sessions == old(sessions)
        invariant ParseList(ReadEpisode, input, count) == Prefixed(episodes, ParseList(ReadEpisode, s, count - i))
      {
        var episode := ReadEpisode(s);
        if episode.None? {
          return None;
        }
        ParseStep(ReadEpisode, s, count - i, episode.value.0, episode.value.1);
        PrefixedTwice(episodes, [episode.value.0], ParseList(ReadEpisode, episode.value.1, count - i - 1));
        episodes := episodes + [episode.value.0];
        s := episode.value.1;
        i := i + 1;
      }
      assert episodes + [] == episodes;
      return Some(s);
    }

    /**
     * The session section of a file, stored over the current sessions.  A
     * file written before sessions were saved ends before it: the count
     * keeps its initial 0.
     */
    method ReadSessions(input: Bytes)
      modifies this
      ensures users == old(users) && emailToUserId == old(emailToUserId) && userIdIndex == old(userIdIndex)
      ensures nextUserId == old(nextUserId) && episodes == old(episodes)
      ensures ParseSessionSection(input).Some? ==> sessions == MergeSessions(old(sessions), ParseSessionSection(input).value)
    {
      var s := input;
      var sessionCount: uint32 := 0;
      if s != [] {
        var count := ReadU32(s);
        if count.None? {
          return;
        }
        sessionCount, s := count.value.0, count.value.1;
      }
      ghost var start := s;
      ghost var loaded: seq<SessionRecord> := [];
      var i := 0;
      PrefixedNil(ParseList(ReadSession, start, sessionCount));
      while i < sessionCount
        invariant i <= sessionCount
        invariant users == old(users) && emailToUserId == old(emailToUserId) && userIdIndex == old(userIdIndex)
        invariant nextUserId == old(nextUserId) && episodes == old(episodes)
        invariant sessions == MergeSessions(old(sessions), loaded)
        invariant ParseList(ReadSession, start, sessionCount) == Prefixed(loaded, ParseList(ReadSession, s, sessionCount - i))
      {
        var session := ReadSession(s);
        if session.None? {
          return;
        }
        ParseStep(ReadSession, s, sessionCount - i, session.value.0, session.value.1);
        PrefixedTwice(loaded, [session.value.0], ParseList(ReadSession, session.value.1, sessionCount - i - 1));
        MergeSnoc(old(sessions), loaded, session.value.0);
        sessions := sessions[session.value.0.sid := session.value.0.uid];
        loaded := loaded + [session.value.0];
        s := session.value.1;
        i := i + 1;
      }
      assert loaded + [] == loaded;
    }

    /** `load`: false when the file cannot be opened or its magic number is wrong. */
    method Load(file: Option<Bytes>) returns (ok: bool)
      requires Valid()
      modifies this
      ensures Valid()
      ensures ok <==> file.Some? && !BadMagic(file.value)
      ensures !ok ==> unchanged(this)
      ensures file.Some? && DecodeFile(file.value).Some? ==>
        && nextUserId == DecodeFile(file.value).value.nextUserId
        && users == DecodeFile(file.value).value.users
        && episodes == DecodeFile(file.value).value.episodes
        && sessions == MergeSessions(old(sessions), DecodeFile(file.value).value.sessions)
    {
      if file.None? {
        return false;
      }
      ok := Deserialize(file.value);
    }
  }
}
