/** The chat API of the backend: the five ChatController handlers as pure
    transitions over a store of users and chat rows. The caller is the user the
    bearer token resolved to, or None when the token did not resolve. */
module ChatStore {
  import opened Common
  import opened Strings
  import Sorting

  /** A row of the users table; role is a free string, "admin" is the privileged value. */
  datatype User = User(id: nat, name: string, role: string)

  predicate IsAdmin(u: User) {
    u.role == "admin"
  }

  /** A row of the chats table. userId is the regular-user side of the
      conversation and adminId (nullable) the admin side, whoever wrote it;
      isAdmin records which of the two did. */
  datatype Message = Message(
    id: nat,
    userId: nat,
    adminId: Option<nat>,
    message: string,
    isAdmin: bool,
    createdAt: nat,
    updatedAt: nat)

  /** The users table in retrieval order, the chats table in insertion order,
      and the next auto-increment id. */
  datatype Store = Store(users: seq<User>, chats: seq<Message>, nextId: nat)

  /** No two rows share a primary key. */
  predicate DistinctIds(chats: seq<Message>) {
    forall i, j :: 0 <= i < j < |chats| ==> chats[i].id != chats[j].id
  }

  /** Chat ids are distinct and below the auto-increment counter. */
  predicate Valid(st: Store) {
    && DistinctIds(st.chats)
    && (forall i :: 0 <= i < |st.chats| ==> st.chats[i].id < st.nextId)
  }

  const StatusOk: nat := 200
  const StatusCreated: nat := 201
  const StatusUnauthenticated: nat := 401
  const StatusForbidden: nat := 403
  const StatusNotFound: nat := 404
  const StatusUnprocessable: nat := 422

  /** An HTTP reply: a success status with its payload, or an error status. */
  datatype Outcome<+T> = Ok(status: nat, value: T) | Err(status: nat)

  /** A reply together with the store after the request. */
  datatype Step<+T> = Step(outcome: Outcome<T>, store: Store)

  /** The admin `User::where('role', 'admin')->first()` resolves to. */
  function FirstAdmin(users: seq<User>): (r: Option<User>)
    ensures r.None? <==> forall i :: 0 <= i < |users| ==> !IsAdmin(users[i])
    ensures r.Some? ==> IsAdmin(r.value)
    ensures r.Some? ==> exists i :: 0 <= i < |users| && users[i] == r.value
                          && forall k :: 0 <= k < i ==> !IsAdmin(users[k])
  {
    if users == [] then None
    else if IsAdmin(users[0]) then Some(users[0])
    else
      var r := FirstAdmin(users[1..]);
      assert forall k :: 1 <= k < |users| ==> users[k] == users[1..][k - 1];
      r
  }

  /** The user `User::find(id)` returns. */
  function FindUser(users: seq<User>, id: nat): (r: Option<User>)
    ensures r.None? <==> forall i :: 0 <= i < |users| ==> users[i].id != id
    ensures r.Some? ==> r.value in users && r.value.id == id
  {
    if users == [] then None
    else if users[0].id == id then Some(users[0])
    else
      var r := FindUser(users[1..], id);
      assert forall i :: 1 <= i < |users| ==> users[i] == users[1..][i - 1];
      r
  }

  /** Position of the chat row `Chat::find(id)` returns. */
  function FindMessage(chats: seq<Message>, id: nat): (r: Option<nat>)
    ensures r.None? <==> forall i :: 0 <= i < |chats| ==> chats[i].id != id
    ensures r.Some? ==> r.value < |chats| && chats[r.value].id == id
  {
    if chats == [] then None
    else if chats[0].id == id then Some(0)
    else
      match FindMessage(chats[1..], id)
      case None =>
        assert forall i :: 1 <= i < |chats| ==> chats[i] == chats[1..][i - 1];
        None
      case Some(k) => Some(k + 1)
  }

  /** The body of POST /chat/send: `message` and the optional target `user_id`. */
  datatype SendRequest = SendRequest(message: Option<string>, userId: Option<nat>)

  /** Laravel's validation of a send: `message` required, `user_id` when given must name a user. */
  predicate SendRequestValid(st: Store, req: SendRequest) {
    && req.message.Some? && Filled(req.message.value)
    && (req.userId.Some? ==> FindUser(st.users, req.userId.value).Some?)
  }

  /** PHP truthiness of an id that may be null. */
  predicate IdTruthy(id: Option<nat>) {
    id.Some? && id.value != 0
  }

  /** The regular-user side a send records: the supplied target when an admin
      sends, the caller otherwise. */
  function SendUserSide(caller: User, req: SendRequest): Option<nat> {
    if IsAdmin(caller) then req.userId else Some(caller.id)
  }

  /** POST /chat/send. */
  function SendMessage(st: Store, caller: Option<User>, req: SendRequest, now: nat): (r: Step<Message>)
    ensures caller.None? ==> r == Step(Err(StatusUnauthenticated), st)
    ensures caller.Some? && !SendRequestValid(st, req) ==> r == Step(Err(StatusUnprocessable), st)
    ensures (caller.Some? && SendRequestValid(st, req) && FirstAdmin(st.users).None?)
              ==> r == Step(Err(StatusNotFound), st)
    ensures (caller.Some? && IsAdmin(caller.value) && SendRequestValid(st, req)
               && FirstAdmin(st.users).Some? && req.userId.None?)
              ==> r == Step(Err(StatusUnprocessable), st)
    ensures r.outcome.Err? ==> r.store == st
    ensures r.outcome.Ok? <==>
              && caller.Some? && SendRequestValid(st, req) && FirstAdmin(st.users).Some?
              && IdTruthy(SendUserSide(caller.value, req))
    ensures r.outcome.Ok? ==>
              && r.outcome.status == StatusCreated
              && r.store == st.(chats := st.chats + [r.outcome.value], nextId := st.nextId + 1)
              && r.outcome.value.id == st.nextId
              && r.outcome.value.message == req.message.value
              && r.outcome.value.createdAt == now
              && r.outcome.value.isAdmin == IsAdmin(caller.value)
    ensures r.outcome.Ok? && !IsAdmin(caller.value) ==>
              && r.outcome.value.userId == caller.value.id
              && r.outcome.value.adminId == Some(FirstAdmin(st.users).value.id)
    ensures r.outcome.Ok? && IsAdmin(caller.value) ==>
              && Some(r.outcome.value.userId) == req.userId
              && r.outcome.value.adminId == Some(caller.value.id)
  {
    if caller.None? then Step(Err(StatusUnauthenticated), st)
    else if !SendRequestValid(st, req) then Step(Err(StatusUnprocessable), st)
    else
      match FirstAdmin(st.users)
      case None => Step(Err(StatusNotFound), st)
      case Some(admin) =>
        var me := caller.value;
        var userSide := SendUserSide(me, req);
        if !IdTruthy(userSide) then Step(Err(StatusUnprocessable), st)
        else
          var adminSide := if IsAdmin(me) then me.id else admin.id;
          var m := Message(st.nextId, userSide.value, Some(adminSide), req.message.value, IsAdmin(me), now, now);
          Step(Ok(StatusCreated, m), st.(chats := st.chats + [m], nextId := st.nextId + 1))
  }

  /** Only an admin or the conversation's regular user may edit or delete a row. */
  predicate MayModify(caller: User, m: Message) {
    IsAdmin(caller) || m.userId == caller.id
  }

  /** PUT /chat/{id}: replaces the text of a row. Eloquent saves, and so
      refreshes updated_at, only when the text actually changes. */
  function UpdateMessage(st: Store, caller: Option<User>, id: nat, text: Option<string>, now: nat): (r: Step<Message>)
    ensures caller.None? ==> r == Step(Err(StatusUnauthenticated), st)
    ensures caller.Some? && (text.None? || !Filled(text.value)) ==> r == Step(Err(StatusUnprocessable), st)
    ensures (caller.Some? && text.Some? && Filled(text.value) && FindMessage(st.chats, id).None?)
              ==> r == Step(Err(StatusNotFound), st)
    ensures r.outcome.Err? ==> r.store == st
    ensures r.outcome.Ok? <==>
              && caller.Some? && text.Some? && Filled(text.value)
              && FindMessage(st.chats, id).Some?
              && MayModify(caller.value, st.chats[FindMessage(st.chats, id).value])
    ensures r.outcome.Ok? ==>
              var i := FindMessage(st.chats, id).value;
              var old_ := st.chats[i];
              var new_ := r.outcome.value;
              && r.outcome.status == StatusOk
              && r.store == st.(chats := st.chats[i := new_])
              && new_.message == text.value
              && new_.id == old_.id && new_.userId == old_.userId && new_.adminId == old_.adminId
              && new_.isAdmin == old_.isAdmin && new_.createdAt == old_.createdAt
              && (text.value != old_.message ==> new_.updatedAt == now)
              && (text.value == old_.message ==> new_ == old_)
  {
    if caller.None? then Step(Err(StatusUnauthenticated), st)
    else if text.None? || !Filled(text.value) then Step(Err(StatusUnprocessable), st)
    else
      match FindMessage(st.chats, id)
      case None => Step(Err(StatusNotFound), st)
      case Some(i) =>
        var m := st.chats[i];
        if !MayModify(caller.value, m) then Step(Err(StatusForbidden), st)
        else
          var edited := m.(message := text.value, updatedAt := if text.value == m.message then m.updatedAt else now);
          Step(Ok(StatusOk, edited), st.(chats := st.chats[i := edited]))
  }

  /** Keeps the rows whose primary key is not id. */
  function OtherThan(id: nat): Message -> bool {
    (m: Message) => m.id != id
  }

  /** DELETE /chat/{id}: removes the row with that primary key. */
  function DeleteMessage(st: Store, caller: Option<User>, id: nat): (r: Step<()>)
    ensures caller.None? ==> r == Step(Err(StatusUnauthenticated), st)
    ensures caller.Some? && FindMessage(st.chats, id).None? ==> r == Step(Err(StatusNotFound), st)
    ensures r.outcome.Err? ==> r.store == st
    ensures r.outcome.Ok? <==>
              && caller.Some? && FindMessage(st.chats, id).Some?
              && MayModify(caller.value, st.chats[FindMessage(st.chats, id).value])
    ensures r.outcome.Ok? ==>
              r.outcome.status == StatusOk && r.store.users == st.users && r.store.nextId == st.nextId
    ensures r.outcome.Ok? ==> forall m :: m in r.store.chats <==> m in st.chats && m.id != id
    ensures r.outcome.Ok? ==> KeptInOrder(r.store.chats, st.chats, OtherThan(id))
  {
    FilterKeptInOrder(st.chats, OtherThan(id));
    if caller.None? then Step(Err(StatusUnauthenticated), st)
    else
      match FindMessage(st.chats, id)
      case None => Step(Err(StatusNotFound), st)
      case Some(i) =>
        if !MayModify(caller.value, st.chats[i]) then Step(Err(StatusForbidden), st)
        else Step(Ok(StatusOk, ()), st.(chats := Filter(st.chats, OtherThan(id))))
  }

  /** A row belongs to the conversation of regular user u and admin a, in
      either assignment of the two columns. */
  predicate InPair(m: Message, u: nat, a: nat) {
    (m.userId == u && m.adminId == Some(a)) || (m.userId == a && m.adminId == Some(u))
  }

  /** The regular-user side getMessages reads: the path id for an admin, the caller otherwise. */
  function ReadUserSide(caller: User, pathUserId: nat): nat {
    if IsAdmin(caller) then pathUserId else caller.id
  }

  /** GET /chat/{user_id}: the conversation between the resolved user and the
      first admin, oldest first. */
  function GetMessages(st: Store, caller: Option<User>, pathUserId: nat): (r: Outcome<seq<Message>>)
    ensures caller.None? ==> r == Err(StatusUnauthenticated)
    ensures caller.Some? && FirstAdmin(st.users).None? ==> r == Err(StatusNotFound)
    ensures r.Ok? <==> caller.Some? && FirstAdmin(st.users).Some?
    ensures r.Ok? ==>
              var u := ReadUserSide(caller.value, pathUserId);
              var a := FirstAdmin(st.users).value.id;
              && r.status == StatusOk
              && (forall m :: multiset(r.value)[m] == if InPair(m, u, a) then multiset(st.chats)[m] else 0)
              && (forall i, j :: 0 <= i < j < |r.value| ==> r.value[i].createdAt <= r.value[j].createdAt)
  {
    if caller.None? then Err(StatusUnauthenticated)
    else
      match FirstAdmin(st.users)
      case None => Err(StatusNotFound)
      case Some(admin) =>
        var u := ReadUserSide(caller.value, pathUserId);
        var pair := Filter(st.chats, (m: Message) => InPair(m, u, admin.id));
        Ok(StatusOk, Sorting.SortBy(pair, (m: Message) => m.createdAt))
  }

  /** The newest row satisfying InPair(_, u, a), the earliest such row among
      equally new ones; None when the pair has no row. */
  function Latest(chats: seq<Message>, u: nat, a: nat): (r: Option<Message>)
    ensures r.None? <==> forall i :: 0 <= i < |chats| ==> !InPair(chats[i], u, a)
    ensures r.Some? ==> r.value in chats && InPair(r.value, u, a)
    ensures r.Some? ==> forall i :: 0 <= i < |chats| && InPair(chats[i], u, a) ==> chats[i].createdAt <= r.value.createdAt
  {
    if chats == [] then None
    else
      var rest := Latest(chats[1..], u, a);
      assert forall i :: 1 <= i < |chats| ==> chats[i] == chats[1..][i - 1];
      if InPair(chats[0], u, a) && (rest.None? || rest.value.createdAt <= chats[0].createdAt) then Some(chats[0])
      else rest
  }

  /** One line of the admin's conversation list. */
  datatype Conversation = Conversation(
    userId: nat,
    userName: string,
    lastMessage: string,
    lastMessageTime: nat,
    lastMessageIsAdmin: bool)

  /** The entry for user uid in admin me's list, when uid has a user record and a message. */
  function ConversationFor(st: Store, me: nat, uid: nat): (r: Option<Conversation>)
    ensures r.Some? ==> r.value.userId == uid
  {
    match (FindUser(st.users, uid), Latest(st.chats, uid, me))
    case (Some(user), Some(last)) =>
      Some(Conversation(user.id, user.name, last.message, last.createdAt, last.isAdmin))
    case _ => None
  }

  /** The user_id column of each row. */
  function Pluck(chats: seq<Message>): (r: seq<nat>)
    ensures |r| == |chats|
    ensures forall i :: 0 <= i < |chats| ==> r[i] == chats[i].userId
  {
    seq(|chats|, i requires 0 <= i < |chats| => chats[i].userId)
  }

  /** First occurrences of the elements of xs not in seen, in order (Collection::unique). */
  function Dedup(xs: seq<nat>, seen: set<nat>): (r: seq<nat>)
    ensures forall x :: x in r <==> x in xs && x !in seen
    ensures forall i, j :: 0 <= i < j < |r| ==> r[i] != r[j]
  {
    if xs == [] then []
    else if xs[0] in seen then
      var r := Dedup(xs[1..], seen);
      assert forall x :: x in xs <==> x == xs[0] || x in xs[1..];
      r
    else
      var rest := Dedup(xs[1..], seen + {xs[0]});
      assert forall x :: x in xs <==> x == xs[0] || x in xs[1..];
      assert xs[0] !in rest;
      [xs[0]] + rest
  }

  /** Rows addressed to me or sent by me (the first query of getConversations). */
  function ToOrFrom(me: nat): Message -> bool {
    (m: Message) => m.adminId == Some(me) || m.userId == me
  }

  /** Rows addressed to me (the second query). */
  function AddressedTo(me: nat): Message -> bool {
    (m: Message) => m.adminId == Some(me)
  }

  /** Ids other than me. */
  function NotMe(me: nat): nat -> bool {
    (x: nat) => x != me
  }

  /** An id plucked from the kept rows is the user_id of a kept row. */
  lemma PluckedFromKept(chats: seq<Message>, keep: Message -> bool, x: nat)
    requires x in Pluck(Filter(chats, keep))
    ensures exists i :: 0 <= i < |chats| && keep(chats[i]) && chats[i].userId == x
  {
    var kept := Filter(chats, keep);
    var k :| 0 <= k < |kept| && Pluck(kept)[k] == x;
    assert kept[k] in kept;
  }

  /** The user_id of a kept row is plucked. */
  lemma KeptIsPlucked(chats: seq<Message>, keep: Message -> bool, i: nat)
    requires i < |chats| && keep(chats[i])
    ensures chats[i].userId in Pluck(Filter(chats, keep))
  {
    var kept := Filter(chats, keep);
    assert chats[i] in kept;
    var k :| 0 <= k < |kept| && kept[k] == chats[i];
    assert Pluck(kept)[k] == chats[i].userId;
  }

  /** The user ids getConversations walks for admin me: user_id of every row
      with admin_id = me or user_id = me, merged with user_id of every row with
      admin_id = me, deduplicated, me removed. */
  function ConversationIds(chats: seq<Message>, me: nat): (r: seq<nat>)
    ensures forall i, j :: 0 <= i < j < |r| ==> r[i] != r[j]
    ensures forall x :: x in r <==> x != me && exists i :: 0 <= i < |chats| && chats[i].adminId == Some(me) && chats[i].userId == x
  {
    var first := Pluck(Filter(chats, ToOrFrom(me)));
    var second := Pluck(Filter(chats, AddressedTo(me)));
    var ids := Dedup(first + second, {});
    var r := Filter(ids, NotMe(me));
    forall x | x in r
      ensures exists i :: 0 <= i < |chats| && chats[i].adminId == Some(me) && chats[i].userId == x
    {
      if x in first {
        PluckedFromKept(chats, ToOrFrom(me), x);
      } else {
        PluckedFromKept(chats, AddressedTo(me), x);
      }
    }
    forall i | 0 <= i < |chats| && chats[i].adminId == Some(me) && chats[i].userId != me
      ensures chats[i].userId in r
    {
      KeptIsPlucked(chats, AddressedTo(me), i);
    }
    DistinctFilter(ids, NotMe(me));
    r
  }

  /** Filtering a list without duplicates leaves a list without duplicates. */
  lemma {:induction false} DistinctFilter(xs: seq<nat>, keep: nat -> bool)
    requires forall i, j :: 0 <= i < j < |xs| ==> xs[i] != xs[j]
    ensures forall i, j :: 0 <= i < j < |Filter(xs, keep)| ==> Filter(xs, keep)[i] != Filter(xs, keep)[j]
  {
    if xs != [] {
      DistinctFilter(xs[1..], keep);
      assert xs[0] !in xs[1..];
      assert xs[0] !in Filter(xs[1..], keep);
    }
  }

  /** The ids that yield an entry. */
  function EntryIds(st: Store, me: nat, ids: seq<nat>): (r: seq<nat>)
    ensures forall k :: 0 <= k < |r| ==> ConversationFor(st, me, r[k]).Some?
  {
    var kept := Filter(ids, (x: nat) => ConversationFor(st, me, x).Some?);
    assert forall k :: 0 <= k < |kept| ==> kept[k] in kept;
    kept
  }

  /** The entries built from ids, in their order, skipping ids without a user
      record or a message. */
  function Entries(st: Store, me: nat, ids: seq<nat>): (r: seq<Conversation>)
    ensures |r| == |EntryIds(st, me, ids)|
    ensures forall k :: 0 <= k < |r| ==> r[k].userId == EntryIds(st, me, ids)[k]
    ensures forall k :: 0 <= k < |r| ==> ConversationFor(st, me, r[k].userId) == Some(r[k])
  {
    var kept := EntryIds(st, me, ids);
    seq(|kept|, k requires 0 <= k < |kept| => ConversationFor(st, me, kept[k]).value)
  }

  /** The entries name exactly the ids that have a user record and a message,
      each once when the ids are distinct. */
  lemma EntriesProperties(st: Store, me: nat, ids: seq<nat>)
    ensures var r := Entries(st, me, ids);
      && (forall k :: 0 <= k < |r| ==> r[k].userId in ids)
      && (forall x :: x in ids && ConversationFor(st, me, x).Some? ==> exists k :: 0 <= k < |r| && r[k].userId == x)
      && ((forall i, j :: 0 <= i < j < |ids| ==> ids[i] != ids[j]) ==>
            forall i, j :: 0 <= i < j < |r| ==> r[i].userId != r[j].userId)
  {
    var r := Entries(st, me, ids);
    var kept := EntryIds(st, me, ids);
    assert forall k :: 0 <= k < |kept| ==> kept[k] in kept;
    forall x | x in ids && ConversationFor(st, me, x).Some?
      ensures exists k :: 0 <= k < |r| && r[k].userId == x
    {
      assert x in kept;
      var k :| 0 <= k < |kept| && kept[k] == x;
      assert r[k].userId == x;
    }
    if forall i, j :: 0 <= i < j < |ids| ==> ids[i] != ids[j] {
      DistinctFilter(ids, (x: nat) => ConversationFor(st, me, x).Some?);
    }
  }

  /** A row addressed to admin me whose user has a record yields a conversation entry. */
  lemma RowHasConversation(st: Store, me: nat, i: nat)
    requires i < |st.chats| && st.chats[i].adminId == Some(me)
    requires FindUser(st.users, st.chats[i].userId).Some?
    ensures ConversationFor(st, me, st.chats[i].userId).Some?
  {
    assert InPair(st.chats[i], st.chats[i].userId, me);
    assert Latest(st.chats, st.chats[i].userId, me).Some?;
  }

  /** GET /conversations: for an admin, one entry per regular user who has a
      row addressed to that admin and a user record, with the newest row of
      the pair. Without a token the route's auth middleware answers 401; a
      signed-in non-admin gets 403. */
  function GetConversations(st: Store, caller: Option<User>): (r: Outcome<seq<Conversation>>)
    ensures r.Ok? <==> caller.Some? && IsAdmin(caller.value)
    ensures caller.None? ==> r == Err(StatusUnauthenticated)
    ensures caller.Some? && !IsAdmin(caller.value) ==> r == Err(StatusForbidden)
    ensures r.Ok? ==> r.status == StatusOk && r.value == AdminConversations(st, caller.value.id)
  {
    if caller.None? then Err(StatusUnauthenticated)
    else if !IsAdmin(caller.value) then Err(StatusForbidden)
    else Ok(StatusOk, AdminConversations(st, caller.value.id))
  }

  /** The conversation list of admin me: one entry per regular user with a
      row addressed to me and a user record, each the newest row of the pair. */
  function AdminConversations(st: Store, me: nat): (r: seq<Conversation>)
    ensures forall i, j :: 0 <= i < j < |r| ==> r[i].userId != r[j].userId
    ensures forall k :: 0 <= k < |r| ==> r[k].userId != me
    ensures forall k :: 0 <= k < |r| ==> ConversationFor(st, me, r[k].userId) == Some(r[k])
    ensures forall k :: 0 <= k < |r| ==> HasRowTo(st.chats, me, r[k].userId)
    ensures forall i :: 0 <= i < |st.chats| && st.chats[i].adminId == Some(me) && st.chats[i].userId != me
              && FindUser(st.users, st.chats[i].userId).Some?
              ==> exists k :: 0 <= k < |r| && r[k].userId == st.chats[i].userId
  {
    var ids := ConversationIds(st.chats, me);
    var r := Entries(st, me, ids);
    EntriesProperties(st, me, ids);
    forall i | 0 <= i < |st.chats| && st.chats[i].adminId == Some(me) && st.chats[i].userId != me
      && FindUser(st.users, st.chats[i].userId).Some?
      ensures exists k :: 0 <= k < |r| && r[k].userId == st.chats[i].userId
    {
      RowHasConversation(st, me, i);
      assert st.chats[i].userId in ids;
    }
    EntriesHaveRows(st, me, ids);
    r
  }

  /** Some row of chats is addressed to admin me and belongs to user x. */
  ghost predicate HasRowTo(chats: seq<Message>, me: nat, x: nat)
  {
    exists i :: 0 <= i < |chats| && chats[i].adminId == Some(me) && chats[i].userId == x
  }

  /** Every entry built from the conversation ids names a user with a row addressed to me. */
  lemma EntriesHaveRows(st: Store, me: nat, ids: seq<nat>)
    requires ids == ConversationIds(st.chats, me)
    ensures var r := Entries(st, me, ids);
      forall k :: 0 <= k < |r| ==> HasRowTo(st.chats, me, r[k].userId)
  {
    var r := Entries(st, me, ids);
    EntriesProperties(st, me, ids);
    forall k | 0 <= k < |r|
      ensures HasRowTo(st.chats, me, r[k].userId)
    {
      assert r[k].userId in ids;
    }
  }

  /** Sending keeps chat ids distinct and below the counter. */
  lemma SendPreservesValid(st: Store, caller: Option<User>, req: SendRequest, now: nat)
    requires Valid(st)
    ensures Valid(SendMessage(st, caller, req, now).store)
  {
  }

  /** Editing keeps chat ids distinct and below the counter. */
  lemma UpdatePreservesValid(st: Store, caller: Option<User>, id: nat, text: Option<string>, now: nat)
    requires Valid(st)
    ensures Valid(UpdateMessage(st, caller, id, text, now).store)
  {
  }

  /** Deleting keeps chat ids distinct and below the counter. */
  lemma DeletePreservesValid(st: Store, caller: Option<User>, id: nat)
    requires Valid(st)
    ensures Valid(DeleteMessage(st, caller, id).store)
  {
    var r := DeleteMessage(st, caller, id);
    if r.outcome.Ok? {
      FilterDistinctIds(st.chats, OtherThan(id));
      forall k | 0 <= k < |r.store.chats| ensures r.store.chats[k].id < r.store.nextId {
        assert r.store.chats[k] in st.chats;
      }
    }
  }

  /** Filtering rows keeps their ids distinct. */
  lemma {:induction false} FilterDistinctIds(chats: seq<Message>, keep: Message -> bool)
    requires DistinctIds(chats)
    ensures DistinctIds(Filter(chats, keep))
  {
    if chats != [] {
      FilterDistinctIds(chats[1..], keep);
      var rest := Filter(chats[1..], keep);
      assert forall x :: x in chats[1..] ==> x.id != chats[0].id;
      assert forall x :: x in rest ==> x.id != chats[0].id;
      if keep(chats[0]) {
        var r := [chats[0]] + rest;
        assert Filter(chats, keep) == r;
        forall i, j | 0 <= i < j < |r| ensures r[i].id != r[j].id {
          assert r[j] == rest[j - 1];
          assert r[j] in rest;
          if i > 0 {
            assert r[i] == rest[i - 1];
          }
        }
      }
    }
  }

  /** A successful delete cannot be repeated: the second attempt finds no row. */
  lemma DeleteTwiceIsNotFound(st: Store, caller: Option<User>, id: nat)
    requires DeleteMessage(st, caller, id).outcome.Ok?
    ensures DeleteMessage(DeleteMessage(st, caller, id).store, caller, id) == Step(Err(StatusNotFound), DeleteMessage(st, caller, id).store)
  {
    var st' := DeleteMessage(st, caller, id).store;
    forall i | 0 <= i < |st'.chats| ensures st'.chats[i].id != id {
      assert st'.chats[i] in st'.chats;
    }
  }

  /** A regular user reading with any path id gets their own conversation. */
  lemma GetMessagesSelfScoped(st: Store, u: User, p1: nat, p2: nat)
    requires !IsAdmin(u)
    ensures GetMessages(st, Some(u), p1) == GetMessages(st, Some(u), p2)
    ensures GetMessages(st, Some(u), p1).Ok? ==>
              forall m :: m in GetMessages(st, Some(u), p1).value ==> m.userId == u.id || m.adminId == Some(u.id)
  {
    var r := GetMessages(st, Some(u), p1);
    if r.Ok? {
      forall m | m in r.value ensures m.userId == u.id || m.adminId == Some(u.id) {
        assert multiset(r.value)[m] > 0;
      }
    }
  }

  /** Round trip of a send: the stored row is visible to both sides of its
      conversation, provided an admin sender is the first admin. The first
      admin sees it under the regular user's id; a regular user sees it under
      any path id. */
  lemma SentMessageVisibleToBoth(st: Store, caller: User, req: SendRequest, now: nat, reader: User, path: nat)
    requires SendMessage(st, Some(caller), req, now).outcome.Ok?
    requires IsAdmin(caller) ==> caller == FirstAdmin(st.users).value
    requires !IsAdmin(reader) && reader.id == SendMessage(st, Some(caller), req, now).outcome.value.userId
    ensures var s := SendMessage(st, Some(caller), req, now);
      && s.outcome.value in GetMessages(s.store, Some(reader), path).value
      && s.outcome.value in GetMessages(s.store, FirstAdmin(st.users), s.outcome.value.userId).value
  {
    var s := SendMessage(st, Some(caller), req, now);
    var m := s.outcome.value;
    var a := FirstAdmin(st.users).value;
    assert FirstAdmin(s.store.users) == Some(a);
    assert InPair(m, m.userId, a.id);
    assert m in s.store.chats;
    var r1 := GetMessages(s.store, Some(reader), path).value;
    assert multiset(r1)[m] > 0;
    var r2 := GetMessages(s.store, FirstAdmin(st.users), m.userId).value;
    assert multiset(r2)[m] > 0;
  }

  /** A two-message exchange: the user U writes "Hello" to the only admin A,
      and A answers "Hi". The three lemmas below follow it step by step. */
  const SampleAdmin := User(1, "A", "admin")
  const SampleUser := User(2, "U", "user")
  const SampleHello := Message(1, 2, Some(1), "Hello", false, 10, 10)
  const SampleHi := Message(2, 2, Some(1), "Hi", true, 20, 20)
  const SampleStore := Store([SampleAdmin, SampleUser], [SampleHello, SampleHi], 3)

  /** The user's message is addressed to the first admin, the admin's reply
      to the user named in the request; ids come from the counter. */
  lemma HelloHiSends()
    ensures var s1 := SendMessage(Store([SampleAdmin, SampleUser], [], 1), Some(SampleUser), SendRequest(Some("Hello"), None), 10);
      && s1 == Step(Ok(StatusCreated, SampleHello), Store([SampleAdmin, SampleUser], [SampleHello], 2))
      && SendMessage(s1.store, Some(SampleAdmin), SendRequest(Some("Hi"), Some(2)), 20) == Step(Ok(StatusCreated, SampleHi), SampleStore)
  {
    var users := [SampleAdmin, SampleUser];
    assert "Hello"[0] !in PhpDefaultTrim;
    assert "Hi"[0] !in PhpDefaultTrim;
    assert FirstAdmin(users) == Some(SampleAdmin);
    assert FindUser(users, 2) == Some(SampleUser);
    var s1 := SendMessage(Store(users, [], 1), Some(SampleUser), SendRequest(Some("Hello"), None), 10);
    assert s1.outcome.value == SampleHello;
    assert [] + [SampleHello] == [SampleHello];
    var s2 := SendMessage(s1.store, Some(SampleAdmin), SendRequest(Some("Hi"), Some(2)), 20);
    assert s2.outcome.value == SampleHi;
  }

  /** The user sees both rows, oldest first, whatever id the path names. */
  lemma HelloHiUserView()
    ensures GetMessages(SampleStore, Some(SampleUser), 7) == Ok(StatusOk, [SampleHello, SampleHi])
  {
    assert FirstAdmin(SampleStore.users) == Some(SampleAdmin);
    var msgs := GetMessages(SampleStore, Some(SampleUser), 7).value;
    assert InPair(SampleHello, 2, 1) && InPair(SampleHi, 2, 1);
    WholePairShown(SampleStore, SampleUser, 7);
    OldestFirstOfTwo(msgs, SampleHello, SampleHi);
  }

  /** When every row belongs to the pair a read resolves, the read returns all rows. */
  lemma WholePairShown(st: Store, caller: User, pathUserId: nat)
    requires FirstAdmin(st.users).Some?
    requires forall i :: 0 <= i < |st.chats| ==>
               InPair(st.chats[i], ReadUserSide(caller, pathUserId), FirstAdmin(st.users).value.id)
    ensures multiset(GetMessages(st, Some(caller), pathUserId).value) == multiset(st.chats)
  {
    var r := GetMessages(st, Some(caller), pathUserId).value;
    forall m ensures multiset(r)[m] == multiset(st.chats)[m] {
      if m in st.chats {
        var i :| 0 <= i < |st.chats| && st.chats[i] == m;
      }
    }
  }

  /** A list of two rows in created_at order, the first strictly older. */
  lemma OldestFirstOfTwo(msgs: seq<Message>, a: Message, b: Message)
    requires multiset(msgs) == multiset([a, b]) && a.createdAt < b.createdAt
    requires forall i, j :: 0 <= i < j < |msgs| ==> msgs[i].createdAt <= msgs[j].createdAt
    ensures msgs == [a, b]
  {
    assert |msgs| == 2;
    assert msgs == [msgs[0], msgs[1]];
    assert msgs[0] in multiset([a, b]) && msgs[1] in multiset([a, b]);
  }

  /** The admin's list holds one entry for the user, showing the reply as the
      latest message. */
  lemma HelloHiAdminView()
    ensures GetConversations(SampleStore, Some(SampleAdmin)) == Ok(StatusOk, [Conversation(2, "U", "Hi", 20, true)])
  {
    var st := SampleStore;
    var convs := GetConversations(st, Some(SampleAdmin)).value;
    forall k | 0 <= k < |convs|
      ensures convs[k].userId == 2
    {
      var i :| 0 <= i < |st.chats| && st.chats[i].adminId == Some(1) && st.chats[i].userId == convs[k].userId;
    }
    AtMostOneEntryPerUser(convs, 2);
    assert FindUser(st.users, 2).Some?;
    assert st.chats[0].adminId == Some(1) && st.chats[0].userId == 2;
    assert |convs| == 1;
    SampleConversation();
    assert ConversationFor(st, 1, convs[0].userId) == Some(convs[0]);
    assert convs == [convs[0]];
  }

  /** The reply is the newest row of the pair, so it is the one the entry shows. */
  lemma SampleConversation()
    ensures ConversationFor(SampleStore, 1, 2) == Some(Conversation(2, "U", "Hi", 20, true))
  {
    var chats := SampleStore.chats;
    var last := Latest(chats, 2, 1);
    assert InPair(chats[1], 2, 1);
    assert last.value in chats && last.value.createdAt >= 20;
    assert FindUser(SampleStore.users, 2) == Some(SampleUser);
  }

  /** Entries with distinct user ids that all name the same user number at most one. */
  lemma AtMostOneEntryPerUser(cs: seq<Conversation>, uid: nat)
    requires forall i, j :: 0 <= i < j < |cs| ==> cs[i].userId != cs[j].userId
    requires forall k :: 0 <= k < |cs| ==> cs[k].userId == uid
    ensures |cs| <= 1
  {
    assert |cs| >= 2 ==> UserIdAt(cs, 0) == uid == UserIdAt(cs, 1);
  }

  /** The user id of entry k, or -1 outside the list. */
  function UserIdAt(cs: seq<Conversation>, k: int): int {
    if 0 <= k < |cs| then cs[k].userId else -1
  }

  /** A reply from an admin other than the first is stored, but a regular
      user's read always pairs them with the first admin, so the reply is
      never shown to them. */
  lemma SecondAdminReplyHidden()
    ensures var a := User(1, "A", "admin");
      var b := User(2, "B", "admin");
      var u := User(3, "U", "user");
      var s := SendMessage(Store([a, b, u], [], 1), Some(b), SendRequest(Some("Hi"), Some(3)), 5);
      && s.outcome == Ok(StatusCreated, Message(1, 3, Some(2), "Hi", true, 5, 5))
      && GetMessages(s.store, Some(u), 3) == Ok(StatusOk, [])
  {
    assert "Hi"[0] !in PhpDefaultTrim;
  }
}
