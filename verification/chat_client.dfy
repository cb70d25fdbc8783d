/** The chat page's client state (the useChat hook and the predicates of the
    chat page) as a record with transition functions. Network responses are
    inputs to the transitions; timers and localStorage are not modelled, and
    the stored identity is an input record. */
module ChatClient {
  import opened Common
  import opened Strings

  /** The logged-in user as the page knows it; role may be missing. */
  datatype ClientUser = ClientUser(id: nat, role: Option<string>)

  predicate IsAdminUser(u: ClientUser) {
    u.role == Some("admin")
  }

  /** A message as the API returns it; user_id may be missing. */
  datatype ClientMessage = ClientMessage(id: nat, message: string, isAdmin: bool, userId: Option<nat>)

  /** One row of the admin's conversation list. */
  datatype ConvSummary = ConvSummary(userId: nat, userName: string, lastMessage: string)

  datatype ClientState = ClientState(
    user: Option<ClientUser>,
    token: Option<string>,
    messages: seq<ClientMessage>,
    conversations: seq<ConvSummary>,
    activeChat: Option<nat>,
    input: string,
    loading: bool,
    editing: Option<ClientMessage>,
    openActionId: Option<nat>,
    loadingUser: bool,
    hasMore: bool,
    loadingMore: bool,
    page: nat)

  /** The state before anything has loaded. */
  const Initial: ClientState :=
    ClientState(None, None, [], [], None, "", false, None, None, true, true, false, 1)

  /** Messages per page of the chat API. */
  const PageSize: nat := 20

  /** JavaScript truthiness of an optional string: present and non-empty. */
  predicate Present(v: Option<string>) {
    v.Some? && v.value != ""
  }

  /** JavaScript truthiness of an optional id: present and non-zero. */
  predicate ActiveTruthy(a: Option<nat>) {
    a.Some? && a.value != 0
  }

  // ---------------------------------------------------------------------------
  // Identity

  /** The four localStorage slots the hook reads. */
  datatype Storage = Storage(adminUser: Option<string>, currentUser: Option<string>,
                             adminToken: Option<string>, userToken: Option<string>)

  /** JSON.parse of a stored user: None when it throws, Some(None) when the
      text is the JSON null. */
  type UserParser = string -> Option<Option<ClientUser>>

  /** The identity load: the admin pair when both admin slots are set, else
      the user pair when both user slots are set, else nothing. A parse error
      sets nothing. loadingUser ends false in every case. */
  function LoadIdentity(s: ClientState, st: Storage, parse: UserParser): (r: ClientState)
    ensures !r.loadingUser
    ensures (Present(st.adminUser) && Present(st.adminToken) && parse(st.adminUser.value).Some?)
              ==> r.user == parse(st.adminUser.value).value && r.token == st.adminToken
    ensures (!(Present(st.adminUser) && Present(st.adminToken)) && Present(st.currentUser)
              && Present(st.userToken) && parse(st.currentUser.value).Some?)
              ==> r.user == parse(st.currentUser.value).value && r.token == st.userToken
    ensures (!(Present(st.adminUser) && Present(st.adminToken))
              && !(Present(st.currentUser) && Present(st.userToken)))
              ==> r == s.(loadingUser := false)
    ensures (Present(st.adminUser) && Present(st.adminToken) && parse(st.adminUser.value).None?)
              ==> r == s.(loadingUser := false)
    ensures (!(Present(st.adminUser) && Present(st.adminToken)) && Present(st.currentUser)
              && Present(st.userToken) && parse(st.currentUser.value).None?)
              ==> r == s.(loadingUser := false)
    ensures r.(user := s.user, token := s.token, loadingUser := s.loadingUser) == s
  {
    var slot :=
      if Present(st.adminUser) && Present(st.adminToken) then Some((st.adminUser.value, st.adminToken))
      else if Present(st.currentUser) && Present(st.userToken) then Some((st.currentUser.value, st.userToken))
      else None;
    if slot.Some? && parse(slot.value.0).Some? then
      s.(user := parse(slot.value.0).value, token := slot.value.1, loadingUser := false)
    else s.(loadingUser := false)
  }

  /** When both admin slots are set, the user slots do not matter. */
  lemma AdminSlotsWin(s: ClientState, st: Storage, parse: UserParser, u: Option<string>, t: Option<string>)
    requires Present(st.adminUser) && Present(st.adminToken)
    ensures LoadIdentity(s, st, parse) == LoadIdentity(s, st.(currentUser := u, userToken := t), parse)
  {
  }

  // ---------------------------------------------------------------------------
  // Fetching messages

  /** The guard of fetchMessages: a user and a token, and an active chat for an admin. */
  predicate CanFetch(s: ClientState) {
    s.user.Some? && Present(s.token) && !(IsAdminUser(s.user.value) && !ActiveTruthy(s.activeChat))
  }

  /** GET /api/chat/{target}?page={page}. */
  datatype FetchRequest = FetchRequest(target: nat, page: nat)

  /** The request fetchMessages issues, if any. */
  function FetchRequestFor(s: ClientState, page: nat): (r: Option<FetchRequest>)
    ensures r.Some? <==> CanFetch(s)
    ensures r.Some? ==> r.value.page == page
    ensures r.Some? && IsAdminUser(s.user.value) ==> r.value.target == s.activeChat.value && r.value.target != 0
    ensures r.Some? && !IsAdminUser(s.user.value) ==> r.value.target == s.user.value.id
  {
    if !CanFetch(s) then None
    else if IsAdminUser(s.user.value) then Some(FetchRequest(s.activeChat.value, page))
    else Some(FetchRequest(s.user.value.id, page))
  }

  /** What a messages response amounts to once the hook has unwrapped it: a
      bare list, an object whose messages member is or is not a list, or a
      failure (HTTP error, unreadable body, or a null body whose .messages
      throws). */
  datatype FetchResponse =
    | BareList(items: seq<ClientMessage>)
    | Wrapped(messages: Option<seq<ClientMessage>>)
    | FetchFailed

  /** The list the hook takes from a response; None on failure. */
  function Unwrap(resp: FetchResponse): (r: Option<seq<ClientMessage>>)
    ensures resp.BareList? ==> r == Some(resp.items)
    ensures resp.Wrapped? && resp.messages.Some? ==> r == resp.messages
    ensures resp.Wrapped? && resp.messages.None? ==> r == Some([])
    ensures resp.FetchFailed? ==> r.None?
  {
    match resp
    case BareList(items) => Some(items)
    case Wrapped(messages) => if messages.Some? then messages else Some([])
    case FetchFailed => None
  }

  /** fetchMessages(isLoadMore, page) with resp as the response to its request:
      a load-more page goes before the current list, any other page replaces
      it; a first page sets hasMore to whether it was full, a short load-more
      page clears hasMore; a failed first page empties the list. */
  function FetchMessages(s: ClientState, isLoadMore: bool, page: nat, resp: FetchResponse): (r: ClientState)
    ensures !CanFetch(s) ==> r == s
    ensures CanFetch(s) && Unwrap(resp).Some? && isLoadMore ==> r.messages == Unwrap(resp).value + s.messages
    ensures CanFetch(s) && Unwrap(resp).Some? && !isLoadMore ==> r.messages == Unwrap(resp).value
    ensures CanFetch(s) && Unwrap(resp).Some? && !isLoadMore ==> (r.hasMore <==> |Unwrap(resp).value| == PageSize)
    ensures CanFetch(s) && Unwrap(resp).Some? && isLoadMore && |Unwrap(resp).value| < PageSize ==> !r.hasMore
    ensures (CanFetch(s) && Unwrap(resp).Some? && isLoadMore && |Unwrap(resp).value| >= PageSize)
              ==> r.hasMore == s.hasMore
    ensures CanFetch(s) && Unwrap(resp).None? ==> r == (if isLoadMore then s else s.(messages := []))
    ensures r.(messages := s.messages, hasMore := s.hasMore) == s
  {
    if !CanFetch(s) then s
    else
      match Unwrap(resp)
      case None => if isLoadMore then s else s.(messages := [])
      case Some(got) =>
        var merged := if isLoadMore then got + s.messages else got;
        var more :=
          if isLoadMore then (if |got| < PageSize then false else s.hasMore)
          else |got| == PageSize;
        s.(messages := merged, hasMore := more)
  }

  /** loadMoreMessages starts only when no load is running and more pages may exist. */
  predicate LoadMoreStarts(s: ClientState) {
    !s.loadingMore && s.hasMore
  }

  /** The synchronous half of loadMoreMessages: marks a load as running. */
  function BeginLoadMore(s: ClientState): (r: ClientState)
    ensures LoadMoreStarts(s) ==> r == s.(loadingMore := true)
    ensures !LoadMoreStarts(s) ==> r == s
  {
    if LoadMoreStarts(s) then s.(loadingMore := true) else s
  }

  /** A running load blocks every further start. */
  lemma BeginLoadMoreIdempotent(s: ClientState)
    ensures BeginLoadMore(BeginLoadMore(s)) == BeginLoadMore(s)
    ensures LoadMoreStarts(s) ==> !LoadMoreStarts(BeginLoadMore(s))
  {
  }

  /** The rest of loadMoreMessages once started: fetch the next page as a
      load-more, advance page by one whatever the fetch did, and end the load. */
  function FinishLoadMore(s: ClientState, resp: FetchResponse): (r: ClientState)
    requires s.loadingMore
    ensures r.page == s.page + 1
    ensures !r.loadingMore
    ensures r.(page := s.page, loadingMore := s.loadingMore) == FetchMessages(s, true, s.page + 1, resp)
  {
    FetchMessages(s, true, s.page + 1, resp).(page := s.page + 1, loadingMore := false)
  }

  /** A started load-more keeps every message already shown, after the new ones. */
  lemma LoadMoreKeepsShownMessages(s: ClientState, resp: FetchResponse)
    requires LoadMoreStarts(s)
    ensures var r := FinishLoadMore(BeginLoadMore(s), resp);
      && r.page == s.page + 1
      && !r.loadingMore
      && exists got :: r.messages == got + s.messages
  {
    var b := BeginLoadMore(s);
    var r := FinishLoadMore(b, resp);
    if CanFetch(b) && Unwrap(resp).Some? {
      assert r.messages == Unwrap(resp).value + s.messages;
    } else {
      assert r.messages == [] + s.messages;
    }
  }

  /** One poll of the messages effect: with a user and a token, reset page to
      1 and fetch the first page. */
  function Poll(s: ClientState, resp: FetchResponse): (r: ClientState)
    ensures !(s.user.Some? && Present(s.token)) ==> r == s
    ensures s.user.Some? && Present(s.token) ==> r.page == 1
    ensures s.user.Some? && Present(s.token) ==> r == FetchMessages(s.(page := 1), false, 1, resp)
  {
    if !(s.user.Some? && Present(s.token)) then s
    else FetchMessages(s.(page := 1), false, 1, resp)
  }

  /** Two polls that get the same reply leave the state of one: the second
      poll starts from page 1 again and replaces the list it finds. */
  lemma PollIdempotent(s: ClientState, resp: FetchResponse)
    ensures Poll(Poll(s, resp), resp) == Poll(s, resp)
  {
    var once := Poll(s, resp);
    if s.user.Some? && Present(s.token) {
      assert once.(messages := s.messages, hasMore := s.hasMore) == s.(page := 1);
      assert CanFetch(once) == CanFetch(s.(page := 1));
    }
  }

  // ---------------------------------------------------------------------------
  // Conversations

  /** A conversations response: a bare list, an object whose conversations
      member is or is not a list, or a failure. */
  datatype ConvResponse =
    | ConvList(items: seq<ConvSummary>)
    | ConvObject(conversations: Option<seq<ConvSummary>>)
    | ConvFailed

  /** The list fetchConversations takes from a response: the conversations
      member when it is a list, else the body when it is a list, else [];
      None on failure. */
  function ConvListOf(resp: ConvResponse): (r: Option<seq<ConvSummary>>)
    ensures resp.ConvList? ==> r == Some(resp.items)
    ensures resp.ConvObject? && resp.conversations.Some? ==> r == resp.conversations
    ensures resp.ConvObject? && resp.conversations.None? ==> r == Some([])
    ensures resp.ConvFailed? ==> r.None?
  {
    match resp
    case ConvList(items) => Some(items)
    case ConvObject(conversations) => if conversations.Some? then conversations else Some([])
    case ConvFailed => None
  }

  /** The admin may fetch conversations: an admin user with a token. */
  predicate CanFetchConversations(s: ClientState) {
    s.user.Some? && IsAdminUser(s.user.value) && Present(s.token)
  }

  /** fetchConversations: only for an admin with a token; stores the list and,
      when no chat is active, opens the first conversation. A failure empties
      the list. */
  function FetchConversations(s: ClientState, resp: ConvResponse): (r: ClientState)
    ensures !CanFetchConversations(s) ==> r == s
    ensures CanFetchConversations(s) && ConvListOf(resp).None? ==> r == s.(conversations := [])
    ensures CanFetchConversations(s) && ConvListOf(resp).Some? ==> r.conversations == ConvListOf(resp).value
    ensures (CanFetchConversations(s) && ConvListOf(resp).Some? && ConvListOf(resp).value != []
              && !ActiveTruthy(s.activeChat)) ==> r.activeChat == Some(ConvListOf(resp).value[0].userId)
    ensures (CanFetchConversations(s) && ConvListOf(resp).Some? && ConvListOf(resp).value == [])
              ==> r.activeChat == s.activeChat
    ensures ActiveTruthy(s.activeChat) ==> r.activeChat == s.activeChat
    ensures r.(conversations := s.conversations, activeChat := s.activeChat) == s
  {
    if !CanFetchConversations(s) then s
    else
      match ConvListOf(resp)
      case None => s.(conversations := [])
      case Some(list) =>
        var active := if !ActiveTruthy(s.activeChat) && |list| > 0 then Some(list[0].userId) else s.activeChat;
        s.(conversations := list, activeChat := active)
  }

  /** An admin with no open chat who receives a non-empty list whose first
      user id is non-zero can fetch messages afterwards. */
  lemma ConversationsEnableFetch(s: ClientState, items: seq<ConvSummary>)
    requires CanFetchConversations(s)
    requires !ActiveTruthy(s.activeChat)
    requires |items| > 0 && items[0].userId != 0
    ensures CanFetch(FetchConversations(s, ConvList(items)))
    ensures FetchRequestFor(FetchConversations(s, ConvList(items)), 1) == Some(FetchRequest(items[0].userId, 1))
  {
  }

  // ---------------------------------------------------------------------------
  // Sending, editing, deleting

  /** startEditing: remember the message and put its text in the input. */
  function StartEditing(s: ClientState, m: ClientMessage): (r: ClientState)
    ensures r.editing == Some(m) && r.input == m.message
    ensures r.(editing := s.editing, input := s.input) == s
  {
    s.(editing := Some(m), input := m.message)
  }

  /** The guard of sendMessage. */
  predicate SendAllowed(s: ClientState) {
    !IsBlank(s.input) && s.user.Some? && Present(s.token)
    && !(IsAdminUser(s.user.value) && !ActiveTruthy(s.activeChat))
  }

  datatype Method = Post | Put

  /** POST /api/chat/send, or PUT /api/chat/{id}. */
  datatype SendTarget = SendUrl | MessageUrl(id: nat)

  /** The request sendMessage issues: its target, method and JSON body. */
  datatype OutgoingSend = OutgoingSend(target: SendTarget, verb: Method, message: string, userId: Option<nat>)

  /** The request sendMessage issues, if any. The body carries the input as
      typed, not trimmed. */
  function SendRequestFor(s: ClientState): (r: Option<OutgoingSend>)
    ensures r.Some? <==> SendAllowed(s)
    ensures r.Some? ==> r.value.message == s.input
    ensures r.Some? && s.editing.Some? ==> r.value.verb == Put && r.value.target == MessageUrl(s.editing.value.id)
    ensures r.Some? && s.editing.None? ==> r.value.verb == Post && r.value.target == SendUrl
    ensures r.Some? ==> (r.value.userId.Some? <==> IsAdminUser(s.user.value) && s.editing.None?)
    ensures r.Some? && r.value.userId.Some? ==> r.value.userId == s.activeChat
  {
    if !SendAllowed(s) then None
    else
      var editing := s.editing.Some?;
      Some(OutgoingSend(
        if editing then MessageUrl(s.editing.value.id) else SendUrl,
        if editing then Put else Post,
        s.input,
        if IsAdminUser(s.user.value) && !editing then s.activeChat else None))
  }

  /** The synchronous half of sendMessage: loading is set when a request goes out. */
  function BeginSend(s: ClientState): (r: ClientState)
    ensures SendAllowed(s) ==> r == s.(loading := true)
    ensures !SendAllowed(s) ==> r == s
  {
    if SendAllowed(s) then s.(loading := true) else s
  }

  /** The rest of sendMessage: on success clear the edit and the input and
      refresh the first page (refresh is that fetch's response); in every case
      loading ends. */
  function FinishSend(s: ClientState, ok: bool, refresh: FetchResponse): (r: ClientState)
    ensures !r.loading
    ensures ok ==> r.editing.None? && r.input == ""
    ensures ok ==> r == FetchMessages(s.(editing := None, input := ""), false, 1, refresh).(loading := false)
    ensures !ok ==> r == s.(loading := false)
  {
    if ok then FetchMessages(s.(editing := None, input := ""), false, 1, refresh).(loading := false)
    else s.(loading := false)
  }

  /** A send that fails leaves the state as it was before the send began. */
  lemma FailedSendRestores(s: ClientState, refresh: FetchResponse)
    requires !s.loading
    ensures FinishSend(BeginSend(s), false, refresh) == s
  {
  }

  /** Keeps every message except the one with the given id. */
  function OtherMessage(id: nat): ClientMessage -> bool {
    (m: ClientMessage) => m.id != id
  }

  /** deleteMessage: with a token and a successful DELETE, drop that id from
      the list; otherwise nothing changes. */
  function DeleteLocal(s: ClientState, id: nat, ok: bool): (r: ClientState)
    ensures !(Present(s.token) && ok) ==> r == s
    ensures Present(s.token) && ok ==> forall m :: m in r.messages <==> m in s.messages && m.id != id
    ensures Present(s.token) && ok ==> KeptInOrder(r.messages, s.messages, OtherMessage(id))
    ensures r.(messages := s.messages) == s
  {
    FilterKeptInOrder(s.messages, OtherMessage(id));
    if Present(s.token) && ok then s.(messages := Filter(s.messages, OtherMessage(id))) else s
  }

  /** Deleting the same id twice leaves the list as deleting it once. */
  lemma DeleteLocalIdempotent(s: ClientState, id: nat)
    ensures DeleteLocal(DeleteLocal(s, id, true), id, true) == DeleteLocal(s, id, true)
  {
    if Present(s.token) {
      var once := Filter(s.messages, OtherMessage(id));
      FilterIdentity(once, OtherMessage(id));
      assert forall i :: 0 <= i < |once| ==> once[i] in once;
    }
  }

  // ---------------------------------------------------------------------------
  // The chat page

  /** isSender gates the edit and delete menu: an admin viewer owns every
      admin message, and anyone owns the non-admin messages carrying their id. */
  function ActionsOffered(viewer: ClientUser, m: ClientMessage): (r: bool)
    ensures IsAdminUser(viewer) ==> (r <==> m.isAdmin || m.userId == Some(viewer.id))
    ensures !IsAdminUser(viewer) ==> (r <==> !m.isAdmin && m.userId == Some(viewer.id))
    ensures m.isAdmin ==> (r <==> IsAdminUser(viewer))
  {
    (m.isAdmin && IsAdminUser(viewer)) || (!m.isAdmin && m.userId == Some(viewer.id))
  }

  /** The menu click: close the menu of this message if it is open, else open it. */
  function ToggleAction(open: Option<nat>, id: nat): (r: Option<nat>)
    ensures open == Some(id) ==> r.None?
    ensures open != Some(id) ==> r == Some(id)
  {
    if open == Some(id) then None else Some(id)
  }

  /** Two clicks on the same message leave its menu as it was before, and
      close any other menu. */
  lemma ToggleActionTwice(open: Option<nat>, id: nat)
    ensures ToggleAction(ToggleAction(open, id), id) == (if open == Some(id) then Some(id) else None)
  {
  }

  /** The scroll handler asks for older messages near the top of the list;
      it fires exactly when the hook's own load-more guard would start a load. */
  function ScrollTriggersLoadMore(scrollTop: int, s: ClientState): (b: bool)
    ensures b <==> scrollTop < 150 && LoadMoreStarts(s)
    ensures b ==> BeginLoadMore(s).loadingMore && !s.loadingMore
  {
    scrollTop < 150 && s.hasMore && !s.loadingMore
  }

  /** The send button is disabled for blank input or while sending. */
  predicate SendDisabled(s: ClientState)
    ensures SendDisabled(s) ==> BeginSend(s) == s
  {
    IsBlank(s.input) || s.loading
  }

  /** Blank input both disables the button and stops sendMessage itself. */
  lemma BlankInputSendsNothing(s: ClientState)
    requires IsBlank(s.input)
    ensures SendDisabled(s)
    ensures SendRequestFor(s).None?
    ensures BeginSend(s) == s
  {
  }
}
