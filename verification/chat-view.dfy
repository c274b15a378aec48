/**
 * The chat screen (components/chat-view.tsx): find or create the one conversation between
 * two people, show its messages oldest first, append what the subscription delivers, and
 * send the trimmed compose text.
 */
module ChatView {
  import opened Wrappers
  import opened Sequences
  import opened Sorting
  import opened Text
  import opened Entities
  import opened Store

  /** Requests the chat sends. */
  datatype ChatCall =
    | FindConversation(a: Id, b: Id)
    | CreateConversation(participant1: Id, participant2: Id)
    | SelectMessages(conversationId: Id)
    | InsertMessage(conversationId: Id, senderId: Id, content: string)

  datatype ChatState = ChatState(messages: seq<Message>, draft: string, conversationId: Option<Id>, loading: bool)

  datatype ChatStep = ChatStep(calls: seq<ChatCall>, state: ChatState)

  const Opened: ChatState := ChatState([], "", None, true)

  /** The `.or(...)` condition: the pair in either order. */
  function Between(a: Id, b: Id): Conversation -> bool {
    (c: Conversation) => (c.participant1 == a && c.participant2 == b) || (c.participant1 == b && c.participant2 == a)
  }

  /** The lookup's answer: the id of the single conversation between the two, if exactly one exists. */
  function LookupConversation(t: Tables, a: Id, b: Id): (r: Option<Id>)
    ensures r.Some? ==> exists k :: 0 <= k < |t.conversations| && t.conversations[k].id == r.value && Between(a, b)(t.conversations[k])
    ensures r.Some? <==> exists k :: OnlyMatchAt(t.conversations, Between(a, b), k)
    ensures forall k :: OnlyMatchAt(t.conversations, Between(a, b), k) ==> r == Some(t.conversations[k].id)
  {
    FilterSingleMatch(t.conversations, Between(a, b));
    match Single(Filter(t.conversations, Between(a, b)))
    case None => None
    case Some(c) =>
      assert c in Filter(t.conversations, Between(a, b));
      Some(c.id)
  }

  /** Two stored conversations between the same pair make `.single()` fail, so the lookup finds none. */
  lemma DuplicatePairNotFound(t: Tables, a: Id, b: Id, i: nat, j: nat)
    requires i < j < |t.conversations|
    requires Between(a, b)(t.conversations[i]) && Between(a, b)(t.conversations[j])
    ensures LookupConversation(t, a, b).None?
  {
  }

  /** Either participant finds the same conversation. */
  lemma LookupSymmetric(t: Tables, a: Id, b: Id)
    ensures LookupConversation(t, a, b) == LookupConversation(t, b, a)
  {
    FilterCongruent(t.conversations, Between(a, b), Between(b, a));
  }

  /** `insert({participant_1, participant_2})`: stored after the existing rows. */
  function ApplyCreateConversation(t: Tables, newId: Id, p1: Id, p2: Id): (t': Tables)
    ensures t'.conversations == t.conversations + [Conversation(newId, p1, p2)]
    ensures t'.profiles == t.profiles && t'.items == t.items && t'.messages == t.messages
  {
    t.(conversations := t.conversations + [Conversation(newId, p1, p2)])
  }

  /**
   * `initConversation`: keeps the conversation the lookup found, otherwise creates one with
   * the current user first and keeps the new id if the insert returned it; loading ends either way.
   */
  function InitConversation(s: ChatState, me: Id, friend: Id, existing: Option<Id>, created: Option<Id>): (r: ChatStep)
    ensures !r.state.loading
    ensures r.state.messages == s.messages && r.state.draft == s.draft
    ensures existing.Some? ==> r.calls == [FindConversation(me, friend)] && r.state.conversationId == existing
    ensures existing.None? ==> r.calls == [FindConversation(me, friend), CreateConversation(me, friend)]
    ensures existing.None? && created.Some? ==> r.state.conversationId == created
    ensures existing.None? && created.None? ==> r.state.conversationId == s.conversationId
  {
    if existing.Some? then
      ChatStep([FindConversation(me, friend)], s.(conversationId := existing, loading := false))
    else
      var id := if created.Some? then created else s.conversationId;
      ChatStep([FindConversation(me, friend), CreateConversation(me, friend)], s.(conversationId := id, loading := false))
  }

  /**
   * The first opening creates the conversation; whoever opens it next, from either side,
   * finds that same conversation and creates nothing.
   */
  lemma SecondOpeningFindsFirst(t: Tables, me: Id, friend: Id, newId: Id, opener: Id, other: Id)
    requires forall k :: 0 <= k < |t.conversations| ==> !Between(me, friend)(t.conversations[k])
    requires (opener == me && other == friend) || (opener == friend && other == me)
    ensures var first := InitConversation(Opened, me, friend, LookupConversation(t, me, friend), Some(newId));
      var t' := ApplyCreateConversation(t, newId, me, friend);
      var second := InitConversation(Opened, opener, other, LookupConversation(t', opener, other), None);
      && first.state.conversationId == Some(newId)
      && second.calls == [FindConversation(opener, other)]
      && second.state.conversationId == Some(newId)
  {
    var between := Between(me, friend);
    FilterKeepsNone(t.conversations, between);
    var t' := ApplyCreateConversation(t, newId, me, friend);
    FilterAppend(t.conversations, [Conversation(newId, me, friend)], between);
    assert Filter(t'.conversations, between) == [Conversation(newId, me, friend)];
    LookupSymmetric(t', me, friend);
  }

  function InConversation(id: Id): Message -> bool {
    (m: Message) => m.conversationId == id
  }

  function CreatedAt(m: Message): int {
    m.createdAt
  }

  /** `select("*").eq("conversation_id", id).order("created_at")`: that conversation's messages, oldest first. */
  function MessagesOf(t: Tables, id: Id): (r: seq<Message>)
    ensures forall i :: 0 <= i < |r| ==> r[i].conversationId == id
    ensures forall i, j :: 0 <= i < j < |r| ==> r[i].createdAt <= r[j].createdAt
    ensures multiset(r) == multiset(Filter(t.messages, InConversation(id)))
  {
    var mine := Filter(t.messages, InConversation(id));
    var r := SortByKey(mine, CreatedAt);
    assert forall m :: m in mine ==> m.conversationId == id;
    SortedMessagesFacts(mine, r, id);
    r
  }

  /** What a sorted copy of one conversation's messages keeps: the conversation and the time order. */
  lemma SortedMessagesFacts(mine: seq<Message>, r: seq<Message>, id: Id)
    requires forall m :: m in mine ==> m.conversationId == id
    requires multiset(r) == multiset(mine) && SortedBy(r, CreatedAt)
    ensures forall i :: 0 <= i < |r| ==> r[i].conversationId == id
    ensures forall i, j :: 0 <= i < j < |r| ==> r[i].createdAt <= r[j].createdAt
  {
    forall i | 0 <= i < |r| ensures r[i].conversationId == id {
      assert r[i] in multiset(mine);
    }
    forall i, j | 0 <= i < j < |r| ensures r[i].createdAt <= r[j].createdAt {
      assert CreatedAt(r[i]) <= CreatedAt(r[j]);
    }
  }

  /** `loadMessages`: only once a conversation is known; the list is replaced only when data came back. */
  function LoadMessages(s: ChatState, data: Option<seq<Message>>): (r: ChatStep)
    ensures s.conversationId.None? ==> r == ChatStep([], s)
    ensures s.conversationId.Some? ==> r.calls == [SelectMessages(s.conversationId.value)]
    ensures s.conversationId.Some? && data.Some? ==> r.state == s.(messages := data.value)
    ensures data.None? ==> r.state == s
  {
    match s.conversationId
    case None => ChatStep([], s)
    case Some(id) =>
      ChatStep([SelectMessages(id)], if data.Some? then s.(messages := data.value) else s)
  }

  /** The subscription callback: the delivered row goes last and nothing before it changes. */
  function ReceiveMessage(s: ChatState, m: Message): (s': ChatState)
    ensures |s'.messages| == |s.messages| + 1
    ensures s'.messages[..|s.messages|] == s.messages && s'.messages[|s.messages|] == m
    ensures s'.draft == s.draft && s'.conversationId == s.conversationId && s'.loading == s.loading
  {
    s.(messages := s.messages + [m])
  }

  /** Deliveries one after another. */
  function ReceiveAll(s: ChatState, ms: seq<Message>): ChatState
    decreases |ms|
  {
    if |ms| == 0 then s else ReceiveAll(ReceiveMessage(s, ms[0]), ms[1..])
  }

  /** The list only grows, at the end, by exactly what was delivered, in delivery order. */
  lemma {:induction false} ReceiveAllAppends(s: ChatState, ms: seq<Message>)
    ensures ReceiveAll(s, ms).messages == s.messages + ms
    ensures ReceiveAll(s, ms).draft == s.draft && ReceiveAll(s, ms).conversationId == s.conversationId
    decreases |ms|
  {
    if |ms| > 0 {
      ReceiveAllAppends(ReceiveMessage(s, ms[0]), ms[1..]);
      assert s.messages + [ms[0]] + ms[1..] == s.messages + ms;
    }
  }

  /** `disabled={!newMessage.trim()}` on the send button. */
  predicate SendDisabled(s: ChatState) {
    Trim(s.draft) == ""
  }

  /**
   * `handleSend`: nothing without text (after trimming) or without a conversation;
   * otherwise inserts the trimmed text as the user's, and clears the box unless the insert failed.
   */
  function HandleSend(s: ChatState, me: Id, insertFailed: bool): (r: ChatStep)
    ensures Trim(s.draft) == "" || s.conversationId.None? ==> r == ChatStep([], s)
    ensures Trim(s.draft) != "" && s.conversationId.Some? ==>
      && r.calls == [InsertMessage(s.conversationId.value, me, Trim(s.draft))]
      && r.state == s.(draft := if insertFailed then s.draft else "")
  {
    if Trim(s.draft) == "" || s.conversationId.None? then ChatStep([], s)
    else
      ChatStep([InsertMessage(s.conversationId.value, me, Trim(s.draft))],
               s.(draft := if insertFailed then s.draft else ""))
  }

  /** Blank text disables the send button, and Enter with blank text sends nothing. */
  lemma DisabledSendSendsNothing(s: ChatState, me: Id, insertFailed: bool)
    requires AllWhitespace(s.draft)
    ensures SendDisabled(s)
    ensures HandleSend(s, me, insertFailed) == ChatStep([], s)
  {
  }

  /** A message is drawn on the right, as the user's own, exactly when the user sent it. */
  predicate IsOwn(m: Message, me: Id) {
    m.senderId == me
  }

  /** `insert(message)` on `messages`: stored last with the id and time the database assigns. */
  function ApplyInsertMessage(t: Tables, msgId: Id, createdAt: int, c: ChatCall): (t': Tables)
    requires c.InsertMessage?
    ensures t'.messages == t.messages + [Message(msgId, c.conversationId, c.senderId, c.content, createdAt)]
  {
    t.(messages := t.messages + [Message(msgId, c.conversationId, c.senderId, c.content, createdAt)])
  }

  /**
   * A successful send, once the database stores the row and the subscription delivers it,
   * shows the trimmed text as the user's own last message, with the compose box cleared.
   */
  lemma SentMessageComesBackAsOwn(s: ChatState, me: Id, t: Tables, msgId: Id, createdAt: int)
    requires Trim(s.draft) != "" && s.conversationId.Some?
    ensures var sent := HandleSend(s, me, false);
      var t' := ApplyInsertMessage(t, msgId, createdAt, sent.calls[0]);
      var m := t'.messages[|t'.messages| - 1];
      var shown := ReceiveMessage(sent.state, m);
      && shown.draft == ""
      && shown.messages[|shown.messages| - 1].content == Trim(s.draft)
      && IsOwn(shown.messages[|shown.messages| - 1], me)
      && shown.messages[|shown.messages| - 1].conversationId == s.conversationId.value
  {
  }

  /** What the message pane shows. */
  datatype Pane = Loading | StartPrompt | Bubbles(own: seq<bool>)

  function PaneOf(s: ChatState, me: Id): (p: Pane)
    ensures p.Loading? <==> s.loading
    ensures p.StartPrompt? <==> !s.loading && |s.messages| == 0
    ensures p.Bubbles? ==> |p.own| == |s.messages| && forall i :: 0 <= i < |s.messages| ==> (p.own[i] <==> IsOwn(s.messages[i], me))
  {
    if s.loading then Loading
    else if |s.messages| == 0 then StartPrompt
    else Bubbles(Map(s.messages, (m: Message) => IsOwn(m, me)))
  }
}
