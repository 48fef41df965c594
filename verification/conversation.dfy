/**
 * The conversation panel: which message (if any) is being edited, what
 * submitting the input does, and which text the input is pre-filled with.
 * The chat service is seen only through the actions it is asked to do.
 */
module Conversation {
  import opened JsValues
  import MessageItem

  /** The panel's one piece of state, `editingMessageId` (`null` when not editing). */
  datatype State = State(editingMessageId: Option<JsString>)

  /** `useState<string | null>(null)`: nothing is being edited. */
  const Initial: State := State(None)

  /** A request to the chat service. */
  datatype Action = Edit(messageId: JsString, content: JsString) | Send(content: JsString)

  /** `handleEditClick`: select a message for editing, whatever was selected before. */
  function EditClick(s: State, messageId: JsString): (r: State)
    ensures r.editingMessageId == Some(messageId)
  {
    s.(editingMessageId := Some(messageId))
  }

  /** `handleClear`: stop editing, whatever was selected before. */
  function Clear(s: State): (r: State)
    ensures r == Initial
  {
    s.(editingMessageId := None)
  }

  /**
   * `handleSend`: edit the selected message when the selection is truthy,
   * otherwise send a new one. The selection itself is left alone.
   */
  function HandleSend(s: State, content: JsString): (r: (State, Action))
    ensures r.0 == s
    ensures r.1.content == content
    ensures r.1.Edit? <==> Truthy(s.editingMessageId)
    ensures r.1.Edit? ==> Some(r.1.messageId) == s.editingMessageId
  {
    if Truthy(s.editingMessageId) then (s, Edit(s.editingMessageId.value, content))
    else (s, Send(content))
  }

  /** `messages.find(m => m.id === id)`: the position of the first message with that id. */
  function FindFirst(messages: seq<MessageItem.Message>, id: JsString): (r: Option<nat>)
    ensures r.None? <==> forall i | 0 <= i < |messages| :: messages[i].id != id
    ensures r.Some? ==> r.value < |messages| && messages[r.value].id == id
    ensures r.Some? ==> forall i | 0 <= i < r.value :: messages[i].id != id
  {
    if |messages| == 0 then None
    else if messages[0].id == id then Some(0)
    else
      match FindFirst(messages[1..], id)
      case None => None
      case Some(k) => Some(k + 1)
  }

  /**
   * `inputContent`: the content of the first listed message whose id is
   * the (truthy) selection; `null` when not editing, when the list is
   * not loaded, or when no message matches.
   */
  function InputContent(s: State, messages: Option<seq<MessageItem.Message>>): (r: Option<JsString>)
    ensures !Truthy(s.editingMessageId) ==> r.None?
    ensures messages.None? ==> r.None?
    ensures r.Some? ==> exists i | 0 <= i < |messages.value| ::
      messages.value[i].id == s.editingMessageId.value && messages.value[i].content == r.value
      && forall j | 0 <= j < i :: messages.value[j].id != s.editingMessageId.value
    ensures Truthy(s.editingMessageId) && messages.Some? ==>
      (r.Some? <==> exists i | 0 <= i < |messages.value| :: messages.value[i].id == s.editingMessageId.value)
  {
    if !Truthy(s.editingMessageId) then None
    else
      match messages
      case None => None
      case Some(ms) =>
        match FindFirst(ms, s.editingMessageId.value)
        case None => None
        case Some(i) => Some(ms[i].content)
  }

  /** What the user does in the panel. */
  datatype Event = ClickEdit(messageId: JsString) | ClearInput | Submit(content: JsString)

  /** Events handled in order: the final state and the actions requested along the way. */
  function Run(s: State, events: seq<Event>): (State, seq<Action>)
  {
    if |events| == 0 then (s, [])
    else
      var (mid, before) := Run(s, events[..|events| - 1]);
      match events[|events| - 1]
      case ClickEdit(id) => (EditClick(mid, id), before)
      case ClearInput => (Clear(mid), before)
      case Submit(content) =>
        var (next, action) := HandleSend(mid, content);
        (next, before + [action])
  }

  /**
   * Reference for the selection: the id of the last edit click, unless a
   * clear came after it; the starting selection when neither occurs.
   */
  function LastSelection(start: Option<JsString>, events: seq<Event>): Option<JsString>
  {
    if |events| == 0 then start
    else
      match events[|events| - 1]
      case ClickEdit(id) => Some(id)
      case ClearInput => None
      case Submit(_) => LastSelection(start, events[..|events| - 1])
  }

  function CountSubmits(events: seq<Event>): nat
  {
    if |events| == 0 then 0
    else CountSubmits(events[..|events| - 1]) + (if events[|events| - 1].Submit? then 1 else 0)
  }

  /**
   * Over any run the selection is the last one made (submitting never
   * changes it), and exactly one action is requested per submit.
   */
  lemma {:induction false} RunSelection(s: State, events: seq<Event>)
    ensures Run(s, events).0.editingMessageId == LastSelection(s.editingMessageId, events)
    ensures |Run(s, events).1| == CountSubmits(events)
  {
    if |events| > 0 {
      RunSelection(s, events[..|events| - 1]);
    }
  }

  /**
   * A submit after any history edits the last selected message when
   * that selection is a non-empty id, and sends a new message otherwise.
   */
  lemma SubmitAfter(s: State, events: seq<Event>, content: JsString)
    ensures var sel := LastSelection(s.editingMessageId, events);
      var actions := Run(s, events + [Submit(content)]).1;
      actions[|actions| - 1] == (if Truthy(sel) then Edit(sel.value, content) else Send(content))
  {
    var evs := events + [Submit(content)];
    assert evs[..|evs| - 1] == events;
    RunSelection(s, events);
  }

  /** Every edit the panel requests targets a message id it was told to edit. */
  lemma {:induction false} EditsTargetClickedIds(s: State, events: seq<Event>)
    requires s == Initial
    ensures forall a | a in Run(s, events).1 && a.Edit? ::
      exists i | 0 <= i < |events| :: events[i] == ClickEdit(a.messageId)
    ensures Run(s, events).0.editingMessageId.Some? ==>
      exists i | 0 <= i < |events| :: events[i] == ClickEdit(Run(s, events).0.editingMessageId.value)
  {
    if |events| > 0 {
      var prefix := events[..|events| - 1];
      EditsTargetClickedIds(s, prefix);
      forall i | 0 <= i < |prefix|
        ensures events[i] == prefix[i]
      {
      }
    }
  }
}
