/**
 * The message item of the chat list: whether it shows its reaction bar,
 * which controls it offers to the viewing user, the open flag of its
 * emoji picker, and the callbacks it forwards to its parent.
 */
module MessageItem {
  import opened JsValues

  /** The fields of a chat message the item reads. */
  datatype Message = Message(
    id: JsString,
    clientId: JsString,
    content: JsString,
    reactionCounts: map<JsString, int>)

  /**
   * `hasReactions`: whether some reaction has a strictly positive count.
   * The entries are visited in no particular order, as `some` over
   * `Object.entries` may stop at the first hit.
   */
  method HasReactions(message: Message) returns (r: bool)
    ensures r <==> exists name :: name in message.reactionCounts && message.reactionCounts[name] > 0
    ensures message.reactionCounts == map[] ==> !r
  {
    var counts := message.reactionCounts;
    var remaining := counts.Keys;
    r := false;
    while remaining != {} && !r
      invariant remaining <= counts.Keys
      invariant r ==> exists name :: name in counts && counts[name] > 0
      invariant !r ==> forall name :: name in counts && name !in remaining ==> counts[name] <= 0
      decreases remaining
    {
      var name :| name in remaining;
      if counts[name] > 0 {
        r := true;
      }
      remaining := remaining - {name};
    }
  }

  /** `isUsersMessage`: exact, code-unit-wise (so case-sensitive) equality of author and viewer. */
  predicate IsUsersMessage(message: Message, username: JsString)
  {
    message.clientId == username
  }

  /** The controls of the item's tooltip toolbar. */
  datatype Control = AddReactionControl | ReplyControl | EditControl | DeleteControl

  /** The toolbar in display order: edit and delete follow only on the viewer's own message. */
  function Controls(message: Message, username: JsString): (cs: seq<Control>)
    ensures AddReactionControl in cs && ReplyControl in cs
    ensures EditControl in cs <==> message.clientId == username
    ensures DeleteControl in cs <==> message.clientId == username
    ensures cs[..2] == [AddReactionControl, ReplyControl]
  {
    [AddReactionControl, ReplyControl]
      + (if IsUsersMessage(message, username) then [EditControl, DeleteControl] else [])
  }

  /** What the user can do to an item; each case names the handler it reaches. */
  datatype Event =
    | OpenPicker                          // handleOpenPicker: add-reaction control or reaction bar
    | Escape                              // handleEscape: Escape key or a click outside the item
    | AddReaction(unicode: JsString)      // handleAddReaction: emoji picker or reaction bar
    | RemoveReaction(reactionId: JsString) // onRemoveReaction, passed to the reaction bar as is
    | ClickReply                          // the reply control has no handler yet
    | ClickEdit
    | ClickDelete

  /** The calls the item makes on its parent's callbacks. */
  datatype Callback =
    | OnEdit(messageId: JsString, content: JsString)
    | OnDelete(messageId: JsString)
    | OnAddReaction(messageId: JsString, unicode: JsString)
    | OnRemoveReaction(reactionId: JsString)

  /** The props the item is rendered with, and its one piece of state. */
  datatype Item = Item(message: Message, username: JsString, open: bool)

  /** A freshly mounted item: `useState(false)`, the picker is closed. */
  function Mount(message: Message, username: JsString): (item: Item)
    ensures !item.open
    ensures item.message == message && item.username == username
  {
    Item(message, username, false)
  }

  /** A callback that concerns this item's message names its id and content as they are. */
  predicate ForwardsMessage(cb: Callback, message: Message)
  {
    match cb
    case OnEdit(id, content) => id == message.id && content == message.content
    case OnDelete(id) => id == message.id
    case OnAddReaction(id, _) => id == message.id
    case OnRemoveReaction(_) => true
  }

  /** Events that touch the picker's open flag. */
  predicate IsPickerEvent(ev: Event)
  {
    ev.OpenPicker? || ev.Escape? || ev.AddReaction?
  }

  /**
   * One event handled by the item. Edit and delete are only reachable
   * through controls rendered for the viewer's own message; on any other
   * message the click has nothing to land on.
   */
  function Handle(item: Item, ev: Event): (r: (Item, seq<Callback>))
    ensures r.0.message == item.message && r.0.username == item.username
    ensures !IsPickerEvent(ev) ==> r.0.open == item.open
    ensures |r.1| <= 1
    ensures forall cb | cb in r.1 :: ForwardsMessage(cb, item.message)
    ensures forall cb | cb in r.1 && (cb.OnEdit? || cb.OnDelete?) :: IsUsersMessage(item.message, item.username)
    ensures ev.RemoveReaction? ==> r == (item, [OnRemoveReaction(ev.reactionId)])
    ensures ev.ClickReply? ==> r == (item, [])
  {
    var m := item.message;
    var own := IsUsersMessage(m, item.username);
    match ev
    case OpenPicker => (item.(open := true), [])
    case Escape => (item.(open := false), [])
    case AddReaction(unicode) => (item.(open := false), [OnAddReaction(m.id, unicode)])
    case RemoveReaction(reactionId) => (item, [OnRemoveReaction(reactionId)])
    case ClickReply => (item, [])
    case ClickEdit => (item, if own then [OnEdit(m.id, m.content)] else [])
    case ClickDelete => (item, if own then [OnDelete(m.id)] else [])
  }

  /** The picker handlers: open sets the flag, escape clears it, adding a reaction clears it and reports once. */
  lemma PickerHandlers(item: Item, unicode: JsString)
    ensures Handle(item, OpenPicker) == (item.(open := true), [])
    ensures Handle(item, Escape) == (item.(open := false), [])
    ensures Handle(item, AddReaction(unicode)) == (item.(open := false), [OnAddReaction(item.message.id, unicode)])
  {
  }

  /** Edit and delete report the message's own id (and content) exactly when the viewer is its author. */
  lemma EditDeleteGated(item: Item)
    ensures Handle(item, ClickEdit).1 == (if item.message.clientId == item.username
      then [OnEdit(item.message.id, item.message.content)] else [])
    ensures Handle(item, ClickDelete).1 == (if item.message.clientId == item.username
      then [OnDelete(item.message.id)] else [])
  {
  }

  /** A sequence of events handled in order, with every callback made along the way. */
  function Run(item: Item, events: seq<Event>): (Item, seq<Callback>)
  {
    if |events| == 0 then (item, [])
    else
      var (mid, before) := Run(item, events[..|events| - 1]);
      var (last, now) := Handle(mid, events[|events| - 1]);
      (last, before + now)
  }

  /**
   * Reference for the picker flag: the effect of the last picker event,
   * or the starting value when there is none.
   */
  function FinalOpen(open: bool, events: seq<Event>): bool
  {
    if |events| == 0 then open
    else
      var ev := events[|events| - 1];
      if IsPickerEvent(ev) then ev.OpenPicker? else FinalOpen(open, events[..|events| - 1])
  }

  /** The picker is open after a run exactly when the last picker event opened it. */
  lemma {:induction false} RunOpen(item: Item, events: seq<Event>)
    ensures Run(item, events).0.open == FinalOpen(item.open, events)
    ensures Run(item, events).0.message == item.message
    ensures Run(item, events).0.username == item.username
  {
    if |events| > 0 {
      RunOpen(item, events[..|events| - 1]);
    }
  }

  function CountAddReactionEvents(events: seq<Event>): nat
  {
    if |events| == 0 then 0
    else CountAddReactionEvents(events[..|events| - 1]) + (if events[|events| - 1].AddReaction? then 1 else 0)
  }

  function CountAddReactionCalls(calls: seq<Callback>): nat
  {
    if |calls| == 0 then 0
    else CountAddReactionCalls(calls[..|calls| - 1]) + (if calls[|calls| - 1].OnAddReaction? then 1 else 0)
  }

  lemma {:induction false} CountAddReactionCallsAppend(a: seq<Callback>, b: seq<Callback>)
    ensures CountAddReactionCalls(a + b) == CountAddReactionCalls(a) + CountAddReactionCalls(b)
  {
    if |b| > 0 {
      assert (a + b)[..|a + b| - 1] == a + b[..|b| - 1];
      CountAddReactionCallsAppend(a, b[..|b| - 1]);
    } else {
      assert a + b == a;
    }
  }

  /**
   * Over any run, `onAddReaction` is called exactly once per reaction
   * added, always with this message's id; every edit or delete call
   * belongs to the viewer's own message.
   */
  lemma {:induction false} RunCallbacks(item: Item, events: seq<Event>)
    ensures CountAddReactionCalls(Run(item, events).1) == CountAddReactionEvents(events)
    ensures forall cb | cb in Run(item, events).1 :: ForwardsMessage(cb, item.message)
    ensures forall cb | cb in Run(item, events).1 && (cb.OnEdit? || cb.OnDelete?) ::
      IsUsersMessage(item.message, item.username)
  {
    if |events| > 0 {
      var prefix := events[..|events| - 1];
      var ev := events[|events| - 1];
      RunCallbacks(item, prefix);
      RunOpen(item, prefix);
      var (mid, before) := Run(item, prefix);
      var (last, now) := Handle(mid, ev);
      CountAddReactionCallsAppend(before, now);
      assert CountAddReactionCalls(now) == (if ev.AddReaction? then 1 else 0) by {
        if |now| == 1 {
          assert now[..0] == [];
        }
      }
    }
  }
}
