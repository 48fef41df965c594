# chat-mole: message item, conversation panel and session route

A Dafny model of the small pieces of decision logic in the chat-mole group
chat application. Everything else in the application is rendering or calls
into the hosted chat service and the ORM.

- **Message item** (`components/MessageItem/index.tsx`). The author colour is
  `stringToHue` followed by `getUserColor`. The hash uses JavaScript number
  semantics: `<<` converts to a signed 32-bit value and wraps, while `-`
  and `+` stay exact on the integers reached. `%` is a truncating
  remainder, so hues can be negative. The item also models `hasReactions`,
  the toolbar's author gating of edit and delete, the emoji picker's open
  flag, and the callbacks the item forwards.
- **Conversation panel** (`components/Conversation/index.tsx`). This is the
  `editingMessageId` selection. `handleSend` chooses between editing and
  sending, and `inputContent` looks up the text being edited. Requests to
  the chat service are an action log: `Edit(id, content)` or
  `Send(content)`.
- **Session route** (`app/api/session/route.ts`). GET and POST are
  functions over the cookie session and an abstract user store. The store
  is the set of stored usernames.

Modules, one file each:

- `JsValues` (`js_values.dfy`) covers code-unit strings, `null` as
  `Option`, truthiness, ToInt32, `<< 5`, the truncating `%` and safe
  integers.
- `Decimal` (`decimal.dfy`) covers how `${n}` renders an integer, and the
  parser that reads it back.
- `UserColor` (`user_color.dfy`) covers the hash, the hue and the `hsl(...)`
  colour with its parser.
- `MessageItem` (`message_item.dfy`), `Conversation` (`conversation.dfy`)
  and `SessionRoute` (`session_route.dfy`) model the three core files.

Strings are sequences of UTF-16 code units (integers `0..65535`). That is
what `length`, `charCodeAt` and `===` see.

Each step of the hash computes `c + ((h << 5) - h)`.

## Model

| member | source | states |
|---|---|---|
| JsValues.ToInt32 | components/MessageItem/index.tsx:35 | The operand conversion of `<<` gives a signed 32-bit value congruent to its input modulo 2^32. A value already in range is unchanged. |
| JsValues.ShiftLeft5 | components/MessageItem/index.tsx:35 | `h << 5` is a signed 32-bit value. When 32·h itself fits in 32 bits, it is exactly 32·h. |
| JsValues.ShiftLeft5Congruent | components/MessageItem/index.tsx:35 | `h << 5` is congruent to 32·h modulo 2^32, so only the shift wraps. |
| JsValues.JsRem | components/MessageItem/index.tsx:37 | `%` is a truncating remainder. Its magnitude is below the divisor, it is zero or has the dividend's sign, and it differs from the dividend by a multiple of the divisor. |
| Decimal.IntToDecimal | components/MessageItem/index.tsx:29 | The text of an integer is non-empty. It starts with a minus sign iff the integer is negative, and every other character is a digit. For \|n\| < 10^21 this is the text `${n}` writes; the values rendered here are hues in (-360, 360), 90 and 50. |
| Decimal.IntRoundTrip | components/MessageItem/index.tsx:29 | Reading back the decimal text of any integer gives that integer. For \|n\| < 10^21 that text is what `${n}` writes. |
| Decimal.CanonicalRoundTrip | components/MessageItem/index.tsx:29 | Every digit string without a leading zero is the rendering of the number it denotes, so the rendering is a bijection onto such strings. |
| UserColor.HashStep | components/MessageItem/index.tsx:35 | Definition with no contract: one loop iteration, the code unit plus `ShiftLeft5(h) - h`, with no wrap on the subtraction or addition. Its properties are stated by HashBound, HashCongruentPolynomial31 and HashLeavesInt32Example. |
| UserColor.Hash | components/MessageItem/index.tsx:33-36 | Definition with no contract: HashStep folded over the code units from the left, starting at 0. StringToHue's loop is proved to compute it. |
| UserColor.Hue | components/MessageItem/index.tsx:37 | Definition with no contract: JsRem(Hash(s), 360). Range and sign come from JsRem's contract and are restated by StringToHue. |
| UserColor.FormatHsl | components/MessageItem/index.tsx:29 | Definition with no contract: the template `hsl(${hue}, ${saturation}%, ${lightness}%)` over IntToDecimal. FormatHslRoundTrip and FormatHslInjective state its properties. |
| UserColor.HashBound | components/MessageItem/index.tsx:33-36 | The accumulated hash grows at most by 2^31 + 2^16 per code unit. |
| UserColor.HashIsSafe | components/MessageItem/index.tsx:34-36 | Below 2^21 code units, the hash and `(hash << 5) - hash` are safe integers. So the source's double arithmetic is exact, and the model's integers agree with it. |
| UserColor.HashCongruentPolynomial31 | components/MessageItem/index.tsx:34-36 | The hash's low 32 bits equal those of the polynomial Σ c_i·31^(n-1-i) over the code units. |
| UserColor.HashLeavesInt32Example | components/MessageItem/index.tsx:34-37 | For "abcdefgh" the unwrapped subtraction takes the hash to -3035293564, outside the 32-bit range. Its hue is -4, not the 252 a wrapped hash would give. |
| UserColor.StringToHue | components/MessageItem/index.tsx:32-38 | The loop computes the step-by-step hash from 0, then the truncating remainder by 360. The hue lies strictly between -360 and 360 and is zero or has the hash's sign. The empty string gives 0. |
| UserColor.FormatHslRoundTrip | components/MessageItem/index.tsx:29 | Parsing the text of `hsl(${hue}, ${saturation}%, ${lightness}%)` recovers hue, saturation and lightness. |
| UserColor.FormatHslInjective | components/MessageItem/index.tsx:29 | Two colours have the same text exactly when they are equal. |
| UserColor.UserColorShape | components/MessageItem/index.tsx:25-30 | With saturation 90 and lightness 50 the colour is `hsl(` + hue + `, 90%, 50%)`. |
| UserColor.GetUserColor | components/MessageItem/index.tsx:25-30 | `getUserColor` is exactly `hsl(` + the hue of the id + `, 90%, 50%)`. It parses back to that hue with saturation 90 and lightness 50. |
| MessageItem.IsUsersMessage | components/MessageItem/index.tsx:82 | Definition with no contract: code-unit-wise equality of author id and viewer name. Controls, Handle and EditDeleteGated state what it gates. |
| MessageItem.HasReactions | components/MessageItem/index.tsx:40-45 | True iff some reaction count is strictly positive. An empty count map gives false. |
| MessageItem.Controls | components/MessageItem/index.tsx:109-146 | Add-reaction and reply are always offered. Edit and delete are offered iff the author id equals the viewer's username, code unit by code unit (line 82). |
| MessageItem.Mount | components/MessageItem/index.tsx:64 | A new item starts with the picker closed. |
| MessageItem.Handle | components/MessageItem/index.tsx:64-146 | Each event makes at most one callback. Every edit, delete and add-reaction callback carries the message's id, and edit also its content, unchanged. Remove-reaction calls `onRemoveReaction` with its reaction id as given and leaves the item unchanged; reply calls nothing and changes nothing. An edit or delete callback happens only on the viewer's own message. Only picker events change the open flag. |
| MessageItem.PickerHandlers | components/MessageItem/index.tsx:66-74 | Opening sets the flag. Escape or an outside click clears it. Adding a reaction clears it and calls `onAddReaction(message.id, unicode)` once. |
| MessageItem.EditDeleteGated | components/MessageItem/index.tsx:127-146 | Clicking edit calls `onEdit(id, content)`, and clicking delete calls `onDelete(id)`, exactly when the viewer is the author. Otherwise nothing is called. |
| MessageItem.RunOpen | components/MessageItem/index.tsx:64-78 | After any event sequence, the picker is open iff the last picker event was an open, or the start value holds if there was none. |
| MessageItem.RunCallbacks | components/MessageItem/index.tsx:68-74 | Over any event sequence, `onAddReaction` is called exactly once per added reaction. Every edit, delete and add-reaction callback carries this message's id. Edit and delete calls occur only on the viewer's own message. |
| Conversation.EditClick | components/Conversation/index.tsx:30-32 | `handleEditClick(id)` selects `id`, whatever was selected before. |
| Conversation.Clear | components/Conversation/index.tsx:34-36 | `handleClear` returns to the initial, not-editing state, whatever was selected before. |
| Conversation.HandleSend | components/Conversation/index.tsx:20-28 | An edit is requested iff the selection is a non-empty id, and it targets that id. Otherwise a send is requested. Either carries the submitted content. The selection is unchanged. |
| Conversation.FindFirst | components/Conversation/index.tsx:41 | `find` returns the position of the first message with the id. It returns none iff no message has it. |
| Conversation.InputContent | components/Conversation/index.tsx:39-42 | The result is null when not editing or when the list is absent. Otherwise it is the content of the first message whose id is the selection, and it is present iff such a message exists. |
| Conversation.RunSelection | components/Conversation/index.tsx:16-36 | After any event sequence, the selection is the id of the last edit click unless a clear came later. Submitting never changes it. Exactly one action is requested per submit. |
| Conversation.SubmitAfter | components/Conversation/index.tsx:20-28 | After any history, a submit edits the last selected message if that selection is a non-empty id, and sends a new message otherwise. |
| Conversation.EditsTargetClickedIds | components/Conversation/index.tsx:16-36 | Starting from the initial state, every edit targets an id that was clicked for editing, and so does the current selection. |
| SessionRoute.Get | app/api/session/route.ts:10-26 | GET as written throws when there is no session, and never answers 401. With a session, it answers 200 with that session iff a user with its username exists, and 404 with null otherwise; a session without a username counts as having no user (see Left out). |
| SessionRoute.GetChecked | app/api/session/route.ts:17-25 | GET with the missing-session check first answers 401 iff there is no session. Otherwise it answers 200 with the session iff its user exists, and 404 otherwise. |
| SessionRoute.GetMissingSessionThrows | app/api/session/route.ts:11-19 | Without a session, GET as written throws where the intended answer is 401. |
| SessionRoute.GetAgreesWithChecked | app/api/session/route.ts:10-26 | With a session present, GET as written and the intended GET agree. |
| SessionRoute.Post | app/api/session/route.ts:28-47 | A truthy username is kept unchanged, and a falsy one is replaced by the generated name. The session's user exists afterwards. The store grows by exactly that username, and is unchanged if the user already existed. The response is 200 with the saved session. |
| SessionRoute.PostIdempotent | app/api/session/route.ts:28-47 | Once a non-empty username is assigned, a second POST leaves the session, the store and the response unchanged, whatever name the generator offers. |
| SessionRoute.PostThenGet | app/api/session/route.ts:10-47 | Reading the session back after POST answers 200 with the saved session, both with GET as written and with the corrected GET. |
| SessionRoute.PostEmptyGeneratedNotSettled | app/api/session/route.ts:31-34 | If the generator yields the empty string, the username stays falsy, and the next POST generates again. |

## Findings

| source | as written | input that shows it | evidently intended | confidence | as-written member | corrected member |
|---|---|---|---|---|---|---|
| app/api/session/route.ts:13-19 | GET reads `session.username` for the user lookup before it checks `!session`. A missing session throws at that read, so the 401 branch can never run. | `getSession()` yielding no session | Answer 401 when there is no session | low, not executed; the session library appears always to return an object, so the dead branch may never matter in practice | SessionRoute.Get, SessionRoute.GetMissingSessionThrows | SessionRoute.GetChecked, SessionRoute.GetAgreesWithChecked |

## Left out

- UserColor.StringToHue: requires fewer than 2^21 code units. Beyond that the source's doubles can round, and floating point is not modelled. HashIsSafe proves that nothing rounds below the bound.
- UserColor.GetUserColor: has the same length bound, because it calls StringToHue.
- JsValues.JsRem: covers positive divisors only, the one case the source uses (`% 360`). The model's integers have no negative zero. JavaScript gives `-0` when a negative hash is a multiple of 360, but `${-0}` renders as "0", the same text the model produces.
- SessionRoute.Post: takes a present session. A missing one would throw at the first `session.username` read, as in Get.
- SessionRoute.Get: treats the user lookup for a session without a username (`findUnique` with an undefined `username`) as finding no user, so such a session answers 404. The ORM may instead reject a `where` clause with no defined unique field, in which case the handler throws there. The ORM is not part of this model. Get also assumes `getSession` and `findUnique` resolve; a rejection would propagate out of the handler.
- SessionRoute.Post: assumes `getSession`, `generateUsername`, `findUnique`, `createUser` and `session.save()` all resolve. A rejection from any of them propagates out of the handler instead of the 200 response.
- `generateUsername` is an input to Post. `createUser` is assumed to insert exactly the given name. Their code is not part of this model.
- `session.save()` is modelled by returning the saved session. Cookie encryption and persistence live in the session library.
- The chat service (`useMessages`, `useConversation`, `edit`, `send`) is an action log. Delivery, ordering, presence and the values its promises resolve to belong to that service.
- React memoisation and closure capture (`useCallback`, `useMemo`, `memo`) are not modelled. Every handler sees the current state.
- `useKeyboardDown` and `useOutsideAlerter` are not shown. Both are one `Escape` event, because both call `handleEscape`.
- `EmojiPicker` and `MessageReactions` are not shown. So is the question of when the popover or reaction bar is visible. Handle treats the picker and reaction handlers as always callable. Only edit and delete are gated, because their gating is in the item itself.
- Conversation.Run: treats edit clicks as always possible. The panel passes the message list an empty viewer name (components/Conversation/index.tsx:53), and only `onEdit` is wired. If the list forwards that name to each item, edit controls appear only on messages with an empty author id, so `handleEditClick` would be unreachable from the UI. `MessageList` is not part of this model, so whether it forwards the name cannot be seen.
- Decimal.IntToDecimal: renders every integer in plain decimal. JavaScript switches to exponent form (`1e+21`) from 10^21, and above 2^53 a double no longer holds every integer. Only hues in (-360, 360), 90 and 50 are rendered here.
- The reply control has no handler (its title is "Coming soon"). Clicking it does nothing.
- Reaction counts are integers. Non-integral numbers are not modelled.
- JSX rendering, styling, tooltips and the HTTP/JSON encoding of `Response.json` are not modelled. A response is a status and an optional session body.
- `app/layout.tsx`, `app/[channel]/page.tsx` and the channel-membership route `app/api/channels/[name]/route.ts` are outside this model. They are layout, or membership bookkeeping delegated to the ORM.
- Concurrent requests to the session route are not modelled. Each call is a single sequential transition.
