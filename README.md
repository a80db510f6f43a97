# Scrapyard support bot, modelled in Dafny

The bot (`app.js`) watches one support channel. When someone posts a root
message there for the first time, it records that user in the Interaction
Store and replies in a thread with a canned welcome text. When the original
asker reacts to that reply with a checkmark, the bot edits the reply to say
"Marked as solved by" that user. A checkmark from anyone else is removed
again. The Interaction Store is a set of user ids mirrored to a JSON array
on disk.

The model has four modules:

- `Platform` (`platform.dfy`): message events, posts, JavaScript truthiness
  of optional fields, and the two canned texts, character for character.
- `InteractionStore` (`interaction_store.dfy`): the class `Store`. Its `ids`
  is the `userInteractions` Set in insertion order, which is the order a
  JavaScript Set iterates in. Its `file` is the storage file, one of
  `Missing`, `Corrupt` or `Stored(array)`. The class loads the file, adds
  ids and saves. `FromArray` is `new Set(array)`.
- `MessageHandler` (`message_handler.dfy`):
  - `Step` is the handler as a function of the store, the file and one
    event.
  - `HandleMessage` is the same handler as a method that updates a `Store`
    in place, proved equal to `Step`.
  - `Run` and `Welcomed` follow a whole sequence of events.
  - How the file write turns out (written, failed before opening the
    file, or failed after truncating it) and whether the welcome post
    throws are inputs.
- `ReactionHandler` (`reaction_handler.dfy`): `HandleReaction` is a pure
  function. It takes the event, the two messages the history lookups
  returned and the bot's id, and returns the single action the bot takes.
  `React` feeds it from a `history` function that answers the two lookups
  the handler makes.

Three behaviours of the code are easy to misread. The model keeps each of
them as the code has it:

- Solved-marker guard. The guard (app.js:80) skips messages that contain
  `✅ *Marked as solved*`. The edit (app.js:100) writes
  `✅ *Marked as solved by <@U>*`, so the `*` comes after the user mention
  and not right after "solved". The guard therefore does not recognise the
  bot's own edit. The model does not claim that the guard stops a second
  approval. What it proves is that a second approval is harmless:
  `SolvedIsFinal` shows that once the reply is solved by the asker, no
  reaction changes its text. The reason is that the new text is built only
  from the welcome text and the reactor's id (`HandleReaction`,
  `SolvedTextNamesReactor`). A consequence the model keeps: a checkmark from
  someone other than the asker on an already solved reply is still removed.
- Save failure. The write error is not caught inside
  `saveUserInteractions`. It reaches the handler's `catch`. By then the
  author has already been added to the in-memory set. They get the fallback
  reply instead of the welcome, and are never welcomed later in that
  process (`Step`). A write that fails after `writeFileSync` has truncated
  the file leaves a file that does not parse, so the next start begins with
  an empty store (`Store.Save`, `LoadedIds`).
- Bot id. The bot's id is compared with `!==`. The model takes it as an
  optional value, so a missing bot id equals a missing `bot_id`, as
  `undefined === undefined` does in JavaScript. The properties about
  messages not written by the bot hold as stated in `HandleReaction`: the
  message's `bot_id` must equal the given id.

## Model

| member | source | states |
|---|---|---|
| InteractionStore.FromArray | app.js:26 | building the Set from the parsed array gives no repeated ids, exactly the array's elements, and no more entries than the array |
| InteractionStore.FromDistinctArray | app.js:26 | an array without repeats comes back from the Set unchanged, order included |
| InteractionStore.LoadedIds | app.js:23-31 | startup gives a duplicate-free store: the file's ids when it parsed, the empty store when the file was missing or unparseable |
| InteractionStore.SaveLoadRoundTrip | app.js:34-36 | loading what a save wrote gives back exactly the saved store |
| InteractionStore.Store.Load | app.js:23-31 | the loaded store is valid and equals what the file held; after a failed read or parse the file is reset to `[]` |
| InteractionStore.Store.Add | app.js:122 | `add` appends an id that is not yet a member and otherwise leaves the store unchanged; no id is ever repeated |
| InteractionStore.Store.Save | app.js:34-38 | a successful save overwrites the file with the whole store as one array; a write that fails before the file is opened leaves it as it was; one that fails after truncating it leaves a file that loads as the empty store; any failure is reported |
| MessageHandler.Step | app.js:109-141 | the store only grows, by the event's author at most; other channels, missing user or text, other types and thread replies change nothing and post nothing; a known author gets nothing; a new author is inserted and the whole new store is written at once; the welcome is posted exactly when that write succeeded; the fallback reply is posted exactly when the write or the welcome post threw; the posts are given exactly for each case, all threaded at the event's `ts` in its channel |
| MessageHandler.HandleMessage | app.js:109-141 | the in-place handler leaves the store, the file and the returned posts exactly as `Step` says, and keeps the store free of repeats |
| MessageHandler.StoreOnlyGrows | app.js:121-123 | over any sequence of events the store never loses an id, keeps its order and never holds an id twice |
| MessageHandler.WelcomeAtMostOnce | app.js:121-130 | over any sequence of events no author is welcomed twice; no author already in the store is welcomed; every welcomed author qualified and ends up in the store |
| MessageHandler.EveryNewAskerWelcomed | app.js:121-130 | when no save fails, every qualifying author not yet in the store is welcomed |
| MessageHandler.FilteredRunIsInert | app.js:111-119 | a sequence of events that all fail the filters leaves the store and the file unchanged and posts nothing |
| MessageHandler.PersistedStaysPersisted | app.js:121-123 | an id that is in both the store and the file stays in both over any sequence of events in which no write truncates the file |
| MessageHandler.WelcomedArePersisted | app.js:23-31 | when no write truncates the file, every author welcomed during a run is in the store loaded from the file the run leaves behind |
| MessageHandler.NoWelcomeAfterRestart | app.js:121-130 | after a restart that loads that file, no author welcomed before the restart is welcomed again by any sequence of events that follows |
| ReactionHandler.SolvedText | app.js:100 | the solved text starts with the whole welcome text and ends with `<@`, the reactor's id and `>*`, the id inside the mention |
| ReactionHandler.React | app.js:57-101 | the handler decides on the messages the two lookups return; for an item outside a thread both lookups are the same one, so an eligible message is marked solved exactly when its own author reacts, and any other checkmark on it is removed |
| ReactionHandler.HandleReaction | app.js:51-107 | non-checkmark emoji, messages not written by the bot and messages that contain the marker draw no action; the reaction is removed (same channel, `ts` and emoji) exactly when an eligible message is reacted to by someone other than the thread root's author; the text is edited exactly when the root's author reacts, and the new text is `SolvedText` of the reactor |
| ReactionHandler.SolvedTextNamesReactor | app.js:100 | different reactors produce different solved texts, so the edit records who solved the thread |
| ReactionHandler.SolvedIsFinal | app.js:77-101 | once the bot's reply reads as solved by the asker, no reaction by anyone changes its text again |
| ReactionHandler.AskerSolves | app.js:83-101 | the Unsolved to Solved transition: a checkmark by the asker on the bot's unmarked reply leaves it reading `SolvedText` of the asker |

## Left out

- Bolt app construction, credentials and environment variables, socket mode and `app.start` (app.js:7-12, 162-169). These are external SDK wiring. The configured channel is a parameter, and `None` stands for an unset variable, which no channel matches.
- The network calls `conversations.history`, `chat.postMessage`, `chat.update` and `reactions.remove`. Fetched messages are inputs and issued calls are returned values. A history lookup that throws, or returns no `messages` array, ends the reaction handler with no action. The model does not take that as an input.
- `Store.Save`: a failed write that leaves a cut-short array which still parses is not modelled. A prefix of a JSON array without its closing `]` never parses, so every write that fails after truncating the file is modelled as leaving unparseable content.
- `as_user: true` on the edit, and whether an issued `reactions.remove` or `chat.update` succeeds. Both failures are only logged.
- Filesystem details: creating the `data` directory (app.js:18-20), byte contents, JSON escaping, and the storage path. The file is a sequence of ids, or missing, or unparseable. Parsed JSON that is not an array of strings (a string, `null`, an object, numbers) is not modelled. A failing write of `[]` at startup is not modelled either; it would stop the process.
- Logging, the global `app.error` hook (app.js:144-146), and the SIGINT/SIGTERM handlers (app.js:149-159), which call the same save as `Store.Save` and then exit.
- Concurrency: each handler runs as one atomic step. The race in which two first messages from the same new user both get a welcome is not modelled.
- A failure of the fallback post itself. Nothing handles it in the source, and the model records only that the post was issued.
- String lengths: Dafny strings are sequences of Unicode scalar values, while JavaScript counts UTF-16 units. The model uses lengths only inside its own proofs.
