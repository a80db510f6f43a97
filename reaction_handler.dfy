/**
 * The `reaction_added` event handler: a checkmark from the original asker
 * turns the bot's welcome reply into a "solved" one; a checkmark from anyone
 * else is taken off again.
 */
module ReactionHandler {
  import opened Platform

  /** The reacted item: its channel, its timestamp and, if it sits in a thread, the thread's root timestamp. */
  datatype Item = Item(channel: string, ts: string, threadTs: Option<string>)

  /** A `reaction_added` event: who reacted, with which emoji name, on which item. */
  datatype ReactionEvent = ReactionEvent(user: string, reaction: string, item: Item)

  /** A message as `conversations.history` returns it: its `user`, `bot_id` and `text` fields. */
  datatype HistoryMessage = HistoryMessage(user: Option<string>, botId: Option<string>, text: Option<string>)

  /** A `conversations.history` lookup: the newest message at or before `latest` (inclusive, limit 1). */
  datatype HistoryQuery = HistoryQuery(channel: string, latest: string)

  /** What the handler finally does: nothing, `reactions.remove`, or `chat.update`. */
  datatype Action =
    | NoAction
    | RemoveReaction(channel: string, timestamp: string, name: string)
    | UpdateText(channel: string, ts: string, text: string)

  /** The substring whose presence makes the handler leave a message alone. */
  const SolvedMarker: string := "✅ *Marked as solved*"

  predicate IsCheckmark(reaction: string) {
    reaction == "white_check_mark" || reaction == "heavy_check_mark"
  }

  predicate StartsWith(text: string, prefix: string) {
    |prefix| <= |text| && text[..|prefix|] == prefix
  }

  /** `text.includes(part)` */
  predicate Contains(text: string, part: string)
    decreases |text|
  {
    StartsWith(text, part) || (text != [] && Contains(text[1..], part))
  }

  /** The text a resolved welcome reply is edited to. */
  function SolvedText(user: string): (r: string)
    ensures StartsWith(r, WelcomeMessage)
    ensures |user| + 4 < |r|
    ensures r[|r| - 2..] == ">*"
    ensures r[|r| - |user| - 2..|r| - 2] == user
    ensures r[|r| - |user| - 4..|r| - |user| - 2] == "<@"
  {
    WelcomeMessage + "\n\n✅ *Marked as solved by <@" + user + ">*"
  }

  /** The lookup of the thread root: the thread's timestamp if there is one, else the item's own. */
  function RootQuery(item: Item): HistoryQuery {
    HistoryQuery(item.channel, if Truthy(item.threadTs) then item.threadTs.value else item.ts)
  }

  /** The lookup of the reacted message itself. */
  function ReactedQuery(item: Item): HistoryQuery {
    HistoryQuery(item.channel, item.ts)
  }

  /** The reacted message exists and carries the bot's own id (`bot_id === client.botId`). */
  predicate BotAuthored(reacted: Option<HistoryMessage>, botId: Option<string>) {
    reacted.Some? && reacted.value.botId == botId
  }

  /** The reacted message passes every guard that comes before the asker check. */
  predicate Eligible(ev: ReactionEvent, reacted: Option<HistoryMessage>, botId: Option<string>) {
    && IsCheckmark(ev.reaction)
    && BotAuthored(reacted, botId)
    && reacted.value.text.Some?
    && !Contains(reacted.value.text.value, SolvedMarker)
  }

  /** The thread root was found and was posted by `user`. */
  predicate AskedBy(root: Option<HistoryMessage>, user: string) {
    root.Some? && root.value.user == Some(user)
  }

  /**
   * The handler's decision, given the thread root and the reacted message as
   * the two history lookups returned them (`None` when a lookup found nothing)
   * and the bot's own id. A missing root or a reacted message without text
   * makes the handler throw, which it catches: no action.
   */
  function HandleReaction(ev: ReactionEvent, root: Option<HistoryMessage>, reacted: Option<HistoryMessage>,
                          botId: Option<string>): (r: Action)
    // other emoji, messages not by the bot, and messages already marked are left alone
    ensures !IsCheckmark(ev.reaction) ==> r == NoAction
    ensures !BotAuthored(reacted, botId) ==> r == NoAction
    ensures reacted.Some? && reacted.value.text.Some? && Contains(reacted.value.text.value, SolvedMarker)
            ==> r == NoAction
    // anyone but the asker has exactly their own reaction removed, and the text is kept
    ensures r.RemoveReaction? <==> Eligible(ev, reacted, botId) && root.Some? && !AskedBy(root, ev.user)
    ensures r.RemoveReaction? ==> r == RemoveReaction(ev.item.channel, ev.item.ts, ev.reaction)
    // only the asker resolves, and the new text depends on nothing but who they are
    ensures r.UpdateText? <==> Eligible(ev, reacted, botId) && AskedBy(root, ev.user)
    ensures r.UpdateText? ==> r == UpdateText(ev.item.channel, ev.item.ts, SolvedText(ev.user))
  {
    if !IsCheckmark(ev.reaction) then NoAction
    else if reacted.None? || reacted.value.botId != botId then NoAction
    else if reacted.value.text.None? then NoAction
    else if Contains(reacted.value.text.value, SolvedMarker) then NoAction
    else if root.None? then NoAction
    else if root.value.user != Some(ev.user) then RemoveReaction(ev.item.channel, ev.item.ts, ev.reaction)
    else UpdateText(ev.item.channel, ev.item.ts, SolvedText(ev.user))
  }

  /**
   * The whole handler: `history` answers each `conversations.history`
   * lookup with the message it returns, and the handler decides on the
   * thread root and the reacted message it found. For a reaction on an
   * item outside a thread both lookups are the same one, so the root is the
   * reacted message itself: an eligible message is then marked solved only
   * when its own `user` reacts, and every other checkmark on it is removed.
   */
  function React(ev: ReactionEvent, history: HistoryQuery -> Option<HistoryMessage>, botId: Option<string>): (r: Action)
    ensures r == HandleReaction(ev, history(RootQuery(ev.item)), history(ReactedQuery(ev.item)), botId)
    ensures !Truthy(ev.item.threadTs) ==>
              var reacted := history(ReactedQuery(ev.item));
              && (r.UpdateText? <==> Eligible(ev, reacted, botId) && reacted.value.user == Some(ev.user))
              && (r.RemoveReaction? <==> Eligible(ev, reacted, botId) && reacted.value.user != Some(ev.user))
  {
    HandleReaction(ev, history(RootQuery(ev.item)), history(ReactedQuery(ev.item)), botId)
  }

  /** The text of the reacted message once the action is carried out. */
  function TextAfter(a: Action, current: string): string {
    if a.UpdateText? then a.text else current
  }

  /** The solved banner names who solved it: different reactors give different texts. */
  lemma SolvedTextNamesReactor(u: string, v: string)
    requires SolvedText(u) == SolvedText(v)
    ensures u == v
  {
  }

  /**
   * Solved is final: once the reply reads as solved by the asker, no
   * reaction by anyone changes its text again. A second checkmark from the
   * asker rewrites the very same text.
   */
  lemma SolvedIsFinal(ev: ReactionEvent, root: Option<HistoryMessage>, reacted: Option<HistoryMessage>,
                      botId: Option<string>, asker: string)
    requires AskedBy(root, asker)
    requires reacted.Some? && reacted.value.text == Some(SolvedText(asker))
    ensures TextAfter(HandleReaction(ev, root, reacted, botId), SolvedText(asker)) == SolvedText(asker)
  {
  }

  /** Unsolved to Solved: a checkmark by the asker on the bot's unmarked reply marks it solved by them. */
  lemma AskerSolves(ev: ReactionEvent, root: Option<HistoryMessage>, reacted: Option<HistoryMessage>,
                    botId: Option<string>)
    requires Eligible(ev, reacted, botId) && AskedBy(root, ev.user)
    ensures TextAfter(HandleReaction(ev, root, reacted, botId), reacted.value.text.value) == SolvedText(ev.user)
  {
  }
}
