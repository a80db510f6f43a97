/**
 * Values exchanged with the chat platform: the message events the bot
 * receives, the posts it issues, and the canned texts it sends.
 */
module Platform {

  datatype Option<+T> = None | Some(value: T)

  /** JavaScript truthiness of a string field that may be missing: `undefined` and `""` are falsy. */
  predicate Truthy(s: Option<string>) {
    s.Some? && s.value != ""
  }

  /** The welcome text posted to first-time askers (app.js, WELCOME_MESSAGE). */
  const WelcomeMessage: string :=
    "Hello! 👋 Welcome to Scrapyard Support! \n\n"
    + "I'm here to help you with any questions about Scrapyard!\n\n"
    + "Need help? The team usually responds within a few minutes to a few hours.\n\n"
    + "Want some extra simple guides? Check out our <https://scrapyard-deployment-guide.super.site/|Hackathon Guides>\n\n"
    + "_React with ✅ to mark your question as solved when you're done!_"

  /** The last-resort reply posted when handling a message fails. */
  const FallbackMessage: string :=
    "I'm having trouble processing your request. A human will help you soon!"

  /**
   * A `message` event: `channel`, `user`, `text`, `type`, `ts` and the
   * optional `thread_ts` that marks a reply inside a thread.
   */
  datatype MessageEvent = MessageEvent(
    channel: string,
    user: Option<string>,
    text: Option<string>,
    kind: string,
    ts: string,
    threadTs: Option<string>)

  /** A `chat.postMessage` call: channel, text and the thread it replies in. */
  datatype Post = Post(channel: string, text: string, threadTs: string)
}
