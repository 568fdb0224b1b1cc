/** The two records of the Slack client library the watcher reads, reduced to
    the fields it uses. The library itself is not part of this model: its
    answers are inputs. */
module Slack {

  /** An entry of `GetConversations`: its ID and display name. */
  datatype Channel = Channel(id: string, name: string)

  /** An entry of `GetConversationHistory`: its author and text. */
  datatype Message = Message(user: string, text: string)

  /** Any error a Slack call returned; only its presence matters. */
  datatype SlackError = SlackError(reason: string)
}
