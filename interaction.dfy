/** Values that travel between the bot's commands and the chat platform. */
module Interaction {

  /** The conventional optional value: an absent card, an absent button press. */
  datatype Option<T> = None | Some(value: T) {
    /** The value, or `default` when absent (JavaScript's `??`). */
    function GetOr(default: T): (r: T)
      ensures Some? ==> r == value
      ensures None? ==> r == default
    {
      match this
      case Some(v) => v
      case None => default
    }
  }

  /** A `{ name, value }` pair: a slash-command option choice or an autocomplete suggestion. */
  datatype Choice = Choice(name: string, value: string)
}
