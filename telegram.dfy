/**
 * The part of the Telegram Bot API update model that the image readers look at:
 * whether an update carries a callback query (and its data), whether it carries a
 * message, and of that message only its media-group identifier and its photo list.
 * A `PhotoSize` is never inspected, so it stays an opaque type parameter `P`.
 */
module Telegram {

  /** A Go pointer that may be nil. */
  datatype Option<+T> = None | Some(value: T)

  /** A message: `MediaGroupID` is "" when the message is not part of an album;
      `Photo` lists the size variants of the attached photo (empty when none). */
  datatype Message<P> = Message(mediaGroupID: string, photo: seq<P>)

  /** An update: `callbackData` is the data of the callback query when there is one. */
  datatype Update<P> = Update(callbackData: Option<string>, message: Option<Message<P>>)

  /** The photo list of a possibly-nil update, reading a missing update or message
      as an empty list, which is what `len` of a nil slice gives in Go. */
  function PhotoOf<P>(u: Option<Update<P>>): (photo: seq<P>)
  {
    match u
    case None => []
    case Some(update) =>
      match update.message
      case None => []
      case Some(m) => m.photo
  }

  /** The media-group identifier of a possibly-nil update, "" when there is no message. */
  function GroupOf<P>(u: Option<Update<P>>): (id: string)
  {
    if u.Some? && u.value.message.Some? then u.value.message.value.mediaGroupID else ""
  }

  /** The callback data of a possibly-nil update, "" when there is no callback query. */
  function CallbackDataOf<P>(u: Option<Update<P>>): (data: string)
  {
    if u.Some? && u.value.callbackData.Some? then u.value.callbackData.value else ""
  }
}
