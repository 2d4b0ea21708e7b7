# Image readers of a Telegram bot conversation, in Dafny

This project models the two image readers of the bot's `readers` package
(`handlers/readers/image.go`):

- `GetImage` asks the user for one photo.
- `GetImages` asks for a photo that belongs to an album (a Telegram "media
  group"). It then keeps asking for more updates and appends each photo of the
  same album, until the user exits, the wait times out, or an unrelated update
  arrives. That unrelated update is dropped.

The two conversation collaborators become input data:

- The answer of `AskGenericMessageReplyWithValidation` is an `AskReply`: the
  accepted update (possibly nil), the exit flag and the error.
- The successive answers of `GetUpdateFromUserWithTimeout` are a finite
  sequence of `Poll` values `(update, isExit, isTimeout)`. Running out of polls
  reads as a timeout.

An update keeps only the fields the readers look at: the callback query's
data, the message's `MediaGroupID` and its `Photo` list. A `PhotoSize` is an
opaque type parameter. The error is a type parameter too, because it is only
passed through.

Files:

- `telegram.dfy` (module `Telegram`): `Option`, `Message`, `Update`, and
  nil-safe accessors for the photo list, the group id and the callback data.
- `image.dfy` (module `Readers`): the two validators, `GetImage`, and
  `GetImages`. `GetImages` is an imperative method whose loop appends in place
  and leaves by `break`. It is proved equal to the pure specification
  `GetImagesOutcome`, which is built on the recursive `CollectGroup`.

The model adds one output, `polled`. It counts the polls `GetImages`
consumed, so the model can state that nothing is polled after an error or
without a photo, and that no poll after the stopping one is examined.

## Model

| member | source | states |
|---|---|---|
| `Readers.ImageValidator` | handlers/readers/image.go:28-33 | accepts, with `(true, "")`, exactly the updates whose message carries a non-empty photo list; everything else gets `(false, textOnIncorrect)` |
| `Readers.MediaGroupValidator` | handlers/readers/image.go:50-55 | accepts, with `(true, "")`, exactly the messages with a non-empty photo list and a non-empty `MediaGroupID`, otherwise `(false, textOnIncorrect)`; whatever it accepts the `GetImage` validator accepts too |
| `Readers.UngroupedPhotoAcceptedOnlyByImageValidator` | handlers/readers/image.go:50-55 | a photo message outside any album is accepted by the `GetImage` validator and rejected by the `GetImages` one |
| `Readers.GetImage` | handlers/readers/image.go:34-42 | `Exit` and the error are passed through unchanged; `Data` is the callback data when there is a callback query, else `""`; `Image` is the message's photo list when there is one, else empty |
| `Readers.GetImageHasImageIffAccepted` | handlers/readers/image.go:28-42 | `GetImage` reports a non-empty image exactly when its own validator accepts the reply, and then it is that message's photo list |
| `Readers.CollectGroup` | handlers/readers/image.go:70-85 | the loop appends, in arrival order, the photo lists of the longest run of polls that are neither exit nor timeout and carry a photo of the same album; it stops on the first poll that is not such a poll and drops it; the exit flag is set exactly when that poll is an exit, which is checked before the timeout; it consumes the run plus that poll, or all polls when they run out |
| `Readers.CollectGroupIgnoresLaterPolls` | handlers/readers/image.go:71-84 | once the loop has stopped on a poll, replacing everything after that poll leaves the result unchanged: no later poll is examined |
| `Readers.CollectGroupGathersAlbum` | handlers/readers/image.go:70-85 | N messages of the album followed by silence, a timeout, an exit or an unrelated update yield exactly the N photo lists in order; only an exit sets the flag |
| `Readers.GetImagesOutcome` | handlers/readers/image.go:56-87 | an error from the first step is returned unchanged with no images, no data, the reported exit flag and no polling; with no photo in the first reply there are no images and no polling; otherwise the images are the first photo list followed by the photo lists that `CollectGroup` appends, with the exit flag set by the first step or by an exit poll; the error is then nil and every image list is non-empty |
| `Readers.GetImages` | handlers/readers/image.go:48-88 | the imperative reader (in-place appends, `for`/`break` loop over the polls) returns exactly what `GetImagesOutcome` specifies, including the number of polls consumed |
| `Readers.GetImagesGathersAlbum` | handlers/readers/image.go:64-87 | a first album photo followed by N further photos of the same album and then silence, an exit or an unrelated update gives N + 1 photo lists in arrival order and a nil error; an exit sets `Exit` and keeps the photos, and nothing else changes the reported flag |
| `Readers.GetImagesIgnoresLaterPolls` | handlers/readers/image.go:61-85 | when `GetImages` stopped on a poll or never polled, the polls after those it consumed make no difference to anything it returns |

## Left out

- `AskGenericMessageReplyWithValidation` is not part of this model. Its
  re-prompt loop and the sending of the prompt are not modelled; only the
  triple it returns is an input. The validators are modelled as functions, but
  nothing here calls them, so the model does not assume the collaborator
  honours them. For this reason `GetImages` does not re-check the first
  reply's `MediaGroupID`, exactly like line 67.
- `GetUpdateFromUserWithTimeout` is not part of this model. Its blocking wait
  and the 2-second `MediaGroupAdditionalPhotoWaitTimeout` (line 45) are out of
  scope. Only its outcomes are modelled, as a finite sequence.
- The `context.Context` argument (cancellation and deadlines) is runtime
  plumbing and is not modelled.
- `conversation.NewMessage` (lines 27 and 49) and the `buttons.ButtonSet`
  navigation only build the outbound prompt and keyboard. They are left out,
  as are the `text` and `navigation` parameters.
- The Telegram update types beyond the four fields read are left out. The
  contents of a `PhotoSize` are never inspected.
- Go's nil and empty slices are both the empty sequence. The code only ever
  takes their length, and the length of a nil slice is 0.
- Two behaviours that may look unintended are modelled as the code has them:
  - `Images` can be non-empty while `Exit` is true. This happens when an exit
    poll ends the album, or when the first step reports both an exit and a
    photo.
  - An exit from the first step does not return early. The photo check still
    runs.
