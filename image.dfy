/**
 * The image readers of the bot's conversation layer (package `readers`, file
 * handlers/readers/image.go). `GetImage` asks for one photo; `GetImages` asks for
 * a photo that belongs to an album ("media group") and then keeps polling for the
 * other photos of the same album.
 *
 * The conversation collaborators become inputs: the answer of
 * `AskGenericMessageReplyWithValidation` is an `AskReply`, and the successive
 * answers of `GetUpdateFromUserWithTimeout` are a finite sequence of `Poll`s,
 * whose end reads as a timeout.
 */
module Readers {
  import opened Telegram

  /** The reply of `GetImage`. */
  datatype UserImageAndDataReply<P> = UserImageAndDataReply(exit: bool, data: string, image: seq<P>)

  /** The reply of `GetImages`: one photo list per message of the album, in arrival order. */
  datatype UserImagesAndDataReply<P> = UserImagesAndDataReply(exit: bool, data: string, images: seq<seq<P>>)

  /** What `AskGenericMessageReplyWithValidation` returns: the accepted update
      (possibly nil), whether the user left the conversation, and an error. */
  datatype AskReply<P, E> = AskReply(reply: Option<Update<P>>, exit: bool, err: Option<E>)

  /** What one call of `GetUpdateFromUserWithTimeout` returns. */
  datatype Poll<P> = Poll(update: Option<Update<P>>, isExit: bool, isTimeout: bool)

  /*
   * Validators
   */

  /** The validator of `GetImage`: accepts exactly the messages that carry a photo. */
  function ImageValidator<P>(u: Option<Update<P>>, textOnIncorrect: string): (r: (bool, string))
    ensures r.0 <==> |PhotoOf(u)| > 0
    ensures r == if r.0 then (true, "") else (false, textOnIncorrect)
  {
    if u.Some? && u.value.message.Some? && |u.value.message.value.photo| > 0 then
      (true, "")
    else
      (false, textOnIncorrect)
  }

  /** The validator of `GetImages`: accepts exactly the messages that carry a photo
      and belong to an album; what it accepts, `ImageValidator` accepts too. */
  function MediaGroupValidator<P>(u: Option<Update<P>>, textOnIncorrect: string): (r: (bool, string))
    ensures r.0 <==> GroupOf(u) != "" && |PhotoOf(u)| > 0
    ensures r == if r.0 then (true, "") else (false, textOnIncorrect)
    ensures r.0 ==> ImageValidator(u, textOnIncorrect).0
  {
    if u.Some? && u.value.message.Some? && u.value.message.value.mediaGroupID != ""
       && |u.value.message.value.photo| > 0
    then
      (true, "")
    else
      (false, textOnIncorrect)
  }

  /** A photo sent on its own, outside any album, is what tells the two validators apart. */
  lemma UngroupedPhotoAcceptedOnlyByImageValidator<P>(callback: Option<string>, m: Message<P>, textOnIncorrect: string)
    requires m.mediaGroupID == "" && |m.photo| > 0
    ensures ImageValidator(Some(Update(callback, Some(m))), textOnIncorrect) == (true, "")
    ensures MediaGroupValidator(Some(Update(callback, Some(m))), textOnIncorrect) == (false, textOnIncorrect)
  {
  }

  /*
   * GetImage
   */

  /** `GetImage` once the collaborator has answered: the exit flag and the error pass
      through, the callback data is reported, and the photo list when there is one. */
  function GetImage<P, E>(ask: AskReply<P, E>): (r: (UserImageAndDataReply<P>, Option<E>))
    ensures r.0.exit == ask.exit && r.1 == ask.err
    ensures r.0.data == CallbackDataOf(ask.reply)
    ensures r.0.image == PhotoOf(ask.reply)
  {
    var result := UserImageAndDataReply(ask.exit, "", []);
    var result :=
      if ask.reply.Some? && ask.reply.value.callbackData.Some? then
        result.(data := ask.reply.value.callbackData.value)
      else
        result;
    var result :=
      if ask.reply.Some? && ask.reply.value.message.Some? && |ask.reply.value.message.value.photo| > 0 then
        result.(image := ask.reply.value.message.value.photo)
      else
        result;
    (result, ask.err)
  }

  /** `GetImage` reports an image exactly for the updates its validator accepts. */
  lemma GetImageHasImageIffAccepted<P, E>(ask: AskReply<P, E>, textOnIncorrect: string)
    ensures |GetImage(ask).0.image| > 0 <==> ImageValidator(ask.reply, textOnIncorrect).0
    ensures ImageValidator(ask.reply, textOnIncorrect).0 ==> GetImage(ask).0.image == ask.reply.value.message.value.photo
  {
  }

  /*
   * GetImages
   */

  /** A poll that the accumulation loop appends: no exit, no timeout, and a message
      of the album `groupID` that carries a photo. */
  predicate ContinuesGroup<P>(p: Poll<P>, groupID: string)
  {
    !p.isExit && !p.isTimeout && GroupOf(p.update) == groupID && |PhotoOf(p.update)| > 0
  }

  /** What the accumulation loop gathers: the photo lists appended, whether it
      stopped on an exit, and how many polls it consumed. */
  datatype Collected<P> = Collected(photos: seq<seq<P>>, exit: bool, polled: nat)

  /** The accumulation loop of `GetImages`, as a function of the polls it is given:
      it appends the longest run of polls that continue the album, then stops on the
      first poll that does not (an exit, a timeout, or an update of anything else),
      which is consumed and dropped; an exit counts even when the poll also timed out. */
  function CollectGroup<P>(groupID: string, polls: seq<Poll<P>>): (r: Collected<P>)
    ensures |r.photos| <= |polls|
    ensures forall j :: 0 <= j < |r.photos| ==>
      ContinuesGroup(polls[j], groupID) && r.photos[j] == PhotoOf(polls[j].update)
    ensures |r.photos| < |polls| ==> !ContinuesGroup(polls[|r.photos|], groupID)
    ensures r.exit <==> |r.photos| < |polls| && polls[|r.photos|].isExit
    ensures r.polled == if |r.photos| < |polls| then |r.photos| + 1 else |polls|
  {
    if polls == [] then
      Collected([], false, 0)
    else
      var p := polls[0];
      if p.isExit then
        Collected([], true, 1)
      else if p.isTimeout then
        Collected([], false, 1)
      else if p.update.Some? && p.update.value.message.Some?
              && p.update.value.message.value.mediaGroupID == groupID
              && |p.update.value.message.value.photo| > 0
      then
        var rest := CollectGroup(groupID, polls[1..]);
        Collected([p.update.value.message.value.photo] + rest.photos, rest.exit, rest.polled + 1)
      else
        Collected([], false, 1)
  }

  /** Once the loop has stopped on a poll, what follows that poll is never looked at. */
  lemma {:induction false} CollectGroupIgnoresLaterPolls<P>(groupID: string, polls: seq<Poll<P>>, later: seq<Poll<P>>)
    requires CollectGroup(groupID, polls).polled == |CollectGroup(groupID, polls).photos| + 1
    ensures CollectGroup(groupID, polls[..CollectGroup(groupID, polls).polled] + later) == CollectGroup(groupID, polls)
  {
    var r := CollectGroup(groupID, polls);
    var p := polls[0];
    if !p.isExit && !p.isTimeout && ContinuesGroup(p, groupID) {
      var rest := CollectGroup(groupID, polls[1..]);
      CollectGroupIgnoresLaterPolls(groupID, polls[1..], later);
      assert polls[..r.polled] + later == [p] + (polls[1..][..rest.polled] + later);
    } else {
      assert (polls[..r.polled] + later)[0] == p;
    }
  }

  /** The polls that deliver the messages of `album` one by one. */
  function AlbumPolls<P>(album: seq<Message<P>>): (polls: seq<Poll<P>>)
  {
    seq(|album|, i requires 0 <= i < |album| => Poll(Some(Update(None, Some(album[i]))), false, false))
  }

  /** The photo lists of the messages of `album`, in order. */
  function AlbumPhotos<P>(album: seq<Message<P>>): (photos: seq<seq<P>>)
  {
    seq(|album|, i requires 0 <= i < |album| => album[i].photo)
  }

  /** The messages of an album followed by a poll that ends it (or by nothing, which
      is a timeout) give every photo of the album, in order; only an exit sets the flag. */
  lemma CollectGroupGathersAlbum<P>(groupID: string, album: seq<Message<P>>, stop: seq<Poll<P>>)
    requires forall i :: 0 <= i < |album| ==> album[i].mediaGroupID == groupID && |album[i].photo| > 0
    requires stop == [] || !ContinuesGroup(stop[0], groupID)
    ensures CollectGroup(groupID, AlbumPolls(album) + stop)
         == Collected(AlbumPhotos(album), stop != [] && stop[0].isExit, |album| + if stop == [] then 0 else 1)
  {
    var polls := AlbumPolls(album) + stop;
    var r := CollectGroup(groupID, polls);
    assert forall i :: 0 <= i < |album| ==> polls[i] == AlbumPolls(album)[i] && ContinuesGroup(polls[i], groupID);
    assert |album| < |polls| ==> polls[|album|] == stop[0];
    assert |r.photos| == |album|;
    assert r.photos == AlbumPhotos(album);
  }

  /** Everything `GetImages` returns, and how many polls it consumed. */
  datatype ImagesOutcome<P, E> = ImagesOutcome(result: UserImagesAndDataReply<P>, err: Option<E>, polled: nat)

  /** `GetImages` as a function of the collaborators' answers. */
  function GetImagesOutcome<P, E>(ask: AskReply<P, E>, polls: seq<Poll<P>>): (o: ImagesOutcome<P, E>)
    ensures o.err == ask.err && o.polled <= |polls|
    // the first step failed: nothing is reported and nothing is polled
    ensures ask.err.Some? ==> o.result == UserImagesAndDataReply(ask.exit, "", []) && o.polled == 0
    ensures ask.err.None? ==> o.result.data == CallbackDataOf(ask.reply)
    // no photo in the first reply: no image, no polling
    ensures ask.err.None? && |PhotoOf(ask.reply)| == 0 ==>
      o.result.images == [] && o.result.exit == ask.exit && o.polled == 0
    // a photo: it comes first, then the longest run of polls continuing its album
    ensures ask.err.None? && |PhotoOf(ask.reply)| > 0 ==>
      var k := |o.result.images| - 1;
      && 0 <= k <= |polls|
      && o.result.images[0] == PhotoOf(ask.reply)
      && (forall j :: 0 <= j < k ==>
            ContinuesGroup(polls[j], GroupOf(ask.reply)) && o.result.images[j + 1] == PhotoOf(polls[j].update))
      && (k < |polls| ==> !ContinuesGroup(polls[k], GroupOf(ask.reply)))
      && (o.result.exit <==> ask.exit || (k < |polls| && polls[k].isExit))
      && o.polled == if k < |polls| then k + 1 else |polls|
    ensures forall j :: 0 <= j < |o.result.images| ==> |o.result.images[j]| > 0
  {
    if ask.err.Some? then
      ImagesOutcome(UserImagesAndDataReply(ask.exit, "", []), ask.err, 0)
    else if |PhotoOf(ask.reply)| > 0 then
      var c := CollectGroup(GroupOf(ask.reply), polls);
      ImagesOutcome(
        UserImagesAndDataReply(ask.exit || c.exit, CallbackDataOf(ask.reply), [PhotoOf(ask.reply)] + c.photos),
        ask.err, c.polled)
    else
      ImagesOutcome(UserImagesAndDataReply(ask.exit, CallbackDataOf(ask.reply), []), ask.err, 0)
  }

  /** `GetImages`: asks for an album photo, then appends the photos of the same album
      that follow, one poll at a time, until an exit, a timeout or an unrelated update. */
  method GetImages<P, E>(ask: AskReply<P, E>, polls: seq<Poll<P>>)
    returns (result: UserImagesAndDataReply<P>, err: Option<E>, polled: nat)
    ensures ImagesOutcome(result, err, polled) == GetImagesOutcome(ask, polls)
  {
    var reply, exit := ask.reply, ask.exit;
    err := ask.err;
    polled := 0;
    result := UserImagesAndDataReply(exit, "", []);
    if err.Some? {
      return;
    }
    if reply.Some? && reply.value.callbackData.Some? {
      result := result.(data := reply.value.callbackData.value);
    }
    if reply.Some? && reply.value.message.Some? && |reply.value.message.value.photo| > 0 {
      result := result.(images := result.images + [reply.value.message.value.photo]);
      var mediaGroupID := reply.value.message.value.mediaGroupID;
      ghost var c := CollectGroup(mediaGroupID, polls);
      while true
        invariant polled <= |c.photos|
        invariant result.exit == exit && result.data == CallbackDataOf(reply)
        invariant result.images == [PhotoOf(reply)] + c.photos[..polled]
        decreases |polls| - polled
      {
        if polled == |polls| {
          // no further answer: the wait times out
          assert c.photos[..polled] == c.photos;
          break;
        }
        var p := polls[polled];
        assert polled < |c.photos| <==> ContinuesGroup(p, mediaGroupID);
        polled := polled + 1;
        if p.isExit {
          assert c.photos[..polled - 1] == c.photos;
          result := result.(exit := true);
          break;
        }
        if p.isTimeout {
          assert c.photos[..polled - 1] == c.photos;
          break;
        }
        if p.update.Some? && p.update.value.message.Some?
           && p.update.value.message.value.mediaGroupID == mediaGroupID
           && |p.update.value.message.value.photo| > 0
        {
          assert c.photos[..polled] == c.photos[..polled - 1] + [p.update.value.message.value.photo];
          result := result.(images := result.images + [p.update.value.message.value.photo]);
        } else {
          // not part of the album: the update is dropped
          assert c.photos[..polled - 1] == c.photos;
          break;
        }
      }
      assert c == CollectGroup(GroupOf(reply), polls);
      assert result == UserImagesAndDataReply(exit || c.exit, CallbackDataOf(reply), [PhotoOf(reply)] + c.photos);
      assert polled == c.polled;
    }
  }

  /** The scenarios of an album: N further photos of the same album followed by
      silence, by an exit, or by an unrelated update give N + 1 photo lists in
      arrival order and no error; only the exit sets the flag, and it keeps the photos. */
  lemma GetImagesGathersAlbum<P, E>(ask: AskReply<P, E>, album: seq<Message<P>>, stop: seq<Poll<P>>)
    requires ask.err.None? && |PhotoOf(ask.reply)| > 0
    requires forall i :: 0 <= i < |album| ==> album[i].mediaGroupID == GroupOf(ask.reply) && |album[i].photo| > 0
    requires stop == [] || !ContinuesGroup(stop[0], GroupOf(ask.reply))
    ensures var o := GetImagesOutcome(ask, AlbumPolls(album) + stop);
      && o.result.images == [PhotoOf(ask.reply)] + AlbumPhotos(album)
      && |o.result.images| == |album| + 1
      && (o.result.exit <==> ask.exit || (stop != [] && stop[0].isExit))
      && o.err == None
  {
    CollectGroupGathersAlbum(GroupOf(ask.reply), album, stop);
  }

  /** Whenever `GetImages` stopped on a poll, or never polled, the polls after those
      it consumed make no difference. */
  lemma GetImagesIgnoresLaterPolls<P, E>(ask: AskReply<P, E>, polls: seq<Poll<P>>, later: seq<Poll<P>>)
    requires GetImagesOutcome(ask, polls).polled == |GetImagesOutcome(ask, polls).result.images|
    ensures GetImagesOutcome(ask, polls[..GetImagesOutcome(ask, polls).polled] + later) == GetImagesOutcome(ask, polls)
  {
    if ask.err.None? && |PhotoOf(ask.reply)| > 0 {
      CollectGroupIgnoresLaterPolls(GroupOf(ask.reply), polls, later);
    }
  }
}
