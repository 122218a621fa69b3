/** The "latest resource" panel of `app/blueprints/home_blueprint.py`: the
    newest blog post and the newest video are fetched, and `update` picks the
    more recent one, falling back on whichever fetch succeeded. The fetches
    and the clock are inputs. A failure the fetch catches is `None`; the
    video request's own connection error is not caught and fails the whole
    request. */
module Home {
  import opened Base

  /** A fetched item; `publishedAt` is its timestamp in microseconds, the
      resolution of Python's `datetime` arithmetic. */
  datatype Item = Item(publishedAt: int, link: string, thumbnail: string, title: string)

  /** What the panel shows. */
  datatype Resource = BlogPost(post: Item) | Video(video: Item) | Message(text: string)

  const BothFailedMessage := "Something has gone terribly wrong"

  /** `update`, with `today` the clock reading: when both fetches succeed the
      item published more recently wins and a tie goes to the video; when one
      fails the other is shown; when both fail, the error message. */
  function Select(today: int, blog: Option<Item>, video: Option<Item>): (r: Resource)
    ensures blog.Some? && video.Some? ==>
      (r == BlogPost(blog.value) <==> blog.value.publishedAt > video.value.publishedAt)
    ensures blog.Some? && video.Some? && r != BlogPost(blog.value) ==> r == Video(video.value)
    ensures blog.Some? && video.None? ==> r == BlogPost(blog.value)
    ensures blog.None? && video.Some? ==> r == Video(video.value)
    ensures r.Message? <==> blog.None? && video.None?
    ensures r.Message? ==> r.text == BothFailedMessage
  {
    if blog.Some? && video.Some? then
      if today - blog.value.publishedAt < today - video.value.publishedAt then BlogPost(blog.value)
      else Video(video.value)
    else if blog.None? && video.None? then Message(BothFailedMessage)
    else if blog.Some? && video.None? then BlogPost(blog.value)
    else if blog.None? && video.Some? then Video(video.value)
    else assert false; Message("You should not have reached this spot.")
  }

  /** `update` as a whole. The video request is made outside the `try` of
      `get_youtube_video`, so when it cannot connect (`videoConnected` false)
      the exception escapes and the answer is a 500, blog post or not;
      `video` is the outcome of a request that did connect. */
  function Update(today: int, blog: Option<Item>, videoConnected: bool, video: Option<Item>): (r: Result<Resource>)
    ensures r.Err? <==> !videoConnected
    ensures r.Err? ==> r.failure == InternalError
    ensures r.Ok? ==> (r.value.Message? <==> blog.None? && video.None?)
    ensures r.Ok? && video.None? && blog.Some? ==> r.value == BlogPost(blog.value)
  {
    if !videoConnected then Err(InternalError) else Ok(Select(today, blog, video))
  }

  /** The age comparison does not depend on the clock: any two readings pick
      the same resource. */
  lemma SelectionIgnoresClock(t1: int, t2: int, blog: Option<Item>, video: Option<Item>)
    ensures Select(t1, blog, video) == Select(t2, blog, video)
  {
  }

  /** The shown item is never older than any item that was fetched. */
  lemma SelectionIsNewest(today: int, blog: Option<Item>, video: Option<Item>)
    requires blog.Some? || video.Some?
    ensures var r := Select(today, blog, video);
      var shown := if r.BlogPost? then r.post else r.video;
      && !r.Message?
      && (blog.Some? ==> shown.publishedAt >= blog.value.publishedAt)
      && (video.Some? ==> shown.publishedAt >= video.value.publishedAt)
  {
  }
}
