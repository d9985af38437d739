/** The one record the scraper produces and the downloader consumes
    (`ScrapedContent` in types.ts). Optional properties are `Option`s:
    `None` is a property that is absent or `undefined`, which the JSON export
    leaves out. The TypeScript property `type` is called `kind` here, since
    `type` is a Dafny keyword. */
module Content {
  import opened Wrappers

  datatype ContentType = Video | Livestream | Upcoming

  datatype ScrapedContent = ScrapedContent(
    url: string,
    title: string,
    thumbnail: Option<string>,
    duration: Option<string>,
    views: Option<string>,
    uploadDate: Option<string>,
    kind: ContentType,
    isLive: Option<bool>,
    scheduledStartTime: Option<string>,
    concurrentViewers: Option<string>
  )
}
