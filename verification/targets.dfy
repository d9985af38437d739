/** The listing pages visited for one channel (youtubeScraperMain.ts): the
    channel URL loses one trailing `/` (`replace(/\/$/, "")`), then the
    videos listing and the streams listing are appended, in that order, as
    the two flags allow. A page counts as a streams page when its URL
    contains `/streams`. */
module Targets {
  import opened Strings

  const VideosSuffix := "/videos"
  const StreamsSuffix := "/streams"

  /** `channelUrl.replace(/\/$/, "")`: `$` without the `m` flag matches only
      at the very end, so at most one `/` goes. */
  function StripTrailingSlash(channelUrl: string): (base: string)
    ensures channelUrl == base || channelUrl == base + "/"
    ensures |channelUrl| > 0 && channelUrl[|channelUrl| - 1] == '/' ==> channelUrl == base + "/"
  {
    if |channelUrl| > 0 && channelUrl[|channelUrl| - 1] == '/' then channelUrl[..|channelUrl| - 1]
    else channelUrl
  }

  function TargetUrls(channelUrl: string, includeLivestreams: bool, includeVideos: bool): seq<string> {
    var base := StripTrailingSlash(channelUrl);
    (if includeVideos then [base + VideosSuffix] else [])
    + (if includeLivestreams then [base + StreamsSuffix] else [])
  }

  /** `targetUrl.includes("/streams")`. */
  predicate IsStreamsPage(targetUrl: string) {
    Contains(targetUrl, StreamsSuffix)
  }

  /** One target per flag set, videos first, each the stripped channel URL
      followed by its listing suffix. */
  lemma TargetUrlsSpec(channelUrl: string, includeLivestreams: bool, includeVideos: bool)
    ensures var t := TargetUrls(channelUrl, includeLivestreams, includeVideos);
            var base := StripTrailingSlash(channelUrl);
            && |t| == (if includeVideos then 1 else 0) + (if includeLivestreams then 1 else 0)
            && (includeVideos ==> t[0] == base + VideosSuffix)
            && (includeLivestreams ==> t[|t| - 1] == base + StreamsSuffix)
  {
  }

  /** The streams listing is always read as a streams page. */
  lemma StreamsTargetIsStreamsPage(base: string)
    ensures IsStreamsPage(base + StreamsSuffix)
  {
    assert (base + StreamsSuffix)[|base|..|base| + 8] == StreamsSuffix;
    ContainsAt(base + StreamsSuffix, StreamsSuffix, |base|);
  }

  /** The videos listing is read as a streams page exactly when the channel
      URL itself contains `/streams`: the appended `/videos` cannot complete
      one, since its only `/` would have to be the first character of
      `/streams`. */
  lemma {:induction false} VideosTargetKind(base: string)
    ensures IsStreamsPage(base + VideosSuffix) <==> Contains(base, StreamsSuffix)
  {
    var t := base + VideosSuffix;
    if Contains(base, StreamsSuffix) {
      var i := IndexOf(base, StreamsSuffix).value;
      assert t[..|base|] == base;
      OccursInPrefix(t, |base|, StreamsSuffix, i);
      ContainsAt(t, StreamsSuffix, i);
    } else {
      forall k | 0 <= k && k + 8 <= |t| ensures !OccursAt(t, StreamsSuffix, k) {
        if k + 8 <= |base| {
          assert t[k..k + 8] == base[k..k + 8] && !OccursAt(base, StreamsSuffix, k);
        } else {
          assert t[k..k + 8][|base| - k] == t[|base|] == '/';
          assert StreamsSuffix[1..] == "streams" && '/' !in "streams";
          assert t[k..k + 8][1..] == t[k + 1..k + 8];
          assert '/' in t[k..k + 8][1..];
        }
      }
    }
  }
}
