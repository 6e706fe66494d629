/**
 * Which downloader `download_video` hands a URL to: YouTube links (either host spelling)
 * before Google Drive links, anything else refused.
 */
module Fetch {
  import opened Common
  import opened Text

  datatype Host = YouTube | Drive

  /** "URL tidak didukung": neither a YouTube nor a Google Drive link. */
  datatype FetchError = Unsupported

  const YouTubeHost := "youtube.com"
  const YouTubeShortHost := "youtu.be"
  const DriveHost := "drive.google.com"

  /** `url` mentions `host` somewhere, as Python's `host in url` tests. */
  ghost predicate Mentions(url: string, host: string)
  {
    exists i :: OccursAt(url, host, i)
  }

  /** The branch `download_video` takes for `url`. */
  function Dispatch(url: string): (r: Result<Host, FetchError>)
    ensures r == Success(YouTube) <==> Mentions(url, YouTubeHost) || Mentions(url, YouTubeShortHost)
    ensures r == Success(Drive) <==>
              !Mentions(url, YouTubeHost) && !Mentions(url, YouTubeShortHost) && Mentions(url, DriveHost)
    ensures r.Failure? <==>
              !Mentions(url, YouTubeHost) && !Mentions(url, YouTubeShortHost) && !Mentions(url, DriveHost)
  {
    ContainsIsOccurrence(url, YouTubeHost);
    ContainsIsOccurrence(url, YouTubeShortHost);
    ContainsIsOccurrence(url, DriveHost);
    if Contains(url, YouTubeHost) || Contains(url, YouTubeShortHost) then Success(YouTube)
    else if Contains(url, DriveHost) then Success(Drive)
    else Failure(Unsupported)
  }

  /** A short YouTube link goes to the YouTube downloader. */
  lemma ShortLinkIsYouTube(url: string)
    requires url == "https://youtu.be/abc"
    ensures Dispatch(url) == Success(YouTube)
  {
    assert url[8..16] == YouTubeShortHost;
    assert OccursAt(url, YouTubeShortHost, 8);
  }

  /** A text that mentions a host contains the host's first letter. */
  lemma MentionHasFirstLetter(url: string, host: string)
    requires host != []
    ensures Mentions(url, host) ==> host[0] in url
  {
    if Mentions(url, host) {
      var i :| OccursAt(url, host, i);
      assert url[i..i + |host|][0] == url[i];
    }
  }

  /** A Drive link with no YouTube host in it goes to the Drive downloader. */
  lemma DriveLinkIsDrive(url: string)
    requires url == "https://drive.google.com/d"
    ensures Dispatch(url) == Success(Drive)
  {
    assert url == "https://" + DriveHost + "/d";
    assert OccursAt(url, DriveHost, 8);
    assert 'y' !in url;
    MentionHasFirstLetter(url, YouTubeHost);
    MentionHasFirstLetter(url, YouTubeShortHost);
  }

  /** Any other link is refused, even one that names a video file. */
  lemma OtherLinkIsRefused(url: string)
    requires url == "http://example.com/x.mp4"
    ensures Dispatch(url) == Failure(Unsupported)
  {
    assert 'y' !in url && 'd' !in url;
    MentionHasFirstLetter(url, YouTubeHost);
    MentionHasFirstLetter(url, YouTubeShortHost);
    MentionHasFirstLetter(url, DriveHost);
  }
}
