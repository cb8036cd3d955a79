/** The 3asq provider: the shared Madara logic at the origin `https://3asq.org`. */
module ThreeAsq {
  import opened Js
  import opened Records
  import opened Ordering
  import Madara

  const Api: string := "https://3asq.org"

  method Search(encodedQuery: string, entries: seq<SearchEntry>) returns (request: Request, results: seq<SearchResult>)
    ensures request == Get(Api + "/?s=" + encodedQuery + "&post_type=wp-manga")
    ensures results == Madara.Deduplicated(Present(Madara.SearchResultsOf(entries)))
  {
    request, results := Madara.Search(Api, encodedQuery, entries);
  }

  method FindChapters(mangaId: string, r: Madara.ChapterResponses) returns (requests: seq<Request>, chapters: seq<ChapterDetails>)
    ensures requests == Madara.ChapterRequests(Api, mangaId, r)
    ensures chapters == Reindexed(Reversed(Madara.Collected(mangaId, r)))
  {
    requests, chapters := Madara.FindChapters(Api, mangaId, r);
  }

  method FindChapterPages(chapterId: string, imgs: seq<Element>) returns (request: Request, pages: seq<ChapterPage>)
    ensures request == Get(Madara.PageUrl(Api, chapterId))
    ensures pages == Madara.Pages(Api, imgs)
    ensures forall k :: 0 <= k < |pages| ==> pages[k].headers == map["Referer" := Api + "/"]
  {
    request, pages := Madara.FindChapterPages(Api, chapterId, imgs);
    Madara.PagesSpec(Api, imgs);
  }
}
