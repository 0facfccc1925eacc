/** `MediaManager` (main.py:37-46, 69-152, 214-236): the decomposition written step by step as
    in the program and proved equal to `Decomposition.Decompose`, the cached catalogue lookup,
    and the body of the per-file loop of `process_directory` without its file-system side. */
module Manager {
  import opened Wrappers
  import opened Text
  import opened Numbers
  import opened Patterns
  import opened FixedPatterns
  import opened Decomposition
  import opened Reconcile

  /** The catalogue client. What the service answers for a query is the fixed function
      `answer`; every request sent is recorded in `requests`. */
  class CatalogueClient {
    const answer: string -> Option<Record>
    var requests: seq<string>

    constructor(answer: string -> Option<Record>)
      ensures this.answer == answer && requests == []
    {
      this.answer := answer;
      requests := [];
    }

    /** `get_details_for_scraping(query)`. */
    method GetDetailsForScraping(query: string) returns (details: Option<Record>)
      modifies this
      ensures details == answer(query)
      ensures requests == old(requests) + [query]
    {
      details := answer(query);
      requests := requests + [query];
    }
  }

  /** What processing one file yields: the decomposition, reconciled with the catalogue's
      answer to its query when its title is worth looking up. */
  function Processed(stem: string, P: PatternSet, answer: string -> Option<Record>): Result<MediaInfo, ParseError> {
    var info :- Decompose(stem, P);
    Success(if Eligible(info) then Resolve(info, answer(Query(info.title, Some(info.season)))) else info)
  }

  class MediaManager {
    const patterns: PatternSet
    const client: CatalogueClient
    /** `_api_cache`: query to the answer received for it (`None` included). */
    var apiCache: map<string, Option<Record>>

    /** The cache holds exactly the queries sent, each sent once, each with the answer the
        service gave. */
    ghost predicate Valid()
      reads this, client
    {
      && (forall q :: q in apiCache <==> q in client.requests)
      && (forall i, j :: 0 <= i < j < |client.requests| ==> client.requests[i] != client.requests[j])
      && (forall q :: q in apiCache ==> apiCache[q] == client.answer(q))
    }

    /** `__init__`, with the rules already loaded and a fresh client. */
    constructor(patterns: PatternSet, answer: string -> Option<Record>)
      ensures Valid() && fresh(client)
      ensures this.patterns == patterns && client.answer == answer
      ensures apiCache == map[] && client.requests == []
    {
      this.patterns := patterns;
      client := new CatalogueClient(answer);
      apiCache := map[];
    }

    /** `parse_filename`, step by step. */
    method ParseFilename(filename: string) returns (r: Result<MediaInfo, ParseError>)
      ensures r == Decompose(filename, patterns)
    {
      var d := EmptyDraft;
      var work := filename;

      // Step 1: the title-and-season bracket.
      var ts := SearchTitleSeason(work);
      if ts.Some? {
        var m := ts.value.1;
        d := d.(title := Some(Strip(m.title)), season := Some(Strip(m.season)));
        work := RemoveFirst(work, m.whole);
      }
      assert (d, work) == TitleSeasonStage(filename);

      // Step 2: technical tags in brackets.
      var s2 := ClaimTags(d, work);
      if s2.Failure? {
        return Failure(s2.error);
      }
      d, work := s2.value.0, s2.value.1;

      // Step 3: season and episode from what is left.
      var s3 := ReadEpisode(d, work);
      if s3.Failure? {
        return Failure(s3.error);
      }
      d, work := s3.value.0, s3.value.1;

      // Step 4: the fallback title.
      if d.title.None? {
        var title := Strip(RemoveBrackets(work));
        title := Strip(CollapseSeps(title));
        d := d.(title := Some(if title != [] then title else UnknownTitle));
      }

      // Step 5: defaults.
      if d.season.None? {
        d := d.(season := Some("1"));
      }
      var joined := Join(d.remarks);
      r := Success(MediaInfo(d.group, d.title.value, d.season.value, d.episode, d.resolution, d.videoCodec,
                             d.audioCodec, d.subtitle, if joined != "" then Some(joined) else None, None));
    }

    /** Step 2: every bracket of `work` is offered to the categories in order; a claimed one
        is cut out of the working copy. */
    method ClaimTags(d0: Draft, work: string) returns (r: Result<(Draft, string), ParseError>)
      ensures r == ClaimBrackets(d0, work, FindBrackets(work), patterns)
    {
      var d := d0;
      var temp := work;
      var bs := FindBrackets(work);
      var i := 0;
      while i < |bs|
        invariant 0 <= i <= |bs|
        invariant ClaimBrackets(d0, work, bs, patterns) == ClaimBrackets(d, temp, bs[i..], patterns)
      {
        assert bs[i..][0] == bs[i] && bs[i..][1..] == bs[i + 1..];
        var c := ClassifyBracket(bs[i].content);
        if c.Failure? {
          return Failure(c.error);
        }
        if c.value.Some? {
          d := ApplyClaim(d, c.value.value);
          temp := RemoveFirst(temp, bs[i].whole);
        }
        i := i + 1;
      }
      r := Success((d, temp));
    }

    /** The inner loop of step 2: the first category whose rule matches the bracket body. */
    method ClassifyBracket(content: string) returns (c: Result<Option<Claim>, ParseError>)
      ensures c == Classify(content, patterns, TechOrder)
    {
      var j := 0;
      while j < |TechOrder|
        invariant 0 <= j <= |TechOrder|
        invariant Classify(content, patterns, TechOrder) == Classify(content, patterns, TechOrder[j..])
      {
        var key := TechOrder[j];
        assert TechOrder[j..][0] == key && TechOrder[j..][1..] == TechOrder[j + 1..];
        if key in patterns {
          var m := patterns[key](content);
          if m.Some? {
            var v := TagValue(m.value);
            if v.Failure? {
              return Failure(v.error);
            }
            return Success(Some(Claim(key, v.value)));
          }
        }
        j := j + 1;
      }
      c := Success(None);
    }

    /** Step 3: the season-episode rule, else the episode rule, on what is left. */
    method ReadEpisode(d0: Draft, work0: string) returns (r: Result<(Draft, string), ParseError>)
      ensures r == EpisodeStage(d0, work0, patterns)
    {
      var d, work := d0, work0;
      if d.episode.None? {
        var se := SearchOrEmpty(patterns, SeasonEpisode, work);
        if se.Some? {
          var m := se.value;
          if d.season.None? {
            var n := GroupInt(m, 1);
            if n.Failure? {
              return Failure(n.error);
            }
            d := d.(season := Some(Show(n.value)));
          }
          var e := GroupInt(m, 2);
          if e.Failure? {
            return Failure(e.error);
          }
          d := d.(episode := Some(Pad2(e.value)));
          work := RemoveFirst(work, m.whole);
        } else {
          var ep := SearchOrEmpty(patterns, Episode, work);
          if ep.Some? {
            var m := ep.value;
            var e := GroupInt(m, 1);
            if e.Failure? {
              return Failure(e.error);
            }
            d := d.(episode := Some(Pad2(e.value)));
            work := RemoveFirst(work, m.whole);
          }
        }
      }
      r := Success((d, work));
    }

    /** `_get_bangumi_details`: a cached query is answered from the cache without a request;
        otherwise one request is sent and its answer, `None` included, is cached. */
    method GetBangumiDetails(title: string, season: Option<string>) returns (details: Option<Record>)
      requires Valid()
      modifies this, client
      ensures Valid()
      ensures details == client.answer(Query(title, season))
      ensures Query(title, season) in old(apiCache) ==>
        details == old(apiCache)[Query(title, season)] &&
        apiCache == old(apiCache) && client.requests == old(client.requests)
      ensures Query(title, season) !in old(apiCache) ==>
        apiCache == old(apiCache)[Query(title, season) := details] &&
        client.requests == old(client.requests) + [Query(title, season)]
    {
      var apiQuery := Query(title, season);
      if apiQuery in apiCache {
        return apiCache[apiQuery];
      }
      details := client.GetDetailsForScraping(apiQuery);
      apiCache := apiCache[apiQuery := details];
    }

    /** The body of the per-file loop of `process_directory` without the hard link: decompose
        the stem and reconcile it with the catalogue when the title is worth looking up. The
        cache makes no difference to the result; at most one request is sent, and only for a
        query not yet cached, whose answer is then cached; otherwise the cache is unchanged. */
    method ProcessFile(stem: string) returns (r: Result<MediaInfo, ParseError>)
      requires Valid()
      modifies this, client
      ensures Valid()
      ensures r == Processed(stem, patterns, client.answer)
      ensures old(client.requests) <= client.requests && |client.requests| <= |old(client.requests)| + 1
      ensures Decompose(stem, patterns).Failure? || !Eligible(Decompose(stem, patterns).value) ==>
        apiCache == old(apiCache) && client.requests == old(client.requests)
      ensures Decompose(stem, patterns).Success? && Eligible(Decompose(stem, patterns).value) ==>
        var info := Decompose(stem, patterns).value;
        var q := Query(info.title, Some(info.season));
        && (q in old(apiCache) ==> apiCache == old(apiCache) && client.requests == old(client.requests))
        && (q !in old(apiCache) ==>
              apiCache == old(apiCache)[q := client.answer(q)] && client.requests == old(client.requests) + [q])
    {
      r := ParseFilename(stem);
      if r.Success? && Eligible(r.value) {
        var info := r.value;
        var details := GetBangumiDetails(info.title, Some(info.season));
        r := Success(Resolve(info, details));
      }
    }
  }
}
