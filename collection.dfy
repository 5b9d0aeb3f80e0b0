/** `TwitterDataCollector.collect_tweets`: page through the recent-search
    API, keep the English tweets, retry after a rate limit and return what
    was gathered when anything else goes wrong. The API and the clock are
    inputs: a response depends on the request and on how many requests came
    before it. */
module Collection {
  import opened Wrappers

  /** A collected record: the fields the loop copies out of a tweet. */
  datatype TweetRecord = TweetRecord(id: int, text: string, createdAt: string, authorId: int,
                                     retweetCount: int, likeCount: int, replyCount: int)

  /** A tweet as the API returns it. */
  datatype ApiTweet = ApiTweet(id: int, text: string, createdAt: string, authorId: int, lang: string,
                               retweetCount: int, likeCount: int, replyCount: int)

  /** `next_token` and `max_results` of a search request. */
  datatype Request = Request(nextToken: Option<string>, maxResults: int)

  /** A page with its data and `meta['next_token']`; a `TooManyRequests`
      error with its `x-rate-limit-reset` header (if any) and the clock when
      it was caught; or any other exception. */
  datatype Response =
    | Page(data: seq<ApiTweet>, nextToken: Option<string>)
    | RateLimited(reset: Option<int>, now: int)
    | Failed

  /** The API: the response to the `n`-th request. */
  type Api = (nat, Request) -> Response

  function RecordOf(t: ApiTweet): TweetRecord {
    TweetRecord(t.id, t.text, t.createdAt, t.authorId, t.retweetCount, t.likeCount, t.replyCount)
  }

  /** The records of the English tweets of `ts`, in order. */
  function EnglishRecords(ts: seq<ApiTweet>): seq<TweetRecord> {
    if ts == [] then []
    else EnglishRecords(ts[..|ts| - 1]) + (if ts[|ts| - 1].lang == "en" then [RecordOf(ts[|ts| - 1])] else [])
  }

  /** The seconds slept after a rate limit: until the reset time, at least
      zero, plus five; with no header the reset is 900 seconds away. */
  function Wait(reset: Option<int>, now: int): (w: int)
    ensures w >= 5
    ensures reset.None? ==> w == 905
    ensures reset.Some? && reset.value >= now ==> w == reset.value - now + 5
    ensures reset.Some? && reset.value < now ==> w == 5
  {
    var r := if reset.Some? then reset.value else now + 900;
    (if r - now > 0 then r - now else 0) + 5
  }

  function Min(a: int, b: int): int {
    if a <= b then a else b
  }

  // ---------------------------------------------------------------------
  // The loop as a state machine
  // ---------------------------------------------------------------------

  /** The loop's variables `tweets_data`, `collected` and `next_token`, with
      the tweets looked at (`seen`), the requests made and the waits slept;
      `stopped` is set by a `break`. */
  datatype State = State(tweets: seq<TweetRecord>, collected: int, nextToken: Option<string>,
                         seen: seq<ApiTweet>, requests: seq<Request>, waits: seq<int>, stopped: bool)

  const Init: State := State([], 0, None, [], [], [], false)

  /** What the inner `for` loop over a page changes. */
  datatype Acc = Acc(tweets: seq<TweetRecord>, collected: int, seen: seq<ApiTweet>)

  /** The inner loop: append each English tweet and count it, and leave the
      page as soon as `max_tweets` are collected. */
  function Consume(data: seq<ApiTweet>, maxTweets: int, acc: Acc): Acc
    decreases |data|
  {
    if data == [] then acc
    else
      var t := data[0];
      if t.lang == "en" then
        var next := Acc(acc.tweets + [RecordOf(t)], acc.collected + 1, acc.seen + [t]);
        if next.collected >= maxTweets then next else Consume(data[1..], maxTweets, next)
      else Consume(data[1..], maxTweets, Acc(acc.tweets, acc.collected, acc.seen + [t]))
  }

  /** The request the loop sends from `st`. */
  function NextRequest(maxTweets: int, st: State): Request {
    Request(st.nextToken, Min(100, maxTweets - st.collected))
  }

  /** One pass of the `while` body. */
  function Step(api: Api, maxTweets: int, st: State): State {
    var req := NextRequest(maxTweets, st);
    var sent := st.(requests := st.requests + [req]);
    match api(|st.requests|, req)
    case Page(data, token) =>
      if data == [] then sent.(stopped := true)
      else
        var acc := Consume(data, maxTweets, Acc(st.tweets, st.collected, st.seen));
        sent.(tweets := acc.tweets, collected := acc.collected, seen := acc.seen,
              nextToken := token, stopped := !Truthy(token))
    case RateLimited(reset, now) => sent.(waits := st.waits + [Wait(reset, now)])
    case Failed => sent.(stopped := true)
  }

  /** The `while collected < max_tweets` loop, for at most `fuel` passes. */
  function Run(api: Api, maxTweets: int, st: State, fuel: nat): State
    decreases fuel
  {
    if st.stopped || st.collected >= maxTweets || fuel == 0 then st
    else Run(api, maxTweets, Step(api, maxTweets, st), fuel - 1)
  }

  // ---------------------------------------------------------------------
  // The loop as written
  // ---------------------------------------------------------------------

  /** The `for tweet in response.data` loop: append each English tweet's
      record, count it, and leave the page once `max_tweets` are collected. */
  method TakePage(data: seq<ApiTweet>, maxTweets: int, tweets0: seq<TweetRecord>, collected0: int,
                  ghost seen0: seq<ApiTweet>)
    returns (tweetsData: seq<TweetRecord>, collected: int, ghost seen: seq<ApiTweet>)
    requires collected0 < maxTweets
    ensures Acc(tweetsData, collected, seen) == Consume(data, maxTweets, Acc(tweets0, collected0, seen0))
  {
    tweetsData, collected, seen := tweets0, collected0, seen0;
    var j := 0;
    while j < |data|
      invariant j <= |data|
      invariant collected < maxTweets
      invariant Consume(data[j..], maxTweets, Acc(tweetsData, collected, seen))
                == Consume(data, maxTweets, Acc(tweets0, collected0, seen0))
    {
      var tweet := data[j];
      ghost var rest := data[j..];
      ghost var cur := Acc(tweetsData, collected, seen);
      assert rest[0] == tweet && rest[1..] == data[j + 1..];
      if tweet.lang == "en" {
        tweetsData := tweetsData + [RecordOf(tweet)];
        collected := collected + 1;
        seen := seen + [tweet];
        if collected >= maxTweets {
          assert Consume(rest, maxTweets, cur) == Acc(tweetsData, collected, seen);
          return;
        }
        assert Consume(rest, maxTweets, cur) == Consume(data[j + 1..], maxTweets, Acc(tweetsData, collected, seen));
      } else {
        seen := seen + [tweet];
        assert Consume(rest, maxTweets, cur) == Consume(data[j + 1..], maxTweets, Acc(tweetsData, collected, seen));
      }
      j := j + 1;
    }
  }

  method CollectTweets(api: Api, maxTweets: int, fuel: nat) returns (tweetsData: seq<TweetRecord>)
    ensures tweetsData == Run(api, maxTweets, Init, fuel).tweets
  {
    tweetsData := [];
    var nextToken: Option<string> := None;
    var collected := 0;
    var calls: nat := 0;
    ghost var seen: seq<ApiTweet> := [];
    ghost var requests: seq<Request> := [];
    ghost var waits: seq<int> := [];
    while collected < maxTweets && calls < fuel
      invariant calls == |requests| <= fuel
      invariant Run(api, maxTweets, State(tweetsData, collected, nextToken, seen, requests, waits, false), fuel - calls)
                == Run(api, maxTweets, Init, fuel)
      decreases fuel - calls
    {
      ghost var before := State(tweetsData, collected, nextToken, seen, requests, waits, false);
      ghost var after := Step(api, maxTweets, before);
      assert Run(api, maxTweets, before, fuel - calls) == Run(api, maxTweets, after, fuel - calls - 1);
      var request := Request(nextToken, Min(100, maxTweets - collected));
      var response := api(calls, request);
      requests := requests + [request];
      calls := calls + 1;
      match response
      case Page(data, token) =>
        if data == [] {
          assert after.stopped && after.tweets == tweetsData;
          return;
        }
        tweetsData, collected, seen := TakePage(data, maxTweets, tweetsData, collected, seen);
        nextToken := token;
        if !Truthy(token) {
          assert after.stopped && after.tweets == tweetsData;
          return;
        }
        assert after == State(tweetsData, collected, nextToken, seen, requests, waits, false);
      case RateLimited(reset, now) =>
        waits := waits + [Wait(reset, now)];
        assert after == State(tweetsData, collected, nextToken, seen, requests, waits, false);
      case Failed =>
        assert after.stopped && after.tweets == tweetsData;
        return;
    }
  }

  // ---------------------------------------------------------------------
  // What the loop keeps
  // ---------------------------------------------------------------------

  /** The most records the loop may collect: `max_tweets`, or none. */
  function Bound(maxTweets: int): nat {
    if maxTweets > 0 then maxTweets else 0
  }

  /** `collected` counts `tweets_data`, never passes `max_tweets`, the records
      are those of the English tweets looked at, in order, and every request
      asked for between 1 and 100 results. */
  predicate Inv(maxTweets: int, st: State) {
    && st.collected == |st.tweets|
    && st.collected <= Bound(maxTweets)
    && st.tweets == EnglishRecords(st.seen)
    && forall k :: 0 <= k < |st.requests| ==> 1 <= st.requests[k].maxResults <= 100
  }

  lemma EnglishRecordsAppend(ts: seq<ApiTweet>, t: ApiTweet)
    ensures EnglishRecords(ts + [t]) == EnglishRecords(ts) + (if t.lang == "en" then [RecordOf(t)] else [])
  {
    assert (ts + [t])[..|ts|] == ts;
  }

  /** The inner loop keeps the count and the records in step and never
      passes `max_tweets`. */
  lemma {:induction false} ConsumeKeeps(data: seq<ApiTweet>, maxTweets: int, acc: Acc)
    requires acc.collected == |acc.tweets| < maxTweets
    requires acc.tweets == EnglishRecords(acc.seen)
    ensures var r := Consume(data, maxTweets, acc);
            && r.collected == |r.tweets| <= maxTweets
            && r.tweets == EnglishRecords(r.seen)
    decreases |data|
  {
    if data != [] {
      var t := data[0];
      EnglishRecordsAppend(acc.seen, t);
      if t.lang == "en" {
        var next := Acc(acc.tweets + [RecordOf(t)], acc.collected + 1, acc.seen + [t]);
        if next.collected < maxTweets {
          ConsumeKeeps(data[1..], maxTweets, next);
        }
      } else {
        ConsumeKeeps(data[1..], maxTweets, Acc(acc.tweets, acc.collected, acc.seen + [t]));
      }
    }
  }

  /** The inner loop looks at a prefix of the page, in order, and leaves the
      page early only once `max_tweets` are collected. */
  lemma {:induction false} ConsumePrefix(data: seq<ApiTweet>, maxTweets: int, acc: Acc)
    ensures var r := Consume(data, maxTweets, acc);
            && |acc.seen| <= |r.seen| <= |acc.seen| + |data|
            && r.seen == acc.seen + data[..|r.seen| - |acc.seen|]
            && (|r.seen| < |acc.seen| + |data| ==> r.collected >= maxTweets)
    decreases |data|
  {
    if data != [] {
      var t := data[0];
      assert data[..1] == [t];
      var next := if t.lang == "en" then Acc(acc.tweets + [RecordOf(t)], acc.collected + 1, acc.seen + [t])
                  else Acc(acc.tweets, acc.collected, acc.seen + [t]);
      if t.lang != "en" || next.collected < maxTweets {
        ConsumePrefix(data[1..], maxTweets, next);
        var r := Consume(data[1..], maxTweets, next);
        assert acc.seen + data[..|r.seen| - |acc.seen|] == next.seen + data[1..][..|r.seen| - |next.seen|];
      }
    }
  }

  lemma StepKeeps(api: Api, maxTweets: int, st: State)
    requires Inv(maxTweets, st) && st.collected < maxTweets
    ensures Inv(maxTweets, Step(api, maxTweets, st))
  {
    var req := NextRequest(maxTweets, st);
    var s1 := Step(api, maxTweets, st);
    assert s1.requests == st.requests + [req] && 1 <= req.maxResults <= 100;
    match api(|st.requests|, req)
    case Page(data, token) =>
      if data != [] {
        ConsumeKeeps(data, maxTweets, Acc(st.tweets, st.collected, st.seen));
      }
    case RateLimited(_, _) =>
    case Failed =>
  }

  lemma {:induction false} RunKeeps(api: Api, maxTweets: int, st: State, fuel: nat)
    requires Inv(maxTweets, st)
    ensures Inv(maxTweets, Run(api, maxTweets, st, fuel))
    decreases fuel
  {
    if !(st.stopped || st.collected >= maxTweets || fuel == 0) {
      StepKeeps(api, maxTweets, st);
      RunKeeps(api, maxTweets, Step(api, maxTweets, st), fuel - 1);
    }
  }

  /** Whatever the API answers: at most `max_tweets` records (none, and no
      request at all, when `max_tweets <= 0`), all of them from English
      tweets in the order looked at, and every request for 1 to 100 results. */
  lemma CollectBounds(api: Api, maxTweets: int, fuel: nat)
    ensures var r := Run(api, maxTweets, Init, fuel);
            && |r.tweets| == r.collected <= Bound(maxTweets)
            && r.tweets == EnglishRecords(r.seen)
            && (forall k :: 0 <= k < |r.requests| ==> 1 <= r.requests[k].maxResults <= 100)
            && (maxTweets <= 0 ==> r.tweets == [] && r.requests == [])
  {
    RunKeeps(api, maxTweets, Init, fuel);
  }

  /** Every record comes from an English tweet of `ts`. */
  lemma {:induction false} EnglishRecordsFrom(ts: seq<ApiTweet>)
    ensures |EnglishRecords(ts)| <= |ts|
    ensures forall k :: 0 <= k < |EnglishRecords(ts)| ==>
              exists t :: t in ts && t.lang == "en" && EnglishRecords(ts)[k] == RecordOf(t)
    decreases |ts|
  {
    if ts != [] {
      var init := ts[..|ts| - 1];
      EnglishRecordsFrom(init);
      assert ts == init + [ts[|ts| - 1]];
      var last := ts[|ts| - 1];
      assert last in ts;
      assert EnglishRecords(ts) == EnglishRecords(init) + (if last.lang == "en" then [RecordOf(last)] else []);
      forall k | 0 <= k < |EnglishRecords(ts)|
        ensures exists t :: t in ts && t.lang == "en" && EnglishRecords(ts)[k] == RecordOf(t)
      {
        if k < |EnglishRecords(init)| {
          assert EnglishRecords(ts)[k] == EnglishRecords(init)[k];
          var t :| t in init && t.lang == "en" && EnglishRecords(init)[k] == RecordOf(t);
          assert t in ts;
        } else {
          assert EnglishRecords(ts)[k] == RecordOf(last);
        }
      }
    }
  }

  // ---------------------------------------------------------------------
  // How the loop ends
  // ---------------------------------------------------------------------

  /** A page without data, a page without a next token and any error other
      than a rate limit end the loop: no further request is sent, and after
      an empty page or an error the records gathered so far are returned. */
  lemma StopsAfter(api: Api, maxTweets: int, st: State, fuel: nat)
    requires !st.stopped && st.collected < maxTweets && fuel > 0
    requires var resp := api(|st.requests|, NextRequest(maxTweets, st));
             resp.Failed? || (resp.Page? && (resp.data == [] || !Truthy(resp.nextToken)))
    ensures var r := Run(api, maxTweets, st, fuel);
            && r.requests == st.requests + [NextRequest(maxTweets, st)]
            && (api(|st.requests|, NextRequest(maxTweets, st)).Failed? ==> r.tweets == st.tweets)
            && (api(|st.requests|, NextRequest(maxTweets, st)).Page? && api(|st.requests|, NextRequest(maxTweets, st)).data == [] ==>
                r.tweets == st.tweets)
  {
    assert Step(api, maxTweets, st).stopped;
  }

  /** A rate limit changes nothing but the waits: the records, the count and
      the token are kept, and the same request is sent again. */
  lemma RateLimitRetries(api: Api, maxTweets: int, st: State)
    requires !st.stopped && st.collected < maxTweets
    requires api(|st.requests|, NextRequest(maxTweets, st)).RateLimited?
    ensures var resp := api(|st.requests|, NextRequest(maxTweets, st));
            var s1 := Step(api, maxTweets, st);
            && !s1.stopped
            && s1.tweets == st.tweets && s1.collected == st.collected && s1.nextToken == st.nextToken
            && s1.waits == st.waits + [Wait(resp.reset, resp.now)]
            && NextRequest(maxTweets, s1) == NextRequest(maxTweets, st)
            && Step(api, maxTweets, s1).requests == st.requests + [NextRequest(maxTweets, st), NextRequest(maxTweets, st)]
  {
  }

  // ---------------------------------------------------------------------
  // Full pages: the request sizes
  // ---------------------------------------------------------------------

  /** Every answer is a page of exactly the size asked for, all English, with
      a next token. */
  ghost predicate FullPages(api: Api) {
    forall n: nat, req: Request :: 1 <= req.maxResults ==>
      var resp := api(n, req);
      && resp.Page? && |resp.data| == req.maxResults && Truthy(resp.nextToken)
      && forall t :: t in resp.data ==> t.lang == "en"
  }

  /** The sizes of the requests for `m` more records: pages of 100, then the rest. */
  function Plan(m: int): seq<int>
    decreases m
  {
    if m <= 0 then [] else if m <= 100 then [m] else [100] + Plan(m - 100)
  }

  function Sizes(rs: seq<Request>): (r: seq<int>)
    ensures |r| == |rs| && forall k :: 0 <= k < |rs| ==> r[k] == rs[k].maxResults
  {
    seq(|rs|, k requires 0 <= k < |rs| => rs[k].maxResults)
  }

  lemma {:induction false} ConsumeAll(data: seq<ApiTweet>, maxTweets: int, acc: Acc)
    requires forall t :: t in data ==> t.lang == "en"
    requires acc.collected + |data| <= maxTweets
    ensures Consume(data, maxTweets, acc).collected == acc.collected + |data|
    decreases |data|
  {
    if data != [] {
      assert data[0] in data;
      if acc.collected + 1 < maxTweets {
        forall t | t in data[1..] ensures t.lang == "en" {
          assert t in data;
        }
        ConsumeAll(data[1..], maxTweets, Acc(acc.tweets + [RecordOf(data[0])], acc.collected + 1, acc.seen + [data[0]]));
      }
    }
  }

  lemma FullStep(api: Api, maxTweets: int, st: State)
    requires FullPages(api) && !st.stopped && st.collected < maxTweets
    ensures var s1 := Step(api, maxTweets, st);
            && !s1.stopped
            && s1.collected == st.collected + Min(100, maxTweets - st.collected)
            && s1.requests == st.requests + [NextRequest(maxTweets, st)]
  {
    var req := NextRequest(maxTweets, st);
    var resp := api(|st.requests|, req);
    assert resp.Page? && |resp.data| == req.maxResults && Truthy(resp.nextToken);
    assert forall t :: t in resp.data ==> t.lang == "en";
    ConsumeAll(resp.data, maxTweets, Acc(st.tweets, st.collected, st.seen));
  }

  /** With full pages the loop fetches exactly the records asked for, with
      requests of 100 and a last one for the rest. */
  lemma {:induction false} FullRun(api: Api, maxTweets: int, st: State, fuel: nat)
    requires FullPages(api) && !st.stopped && st.collected <= maxTweets
    requires fuel >= |Plan(maxTweets - st.collected)|
    ensures var r := Run(api, maxTweets, st, fuel);
            && r.collected == maxTweets
            && Sizes(r.requests) == Sizes(st.requests) + Plan(maxTweets - st.collected)
    decreases fuel
  {
    if st.collected < maxTweets {
      var s1 := Step(api, maxTweets, st);
      FullStep(api, maxTweets, st);
      var size := Min(100, maxTweets - st.collected);
      assert Plan(maxTweets - st.collected) == [size] + Plan(maxTweets - s1.collected);
      FullRun(api, maxTweets, s1, fuel - 1);
      assert Sizes(s1.requests) == Sizes(st.requests) + [size];
    }
  }

  /** 205 tweets from full pages take requests of 100, 100 and 5. */
  lemma Collect205(api: Api)
    requires FullPages(api)
    ensures var r := Run(api, 205, Init, 3);
            |r.tweets| == 205 && Sizes(r.requests) == [100, 100, 5]
  {
    assert Plan(205) == [100, 100, 5];
    FullRun(api, 205, Init, 3);
    RunKeeps(api, 205, Init, 3);
  }
}
