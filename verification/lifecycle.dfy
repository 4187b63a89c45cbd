/** The record lifecycle across requests: the handlers as one step
    function over the store, the invariants each step keeps, and what a
    sequence of requests does to one record. */
module Lifecycle {
  import opened Wrappers
  import Text
  import CodeFormat
  import Records
  import Generator
  import ShortUrl
  import opened Handlers

  datatype Request = ShortenRequest(field: UrlField) | RedirectRequest(code: string) | StatsRequest(code: string)

  /** What a request reads from outside the store: the generator's clock and
      random draws, the current time, the store faults and the site. */
  datatype Context = Context(
    entropy: Generator.Entropy, now: Records.Timestamp, faults: StoreFaults, site: ShortUrl.Site)

  /** One request against the store. Records are never deleted, and the
      keys and creation time of every existing record stay as they are. */
  function Step(store: Records.Store, req: Request, parse: string -> Option<ParsedUrl>, ctx: Context): (o: Outcome)
    ensures |o.store| >= |store|
    ensures forall i :: 0 <= i < |store| ==>
      && o.store[i].shortCode == store[i].shortCode
      && o.store[i].originalUrl == store[i].originalUrl
      && o.store[i].createdAt == store[i].createdAt
    ensures req.StatsRequest? ==> o.store == store
  {
    match req
    case ShortenRequest(field) => Shorten(store, field, parse, ctx.entropy, ctx.now, ctx.faults, ctx.site)
    case RedirectRequest(code) => Redirect(store, code, ctx.now, ctx.faults)
    case StatsRequest(code) => Outcome(store, GetStats(store, code, ctx.faults))
  }

  /** Shortening is idempotent on the stripped URL: once a shorten has
      succeeded, shortening any string that strips to the same URL returns
      the same answer and leaves the store as it is. */
  lemma ShortenIdempotent(
    store: Records.Store, raw1: string, raw2: string, parse: string -> Option<ParsedUrl>,
    e1: Generator.Entropy, e2: Generator.Entropy, now1: Records.Timestamp, now2: Records.Timestamp,
    f1: StoreFaults, f2: StoreFaults, site: ShortUrl.Site)
    requires Text.Strip(raw1) == Text.Strip(raw2)
    requires IsValidUrl(parse(Text.Strip(raw1))) && !f1.readFails
    requires Records.Find(store, Records.ByUrl(Text.Strip(raw1))).Some? || !f1.writeFails
    requires !f2.readFails
    ensures var o1 := Shorten(store, UrlText(raw1), parse, e1, now1, f1, site);
      Shorten(o1.store, UrlText(raw2), parse, e2, now2, f2, site) == o1
  {
    var o1 := Shorten(store, UrlText(raw1), parse, e1, now1, f1, site);
    var o2 := Shorten(o1.store, UrlText(raw2), parse, e2, now2, f2, site);
    var f := Records.Find(o1.store, Records.ByUrl(Text.Strip(raw1)));
    assert f.Some?;
    assert o2.response.Shortened?;
    assert o2.store == o1.store;
  }

  /** A code the generator found absent is held by the new record alone. */
  lemma InsertedCodeUnique(
    store: Records.Store, raw: string, parse: string -> Option<ParsedUrl>,
    e: Generator.Entropy, now: Records.Timestamp, faults: StoreFaults, site: ShortUrl.Site)
    requires IsValidUrl(parse(Text.Strip(raw))) && !faults.readFails && !faults.writeFails
    requires Records.Find(store, Records.ByUrl(Text.Strip(raw))).None?
    requires exists k :: 0 <= k < Generator.MaxRetries && Generator.ProbeFor(store, e.attempts[k]) == Generator.Absent
    ensures var o := Shorten(store, UrlText(raw), parse, e, now, faults, site);
      && |o.store| == |store| + 1
      && Records.Find(o.store, Records.ByCode(o.response.shortCode)) == Some(|store|)
      && forall j :: 0 <= j < |store| ==> store[j].shortCode != o.response.shortCode
  {
    var o := Shorten(store, UrlText(raw), parse, e, now, faults, site);
    var code := o.response.shortCode;
    Generator.FreshIffSomeTryFree(store, e);
    Generator.FreshCodeUnused(store, e);
    Records.FindAppended(store, Records.NewRecord(code, o.response.originalUrl, now), Records.ByCode(code));
  }

  /** A raising `find_one`, or a raising `insert_one` for a URL that has no
      record, answers with the 500 database error and stores nothing. */
  lemma ShortenStoreErrors(
    store: Records.Store, raw: string, parse: string -> Option<ParsedUrl>,
    e: Generator.Entropy, now: Records.Timestamp, faults: StoreFaults, site: ShortUrl.Site)
    requires IsValidUrl(parse(Text.Strip(raw)))
    requires faults.readFails || (faults.writeFails && Records.Find(store, Records.ByUrl(Text.Strip(raw))).None?)
    ensures Shorten(store, UrlText(raw), parse, e, now, faults, site) == Outcome(store, DatabaseError)
  {
  }

  /** Every request keeps "at most one record per original URL". */
  lemma StepPreservesUniqueUrls(store: Records.Store, req: Request, parse: string -> Option<ParsedUrl>, ctx: Context)
    requires Records.UniqueUrls(store)
    ensures Records.UniqueUrls(Step(store, req, parse, ctx).store)
  {
    var o := Step(store, req, parse, ctx);
    if req.ShortenRequest? && o.store != store {
      var url := o.response.originalUrl;
      assert forall j :: 0 <= j < |store| ==> store[j].originalUrl != url;
      assert forall j :: 0 <= j < |store| ==> o.store[j] == store[j];
      assert o.store[|store|].originalUrl == url;
    }
  }

  /** Every record's code is 1 to 20 letters and digits. */
  ghost predicate AlnumCodes(store: Records.Store) {
    forall i :: 0 <= i < |store| ==> CodeFormat.IsAlnumCode(store[i].shortCode)
  }

  /** With well-formed random draws and a clock below 62^14 seconds, every
      request keeps all stored codes in the shape the format check expects. */
  lemma StepPreservesAlnumCodes(store: Records.Store, req: Request, parse: string -> Option<ParsedUrl>, ctx: Context)
    requires AlnumCodes(store)
    requires Generator.WellFormedEntropy(ctx.entropy)
    requires ctx.entropy.fallbackSeconds < Generator.FallbackSecondsBound
    ensures AlnumCodes(Step(store, req, parse, ctx).store)
  {
    var o := Step(store, req, parse, ctx);
    if req.ShortenRequest? && o.store != store {
      Generator.GeneratedShape(store, ctx.entropy);
      assert o.store[|store|].shortCode == Generator.Generate(store, ctx.entropy).code;
      assert forall j :: 0 <= j < |store| ==> o.store[j] == store[j];
    }
  }

  /** A code the format check rejects never reaches the store: the answer
      is the same 400 whatever the store holds and whatever faults it has,
      and nothing changes. */
  lemma RejectedCodeIgnoresStore(
    s1: Records.Store, s2: Records.Store, code: string,
    now1: Records.Timestamp, now2: Records.Timestamp, f1: StoreFaults, f2: StoreFaults)
    requires !CodeFormat.ValidCodeFormat(code)
    ensures Redirect(s1, code, now1, f1).response == Redirect(s2, code, now2, f2).response
    ensures Redirect(s1, code, now1, f1).store == s1
    ensures GetStats(s1, code, f1) == GetStats(s2, code, f2) == BadRequest(InvalidCodeFormat)
  {
  }

  /** A code of valid format that ends in a newline passes the check but
      matches no record of a store whose codes are all letters and digits. */
  lemma NewlineCodeNotFound(store: Records.Store, code: string, now: Records.Timestamp, faults: StoreFaults)
    requires AlnumCodes(store)
    requires CodeFormat.ValidCodeFormat(code) && code[|code| - 1] == '\n'
    requires !faults.readFails
    ensures Redirect(store, code, now, faults) == Outcome(store, NotFound)
    ensures GetStats(store, code, faults) == NotFound
  {
    assert !Text.IsAlnum(code[|code| - 1]);
    match Records.Find(store, Records.ByCode(code))
    case None =>
    case Some(i) =>
      assert false;
  }

  /** Redirects of one code at the given times, with no store faults. */
  function RedirectAll(store: Records.Store, code: string, times: seq<Records.Timestamp>): Records.Store
    decreases |times|
  {
    if times == [] then store
    else RedirectAll(Redirect(store, code, times[0], NoFaults).store, code, times[1..])
  }

  /** One redirect of a known code updates its record in place and leaves
      it the record the code finds. */
  lemma RedirectOnce(store: Records.Store, code: string, t: Records.Timestamp, i: nat)
    requires CodeFormat.ValidCodeFormat(code)
    requires Records.Find(store, Records.ByCode(code)) == Some(i)
    ensures Redirect(store, code, t, NoFaults).store == store[i := Records.Click(store[i], t)]
    ensures Records.Find(store[i := Records.Click(store[i], t)], Records.ByCode(code)) == Some(i)
  {
    Records.FindAfterUpdate(store, i, Records.Click(store[i], t), Records.ByCode(code));
  }

  /** N redirects of a known code add exactly N clicks to its record, leave
      its keys and creation time and every other record alone, and record
      the last time as the last access. */
  lemma {:induction false} RepeatedRedirects(store: Records.Store, code: string, times: seq<Records.Timestamp>, i: nat)
    requires CodeFormat.ValidCodeFormat(code)
    requires Records.Find(store, Records.ByCode(code)) == Some(i)
    ensures var s := RedirectAll(store, code, times);
      && Records.SameExcept(store, s, i)
      && Records.ClickCount(s[i]) == Records.ClickCount(store[i]) + |times|
      && s[i].shortCode == store[i].shortCode
      && s[i].originalUrl == store[i].originalUrl
      && s[i].createdAt == store[i].createdAt
      && s[i].lastAccessed == (if times == [] then store[i].lastAccessed else Some(times[|times| - 1]))
    decreases |times|
  {
    if times != [] {
      var s1 := store[i := Records.Click(store[i], times[0])];
      RedirectOnce(store, code, times[0], i);
      assert RedirectAll(store, code, times) == RedirectAll(s1, code, times[1..]);
      assert Records.SameExcept(store, s1, i);
      RepeatedRedirects(s1, code, times[1..], i);
      var s := RedirectAll(s1, code, times[1..]);
      assert Records.SameExcept(store, s, i);
      if times[1..] != [] {
        assert times[1..][|times[1..]| - 1] == times[|times| - 1];
      }
    }
  }

  /** After redirects of a known code, its stats show its record as the
      redirects left it. */
  lemma StatsAfterRedirects(store: Records.Store, code: string, times: seq<Records.Timestamp>, i: nat)
    requires CodeFormat.ValidCodeFormat(code)
    requires Records.Find(store, Records.ByCode(code)) == Some(i)
    ensures var s := RedirectAll(store, code, times);
      i < |s| && GetStats(s, code, NoFaults) == StatsOf(View(code, s[i]))
  {
    RepeatedRedirects(store, code, times, i);
    var s := RedirectAll(store, code, times);
    Records.FindAfterUpdate(store, i, s[i], Records.ByCode(code));
    assert s == store[i := s[i]];
  }

  /** Shortening a valid URL that has no record, with no store faults,
      appends one record for it under the generator's code. */
  lemma ShortenNew(
    store: Records.Store, raw: string, parse: string -> Option<ParsedUrl>,
    e: Generator.Entropy, now: Records.Timestamp, site: ShortUrl.Site)
    requires IsValidUrl(parse(Text.Strip(raw)))
    requires Records.Find(store, Records.ByUrl(Text.Strip(raw))).None?
    ensures var code := Generator.Generate(store, e).code;
      Shorten(store, UrlText(raw), parse, e, now, NoFaults, site) ==
      Outcome(store + [Records.NewRecord(code, Text.Strip(raw), now)],
              Shortened(Text.Strip(raw), code, ShortUrl.Build(site, code)))
  {
  }

  /** The stats of a record `shorten` created, after N redirects. */
  lemma NewRecordStats(
    store: Records.Store, code: string, url: string, now: Records.Timestamp,
    times: seq<Records.Timestamp>, n: nat)
    requires CodeFormat.ValidCodeFormat(code)
    requires Records.Find(store, Records.ByCode(code)) == Some(n)
    requires store[n] == Records.NewRecord(code, url, now)
    ensures GetStats(RedirectAll(store, code, times), code, NoFaults) ==
      StatsOf(Stats(code, url, At(now), |times|,
                    if times == [] then Label("Never") else At(times[|times| - 1])))
  {
    RepeatedRedirects(store, code, times, n);
    StatsAfterRedirects(store, code, times, n);
    var r := RedirectAll(store, code, times)[n];
    assert Records.ClickCount(store[n]) == 0;
    assert View(code, r) == Stats(code, url, At(now), |times|,
                                  if times == [] then Label("Never") else At(times[|times| - 1]));
  }

  /** The lifecycle of a new record: after shortening a URL that had no
      record, with a code the generator found free, and then redirecting
      that code N times, its stats show the URL, the creation time, N
      clicks and the time of the last redirect ("Never" when N is 0). */
  lemma ShortenRedirectStats(
    store: Records.Store, raw: string, parse: string -> Option<ParsedUrl>,
    e: Generator.Entropy, now: Records.Timestamp, site: ShortUrl.Site, times: seq<Records.Timestamp>, k: nat)
    requires IsValidUrl(parse(Text.Strip(raw)))
    requires Records.Find(store, Records.ByUrl(Text.Strip(raw))).None?
    requires Generator.WellFormedEntropy(e)
    requires k < Generator.MaxRetries && Generator.ProbeFor(store, e.attempts[k]) == Generator.Absent
    ensures var o := Shorten(store, UrlText(raw), parse, e, now, NoFaults, site);
      var code := o.response.shortCode;
      && code == Generator.Generate(store, e).code
      && GetStats(RedirectAll(o.store, code, times), code, NoFaults) ==
         StatsOf(Stats(code, Text.Strip(raw), At(now), |times|,
                       if times == [] then Label("Never") else At(times[|times| - 1])))
  {
    var url := Text.Strip(raw);
    var code := Generator.Generate(store, e).code;
    ShortenNew(store, raw, parse, e, now, site);
    FreshCodeFindsNewRecord(store, e, url, now, k);
    NewRecordStats(store + [Records.NewRecord(code, url, now)], code, url, now, times, |store|);
  }

  /** When some try found its candidate free, the generated code passes the
      format check and finds the record appended under it. */
  lemma {:induction false} FreshCodeFindsNewRecord(store: Records.Store, e: Generator.Entropy, url: string, now: Records.Timestamp, k: nat)
    requires Generator.WellFormedEntropy(e)
    requires k < Generator.MaxRetries && Generator.ProbeFor(store, e.attempts[k]) == Generator.Absent
    ensures var code := Generator.Generate(store, e).code;
      && CodeFormat.ValidCodeFormat(code)
      && Records.Find(store + [Records.NewRecord(code, url, now)], Records.ByCode(code)) == Some(|store|)
  {
    var g := Generator.Generate(store, e);
    assert g.Fresh? by {
      Generator.FreshIffSomeTryFree(store, e);
    }
    Generator.CandidateShape(e.attempts[g.attempt]);
    Generator.FreshCodeUnused(store, e);
    Records.FindAppended(store, Records.NewRecord(g.code, url, now), Records.ByCode(g.code));
  }
}
