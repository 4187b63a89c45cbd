/** The three request handlers of app.py as transitions of the record
    store: `shorten`, `redirect_to_url` and `get_stats`, with the HTTP,
    JSON and driver plumbing stripped. Each store call may raise a store
    error, which the handler turns into a 500 answer. */
module Handlers {
  import opened Wrappers
  import Text
  import CodeFormat
  import Records
  import Generator
  import ShortUrl

  /** The `url` member of the JSON body of `POST /shorten`. */
  datatype UrlField = NoUrl | UrlText(text: string) | UrlNotText

  /** The two parts of `urlparse`'s result that `is_valid_url` reads. */
  datatype ParsedUrl = ParsedUrl(scheme: string, netloc: string)

  /** `is_valid_url` on the result of `urlparse`, which is `None` when the
      parser raises: scheme and network location are both non-empty and
      the scheme is `http` or `https`. */
  predicate IsValidUrl(parsed: Option<ParsedUrl>) {
    && parsed.Some?
    && parsed.value.scheme != [] && parsed.value.netloc != []
    && (parsed.value.scheme == "http" || parsed.value.scheme == "https")
  }

  /** Which store calls of a request raise. A read is `find_one`; a write
      is `insert_one` or `update_one`. */
  datatype StoreFaults = StoreFaults(readFails: bool, writeFails: bool)

  const NoFaults := StoreFaults(false, false)

  /** The reasons for a 400 answer. */
  datatype Rejection = UrlRequired | InvalidUrlFormat | InvalidCodeFormat

  /** A field of the stats answer: a time, or the text shown when the
      record has none. */
  datatype Shown = At(time: Records.Timestamp) | Label(text: string)

  datatype Stats = Stats(
    shortCode: string,
    originalUrl: string,
    createdAt: Shown,
    clickCount: nat,
    lastAccessed: Shown)

  datatype Response =
    | Shortened(originalUrl: string, shortCode: string, shortUrl: string)
    | RedirectTo(location: string)
    | StatsOf(stats: Stats)
    | BadRequest(reason: Rejection)
    | NotFound
    | DatabaseError
    | InternalError

  datatype Outcome = Outcome(store: Records.Store, response: Response)

  /** `POST /shorten`. The URL is stripped and validated; a URL that has a
      record gets that record's code back; otherwise a generated code is
      stored with a click count of 0. */
  function Shorten(
    store: Records.Store, field: UrlField, parse: string -> Option<ParsedUrl>,
    entropy: Generator.Entropy, now: Records.Timestamp, faults: StoreFaults,
    site: ShortUrl.Site): (o: Outcome)
    // the store is untouched, or gains exactly one record, for a URL it had no record of
    ensures o.store == store || (
      && o.response.Shortened?
      && Records.Find(store, Records.ByUrl(o.response.originalUrl)).None?
      && o.response.shortCode == Generator.Generate(store, entropy).code
      && o.store == store + [Records.NewRecord(o.response.shortCode, o.response.originalUrl, now)])
    // success exactly when the URL is present, valid and the store calls it needs go through
    ensures o.response.Shortened? <==>
      && field.UrlText?
      && IsValidUrl(parse(Text.Strip(field.text)))
      && !faults.readFails
      && (Records.Find(store, Records.ByUrl(Text.Strip(field.text))).Some? || !faults.writeFails)
    // after a success the stripped URL's first record holds the returned code
    ensures o.response.Shortened? ==>
      && o.response.originalUrl == Text.Strip(field.text)
      && var f := Records.Find(o.store, Records.ByUrl(o.response.originalUrl));
      && f.Some? && o.store[f.value].shortCode == o.response.shortCode
      && o.response.shortUrl == ShortUrl.Build(site, o.response.shortCode)
    ensures field.NoUrl? ==> o.response == BadRequest(UrlRequired)
    ensures field.UrlNotText? ==> o.response == InternalError
    ensures field.UrlText? && !IsValidUrl(parse(Text.Strip(field.text))) ==>
      o.response == BadRequest(InvalidUrlFormat)
    // a valid URL fails only through a raising store call, which is a 500
    ensures field.UrlText? && IsValidUrl(parse(Text.Strip(field.text))) && !o.response.Shortened? ==>
      o.response == DatabaseError
  {
    match field
    case NoUrl => Outcome(store, BadRequest(UrlRequired))
    case UrlNotText => Outcome(store, InternalError)  // `.strip()` of a non-string raises
    case UrlText(text) =>
      var url := Text.Strip(text);
      if !IsValidUrl(parse(url)) then Outcome(store, BadRequest(InvalidUrlFormat))
      else if faults.readFails then Outcome(store, DatabaseError)
      else match Records.Find(store, Records.ByUrl(url))
        case Some(i) =>
          Outcome(store, Shortened(url, store[i].shortCode, ShortUrl.Build(site, store[i].shortCode)))
        case None =>
          var code := Generator.Generate(store, entropy).code;
          if faults.writeFails then Outcome(store, DatabaseError)
          else
            var s := store + [Records.NewRecord(code, url, now)];
            Records.FindAppended(store, Records.NewRecord(code, url, now), Records.ByUrl(url));
            Outcome(s, Shortened(url, code, ShortUrl.Build(site, code)))
  }

  /** `GET /<short_code>`. A code of valid format that has a record gets one
      more click and a redirect to its URL; nothing else changes. */
  function Redirect(store: Records.Store, code: string, now: Records.Timestamp, faults: StoreFaults): (o: Outcome)
    ensures |o.store| == |store|
    ensures o.response.RedirectTo? <==>
      CodeFormat.ValidCodeFormat(code) && !faults.readFails && !faults.writeFails &&
      Records.Find(store, Records.ByCode(code)).Some?
    ensures o.response.RedirectTo? ==>
      var i := Records.Find(store, Records.ByCode(code)).value;
      && o.response.location == store[i].originalUrl
      && o.store[i] == Records.Click(store[i], now)
      && Records.SameExcept(store, o.store, i)
    ensures !o.response.RedirectTo? ==> o.store == store
    ensures !CodeFormat.ValidCodeFormat(code) ==> o.response == BadRequest(InvalidCodeFormat)
    ensures CodeFormat.ValidCodeFormat(code) && !faults.readFails
      && Records.Find(store, Records.ByCode(code)).None?
      ==> o.response == NotFound
    // a raising `find_one` or `update_one` is a 500
    ensures CodeFormat.ValidCodeFormat(code) && faults.readFails ==> o.response == DatabaseError
    ensures CodeFormat.ValidCodeFormat(code) && !faults.readFails && faults.writeFails
      && Records.Find(store, Records.ByCode(code)).Some?
      ==> o.response == DatabaseError
  {
    if !CodeFormat.ValidCodeFormat(code) then Outcome(store, BadRequest(InvalidCodeFormat))
    else if faults.readFails then Outcome(store, DatabaseError)
    else match Records.Find(store, Records.ByCode(code))
      case None => Outcome(store, NotFound)
      case Some(i) =>
        if faults.writeFails then Outcome(store, DatabaseError)
        else Outcome(store[i := Records.Click(store[i], now)], RedirectTo(store[i].originalUrl))
  }

  /** The stats answer for a record, with the defaults of `dict.get`. */
  function View(code: string, r: Records.UrlRecord): (v: Stats)
    ensures v.shortCode == code && v.originalUrl == r.originalUrl
    ensures v.clickCount == Records.ClickCount(r)
    ensures v.createdAt == Label("Unknown") <==> r.createdAt.None?
    ensures v.lastAccessed == Label("Never") <==> r.lastAccessed.None?
    ensures r.lastAccessed.Some? ==> v.lastAccessed == At(r.lastAccessed.value)
    ensures r.createdAt.Some? ==> v.createdAt == At(r.createdAt.value)
  {
    Stats(
      code,
      r.originalUrl,
      match r.createdAt case Some(t) => At(t) case None => Label("Unknown"),
      Records.ClickCount(r),
      match r.lastAccessed case Some(t) => At(t) case None => Label("Never"))
  }

  /** `GET /stats/<short_code>`: a read of the store, never a write. */
  function GetStats(store: Records.Store, code: string, faults: StoreFaults): (r: Response)
    ensures r.StatsOf? <==>
      CodeFormat.ValidCodeFormat(code) && !faults.readFails && Records.Find(store, Records.ByCode(code)).Some?
    ensures r.StatsOf? ==>
      var i := Records.Find(store, Records.ByCode(code)).value;
      r.stats == View(code, store[i]) && r.stats.originalUrl == store[i].originalUrl
    ensures !CodeFormat.ValidCodeFormat(code) ==> r == BadRequest(InvalidCodeFormat)
    ensures CodeFormat.ValidCodeFormat(code) && !faults.readFails
      && Records.Find(store, Records.ByCode(code)).None?
      ==> r == NotFound
    // a raising `find_one` is a 500
    ensures CodeFormat.ValidCodeFormat(code) && faults.readFails ==> r == DatabaseError
  {
    if !CodeFormat.ValidCodeFormat(code) then BadRequest(InvalidCodeFormat)
    else if faults.readFails then DatabaseError
    else match Records.Find(store, Records.ByCode(code))
      case None => NotFound
      case Some(i) => StatsOf(View(code, store[i]))
  }
}
