/** The `short_url` string of a `shorten` response (app.py lines 122-131):
    `protocol://host/code`, where outside debug mode the host carries the
    configured port unless it is 80 or 443. */
module ShortUrl {
  import Radix

  /** The configuration read from the environment at startup. */
  datatype Settings = Settings(appHost: string, appPort: int, appProtocol: string, debug: bool)

  /** The parts of the incoming request that debug mode uses. */
  datatype RequestOrigin = RequestOrigin(host: string, isSecure: bool)

  datatype Site = Site(settings: Settings, origin: RequestOrigin)

  /** Python's `str` of an integer: decimal digits without leading zeros,
      preceded by `-` for a negative number. */
  function DecimalString(n: int): (s: string)
    ensures n >= 0 ==> s != [] && Radix.IsNumeral(s, 10) && Radix.Value(s, 10) == n
    ensures n >= 0 ==> s == "0" || s[0] != '0'
    ensures n < 0 ==> |s| >= 2 && s[0] == '-' && s[1] != '0'
    ensures n < 0 ==> Radix.IsNumeral(s[1..], 10) && Radix.Value(s[1..], 10) == -n
  {
    if n == 0 then
      var z := "0";
      assert z[..0] == [] && Radix.DigitValue(z[0]) == 0;
      assert Radix.Value(z, 10) == Radix.Value([], 10) * 10 + 0;
      z
    else if n > 0 then
      Radix.ValueOfDigits(n, 10);
      Radix.Digits(n, 10)
    else
      Radix.ValueOfDigits(-n, 10);
      var d := Radix.Digits(-n, 10);
      assert ("-" + d)[1..] == d;
      "-" + d
  }

  function Protocol(site: Site): string {
    if !site.settings.debug then site.settings.appProtocol
    else if site.origin.isSecure then "https" else "http"
  }

  function Authority(site: Site): string {
    if !site.settings.debug then
      var cfg := site.settings;
      if cfg.appPort != 80 && cfg.appPort != 443 then cfg.appHost + ":" + DecimalString(cfg.appPort)
      else cfg.appHost
    else site.origin.host
  }

  /** The short URL for `code`. */
  function Build(site: Site, code: string): (u: string)
    ensures |u| == |Protocol(site)| + 3 + |Authority(site)| + 1 + |code|
    ensures u[..|Protocol(site)| + 3] == Protocol(site) + "://"
    ensures u[|Protocol(site)| + 3..|u| - |code| - 1] == Authority(site)
    ensures u[|u| - |code| - 1] == '/' && u[|u| - |code|..] == code
  {
    var p := Protocol(site) + "://";
    var a := Authority(site);
    var u := p + a + "/" + code;
    assert u[..|p|] == p;
    assert u[|p|..|p| + |a|] == a;
    assert u[|u| - |code|..] == code;
    u
  }

  /** Outside debug mode the port is left out exactly for 80 and 443. */
  lemma PortOmittedForDefaults(site: Site)
    requires !site.settings.debug
    ensures Authority(site) == site.settings.appHost <==>
      site.settings.appPort == 80 || site.settings.appPort == 443
  {
  }

  /** The part of `u` after its last `/`. */
  function LastSegment(u: string): string {
    if u == [] || u[|u| - 1] == '/' then []
    else LastSegment(u[..|u| - 1]) + [u[|u| - 1]]
  }

  /** The code can be read back from the short URL as its last path
      segment, as the redirect route does, when the code holds no `/`. */
  lemma CodeIsLastSegment(site: Site, code: string)
    requires forall i :: 0 <= i < |code| ==> code[i] != '/'
    ensures LastSegment(Build(site, code)) == code
  {
    var prefix := Protocol(site) + "://" + Authority(site) + "/";
    assert Build(site, code) == prefix + code;
    SegmentAfterSlash(prefix, code);
  }

  lemma {:induction false} SegmentAfterSlash(prefix: string, tail: string)
    requires prefix != [] && prefix[|prefix| - 1] == '/'
    requires forall i :: 0 <= i < |tail| ==> tail[i] != '/'
    ensures LastSegment(prefix + tail) == tail
  {
    var u := prefix + tail;
    if tail != [] {
      var init := tail[..|tail| - 1];
      assert u[..|u| - 1] == prefix + init;
      assert u[|u| - 1] == tail[|tail| - 1];
      SegmentAfterSlash(prefix, init);
      assert tail == init + [tail[|tail| - 1]];
    } else {
      assert u == prefix;
    }
  }
}
