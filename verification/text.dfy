/** Character classes and the one string operation of Python the service
    relies on: `str.strip()` with no argument. */
module Text {

  /** One of `string.ascii_letters + string.digits`, which is also the class
      `[a-zA-Z0-9]` of a Python regular expression. */
  predicate IsAlnum(c: char) {
    ('0' <= c <= '9') || ('A' <= c <= 'Z') || ('a' <= c <= 'z')
  }

  predicate AllAlnum(s: string) {
    forall i :: 0 <= i < |s| ==> IsAlnum(s[i])
  }

  /** The characters for which Python's `str.isspace()` holds, i.e. the
      characters `str.strip()` removes when called without an argument. */
  predicate IsSpace(c: char) {
    || ('\t' <= c <= '\r')               // tab, newline, vertical tab, form feed, carriage return
    || ('\U{1C}' <= c <= '\U{1F}')       // file, group, record and unit separators
    || c == ' ' || c == '\U{85}' || c == '\U{A0}' || c == '\U{1680}'
    || ('\U{2000}' <= c <= '\U{200A}')
    || c == '\U{2028}' || c == '\U{2029}' || c == '\U{202F}' || c == '\U{205F}' || c == '\U{3000}'
  }

  /** Drops the leading whitespace: the result is the longest suffix of `s`
      that does not start with whitespace. */
  function TrimStart(s: string): (r: string)
    ensures |r| <= |s| && r == s[|s| - |r|..]
    ensures forall k :: 0 <= k < |s| - |r| ==> IsSpace(s[k])
    ensures r == [] || !IsSpace(r[0])
  {
    if |s| > 0 && IsSpace(s[0]) then TrimStart(s[1..]) else s
  }

  /** Drops the trailing whitespace: the result is the longest prefix of `s`
      that does not end with whitespace. */
  function TrimEnd(s: string): (r: string)
    ensures |r| <= |s| && r == s[..|r|]
    ensures forall k :: |r| <= k < |s| ==> IsSpace(s[k])
    ensures r == [] || !IsSpace(r[|r| - 1])
  {
    if |s| > 0 && IsSpace(s[|s| - 1]) then TrimEnd(s[..|s| - 1]) else s
  }

  predicate AllSpace(s: string) {
    forall k :: 0 <= k < |s| ==> IsSpace(s[k])
  }

  /** `s` is `r` with the whitespace `s[..i]` before it and some whitespace after it. */
  predicate PaddedAt(s: string, r: string, i: nat) {
    && i + |r| <= |s|
    && s[i..i + |r|] == r
    && AllSpace(s[..i])
    && AllSpace(s[i + |r|..])
  }

  /** Python's `s.strip()`: the slice of `s` left once the whitespace at
      both ends is removed. */
  function Strip(s: string): (r: string)
    ensures exists i :: PaddedAt(s, r, i)
    ensures r == [] || (!IsSpace(r[0]) && !IsSpace(r[|r| - 1]))
  {
    var t := TrimStart(s);
    var r := TrimEnd(t);
    assert PaddedAt(s, r, |s| - |t|);
    r
  }

  lemma TrimStartKeeps(s: string)
    requires s == [] || !IsSpace(s[0])
    ensures TrimStart(s) == s
  {
  }

  lemma TrimEndKeeps(s: string)
    requires s == [] || !IsSpace(s[|s| - 1])
    ensures TrimEnd(s) == s
  {
  }

  /** Stripping twice is stripping once. */
  lemma StripIdempotent(s: string)
    ensures Strip(Strip(s)) == Strip(s)
  {
    var r := Strip(s);
    TrimStartKeeps(r);
    TrimEndKeeps(r);
  }

  /** The contract of `Strip` pins its result down: any slice of `s` that is
      surrounded only by whitespace and neither starts nor ends with
      whitespace is the one `Strip` returns. */
  lemma StripUnique(s: string, r: string, i: nat)
    requires PaddedAt(s, r, i)
    requires r == [] || (!IsSpace(r[0]) && !IsSpace(r[|r| - 1]))
    ensures Strip(s) == r
  {
    if r == [] {
      assert s == s[..i] + s[i..];
      AllSpaceStrips(s);
    } else {
      assert s[i] == r[0] by { assert s[i..i + |r|][0] == s[i]; }
      forall k | 0 <= k < i ensures IsSpace(s[k]) {
        assert s[..i][k] == s[k];
      }
      TrimStartAt(s, i);
      var t := s[i..];
      assert t[..|r|] == r;
      forall k | |r| <= k < |t| ensures IsSpace(t[k]) {
        assert s[i + |r|..][k - |r|] == t[k];
      }
      TrimEndAt(t, |r|);
    }
  }

  lemma AllSpaceStrips(s: string)
    requires AllSpace(s[..|s|])
    ensures Strip(s) == []
  {
  }

  lemma TrimStartAt(s: string, i: nat)
    requires i < |s| && !IsSpace(s[i])
    requires forall k :: 0 <= k < i ==> IsSpace(s[k])
    ensures TrimStart(s) == s[i..]
  {
  }

  lemma TrimEndAt(t: string, m: nat)
    requires 1 <= m <= |t| && !IsSpace(t[m - 1])
    requires forall k :: m <= k < |t| ==> IsSpace(t[k])
    ensures TrimEnd(t) == t[..m]
  {
  }
}
