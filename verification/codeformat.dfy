/** The short-code format check that `redirect_to_url` and `get_stats` run
    before touching the store (app.py lines 150 and 178). */
module CodeFormat {
  import Text

  const MaxCodeLength: nat := 20

  /** `re.match(r'^[a-zA-Z0-9]+$', code)` in Python: one or more ASCII
      letters or digits up to the end of the string, where `$` also
      matches just before a newline that ends the string. */
  predicate MatchesPattern(code: string) {
    || (code != [] && Text.AllAlnum(code))
    || (|code| >= 2 && code[|code| - 1] == '\n' && Text.AllAlnum(code[..|code| - 1]))
  }

  /** The code passes the check: the pattern matches and the code has at
      most 20 characters (the newline `$` lets through counts). */
  predicate ValidCodeFormat(code: string) {
    MatchesPattern(code) && |code| <= MaxCodeLength
  }

  /** A code of 1 to 20 letters and digits, the shape the generator aims at. */
  predicate IsAlnumCode(code: string) {
    1 <= |code| <= MaxCodeLength && Text.AllAlnum(code)
  }

  /** The regular-expression engine's run on the pattern: `[a-zA-Z0-9]+`
      consumes greedily, then `$` is tried. Backtracking never helps, since
      giving back a letter or digit leaves that character before `$`. */
  method MatchPattern(code: string) returns (matched: bool)
    ensures matched <==> MatchesPattern(code)
  {
    var i := 0;
    while i < |code| && Text.IsAlnum(code[i])
      invariant 0 <= i <= |code|
      invariant Text.AllAlnum(code[..i])
    {
      i := i + 1;
    }
    assert i < |code| ==> !Text.IsAlnum(code[i]);
    if i == |code| {
      assert code[..i] == code;
    }
    matched := i > 0 && (i == |code| || (i == |code| - 1 && code[i] == '\n'));
  }

  /** The check as the handlers write it: reject when the pattern does not
      match or the code is longer than 20 characters. */
  method CheckCodeFormat(code: string) returns (ok: bool)
    ensures ok <==> ValidCodeFormat(code)
  {
    var matched := MatchPattern(code);
    ok := !(!matched || |code| > MaxCodeLength);
  }

  /** For a code without a newline the check is exactly "1 to 20 letters
      and digits". */
  lemma FormatWithoutNewline(code: string)
    requires forall i :: 0 <= i < |code| ==> code[i] != '\n'
    ensures ValidCodeFormat(code) <==> IsAlnumCode(code)
  {
  }

  /** A concrete instance: "abc" followed by a newline passes the check. */
  lemma NewlineExample()
    ensures ValidCodeFormat("abc\n") && !IsAlnumCode("abc\n")
  {
    assert "abc\n"[..3] == "abc";
  }
}
