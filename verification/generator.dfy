/** `generate_short_code` (app.py): up to five candidates of 4 random
    letters or digits followed by the base-62 encoding of the clock's
    milliseconds modulo 1,000,000, each checked against the store; when all
    five fail, the encoded clock seconds followed by 6 random characters,
    unchecked. The clock, the random draws and the store's failures are
    inputs. */
module Generator {
  import Text
  import Radix
  import Base62
  import CodeFormat
  import Records

  const MaxRetries: nat := 5
  const RandomLength: nat := 4
  const FallbackRandomLength: nat := 6
  const TimeModulus: nat := 1000000

  /** What one pass of the retry loop takes from outside: the random
      characters, the clock in whole milliseconds, and whether the
      existence check raises a store error. */
  datatype Attempt = Attempt(random: string, millis: int, storeError: bool)

  /** One `Attempt` for each pass the loop may make. */
  type Attempts = s: seq<Attempt> | |s| == MaxRetries
    witness [Attempt("", 0, false), Attempt("", 0, false), Attempt("", 0, false),
             Attempt("", 0, false), Attempt("", 0, false)]

  /** Everything one call of the generator reads from the clock and the
      random source, including the clock seconds and random characters of
      the fallback. */
  datatype Entropy = Entropy(attempts: Attempts, fallbackSeconds: int, fallbackRandom: string)

  /** What `random.choices(string.ascii_letters + string.digits, k=...)`
      returns: exactly `k` letters or digits. */
  predicate IsRandomDraw(s: string, k: nat) {
    |s| == k && Text.AllAlnum(s)
  }

  predicate WellFormedEntropy(e: Entropy) {
    && (forall i :: 0 <= i < MaxRetries ==> IsRandomDraw(e.attempts[i].random, RandomLength))
    && IsRandomDraw(e.fallbackRandom, FallbackRandomLength)
  }

  /** The candidate of one pass: random part, then the time part. The
      clock's milliseconds are reduced with Python's `%`, which for a
      positive modulus agrees with Dafny's. */
  function Candidate(a: Attempt): string {
    a.random + Base62.Encode(a.millis % TimeModulus)
  }

  /** 62^14: below it, the encoded clock seconds leave room for the 6
      random characters of a fallback code within 20. */
  const FallbackSecondsBound: nat := Radix.Pow(Base62.Base, CodeFormat.MaxCodeLength - FallbackRandomLength)

  /** The code returned once the retries are used up. */
  function FallbackCode(e: Entropy): string {
    Base62.Encode(e.fallbackSeconds) + e.fallbackRandom
  }

  /** The outcome of the existence check `find_one({'short_code': code})`. */
  datatype Probe = Present | Absent | StoreError

  function ProbeFor(store: Records.Store, a: Attempt): (p: Probe)
    ensures p == Absent <==> !a.storeError && Records.Find(store, Records.ByCode(Candidate(a))).None?
  {
    if a.storeError then StoreError
    else if Records.Find(store, Records.ByCode(Candidate(a))).Some? then Present
    else Absent
  }

  /** A code from the loop remembers the pass that found it. */
  datatype Generated = Fresh(code: string, attempt: nat) | Fallback(code: string)

  /** The passes from `i` on: the first candidate whose check finds nothing,
      or the fallback once all passes have failed. A store error counts as
      a failed pass. */
  function GenerateFrom(store: Records.Store, e: Entropy, i: nat): (g: Generated)
    requires i <= MaxRetries
    ensures g.Fresh? ==> i <= g.attempt < MaxRetries
    ensures g.Fresh? ==> g.code == Candidate(e.attempts[g.attempt])
    ensures g.Fresh? ==> ProbeFor(store, e.attempts[g.attempt]) == Absent
    ensures g.Fresh? ==> forall j :: i <= j < g.attempt ==> ProbeFor(store, e.attempts[j]) != Absent
    ensures g.Fallback? ==> g.code == FallbackCode(e)
    ensures g.Fallback? ==> forall j :: i <= j < MaxRetries ==> ProbeFor(store, e.attempts[j]) != Absent
    decreases MaxRetries - i
  {
    if i == MaxRetries then Fallback(FallbackCode(e))
    else if ProbeFor(store, e.attempts[i]) == Absent then Fresh(Candidate(e.attempts[i]), i)
    else GenerateFrom(store, e, i + 1)
  }

  function Generate(store: Records.Store, e: Entropy): Generated {
    GenerateFrom(store, e, 0)
  }

  /** The source's loop. `queries` counts the existence checks it makes:
      one per pass, at most five, none for the fallback. */
  method GenerateShortCode(store: Records.Store, e: Entropy) returns (g: Generated, queries: nat)
    ensures g == Generate(store, e)
    ensures queries <= MaxRetries
    ensures g.Fresh? ==> queries == g.attempt + 1
    ensures g.Fallback? ==> queries == MaxRetries
  {
    var attempt := 0;
    queries := 0;
    while attempt < MaxRetries
      invariant attempt <= MaxRetries && queries == attempt
      invariant GenerateFrom(store, e, attempt) == Generate(store, e)
    {
      var a := e.attempts[attempt];
      var time62 := Base62.EncodeLoop(a.millis % TimeModulus);
      var code := a.random + time62;
      assert code == Candidate(a);
      queries := queries + 1;
      if ProbeFor(store, a) == Absent {
        assert GenerateFrom(store, e, attempt) == Fresh(code, attempt);
        return Fresh(code, attempt), queries;
      }
      assert GenerateFrom(store, e, attempt) == GenerateFrom(store, e, attempt + 1);
      attempt := attempt + 1;
    }
    var ts := Base62.EncodeLoop(e.fallbackSeconds);
    g := Fallback(ts + e.fallbackRandom);
    assert g == GenerateFrom(store, e, MaxRetries);
  }

  /** A code from the loop was absent from the store when it was checked. */
  lemma FreshCodeUnused(store: Records.Store, e: Entropy)
    requires Generate(store, e).Fresh?
    ensures Records.Find(store, Records.ByCode(Generate(store, e).code)).None?
  {
  }

  /** The generator falls back exactly when none of the tries found its
      candidate free. */
  lemma FreshIffSomeTryFree(store: Records.Store, e: Entropy)
    ensures Generate(store, e).Fresh? <==>
      exists k :: 0 <= k < MaxRetries && ProbeFor(store, e.attempts[k]) == Absent
  {
    var g := Generate(store, e);
    if g.Fresh? {
      assert ProbeFor(store, e.attempts[g.attempt]) == Absent;
    }
  }

  /** When every existence check raises, the generator falls back. */
  lemma StoreErrorsFallBack(store: Records.Store, e: Entropy)
    requires forall i :: 0 <= i < MaxRetries ==> e.attempts[i].storeError
    ensures Generate(store, e) == Fallback(FallbackCode(e))
  {
  }

  /** A candidate has 5 to 8 letters and digits, so it passes the format
      check of the redirect and stats handlers. */
  lemma CandidateShape(a: Attempt)
    requires IsRandomDraw(a.random, RandomLength)
    ensures 5 <= |Candidate(a)| <= 8
    ensures CodeFormat.IsAlnumCode(Candidate(a)) && CodeFormat.ValidCodeFormat(Candidate(a))
  {
    Base62.EncodeBelowMillion(a.millis % TimeModulus);
    var c := Candidate(a);
    var t := Base62.Encode(a.millis % TimeModulus);
    assert forall k :: 0 <= k < |c| ==> c[k] == (if k < |a.random| then a.random[k] else t[k - |a.random|]);
    CodeFormat.FormatWithoutNewline(c);
  }

  /** The fallback code passes the format check exactly when the clock
      seconds are below 62^14, so that their encoding leaves room for the
      6 random characters within 20. */
  lemma FallbackShape(e: Entropy)
    requires IsRandomDraw(e.fallbackRandom, FallbackRandomLength)
    ensures CodeFormat.ValidCodeFormat(FallbackCode(e)) <==>
      e.fallbackSeconds < FallbackSecondsBound
    ensures CodeFormat.ValidCodeFormat(FallbackCode(e)) <==> CodeFormat.IsAlnumCode(FallbackCode(e))
  {
    var c := FallbackCode(e);
    var t := Base62.Encode(e.fallbackSeconds);
    assert forall k :: 0 <= k < |c| ==> c[k] == (if k < |t| then t[k] else e.fallbackRandom[k - |t|]);
    CodeFormat.FormatWithoutNewline(c);
    if e.fallbackSeconds > 0 {
      Base62.EncodeLength(e.fallbackSeconds, CodeFormat.MaxCodeLength - FallbackRandomLength);
    }
  }

  /** With well-formed random draws and a clock below 62^14 seconds, every
      generated code has 1 to 20 letters and digits. */
  lemma GeneratedShape(store: Records.Store, e: Entropy)
    requires WellFormedEntropy(e)
    requires e.fallbackSeconds < FallbackSecondsBound
    ensures CodeFormat.IsAlnumCode(Generate(store, e).code)
  {
    match Generate(store, e)
    case Fresh(_, i) => CandidateShape(e.attempts[i]);
    case Fallback(_) => FallbackShape(e);
  }
}
