/** Admission of signed requests (`authenticate_worker_request` in `app/sandbox_worker.py`):
    the freshness window, the signature and the nonce cache together. */
module WorkerAdmission {
  import opened Basics
  import opened WorkerProtocol
  import opened ReplayGuard

  /** The worker's settings, and the standard library functions it calls: `int` on strings
      and HMAC-SHA256. */
  datatype Config = Config(
    key: string, maxBodyBytes: int, maxClockSkew: int, maxNonces: int,
    parseInt: string -> Option<int>, mac: Mac)
  {
    function Ttl(): int {
      2 * maxClockSkew
    }
  }

  /** Absent headers are empty strings, except Content-Length. */
  datatype Request = Request(signed: Signed, signature: string, contentLength: Option<string>)

  datatype Verdict =
    | Open
    | TooLarge | BadContentLength
    | MissingSignature | InvalidNonce | InvalidTimestamp | Stale
    | EncodingError | BadSignature | Replayed | CacheFailed
    | Admitted

  predicate NonceChar(c: char) {
    'A' <= c <= 'Z' || 'a' <= c <= 'z' || '0' <= c <= '9' || c == '_' || c == '-'
  }

  /** `NONCE_PATTERN.fullmatch`. */
  predicate ValidNonce(nonce: string) {
    16 <= |nonce| <= 128 && forall i | 0 <= i < |nonce| :: NonceChar(nonce[i])
  }

  predicate Fresh(cfg: Config, timestamp: int, now: real) {
    -cfg.maxClockSkew <= Truncate(now) - timestamp <= cfg.maxClockSkew
  }

  /** The Content-Length header as the middleware reads it: absent or empty is not checked. */
  predicate DeclaresLength(req: Request) {
    req.contentLength.Some? && req.contentLength.value != ""
  }

  /** The checks before the nonce cache, in order; Admitted when all pass. */
  function Screen(cfg: Config, req: Request, now: real): Verdict {
    var s := req.signed;
    if s.path == "/health" then Open
    else if DeclaresLength(req) && cfg.parseInt(req.contentLength.value).None? then BadContentLength
    else if DeclaresLength(req) && cfg.parseInt(req.contentLength.value).value > cfg.maxBodyBytes then TooLarge
    else if |s.body| > cfg.maxBodyBytes then TooLarge
    else if s.timestamp == "" || s.nonce == "" || req.signature == "" then MissingSignature
    else if !ValidNonce(s.nonce) then InvalidNonce
    else if cfg.parseInt(s.timestamp).None? then InvalidTimestamp
    else if !Fresh(cfg, cfg.parseInt(s.timestamp).value, now) then Stale
    else
      match VerifySignature(cfg.mac, cfg.key, req.signature, s)
      case None => EncodingError
      case Some(genuine) => if genuine then Admitted else BadSignature
  }

  /** What passing the screen means, whatever the order of the checks. */
  lemma ScreenAdmitsExactly(cfg: Config, req: Request, now: real)
    ensures Screen(cfg, req, now) == Admitted <==>
            && req.signed.path != "/health"
            && (DeclaresLength(req) ==>
                  && cfg.parseInt(req.contentLength.value).Some?
                  && cfg.parseInt(req.contentLength.value).value <= cfg.maxBodyBytes)
            && |req.signed.body| <= cfg.maxBodyBytes
            && ValidNonce(req.signed.nonce)
            && req.signed.timestamp != "" && cfg.parseInt(req.signed.timestamp).Some?
            && Fresh(cfg, cfg.parseInt(req.signed.timestamp).value, now)
            && VerifySignature(cfg.mac, cfg.key, req.signature, req.signed) == Some(true)
  {
  }

  /** A request with its two clock readings: at the freshness check and at the nonce cache. */
  datatype Arrival = Arrival(req: Request, checkedAt: real, consumedAt: real)

  /** The verdict on an arrival, given the history of accepted nonces. A cache without room
      for a single entry raises. */
  function Judge(cfg: Config, h: seq<Accepted>, a: Arrival): Verdict {
    var v := Screen(cfg, a.req, a.checkedAt);
    if v != Admitted then v
    else if cfg.maxNonces < 1 then CacheFailed
    else if InWindow(h, a.req.signed.nonce, a.consumedAt, cfg.Ttl(), cfg.maxNonces) then Replayed
    else Admitted
  }

  /** The nonces accepted over a run, in order. */
  function Admissions(cfg: Config, run: seq<Arrival>): seq<Accepted> {
    if run == [] then []
    else
      var h, a := Admissions(cfg, run[..|run| - 1]), run[|run| - 1];
      if Judge(cfg, h, a) == Admitted then h + [Accepted(a.req.signed.nonce, a.consumedAt)] else h
  }

  function VerdictAt(cfg: Config, run: seq<Arrival>, i: nat): Verdict
    requires i < |run|
  {
    Judge(cfg, Admissions(cfg, run[..i]), run[i])
  }

  /** How many requests are admitted from arrival i on, up to arrival j. */
  function AdmittedBetween(cfg: Config, run: seq<Arrival>, i: nat, j: nat): int
    requires i <= |run| && j <= |run|
  {
    |Admissions(cfg, run[..j])| - |Admissions(cfg, run[..i])|
  }

  /** The clock never runs backwards, and starts after the epoch. */
  ghost predicate Timely(run: seq<Arrival>) {
    && (forall i | 0 <= i < |run| :: 0.0 <= run[i].checkedAt <= run[i].consumedAt)
    && forall i, j | 0 <= i < j < |run| :: run[i].consumedAt <= run[j].checkedAt
  }

  lemma TimelySnoc(run: seq<Arrival>, a: Arrival, clock: real)
    requires Timely(run) && forall i | 0 <= i < |run| :: run[i].consumedAt <= clock
    requires 0.0 <= a.checkedAt <= a.consumedAt && clock <= a.checkedAt
    ensures Timely(run + [a]) && forall i | 0 <= i < |run + [a]| :: (run + [a])[i].consumedAt <= a.consumedAt
  {
  }

  // ---------- The history of a run ----------

  lemma AdmissionsSnoc(cfg: Config, run: seq<Arrival>, a: Arrival)
    ensures VerdictAt(cfg, run + [a], |run|) == Judge(cfg, Admissions(cfg, run), a)
    ensures Admissions(cfg, run + [a]) ==
            Admissions(cfg, run) + if Judge(cfg, Admissions(cfg, run), a) == Admitted
                                   then [Accepted(a.req.signed.nonce, a.consumedAt)] else []
  {
    assert (run + [a])[..|run|] == run;
  }

  lemma AdmissionsStep(cfg: Config, run: seq<Arrival>, i: nat)
    requires i < |run|
    ensures Admissions(cfg, run[..i + 1]) ==
            if VerdictAt(cfg, run, i) == Admitted
            then Admissions(cfg, run[..i]) + [Accepted(run[i].req.signed.nonce, run[i].consumedAt)]
            else Admissions(cfg, run[..i])
  {
    assert run[..i + 1][..i] == run[..i];
  }

  lemma {:induction false} AdmissionsGrow(cfg: Config, run: seq<Arrival>, i: nat, j: nat)
    requires i <= j <= |run|
    ensures Admissions(cfg, run[..i]) <= Admissions(cfg, run[..j])
  {
    if i < j {
      AdmissionsGrow(cfg, run, i, j - 1);
      AdmissionsStep(cfg, run, j - 1);
    }
  }

  lemma {:induction false} AdmissionsChronological(cfg: Config, run: seq<Arrival>, now: real)
    requires Timely(run)
    requires run != [] ==> run[|run| - 1].consumedAt <= now
    ensures Chronological(Admissions(cfg, run), now)
  {
    if run != [] {
      var n := |run| - 1;
      assert n > 0 ==> run[n - 1].consumedAt <= run[n].checkedAt <= run[n].consumedAt;
      AdmissionsChronological(cfg, run[..n], run[n].consumedAt);
    }
  }

  /** An admission stands in the history of every later moment, at its own place. */
  lemma AdmittedIsRecorded(cfg: Config, run: seq<Arrival>, i: nat, j: nat)
    requires i < j <= |run| && VerdictAt(cfg, run, i) == Admitted
    ensures var h, k := Admissions(cfg, run[..j]), |Admissions(cfg, run[..i])|;
            k < |h| && h[k] == Accepted(run[i].req.signed.nonce, run[i].consumedAt)
  {
    AdmissionsStep(cfg, run, i);
    AdmissionsGrow(cfg, run, i + 1, j);
  }

  /** And nothing else stands there: each entry is one arrival's admission. */
  lemma {:induction false} RecordedWasAdmitted(cfg: Config, run: seq<Arrival>, k: nat) returns (i: nat)
    requires k < |Admissions(cfg, run)|
    ensures i < |run| && VerdictAt(cfg, run, i) == Admitted && |Admissions(cfg, run[..i])| == k
    ensures Admissions(cfg, run)[k] == Accepted(run[i].req.signed.nonce, run[i].consumedAt)
  {
    var n := |run| - 1;
    if k < |Admissions(cfg, run[..n])| {
      i := RecordedWasAdmitted(cfg, run[..n], k);
      assert run[..n][..i] == run[..i];
    } else {
      i := n;
    }
  }

  // ---------- Which arrivals are admitted ----------

  /** Arrival i's admission still stands in the way of arrival j: the nonce is the same, has
      not expired, and has not been evicted. */
  predicate Blocks(cfg: Config, run: seq<Arrival>, i: nat, j: nat)
    requires i < |run| && j < |run|
  {
    && VerdictAt(cfg, run, i) == Admitted
    && run[i].req.signed.nonce == run[j].req.signed.nonce
    && run[j].consumedAt < run[i].consumedAt + cfg.Ttl() as real
    && AdmittedBetween(cfg, run, i, j) <= cfg.maxNonces
  }

  /** Over whole runs, exactly: an arrival is admitted if and only if it passes the screen, the
      cache has room for an entry, and no earlier admission of its nonce is both unexpired and
      among the last maxNonces. */
  lemma AdmittedExactly(cfg: Config, run: seq<Arrival>, j: nat)
    requires j < |run| && Timely(run)
    ensures VerdictAt(cfg, run, j) == Admitted <==>
            && Screen(cfg, run[j].req, run[j].checkedAt) == Admitted && cfg.maxNonces >= 1
            && forall i | 0 <= i < j :: !Blocks(cfg, run, i, j)
  {
    var h, nonce := Admissions(cfg, run[..j]), run[j].req.signed.nonce;
    assert Timely(run[..j]);
    AdmissionsChronological(cfg, run[..j], run[j].consumedAt);
    InWindowMeaning(h, nonce, run[j].consumedAt, cfg.Ttl(), cfg.maxNonces);
    forall i | 0 <= i < j && Blocks(cfg, run, i, j)
      ensures InWindow(h, nonce, run[j].consumedAt, cfg.Ttl(), cfg.maxNonces)
    {
      AdmittedIsRecorded(cfg, run, i, j);
      assert h[|Admissions(cfg, run[..i])|].nonce == nonce;
    }
    var now := run[j].consumedAt;
    if k :| 0 <= k < |h| && h[k].nonce == nonce && Live(h[k], now, cfg.Ttl()) && |h| - k <= cfg.maxNonces {
      var i := RecordedWasAdmitted(cfg, run[..j], k);
      assert run[..j][..i] == run[..i];
      assert Blocks(cfg, run, i, j);
    }
  }

  /** What no longer stood in the way of arrival i does not stand in the way of a later one. */
  lemma OlderDoesNotBlock(cfg: Config, run: seq<Arrival>, k: nat, i: nat, j: nat)
    requires k < i < j < |run| && Timely(run)
    requires VerdictAt(cfg, run, i) == Admitted && run[i].req.signed.nonce == run[j].req.signed.nonce
    ensures !Blocks(cfg, run, k, j)
  {
    AdmittedExactly(cfg, run, i);
    assert !Blocks(cfg, run, k, i);
    AdmissionsGrow(cfg, run, i, j);
    assert run[i].consumedAt <= run[j].consumedAt;
  }

  /** Arrival i is the most recent admission, before arrival j, of the nonce of j. */
  ghost predicate LatestAdmission(cfg: Config, run: seq<Arrival>, i: nat, j: nat)
    requires i < |run| && j < |run|
  {
    && i < j && VerdictAt(cfg, run, i) == Admitted && run[i].req.signed.nonce == run[j].req.signed.nonce
    && forall k | i < k < j && VerdictAt(cfg, run, k) == Admitted :: run[k].req.signed.nonce != run[j].req.signed.nonce
  }

  lemma OnlyTheLatestBlocks(cfg: Config, run: seq<Arrival>, i: nat, j: nat)
    requires i < |run| && j < |run| && Timely(run) && LatestAdmission(cfg, run, i, j)
    ensures forall k | 0 <= k < j :: Blocks(cfg, run, k, j) ==> k == i
  {
    forall k | 0 <= k < j && k != i ensures !Blocks(cfg, run, k, j) {
      if k < i {
        OlderDoesNotBlock(cfg, run, k, i, j);
      }
    }
  }

  /** The most recent admission of a nonce decides alone: its next presentation that passes the
      screen is admitted again if and only if that admission has expired or been evicted. */
  lemma LatestAdmissionDecides(cfg: Config, run: seq<Arrival>, i: nat, j: nat)
    requires i < |run| && j < |run| && Timely(run) && LatestAdmission(cfg, run, i, j)
    ensures VerdictAt(cfg, run, j) == Admitted <==>
            && Screen(cfg, run[j].req, run[j].checkedAt) == Admitted
            && (|| run[j].consumedAt >= run[i].consumedAt + cfg.Ttl() as real
                || AdmittedBetween(cfg, run, i, j) > cfg.maxNonces)
  {
    AdmittedExactly(cfg, run, i);
    AdmittedExactly(cfg, run, j);
    OnlyTheLatestBlocks(cfg, run, i, j);
    assert (forall k | 0 <= k < j :: !Blocks(cfg, run, k, j)) <==> !Blocks(cfg, run, i, j);
  }

  lemma FreshMeaning(cfg: Config, timestamp: int, now: real)
    requires now >= 0.0
    ensures Fresh(cfg, timestamp, now) <==>
            (timestamp - cfg.maxClockSkew) as real <= now < (timestamp + cfg.maxClockSkew + 1) as real
  {
  }

  // ---------- Which arrival gets which verdict ----------

  predicate IsHealthCheck(req: Request) {
    req.signed.path == "/health"
  }

  /** The declared length is absent, empty or a number. */
  predicate DeclaresNumber(cfg: Config, req: Request) {
    req.contentLength.None? || req.contentLength.value == "" || cfg.parseInt(req.contentLength.value).Some?
  }

  /** The body is too large, as declared or as received. */
  predicate Oversized(cfg: Config, req: Request) {
    || |req.signed.body| > cfg.maxBodyBytes
    || (&& req.contentLength.Some? && req.contentLength.value != ""
        && cfg.parseInt(req.contentLength.value).Some?
        && cfg.parseInt(req.contentLength.value).value > cfg.maxBodyBytes)
  }

  predicate HasSignatureHeaders(req: Request) {
    req.signed.timestamp != "" && req.signed.nonce != "" && req.signature != ""
  }

  /** Between 16 and 128 letters, digits, underscores and hyphens. */
  predicate WellFormedNonce(nonce: string) {
    && 16 <= |nonce| <= 128
    && forall c | c in nonce ::
         'a' <= c <= 'z' || 'A' <= c <= 'Z' || '0' <= c <= '9' || c in {'_', '-'}
  }

  /** The timestamp is at most the skew away from the clock, which counts whole seconds. */
  predicate OnTime(cfg: Config, req: Request, now: real) {
    && cfg.parseInt(req.signed.timestamp).Some?
    && var timestamp := cfg.parseInt(req.signed.timestamp).value;
    (timestamp - cfg.maxClockSkew) as real <= now < (timestamp + cfg.maxClockSkew + 1) as real
  }

  predicate Genuine(cfg: Config, req: Request) {
    && cfg.key != "" && req.signature != ""
    && IsSignatureOf(cfg.mac, cfg.key, AsciiOnly(req.signature), req.signed)
  }

  /** A request in good form: of an allowed size, with all signature headers, a well-formed nonce
      and a timestamp in the window. */
  predicate InGoodForm(cfg: Config, req: Request, now: real) {
    && DeclaresNumber(cfg, req) && !Oversized(cfg, req) && HasSignatureHeaders(req)
    && WellFormedNonce(req.signed.nonce) && OnTime(cfg, req, now)
  }

  /** What a verdict on a request means, whatever the order of the checks: each refusal names
      something that is wrong with the request, and nothing that is checked before it is. */
  ghost predicate VerdictFits(cfg: Config, req: Request, now: real, blocked: bool, v: Verdict) {
    if IsHealthCheck(req) then v == Open
    else match v
      case Open => false
      case BadContentLength => !DeclaresNumber(cfg, req)
      case TooLarge => DeclaresNumber(cfg, req) && Oversized(cfg, req)
      case MissingSignature => DeclaresNumber(cfg, req) && !Oversized(cfg, req) && !HasSignatureHeaders(req)
      case InvalidNonce =>
        && DeclaresNumber(cfg, req) && !Oversized(cfg, req) && HasSignatureHeaders(req)
        && !WellFormedNonce(req.signed.nonce)
      case InvalidTimestamp =>
        && DeclaresNumber(cfg, req) && !Oversized(cfg, req) && HasSignatureHeaders(req)
        && WellFormedNonce(req.signed.nonce) && cfg.parseInt(req.signed.timestamp).None?
      case Stale =>
        && DeclaresNumber(cfg, req) && !Oversized(cfg, req) && HasSignatureHeaders(req)
        && WellFormedNonce(req.signed.nonce) && cfg.parseInt(req.signed.timestamp).Some? && !OnTime(cfg, req, now)
      case EncodingError => InGoodForm(cfg, req, now) && cfg.key != "" && SignatureMessage(req.signed).None?
      case BadSignature =>
        InGoodForm(cfg, req, now) && !Genuine(cfg, req) && (cfg.key == "" || SignatureMessage(req.signed).Some?)
      case CacheFailed => InGoodForm(cfg, req, now) && Genuine(cfg, req) && cfg.maxNonces < 1
      case Replayed => InGoodForm(cfg, req, now) && Genuine(cfg, req) && cfg.maxNonces >= 1 && blocked
      case Admitted => InGoodForm(cfg, req, now) && Genuine(cfg, req) && cfg.maxNonces >= 1 && !blocked
  }

  lemma NonceForm(nonce: string)
    ensures ValidNonce(nonce) <==> WellFormedNonce(nonce)
  {
    if ValidNonce(nonce) {
      forall c | c in nonce ensures NonceChar(c) {
        var i :| 0 <= i < |nonce| && nonce[i] == c;
      }
    }
    assert forall i | 0 <= i < |nonce| :: nonce[i] in nonce;
  }

  lemma ScreenFits(cfg: Config, req: Request, now: real)
    requires now >= 0.0
    ensures Screen(cfg, req, now) != Admitted ==>
              forall blocked :: VerdictFits(cfg, req, now, blocked, Screen(cfg, req, now))
    ensures Screen(cfg, req, now) == Admitted ==>
              !IsHealthCheck(req) && InGoodForm(cfg, req, now) && Genuine(cfg, req)
  {
    NonceForm(req.signed.nonce);
    VerifyCaseByCase(cfg.mac, cfg.key, req.signature, req.signed);
    if cfg.parseInt(req.signed.timestamp).Some? {
      FreshMeaning(cfg, cfg.parseInt(req.signed.timestamp).value, now);
    }
  }

  /** An earlier admission stands in the way of arrival j. */
  ghost predicate Blocked(cfg: Config, run: seq<Arrival>, j: nat)
    requires j < |run|
  {
    exists i | 0 <= i < j :: Blocks(cfg, run, i, j)
  }

  /** Over whole runs, for every verdict: an arrival gets it if and only if it fits. */
  lemma VerdictExactly(cfg: Config, run: seq<Arrival>, j: nat, v: Verdict)
    requires j < |run| && Timely(run)
    ensures VerdictAt(cfg, run, j) == v <==>
            VerdictFits(cfg, run[j].req, run[j].checkedAt, Blocked(cfg, run, j), v)
  {
    var req, now, blocked := run[j].req, run[j].checkedAt, Blocked(cfg, run, j);
    ScreenFits(cfg, req, now);
    AdmittedExactly(cfg, run, j);
    OneVerdictFits(cfg, req, now, blocked, VerdictAt(cfg, run, j), v);
  }

  lemma OneVerdictFits(cfg: Config, req: Request, now: real, blocked: bool, v: Verdict, w: Verdict)
    requires VerdictFits(cfg, req, now, blocked, v)
    ensures VerdictFits(cfg, req, now, blocked, w) <==> v == w
  {
  }

  /** What is passed on to the handlers: the health check without any authentication, and else
      exactly the genuine requests in good form that no earlier admission blocks. */
  lemma PassedOnExactly(cfg: Config, run: seq<Arrival>, j: nat)
    requires j < |run| && Timely(run)
    ensures var req, v := run[j].req, VerdictAt(cfg, run, j);
            && (v == Open <==> req.signed.path == "/health")
            && (v == Open || v == Admitted <==>
                  || req.signed.path == "/health"
                  || (&& InGoodForm(cfg, req, run[j].checkedAt) && Genuine(cfg, req)
                      && cfg.maxNonces >= 1 && !Blocked(cfg, run, j)))
  {
    VerdictExactly(cfg, run, j, Open);
    VerdictExactly(cfg, run, j, Admitted);
  }

  // ---------- At most once ----------

  /** A nonce admitted at time t stays refused while it is live and fewer than maxNonces
      others have been admitted since. */
  lemma LiveNonceIsRefused(cfg: Config, run: seq<Arrival>, i: nat, j: nat)
    requires i < j < |run| && Timely(run)
    requires VerdictAt(cfg, run, i) == Admitted && run[j].req.signed.nonce == run[i].req.signed.nonce
    requires AdmittedBetween(cfg, run, i, j) <= cfg.maxNonces
    requires run[j].consumedAt < run[i].consumedAt + cfg.Ttl() as real
    ensures VerdictAt(cfg, run, j) != Admitted
  {
    assert Blocks(cfg, run, i, j);
    AdmittedExactly(cfg, run, j);
  }

  /** The timestamp of a request that has passed the screen. */
  function TimestampOf(cfg: Config, req: Request): int {
    var t := cfg.parseInt(req.signed.timestamp);
    if t.Some? then t.value else 0
  }

  /** At most once, over whole runs: a request admitted with a timestamp that leaves room for
      the clock's rounding and for the later request's own delay between its two clock
      readings is never admitted again with the same timestamp and nonce, as long as fewer
      than maxNonces others are admitted in between. */
  lemma AdmittedAtMostOnce(cfg: Config, run: seq<Arrival>, i: nat, j: nat)
    requires i < j < |run| && Timely(run)
    requires VerdictAt(cfg, run, i) == Admitted
    requires run[j].req.signed.nonce == run[i].req.signed.nonce
    requires run[j].req.signed.timestamp == run[i].req.signed.timestamp
    requires AdmittedBetween(cfg, run, i, j) <= cfg.maxNonces
    requires TimestampOf(cfg, run[i].req) as real + 1.0 + (run[j].consumedAt - run[j].checkedAt)
             <= run[i].consumedAt + cfg.maxClockSkew as real
    ensures VerdictAt(cfg, run, j) != Admitted
  {
    if Screen(cfg, run[j].req, run[j].checkedAt) == Admitted {
      FreshMeaning(cfg, TimestampOf(cfg, run[j].req), run[j].checkedAt);
      LiveNonceIsRefused(cfg, run, i, j);
    }
  }

  /** End to end: under an ideal MAC no captured signature is honoured twice, on whatever
      request it is presented again, under the same conditions on timestamp, delay and
      capacity. */
  lemma SignatureHonouredOnce(cfg: Config, run: seq<Arrival>, i: nat, j: nat)
    requires i < j < |run| && Timely(run) && Ideal(cfg.mac)
    requires run[i].req.signed.OneLine() && run[j].req.signed.OneLine()
    requires VerdictAt(cfg, run, i) == Admitted
    requires AsciiOnly(run[j].req.signature) == AsciiOnly(run[i].req.signature)
    requires AdmittedBetween(cfg, run, i, j) <= cfg.maxNonces
    requires TimestampOf(cfg, run[i].req) as real + 1.0 + (run[j].consumedAt - run[j].checkedAt)
             <= run[i].consumedAt + cfg.maxClockSkew as real
    ensures VerdictAt(cfg, run, j) != Admitted
  {
    var r, q := run[i].req, run[j].req;
    if Screen(cfg, q, run[j].checkedAt) == Admitted {
      VerifyAcceptsExactly(cfg.mac, cfg.key, q.signature, r.signed, q.signed);
      assert SameBinding(r.signed, q.signed);
      AdmittedAtMostOnce(cfg, run, i, j);
    }
  }

  /** A request whose timestamp is strictly inside the future edge of the window. */
  predicate InsideEdge(cfg: Config, a: Arrival) {
    TimestampOf(cfg, a.req) < Truncate(a.consumedAt) + cfg.maxClockSkew
  }

  /** When the second presentation reads the same time twice, what matters is the edge. */
  lemma SignatureHonouredOnceInsideTheEdge(cfg: Config, run: seq<Arrival>, i: nat, j: nat)
    requires i < j < |run| && Timely(run) && Ideal(cfg.mac)
    requires run[i].req.signed.OneLine() && run[j].req.signed.OneLine()
    requires VerdictAt(cfg, run, i) == Admitted && InsideEdge(cfg, run[i])
    requires AsciiOnly(run[j].req.signature) == AsciiOnly(run[i].req.signature)
    requires AdmittedBetween(cfg, run, i, j) <= cfg.maxNonces
    requires run[j].checkedAt == run[j].consumedAt
    ensures VerdictAt(cfg, run, j) != Admitted
  {
    SignatureHonouredOnce(cfg, run, i, j);
  }

  // ---------- Admitted again ----------

  /** After a run, its last request is presented again: the screen reads the clock at `at`, the
      nonce cache `delay` later. */
  predicate AdmittedAgain(cfg: Config, run: seq<Arrival>, at: real, delay: real)
    requires run != []
  {
    VerdictAt(cfg, run + [Arrival(run[|run| - 1].req, at, at + delay)], |run|) == Admitted
  }

  lemma ScreenedAgain(cfg: Config, req: Request, now: real, later: real)
    requires Screen(cfg, req, now) == Admitted
    ensures Fresh(cfg, TimestampOf(cfg, req), now)
    ensures Screen(cfg, req, later) == Admitted <==> Fresh(cfg, TimestampOf(cfg, req), later)
  {
  }

  lemma LastVerdictStays(cfg: Config, run: seq<Arrival>, next: Arrival)
    requires run != [] && VerdictAt(cfg, run, |run| - 1) == Admitted
    ensures VerdictAt(cfg, run + [next], |run| - 1) == Admitted
    ensures AdmittedBetween(cfg, run + [next], |run| - 1, |run|) == 1
  {
    var n := |run| - 1;
    assert (run + [next])[..n] == run[..n];
    AdmissionsStep(cfg, run + [next], n);
  }

  lemma NextIsDecided(cfg: Config, run: seq<Arrival>, next: Arrival)
    requires run != [] && Timely(run + [next]) && VerdictAt(cfg, run, |run| - 1) == Admitted && cfg.maxNonces >= 1
    requires next.req == run[|run| - 1].req
    ensures VerdictAt(cfg, run + [next], |run|) == Admitted <==>
            && Screen(cfg, next.req, next.checkedAt) == Admitted
            && next.consumedAt >= run[|run| - 1].consumedAt + cfg.Ttl() as real
  {
    LastVerdictStays(cfg, run, next);
    assert LatestAdmission(cfg, run + [next], |run| - 1, |run|);
    LatestAdmissionDecides(cfg, run + [next], |run| - 1, |run|);
  }

  lemma PresentedAgain(cfg: Config, run: seq<Arrival>, at: real, delay: real)
    requires run != [] && Timely(run) && VerdictAt(cfg, run, |run| - 1) == Admitted
    requires run[|run| - 1].consumedAt <= at && delay >= 0.0
    ensures AdmittedAgain(cfg, run, at, delay) <==>
            && Fresh(cfg, TimestampOf(cfg, run[|run| - 1].req), at)
            && at + delay >= run[|run| - 1].consumedAt + cfg.Ttl() as real
  {
    var n := |run| - 1;
    var next := Arrival(run[n].req, at, at + delay);
    forall i | 0 <= i < |run| ensures run[i].consumedAt <= run[n].consumedAt {
    }
    TimelySnoc(run, next, run[n].consumedAt);
    AdmittedExactly(cfg, run, n);
    NextIsDecided(cfg, run, next);
    ScreenedAgain(cfg, run[n].req, run[n].checkedAt, at);
  }

  /** The exact condition, after any run: the request just admitted can be admitted again, by a
      presentation with the given delay between its two clock readings and nothing else in
      between, if and only if its timestamp lies so far ahead of the clock that the request
      is still fresh when the cache entry expires. */
  lemma AdmittedAgainIff(cfg: Config, run: seq<Arrival>, delay: real)
    requires run != [] && Timely(run) && VerdictAt(cfg, run, |run| - 1) == Admitted && delay >= 0.0
    ensures var a := run[|run| - 1];
            var timestamp, skew := TimestampOf(cfg, a.req) as real, cfg.maxClockSkew as real;
            (exists at: real :: a.consumedAt <= at && AdmittedAgain(cfg, run, at, delay)) <==>
            a.consumedAt + skew < timestamp + 1.0 + delay && a.consumedAt < timestamp + skew + 1.0
  {
    var a := run[|run| - 1];
    var timestamp, skew := TimestampOf(cfg, a.req) as real, cfg.maxClockSkew as real;
    var earliest := if 2.0 * skew <= delay then a.consumedAt else a.consumedAt + 2.0 * skew - delay;
    AdmittedExactly(cfg, run, |run| - 1);
    ScreenedAgain(cfg, a.req, a.checkedAt, a.checkedAt);
    FreshMeaning(cfg, TimestampOf(cfg, a.req), a.checkedAt);
    FreshMeaning(cfg, TimestampOf(cfg, a.req), earliest);
    PresentedAgain(cfg, run, earliest, delay);
    forall at: real | a.consumedAt <= at && AdmittedAgain(cfg, run, at, delay)
      ensures a.consumedAt + skew < timestamp + 1.0 + delay && a.consumedAt < timestamp + skew + 1.0
    {
      FreshMeaning(cfg, TimestampOf(cfg, a.req), at);
      PresentedAgain(cfg, run, at, delay);
    }
  }

  /** Without a delay it can if and only if its timestamp is on the future edge of the window,
      maxClockSkew ahead of the clock. */
  lemma AdmittedAgainOnTheEdge(cfg: Config, run: seq<Arrival>)
    requires run != [] && Timely(run) && VerdictAt(cfg, run, |run| - 1) == Admitted
    ensures (exists at: real :: run[|run| - 1].consumedAt <= at && AdmittedAgain(cfg, run, at, 0.0)) <==>
            !InsideEdge(cfg, run[|run| - 1])
  {
    AdmittedAgainIff(cfg, run, 0.0);
    var a := run[|run| - 1];
    AdmittedExactly(cfg, run, |run| - 1);
    ScreenedAgain(cfg, a.req, a.checkedAt, a.checkedAt);
    FreshMeaning(cfg, TimestampOf(cfg, a.req), a.checkedAt);
  }

  /** Capacity: with room for one nonce, any other admission makes the worker forget the first,
      wherever its timestamp lies. */
  lemma EvictedIsAdmittedAgain(cfg: Config, run: seq<Arrival>)
    requires cfg.maxNonces == 1 && |run| == 3 && Timely(run)
    requires forall k | 0 <= k < 3 :: Screen(cfg, run[k].req, run[k].checkedAt) == Admitted
    requires run[2].req == run[0].req && run[1].req.signed.nonce != run[0].req.signed.nonce
    ensures VerdictAt(cfg, run, 0) == Admitted && VerdictAt(cfg, run, 2) == Admitted
  {
    AdmittedExactly(cfg, run, 0);
    AdmittedExactly(cfg, run, 1);
    assert VerdictAt(cfg, run, 1) == Admitted;
    AdmissionsStep(cfg, run, 0);
    AdmissionsStep(cfg, run, 1);
    assert LatestAdmission(cfg, run, 0, 2);
    LatestAdmissionDecides(cfg, run, 0, 2);
  }

  // ---------- The worker object ----------

  class Worker {
    const cfg: Config
    const nonces: NonceReplayGuard
    ghost var run: seq<Arrival>
    ghost var clock: real

    ghost predicate Valid()
      reads this, nonces
    {
      && nonces.Valid() && nonces.ttlSeconds == cfg.Ttl() && nonces.maxEntries == cfg.maxNonces
      && nonces.clock <= clock
      && Timely(run) && (forall i | 0 <= i < |run| :: run[i].consumedAt <= clock)
      && nonces.accepted == Admissions(cfg, run)
    }

    constructor (cfg: Config, start: real)
      ensures Valid() && fresh(nonces) && this.cfg == cfg && run == [] && clock == start
    {
      this.cfg := cfg;
      nonces := new NonceReplayGuard(cfg.Ttl(), cfg.maxNonces, start);
      run, clock := [], start;
    }

    /** The request is judged exactly as the run so far says, and joins it. The clock is read
        once for the freshness check and once by the nonce cache. */
    method Authenticate(req: Request, checkedAt: real, consumedAt: real) returns (v: Verdict)
      requires Valid() && 0.0 <= checkedAt <= consumedAt && clock <= checkedAt
      modifies this, nonces
      ensures Valid() && run == old(run) + [Arrival(req, checkedAt, consumedAt)] && clock == consumedAt
      ensures v == VerdictAt(cfg, run, |old(run)|)
    {
      ghost var run' := run + [Arrival(req, checkedAt, consumedAt)];
      AdmissionsSnoc(cfg, run, Arrival(req, checkedAt, consumedAt));
      TimelySnoc(run, Arrival(req, checkedAt, consumedAt), clock);
      v := Screen(cfg, req, checkedAt);
      if v == Admitted {
        var unseen := nonces.Consume(req.signed.nonce, consumedAt);
        if unseen.None? {
          v := CacheFailed;
        } else if !unseen.value {
          v := Replayed;
        }
      }
      run, clock := run', consumedAt;
    }
  }
}
