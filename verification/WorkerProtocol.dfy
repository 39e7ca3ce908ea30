/** The signed message framing (`app/worker_protocol.py`), over bytes. */
module WorkerProtocol {
  import opened Basics

  newtype Byte = x: int | 0 <= x < 256
  type Bytes = seq<Byte>

  const NEWLINE: Byte := 10

  // ---------- Encodings ----------

  predicate IsAscii(s: string) {
    forall i | 0 <= i < |s| :: s[i] < 128 as char
  }

  /** `s.encode("ascii")`, which raises for anything else. */
  function Ascii(s: string): (r: Option<Bytes>)
    ensures r.Some? <==> IsAscii(s)
    ensures r.Some? ==> |r.value| == |s| && forall i | 0 <= i < |s| :: r.value[i] as int == s[i] as int
  {
    if IsAscii(s) then Some(seq(|s|, i requires 0 <= i < |s| => (s[i] as int) as Byte)) else None
  }

  /** The character, if it is ASCII. */
  function AsciiOf(c: char): string {
    if c < 128 as char then [c] else ""
  }

  /** `s.encode("ascii", errors="ignore")`, as a string. */
  function AsciiOnly(s: string): (r: string)
    ensures IsAscii(r) && (IsAscii(s) ==> r == s)
  {
    if s == "" then "" else AsciiOf(s[0]) + AsciiOnly(s[1..])
  }

  function UpperChar(c: char): char {
    if 'a' <= c <= 'z' then (c as int - 32) as char else c
  }

  /** `upper` on ASCII letters. */
  function Upper(s: string): (r: string)
    ensures |r| == |s| && forall i | 0 <= i < |s| :: r[i] == UpperChar(s[i])
  {
    seq(|s|, i requires 0 <= i < |s| => UpperChar(s[i]))
  }

  /** The UTF-8 octets of one code point, section 3 of RFC 3629. */
  function Octets(c: char): Bytes {
    var n := c as int;
    var a := n / 64;
    var b := a / 64;
    if n < 0x80 then [n as Byte]
    else if n < 0x800 then [(0xC0 + a) as Byte, (0x80 + n % 64) as Byte]
    else if n < 0x10000 then [(0xE0 + b) as Byte, (0x80 + a % 64) as Byte, (0x80 + n % 64) as Byte]
    else [(0xF0 + b / 64) as Byte, (0x80 + b % 64) as Byte, (0x80 + a % 64) as Byte, (0x80 + n % 64) as Byte]
  }

  function Utf8(s: string): Bytes {
    if s == "" then [] else Octets(s[0]) + Utf8(s[1..])
  }

  /** The code point behind well-formed octets. */
  function CodePoint(p: Bytes): int {
    if |p| == 1 then p[0] as int
    else if |p| == 2 then (p[0] as int - 0xC0) * 64 + (p[1] as int - 0x80)
    else if |p| == 3 then ((p[0] as int - 0xE0) * 64 + (p[1] as int - 0x80)) * 64 + (p[2] as int - 0x80)
    else if |p| == 4 then
      (((p[0] as int - 0xF0) * 64 + (p[1] as int - 0x80)) * 64 + (p[2] as int - 0x80)) * 64 + (p[3] as int - 0x80)
    else 0
  }

  lemma CodePointOfOctets(c: char)
    ensures CodePoint(Octets(c)) == c as int
  {
  }

  /** Section 3 of RFC 3629: the shortest form, a lead octet that tells its length, and
      continuation octets from 0x80 to 0xBF. */
  lemma OctetsAreShortest(c: char)
    ensures |Octets(c)| == 1 <==> c as int < 0x80
    ensures |Octets(c)| == 2 <==> 0x80 <= c as int < 0x800
    ensures |Octets(c)| == 3 <==> 0x800 <= c as int < 0x10000
    ensures 1 <= |Octets(c)| <= 4
    ensures |Octets(c)| == 1 <==> Octets(c)[0] < 0x80
    ensures |Octets(c)| == 2 ==> 0xC2 <= Octets(c)[0] <= 0xDF
    ensures |Octets(c)| == 3 ==> 0xE0 <= Octets(c)[0] <= 0xEF
    ensures |Octets(c)| == 4 ==> 0xF0 <= Octets(c)[0] <= 0xF4
    ensures forall i | 1 <= i < |Octets(c)| :: 0x80 <= Octets(c)[i] <= 0xBF
  {
  }

  /** No code point's octets begin another's: two encodings with a common start agree. */
  lemma OctetsAreAPrefixCode(c: char, d: char, x: Bytes, y: Bytes)
    requires Octets(c) + x == Octets(d) + y
    ensures c == d && x == y
  {
    var p, q := Octets(c), Octets(d);
    assert forall i | 0 <= i < |p| :: (p + x)[i] == p[i];
    assert forall i | 0 <= i < |q| :: (q + y)[i] == q[i];
    assert p[0] == q[0];
    assert |p| == |q|;
    assert forall i | 0 <= i < |p| :: p[i] == q[i];
    assert p == q;
    CodePointOfOctets(c);
    CodePointOfOctets(d);
    assert x == (p + x)[|p|..] && y == (q + y)[|q|..];
  }

  lemma {:induction false} Utf8IsInjective(s: string, t: string)
    requires Utf8(s) == Utf8(t)
    ensures s == t
  {
    if s != "" && t != "" {
      OctetsAreAPrefixCode(s[0], t[0], Utf8(s[1..]), Utf8(t[1..]));
      Utf8IsInjective(s[1..], t[1..]);
      assert s == [s[0]] + s[1..] && t == [t[0]] + t[1..];
    }
  }

  lemma {:induction false} Utf8Newlines(s: string)
    ensures NEWLINE in Utf8(s) <==> '\n' in s
  {
    if s != "" {
      Utf8Newlines(s[1..]);
      assert s == [s[0]] + s[1..];
      assert NEWLINE in Octets(s[0]) <==> s[0] == '\n';
    }
  }

  // ---------- Framing ----------

  /** `b"\n".join(heads + [body])`. */
  function Join(heads: seq<Bytes>, body: Bytes): Bytes {
    if heads == [] then body else heads[0] + [NEWLINE] + Join(heads[1..], body)
  }

  function FirstNewline(m: Bytes): (k: nat)
    ensures k <= |m| && NEWLINE !in m[..k]
    ensures k < |m| ==> m[k] == NEWLINE
  {
    if m == [] || m[0] == NEWLINE then 0
    else
      assert m == [m[0]] + m[1..];
      var k := 1 + FirstNewline(m[1..]);
      assert m[..k] == [m[0]] + m[1..][..k - 1];
      k
  }

  lemma {:induction false} FirstNewlineAt(h: Bytes, rest: Bytes)
    requires NEWLINE !in h
    ensures FirstNewline(h + [NEWLINE] + rest) == |h|
  {
    if h != [] {
      FirstNewlineAt(h[1..], rest);
      assert (h + [NEWLINE] + rest)[1..] == h[1..] + [NEWLINE] + rest;
    }
  }

  /** Split at the first n newlines; what follows is the body, newlines and all. */
  function Split(m: Bytes, n: nat): (r: Option<(seq<Bytes>, Bytes)>)
    ensures r.Some? ==> forall i | 0 <= i < |r.value.0| :: NEWLINE !in r.value.0[i]
  {
    if n == 0 then Some(([], m))
    else
      var k := FirstNewline(m);
      if k == |m| then None
      else
        match Split(m[k + 1..], n - 1)
        case None => None
        case Some((heads, body)) => Some(([m[..k]] + heads, body))
  }

  /** A joined message splits back into its parts exactly when no part before the body holds
      a newline. */
  lemma {:induction false} SplitInvertsJoin(heads: seq<Bytes>, body: Bytes)
    ensures Split(Join(heads, body), |heads|) == Some((heads, body)) <==>
            forall i | 0 <= i < |heads| :: NEWLINE !in heads[i]
  {
    if heads != [] {
      var m, h, rest := Join(heads, body), heads[0], Join(heads[1..], body);
      SplitInvertsJoin(heads[1..], body);
      if NEWLINE !in h {
        FirstNewlineAt(h, rest);
        assert m[..|h|] == h && m[|h| + 1..] == rest;
        assert heads == [h] + heads[1..];
      }
    }
  }

  /** The parts of a request that the signature binds. */
  datatype Signed = Signed(httpMethod: string, path: string, timestamp: string, nonce: string, body: Bytes)
  {
    /** An assumption on requests: no line break in the method, the path or a header value. */
    predicate OneLine() {
      '\n' !in httpMethod && '\n' !in path && '\n' !in timestamp && '\n' !in nonce
    }
  }

  function Heads(r: Signed): Option<seq<Bytes>> {
    var verb, time, nonce := Ascii(Upper(r.httpMethod)), Ascii(r.timestamp), Ascii(r.nonce);
    if verb.Some? && time.Some? && nonce.Some? then Some([verb.value, Utf8(r.path), time.value, nonce.value]) else None
  }

  /** `_signature_message`; None when an encoding raises. */
  function SignatureMessage(r: Signed): Option<Bytes> {
    var heads := Heads(r);
    if heads.Some? then Some(Join(heads.value, r.body)) else None
  }

  /** What two requests share when their signatures bind the same thing. */
  predicate SameBinding(r: Signed, q: Signed) {
    && Upper(r.httpMethod) == Upper(q.httpMethod) && r.path == q.path
    && r.timestamp == q.timestamp && r.nonce == q.nonce && r.body == q.body
  }

  /** Small letters become the capital letters at the same place of the alphabet; the rest
      stays. */
  lemma UpperExactly(s: string, i: nat)
    requires i < |s|
    ensures 'a' <= s[i] <= 'z' ==> 'A' <= Upper(s)[i] <= 'Z' && Upper(s)[i] - 'A' == s[i] - 'a'
    ensures !('a' <= s[i] <= 'z') ==> Upper(s)[i] == s[i]
  {
  }

  /** The message is upper-cased method, path, timestamp, nonce and body, in this order, with one
      newline after each of the first four; there is none exactly when the method, the timestamp
      or the nonce is not ASCII. */
  lemma MessageLayout(r: Signed)
    ensures SignatureMessage(r).Some? <==> IsAscii(Upper(r.httpMethod)) && IsAscii(r.timestamp) && IsAscii(r.nonce)
    ensures SignatureMessage(r).Some? ==>
              SignatureMessage(r).value ==
              Ascii(Upper(r.httpMethod)).value + [NEWLINE] + Utf8(r.path) + [NEWLINE]
              + Ascii(r.timestamp).value + [NEWLINE] + Ascii(r.nonce).value + [NEWLINE] + r.body
  {
    if SignatureMessage(r).Some? {
      var a, b, c, d := Ascii(Upper(r.httpMethod)).value, Utf8(r.path), Ascii(r.timestamp).value, Ascii(r.nonce).value;
      assert [a, b, c, d][1..] == [b, c, d] && [b, c, d][1..] == [c, d] && [c, d][1..] == [d] && [d][1..] == [];
      assert Join([d], r.body) == d + [NEWLINE] + r.body;
      assert Join([c, d], r.body) == c + [NEWLINE] + Join([d], r.body);
      assert Join([b, c, d], r.body) == b + [NEWLINE] + Join([c, d], r.body);
    }
  }

  lemma AsciiIsInjective(s: string, t: string)
    requires Ascii(s).Some? && Ascii(s) == Ascii(t)
    ensures s == t
  {
    assert |s| == |t|;
    forall i | 0 <= i < |s| ensures s[i] == t[i] {
      assert Ascii(s).value[i] as int == s[i] as int && Ascii(t).value[i] as int == t[i] as int;
    }
  }

  lemma AsciiNewlines(s: string)
    requires Ascii(s).Some?
    ensures NEWLINE in Ascii(s).value <==> '\n' in s
  {
    var b := Ascii(s).value;
    if i :| 0 <= i < |s| && s[i] == '\n' {
      assert b[i] == NEWLINE;
    }
    if i :| 0 <= i < |b| && b[i] == NEWLINE {
      assert s[i] as int == 10;
    }
  }

  /** The message determines the upper-cased method, path, timestamp, nonce and body: they are
      what splitting it at the first four newlines recovers. */
  lemma MessageIsDecodable(r: Signed)
    requires SignatureMessage(r).Some? && r.OneLine()
    ensures Split(SignatureMessage(r).value, 4) == Some((Heads(r).value, r.body))
  {
    AsciiNewlines(Upper(r.httpMethod));
    AsciiNewlines(r.timestamp);
    AsciiNewlines(r.nonce);
    Utf8Newlines(r.path);
    assert '\n' !in Upper(r.httpMethod);
    SplitInvertsJoin(Heads(r).value, r.body);
  }

  lemma MessageIsUnambiguous(r: Signed, q: Signed)
    requires SignatureMessage(r).Some? && SignatureMessage(q).Some? && r.OneLine() && q.OneLine()
    ensures SignatureMessage(r) == SignatureMessage(q) <==> SameBinding(r, q)
  {
    if SignatureMessage(r) == SignatureMessage(q) {
      MessageIsDecodable(r);
      MessageIsDecodable(q);
      var a, b := Heads(r).value, Heads(q).value;
      assert a[0] == b[0] && a[1] == b[1] && a[2] == b[2] && a[3] == b[3];
      AsciiIsInjective(Upper(r.httpMethod), Upper(q.httpMethod));
      AsciiIsInjective(r.timestamp, q.timestamp);
      AsciiIsInjective(r.nonce, q.nonce);
      Utf8IsInjective(r.path, q.path);
    }
  }

  // ---------- Signatures ----------

  /** HMAC-SHA256 in hexadecimal, as a function of key and message (RFC 2104 section 2). */
  type Mac = (Bytes, Bytes) -> string

  /** The idealisation: for each key, different messages have different digests; a digest is
      a non-empty ASCII string. */
  ghost predicate Ideal(mac: Mac) {
    && (forall k, m, n :: mac(k, m) == mac(k, n) ==> m == n)
    && forall k, m :: mac(k, m) != "" && IsAscii(mac(k, m))
  }

  function BuildSignature(mac: Mac, secret: string, r: Signed): Option<string> {
    var m := SignatureMessage(r);
    if m.Some? then Some(mac(Utf8(secret), m.value)) else None
  }

  /** `verify_worker_signature`; None when encoding the request raises. */
  function VerifySignature(mac: Mac, secret: string, supplied: string, r: Signed): Option<bool> {
    if secret == "" || supplied == "" then Some(false)
    else
      var expected := BuildSignature(mac, secret, r);
      if expected.Some? then Some(AsciiOnly(supplied) == expected.value) else None
  }

  /** The signature of a request: the digest of its message under the UTF-8 key. */
  predicate IsSignatureOf(mac: Mac, secret: string, signature: string, r: Signed) {
    SignatureMessage(r).Some? && signature == mac(Utf8(secret), SignatureMessage(r).value)
  }

  /** Verification, case by case: an empty secret or signature never verifies; else encoding the
      request raises, or the ASCII characters supplied are those of its signature or not. */
  lemma VerifyCaseByCase(mac: Mac, secret: string, supplied: string, r: Signed)
    ensures VerifySignature(mac, secret, supplied, r) == Some(true) <==>
            secret != "" && supplied != "" && IsSignatureOf(mac, secret, AsciiOnly(supplied), r)
    ensures VerifySignature(mac, secret, supplied, r) == None <==>
            secret != "" && supplied != "" && SignatureMessage(r).None?
  {
  }

  lemma AsciiOnlyCons(c: char, rest: string)
    ensures AsciiOnly([c] + rest) == AsciiOf(c) + AsciiOnly(rest)
  {
    assert ([c] + rest)[1..] == rest;
  }

  /** What is dropped from a supplied signature: the characters outside ASCII, each by itself. */
  lemma {:induction false} AsciiOnlyPiecewise(s: string, t: string)
    ensures AsciiOnly(s + t) == AsciiOnly(s) + AsciiOnly(t)
  {
    if s == "" {
      assert s + t == t;
    } else {
      var c, rest := s[0], s[1..];
      assert s + t == [c] + (rest + t) && s == [c] + rest;
      AsciiOnlyPiecewise(rest, t);
      AsciiOnlyCons(c, rest + t);
      AsciiOnlyCons(c, rest);
      Associative(AsciiOf(c), AsciiOnly(rest), AsciiOnly(t));
    }
  }

  lemma {:induction false} AsciiOnlyDrops(s: string)
    requires forall i | 0 <= i < |s| :: s[i] >= 128 as char
    ensures AsciiOnly(s) == ""
  {
    if s != "" {
      AsciiOnlyDrops(s[1..]);
    }
  }

  /** A signature built for a request verifies for it; nothing else does, except that code
      points outside ASCII in the supplied header are ignored; and it verifies for another
      request exactly when that binds the same method, path, timestamp, nonce and body. */
  lemma VerifyAcceptsExactly(mac: Mac, secret: string, supplied: string, r: Signed, q: Signed)
    requires Ideal(mac) && secret != "" && r.OneLine() && q.OneLine()
    requires BuildSignature(mac, secret, r).Some? && BuildSignature(mac, secret, q).Some?
    ensures VerifySignature(mac, secret, BuildSignature(mac, secret, r).value, r) == Some(true)
    ensures AsciiOnly(supplied) == BuildSignature(mac, secret, r).value ==>
              (VerifySignature(mac, secret, supplied, q) == Some(true) <==> SameBinding(r, q))
    ensures VerifySignature(mac, secret, supplied, r) == Some(true) <==>
            AsciiOnly(supplied) == BuildSignature(mac, secret, r).value
  {
    MessageIsUnambiguous(r, q);
    assert AsciiOnly("") == "";
  }
}
