/** REGISTER handling: the order of its checks, and who gets to change a registration. */
module Registrar {
  import opened Wrappers
  import opened SipText
  import Framing
  import Nonces
  import Blocking

  const U32_MOD := 0x1_0000_0000
  const U64_MOD := 0x1_0000_0000_0000_0000
  const DEFAULT_EXPIRES := 3600

  datatype Transport = Tls | Udp

  /** The readable fields of an Authorization header. */
  datatype Credentials = Credentials(
    username: string, realm: string, nonce: string, uri: string, response: string,
    qop: Option<string>, nc: Option<string>, cnonce: Option<string>)

  datatype Authorization = Missing | Unreadable | Digest(credentials: Credentials)

  /** A REGISTER request as decoded, with where it came from and by which transport. */
  datatype Request = Request(
    extension: Option<string>, authorization: Authorization, contact: string, expires: Option<nat>,
    ip: string, port: nat, transport: Transport)

  datatype Registration = Registration(
    extension: string, contact: string, expiresAt: nat, ip: string, port: nat, transport: Transport)

  datatype Reply =
    | BadRequest
    | Forbidden
    | Challenged(nonce: string)
    | Registered(contact: string, expires: nat)
    | Unregistered
  {
    predicate Accepted() { Registered? || Unregistered? }
  }

  /** What the world supplies to one request: a new nonce, and the times its regions read. */
  datatype Supply = Supply(nonce: string, validated: nat, failed: nat, challenged: nat, registered: nat)

  datatype Config = Config(
    rangeStart: nat, rangeEnd: nat, insecureExtensions: seq<string>, defaultPassword: string,
    passwords: map<string, string>, policy: Blocking.Policy, md5Hex: string -> string)

  datatype State = State(
    registrations: map<string, Registration>, failed: Blocking.Table, blocked: set<string>, nonces: Nonces.Table)

  function PasswordOf(c: Config, extension: string): string {
    if extension in c.passwords then c.passwords[extension] else c.defaultPassword
  }

  // ----- digests -----

  predicate IsHexDigit(ch: char) { IsDigit(ch) || 'a' <= ch <= 'f' || 'A' <= ch <= 'F' }

  function HexDigit(ch: char): nat
    requires IsHexDigit(ch)
  {
    if IsDigit(ch) then ch as int - '0' as int else LowerChar(ch) as int - 'a' as int + 10
  }

  predicate AllHex(s: string) { forall i :: 0 <= i < |s| ==> IsHexDigit(s[i]) }

  function HexValue(s: string): nat
    requires AllHex(s)
  {
    if s == "" then 0 else 16 * HexValue(s[..|s| - 1]) + HexDigit(s[|s| - 1])
  }

  /** A 64-bit number in hexadecimal, with an optional plus sign. */
  function ParseHex(s: string): Option<nat> {
    var digits := if s != "" && s[0] == '+' then s[1..] else s;
    if digits == "" || !AllHex(digits) then None
    else if HexValue(digits) >= U64_MOD then None
    else Some(HexValue(digits))
  }

  function CountOf(cr: Credentials): Option<nat> { if cr.nc.None? then None else ParseHex(cr.nc.value) }

  function ValueOr(o: Option<string>, default: string): string { if o.Some? then o.value else default }

  /** The response that the holder of the password computes (section 3.2.2 of RFC 2617, and RFC 2069 without qop). */
  function ExpectedResponse(c: Config, cr: Credentials, password: string): string {
    var ha1 := c.md5Hex(cr.username + ":" + cr.realm + ":" + password);
    var ha2 := c.md5Hex("REGISTER:" + cr.uri);
    if cr.qop == Some("auth") then
      c.md5Hex(ha1 + ":" + cr.nonce + ":" + ValueOr(cr.nc, "00000001") + ":" + ValueOr(cr.cnonce, "") + ":auth:" + ha2)
    else c.md5Hex(ha1 + ":" + cr.nonce + ":" + ha2)
  }

  predicate DigestMatches(c: Config, cr: Credentials, password: string) {
    Lower(ExpectedResponse(c, cr, password)) == Lower(cr.response)
  }

  // ----- one request -----

  predicate IsBlocked(c: Config, s: State, ip: string) { c.policy.enabled && ip in s.blocked }

  /** The extension is a number in range, and its transport is allowed. */
  predicate Admissible(c: Config, extension: string, transport: Transport) {
    var number := Framing.ParseUnsigned(extension, U32_MOD);
    && number.Some? && c.rangeStart <= number.value <= c.rangeEnd
    && (transport == Udp ==> extension in c.insecureExtensions)
  }

  function AfterFailure(c: Config, s: State, ip: string, now: nat): State {
    if !c.policy.enabled then s
    else
      var (reached, failed') := Blocking.Count(c.policy, s.failed, ip, now);
      s.(failed := failed', blocked := if reached then Blocking.Block(c.policy, s.blocked, ip).1 else s.blocked)
  }

  function AfterChallenge(s: State, ip: string, x: Supply): State {
    s.(nonces := Nonces.AfterChallenge(s.nonces, x.nonce, ip, x.challenged))
  }

  function JudgeNonce(s: State, r: Request, cr: Credentials, x: Supply): (bool, Nonces.Table) {
    Nonces.Judge(s.nonces, cr.nonce, r.ip, CountOf(cr), cr.qop, x.validated)
  }

  /** The registration region of an authenticated request. */
  function Register(s: State, r: Request, extension: string, now: nat): (Reply, State) {
    var expires := if r.expires.Some? then r.expires.value else DEFAULT_EXPIRES;
    if expires == 0 then (Unregistered, s.(registrations := s.registrations - {extension}))
    else
      var registration := Registration(extension, r.contact, (now + expires) % U64_MOD, r.ip, r.port, r.transport);
      (Registered(r.contact, expires), s.(registrations := s.registrations[extension := registration]))
  }

  function AfterSuccess(s: State, ip: string): State { s.(failed := s.failed - {ip}) }

  function Authenticate(c: Config, s: State, r: Request, extension: string, x: Supply): (Reply, State) {
    match r.authorization
    case Missing => (Challenged(x.nonce), AfterChallenge(s, r.ip, x))
    case Unreadable => (Challenged(x.nonce), AfterChallenge(s, r.ip, x))
    case Digest(cr) =>
      if cr.username != extension then (Forbidden, AfterFailure(c, s, r.ip, x.failed))
      else
        var (valid, nonces') := JudgeNonce(s, r, cr, x);
        var judged := s.(nonces := nonces');
        if !valid then (Challenged(x.nonce), AfterChallenge(AfterFailure(c, judged, r.ip, x.failed), r.ip, x))
        else if !DigestMatches(c, cr, PasswordOf(c, extension)) then
          (Forbidden, AfterFailure(c, judged, r.ip, x.failed))
        else Register(AfterSuccess(judged, r.ip), r, extension, x.registered)
  }

  /** `handle_register`. */
  function Handle(c: Config, s: State, r: Request, x: Supply): (Reply, State) {
    if IsBlocked(c, s, r.ip) then (Forbidden, s)
    else if r.extension.None? then (BadRequest, AfterFailure(c, s, r.ip, x.failed))
    else if !Admissible(c, r.extension.value, r.transport) then (Forbidden, AfterFailure(c, s, r.ip, x.failed))
    else Authenticate(c, s, r, r.extension.value, x)
  }

  class RegistrarService {
    const config: Config
    const failures: Blocking.FailureTables
    const nonces: Nonces.NonceTable
    var registrations: map<string, Registration>

    constructor (config: Config)
      ensures this.config == config && failures.policy == config.policy && fresh(failures) && fresh(nonces)
      ensures Abstract() == State(map[], map[], {}, map[])
    {
      this.config := config;
      failures := new Blocking.FailureTables(config.policy);
      nonces := new Nonces.NonceTable();
      registrations := map[];
    }

    ghost function Abstract(): State
      reads this, failures, nonces
    {
      State(registrations, failures.failed, failures.blocked, nonces.nonces)
    }

    method HandleRegister(r: Request, x: Supply) returns (reply: Reply)
      requires failures.policy == config.policy && config.policy.Valid()
      modifies `registrations, failures, nonces
      ensures (reply, Abstract()) == Handle(config, old(Abstract()), r, x)
    {
      hide Blocking.Count, Nonces.Judge, Nonces.AfterChallenge, DigestMatches;
      if failures.IsBlocked(r.ip) {
        return Forbidden;
      }
      if r.extension.None? {
        var _ := failures.RecordFailure(r.ip, x.failed);
        return BadRequest;
      }
      var extension := r.extension.value;
      var number := Framing.ParseUnsigned(extension, U32_MOD);
      if number.None? || number.value < config.rangeStart || number.value > config.rangeEnd {
        var _ := failures.RecordFailure(r.ip, x.failed);
        return Forbidden;
      }
      if r.transport == Udp && extension !in config.insecureExtensions {
        var _ := failures.RecordFailure(r.ip, x.failed);
        return Forbidden;
      }
      assert Admissible(config, extension, r.transport);
      hide Admissible;
      if r.authorization.Digest? {
        reply := HandleCredentials(r, r.authorization.credentials, extension, x);
      } else {
        nonces.Challenge(x.nonce, r.ip, x.challenged);
        reply := Challenged(x.nonce);
      }
    }

    /** The checks of the credentials, and the registration itself. */
    method HandleCredentials(r: Request, cr: Credentials, extension: string, x: Supply) returns (reply: Reply)
      requires failures.policy == config.policy && config.policy.Valid() && r.authorization == Digest(cr)
      modifies `registrations, failures, nonces
      ensures (reply, Abstract()) == Authenticate(config, old(Abstract()), r, extension, x)
    {
      hide Blocking.Count, Nonces.Judge, Nonces.AfterChallenge, DigestMatches;
      if cr.username != extension {
        var _ := failures.RecordFailure(r.ip, x.failed);
        return Forbidden;
      }
      var valid := nonces.ValidateNonce(cr.nonce, r.ip, CountOf(cr), cr.qop, x.validated);
      if !valid {
        var _ := failures.RecordFailure(r.ip, x.failed);
        nonces.Challenge(x.nonce, r.ip, x.challenged);
        return Challenged(x.nonce);
      }
      if !DigestMatches(config, cr, PasswordOf(config, extension)) {
        var _ := failures.RecordFailure(r.ip, x.failed);
        return Forbidden;
      }
      failures.ClearFailures(r.ip);
      var expires := if r.expires.Some? then r.expires.value else DEFAULT_EXPIRES;
      if expires == 0 {
        registrations := registrations - {extension};
        return Unregistered;
      }
      registrations := registrations[extension :=
        Registration(extension, r.contact, (x.registered + expires) % U64_MOD, r.ip, r.port, r.transport)];
      return Registered(r.contact, expires);
    }
  }

  // ----- who may change a registration -----

  /** Everything that a request has to show. */
  predicate Authorized(c: Config, s: State, r: Request, x: Supply) {
    && !IsBlocked(c, s, r.ip) && r.extension.Some? && Admissible(c, r.extension.value, r.transport)
    && r.authorization.Digest? && r.authorization.credentials.username == r.extension.value
    && JudgeNonce(s, r, r.authorization.credentials, x).0
    && DigestMatches(c, r.authorization.credentials, PasswordOf(c, r.extension.value))
  }

  /** Exactly the authorized requests are accepted; they change the registration of their own extension, as asked, and
      no other, and all other requests change none. */
  lemma AcceptedExactlyWhenAuthorized(c: Config, s: State, r: Request, x: Supply)
    ensures var (reply, s') := Handle(c, s, r, x);
      && (reply.Accepted() <==> Authorized(c, s, r, x))
      && (!reply.Accepted() ==> s'.registrations == s.registrations)
      && (reply.Accepted() ==>
            var extension, expires := r.extension.value, if r.expires.Some? then r.expires.value else 3600;
            && reply == (if expires == 0 then Unregistered else Registered(r.contact, expires))
            && s'.registrations ==
                 if expires == 0 then s.registrations - {extension}
                 else s.registrations[extension := Registration(extension, r.contact,
                        (x.registered + expires) % 0x1_0000_0000_0000_0000, r.ip, r.port, r.transport)])
  {
    hide Admissible, DigestMatches, Blocking.Count, Nonces.Judge, Nonces.AfterChallenge;
  }

  // ----- the checks written out -----

  /** Fields with a colon between any two. */
  function Colons(parts: seq<string>): string {
    if parts == [] then "" else if |parts| == 1 then parts[0] else parts[0] + ":" + Colons(parts[1..])
  }

  /** The digest that answers a challenge with a password: section 3.2.2.1 of RFC 2617 under qop=auth, with the first
      count and an empty client nonce where they are left out, and RFC 2069 without qop. */
  function DigestOf(md5: string -> string, cr: Credentials, password: string): string {
    var secret, request := md5(Colons([cr.username, cr.realm, password])), md5(Colons(["REGISTER", cr.uri]));
    if cr.qop == Some("auth") then
      md5(Colons([secret, cr.nonce, match cr.nc case Some(nc) => nc case None => "00000001",
                  match cr.cnonce case Some(cnonce) => cnonce case None => "", "auth", request]))
    else md5(Colons([secret, cr.nonce, request]))
  }

  lemma ColonsOf(a: string, b: string, c: string)
    ensures Colons([a, b]) == a + ":" + b && Colons([a, b, c]) == a + ":" + b + ":" + c
  {
    ColonsOfPair(a, b);
    ColonsOfPair(b, c);
    assert [a, b, c][1..] == [b, c];
    Assoc3(a, b, c);
  }

  lemma ColonsOfPair(a: string, b: string)
    ensures Colons([a, b]) == a + ":" + b
  {
    assert [a, b][1..] == [b] && Colons([b]) == b;
  }

  lemma Assoc3(a: string, b: string, c: string)
    ensures a + ":" + (b + ":" + c) == a + ":" + b + ":" + c
  {
  }

  lemma ColonsOfSix(a: string, b: string, c: string, d: string, e: string)
    ensures Colons([a, b, c, d, "auth", e]) == a + ":" + b + ":" + c + ":" + d + ":auth:" + e
  {
    ColonsOfPair("auth", e);
    ColonsCons(d, ["auth", e]);
    ColonsCons(c, [d, "auth", e]);
    ColonsCons(b, [c, d, "auth", e]);
    ColonsCons(a, [b, c, d, "auth", e]);
    hide Colons;
    assert "auth" + ":" + e == "auth:" + e;
    assert a + ":" + (b + ":" + (c + ":" + (d + ":" + ("auth:" + e))))
        == a + ":" + b + ":" + c + ":" + d + ":auth:" + e;
  }

  lemma ColonsCons(a: string, rest: seq<string>)
    requires rest != []
    ensures Colons([a] + rest) == a + ":" + Colons(rest)
  {
    assert ([a] + rest)[1..] == rest;
  }

  lemma ExpectedIsDigest(c: Config, cr: Credentials, password: string)
    ensures ExpectedResponse(c, cr, password) == DigestOf(c.md5Hex, cr, password)
  {
    hide Colons;
    ColonsOf(cr.username, cr.realm, password);
    ColonsOf("REGISTER", cr.uri, "");
    assert "REGISTER" + ":" + cr.uri == "REGISTER:" + cr.uri;
    var secret, request := c.md5Hex(Colons([cr.username, cr.realm, password])), c.md5Hex(Colons(["REGISTER", cr.uri]));
    ColonsOf(secret, cr.nonce, request);
    ColonsOfSix(secret, cr.nonce, ValueOr(cr.nc, "00000001"), ValueOr(cr.cnonce, ""), request);
  }

  /** The hexadecimal form of a number, in small letters. */
  function Hex(n: nat): string {
    if n < 16 then ["0123456789abcdef"[n]] else Hex(n / 16) + ["0123456789abcdef"[n % 16]]
  }

  lemma DigitOfHex(d: nat)
    requires d < 16
    ensures var ch := "0123456789abcdef"[d]; IsHexDigit(ch) && HexDigit(ch) == d && ch != '+'
  {
  }

  lemma {:induction false} HexFacts(n: nat)
    ensures Hex(n) != "" && '+' != Hex(n)[0] && AllHex(Hex(n))
    ensures HexValue(Hex(n)) == n
  {
    hide IsHexDigit, HexDigit;
    DigitOfHex(n % 16);
    var s := Hex(n);
    if n >= 16 {
      HexFacts(n / 16);
      assert s[..|s| - 1] == Hex(n / 16);
    } else {
      assert s[..|s| - 1] == "";
    }
  }

  /** A nonce count is read as the hexadecimal number it is, if that has at most 64 bits, letter case and a plus sign
      aside. */
  lemma CountReadsBack(n: nat)
    ensures ParseHex(Hex(n)) == ParseHex("+" + Hex(n)) == if n < 0x1_0000_0000_0000_0000 then Some(n) else None
  {
    HexFacts(n);
    assert ("+" + Hex(n))[1..] == Hex(n);
    hide Hex, HexValue, IsHexDigit;
  }

  function Unsigned(s: string): string { if s != "" && s[0] == '+' then s[1..] else s }

  lemma HexOf(s: string)
    ensures ParseHex(s) ==
      if Unsigned(s) == "" || !AllHex(Unsigned(s)) || HexValue(Unsigned(s)) >= U64_MOD then None
      else Some(HexValue(Unsigned(s)))
  {
    hide AllHex, HexValue;
  }

  lemma UnsignedLower(s: string)
    ensures Unsigned(Lower(s)) == Lower(Unsigned(s))
  {
    if s != "" {
      assert Lower(s)[0] == '+' <==> s[0] == '+';
      assert Lower(s)[1..] == Lower(s[1..]);
    }
  }

  lemma CaseMattersNot(s: string)
    ensures ParseHex(Lower(s)) == ParseHex(s)
  {
    HexOf(s);
    HexOf(Lower(s));
    UnsignedLower(s);
    LowerDigits(Unsigned(s));
    hide AllHex, HexValue, ParseHex, Unsigned;
  }

  lemma {:induction false} LowerDigits(s: string)
    ensures AllHex(Lower(s)) <==> AllHex(s)
    ensures AllHex(s) ==> HexValue(Lower(s)) == HexValue(s)
  {
    assert forall i :: 0 <= i < |s| ==> Lower(s)[i] == LowerChar(s[i]);
    assert forall i :: 0 <= i < |s| ==> (IsHexDigit(s[i]) <==> IsHexDigit(LowerChar(s[i])));
    if s != "" && AllHex(s) {
      LowerDigits(s[..|s| - 1]);
      assert Lower(s)[..|s| - 1] == Lower(s[..|s| - 1]);
    }
  }

  predicate OnlyDigits(s: string) { s != "" && forall i :: 0 <= i < |s| ==> '0' <= s[i] <= '9' }

  /** An extension that may register at all: a 32-bit number in the configured range, over TLS or listed for UDP. */
  predicate MayRegister(c: Config, extension: string, transport: Transport) {
    var digits := if "+" <= extension then extension[1..] else extension;
    && OnlyDigits(digits) && DigitsValue(digits) <= 0xFFFF_FFFF && c.rangeStart <= DigitsValue(digits) <= c.rangeEnd
    && (transport == Tls || extension in c.insecureExtensions)
  }

  /** The count that a field gives; a missing or unreadable one counts as 0. */
  function WrittenCount(nc: Option<string>): nat {
    match nc
    case None => 0
    case Some(digits) => match ParseHex(digits) case Some(n) => n case None => 0
  }

  /** A nonce stands if it was issued to the address less than 300 seconds ago, and under qop=auth its count is new. */
  lemma NonceStands(s: State, r: Request, cr: Credentials, x: Supply)
    ensures JudgeNonce(s, r, cr, x).0 <==>
      && cr.nonce in s.nonces && s.nonces[cr.nonce].ip == r.ip
      && x.validated < s.nonces[cr.nonce].issuedAt + 300
      && (cr.qop == Some("auth") ==> WrittenCount(cr.nc) > s.nonces[cr.nonce].maxNc)
  {
    hide ParseHex;
  }

  /** A REGISTER is accepted if and only if its address is not blocked, its extension may register, its credentials are
      for that extension, its nonce stands, and its response is, without regard to case, the digest over the extension's
      own password, or the default one if it has none. */
  lemma AcceptedByDigestExactly(c: Config, s: State, r: Request, x: Supply)
    ensures Handle(c, s, r, x).0.Accepted() <==>
      && !(c.policy.enabled && r.ip in s.blocked)
      && r.extension.Some? && MayRegister(c, r.extension.value, r.transport)
      && r.authorization.Digest?
      && var cr, extension := r.authorization.credentials, r.extension.value;
      && cr.username == extension
      && cr.nonce in s.nonces && s.nonces[cr.nonce].ip == r.ip
      && x.validated < s.nonces[cr.nonce].issuedAt + 300
      && (cr.qop == Some("auth") ==> WrittenCount(cr.nc) > s.nonces[cr.nonce].maxNc)
      && Lower(cr.response) == Lower(DigestOf(c.md5Hex, cr,
           if extension in c.passwords then c.passwords[extension] else c.defaultPassword))
  {
    if r.authorization.Digest? && r.extension.Some? {
      ExpectedIsDigest(c, r.authorization.credentials, PasswordOf(c, r.extension.value));
      NonceStands(s, r, r.authorization.credentials, x);
    }
    if r.extension.Some? { AdmissibleMayRegister(c, r.extension.value, r.transport); }
    AcceptedExactlyWhenAuthorized(c, s, r, x);
    hide Handle, MayRegister, Admissible, ExpectedResponse, DigestOf, JudgeNonce, Framing.ParseUnsigned, DigitsValue,
        Lower, CountOf, WrittenCount;
  }

  lemma AdmissibleMayRegister(c: Config, extension: string, transport: Transport)
    ensures Admissible(c, extension, transport) <==> MayRegister(c, extension, transport)
  {
    NumberIsRead(extension);
    hide Framing.ParseUnsigned, DigitsValue, OnlyDigits;
  }

  lemma NumberIsRead(s: string)
    ensures var digits := if "+" <= s then s[1..] else s;
      Framing.ParseUnsigned(s, U32_MOD)
      == if OnlyDigits(digits) && DigitsValue(digits) <= 0xFFFF_FFFF then Some(DigitsValue(digits)) else None
  {
    hide DigitsValue;
    assert "+" <= s <==> s != "" && s[0] == '+';
  }

  /** Different digests, however they are written. */
  ghost predicate CollisionFree(md5: string -> string) { forall a, b :: Lower(md5(a)) == Lower(md5(b)) ==> a == b }

  /** So with a digest function without collisions, a response computed from any other password is refused. */
  lemma WrongPasswordIsRefused(c: Config, s: State, r: Request, x: Supply, other: string)
    requires CollisionFree(c.md5Hex) && r.authorization.Digest? && r.extension.Some?
    requires other != PasswordOf(c, r.extension.value)
    requires r.authorization.credentials.response == DigestOf(c.md5Hex, r.authorization.credentials, other)
    ensures !Handle(c, s, r, x).0.Accepted()
  {
    var cr, password := r.authorization.credentials, PasswordOf(c, r.extension.value);
    AcceptedByDigestExactly(c, s, r, x);
    PasswordsDiffer(c.md5Hex, cr, password, other);
    hide Handle, DigestOf, Lower, Nonces.Judge, MayRegister, WrittenCount;
  }

  lemma PasswordsDiffer(md5: string -> string, cr: Credentials, a: string, b: string)
    requires CollisionFree(md5) && a != b
    ensures Lower(DigestOf(md5, cr, a)) != Lower(DigestOf(md5, cr, b))
  {
    hide Lower, Colons;
    ColonsOf(cr.username, cr.realm, a);
    ColonsOf(cr.username, cr.realm, b);
    var n := |cr.username + ":" + cr.realm + ":"|;
    assert Colons([cr.username, cr.realm, a])[n..] == a && Colons([cr.username, cr.realm, b])[n..] == b;
    var x, y := md5(Colons([cr.username, cr.realm, a])), md5(Colons([cr.username, cr.realm, b]));
    assert x != y;
    var request := md5(Colons(["REGISTER", cr.uri]));
    var nc, cnonce := match cr.nc case Some(nc) => nc case None => "00000001",
        match cr.cnonce case Some(cnonce) => cnonce case None => "";
    ColonsOf(x, cr.nonce, request);
    ColonsOf(y, cr.nonce, request);
    ColonsOfSix(x, cr.nonce, nc, cnonce, request);
    ColonsOfSix(y, cr.nonce, nc, cnonce, request);
    SameTail(x, y, ":" + cr.nonce + ":" + request);
    SameTail(x, y, ":" + cr.nonce + ":" + nc + ":" + cnonce + ":auth:" + request);
    OneTail(x, cr.nonce, request);
    OneTail(y, cr.nonce, request);
    LongTail(x, cr.nonce, nc, cnonce, request);
    LongTail(y, cr.nonce, nc, cnonce, request);
  }

  lemma OneTail(z: string, nonce: string, request: string)
    ensures z + ":" + nonce + ":" + request == z + (":" + nonce + ":" + request)
  {
  }

  lemma LongTail(z: string, nonce: string, nc: string, cnonce: string, request: string)
    ensures z + ":" + nonce + ":" + nc + ":" + cnonce + ":auth:" + request
         == z + (":" + nonce + ":" + nc + ":" + cnonce + ":auth:" + request)
  {
  }

  lemma SameTail(x: string, y: string, tail: string)
    ensures x != y ==> x + tail != y + tail
  {
    if x + tail == y + tail {
      assert |x| == |y| && x == (x + tail)[..|x|] == (y + tail)[..|y|] == y;
    }
  }

  /** What one request does to the failure count of its address: a refusal counts once unless the address was blocked
      before, success clears, asking for a challenge costs nothing, and nothing counts when blocking is disabled. */
  lemma FailuresCountedOnce(c: Config, s: State, r: Request, x: Supply)
    ensures var (reply, s') := Handle(c, s, r, x); var failure := AfterFailure(c, s, r.ip, x.failed);
      if reply.Accepted() then s'.failed == s.failed - {r.ip} && s'.blocked == s.blocked
      else if IsBlocked(c, s, r.ip) || (reply.Challenged? && !r.authorization.Digest?) then
        s'.failed == s.failed && s'.blocked == s.blocked
      else s'.failed == failure.failed && s'.blocked == failure.blocked
    ensures !c.policy.enabled ==> AfterFailure(c, s, r.ip, x.failed) == s
  {
    hide Admissible, DigestMatches, Blocking.Count, Blocking.Block, Nonces.Judge, Nonces.AfterChallenge;
  }

  /** The nonce of the request is looked at: everything before that check was in order. */
  predicate ReachesNonce(c: Config, s: State, r: Request) {
    && !IsBlocked(c, s, r.ip) && r.extension.Some? && Admissible(c, r.extension.value, r.transport)
    && r.authorization.Digest? && r.authorization.credentials.username == r.extension.value
  }

  /** Which refusal a request gets: a challenge exactly when all is in order up to missing or unreadable
      credentials or a stale nonce, and then the new nonce is issued to this address and can be answered at once;
      400 exactly without an extension. */
  lemma RefusedExactly(c: Config, s: State, r: Request, x: Supply, nc: Option<nat>, now: nat)
    ensures var (reply, s') := Handle(c, s, r, x);
      && (reply == BadRequest <==> !IsBlocked(c, s, r.ip) && r.extension.None?)
      && (reply.Challenged? <==>
            && !IsBlocked(c, s, r.ip) && r.extension.Some? && Admissible(c, r.extension.value, r.transport)
            && (!r.authorization.Digest? ||
                (ReachesNonce(c, s, r) && !JudgeNonce(s, r, r.authorization.credentials, x).0)))
      && (reply.Challenged? && Nonces.Recent(x.challenged, now) && Nonces.NcOf(nc) > 0 ==>
            Nonces.Judge(s'.nonces, reply.nonce, r.ip, nc, Some("auth"), now).0)
  {
    hide Admissible, DigestMatches, Blocking.Count, Blocking.Block, Nonces.WithRoom, PasswordOf;
    ChallengeCanBeAnswered(s.nonces, r.ip, x, nc, now);
    if r.authorization.Digest? {
      ChallengeCanBeAnswered(JudgeNonce(s, r, r.authorization.credentials, x).1, r.ip, x, nc, now);
    }
    hide Nonces.Judge, Nonces.AfterChallenge;
  }

  lemma ChallengeCanBeAnswered(table: Nonces.Table, ip: string, x: Supply, nc: Option<nat>, now: nat)
    ensures Nonces.Recent(x.challenged, now) && Nonces.NcOf(nc) > 0 ==>
      Nonces.Judge(Nonces.AfterChallenge(table, x.nonce, ip, x.challenged), x.nonce, ip, nc, Some("auth"), now).0
  {
    hide Nonces.WithRoom;
  }

  /** A count is used up by the first request that carries it, even if its password is wrong: afterwards no request
      with that nonce and no higher count is authorized. */
  lemma CountIsUsedUp(c: Config, s: State, r: Request, x: Supply, r': Request, x': Supply)
    requires ReachesNonce(c, s, r) && JudgeNonce(s, r, r.authorization.credentials, x).0
    requires r'.authorization.Digest?
    requires r.authorization.credentials.qop == r'.authorization.credentials.qop == Some("auth")
    requires r.authorization.credentials.nonce == r'.authorization.credentials.nonce
    requires Nonces.NcOf(CountOf(r'.authorization.credentials)) <= Nonces.NcOf(CountOf(r.authorization.credentials))
    ensures !Authorized(c, Handle(c, s, r, x).1, r', x')
  {
    hide Admissible, DigestMatches, Blocking.Count, CountOf, IsBlocked;
  }
}
