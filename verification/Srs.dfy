/** Unwrapping SRS0 envelope senders: parsing, the truncated MAC, and the wrapping day count. */
module Srs {
  import opened Wrappers
  import opened Text
  import opened Bytes
  import Base64

  /** HMAC-SHA1 (RFC 2104) of a key and a message is an unknown function to 20 bytes. */
  type Digest = d: seq<Byte> | |d| == 20 witness seq(20, _ => 0)
  type Mac = (seq<Byte>, seq<Byte>) -> Digest

  type U32 = n: nat | n < 0x1_0000_0000

  const HASH_LEN_CHARS := 4
  const DAYS_PER_CYCLE := 1024
  const PREFIX: string := "SRS0="

  datatype SrsConfig = SrsConfig(enabled: bool, secrets: seq<string>, maxAgeDays: U32)

  datatype SrsUnwrap = NotSrs | Valid(originalSender: string) | InvalidHash | Expired

  datatype Srs0 = Srs0(hash: string, timestamp: string, domain: string, local: string)

  // ---------- parsing ----------

  /** `splitn`: at most `n` pieces, the last one with everything left. */
  function SplitN(s: string, c: char, n: nat): seq<string>
    decreases n
  {
    if n == 0 then []
    else if n == 1 then [s]
    else match SplitOnce(s, c)
      case None => [s]
      case Some(cut) => [cut.0] + SplitN(cut.1, c, n - 1)
  }

  function ParseSrs0(rawSender: string): Option<Srs0> {
    if !(PREFIX <= rawSender) then None
    else match SplitOnce(rawSender[|PREFIX|..], '@')
      case None => None
      case Some(cut) =>
        var parts := SplitN(cut.0, '=', 4);
        if |parts| < 4 then None else Some(Srs0(parts[0], parts[1], parts[2], parts[3]))
  }

  /** The text that is authenticated. */
  function AuthText(timestamp: string, domain: string, local: string): string {
    timestamp + ['='] + (domain + ['='] + local)
  }

  function Payload(a: Srs0): string {
    a.hash + ['='] + AuthText(a.timestamp, a.domain, a.local)
  }

  /** The four fields as they may stand in an address. */
  ghost predicate Fields(a: Srs0) {
    && '=' !in a.hash && '=' !in a.timestamp && '=' !in a.domain
    && '@' !in a.hash && '@' !in a.timestamp && '@' !in a.domain && '@' !in a.local
  }

  ghost predicate IsSrs0(rawSender: string, a: Srs0, rewriteDomain: string) {
    Fields(a) && rawSender == "SRS0=" + (Payload(a) + ['@'] + rewriteDomain)
  }

  lemma FourParts(payload: string, a: Srs0)
    requires '=' !in a.hash && '=' !in a.timestamp && '=' !in a.domain
    ensures payload == Payload(a) <==> SplitN(payload, '=', 4) == [a.hash, a.timestamp, a.domain, a.local]
  {
    if payload == Payload(a) {
      var c1 := SplitOnce(payload, '=').value;
      FirstCutUnique(c1.0, c1.1, a.hash, AuthText(a.timestamp, a.domain, a.local), '=');
      var c2 := SplitOnce(c1.1, '=').value;
      FirstCutUnique(c2.0, c2.1, a.timestamp, DomainAndLocal(a), '=');
      var c3 := SplitOnce(c2.1, '=').value;
      FirstCutUnique(c3.0, c3.1, a.domain, a.local, '=');
    }
    if SplitN(payload, '=', 4) == [a.hash, a.timestamp, a.domain, a.local] {
      FourPartsJoin(payload, a);
    }
  }

  function DomainAndLocal(a: Srs0): string {
    a.domain + ['='] + a.local
  }

  lemma FourPartsJoin(payload: string, a: Srs0)
    requires SplitN(payload, '=', 4) == [a.hash, a.timestamp, a.domain, a.local]
    ensures payload == Payload(a) && '=' !in a.hash && '=' !in a.timestamp && '=' !in a.domain
  {
    var parts := SplitN(payload, '=', 4);
    assert SplitOnce(payload, '=').Some?;
    var c1 := SplitOnce(payload, '=').value;
    assert parts[1..] == SplitN(c1.1, '=', 3);
    assert SplitOnce(c1.1, '=').Some?;
    var c2 := SplitOnce(c1.1, '=').value;
    assert parts[1..][1..] == SplitN(c2.1, '=', 2);
    assert SplitOnce(c2.1, '=').Some?;
    var c3 := SplitOnce(c2.1, '=').value;
    assert parts[0] == c1.0 && parts[1] == c2.0 && parts[2] == c3.0 && parts[3] == c3.1;
  }

  /** Parsing finds the fields exactly when the address has them, and there is only one way to have them. */
  lemma ParsesExactly(rawSender: string, a: Srs0)
    ensures ParseSrs0(rawSender) == Some(a) <==> exists rewriteDomain :: IsSrs0(rawSender, a, rewriteDomain)
  {
    if ParseSrs0(rawSender) == Some(a) {
      ParsedIsSrs0(rawSender, a);
    }
    forall rewriteDomain | IsSrs0(rawSender, a, rewriteDomain) ensures ParseSrs0(rawSender) == Some(a) {
      Srs0Parsed(rawSender, a, rewriteDomain);
    }
  }

  lemma ParsedIsSrs0(rawSender: string, a: Srs0)
    requires ParseSrs0(rawSender) == Some(a)
    ensures exists rewriteDomain :: IsSrs0(rawSender, a, rewriteDomain)
  {
    var rest := rawSender[|PREFIX|..];
    var cut := SplitOnce(rest, '@').value;
    FieldsOf(cut.0, a);
    AfterPrefix(rawSender, PREFIX);
    assert IsSrs0(rawSender, a, cut.1);
  }

  lemma FieldsOf(payload: string, a: Srs0)
    requires '@' !in payload && |SplitN(payload, '=', 4)| >= 4
    requires var p := SplitN(payload, '=', 4); a == Srs0(p[0], p[1], p[2], p[3])
    ensures Fields(a) && payload == Payload(a)
  {
    AtMostFour(payload, 4);
    assert SplitN(payload, '=', 4) == [a.hash, a.timestamp, a.domain, a.local];
    FourPartsJoin(payload, a);
    PayloadChars(a);
  }

  lemma AfterPrefix(s: string, prefix: string)
    requires prefix <= s
    ensures s == prefix + s[|prefix|..]
  {
  }

  lemma Srs0Parsed(rawSender: string, a: Srs0, rewriteDomain: string)
    requires IsSrs0(rawSender, a, rewriteDomain)
    ensures ParseSrs0(rawSender) == Some(a)
  {
    var rest := Payload(a) + ['@'] + rewriteDomain;
    assert rawSender[|PREFIX|..] == rest;
    PayloadChars(a);
    var cut := SplitOnce(rest, '@').value;
    FirstCutUnique(cut.0, cut.1, Payload(a), rewriteDomain, '@');
    FourParts(Payload(a), a);
  }

  lemma {:induction false} AtMostFour(s: string, n: nat)
    ensures |SplitN(s, '=', n)| <= n
    decreases n
  {
    if n > 1 && SplitOnce(s, '=').Some? {
      AtMostFour(SplitOnce(s, '=').value.1, n - 1);
    }
  }

  lemma PayloadChars(a: Srs0)
    ensures '@' !in Payload(a) <==> '@' !in a.hash && '@' !in a.timestamp && '@' !in a.domain && '@' !in a.local
  {
    assert forall c :: c in Payload(a) <==>
      c in a.hash || c == '=' || c in a.timestamp || c in a.domain || c in a.local;
  }

  // ---------- the truncated MAC ----------

  function ComputeHash(secret: string, timestamp: string, domain: string, local: string, mac: Mac): (h: string)
    ensures |h| == HASH_LEN_CHARS && '=' !in h && '@' !in h
  {
    var digest := mac(Utf8(secret), Utf8(AuthText(timestamp, domain, local)));
    Base64.FirstFour(digest, digest);
    Base64.Encode(digest)[..HASH_LEN_CHARS]
  }

  /** Two hashes are equal exactly when the first 24 bits of the two MACs are. */
  lemma HashIs24Bits(secret: string, a: Srs0, secret': string, a': Srs0, mac: Mac)
    ensures ComputeHash(secret, a.timestamp, a.domain, a.local, mac)
        == ComputeHash(secret', a'.timestamp, a'.domain, a'.local, mac)
       <==> mac(Utf8(secret), Utf8(AuthText(a.timestamp, a.domain, a.local)))[..3]
            == mac(Utf8(secret'), Utf8(AuthText(a'.timestamp, a'.domain, a'.local)))[..3]
  {
    Base64.FirstFour(mac(Utf8(secret), Utf8(AuthText(a.timestamp, a.domain, a.local))),
                     mac(Utf8(secret'), Utf8(AuthText(a'.timestamp, a'.domain, a'.local))));
  }

  predicate Verified(a: Srs0, cfg: SrsConfig, mac: Mac) {
    exists secret <- cfg.secrets :: ComputeHash(secret, a.timestamp, a.domain, a.local, mac) == a.hash
  }

  /** Some configured secret gives a MAC of timestamp, domain and local part that the hash is the beginning of. */
  ghost predicate Authentic(a: Srs0, cfg: SrsConfig, mac: Mac) {
    |a.hash| == 4
    && exists i :: 0 <= i < |cfg.secrets|
         && a.hash <= Base64.Encode(mac(Utf8(cfg.secrets[i]), Utf8(a.timestamp + "=" + a.domain + "=" + a.local)))
  }

  lemma VerifiedExactly(a: Srs0, cfg: SrsConfig, mac: Mac)
    ensures Verified(a, cfg, mac) <==> Authentic(a, cfg, mac)
  {
    forall secret: string ensures ComputeHash(secret, a.timestamp, a.domain, a.local, mac) == a.hash
      <==> |a.hash| == 4
           && a.hash <= Base64.Encode(mac(Utf8(secret), Utf8(a.timestamp + "=" + a.domain + "=" + a.local)))
    {
      HashIsPrefix(secret, a, mac);
    }
    if Verified(a, cfg, mac) {
      var secret :| secret in cfg.secrets && ComputeHash(secret, a.timestamp, a.domain, a.local, mac) == a.hash;
      var i :| 0 <= i < |cfg.secrets| && cfg.secrets[i] == secret;
    }
  }

  lemma HashIsPrefix(secret: string, a: Srs0, mac: Mac)
    ensures ComputeHash(secret, a.timestamp, a.domain, a.local, mac) == a.hash
       <==> |a.hash| == 4
            && a.hash <= Base64.Encode(mac(Utf8(secret), Utf8(a.timestamp + "=" + a.domain + "=" + a.local)))
  {
    assert AuthText(a.timestamp, a.domain, a.local) == a.timestamp + "=" + a.domain + "=" + a.local;
    var digest := mac(Utf8(secret), Utf8(AuthText(a.timestamp, a.domain, a.local)));
    Base64.FirstFour(digest, digest);
  }

  /** The authenticated text is what follows the payload's first `=`, and its bytes fix the fields it covers. */
  lemma MacInputUnambiguous(a: Srs0, a': Srs0)
    requires Fields(a) && Fields(a')
    ensures SplitOnce(Payload(a), '=') == Some((a.hash, AuthText(a.timestamp, a.domain, a.local)))
    ensures Utf8(AuthText(a.timestamp, a.domain, a.local)) == Utf8(AuthText(a'.timestamp, a'.domain, a'.local))
       <==> a'.(hash := a.hash) == a
  {
    var cut := SplitOnce(Payload(a), '=').value;
    FirstCutUnique(cut.0, cut.1, a.hash, AuthText(a.timestamp, a.domain, a.local), '=');
    if Utf8(AuthText(a.timestamp, a.domain, a.local)) == Utf8(AuthText(a'.timestamp, a'.domain, a'.local)) {
      Utf8Injective(AuthText(a.timestamp, a.domain, a.local), AuthText(a'.timestamp, a'.domain, a'.local));
      FirstCutUnique(a.timestamp, DomainAndLocal(a), a'.timestamp, DomainAndLocal(a'), '=');
      FirstCutUnique(a.domain, a.local, a'.domain, a'.local, '=');
    }
  }

  function Original(a: Srs0): string {
    a.local + ['@'] + a.domain
  }

  /** The unwrapped address splits, at its first as at its last `@`, into the local part and domain it came from. */
  lemma OriginalSplits(a: Srs0)
    requires Fields(a)
    ensures RSplitOnce(Original(a), '@') == SplitOnce(Original(a), '@') == Some((a.local, a.domain))
  {
    var first, last := SplitOnce(Original(a), '@').value, RSplitOnce(Original(a), '@').value;
    FirstCutUnique(first.0, first.1, a.local, a.domain, '@');
    LastCutUnique(last.0, last.1, a.local, a.domain, '@');
  }

  // ---------- time stamps ----------

  /** The base-32 alphabet of the daemon: `0`-`9`, then `A`-`V`. */
  function AlphabetAt(i: nat): char
    requires i < 32
  {
    if i < 10 then ('0' as int + i) as char else ('A' as int + (i - 10)) as char
  }

  predicate EqIgnoreCase(c: char, d: char) {
    LowerChar(c) == LowerChar(d)
  }

  /** `position`: the first place from `i` on with this character. */
  function DigitFrom(c: char, i: nat): (r: Option<nat>)
    requires i <= 32
    ensures r.Some? ==> i <= r.value < 32 && EqIgnoreCase(AlphabetAt(r.value), c)
    ensures r.None? ==> forall k :: i <= k < 32 ==> !EqIgnoreCase(AlphabetAt(k), c)
    decreases 32 - i
  {
    if i == 32 then None
    else if EqIgnoreCase(AlphabetAt(i), c) then Some(i)
    else DigitFrom(c, i + 1)
  }

  function Digit(c: char): Option<nat> {
    DigitFrom(c, 0)
  }

  lemma DigitExact(c: char, n: nat)
    requires n < 32
    ensures Digit(c) == Some(n) <==> EqIgnoreCase(AlphabetAt(n), c)
  {
  }

  function TimestampValue(s: string): Option<nat> {
    if |s| != 2 || Digit(s[0]).None? || Digit(s[1]).None? then None
    else Some(Digit(s[0]).value * 32 + Digit(s[1]).value)
  }

  method DecodeTimestamp(s: string) returns (r: Option<nat>)
    ensures r == TimestampValue(s)
    ensures r.Some? ==> r.value < DAYS_PER_CYCLE
  {
    if |s| != 2 {
      return None;
    }
    var val := 0;
    for i := 0 to 2
      invariant forall k :: 0 <= k < i ==> Digit(s[k]).Some?
      invariant val == if i == 0 then 0 else if i == 1 then Digit(s[0]).value
                       else Digit(s[0]).value * 32 + Digit(s[1]).value
    {
      match Digit(s[i])
      case None => return None;
      case Some(digit) => val := val * 32 + digit;
    }
    r := Some(val);
  }

  /** The two characters a relay writes for a day. */
  function EncodeTimestamp(day: nat): string {
    [AlphabetAt(day % DAYS_PER_CYCLE / 32), AlphabetAt(day % DAYS_PER_CYCLE % 32)]
  }

  /** What a character counts: `0`-`9` and then `A`-`V`, in either letter case. */
  ghost function CharValue(c: char): Option<nat> {
    if '0' <= c <= '9' then Some(c as int - '0' as int)
    else if 'A' <= c <= 'V' then Some(10 + (c as int - 'A' as int))
    else if 'a' <= c <= 'v' then Some(10 + (c as int - 'a' as int))
    else None
  }

  /** The number two such characters write in base 32. */
  ghost function Stamp(s: string): Option<nat> {
    if |s| == 2 && CharValue(s[0]).Some? && CharValue(s[1]).Some?
    then Some(32 * CharValue(s[0]).value + CharValue(s[1]).value) else None
  }

  lemma DigitIsValue(c: char)
    ensures Digit(c) == CharValue(c)
  {
    if CharValue(c).Some? {
      DigitExact(c, CharValue(c).value);
    } else if Digit(c).Some? {
      DigitExact(c, Digit(c).value);
    }
  }

  /** A time stamp is read as the base-32 number its two characters write, and not at all otherwise. */
  lemma TimestampByChars(s: string)
    ensures TimestampValue(s) == Stamp(s)
  {
    if |s| == 2 {
      DigitIsValue(s[0]);
      DigitIsValue(s[1]);
    }
  }

  /** A stamp reads as a day, modulo the cycle, exactly when it is that day's stamp in some letter case. */
  lemma TimestampExact(s: string, day: nat)
    ensures TimestampValue(s) == Some(day % DAYS_PER_CYCLE)
       <==> |s| == 2 && EqIgnoreCase(EncodeTimestamp(day)[0], s[0]) && EqIgnoreCase(EncodeTimestamp(day)[1], s[1])
    ensures TimestampValue(s).Some? ==> TimestampValue(s).value < DAYS_PER_CYCLE
  {
    if |s| == 2 {
      var n := day % DAYS_PER_CYCLE;
      DigitExact(s[0], n / 32);
      DigitExact(s[1], n % 32);
      if Digit(s[0]).Some? && Digit(s[1]).Some? {
        TwoDigits(Digit(s[0]).value, Digit(s[1]).value, n);
      }
    }
  }

  lemma TwoDigits(x: nat, y: nat, n: nat)
    requires x < 32 && y < 32
    ensures x * 32 + y == n <==> x == n / 32 && y == n % 32
  {
  }

  /** `rem_euclid` of the difference of the two day numbers. */
  function AgeInDays(decoded: nat, today: nat): nat {
    (today % DAYS_PER_CYCLE - decoded) % DAYS_PER_CYCLE
  }

  /** The age of a stamp is the number of days since its day, up to whole cycles. */
  lemma AgeIsDifference(day: nat, today: nat)
    ensures AgeInDays(day % DAYS_PER_CYCLE, today) == (today - day) % DAYS_PER_CYCLE
  {
    var q, p := today / DAYS_PER_CYCLE, day / DAYS_PER_CYCLE;
    var x := today % DAYS_PER_CYCLE - day % DAYS_PER_CYCLE;
    assert today - day == (q - p) * DAYS_PER_CYCLE + x;
    ModCycle(x, q - p);
  }

  lemma ModCycle(x: int, k: int)
    ensures (k * DAYS_PER_CYCLE + x) % DAYS_PER_CYCLE == x % DAYS_PER_CYCLE
  {
  }

  // ---------- the decision ----------

  function TryUnwrap(rawSender: string, cfg: SrsConfig, mac: Mac, today: nat): SrsUnwrap {
    if !cfg.enabled then NotSrs
    else match ParseSrs0(rawSender)
      case None => NotSrs
      case Some(a) => Judge(a, Verified(a, cfg, mac), TimestampValue(a.timestamp), cfg.maxAgeDays, today)
  }

  /** The answer for an address with fields, from what its hash and time stamp turned out to be. */
  function Judge(a: Srs0, verified: bool, stamp: Option<nat>, maxAgeDays: nat, today: nat): SrsUnwrap {
    if !verified then InvalidHash
    else match stamp
      case None => InvalidHash
      case Some(decoded) => if AgeInDays(decoded, today) > maxAgeDays then Expired else Valid(Original(a))
  }

  /** Which of the four answers an address with these fields gets. */
  ghost predicate Classified(a: Srs0, cfg: SrsConfig, mac: Mac, today: nat, r: SrsUnwrap) {
    Due(a, Authentic(a, cfg, mac), Stamp(a.timestamp), cfg.maxAgeDays, today, r)
  }

  ghost predicate Due(a: Srs0, verified: bool, stamp: Option<nat>, maxAgeDays: nat, today: nat, r: SrsUnwrap) {
    match r
    case NotSrs => false
    case InvalidHash => !verified || stamp.None?
    case Expired => verified && stamp.Some? && (today - stamp.value) % 1024 > maxAgeDays
    case Valid(o) =>
      verified && stamp.Some? && (today - stamp.value) % 1024 <= maxAgeDays && o == a.local + "@" + a.domain
  }

  lemma JudgedAsDue(a: Srs0, verified: bool, stamp: Option<nat>, maxAgeDays: nat, today: nat, r: SrsUnwrap)
    ensures Judge(a, verified, stamp, maxAgeDays, today) == r <==> Due(a, verified, stamp, maxAgeDays, today, r)
  {
    if stamp.Some? {
      ModCycle(today % DAYS_PER_CYCLE - stamp.value, today / DAYS_PER_CYCLE);
    }
  }

  /**
    The exact meaning of every answer: `r` is given if and only if either unwrapping is off or the
    address has no SRS0 fields and `r` is NotSrs, or it has them and they are classified as `r`.
   */
  lemma ExactAnswer(rawSender: string, cfg: SrsConfig, mac: Mac, today: nat, r: SrsUnwrap)
    ensures TryUnwrap(rawSender, cfg, mac, today) == r
       <==> || (r == NotSrs && (!cfg.enabled || forall a, d :: !IsSrs0(rawSender, a, d)))
            || (cfg.enabled && exists a, d :: IsSrs0(rawSender, a, d) && Classified(a, cfg, mac, today, r))
  {
    if cfg.enabled {
      match ParseSrs0(rawSender)
      case None =>
        forall a, d ensures !IsSrs0(rawSender, a, d) {
          ParsesExactly(rawSender, a);
        }
      case Some(a) =>
        ParsesExactly(rawSender, a);
        var d :| IsSrs0(rawSender, a, d);
        forall a', d' | IsSrs0(rawSender, a', d') ensures a' == a {
          ParsesExactly(rawSender, a');
        }
        ParsedAnswer(rawSender, a, cfg, mac, today, r);
    }
  }

  lemma ParsedAnswer(rawSender: string, a: Srs0, cfg: SrsConfig, mac: Mac, today: nat, r: SrsUnwrap)
    requires cfg.enabled && ParseSrs0(rawSender) == Some(a)
    ensures TryUnwrap(rawSender, cfg, mac, today) == r <==> Classified(a, cfg, mac, today, r)
  {
    VerifiedExactly(a, cfg, mac);
    TimestampByChars(a.timestamp);
    JudgedAsDue(a, Verified(a, cfg, mac), TimestampValue(a.timestamp), cfg.maxAgeDays, today, r);
  }

  /** The address a relay writes. */
  function Rewrite(secret: string, day: nat, domain: string, local: string, rewriteDomain: string, mac: Mac): string {
    var t := EncodeTimestamp(day);
    PREFIX + (Payload(Srs0(ComputeHash(secret, t, domain, local, mac), t, domain, local)) + ['@'] + rewriteDomain)
  }

  /**
    An address a relay wrote with a configured secret on any day, in the past or ahead, is unwrapped
    to the original sender exactly when its age modulo the cycle is within the limit.
   */
  lemma RewriteUnwraps(secret: string, day: nat, domain: string, local: string, rewriteDomain: string,
                       cfg: SrsConfig, mac: Mac, today: nat)
    requires cfg.enabled && secret in cfg.secrets
    requires '=' !in domain && '@' !in domain && '@' !in local
    ensures TryUnwrap(Rewrite(secret, day, domain, local, rewriteDomain, mac), cfg, mac, today) ==
            if (today - day) % DAYS_PER_CYCLE <= cfg.maxAgeDays then Valid(local + ['@'] + domain) else Expired
  {
    var t := EncodeTimestamp(day);
    var a := Srs0(ComputeHash(secret, t, domain, local, mac), t, domain, local);
    var raw := Rewrite(secret, day, domain, local, rewriteDomain, mac);
    assert IsSrs0(raw, a, rewriteDomain);
    ParsesExactly(raw, a);
    assert Verified(a, cfg, mac);
    TimestampExact(t, day);
    AgeIsDifference(day, today);
  }

  /** An unwrapped sender has no newline that the raw one did not have. */
  lemma UnwrapOneLine(rawSender: string, cfg: SrsConfig, mac: Mac, today: nat)
    requires OneLine(rawSender)
    ensures var r := TryUnwrap(rawSender, cfg, mac, today); r.Valid? ==> OneLine(r.originalSender)
  {
    if TryUnwrap(rawSender, cfg, mac, today).Valid? {
      var a := ParseSrs0(rawSender).value;
      ParsesExactly(rawSender, a);
      var d :| IsSrs0(rawSender, a, d);
      assert forall c <- Original(a) :: c in Payload(a) || c == '@';
      assert forall c <- Payload(a) :: c in rawSender;
    }
  }
}
