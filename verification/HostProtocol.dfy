/** The native host: timestamp parsing, the freshness window, and the nonce replay cache. */
module HostProtocol {
  import opened Text
  import opened Calendar

  const MESSAGE_MAX_AGE_MS := 60000
  const NONCE_CACHE_MAX: nat := 4096

  // ---- timestamps ----

  /** `str::parse::<i64>`: an optional sign, at least one digit, in range. */
  function ParseI64(s: string): Option<int> {
    if s == "" then None
    else
      var body := if s[0] == '-' || s[0] == '+' then s[1..] else s;
      if body == "" || !AllDigits(body) then None
      else
        var v: int := if s[0] == '-' then -(DigitsValue(body) as int) else DigitsValue(body);
        if -0x8000_0000_0000_0000 <= v <= 0x7fff_ffff_ffff_ffff then Some(v) else None
  }

  /** A numeral with this sign and these digits denotes v. */
  predicate Denotes(sign: string, digits: string, v: int) {
    && sign in {"", "+", "-"} && digits != "" && AllDigits(digits)
    && v == if sign == "-" then -(DigitsValue(digits) as int) else DigitsValue(digits)
  }

  /** A text is read as a number exactly if it is one or more digits, perhaps behind a sign, and the
      number fits in 64 bits. */
  lemma ParseI64Exactly(s: string, v: int)
    ensures ParseI64(s) == Some(v) <==>
      (exists sign, digits :: s == sign + digits && Denotes(sign, digits, v)) && -9223372036854775808 <= v <= 9223372036854775807
  {
    hide DigitsValue;
    if s != "" {
      var signed := s[0] == '-' || s[0] == '+';
      var (sign, body) := (if signed then s[..1] else "", if signed then s[1..] else s);
      assert s == sign + body;
      assert signed ==> sign == [s[0]];
      if body != "" && AllDigits(body) {
        assert Denotes(sign, body, if s[0] == '-' then -(DigitsValue(body) as int) else DigitsValue(body));
      }
      forall x, digits | s == x + digits && Denotes(x, digits, v) ensures x == sign && digits == body {
        assert IsDigit(digits[0]);
        assert |x| <= 1 && (x != "" ==> x[0] == s[0]);
      }
    }
  }

  function Zeros(n: nat): string { seq(n, _ => '0') }

  /** The first three characters, padded on the right with zeros. */
  function Millis3(frac: string): string {
    var t := if |frac| > 3 then frac[..3] else frac;
    t + Zeros(3 - |t|)
  }

  function UnixMs(d: Date, h: int, mi: int, s: int, ms: int): int {
    (DaysFromCivil(d) * 86400 + h * 3600 + mi * 60 + s) * 1000 + ms
  }

  function ParseDate(date: string): Option<Date> {
    var parts := Split(date, '-');
    if |parts| < 3 then None
    else match (ParseI64(parts[0]), ParseI64(parts[1]), ParseI64(parts[2]))
      case (Some(y), Some(m), Some(d)) => Some(Date(y, m, d))
      case _ => None
  }

  function ParseSeconds(sec: string): Option<(int, int)> {
    match SplitOnce(sec, '.')
    case Some((s, frac)) => (
      match (ParseI64(s), ParseI64(Millis3(frac)))
      case (Some(sv), Some(ms)) => Some((sv, ms))
      case _ => None)
    case None => (
      match ParseI64(sec)
      case Some(sv) => Some((sv, 0))
      case None => None)
  }

  /** Unix milliseconds of "YYYY-MM-DDTHH:MM:SS(.mmm)Z", or None. */
  function ParseIsoMs(ts: string): Option<int> {
    if ts == "" || ts[|ts| - 1] != 'Z' then None
    else match SplitOnce(ts[..|ts| - 1], 'T')
      case None => None
      case Some((date, time)) =>
        var parts := Split(time, ':');
        if |parts| < 3 then None
        else match (ParseDate(date), ParseI64(parts[0]), ParseI64(parts[1]), ParseSeconds(parts[2]))
          case (Some(d), Some(h), Some(mi), Some((s, ms))) => Some(UnixMs(d, h, mi, s, ms))
          case _ => None
  }

  /** The digit at this place after the point, 0 when it is not written. */
  function Place(frac: string, i: nat): (d: int)
    requires AllDigits(frac)
    ensures 0 <= d <= 9
  { if i < |frac| then DigitValue(frac[i]) else 0 }

  /** The whole milliseconds of a fraction of a second: its tenths, hundredths and thousandths. */
  function FractionMs(frac: string): (ms: int)
    requires AllDigits(frac)
    ensures 0 <= ms < 1000
  { 100 * Place(frac, 0) + 10 * Place(frac, 1) + Place(frac, 2) }

  /** A timestamp as its fields, with the digits of its fraction of a second if it has one, and its
      RFC 3339 section 5.6 rendering. */
  datatype Stamp = Stamp(date: Date, h: int, mi: int, s: int, frac: string) {
    /** Field ranges of section 5.6; second 60 is a leap second. */
    predicate Ok() {
      Valid(date) && 0 <= date.year < 10000 &&
      0 <= h < 24 && 0 <= mi < 60 && 0 <= s <= 60 && AllDigits(frac)
    }
    function DatePart(): string
      requires Ok()
    { Padded(date.year, 4) + ['-'] + (Padded(date.month, 2) + ['-'] + Padded(date.day, 2)) }
    function SecondPart(): string
      requires Ok()
    { if frac == "" then Padded(s, 2) else Padded(s, 2) + ['.'] + frac }
    function TimePart(): string
      requires Ok()
    { Padded(h, 2) + [':'] + (Padded(mi, 2) + [':'] + SecondPart()) }
    function Render(separator: char, zone: string): string
      requires Ok()
    { (DatePart() + [separator] + TimePart()) + zone }
    function Ms(): int
      requires Ok()
    { UnixMs(date, h, mi, s, FractionMs(frac)) }
    /** Field-by-field order, to the millisecond. */
    predicate Earlier(t: Stamp)
      requires Ok() && t.Ok()
    {
      Before(date, t.date) ||
      (date == t.date && (h < t.h || (h == t.h && (mi < t.mi || (mi == t.mi &&
                         (s < t.s || (s == t.s && FractionMs(frac) < FractionMs(t.frac))))))))
    }
  }

  /** The zone of section 5.6: UTC, or a numeric offset; letters may be lower-case. */
  predicate Zone(z: string) {
    z == "Z" || z == "z" ||
    (|z| == 6 && (z[0] == '+' || z[0] == '-') && AllDigits(z[1..3]) && z[3] == ':' && AllDigits(z[4..]))
  }

  lemma DigitsAvoid(s: string, c: char)
    requires AllDigits(s) && !IsDigit(c)
    ensures c !in s
  {
  }

  lemma ParseDigits(s: string)
    requires AllDigits(s) && s != "" && DigitsValue(s) < 10000
    ensures ParseI64(s) == Some(DigitsValue(s))
  {
    hide DigitsValue;
    assert IsDigit(s[0]);
  }

  lemma ParsePadded(n: nat, width: nat)
    requires 0 < width <= 4 && n < Pow10(width)
    ensures ParseI64(Padded(n, width)) == Some(n)
  {
    assert Pow10(width) <= 10000 by { assert Pow10(4) == 10000 && Pow10(3) == 1000 && Pow10(2) == 100 && Pow10(1) == 10; }
    hide Pow10, Padded, DigitsValue, ParseI64;
    PaddedValue(n, width);
    ParseDigits(Padded(n, width));
  }

  lemma DateRoundTrip(t: Stamp)
    requires t.Ok()
    ensures ParseDate(t.DatePart()) == Some(t.date)
    ensures 'T' !in t.DatePart()
  {
    assert Pow10(2) == 100 && Pow10(4) == 10 * Pow10(3) == 10000;
    hide Pow10, Padded, Split, ParseI64, ParseDate, AllDigits;
    var (y, m, d) := (Padded(t.date.year, 4), Padded(t.date.month, 2), Padded(t.date.day, 2));
    ParsePadded(t.date.year, 4); ParsePadded(t.date.month, 2); ParsePadded(t.date.day, 2);
    DashedDate(y, m, d, t.date);
    DigitsAvoid(y, 'T'); DigitsAvoid(m, 'T'); DigitsAvoid(d, 'T');
  }

  lemma DashedDate(y: string, m: string, d: string, date: Date)
    requires AllDigits(y) && AllDigits(m) && AllDigits(d)
    requires ParseI64(y) == Some(date.year) && ParseI64(m) == Some(date.month) && ParseI64(d) == Some(date.day)
    ensures ParseDate(y + ['-'] + (m + ['-'] + d)) == Some(date)
  {
    hide Split, ParseI64, AllDigits;
    DigitsAvoid(y, '-'); DigitsAvoid(m, '-'); DigitsAvoid(d, '-');
    SplitStep(y, '-', m + ['-'] + d);
    SplitStep(m, '-', d);
    SplitLast(d, '-');
  }

  lemma ThreeDigits(x: char, y: char, z: char)
    requires IsDigit(x) && IsDigit(y) && IsDigit(z)
    ensures DigitsValue([x, y, z]) == 100 * DigitValue(x) + 10 * DigitValue(y) + DigitValue(z)
  {
    assert [x, y, z][..2] == [x, y] && [x, y][..1] == [x];
    assert DigitsValue([x]) == DigitsValue([]) * 10 + DigitValue(x);
    assert DigitsValue([x, y]) == DigitsValue([x]) * 10 + DigitValue(y);
  }

  /** Cut or padded to three digits, the fraction denotes its whole milliseconds. */
  lemma MillisExactly(frac: string)
    requires AllDigits(frac)
    ensures AllDigits(Millis3(frac)) && |Millis3(frac)| == 3 && DigitsValue(Millis3(frac)) == FractionMs(frac)
  {
    hide DigitsValue;
    var m := Millis3(frac);
    assert forall i: nat :: i < 3 ==> IsDigit(m[i]) && DigitValue(m[i]) == Place(frac, i);
    assert m == [m[0], m[1], m[2]];
    ThreeDigits(m[0], m[1], m[2]);
  }

  lemma SecondRoundTrip(t: Stamp)
    requires t.Ok()
    ensures ParseSeconds(t.SecondPart()) == Some((t.s, FractionMs(t.frac)))
    ensures ':' !in t.SecondPart() && 'T' !in t.SecondPart()
  {
    assert Pow10(2) == 100;
    MillisExactly(t.frac);
    var ms := Millis3(t.frac);
    hide Pow10, Padded, SplitOnce, ParseI64, Millis3, FractionMs, DigitsValue;
    var s := Padded(t.s, 2);
    DigitsAvoid(s, '.'); DigitsAvoid(s, ':'); DigitsAvoid(s, 'T');
    DigitsAvoid(t.frac, ':'); DigitsAvoid(t.frac, 'T');
    ParsePadded(t.s, 2);
    ParseDigits(ms);
    if t.frac == "" { SplitOnceNone(s, '.'); NoFraction(); } else { SplitOnceAt(s, '.', t.frac); }
  }

  lemma NoFraction()
    ensures FractionMs("") == 0
  {
  }

  lemma TimeRoundTrip(t: Stamp)
    requires t.Ok()
    ensures var parts := Split(t.TimePart(), ':');
            |parts| == 3 && ParseI64(parts[0]) == Some(t.h) && ParseI64(parts[1]) == Some(t.mi) && parts[2] == t.SecondPart()
  {
    assert Pow10(2) == 100;
    hide Pow10, Padded, Split, SplitOnce, ParseI64, ParseSeconds;
    SecondRoundTrip(t);
    var (h, mi, sec) := (Padded(t.h, 2), Padded(t.mi, 2), t.SecondPart());
    DigitsAvoid(h, ':'); DigitsAvoid(mi, ':');
    SplitStep(h, ':', mi + [':'] + sec);
    SplitStep(mi, ':', sec);
    SplitLast(sec, ':');
    ParsePadded(t.h, 2); ParsePadded(t.mi, 2);
  }

  lemma UtcParses(t: Stamp)
    requires t.Ok()
    ensures ParseIsoMs(t.Render('T', "Z")) == Some(t.Ms())
  {
    hide Pow10, Padded, Split, SplitOnce, ParseI64, ParseDate, ParseSeconds, UnixMs, FractionMs, AllDigits,
         Stamp.DatePart, Stamp.TimePart, Stamp.SecondPart, Stamp.Ok;
    DateRoundTrip(t);
    SecondRoundTrip(t);
    TimeRoundTrip(t);
    SplitOnceAt(t.DatePart(), 'T', t.TimePart());
    var ts := t.Render('T', "Z");
    assert ts[..|ts| - 1] == t.DatePart() + ['T'] + t.TimePart();
  }

  lemma NoCapital(t: Stamp)
    requires t.Ok()
    ensures 'T' !in t.DatePart() + ['t'] + t.TimePart()
  {
    DateRoundTrip(t);
    SecondRoundTrip(t);
    hide Padded, ParseDate, ParseSeconds, Stamp.DatePart, Stamp.SecondPart;
    DigitsAvoid(Padded(t.h, 2), 'T');
    DigitsAvoid(Padded(t.mi, 2), 'T');
  }

  /** A timestamp of the form of section 5.6, with a fraction of any number of digits or none, is
      read back as exactly its own instant, to the millisecond, when it is written with a capital T
      and a capital Z; any other spelling of that form, a lower-case letter or a numeric offset, is
      refused. */
  lemma RenderParses(t: Stamp, separator: char, zone: string)
    requires t.Ok() && (separator == 'T' || separator == 't') && Zone(zone)
    ensures ParseIsoMs(t.Render(separator, zone)) == if separator == 'T' && zone == "Z" then Some(t.Ms()) else None
  {
    var ts := t.Render(separator, zone);
    if zone == "Z" {
      if separator == 'T' {
        UtcParses(t);
      } else {
        NoCapital(t);
        assert ts[..|ts| - 1] == t.DatePart() + ['t'] + t.TimePart();
        SplitOnceNone(ts[..|ts| - 1], 'T');
      }
    } else {
      assert ts[|ts| - 1] == zone[|zone| - 1] != 'Z' by { if |zone| == 6 { assert IsDigit(zone[4..][1]); } }
    }
  }

  /** Stamp u is in the minute right after that of t. */
  predicate NextMinute(t: Stamp, u: Stamp)
    requires t.Ok()
  {
    if t.mi < 59 then u.date == t.date && u.h == t.h && u.mi == t.mi + 1
    else if t.h < 23 then u.date == t.date && u.h == t.h + 1 && u.mi == 0
    else u.date == Next(t.date) && u.h == 0 && u.mi == 0
  }

  /** A leap second t, and the second right after it. */
  predicate LeapThen(t: Stamp, u: Stamp)
    requires t.Ok()
  { t.s == 60 && u.s == 0 && NextMinute(t, u) }

  lemma DayGap(a: Date, b: Date)
    requires Valid(a) && Valid(b)
    ensures Before(a, b) ==> DaysFromCivil(b) >= DaysFromCivil(a) + 1
    ensures DaysFromCivil(b) == DaysFromCivil(a) + 1 <==> b == Next(a)
  {
    OrderAgrees(a, b);
    OrderAgrees(Next(a), b);
    NextIsOneMore(a);
  }

  /** For any two timestamps of the form, the later one has the greater millisecond value, unless it
      is in the second right after a leap second and its fraction is not greater: a leap second is
      counted as that second, so there the order is lost, and reversed where the fraction is less. */
  lemma MillisecondsIncrease(t: Stamp, u: Stamp)
    requires t.Ok() && u.Ok() && t.Earlier(u)
    ensures t.Ms() < u.Ms() <==> !(LeapThen(t, u) && FractionMs(u.frac) <= FractionMs(t.frac))
    ensures t.Ms() == u.Ms() <==> LeapThen(t, u) && FractionMs(u.frac) == FractionMs(t.frac)
  {
    DayGap(t.date, u.date);
    OrderAgrees(t.date, u.date);
    hide FractionMs, DaysFromCivil, AllDigits, Next, Valid;
  }

  /** Between timestamps that are not leap seconds the order is always kept, both ways. */
  lemma OrderedBetweenLeaps(t: Stamp, u: Stamp)
    requires t.Ok() && u.Ok() && t.s < 60 && u.s < 60
    ensures t.Ms() < u.Ms() <==> t.Earlier(u)
  {
    hide FractionMs, DaysFromCivil, AllDigits, Next, UnixMs;
    if t.Earlier(u) { MillisecondsIncrease(t, u); }
    else if u.Earlier(t) { MillisecondsIncrease(u, t); }
  }

  // ---- envelopes and the replay cache ----

  datatype Envelope = Envelope(messageId: string, timestamp: string, nonce: string, signature: string)

  datatype Verdict = Accepted | BadJson | MissingMessageId | MissingSignature | Expired | Replayed

  predicate HexDigit(c: char) { IsDigit(c) || 'a' <= c <= 'f' || 'A' <= c <= 'F' }

  predicate Fresh(timestamp: string, now: int) {
    var t := ParseIsoMs(timestamp);
    t.Some? && -MESSAGE_MAX_AGE_MS <= now - t.value <= MESSAGE_MAX_AGE_MS
  }

  /** The checks made before the nonce is looked at; None when they all pass. */
  function EarlyRefusal(value: Option<Envelope>, now: int): Option<Verdict> {
    match value
    case None => Some(BadJson)
    case Some(e) =>
      if e.messageId == "" then Some(MissingMessageId)
      else if |e.signature| != 64 || exists i :: 0 <= i < |e.signature| && !HexDigit(e.signature[i]) then Some(MissingSignature)
      else if !Fresh(e.timestamp, now) then Some(Expired)
      else None
  }

  /** A message gets as far as its nonce exactly if it is read, has an id, is signed with 64
      hexadecimal digits, and is stamped within a minute of the clock; what it is refused for is the
      first of these that fails. */
  lemma RefusedEarlyExactly(value: Option<Envelope>, now: int)
    ensures var r := EarlyRefusal(value, now);
      var named := value.Some? && value.value.messageId != "";
      var signed := named && |value.value.signature| == 64 && forall c :: c in value.value.signature ==> c in "0123456789abcdefABCDEF";
      var timely := signed && exists t :: ParseIsoMs(value.value.timestamp) == Some(t) && t - 60 * 1000 <= now <= t + 60 * 1000;
      && (r == Some(BadJson) <==> value.None?)
      && (r == Some(MissingMessageId) <==> value.Some? && !named)
      && (r == Some(MissingSignature) <==> named && !signed)
      && (r == Some(Expired) <==> signed && !timely)
      && (r == None <==> timely)
  {
    hide ParseIsoMs;
    forall c ensures HexDigit(c) <==> c in "0123456789abcdefABCDEF" { HexDigits(c); }
    if value.Some? {
      var s := value.value.signature;
      assert (forall i :: 0 <= i < |s| ==> HexDigit(s[i])) <==> forall c :: c in s ==> HexDigit(c);
      hide HexDigit;
    }
  }

  lemma HexDigits(c: char)
    ensures HexDigit(c) <==> c in "0123456789abcdefABCDEF"
  {
    var digits := "0123456789abcdefABCDEF";
    if HexDigit(c) {
      var i := if c <= '9' then c as int - '0' as int else if c <= 'F' then c as int - 'A' as int + 16 else c as int - 'a' as int + 10;
      assert digits[i] == c;
    }
  }

  /** The nonces remembered after one more is offered. */
  function Offer(order: seq<string>, nonce: string): seq<string> {
    if nonce in order then order
    else (if |order| >= NONCE_CACHE_MAX then order[1..] else order) + [nonce]
  }

  class NonceCache {
    var seen: set<string>
    var order: seq<string>

    /** The set and the queue hold the same nonces, each once, within the bound. */
    ghost predicate Valid()
      reads this
    {
      |order| <= NONCE_CACHE_MAX &&
      (forall i, j :: 0 <= i < j < |order| ==> order[i] != order[j]) &&
      (forall n :: n in seen <==> n in order)
    }

    constructor ()
      ensures Valid() && order == []
    {
      seen := {};
      order := [];
    }

    method CheckAndInsert(nonce: string) returns (verdict: Verdict)
      requires Valid()
      modifies this
      ensures Valid()
      ensures verdict == if nonce in old(order) then Replayed else Accepted
      ensures order == Offer(old(order), nonce)
    {
      if nonce in seen { return Replayed; }
      if |order| >= NONCE_CACHE_MAX {
        var evicted := order[0];
        order := order[1..];
        seen := seen - {evicted};
      }
      seen := seen + {nonce};
      order := order + [nonce];
      return Accepted;
    }
  }

  method ValidateEnvelope(value: Option<Envelope>, cache: NonceCache, now: int) returns (verdict: Verdict)
    requires cache.Valid()
    modifies cache
    ensures cache.Valid()
    ensures EarlyRefusal(value, now).Some? ==> verdict == EarlyRefusal(value, now).value && cache.order == old(cache.order)
    ensures EarlyRefusal(value, now).None? ==>
              verdict == (if value.value.nonce in old(cache.order) then Replayed else Accepted) &&
              cache.order == Offer(old(cache.order), value.value.nonce)
  {
    if value.None? { return BadJson; }
    var e := value.value;
    if e.messageId == "" { return MissingMessageId; }
    if |e.signature| != 64 || exists i :: 0 <= i < |e.signature| && !HexDigit(e.signature[i]) { return MissingSignature; }
    var ts := ParseIsoMs(e.timestamp);
    if ts.None? { return Expired; }
    var age := now - ts.value;
    if (if age < 0 then -age else age) > MESSAGE_MAX_AGE_MS { return Expired; }
    verdict := cache.CheckAndInsert(e.nonce);
  }

  /** One call to the host: what arrived and what the clock said. */
  datatype Call = Call(value: Option<Envelope>, now: int)

  /** The cache, and every envelope accepted so far, after a sequence of calls. */
  datatype Host = Host(order: seq<string>, accepted: seq<Envelope>)

  function Step(h: Host, c: Call): Host {
    if EarlyRefusal(c.value, c.now).Some? || c.value.value.nonce in h.order then h
    else Host(Offer(h.order, c.value.value.nonce), h.accepted + [c.value.value])
  }

  function Serve(calls: seq<Call>): Host {
    if calls == [] then Host([], []) else Step(Serve(calls[..|calls| - 1]), calls[|calls| - 1])
  }

  function Nonces(es: seq<Envelope>): seq<string> { seq(|es|, i requires 0 <= i < |es| => es[i].nonce) }

  function Last(s: seq<string>, n: nat): seq<string> { if |s| <= n then s else s[|s| - n..] }

  lemma RecentIsKept(s: seq<string>, n: nat, i: nat)
    requires i < |s| <= i + n
    ensures s[i] in Last(s, n)
  {
    assert s[i] == Last(s, n)[if |s| <= n then i else i - (|s| - n)];
  }

  /** Offering a new nonce to the last n of a history leaves the last n of the longer history. */
  lemma OfferKeepsLast(s: seq<string>, nonce: string)
    requires nonce !in Last(s, NONCE_CACHE_MAX)
    ensures Offer(Last(s, NONCE_CACHE_MAX), nonce) == Last(s + [nonce], NONCE_CACHE_MAX)
  {
  }

  ghost predicate NoRepeats(s: seq<string>) { forall i, j :: 0 <= i < j < |s| ==> s[i] != s[j] }

  lemma OfferNoRepeats(order: seq<string>, nonce: string)
    requires NoRepeats(order)
    ensures NoRepeats(Offer(order, nonce))
  {
  }

  /** The cache is the last 4096 accepted nonces, and those are pairwise distinct. */
  lemma {:induction false} CacheIsRecentHistory(calls: seq<Call>)
    ensures var h := Serve(calls);
            h.order == Last(Nonces(h.accepted), 4096) && NoRepeats(h.order)
  {
    hide Offer, Last, NoRepeats;
    if calls == [] {
      EmptyHistory();
    } else {
      var c := calls[|calls| - 1];
      var before := Serve(calls[..|calls| - 1]);
      CacheIsRecentHistory(calls[..|calls| - 1]);
      var after := Serve(calls);
      if after != before {
        assert Nonces(after.accepted) == Nonces(before.accepted) + [c.value.value.nonce];
        OfferKeepsLast(Nonces(before.accepted), c.value.value.nonce);
        OfferNoRepeats(before.order, c.value.value.nonce);
      }
    }
  }

  lemma EmptyHistory()
    ensures Last(Nonces([]), NONCE_CACHE_MAX) == [] && NoRepeats([])
  {
  }

  /** A nonce is accepted twice only when at least 4096 envelopes were accepted in between. */
  lemma {:induction false} ReplayNeedsFullCache(calls: seq<Call>, i: nat, j: nat)
    requires i < j < |Serve(calls).accepted|
    requires Serve(calls).accepted[i].nonce == Serve(calls).accepted[j].nonce
    ensures j - i - 1 >= 4096
  {
    var c := calls[|calls| - 1];
    var before := Serve(calls[..|calls| - 1]);
    var after := Serve(calls);
    if j < |before.accepted| {
      assert before.accepted == after.accepted[..|before.accepted|];
      ReplayNeedsFullCache(calls[..|calls| - 1], i, j);
    } else {
      CacheIsRecentHistory(calls[..|calls| - 1]);
      var n := |before.accepted|;
      if n - i <= NONCE_CACHE_MAX { RecentIsKept(Nonces(before.accepted), NONCE_CACHE_MAX, i); }
    }
  }

  /** After any calls, an envelope that passes the early checks is refused exactly when its
      nonce is among the last 4096 accepted; a refused one leaves the host unchanged. */
  lemma RefusedExactlyOnRecentNonce(calls: seq<Call>, c: Call)
    ensures var h := Serve(calls);
            var h' := Serve(calls + [c]);
            (h'.accepted != h.accepted <==>
               EarlyRefusal(c.value, c.now).None? &&
               c.value.value.nonce !in Last(Nonces(h.accepted), 4096)) &&
            (h'.accepted == h.accepted ==> h' == h)
  {
    CacheIsRecentHistory(calls);
    assert (calls + [c])[..|calls|] == calls;
  }
}
