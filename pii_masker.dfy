/**
 * The value maskers of the guardrail (PiiMasker.cs): total, deterministic
 * string transforms that redact one recognised value each.
 */
module PiiMasker {
  import opened Text

  /**
   * The number text conversions the runtime supplies: double.TryParse with
   * NumberStyles.Float and the invariant culture, and ToString("0.##").
   */
  datatype NumberText = NumberText(parse: string -> Option<real>, format: real -> string)

  const Placeholder: string := "***"
  const IpPlaceholder: string := "***.***.***.***"

  /**
   * Keeps the first two characters of the local part, replaces the rest of it
   * by at least three asterisks and keeps everything from the first '@' on.
   */
  function MaskEmail(email: string): (r: string)
    ensures var at := IndexOf(email, '@');
      (r == Placeholder) <==> (at.None? || at.value <= 1)
  {
    match IndexOf(email, '@')
    case None => Placeholder
    case Some(at) =>
      if at <= 1 then Placeholder
      else
        var local := email[..at];
        var domain := email[at + 1..];
        var keep := Min(2, |local|);
        var maskedLocal := local[..keep] + Repeat('*', Max(3, |local| - keep));
        maskedLocal + "@" + domain
  }

  /**
   * With the first '@' at index 2 or later, the masked address is the first
   * two characters, at least three asterisks, then the '@' and the domain
   * unchanged; its first '@' is the one after the asterisks.
   */
  lemma MaskEmailKeeps(email: string)
    ensures var at := IndexOf(email, '@');
      var r := MaskEmail(email);
      at.Some? && at.value >= 2 ==>
        var stars := Max(3, at.value - 2);
        && |r| == 2 + stars + |email| - at.value
        && r[..2] == email[..2]
        && (forall j | 2 <= j < 2 + stars :: r[j] == '*')
        && r[2 + stars..] == email[at.value..]
        && IndexOf(r, '@') == Some(2 + stars)
  {
    var at := IndexOf(email, '@');
    if at.Some? && at.value >= 2 {
      var stars := Max(3, at.value - 2);
      MaskEmailShape(email, at.value);
      StarredShape(email[..2], stars, email[at.value..]);
      KeptHasNoAt(email, at.value);
      StarredAt(email[..2], stars, email[at.value..]);
    }
  }

  /** Two kept characters, a run of asterisks and the rest, read back piece by piece. */
  lemma StarredShape(kept: string, stars: nat, rest: string)
    requires |kept| == 2
    ensures var r := kept + Repeat('*', stars) + rest;
      && |r| == 2 + stars + |rest|
      && r[..2] == kept
      && (forall j | 2 <= j < 2 + stars :: r[j] == '*')
      && r[2 + stars..] == rest
  {
    var r := kept + Repeat('*', stars) + rest;
    assert r[..2] == kept;
    assert r[2 + stars..] == rest;
    forall j | 2 <= j < 2 + stars
      ensures r[j] == '*'
    {
      assert r[j] == Repeat('*', stars)[j - 2];
    }
  }

  /** When the kept characters hold no '@' and the rest starts with one, that is the first. */
  lemma StarredAt(kept: string, stars: nat, rest: string)
    requires |kept| == 2 && '@' !in kept && |rest| > 0 && rest[0] == '@'
    ensures IndexOf(kept + Repeat('*', stars) + rest, '@') == Some(2 + stars)
  {
    var r := kept + Repeat('*', stars) + rest;
    assert r[..2 + stars] == kept + Repeat('*', stars);
    assert r[2 + stars] == '@';
    IndexOfAt(r, '@', 2 + stars);
  }

  /** Before the first '@' at index 2 or later, the first two characters are no '@'. */
  lemma KeptHasNoAt(email: string, at: nat)
    requires IndexOf(email, '@') == Some(at) && at >= 2
    ensures '@' !in email[..2] && email[at..][0] == '@'
  {
    assert email[..2] == email[..at][..2];
  }

  lemma MaskedEmailAt(email: string, at: nat)
    requires IndexOf(email, '@') == Some(at) && at >= 2
    ensures IndexOf(MaskEmail(email), '@') == Some(2 + Max(3, at - 2))
  {
    MaskEmailShape(email, at);
    KeptHasNoAt(email, at);
    StarredAt(email[..2], Max(3, at - 2), email[at..]);
  }

  /** A masked e-mail is a fixed point: masking it again changes nothing. */
  lemma MaskEmailIdempotent(email: string)
    ensures MaskEmail(MaskEmail(email)) == MaskEmail(email)
  {
    var at := IndexOf(email, '@');
    if at.Some? && at.value >= 2 {
      MaskedEmailIsFixed(email, at.value);
    } else {
      assert IndexOf(Placeholder, '@').None?;
    }
  }

  lemma MaskedEmailIsFixed(email: string, at: nat)
    requires IndexOf(email, '@') == Some(at) && at >= 2
    ensures MaskEmail(MaskEmail(email)) == MaskEmail(email)
  {
    var r := MaskEmail(email);
    var stars := Max(3, at - 2);
    MaskEmailShape(email, at);
    MaskedEmailAt(email, at);
    MaskEmailShape(r, 2 + stars);
    assert Max(3, 2 + stars - 2) == stars;
    assert r[..2] == email[..2];
    assert r[2 + stars..] == email[at..];
  }

  /** With the first '@' at 2 or later: two characters, the asterisks, then the rest from '@'. */
  lemma MaskEmailShape(email: string, at: nat)
    requires IndexOf(email, '@') == Some(at) && at >= 2
    ensures MaskEmail(email) == email[..2] + Repeat('*', Max(3, at - 2)) + email[at..]
  {
    var local := email[..at];
    var domain := email[at + 1..];
    assert Min(2, |local|) == 2;
    assert local[..2] == email[..2];
    assert email[at] == '@';
    assert email[at..] == [email[at]] + domain;
  }

  /** "***-***-" followed by the last four digits, or "***" when there are fewer than four. */
  function MaskPhone(phone: string): (r: string)
    ensures var digits := Digits(phone);
      (|digits| < 4 <==> r == Placeholder)
      && (|digits| >= 4 ==> |r| == 12 && r[..8] == "***-***-" && r[8..] == digits[|digits| - 4..])
  {
    var digits := Digits(phone);
    if |digits| < 4 then Placeholder
    else "***-***-" + digits[|digits| - 4..]
  }

  lemma MaskPhoneIdempotent(phone: string)
    ensures MaskPhone(MaskPhone(phone)) == MaskPhone(phone)
  {
    var digits := Digits(phone);
    if |digits| < 4 {
      assert Digits(Placeholder) == "" by {
        DigitsNone(Placeholder);
      }
    } else {
      var last := digits[|digits| - 4..];
      DigitsAppend("***-***-", last);
      DigitsNone("***-***-");
      DigitsOfDigits(last);
      assert Digits(MaskPhone(phone)) == last;
    }
  }

  lemma {:induction false} DigitsNone(s: string)
    requires forall i | 0 <= i < |s| :: !IsDigit(s[i])
    ensures Digits(s) == ""
    decreases |s|
  {
    if |s| > 0 {
      DigitsNone(s[..|s| - 1]);
    }
  }

  /** Always eleven characters: nine asterisks then the last two digits, or eleven asterisks. */
  function MaskTckn(tckn: string): (r: string)
    ensures |r| == 11
    ensures forall j | 0 <= j < 9 :: r[j] == '*'
    ensures var digits := Digits(tckn);
      if |digits| == 11 then r[9..] == digits[9..] else r == Repeat('*', 11)
  {
    var digits := Digits(tckn);
    if |digits| != 11 then "***********"
    else Repeat('*', 9) + digits[9..]
  }

  /** Masking a masked national id again hides it completely. */
  lemma MaskTcknTwice(tckn: string)
    ensures MaskTckn(MaskTckn(tckn)) == Repeat('*', 11)
  {
    var r := MaskTckn(tckn);
    assert r == Repeat('*', 9) + r[9..];
    DigitsAppend(Repeat('*', 9), r[9..]);
    DigitsNone(Repeat('*', 9));
    assert |Digits(r)| <= 2;
  }

  /**
   * Keeps the first and the last dot-separated part and masks the two in
   * between; anything that does not split into exactly four parts is masked
   * completely.
   */
  function MaskIpv4(ip: string): (r: string)
    ensures CountChar(ip, '.') != 3 ==> r == IpPlaceholder
    ensures CountChar(ip, '.') == 3 ==>
      |Split(ip, '.')| == 4 &&
      Split(r, '.') == [Split(ip, '.')[0], "***", "***", Split(ip, '.')[3]]
  {
    SplitCount(ip, '.');
    var parts := Split(ip, '.');
    if |parts| != 4 then IpPlaceholder
    else
      SplitMaskedQuad(parts[0], parts[3]);
      MaskedQuadShape(parts[0], parts[3]);
      parts[0] + ".***.***." + parts[3]
  }

  lemma SplitMaskedQuad(first: string, last: string)
    requires '.' !in first && '.' !in last
    ensures Split(first + ['.'] + ("***" + ['.'] + ("***" + ['.'] + last)), '.') == [first, "***", "***", last]
  {
    assert "***" == ['*', '*', '*'];
    SplitQuad(first, "***", last);
  }

  /** Four parts without a dot, joined by dots, split back into those four parts. */
  lemma SplitQuad(first: string, mid: string, last: string)
    requires '.' !in first && '.' !in mid && '.' !in last
    ensures Split(first + ['.'] + (mid + ['.'] + (mid + ['.'] + last)), '.') == [first, mid, mid, last]
  {
    var parts := [first, mid, mid, last];
    SplitJoin(parts, '.');
    assert [mid, last][1..] == [last];
    assert Join([mid, last], '.') == mid + ['.'] + last;
    assert [mid, mid, last][1..] == [mid, last];
    assert Join([mid, mid, last], '.') == mid + ['.'] + (mid + ['.'] + last);
    assert parts[1..] == [mid, mid, last];
    assert Join(parts, '.') == first + ['.'] + (mid + ['.'] + (mid + ['.'] + last));
  }

  lemma MaskedQuadShape(first: string, last: string)
    ensures first + ".***.***." + last == first + ['.'] + ("***" + ['.'] + ("***" + ['.'] + last))
  {
    assert ".***.***." == ['.'] + "***" + ['.'] + "***" + ['.'];
  }

  /** Masking a masked address again changes nothing. */
  lemma MaskIpv4Idempotent(ip: string)
    ensures MaskIpv4(MaskIpv4(ip)) == MaskIpv4(ip)
  {
    var parts := Split(ip, '.');
    if |parts| == 4 {
      assert MaskIpv4(ip) == parts[0] + ".***.***." + parts[3];
      assert '.' !in parts[0] && '.' !in parts[3];
      MaskedQuadFixed(parts[0], parts[3]);
    } else {
      assert MaskIpv4(ip) == IpPlaceholder;
      assert IpPlaceholder == "***" + ".***.***." + "***";
      MaskedQuadFixed("***", "***");
    }
  }

  /** An address in the masked shape is its own mask. */
  lemma MaskedQuadFixed(first: string, last: string)
    requires '.' !in first && '.' !in last
    ensures MaskIpv4(first + ".***.***." + last) == first + ".***.***." + last
  {
    SplitMaskedQuad(first, last);
    MaskedQuadShape(first, last);
  }

  /** Math.Round(value, 2, MidpointRounding.AwayFromZero), on exact reals. */
  function RoundLocationComponent(x: real): real
  {
    if x >= 0.0 then RoundHalfUp(x) else -RoundHalfUp(-x)
  }

  function RoundHalfUp(x: real): real
  {
    (x * 100.0 + 0.5).Floor as real / 100.0
  }

  /** RoundHalfUp(y) is k hundredths exactly when 100y + 1/2 lies in [k, k + 1). */
  lemma RoundHalfUpAt(y: real, k: int)
    requires k as real <= y * 100.0 + 0.5 < k as real + 1.0
    ensures RoundHalfUp(y) == k as real / 100.0
  {
    assert (y * 100.0 + 0.5).Floor == k;
  }

  lemma RoundHalfUpBounds(y: real)
    requires y >= 0.0
    ensures var r := RoundHalfUp(y);
      && -0.005 < r - y <= 0.005
      && r >= 0.0
      && (r * 100.0).Floor as real == r * 100.0
  {
    var k := (y * 100.0 + 0.5).Floor;
    var r := k as real / 100.0;
    assert r * 100.0 == k as real;
    assert (r * 100.0).Floor == k;
    assert k as real <= y * 100.0 + 0.5 < k as real + 1.0;
    assert k >= 0;
  }

  /**
   * The rounded value is within half a hundredth of the input, is a whole
   * number of hundredths and keeps the sign.
   */
  lemma RoundLocationComponentBounds(x: real)
    ensures var r := RoundLocationComponent(x);
      && -0.005 <= r - x <= 0.005
      && (r * 100.0).Floor as real == r * 100.0
      && (x >= 0.0 ==> r >= 0.0)
      && (x <= 0.0 ==> r <= 0.0)
  {
    if x >= 0.0 {
      RoundHalfUpBounds(x);
    } else {
      RoundHalfUpBounds(-x);
      var r := RoundHalfUp(-x);
      var k := (r * 100.0).Floor;
      assert (-r) * 100.0 == (-k) as real;
    }
  }

  /** Midpoints between two hundredths round away from zero. */
  lemma RoundLocationComponentMidpoint(k: nat)
    ensures RoundLocationComponent(k as real / 100.0 + 0.005) == (k + 1) as real / 100.0
    ensures RoundLocationComponent(-(k as real / 100.0 + 0.005)) == -((k + 1) as real / 100.0)
  {
    var x := k as real / 100.0 + 0.005;
    assert x * 100.0 + 0.5 == (k + 1) as real;
    RoundHalfUpAt(x, k + 1);
  }

  /** Rounding an already rounded value changes nothing. */
  lemma RoundLocationComponentIdempotent(x: real)
    ensures RoundLocationComponent(RoundLocationComponent(x)) == RoundLocationComponent(x)
  {
    RoundLocationComponentBounds(x);
    var r := RoundLocationComponent(x);
    var k := (r * 100.0).Floor;
    if r >= 0.0 {
      assert r * 100.0 + 0.5 == k as real + 0.5;
      RoundHalfUpAt(r, k);
    } else {
      assert (-r) * 100.0 + 0.5 == (-k) as real + 0.5;
      RoundHalfUpAt(-r, -k);
    }
  }

  lemma RoundLocationComponentExample()
    ensures RoundLocationComponent(41.015137) == 41.02
  {
    assert 41.015137 * 100.0 + 0.5 == 4102.0137;
    assert (4102.0137).Floor == 4102;
  }

  /**
   * Parses the text and formats the rounded number; when the text does not
   * parse, reports false and hands the input back unchanged.
   */
  function TryRoundLocationComponent(value: string, nt: NumberText): (res: (bool, string))
    ensures res.0 <==> nt.parse(value).Some?
    ensures !res.0 ==> res.1 == value
    ensures res.0 ==> res.1 == nt.format(RoundLocationComponent(nt.parse(value).value))
  {
    match nt.parse(value)
    case Some(d) => (true, nt.format(RoundLocationComponent(d)))
    case None => (false, value)
  }
}
