/**
 * The free-text detector of the guardrail (PiiDetector.cs): four fixed
 * patterns, each written out as a recogniser that returns where the .NET
 * backtracking engine's first successful path ends, and the leftmost,
 * non-overlapping replace-all pass built on them.
 *
 * Character classes are ASCII (see the Text module); \b compares the
 * word-ness of the characters on either side of a position of the whole
 * input, exactly as the engine does while scanning.
 */
module PiiDetector {
  import opened Text
  import PiiMasker

  datatype Pattern = EmailPattern | PhonePattern | TcknPattern | Ipv4Pattern

  /** Backtracking: the first alternative that succeeds wins. */
  function OrElse(first: Option<nat>, second: Option<nat>): Option<nat>
  {
    if first.Some? then first else second
  }

  predicate WordAt(s: string, j: int)
  {
    0 <= j < |s| && IsWordChar(s[j])
  }

  /** The \b assertion at position j. */
  predicate WordBoundary(s: string, j: nat)
  {
    WordAt(s, j - 1) != WordAt(s, j)
  }

  /** n digits start at p. */
  predicate DigitsAt(s: string, p: nat, n: nat)
  {
    p + n <= |s| && forall k | p <= k < p + n :: IsDigit(s[k])
  }

  /** The character classes the patterns repeat with a greedy + or * loop. */
  datatype CharClass = DigitClass | LetterClass | LocalClass | DomainClass

  predicate InClass(c: char, cls: CharClass)
  {
    match cls
    case DigitClass => IsDigit(c)
    case LetterClass => IsLetter(c)
    case LocalClass => IsLocalChar(c)
    case DomainClass => IsDomainChar(c)
  }

  /** The end of the longest run of class members starting at p (a greedy + or * loop). */
  function RunEnd(s: string, p: nat, cls: CharClass): (e: nat)
    requires p <= |s|
    ensures p <= e <= |s|
    ensures forall k | p <= k < e :: InClass(s[k], cls)
    ensures e == |s| || !InClass(s[e], cls)
    decreases |s| - p
  {
    if p < |s| && InClass(s[p], cls) then RunEnd(s, p + 1, cls) else p
  }

  // ---------------------------------------------------------------------
  // \b\d{11}\b

  function TcknAt(s: string, i: nat): (r: Option<nat>)
    requires i <= |s|
    ensures r.Some? ==> r.value == i + 11 <= |s|
  {
    if WordBoundary(s, i) && DigitsAt(s, i, 11) && WordBoundary(s, i + 11) then Some(i + 11)
    else None
  }

  // ---------------------------------------------------------------------
  // \b(?:(?:25[0-5]|2[0-4]\d|1\d\d|[1-9]?\d)\.){3}(?:25[0-5]|2[0-4]\d|1\d\d|[1-9]?\d)\b
  //
  // Every octet is followed either by '.' or by \b after a digit, i.e. by a
  // non-digit, so any path that stops inside a run of digits fails: the
  // octet is the whole digit run, and backtracking has no other path to find.

  /** The octet alternatives 25[0-5], 2[0-4]\d, 1\d\d and [1-9]?\d, each taken as a whole string. */
  predicate IsOctet(t: string)
  {
    || (|t| == 3 && t[0] == '2' && t[1] == '5' && '0' <= t[2] <= '5')
    || (|t| == 3 && t[0] == '2' && '0' <= t[1] <= '4' && IsDigit(t[2]))
    || (|t| == 3 && t[0] == '1' && IsDigit(t[1]) && IsDigit(t[2]))
    || (|t| == 2 && '1' <= t[0] <= '9' && IsDigit(t[1]))
    || (|t| == 1 && IsDigit(t[0]))
  }

  /** An octet is one to three digits without a leading zero. */
  lemma OctetDigits(t: string)
    requires IsOctet(t)
    ensures 1 <= |t| <= 3 && AllDigits(t) && (|t| == 1 || t[0] != '0')
  {
  }

  lemma DecimalValueOfThree(t: string)
    requires |t| == 3 && AllDigits(t)
    ensures DecimalValue(t) == 100 * DigitValue(t[0]) + 10 * DigitValue(t[1]) + DigitValue(t[2])
  {
    assert t[..2][..1] == [t[0]] && t[..2][1] == t[1];
    assert DecimalValue(t[..2][..1]) == DigitValue(t[0]) by {
      assert t[..2][..1][..0] == [];
    }
  }

  lemma DecimalValueOfTwo(t: string)
    requires |t| == 2 && AllDigits(t)
    ensures DecimalValue(t) == 10 * DigitValue(t[0]) + DigitValue(t[1])
  {
    assert t[..1][..0] == [] && t[..1][0] == t[0];
    assert DecimalValue(t[..1]) == DigitValue(t[0]);
  }

  /**
   * The octet alternatives, taken as whole strings, are exactly the decimal
   * numerals 0..255 without a leading zero.
   */
  lemma OctetIsByteNumeral(t: string)
    ensures IsOctet(t) <==>
      1 <= |t| <= 3 && AllDigits(t) && (|t| == 1 || t[0] != '0') && DecimalValue(t) <= 255
  {
    if 1 <= |t| <= 3 && AllDigits(t) {
      if |t| == 3 {
        DecimalValueOfThree(t);
      } else if |t| == 2 {
        DecimalValueOfTwo(t);
      } else {
        assert t[..0] == [];
      }
    }
  }

  /** The end of the octet starting at p: the digit run from p, if that run is an octet. */
  function OctetEnd(s: string, p: nat): (r: Option<nat>)
    requires p <= |s|
    ensures r.Some? ==> p < r.value <= |s| && IsOctet(s[p..r.value])
    ensures r.Some? ==> forall k | p <= k < r.value :: IsDigit(s[k])
    ensures r.Some? ==> r.value == |s| || !IsDigit(s[r.value])
  {
    var e := RunEnd(s, p, DigitClass);
    if IsOctet(s[p..e]) then Some(e) else None
  }

  /** `dots` more octet-and-dot groups, then the last octet and \b. */
  function Ipv4Octets(s: string, p: nat, dots: nat): (r: Option<nat>)
    requires p <= |s|
    ensures r.Some? ==> p < r.value <= |s|
    decreases dots
  {
    match OctetEnd(s, p)
    case None => None
    case Some(q) =>
      if dots == 0 then (if WordBoundary(s, q) then Some(q) else None)
      else if q < |s| && s[q] == '.' then Ipv4Octets(s, q + 1, dots - 1)
      else None
  }

  function Ipv4At(s: string, i: nat): (r: Option<nat>)
    requires i <= |s|
    ensures r.Some? ==> i < r.value <= |s|
  {
    if WordBoundary(s, i) then Ipv4Octets(s, i, 3) else None
  }

  // ---------------------------------------------------------------------
  // (?i)\b[A-Z0-9._%+-]+@[A-Z0-9.-]+\.[A-Z]{2,}\b
  //
  // '@' is outside the local-part class, so the local part is the whole run
  // before the '@'. The domain run is then given back one character at a
  // time, so the '.' before the last label is tried from the right; the
  // letters after it are taken greedily, and only the whole letter run can
  // be followed by \b.

  predicate IsLocalChar(c: char)
  {
    IsLetter(c) || IsDigit(c) || c == '.' || c == '_' || c == '%' || c == '+' || c == '-'
  }

  predicate IsDomainChar(c: char)
  {
    IsLetter(c) || IsDigit(c) || c == '.' || c == '-'
  }

  /** Tries the dot before the top-level label at d, d - 1, ..., a + 2 (a is the '@'). */
  function EmailLabel(s: string, a: nat, d: int): (r: Option<nat>)
    requires a < |s| && d < |s|
    ensures r.Some? ==> a + 4 < r.value <= |s|
    decreases d
  {
    if d < a + 2 then None
    else if s[d] == '.' && RunEnd(s, d + 1, LetterClass) >= d + 3 && WordBoundary(s, RunEnd(s, d + 1, LetterClass)) then
      Some(RunEnd(s, d + 1, LetterClass))
    else EmailLabel(s, a, d - 1)
  }

  function EmailAt(s: string, i: nat): (r: Option<nat>)
    requires i <= |s|
    ensures r.Some? ==> i < r.value <= |s|
  {
    if !WordBoundary(s, i) then None
    else
      var a := RunEnd(s, i, LocalClass);
      if a == i || a == |s| || s[a] != '@' then None
      else EmailLabel(s, a, RunEnd(s, a + 1, DomainClass) - 1)
  }

  // ---------------------------------------------------------------------
  // \b(?:\+?\d{1,3}[\s-]?)?(?:\(?\d{3}\)?[\s-]?)\d{3}[\s-]?\d{4}\b
  //
  // The pattern after its leading \b, as a chain of steps. Each step tries
  // its greedy choice first and falls back to the next one, as the
  // backtracking engine does, and hands over to the following step.

  datatype PhoneStep =
    | CountryGroup   // (?:\+?\d{1,3}[\s-]?)?  tried before it is skipped
    | CountryDigits  // \d{1,3}                three digits, then two, then one
    | CountrySep     // [\s-]?
    | AreaOpen       // \(?
    | AreaDigits     // \d{3}
    | AreaClose      // \)?
    | AreaSep        // [\s-]?
    | Exchange       // \d{3}
    | ExchangeSep    // [\s-]?
    | Line           // \d{4}\b

  function StepsLeft(step: PhoneStep): nat
  {
    match step
    case CountryGroup => 9
    case CountryDigits => 8
    case CountrySep => 7
    case AreaOpen => 6
    case AreaDigits => 5
    case AreaClose => 4
    case AreaSep => 3
    case Exchange => 2
    case ExchangeSep => 1
    case Line => 0
  }

  predicate IsSeparator(c: char)
  {
    IsWhiteSpace(c) || c == '-'
  }

  /** Every phone path ends with four digits. */
  predicate EndsInFourDigits(s: string, p: nat, r: Option<nat>)
  {
    r.Some? ==> p + 4 <= r.value <= |s| && DigitsAt(s, r.value - 4, 4)
  }

  /** Where the rest of the pattern, from `step` on, matches from p. */
  function PhoneFrom(s: string, p: nat, step: PhoneStep): (r: Option<nat>)
    requires p <= |s|
    ensures EndsInFourDigits(s, p, r)
    decreases StepsLeft(step)
  {
    match step
    case CountryGroup =>
      var withGroup := OrElse(
        if p < |s| && s[p] == '+' then PhoneFrom(s, p + 1, CountryDigits) else None,
        PhoneFrom(s, p, CountryDigits));
      OrElse(withGroup, PhoneFrom(s, p, AreaOpen))
    case CountryDigits =>
      OrElse(if DigitsAt(s, p, 3) then PhoneFrom(s, p + 3, CountrySep) else None,
        OrElse(if DigitsAt(s, p, 2) then PhoneFrom(s, p + 2, CountrySep) else None,
          if DigitsAt(s, p, 1) then PhoneFrom(s, p + 1, CountrySep) else None))
    case CountrySep =>
      OrElse(if p < |s| && IsSeparator(s[p]) then PhoneFrom(s, p + 1, AreaOpen) else None,
        PhoneFrom(s, p, AreaOpen))
    case AreaOpen =>
      OrElse(if p < |s| && s[p] == '(' then PhoneFrom(s, p + 1, AreaDigits) else None,
        PhoneFrom(s, p, AreaDigits))
    case AreaDigits =>
      if DigitsAt(s, p, 3) then PhoneFrom(s, p + 3, AreaClose) else None
    case AreaClose =>
      OrElse(if p < |s| && s[p] == ')' then PhoneFrom(s, p + 1, AreaSep) else None,
        PhoneFrom(s, p, AreaSep))
    case AreaSep =>
      OrElse(if p < |s| && IsSeparator(s[p]) then PhoneFrom(s, p + 1, Exchange) else None,
        PhoneFrom(s, p, Exchange))
    case Exchange =>
      if DigitsAt(s, p, 3) then PhoneFrom(s, p + 3, ExchangeSep) else None
    case ExchangeSep =>
      OrElse(if p < |s| && IsSeparator(s[p]) then PhoneFrom(s, p + 1, Line) else None,
        PhoneFrom(s, p, Line))
    case Line =>
      if DigitsAt(s, p, 4) && WordBoundary(s, p + 4) then Some(p + 4) else None
  }

  function PhoneAt(s: string, i: nat): (r: Option<nat>)
    requires i <= |s|
    ensures EndsInFourDigits(s, i, r)
  {
    if WordBoundary(s, i) then PhoneFrom(s, i, CountryGroup) else None
  }

  // ---------------------------------------------------------------------
  // Matching and replacing

  /** Where the pattern's match starting at i ends, if it has one. */
  function MatchAt(p: Pattern, s: string, i: nat): (r: Option<nat>)
    requires i <= |s|
    ensures r.Some? ==> i < r.value <= |s|
  {
    match p
    case EmailPattern => EmailAt(s, i)
    case PhonePattern => PhoneAt(s, i)
    case TcknPattern => TcknAt(s, i)
    case Ipv4Pattern => Ipv4At(s, i)
  }

  /** Regex.IsMatch: a match starts somewhere in the input. */
  predicate Contains(p: Pattern, s: string)
  {
    exists i | 0 <= i < |s| :: MatchAt(p, s, i).Some?
  }

  /**
   * Regex.Replace with an evaluator, from position i on: a match found at i
   * is replaced and the scan resumes at its end; otherwise one character is
   * copied.
   */
  function ReplaceFrom(p: Pattern, s: string, i: nat, f: string -> string): string
    requires i <= |s|
    decreases |s| - i
  {
    if i == |s| then ""
    else match MatchAt(p, s, i)
      case Some(e) => f(s[i..e]) + ReplaceFrom(p, s, e, f)
      case None => [s[i]] + ReplaceFrom(p, s, i + 1, f)
  }

  /** Mask*InText: every match m replaced by masker(m). */
  function MaskInText(p: Pattern, s: string, masker: string -> string): string
  {
    ReplaceFrom(p, s, 0, masker)
  }

  /** The four replacements in their fixed order, each on the previous output. */
  function MaskAllInFreeText(s: string): string
  {
    var afterEmail := MaskInText(EmailPattern, s, PiiMasker.MaskEmail);
    var afterPhone := MaskInText(PhonePattern, afterEmail, PiiMasker.MaskPhone);
    var afterTckn := MaskInText(TcknPattern, afterPhone, PiiMasker.MaskTckn);
    MaskInText(Ipv4Pattern, afterTckn, PiiMasker.MaskIpv4)
  }

  // ---------------------------------------------------------------------
  // Replace-all: the text without matches, and the spans it replaces

  lemma {:induction false} ReplaceFromNoMatch(p: Pattern, s: string, i: nat, f: string -> string)
    requires i <= |s|
    requires forall k | i <= k < |s| :: MatchAt(p, s, k).None?
    ensures ReplaceFrom(p, s, i, f) == s[i..]
    decreases |s| - i
  {
    if i < |s| {
      ReplaceFromNoMatch(p, s, i + 1, f);
      assert s[i..] == [s[i]] + s[i + 1..];
    }
  }

  /** Text in which the pattern does not occur comes back unchanged, whatever the masker. */
  lemma MaskInTextWithoutMatch(p: Pattern, s: string, masker: string -> string)
    requires !Contains(p, s)
    ensures MaskInText(p, s, masker) == s
  {
    ReplaceFromNoMatch(p, s, 0, masker);
  }

  lemma ReplaceFromIdentity(p: Pattern, s: string, i: nat, f: string -> string)
    requires i <= |s|
    requires forall m :: f(m) == m
    ensures ReplaceFrom(p, s, i, f) == s[i..]
  {
    var spans := ReplaceFromSplices(p, s, i, f);
    SpliceIdentity(s, i, spans, f);
  }

  /** A masker that changes nothing makes the replace-all pass change nothing. */
  lemma MaskInTextIdentity(p: Pattern, s: string, masker: string -> string)
    requires forall m :: masker(m) == m
    ensures MaskInText(p, s, masker) == s
  {
    ReplaceFromIdentity(p, s, 0, masker);
  }

  /** The spans lie in order between i and n, and do not overlap. */
  predicate SpansWithin(i: nat, spans: seq<(nat, nat)>, n: nat)
    decreases |spans|
  {
    |spans| == 0 || (i <= spans[0].0 <= spans[0].1 <= n && SpansWithin(spans[0].1, spans[1..], n))
  }

  /**
   * The spans (start, end) of the leftmost non-overlapping matches from i
   * on: each one is the pattern's match at its start, they follow each other
   * in order, and no match starts in the text between them or after the last.
   */
  ghost predicate LeftmostSpans(p: Pattern, s: string, i: nat, spans: seq<(nat, nat)>)
    requires i <= |s|
    decreases |spans|
  {
    if |spans| == 0 then
      forall k | i <= k < |s| :: MatchAt(p, s, k).None?
    else
      var (a, b) := spans[0];
      && i <= a < b <= |s|
      && MatchAt(p, s, a) == Some(b)
      && (forall k | i <= k < a :: MatchAt(p, s, k).None?)
      && LeftmostSpans(p, s, b, spans[1..])
  }

  lemma {:induction false} LeftmostSpansWithin(p: Pattern, s: string, i: nat, spans: seq<(nat, nat)>)
    requires i <= |s| && LeftmostSpans(p, s, i, spans)
    ensures SpansWithin(i, spans, |s|)
    decreases |spans|
  {
    if |spans| > 0 {
      LeftmostSpansWithin(p, s, spans[0].1, spans[1..]);
    }
  }

  /** The text from i with each span replaced by f of its text and the gaps copied. */
  function Splice(s: string, i: nat, spans: seq<(nat, nat)>, f: string -> string): string
    requires i <= |s| && SpansWithin(i, spans, |s|)
    decreases |spans|
  {
    if |spans| == 0 then s[i..]
    else s[i..spans[0].0] + f(s[spans[0].0..spans[0].1]) + Splice(s, spans[0].1, spans[1..], f)
  }

  /**
   * Replace-all is exactly: find the leftmost non-overlapping matches,
   * replace each by the masker's output, keep the text in between.
   */
  lemma {:induction false} ReplaceFromSplices(p: Pattern, s: string, i: nat, f: string -> string)
    returns (spans: seq<(nat, nat)>)
    requires i <= |s|
    ensures LeftmostSpans(p, s, i, spans) && SpansWithin(i, spans, |s|)
    ensures ReplaceFrom(p, s, i, f) == Splice(s, i, spans, f)
    decreases |s| - i
  {
    if i == |s| {
      spans := [];
    } else {
      var r := MatchAt(p, s, i);
      if r.Some? {
        var e := r.value;
        var rest := ReplaceFromSplices(p, s, e, f);
        spans := [(i, e)] + rest;
        assert ReplaceFrom(p, s, i, f) == f(s[i..e]) + ReplaceFrom(p, s, e, f);
        SpliceTake(p, s, i, e, rest, f);
      } else {
        var rest := ReplaceFromSplices(p, s, i + 1, f);
        spans := rest;
        assert ReplaceFrom(p, s, i, f) == [s[i]] + ReplaceFrom(p, s, i + 1, f);
        LeftmostSpansSkip(p, s, i, rest);
        SpliceSkip(s, i, rest, f);
      }
    }
  }

  lemma SpliceTake(p: Pattern, s: string, i: nat, e: nat, spans: seq<(nat, nat)>, f: string -> string)
    requires i < e <= |s| && MatchAt(p, s, i) == Some(e)
    requires LeftmostSpans(p, s, e, spans) && SpansWithin(e, spans, |s|)
    ensures LeftmostSpans(p, s, i, [(i, e)] + spans)
    ensures SpansWithin(i, [(i, e)] + spans, |s|)
    ensures Splice(s, i, [(i, e)] + spans, f) == f(s[i..e]) + Splice(s, e, spans, f)
  {
    var all := [(i, e)] + spans;
    assert all[1..] == spans;
    SpliceCons(s, i, e, spans, f);
  }

  lemma SpliceCons(s: string, i: nat, e: nat, spans: seq<(nat, nat)>, f: string -> string)
    requires i < e <= |s| && SpansWithin(e, spans, |s|)
    ensures SpansWithin(i, [(i, e)] + spans, |s|)
    ensures Splice(s, i, [(i, e)] + spans, f) == f(s[i..e]) + Splice(s, e, spans, f)
  {
    var all := [(i, e)] + spans;
    assert all[0] == (i, e) && all[1..] == spans;
    assert SpansWithin(i, all, |s|);
    assert Splice(s, i, all, f) == s[i..i] + f(s[i..e]) + Splice(s, e, spans, f);
    assert s[i..i] == "";
  }

  /** With a masker that changes nothing, the spliced text is the text. */
  lemma {:induction false} SpliceIdentity(s: string, i: nat, spans: seq<(nat, nat)>, f: string -> string)
    requires i <= |s| && SpansWithin(i, spans, |s|)
    requires forall m :: f(m) == m
    ensures Splice(s, i, spans, f) == s[i..]
    decreases |spans|
  {
    if |spans| > 0 {
      var (a, b) := spans[0];
      SpliceIdentity(s, b, spans[1..], f);
      assert s[i..] == s[i..a] + s[a..b] + s[b..];
    }
  }

  lemma LeftmostSpansSkip(p: Pattern, s: string, i: nat, spans: seq<(nat, nat)>)
    requires i < |s| && MatchAt(p, s, i).None?
    requires LeftmostSpans(p, s, i + 1, spans)
    ensures LeftmostSpans(p, s, i, spans)
  {
  }

  lemma SpliceSkip(s: string, i: nat, spans: seq<(nat, nat)>, f: string -> string)
    requires i < |s| && SpansWithin(i + 1, spans, |s|)
    ensures SpansWithin(i, spans, |s|)
    ensures Splice(s, i, spans, f) == [s[i]] + Splice(s, i + 1, spans, f)
  {
    if |spans| == 0 {
      assert s[i..] == [s[i]] + s[i + 1..];
    } else {
      var (a, b) := spans[0];
      var rest := Splice(s, b, spans[1..], f);
      assert SpansWithin(b, spans[1..], |s|);
      assert Splice(s, i + 1, spans, f) == s[i + 1..a] + f(s[a..b]) + rest;
      assert Splice(s, i, spans, f) == s[i..a] + f(s[a..b]) + rest;
      assert s[i..a] == [s[i]] + s[i + 1..a];
    }
  }

  /** The replace-all pass on the whole text. */
  lemma MaskInTextSplices(p: Pattern, s: string, masker: string -> string)
    returns (spans: seq<(nat, nat)>)
    ensures LeftmostSpans(p, s, 0, spans) && SpansWithin(0, spans, |s|)
    ensures MaskInText(p, s, masker) == Splice(s, 0, spans, masker)
  {
    spans := ReplaceFromSplices(p, s, 0, masker);
  }

  /** Text with none of the four patterns passes through the free-text masker unchanged. */
  lemma MaskAllInFreeTextClean(s: string)
    requires !Contains(EmailPattern, s) && !Contains(PhonePattern, s)
    requires !Contains(TcknPattern, s) && !Contains(Ipv4Pattern, s)
    ensures MaskAllInFreeText(s) == s
  {
    MaskInTextWithoutMatch(EmailPattern, s, PiiMasker.MaskEmail);
    MaskInTextWithoutMatch(PhonePattern, s, PiiMasker.MaskPhone);
    MaskInTextWithoutMatch(TcknPattern, s, PiiMasker.MaskTckn);
    MaskInTextWithoutMatch(Ipv4Pattern, s, PiiMasker.MaskIpv4);
  }

  // ---------------------------------------------------------------------
  // What each pattern accepts

  /**
   * A national-id match is a maximal run of exactly eleven digits, with no
   * letter or underscore on either side; so runs of ten or twelve digits
   * never match.
   */
  lemma TcknMatchIsElevenDigitRun(s: string, i: nat)
    requires i <= |s|
    ensures TcknAt(s, i).Some? <==>
      && DigitsAt(s, i, 11)
      && !WordAt(s, i - 1)
      && !WordAt(s, i + 11)
  {
  }

  lemma TcknRunLength(s: string, i: nat, e: nat)
    requires i <= e <= |s| && e - i != 11
    requires forall k | i <= k < e :: IsDigit(s[k])
    requires !WordAt(s, i - 1) && !WordAt(s, e)
    ensures forall k | i <= k < e :: TcknAt(s, k).None?
  {
    forall k | i <= k < e
      ensures TcknAt(s, k).None?
    {
      if k > i {
        assert WordAt(s, k - 1) && WordAt(s, k);
      } else if e < i + 11 {
        assert e == |s| || !IsDigit(s[e]);
      } else {
        assert WordAt(s, i + 11);
      }
    }
  }

  /** Every part is an octet. */
  predicate AllOctets(parts: seq<string>)
    decreases |parts|
  {
    |parts| == 0 || (IsOctet(parts[0]) && AllOctets(parts[1..]))
  }

  lemma {:induction false} AllOctetsEach(parts: seq<string>)
    requires AllOctets(parts)
    ensures forall j | 0 <= j < |parts| :: IsOctet(parts[j])
    decreases |parts|
  {
    if |parts| > 0 {
      AllOctetsEach(parts[1..]);
      forall j | 1 <= j < |parts|
        ensures IsOctet(parts[j])
      {
        assert parts[j] == parts[1..][j - 1];
      }
    }
  }

  /** The text matched from p: octets joined by single dots. */
  lemma {:induction false} Ipv4OctetsParts(s: string, p: nat, dots: nat) returns (parts: seq<string>)
    requires p <= |s|
    requires Ipv4Octets(s, p, dots).Some?
    ensures |parts| == dots + 1 && AllOctets(parts)
    ensures s[p..Ipv4Octets(s, p, dots).value] == Join(parts, '.')
    decreases dots
  {
    var q := OctetEnd(s, p).value;
    var e := Ipv4Octets(s, p, dots).value;
    if dots == 0 {
      parts := [s[p..q]];
      assert e == q;
      assert parts[1..] == [];
    } else {
      Ipv4OctetsStep(s, p, dots);
      var rest := Ipv4OctetsParts(s, q + 1, dots - 1);
      parts := [s[p..q]] + rest;
      assert IsOctet(parts[0]) && parts[1..] == rest;
      JoinCons(s[p..q], rest);
      SliceAround(s, p, q, e);
    }
  }

  lemma JoinCons(first: string, rest: seq<string>)
    requires |rest| >= 1
    ensures Join([first] + rest, '.') == first + ['.'] + Join(rest, '.')
  {
    assert ([first] + rest)[1..] == rest;
  }

  /** After a non-final octet comes a dot, and the match goes on after it. */
  lemma Ipv4OctetsStep(s: string, p: nat, dots: nat)
    requires p <= |s| && dots > 0
    requires Ipv4Octets(s, p, dots).Some?
    ensures OctetEnd(s, p).Some?
    ensures var q := OctetEnd(s, p).value;
      && q < |s| && s[q] == '.'
      && Ipv4Octets(s, p, dots) == Ipv4Octets(s, q + 1, dots - 1)
  {
  }

  lemma OctetHasNoDot(t: string)
    requires IsOctet(t)
    ensures '.' !in t
  {
    OctetDigits(t);
    assert forall k | 0 <= k < |t| :: IsDigit(t[k]);
  }

  lemma SliceAround(s: string, p: nat, q: nat, e: nat)
    requires p <= q < e <= |s| && s[q] == '.'
    ensures s[p..e] == s[p..q] + ['.'] + s[q + 1..e]
  {
  }

  /** Four octets joined by dots split back into them, and the masker keeps the outer two. */
  lemma DottedQuadMasked(parts: seq<string>)
    requires |parts| == 4 && AllOctets(parts)
    ensures Split(Join(parts, '.'), '.') == parts
    ensures PiiMasker.MaskIpv4(Join(parts, '.')) == parts[0] + ".***.***." + parts[3]
  {
    AllOctetsEach(parts);
    forall j | 0 <= j < |parts|
      ensures '.' !in parts[j]
    {
      OctetHasNoDot(parts[j]);
    }
    SplitJoin(parts, '.');
  }

  /**
   * An IPv4 match is four octets joined by dots, which is how the masker
   * splits it; the masker keeps its first and last octet.
   */
  lemma Ipv4MatchIsDottedQuad(s: string, i: nat)
    requires i <= |s| && Ipv4At(s, i).Some?
    ensures var m := s[i..Ipv4At(s, i).value];
      var parts := Split(m, '.');
      && |parts| == 4
      && AllOctets(parts)
      && Join(parts, '.') == m
      && PiiMasker.MaskIpv4(m) == parts[0] + ".***.***." + parts[3]
  {
    var parts := Ipv4OctetsParts(s, i, 3);
    DottedQuadMasked(parts);
  }

  /** The top-level label found by EmailLabel: a dot, then two or more letters, then \b. */
  lemma {:induction false} EmailLabelShape(s: string, a: nat, d: int) returns (dot: nat)
    requires a < |s| && d < |s|
    requires EmailLabel(s, a, d).Some?
    ensures var f := EmailLabel(s, a, d).value;
      && a + 2 <= dot <= d
      && s[dot] == '.'
      && f >= dot + 3
      && (forall k | dot < k < f :: IsLetter(s[k]))
    decreases d
  {
    if s[d] == '.' && RunEnd(s, d + 1, LetterClass) >= d + 3 && WordBoundary(s, RunEnd(s, d + 1, LetterClass)) {
      dot := d;
    } else {
      dot := EmailLabelShape(s, a, d - 1);
    }
  }

  /**
   * An e-mail match: a non-empty local part without '@', then '@', then a
   * domain whose last label follows a dot and has at least two letters. The
   * first '@' of the match is the one after the local part, so the value
   * masker keeps the domain.
   */
  lemma EmailMatchShape(s: string, i: nat)
    requires i <= |s| && EmailAt(s, i).Some?
    ensures var e := EmailAt(s, i).value;
      var m := s[i..e];
      exists at, dot | 1 <= at < dot < |m| ::
        && IndexOf(m, '@') == Some(at)
        && m[dot] == '.'
        && |m| >= dot + 3
        && (forall k | dot < k < |m| :: IsLetter(m[k]))
  {
    var a := RunEnd(s, i, LocalClass);
    var dEnd := RunEnd(s, a + 1, DomainClass);
    EmailAtFound(s, i);
    var dot := EmailLabelShape(s, a, dEnd - 1);
    EmailMatchParts(s, i, a, dot, EmailAt(s, i).value);
  }

  /** The shape of an e-mail match, from the positions of its '@' and last dot. */
  lemma EmailMatchParts(s: string, i: nat, a: nat, dot: nat, e: nat)
    requires i < a < dot && dot + 3 <= e <= |s|
    requires forall k | i <= k < a :: InClass(s[k], LocalClass)
    requires s[a] == '@' && s[dot] == '.'
    requires forall k | dot < k < e :: IsLetter(s[k])
    ensures var m := s[i..e];
      exists at, dot | 1 <= at < dot < |m| ::
        && IndexOf(m, '@') == Some(at)
        && m[dot] == '.'
        && |m| >= dot + 3
        && (forall k | dot < k < |m| :: IsLetter(m[k]))
  {
    var m := s[i..e];
    assert m[a - i] == '@';
    assert '@' !in m[..a - i] by {
      forall k | 0 <= k < a - i ensures m[k] != '@' {
        assert InClass(s[i + k], LocalClass);
      }
    }
    IndexOfAt(m, '@', a - i);
    assert m[dot - i] == '.';
    assert forall k | dot - i < k < |m| :: IsLetter(m[k]) by {
      forall k | dot - i < k < |m| ensures IsLetter(m[k]) {
        assert m[k] == s[i + k];
      }
    }
  }

  /** A phone match ends in four digits, which are what the value masker keeps. */
  lemma PhoneMatchMasked(s: string, i: nat)
    requires i <= |s| && PhoneAt(s, i).Some?
    ensures var e := PhoneAt(s, i).value;
      PiiMasker.MaskPhone(s[i..e]) == "***-***-" + s[e - 4..e]
  {
    var e := PhoneAt(s, i).value;
    var m := s[i..e];
    var last := s[e - 4..e];
    assert m == m[..|m| - 4] + last;
    DigitsAppend(m[..|m| - 4], last);
    assert AllDigits(last);
    DigitsOfDigits(last);
    var digits := Digits(m);
    assert digits[|digits| - 4..] == last;
  }

  // ---------------------------------------------------------------------
  // Accepted dotted quads

  /** A run of class members from p that stops at e is the run RunEnd finds. */
  lemma {:induction false} RunEndAt(s: string, p: nat, e: nat, cls: CharClass)
    requires p <= e <= |s|
    requires forall k | p <= k < e :: InClass(s[k], cls)
    requires e == |s| || !InClass(s[e], cls)
    ensures RunEnd(s, p, cls) == e
    decreases e - p
  {
    if p < e {
      RunEndAt(s, p + 1, e, cls);
    }
  }

  /** t is written in s from p on, one character at a time. */
  predicate TextAt(s: string, p: nat, t: string)
    decreases |t|
  {
    p + |t| <= |s| && (|t| == 0 || (s[p] == t[0] && TextAt(s, p + 1, t[1..])))
  }

  /** TextAt character by character. */
  lemma {:induction false} TextAtChars(s: string, p: nat, t: string)
    ensures TextAt(s, p, t) <==> p + |t| <= |s| && forall k | 0 <= k < |t| :: s[p + k] == t[k]
    decreases |t|
  {
    if |t| > 0 {
      TextAtChars(s, p + 1, t[1..]);
      if p + |t| <= |s| && forall k | 0 <= k < |t| :: s[p + k] == t[k] {
        forall k | 0 <= k < |t| - 1
          ensures s[p + 1 + k] == t[1..][k]
        {
          assert s[p + (k + 1)] == t[k + 1];
        }
      }
      if TextAt(s, p, t) {
        forall k | 0 <= k < |t|
          ensures s[p + k] == t[k]
        {
          if k > 0 {
            assert s[p + 1 + (k - 1)] == t[1..][k - 1];
          }
        }
      }
    }
  }

  lemma TextAtSlice(s: string, p: nat, t: string)
    requires p + |t| <= |s| && s[p..p + |t|] == t
    ensures TextAt(s, p, t)
  {
    forall k | 0 <= k < |t|
      ensures s[p + k] == t[k]
    {
      assert s[p..p + |t|][k] == s[p + k];
    }
    TextAtChars(s, p, t);
  }

  /** Where first, a dot and rest are written, so are first and rest, with the dot between. */
  lemma TextAtDotted(s: string, p: nat, first: string, rest: string)
    requires TextAt(s, p, first + ['.'] + rest)
    ensures TextAt(s, p, first) && s[p + |first|] == '.'
    ensures TextAt(s, p + |first| + 1, rest)
  {
    var joined := first + ['.'] + rest;
    TextAtChars(s, p, joined);
    TextAtChars(s, p, first);
    TextAtChars(s, p + |first| + 1, rest);
    forall k | 0 <= k < |first|
      ensures s[p + k] == first[k]
    {
      assert joined[k] == first[k];
    }
    assert joined[|first|] == '.';
    forall k | 0 <= k < |rest|
      ensures s[p + |first| + 1 + k] == rest[k]
    {
      assert joined[|first| + 1 + k] == rest[k];
    }
  }

  /** An octet written at p and followed by a non-digit is the octet OctetEnd finds. */
  lemma OctetEndAt(s: string, p: nat, t: string)
    requires TextAt(s, p, t) && IsOctet(t)
    requires p + |t| == |s| || !IsDigit(s[p + |t|])
    ensures OctetEnd(s, p) == Some(p + |t|)
  {
    OctetDigits(t);
    TextAtChars(s, p, t);
    forall k | p <= k < p + |t|
      ensures IsDigit(s[k])
    {
      assert s[p + (k - p)] == t[k - p];
    }
    RunEndAt(s, p, p + |t|, DigitClass);
    assert s[p..p + |t|] == t;
  }

  /** parts are written in s from p on, a dot between each two. */
  predicate DottedAt(s: string, p: nat, parts: seq<string>)
    decreases |parts|
  {
    && |parts| >= 1
    && TextAt(s, p, parts[0])
    && (|parts| == 1 ||
        (p + |parts[0]| < |s| && s[p + |parts[0]|] == '.' && DottedAt(s, p + |parts[0]| + 1, parts[1..])))
  }

  /** Where the dotted parts written from p end. */
  function DottedEnd(p: nat, parts: seq<string>): (e: nat)
    requires |parts| >= 1
    ensures e >= p + |parts[0]|
    decreases |parts|
  {
    if |parts| == 1 then p + |parts[0]| else DottedEnd(p + |parts[0]| + 1, parts[1..])
  }

  /** The text Join writes, read back part by part. */
  lemma {:induction false} JoinedAt(s: string, p: nat, parts: seq<string>)
    requires |parts| >= 1 && TextAt(s, p, Join(parts, '.'))
    ensures DottedAt(s, p, parts) && DottedEnd(p, parts) == p + |Join(parts, '.')|
    decreases |parts|
  {
    if |parts| > 1 {
      var rest := Join(parts[1..], '.');
      assert Join(parts, '.') == parts[0] + ['.'] + rest;
      TextAtDotted(s, p, parts[0], rest);
      JoinedAt(s, p + |parts[0]| + 1, parts[1..]);
    }
  }

  lemma {:induction false} Ipv4OctetsAccept(s: string, p: nat, parts: seq<string>, dots: nat)
    requires |parts| == dots + 1 && AllOctets(parts)
    requires DottedAt(s, p, parts)
    requires !WordAt(s, DottedEnd(p, parts))
    ensures Ipv4Octets(s, p, dots) == Some(DottedEnd(p, parts))
    decreases dots
  {
    var first := parts[0];
    if dots == 0 {
      Ipv4LastOctetAccept(s, p, first);
    } else {
      Ipv4OctetAcceptStep(s, p, first, dots);
      Ipv4OctetsAccept(s, p + |first| + 1, parts[1..], dots - 1);
    }
  }

  /** The last octet, followed by a non-word character, ends the match. */
  lemma Ipv4LastOctetAccept(s: string, p: nat, t: string)
    requires IsOctet(t) && TextAt(s, p, t)
    requires !WordAt(s, p + |t|)
    ensures Ipv4Octets(s, p, 0) == Some(p + |t|)
  {
    var q := p + |t|;
    OctetEndAt(s, p, t);
    OctetDigits(t);
    assert WordAt(s, q - 1) by {
      TextAtChars(s, p, t);
      assert s[p + (|t| - 1)] == t[|t| - 1];
    }
  }

  /** An octet followed by a dot hands over to the next octet. */
  lemma Ipv4OctetAcceptStep(s: string, p: nat, t: string, dots: nat)
    requires IsOctet(t) && TextAt(s, p, t) && p + |t| < |s| && s[p + |t|] == '.'
    requires dots > 0
    ensures Ipv4Octets(s, p, dots) == Ipv4Octets(s, p + |t| + 1, dots - 1)
  {
    OctetEndAt(s, p, t);
  }

  /**
   * Four octets in 0..255 joined by dots, with no letter, digit or
   * underscore on either side, are an IPv4 match.
   */
  lemma DottedQuadIsIpv4Match(s: string, i: nat, parts: seq<string>)
    requires |parts| == 4 && AllOctets(parts)
    requires i + |Join(parts, '.')| <= |s| && s[i..i + |Join(parts, '.')|] == Join(parts, '.')
    requires !WordAt(s, i - 1) && !WordAt(s, i + |Join(parts, '.')|)
    ensures Ipv4At(s, i) == Some(i + |Join(parts, '.')|)
  {
    var joined := Join(parts, '.');
    TextAtSlice(s, i, joined);
    JoinedAt(s, i, parts);
    Ipv4OctetsAccept(s, i, parts, 3);
    OctetDigits(parts[0]);
    assert IsDigit(s[i]) by {
      assert joined[0] == parts[0][0];
      assert s[i + 0] == joined[0];
    }
  }

  // ---------------------------------------------------------------------
  // The e-mail pattern ignores letter case

  /** t is s with the case of some letters changed. */
  predicate SameClasses(s: string, t: string)
  {
    && |s| == |t|
    && forall k | 0 <= k < |s| ::
      && IsLetter(s[k]) == IsLetter(t[k])
      && (!IsLetter(s[k]) ==> s[k] == t[k])
  }

  lemma LowerSameClasses(s: string)
    ensures SameClasses(s, Lower(s))
  {
  }

  lemma {:induction false} RunEndSame(s: string, t: string, p: nat, cls: CharClass)
    requires |s| == |t| && p <= |s|
    requires forall k | p <= k < |s| :: InClass(s[k], cls) == InClass(t[k], cls)
    ensures RunEnd(s, p, cls) == RunEnd(t, p, cls)
    decreases |s| - p
  {
    if p < |s| {
      RunEndSame(s, t, p + 1, cls);
    }
  }

  lemma {:induction false} EmailLabelSame(s: string, t: string, a: nat, d: int)
    requires SameClasses(s, t) && a < |s| && d < |s|
    ensures EmailLabel(s, a, d) == EmailLabel(t, a, d)
    decreases d
  {
    if d >= a + 2 {
      LabelStepSame(s, t, d);
      EmailLabelSame(s, t, a, d - 1);
    }
  }

  /** One step of the label search sees the same dot, letter run and boundary in both texts. */
  lemma LabelStepSame(s: string, t: string, d: nat)
    requires SameClasses(s, t) && d < |s|
    ensures s[d] == '.' <==> t[d] == '.'
    ensures RunEnd(s, d + 1, LetterClass) == RunEnd(t, d + 1, LetterClass)
    ensures WordBoundary(s, RunEnd(s, d + 1, LetterClass)) == WordBoundary(t, RunEnd(s, d + 1, LetterClass))
  {
    SameClassesAgree(s, t);
    RunEndSame(s, t, d + 1, LetterClass);
  }

  /** Changing the case of letters keeps every character class the e-mail pattern uses. */
  lemma SameClassesAgree(s: string, t: string)
    requires SameClasses(s, t)
    ensures forall j :: WordAt(s, j) == WordAt(t, j)
    ensures forall k | 0 <= k < |s| :: IsLocalChar(s[k]) == IsLocalChar(t[k])
    ensures forall k | 0 <= k < |s| :: IsDomainChar(s[k]) == IsDomainChar(t[k])
    ensures forall k | 0 <= k < |s| :: IsLetter(s[k]) == IsLetter(t[k])
    ensures forall k | 0 <= k < |s| :: s[k] == '@' <==> t[k] == '@'
  {
  }

  /** Without a word boundary, a local part and an '@' after it, EmailAt finds nothing. */
  lemma EmailAtNone(s: string, i: nat, a: nat)
    requires i <= |s| && a == RunEnd(s, i, LocalClass)
    requires !WordBoundary(s, i) || a == i || a == |s| || s[a] != '@'
    ensures EmailAt(s, i) == None
  {
  }

  /** A match has a local part and an '@', and is found by the label search. */
  lemma EmailAtFound(s: string, i: nat)
    requires i <= |s| && EmailAt(s, i).Some?
    ensures var a := RunEnd(s, i, LocalClass);
      && WordBoundary(s, i) && i < a < |s| && s[a] == '@'
      && EmailAt(s, i) == EmailLabel(s, a, RunEnd(s, a + 1, DomainClass) - 1)
  {
  }

  /** With them, EmailAt is the label search over the domain run. */
  lemma EmailAtLabel(s: string, i: nat, a: nat, d: nat)
    requires i <= |s| && a == RunEnd(s, i, LocalClass)
    requires WordBoundary(s, i) && a != i && a < |s| && s[a] == '@'
    requires d == RunEnd(s, a + 1, DomainClass)
    ensures EmailAt(s, i) == EmailLabel(s, a, d - 1)
  {
  }

  /** Two texts that agree on every step EmailAt takes at i agree on its result. */
  lemma EmailAtAgree(s: string, t: string, i: nat, a: nat, d: nat)
    requires i <= |s| == |t|
    requires WordBoundary(s, i) == WordBoundary(t, i)
    requires a == RunEnd(s, i, LocalClass) == RunEnd(t, i, LocalClass)
    requires a < |s| ==> (s[a] == '@' <==> t[a] == '@')
    requires a < |s| && s[a] == '@' ==>
      && d == RunEnd(s, a + 1, DomainClass) == RunEnd(t, a + 1, DomainClass)
      && EmailLabel(s, a, d - 1) == EmailLabel(t, a, d - 1)
    ensures EmailAt(s, i) == EmailAt(t, i)
  {
    if !WordBoundary(s, i) || a == i || a == |s| || s[a] != '@' {
      EmailAtNone(s, i, a);
      EmailAtNone(t, i, a);
    } else {
      EmailAtLabel(s, i, a, d);
      EmailAtLabel(t, i, a, d);
    }
  }

  /** Changing the case of letters changes no e-mail match. */
  lemma EmailAtSame(s: string, t: string, i: nat)
    requires SameClasses(s, t) && i <= |s|
    ensures EmailAt(s, i) == EmailAt(t, i)
  {
    var a := RunEnd(s, i, LocalClass);
    assert WordBoundary(s, i) == WordBoundary(t, i) && (a < |s| ==> (s[a] == '@' <==> t[a] == '@')) by {
      SameClassesAgree(s, t);
    }
    assert RunEnd(t, i, LocalClass) == a by {
      SameClassesAgree(s, t);
      RunEndSame(s, t, i, LocalClass);
    }
    if a < |s| && s[a] == '@' {
      var d := RunEnd(s, a + 1, DomainClass);
      assert RunEnd(t, a + 1, DomainClass) == d by {
        SameClassesAgree(s, t);
        RunEndSame(s, t, a + 1, DomainClass);
      }
      EmailLabelSame(s, t, a, d - 1);
      EmailAtAgree(s, t, i, a, d);
    } else {
      EmailAtAgree(s, t, i, a, 0);
    }
  }

  /** The (?i) flag: the e-mail pattern matches lower-cased text exactly where it matches the text. */
  lemma EmailCaseInsensitive(s: string, i: nat)
    requires i <= |s|
    ensures EmailAt(Lower(s), i) == EmailAt(s, i)
  {
    LowerSameClasses(s);
    EmailAtSame(s, Lower(s), i);
  }

  // ---------------------------------------------------------------------
  // Free text that is one address

  /** Text without an '@' holds no e-mail match. */
  lemma NoEmailWithoutAt(s: string)
    requires '@' !in s
    ensures !Contains(EmailPattern, s)
  {
    forall i | 0 <= i < |s|
      ensures EmailAt(s, i).None?
    {
      if EmailAt(s, i).Some? {
        EmailAtFound(s, i);
      }
    }
  }

  /** No two digits stand next to each other. */
  predicate NoDigitPair(s: string)
  {
    forall k | 0 <= k < |s| - 1 :: !(IsDigit(s[k]) && IsDigit(s[k + 1]))
  }

  /** Every phone match ends in four digits, so it needs two digits in a row. */
  lemma PhoneMatchNeedsDigitPair(s: string, i: nat)
    requires i <= |s|
    ensures PhoneAt(s, i).Some? ==> !NoDigitPair(s)
  {
    var r := PhoneAt(s, i);
    if r.Some? {
      assert IsDigit(s[r.value - 4]) && IsDigit(s[r.value - 4 + 1]);
    }
  }

  lemma NoPhoneWithoutDigitPair(s: string)
    requires NoDigitPair(s)
    ensures !Contains(PhonePattern, s)
  {
    forall i | 0 <= i < |s|
      ensures PhoneAt(s, i).None?
    {
      PhoneMatchNeedsDigitPair(s, i);
    }
  }

  /** A text the pattern matches as a whole is replaced as a whole. */
  lemma ReplaceWholeMatch(p: Pattern, s: string, f: string -> string)
    requires MatchAt(p, s, 0) == Some(|s|)
    ensures MaskInText(p, s, f) == f(s)
  {
    assert s[0..|s|] == s;
    assert ReplaceFrom(p, s, |s|, f) == "";
  }

  /** Short text without '@' and without two adjacent digits meets only the IPv4 stage. */
  lemma OnlyIpv4Stage(s: string)
    requires '@' !in s && NoDigitPair(s) && |s| < 11
    ensures MaskAllInFreeText(s) == MaskInText(Ipv4Pattern, s, PiiMasker.MaskIpv4)
  {
    NoEmailWithoutAt(s);
    MaskInTextWithoutMatch(EmailPattern, s, PiiMasker.MaskEmail);
    NoPhoneWithoutDigitPair(s);
    MaskInTextWithoutMatch(PhonePattern, s, PiiMasker.MaskPhone);
    MaskInTextWithoutMatch(TcknPattern, s, PiiMasker.MaskTckn);
  }

  /** A text that is exactly a dotted quad comes out of the IPv4 stage with its middle octets hidden. */
  lemma QuadTextMasked(s: string, parts: seq<string>)
    requires |parts| == 4 && AllOctets(parts) && s == Join(parts, '.')
    ensures MaskInText(Ipv4Pattern, s, PiiMasker.MaskIpv4) == parts[0] + ".***.***." + parts[3]
  {
    DottedQuadIsIpv4Match(s, 0, parts);
    ReplaceWholeMatch(Ipv4Pattern, s, PiiMasker.MaskIpv4);
    DottedQuadMasked(parts);
  }

  /** Four single digits make a dotted quad. */
  lemma SingleDigitQuad(a: char, b: char, c: char, d: char)
    requires IsDigit(a) && IsDigit(b) && IsDigit(c) && IsDigit(d)
    ensures Join([[a], [b], [c], [d]], '.') == [a, '.', b, '.', c, '.', d]
    ensures AllOctets([[a], [b], [c], [d]])
  {
    assert [[a], [b], [c], [d]][1..] == [[b], [c], [d]];
    assert [[b], [c], [d]][1..] == [[c], [d]];
    assert [[c], [d]][1..] == [[d]];
    assert [[d]][1..] == [];
    assert IsOctet([a]) && IsOctet([b]) && IsOctet([c]) && IsOctet([d]);
    assert AllOctets([[d]]);
    assert AllOctets([[c], [d]]);
    assert AllOctets([[b], [c], [d]]);
    assert Join([[c], [d]], '.') == [c, '.', d];
    assert Join([[b], [c], [d]], '.') == [b, '.', c, '.', d];
  }

  /** Free text such as "1.2.3.4" is masked to "1.***.***.4". */
  lemma SingleDigitQuadMasked(a: char, b: char, c: char, d: char)
    requires IsDigit(a) && IsDigit(b) && IsDigit(c) && IsDigit(d)
    ensures MaskAllInFreeText([a, '.', b, '.', c, '.', d]) == [a] + ".***.***." + [d]
  {
    var s := [a, '.', b, '.', c, '.', d];
    SingleDigitQuad(a, b, c, d);
    assert NoDigitPair(s);
    OnlyIpv4Stage(s);
    QuadTextMasked(s, [[a], [b], [c], [d]]);
  }

  // ---------------------------------------------------------------------
  // Accepted addresses and numbers

  /**
   * The label search skips the letters after the last dot and stops at the
   * dot when two or more letters follow it up to a word boundary.
   */
  lemma {:induction false} EmailLabelFindsDot(s: string, a: nat, d: int, dot: nat, e: nat)
    requires a + 2 <= dot <= d < e <= |s| && dot + 3 <= e
    requires s[dot] == '.' && forall k | dot < k < e :: IsLetter(s[k])
    requires e == |s| || !IsLetter(s[e])
    requires WordBoundary(s, e)
    ensures EmailLabel(s, a, d) == Some(e)
    decreases d
  {
    RunEndAt(s, dot + 1, e, LetterClass);
    if d > dot {
      assert s[d] != '.' by {
        assert IsLetter(s[d]);
      }
      EmailLabelFindsDot(s, a, d - 1, dot, e);
    }
  }

  /**
   * The converse of EmailMatchShape: at a word boundary, a non-empty local
   * part, '@', a domain whose last dot is followed by two or more letters,
   * and then a character that ends both the domain and the word, is matched
   * from i to that character.
   */
  lemma EmailAccepted(s: string, i: nat, a: nat, dot: nat, e: nat)
    requires i < a && a + 2 <= dot && dot + 3 <= e <= |s|
    requires WordBoundary(s, i)
    requires forall k | i <= k < a :: IsLocalChar(s[k])
    requires s[a] == '@'
    requires forall k | a < k < dot :: IsDomainChar(s[k])
    requires s[dot] == '.' && forall k | dot < k < e :: IsLetter(s[k])
    requires e == |s| || (!IsDomainChar(s[e]) && !IsWordChar(s[e]))
    ensures EmailAt(s, i) == Some(e)
  {
    RunEndAt(s, i, a, LocalClass);
    RunEndAt(s, a + 1, e, DomainClass);
    EmailAtLabel(s, i, a, e);
    assert WordAt(s, e - 1);
    EmailLabelFindsDot(s, a, e - 1, dot, e);
  }

  /**
   * The international form: at a word boundary, a two-digit country code,
   * then a three-digit area code, a three-digit exchange and a four-digit
   * line, each group after a space or hyphen, and then a word boundary. The
   * match takes the first choice of every optional part.
   */
  lemma PhoneAccepted(s: string, i: nat)
    requires i + 15 <= |s|
    requires WordBoundary(s, i) && DigitsAt(s, i, 2) && IsSeparator(s[i + 2])
    requires DigitsAt(s, i + 3, 3) && IsSeparator(s[i + 6])
    requires DigitsAt(s, i + 7, 3) && IsSeparator(s[i + 10])
    requires DigitsAt(s, i + 11, 4) && WordBoundary(s, i + 15)
    ensures PhoneAt(s, i) == Some(i + 15)
  {
    assert s[i] != '+' && s[i + 3] != '(' && s[i + 6] != ')' by {
      assert IsDigit(s[i]) && IsDigit(s[i + 3]);
    }
    assert PhoneFrom(s, i + 11, Line) == Some(i + 15);
    assert PhoneFrom(s, i + 7, Exchange) == Some(i + 15);
    assert PhoneFrom(s, i + 3, AreaOpen) == Some(i + 15);
    assert !DigitsAt(s, i, 3) by {
      assert !IsDigit(s[i + 2]);
    }
    assert PhoneFrom(s, i, CountryDigits) == Some(i + 15);
  }

  /** "+90 555 123 4567" is matched from the country digits, after the '+', to its end. */
  lemma PhoneSample()
    ensures PhoneAt("+90 555 123 4567", 1) == Some(16)
  {
    var s := "+90 555 123 4567";
    assert WordBoundary(s, 1) by {
      assert !WordAt(s, 0) && WordAt(s, 1);
    }
    assert WordBoundary(s, 16);
    PhoneAccepted(s, 1);
  }

  /** "jo@example.com" is matched whole. */
  lemma EmailSample()
    ensures EmailAt("jo@example.com", 0) == Some(14)
  {
    var s := "jo@example.com";
    assert WordBoundary(s, 0);
    EmailAccepted(s, 0, 2, 10, 14);
  }
}
