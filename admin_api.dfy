/**
 * The arithmetic and the tally of the admin endpoints (the Guardrail's
 * Program.cs): paging of /admin/audit, the take and ranking rule of
 * /stats/top-endpoints and the per-type tally of /stats/pii-distribution.
 * The database queries themselves are inputs: a filtered, ordered sequence
 * of audit rows.
 */
module AdminQueries {
  import opened Text
  import opened IgnoreCaseSet
  import opened AuditRecord
  import opened JsonMasking

  // ---------------------------------------------------------------------
  // 32-bit integers

  const Int32Min: int := -0x8000_0000
  const Int32Max: int := 0x7FFF_FFFF

  predicate IsInt32(x: int)
  {
    Int32Min <= x <= Int32Max
  }

  /** C#'s unchecked int arithmetic: the result reduced into the 32-bit range. */
  function Wrap32(x: int): (r: int)
    ensures IsInt32(r)
    ensures IsInt32(x) ==> r == x
  {
    (x - Int32Min) % 0x1_0000_0000 + Int32Min
  }

  // ---------------------------------------------------------------------
  // /admin/audit

  const DefaultPage: int := 1
  const DefaultPageSize: int := 20
  const MaxPageSize: int := 200

  /**
   * The page defaults to 1 and is at least 1; the page size defaults to 20
   * and is kept within [1, 200]; values already in range are kept.
   */
  method ClampPaging(page: Option<int>, pageSize: Option<int>) returns (p: int, ps: int)
    requires page.Some? ==> IsInt32(page.value)
    requires pageSize.Some? ==> IsInt32(pageSize.value)
    ensures p >= 1 && IsInt32(p)
    ensures page.GetOr(DefaultPage) >= 1 ==> p == page.GetOr(DefaultPage)
    ensures page.GetOr(DefaultPage) < 1 ==> p == 1
    ensures 1 <= ps <= MaxPageSize
    ensures 1 <= pageSize.GetOr(DefaultPageSize) <= MaxPageSize ==> ps == pageSize.GetOr(DefaultPageSize)
    ensures pageSize.GetOr(DefaultPageSize) < 1 ==> ps == 1
    ensures pageSize.GetOr(DefaultPageSize) > MaxPageSize ==> ps == MaxPageSize
  {
    p := page.GetOr(DefaultPage);
    ps := pageSize.GetOr(DefaultPageSize);
    if p < 1 {
      p := 1;
    }
    if ps < 1 {
      ps := 1;
    }
    if ps > MaxPageSize {
      ps := MaxPageSize;
    }
  }

  /**
   * Math.Max(1, (int)Math.Ceiling(totalCount / (double)ps)). For operands
   * below 2^31 the double quotient is an integer exactly when the exact one
   * is, so the ceiling is the exact one.
   */
  function TotalPages(totalCount: nat, ps: int): (r: int)
    requires ps >= 1
    ensures r >= 1
    ensures totalCount <= r * ps
    ensures r == 1 || (r - 1) * ps < totalCount
  {
    Max(1, (totalCount + ps - 1) / ps)
  }

  /** The number of rows before page p, computed without overflow. */
  function SkipRows(p: int, ps: int): (r: nat)
    requires p >= 1 && ps >= 1
  {
    (p - 1) * ps
  }

  /** The number of rows before page p as the source computes it, in 32-bit arithmetic. */
  function SkipRowsAsWritten(p: int, ps: int): int
    requires IsInt32(p) && IsInt32(ps)
  {
    Wrap32((p - 1) * ps)
  }

  /** The largest page number wraps the offset around to a negative number. */
  lemma SkipRowsOverflow()
    ensures SkipRowsAsWritten(Int32Max, DefaultPageSize) == -40
    ensures SkipRows(Int32Max, DefaultPageSize) == 42949672920
  {
  }

  /** Below the overflow the two offsets agree. */
  lemma SkipRowsAgree(p: int, ps: int)
    requires IsInt32(p) && p >= 1 && 1 <= ps <= MaxPageSize
    requires (p - 1) * ps <= Int32Max
    ensures SkipRowsAsWritten(p, ps) == SkipRows(p, ps)
  {
  }

  /** Skip((p - 1) * ps).Take(ps) on the filtered, ordered rows. */
  function PageSlice<T>(rows: seq<T>, p: int, ps: int): (r: seq<T>)
    requires p >= 1 && ps >= 1
    ensures |r| <= ps
  {
    var skip := SkipRows(p, ps);
    if skip >= |rows| then [] else rows[skip..Min(skip + ps, |rows|)]
  }

  /**
   * Every row is on exactly the page its index says, at the offset its index
   * says, and that page is one of the reported pages.
   */
  lemma PageHoldsRow<T>(rows: seq<T>, ps: int, k: nat)
    requires ps >= 1 && k < |rows|
    ensures var p := k / ps + 1;
      && 1 <= p <= TotalPages(|rows|, ps)
      && k % ps < |PageSlice(rows, p, ps)|
      && PageSlice(rows, p, ps)[k % ps] == rows[k]
  {
    var p := k / ps + 1;
    var skip := SkipRows(p, ps);
    assert skip == k - k % ps;
    var t := TotalPages(|rows|, ps);
    MulCancel(p - 1, t, ps);
  }

  lemma MulCancel(a: int, b: int, c: int)
    requires c > 0 && a * c < b * c
    ensures a < b
  {
  }

  /** Pages after the last reported one are empty. */
  lemma PagesAfterLastEmpty<T>(rows: seq<T>, p: int, ps: int)
    requires ps >= 1 && p > TotalPages(|rows|, ps)
    ensures PageSlice(rows, p, ps) == []
  {
    var t := TotalPages(|rows|, ps);
    MulMono(p - 1, t, ps);
  }

  lemma MulMono(a: int, b: int, c: int)
    requires c >= 0 && a >= b
    ensures a * c >= b * c
  {
  }

  /** The row filters of /admin/audit. */
  datatype AuditFilter = AuditFilter(
    fromUtc: Option<Instant>,
    toUtc: Option<Instant>,
    endpoint: Option<string>,
    endpointContains: Option<string>,
    role: Option<string>,
    decision: Option<string>)

  /** endpointContains ?? endpoint: the substring filter, if one was given. */
  function EndpointFilter(f: AuditFilter): Option<string>
  {
    if f.endpointContains.Some? then f.endpointContains else f.endpoint
  }

  /** string.Contains: an ordinal substring test. */
  predicate HasSubstring(s: string, sub: string)
  {
    exists i | 0 <= i <= |s| - |sub| :: SubstringAt(s, sub, i)
  }

  predicate SubstringAt(s: string, sub: string, i: int)
  {
    0 <= i <= |s| - |sub| && s[i..i + |sub|] == sub
  }

  /** Whether a row passes the filters: blank text filters impose nothing. */
  predicate Passes(row: AuditRow, f: AuditFilter)
  {
    && (f.fromUtc.Some? ==> row.timestampUtc.ticks >= f.fromUtc.value.ticks)
    && (f.toUtc.Some? ==> row.timestampUtc.ticks <= f.toUtc.value.ticks)
    && (!IsNullOrBlank(EndpointFilter(f)) ==> HasSubstring(row.endpoint, EndpointFilter(f).value))
    && (!IsNullOrBlank(f.role) ==> row.role == f.role.value)
    && (!IsNullOrBlank(f.decision) ==> row.decision == f.decision.value)
  }

  /**
   * endpointContains, when given, replaces endpoint altogether, even when it
   * is blank; a blank filter then lets every endpoint through.
   */
  lemma EndpointContainsWins(row: AuditRow, f: AuditFilter, g: AuditFilter)
    requires f.endpointContains.Some? && g == f.(endpoint := None)
    ensures Passes(row, f) <==> Passes(row, g)
  {
  }

  lemma BlankFiltersPassEverything(row: AuditRow, f: AuditFilter)
    requires f.fromUtc.None? && f.toUtc.None?
    requires IsNullOrBlank(f.endpoint) && f.endpointContains.None?
    requires IsNullOrBlank(f.role) && IsNullOrBlank(f.decision)
    ensures Passes(row, f)
  {
  }

  /** The other four filters, with no endpoint filter at all. */
  function WithoutEndpoint(f: AuditFilter): AuditFilter
  {
    f.(endpoint := None, endpointContains := None)
  }

  /**
   * A blank endpointContains switches the endpoint filter off, whatever
   * endpoint says.
   */
  lemma BlankEndpointContains(row: AuditRow, f: AuditFilter)
    requires f.endpointContains.Some? && IsBlank(f.endpointContains.value)
    ensures Passes(row, f) <==> Passes(row, WithoutEndpoint(f))
  {
  }

  /**
   * Any piece of a row's endpoint, the whole endpoint included, finds the
   * row: with it as the endpoint filter, the row passes exactly when it
   * passes the other four filters.
   */
  lemma EndpointPiecePasses(row: AuditRow, f: AuditFilter, i: nat, j: nat)
    requires i <= j <= |row.endpoint|
    requires EndpointFilter(f) == Some(row.endpoint[i..j])
    ensures Passes(row, f) <==> Passes(row, WithoutEndpoint(f))
  {
    assert SubstringAt(row.endpoint, row.endpoint[i..j], i);
  }

  // ---------------------------------------------------------------------
  // /stats/top-endpoints

  const DefaultTake: int := 10
  const MaxTake: int := 100

  /** take defaults to 10 and is kept within [1, 100]; values already in range are kept. */
  method ClampTake(take: Option<int>) returns (top: int)
    requires take.Some? ==> IsInt32(take.value)
    ensures 1 <= top <= MaxTake
    ensures 1 <= take.GetOr(DefaultTake) <= MaxTake ==> top == take.GetOr(DefaultTake)
    ensures take.GetOr(DefaultTake) < 1 ==> top == 1
    ensures take.GetOr(DefaultTake) > MaxTake ==> top == MaxTake
  {
    top := take.GetOr(DefaultTake);
    if top < 1 {
      top := 1;
    }
    if top > MaxTake {
      top := MaxTake;
    }
  }

  /** The two orderings of the endpoint ranking: by the summed count, or by the number of masked events. */
  datatype Ranking = ByMaskedCount | ByMaskedEvents

  const DefaultMode: string := "maskedEvents"
  const MaskedCountMode: string := "maskedCount"

  /** A blank `by` means "maskedEvents"; only "maskedCount", in any case, selects the other ordering. */
  function RankingOf(byMode: Option<string>): (r: Ranking)
    ensures r == ByMaskedCount <==> !IsNullOrBlank(byMode) && EqualsIgnoreCase(byMode.value, MaskedCountMode)
  {
    var mode := if IsNullOrBlank(byMode) then DefaultMode else byMode.value;
    assert |DefaultMode| != |MaskedCountMode|;
    if EqualsIgnoreCase(mode, MaskedCountMode) then ByMaskedCount else ByMaskedEvents
  }

  // ---------------------------------------------------------------------
  // /stats/pii-distribution

  /** The type lists of the rows with decision "Mask", in order: the query before the tally. */
  function MaskedTypeLists(rows: seq<AuditRow>): (r: seq<string>)
    ensures |r| <= |rows|
  {
    if |rows| == 0 then []
    else
      var last := rows[|rows| - 1];
      MaskedTypeLists(rows[..|rows| - 1]) + (if last.decision == "Mask" then [last.piiTypesFoundJson] else [])
  }

  /**
   * Deserialize<string[]>(json) ?? [], with any exception caught as []; a
   * list holding null is never tallied, since counting it throws.
   */
  function TypesOf(json: string, codec: StringArrayCodec): seq<string>
  {
    match codec.deserialize(json)
    case StringArray(items) => items
    case _ => []
  }

  /** How many of the types equal the key, ignoring case. */
  function Occurrences(types: seq<string>, key: string): nat
  {
    if |types| == 0 then 0
    else Occurrences(types[..|types| - 1], key) + (if EqualsIgnoreCase(types[|types| - 1], key) then 1 else 0)
  }

  /** The reference tally: for one key, its occurrences summed over every list. */
  function KeyTotal(lists: seq<string>, key: string, codec: StringArrayCodec): nat
  {
    if |lists| == 0 then 0
    else KeyTotal(lists[..|lists| - 1], key, codec) + Occurrences(TypesOf(lists[|lists| - 1], codec), key)
  }

  /** The tally's keys: the five tags, each starting at 0. */
  const ZeroCounts: map<string, nat> := map[EmailTag := 0, PhoneTag := 0, TcknTag := 0, IpTag := 0, LocationTag := 0]

  /** The dictionary's case-insensitive lookup: the tag a type name is counted under, if any. */
  function CanonicalKey(t: string): (r: Option<string>)
    ensures r.Some? ==> r.value in ZeroCounts && EqualsIgnoreCase(r.value, t)
    ensures forall key | key in ZeroCounts :: EqualsIgnoreCase(key, t) <==> r == Some(key)
  {
    TagsApart();
    if EqualsIgnoreCase(EmailTag, t) then
      UniqueTag(EmailTag, t);
      Some(EmailTag)
    else if EqualsIgnoreCase(PhoneTag, t) then
      UniqueTag(PhoneTag, t);
      Some(PhoneTag)
    else if EqualsIgnoreCase(TcknTag, t) then
      UniqueTag(TcknTag, t);
      Some(TcknTag)
    else if EqualsIgnoreCase(IpTag, t) then
      UniqueTag(IpTag, t);
      Some(IpTag)
    else if EqualsIgnoreCase(LocationTag, t) then
      UniqueTag(LocationTag, t);
      Some(LocationTag)
    else None
  }

  lemma TagsApart()
    ensures ZeroCounts.Keys == {EmailTag, PhoneTag, TcknTag, IpTag, LocationTag}
    ensures forall a, b | a in ZeroCounts && b in ZeroCounts && a != b :: Signature(a) != Signature(b)
  {
  }

  /** A type name equal ignoring case to one tag is equal ignoring case to no other. */
  lemma UniqueTag(key: string, t: string)
    requires key in ZeroCounts && EqualsIgnoreCase(key, t)
    ensures forall other | other in ZeroCounts && other != key :: !EqualsIgnoreCase(other, t)
  {
    TagsApart();
    SignatureIgnoresCase(key, t);
    forall other | other in ZeroCounts && other != key
      ensures !EqualsIgnoreCase(other, t)
    {
      SignatureDiffers(other, t);
    }
  }

  /** A stored list that holds a null entry: counting it looks null up in the dictionary, which throws. */
  predicate HasNullEntry(json: string, codec: StringArrayCodec)
  {
    codec.deserialize(json).ArrayWithNull?
  }

  /**
   * The distribution: it fails, as an unhandled exception, exactly when a
   * masked event's type list holds a null entry; otherwise it has exactly
   * the five tags, each the number of masked events' type entries equal to
   * it ignoring case, and unknown names and unreadable lists add nothing.
   */
  method PiiDistribution(rows: seq<AuditRow>, codec: StringArrayCodec) returns (r: Option<map<string, nat>>)
    ensures r.None? <==> exists json | json in MaskedTypeLists(rows) :: HasNullEntry(json, codec)
    ensures r.Some? ==> r.value.Keys == ZeroCounts.Keys
    ensures r.Some? ==> forall key | key in r.value :: r.value[key] == KeyTotal(MaskedTypeLists(rows), key, codec)
  {
    var lists := MaskedTypeLists(rows);
    var counts := ZeroCounts;
    var i := 0;
    while i < |lists|
      invariant i <= |lists|
      invariant forall k | 0 <= k < i :: !HasNullEntry(lists[k], codec)
      invariant counts.Keys == ZeroCounts.Keys
      invariant forall key | key in counts :: counts[key] == KeyTotal(lists[..i], key, codec)
    {
      match codec.deserialize(lists[i]) {
        case ArrayWithNull(before, _) =>
          // the strings ahead of the null are counted, then ContainsKey(null) throws
          counts := CountTypes(counts, before);
          assert lists[i] in lists && HasNullEntry(lists[i], codec);
          return None;
        case _ =>
      }
      var types := TypesOf(lists[i], codec);
      counts := CountTypes(counts, types);
      KeyTotalStep(lists, i, codec);
      i := i + 1;
    }
    assert lists[..|lists|] == lists;
    r := Some(counts);
  }

  /** The inner loop: each type name adds one to the known key it equals ignoring case. */
  method CountTypes(counts: map<string, nat>, types: seq<string>) returns (r: map<string, nat>)
    requires counts.Keys == ZeroCounts.Keys
    ensures r.Keys == counts.Keys
    ensures forall key | key in r :: r[key] == counts[key] + Occurrences(types, key)
  {
    r := counts;
    var j := 0;
    while j < |types|
      invariant j <= |types|
      invariant r.Keys == counts.Keys
      invariant forall key | key in r :: r[key] == counts[key] + Occurrences(types[..j], key)
    {
      var t := types[j];
      OccurrencesStep(types, j);
      var key := CanonicalKey(t);
      if key.Some? {
        r := r[key.value := r[key.value] + 1];
      }
      j := j + 1;
    }
    assert types[..|types|] == types;
  }

  lemma OccurrencesStep(types: seq<string>, j: nat)
    requires j < |types|
    ensures forall key ::
      Occurrences(types[..j + 1], key) == Occurrences(types[..j], key) + (if EqualsIgnoreCase(types[j], key) then 1 else 0)
  {
    assert types[..j + 1][..j] == types[..j];
  }

  lemma KeyTotalStep(lists: seq<string>, i: nat, codec: StringArrayCodec)
    requires i < |lists|
    ensures forall key ::
      KeyTotal(lists[..i + 1], key, codec) == KeyTotal(lists[..i], key, codec) + Occurrences(TypesOf(lists[i], codec), key)
  {
    assert lists[..i + 1][..i] == lists[..i];
  }

  /** A list with no case-insensitive duplicates names each tag at most once. */
  lemma {:induction false} OccurrencesDistinct(types: seq<string>, key: string)
    requires DistinctIgnoreCase(types)
    ensures Occurrences(types, key) <= 1
    ensures Occurrences(types, key) == 1 <==> ContainsIgnoreCase(types, key)
    decreases |types|
  {
    if |types| > 0 {
      var init := types[..|types| - 1];
      var last := types[|types| - 1];
      assert DistinctIgnoreCase(init);
      OccurrencesDistinct(init, key);
      if EqualsIgnoreCase(last, key) {
        forall w | 0 <= w < |init|
          ensures !EqualsIgnoreCase(init[w], key)
        {
          assert types[w] == init[w];
        }
      }
      if ContainsIgnoreCase(types, key) && !EqualsIgnoreCase(last, key) {
        var w :| 0 <= w < |types| && EqualsIgnoreCase(types[w], key);
        assert init[w] == types[w];
      }
    }
  }

  /**
   * Read against the audit writer: a masked event whose types were stored by
   * SetPiiTypesFound adds 1 to a tag exactly when its types name that tag,
   * in any case, and 0 otherwise.
   */
  lemma StoredTypesCountOnce(types: seq<string>, key: string, codec: StringArrayCodec)
    requires FaithfulCodec(codec)
    ensures Occurrences(TypesOf(StoredList(types, codec), codec), key) == if ContainsIgnoreCase(types, key) then 1 else 0
  {
    var ys := Dedup(types);
    assert TypesOf(StoredList(types, codec), codec) == ys && DistinctIgnoreCase(ys) by {
      StoredListReadsBack(types, codec);
    }
    OccurrencesDistinct(ys, key);
    DedupKeepsMembership(types, key);
  }

  /** A type list stored by SetPiiTypesFound never holds null, so it never makes the distribution fail. */
  lemma StoredTypesHaveNoNull(types: seq<string>, codec: StringArrayCodec)
    requires FaithfulCodec(codec)
    ensures !HasNullEntry(StoredList(types, codec), codec)
    ensures TypesOf(StoredList(types, codec), codec) == Dedup(types)
  {
    StoredListReadsBack(types, codec);
  }

  lemma DedupKeepsMembership(types: seq<string>, key: string)
    ensures ContainsIgnoreCase(Dedup(types), key) <==> ContainsIgnoreCase(types, key)
  {
    var ys := Dedup(types);
    if ContainsIgnoreCase(types, key) {
      var j :| 0 <= j < |types| && EqualsIgnoreCase(types[j], key);
      assert ContainsIgnoreCase(ys, types[j]) by {
        DedupProperties(types);
      }
      var w :| 0 <= w < |ys| && EqualsIgnoreCase(ys[w], types[j]);
      assert EqualsIgnoreCase(ys[w], key);
    }
    if ContainsIgnoreCase(ys, key) {
      var w :| 0 <= w < |ys| && EqualsIgnoreCase(ys[w], key);
      assert ys[w] in types by {
        DedupProperties(types);
      }
      var j :| 0 <= j < |types| && types[j] == ys[w];
    }
  }

  /** A list that does not read as a string array contributes nothing. */
  lemma UnreadableListCountsNothing(lists: seq<string>, json: string, key: string, codec: StringArrayCodec)
    requires !codec.deserialize(json).StringArray?
    ensures KeyTotal(lists + [json], key, codec) == KeyTotal(lists, key, codec)
  {
    assert (lists + [json])[..|lists|] == lists;
  }

  /** Events that were not masked are not counted at all. */
  lemma AllowedRowsIgnored(rows: seq<AuditRow>, row: AuditRow)
    requires row.decision != "Mask"
    ensures MaskedTypeLists(rows + [row]) == MaskedTypeLists(rows)
  {
    assert (rows + [row])[..|rows|] == rows;
  }
}
