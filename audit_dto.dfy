/**
 * The read side of the audit log (AuditDtoMapper.cs, AuditDtos.cs): a row
 * becomes a DTO whose list columns are parsed back into string arrays,
 * tolerating anything that is not one.
 */
module AuditDto {
  import opened Text
  import opened IgnoreCaseSet
  import opened AuditRecord

  datatype AuditEventDto = AuditEventDto(
    id: Guid,
    timestampUtc: Instant,
    subjectUserId: string,
    role: string,
    httpMethod: string,
    endpoint: string,
    decision: string,
    maskedCount: int,
    piiTypesFound: seq<Option<string>>,
    maskedFields: seq<Option<string>>,
    statusCode: int)

  /** A string array as the entries of a string[] that may hold null. */
  function Present(xs: seq<string>): (r: seq<Option<string>>)
    ensures |r| == |xs|
    ensures forall k | 0 <= k < |r| :: r[k] == Some(xs[k])
  {
    if |xs| == 0 then [] else Present(xs[..|xs| - 1]) + [Some(xs[|xs| - 1])]
  }

  /**
   * A missing or blank text, a text that is not a string array and the
   * literal null all give the empty list; a string array gives its items,
   * null entries included, and a null entry appears only when the text
   * holds one.
   */
  function TryParseStringArray(json: Option<string>, codec: StringArrayCodec): (r: seq<Option<string>>)
    ensures IsNullOrBlank(json) ==> r == []
    ensures !IsNullOrBlank(json) ==>
      match codec.deserialize(json.value)
      case StringArray(items) => |r| == |items| && forall k | 0 <= k < |r| :: r[k] == Some(items[k])
      case ArrayWithNull(before, after) =>
        |r| == |before| + 1 + |after| && r[|before|] == None
        && (forall k | 0 <= k < |before| :: r[k] == Some(before[k]))
        && r[|before| + 1..] == after
      case _ => r == []
    ensures (exists k :: 0 <= k < |r| && r[k].None?) <==>
      !IsNullOrBlank(json) && codec.deserialize(json.value).ArrayWithNull?
  {
    if IsNullOrBlank(json) then []
    else
      match codec.deserialize(json.value)
      case StringArray(items) => Present(items)
      case ArrayWithNull(before, after) =>
        var r := Present(before) + [None] + after;
        assert r[|before|] == None;
        r
      case NullLiteral => []
      case NotJson => []
  }

  /** Every scalar column is copied as it is; the two list columns are parsed. */
  function ToDto(row: AuditRow, codec: StringArrayCodec): (d: AuditEventDto)
    ensures d.id == row.id && d.timestampUtc == row.timestampUtc
    ensures d.subjectUserId == row.subjectUserId && d.role == row.role
    ensures d.httpMethod == row.httpMethod && d.endpoint == row.endpoint
    ensures d.decision == row.decision && d.maskedCount == row.maskedCount && d.statusCode == row.statusCode
    ensures d.piiTypesFound == TryParseStringArray(Some(row.piiTypesFoundJson), codec)
    ensures d.maskedFields == TryParseStringArray(Some(row.maskedFieldsJson), codec)
  {
    AuditEventDto(row.id, row.timestampUtc, row.subjectUserId, row.role, row.httpMethod, row.endpoint,
      row.decision, row.maskedCount,
      TryParseStringArray(Some(row.piiTypesFoundJson), codec),
      TryParseStringArray(Some(row.maskedFieldsJson), codec),
      row.statusCode)
  }

  /** A list written by one of the setters reads back as exactly the de-duplicated list. */
  lemma StoredListRoundTrip(xs: seq<string>, codec: StringArrayCodec)
    requires FaithfulCodec(codec)
    ensures TryParseStringArray(Some(StoredList(xs, codec)), codec) == Present(Dedup(xs))
  {
    StoredListReadsBack(xs, codec);
  }

  /** A fresh event's lists read back empty. */
  lemma DefaultRowReadsEmpty(codec: StringArrayCodec)
    requires FaithfulCodec(codec)
    ensures ToDto(DefaultRow, codec).piiTypesFound == []
    ensures ToDto(DefaultRow, codec).maskedFields == []
  {
    assert !IsBlank(EmptyArrayJson) by {
      assert !IsWhiteSpace(EmptyArrayJson[0]);
    }
  }

  /**
   * An event built and filled by its setters, then mapped: the DTO carries
   * the de-duplicated lists, in first-seen order.
   */
  method RecordAndRead(piiTypes: seq<string>, maskedFields: seq<string>, codec: StringArrayCodec)
    returns (d: AuditEventDto)
    requires FaithfulCodec(codec)
    ensures d.piiTypesFound == Present(Dedup(piiTypes)) && d.maskedFields == Present(Dedup(maskedFields))
    ensures DistinctIgnoreCase(Dedup(piiTypes)) && DistinctIgnoreCase(Dedup(maskedFields))
    ensures forall j | 0 <= j < |maskedFields| :: ContainsIgnoreCase(Dedup(maskedFields), maskedFields[j])
    ensures d.decision == "" && d.maskedCount == 0
  {
    var e := new AuditEvent();
    e.SetPiiTypesFound(piiTypes, codec);
    e.SetMaskedFields(maskedFields, codec);
    d := ToDto(e.Row(), codec);
    StoredListRoundTrip(piiTypes, codec);
    StoredListRoundTrip(maskedFields, codec);
    StoredListReadsBack(piiTypes, codec);
    StoredListReadsBack(maskedFields, codec);
  }
}
