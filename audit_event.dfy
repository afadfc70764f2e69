/**
 * The audit record (AuditEvent.cs): one row per guarded response. The two
 * list columns hold JSON string arrays, de-duplicated ignoring case before
 * they are serialised.
 */
module AuditRecord {
  import opened Text
  import opened IgnoreCaseSet

  /** A Guid, by its 128-bit value. */
  datatype Guid = Guid(value: nat)

  /** A DateTime, by its tick count. */
  datatype Instant = Instant(ticks: int)

  /** What JsonSerializer.Deserialize<string[]> makes of a text. */
  datatype ArrayParse =
    | NotJson                        // the text is not a JSON string array: the call throws
    | NullLiteral                    // the text is the literal null
    | StringArray(items: seq<string>)
    /** An array that also holds null: `before` are the strings ahead of its first null. */
    | ArrayWithNull(before: seq<string>, after: seq<Option<string>>)

  /** JsonSerializer on string arrays, both ways. */
  datatype StringArrayCodec = StringArrayCodec(serialize: seq<string> -> string, deserialize: string -> ArrayParse)

  /**
   * What is assumed of System.Text.Json here: an array it writes reads back
   * as the same array, what it writes is never blank, and "[]" is the empty
   * array.
   */
  ghost predicate FaithfulCodec(codec: StringArrayCodec)
  {
    && (forall xs :: codec.deserialize(codec.serialize(xs)) == StringArray(xs))
    && (forall xs :: !IsBlank(codec.serialize(xs)))
    && codec.deserialize(EmptyArrayJson) == StringArray([])
  }

  /** The initial value of both list columns. */
  const EmptyArrayJson: string := "[]"

  /** The columns of an audit row, as stored. */
  datatype AuditRow = AuditRow(
    id: Guid,
    timestampUtc: Instant,
    subjectUserId: string,
    role: string,
    httpMethod: string,
    endpoint: string,
    decision: string,
    maskedCount: int,
    piiTypesFoundJson: string,
    maskedFieldsJson: string,
    statusCode: int)

  /** The row of a freshly constructed event: empty strings, zeros and two empty arrays. */
  const DefaultRow: AuditRow := AuditRow(Guid(0), Instant(0), "", "", "", "", "", 0, EmptyArrayJson, EmptyArrayJson, 0)

  /** The text a list column holds after one of the setters: the list de-duplicated, then serialised. */
  function StoredList(xs: seq<string>, codec: StringArrayCodec): string
  {
    codec.serialize(Dedup(xs))
  }

  class AuditEvent {
    var id: Guid
    var timestampUtc: Instant
    var subjectUserId: string
    var role: string
    var httpMethod: string
    var endpoint: string
    var decision: string
    var maskedCount: int
    var piiTypesFoundJson: string
    var maskedFieldsJson: string
    var statusCode: int

    constructor()
      ensures Row() == DefaultRow
    {
      id := Guid(0);
      timestampUtc := Instant(0);
      subjectUserId := "";
      role := "";
      httpMethod := "";
      endpoint := "";
      decision := "";
      maskedCount := 0;
      piiTypesFoundJson := EmptyArrayJson;
      maskedFieldsJson := EmptyArrayJson;
      statusCode := 0;
    }

    function Row(): AuditRow
      reads this
    {
      AuditRow(id, timestampUtc, subjectUserId, role, httpMethod, endpoint, decision, maskedCount,
        piiTypesFoundJson, maskedFieldsJson, statusCode)
    }

    /** Stores the type list de-duplicated ignoring case; no other column changes. */
    method SetPiiTypesFound(piiTypes: seq<string>, codec: StringArrayCodec)
      modifies this
      ensures Row() == old(Row()).(piiTypesFoundJson := StoredList(piiTypes, codec))
    {
      piiTypesFoundJson := codec.serialize(Dedup(piiTypes));
    }

    /** Stores the path list de-duplicated ignoring case; no other column changes. */
    method SetMaskedFields(maskedFields: seq<string>, codec: StringArrayCodec)
      modifies this
      ensures Row() == old(Row()).(maskedFieldsJson := StoredList(maskedFields, codec))
    {
      maskedFieldsJson := codec.serialize(Dedup(maskedFields));
    }
  }

  /**
   * A stored list reads back as the input with later case-insensitive
   * duplicates dropped: its entries pairwise different ignoring case, each
   * input covered, each entry taken from the input, the first entry kept.
   */
  lemma StoredListReadsBack(xs: seq<string>, codec: StringArrayCodec)
    requires FaithfulCodec(codec)
    ensures codec.deserialize(StoredList(xs, codec)) == StringArray(Dedup(xs))
    ensures var ys := Dedup(xs);
      && DistinctIgnoreCase(ys)
      && (forall j | 0 <= j < |xs| :: ContainsIgnoreCase(ys, xs[j]))
      && (forall k | 0 <= k < |ys| :: ys[k] in xs)
      && |ys| <= |xs|
      && (|xs| > 0 ==> ys[0] == xs[0])
  {
    DedupProperties(xs);
    if |xs| > 0 {
      DedupKeepsFirst(xs);
    }
  }

  /**
   * Paths that differ only in case collapse into one stored entry, so the
   * stored path list can be shorter than the count beside it.
   */
  lemma CaseVariantsCollapse(p: string, q: string)
    requires p != q && EqualsIgnoreCase(p, q)
    ensures Dedup([p, q]) == [p]
    ensures |Dedup([p, q])| < |[p, q]|
  {
    assert [p, q][..1] == [p];
    assert [p][..0] == [];
    assert AddAll([], [p]) == [p] by {
      assert !ContainsIgnoreCase([], p);
    }
    assert ContainsIgnoreCase([p], q);
  }

  lemma CaseVariantsExample()
    ensures Dedup(["$.Email", "$.email"]) == ["$.Email"]
  {
    var p := "$.Email";
    var q := "$.email";
    assert Lower(p) == Lower(q) by {
      assert Lower(p)[2] == LowerChar('E') == 'e';
    }
    CaseVariantsCollapse(p, q);
  }
}
