/**
 * The JSON masking walk (JsonMaskingService.cs) and its report
 * (MaskingReport.cs).
 *
 * The walk is specified by the functions WalkNode, WalkFields and WalkItems,
 * which return the rewritten tree and the report; the method MaskNode does
 * the same walk step by step, with loops over an object's members and an
 * array's elements and a MaskingAccumulator object standing for the
 * `ref maskedCount`, the maskedFields list and the piiTypes set.
 */
module JsonMasking {
  import opened Text
  import opened Json
  import opened IgnoreCaseSet
  import PiiMasker
  import PiiDetector

  // ---------------------------------------------------------------------
  // Key sets and type tags

  const EmailKeys: seq<string> := ["email", "emailAddress", "mail"]
  const PhoneKeys: seq<string> := ["phone", "phoneNumber", "mobile", "msisdn"]
  const TcknKeys: seq<string> := ["tckn", "tc", "turkishId", "nationalId"]
  const IpKeys: seq<string> := ["ip", "ipAddress", "clientIp"]
  const NotesKeys: seq<string> := ["notes", "note", "comment", "description", "message"]

  const EmailTag: string := "Email"
  const PhoneTag: string := "Phone"
  const TcknTag: string := "TCKN"
  const IpTag: string := "IP"
  const LocationTag: string := "Location"

  /** Every tag the walk can report. */
  const Tags: seq<string> := [EmailTag, PhoneTag, TcknTag, IpTag, LocationTag]

  datatype MaskingReport = MaskingReport(maskedCount: nat, piiTypesFound: seq<string>, maskedFields: seq<string>)

  const EmptyReport: MaskingReport := MaskingReport(0, [], [])

  /** Which branch a string leaf takes, from the name of the property it sits under. */
  datatype KeyClass = EmailKey | PhoneKey | TcknKey | IpKey | NotesKey | OtherKey

  /**
   * The parent property name tested against the key sets in order; no name,
   * or a blank one, goes straight to the free-text pass.
   */
  function ClassifyKey(parent: Option<string>): KeyClass
  {
    if IsNullOrBlank(parent) then OtherKey
    else if ContainsIgnoreCase(EmailKeys, parent.value) then EmailKey
    else if ContainsIgnoreCase(PhoneKeys, parent.value) then PhoneKey
    else if ContainsIgnoreCase(TcknKeys, parent.value) then TcknKey
    else if ContainsIgnoreCase(IpKeys, parent.value) then IpKey
    else if ContainsIgnoreCase(NotesKeys, parent.value) then NotesKey
    else OtherKey
  }

  // ---------------------------------------------------------------------
  // Detection and recording

  /** The tags of the patterns found in the text, in the order Email, Phone, TCKN, IP. */
  function DetectPiiTypes(input: string): (r: seq<string>)
    ensures EmailTag in r <==> PiiDetector.Contains(PiiDetector.EmailPattern, input)
    ensures PhoneTag in r <==> PiiDetector.Contains(PiiDetector.PhonePattern, input)
    ensures TcknTag in r <==> PiiDetector.Contains(PiiDetector.TcknPattern, input)
    ensures IpTag in r <==> PiiDetector.Contains(PiiDetector.Ipv4Pattern, input)
    ensures forall t | t in r :: t in Tags && t != LocationTag
  {
    var email := PiiDetector.Contains(PiiDetector.EmailPattern, input);
    var phone := PiiDetector.Contains(PiiDetector.PhonePattern, input);
    var tckn := PiiDetector.Contains(PiiDetector.TcknPattern, input);
    var ip := PiiDetector.Contains(PiiDetector.Ipv4Pattern, input);
    TagsDistinct();
    TagIf(email, EmailTag) + TagIf(phone, PhoneTag) + TagIf(tckn, TcknTag) + TagIf(ip, IpTag)
  }

  function TagIf(found: bool, tag: string): (r: seq<string>)
  {
    if found then [tag] else []
  }

  lemma TagsDistinct()
    ensures EmailTag != PhoneTag && EmailTag != TcknTag && EmailTag != IpTag && EmailTag != LocationTag
    ensures PhoneTag != TcknTag && PhoneTag != IpTag && PhoneTag != LocationTag
    ensures TcknTag != IpTag && TcknTag != LocationTag && IpTag != LocationTag
  {
    assert EmailTag[0] != PhoneTag[0];
  }

  /** One masked value: its tags join the set, its path is appended, the count goes up by one. */
  function RecordMasked(rep: MaskingReport, path: string, tags: seq<string>): MaskingReport
  {
    MaskingReport(rep.maskedCount + 1, AddAll(rep.piiTypesFound, tags), rep.maskedFields + [path])
  }

  /** The free-text pass: counted only when the text changes, tagged by what the original contains. */
  function FreeTextLeaf(str: string, path: string, rep: MaskingReport): (string, MaskingReport)
  {
    var masked := PiiDetector.MaskAllInFreeText(str);
    if masked != str then (masked, RecordMasked(rep, path, DetectPiiTypes(str))) else (masked, rep)
  }

  /** A string leaf under the given property name. */
  function MaskLeaf(str: string, parent: Option<string>, path: string, rep: MaskingReport): (string, MaskingReport)
  {
    match ClassifyKey(parent)
    case EmailKey => (PiiMasker.MaskEmail(str), RecordMasked(rep, path, [EmailTag]))
    case PhoneKey => (PiiMasker.MaskPhone(str), RecordMasked(rep, path, [PhoneTag]))
    case TcknKey => (PiiMasker.MaskTckn(str), RecordMasked(rep, path, [TcknTag]))
    case IpKey => (PiiMasker.MaskIpv4(str), RecordMasked(rep, path, [IpTag]))
    case NotesKey => FreeTextLeaf(str, path, rep)
    case OtherKey => FreeTextLeaf(str, path, rep)
  }

  // ---------------------------------------------------------------------
  // Location objects

  /** A member named "location" in any case whose value is an object with "lat" and "lon". */
  predicate IsLocationObject(key: string, child: Json)
  {
    EqualsIgnoreCase(key, "location") && child.JObj? && HasKey(child.fields, "lat") && HasKey(child.fields, "lon")
  }

  /** A number is rounded; a string is rounded when it parses; anything else stays. */
  function RoundComponent(v: Json, nt: PiiMasker.NumberText): Json
  {
    match v
    case JNum(x) => JNum(PiiMasker.RoundLocationComponent(x))
    case JStr(t) =>
      var (ok, rounded) := PiiMasker.TryRoundLocationComponent(t, nt);
      if ok then JStr(rounded) else v
    case _ => v
  }

  function RoundMember(fields: seq<Field>, key: string, nt: PiiMasker.NumberText): seq<Field>
  {
    match Get(fields, key)
    case Some(v) => Set(fields, key, RoundComponent(v, nt))
    case None => fields
  }

  /** Rounds "lat", then "lon", in place; every other member stays as it is. */
  function RoundLocation(loc: Json, nt: PiiMasker.NumberText): (r: Json)
    ensures loc.JObj? ==> r.JObj? && |r.fields| == |loc.fields|
    ensures loc.JObj? ==> forall j | 0 <= j < |loc.fields| :: r.fields[j].key == loc.fields[j].key
    ensures loc.JObj? ==> forall j | 0 <= j < |loc.fields| && loc.fields[j].key != "lat" && loc.fields[j].key != "lon" ::
      r.fields[j] == loc.fields[j]
    ensures !loc.JObj? ==> r == loc
  {
    if !loc.JObj? then loc
    else JObj(RoundMember(RoundMember(loc.fields, "lat", nt), "lon", nt))
  }

  // ---------------------------------------------------------------------
  // The walk

  function ItemPath(path: string, i: nat): string
  {
    path + "[" + NatToString(i) + "]"
  }

  function MemberPath(path: string, key: string): string
  {
    path + "." + key
  }

  /** Walks a node under the given parent property name at the given path. */
  function WalkNode(node: Json, parent: Option<string>, path: string, rep: MaskingReport, nt: PiiMasker.NumberText)
    : (r: (Json, MaskingReport))
    decreases node
  {
    match node
    case JObj(fs) =>
      var (fs', rep') := WalkFields(fs, path, rep, nt);
      (JObj(fs'), rep')
    case JArr(items) =>
      var (items', rep') := WalkItems(items, parent, path, rep, nt);
      (JArr(items'), rep')
    case JStr(str) =>
      var (m, rep') := MaskLeaf(str, parent, path, rep);
      (JStr(m), rep')
    case _ => (node, rep)
  }

  /** The members of an object, in order: null members are skipped, location objects rounded. */
  function WalkFields(fs: seq<Field>, path: string, rep: MaskingReport, nt: PiiMasker.NumberText)
    : (r: (seq<Field>, MaskingReport))
    ensures |r.0| == |fs|
    ensures forall j | 0 <= j < |fs| :: r.0[j].key == fs[j].key
    decreases fs
  {
    if |fs| == 0 then ([], rep)
    else
      var (done, rep1) := WalkFields(fs[..|fs| - 1], path, rep, nt);
      var f := fs[|fs| - 1];
      if f.value.JNull? then (done + [f], rep1)
      else if IsLocationObject(f.key, f.value) then
        (done + [Field(f.key, RoundLocation(f.value, nt))], RecordMasked(rep1, MemberPath(path, f.key), [LocationTag]))
      else
        var (c, rep2) := WalkNode(f.value, Some(f.key), MemberPath(path, f.key), rep1, nt);
        (done + [Field(f.key, c)], rep2)
  }

  /** The elements of an array, in order; they inherit the array's parent property name. */
  function WalkItems(items: seq<Json>, parent: Option<string>, path: string, rep: MaskingReport, nt: PiiMasker.NumberText)
    : (r: (seq<Json>, MaskingReport))
    ensures |r.0| == |items|
    decreases items
  {
    if |items| == 0 then ([], rep)
    else
      var i := |items| - 1;
      var (done, rep1) := WalkItems(items[..i], parent, path, rep, nt);
      if items[i].JNull? then (done + [items[i]], rep1)
      else
        var (c, rep2) := WalkNode(items[i], parent, ItemPath(path, i), rep1, nt);
        (done + [c], rep2)
  }

  // ---------------------------------------------------------------------
  // The imperative walk

  /** The walk's mutable state: the count, the tag set and the path list. */
  class MaskingAccumulator {
    var maskedCount: nat
    var piiTypes: seq<string>
    var maskedFields: seq<string>

    constructor()
      ensures Report() == EmptyReport
    {
      maskedCount := 0;
      piiTypes := [];
      maskedFields := [];
    }

    function Report(): MaskingReport
      reads this
    {
      MaskingReport(maskedCount, piiTypes, maskedFields)
    }

    /** piiTypes.UnionWith(tags); maskedFields.Add(path); maskedCount++. */
    method Record(path: string, tags: seq<string>)
      modifies this
      ensures Report() == RecordMasked(old(Report()), path, tags)
    {
      var i := 0;
      while i < |tags|
        invariant i <= |tags|
        invariant piiTypes == AddAll(old(piiTypes), tags[..i])
        invariant maskedCount == old(maskedCount) && maskedFields == old(maskedFields)
      {
        assert tags[..i + 1][..i] == tags[..i];
        piiTypes := Add(piiTypes, tags[i]);
        i := i + 1;
      }
      assert tags[..|tags|] == tags;
      maskedFields := maskedFields + [path];
      maskedCount := maskedCount + 1;
    }
  }

  /** MaskNode: rewrites the node and updates the accumulator as the walk specifies. */
  method MaskNode(node: Json, parent: Option<string>, path: string, acc: MaskingAccumulator, nt: PiiMasker.NumberText)
    returns (r: Json)
    modifies acc
    ensures (r, acc.Report()) == WalkNode(node, parent, path, old(acc.Report()), nt)
    decreases node, 1
  {
    match node {
      case JObj(fs) =>
        var done := MaskFields(node, path, acc, nt);
        r := JObj(done);
      case JArr(items) =>
        var done := MaskItems(node, parent, path, acc, nt);
        r := JArr(done);
      case JStr(str) =>
        var m := MaskString(str, parent, path, acc);
        r := JStr(m);
      case _ =>
        r := node;
    }
  }

  /** The members of an object, one after the other. */
  method MaskFields(node: Json, path: string, acc: MaskingAccumulator, nt: PiiMasker.NumberText)
    returns (done: seq<Field>)
    requires node.JObj?
    modifies acc
    ensures (done, acc.Report()) == WalkFields(node.fields, path, old(acc.Report()), nt)
    decreases node, 0
  {
    var fs := node.fields;
    done := [];
    var i := 0;
    while i < |fs|
      invariant i <= |fs|
      invariant (done, acc.Report()) == WalkFields(fs[..i], path, old(acc.Report()), nt)
    {
      assert fs[..i + 1][..i] == fs[..i];
      var key := fs[i].key;
      var child := fs[i].value;
      if child.JNull? {
        done := done + [fs[i]];
      } else if IsLocationObject(key, child) {
        acc.Record(MemberPath(path, key), [LocationTag]);
        done := done + [Field(key, RoundLocation(child, nt))];
      } else {
        var c := MaskNode(child, Some(key), MemberPath(path, key), acc, nt);
        done := done + [Field(key, c)];
      }
      i := i + 1;
    }
    assert fs[..|fs|] == fs;
  }

  /** The elements of an array, one after the other, under the array's parent name. */
  method MaskItems(node: Json, parent: Option<string>, path: string, acc: MaskingAccumulator, nt: PiiMasker.NumberText)
    returns (done: seq<Json>)
    requires node.JArr?
    modifies acc
    ensures (done, acc.Report()) == WalkItems(node.items, parent, path, old(acc.Report()), nt)
    decreases node, 0
  {
    var items := node.items;
    done := [];
    var i := 0;
    while i < |items|
      invariant i <= |items|
      invariant (done, acc.Report()) == WalkItems(items[..i], parent, path, old(acc.Report()), nt)
    {
      assert items[..i + 1][..i] == items[..i];
      if items[i].JNull? {
        done := done + [items[i]];
      } else {
        var c := MaskNode(items[i], parent, ItemPath(path, i), acc, nt);
        done := done + [c];
      }
      i := i + 1;
    }
    assert items[..|items|] == items;
  }

  /** A string value: the masker its property name selects, or the free-text scan. */
  method MaskString(str: string, parent: Option<string>, path: string, acc: MaskingAccumulator)
    returns (m: string)
    modifies acc
    ensures (m, acc.Report()) == MaskLeaf(str, parent, path, old(acc.Report()))
  {
    match ClassifyKey(parent) {
      case EmailKey =>
        acc.Record(path, [EmailTag]);
        m := PiiMasker.MaskEmail(str);
      case PhoneKey =>
        acc.Record(path, [PhoneTag]);
        m := PiiMasker.MaskPhone(str);
      case TcknKey =>
        acc.Record(path, [TcknTag]);
        m := PiiMasker.MaskTckn(str);
      case IpKey =>
        acc.Record(path, [IpTag]);
        m := PiiMasker.MaskIpv4(str);
      case NotesKey =>
        m := PiiDetector.MaskAllInFreeText(str);
        if m != str {
          acc.Record(path, DetectPiiTypes(str));
        }
      case OtherKey =>
        m := PiiDetector.MaskAllInFreeText(str);
        if m != str {
          acc.Record(path, DetectPiiTypes(str));
        }
    }
  }

  /** What JsonNode.Parse makes of the text; the literal null parses to JNull. */
  datatype Parsed = Malformed | Parsed(root: Json)

  /** System.Text.Json's parser and compact serialiser. */
  datatype JsonCodec = JsonCodec(parse: string -> Parsed, serialize: Json -> string)

  /** A parse failure is not caught: the call ends in an exception. */
  datatype MaskOutcome = Faulted | Masked(maskedJson: string, report: MaskingReport)

  /**
   * What MaskJson computes: a document that is the literal null comes back
   * as it is with an empty report; any other document is walked from the
   * root "$" with no parent name and serialised.
   */
  function MaskDocument(json: string, codec: JsonCodec, nt: PiiMasker.NumberText): MaskOutcome
  {
    match codec.parse(json)
    case Malformed => Faulted
    case Parsed(root) =>
      if root == JNull then Masked(json, EmptyReport)
      else
        var (tree, report) := WalkNode(root, None, "$", EmptyReport, nt);
        Masked(codec.serialize(tree), report)
  }

  /**
   * MaskJson as the service has it. The walk puts a masked string in place
   * through the string's parent (JsonNode.ReplaceWith), which does nothing
   * to a node without one; so a document that is a single string is
   * serialised as it was parsed, while its report still counts "$".
   * MaskDocument above is the corrected version, with the root replaced too.
   */
  function MaskDocumentAsWritten(json: string, codec: JsonCodec, nt: PiiMasker.NumberText): MaskOutcome
  {
    match codec.parse(json)
    case Malformed => Faulted
    case Parsed(root) =>
      if root == JNull then Masked(json, EmptyReport)
      else
        var (tree, report) := WalkNode(root, None, "$", EmptyReport, nt);
        Masked(codec.serialize(if root.JStr? then root else tree), report)
  }

  /** MaskJson, step by step: parse, walk with the accumulator, serialise. */
  method MaskJson(json: string, codec: JsonCodec, nt: PiiMasker.NumberText) returns (r: MaskOutcome)
    ensures r == MaskDocument(json, codec, nt)
  {
    var parsed := codec.parse(json);
    if parsed.Malformed? {
      return Faulted;
    }
    if parsed.root == JNull {
      return Masked(json, EmptyReport);
    }
    var acc := new MaskingAccumulator();
    var tree := MaskNode(parsed.root, None, "$", acc, nt);
    r := Masked(codec.serialize(tree), acc.Report());
  }

  // ---------------------------------------------------------------------
  // The report invariant

  /**
   * One path per count; tags only once something was counted; tags pairwise
   * different ignoring case and drawn from the five known ones.
   */
  predicate Consistent(rep: MaskingReport)
  {
    && rep.maskedCount == |rep.maskedFields|
    && (rep.maskedCount == 0 <==> |rep.piiTypesFound| == 0)
    && DistinctIgnoreCase(rep.piiTypesFound)
    && forall t | t in rep.piiTypesFound :: t in Tags
  }

  predicate IsPrefix(p: string, s: string)
  {
    |p| <= |s| && s[..|p|] == p
  }

  /**
   * What walking below `path` does to a report: paths and tags are only
   * appended, each new path lies under `path` and is counted once, and a
   * consistent report stays consistent. When nothing is counted, nothing in
   * the report changes.
   */
  ghost predicate Extends(rep: MaskingReport, rep': MaskingReport, path: string)
  {
    && |rep.maskedFields| <= |rep'.maskedFields|
    && rep'.maskedFields[..|rep.maskedFields|] == rep.maskedFields
    && rep'.maskedCount == rep.maskedCount + (|rep'.maskedFields| - |rep.maskedFields|)
    && (forall k | |rep.maskedFields| <= k < |rep'.maskedFields| :: IsPrefix(path, rep'.maskedFields[k]))
    && |rep.piiTypesFound| <= |rep'.piiTypesFound|
    && rep'.piiTypesFound[..|rep.piiTypesFound|] == rep.piiTypesFound
    && (Consistent(rep) ==> Consistent(rep'))
    && (rep'.maskedCount == rep.maskedCount ==> rep' == rep)
  }

  lemma ExtendsRefl(rep: MaskingReport, path: string)
    ensures Extends(rep, rep, path)
  {
  }

  lemma ExtendsTrans(a: MaskingReport, b: MaskingReport, c: MaskingReport, path: string)
    requires Extends(a, b, path) && Extends(b, c, path)
    ensures Extends(a, c, path)
  {
    assert c.maskedFields[..|a.maskedFields|] == c.maskedFields[..|b.maskedFields|][..|a.maskedFields|];
    assert c.piiTypesFound[..|a.piiTypesFound|] == c.piiTypesFound[..|b.piiTypesFound|][..|a.piiTypesFound|];
    forall k | |a.maskedFields| <= k < |c.maskedFields|
      ensures IsPrefix(path, c.maskedFields[k])
    {
      if k < |b.maskedFields| {
        assert c.maskedFields[k] == c.maskedFields[..|b.maskedFields|][k];
      }
    }
  }

  lemma PrefixTrans(a: string, b: string, c: string)
    requires IsPrefix(a, b) && IsPrefix(b, c)
    ensures IsPrefix(a, c)
  {
    assert c[..|a|] == c[..|b|][..|a|];
  }

  lemma ExtendsWiden(rep: MaskingReport, rep': MaskingReport, inner: string, path: string)
    requires Extends(rep, rep', inner) && IsPrefix(path, inner)
    ensures Extends(rep, rep', path)
  {
    forall k | |rep.maskedFields| <= k < |rep'.maskedFields|
      ensures IsPrefix(path, rep'.maskedFields[k])
    {
      PrefixTrans(path, inner, rep'.maskedFields[k]);
    }
  }

  lemma PathsExtend(path: string, key: string, i: nat)
    ensures IsPrefix(path, MemberPath(path, key))
    ensures IsPrefix(path, ItemPath(path, i))
  {
    assert MemberPath(path, key)[..|path|] == path;
    assert ItemPath(path, i)[..|path|] == path;
  }

  /** Recording a masked value with at least one known tag, at a path under `path`. */
  lemma RecordExtends(rep: MaskingReport, at: string, tags: seq<string>, path: string)
    requires |tags| > 0 && (forall t | t in tags :: t in Tags) && IsPrefix(path, at)
    ensures Extends(rep, RecordMasked(rep, at, tags), path)
  {
    var rep' := RecordMasked(rep, at, tags);
    assert rep'.maskedFields[..|rep.maskedFields|] == rep.maskedFields;
    AddAllPrefix(rep.piiTypesFound, tags);
    if Consistent(rep) {
      AddAllProperties(rep.piiTypesFound, tags);
      assert ContainsIgnoreCase(rep'.piiTypesFound, tags[0]);
      forall t | t in rep'.piiTypesFound
        ensures t in Tags
      {
        var k :| 0 <= k < |rep'.piiTypesFound| && rep'.piiTypesFound[k] == t;
        if k < |rep.piiTypesFound| {
          assert t == rep'.piiTypesFound[..|rep.piiTypesFound|][k];
        }
      }
    }
  }

  /** A free-text value that changes contains at least one of the four patterns. */
  lemma ChangedTextIsDetected(str: string)
    requires PiiDetector.MaskAllInFreeText(str) != str
    ensures |DetectPiiTypes(str)| > 0
  {
    if |DetectPiiTypes(str)| == 0 {
      PiiDetector.MaskAllInFreeTextClean(str);
    }
  }

  lemma MaskLeafExtends(str: string, parent: Option<string>, path: string, rep: MaskingReport)
    ensures var (m, rep') := MaskLeaf(str, parent, path, rep);
      && Extends(rep, rep', path)
      && (rep'.maskedCount == rep.maskedCount ==> m == str)
  {
    assert IsPrefix(path, path);
    match ClassifyKey(parent)
    case EmailKey => RecordExtends(rep, path, [EmailTag], path);
    case PhoneKey => RecordExtends(rep, path, [PhoneTag], path);
    case TcknKey => RecordExtends(rep, path, [TcknTag], path);
    case IpKey => RecordExtends(rep, path, [IpTag], path);
    case NotesKey => FreeTextLeafExtends(str, path, rep);
    case OtherKey => FreeTextLeafExtends(str, path, rep);
  }

  /**
   * The free-text pass always yields the masked text, and counts the value,
   * with the tags of what the original contains, exactly when it changes.
   */
  lemma FreeTextLeafExtends(str: string, path: string, rep: MaskingReport)
    ensures var (m, rep') := FreeTextLeaf(str, path, rep);
      && m == PiiDetector.MaskAllInFreeText(str)
      && (rep'.maskedCount > rep.maskedCount <==> m != str)
      && (m != str ==> rep' == RecordMasked(rep, path, DetectPiiTypes(str)))
      && (m == str ==> rep' == rep)
      && Extends(rep, rep', path)
  {
    assert IsPrefix(path, path);
    if PiiDetector.MaskAllInFreeText(str) != str {
      ChangedTextIsDetected(str);
      RecordExtends(rep, path, DetectPiiTypes(str), path);
    }
  }

  /**
   * The walk of any node only appends to the report, under the node's path,
   * keeps it consistent, and leaves the node as it was when it counts
   * nothing.
   */
  lemma {:induction false} WalkNodeExtends(node: Json, parent: Option<string>, path: string, rep: MaskingReport, nt: PiiMasker.NumberText)
    ensures var (node', rep') := WalkNode(node, parent, path, rep, nt);
      && Extends(rep, rep', path)
      && (rep'.maskedCount == rep.maskedCount ==> node' == node)
      && (node.JNull? || node.JBool? || node.JNum? ==> node' == node && rep' == rep)
    decreases node
  {
    match node
    case JObj(fs) => WalkFieldsExtends(fs, path, rep, nt);
    case JArr(items) => WalkItemsExtends(items, parent, path, rep, nt);
    case JStr(str) => MaskLeafExtends(str, parent, path, rep);
    case _ =>
  }

  lemma {:induction false} WalkFieldsExtends(fs: seq<Field>, path: string, rep: MaskingReport, nt: PiiMasker.NumberText)
    ensures var (fs', rep') := WalkFields(fs, path, rep, nt);
      && Extends(rep, rep', path)
      && (rep'.maskedCount == rep.maskedCount ==> fs' == fs)
    decreases fs
  {
    if |fs| > 0 {
      var init := fs[..|fs| - 1];
      var f := fs[|fs| - 1];
      WalkFieldsExtends(init, path, rep, nt);
      var (done, rep1) := WalkFields(init, path, rep, nt);
      var (fs', rep') := WalkFields(fs, path, rep, nt);
      assert fs == init + [f];
      PathsExtend(path, f.key, 0);
      if f.value.JNull? {
      } else if IsLocationObject(f.key, f.value) {
        RecordExtends(rep1, MemberPath(path, f.key), [LocationTag], path);
        ExtendsTrans(rep, rep1, rep', path);
      } else {
        WalkNodeExtends(f.value, Some(f.key), MemberPath(path, f.key), rep1, nt);
        ExtendsWiden(rep1, rep', MemberPath(path, f.key), path);
        ExtendsTrans(rep, rep1, rep', path);
      }
    }
  }

  lemma {:induction false} WalkItemsExtends(items: seq<Json>, parent: Option<string>, path: string, rep: MaskingReport, nt: PiiMasker.NumberText)
    ensures var (items', rep') := WalkItems(items, parent, path, rep, nt);
      && Extends(rep, rep', path)
      && (rep'.maskedCount == rep.maskedCount ==> items' == items)
    decreases items
  {
    if |items| > 0 {
      var i := |items| - 1;
      WalkItemsExtends(items[..i], parent, path, rep, nt);
      var (done, rep1) := WalkItems(items[..i], parent, path, rep, nt);
      var (items', rep') := WalkItems(items, parent, path, rep, nt);
      assert items == items[..i] + [items[i]];
      PathsExtend(path, "", i);
      if !items[i].JNull? {
        WalkNodeExtends(items[i], parent, ItemPath(path, i), rep1, nt);
        ExtendsWiden(rep1, rep', ItemPath(path, i), path);
        ExtendsTrans(rep, rep1, rep', path);
      }
    }
  }

  /** Walking more members leaves the ones already walked as they are. */
  lemma {:induction false} WalkFieldsStable(fs: seq<Field>, path: string, rep: MaskingReport, nt: PiiMasker.NumberText)
    ensures forall j | 0 <= j < |fs| :: WalkFields(fs, path, rep, nt).0[j] == WalkFields(fs[..j + 1], path, rep, nt).0[j]
    decreases fs
  {
    if |fs| > 0 {
      var init := fs[..|fs| - 1];
      WalkFieldsStable(init, path, rep, nt);
      forall j | 0 <= j < |fs|
        ensures WalkFields(fs, path, rep, nt).0[j] == WalkFields(fs[..j + 1], path, rep, nt).0[j]
      {
        if j < |fs| - 1 {
          assert init[..j + 1] == fs[..j + 1];
          assert WalkFields(fs, path, rep, nt).0[j] == WalkFields(init, path, rep, nt).0[j];
        } else {
          assert fs[..j + 1] == fs;
        }
      }
    }
  }

  /**
   * Member j of an object, walked with the report its earlier members left:
   * a null member is kept and not counted; a location object is rounded in
   * place and counted once, at its member path, with the Location tag; any
   * other member is replaced by the walk of its value under its own name.
   */
  lemma WalkFieldsMember(fs: seq<Field>, j: nat, path: string, rep: MaskingReport, nt: PiiMasker.NumberText)
    requires j < |fs|
    ensures var before := WalkFields(fs[..j], path, rep, nt).1;
      var after := WalkFields(fs[..j + 1], path, rep, nt).1;
      var out := WalkFields(fs, path, rep, nt).0[j];
      var f := fs[j];
      && (f.value.JNull? ==> out == f && after == before)
      && (IsLocationObject(f.key, f.value) ==>
            out == Field(f.key, RoundLocation(f.value, nt))
            && after == RecordMasked(before, MemberPath(path, f.key), [LocationTag]))
      && (!f.value.JNull? && !IsLocationObject(f.key, f.value) ==>
            var (c, rep') := WalkNode(f.value, Some(f.key), MemberPath(path, f.key), before, nt);
            out == Field(f.key, c) && after == rep')
  {
    WalkFieldsStable(fs, path, rep, nt);
    assert fs[..j + 1][..j] == fs[..j];
    assert fs[..j + 1][j] == fs[j];
  }

  /**
   * The report of a whole document: one path per count, every path under
   * the root "$", tags pairwise different and known, tags present exactly
   * when something was counted; a document with nothing counted comes back
   * unchanged.
   */
  lemma MaskedDocumentReport(root: Json, nt: PiiMasker.NumberText)
    ensures var (tree, report) := WalkNode(root, None, "$", EmptyReport, nt);
      && Consistent(report)
      && (forall k | 0 <= k < |report.maskedFields| :: IsPrefix("$", report.maskedFields[k]))
      && (report.maskedCount == 0 ==> tree == root && report == EmptyReport)
  {
    WalkNodeExtends(root, None, "$", EmptyReport, nt);
  }

  // ---------------------------------------------------------------------
  // Key sets

  /** A name's length and lower-cased first character, which no change of case alters. */
  function Signature(s: string): (int, char)
  {
    (|s|, if |s| == 0 then ' ' else LowerChar(s[0]))
  }

  lemma SignatureIgnoresCase(a: string, b: string)
    requires EqualsIgnoreCase(a, b)
    ensures Signature(a) == Signature(b)
  {
    if |a| > 0 {
      assert Lower(a)[0] == Lower(b)[0];
    }
  }

  predicate SignaturesApart(xs: seq<string>, ys: seq<string>)
  {
    forall i, j | 0 <= i < |xs| && 0 <= j < |ys| :: Signature(xs[i]) != Signature(ys[j])
  }

  lemma SignatureDiffers(a: string, b: string)
    requires Signature(a) != Signature(b)
    ensures !EqualsIgnoreCase(a, b)
  {
    if EqualsIgnoreCase(a, b) {
      SignatureIgnoresCase(a, b);
    }
  }

  lemma NotInOther(xs: seq<string>, ys: seq<string>, k: string)
    requires ContainsIgnoreCase(xs, k) && SignaturesApart(xs, ys)
    ensures !ContainsIgnoreCase(ys, k)
  {
    var i :| 0 <= i < |xs| && EqualsIgnoreCase(xs[i], k);
    SignatureIgnoresCase(xs[i], k);
    forall j | 0 <= j < |ys|
      ensures !EqualsIgnoreCase(ys[j], k)
    {
      SignatureDiffers(ys[j], k);
    }
  }

  /** A name equal ignoring case to a key that starts with a letter is not blank. */
  lemma KeyNotBlank(keys: seq<string>, k: string)
    requires ContainsIgnoreCase(keys, k)
    requires forall i | 0 <= i < |keys| :: |keys[i]| > 0 && IsLetter(keys[i][0])
    ensures !IsBlank(k)
  {
    var i :| 0 <= i < |keys| && EqualsIgnoreCase(keys[i], k);
    SignatureIgnoresCase(keys[i], k);
    assert IsLetter(LowerChar(k[0]));
  }

  /** Each key set is told apart from the ones tested before it by length and first letter. */
  lemma PhoneKeysApart()
    ensures SignaturesApart(PhoneKeys, EmailKeys)
  {
  }

  lemma TcknKeysApart()
    ensures SignaturesApart(TcknKeys, EmailKeys) && SignaturesApart(TcknKeys, PhoneKeys)
  {
  }

  lemma IpKeysApart()
    ensures SignaturesApart(IpKeys, EmailKeys) && SignaturesApart(IpKeys, PhoneKeys)
    ensures SignaturesApart(IpKeys, TcknKeys)
  {
  }

  lemma NotesKeysApart()
    ensures SignaturesApart(NotesKeys, EmailKeys) && SignaturesApart(NotesKeys, PhoneKeys)
    ensures SignaturesApart(NotesKeys, TcknKeys) && SignaturesApart(NotesKeys, IpKeys)
  {
    NotesKeysApartFromContacts();
    NotesKeysApartFromIds();
  }

  lemma NotesKeysApartFromContacts()
    ensures SignaturesApart(NotesKeys, EmailKeys) && SignaturesApart(NotesKeys, PhoneKeys)
  {
  }

  lemma NotesKeysApartFromIds()
    ensures SignaturesApart(NotesKeys, TcknKeys) && SignaturesApart(NotesKeys, IpKeys)
  {
  }

  lemma KeysStartWithLetters()
    ensures forall i | 0 <= i < |EmailKeys| :: |EmailKeys[i]| > 0 && IsLetter(EmailKeys[i][0])
    ensures forall i | 0 <= i < |PhoneKeys| :: |PhoneKeys[i]| > 0 && IsLetter(PhoneKeys[i][0])
    ensures forall i | 0 <= i < |TcknKeys| :: |TcknKeys[i]| > 0 && IsLetter(TcknKeys[i][0])
    ensures forall i | 0 <= i < |IpKeys| :: |IpKeys[i]| > 0 && IsLetter(IpKeys[i][0])
    ensures forall i | 0 <= i < |NotesKeys| :: |NotesKeys[i]| > 0 && IsLetter(NotesKeys[i][0])
  {
  }

  /**
   * The five key sets are disjoint ignoring case, so the branch a name takes
   * is the key set it belongs to, in whatever case it is written.
   */
  lemma KeySetsClassify(k: string)
    ensures ContainsIgnoreCase(EmailKeys, k) ==> ClassifyKey(Some(k)) == EmailKey
    ensures ContainsIgnoreCase(PhoneKeys, k) ==> ClassifyKey(Some(k)) == PhoneKey
    ensures ContainsIgnoreCase(TcknKeys, k) ==> ClassifyKey(Some(k)) == TcknKey
    ensures ContainsIgnoreCase(IpKeys, k) ==> ClassifyKey(Some(k)) == IpKey
    ensures ContainsIgnoreCase(NotesKeys, k) ==> ClassifyKey(Some(k)) == NotesKey
  {
    KeysStartWithLetters();
    PhoneKeysApart();
    TcknKeysApart();
    IpKeysApart();
    NotesKeysApart();
    if ContainsIgnoreCase(EmailKeys, k) {
      KeyNotBlank(EmailKeys, k);
    }
    if ContainsIgnoreCase(PhoneKeys, k) {
      KeyNotBlank(PhoneKeys, k);
      NotInOther(PhoneKeys, EmailKeys, k);
    }
    if ContainsIgnoreCase(TcknKeys, k) {
      KeyNotBlank(TcknKeys, k);
      NotInOther(TcknKeys, EmailKeys, k);
      NotInOther(TcknKeys, PhoneKeys, k);
    }
    if ContainsIgnoreCase(IpKeys, k) {
      KeyNotBlank(IpKeys, k);
      NotInOther(IpKeys, EmailKeys, k);
      NotInOther(IpKeys, PhoneKeys, k);
      NotInOther(IpKeys, TcknKeys, k);
    }
    if ContainsIgnoreCase(NotesKeys, k) {
      KeyNotBlank(NotesKeys, k);
      NotInOther(NotesKeys, EmailKeys, k);
      NotInOther(NotesKeys, PhoneKeys, k);
      NotInOther(NotesKeys, TcknKeys, k);
      NotInOther(NotesKeys, IpKeys, k);
    }
  }

  /** Property names are matched ignoring case. */
  lemma ClassifyKeyIgnoresCase(k: string)
    ensures ClassifyKey(Some(k)) == ClassifyKey(Some(Lower(k)))
  {
    LowerBlank(k);
    ContainsIgnoreCaseLower(EmailKeys, k);
    ContainsIgnoreCaseLower(PhoneKeys, k);
    ContainsIgnoreCaseLower(TcknKeys, k);
    ContainsIgnoreCaseLower(IpKeys, k);
    ContainsIgnoreCaseLower(NotesKeys, k);
  }

  /** The masker of a key-set branch. */
  function KeyedMasker(c: KeyClass, s: string): string
  {
    match c
    case EmailKey => PiiMasker.MaskEmail(s)
    case PhoneKey => PiiMasker.MaskPhone(s)
    case TcknKey => PiiMasker.MaskTckn(s)
    case IpKey => PiiMasker.MaskIpv4(s)
    case _ => s
  }

  /** The tag of a key-set branch. */
  function KeyedTag(c: KeyClass): string
  {
    match c
    case EmailKey => EmailTag
    case PhoneKey => PhoneTag
    case TcknKey => TcknTag
    case _ => IpTag
  }

  predicate IsKeyed(c: KeyClass)
  {
    c.EmailKey? || c.PhoneKey? || c.TcknKey? || c.IpKey?
  }

  /** A string under a keyed property name goes through that key's masker and is counted. */
  lemma KeyedLeaf(str: string, k: string, path: string, rep: MaskingReport, nt: PiiMasker.NumberText)
    requires IsKeyed(ClassifyKey(Some(k)))
    ensures var c := ClassifyKey(Some(k));
      WalkNode(JStr(str), Some(k), path, rep, nt) == (JStr(KeyedMasker(c, str)), RecordMasked(rep, path, [KeyedTag(c)]))
  {
  }

  /** The paths of the first n elements of the array at path, in order. */
  function ItemPaths(path: string, n: nat): (r: seq<string>)
    ensures |r| == n
  {
    if n == 0 then [] else ItemPaths(path, n - 1) + [ItemPath(path, n - 1)]
  }

  /** One more element that is not null: walked under its index, after the ones before it. */
  lemma WalkItemsStep(items: seq<Json>, parent: Option<string>, path: string, rep: MaskingReport, nt: PiiMasker.NumberText)
    requires |items| > 0 && !items[|items| - 1].JNull?
    ensures var i := |items| - 1;
      var prev := WalkItems(items[..i], parent, path, rep, nt);
      var last := WalkNode(items[i], parent, ItemPath(path, i), prev.1, nt);
      WalkItems(items, parent, path, rep, nt) == (prev.0 + [last.0], last.1)
  {
  }

  /**
   * An array of strings under a keyed property name: every element goes
   * through that key's masker whatever it holds.
   */
  lemma {:induction false} KeyedItemsMasked(items: seq<Json>, k: string, path: string, rep: MaskingReport, nt: PiiMasker.NumberText)
    requires IsKeyed(ClassifyKey(Some(k)))
    requires forall j | 0 <= j < |items| :: items[j].JStr?
    ensures var r := WalkItems(items, Some(k), path, rep, nt);
      forall j | 0 <= j < |items| :: r.0[j] == JStr(KeyedMasker(ClassifyKey(Some(k)), items[j].s))
    decreases items
  {
    if |items| > 0 {
      var c := ClassifyKey(Some(k));
      var i := |items| - 1;
      var init := items[..i];
      var prev := WalkItems(init, Some(k), path, rep, nt);
      var r := WalkItems(items, Some(k), path, rep, nt);
      var str := items[i].s;
      assert forall j | 0 <= j < i :: prev.0[j] == JStr(KeyedMasker(c, init[j].s)) by {
        KeyedItemsMasked(init, k, path, rep, nt);
      }
      assert r.0 == prev.0 + [JStr(KeyedMasker(c, str))] by {
        assert items[i] == JStr(str);
        KeyedLeaf(str, k, ItemPath(path, i), prev.1, nt);
        WalkItemsStep(items, Some(k), path, rep, nt);
      }
      assert |prev.0| == i;
      forall j | 0 <= j < |items|
        ensures r.0[j] == JStr(KeyedMasker(c, items[j].s))
      {
        if j < i {
          assert r.0[j] == prev.0[j];
          assert prev.0[j] == JStr(KeyedMasker(c, init[j].s));
        } else {
          assert r.0[j] == JStr(KeyedMasker(c, str));
        }
      }
    }
  }

  /** The same array counts each element once, at its indexed path, in order. */
  lemma {:induction false} KeyedItemsCounted(items: seq<Json>, k: string, path: string, rep: MaskingReport, nt: PiiMasker.NumberText)
    requires IsKeyed(ClassifyKey(Some(k)))
    requires forall j | 0 <= j < |items| :: items[j].JStr?
    ensures var r := WalkItems(items, Some(k), path, rep, nt);
      && r.1.maskedCount == rep.maskedCount + |items|
      && r.1.maskedFields == rep.maskedFields + ItemPaths(path, |items|)
    decreases items
  {
    if |items| > 0 {
      var i := |items| - 1;
      var init := items[..i];
      assert forall j | 0 <= j < i :: init[j] == items[j];
      KeyedItemsCounted(init, k, path, rep, nt);
      var prev := WalkItems(init, Some(k), path, rep, nt);
      var str := items[i].s;
      assert items[i] == JStr(str);
      KeyedLeaf(str, k, ItemPath(path, i), prev.1, nt);
      WalkItemsStep(items, Some(k), path, rep, nt);
      var r := WalkItems(items, Some(k), path, rep, nt);
      assert r.1 == RecordMasked(prev.1, ItemPath(path, i), [KeyedTag(ClassifyKey(Some(k)))]);
      assert ItemPaths(path, |items|) == ItemPaths(path, i) + [ItemPath(path, i)];
    }
  }

  /** The same array adds the key's tag to the set, once, and no other tag. */
  lemma {:induction false} KeyedItemsTagged(items: seq<Json>, k: string, path: string, rep: MaskingReport, nt: PiiMasker.NumberText)
    requires IsKeyed(ClassifyKey(Some(k)))
    requires forall j | 0 <= j < |items| :: items[j].JStr?
    ensures var r := WalkItems(items, Some(k), path, rep, nt);
      r.1.piiTypesFound == (if |items| == 0 then rep.piiTypesFound else Add(rep.piiTypesFound, KeyedTag(ClassifyKey(Some(k)))))
    decreases items
  {
    if |items| > 0 {
      var tag := KeyedTag(ClassifyKey(Some(k)));
      var i := |items| - 1;
      var init := items[..i];
      assert forall j | 0 <= j < i :: init[j] == items[j];
      KeyedItemsTagged(init, k, path, rep, nt);
      var prev := WalkItems(init, Some(k), path, rep, nt);
      var types := prev.1.piiTypesFound;
      var str := items[i].s;
      assert items[i] == JStr(str);
      KeyedLeaf(str, k, ItemPath(path, i), prev.1, nt);
      WalkItemsStep(items, Some(k), path, rep, nt);
      var r := WalkItems(items, Some(k), path, rep, nt);
      assert r.1.piiTypesFound == AddAll(types, [tag]);
      assert AddAll(types, [tag]) == Add(types, tag) by {
        assert [tag][..0] == [] && [tag][0] == tag;
        assert AddAll(types, [tag]) == Add(AddAll(types, []), tag);
      }
      if i > 0 {
        assert ContainsIgnoreCase(types, tag);
      }
    }
  }

  // ---------------------------------------------------------------------
  // Location rounding

  /** Both coordinates of a location object are rounded, whatever their order. */
  lemma LocationRounded(loc: Json, nt: PiiMasker.NumberText)
    requires loc.JObj? && HasKey(loc.fields, "lat") && HasKey(loc.fields, "lon")
    ensures var r := RoundLocation(loc, nt);
      && Get(r.fields, "lat") == Some(RoundComponent(Get(loc.fields, "lat").value, nt))
      && Get(r.fields, "lon") == Some(RoundComponent(Get(loc.fields, "lon").value, nt))
  {
    var lat := Get(loc.fields, "lat").value;
    var f1 := Set(loc.fields, "lat", RoundComponent(lat, nt));
    assert RoundMember(loc.fields, "lat", nt) == f1;
    SetOther(loc.fields, "lat", "lon", RoundComponent(lat, nt));
    var lon := Get(f1, "lon").value;
    assert lon == Get(loc.fields, "lon").value;
    var f2 := Set(f1, "lon", RoundComponent(lon, nt));
    assert RoundMember(f1, "lon", nt) == f2;
    SetOther(f1, "lon", "lat", RoundComponent(lon, nt));
  }

  /** A numeric coordinate ends up within half a hundredth of where it was, on whole hundredths. */
  lemma NumericCoordinateRounded(x: real, nt: PiiMasker.NumberText)
    ensures var r := RoundComponent(JNum(x), nt);
      && r.JNum?
      && -0.005 <= r.n - x <= 0.005
      && (r.n * 100.0).Floor as real == r.n * 100.0
  {
    PiiMasker.RoundLocationComponentBounds(x);
  }

  // ---------------------------------------------------------------------
  // Whole documents

  /**
   * A document fails exactly when it does not parse. A null document comes
   * back as it is with an empty report. Any other document gets a consistent
   * report whose paths all start at the root "$", and when nothing is
   * counted the output is the parsed document re-serialised.
   */
  lemma MaskDocumentOutcome(json: string, codec: JsonCodec, nt: PiiMasker.NumberText)
    ensures var r := MaskDocument(json, codec, nt);
      && (r.Faulted? <==> codec.parse(json).Malformed?)
      && (codec.parse(json) == Parsed(JNull) ==> r == Masked(json, EmptyReport))
      && (r.Masked? ==> Consistent(r.report))
      && (r.Masked? ==> forall k | 0 <= k < |r.report.maskedFields| :: IsPrefix("$", r.report.maskedFields[k]))
      && (r.Masked? && r.report.maskedCount == 0 && codec.parse(json).root != JNull ==>
            r.maskedJson == codec.serialize(codec.parse(json).root))
  {
    match codec.parse(json)
    case Malformed =>
    case Parsed(root) =>
      if root != JNull {
        MaskedDocumentReport(root, nt);
      }
  }

  /** The service and the corrected version part only on a document that is one string. */
  lemma AsWrittenAgreesBelowRoot(json: string, codec: JsonCodec, nt: PiiMasker.NumberText)
    requires !(codec.parse(json).Parsed? && codec.parse(json).root.JStr?)
    ensures MaskDocumentAsWritten(json, codec, nt) == MaskDocument(json, codec, nt)
  {
  }

  /**
   * A document that is one string which the free-text pass changes: the
   * service serialises the string unmasked, yet reports one masked value at
   * "$"; the corrected version serialises the masked string with the same
   * report.
   */
  lemma RootStringDocument(json: string, codec: JsonCodec, nt: PiiMasker.NumberText, s: string)
    requires codec.parse(json) == Parsed(JStr(s))
    requires PiiDetector.MaskAllInFreeText(s) != s
    ensures var report := RecordMasked(EmptyReport, "$", DetectPiiTypes(s));
      && report.maskedCount == 1 && report.maskedFields == ["$"]
      && MaskDocumentAsWritten(json, codec, nt) == Masked(codec.serialize(JStr(s)), report)
      && MaskDocument(json, codec, nt) == Masked(codec.serialize(JStr(PiiDetector.MaskAllInFreeText(s))), report)
  {
    var report := RecordMasked(EmptyReport, "$", DetectPiiTypes(s));
    assert MaskLeaf(s, None, "$", EmptyReport) == (PiiDetector.MaskAllInFreeText(s), report);
  }

  /**
   * For instance the document "1.2.3.4", a JSON string: the service sends it
   * back as it was while reporting one masked value at "$"; corrected, it
   * comes back as "1.***.***.4".
   */
  lemma RootQuadDocument(json: string, codec: JsonCodec, nt: PiiMasker.NumberText, a: char, b: char, c: char, d: char)
    requires IsDigit(a) && IsDigit(b) && IsDigit(c) && IsDigit(d)
    requires codec.parse(json) == Parsed(JStr([a, '.', b, '.', c, '.', d]))
    ensures var asWritten := MaskDocumentAsWritten(json, codec, nt);
      && asWritten.Masked?
      && asWritten.maskedJson == codec.serialize(JStr([a, '.', b, '.', c, '.', d]))
      && asWritten.report.maskedCount == 1
      && asWritten.report.maskedFields == ["$"]
    ensures var corrected := MaskDocument(json, codec, nt);
      && corrected.Masked?
      && corrected.maskedJson == codec.serialize(JStr([a] + ".***.***." + [d]))
      && corrected.report == MaskDocumentAsWritten(json, codec, nt).report
  {
    var s := [a, '.', b, '.', c, '.', d];
    PiiDetector.SingleDigitQuadMasked(a, b, c, d);
    RootStringDocument(json, codec, nt, s);
  }
}
