/**
 * Fingerprint serialization: the version 1.0.0 schema, the domain model's own validation, and the round
 * trip.  Printing and parsing JSON text is not part of the model; both sides work on JSON values.
 */
module Serialization {
  import opened Bytes
  import opened Schema
  import opened Text

  const NAME_LIMIT: nat := 128
  const FIRMWARE_LIMIT: nat := 64

  function Version(): string { "1.0.0" }

  function Protocols(): set<string> { {"modbus_tcp", "ethernetip", "s7comm", "dnp3"} }

  function DeviceTypes(): set<string> { {"PLC", "RTU", "HMI", "IED"} }

  function Statuses(): set<string> { {"complete", "partial", "no_identity"} }

  // ---------------------------------------------------------------- the schema, version 1.0.0

  function PlainText(): FieldSchema { ANYTHING.(types := Some(One(StringType))) }

  function NullableText(): FieldSchema { ANYTHING.(types := Some(AnyOf([StringType, NullType]))) }

  function Property(key: Key): FieldSchema
    requires !key.Other?
  {
    match key
    case SchemaVersion => PlainText().(pattern := Some(SemanticVersion))
    case Protocol => PlainText().(enumeration := Some(Enumeration(Protocols(), false)))
    case SourceAddress => PlainText().(minLength := Some(1))
    case DestinationAddress => PlainText().(minLength := Some(1))
    case MacAddress => NullableText()
    case IpAddress => NullableText()
    case Vendor => NullableText().(maxLength := Some(NAME_LIMIT))
    case Model => NullableText().(maxLength := Some(NAME_LIMIT))
    case FirmwareVersion => NullableText().(maxLength := Some(FIRMWARE_LIMIT))
    case DeviceType => NullableText().(enumeration := Some(Enumeration(DeviceTypes(), true)))
    case SerialNumber => NullableText()
    case ProtocolData => ANYTHING.(types := Some(One(ObjectType)))
    case ParsingStatus => PlainText().(enumeration := Some(Enumeration(Statuses(), false)))
    case BinaryFields => ANYTHING.(types := Some(One(ObjectType)), additional := Each(PlainText()))
  }

  const FIELDS: set<Key> :=
    {SchemaVersion, Protocol, SourceAddress, DestinationAddress, MacAddress, IpAddress, Vendor, Model,
     FirmwareVersion, DeviceType, SerialNumber, ProtocolData, ParsingStatus, BinaryFields}

  function SchemaV1(): (s: DocumentSchema)
    ensures s.closed && s.properties.Keys == FIELDS
    ensures forall k :: k in FIELDS ==> s.properties[k] == Property(k)
  {
    DocumentSchema([SchemaVersion, Protocol, SourceAddress, DestinationAddress],
                   map k | k in FIELDS :: Property(k), true)
  }

  lemma FieldsAreNamed(key: Key)
    ensures key in FIELDS <==> !key.Other?
  {
  }

  // ---------------------------------------------------------------- the domain model

  datatype Fingerprint = Fingerprint(
    schemaVersion: string, protocol: string, source: string, destination: string,
    mac: Option<string>, ip: Option<string>, vendor: Option<string>, model: Option<string>,
    firmware: Option<string>, deviceType: Option<string>, serial: Option<string>,
    protocolData: map<Key, Json>, status: string, binaryFields: map<Key, string>)

  /** What the domain model guarantees of every instance. */
  predicate Valid(f: Fingerprint) {
    && IsVersion(f.schemaVersion) && f.protocol in Protocols() && f.status in Statuses()
    && Within(f.vendor, NAME_LIMIT) && Within(f.model, NAME_LIMIT) && Within(f.firmware, FIRMWARE_LIMIT)
    && (f.deviceType.Some? ==> f.deviceType.value in DeviceTypes())
  }

  predicate IsNullableText(value: Json) { value.Null? || value.Str? }

  predicate NullableWithin(value: Json, limit: nat) {
    value.Null? || (value.Str? && |value.s| <= limit)
  }

  /** The domain model's check of one given field; it ignores fields it does not know. */
  predicate FieldAccepted(key: Key, value: Json) {
    match key
    case SchemaVersion => value.Str? && IsVersion(value.s)
    case Protocol => value.Str? && value.s in Protocols()
    case SourceAddress => value.Str?
    case DestinationAddress => value.Str?
    case MacAddress => IsNullableText(value)
    case IpAddress => IsNullableText(value)
    case Vendor => NullableWithin(value, NAME_LIMIT)
    case Model => NullableWithin(value, NAME_LIMIT)
    case FirmwareVersion => NullableWithin(value, FIRMWARE_LIMIT)
    case DeviceType => value.Null? || (value.Str? && value.s in DeviceTypes())
    case SerialNumber => IsNullableText(value)
    case ProtocolData => value.Dict?
    case ParsingStatus => value.Str? && value.s in Statuses()
    case BinaryFields => value.Dict? && forall k | k in value.fields.Keys :: value.fields[k].Str?
    case Other(_) => true
  }

  predicate Accepted(data: map<Key, Json>) {
    && Protocol in data && SourceAddress in data && DestinationAddress in data
    && forall k | k in data.Keys :: FieldAccepted(k, data[k])
  }

  function TextAt(data: map<Key, Json>, key: Key, default: string): string {
    if key in data && data[key].Str? then data[key].s else default
  }

  function NullableAt(data: map<Key, Json>, key: Key): Option<string> {
    if key in data && data[key].Str? then Some(data[key].s) else None
  }

  function DictAt(data: map<Key, Json>, key: Key): map<Key, Json> {
    if key in data && data[key].Dict? then data[key].fields else map[]
  }

  function Strings(fields: map<Key, Json>): (m: map<Key, string>) {
    map k | k in fields && fields[k].Str? :: fields[k].s
  }

  function Build(data: map<Key, Json>): Fingerprint {
    Fingerprint(TextAt(data, SchemaVersion, Version()), TextAt(data, Protocol, ""),
                TextAt(data, SourceAddress, ""), TextAt(data, DestinationAddress, ""),
                NullableAt(data, MacAddress), NullableAt(data, IpAddress), NullableAt(data, Vendor),
                NullableAt(data, Model), NullableAt(data, FirmwareVersion), NullableAt(data, DeviceType),
                NullableAt(data, SerialNumber), DictAt(data, ProtocolData),
                TextAt(data, ParsingStatus, "complete"), Strings(DictAt(data, BinaryFields)))
  }

  /** Building the domain object; `None` stands for a validation error. */
  function Construct(data: map<Key, Json>): Option<Fingerprint> {
    if Accepted(data) then Some(Build(data)) else None
  }

  // ---------------------------------------------------------------- serialization

  function Nullable(text: Option<string>): Json {
    if text.Some? then Str(text.value) else Null
  }

  function Field(f: Fingerprint, key: Key): Json
    requires !key.Other?
  {
    match key
    case SchemaVersion => Str(f.schemaVersion)
    case Protocol => Str(f.protocol)
    case SourceAddress => Str(f.source)
    case DestinationAddress => Str(f.destination)
    case MacAddress => Nullable(f.mac)
    case IpAddress => Nullable(f.ip)
    case Vendor => Nullable(f.vendor)
    case Model => Nullable(f.model)
    case FirmwareVersion => Nullable(f.firmware)
    case DeviceType => Nullable(f.deviceType)
    case SerialNumber => Nullable(f.serial)
    case ProtocolData => Dict(f.protocolData)
    case ParsingStatus => Str(f.status)
    case BinaryFields => Dict(Jsons(f.binaryFields))
  }

  function Jsons(strings: map<Key, string>): (m: map<Key, Json>) {
    map k | k in strings :: Str(strings[k])
  }

  function SerializedFields(f: Fingerprint): (data: map<Key, Json>) {
    map k | k in FIELDS :: Field(f, k)
  }

  /** Every field of the model is written, absent ones as null. */
  function Serialize(f: Fingerprint): Json {
    Dict(SerializedFields(f))
  }

  datatype Constraint = JsonObject | RequiredField | VersionSupported | SchemaValidation | ModelValidation

  /** `Uncaught` is an exception that is not the documented deserialization error. */
  datatype Outcome = Ok(fingerprint: Fingerprint) | Error(constraint: Constraint) | Uncaught

  ghost function Deserialize(value: Json): Outcome {
    if !value.Dict? then Error(JsonObject)
    else if SchemaVersion !in value.fields then Error(RequiredField)
    else if value.fields[SchemaVersion].Array? || value.fields[SchemaVersion].Dict? then Uncaught
    else if value.fields[SchemaVersion] != Str(Version()) then Error(VersionSupported)
    else if !DocumentConforms(value.fields, SchemaV1()) then Error(SchemaValidation)
    else
      var f := Construct(value.fields);
      if f.Some? then Ok(f.value) else Error(ModelValidation)
  }

  /** Looking the version up in the set of supported versions hashes it, which a list or an object does
      not survive. */
  method DeserializeFingerprint(value: Json) returns (outcome: Outcome)
    ensures outcome == Deserialize(value)
  {
    hide DocumentConforms, Construct, SchemaV1;
    if !value.Dict? { return Error(JsonObject); }
    if SchemaVersion !in value.fields { return Error(RequiredField); }
    var version := value.fields[SchemaVersion];
    if version.Array? || version.Dict? { return Uncaught; }
    if version != Str(Version()) { return Error(VersionSupported); }
    var errors := ValidateAgainstSchema(value.fields, SchemaV1());
    if errors != [] { return Error(SchemaValidation); }
    var fingerprint := Construct(value.fields);
    outcome := if fingerprint.Some? then Ok(fingerprint.value) else Error(ModelValidation);
  }

  // ---------------------------------------------------------------- the fields, spelled out

  /** What the domain model accepts in a field of version 1.0.0. */
  ghost predicate Allowed(key: Key, value: Json) {
    match key
    case SchemaVersion => value.Str? && IsVersion(value.s)
    case Protocol => value.Str? && (value.s == "modbus_tcp" || value.s == "ethernetip" || value.s == "s7comm"
                                    || value.s == "dnp3")
    case SourceAddress => value.Str?
    case DestinationAddress => value.Str?
    case MacAddress => value.Null? || value.Str?
    case IpAddress => value.Null? || value.Str?
    case Vendor => value.Null? || (value.Str? && |value.s| <= 128)
    case Model => value.Null? || (value.Str? && |value.s| <= 128)
    case FirmwareVersion => value.Null? || (value.Str? && |value.s| <= 64)
    case DeviceType => value.Null? || (value.Str? && (value.s == "PLC" || value.s == "RTU" || value.s == "HMI"
                                                      || value.s == "IED"))
    case SerialNumber => value.Null? || value.Str?
    case ProtocolData => value.Dict?
    case ParsingStatus => value.Str? && (value.s == "complete" || value.s == "partial" || value.s == "no_identity")
    case BinaryFields => value.Dict? && forall k :: k in value.fields ==> value.fields[k].Str?
    case Other(_) => true
  }

  lemma AcceptedExactly(key: Key, value: Json)
    ensures FieldAccepted(key, value) <==> Allowed(key, value)
  {
    hide IsVersion;
    if value.Str? {
      var s := value.s;
      assert s in Protocols() <==> s == "modbus_tcp" || s == "ethernetip" || s == "s7comm" || s == "dnp3";
      assert s in DeviceTypes() <==> s == "PLC" || s == "RTU" || s == "HMI" || s == "IED";
      assert s in Statuses() <==> s == "complete" || s == "partial" || s == "no_identity";
    }
  }

  ghost predicate NullOr(value: Json, text: Option<string>) {
    value == if text == None then Null else Str(text.value)
  }

  /** The attribute of the fingerprint that belongs in a field. */
  ghost predicate Says(value: Json, f: Fingerprint, key: Key) {
    match key
    case SchemaVersion => value == Str(f.schemaVersion)
    case Protocol => value == Str(f.protocol)
    case SourceAddress => value == Str(f.source)
    case DestinationAddress => value == Str(f.destination)
    case MacAddress => NullOr(value, f.mac)
    case IpAddress => NullOr(value, f.ip)
    case Vendor => NullOr(value, f.vendor)
    case Model => NullOr(value, f.model)
    case FirmwareVersion => NullOr(value, f.firmware)
    case DeviceType => NullOr(value, f.deviceType)
    case SerialNumber => NullOr(value, f.serial)
    case ProtocolData => value == Dict(f.protocolData)
    case ParsingStatus => value == Str(f.status)
    case BinaryFields => value.Dict? && value.fields.Keys == f.binaryFields.Keys
                         && forall k :: k in f.binaryFields ==> value.fields[k] == Str(f.binaryFields[k])
    case Other(_) => false
  }

  /** What is written of a fingerprint: every field but unknown ones, each with its attribute. */
  lemma WrittenExactly(f: Fingerprint, key: Key)
    ensures key in SerializedFields(f) <==> !key.Other?
    ensures !key.Other? ==> Says(SerializedFields(f)[key], f, key)
  {
    FieldsAreNamed(key);
    if !key.Other? { SerializedAt(f, key); }
    SerializedKeys(f);
    hide SerializedFields;
  }

  // ---------------------------------------------------------------- schema and model agree

  lemma TextConforms(value: Json)
    ensures Conforms(value, PlainText()) <==> value.Str?
    ensures CheckType(value, AnyOf([StringType, NullType])) <==> value.Str? || value.Null?
  {
    assert [StringType, NullType][0] == StringType && [StringType, NullType][1] == NullType;
  }

  predicate IsAddress(key: Key) { key == SourceAddress || key == DestinationAddress }

  lemma BinaryFieldsAgree(value: Json)
    ensures Conforms(value, Property(BinaryFields)) <==> FieldAccepted(BinaryFields, value)
  {
    if value.Dict? {
      forall k | k in value.fields ensures Conforms(value.fields[k], PlainText()) <==> value.fields[k].Str? {
        TextConforms(value.fields[k]);
      }
    }
  }

  lemma VersionAgrees()
    ensures Conforms(Str(Version()), Property(SchemaVersion)) && FieldAccepted(SchemaVersion, Str(Version()))
  {
    SupportedIsVersion();
  }

  /** Field by field the schema accepts what the model accepts, but for two things: the schema wants an
      address to be non-empty, and its version pattern also matches in front of a final newline. */
  lemma FieldAgrees(key: Key, value: Json)
    requires !key.Other? && (key.SchemaVersion? ==> value == Str(Version()))
    ensures Conforms(value, Property(key)) <==> FieldAccepted(key, value) && (IsAddress(key) ==> value != Str(""))
  {
    hide Protocols, DeviceTypes, Statuses, IsVersion, Matches, CheckType;
    if key.SchemaVersion? {
      VersionAgrees();
    } else if key.BinaryFields? {
      BinaryFieldsAgree(value);
    } else {
      TextConforms(value);
      DictConforms(value);
    }
  }

  lemma DictConforms(value: Json)
    ensures CheckType(value, One(ObjectType)) <==> value.Dict?
    ensures CheckType(value, One(StringType)) <==> value.Str?
  {
  }

  lemma SupportedIsVersion()
    ensures IsVersion(Version()) && AllAscii(Version()) && !EndsInNewline(Version())
  {
    assert Digits("1") && Digits("0");
    hide DecimalChar, Digits;
    AsciiDecimals("1");
    AsciiDecimals("0");
    hide Decimals;
    assert Version() == Dotted(Triple("1", "0", "0"));
    PartsOfDotted(Triple("1", "0", "0"));
    assert AllAscii(Version()) && !EndsInNewline(Version());
  }

  /** The schema of version 1.0.0 accepts exactly what the domain model accepts, when there are no fields
      the model does not know and both addresses are non-empty. */
  lemma SchemaIsModel(data: map<Key, Json>)
    requires SchemaVersion in data && data[SchemaVersion] == Str(Version())
    ensures DocumentConforms(data, SchemaV1()) <==>
              && data.Keys <= FIELDS && Construct(data).Some?
              && data[SourceAddress] != Str("") && data[DestinationAddress] != Str("")
  {
    hide Conforms, FieldAccepted, Property;
    forall k | k in data && k in FIELDS
      ensures Conforms(data[k], Property(k)) <==> FieldAccepted(k, data[k]) && (IsAddress(k) ==> data[k] != Str(""))
    {
      FieldsAreNamed(k);
      FieldAgrees(k, data[k]);
    }
    RequiredFields(data);
  }

  /** The version pattern reads the text more widely than the standard does. */
  predicate LaxVersion(key: Key, value: Json) {
    key.SchemaVersion? && value.Str? && (EndsInNewline(value.s) || !AllAscii(value.s))
  }

  /** The fields of version 1.0.0 keep clear of every departure but one: the version's own pattern. */
  lemma PropertyIsStandard(key: Key, value: Json)
    requires !key.Other?
    ensures StandardValid(value, Property(key)) <==> Conforms(value, Property(key)) && !LaxVersion(key, value)
  {
    hide IsVersion, EndsInNewline, AllAscii, StandardValid, Conforms, TooLax, TooStrict;
    hide Protocols, DeviceTypes, Statuses;
    StandardExactly(value, Property(key));
    PropertyNotStrict(key, value);
    if value.Null? && (key.Protocol? || key.ParsingStatus?) {
      NullConforms(value, key);
    } else {
      PropertyLax(key, value);
    }
  }

  lemma PropertyNotStrict(key: Key, value: Json)
    requires !key.Other?
    ensures !TooStrict(value, Property(key))
  {
    hide Protocols, DeviceTypes, Statuses;
  }

  lemma PropertyLax(key: Key, value: Json)
    requires !key.Other? && !(value.Null? && (key.Protocol? || key.ParsingStatus?))
    ensures TooLax(value, Property(key)) <==> LaxVersion(key, value)
  {
    hide Protocols, DeviceTypes, Statuses, EndsInNewline, AllAscii;
  }

  lemma NullConforms(value: Json, key: Key)
    requires !key.Other? && value.Null? && (key.Protocol? || key.ParsingStatus?)
    ensures !Conforms(value, Property(key))
  {
  }

  /** The interpreter decides the standard's validity of version 1.0.0 documents, exactly: a document is
      valid if and only if it conforms and its version neither ends in a newline nor has a digit of another
      script. */
  lemma V1IsStandard(data: map<Key, Json>)
    ensures DocumentStandardValid(data, SchemaV1()) <==>
              DocumentConforms(data, SchemaV1())
              && !(SchemaVersion in data && LaxVersion(SchemaVersion, data[SchemaVersion]))
    ensures SchemaVersion in data && data[SchemaVersion] == Str(Version()) ==>
              (DocumentStandardValid(data, SchemaV1()) <==> DocumentConforms(data, SchemaV1()))
  {
    hide Conforms, StandardValid, Property, EndsInNewline, AllAscii, IsVersion;
    SupportedIsVersion();
    forall k | k in data && k in FIELDS
      ensures StandardValid(data[k], Property(k)) <==> Conforms(data[k], Property(k)) && !LaxVersion(k, data[k])
    {
      FieldsAreNamed(k);
      PropertyIsStandard(k, data[k]);
    }
  }

  lemma RequiredFields(data: map<Key, Json>)
    requires SchemaVersion in data
    ensures (forall k :: k in SchemaV1().required ==> k in data) <==>
              Protocol in data && SourceAddress in data && DestinationAddress in data
  {
  }

  // ---------------------------------------------------------------- deserialization

  /** Every outcome, exactly: when the undocumented exception escapes, when a fingerprint comes out, and that
      the model's own validation error never does. */
  lemma OutcomesExactly(value: Json)
    ensures Deserialize(value) == Error(JsonObject) <==> !value.Dict?
    ensures Deserialize(value) == Error(RequiredField) <==> value.Dict? && SchemaVersion !in value.fields
    ensures Deserialize(value) == Error(VersionSupported) <==>
              value.Dict? && SchemaVersion in value.fields && value.fields[SchemaVersion] != Str("1.0.0")
              && !value.fields[SchemaVersion].Array? && !value.fields[SchemaVersion].Dict?
    ensures Deserialize(value) == Error(SchemaValidation) <==>
              value.Dict? && SchemaVersion in value.fields && value.fields[SchemaVersion] == Str("1.0.0")
              && !DocumentConforms(value.fields, SchemaV1())
    ensures Deserialize(value).Uncaught? <==>
              value.Dict? && SchemaVersion in value.fields
              && (value.fields[SchemaVersion].Array? || value.fields[SchemaVersion].Dict?)
    ensures Deserialize(value).Ok? <==>
              value.Dict? && SchemaVersion in value.fields && value.fields[SchemaVersion] == Str("1.0.0")
              && DocumentConforms(value.fields, SchemaV1())
    ensures Deserialize(value) != Error(ModelValidation)
  {
    hide DocumentConforms, Construct, SchemaV1;
    if value.Dict? && SchemaVersion in value.fields && value.fields[SchemaVersion] == Str(Version()) {
      SchemaIsModel(value.fields);
    }
  }

  /** A deserialized fingerprint is a valid domain object that says what the data said: written out again,
      every field of the data is there unchanged. */
  lemma DeserializedKeepsData(value: Json)
    ensures Deserialize(value).Ok? ==>
              var f := Deserialize(value).fingerprint;
              && Valid(f) && f.schemaVersion == Version()
              && forall k :: k in value.fields ==> k in SerializedFields(f) && SerializedFields(f)[k] == value.fields[k]
  {
    hide DocumentConforms;
    if Deserialize(value).Ok? {
      var data := value.fields;
      SchemaIsModel(data);
      var f := Build(data);
      ConstructedIsValid(data);
      hide Valid, Build, Accepted;
      forall k | k in data ensures k in SerializedFields(f) && SerializedFields(f)[k] == data[k] {
        FieldsAreNamed(k);
        AcceptedAt(data, k);
        FieldKept(data, k);
        SerializedAt(f, k);
      }
      VersionKept(data);
    }
  }

  /** What a field that may be left out is read as. */
  function Default(k: Key): Json {
    if k == ParsingStatus then Str("complete") else if k == ProtocolData || k == BinaryFields then Dict(map[]) else Null
  }

  lemma AbsentField(data: map<Key, Json>, k: Key)
    requires k !in data && k in FIELDS && k !in {SchemaVersion, Protocol, SourceAddress, DestinationAddress}
    ensures Field(Build(data), k) == Default(k)
  {
    hide Version;
    FieldsAreNamed(k);
    if k == BinaryFields { assert Jsons(Strings(map[])) == map[]; }
  }

  /** A field the data leave out is there with its default. */
  lemma DeserializedDefaults(value: Json, k: Key)
    requires Deserialize(value).Ok? && k in FIELDS && k !in value.fields
    ensures SerializedFields(Deserialize(value).fingerprint)[k] == Default(k)
  {
    SerializedAt(Deserialize(value).fingerprint, k) by { FieldsAreNamed(k); }
    SchemaIsModel(value.fields);
    assert Deserialize(value).fingerprint == Build(value.fields);
    hide DocumentConforms, Build, SerializedFields, Property, Field, Default;
    AbsentField(value.fields, k);
  }

  lemma VersionKept(data: map<Key, Json>)
    requires SchemaVersion in data && data[SchemaVersion] == Str(Version())
    ensures Build(data).schemaVersion == Version()
  {
  }

  lemma AcceptedAt(data: map<Key, Json>, k: Key)
    requires Accepted(data) && k in data
    ensures FieldAccepted(k, data[k])
  {
  }

  lemma LimitedAt(data: map<Key, Json>, k: Key, limit: nat)
    requires Accepted(data) && (k.Vendor? || k.Model? || k.FirmwareVersion?)
    requires limit == if k.FirmwareVersion? then FIRMWARE_LIMIT else NAME_LIMIT
    ensures Within(NullableAt(data, k), limit)
  {
    hide Accepted;
    if k in data { AcceptedAt(data, k); }
  }

  lemma ListedAt(data: map<Key, Json>)
    requires Accepted(data)
    ensures TextAt(data, Protocol, "") in Protocols() && TextAt(data, ParsingStatus, "complete") in Statuses()
    ensures var t := NullableAt(data, DeviceType); t.Some? ==> t.value in DeviceTypes()
    ensures IsVersion(TextAt(data, SchemaVersion, Version()))
  {
    DefaultsAreListed();
    SupportedIsVersion();
    hide Protocols, DeviceTypes, Statuses, IsVersion, Version;
    AcceptedAt(data, Protocol);
    if ParsingStatus in data { AcceptedAt(data, ParsingStatus); }
    if DeviceType in data { AcceptedAt(data, DeviceType); }
    if SchemaVersion in data { AcceptedAt(data, SchemaVersion); }
  }

  lemma ConstructedIsValid(data: map<Key, Json>)
    requires Accepted(data)
    ensures Valid(Build(data))
  {
    hide Accepted, TextAt, NullableAt, DictAt, IsVersion, Protocols, DeviceTypes, Statuses, Version;
    ListedAt(data);
    LimitedAt(data, Vendor, NAME_LIMIT);
    LimitedAt(data, Model, NAME_LIMIT);
    LimitedAt(data, FirmwareVersion, FIRMWARE_LIMIT);
  }

  lemma DefaultsAreListed()
    ensures "complete" in Statuses()
  {
  }

  lemma FieldKept(data: map<Key, Json>, k: Key)
    requires k in data && !k.Other? && FieldAccepted(k, data[k])
    ensures Field(Build(data), k) == data[k]
  {
    hide Protocols, DeviceTypes, Statuses, IsVersion, Strings, Jsons, Version;
    if k.BinaryFields? { JsonsOfStrings(data[k].fields); }
  }

  lemma JsonsOfStrings(fields: map<Key, Json>)
    requires forall k :: k in fields ==> fields[k].Str?
    ensures Jsons(Strings(fields)) == fields
  {
  }

  lemma StringsOfJsons(strings: map<Key, string>)
    ensures Strings(Jsons(strings)) == strings
  {
  }

  lemma SerializedAt(f: Fingerprint, k: Key)
    requires !k.Other?
    ensures k in SerializedFields(f) && SerializedFields(f)[k] == Field(f, k)
  {
    FieldsAreNamed(k);
  }

  lemma SerializedKeys(f: Fingerprint)
    ensures SerializedFields(f).Keys == FIELDS
  {
  }

  lemma SerializedText(f: Fingerprint)
    ensures var data := SerializedFields(f);
            && TextAt(data, SchemaVersion, Version()) == f.schemaVersion && TextAt(data, Protocol, "") == f.protocol
            && TextAt(data, SourceAddress, "") == f.source && TextAt(data, DestinationAddress, "") == f.destination
            && TextAt(data, ParsingStatus, "complete") == f.status
            && DictAt(data, ProtocolData) == f.protocolData && Strings(DictAt(data, BinaryFields)) == f.binaryFields
  {
    hide SerializedFields, Strings, Jsons, Version;
    SerializedAt(f, SchemaVersion);
    SerializedAt(f, Protocol);
    SerializedAt(f, SourceAddress);
    SerializedAt(f, DestinationAddress);
    SerializedAt(f, ParsingStatus);
    SerializedAt(f, ProtocolData);
    SerializedAt(f, BinaryFields);
    StringsOfJsons(f.binaryFields);
  }

  lemma SerializedNullables(f: Fingerprint)
    ensures var data := SerializedFields(f);
            && NullableAt(data, MacAddress) == f.mac && NullableAt(data, IpAddress) == f.ip
            && NullableAt(data, Vendor) == f.vendor && NullableAt(data, Model) == f.model
            && NullableAt(data, FirmwareVersion) == f.firmware && NullableAt(data, DeviceType) == f.deviceType
            && NullableAt(data, SerialNumber) == f.serial
  {
    hide SerializedFields;
    SerializedAt(f, MacAddress);
    SerializedAt(f, IpAddress);
    SerializedAt(f, Vendor);
    SerializedAt(f, Model);
    SerializedAt(f, FirmwareVersion);
    SerializedAt(f, DeviceType);
    SerializedAt(f, SerialNumber);
  }

  lemma BuildOfSerialized(f: Fingerprint)
    ensures Build(SerializedFields(f)) == f
  {
    hide SerializedFields, TextAt, NullableAt, DictAt, Strings, Version;
    SerializedText(f);
    SerializedNullables(f);
  }

  /** What is written of a valid fingerprint is accepted by the model and builds the same fingerprint. */
  lemma ConstructOfSerialized(f: Fingerprint)
    requires Valid(f)
    ensures Construct(SerializedFields(f)) == Some(f)
  {
    SerializedAt(f, Protocol);
    SerializedAt(f, SourceAddress);
    SerializedAt(f, DestinationAddress);
    BuildOfSerialized(f);
    hide FieldAccepted, Build, Valid;
    forall k | k in SerializedFields(f) ensures FieldAccepted(k, SerializedFields(f)[k]) {
      FieldsAreNamed(k);
      SerializedAccepted(f, k);
    }
  }

  lemma SerializedAccepted(f: Fingerprint, k: Key)
    requires Valid(f) && !k.Other?
    ensures FieldAccepted(k, Field(f, k))
  {
    hide Protocols, DeviceTypes, Statuses, IsVersion;
  }

  /** Round trip: reading back what was written of a valid fingerprint gives that fingerprint exactly when
      its version is 1.0.0 and both addresses are non-empty; otherwise it is an error, the one of the first
      check that fails. */
  lemma RoundTrip(f: Fingerprint)
    requires Valid(f)
    ensures Deserialize(Serialize(f)) ==
              if f.schemaVersion != "1.0.0" then Error(VersionSupported)
              else if f.source == "" || f.destination == "" then Error(SchemaValidation)
              else Ok(f)
  {
    assert Version() == "1.0.0";
    hide DocumentConforms, Construct, SchemaV1, Valid, Version, SerializedFields;
    var data := SerializedFields(f);
    ConstructOfSerialized(f);
    SerializedKeys(f);
    SerializedAt(f, SchemaVersion);
    SerializedAt(f, SourceAddress);
    SerializedAt(f, DestinationAddress);
    if f.schemaVersion == Version() { SchemaIsModel(data); }
  }
}
