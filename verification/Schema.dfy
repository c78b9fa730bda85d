/**
 * The schema interpreter: JSON values, field schemas, and the validator that collects violations.
 *
 * A member name is one of the fourteen fingerprint fields or any other text: `Other` stands for the texts
 * that name none of them.
 */
module Schema {
  import opened Bytes
  import opened Text

  datatype Key =
    | SchemaVersion | Protocol | SourceAddress | DestinationAddress | MacAddress | IpAddress | Vendor | Model
    | FirmwareVersion | DeviceType | SerialNumber | ProtocolData | ParsingStatus | BinaryFields
    | Other(name: string)

  type Path = seq<Key>

  datatype Json =
    | Null
    | Boolean(b: bool)
    | Integer(i: int)
    | Float(r: real)
    | Str(s: string)
    | Array(items: seq<Json>)
    | Dict(fields: map<Key, Json>)

  datatype TypeName =
    | NullType | StringType | NumberType | IntegerType | BooleanType | ArrayType | ObjectType | OtherType

  datatype TypeSpec = One(name: TypeName) | AnyOf(names: seq<TypeName>)

  datatype Pattern = SemanticVersion

  /** The strings an `enum` lists, and whether it lists null. */
  datatype Enumeration = Enumeration(strings: set<string>, listsNull: bool)

  datatype FieldSchema = FieldSchema(types: Option<TypeSpec>, enumeration: Option<Enumeration>, maxLength: Option<nat>,
                                     minLength: Option<nat>, pattern: Option<Pattern>, additional: Additional)

  /** `additionalProperties`: absent or true, false, or a schema for every member. */
  datatype Additional = Unrestricted | Forbidden | Each(members: FieldSchema)

  const ANYTHING := FieldSchema(None, None, None, None, None, Unrestricted)

  datatype Violation =
    | Missing(field: Key)
    | Unexpected(fields: set<Key>)
    | WrongType(path: Path)
    | NotListed(path: Path)
    | TooLong(path: Path)
    | TooShort(path: Path)
    | Mismatch(path: Path)

  // ---------------------------------------------------------------- types and patterns

  predicate CheckSingleType(value: Json, t: TypeName) {
    match t
    case NullType => value.Null?
    case StringType => value.Str?
    case NumberType => value.Integer? || value.Float?
    case IntegerType => value.Integer?
    case BooleanType => value.Boolean?
    case ArrayType => value.Array?
    case ObjectType => value.Dict?
    case OtherType => false
  }

  predicate CheckType(value: Json, types: TypeSpec) {
    match types
    case One(t) => CheckSingleType(value, t)
    case AnyOf(ts) => exists i :: 0 <= i < |ts| && CheckSingleType(value, ts[i])
  }

  datatype Triple = Triple(major: string, minor: string, patch: string)

  /** The text around its first two dots. */
  function Parts(text: string): Option<Triple> {
    var major := BeforeDot(text);
    if |major| == |text| then None
    else
      var rest := text[|major| + 1..];
      var minor := BeforeDot(rest);
      if |minor| == |rest| then None else Some(Triple(major, minor, rest[|minor| + 1..]))
  }

  function Dotted(t: Triple): string {
    t.major + ("." + (t.minor + ("." + t.patch)))
  }

  /** Three runs of decimal digits, of any script, with dots between them. */
  predicate IsVersion(text: string) {
    var p := Parts(text);
    p.Some? && Decimals(p.value.major) && Decimals(p.value.minor) && Decimals(p.value.patch)
  }

  /** Three runs of ASCII digits with dots between them: what the pattern means to the standard, whose
      digits are those of ECMA-262. */
  predicate IsAsciiVersion(text: string) {
    var p := Parts(text);
    p.Some? && Digits(p.value.major) && Digits(p.value.minor) && Digits(p.value.patch)
  }

  predicate EndsInNewline(text: string) {
    text != "" && text[|text| - 1] == '\n'
  }

  /** What the source language matches: any decimal digits, and `$` also in front of a final newline. */
  predicate Matches(pattern: Pattern, text: string) {
    IsVersion(text) || (EndsInNewline(text) && IsVersion(text[..|text| - 1]))
  }

  lemma PartsOfDotted(t: Triple)
    requires forall i :: 0 <= i < |t.major| ==> t.major[i] != '.'
    requires forall i :: 0 <= i < |t.minor| ==> t.minor[i] != '.'
    ensures Parts(Dotted(t)) == Some(t)
  {
    hide BeforeDot;
    DotParts(t.major, t.minor + ("." + t.patch));
    DotParts(t.minor, t.patch);
  }

  lemma DotParts(part: string, rest: string)
    requires forall i :: 0 <= i < |part| ==> part[i] != '.'
    ensures var text := part + ("." + rest);
            BeforeDot(text) == part && |part| < |text| && text[|part| + 1..] == rest
  {
    BeforeDotOf(part, "." + rest);
  }

  lemma DottedOfParts(text: string)
    ensures Parts(text).Some? ==> Dotted(Parts(text).value) == text
  {
    hide BeforeDot;
    var p := Parts(text);
    if p.Some? {
      DotSplits(text, p.value.major);
      DotSplits(text[|p.value.major| + 1..], p.value.minor);
    }
  }

  /** What the domain model accepts as a version, exactly. */
  lemma VersionIff(text: string)
    ensures IsVersion(text) <==>
              exists t: Triple :: Decimals(t.major) && Decimals(t.minor) && Decimals(t.patch) && text == Dotted(t)
  {
    hide Decimals, Parts, Dotted;
    DottedOfParts(text);
    forall t: Triple | Decimals(t.major) && Decimals(t.minor) && Decimals(t.patch) && text == Dotted(t)
      ensures IsVersion(text)
    {
      AsciiDecimals(t.major);
      AsciiDecimals(t.minor);
      PartsOfDotted(t);
    }
  }

  /** What the interpreter's pattern test accepts, exactly: a version, with or without a final newline. */
  lemma MatchesIff(text: string)
    ensures Matches(SemanticVersion, text) <==> IsVersion(text) || exists v :: IsVersion(v) && text == v + "\n"
  {
    hide IsVersion;
    if EndsInNewline(text) {
      assert text == text[..|text| - 1] + "\n";
    }
    forall v | IsVersion(v) && text == v + "\n" ensures Matches(SemanticVersion, text) {
      assert text[..|text| - 1] == v;
    }
  }

  lemma AsciiParts(t: Triple)
    ensures AllAscii(Dotted(t)) <==> AllAscii(t.major) && AllAscii(t.minor) && AllAscii(t.patch)
  {
    AsciiConcat(t.minor, "." + t.patch);
    AsciiConcat(".", t.patch);
    AsciiConcat(t.major, "." + (t.minor + ("." + t.patch)));
    AsciiConcat(".", t.minor + ("." + t.patch));
  }

  lemma AsciiConcat(a: string, b: string)
    ensures AllAscii(a + b) <==> AllAscii(a) && AllAscii(b)
  {
    assert forall i :: 0 <= i < |a| ==> (a + b)[i] == a[i];
    assert forall i :: 0 <= i < |b| ==> (a + b)[|a| + i] == b[i];
  }

  /** Against the standard the pattern test is lax about digits of other scripts and a final newline. */
  lemma AsciiVersionExactly(text: string)
    ensures IsAsciiVersion(text) <==> Matches(SemanticVersion, text) && !EndsInNewline(text) && AllAscii(text)
  {
    var p := Parts(text);
    DottedOfParts(text);
    if p.Some? {
      AsciiParts(p.value);
      AsciiDecimals(p.value.major);
      AsciiDecimals(p.value.minor);
      AsciiDecimals(p.value.patch);
    }
    NewlineIsNoDigit(text);
    hide Parts, Dotted, Decimals, Digits, AllAscii;
  }

  lemma NewlineIsNoDigit(text: string)
    ensures EndsInNewline(text) ==> !IsVersion(text)
  {
    var p := Parts(text);
    if p.Some? {
      DottedOfParts(text);
      AsciiDecimals(p.value.patch);
      hide Parts, Decimals;
      var patch := p.value.patch;
      assert patch != "" ==> text[|text| - 1] == patch[|patch| - 1];
    }
  }

  // ---------------------------------------------------------------- what the interpreter reports

  predicate HasType(schema: FieldSchema) {
    schema.types.Some? && schema.types.value != AnyOf([])
  }

  predicate TypeFails(value: Json, schema: FieldSchema) {
    HasType(schema) && !CheckType(value, schema.types.value)
  }

  /** A null value is never looked up in an `enum`. */
  predicate EnumFails(value: Json, schema: FieldSchema) {
    schema.enumeration.Some? && !value.Null? && !(value.Str? && value.s in schema.enumeration.value.strings)
  }

  predicate TooLongFor(value: Json, schema: FieldSchema) {
    schema.maxLength.Some? && value.Str? && |value.s| > schema.maxLength.value
  }

  predicate TooShortFor(value: Json, schema: FieldSchema) {
    schema.minLength.Some? && value.Str? && |value.s| < schema.minLength.value
  }

  predicate PatternFails(value: Json, schema: FieldSchema) {
    schema.pattern.Some? && value.Str? && !Matches(schema.pattern.value, value.s)
  }

  /** Members are looked into only where the schema's type is plainly "object". */
  predicate LooksInside(value: Json, schema: FieldSchema) {
    schema.types == Some(One(ObjectType)) && value.Dict? && schema.additional.Each?
  }

  /** The interpreter reports `v` for the value at `path`. */
  ghost predicate Reported(path: Path, value: Json, schema: FieldSchema, v: Violation)
    decreases schema, 0
  {
    if TypeFails(value, schema) then v == WrongType(path)
    else
      || (v == NotListed(path) && EnumFails(value, schema))
      || (v == TooLong(path) && TooLongFor(value, schema))
      || (v == TooShort(path) && TooShortFor(value, schema))
      || (v == Mismatch(path) && PatternFails(value, schema))
      || (LooksInside(value, schema) && InsideReported(path, value.fields, schema.additional.members, v))
  }

  ghost predicate InsideReported(path: Path, fields: map<Key, Json>, schema: FieldSchema, v: Violation)
    decreases schema, 1
  {
    exists k :: k in fields && Reported(path + [k], fields[k], schema, v)
  }

  // ---------------------------------------------------------------- conformance

  /** The value meets every keyword of the schema, as the interpreter reads them. */
  ghost predicate Conforms(value: Json, schema: FieldSchema)
    decreases schema, 0
  {
    && !TypeFails(value, schema) && !EnumFails(value, schema)
    && !TooLongFor(value, schema) && !TooShortFor(value, schema) && !PatternFails(value, schema)
    && (LooksInside(value, schema) ==> InsideConforms(value.fields, schema.additional.members))
  }

  ghost predicate InsideConforms(fields: map<Key, Json>, schema: FieldSchema)
    decreases schema, 1
  {
    forall k :: k in fields ==> Conforms(fields[k], schema)
  }

  /** A value that does not conform is reported. */
  lemma {:induction false} SomeReport(path: Path, value: Json, schema: FieldSchema) returns (v: Violation)
    requires !Conforms(value, schema)
    ensures Reported(path, value, schema, v)
    decreases schema
  {
    hide TypeFails, EnumFails, TooLongFor, TooShortFor, PatternFails, LooksInside;
    if TypeFails(value, schema) { return WrongType(path); }
    if EnumFails(value, schema) { return NotListed(path); }
    if TooLongFor(value, schema) { return TooLong(path); }
    if TooShortFor(value, schema) { return TooShort(path); }
    if PatternFails(value, schema) { return Mismatch(path); }
    assert LooksInside(value, schema);
    IsDict(value, schema);
    var k :| k in value.fields && !Conforms(value.fields[k], schema.additional.members);
    v := SomeReport(path + [k], value.fields[k], schema.additional.members);
    assert InsideReported(path, value.fields, schema.additional.members, v);
  }

  lemma IsDict(value: Json, schema: FieldSchema)
    requires LooksInside(value, schema)
    ensures value.Dict? && schema.additional.Each?
  {
  }

  /** What is reported does not conform. */
  lemma {:induction false} ReportedFails(path: Path, value: Json, schema: FieldSchema, v: Violation)
    requires Reported(path, value, schema, v)
    ensures !Conforms(value, schema)
    decreases schema
  {
    hide TypeFails, EnumFails, TooLongFor, TooShortFor, PatternFails;
    if LooksInside(value, schema) && InsideReported(path, value.fields, schema.additional.members, v) {
      var k :| k in value.fields && Reported(path + [k], value.fields[k], schema.additional.members, v);
      ReportedFails(path + [k], value.fields[k], schema.additional.members, v);
    }
  }

  // ---------------------------------------------------------------- which violation means what

  ghost predicate Under(path: Path, v: Violation) {
    !v.Missing? && !v.Unexpected? && path <= v.path
  }

  /** What is reported of a value lies at its path or under it. */
  lemma {:induction false} ReportedUnder(path: Path, value: Json, schema: FieldSchema, v: Violation)
    requires Reported(path, value, schema, v)
    ensures Under(path, v)
    decreases schema
  {
    hide TypeFails, EnumFails, TooLongFor, TooShortFor, PatternFails;
    if LooksInside(value, schema) && InsideReported(path, value.fields, schema.additional.members, v) {
      var k :| k in value.fields && Reported(path + [k], value.fields[k], schema.additional.members, v);
      ReportedUnder(path + [k], value.fields[k], schema.additional.members, v);
      assert path <= path + [k];
    }
  }

  lemma NotFromInside(path: Path, value: Json, schema: FieldSchema, v: Violation)
    requires LooksInside(value, schema) && !v.Missing? && !v.Unexpected? && v.path == path
    ensures !InsideReported(path, value.fields, schema.additional.members, v)
  {
    hide Reported;
    if InsideReported(path, value.fields, schema.additional.members, v) {
      var k :| k in value.fields && Reported(path + [k], value.fields[k], schema.additional.members, v);
      ReportedUnder(path + [k], value.fields[k], schema.additional.members, v);
      assert false;
    }
  }

  /** The value passes the type test: there is none, the list of types is empty, or one of them fits. */
  ghost predicate Typed(value: Json, schema: FieldSchema) {
    schema.types.None? || schema.types == Some(AnyOf([])) || CheckType(value, schema.types.value)
  }

  /** What each violation reported at the path of the value itself means. */
  lemma ReportedExactly(path: Path, value: Json, schema: FieldSchema)
    ensures Reported(path, value, schema, WrongType(path)) <==> !Typed(value, schema)
    ensures Reported(path, value, schema, NotListed(path)) <==>
              Typed(value, schema) && schema.enumeration.Some? && value != Null
              && forall s :: s in schema.enumeration.value.strings ==> value != Str(s)
    ensures Reported(path, value, schema, TooLong(path)) <==>
              Typed(value, schema) && schema.maxLength.Some? && value.Str? && |value.s| > schema.maxLength.value
    ensures Reported(path, value, schema, TooShort(path)) <==>
              Typed(value, schema) && schema.minLength.Some? && value.Str? && |value.s| < schema.minLength.value
    ensures Reported(path, value, schema, Mismatch(path)) <==>
              Typed(value, schema) && schema.pattern.Some? && value.Str? && !Matches(schema.pattern.value, value.s)
  {
    hide CheckType, Matches, InsideReported;
    if LooksInside(value, schema) {
      NotFromInside(path, value, schema, WrongType(path));
      NotFromInside(path, value, schema, NotListed(path));
      NotFromInside(path, value, schema, TooLong(path));
      NotFromInside(path, value, schema, TooShort(path));
      NotFromInside(path, value, schema, Mismatch(path));
    }
  }

  // ---------------------------------------------------------------- the standard's reading

  predicate IntegralFloat(value: Json) {
    value.Float? && value.r == value.r.Floor as real
  }

  /** The standard's types: an integer is any number without a fractional part. */
  predicate StandardSingleType(value: Json, t: TypeName) {
    match t
    case NullType => value == Null
    case StringType => value.Str?
    case NumberType => value.Integer? || value.Float?
    case IntegerType => value.Integer? || IntegralFloat(value)
    case BooleanType => value.Boolean?
    case ArrayType => value.Array?
    case ObjectType => value.Dict?
    case OtherType => false
  }

  predicate StandardType(value: Json, types: TypeSpec) {
    match types
    case One(t) => StandardSingleType(value, t)
    case AnyOf(ts) => exists i :: 0 <= i < |ts| && StandardSingleType(value, ts[i])
  }

  /** Validity as JSON Schema draft 2020-12 defines it: every keyword that is present asserts on its own,
      null is looked up in an `enum` like anything else, and members are looked into whatever the type
      keyword says. */
  ghost predicate StandardValid(value: Json, schema: FieldSchema)
    decreases schema, 0
  {
    && (schema.types.Some? ==> StandardType(value, schema.types.value))
    && (schema.enumeration.Some? ==>
          match value
          case Str(s) => s in schema.enumeration.value.strings
          case Null => schema.enumeration.value.listsNull
          case _ => false)
    && (schema.maxLength.Some? && value.Str? ==> |value.s| <= schema.maxLength.value)
    && (schema.minLength.Some? && value.Str? ==> |value.s| >= schema.minLength.value)
    && (schema.pattern.Some? && value.Str? ==> IsAsciiVersion(value.s))
    && (value.Dict? ==>
          match schema.additional
          case Unrestricted => true
          case Forbidden => value.fields == map[]
          case Each(members) => InsideStandardValid(value.fields, members))
  }

  ghost predicate InsideStandardValid(fields: map<Key, Json>, schema: FieldSchema)
    decreases schema, 1
  {
    forall k :: k in fields ==> StandardValid(fields[k], schema)
  }

  /** Where the interpreter lets a value pass that the standard does not: an empty type list, a null that the
      `enum` does not list, text with a final newline or digits of other scripts under a pattern, members
      where none are allowed, and an invalid member that is not looked into because the type is not plainly
      "object". */
  ghost predicate TooLax(value: Json, schema: FieldSchema)
    decreases schema, 0
  {
    || schema.types == Some(AnyOf([]))
    || (value.Null? && schema.enumeration.Some? && !schema.enumeration.value.listsNull)
    || (schema.pattern.Some? && value.Str? && (EndsInNewline(value.s) || !AllAscii(value.s)))
    || (value.Dict? &&
        match schema.additional
        case Unrestricted => false
        case Forbidden => value.fields != map[]
        case Each(members) =>
          if LooksInside(value, schema) then InsideTooLax(value.fields, members)
          else !InsideStandardValid(value.fields, members))
  }

  ghost predicate InsideTooLax(fields: map<Key, Json>, schema: FieldSchema)
    decreases schema, 1
  {
    exists k :: k in fields && TooLax(fields[k], schema)
  }

  predicate Lists(types: TypeSpec, t: TypeName) {
    match types
    case One(name) => name == t
    case AnyOf(names) => t in names
  }

  /** A number like 1.0 where the schema's types allow integers but not numbers. */
  predicate NotQuiteInteger(value: Json, schema: FieldSchema) {
    && IntegralFloat(value) && schema.types.Some?
    && Lists(schema.types.value, IntegerType) && !Lists(schema.types.value, NumberType)
  }

  /** Where the interpreter refuses what the standard accepts: a number like 1.0 where only integers are
      allowed, there or in a member. */
  ghost predicate TooStrict(value: Json, schema: FieldSchema)
    decreases schema, 0
  {
    schema.enumeration.None? &&
    (|| NotQuiteInteger(value, schema)
     || (LooksInside(value, schema) && InsideTooStrict(value.fields, schema.additional.members)))
  }

  /** Some member is refused and every other one is rightly accepted. */
  ghost predicate InsideTooStrict(fields: map<Key, Json>, schema: FieldSchema)
    decreases schema, 1
  {
    && (exists k :: k in fields && TooStrict(fields[k], schema))
    && forall k :: k in fields ==>
         TooStrict(fields[k], schema) || (Conforms(fields[k], schema) && !TooLax(fields[k], schema))
  }

  /** The interpreter against the standard, exactly, for every value and every schema: what is valid is what
      conforms without a lax reading, and what is refused by the strict one. */
  lemma {:induction false} StandardExactly(value: Json, schema: FieldSchema)
    ensures StandardValid(value, schema) <==>
              (Conforms(value, schema) && !TooLax(value, schema)) || TooStrict(value, schema)
    ensures TooStrict(value, schema) ==> !Conforms(value, schema)
    decreases schema, 0
  {
    hide IsAsciiVersion, PatternFails, CheckType, StandardType, TypeFails, EndsInNewline, AllAscii, NotQuiteInteger;
    hide InsideStandardValid, InsideConforms, InsideTooLax, InsideTooStrict;
    TypesExactly(value, schema);
    PatternExactly(value, schema);
    EnumExactly(value, schema);
    if value.Dict? && schema.additional.Each? {
      InsideExactly(value.fields, schema.additional.members);
    }
  }

  lemma {:induction false} InsideExactly(fields: map<Key, Json>, schema: FieldSchema)
    ensures InsideStandardValid(fields, schema) <==>
              (InsideConforms(fields, schema) && !InsideTooLax(fields, schema)) || InsideTooStrict(fields, schema)
    ensures InsideTooStrict(fields, schema) ==> !InsideConforms(fields, schema)
    decreases schema, 1
  {
    hide StandardValid, Conforms, TooLax, TooStrict;
    forall k | k in fields
      ensures StandardValid(fields[k], schema) <==>
                (Conforms(fields[k], schema) && !TooLax(fields[k], schema)) || TooStrict(fields[k], schema)
      ensures TooStrict(fields[k], schema) ==> !Conforms(fields[k], schema)
    {
      StandardExactly(fields[k], schema);
    }
  }

  lemma EnumExactly(value: Json, schema: FieldSchema)
    ensures schema.enumeration.Some? ==>
              ((value.Str? && value.s in schema.enumeration.value.strings)
               || (value.Null? && schema.enumeration.value.listsNull) <==>
               !EnumFails(value, schema) && !(value.Null? && !schema.enumeration.value.listsNull))
  {
  }

  lemma TypesExactly(value: Json, schema: FieldSchema)
    ensures (schema.types.Some? ==> StandardType(value, schema.types.value)) <==>
              || (!TypeFails(value, schema) && schema.types != Some(AnyOf([])))
              || NotQuiteInteger(value, schema)
    ensures NotQuiteInteger(value, schema) ==> value.Float? && TypeFails(value, schema)
    ensures LooksInside(value, schema) ==> !TypeFails(value, schema)
  {
    if schema.types.Some? && schema.types.value.AnyOf? {
      var ts := schema.types.value.names;
      assert forall i :: 0 <= i < |ts| && CheckSingleType(value, ts[i]) ==> StandardSingleType(value, ts[i]);
      if i :| 0 <= i < |ts| && StandardSingleType(value, ts[i]) && !CheckSingleType(value, ts[i]) {
        assert ts[i] == IntegerType;
      }
      if i :| 0 <= i < |ts| && ts[i] == IntegerType {
        assert IntegralFloat(value) ==> StandardSingleType(value, ts[i]);
      }
      if i :| 0 <= i < |ts| && ts[i] == NumberType { assert value.Float? ==> CheckSingleType(value, ts[i]); }
    }
  }

  lemma PatternExactly(value: Json, schema: FieldSchema)
    ensures (schema.pattern.Some? && value.Str? ==> IsAsciiVersion(value.s)) <==>
              !PatternFails(value, schema)
              && !(schema.pattern.Some? && value.Str? && (EndsInNewline(value.s) || !AllAscii(value.s)))
  {
    hide Matches, IsAsciiVersion, EndsInNewline, AllAscii;
    if value.Str? { AsciiVersionExactly(value.s); }
    if schema.pattern.Some? {
      match schema.pattern.value { case SemanticVersion => }
    }
  }

  // ---------------------------------------------------------------- each departure is real

  lemma EmptyTypeListAcceptsAnything(value: Json)
    ensures var schema := ANYTHING.(types := Some(AnyOf([])));
            Conforms(value, schema) && !StandardValid(value, schema)
  {
  }

  lemma NullSkipsEnum()
    ensures var schema := ANYTHING.(enumeration := Some(Enumeration({"PLC"}, false)));
            Conforms(Null, schema) && !StandardValid(Null, schema)
  {
  }

  lemma UnionTypeSkipsMembers(k: Key)
    ensures var schema := ANYTHING.(types := Some(AnyOf([ObjectType, NullType])),
                                    additional := Each(ANYTHING.(types := Some(One(StringType)))));
            Conforms(Dict(map[k := Null]), schema) && !StandardValid(Dict(map[k := Null]), schema)
  {
    var inner := ANYTHING.(types := Some(One(StringType)));
    assert CheckSingleType(Dict(map[k := Null]), [ObjectType, NullType][0]);
    assert k in map[k := Null] && !StandardValid(Null, inner);
  }

  lemma ForbiddenMembersPass(k: Key)
    ensures var schema := ANYTHING.(types := Some(One(ObjectType)), additional := Forbidden);
            Conforms(Dict(map[k := Null]), schema) && !StandardValid(Dict(map[k := Null]), schema)
  {
    assert k in map[k := Null];
  }

  lemma FinalNewlineMatches(text: string)
    requires IsVersion(text)
    ensures var schema, value := ANYTHING.(pattern := Some(SemanticVersion)), Str(text + "\n");
            Conforms(value, schema) && !StandardValid(value, schema)
  {
    var long := text + "\n";
    assert long[..|text|] == text && EndsInNewline(long);
    AsciiVersionExactly(long);
    hide IsVersion, IsAsciiVersion;
  }

  lemma OtherDigitsMatch(text: string)
    requires IsVersion(text) && !AllAscii(text)
    ensures var schema, value := ANYTHING.(pattern := Some(SemanticVersion)), Str(text);
            Conforms(value, schema) && !StandardValid(value, schema)
  {
    AsciiVersionExactly(text);
    hide IsVersion, IsAsciiVersion;
  }

  lemma IntegralFloatRefused(i: int)
    ensures var schema := ANYTHING.(types := Some(One(IntegerType)));
            !Conforms(Float(i as real), schema) && StandardValid(Float(i as real), schema)
  {
  }

  // ---------------------------------------------------------------- the interpreter

  /** The collected errors are exactly the violations, and there are none exactly when the value conforms. */
  method ValidateField(path: Path, value: Json, schema: FieldSchema) returns (errors: seq<Violation>)
    ensures forall v :: v in errors <==> Reported(path, value, schema, v)
    ensures errors == [] <==> Conforms(value, schema)
    decreases schema, 1
  {
    errors := CollectViolations(path, value, schema);
    hide Conforms, Reported;
    if errors != [] {
      assert errors[0] in errors;
      ReportedFails(path, value, schema, errors[0]);
    } else if !Conforms(value, schema) {
      var v := SomeReport(path, value, schema);
    }
  }

  method CollectViolations(path: Path, value: Json, schema: FieldSchema) returns (errors: seq<Violation>)
    ensures forall v :: v in errors <==> Reported(path, value, schema, v)
    decreases schema, 0
  {
    hide CheckType, Matches;
    errors := [];
    if TypeFails(value, schema) { return [WrongType(path)]; }
    if EnumFails(value, schema) { errors := errors + [NotListed(path)]; }
    if TooLongFor(value, schema) { errors := errors + [TooLong(path)]; }
    if TooShortFor(value, schema) { errors := errors + [TooShort(path)]; }
    if PatternFails(value, schema) { errors := errors + [Mismatch(path)]; }
    if LooksInside(value, schema) {
      ghost var own := errors;
      var todo := value.fields.Keys;
      while todo != {}
        invariant todo <= value.fields.Keys
        invariant forall v :: v in errors <==>
                    v in own || exists k :: k in value.fields.Keys - todo
                                            && Reported(path + [k], value.fields[k], schema.additional.members, v)
        decreases todo
      {
        var k :| k in todo;
        var inside := ValidateField(path + [k], value.fields[k], schema.additional.members);
        errors := errors + inside;
        todo := todo - {k};
      }
    }
  }

  /** The keywords of a whole document. */
  datatype DocumentSchema = DocumentSchema(required: seq<Key>, properties: map<Key, FieldSchema>, closed: bool)

  ghost predicate DocumentReported(data: map<Key, Json>, schema: DocumentSchema, v: Violation) {
    if exists k :: k in schema.required && k !in data then
      v.Missing? && v.field in schema.required && v.field !in data
    else
      || (schema.closed && v == Unexpected(data.Keys - schema.properties.Keys) && v.fields != {})
      || exists k :: k in data && k in schema.properties && Reported([k], data[k], schema.properties[k], v)
  }

  ghost predicate DocumentConforms(data: map<Key, Json>, schema: DocumentSchema) {
    && (forall k :: k in schema.required ==> k in data)
    && (schema.closed ==> data.Keys <= schema.properties.Keys)
    && (forall k :: k in data && k in schema.properties ==> Conforms(data[k], schema.properties[k]))
  }

  /** Validity of a document by the standard. */
  ghost predicate DocumentStandardValid(data: map<Key, Json>, schema: DocumentSchema) {
    && (forall k :: k in schema.required ==> k in data)
    && (schema.closed ==> data.Keys <= schema.properties.Keys)
    && (forall k :: k in data && k in schema.properties ==> StandardValid(data[k], schema.properties[k]))
  }

  /** What the violations reported of a document mean: while a required field is missing nothing else is reported. */
  lemma DocumentReportedExactly(data: map<Key, Json>, schema: DocumentSchema, v: Violation)
    ensures var complete := forall k :: k in schema.required ==> k in data;
            && (!complete && DocumentReported(data, schema, v) ==> v.Missing?)
            && (v.Missing? ==> (DocumentReported(data, schema, v) <==> v.field in schema.required && v.field !in data))
            && (v.Unexpected? ==>
                 (DocumentReported(data, schema, v) <==>
                   complete && schema.closed && v.fields != {}
                   && forall k :: k in v.fields <==> k in data && k !in schema.properties))
            && (!v.Missing? && !v.Unexpected? && complete ==>
                 (DocumentReported(data, schema, v) <==>
                   v.path != [] && v.path[0] in data && v.path[0] in schema.properties
                   && Reported([v.path[0]], data[v.path[0]], schema.properties[v.path[0]], v)))
  {
    hide Reported;
    if v.Unexpected? && (forall k :: k in v.fields <==> k in data && k !in schema.properties) {
      assert v.fields == data.Keys - schema.properties.Keys;
    }
    if k :| k in data && k in schema.properties && Reported([k], data[k], schema.properties[k], v) {
      ReportedUnder([k], data[k], schema.properties[k], v);
      assert v.path[0] == k;
    }
  }

  lemma SomeDocumentReport(data: map<Key, Json>, schema: DocumentSchema) returns (v: Violation)
    requires !DocumentConforms(data, schema)
    ensures DocumentReported(data, schema, v)
  {
    hide Conforms, Reported;
    if missing :| missing in schema.required && missing !in data { return Missing(missing); }
    if schema.closed && !(data.Keys <= schema.properties.Keys) {
      var extra := data.Keys - schema.properties.Keys;
      var k :| k in data.Keys && k !in schema.properties.Keys;
      assert k in extra;
      return Unexpected(extra);
    }
    var k :| k in data && k in schema.properties && !Conforms(data[k], schema.properties[k]);
    v := SomeReport([k], data[k], schema.properties[k]);
  }

  lemma DocumentReportedFails(data: map<Key, Json>, schema: DocumentSchema, v: Violation)
    requires DocumentReported(data, schema, v)
    ensures !DocumentConforms(data, schema)
  {
    hide Conforms, Reported;
    if k :| k in data && k in schema.properties && Reported([k], data[k], schema.properties[k], v) {
      ReportedFails([k], data[k], schema.properties[k], v);
    }
  }

  method MissingFields(data: map<Key, Json>, required: seq<Key>) returns (errors: seq<Violation>)
    ensures forall v :: v in errors <==> v.Missing? && v.field in required && v.field !in data
  {
    errors := [];
    for i := 0 to |required|
      invariant forall v :: v in errors <==> v.Missing? && v.field in required[..i] && v.field !in data
    {
      if required[i] !in data { errors := errors + [Missing(required[i])]; }
    }
  }

  method ValidateAgainstSchema(data: map<Key, Json>, schema: DocumentSchema) returns (errors: seq<Violation>)
    ensures forall v :: v in errors <==> DocumentReported(data, schema, v)
    ensures errors == [] <==> DocumentConforms(data, schema)
  {
    hide Reported, Conforms, DocumentConforms;
    errors := MissingFields(data, schema.required);
    if errors != [] {
      assert errors[0] in errors;
      DocumentReportedFails(data, schema, errors[0]);
      return;
    }
    assert forall k :: k in schema.required && k !in data ==> Missing(k) in errors;
    if schema.closed {
      var extra := data.Keys - schema.properties.Keys;
      if extra != {} { errors := errors + [Unexpected(extra)]; }
    }
    ghost var own := errors;
    var todo := data.Keys;
    while todo != {}
      invariant todo <= data.Keys
      invariant forall v :: v in errors <==>
                  v in own || exists k :: k in data.Keys - todo && k in schema.properties
                                          && Reported([k], data[k], schema.properties[k], v)
      decreases todo
    {
      var k :| k in todo;
      if k in schema.properties {
        var inside := ValidateField([k], data[k], schema.properties[k]);
        errors := errors + inside;
      }
      todo := todo - {k};
    }
    if errors != [] {
      assert errors[0] in errors;
      DocumentReportedFails(data, schema, errors[0]);
    } else if !DocumentConforms(data, schema) {
      var v := SomeDocumentReport(data, schema);
    }
  }
}
