/** The text fields of S7comm records: null-padded ASCII, and the test for version-like text. */
module PaddedText {
  import opened Bytes
  import opened Text

  // ---------------------------------------------------------------- text fields

  function AsciiChar(b: byte): char {
    if b < 128 then b as int as char else '\U{FFFD}'
  }

  function DecodeAscii(data: Packet): (text: string)
    ensures |text| == |data|
  {
    seq(|data|, i requires 0 <= i < |data| => AsciiChar(data[i]))
  }

  function BeforeNul(data: Packet): (part: Packet) {
    if data == [] || data[0] == 0 then [] else [data[0]] + BeforeNul(data[1..])
  }

  /** `None` stands for a field that is empty once padding and white space are gone. */
  function DecodeNullPadded(data: Packet): (text: Option<string>) {
    var stripped := Strip(DecodeAscii(BeforeNul(data)));
    if stripped == "" then None else Some(stripped)
  }

  predicate PlainAscii(text: string) {
    forall i :: 0 <= i < |text| ==> '\0' < text[i] < 128 as char
  }

  function EncodeAscii(text: string): (data: Packet)
    requires PlainAscii(text)
    ensures |data| == |text|
  {
    seq(|text|, i requires 0 <= i < |text| => text[i] as int as byte)
  }

  function Zeros(n: nat): (data: Packet) {
    seq(n, _ => 0 as byte)
  }

  /** A value that fits a field: absent, or clean text no longer than the field. */
  predicate Fits(field: Option<string>, width: nat) {
    field.Some? ==> PlainAscii(field.value) && CleanPart(field.value) && |field.value| <= width
  }

  function EncodePadded(field: Option<string>, width: nat): (data: Packet)
    requires Fits(field, width)
    ensures |data| == width
  {
    match field
    case None => Zeros(width)
    case Some(text) => EncodeAscii(text) + Zeros(width - |text|)
  }

  lemma {:induction false} BeforeNulOfPadded(text: Packet, zeros: nat)
    requires forall i :: 0 <= i < |text| ==> text[i] != 0
    ensures BeforeNul(text + Zeros(zeros)) == text
    decreases |text|
  {
    var data := text + Zeros(zeros);
    if text == [] {
      assert data == Zeros(zeros);
      assert zeros > 0 ==> data[0] == 0;
    } else {
      assert data[1..] == text[1..] + Zeros(zeros);
      BeforeNulOfPadded(text[1..], zeros);
      assert data[0] == text[0];
    }
  }

  /** Round trip of a text field. */
  lemma DecodePadded(field: Option<string>, width: nat)
    requires Fits(field, width)
    ensures DecodeNullPadded(EncodePadded(field, width)) == field
  {
    match field {
      case None =>
        assert Zeros(width) == [] + Zeros(width);
        BeforeNulOfPadded([], width);
        assert DecodeAscii([]) == "";
      case Some(text) =>
        BeforeNulOfPadded(EncodeAscii(text), width - |text|);
        assert DecodeAscii(EncodeAscii(text)) == text;
        CleanIsStripped(text);
    }
  }

  lemma {:induction false} BeforeNulIs(data: Packet)
    ensures var part := BeforeNul(data);
            part <= data && (forall i :: 0 <= i < |part| ==> data[i] != 0) && (|part| < |data| ==> data[|part|] == 0)
    decreases |data|
  {
    if data != [] && data[0] != 0 { BeforeNulIs(data[1..]); }
  }

  /** What any field reads as: its bytes up to the first NUL as ASCII characters, others replaced, without the white
      space around them, and none if nothing is left. */
  lemma FieldExactly(data: Packet) returns (text: string, before: string, behind: string)
    ensures |text| <= |data| && (|text| < |data| ==> data[|text|] == 0)
    ensures forall i :: 0 <= i < |text| ==>
              data[i] != 0 && text[i] == if data[i] < 128 then data[i] as int as char else '\U{FFFD}'
    ensures AllSpace(before) && AllSpace(behind)
    ensures match DecodeNullPadded(data)
            case None => text == before + behind
            case Some(v) => text == before + v + behind && CleanPart(v)
  {
    hide Strip, AllSpace;
    BeforeNulIs(data);
    text := DecodeAscii(BeforeNul(data));
    before, behind := StripTakes(text);
    if Strip(text) == "" { assert before + "" + behind == before + behind; }
  }

  // ---------------------------------------------------------------- version-like text

  predicate LeadChar(c: char) { c == 'V' || c == 'v' || c == ' ' }

  function WithoutLead(text: string): (rest: string)
    ensures |rest| <= |text|
  {
    if text != "" && LeadChar(text[0]) then WithoutLead(text[1..]) else text
  }

  predicate LooksLikeVersion(text: string) {
    var stripped := WithoutLead(text);
    var major := BeforeDot(stripped);
    |major| < |stripped| && Digits(major) && Digits(BeforeDot(stripped[|major| + 1..]))
  }

  /** `text` is letters V, v and blanks, then digits, a dot, digits, and nothing or a further dot. */
  ghost predicate VersionShape(text: string, lead: string, major: string, minor: string, rest: string) {
    && text == lead + (major + ("." + (minor + rest)))
    && (forall i :: 0 <= i < |lead| ==> LeadChar(lead[i]))
    && Digits(major) && Digits(minor)
    && (rest != "" ==> rest[0] == '.')
  }

  lemma {:induction false} WithoutLeadSplits(text: string)
    ensures var rest := WithoutLead(text);
            && text == text[..|text| - |rest|] + rest
            && (forall i :: 0 <= i < |text| - |rest| ==> LeadChar(text[i]))
            && (rest != "" ==> !LeadChar(rest[0]))
    decreases |text|
  {
    if text != "" && LeadChar(text[0]) {
      WithoutLeadSplits(text[1..]);
      var rest := WithoutLead(text);
      assert text == [text[0]] + text[1..];
      assert text[1..][..|text| - 1 - |rest|] + rest == text[1..];
    }
  }

  lemma {:induction false} WithoutLeadOf(lead: string, rest: string)
    requires forall i :: 0 <= i < |lead| ==> LeadChar(lead[i])
    requires rest != "" && !LeadChar(rest[0])
    ensures WithoutLead(lead + rest) == rest
    decreases |lead|
  {
    if lead == "" {
      assert lead + rest == rest;
    } else {
      assert (lead + rest)[1..] == lead[1..] + rest;
      WithoutLeadOf(lead[1..], rest);
    }
  }

  lemma VersionOfShape(text: string, lead: string, major: string, minor: string, rest: string)
    requires VersionShape(text, lead, major, minor, rest)
    ensures LooksLikeVersion(text)
  {
    var tail := minor + rest;
    assert (major + ("." + tail))[0] == major[0];
    WithoutLeadOf(lead, major + ("." + tail));
    BeforeDotOf(major, "." + tail);
    assert (major + ("." + tail))[|major| + 1..] == tail;
    BeforeDotOf(minor, rest);
  }

  lemma ShapeOfVersion(text: string) returns (lead: string, major: string, minor: string, rest: string)
    requires LooksLikeVersion(text)
    ensures VersionShape(text, lead, major, minor, rest)
  {
    WithoutLeadSplits(text);
    hide WithoutLead, BeforeDot, LeadChar, Digits;
    var stripped := WithoutLead(text);
    lead, major := text[..|text| - |stripped|], BeforeDot(stripped);
    var after := stripped[|major| + 1..];
    minor := BeforeDot(after);
    rest := after[|minor|..];
    DotSplits(stripped, major);
    assert after == minor + rest;
  }

  /** What the version test accepts, exactly. */
  lemma VersionExactly(text: string)
    ensures LooksLikeVersion(text) <==>
              exists lead, major, minor, rest :: VersionShape(text, lead, major, minor, rest)
  {
    hide LooksLikeVersion, VersionShape;
    if LooksLikeVersion(text) {
      var lead, major, minor, rest := ShapeOfVersion(text);
    }
    forall lead, major, minor, rest | VersionShape(text, lead, major, minor, rest) ensures LooksLikeVersion(text) {
      VersionOfShape(text, lead, major, minor, rest);
    }
  }
}
