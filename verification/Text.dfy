/** The string operations of the source's language that the parsers and the inventory share. */
module Text {
  import opened Bytes

  /** The characters `str.strip` removes. */
  predicate IsSpace(c: char) {
    || '\t' <= c <= '\r' || '\U{1C}' <= c <= ' '
    || c in {'\U{85}', '\U{A0}', '\U{1680}', '\U{2028}', '\U{2029}', '\U{202F}', '\U{205F}', '\U{3000}'}
    || '\U{2000}' <= c <= '\U{200A}'
  }

  function StripLeft(s: string): (r: string)
    ensures |r| <= |s|
  {
    if s != [] && IsSpace(s[0]) then StripLeft(s[1..]) else s
  }

  function StripRight(s: string): (r: string)
    ensures |r| <= |s|
  {
    if s != [] && IsSpace(s[|s| - 1]) then StripRight(s[..|s| - 1]) else s
  }

  function Strip(s: string): (r: string)
    ensures |r| <= |s|
  {
    StripRight(StripLeft(s))
  }

  /** `str.strip` of NUL characters. */
  function StripNuls(s: string): (r: string)
    ensures |r| <= |s|
    decreases |s|
  {
    if s != [] && s[0] == '\0' then StripNuls(s[1..])
    else if s != [] && s[|s| - 1] == '\0' then StripNuls(s[..|s| - 1])
    else s
  }

  predicate Within(text: Option<string>, limit: nat) {
    text.Some? ==> |text.value| <= limit
  }

  function Truncate(text: Option<string>, limit: nat): (r: Option<string>)
    ensures Within(r, limit)
  {
    if text.Some? && |text.value| > limit then Some(text.value[..limit]) else text
  }

  /** The field is the entry of `k`, cut to at most `limit` characters, and absent exactly when there is none. */
  predicate Shows<K>(field: Option<string>, entries: map<K, string>, k: K, limit: nat) {
    && (field.Some? <==> k in entries)
    && (field.Some? ==> field.value <= entries[k] && |field.value| == Min(|entries[k]|, limit))
  }

  /** Non-empty and without surrounding white space. */
  predicate CleanPart(part: string) {
    part != "" && !IsSpace(part[0]) && !IsSpace(part[|part| - 1])
  }

  lemma CleanIsStripped(part: string)
    requires CleanPart(part)
    ensures Strip(part) == part
  {
  }

  lemma StripShorter(part: string)
    ensures |Strip(part)| == |part| && part != "" ==> CleanPart(part)
  {
  }

  lemma {:induction false} StripRightIsClean(s: string)
    requires s != "" && !IsSpace(s[0])
    ensures CleanPart(StripRight(s)) && StripRight(s)[0] == s[0]
    decreases |s|
  {
    if IsSpace(s[|s| - 1]) { StripRightIsClean(s[..|s| - 1]); }
  }

  /** What is left after stripping is empty or begins and ends with something else than white space. */
  lemma {:induction false} StripIsClean(s: string)
    ensures Strip(s) == "" || CleanPart(Strip(s))
    decreases |s|
  {
    if s != "" {
      if IsSpace(s[0]) { StripIsClean(s[1..]); } else { StripRightIsClean(s); }
    }
  }

  ghost predicate AllSpace(s: string) {
    forall i :: 0 <= i < |s| ==> IsSpace(s[i])
  }

  ghost predicate AllNul(s: string) {
    forall i :: 0 <= i < |s| ==> s[i] == '\0'
  }

  lemma {:induction false} StripLeftTakes(s: string) returns (before: string)
    ensures s == before + StripLeft(s) && AllSpace(before)
    decreases |s|
  {
    if s != "" && IsSpace(s[0]) {
      var rest := StripLeftTakes(s[1..]);
      before := [s[0]] + rest;
      assert s == [s[0]] + s[1..];
    } else {
      before := "";
    }
  }

  lemma {:induction false} StripRightTakes(s: string) returns (behind: string)
    ensures s == StripRight(s) + behind && AllSpace(behind)
    decreases |s|
  {
    if s != "" && IsSpace(s[|s| - 1]) {
      var rest := StripRightTakes(s[..|s| - 1]);
      behind := rest + [s[|s| - 1]];
      assert s == s[..|s| - 1] + [s[|s| - 1]];
    } else {
      behind := "";
    }
  }

  /** Stripping takes white space off both ends and nothing else. */
  lemma StripTakes(s: string) returns (before: string, behind: string)
    ensures s == before + Strip(s) + behind && AllSpace(before) && AllSpace(behind)
    ensures Strip(s) == "" || CleanPart(Strip(s))
  {
    StripIsClean(s);
    before := StripLeftTakes(s);
    behind := StripRightTakes(StripLeft(s));
  }

  /** The same for NUL characters. */
  lemma {:induction false} StripNulsTakes(s: string) returns (before: string, behind: string)
    ensures s == before + StripNuls(s) + behind && AllNul(before) && AllNul(behind)
    ensures var r := StripNuls(s); r != "" ==> r[0] != '\0' && r[|r| - 1] != '\0'
    decreases |s|
  {
    before, behind := "", "";
    if s != "" && s[0] == '\0' {
      before, behind := StripNulsTakes(s[1..]);
      before := [s[0]] + before;
      assert s == [s[0]] + s[1..];
    } else if s != "" && s[|s| - 1] == '\0' {
      before, behind := StripNulsTakes(s[..|s| - 1]);
      behind := behind + [s[|s| - 1]];
      assert s == s[..|s| - 1] + [s[|s| - 1]];
    }
  }

  predicate DigitChar(c: char) { '0' <= c <= '9' }

  predicate Digits(text: string) {
    text != "" && forall i :: 0 <= i < |text| ==> DigitChar(text[i])
  }

  /** The text up to the first dot. */
  function BeforeDot(text: string): (part: string)
    ensures |part| <= |text| && part == text[..|part|]
    ensures forall i :: 0 <= i < |part| ==> part[i] != '.'
    ensures |part| < |text| ==> text[|part|] == '.'
  {
    if text == "" || text[0] == '.' then "" else [text[0]] + BeforeDot(text[1..])
  }

  lemma {:induction false} BeforeDotOf(part: string, rest: string)
    requires forall i :: 0 <= i < |part| ==> part[i] != '.'
    requires rest != "" ==> rest[0] == '.'
    ensures BeforeDot(part + rest) == part
    decreases |part|
  {
    if part == "" {
      assert part + rest == rest;
    } else {
      assert (part + rest)[1..] == part[1..] + rest;
      BeforeDotOf(part[1..], rest);
    }
  }

  lemma DotSplits(text: string, part: string)
    requires |part| < |text| && part == text[..|part|] && text[|part|] == '.'
    ensures text == part + ("." + text[|part| + 1..])
  {
  }

  // ---------------------------------------------------------------- digits beyond ASCII

  /** The zeros of the decimal digits of Unicode 14.0, the table of Python 3.11; the other nine digits follow
      each. */
  predicate DecimalZero(z: int) {
    || z == 0x30 || z == 0x660 || z == 0x6F0 || z == 0x7C0 || z == 0x966 || z == 0x9E6 || z == 0xA66
    || z == 0xAE6 || z == 0xB66 || z == 0xBE6 || z == 0xC66 || z == 0xCE6 || z == 0xD66 || z == 0xDE6
    || z == 0xE50 || z == 0xED0 || z == 0xF20 || z == 0x1040 || z == 0x1090 || z == 0x17E0 || z == 0x1810
    || z == 0x1946 || z == 0x19D0 || z == 0x1A80 || z == 0x1A90 || z == 0x1B50 || z == 0x1BB0 || z == 0x1C40
    || z == 0x1C50 || z == 0xA620 || z == 0xA8D0 || z == 0xA900 || z == 0xA9D0 || z == 0xA9F0 || z == 0xAA50
    || z == 0xABF0 || z == 0xFF10 || z == 0x104A0 || z == 0x10D30 || z == 0x11066 || z == 0x110F0
    || z == 0x11136 || z == 0x111D0 || z == 0x112F0 || z == 0x11450 || z == 0x114D0 || z == 0x11650
    || z == 0x116C0 || z == 0x11730 || z == 0x118E0 || z == 0x11950 || z == 0x11C50 || z == 0x11D50
    || z == 0x11DA0 || z == 0x16A60 || z == 0x16AC0 || z == 0x16B50 || z == 0x1D7CE || z == 0x1D7D8
    || z == 0x1D7E2 || z == 0x1D7EC || z == 0x1D7F6 || z == 0x1E140 || z == 0x1E2F0 || z == 0x1E950
    || z == 0x1FBF0
  }

  /** What `\d` matches in the source language. */
  predicate DecimalChar(c: char) {
    exists z :: c as int - 10 < z <= c as int && DecimalZero(z)
  }

  predicate Decimals(text: string) {
    text != "" && forall i :: 0 <= i < |text| ==> DecimalChar(text[i])
  }

  predicate AllAscii(text: string) {
    forall i :: 0 <= i < |text| ==> text[i] as int < 128
  }

  /** Among the ASCII characters only the ASCII digits are decimal. */
  lemma AsciiDecimal(c: char)
    ensures c as int < 128 ==> (DecimalChar(c) <==> DigitChar(c))
    ensures DigitChar(c) ==> DecimalChar(c)
  {
    if DigitChar(c) { assert DecimalZero(0x30); }
  }

  lemma AsciiDecimals(text: string)
    ensures Digits(text) <==> Decimals(text) && AllAscii(text)
    ensures Decimals(text) ==> forall i :: 0 <= i < |text| ==> text[i] != '.' && text[i] != '\n'
  {
    hide DecimalChar;
    forall i | 0 <= i < |text|
      ensures text[i] as int < 128 ==> (DecimalChar(text[i]) <==> DigitChar(text[i]))
      ensures DigitChar(text[i]) ==> DecimalChar(text[i])
    {
      AsciiDecimal(text[i]);
    }
  }
}
