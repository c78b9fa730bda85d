/** Protocol lists as comma-separated text: how the audit history renders them, and how an explicit
    update reads them back. */
module Csv {
  import opened Bytes
  import opened Text

  function Join(parts: seq<string>): string
    requires parts != []
  {
    if |parts| == 1 then parts[0] else parts[0] + "," + Join(parts[1..])
  }

  function Split(s: string): (parts: seq<string>)
    ensures parts != []
  {
    if s == "" then [""]
    else
      var rest := Split(s[1..]);
      if s[0] == ',' then [""] + rest else [[s[0]] + rest[0]] + rest[1..]
  }

  /** The stripped, non-empty parts. */
  function Cleaned(parts: seq<string>): seq<string> {
    if parts == [] then []
    else (if Strip(parts[0]) == "" then [] else [Strip(parts[0])]) + Cleaned(parts[1..])
  }

  function ParseCsv(s: string): seq<string> {
    Cleaned(Split(s))
  }

  /** A protocol list as the history shows it. */
  function Render(protocols: seq<string>): Option<string> {
    if protocols == [] then None else Some(Join(protocols))
  }

  predicate Canonical(s: string) {
    forall i :: 0 <= i < |Split(s)| ==> CleanPart(Split(s)[i])
  }

  // ---------------------------------------------------------------- splitting and joining

  lemma {:induction false} JoinOfSplit(s: string)
    ensures Join(Split(s)) == s
    decreases |s|
  {
    if s != "" {
      var rest := Split(s[1..]);
      JoinOfSplit(s[1..]);
      if s[0] == ',' {
        assert ([""] + rest)[1..] == rest;
        assert Join([""] + rest) == "" + "," + Join(rest);
      } else {
        var parts := [[s[0]] + rest[0]] + rest[1..];
        assert parts[1..] == rest[1..];
        assert Join(parts) == [s[0]] + Join(rest);
      }
    }
  }

  predicate CommaFree(part: string) {
    forall i :: 0 <= i < |part| ==> part[i] != ','
  }

  lemma {:induction false} SplitOfPart(part: string, tail: string)
    requires CommaFree(part)
    ensures Split(part) == [part]
    ensures Split(part + "," + tail) == [part] + Split(tail)
    decreases |part|
  {
    var s := part + "," + tail;
    if part == "" {
      assert s[1..] == tail;
    } else {
      assert s[1..] == part[1..] + "," + tail;
      SplitOfPart(part[1..], tail);
      assert [s[0]] + part[1..] == part;
      assert [part[1..]][1..] == [] && ([part[1..]] + Split(tail))[1..] == Split(tail);
    }
  }

  lemma {:induction false} SplitOfJoin(parts: seq<string>)
    requires parts != [] && forall i :: 0 <= i < |parts| ==> CommaFree(parts[i])
    ensures Split(Join(parts)) == parts
    decreases |parts|
  {
    if |parts| == 1 {
      SplitOfPart(parts[0], "");
    } else {
      SplitOfPart(parts[0], Join(parts[1..]));
      SplitOfJoin(parts[1..]);
      assert parts == [parts[0]] + parts[1..];
    }
  }

  lemma {:induction false} CleanedKeeps(parts: seq<string>)
    requires forall i :: 0 <= i < |parts| ==> CleanPart(parts[i])
    ensures Cleaned(parts) == parts
    decreases |parts|
  {
    if parts != [] {
      CleanIsStripped(parts[0]);
      CleanedKeeps(parts[1..]);
    }
  }

  /** Round trip: a rendered list of clean, comma-free names reads back as itself. */
  lemma ParseOfRender(protocols: seq<string>)
    requires protocols != []
    requires forall i :: 0 <= i < |protocols| ==> CommaFree(protocols[i]) && CleanPart(protocols[i])
    ensures ParseCsv(Render(protocols).value) == protocols
  {
    SplitOfJoin(protocols);
    CleanedKeeps(protocols);
  }

  // ---------------------------------------------------------------- which text survives

  /** The length of the parts, each with one separator. */
  function Weight(parts: seq<string>): nat {
    if parts == [] then 0 else |parts[0]| + 1 + Weight(parts[1..])
  }

  lemma {:induction false} WeightOfJoin(parts: seq<string>)
    requires parts != []
    ensures |Join(parts)| + 1 == Weight(parts)
    decreases |parts|
  {
    if |parts| > 1 { WeightOfJoin(parts[1..]); } else { assert parts[1..] == []; }
  }

  lemma {:induction false} CleanedLighter(parts: seq<string>)
    ensures Weight(Cleaned(parts)) <= Weight(parts)
    ensures Weight(Cleaned(parts)) == Weight(parts) ==> forall i :: 0 <= i < |parts| ==> CleanPart(parts[i])
    decreases |parts|
  {
    if parts != [] {
      CleanedLighter(parts[1..]);
      StripShorter(parts[0]);
      var first, rest := Strip(parts[0]), Cleaned(parts[1..]);
      if first == "" {
        assert Cleaned(parts) == [] + rest == rest;
      } else {
        assert Cleaned(parts) == [first] + rest && ([first] + rest)[1..] == rest;
      }
      hide Strip, Cleaned, IsSpace;
      assert parts == [parts[0]] + parts[1..];
    }
  }

  /** Storing a text and rendering it again gives the same text exactly when it is canonical. */
  lemma RenderOfParse(s: string)
    ensures Render(ParseCsv(s)) == Some(s) <==> Canonical(s)
  {
    var parts := Split(s);
    JoinOfSplit(s);
    if Canonical(s) {
      CleanedKeeps(parts);
    }
    if Render(ParseCsv(s)) == Some(s) {
      WeightOfJoin(parts);
      WeightOfJoin(Cleaned(parts));
      CleanedLighter(parts);
    }
  }
}
