/** The exact set of header blocks that the parser accepts. */
module HeaderLanguage {
  import opened Text
  import opened Http
  import opened HttpSyntax
  import opened RoundTrip

  function Spaces(n: nat): (s: string)
    ensures |s| == n && forall i | 0 <= i < n :: s[i] == ' '
  {
    seq(n, _ => ' ')
  }

  /** A field as it may be written: any number of spaces may precede the value. */
  function PaddedText(f: Field, pad: nat): string {
    f.name + (":" + (Spaces(pad) + (f.value + CRLF)))
  }

  function BlockText(fs: seq<Field>, pads: seq<nat>): string
    requires |fs| == |pads|
  {
    if fs == [] then "" else PaddedText(fs[0], pads[0]) + BlockText(fs[1..], pads[1..])
  }

  lemma PaddedSplit(f: Field, pad: nat, rest: string)
    ensures PaddedText(f, pad) + rest == f.name + (":" + (Spaces(pad) + (f.value + CRLF + rest)))
  {
    Assoc(f.name, ":" + (Spaces(pad) + (f.value + CRLF)), rest);
    Assoc(":", Spaces(pad) + (f.value + CRLF), rest);
    Assoc(Spaces(pad), f.value + CRLF, rest);
  }

  lemma PaddedFieldParses(f: Field, pad: nat, rest: string)
    requires WfField(f) && rest != ""
    ensures ParseField(PaddedText(f, pad) + rest) == Parsed(f, rest)
  {
    PaddedSplit(f, pad, rest);
    FieldParts(f, Spaces(pad), rest);
  }

  lemma ParsedNameText(s: string) returns (pad: nat)
    requires ParseName(s).Parsed?
    ensures s == ParseName(s).value + (":" + (Spaces(pad) + ParseName(s).rest))
  {
    hide Span;
    hide Spaces;
    var n := Span(s, IsLetter);
    var (name, r0) := Leading(s, IsLetter);
    var r1 := Expect(r0, ':').rest;
    pad := Span(r1, IsSpace);
    assert n < |s| && r0[0] == ':';
    assert s == name + r0;
    assert r0 == ":" + r1;
    SplitSpaces(r1, pad);
  }

  lemma SplitSpaces(s: string, pad: nat)
    requires pad <= |s| && forall i | 0 <= i < pad :: s[i] == ' '
    ensures s == Spaces(pad) + s[pad..]
  {
  }

  lemma ParsedValueText(s: string)
    requires ParseValue(s).Parsed?
    ensures s == ParseValue(s).value + CRLF + ParseValue(s).rest && ParseValue(s).rest != ""
  {
    var e := LineEnd(s).value;
    assert s[e..e + 2] == CRLF;
    assert s == s[..e] + s[e..e + 2] + s[e + 2..];
  }

  /** How a parsed field was written. */
  lemma ParsedFieldText(s: string) returns (pad: nat)
    requires ParseField(s).Parsed?
    ensures ParseField(s).rest != ""
    ensures s == PaddedText(ParseField(s).value, pad) + ParseField(s).rest
  {
    hide ParseName;
    hide ParseValue;
    pad := ParsedNameText(s);
    ParsedValueText(ParseName(s).rest);
    PaddedSplit(ParseField(s).value, pad, ParseField(s).rest);
  }

  lemma PaddedFirst(f: Field, pad: nat, tail: string)
    requires WfField(f)
    ensures !IsLineEnd(PaddedText(f, pad) + tail, 0)
  {
    assert (PaddedText(f, pad) + tail)[0] == if f.name == "" then ':' else f.name[0];
  }

  lemma {:induction false} BlockParses(fs: seq<Field>, pads: seq<nat>, rest: string)
    requires |fs| == |pads| && WfFields(fs) && IsLineEnd(rest, 0)
    ensures ParseFields(BlockText(fs, pads) + rest) == Parsed(fs, rest)
  {
    if fs == [] {
      assert BlockText(fs, pads) + rest == rest;
    } else {
      hide ParseField;
      hide PaddedText;
      var tail := BlockText(fs[1..], pads[1..]) + rest;
      assert |tail| >= |rest| && fs == [fs[0]] + fs[1..];
      Assoc(PaddedText(fs[0], pads[0]), BlockText(fs[1..], pads[1..]), rest);
      BlockParses(fs[1..], pads[1..], rest);
      PaddedFieldParses(fs[0], pads[0], tail);
      PaddedFirst(fs[0], pads[0], tail);
      ParseFieldsCons(PaddedText(fs[0], pads[0]) + tail, fs[0], tail, fs[1..], rest);
    }
  }

  lemma {:induction false} ParsedBlockText(s: string) returns (pads: seq<nat>)
    requires ParseFields(s).Parsed?
    ensures |pads| == |ParseFields(s).value| && IsLineEnd(ParseFields(s).rest, 0)
    ensures s == BlockText(ParseFields(s).value, pads) + ParseFields(s).rest
    decreases |s|
  {
    if IsLineEnd(s, 0) {
      pads := [];
    } else {
      hide PaddedText;
      var f, r := ParseField(s).value, ParseField(s).rest;
      var pad := ParsedFieldText(s);
      var ps := ParsedBlockText(r);
      var fs := ParseFields(r).value;
      pads := [pad] + ps;
      assert ParseFields(s).value == [f] + fs;
      assert ([f] + fs)[1..] == fs && pads[1..] == ps;
      Assoc(PaddedText(f, pad), BlockText(fs, ps), ParseFields(r).rest);
    }
  }

  /** A block of header lines is accepted, with fields `fs` and remaining text `rest`, exactly when it
      consists of well-formed fields, each written with any number of spaces after its colon, followed
      by a blank line. */
  lemma AcceptedHeaders(s: string, fs: seq<Field>, rest: string)
    ensures ParseFields(s) == Parsed(fs, rest) <==>
            && WfFields(fs) && IsLineEnd(rest, 0)
            && exists pads: seq<nat> :: |pads| == |fs| && s == BlockText(fs, pads) + rest
  {
    if ParseFields(s) == Parsed(fs, rest) {
      ParsedFieldsWf(s);
      var pads := ParsedBlockText(s);
    }
    if WfFields(fs) && IsLineEnd(rest, 0) {
      forall pads: seq<nat> | |pads| == |fs| && s == BlockText(fs, pads) + rest
        ensures ParseFields(s) == Parsed(fs, rest)
      {
        BlockParses(fs, pads, rest);
      }
    }
  }
}
