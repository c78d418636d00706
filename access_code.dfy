/**
 * The access code `addUser` gives a new user:
 * `"ACC-"`, the last six digits of the clock, `"-"`, and the first eight
 * characters of `btoa` of the untrimmed email, or of the untrimmed name when
 * the email field is empty.
 */
module AccessCode {

  import opened Wrappers
  import opened Arith
  import opened JsString
  import opened Base64

  const CodePrefix: string := "ACC-"
  const ClockDigits: nat := 6
  const FragmentLength: nat := 8

  /** `newUserEmail || newUserName`: the empty string is falsy, so an empty email selects the name. */
  function CodeSource(name: string, email: string): string
  {
    if email != "" then email else name
  }

  /** `Date.now().toString().slice(-6)`. */
  function ClockSegment(now: nat): string
  {
    SliceLast(NatToString(now), ClockDigits)
  }

  /**
   * The code string of a new user, or `None` when `btoa` throws because the
   * encoded field holds a character above U+00FF.
   */
  function MakeCode(now: nat, name: string, email: string): Option<string>
  {
    match Btoa(CodeSource(name, email))
    case None => None
    case Some(enc) => Some(CodePrefix + ClockSegment(now) + "-" + SliceFirst(enc, FragmentLength))
  }

  /** Position of the first `c` in `s`, if any. */
  function IndexOf(s: string, c: char): (r: Option<nat>)
    ensures r.Some? ==> r.value < |s| && s[r.value] == c && c !in s[..r.value]
    ensures r.None? ==> c !in s
  {
    if s == [] then None
    else if s[0] == c then Some(0)
    else match IndexOf(s[1..], c)
      case None => None
      case Some(i) => Some(i + 1)
  }

  /** Reads a code back as its clock segment and its fragment. */
  function SplitCode(code: string): Option<(string, string)>
  {
    if |code| >= |CodePrefix| && code[..|CodePrefix|] == CodePrefix then
      var body := code[|CodePrefix|..];
      match IndexOf(body, '-')
      case None => None
      case Some(i) => Some((body[..i], body[i + 1..]))
    else None
  }

  /** `btoa` fails exactly when the encoded field holds a character above U+00FF. */
  lemma MakeCodeDefined(now: nat, name: string, email: string)
    ensures MakeCode(now, name, email).Some? <==>
      forall k :: 0 <= k < |CodeSource(name, email)| ==> CodeSource(name, email)[k] as int < 256
  {
  }

  /** The eight-character fragment is the encoding of the first six bytes. */
  lemma FragmentDecodes(b: seq<Byte>)
    ensures Decode(SliceFirst(Encode(b), FragmentLength)) == Some(b[..Min(6, |b|)])
  {
    var e := Encode(b);
    if |b| >= 6 {
      assert (|b| + 2) / 3 >= 2;
      assert |e| >= FragmentLength;
      EncodePrefix(b, 2);
      assert SliceFirst(e, FragmentLength) == Encode(b[..6]);
      DecodeEncode(b[..6]);
    } else {
      assert (|b| + 2) / 3 <= 2;
      assert |e| <= FragmentLength;
      assert SliceFirst(e, FragmentLength) == e;
      DecodeEncode(b);
      assert b[..|b|] == b;
    }
  }

  /** A digit segment holds no `-`, so the first `-` after the prefix ends it. */
  lemma SplitBuilt(seg: string, frag: string)
    requires AllDigits(seg)
    ensures SplitCode(CodePrefix + seg + "-" + frag) == Some((seg, frag))
  {
    var code := CodePrefix + seg + "-" + frag;
    var body := code[|CodePrefix|..];
    assert body == seg + "-" + frag;
    assert body[|seg|] == '-';
    assert forall k :: 0 <= k < |seg| ==> body[k] == seg[k] && body[k] != '-';
    assert '-' !in body[..|seg|];
    assert body[..|seg|] == seg;
    assert body[|seg| + 1..] == frag;
  }

  /** Every built code starts with `ACC-`. */
  lemma MakeCodePrefix(now: nat, name: string, email: string)
    requires MakeCode(now, name, email).Some?
    ensures var code := MakeCode(now, name, email).value;
      |code| > |CodePrefix| && code[..|CodePrefix|] == CodePrefix
  {
  }

  /** The clock segment is one to six digits denoting the clock modulo one million. */
  lemma ClockSegmentValue(now: nat)
    ensures 1 <= |ClockSegment(now)| <= ClockDigits && AllDigits(ClockSegment(now))
    ensures DigitsValue(ClockSegment(now)) == now % 1000000
  {
    SliceLastValue(now, ClockDigits);
    assert Pow10(ClockDigits) == 1000000;
  }

  /** A built code splits back into the clock segment and the `btoa` fragment. */
  lemma MakeCodeSplit(now: nat, name: string, email: string)
    requires MakeCode(now, name, email).Some?
    ensures SplitCode(MakeCode(now, name, email).value) ==
      Some((ClockSegment(now), SliceFirst(Btoa(CodeSource(name, email)).value, FragmentLength)))
  {
    ClockSegmentValue(now);
    SplitBuilt(ClockSegment(now), SliceFirst(Btoa(CodeSource(name, email)).value, FragmentLength));
  }

  /**
   * A code `MakeCode` builds splits back into a clock segment of one to six
   * digits denoting the clock modulo one million, and a fragment of at most
   * eight characters that decodes to the Latin-1 codes of the first six
   * characters of the encoded field.
   */
  lemma MakeCodeParts(now: nat, name: string, email: string)
    requires MakeCode(now, name, email).Some?
    ensures var code := MakeCode(now, name, email).value;
      var src := CodeSource(name, email);
      var parts := SplitCode(code);
      parts.Some? &&
      1 <= |parts.value.0| <= ClockDigits && AllDigits(parts.value.0) &&
      DigitsValue(parts.value.0) == now % 1000000 &&
      |parts.value.1| == Min(FragmentLength, 4 * ((|src| + 2) / 3)) &&
      Decode(parts.value.1).Some? &&
      |Decode(parts.value.1).value| == Min(6, |src|) &&
      forall k :: 0 <= k < |Decode(parts.value.1).value| ==> Decode(parts.value.1).value[k] == src[k] as int
  {
    MakeCodeSplit(now, name, email);
    ClockSegmentValue(now);
    FragmentOfSource(CodeSource(name, email));
  }

  /** What the fragment of `btoa(src)` says about `src`. */
  lemma FragmentOfSource(src: string)
    requires Btoa(src).Some?
    ensures var frag := SliceFirst(Btoa(src).value, FragmentLength);
      |frag| == Min(FragmentLength, 4 * ((|src| + 2) / 3)) &&
      Decode(frag).Some? && |Decode(frag).value| == Min(6, |src|) &&
      forall k :: 0 <= k < |Decode(frag).value| ==> Decode(frag).value[k] == src[k] as int
  {
    var b := Latin1(src).value;
    FragmentDecodes(b);
  }
}
