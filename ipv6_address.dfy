/**
 * IPv6 address text, parsed into 16 octets the way the codec does it: colons
 * are skipped wherever they stand, and the k-th hex digit, counted over the
 * whole string, is ORed into octet k / 2 (high nibble when k is even, low
 * nibble when k is odd). The "::" shorthand of section 2.2 of RFC 4291 is not
 * expanded.
 */
module Ipv6Address {

  /** The 16 octets of an IPv6 address. */
  type Octets = s: seq<bv8> | |s| == 16 witness seq(16, _ => 0)

  const ZeroOctets: Octets := seq(16, _ => 0)

  predicate IsHexDigit(c: char) {
    ('0' <= c <= '9') || ('A' <= c <= 'F') || ('a' <= c <= 'f')
  }

  /** Every character is a hex digit or a colon: the strings the parser accepts. */
  predicate WellFormed(s: string) {
    forall i | 0 <= i < |s| :: IsHexDigit(s[i]) || s[i] == ':'
  }

  /** The value of one hex digit, either case. */
  function NibbleOf(c: char): (v: bv8)
    requires IsHexDigit(c)
    ensures v < 16
  {
    if 'A' <= c <= 'F' then (c as int - 'A' as int + 10) as bv8
    else if 'a' <= c <= 'f' then (c as int - 'a' as int + 10) as bv8
    else (c as int - '0' as int) as bv8
  }

  /** The values of the hex digits of `s`, in order, whatever else it holds. */
  function Digits(s: string): seq<bv8> {
    if s == [] then []
    else if IsHexDigit(s[0]) then [NibbleOf(s[0])] + Digits(s[1..])
    else Digits(s[1..])
  }

  /**
   * The number of hex digits the parser writes before it stops: it stops at the
   * end of the string or at the first character that is neither a digit nor a colon.
   */
  function ScannedDigits(s: string): nat {
    if s == [] then 0
    else if s[0] == ':' then ScannedDigits(s[1..])
    else if IsHexDigit(s[0]) then 1 + ScannedDigits(s[1..])
    else 0
  }

  /** On well-formed text the parser consumes every digit; otherwise at most all of them. */
  lemma {:induction false} ScannedDigitsCount(s: string)
    ensures ScannedDigits(s) <= |Digits(s)|
    ensures WellFormed(s) ==> ScannedDigits(s) == |Digits(s)|
    decreases |s|
  {
    if s != [] && (s[0] == ':' || IsHexDigit(s[0])) {
      WellFormedTail(s);
      ScannedDigitsCount(s[1..]);
    }
  }

  /** A nibble moved into the high half of an octet. */
  function HighPlace(v: bv8): bv8 {
    v << 4
  }

  /** The bitwise OR of two octets. */
  function Or(a: bv8, b: bv8): bv8 {
    a | b
  }

  /** Nibble `v` as the k-th hex digit places it: high nibble when k is even, low when odd. */
  function Placed(k: nat, v: bv8): bv8 {
    if k % 2 == 0 then HighPlace(v) else v
  }

  /** ORs nibble `v`, the k-th hex digit of the text, into octet k / 2. */
  function Absorb(o: seq<bv8>, k: nat, v: bv8): seq<bv8>
    requires |o| == 16 && k < 32
  {
    o[k / 2 := Or(o[k / 2], Placed(k, v))]
  }

  /** The octets after parsing, and whether the parser reported success. */
  datatype Parsed = Parsed(octets: seq<bv8>, ok: bool)

  /**
   * What the parser leaves in the octets `o` and reports, having already
   * consumed `k` hex digits, when the rest of the text is `s`. It succeeds
   * exactly on well-formed text; on other text it stops at the first bad
   * character, keeping what it already wrote.
   */
  function ParseFrom(o: seq<bv8>, k: nat, s: string): (r: Parsed)
    requires |o| == 16 && k + ScannedDigits(s) <= 32
    ensures |r.octets| == 16
    decreases |s|
  {
    if s == [] then Parsed(o, true)
    else if s[0] == ':' then ParseFrom(o, k, s[1..])
    else if IsHexDigit(s[0]) then ParseFrom(Absorb(o, k, NibbleOf(s[0])), k + 1, s[1..])
    else Parsed(o, false)
  }

  /** The parser reports success exactly on text made of hex digits and colons. */
  lemma {:induction false} ParseSucceedsIffWellFormed(o: seq<bv8>, k: nat, s: string)
    requires |o| == 16 && k + ScannedDigits(s) <= 32
    ensures ParseFrom(o, k, s).ok <==> WellFormed(s)
    decreases |s|
  {
    if s != [] {
      if s[0] == ':' {
        WellFormedTail(s);
        ParseSucceedsIffWellFormed(o, k, s[1..]);
      } else if IsHexDigit(s[0]) {
        WellFormedTail(s);
        ParseSucceedsIffWellFormed(Absorb(o, k, NibbleOf(s[0])), k + 1, s[1..]);
      }
    }
  }

  lemma WellFormedTail(s: string)
    requires s != [] && (IsHexDigit(s[0]) || s[0] == ':')
    ensures WellFormed(s) <==> WellFormed(s[1..])
  {
    if WellFormed(s[1..]) {
      forall i | 0 <= i < |s| ensures IsHexDigit(s[i]) || s[i] == ':' {
        if i > 0 { assert s[i] == s[1..][i - 1]; }
      }
    }
    if WellFormed(s) {
      forall i | 0 <= i < |s[1..]| ensures IsHexDigit(s[1..][i]) || s[1..][i] == ':' {
        assert s[1..][i] == s[i + 1];
      }
    }
  }

  // One step of the parser each: what the first character of the rest of the text does.

  lemma ParseColonStep(o: seq<bv8>, k: nat, s: string)
    requires |o| == 16 && s != [] && s[0] == ':' && k + ScannedDigits(s) <= 32
    ensures ScannedDigits(s[1..]) == ScannedDigits(s)
    ensures ParseFrom(o, k, s) == ParseFrom(o, k, s[1..])
  {
  }

  lemma ParseDigitStep(o: seq<bv8>, k: nat, s: string)
    requires |o| == 16 && s != [] && IsHexDigit(s[0]) && k + ScannedDigits(s) <= 32
    ensures k + 1 + ScannedDigits(s[1..]) <= 32
    ensures ParseFrom(o, k, s) == ParseFrom(Absorb(o, k, NibbleOf(s[0])), k + 1, s[1..])
  {
  }

  lemma ParseInvalidStep(o: seq<bv8>, k: nat, s: string)
    requires |o| == 16 && s != [] && !IsHexDigit(s[0]) && s[0] != ':'
    requires k <= 32
    ensures ParseFrom(o, k, s) == Parsed(o, false)
  {
  }

  /**
   * Classifies one character of address text: a hex digit of either case
   * yields its value, anything else is reported as not a digit.
   */
  method DecodeHexDigit(c: char) returns (isDigit: bool, value: bv8)
    ensures isDigit <==> IsHexDigit(c)
    ensures isDigit ==> value == NibbleOf(c) && value < 16
  {
    isDigit := true;
    if 'A' <= c <= 'F' {
      value := (c as int - 'A' as int + 10) as bv8;
    } else if 'a' <= c <= 'f' {
      value := (c as int - 'a' as int + 10) as bv8;
    } else if '0' <= c <= '9' {
      value := (c as int - '0' as int) as bv8;
    } else {
      isDigit, value := false, 0;
    }
  }

  /** Zeroes all 16 octets of an address, one at a time. */
  method InitAddress(octets: array<bv8>)
    requires octets.Length == 16
    modifies octets
    ensures octets[..] == ZeroOctets
  {
    for i := 0 to 16
      invariant forall j | 0 <= j < i :: octets[j] == 0
    {
      octets[i] := 0;
    }
  }

  /**
   * Parses `s` into `octets` in place: each hex digit is ORed into the octet
   * its position selects, colons are skipped, and any other character ends
   * the parse with -1. Nothing bounds the digit count in the text, so the
   * caller must keep the digits consumed to at most 32.
   */
  method ParseAddress(octets: array<bv8>, s: string) returns (err: int)
    requires octets.Length == 16
    requires ScannedDigits(s) <= 32
    modifies octets
    ensures err == 0 || err == -1
    ensures octets[..] == ParseFrom(old(octets[..]), 0, s).octets
    ensures err == 0 <==> WellFormed(s)
  {
    var quartetIndex: nat := 0;
    var i := 0;
    while i < |s|
      invariant 0 <= i <= |s|
      invariant quartetIndex + ScannedDigits(s[i..]) <= 32
      invariant ParseFrom(octets[..], quartetIndex, s[i..]) == ParseFrom(old(octets[..]), 0, s)
    {
      var c := s[i];
      ghost var rest := s[i..];
      assert rest[0] == c && rest[1..] == s[i + 1..];
      if c == ':' {
        ParseColonStep(octets[..], quartetIndex, rest);
        i := i + 1;
        continue;
      }
      var isDigit, value := DecodeHexDigit(c);
      if !isDigit {
        // malformed string
        ParseInvalidStep(octets[..], quartetIndex, rest);
        ParseSucceedsIffWellFormed(old(octets[..]), 0, s);
        return -1;
      }
      ParseDigitStep(octets[..], quartetIndex, rest);
      ghost var before := octets[..];
      if quartetIndex % 2 == 0 {
        value := HighPlace(value);
      }
      assert value == Placed(quartetIndex, NibbleOf(c));
      var octetIndex := quartetIndex / 2;
      octets[octetIndex] := Or(octets[octetIndex], value);
      assert octets[..] == Absorb(before, quartetIndex, NibbleOf(c));
      quartetIndex := quartetIndex + 1;
      i := i + 1;
    }
    assert s[i..] == [];
    ParseSucceedsIffWellFormed(old(octets[..]), 0, s);
    return 0;
  }

  // ----- Where each digit lands -----

  /**
   * The bits that the digits `ds`, numbered from `k` on, contribute to octet
   * `j`: digit 2j in the high nibble, digit 2j + 1 in the low nibble.
   */
  function Contribution(k: nat, ds: seq<bv8>, j: nat): bv8 {
    (if k <= 2 * j < k + |ds| then ds[2 * j - k] << 4 else 0) |
    (if k <= 2 * j + 1 < k + |ds| then ds[2 * j + 1 - k] else 0)
  }

  lemma ContributionStep(o: seq<bv8>, k: nat, d: bv8, ds: seq<bv8>, j: nat)
    requires |o| == 16 && k + 1 + |ds| <= 32 && j < 16
    ensures Absorb(o, k, d)[j] | Contribution(k + 1, ds, j) == o[j] | Contribution(k, [d] + ds, j)
  {
    if j != k / 2 {
      ContributionOther(k, d, ds, j);
    } else if k % 2 == 0 {
      ContributionHigh(k, d, ds, j);
    } else {
      ContributionLow(k, d, ds, j);
    }
  }

  lemma ContributionHigh(k: nat, d: bv8, ds: seq<bv8>, j: nat)
    requires k == 2 * j
    ensures Contribution(k + 1, ds, j) == (if 0 < |ds| then ds[0] else 0)
    ensures Contribution(k, [d] + ds, j) == (d << 4) | Contribution(k + 1, ds, j)
  {
    if 0 < |ds| {
      assert ([d] + ds)[1] == ds[0];
    }
  }

  lemma ContributionLow(k: nat, d: bv8, ds: seq<bv8>, j: nat)
    requires k == 2 * j + 1
    ensures Contribution(k + 1, ds, j) == 0
    ensures Contribution(k, [d] + ds, j) == d
  {
  }

  lemma ContributionOther(k: nat, d: bv8, ds: seq<bv8>, j: nat)
    requires j != k / 2
    ensures Contribution(k + 1, ds, j) == Contribution(k, [d] + ds, j)
  {
    var all := [d] + ds;
    if k + 1 <= 2 * j < k + 1 + |ds| {
      assert all[2 * j - k] == ds[2 * j - k - 1];
    }
    if k + 1 <= 2 * j + 1 < k + 1 + |ds| {
      assert all[2 * j + 1 - k] == ds[2 * j - k];
    }
  }

  /**
   * Placement: parsing well-formed text ORs into each existing octet exactly
   * the nibbles of the two digits whose positions select it.
   */
  lemma {:induction false} ParsePlacement(o: seq<bv8>, k: nat, s: string, j: nat)
    requires |o| == 16 && WellFormed(s) && k + ScannedDigits(s) <= 32 && j < 16
    ensures ParseFrom(o, k, s).octets[j] == o[j] | Contribution(k, Digits(s), j)
    decreases |s|
  {
    if s == [] {
      assert Contribution(k, [], j) == 0;
    } else {
      WellFormedTail(s);
      if s[0] == ':' {
        ParseColonStep(o, k, s);
        assert Digits(s) == Digits(s[1..]);
        ParsePlacement(o, k, s[1..], j);
      } else {
        ParseDigitStep(o, k, s);
        ParsePlacement(Absorb(o, k, NibbleOf(s[0])), k + 1, s[1..], j);
        PlacementDigitStep(o, k, s, j);
      }
    }
  }

  /** The digit case of the placement proof, given the claim for the rest of the text. */
  lemma PlacementDigitStep(o: seq<bv8>, k: nat, s: string, j: nat)
    requires |o| == 16 && s != [] && IsHexDigit(s[0]) && WellFormed(s[1..]) && j < 16
    requires k + 1 + ScannedDigits(s[1..]) <= 32
    requires ParseFrom(Absorb(o, k, NibbleOf(s[0])), k + 1, s[1..]).octets[j]
             == Absorb(o, k, NibbleOf(s[0]))[j] | Contribution(k + 1, Digits(s[1..]), j)
    ensures k + ScannedDigits(s) <= 32
    ensures ParseFrom(o, k, s).octets[j] == o[j] | Contribution(k, Digits(s), j)
  {
    var d := NibbleOf(s[0]);
    assert Digits(s) == [d] + Digits(s[1..]);
    ScannedDigitsCount(s[1..]);
    ContributionStep(o, k, d, Digits(s[1..]), j);
  }

  /**
   * Starting from a zeroed address, well-formed text with exactly 32 hex
   * digits yields exactly the octets those digits spell, two per octet.
   */
  lemma ParseThirtyTwoDigits(s: string)
    requires WellFormed(s) && |Digits(s)| == 32
    ensures ScannedDigits(s) == 32
    ensures ParseFrom(ZeroOctets, 0, s).ok
    ensures forall j | 0 <= j < 16 ::
              ParseFrom(ZeroOctets, 0, s).octets[j] == (Digits(s)[2 * j] << 4) | Digits(s)[2 * j + 1]
  {
    ScannedDigitsCount(s);
    ParseSucceedsIffWellFormed(ZeroOctets, 0, s);
    forall j | 0 <= j < 16
      ensures ParseFrom(ZeroOctets, 0, s).octets[j] == (Digits(s)[2 * j] << 4) | Digits(s)[2 * j + 1]
    {
      ParsePlacement(ZeroOctets, 0, s, j);
    }
  }

  /**
   * The parser stops at the first character that is neither a hex digit nor
   * a colon and reports failure, keeping the octets it wrote before that point.
   */
  lemma {:induction false} ParseStopsAtInvalid(o: seq<bv8>, k: nat, p: string, c: char, rest: string)
    requires |o| == 16 && WellFormed(p) && !IsHexDigit(c) && c != ':'
    requires k + ScannedDigits(p) <= 32
    ensures ScannedDigits(p + [c] + rest) == ScannedDigits(p)
    ensures ParseFrom(o, k, p + [c] + rest) == Parsed(ParseFrom(o, k, p).octets, false)
    decreases |p|
  {
    var s := p + [c] + rest;
    if p == [] {
      assert s[0] == c;
    } else {
      WellFormedTail(p);
      assert s[0] == p[0] && s[1..] == p[1..] + [c] + rest;
      if p[0] == ':' {
        ParseStopsAtInvalid(o, k, p[1..], c, rest);
      } else {
        ParseStopsAtInvalid(Absorb(o, k, NibbleOf(p[0])), k + 1, p[1..], c, rest);
      }
    }
  }

  /** The text with its colons removed. */
  function DropColons(s: string): string {
    if s == [] then []
    else if s[0] == ':' then DropColons(s[1..])
    else [s[0]] + DropColons(s[1..])
  }

  /**
   * Colons carry no meaning to the parser: wherever they stand, and however
   * many there are, it behaves as on the text without them.
   */
  lemma {:induction false} ParseIgnoresColons(o: seq<bv8>, k: nat, s: string)
    requires |o| == 16 && k + ScannedDigits(s) <= 32
    ensures ScannedDigits(DropColons(s)) == ScannedDigits(s)
    ensures ParseFrom(o, k, s) == ParseFrom(o, k, DropColons(s))
    decreases |s|
  {
    if s == [] {
    } else if s[0] == ':' {
      ParseIgnoresColons(o, k, s[1..]);
    } else {
      var t := DropColons(s);
      DropColonsHead(s);
      if IsHexDigit(s[0]) {
        ParseDigitStep(o, k, s);
        ParseIgnoresColons(Absorb(o, k, NibbleOf(s[0])), k + 1, s[1..]);
        assert ScannedDigits(t) == 1 + ScannedDigits(t[1..]);
        ParseDigitStep(o, k, t);
      } else {
        ParseInvalidStep(o, k, s);
        ParseInvalidStep(o, k, t);
      }
    }
  }

  lemma DropColonsHead(s: string)
    requires s != [] && s[0] != ':'
    ensures DropColons(s) != [] && DropColons(s)[0] == s[0]
    ensures DropColons(s)[1..] == DropColons(s[1..])
  {
    assert DropColons(s) == [s[0]] + DropColons(s[1..]);
  }

  /**
   * "::1", the loopback address in the shorthand, is not expanded: its single
   * digit lands in the high nibble of the first octet, not in the last octet.
   */
  lemma DoubleColonNotExpanded()
    ensures ScannedDigits("::1") == 1
    ensures ParseFrom(ZeroOctets, 0, "::1") == Parsed(ZeroOctets[0 := 0x10], true)
  {
    assert "::1"[1..] == ":1" && ":1"[1..] == "1" && "1"[1..] == [];
    assert ScannedDigits("1") == 1;
    assert NibbleOf('1') == 1;
  }

  // ----- A reference rendering: eight groups of four lower-case digits -----

  function HexChar(v: bv8): char
    requires v < 16
  {
    if v < 10 then ('0' as int + v as int) as char else ('a' as int + v as int - 10) as char
  }

  function HighNibble(b: bv8): (v: bv8)
    ensures v < 16
  {
    b >> 4
  }

  function LowNibble(b: bv8): (v: bv8)
    ensures v < 16
  {
    b & 0xf
  }

  /** An octet is its high nibble shifted back into place, ORed with its low nibble. */
  lemma NibblesRejoin(b: bv8)
    ensures (HighNibble(b) << 4) | LowNibble(b) == b
  {
  }

  /** Two octets as one group of four hex digits, high nibbles first. */
  function GroupText(hi: bv8, lo: bv8): string {
    [HexChar(HighNibble(hi)), HexChar(LowNibble(hi)), HexChar(HighNibble(lo)), HexChar(LowNibble(lo))]
  }

  /** Octets as colon-separated groups of four hex digits, two octets a group. */
  function FormatGroups(a: seq<bv8>): string
    requires |a| % 2 == 0 && |a| >= 2
    decreases |a|
  {
    if |a| == 2 then GroupText(a[0], a[1])
    else GroupText(a[0], a[1]) + ":" + FormatGroups(a[2..])
  }

  /** The fully expanded text of an address, as in "2001:0db8:0000:...:7334". */
  function FormatAddress(a: Octets): string {
    FormatGroups(a)
  }

  lemma {:induction false} DigitsAppend(x: string, y: string)
    ensures Digits(x + y) == Digits(x) + Digits(y)
    decreases |x|
  {
    if x == [] {
      assert x + y == y;
    } else {
      assert (x + y)[0] == x[0] && (x + y)[1..] == x[1..] + y;
      DigitsAppend(x[1..], y);
      if IsHexDigit(x[0]) {
        calc {
          Digits(x + y);
          [NibbleOf(x[0])] + Digits(x[1..] + y);
          [NibbleOf(x[0])] + (Digits(x[1..]) + Digits(y));
          ([NibbleOf(x[0])] + Digits(x[1..])) + Digits(y);
        }
      }
    }
  }

  lemma HexCharRoundTrip(v: bv8)
    requires v < 16
    ensures IsHexDigit(HexChar(v)) && NibbleOf(HexChar(v)) == v
  {
  }

  lemma GroupDigits(hi: bv8, lo: bv8)
    ensures WellFormed(GroupText(hi, lo))
    ensures Digits(GroupText(hi, lo)) == [HighNibble(hi), LowNibble(hi), HighNibble(lo), LowNibble(lo)]
  {
    HexCharRoundTrip(HighNibble(hi));
    HexCharRoundTrip(LowNibble(hi));
    HexCharRoundTrip(HighNibble(lo));
    HexCharRoundTrip(LowNibble(lo));
    var t := GroupText(hi, lo);
    assert t[1..] == t[1..4] && t[1..][1..] == t[2..4] && t[2..4][1..] == t[3..4] && t[3..4][1..] == [];
    assert Digits(t[3..4]) == [LowNibble(lo)];
    assert Digits(t[2..4]) == [HighNibble(lo), LowNibble(lo)];
    assert Digits(t[1..4]) == [LowNibble(hi), HighNibble(lo), LowNibble(lo)];
  }

  lemma WellFormedAppend(x: string, y: string)
    requires WellFormed(x) && WellFormed(y)
    ensures WellFormed(x + y)
  {
    forall i | 0 <= i < |x + y| ensures IsHexDigit((x + y)[i]) || (x + y)[i] == ':' {
      if i < |x| { assert (x + y)[i] == x[i]; } else { assert (x + y)[i] == y[i - |x|]; }
    }
  }

  /** The nibbles of octets `a`, high nibble first, taken two octets at a time like the text. */
  function GroupNibbles(a: seq<bv8>): seq<bv8>
    requires |a| % 2 == 0
    decreases |a|
  {
    if a == [] then []
    else [HighNibble(a[0]), LowNibble(a[0]), HighNibble(a[1]), LowNibble(a[1])] + GroupNibbles(a[2..])
  }

  lemma {:induction false} GroupNibblesAt(a: seq<bv8>, j: nat)
    requires |a| % 2 == 0 && j < |a|
    ensures |GroupNibbles(a)| == 2 * |a|
    ensures GroupNibbles(a)[2 * j] == HighNibble(a[j]) && GroupNibbles(a)[2 * j + 1] == LowNibble(a[j])
    decreases |a|
  {
    var n := GroupNibbles(a);
    var head := [HighNibble(a[0]), LowNibble(a[0]), HighNibble(a[1]), LowNibble(a[1])];
    assert n == head + GroupNibbles(a[2..]);
    if j < 2 {
      GroupNibblesLength(a[2..]);
    } else {
      GroupNibblesAt(a[2..], j - 2);
      assert a[2..][j - 2] == a[j];
      assert n[2 * j] == GroupNibbles(a[2..])[2 * (j - 2)];
      assert n[2 * j + 1] == GroupNibbles(a[2..])[2 * (j - 2) + 1];
    }
  }

  lemma {:induction false} GroupNibblesLength(a: seq<bv8>)
    requires |a| % 2 == 0
    ensures |GroupNibbles(a)| == 2 * |a|
    decreases |a|
  {
    if a != [] {
      GroupNibblesLength(a[2..]);
    }
  }

  lemma {:induction false} FormatGroupsWellFormed(a: seq<bv8>)
    requires |a| % 2 == 0 && |a| >= 2
    ensures WellFormed(FormatGroups(a))
    decreases |a|
  {
    GroupDigits(a[0], a[1]);
    if |a| > 2 {
      FormatGroupsWellFormed(a[2..]);
      var g := GroupText(a[0], a[1]);
      assert WellFormed(":");
      WellFormedAppend(g, ":");
      WellFormedAppend(g + ":", FormatGroups(a[2..]));
    }
  }

  /** The hex digits of the text of octets `a` are the nibbles of `a`, high nibble first. */
  lemma {:induction false} FormatGroupsDigits(a: seq<bv8>)
    requires |a| % 2 == 0 && |a| >= 2
    ensures Digits(FormatGroups(a)) == GroupNibbles(a)
    decreases |a|
  {
    var g := GroupText(a[0], a[1]);
    GroupDigits(a[0], a[1]);
    if |a| == 2 {
      assert a[2..] == [];
    } else {
      var rest := FormatGroups(a[2..]);
      FormatGroupsDigits(a[2..]);
      assert Digits(":") == [];
      DigitsAppend(g, ":");
      DigitsAppend(g + ":", rest);
    }
  }

  /**
   * Round trip: the fully expanded text of any address parses, from a zeroed
   * address, back to exactly that address.
   */
  lemma FormatRoundTrip(a: Octets)
    ensures ScannedDigits(FormatAddress(a)) == 32
    ensures ParseFrom(ZeroOctets, 0, FormatAddress(a)) == Parsed(a, true)
  {
    var s := FormatAddress(a);
    FormatGroupsWellFormed(a);
    FormatGroupsDigits(a);
    GroupNibblesLength(a);
    ParseThirtyTwoDigits(s);
    var r := ParseFrom(ZeroOctets, 0, s);
    forall j | 0 <= j < 16 ensures r.octets[j] == a[j] {
      GroupNibblesAt(a, j);
      NibblesRejoin(a[j]);
    }
  }
}
