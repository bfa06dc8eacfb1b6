/** The agent-status core of src-tauri/src/agent_status.rs: states and their composition, the OSC 777
    grammar with its builder, and percent-encoding (section 2.1 of RFC 3986). */
module AgentStatus {
  import opened Wrappers
  import opened Text
  import Utf8

  type byte = Utf8.byte

  datatype AgentState = Idle | Working | Blocked | Done | Error

  datatype Event = Set(state: AgentState, name: Option<string>) | Clear

  // ----- states -----

  function AsWire(s: AgentState): string {
    match s
    case Idle => "idle"
    case Working => "working"
    case Blocked => "blocked"
    case Done => "done"
    case Error => "error"
  }

  /** The four words OSC 777 accepts. */
  function ParseWire(s: string): Option<AgentState> {
    if s == "idle" then Some(Idle)
    else if s == "working" then Some(Working)
    else if s == "blocked" then Some(Blocked)
    else if s == "done" then Some(Done)
    else None
  }

  function ComposeRank(s: AgentState): nat {
    match s case Blocked => 4 case Working => 3 case Error => 2 case Done => 1 case Idle => 0
  }

  function Compose(osc777: Option<AgentState>, osc7501: Option<AgentState>): Option<AgentState> {
    if osc777.Some? && osc7501.Some? then
      Some(if ComposeRank(osc7501.value) >= ComposeRank(osc777.value) then osc7501.value else osc777.value)
    else if osc777.Some? then osc777 else osc7501
  }

  /** What is shown when these states are reported: the first of blocked, working, error, done and
      idle that is among them, and nothing when none is. */
  ghost predicate Shows(states: set<AgentState>, shown: Option<AgentState>) {
    && (shown == None <==> states == {})
    && (shown == Some(Blocked) <==> Blocked in states)
    && (shown == Some(Working) <==> Working in states && Blocked !in states)
    && (shown == Some(Error) <==> Error in states && Blocked !in states && Working !in states)
    && (shown == Some(Done) <==> Done in states && Blocked !in states && Working !in states && Error !in states)
    && (shown == Some(Idle) <==> states == {Idle})
  }

  function Reported(state: Option<AgentState>): set<AgentState> {
    if state.Some? then {state.value} else {}
  }

  /** The composition of two optional states shows the first of them in that order. */
  lemma {:induction false} ComposeShows(osc777: Option<AgentState>, osc7501: Option<AgentState>)
    ensures Shows(Reported(osc777) + Reported(osc7501), Compose(osc777, osc7501))
  {
  }

  // ----- names -----

  const MAX_NAME_LEN := 80

  function SanitizeName(s: string): string {
    Sanitize(s, (c: char) => !IsControl(c), MAX_NAME_LEN)
  }

  lemma {:induction false} SanitizeIdempotent(s: string)
    ensures !HasControl(SanitizeName(s)) && |SanitizeName(s)| <= MAX_NAME_LEN
    ensures SanitizeName(SanitizeName(s)) == SanitizeName(s)
  {
    SanitizeTwice(s, (c: char) => !IsControl(c), MAX_NAME_LEN);
  }

  /** A name is its own sanitized form exactly when it has no control character and at most 80
      characters. */
  lemma {:induction false} NameUnchanged(s: string)
    ensures SanitizeName(s) == s <==> !HasControl(s) && |s| <= MAX_NAME_LEN
  {
    SanitizeExactly(s, (c: char) => !IsControl(c), MAX_NAME_LEN);
  }

  /** A control character counts for nothing wherever it stands, and what is over 80 characters is
      cut off. */
  lemma {:induction false} NameFiltered(a: string, c: char, b: string)
    ensures IsControl(c) ==> SanitizeName(a + [c] + b) == SanitizeName(a + b)
    ensures !HasControl(a) && |a| == MAX_NAME_LEN ==> SanitizeName(a + b) == a
  {
    var keep := (c: char) => !IsControl(c);
    if IsControl(c) {
      SanitizeDrops(a, c, b, keep, MAX_NAME_LEN);
    }
    if !HasControl(a) && |a| == MAX_NAME_LEN {
      SanitizeCuts(a, b, keep);
    }
  }

  // ----- percent-encoding -----

  predicate Unreserved(b: byte) {
    'A' as int <= b <= 'Z' as int || 'a' as int <= b <= 'z' as int || '0' as int <= b <= '9' as int
    || b == '-' as int || b == '_' as int || b == '.' as int || b == '~' as int
  }

  function HexDigit(n: nat): char
    requires n < 16
  {
    if n < 10 then (n + '0' as int) as char else (n - 10 + 'A' as int) as char
  }

  /** `to_digit(16)` of one byte read as a character. */
  function HexValue(b: byte): (r: Option<nat>)
    ensures r.Some? ==> r.value < 16
  {
    if '0' as int <= b <= '9' as int then Some(b - '0' as int)
    else if 'A' as int <= b <= 'F' as int then Some(b - 'A' as int + 10)
    else if 'a' as int <= b <= 'f' as int then Some(b - 'a' as int + 10)
    else None
  }

  function EncodedByte(b: byte): string {
    if Unreserved(b) then [b as char] else ['%', HexDigit(b / 16), HexDigit(b % 16)]
  }

  function EncodedBytes(bytes: seq<byte>): string {
    if bytes == [] then "" else EncodedByte(bytes[0]) + EncodedBytes(bytes[1..])
  }

  lemma {:induction false} EncodedNext(out: string, bytes: seq<byte>, i: nat)
    requires i < |bytes|
    ensures out + EncodedBytes(bytes[i..]) == out + EncodedByte(bytes[i]) + EncodedBytes(bytes[i + 1..])
  {
    assert bytes[i..][1..] == bytes[i + 1..];
  }

  method PercentEncode(s: string) returns (out: string)
    ensures out == EncodedBytes(Utf8.Encode(s))
  {
    var bytes := Utf8.Encode(s);
    out := "";
    for i := 0 to |bytes|
      invariant EncodedBytes(bytes) == out + EncodedBytes(bytes[i..])
    {
      var b := bytes[i];
      EncodedNext(out, bytes, i);
      if Unreserved(b) {
        out := out + [b as char];
      } else {
        out := out + ['%', HexDigit(b / 16), HexDigit(b % 16)];
      }
    }
  }

  const PERCENT: byte := 0x25

  /** The bytes behind the escapes; nothing when an escape is cut short or is not hexadecimal. */
  function DecodedBytes(b: seq<byte>): Option<seq<byte>> {
    if b == [] then Some([])
    else if b[0] == PERCENT then
      if |b| < 3 then None
      else
        var hi :- HexValue(b[1]);
        var lo :- HexValue(b[2]);
        var rest :- DecodedBytes(b[3..]);
        Some([hi * 16 + lo] + rest)
    else
      var rest :- DecodedBytes(b[1..]);
      Some([b[0]] + rest)
  }

  const UPPER := "0123456789ABCDEF"
  const LOWER := "0123456789abcdef"

  /** `b` is the hexadecimal digit `n`, in either case. */
  predicate IsHex(b: byte, n: nat)
    requires n < 16
  {
    b == UPPER[n] as int || b == LOWER[n] as int
  }

  lemma {:induction false} HexExactly(b: byte, n: nat)
    requires n < 16
    ensures HexValue(b) == Some(n) <==> IsHex(b, n)
  {
  }

  /** `b` spells these bytes: each as itself, unless it is a percent sign, or as an escape with the high
      digit first, both digits in either case. */
  predicate Spells(b: seq<byte>, bytes: seq<byte>)
    decreases |b|
  {
    if b == [] || bytes == [] then b == bytes
    else if b[0] == PERCENT then
      && |b| >= 3 && IsHex(b[1], bytes[0] / 16) && IsHex(b[2], bytes[0] % 16)
      && Spells(b[3..], bytes[1..])
    else b[0] == bytes[0] && Spells(b[1..], bytes[1..])
  }

  /** The decoder yields exactly the bytes that are spelled. */
  lemma {:induction false} DecodesSpelled(b: seq<byte>, bytes: seq<byte>)
    ensures DecodedBytes(b) == Some(bytes) <==> Spells(b, bytes)
    decreases |b|
  {
    if b != [] && bytes != [] {
      if b[0] != PERCENT {
        DecodesSpelled(b[1..], bytes[1..]);
        StartsWith(b[0], DecodedBytes(b[1..]), bytes);
      } else if |b| >= 3 {
        var hi, lo := HexValue(b[1]), HexValue(b[2]);
        EscapeDecodes(b[1], b[2], bytes[0]);
        DecodesSpelled(b[3..], bytes[1..]);
        if hi.Some? && lo.Some? {
          StartsWith(hi.value * 16 + lo.value, DecodedBytes(b[3..]), bytes);
        }
      }
    }
  }

  lemma {:induction false} StartsWith(x: byte, rest: Option<seq<byte>>, bytes: seq<byte>)
    requires bytes != []
    ensures Prefixed([x], rest) == Some(bytes) <==> x == bytes[0] && rest == Some(bytes[1..])
  {
    assert bytes == [bytes[0]] + bytes[1..];
  }

  lemma {:induction false} TwoDigits(h: nat, l: nat, n: nat)
    requires h < 16 && l < 16
    ensures h * 16 + l == n <==> h == n / 16 && l == n % 16
  {
  }

  lemma {:induction false} EscapeDecodes(hi: byte, lo: byte, n: byte)
    ensures (HexValue(hi).Some? && HexValue(lo).Some? && HexValue(hi).value * 16 + HexValue(lo).value == n)
            <==> IsHex(hi, n / 16) && IsHex(lo, n % 16)
  {
    HexExactly(hi, n / 16);
    HexExactly(lo, n % 16);
    if HexValue(hi).Some? && HexValue(lo).Some? {
      TwoDigits(HexValue(hi).value, HexValue(lo).value, n);
    }
  }

  /** What the decoder yields for a text: the text behind the escapes, if those bytes are UTF-8. */
  function Decoded(s: string): Option<string> {
    var bytes :- DecodedBytes(Utf8.Encode(s));
    Utf8.Decode(bytes)
  }

  /** `out` in front of a result, if there is one. */
  function Prefixed(out: seq<byte>, r: Option<seq<byte>>): Option<seq<byte>> {
    if r.None? then None else Some(out + r.value)
  }

  lemma {:induction false} PrefixedEmpty(r: Option<seq<byte>>)
    ensures Prefixed([], r) == r
  {
    assert r.Some? ==> [] + r.value == r.value;
  }

  lemma {:induction false} PrefixedTwice(a: seq<byte>, b: seq<byte>, r: Option<seq<byte>>)
    ensures Prefixed(a, Prefixed(b, r)) == Prefixed(a + b, r)
  {
    assert r.Some? ==> a + (b + r.value) == a + b + r.value;
  }

  method PercentDecode(s: string) returns (r: Option<string>)
    ensures r == Decoded(s)
  {
    var bytes := Utf8.Encode(s);
    var out: seq<byte> := [];
    var i := 0;
    assert bytes[0..] == bytes;
    PrefixedEmpty(DecodedBytes(bytes));
    while i < |bytes|
      invariant 0 <= i <= |bytes|
      invariant DecodedBytes(bytes) == Prefixed(out, DecodedBytes(bytes[i..]))
    {
      if bytes[i] == PERCENT {
        if i + 2 >= |bytes| {
          return None;
        }
        var hi, lo := HexValue(bytes[i + 1]), HexValue(bytes[i + 2]);
        if hi.None? || lo.None? {
          return None;
        }
        assert bytes[i..][3..] == bytes[i + 3..];
        PrefixedTwice(out, [hi.value * 16 + lo.value], DecodedBytes(bytes[i + 3..]));
        out := out + [hi.value * 16 + lo.value];
        i := i + 3;
      } else {
        assert bytes[i..][1..] == bytes[i + 1..];
        PrefixedTwice(out, [bytes[i]], DecodedBytes(bytes[i + 1..]));
        out := out + [bytes[i]];
        i := i + 1;
      }
    }
    assert bytes[i..] == [] && out + [] == out;
    return Utf8.Decode(out);
  }

  lemma {:induction false} EncodedBoth(a: seq<byte>, b: seq<byte>)
    ensures EncodedBytes(a + b) == EncodedBytes(a) + EncodedBytes(b)
  {
    if a == [] {
      assert a + b == b;
    } else {
      assert (a + b)[1..] == a[1..] + b;
      EncodedBoth(a[1..], b);
    }
  }

  lemma {:induction false} EncodedOne(b: byte)
    ensures EncodedBytes([b]) == if Unreserved(b) then [b as char] else ['%', UPPER[b / 16], UPPER[b % 16]]
  {
    assert [b][1..] == [];
    DigitIs(b / 16);
    DigitIs(b % 16);
  }

  lemma {:induction false} DigitIs(n: nat)
    requires n < 16
    ensures HexDigit(n) == UPPER[n]
  {
  }

  /** Every byte is written by itself: letters, digits and `-_.~` as they are, others as a percent sign
      and two upper-case digits, the high one first. */
  lemma {:induction false} EncodedExactly(a: seq<byte>, b: byte, c: seq<byte>)
    ensures EncodedBytes(a + [b] + c)
            == EncodedBytes(a) + (if Unreserved(b) then [b as char] else ['%', UPPER[b / 16], UPPER[b % 16]])
               + EncodedBytes(c)
  {
    EncodedBoth(a + [b], c);
    EncodedBoth(a, [b]);
    EncodedOne(b);
  }

  lemma {:induction false} EncodedByteIsAscii(b: byte)
    ensures IsAscii(EncodedByte(b)) && ';' !in EncodedByte(b)
  {
  }

  /** Encoded text is ASCII and free of the field delimiter. */
  lemma {:induction false} EncodedIsAscii(bytes: seq<byte>)
    ensures IsAscii(EncodedBytes(bytes)) && ';' !in EncodedBytes(bytes)
  {
    if bytes != [] {
      EncodedByteIsAscii(bytes[0]);
      EncodedIsAscii(bytes[1..]);
    }
  }

  /** `t` holds the characters of ASCII text `s` as bytes. */
  ghost predicate SameCodes(t: seq<byte>, s: string) {
    |t| == |s| && forall i :: 0 <= i < |s| ==> t[i] == s[i] as int
  }

  lemma {:induction false} DecodedOne(b: byte, t: seq<byte>)
    requires |t| >= |EncodedByte(b)| && SameCodes(t[..|EncodedByte(b)|], EncodedByte(b))
    ensures DecodedBytes(t) == Prefixed([b], DecodedBytes(t[|EncodedByte(b)|..]))
  {
    var e := EncodedByte(b);
    assert forall i :: 0 <= i < |e| ==> t[..|e|][i] == t[i];
    if !Unreserved(b) {
      assert t[0] == PERCENT && HexValue(t[1]) == Some(b / 16) && HexValue(t[2]) == Some(b % 16);
    }
  }

  lemma {:induction false} SameCodesCut(t: seq<byte>, s: string, n: nat)
    requires SameCodes(t, s) && n <= |s|
    ensures SameCodes(t[..n], s[..n]) && SameCodes(t[n..], s[n..])
  {
  }

  lemma {:induction false} EncodedCut(bytes: seq<byte>)
    requires bytes != []
    ensures var e, n := EncodedBytes(bytes), |EncodedByte(bytes[0])|;
      n <= |e| && e[..n] == EncodedByte(bytes[0]) && e[n..] == EncodedBytes(bytes[1..])
  {
  }

  lemma {:induction false} DecodeEncodeBytes(bytes: seq<byte>, t: seq<byte>)
    requires SameCodes(t, EncodedBytes(bytes))
    ensures DecodedBytes(t) == Some(bytes)
    decreases |bytes|
  {
    if bytes != [] {
      var n := |EncodedByte(bytes[0])|;
      EncodedCut(bytes);
      SameCodesCut(t, EncodedBytes(bytes), n);
      DecodedOne(bytes[0], t);
      DecodeEncodeBytes(bytes[1..], t[n..]);
      assert [bytes[0]] + bytes[1..] == bytes;
    }
  }

  /** Decoding undoes encoding on every text. */
  lemma {:induction false} PercentRoundTrip(s: string)
    ensures Decoded(EncodedBytes(Utf8.Encode(s))) == Some(s)
  {
    var e := EncodedBytes(Utf8.Encode(s));
    EncodedIsAscii(Utf8.Encode(s));
    AsciiBytes(e);
    DecodeEncodeBytes(Utf8.Encode(s), Utf8.Encode(e));
    Utf8.DecodeEncode(s);
  }
}
