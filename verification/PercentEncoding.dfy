/**
 * `encodeURIComponent` and `decodeURIComponent`: percent-encoding (section 2.1 of RFC 3986) of
 * the UTF-8 form of a string of Unicode scalar values.
 */
module PercentEncoding {
  import opened Options

  predicate IsUnreserved(c: char) {
    || 'a' <= c <= 'z' || 'A' <= c <= 'Z' || '0' <= c <= '9'
    || c in "-_.!~*'()"
  }

  function HexDigit(n: nat): char
    requires n < 16
  {
    "0123456789ABCDEF"[n]
  }

  function HexValue(c: char): Option<nat> {
    if '0' <= c <= '9' then Some(c as int - '0' as int)
    else if 'A' <= c <= 'F' then Some(c as int - 'A' as int + 10)
    else if 'a' <= c <= 'f' then Some(c as int - 'a' as int + 10)
    else None
  }

  function Triplet(b: nat): (r: string)
    requires b < 256
    ensures |r| == 3 && r[0] == '%'
  {
    ['%', HexDigit(b / 16), HexDigit(b % 16)]
  }

  /** The UTF-8 bytes of a scalar value, as triplets. */
  function Triplets(c: char): string {
    var n := c as int;
    if n < 0x80 then Triplet(n)
    else if n < 0x800 then Triplet(0xC0 + n / 64) + Triplet(0x80 + n % 64)
    else if n < 0x10000 then Triplet(0xE0 + n / 4096) + Triplet(0x80 + n / 64 % 64) + Triplet(0x80 + n % 64)
    else Triplet(0xF0 + n / 262144) + Triplet(0x80 + n / 4096 % 64) + Triplet(0x80 + n / 64 % 64) + Triplet(0x80 + n % 64)
  }

  function EncodeChar(c: char): string {
    if IsUnreserved(c) then [c] else Triplets(c)
  }

  function Encode(s: string): string {
    if s == "" then "" else EncodeChar(s[0]) + Encode(s[1..])
  }

  // ----- decoding

  /** The byte of the triplet at the start of `s`. */
  function ReadByte(s: string): (b: Option<nat>)
    ensures b.Some? ==> |s| >= 3 && b.value < 256
  {
    if |s| < 3 || s[0] != '%' || HexValue(s[1]).None? || HexValue(s[2]).None? then None
    else Some(HexValue(s[1]).value * 16 + HexValue(s[2]).value)
  }

  /** The six payload bits of a continuation byte at the start of `s`. */
  function ReadTail(s: string): (b: Option<nat>)
    ensures b.Some? ==> |s| >= 3 && b.value < 64
  {
    match ReadByte(s)
    case Some(b) => if 0x80 <= b < 0xC0 then Some(b - 0x80) else None
    case None => None
  }

  predicate IsScalar(n: int) { 0 <= n < 0xD800 || 0xE000 <= n < 0x11_0000 }

  datatype Decoded = Decoded(c: char, size: nat)

  /** The scalar value whose triplets start `s`; overlong forms and surrogates are refused. */
  function ReadScalar(s: string): (r: Option<Decoded>)
    ensures r.Some? ==> 0 < r.value.size <= |s|
  {
    match ReadByte(s)
    case None => None
    case Some(b) =>
      if b < 0x80 then Some(Decoded(b as char, 3))
      else if 0xC0 <= b < 0xE0 then
        match ReadTail(s[3..])
        case None => None
        case Some(t) => Checked((b - 0xC0) * 64 + t, 0x80, 6, s)
      else if 0xE0 <= b < 0xF0 then
        match ReadTail(s[3..])
        case None => None
        case Some(t) =>
          match ReadTail(s[6..])
          case None => None
          case Some(u) => Checked((b - 0xE0) * 4096 + t * 64 + u, 0x800, 9, s)
      else if 0xF0 <= b < 0xF8 then
        match ReadTail(s[3..])
        case None => None
        case Some(t) =>
          match ReadTail(s[6..])
          case None => None
          case Some(u) =>
            match ReadTail(s[9..])
            case None => None
            case Some(v) => Checked((b - 0xF0) * 262144 + t * 4096 + u * 64 + v, 0x10000, 12, s)
      else None
  }

  function Checked(n: nat, least: nat, size: nat, s: string): (r: Option<Decoded>)
    requires 0 < size <= |s|
    ensures r.Some? ==> r.value.size == size
  {
    if n < least || !IsScalar(n) then None else Some(Decoded(n as char, size))
  }

  function Prepend(c: char, rest: Option<string>): Option<string> {
    if rest.Some? then Some([c] + rest.value) else None
  }

  function Decode(s: string): Option<string>
    decreases |s|
  {
    if s == "" then Some("")
    else if s[0] != '%' then Prepend(s[0], Decode(s[1..]))
    else
      match ReadScalar(s)
      case None => None
      case Some(Decoded(c, size)) => Prepend(c, Decode(s[size..]))
  }

  // ----- the round trip

  lemma TripletReadsBack(b: nat, s: string)
    requires b < 256
    ensures ReadByte(Triplet(b) + s) == Some(b) && (Triplet(b) + s)[3..] == s
  {
    HexReadsBack(b / 16);
    HexReadsBack(b % 16);
  }

  lemma HexReadsBack(n: nat)
    requires n < 16
    ensures HexValue(HexDigit(n)) == Some(n)
  {
    assert "0123456789ABCDEF"[n] == if n < 10 then (n + '0' as int) as char else (n - 10 + 'A' as int) as char;
  }

  lemma TailReadsBack(t: nat, s: string)
    requires t < 64
    ensures ReadTail(Triplet(0x80 + t) + s) == Some(t) && (Triplet(0x80 + t) + s)[3..] == s
  {
    TripletReadsBack(0x80 + t, s);
  }

  lemma CharIsScalar(c: char)
    ensures IsScalar(c as int) && (c as int) as char == c
  {
  }

  lemma TwoBytesReadBack(c: char, s: string)
    requires 0x80 <= c as int < 0x800
    ensures ReadScalar(Triplets(c) + s) == Some(Decoded(c, 6)) && (Triplets(c) + s)[6..] == s
  {
    hide Triplet, ReadByte;
    var n := c as int;
    var t := Triplet(0x80 + n % 64) + s;
    assert Triplets(c) + s == Triplet(0xC0 + n / 64) + t;
    TripletReadsBack(0xC0 + n / 64, t);
    TailReadsBack(n % 64, s);
    CharIsScalar(c);
  }

  lemma SixBitTriples(n: nat)
    requires n < 0x10000
    ensures n / 4096 < 16
    ensures (n / 4096) * 4096 + (n / 64 % 64) * 64 + n % 64 == n
  {
    assert n / 64 / 64 == n / 4096;
  }

  lemma ThreeBytesRead(a: nat, b: nat, c: nat, s: string)
    requires a < 16 && b < 64 && c < 64
    ensures var all := Triplet(0xE0 + a) + (Triplet(0x80 + b) + (Triplet(0x80 + c) + s));
            ReadScalar(all) == Checked(a * 4096 + b * 64 + c, 0x800, 9, all) && all[9..] == s
  {
    hide Triplet, ReadByte, ReadTail, Checked;
    var u := Triplet(0x80 + c) + s;
    var t := Triplet(0x80 + b) + u;
    var all := Triplet(0xE0 + a) + t;
    TripletReadsBack(0xE0 + a, t);
    TailReadsBack(b, u);
    TailReadsBack(c, s);
    assert all[6..] == all[3..][3..];
    assert all[9..] == all[6..][3..];
  }

  lemma ThreeTriplets(c: char, s: string)
    requires 0x800 <= c as int < 0x10000
    ensures var n := c as int;
            Triplets(c) + s == Triplet(0xE0 + n / 4096) + (Triplet(0x80 + n / 64 % 64) + (Triplet(0x80 + n % 64) + s))
  {
    hide Triplet;
    var n := c as int;
    Regroup(Triplet(0xE0 + n / 4096), Triplet(0x80 + n / 64 % 64), Triplet(0x80 + n % 64), "", s);
  }

  lemma ThreeBytesReadBack(c: char, s: string)
    requires 0x800 <= c as int < 0x10000
    ensures ReadScalar(Triplets(c) + s) == Some(Decoded(c, 9)) && (Triplets(c) + s)[9..] == s
  {
    hide Triplet, ReadScalar, Triplets;
    var n := c as int;
    ThreeTriplets(c, s);
    CharIsScalar(c);
    SixBitTriples(n);
    ThreeBytesRead(n / 4096, n / 64 % 64, n % 64, s);
  }

  lemma SixBitGroups(n: nat)
    requires n < 0x11_0000
    ensures n / 262144 < 8
    ensures (n / 262144) * 262144 + (n / 4096 % 64) * 4096 + (n / 64 % 64) * 64 + n % 64 == n
  {
    assert n / 4096 / 64 == n / 262144;
    assert n / 64 / 64 == n / 4096;
  }

  lemma FourBytesRead(a: nat, b: nat, c: nat, d: nat, s: string)
    requires a < 8 && b < 64 && c < 64 && d < 64
    ensures var n := a * 262144 + b * 4096 + c * 64 + d;
            var all := Triplet(0xF0 + a) + (Triplet(0x80 + b) + (Triplet(0x80 + c) + (Triplet(0x80 + d) + s)));
            ReadScalar(all) == Checked(n, 0x10000, 12, all) && all[12..] == s
  {
    hide Triplet, ReadByte, ReadTail, Checked;
    var v := Triplet(0x80 + d) + s;
    var u := Triplet(0x80 + c) + v;
    var t := Triplet(0x80 + b) + u;
    var all := Triplet(0xF0 + a) + t;
    TripletReadsBack(0xF0 + a, t);
    TailReadsBack(b, u);
    TailReadsBack(c, v);
    TailReadsBack(d, s);
    assert all[6..] == all[3..][3..];
    assert all[9..] == all[6..][3..];
    assert all[12..] == all[9..][3..];
  }

  lemma Regroup(a: string, b: string, c: string, d: string, s: string)
    ensures a + b + c + d + s == a + (b + (c + (d + s)))
  {
  }

  lemma FourTriplets(c: char, s: string)
    requires 0x10000 <= c as int
    ensures var n := c as int;
            && n < 0x11_0000
            && Triplets(c) + s == Triplet(0xF0 + n / 262144) + (Triplet(0x80 + n / 4096 % 64)
                 + (Triplet(0x80 + n / 64 % 64) + (Triplet(0x80 + n % 64) + s)))
  {
    hide Triplet;
    var n := c as int;
    Regroup(Triplet(0xF0 + n / 262144), Triplet(0x80 + n / 4096 % 64), Triplet(0x80 + n / 64 % 64), Triplet(0x80 + n % 64), s);
  }

  lemma FourBytesReadBack(c: char, s: string)
    requires 0x10000 <= c as int
    ensures ReadScalar(Triplets(c) + s) == Some(Decoded(c, 12)) && (Triplets(c) + s)[12..] == s
  {
    hide Triplet, ReadScalar, Triplets;
    var n := c as int;
    FourTriplets(c, s);
    CharIsScalar(c);
    SixBitGroups(n);
    FourBytesRead(n / 262144, n / 4096 % 64, n / 64 % 64, n % 64, s);
  }

  lemma CharReadsBack(c: char, s: string)
    ensures Decode(EncodeChar(c) + s) == Prepend(c, Decode(s))
  {
    var all := EncodeChar(c) + s;
    if IsUnreserved(c) {
      assert all[0] == c && all[1..] == s;
    } else {
      hide Triplet, ReadScalar, IsUnreserved;
      assert all[0] == '%';
      if (c as int) < 0x80 {
        OneByteReadsBack(c, s);
      } else if (c as int) < 0x800 {
        TwoBytesReadBack(c, s);
      } else if (c as int) < 0x10000 {
        ThreeBytesReadBack(c, s);
      } else {
        FourBytesReadBack(c, s);
      }
    }
  }

  lemma OneByteReadsBack(c: char, s: string)
    requires (c as int) < 0x80
    ensures ReadScalar(Triplets(c) + s) == Some(Decoded(c, 3)) && (Triplets(c) + s)[3..] == s
  {
    hide Triplet, ReadByte;
    TripletReadsBack(c as int, s);
    CharIsScalar(c);
  }

  /** Decoding undoes encoding for every string. */
  lemma {:induction false} DecodeUndoesEncode(s: string)
    ensures Decode(Encode(s)) == Some(s)
  {
    hide EncodeChar, Decode;
    if s == "" {
      assert Decode("") == Some("") by { DecodeNothing(); }
    } else {
      CharReadsBack(s[0], Encode(s[1..]));
      DecodeUndoesEncode(s[1..]);
      assert [s[0]] + s[1..] == s;
    }
  }

  lemma DecodeNothing()
    ensures Decode("") == Some("")
  {
  }

  // ----- what the encoded text is made of

  /** Letters, digits, the unreserved marks and the percent sign. */
  predicate IsSafe(s: string) {
    forall i :: 0 <= i < |s| ==> IsUnreserved(s[i]) || s[i] == '%'
  }

  lemma TripletIsSafe(b: nat)
    requires b < 256
    ensures IsSafe(Triplet(b))
  {
    HexReadsBack(b / 16);
    HexReadsBack(b % 16);
  }

  lemma SafeConcat(a: string, b: string)
    requires IsSafe(a) && IsSafe(b)
    ensures IsSafe(a + b)
  {
  }

  lemma TripletPairIsSafe(a: nat, b: nat)
    requires a < 256 && b < 256
    ensures IsSafe(Triplet(a) + Triplet(b))
  {
    hide Triplet;
    TripletIsSafe(a);
    TripletIsSafe(b);
  }

  lemma TripletsAreSafe(c: char)
    ensures IsSafe(Triplets(c)) && Triplets(c) != ""
  {
    hide Triplet, IsSafe;
    CharIsScalar(c);
    var n := c as int;
    if n < 0x80 {
      TripletIsSafe(n);
    } else if n < 0x800 {
      TripletPairIsSafe(0xC0 + n / 64, 0x80 + n % 64);
    } else if n < 0x10000 {
      TripletPairIsSafe(0xE0 + n / 4096, 0x80 + n / 64 % 64);
      TripletIsSafe(0x80 + n % 64);
      SafeConcat(Triplet(0xE0 + n / 4096) + Triplet(0x80 + n / 64 % 64), Triplet(0x80 + n % 64));
    } else {
      TripletPairIsSafe(0xF0 + n / 262144, 0x80 + n / 4096 % 64);
      TripletPairIsSafe(0x80 + n / 64 % 64, 0x80 + n % 64);
      SafeConcat(Triplet(0xF0 + n / 262144) + Triplet(0x80 + n / 4096 % 64), Triplet(0x80 + n / 64 % 64) + Triplet(0x80 + n % 64));
      assert Triplet(0xF0 + n / 262144) + Triplet(0x80 + n / 4096 % 64) + (Triplet(0x80 + n / 64 % 64) + Triplet(0x80 + n % 64))
          == Triplets(c);
    }
  }

  lemma EncodedCharIsSafe(c: char)
    ensures IsSafe(EncodeChar(c)) && EncodeChar(c) != ""
  {
    hide Triplets;
    if !IsUnreserved(c) {
      TripletsAreSafe(c);
    }
  }

  lemma {:induction false} EncodedIsSafe(s: string)
    ensures IsSafe(Encode(s)) && (Encode(s) == "" <==> s == "")
  {
    hide EncodeChar, IsSafe, IsUnreserved;
    if s == "" {
      assert IsSafe("") by { NothingIsSafe(); }
    } else {
      EncodedCharIsSafe(s[0]);
      EncodedIsSafe(s[1..]);
      SafeConcat(EncodeChar(s[0]), Encode(s[1..]));
    }
  }

  lemma NothingIsSafe()
    ensures IsSafe("")
  {
  }

  predicate IsUpperHex(c: char) { '0' <= c <= '9' || 'A' <= c <= 'F' }

  /** The characters that `encodeURIComponent` leaves alone. */
  predicate StaysAsItIs(c: char) {
    || 'a' <= c <= 'z' || 'A' <= c <= 'Z' || '0' <= c <= '9'
    || c == '-' || c == '_' || c == '.' || c == '!' || c == '~' || c == '*' || c == '\'' || c == '(' || c == ')'
  }

  /** Characters that stay, and percent signs each followed by two upper-case hexadecimal digits. */
  predicate IsPercentText(s: string) {
    s == "" ||
    if s[0] == '%' then |s| >= 3 && IsUpperHex(s[1]) && IsUpperHex(s[2]) && IsPercentText(s[3..])
    else StaysAsItIs(s[0]) && IsPercentText(s[1..])
  }

  lemma TripletIsPercentText(b: nat, s: string)
    requires b < 256 && IsPercentText(s)
    ensures IsPercentText(Triplet(b) + s)
  {
    HexReadsBack(b / 16);
    HexReadsBack(b % 16);
    assert (Triplet(b) + s)[3..] == s;
  }

  lemma TripletsArePercentText(c: char, s: string)
    requires IsPercentText(s)
    ensures IsPercentText(Triplets(c) + s)
  {
    hide Triplet, IsPercentText;
    var n := c as int;
    CharIsScalar(c);
    if n < 0x80 {
      TripletIsPercentText(n, s);
    } else if n < 0x800 {
      TripletIsPercentText(0x80 + n % 64, s);
      TripletIsPercentText(0xC0 + n / 64, Triplet(0x80 + n % 64) + s);
      assert Triplets(c) + s == Triplet(0xC0 + n / 64) + (Triplet(0x80 + n % 64) + s);
    } else if n < 0x10000 {
      ThreeTriplets(c, s);
      TripletIsPercentText(0x80 + n % 64, s);
      TripletIsPercentText(0x80 + n / 64 % 64, Triplet(0x80 + n % 64) + s);
      TripletIsPercentText(0xE0 + n / 4096, Triplet(0x80 + n / 64 % 64) + (Triplet(0x80 + n % 64) + s));
    } else {
      FourTriplets(c, s);
      TripletIsPercentText(0x80 + n % 64, s);
      TripletIsPercentText(0x80 + n / 64 % 64, Triplet(0x80 + n % 64) + s);
      TripletIsPercentText(0x80 + n / 4096 % 64, Triplet(0x80 + n / 64 % 64) + (Triplet(0x80 + n % 64) + s));
      TripletIsPercentText(0xF0 + n / 262144,
        Triplet(0x80 + n / 4096 % 64) + (Triplet(0x80 + n / 64 % 64) + (Triplet(0x80 + n % 64) + s)));
    }
  }

  lemma UnreservedStays(c: char)
    ensures IsUnreserved(c) <==> StaysAsItIs(c)
  {
  }

  /** Encoded text is well formed, and a character is left alone exactly when it should be. */
  lemma {:induction false} EncodedText(s: string)
    ensures IsPercentText(Encode(s))
    ensures forall i :: 0 <= i < |s| ==> (EncodeChar(s[i]) == [s[i]] <==> StaysAsItIs(s[i]))
  {
    hide Triplets, IsUnreserved, StaysAsItIs;
    if s != "" {
      EncodedText(s[1..]);
      assert forall i :: 0 < i < |s| ==> s[i] == s[1..][i - 1];
      EncodedHead(s[0], Encode(s[1..]));
    }
  }

  lemma EncodedHead(c: char, s: string)
    requires IsPercentText(s)
    ensures IsPercentText(EncodeChar(c) + s) && (EncodeChar(c) == [c] <==> StaysAsItIs(c))
  {
    hide Triplets;
    UnreservedStays(c);
    if IsUnreserved(c) {
      assert ([c] + s)[1..] == s;
    } else {
      TripletsArePercentText(c, s);
      TripletsAreLong(c);
    }
  }

  lemma TripletsAreLong(c: char)
    ensures |Triplets(c)| >= 3
  {
    hide Triplet;
  }

  // ----- decoding keeps the bytes

  /** The UTF-8 form of a scalar value (section 3 of RFC 3629). */
  function Utf8Char(c: char): seq<nat> {
    var n := c as int;
    if n < 0x80 then [n]
    else if n < 0x800 then [0xC0 + n / 64, 0x80 + n % 64]
    else if n < 0x10000 then [0xE0 + n / 4096, 0x80 + n / 64 % 64, 0x80 + n % 64]
    else [0xF0 + n / 262144, 0x80 + n / 4096 % 64, 0x80 + n / 64 % 64, 0x80 + n % 64]
  }

  function Utf8(s: string): seq<nat> {
    if s == "" then [] else Utf8Char(s[0]) + Utf8(s[1..])
  }

  /** The bytes that a text stands for: a triplet for its byte, any other character for its UTF-8 form. */
  function BytesOf(s: string): Option<seq<nat>>
    decreases |s|
  {
    if s == "" then Some([])
    else if s[0] != '%' then
      match BytesOf(s[1..])
      case None => None
      case Some(rest) => Some(Utf8Char(s[0]) + rest)
    else
      match ReadByte(s)
      case None => None
      case Some(b) =>
        match BytesOf(s[3..])
        case None => None
        case Some(rest) => Some([b] + rest)
  }

  lemma ByteAhead(s: string)
    requires ReadByte(s).Some? && BytesOf(s[3..]).Some?
    ensures BytesOf(s) == Some([ReadByte(s).value] + BytesOf(s[3..]).value)
  {
  }

  lemma TailAhead(s: string, i: nat)
    requires i + 3 <= |s| && ReadTail(s[i..]).Some? && BytesOf(s[i + 3..]).Some?
    ensures BytesOf(s[i..]) == Some([0x80 + ReadTail(s[i..]).value] + BytesOf(s[i + 3..]).value)
  {
    hide ReadByte;
    assert s[i..][3..] == s[i + 3..];
    ByteAhead(s[i..]);
  }

  ghost predicate KeepsBytes(s: string)
    requires ReadScalar(s).Some?
  {
    var r := ReadScalar(s).value;
    BytesOf(s[r.size..]).Some? ==> BytesOf(s) == Some(Utf8Char(r.c) + BytesOf(s[r.size..]).value)
  }

  lemma TwoKeepBytes(s: string)
    requires ReadScalar(s).Some? && 0x80 <= ReadByte(s).value < 0xE0
    ensures KeepsBytes(s)
  {
    hide BytesOf, ReadTail, ReadByte;
    if BytesOf(s[6..]).Some? {
      var b, t, rest := ReadByte(s).value, ReadTail(s[3..]).value, BytesOf(s[6..]).value;
      TailAhead(s, 3);
      ByteAhead(s);
      TwoGroups(b - 0xC0, t);
      assert Utf8Char(ReadScalar(s).value.c) == [b, 0x80 + t];
      assert [b] + ([0x80 + t] + rest) == [b, 0x80 + t] + rest;
    }
  }

  lemma ThreeKeepBytes(s: string)
    requires ReadScalar(s).Some? && 0xE0 <= ReadByte(s).value < 0xF0
    ensures KeepsBytes(s)
  {
    hide BytesOf, ReadTail, ReadByte;
    if BytesOf(s[9..]).Some? {
      var b, t, u, rest := ReadByte(s).value, ReadTail(s[3..]).value, ReadTail(s[6..]).value, BytesOf(s[9..]).value;
      TailAhead(s, 6);
      TailAhead(s, 3);
      ByteAhead(s);
      ThreeGroups(b - 0xE0, t, u);
      assert Utf8Char(ReadScalar(s).value.c) == [b, 0x80 + t, 0x80 + u];
      assert [b] + ([0x80 + t] + ([0x80 + u] + rest)) == [b, 0x80 + t, 0x80 + u] + rest;
    }
  }

  lemma FourKeepBytes(s: string)
    requires ReadScalar(s).Some? && 0xF0 <= ReadByte(s).value
    ensures KeepsBytes(s)
  {
    hide BytesOf, ReadTail, ReadByte;
    if BytesOf(s[12..]).Some? {
      var b, t, u, v := ReadByte(s).value, ReadTail(s[3..]).value, ReadTail(s[6..]).value, ReadTail(s[9..]).value;
      var rest := BytesOf(s[12..]).value;
      TailAhead(s, 9);
      TailAhead(s, 6);
      TailAhead(s, 3);
      ByteAhead(s);
      FourGroups(b - 0xF0, t, u, v);
      assert Utf8Char(ReadScalar(s).value.c) == [b, 0x80 + t, 0x80 + u, 0x80 + v];
      assert [b] + ([0x80 + t] + ([0x80 + u] + ([0x80 + v] + rest))) == [b, 0x80 + t, 0x80 + u, 0x80 + v] + rest;
    }
  }

  lemma OneKeepsBytes(s: string)
    requires ReadScalar(s).Some? && ReadByte(s).value < 0x80
    ensures KeepsBytes(s)
  {
    hide BytesOf, ReadByte;
    if BytesOf(s[3..]).Some? {
      ByteAhead(s);
    }
  }

  lemma ScalarStartsWithByte(s: string)
    requires ReadScalar(s).Some?
    ensures ReadByte(s).Some?
  {
  }

  /** The triplets that were read as one scalar value are its UTF-8 form. */
  lemma ScalarKeepsBytes(s: string)
    requires ReadScalar(s).Some?
    ensures KeepsBytes(s)
  {
    hide *;
    ScalarStartsWithByte(s);
    if ReadByte(s).value < 0x80 {
      OneKeepsBytes(s);
    } else if ReadByte(s).value < 0xE0 {
      TwoKeepBytes(s);
    } else if ReadByte(s).value < 0xF0 {
      ThreeKeepBytes(s);
    } else {
      FourKeepBytes(s);
    }
  }

  lemma TwoGroups(a: nat, b: nat)
    requires a < 32 && b < 64
    ensures var n := a * 64 + b; n / 64 == a && n % 64 == b
  {
  }

  lemma ThreeGroups(a: nat, b: nat, c: nat)
    requires a < 16 && b < 64 && c < 64
    ensures var n := a * 4096 + b * 64 + c; n / 4096 == a && n / 64 % 64 == b && n % 64 == c
  {
  }

  lemma FourGroups(a: nat, b: nat, c: nat, d: nat)
    requires a < 8 && b < 64 && c < 64 && d < 64
    ensures var n := a * 262144 + b * 4096 + c * 64 + d;
            n / 262144 == a && n / 4096 % 64 == b && n / 64 % 64 == c && n % 64 == d
  {
    var n := a * 262144 + b * 4096 + c * 64 + d;
    assert n / 64 == a * 4096 + b * 64 + c;
    assert n / 4096 == a * 64 + b;
  }

  /** Decoding never changes the bytes: overlong forms, surrogates and stray bytes are refused. */
  lemma {:induction false} DecodeKeepsBytes(s: string)
    requires Decode(s).Some?
    ensures BytesOf(s) == Some(Utf8(Decode(s).value))
    decreases |s|
  {
    hide ReadScalar, Utf8Char;
    if s != "" {
      if s[0] != '%' {
        DecodeKeepsBytes(s[1..]);
        assert ([s[0]] + Decode(s[1..]).value)[1..] == Decode(s[1..]).value;
      } else {
        var r := ReadScalar(s).value;
        DecodeKeepsBytes(s[r.size..]);
        ScalarKeepsBytes(s);
        assert ([r.c] + Decode(s[r.size..]).value)[1..] == Decode(s[r.size..]).value;
      }
    }
  }
}
