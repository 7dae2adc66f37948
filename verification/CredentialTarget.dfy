/**
 The name under which a login is kept: a fixed prefix, the server in lower case, the port
 and the user name, the last two and the server percent-encoded as in sections 2.1 and
 2.3 of RFC 3986. Values are C strings, so no byte of them is 0.
 */
module CredentialTarget {
  import opened Common

  const SERVER_MAX := 255
  const USERNAME_MAX := 255
  const TARGET_MAX := 1600

  type Bytes = seq<byte>

  datatype Identity = Identity(server: Bytes, port: nat, username: Bytes)

  datatype Result = Ok | InvalidArgument | BufferTooSmall

  function Ascii(s: string): (b: Bytes)
    requires forall i :: 0 <= i < |s| ==> s[i] as int < 256
    ensures |b| == |s| && forall i :: 0 <= i < |s| ==> b[i] as int == s[i] as int
  {
    seq(|s|, i requires 0 <= i < |s| => s[i] as int as byte)
  }

  const PREFIX: Bytes := Ascii("EggnoggPlus/YuleOnline/v1/server/")
  const PORT_SEPARATOR: Bytes := Ascii("/port/")
  const USER_SEPARATOR: Bytes := Ascii("/user/")

  const SLASH: byte := 0x2F
  const PERCENT: byte := 0x25

  // -------------------------------------------------------------- encoding

  predicate IsUnreserved(b: byte) {
    0x61 <= b <= 0x7A || 0x41 <= b <= 0x5A || 0x30 <= b <= 0x39 || b == 0x2D || b == 0x2E || b == 0x5F || b == 0x7E
  }

  function Hex(digit: nat): (h: byte)
    requires digit < 16
  {
    if digit < 10 then 0x30 + digit as byte else 0x41 + (digit - 10) as byte
  }

  function HexValue(h: byte): Option<nat> {
    if 0x30 <= h <= 0x39 then Some((h - 0x30) as nat)
    else if 0x41 <= h <= 0x46 then Some((h - 0x41) as nat + 10)
    else None
  }

  function EncodedByte(b: byte): (e: Bytes)
    ensures |e| == if IsUnreserved(b) then 1 else 3
  {
    if IsUnreserved(b) then [b] else [PERCENT, Hex(b as nat / 16), Hex(b as nat % 16)]
  }

  // The characters of section 2.3 and the digits of section 2.1.
  const UPPER := "ABCDEFGHIJKLMNOPQRSTUVWXYZ"
  const LOWER := "abcdefghijklmnopqrstuvwxyz"
  const DIGITS := "0123456789"
  const MARKS := "-._~"
  const UPPER_HEX := "0123456789ABCDEF"

  predicate Unreserved(c: char) { c in UPPER || c in LOWER || c in DIGITS || c in MARKS }

  lemma UpperLetters(c: char)
    ensures c in UPPER <==> 'A' <= c <= 'Z'
  {
    if 'A' <= c <= 'Z' { assert UPPER[c as int - 'A' as int] == c; }
  }

  lemma LowerLetters(c: char)
    ensures c in LOWER <==> 'a' <= c <= 'z'
  {
    if 'a' <= c <= 'z' { assert LOWER[c as int - 'a' as int] == c; }
  }

  lemma DigitsAndMarks(c: char)
    ensures c in DIGITS <==> '0' <= c <= '9'
    ensures c in MARKS <==> c == '-' || c == '.' || c == '_' || c == '~'
  {
    if '0' <= c <= '9' { assert DIGITS[c as int - '0' as int] == c; }
    assert MARKS[0] == '-' && MARKS[1] == '.' && MARKS[2] == '_' && MARKS[3] == '~';
  }

  lemma HexIsUpper(digit: nat)
    requires digit < 16
    ensures UPPER_HEX[digit] as int == Hex(digit)
  {
  }

  /** One byte as RFC 3986 wants it: an unreserved character stands for itself, any other byte is a percent sign and two
      hexadecimal digits in upper case. */
  lemma EncodesAsInRfc3986(b: byte)
    ensures var e := EncodedByte(b);
            if Unreserved(b as char) then e == [b]
            else |e| == 3 && e[0] as char == '%' && e[1] as char == UPPER_HEX[b / 16] && e[2] as char == UPPER_HEX[b % 16]
  {
    var c := b as char;
    UpperLetters(c);
    LowerLetters(c);
    DigitsAndMarks(c);
    HexIsUpper(b / 16);
    HexIsUpper(b % 16);
    hide Hex;
  }

  function Encoded(value: Bytes): Bytes {
    if value == [] then [] else Encoded(value[..|value| - 1]) + EncodedByte(value[|value| - 1])
  }

  function LowerByte(b: byte): byte { if 0x41 <= b <= 0x5A then b + 0x20 else b }

  function Lower(value: Bytes): (r: Bytes)
    ensures |r| == |value|
  {
    seq(|value|, i requires 0 <= i < |value| => LowerByte(value[i]))
  }

  function EncodedLength(value: Bytes): (n: nat)
    ensures n <= 3 * |value|
  {
    if value == [] then 0
    else EncodedLength(value[..|value| - 1]) + if IsUnreserved(value[|value| - 1]) then 1 else 3
  }

  /** Decimal digits, as printf writes them. */
  function Decimal(n: nat): (d: Bytes)
    ensures |d| >= 1
  {
    if n < 10 then [0x30 + n as byte] else Decimal(n / 10) + [0x30 + (n % 10) as byte]
  }

  function Target(id: Identity): Bytes {
    PREFIX + (Encoded(Lower(id.server)) + (PORT_SEPARATOR + (Decimal(id.port) + (USER_SEPARATOR + Encoded(id.username)))))
  }

  /** The length computed beforehand, from the server as it was given. */
  function Required(id: Identity): nat {
    |PREFIX| + EncodedLength(id.server) + |PORT_SEPARATOR| + |Decimal(id.port)| + |USER_SEPARATOR| + EncodedLength(id.username)
  }

  predicate ValidIdentity(id: Identity) {
    && 0 < |id.server| <= SERVER_MAX
    && 1 <= id.port <= 65535
    && 0 < |id.username| <= USERNAME_MAX
    && (forall i :: 0 <= i < |id.server| ==> id.server[i] > 0x20 && id.server[i] != 0x7F)
    && (forall i :: 0 <= i < |id.username| ==> id.username[i] >= 0x20 && id.username[i] != 0x7F)
    && id.username[0] != 0x20 && id.username[|id.username| - 1] != 0x20
  }

  // ---------------------------------------------------------------- decoding

  /** Undoes percent-encoding; None for anything that is not the encoding of some bytes. */
  function Decoded(e: Bytes): Option<Bytes> {
    if e == [] then Some([])
    else if e[0] != PERCENT then
      match Decoded(e[1..])
      case None => None
      case Some(rest) => Some([e[0]] + rest)
    else if |e| < 3 || HexValue(e[1]).None? || HexValue(e[2]).None? then None
    else
      match Decoded(e[3..])
      case None => None
      case Some(rest) => Some([(16 * HexValue(e[1]).value + HexValue(e[2]).value) as byte] + rest)
  }

  lemma HexRoundTrip(digit: nat)
    requires digit < 16
    ensures HexValue(Hex(digit)) == Some(digit)
  {
  }

  lemma DecodeOneByte(b: byte, e: Bytes)
    ensures Decoded(EncodedByte(b) + e) == match Decoded(e) case None => None case Some(rest) => Some([b] + rest)
  {
    var x := EncodedByte(b) + e;
    if IsUnreserved(b) {
      assert x[1..] == e;
    } else {
      HexRoundTrip(b as nat / 16);
      HexRoundTrip(b as nat % 16);
      assert x[3..] == e;
    }
  }

  lemma {:induction false} DecodeBefore(value: Bytes, e: Bytes)
    ensures Decoded(Encoded(value) + e) == match Decoded(e) case None => None case Some(rest) => Some(value + rest)
    decreases |value|
  {
    hide Decoded, EncodedByte;
    if value == [] {
      assert Encoded(value) + e == e;
      assert Decoded(e).Some? ==> value + Decoded(e).value == Decoded(e).value;
    } else {
      var (front, b) := (value[..|value| - 1], value[|value| - 1]);
      assert Encoded(value) + e == Encoded(front) + (EncodedByte(b) + e);
      DecodeBefore(front, EncodedByte(b) + e);
      DecodeOneByte(b, e);
      assert forall rest: Bytes :: front + ([b] + rest) == value + rest;
    }
  }

  /** Decoding undoes encoding. */
  lemma DecodeEncoded(value: Bytes)
    ensures Decoded(Encoded(value)) == Some(value)
  {
    DecodeBefore(value, []);
    assert Encoded(value) + [] == Encoded(value) && value + [] == value;
  }

  function DecimalValue(d: Bytes): int {
    if d == [] then 0 else 10 * DecimalValue(d[..|d| - 1]) + d[|d| - 1] as int - 0x30
  }

  lemma {:induction false} DecimalRoundTrip(n: nat)
    ensures DecimalValue(Decimal(n)) == n
  {
    if n >= 10 {
      DecimalRoundTrip(n / 10);
      assert Decimal(n)[..|Decimal(n)| - 1] == Decimal(n / 10);
    } else {
      assert Decimal(n)[..0] == [];
    }
  }

  // -------------------------------------------------- components have no slash

  predicate NoSlash(s: Bytes) { SLASH !in s }

  lemma {:induction false} EncodedHasNoSlash(value: Bytes)
    ensures NoSlash(Encoded(value))
  {
    if value != [] { EncodedHasNoSlash(value[..|value| - 1]); }
  }

  lemma {:induction false} DecimalHasNoSlash(n: nat)
    ensures NoSlash(Decimal(n))
  {
    if n >= 10 { DecimalHasNoSlash(n / 10); }
  }

  /** Two texts that agree have the same first component. */
  lemma SplitAtSlash(a: Bytes, b: Bytes, r: Bytes, s: Bytes)
    requires NoSlash(a) && NoSlash(b) && r != [] && s != [] && r[0] == SLASH && s[0] == SLASH
    requires a + r == b + s
    ensures a == b && r == s
  {
    var x := a + r;
    assert x[|a|] == SLASH && x == b + s && x[|b|] == SLASH;
    assert forall i :: 0 <= i < |a| ==> x[i] == a[i] && a[i] in a;
    assert forall i :: 0 <= i < |b| ==> x[i] == b[i] && b[i] in b;
    assert |a| == |b|;
    assert x[..|a|] == a && x[..|b|] == b && x[|a|..] == r && x[|b|..] == s;
  }

  lemma AfterCommon(a: Bytes, r: Bytes, s: Bytes)
    requires a + r == a + s
    ensures r == s
  {
    assert (a + r)[|a|..] == r && (a + s)[|a|..] == s;
  }

  predicate SameLetter(a: byte, b: byte) {
    a == b || (0x41 <= a <= 0x5A && b == a + 0x20) || (0x41 <= b <= 0x5A && a == b + 0x20)
  }

  /** Equal but for the case of ASCII letters. */
  predicate SameUpToCase(a: Bytes, b: Bytes) {
    |a| == |b| && forall i :: 0 <= i < |a| ==> SameLetter(a[i], b[i])
  }

  lemma LowerIgnoresCase(a: Bytes, b: Bytes)
    ensures Lower(a) == Lower(b) <==> SameUpToCase(a, b)
  {
    if Lower(a) == Lower(b) {
      assert |a| == |Lower(a)| == |b|;
      forall i | 0 <= i < |a| ensures SameLetter(a[i], b[i]) { assert Lower(a)[i] == Lower(b)[i]; }
    }
  }

  /** Two identities have the same target exactly when their servers agree up to the case of ASCII letters, their ports
      are equal and their user names are the same bytes. */
  lemma TargetsAreUnique(x: Identity, y: Identity)
    ensures Target(x) == Target(y) <==>
              SameUpToCase(x.server, y.server) && x.port == y.port && x.username == y.username
  {
    LowerIgnoresCase(x.server, y.server);
    if Target(x) == Target(y) {
      var (ux, uy) := (USER_SEPARATOR + Encoded(x.username), USER_SEPARATOR + Encoded(y.username));
      var (px, py) := (PORT_SEPARATOR + (Decimal(x.port) + ux), PORT_SEPARATOR + (Decimal(y.port) + uy));
      var (sx, sy) := (Encoded(Lower(x.server)), Encoded(Lower(y.server)));
      hide Encoded, Decimal, Lower, NoSlash, SameUpToCase;
      AfterCommon(PREFIX, sx + px, sy + py);
      EncodedHasNoSlash(Lower(x.server));
      EncodedHasNoSlash(Lower(y.server));
      SplitAtSlash(sx, sy, px, py);
      DecodeEncoded(Lower(x.server));
      DecodeEncoded(Lower(y.server));
      AfterCommon(PORT_SEPARATOR, Decimal(x.port) + ux, Decimal(y.port) + uy);
      DecimalHasNoSlash(x.port);
      DecimalHasNoSlash(y.port);
      SplitAtSlash(Decimal(x.port), Decimal(y.port), ux, uy);
      DecimalRoundTrip(x.port);
      DecimalRoundTrip(y.port);
      AfterCommon(USER_SEPARATOR, Encoded(x.username), Encoded(y.username));
      DecodeEncoded(x.username);
      DecodeEncoded(y.username);
    }
  }

  // ------------------------------------------------------------------ lengths

  lemma {:induction false} LengthIsEncodedLength(value: Bytes)
    ensures |Encoded(value)| == EncodedLength(value)
  {
    if value != [] { LengthIsEncodedLength(value[..|value| - 1]); }
  }

  /** Lowering letters does not change whether they need encoding. */
  lemma {:induction false} LoweringKeepsLength(value: Bytes)
    ensures EncodedLength(Lower(value)) == EncodedLength(value)
  {
    if value != [] {
      var front := value[..|value| - 1];
      LoweringKeepsLength(front);
      assert Lower(value)[..|value| - 1] == Lower(front);
    }
  }

  /** The length computed beforehand is the length of the target. */
  lemma RequiredIsLength(id: Identity)
    ensures |Target(id)| == Required(id)
  {
    LengthIsEncodedLength(Lower(id.server));
    LoweringKeepsLength(id.server);
    LengthIsEncodedLength(id.username);
    hide Encoded, EncodedLength, Decimal, Lower;
  }

  /** The target of a valid identity always fits the buffer the callers use, terminator included. */
  lemma TargetsFit(id: Identity)
    requires ValidIdentity(id)
    ensures |Target(id)| <= 1580 < TARGET_MAX
  {
    RequiredIsLength(id);
    PortIsShort(id.port);
    assert |PREFIX| == 33 && |PORT_SEPARATOR| == 6 && |USER_SEPARATOR| == 6;
    hide Target, EncodedLength, Decimal;
  }

  lemma PortIsShort(port: nat)
    requires port <= 65535
    ensures |Decimal(port)| <= 5
  {
    assert PowerOfTen(2) == 100 && PowerOfTen(3) == 1000 && PowerOfTen(4) == 10000 && PowerOfTen(5) == 100000;
    DecimalIsShort(port, 5);
  }

  function PowerOfTen(k: nat): nat { if k == 0 then 1 else 10 * PowerOfTen(k - 1) }

  lemma {:induction false} DecimalIsShort(n: nat, digits: nat)
    requires digits >= 1 && n < PowerOfTen(digits)
    ensures |Decimal(n)| <= digits
  {
    if n >= 10 {
      assert digits == 1 ==> PowerOfTen(digits) == 10;
      DecimalIsShort(n / 10, digits - 1);
    }
  }

  // ----------------------------------------------------------- the computation

  method MeasureEncoded(value: Bytes) returns (length: nat)
    ensures length == EncodedLength(value)
  {
    length := 0;
    for i := 0 to |value|
      invariant length == EncodedLength(value[..i])
    {
      assert value[..i + 1][..i] == value[..i];
      length := length + if IsUnreserved(value[i]) then 1 else 3;
    }
    assert value[..|value|] == value;
  }

  method EncodeByte(out: array<byte>, at: nat, b: byte) returns (next: nat)
    requires at + |EncodedByte(b)| <= out.Length
    modifies out
    ensures next == at + |EncodedByte(b)| && out[..next] == old(out[..at]) + EncodedByte(b)
  {
    if IsUnreserved(b) {
      out[at] := b;
      return at + 1;
    }
    out[at] := PERCENT;
    out[at + 1] := Hex(b as nat / 16);
    out[at + 2] := Hex(b as nat % 16);
    next := at + 3;
  }

  /** Writes an encoded component at a position and returns the position after it. */
  method EncodeComponent(out: array<byte>, at: nat, value: Bytes, lowercase: bool) returns (next: nat)
    requires at + EncodedLength(value) <= out.Length
    modifies out
    ensures next == at + EncodedLength(value) <= out.Length
    ensures out[..next] == old(out[..at]) + Encoded(if lowercase then Lower(value) else value)
  {
    ghost var source := if lowercase then Lower(value) else value;
    hide EncodedByte, Encoded, EncodedLength, Lower, LowerByte, IsUnreserved;
    FirstByte(value, lowercase);
    next := at;
    ghost var before := out[..at];
    assert before + [] == before;
    for i := 0 to |value|
      invariant next == at + EncodedLength(value[..i]) <= out.Length
      invariant out[..next] == before + Encoded(source[..i])
    {
      NextByte(value, lowercase, i);
      assert before + Encoded(source[..i + 1]) == before + Encoded(source[..i]) + EncodedByte(source[i]);
      var b := if lowercase then LowerByte(value[i]) else value[i];
      next := EncodeByte(out, next, b);
    }
  }

  lemma FirstByte(value: Bytes, lowercase: bool)
    ensures var source := if lowercase then Lower(value) else value;
            && Encoded(source[..0]) == [] && EncodedLength(value[..0]) == 0
            && source[..|value|] == source && value[..|value|] == value
  {
  }

  lemma NextByte(value: Bytes, lowercase: bool, i: nat)
    requires i < |value|
    ensures var source := if lowercase then Lower(value) else value;
            var b := if lowercase then LowerByte(value[i]) else value[i];
            && b == source[i] && Encoded(source[..i + 1]) == Encoded(source[..i]) + EncodedByte(b)
            && EncodedLength(value[..i + 1]) == EncodedLength(value[..i]) + |EncodedByte(b)| <= EncodedLength(value)
  {
    var source := if lowercase then Lower(value) else value;
    LengthGrows(value, i + 1);
    assert value[..i + 1][..i] == value[..i] && source[..i + 1][..i] == source[..i];
  }

  lemma {:induction false} LengthGrows(value: Bytes, i: nat)
    requires i <= |value|
    ensures EncodedLength(value[..i]) <= EncodedLength(value)
    decreases |value| - i
  {
    if i < |value| {
      assert value[..i + 1][..i] == value[..i];
      LengthGrows(value, i + 1);
    } else {
      assert value[..i] == value;
    }
  }

  method Write(out: array<byte>, at: nat, text: Bytes) returns (next: nat)
    requires at + |text| <= out.Length
    modifies out
    ensures next == at + |text| && out[..next] == old(out[..at]) + text
  {
    for i := 0 to |text|
      invariant out[..at + i] == old(out[..at]) + text[..i]
    {
      out[at + i] := text[i];
      assert text[..i + 1] == text[..i] + [text[i]];
    }
    assert text[..|text|] == text;
    next := at + |text|;
  }

  method ValidateIdentity(id: Identity) returns (ok: bool)
    ensures ok == ValidIdentity(id)
  {
    if |id.server| == 0 || |id.server| > SERVER_MAX || id.port == 0 || id.port > 65535 { return false; }
    if |id.username| == 0 || |id.username| > USERNAME_MAX { return false; }
    for i := 0 to |id.server|
      invariant forall k :: 0 <= k < i ==> id.server[k] > 0x20 && id.server[k] != 0x7F
    {
      if id.server[i] <= 0x20 || id.server[i] == 0x7F { return false; }
    }
    for i := 0 to |id.username|
      invariant forall k :: 0 <= k < i ==> id.username[k] >= 0x20 && id.username[k] != 0x7F
    {
      if id.username[i] < 0x20 || id.username[i] == 0x7F { return false; }
    }
    ok := id.username[0] != 0x20 && id.username[|id.username| - 1] != 0x20;
  }

  /** Builds the target in a buffer, terminated by a zero byte. The length is reported even if the buffer is too small;
      a failure leaves the empty string. */
  method BuildTarget(id: Identity, target: array<byte>) returns (result: Result, length: nat)
    modifies target
    ensures result == if target.Length == 0 || !ValidIdentity(id) then InvalidArgument
                      else if |Target(id)| >= target.Length then BufferTooSmall
                      else Ok
    ensures length == if result == InvalidArgument then 0 else |Target(id)|
    ensures result == Ok ==> target[..length] == Target(id) && target[length] == 0
    ensures result != Ok && target.Length > 0 ==> target[0] == 0
  {
    if target.Length == 0 { return InvalidArgument, 0; }
    target[0] := 0;
    var valid := ValidateIdentity(id);
    if !valid { return InvalidArgument, 0; }
    hide Encoded, EncodedLength, Decimal, Lower, ValidIdentity;
    RequiredIsLength(id);
    var port := Decimal(id.port);
    var serverLength := MeasureEncoded(id.server);
    var usernameLength := MeasureEncoded(id.username);
    length := |PREFIX| + serverLength + |PORT_SEPARATOR| + |port| + |USER_SEPARATOR| + usernameLength;
    if length >= target.Length { return BufferTooSmall, length; }
    var cursor := Write(target, 0, PREFIX);
    cursor := EncodeComponent(target, cursor, id.server, true);
    cursor := Write(target, cursor, PORT_SEPARATOR);
    cursor := Write(target, cursor, port);
    cursor := Write(target, cursor, USER_SEPARATOR);
    cursor := EncodeComponent(target, cursor, id.username, false);
    JoinTarget(id);
    assert target[..cursor] == Target(id) && cursor == length;
    target[cursor] := 0;
    assert target[..length] == Target(id);
    result := Ok;
  }

  lemma JoinTarget(id: Identity)
    ensures [] + PREFIX + Encoded(Lower(id.server)) + PORT_SEPARATOR + Decimal(id.port) + USER_SEPARATOR + Encoded(id.username)
         == Target(id)
  {
    hide Encoded, Lower, Decimal;
    Regroup(PREFIX, Encoded(Lower(id.server)), PORT_SEPARATOR, Decimal(id.port), USER_SEPARATOR, Encoded(id.username));
  }

  lemma Regroup(a: Bytes, b: Bytes, c: Bytes, d: Bytes, e: Bytes, f: Bytes)
    ensures [] + a + b + c + d + e + f == a + (b + (c + (d + (e + f))))
  {
    assert d + e + f == d + (e + f);
    assert b + c + (d + e + f) == b + (c + (d + (e + f)));
    assert [] + a + b + c + d + e + f == a + (b + c + (d + e + f));
  }
}
