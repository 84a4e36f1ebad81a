/**
 * `encodeURIComponent`, which the search builds its `q=` parameter with, and
 * `decodeURIComponent` as its reference inverse. Characters are Unicode scalar
 * values; each one outside the unreserved set is written as the `%XY` escapes
 * of its UTF-8 bytes.
 */
module UriCodec {
  import opened Wrappers

  /** The characters `encodeURIComponent` leaves as they are. */
  predicate IsUnreserved(c: char) {
    ('A' <= c <= 'Z') || ('a' <= c <= 'z') || ('0' <= c <= '9')
    || c == '-' || c == '_' || c == '.' || c == '!' || c == '~' || c == '*'
    || c == '\'' || c == '(' || c == ')'
  }

  /** Upper-case hexadecimal digit, as `encodeURIComponent` writes them. */
  function HexDigit(d: int): (c: char)
    requires 0 <= d < 16
    ensures IsUnreserved(c)
  {
    if d < 10 then ('0' as int + d) as char else ('A' as int + d - 10) as char
  }

  /** Value of a hexadecimal digit of either case, as `decodeURIComponent` reads them. */
  function HexValue(c: char): (v: Option<int>)
    ensures v.Some? ==> 0 <= v.value < 16
  {
    if '0' <= c <= '9' then Some(c as int - '0' as int)
    else if 'A' <= c <= 'F' then Some(c as int - 'A' as int + 10)
    else if 'a' <= c <= 'f' then Some(c as int - 'a' as int + 10)
    else None
  }

  lemma HexRoundTrip(d: int)
    requires 0 <= d < 16
    ensures HexValue(HexDigit(d)) == Some(d)
  {
  }

  predicate IsByte(b: int) {
    0 <= b < 256
  }

  /** The UTF-8 encoding of a Unicode scalar value: one to four bytes. */
  function Utf8(c: char): (bytes: seq<int>)
    ensures 1 <= |bytes| <= 4
    ensures forall k :: 0 <= k < |bytes| ==> IsByte(bytes[k])
  {
    var cp := c as int;
    if cp < 0x80 then [cp]
    else if cp < 0x800 then [0xC0 + cp / 64, 0x80 + cp % 64]
    else if cp < 0x10000 then [0xE0 + cp / 4096, 0x80 + cp / 64 % 64, 0x80 + cp % 64]
    else [0xF0 + cp / 262144, 0x80 + cp / 4096 % 64, 0x80 + cp / 64 % 64, 0x80 + cp % 64]
  }

  /** Each byte as `%` followed by two upper-case hexadecimal digits. */
  function Escape(bytes: seq<int>): (s: string)
    requires forall k :: 0 <= k < |bytes| ==> IsByte(bytes[k])
    ensures |s| == 3 * |bytes|
    ensures forall i :: 0 <= i < |s| ==> IsUnreserved(s[i]) || s[i] == '%'
  {
    if bytes == [] then ""
    else
      assert IsByte(bytes[0]);
      ['%', HexDigit(bytes[0] / 16), HexDigit(bytes[0] % 16)] + Escape(bytes[1..])
  }

  function EncodeChar(c: char): (s: string)
    ensures forall i :: 0 <= i < |s| ==> IsUnreserved(s[i]) || s[i] == '%'
  {
    if IsUnreserved(c) then [c] else Escape(Utf8(c))
  }

  /**
   * `encodeURIComponent(s)`. Its result holds no `&`, `=`, `#` or `+`: only
   * unreserved characters and the `%` of an escape.
   */
  function Encode(s: string): (r: string)
    ensures forall i :: 0 <= i < |r| ==> IsUnreserved(r[i]) || r[i] == '%'
  {
    if s == [] then "" else EncodeChar(s[0]) + Encode(s[1..])
  }

  /** The byte written as `%XY` at index `i` of `s`, if one is written there. */
  function ByteAt(s: string, i: nat): (b: Option<int>)
    ensures b.Some? ==> IsByte(b.value)
  {
    if i + 3 <= |s| && s[i] == '%' then
      match (HexValue(s[i + 1]), HexValue(s[i + 2]))
      case (Some(h), Some(l)) => Some(16 * h + l)
      case _ => None
    else None
  }

  /** How many bytes the UTF-8 sequence led by `b0` has; 0 for a byte that cannot lead. */
  function SequenceLength(b0: int): nat {
    if b0 < 0x80 then 1
    else if 0xC0 <= b0 < 0xE0 then 2
    else if 0xE0 <= b0 < 0xF0 then 3
    else if 0xF0 <= b0 < 0xF8 then 4
    else 0
  }

  /** The payload bits of a lead byte of a sequence of `n` bytes. */
  function LeadBits(b0: int, n: nat): int {
    if n == 1 then b0 else if n == 2 then b0 - 0xC0 else if n == 3 then b0 - 0xE0 else b0 - 0xF0
  }

  /** The smallest code point a sequence of `n` bytes may encode (shorter forms are overlong). */
  function MinCodePoint(n: nat): int {
    if n <= 1 then 0 else if n == 2 then 0x80 else if n == 3 then 0x800 else 0x10000
  }

  /** The six payload bits of `k` continuation bytes escaped from index `i` on. */
  function Continuations(s: string, i: nat, k: nat): (r: Option<seq<int>>)
    ensures r.Some? ==> |r.value| == k
    decreases k
  {
    if k == 0 then Some([])
    else match ByteAt(s, i)
      case Some(b) =>
        if 0x80 <= b < 0xC0 then
          match Continuations(s, i + 3, k - 1)
          case Some(rest) => Some([b - 0x80] + rest)
          case None => None
        else None
      case None => None
  }

  /** Appends six-bit groups to the bits already in `acc`. */
  function Combine(acc: int, groups: seq<int>): int
    decreases |groups|
  {
    if groups == [] then acc else Combine(acc * 64 + groups[0], groups[1..])
  }

  predicate IsScalarValue(cp: int) {
    0 <= cp < 0xD800 || 0xE000 <= cp < 0x110000
  }

  /** Decodes the escape sequence that starts `s`: the character and how many characters it took. */
  function DecodeEscape(s: string): (r: Option<(char, nat)>)
    ensures r.Some? ==> 3 <= r.value.1 <= |s|
  {
    match ByteAt(s, 0)
    case None => None
    case Some(b0) =>
      var n := SequenceLength(b0);
      if n == 0 || |s| < 3 * n then None
      else match Continuations(s, 3, n - 1)
        case None => None
        case Some(groups) =>
          var cp := Combine(LeadBits(b0, n), groups);
          if MinCodePoint(n) <= cp && IsScalarValue(cp) then Some((cp as char, 3 * n)) else None
  }

  /** `decodeURIComponent(s)`; `None` where it would throw a URIError. */
  function Decode(s: string): Option<string>
    decreases |s|
  {
    if s == [] then Some("")
    else if s[0] != '%' then
      match Decode(s[1..])
      case Some(r) => Some([s[0]] + r)
      case None => None
    else
      match DecodeEscape(s)
      case None => None
      case Some((c, n)) =>
        match Decode(s[n..])
        case Some(r) => Some([c] + r)
        case None => None
  }

  lemma {:induction false} ByteAtEscape(bytes: seq<int>, k: nat, t: string)
    requires forall j :: 0 <= j < |bytes| ==> IsByte(bytes[j])
    requires k < |bytes|
    ensures ByteAt(Escape(bytes) + t, 3 * k) == Some(bytes[k])
  {
    var s := Escape(bytes) + t;
    if k == 0 {
      HexRoundTrip(bytes[0] / 16);
      HexRoundTrip(bytes[0] % 16);
      assert s[..3] == ['%', HexDigit(bytes[0] / 16), HexDigit(bytes[0] % 16)];
    } else {
      ByteAtEscape(bytes[1..], k - 1, t);
      assert Escape(bytes) + t == Escape(bytes[..1]) + (Escape(bytes[1..]) + t);
      var u := Escape(bytes[1..]) + t;
      assert s[3 * k] == u[3 * (k - 1)] && s[3 * k + 1] == u[3 * (k - 1) + 1] && s[3 * k + 2] == u[3 * (k - 1) + 2];
    }
  }

  /** The payload bits of the continuation bytes of a UTF-8 sequence. */
  function Groups(bytes: seq<int>): (g: seq<int>)
    requires |bytes| >= 1
    ensures |g| == |bytes| - 1
  {
    seq(|bytes| - 1, j requires 0 <= j < |bytes| - 1 => bytes[1 + j] - 0x80)
  }

  lemma {:induction false} ContinuationsEscape(bytes: seq<int>, k: nat, t: string)
    requires forall j :: 0 <= j < |bytes| ==> IsByte(bytes[j])
    requires 1 <= k <= |bytes|
    requires forall j :: k <= j < |bytes| ==> 0x80 <= bytes[j] < 0xC0
    ensures Continuations(Escape(bytes) + t, 3 * k, |bytes| - k) == Some(Groups(bytes)[k - 1..])
    decreases |bytes| - k
  {
    if k < |bytes| {
      ByteAtEscape(bytes, k, t);
      ContinuationsEscape(bytes, k + 1, t);
      assert Groups(bytes)[k - 1..] == [bytes[k] - 0x80] + Groups(bytes)[k..];
      assert 3 * (k + 1) == 3 * k + 3;
    }
  }

  /** The lead byte of `Utf8(c)` announces its length, and its bits with the groups give back `c`. */
  lemma Utf8Decodes(c: char)
    ensures var bytes := Utf8(c);
      && SequenceLength(bytes[0]) == |bytes|
      && (forall j :: 1 <= j < |bytes| ==> 0x80 <= bytes[j] < 0xC0)
      && MinCodePoint(|bytes|) <= c as int
      && Combine(LeadBits(bytes[0], |bytes|), Groups(bytes)) == c as int
  {
    var cp := c as int;
    var bytes := Utf8(c);
    var g := Groups(bytes);
    if cp < 0x80 {
      assert g == [];
    } else if cp < 0x800 {
      assert g == [cp % 64];
      assert Combine(cp / 64, g) == Combine(cp / 64 * 64 + cp % 64, []);
    } else if cp < 0x10000 {
      assert g == [cp / 64 % 64, cp % 64];
      Utf8Decodes3(cp);
    } else {
      assert g == [cp / 4096 % 64, cp / 64 % 64, cp % 64];
      Utf8Decodes4(cp);
    }
  }

  lemma Utf8Decodes3(cp: int)
    requires 0x800 <= cp < 0x10000
    ensures Combine(cp / 4096, [cp / 64 % 64, cp % 64]) == cp
  {
    var a := cp / 4096 * 64 + cp / 64 % 64;
    assert a == cp / 64;
    assert Combine(cp / 4096, [cp / 64 % 64, cp % 64]) == Combine(a, [cp % 64]);
    assert Combine(a, [cp % 64]) == Combine(a * 64 + cp % 64, []);
  }

  lemma Utf8Decodes4(cp: int)
    requires 0x10000 <= cp < 0x110000
    ensures Combine(cp / 262144, [cp / 4096 % 64, cp / 64 % 64, cp % 64]) == cp
  {
    var a := cp / 262144 * 64 + cp / 4096 % 64;
    assert a == cp / 4096;
    var b := a * 64 + cp / 64 % 64;
    assert b == cp / 64;
    assert Combine(cp / 262144, [cp / 4096 % 64, cp / 64 % 64, cp % 64]) == Combine(a, [cp / 64 % 64, cp % 64]);
    assert Combine(a, [cp / 64 % 64, cp % 64]) == Combine(b, [cp % 64]);
    assert Combine(b, [cp % 64]) == Combine(b * 64 + cp % 64, []);
  }

  /** The escapes of a character's UTF-8 bytes decode back to that character. */
  lemma DecodeEscapeOfUtf8(c: char, t: string)
    ensures DecodeEscape(Escape(Utf8(c)) + t) == Some((c, 3 * |Utf8(c)|))
  {
    var bytes := Utf8(c);
    var s := Escape(bytes) + t;
    var n := |bytes|;
    ByteAtEscape(bytes, 0, t);
    Utf8Decodes(c);
    if n > 1 {
      ContinuationsEscape(bytes, 1, t);
      assert Groups(bytes)[0..] == Groups(bytes);
    } else {
      assert Groups(bytes) == [];
    }
  }

  /** Decoding what a character encodes to, followed by anything, yields that character first. */
  lemma DecodeEncodeChar(c: char, t: string)
    ensures Decode(EncodeChar(c) + t) == (match Decode(t) case Some(r) => Some([c] + r) case None => None)
  {
    var s := EncodeChar(c) + t;
    if IsUnreserved(c) {
      assert s[1..] == t;
    } else {
      DecodeEscapeOfUtf8(c, t);
      assert s[3 * |Utf8(c)|..] == t;
    }
  }

  /** `decodeURIComponent(encodeURIComponent(s)) == s`: the `q=` value names the query exactly. */
  lemma {:induction false} DecodeEncode(s: string)
    ensures Decode(Encode(s)) == Some(s)
  {
    if s != [] {
      DecodeEncode(s[1..]);
      DecodeEncodeChar(s[0], Encode(s[1..]));
      assert [s[0]] + s[1..] == s;
    }
  }
}
