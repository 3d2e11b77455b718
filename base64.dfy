/**
 * The data-URL fallback of the upload route (src/worker/index.ts:345-348):
 * the file's bytes become a "binary string" of one char per byte, `btoa`
 * turns that into base64 with the alphabet and padding of section 4 of
 * RFC 4648, and the result is wrapped in a `data:` URL.
 */
module Base64 {
  import opened Wrappers

  newtype byte = x: int | 0 <= x < 256

  /** A 6-bit value, one base64 digit. */
  type sextet = x: int | 0 <= x < 64

  /** The base64 alphabet (Table 1 of RFC 4648). */
  function EncodeSextet(v: sextet): (c: char)
    ensures c != '='
  {
    if v < 26 then (('A' as int) + v) as char
    else if v < 52 then (('a' as int) + (v - 26)) as char
    else if v < 62 then (('0' as int) + (v - 52)) as char
    else if v == 62 then '+'
    else '/'
  }

  /** The inverse of the alphabet: None for a char outside it. */
  function DecodeChar(c: char): (r: Option<sextet>)
    ensures r.Some? ==> EncodeSextet(r.value) == c
  {
    if 'A' <= c <= 'Z' then Some((c as int) - ('A' as int))
    else if 'a' <= c <= 'z' then Some((c as int) - ('a' as int) + 26)
    else if '0' <= c <= '9' then Some((c as int) - ('0' as int) + 52)
    else if c == '+' then Some(62)
    else if c == '/' then Some(63)
    else None
  }

  lemma DecodeEncodeSextet(v: sextet)
    ensures DecodeChar(EncodeSextet(v)) == Some(v)
  {
  }

  /** Three bytes as four digits: the 24 bits split into four 6-bit groups, high bits first. */
  function EncodeGroup(a: byte, b: byte, c: byte): (r: string)
    ensures |r| == 4 && forall i :: 0 <= i < 4 ==> r[i] != '='
  {
    var x, y, z := a as int, b as int, c as int;
    [EncodeSextet(x / 4), EncodeSextet((x % 4) * 16 + y / 16), EncodeSextet((y % 16) * 4 + z / 64), EncodeSextet(z % 64)]
  }

  /**
   * `btoa` on the bytes: every whole group of three bytes gives four
   * digits, and a final group of one or two bytes gives two or three
   * digits padded with "=" to four.
   */
  function Encode(d: seq<byte>): (r: string)
    ensures |r| == 4 * ((|d| + 2) / 3)
    decreases |d|
  {
    if |d| == 0 then ""
    else if |d| == 1 then
      var x := d[0] as int;
      [EncodeSextet(x / 4), EncodeSextet((x % 4) * 16), '=', '=']
    else if |d| == 2 then
      var x, y := d[0] as int, d[1] as int;
      [EncodeSextet(x / 4), EncodeSextet((x % 4) * 16 + y / 16), EncodeSextet((y % 16) * 4), '=']
    else EncodeGroup(d[0], d[1], d[2]) + Encode(d[3..])
  }

  /** The bytes of a group, each from the two digits that carry its bits. */
  function Byte0(p: sextet, q: sextet): byte { ((p as int) * 4 + (q as int) / 16) as byte }
  function Byte1(q: sextet, u: sextet): byte { (((q as int) % 16) * 16 + (u as int) / 4) as byte }
  function Byte2(u: sextet, w: sextet): byte { (((u as int) % 4) * 64 + (w as int)) as byte }

  /** Four digits back to three bytes. */
  function DecodeGroup(s: string): (r: Option<seq<byte>>)
    requires |s| == 4
    ensures r.Some? ==> |r.value| == 3
  {
    match (DecodeChar(s[0]), DecodeChar(s[1]), DecodeChar(s[2]), DecodeChar(s[3]))
    case (Some(p), Some(q), Some(u), Some(w)) =>
      Some([Byte0(p, q), Byte1(q, u), Byte2(u, w)])
    case _ => None
  }

  /** Base64 text back to bytes; None for text `Encode` cannot produce. */
  function Decode(s: string): (r: Option<seq<byte>>)
    decreases |s|
  {
    if |s| == 0 then Some([])
    else if |s| < 4 then None
    else if |s| == 4 && s[2] == '=' && s[3] == '=' then
      match (DecodeChar(s[0]), DecodeChar(s[1]))
      case (Some(p), Some(q)) => if q % 16 == 0 then Some([Byte0(p, q)]) else None
      case _ => None
    else if |s| == 4 && s[3] == '=' then
      match (DecodeChar(s[0]), DecodeChar(s[1]), DecodeChar(s[2]))
      case (Some(p), Some(q), Some(u)) =>
        if u % 4 == 0 then Some([Byte0(p, q), Byte1(q, u)]) else None
      case _ => None
    else
      match DecodeGroup(s[..4])
      case None => None
      case Some(g) =>
        match Decode(s[4..])
        case None => None
        case Some(rest) => Some(g + rest)
  }

  /** The first byte is the first digit's six bits and the top two bits of the second. */
  lemma Byte0Inverse(x: int, y: int)
    requires 0 <= x < 256 && 0 <= y < 256
    ensures Byte0(x / 4, (x % 4) * 16 + y / 16) as int == x
  {
    assert ((x % 4) * 16 + y / 16) / 16 == x % 4;
  }

  /** The second byte is the low four bits of the second digit and the top four of the third. */
  lemma Byte1Inverse(x: int, y: int, z: int)
    requires 0 <= x < 256 && 0 <= y < 256 && 0 <= z < 256
    ensures Byte1((x % 4) * 16 + y / 16, (y % 16) * 4 + z / 64) as int == y
  {
    assert ((x % 4) * 16 + y / 16) % 16 == y / 16;
    assert ((y % 16) * 4 + z / 64) / 4 == y % 16;
  }

  /** The third byte is the low two bits of the third digit and the six of the fourth. */
  lemma Byte2Inverse(y: int, z: int)
    requires 0 <= y < 256 && 0 <= z < 256
    ensures Byte2((y % 16) * 4 + z / 64, z % 64) as int == z
  {
    assert ((y % 16) * 4 + z / 64) % 4 == z / 64;
  }

  lemma DecodeEncodeGroup(a: byte, b: byte, c: byte)
    ensures DecodeGroup(EncodeGroup(a, b, c)) == Some([a, b, c])
  {
    var x, y, z := a as int, b as int, c as int;
    var p, q, u, w := x / 4, (x % 4) * 16 + y / 16, (y % 16) * 4 + z / 64, z % 64;
    DecodeEncodeSextet(p);
    DecodeEncodeSextet(q);
    DecodeEncodeSextet(u);
    DecodeEncodeSextet(w);
    Byte0Inverse(x, y);
    Byte1Inverse(x, y, z);
    Byte2Inverse(y, z);
    var g := EncodeGroup(a, b, c);
    assert g == [EncodeSextet(p), EncodeSextet(q), EncodeSextet(u), EncodeSextet(w)];
    assert DecodeGroup(g) == Some([Byte0(p, q), Byte1(q, u), Byte2(u, w)]);
  }

  lemma DecodeEncodeOne(d: seq<byte>)
    requires |d| == 1
    ensures Decode(Encode(d)) == Some(d)
  {
    var x := d[0] as int;
    var p, q := x / 4, (x % 4) * 16;
    DecodeEncodeSextet(p);
    DecodeEncodeSextet(q);
    assert q % 16 == 0 && q / 16 == x % 4;
    assert Byte0(p, q) == d[0];
    var s := Encode(d);
    assert s == [EncodeSextet(p), EncodeSextet(q), '=', '='];
    assert DecodeChar(s[0]) == Some(p) && DecodeChar(s[1]) == Some(q);
    assert Decode(s) == Some([Byte0(p, q)]);
    assert [Byte0(p, q)] == d;
  }

  lemma DecodeEncodeTwo(d: seq<byte>)
    requires |d| == 2
    ensures Decode(Encode(d)) == Some(d)
  {
    var x, y := d[0] as int, d[1] as int;
    var p, q, u := x / 4, (x % 4) * 16 + y / 16, (y % 16) * 4;
    DecodeEncodeSextet(p);
    DecodeEncodeSextet(q);
    DecodeEncodeSextet(u);
    Byte0Inverse(x, y);
    Byte1Inverse(x, y, 0);
    assert u % 4 == 0;
    var s := Encode(d);
    assert s == [EncodeSextet(p), EncodeSextet(q), EncodeSextet(u), '='];
    assert s[2] != '=' && s[3] == '=';
    assert DecodeChar(s[0]) == Some(p) && DecodeChar(s[1]) == Some(q) && DecodeChar(s[2]) == Some(u);
    assert Decode(s) == Some([Byte0(p, q), Byte1(q, u)]);
    assert [Byte0(p, q), Byte1(q, u)] == d;
  }

  /** A full group of digits decodes on its own, and the rest after it. */
  lemma DecodeGroupThen(g: string, t: string)
    requires |g| == 4 && g[3] != '='
    ensures Decode(g + t) == match DecodeGroup(g)
      case None => None
      case Some(b) => match Decode(t) case None => None case Some(rest) => Some(b + rest)
  {
    var s := g + t;
    assert s[..4] == g && s[4..] == t;
  }

  lemma DecodeEncodeShort(d: seq<byte>)
    requires |d| < 3
    ensures Decode(Encode(d)) == Some(d)
  {
    if |d| == 1 {
      DecodeEncodeOne(d);
    } else if |d| == 2 {
      DecodeEncodeTwo(d);
    }
  }

  /** A group of three bytes in front of any decodable text decodes in front of its bytes. */
  lemma DecodeCons(a: byte, b: byte, c: byte, t: string, rest: seq<byte>)
    requires Decode(t) == Some(rest)
    ensures Decode(EncodeGroup(a, b, c) + t) == Some([a, b, c] + rest)
  {
    var g := EncodeGroup(a, b, c);
    DecodeEncodeGroup(a, b, c);
    DecodeGroupThen(g, t);
  }

  /** `btoa` loses nothing: decoding its output gives the bytes back. */
  lemma {:induction false} DecodeEncode(d: seq<byte>)
    ensures Decode(Encode(d)) == Some(d)
    decreases |d|
  {
    if |d| < 3 {
      DecodeEncodeShort(d);
    } else {
      DecodeEncode(d[3..]);
      DecodeCons(d[0], d[1], d[2], Encode(d[3..]), d[3..]);
      assert d == [d[0], d[1], d[2]] + d[3..];
    }
  }

  /** The test vectors of section 10 of RFC 4648 for "f", "fo", "foo" and "foob". */
  lemma EncodeKnownAnswers()
    ensures Encode([102]) == "Zg=="
    ensures Encode([102, 111]) == "Zm8="
    ensures Encode([102, 111, 111]) == "Zm9v"
    ensures Encode([102, 111, 111, 98]) == "Zm9vYg=="
  {
  }

  /** Every char of a binary string is one byte, as the loop of index.ts:346 builds it. */
  predicate IsBinary(s: string) {
    forall i :: 0 <= i < |s| ==> (s[i] as int) < 256
  }

  function CharsToBytes(s: string): (d: seq<byte>)
    requires IsBinary(s)
    ensures |d| == |s| && forall i :: 0 <= i < |s| ==> d[i] as int == s[i] as int
  {
    seq(|s|, i requires 0 <= i < |s| => s[i] as int as byte)
  }

  /**
   * `globalThis.btoa`: it refuses (None, an InvalidCharacterError) a
   * string holding a char above 255, and otherwise base64-encodes the
   * bytes the chars stand for.
   */
  function Btoa(s: string): (r: Option<string>)
    ensures r.Some? <==> IsBinary(s)
    ensures r.Some? ==> Decode(r.value) == Some(CharsToBytes(s))
  {
    if IsBinary(s) then
      DecodeEncode(CharsToBytes(s));
      Some(Encode(CharsToBytes(s)))
    else None
  }

  /** The loop of index.ts:345-346: one char per byte, in order. */
  method BinaryString(data: seq<byte>) returns (binary: string)
    ensures IsBinary(binary)
    ensures CharsToBytes(binary) == data
  {
    binary := "";
    var i := 0;
    while i < |data|
      invariant 0 <= i <= |data|
      invariant |binary| == i
      invariant forall k :: 0 <= k < i ==> binary[k] as int == data[k] as int
    {
      binary := binary + [(data[i] as int) as char];
      i := i + 1;
    }
  }

  /** The data URL of RFC 2397 that the fallback stores: the media type, `;base64,` and the encoding (index.ts:348). */
  function DataUrl(fileType: string, d: seq<byte>): string {
    "data:" + fileType + ";base64," + Encode(d)
  }

  /** Position of the first `c` in `s`, or None. */
  function IndexOf(s: string, c: char): (r: Option<nat>)
    ensures r.None? <==> c !in s
    ensures r.Some? ==> r.value < |s| && s[r.value] == c && c !in s[..r.value]
    decreases |s|
  {
    if s == [] then None
    else if s[0] == c then Some(0)
    else match IndexOf(s[1..], c)
      case None => None
      case Some(k) =>
        assert s[..k + 1] == [s[0]] + s[1..][..k];
        Some(k + 1)
  }

  lemma {:induction false} IndexOfFirst(s: string, c: char, k: nat)
    requires k < |s| && s[k] == c && c !in s[..k]
    ensures IndexOf(s, c) == Some(k)
    decreases k
  {
    if k > 0 {
      assert s[0] in s[..k];
      assert s[1..][..k - 1] == s[1..k];
      assert forall x :: x in s[1..k] ==> x in s[..k];
      IndexOfFirst(s[1..], c, k - 1);
    }
  }

  /** Reading a data URL back: its media type and the bytes it carries. */
  function ParseDataUrl(url: string): (r: Option<(string, seq<byte>)>)
  {
    if |url| < 5 || url[..5] != "data:" then None
    else
      var rest := url[5..];
      match IndexOf(rest, ',')
      case None => None
      case Some(k) =>
        var head := rest[..k];
        if |head| < 7 || head[|head| - 7..] != ";base64" then None
        else match Decode(rest[k + 1..])
          case None => None
          case Some(d) => Some((head[..|head| - 7], d))
  }

  /** A data URL keeps the file type and the bytes, for any type without a comma. */
  lemma ParseDataUrlRoundTrip(fileType: string, d: seq<byte>)
    requires ',' !in fileType
    ensures ParseDataUrl(DataUrl(fileType, d)) == Some((fileType, d))
  {
    var url := DataUrl(fileType, d);
    var rest := url[5..];
    assert url[..5] == "data:";
    assert rest == fileType + ";base64," + Encode(d);
    var k := |fileType| + 7;
    assert rest[k] == ',';
    assert ',' !in rest[..k] by {
      assert rest[..k] == fileType + ";base64";
    }
    IndexOfFirst(rest, ',', k);
    assert rest[..k] == fileType + ";base64";
    assert rest[k + 1..] == Encode(d);
    DecodeEncode(d);
  }
}
