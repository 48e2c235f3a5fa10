/** base64.b64decode, specified by section 4 of RFC 4648 (the "base64"
    alphabet with '=' padding). The text decoded is unicode, which Python 2
    first encodes as ASCII: any character beyond ASCII is an error. Like
    Python's decoder, ASCII characters outside the alphabet (line breaks,
    spaces) are then discarded before decoding. */
module Base64 {
  import opened Wrappers
  import opened Bytes

  predicate IsAlphabet(c: char) {
    ('A' <= c <= 'Z') || ('a' <= c <= 'z') || ('0' <= c <= '9') || c == '+' || c == '/'
  }

  /** The 6-bit value a character of the alphabet stands for (table 1 of RFC 4648). */
  function ValueOf(c: char): (v: int)
    requires IsAlphabet(c)
    ensures 0 <= v < 64
  {
    if 'A' <= c <= 'Z' then c as int - 'A' as int
    else if 'a' <= c <= 'z' then c as int - 'a' as int + 26
    else if '0' <= c <= '9' then c as int - '0' as int + 52
    else if c == '+' then 62
    else 63
  }

  /** The character of the alphabet for a 6-bit value. */
  function CharOf(v: int): (c: char)
    requires 0 <= v < 64
    ensures IsAlphabet(c) && ValueOf(c) == v
  {
    if v < 26 then ('A' as int + v) as char
    else if v < 52 then ('a' as int + v - 26) as char
    else if v < 62 then ('0' as int + v - 52) as char
    else if v == 62 then '+'
    else '/'
  }

  predicate AllAlphabet(s: string) {
    forall i :: 0 <= i < |s| ==> IsAlphabet(s[i])
  }

  /** The characters the decoder looks at: the alphabet and the pad. */
  function Significant(s: string): (r: string)
    ensures forall i :: 0 <= i < |r| ==> IsAlphabet(r[i]) || r[i] == '='
  {
    if s == [] then []
    else (if IsAlphabet(s[0]) || s[0] == '=' then [s[0]] else []) + Significant(s[1..])
  }

  /** Three bytes from four 6-bit values; with padding only the first one or two are kept. */
  function Quad(a: int, b: int, c: int, d: int): (r: seq<Byte>)
    requires 0 <= a < 64 && 0 <= b < 64 && 0 <= c < 64 && 0 <= d < 64
    ensures |r| == 3
  {
    [a * 4 + b / 16, (b % 16) * 16 + c / 4, (c % 4) * 64 + d]
  }

  /** The bytes of the last group of four characters, which may end in one or two pads. */
  function DecodeLast(q: string): (r: Option<seq<Byte>>)
    requires |q| == 4
  {
    if AllAlphabet(q) then
      Some(Quad(ValueOf(q[0]), ValueOf(q[1]), ValueOf(q[2]), ValueOf(q[3])))
    else if IsAlphabet(q[0]) && IsAlphabet(q[1]) && IsAlphabet(q[2]) && q[3] == '=' then
      Some(Quad(ValueOf(q[0]), ValueOf(q[1]), ValueOf(q[2]), 0)[..2])
    else if IsAlphabet(q[0]) && IsAlphabet(q[1]) && q[2] == '=' && q[3] == '=' then
      Some(Quad(ValueOf(q[0]), ValueOf(q[1]), 0, 0)[..1])
    else None
  }

  /** Strict decoding: groups of four characters, pads only in the last group. */
  function DecodeGroups(s: string): (r: Option<seq<Byte>>)
    decreases |s|
  {
    if |s| == 0 then Some([])
    else if |s| < 4 then None
    else if |s| == 4 then DecodeLast(s)
    else if AllAlphabet(s[..4]) then
      match DecodeGroups(s[4..])
      case None => None
      case Some(rest) => Some(Quad(ValueOf(s[0]), ValueOf(s[1]), ValueOf(s[2]), ValueOf(s[3])) + rest)
    else None
  }

  predicate IsAscii(s: string) {
    forall i :: 0 <= i < |s| ==> s[i] < 128 as char
  }

  /** base64.b64decode(text); None is the UnicodeEncodeError for a character
      beyond ASCII, or the TypeError for an incorrectly padded text. */
  function Decode(text: string): (r: Option<seq<Byte>>)
    ensures r.Some? ==> IsAscii(text)
  {
    if IsAscii(text) then DecodeGroups(Significant(text)) else None
  }

  /** The four characters for the three bytes x, y, z. */
  function EncodeTriple(x: Byte, y: Byte, z: Byte): (s: string)
    ensures |s| == 4 && AllAlphabet(s)
  {
    [CharOf(x / 4), CharOf((x % 4) * 16 + y / 16), CharOf((y % 16) * 4 + z / 64), CharOf(z % 64)]
  }

  /** base64.b64encode: the partner of Decode. */
  function Encode(b: seq<Byte>): (s: string)
    ensures |s| % 4 == 0
    ensures forall i :: 0 <= i < |s| ==> IsAlphabet(s[i]) || s[i] == '='
    decreases |b|
  {
    if |b| == 0 then ""
    else if |b| == 1 then [CharOf(b[0] / 4), CharOf((b[0] % 4) * 16), '=', '=']
    else if |b| == 2 then [CharOf(b[0] / 4), CharOf((b[0] % 4) * 16 + b[1] / 16), CharOf((b[1] % 16) * 4), '=']
    else EncodeTriple(b[0], b[1], b[2]) + Encode(b[3..])
  }

  lemma QuadOfTriple(x: Byte, y: Byte, z: Byte)
    ensures Quad(x / 4, (x % 4) * 16 + y / 16, (y % 16) * 4 + z / 64, z % 64) == [x, y, z]
  {
    assert ((x % 4) * 16 + y / 16) / 16 == x % 4;
    assert ((x % 4) * 16 + y / 16) % 16 == y / 16;
    assert ((y % 16) * 4 + z / 64) / 4 == y % 16;
    assert ((y % 16) * 4 + z / 64) % 4 == z / 64;
  }

  lemma {:induction false} SignificantKeeps(s: string)
    requires forall i :: 0 <= i < |s| ==> IsAlphabet(s[i]) || s[i] == '='
    ensures Significant(s) == s
  {
    if s != [] {
      SignificantKeeps(s[1..]);
    }
  }

  lemma TripleValues(x: Byte, y: Byte, z: Byte)
    ensures var t := EncodeTriple(x, y, z);
      Quad(ValueOf(t[0]), ValueOf(t[1]), ValueOf(t[2]), ValueOf(t[3])) == [x, y, z]
  {
    var a, b, c, d := x / 4, (x % 4) * 16 + y / 16, (y % 16) * 4 + z / 64, z % 64;
    var t := EncodeTriple(x, y, z);
    assert t == [CharOf(a), CharOf(b), CharOf(c), CharOf(d)];
    assert ValueOf(t[0]) == a && ValueOf(t[1]) == b && ValueOf(t[2]) == c && ValueOf(t[3]) == d;
    QuadOfTriple(x, y, z);
  }

  lemma LastOne(x: Byte)
    ensures DecodeLast(Encode([x])) == Some([x])
  {
    QuadOfTriple(x, 0, 0);
    var q := Encode([x]);
    assert !IsAlphabet(q[3]) && !IsAlphabet(q[2]);
    assert Quad(ValueOf(q[0]), ValueOf(q[1]), 0, 0)[..1] == [x];
  }

  lemma LastTwo(x: Byte, y: Byte)
    ensures DecodeLast(Encode([x, y])) == Some([x, y])
  {
    QuadOfTriple(x, y, 0);
    var q := Encode([x, y]);
    assert !IsAlphabet(q[3]);
    assert Quad(ValueOf(q[0]), ValueOf(q[1]), ValueOf(q[2]), 0)[..2] == [x, y];
  }

  lemma {:induction false} DecodeGroupsEncode(b: seq<Byte>)
    ensures DecodeGroups(Encode(b)) == Some(b)
    decreases |b|
  {
    if |b| == 1 {
      assert b == [b[0]];
      LastOne(b[0]);
    } else if |b| == 2 {
      assert b == [b[0], b[1]];
      LastTwo(b[0], b[1]);
    } else if |b| >= 3 {
      var s := Encode(b);
      var t := EncodeTriple(b[0], b[1], b[2]);
      assert s == t + Encode(b[3..]);
      assert s[..4] == t && s[4..] == Encode(b[3..]);
      TripleValues(b[0], b[1], b[2]);
      assert b == [b[0], b[1], b[2]] + b[3..];
      if |b| == 3 {
        assert b[3..] == [];
        assert s == t;
        assert DecodeLast(t) == Some(Quad(ValueOf(t[0]), ValueOf(t[1]), ValueOf(t[2]), ValueOf(t[3])));
        assert |s| == 4;
        assert DecodeGroups(s) == DecodeLast(s);
        assert [b[0], b[1], b[2]] == b;
      } else {
        DecodeGroupsEncode(b[3..]);
      }
    }
  }

  /** On ASCII text, only the alphabet and the pads matter: dropping the
      other characters first does not change the result. */
  lemma DecodeDiscards(text: string)
    requires IsAscii(text)
    ensures Decode(Significant(text)) == Decode(text)
  {
    SignificantKeeps(Significant(text));
    assert IsAscii(Significant(text));
  }

  /** Decoding undoes encoding, for every byte string. */
  lemma DecodeEncode(b: seq<Byte>)
    ensures Decode(Encode(b)) == Some(b)
  {
    SignificantKeeps(Encode(b));
    DecodeGroupsEncode(b);
    assert IsAscii(Encode(b));
  }
}
