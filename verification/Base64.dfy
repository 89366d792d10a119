/**
 * The streaming base64 codec of bastion transfers: 76-column lines out, whitespace-tolerant
 * decoding in, both independent of where the byte stream is cut.
 */
module Base64 {
  import opened Arithmetic
  import opened Bytes

  const PAD: byte := 61

  // ---------------------------------------------------------------------------
  // Alphabet and quads (section 4 of RFC 4648)
  // ---------------------------------------------------------------------------

  function EncodeChar(v: int): (c: byte)
    requires 0 <= v < 64
  {
    if v < 26 then 65 + v
    else if v < 52 then 97 + (v - 26)
    else if v < 62 then 48 + (v - 52)
    else if v == 62 then 43
    else 47
  }

  predicate IsAlphabet(c: byte) {
    65 <= c <= 90 || 97 <= c <= 122 || 48 <= c <= 57 || c == 43 || c == 47
  }

  function CharValue(c: byte): (v: int)
    requires IsAlphabet(c)
    ensures 0 <= v < 64
  {
    if 65 <= c <= 90 then c - 65
    else if 97 <= c <= 122 then c - 97 + 26
    else if 48 <= c <= 57 then c - 48 + 52
    else if c == 43 then 62
    else 63
  }

  lemma CharRoundTrip(v: int)
    requires 0 <= v < 64
    ensures IsAlphabet(EncodeChar(v)) && CharValue(EncodeChar(v)) == v
  {
  }

  /** Table 1 of RFC 4648: three runs of consecutive characters, then `+` and `/`. */
  lemma AlphabetIsStandard(v: int)
    requires 0 <= v < 63
    ensures EncodeChar(0) == 'A' as int && EncodeChar(26) == 'a' as int && EncodeChar(52) == '0' as int
    ensures EncodeChar(62) == '+' as int && EncodeChar(63) == '/' as int
    ensures v != 25 && v != 51 && v < 61 ==> EncodeChar(v + 1) == EncodeChar(v) + 1
  {
  }

  datatype DecodeError = PaddingPosition | PaddingOrder | QuadPadding | InvalidChar | TooLong | LengthMismatch

  datatype Result<+T> = Ok(value: T) | Err(error: DecodeError)

  function PadCount(quad: seq<byte>): (n: nat)
    requires |quad| == 4
  {
    var one := (c: byte) => if c == PAD then 1 else 0;
    one(quad[0]) + one(quad[1]) + one(quad[2]) + one(quad[3])
  }

  /** `decode_quad`; shifts and ors on disjoint bit fields are written as `*`, `/` and `%`. */
  function DecodeQuad(quad: seq<byte>): (r: Result<seq<byte>>)
    requires |quad| == 4
  {
    var pad := PadCount(quad);
    if !IsAlphabet(quad[0]) || !IsAlphabet(quad[1]) then Err(InvalidChar)
    else
      var a, b := CharValue(quad[0]), CharValue(quad[1]);
      if pad == 0 then
        if !IsAlphabet(quad[2]) || !IsAlphabet(quad[3]) then Err(InvalidChar)
        else
          var c, d := CharValue(quad[2]), CharValue(quad[3]);
          Ok([a * 4 + b / 16, b % 16 * 16 + c / 4, c % 4 * 64 + d])
      else if pad == 1 then
        if quad[3] != PAD then Err(PaddingOrder)
        else if !IsAlphabet(quad[2]) then Err(InvalidChar)
        else
          var c := CharValue(quad[2]);
          Ok([a * 4 + b / 16, b % 16 * 16 + c / 4])
      else if pad == 2 then Ok([a * 4 + b / 16])
      else Err(QuadPadding)
  }

  /** Standard base64 with padding, three bytes to a quad. */
  function EncodeGroup(g: seq<byte>): (s: seq<byte>) {
    if |g| == 0 then []
    else if |g| == 1 then [EncodeChar(g[0] / 4), EncodeChar(g[0] % 4 * 16), PAD, PAD]
    else if |g| == 2 then [EncodeChar(g[0] / 4), EncodeChar(g[0] % 4 * 16 + g[1] / 16), EncodeChar(g[1] % 16 * 4), PAD]
    else EncodeTriple(g[0], g[1], g[2]) + EncodeGroup(g[3..])
  }

  function EncodeTriple(x: byte, y: byte, z: byte): (s: seq<byte>)
    ensures |s| == 4
  {
    [EncodeChar(x / 4), EncodeChar(x % 4 * 16 + y / 16), EncodeChar(y % 16 * 4 + z / 64), EncodeChar(z % 64)]
  }

  lemma Field16(hi: int, lo: int)
    requires 0 <= lo < 16
    ensures (hi * 16 + lo) / 16 == hi && (hi * 16 + lo) % 16 == lo
  {
  }

  lemma Field4(hi: int, lo: int)
    requires 0 <= lo < 4
    ensures (hi * 4 + lo) / 4 == hi && (hi * 4 + lo) % 4 == lo
  {
  }

  /** Six-bit values that a byte triple is cut into, put back together. */
  lemma SixBits(x: byte, y: byte, z: byte)
    ensures var b, c := x % 4 * 16 + y / 16, y % 16 * 4 + z / 64;
            && 0 <= x / 4 < 64 && 0 <= b < 64 && 0 <= c < 64 && 0 <= z % 64 < 64
            && x / 4 * 4 + b / 16 == x && b % 16 * 16 + c / 4 == y && c % 4 * 64 + z % 64 == z
  {
    Field16(x % 4, y / 16);
    Field4(y % 16, z / 64);
  }

  lemma DecodeValues(a: int, b: int, c: int, d: int)
    requires 0 <= a < 64 && 0 <= b < 64 && 0 <= c < 64 && 0 <= d < 64
    ensures DecodeQuad([EncodeChar(a), EncodeChar(b), EncodeChar(c), EncodeChar(d)])
            == Ok([a * 4 + b / 16, b % 16 * 16 + c / 4, c % 4 * 64 + d])
    ensures DecodeQuad([EncodeChar(a), EncodeChar(b), EncodeChar(c), PAD])
            == Ok([a * 4 + b / 16, b % 16 * 16 + c / 4])
    ensures DecodeQuad([EncodeChar(a), EncodeChar(b), PAD, PAD]) == Ok([a * 4 + b / 16])
  {
    hide EncodeChar, CharValue;
    CharRoundTrip(a);
    CharRoundTrip(b);
    CharRoundTrip(c);
    CharRoundTrip(d);
  }

  lemma QuadRoundTrip(x: byte, y: byte, z: byte)
    ensures DecodeQuad(EncodeTriple(x, y, z)) == Ok([x, y, z])
    ensures DecodeQuad(EncodeGroup([x])) == Ok([x])
    ensures DecodeQuad(EncodeGroup([x, y])) == Ok([x, y])
  {
    hide DecodeQuad, EncodeChar;
    SixBits(x, y, z);
    SixBits(x, y, 0);
    SixBits(x, 0, 0);
    DecodeValues(x / 4, x % 4 * 16 + y / 16, y % 16 * 4 + z / 64, z % 64);
    DecodeValues(x / 4, x % 4 * 16 + y / 16, y % 16 * 4, 0);
    DecodeValues(x / 4, x % 4 * 16, 0, 0);
  }

  /** Some of the vectors of section 10 of RFC 4648: `f`, `fo` and `foo` are `Zg==`, `Zm8=` and `Zm9v`. */
  lemma StandardVectors()
    ensures EncodeGroup([102]) == [90, 103, 61, 61]
    ensures EncodeGroup([102, 111]) == [90, 109, 56, 61]
    ensures EncodeGroup([102, 111, 111]) == [90, 109, 57, 118]
  {
    assert EncodeGroup([102, 111, 111][3..]) == [];
  }

  // ---------------------------------------------------------------------------
  // Decoder
  // ---------------------------------------------------------------------------

  datatype Dec = Dec(quad: seq<byte>, decoded: nat, stopped: bool)

  const FRESH: Dec := Dec([], 0, false)

  /** One wire byte; the decoded bytes it releases come with the new state. */
  function DecodeByte(expected: nat, st: Dec, b: byte): (r: Result<(Dec, seq<byte>)>)
    requires |st.quad| < 4
    ensures r.Ok? ==> |r.value.0.quad| < 4 && r.value.0.decoded == st.decoded + |r.value.1|
  {
    if st.stopped || b == CR || b == LF then Ok((st, []))
    else if IsAlphabet(b) then
      var quad := st.quad + [b];
      if |quad| < 4 then Ok((st.(quad := quad), []))
      else Emit(expected, st, DecodeQuad(quad), false)
    else if b == PAD then
      if |st.quad| < 2 then Err(PaddingPosition)
      else Emit(expected, st, DecodeQuad(Padded(st.quad)), true)
    else Ok((st.(stopped := true), []))
  }

  function Padded(quad: seq<byte>): (q: seq<byte>)
    requires |quad| <= 4
    ensures |q| == 4
  {
    quad + seq(4 - |quad|, _ => PAD)
  }

  function Emit(expected: nat, st: Dec, bytes: Result<seq<byte>>, stop: bool): (r: Result<(Dec, seq<byte>)>)
    ensures r.Ok? ==> |r.value.0.quad| < 4 && r.value.0.decoded == st.decoded + |r.value.1|
  {
    if bytes.Err? then Err(bytes.error)
    else if st.decoded + |bytes.value| > expected then Err(TooLong)
    else Ok((Dec([], st.decoded + |bytes.value|, stop), bytes.value))
  }

  /** Decode a whole wire text byte by byte. */
  function DecodeAll(expected: nat, st: Dec, s: seq<byte>): (r: Result<(Dec, seq<byte>)>)
    requires |st.quad| < 4
    ensures r.Ok? ==> |r.value.0.quad| < 4 && r.value.0.decoded == st.decoded + |r.value.1|
    decreases |s|
  {
    if s == [] then Ok((st, []))
    else
      var first := DecodeByte(expected, st, s[0]);
      if first.Err? then Err(first.error)
      else
        var rest := DecodeAll(expected, first.value.0, s[1..]);
        if rest.Err? then Err(rest.error)
        else Ok((rest.value.0, first.value.1 + rest.value.1))
  }

  /** Decoding is a fold: cutting the wire anywhere changes nothing. */
  lemma {:induction false} DecodeConcat(expected: nat, st: Dec, s: seq<byte>, t: seq<byte>)
    requires |st.quad| < 4
    ensures var head := DecodeAll(expected, st, s);
            DecodeAll(expected, st, s + t) ==
            if head.Err? then head
            else
              var rest := DecodeAll(expected, head.value.0, t);
              if rest.Err? then rest else Ok((rest.value.0, head.value.1 + rest.value.1))
    decreases |s|
  {
    hide DecodeByte;
    if s == [] {
      assert s + t == t;
      var rest := DecodeAll(expected, st, t);
      if rest.Ok? {
        assert [] + rest.value.1 == rest.value.1;
      }
    } else {
      assert (s + t)[1..] == s[1..] + t;
      var first := DecodeByte(expected, st, s[0]);
      if first.Ok? {
        DecodeConcat(expected, first.value.0, s[1..], t);
        var mid := DecodeAll(expected, first.value.0, s[1..]);
        if mid.Ok? {
          var rest := DecodeAll(expected, mid.value.0, t);
          if rest.Ok? {
            assert first.value.1 + (mid.value.1 + rest.value.1) == first.value.1 + mid.value.1 + rest.value.1;
          }
        }
      }
    }
  }

  lemma DecodeOne(expected: nat, st: Dec, b: byte)
    requires |st.quad| < 4
    ensures DecodeAll(expected, st, [b]) == DecodeByte(expected, st, b)
  {
    hide DecodeByte;
    var first := DecodeByte(expected, st, b);
    if first.Ok? {
      assert [b][1..] == [];
      assert first.value.1 + [] == first.value.1;
    }
  }

  /** Decoding four characters of the alphabet from an empty quad. */
  lemma DecodeFourChars(expected: nat, n: nat, q: seq<byte>)
    requires |q| == 4 && IsAlphabet(q[0]) && IsAlphabet(q[1]) && IsAlphabet(q[2]) && IsAlphabet(q[3])
    ensures DecodeAll(expected, Dec([], n, false), q) == Emit(expected, Dec([], n, false), DecodeQuad(q), false)
  {
    hide DecodeQuad;
    var st := Dec([], n, false);
    FirstChars(expected, n, q[..3]);
    assert q == q[..3] + [q[3]];
    DecodeConcat(expected, st, q[..3], [q[3]]);
    DecodeOne(expected, Dec(q[..3], n, false), q[3]);
    var last := DecodeByte(expected, Dec(q[..3], n, false), q[3]);
    if last.Ok? {
      assert [] + last.value.1 == last.value.1;
    }
  }

  /** Up to three characters are only stored. */
  lemma {:induction false} FirstChars(expected: nat, n: nat, q: seq<byte>)
    requires |q| <= 3 && forall i :: 0 <= i < |q| ==> IsAlphabet(q[i])
    ensures DecodeAll(expected, Dec([], n, false), q) == Ok((Dec(q, n, false), []))
  {
    if q != [] {
      var k := |q| - 1;
      FirstChars(expected, n, q[..k]);
      assert q == q[..k] + [q[k]];
      DecodeConcat(expected, Dec([], n, false), q[..k], [q[k]]);
      DecodeOne(expected, Dec(q[..k], n, false), q[k]);
    }
  }

  lemma DecodePadded(expected: nat, n: nat, q: seq<byte>)
    requires |q| == 4 && IsAlphabet(q[0]) && IsAlphabet(q[1])
    requires q[3] == PAD && (q[2] == PAD || IsAlphabet(q[2]))
    requires DecodeQuad(q).Ok? && n + |DecodeQuad(q).value| <= expected
    ensures DecodeAll(expected, Dec([], n, false), q)
            == Ok((Dec([], n + |DecodeQuad(q).value|, true), DecodeQuad(q).value))
  {
    hide DecodeQuad, DecodeAll, DecodeByte;
    var st := Dec([], n, false);
    var k := if q[2] == PAD then 2 else 3;
    var mid := Dec(q[..k], n, false);
    var bytes := DecodeQuad(q).value;
    FirstChars(expected, n, q[..k]);
    DecodeConcat(expected, st, q[..k], q[k..]);
    assert q == q[..k] + q[k..];
    PadCompletes(expected, mid, q);
    DecodeConcat(expected, mid, [PAD], q[k + 1..]);
    assert q[k..] == [PAD] + q[k + 1..];
    StoppedIgnores(expected, Dec([], n + |bytes|, true), q[k + 1..]);
    assert bytes + [] == bytes && [] + bytes == bytes;
  }

  lemma PadCompletes(expected: nat, st: Dec, q: seq<byte>)
    requires |q| == 4 && 2 <= |st.quad| < 4 && Padded(st.quad) == q && !st.stopped
    requires DecodeQuad(q).Ok? && st.decoded + |DecodeQuad(q).value| <= expected
    ensures DecodeAll(expected, st, [PAD])
            == Ok((Dec([], st.decoded + |DecodeQuad(q).value|, true), DecodeQuad(q).value))
  {
    hide DecodeQuad;
    DecodeOne(expected, st, PAD);
  }

  lemma {:induction false} StoppedIgnores(expected: nat, st: Dec, s: seq<byte>)
    requires |st.quad| < 4 && st.stopped
    ensures DecodeAll(expected, st, s) == Ok((st, []))
    decreases |s|
  {
    if s != [] {
      StoppedIgnores(expected, st, s[1..]);
    }
  }

  /** Standard base64 text decodes to the bytes it was made from. */
  lemma {:induction false} GroupDecodes(expected: nat, n: nat, data: seq<byte>)
    requires n + |data| <= expected
    ensures DecodeAll(expected, Dec([], n, false), EncodeGroup(data))
            == Ok((Dec([], n + |data|, |data| % 3 != 0), data))
    decreases |data|
  {
    hide DecodeQuad, EncodeChar, DecodeAll;
    var st := Dec([], n, false);
    if |data| == 0 {
      FirstChars(expected, n, []);
    } else if |data| < 3 {
      ShortGroupDecodes(expected, n, data);
    } else {
      hide DecodeByte, Emit, EncodeTriple;
      DecodeConcat(expected, st, EncodeTriple(data[0], data[1], data[2]), EncodeGroup(data[3..]));
      TripleDecodes(expected, n, data[0], data[1], data[2]);
      GroupDecodes(expected, n + 3, data[3..]);
      assert [data[0], data[1], data[2]] + data[3..] == data;
    }
  }

  lemma TripleDecodes(expected: nat, n: nat, x: byte, y: byte, z: byte)
    requires n + 3 <= expected
    ensures DecodeAll(expected, Dec([], n, false), EncodeTriple(x, y, z)) == Ok((Dec([], n + 3, false), [x, y, z]))
  {
    hide DecodeQuad, EncodeChar, DecodeAll;
    EncodedAlphabet(x, y, z);
    QuadRoundTrip(x, y, z);
    DecodeFourChars(expected, n, EncodeTriple(x, y, z));
  }

  lemma ShortGroupDecodes(expected: nat, n: nat, data: seq<byte>)
    requires 0 < |data| < 3 && n + |data| <= expected
    ensures DecodeAll(expected, Dec([], n, false), EncodeGroup(data)) == Ok((Dec([], n + |data|, true), data))
  {
    hide DecodeQuad, EncodeChar, DecodeAll;
    var y := if |data| == 2 then data[1] else 0;
    EncodedAlphabet(data[0], y, 0);
    QuadRoundTrip(data[0], y, 0);
    assert data == if |data| == 1 then [data[0]] else [data[0], data[1]];
    DecodePadded(expected, n, EncodeGroup(data));
  }

  lemma EncodedAlphabet(x: byte, y: byte, z: byte)
    ensures var t := EncodeTriple(x, y, z);
            IsAlphabet(t[0]) && IsAlphabet(t[1]) && IsAlphabet(t[2]) && IsAlphabet(t[3])
    ensures IsAlphabet(EncodeChar(x % 4 * 16)) && IsAlphabet(EncodeChar(y % 16 * 4))
  {
  }

  // ---------------------------------------------------------------------------
  // Line breaks
  // ---------------------------------------------------------------------------

  /** The wire without its line breaks. */
  function StripEol(w: seq<byte>): (s: seq<byte>) {
    if w == [] then []
    else if w[0] == CR || w[0] == LF then StripEol(w[1..])
    else [w[0]] + StripEol(w[1..])
  }

  lemma {:induction false} StripEolConcat(a: seq<byte>, b: seq<byte>)
    ensures StripEol(a + b) == StripEol(a) + StripEol(b)
  {
    if a == [] {
      assert a + b == b;
    } else {
      assert (a + b)[1..] == a[1..] + b;
      StripEolConcat(a[1..], b);
    }
  }

  lemma {:induction false} EolIsSkipped(expected: nat, st: Dec, w: seq<byte>)
    requires |st.quad| < 4
    ensures DecodeAll(expected, st, w) == DecodeAll(expected, st, StripEol(w))
    decreases |w|
  {
    if w != [] {
      var s := StripEol(w);
      if w[0] == CR || w[0] == LF {
        assert DecodeByte(expected, st, w[0]) == Ok((st, []));
        EolIsSkipped(expected, st, w[1..]);
        var rest := DecodeAll(expected, st, w[1..]);
        if rest.Ok? {
          assert [] + rest.value.1 == rest.value.1;
        }
      } else {
        hide DecodeByte;
        assert s[0] == w[0] && s[1..] == StripEol(w[1..]);
        var first := DecodeByte(expected, st, w[0]);
        if first.Ok? {
          EolIsSkipped(expected, first.value.0, w[1..]);
        }
      }
    }
  }

  /** A wire of `data`: standard base64 with CR and LF scattered anywhere. */
  ghost predicate IsWireOf(w: seq<byte>, data: seq<byte>) {
    StripEol(w) == EncodeGroup(data)
  }

  lemma WireDecodes(w: seq<byte>, data: seq<byte>)
    requires IsWireOf(w, data)
    ensures DecodeAll(|data|, FRESH, w) == Ok((Dec([], |data|, |data| % 3 != 0), data))
  {
    EolIsSkipped(|data|, FRESH, w);
    GroupDecodes(|data|, 0, data);
  }

  /** `text` begins with a byte that ends the payload, such as the `_` of a marker. */
  predicate StartsOutsideAlphabet(text: seq<byte>) {
    text != [] && !IsAlphabet(text[0]) && text[0] != CR && text[0] != LF && text[0] != PAD
  }

  lemma StopsAtText(expected: nat, st: Dec, text: seq<byte>)
    requires |st.quad| < 4 && StartsOutsideAlphabet(text)
    ensures DecodeAll(expected, st, text) == Ok((st.(stopped := true), []))
  {
    StoppedIgnores(expected, st.(stopped := true), text[1..]);
  }

  /** The payload is recovered when the wire is followed by a marker and anything after it. */
  lemma WireThenTextDecodes(w: seq<byte>, data: seq<byte>, text: seq<byte>)
    requires IsWireOf(w, data) && StartsOutsideAlphabet(text)
    ensures DecodeAll(|data|, FRESH, w + text) == Ok((Dec([], |data|, true), data))
  {
    hide DecodeAll, IsWireOf;
    WireDecodes(w, data);
    DecodeConcat(|data|, FRESH, w, text);
    StopsAtText(|data|, Dec([], |data|, |data| % 3 != 0), text);
    assert data + [] == data;
  }

  /**
   * A truncated wire never yields a wrong payload: the output is a prefix of it, no error is
   * raised, and the final length check passes exactly when nothing is missing.
   */
  lemma TruncatedWireIsSafe(w: seq<byte>, data: seq<byte>, k: nat, text: seq<byte>)
    requires IsWireOf(w, data) && k <= |w| && StartsOutsideAlphabet(text)
    ensures var r := DecodeAll(|data|, FRESH, w[..k] + text);
            && r.Ok? && r.value.1 <= data
            && (r.value.0.decoded == |data| <==> r.value.1 == data)
  {
    hide DecodeAll, IsWireOf;
    WireDecodes(w, data);
    assert w == w[..k] + w[k..];
    DecodeConcat(|data|, FRESH, w[..k], w[k..]);
    DecodeConcat(|data|, FRESH, w[..k], text);
    var head := DecodeAll(|data|, FRESH, w[..k]);
    StopsAtText(|data|, head.value.0, text);
    assert head.value.1 + [] == head.value.1;
  }

  // ---------------------------------------------------------------------------
  // The decoder object
  // ---------------------------------------------------------------------------

  // ---------------------------------------------------------------------------
  // What is refused
  // ---------------------------------------------------------------------------

  ghost predicate AllAlphabet(a: seq<byte>) {
    forall i :: 0 <= i < |a| ==> IsAlphabet(a[i])
  }

  /** `whole` quads and fewer than four characters more: three bytes for every quad, until there are too many. */
  lemma {:induction false} AlphabetRun(n: nat, done: nat, a: seq<byte>, whole: nat)
    requires AllAlphabet(a) && done <= n && 4 * whole <= |a| < 4 * whole + 4
    ensures var r := DecodeAll(n, Dec([], done, false), a);
            if done + 3 * whole > n then r == Err(TooLong)
            else r.Ok? && r.value.0 == Dec(a[4 * whole..], done + 3 * whole, false)
    decreases |a|
  {
    hide DecodeAll, DecodeQuad;
    if whole == 0 {
      FirstChars(n, done, a);
      assert a[0..] == a;
    } else {
      var q, rest := a[..4], a[4..];
      assert a == q + rest;
      DecodeConcat(n, Dec([], done, false), q, rest);
      DecodeFourChars(n, done, q);
      QuadYieldsThree(q);
      if done + 3 <= n {
        AlphabetRun(n, done + 3, rest, whole - 1);
        assert rest[4 * (whole - 1)..] == a[4 * whole..];
      }
    }
  }

  lemma QuadYieldsThree(q: seq<byte>)
    requires |q| == 4 && AllAlphabet(q)
    ensures DecodeQuad(q).Ok? && |DecodeQuad(q).value| == 3
  {
    assert IsAlphabet(q[0]) && IsAlphabet(q[1]) && IsAlphabet(q[2]) && IsAlphabet(q[3]);
  }

  /**
   * Padding after characters of the alphabet: refused after none or one of a quad, refused if the payload
   * becomes too long, and otherwise the end of the payload.
   */
  lemma PaddingIsExact(n: nat, a: seq<byte>, whole: nat, part: nat, text: seq<byte>)
    requires AllAlphabet(a) && |a| == 4 * whole + part && part < 4 && 3 * whole <= n
    ensures var r := DecodeAll(n, FRESH, a + [PAD] + text);
            if part < 2 then r == Err(PaddingPosition)
            else if 3 * whole + part - 1 > n then r == Err(TooLong)
            else r.Ok? && r.value.0 == Dec([], 3 * whole + part - 1, true)
  {
    hide DecodeAll, DecodeQuad;
    AlphabetRun(n, 0, a, whole);
    var st := Dec(a[4 * whole..], 3 * whole, false);
    assert |st.quad| == part;
    DecodeConcat(n, FRESH, a + [PAD], text);
    DecodeConcat(n, FRESH, a, [PAD]);
    DecodeOne(n, st, PAD);
    if part >= 2 {
      assert AllAlphabet(st.quad);
      PaddedYields(st.quad);
      if 3 * whole + part - 1 <= n {
        StoppedIgnores(n, Dec([], 3 * whole + part - 1, true), text);
      }
    }
  }

  lemma PaddedYields(quad: seq<byte>)
    requires 2 <= |quad| < 4 && AllAlphabet(quad)
    ensures DecodeQuad(Padded(quad)).Ok? && |DecodeQuad(Padded(quad)).value| == |quad| - 1
  {
    var q := Padded(quad);
    assert q[0] == quad[0] && q[1] == quad[1] && q[3] == PAD;
    assert IsAlphabet(quad[0]) && IsAlphabet(quad[1]);
    if |quad| == 3 {
      assert q[2] == quad[2] && IsAlphabet(quad[2]);
    }
  }

  /** Whatever the text, the decoder never gives out more than it expects. */
  lemma {:induction false} NeverTooMuch(n: nat, st: Dec, s: seq<byte>)
    requires |st.quad| < 4 && st.decoded <= n
    ensures var r := DecodeAll(n, st, s); r.Ok? ==> r.value.0.decoded <= n
    decreases |s|
  {
    if s != [] {
      var first := DecodeByte(n, st, s[0]);
      if first.Ok? {
        NeverTooMuch(n, first.value.0, s[1..]);
      }
    }
  }

  class B64Decoder {
    const expected: nat
    const quad: array<byte>
    var decoded: nat
    var quadLen: nat
    var stopped: bool

    ghost predicate Valid()
      reads this
    {
      quad.Length == 4 && quadLen < 4
    }

    ghost function State(): (st: Dec)
      requires Valid()
      reads this, quad
    {
      Dec(quad[..quadLen], decoded, stopped)
    }

    constructor (expected: nat)
      ensures Valid() && State() == FRESH && this.expected == expected && fresh(quad)
    {
      this.expected := expected;
      this.quad := new byte[4](_ => 0);
      decoded, quadLen, stopped := 0, 0, false;
    }

    /** The loop body of `feed`: one wire byte. */
    method FeedByte(b: byte) returns (r: Result<seq<byte>>)
      requires Valid()
      modifies this, quad
      ensures var step := DecodeByte(expected, old(State()), b);
              if step.Err? then r == Err(step.error)
              else Valid() && State() == step.value.0 && r == Ok(step.value.1)
    {
      hide DecodeQuad;
      ghost var before := State();
      if stopped || b == CR || b == LF {
        return Ok([]);
      } else if IsAlphabet(b) {
        quad[quadLen] := b;
        quadLen := quadLen + 1;
        assert quad[..quadLen] == before.quad + [b];
        if quadLen < 4 {
          return Ok([]);
        }
      } else if b == PAD {
        if quadLen < 2 {
          return Err(PaddingPosition);
        }
        while quadLen < 4
          invariant |before.quad| <= quadLen <= 4 && decoded == before.decoded
          invariant forall j :: 0 <= j < quadLen ==> quad[j] == if j < |before.quad| then before.quad[j] else PAD
        {
          quad[quadLen] := PAD;
          quadLen := quadLen + 1;
        }
        assert quad[..] == Padded(before.quad);
        stopped := true;
      } else {
        stopped := true;
        return Ok([]);
      }
      assert quad[..] == quad[..quadLen];
      var bytes := DecodeQuad(quad[..]);
      if bytes.Err? {
        return bytes;
      }
      decoded := decoded + |bytes.value|;
      quadLen := 0;
      if decoded > expected {
        return Err(TooLong);
      }
      return bytes;
    }

    /** Feed one wire chunk; an error ends the transfer, so only success says more of the state. */
    method Feed(chunk: seq<byte>) returns (r: Result<seq<byte>>)
      requires Valid()
      modifies this, quad
      ensures var all := DecodeAll(expected, old(State()), chunk);
              if all.Err? then r == Err(all.error)
              else Valid() && State() == all.value.0 && r == Ok(all.value.1)
    {
      hide DecodeByte, DecodeAll;
      var out := [];
      ghost var st := State();
      assert chunk[..0] == [];
      DecodeNothing(expected, st);
      for i := 0 to |chunk|
        invariant Valid()
        invariant DecodeAll(expected, st, chunk[..i]) == Ok((State(), out))
      {
        StepThrough(expected, st, chunk, i);
        if stopped {
          StoppedIgnores(expected, State(), chunk[i..]);
          assert out + [] == out;
          return Ok(out);
        }
        var bytes := FeedByte(chunk[i]);
        if bytes.Err? {
          return bytes;
        }
        out := out + bytes.value;
      }
      assert chunk[..|chunk|] == chunk;
      r := Ok(out);
    }

    /** Ok exactly when `expected` bytes came out; characters left in the quad are not looked at. */
    method Finish() returns (r: Result<()>)
      requires Valid()
      ensures r == if decoded == expected then Ok(()) else Err(LengthMismatch)
    {
      r := if decoded != expected then Err(LengthMismatch) else Ok(());
    }
  }

  lemma DecodeNothing(expected: nat, st: Dec)
    requires |st.quad| < 4
    ensures DecodeAll(expected, st, []) == Ok((st, []))
  {
  }

  /** How one more byte extends a decoded prefix, and how an early error decides the whole. */
  lemma StepThrough(expected: nat, st: Dec, chunk: seq<byte>, i: nat)
    requires |st.quad| < 4 && i < |chunk| && DecodeAll(expected, st, chunk[..i]).Ok?
    ensures var head := DecodeAll(expected, st, chunk[..i]).value;
            var step := DecodeByte(expected, head.0, chunk[i]);
            var rest := DecodeAll(expected, head.0, chunk[i..]);
            && DecodeAll(expected, st, chunk[..i + 1])
               == (if step.Err? then Err(step.error) else Ok((step.value.0, head.1 + step.value.1)))
            && DecodeAll(expected, st, chunk)
               == (if rest.Err? then rest else Ok((rest.value.0, head.1 + rest.value.1)))
            && (step.Err? ==> DecodeAll(expected, st, chunk) == Err(step.error))
  {
    hide DecodeByte;
    assert chunk[..i + 1] == chunk[..i] + [chunk[i]];
    assert chunk == chunk[..i] + chunk[i..];
    DecodeConcat(expected, st, chunk[..i], [chunk[i]]);
    DecodeConcat(expected, st, chunk[..i], chunk[i..]);
    DecodeOne(expected, DecodeAll(expected, st, chunk[..i]).value.0, chunk[i]);
    assert chunk[i..][0] == chunk[i];
  }

  // ---------------------------------------------------------------------------
  // Encoder
  // ---------------------------------------------------------------------------

  const GROUP: nat := 57

  /** The `base64(1)` layout: 57 bytes to a 76-character line, every line newline-terminated. */
  function Wire(data: seq<byte>): (w: seq<byte>) {
    if data == [] then []
    else if |data| < GROUP then EncodeGroup(data) + [LF]
    else EncodeGroup(data[..GROUP]) + [LF] + Wire(data[GROUP..])
  }

  /** The full lines of `data`; the last `|data| % 57` bytes wait. */
  function FullLines(data: seq<byte>): (w: seq<byte>) {
    if |data| < GROUP then [] else EncodeGroup(data[..GROUP]) + [LF] + FullLines(data[GROUP..])
  }

  /** What remains of `data` after its full lines. */
  function Waiting(data: seq<byte>): (rest: seq<byte>)
    ensures |rest| < GROUP
  {
    if |data| < GROUP then data else Waiting(data[GROUP..])
  }

  function CeilDiv(n: nat, d: nat): (q: nat)
    requires d > 0
  {
    (n + d - 1) / d
  }

  function WireLenFor(decoded: nat): (n: nat) {
    var chars := CeilDiv(decoded, 3) * 4;
    chars + CeilDiv(chars, 76)
  }

  /** Rounding up after adding a multiple of the divisor. */
  lemma CeilShift(n: nat, d: nat, m: nat)
    requires d > 0
    ensures n + d * m >= 0 && CeilDiv(n + d * m, d) == CeilDiv(n, d) + m
  {
    DivShift(n + d - 1, d, m);
    assert n + d * m + d - 1 == n + d - 1 + d * m;
  }

  lemma {:induction false} EncodeGroupLength(g: seq<byte>)
    ensures |EncodeGroup(g)| == CeilDiv(|g|, 3) * 4
    decreases |g|
  {
    if |g| >= 3 {
      hide CeilDiv;
      EncodeGroupLength(g[3..]);
      CeilShift(|g| - 3, 3, 1);
    }
  }

  /** A line's worth more of input is a line more of output. */
  lemma LineMore(n: nat)
    ensures WireLenFor(n + 57) == WireLenFor(n) + 77
  {
    hide CeilDiv;
    CeilShift(n, 3, 19);
    CeilShift(CeilDiv(n, 3) * 4, 76, 1);
  }

  /** A last, shorter line. */
  lemma LastLine(n: nat)
    requires 0 < n < 57
    ensures WireLenFor(n) == CeilDiv(n, 3) * 4 + 1
  {
    var chars := CeilDiv(n, 3) * 4;
    assert 4 <= chars <= 76;
    DivIs(chars + 75, 76, 1, chars - 1);
  }

  lemma {:induction false} WireLength(data: seq<byte>)
    ensures |Wire(data)| == WireLenFor(|data|)
    decreases |data|
  {
    hide CeilDiv, WireLenFor, EncodeGroup;
    if |data| >= GROUP {
      EncodeGroupLength(data[..GROUP]);
      WireLength(data[GROUP..]);
      LineMore(|data| - GROUP);
      FullLineChars();
    } else if data != [] {
      EncodeGroupLength(data);
      LastLine(|data|);
    } else {
      EmptyWireLength();
    }
  }

  lemma FullLineChars()
    ensures CeilDiv(57, 3) * 4 == 76
  {
  }

  lemma EmptyWireLength()
    ensures WireLenFor(0) == 0
  {
  }

  lemma {:induction false} FullLinesThenRest(buf: seq<byte>, more: seq<byte>)
    ensures Wire(buf + more) == FullLines(buf) + Wire(Waiting(buf) + more)
    decreases |buf|
  {
    hide EncodeGroup;
    if |buf| >= GROUP {
      var tail := buf[GROUP..];
      FullLinesThenRest(tail, more);
      assert (buf + more)[..GROUP] == buf[..GROUP] && (buf + more)[GROUP..] == tail + more;
      var line := EncodeGroup(buf[..GROUP]) + [LF];
      var rest := Wire(Waiting(buf) + more);
      assert line + (FullLines(tail) + rest) == line + FullLines(tail) + rest;
    }
  }

  class B64Encoder {
    var pending: seq<byte>
    var encodedTotal: nat

    constructor ()
      ensures pending == [] && encodedTotal == 0
    {
      pending, encodedTotal := [], 0;
    }

    method Encode(data: seq<byte>) returns (out: seq<byte>)
      modifies this
      ensures out == FullLines(old(pending) + data)
      ensures pending == Waiting(old(pending) + data)
      ensures encodedTotal == old(encodedTotal) + |out|
    {
      hide EncodeGroup;
      pending := pending + data;
      ghost var buf := pending;
      var groups := |pending| / GROUP;
      out := [];
      assert [] + FullLines(buf) == FullLines(buf);
      for k := 0 to groups
        invariant |pending| / GROUP == groups - k
        invariant FullLines(buf) == out + FullLines(pending) && Waiting(buf) == Waiting(pending)
        invariant encodedTotal == old(encodedTotal) + |out|
      {
        var group := pending[..GROUP];
        EncodeGroupLength(group);
        ghost var rest := FullLines(pending[GROUP..]);
        assert out + (EncodeGroup(group) + [LF] + rest) == out + EncodeGroup(group) + [LF] + rest;
        pending := pending[GROUP..];
        out := out + EncodeGroup(group) + [LF];
        encodedTotal := encodedTotal + 77;
      }
      assert FullLines(pending) == [];
      assert out + [] == out;
    }

    method Finish() returns (out: seq<byte>)
      requires |pending| < GROUP
      modifies this
      ensures out == Wire(old(pending)) && pending == []
      ensures encodedTotal == old(encodedTotal) + |out|
    {
      out := [];
      if |pending| != 0 {
        var group := pending;
        pending := [];
        out := out + EncodeGroup(group) + [LF];
        assert [] + EncodeGroup(group) == EncodeGroup(group);
        encodedTotal := encodedTotal + |out|;
      }
    }
  }

  /** All the bytes an encoder emits for a sequence of `encode` calls and a final `finish`. */
  function EncodeRun(pending: seq<byte>, chunks: seq<seq<byte>>): (w: seq<byte>)
    decreases |chunks|
  {
    if chunks == [] then Wire(pending)
    else
      var buf := pending + chunks[0];
      FullLines(buf) + EncodeRun(Waiting(buf), chunks[1..])
  }

  /** Any split of the input into `encode` calls emits the same bytes. */
  lemma {:induction false} EncoderChunkIndependent(pending: seq<byte>, chunks: seq<seq<byte>>)
    ensures EncodeRun(pending, chunks) == Wire(pending + Flatten(chunks))
    decreases |chunks|
  {
    hide Wire, FullLines;
    if chunks == [] {
      assert pending + Flatten(chunks) == pending;
    } else {
      var buf := pending + chunks[0];
      var rest := Waiting(buf);
      EncoderChunkIndependent(rest, chunks[1..]);
      FullLinesThenRest(buf, Flatten(chunks[1..]));
      assert buf + Flatten(chunks[1..]) == pending + Flatten(chunks);
    }
  }

  /** Encodes a chunked source with the encoder object. */
  method EncodeChunks(chunks: seq<seq<byte>>) returns (wire: seq<byte>, total: nat)
    ensures wire == Wire(Flatten(chunks))
    ensures total == |wire| == WireLenFor(|Flatten(chunks)|)
  {
    hide Wire, FullLines, Waiting, WireLenFor;
    var enc := new B64Encoder();
    wire := [];
    ghost var goal := EncodeRun([], chunks);
    assert chunks[0..] == chunks && [] + goal == goal;
    for i := 0 to |chunks|
      invariant |enc.pending| < GROUP && enc.encodedTotal == |wire|
      invariant wire + EncodeRun(enc.pending, chunks[i..]) == goal
    {
      ghost var was := wire;
      var out := enc.Encode(chunks[i]);
      wire := wire + out;
      ghost var rest := EncodeRun(enc.pending, chunks[i + 1..]);
      assert chunks[i..][1..] == chunks[i + 1..];
      assert was + (out + rest) == wire + rest;
    }
    var last := enc.Finish();
    wire := wire + last;
    total := enc.encodedTotal;
    EncoderChunkIndependent([], chunks);
    assert [] + Flatten(chunks) == Flatten(chunks);
    WireLength(Flatten(chunks));
  }

  // ---------------------------------------------------------------------------
  // What the encoder puts on the wire
  // ---------------------------------------------------------------------------

  predicate IsPayloadChar(b: byte) {
    IsAlphabet(b) || b == PAD
  }

  lemma {:induction false} EncodeGroupChars(g: seq<byte>)
    ensures forall i :: 0 <= i < |EncodeGroup(g)| ==> IsPayloadChar(EncodeGroup(g)[i])
    decreases |g|
  {
    hide EncodeChar;
    if |g| >= 3 {
      EncodedAlphabet(g[0], g[1], g[2]);
      EncodeGroupChars(g[3..]);
    } else if |g| > 0 {
      EncodedAlphabet(g[0], if |g| == 2 then g[1] else 0, 0);
    }
  }

  lemma {:induction false} EncodeGroupConcat(a: seq<byte>, b: seq<byte>)
    requires |a| % 3 == 0
    ensures EncodeGroup(a + b) == EncodeGroup(a) + EncodeGroup(b)
    decreases |a|
  {
    hide EncodeTriple;
    if a == [] {
      assert a + b == b;
    } else {
      EncodeGroupConcat(a[3..], b);
      assert (a + b)[3..] == a[3..] + b;
      var t := EncodeTriple(a[0], a[1], a[2]);
      assert t + (EncodeGroup(a[3..]) + EncodeGroup(b)) == t + EncodeGroup(a[3..]) + EncodeGroup(b);
    }
  }

  lemma {:induction false} StripEolIdentity(s: seq<byte>)
    requires forall i :: 0 <= i < |s| ==> IsPayloadChar(s[i])
    ensures StripEol(s) == s
  {
    if s != [] {
      StripEolIdentity(s[1..]);
    }
  }

  lemma StripEolOfLine(g: seq<byte>)
    ensures StripEol(EncodeGroup(g) + [LF]) == EncodeGroup(g)
  {
    EncodeGroupChars(g);
    StripEolIdentity(EncodeGroup(g));
    StripEolConcat(EncodeGroup(g), [LF]);
    assert StripEol([LF]) == [];
  }

  /** The encoder's output is a wire of its input. */
  lemma {:induction false} WireIsWire(data: seq<byte>)
    ensures IsWireOf(Wire(data), data)
    decreases |data|
  {
    hide EncodeGroup;
    if data == [] {
      EncodeGroupLength(data);
    } else if |data| < GROUP {
      StripEolOfLine(data);
    } else {
      var g, rest := data[..GROUP], data[GROUP..];
      StripEolOfLine(g);
      WireIsWire(rest);
      StripEolConcat(EncodeGroup(g) + [LF], Wire(rest));
      EncodeGroupConcat(g, rest);
      assert g + rest == data;
    }
  }

  /** The PTY's output translation: LF becomes CRLF. */
  function Onlcr(w: seq<byte>): (s: seq<byte>) {
    if w == [] then [] else (if w[0] == LF then [CR, LF] else [w[0]]) + Onlcr(w[1..])
  }

  /** Byte by byte: a line feed gets a carriage return in front, anything else stays. */
  lemma OnlcrIs(b: byte, w: seq<byte>)
    ensures Onlcr([b] + w) == (if b == 10 then [13, 10] else [b]) + Onlcr(w)
    ensures Onlcr([]) == []
  {
    assert ([b] + w)[1..] == w;
  }

  lemma {:induction false} OnlcrKeepsWire(w: seq<byte>)
    ensures StripEol(Onlcr(w)) == StripEol(w)
  {
    if w != [] {
      OnlcrKeepsWire(w[1..]);
      var head := if w[0] == LF then [CR, LF] else [w[0]];
      StripEolConcat(head, Onlcr(w[1..]));
      if w[0] == LF {
        assert [CR, LF][1..] == [LF];
        assert StripEol([LF]) == [] && StripEol([CR, LF]) == [];
      } else {
        assert StripEol([]) == [];
      }
    }
  }

  lemma {:induction false} StripEolDropsNothingElse(w: seq<byte>, i: nat)
    requires i < |w| && w[i] != CR && w[i] != LF
    ensures w[i] in StripEol(w)
    decreases i
  {
    if i > 0 {
      StripEolDropsNothingElse(w[1..], i - 1);
    }
  }

  /** No byte outside the alphabet, padding and line breaks ever appears in a wire. */
  lemma WireChars(w: seq<byte>, data: seq<byte>)
    requires IsWireOf(w, data)
    ensures forall i :: 0 <= i < |w| ==> IsPayloadChar(w[i]) || w[i] == CR || w[i] == LF
  {
    EncodeGroupChars(data);
    forall i | 0 <= i < |w| && w[i] != CR && w[i] != LF
      ensures IsPayloadChar(w[i])
    {
      StripEolDropsNothingElse(w, i);
    }
  }

  /** Section 6.8 of RFC 2045: lines of at most 76 characters, all full but the last, each ended by LF. */
  ghost predicate IsMimeText(w: seq<byte>)
    decreases |w|
  {
    w == [] || exists k :: IsMimeLine(w, k) && IsMimeText(w[k + 1..])
  }

  ghost predicate IsMimeLine(w: seq<byte>, k: int) {
    && 0 < k < |w| && k <= 76 && w[k] == LF
    && (forall i :: 0 <= i < k ==> IsPayloadChar(w[i]))
    && (k == 76 || k + 1 == |w|)
  }

  lemma {:induction false} WireIsMime(data: seq<byte>)
    ensures IsMimeText(Wire(data))
    decreases |data|
  {
    hide EncodeGroup;
    if data != [] {
      var g := if |data| < GROUP then data else data[..GROUP];
      var k := |EncodeGroup(g)|;
      EncodeGroupLength(g);
      EncodeGroupChars(g);
      var w := Wire(data);
      if |data| < GROUP {
        assert w[k + 1..] == [];
      } else {
        WireIsMime(data[GROUP..]);
        assert w[k + 1..] == Wire(data[GROUP..]);
      }
      assert IsMimeLine(w, k);
    }
  }
}
