/**
 * The exit-code sentinel `marker:digits` LF (or CRLF) and the streaming scanner that
 * looks for it in a PTY stream cut at arbitrary places.
 */
module Sentinel {
  import opened Bytes

  // ---------------------------------------------------------------------------
  // Sub-slice search
  // ---------------------------------------------------------------------------

  predicate OccursAt(s: seq<byte>, m: seq<byte>, i: int) {
    0 <= i && i + |m| <= |s| && s[i..i + |m|] == m
  }

  lemma OccursInBounds(s: seq<byte>, m: seq<byte>, q: int)
    ensures OccursAt(s, m, q) ==> 0 <= q && q + |m| <= |s|
  {
  }

  function FindFrom(h: seq<byte>, n: seq<byte>, i: nat): (r: Option<nat>)
    requires n != [] && i <= |h|
    ensures r.Some? ==> i <= r.value && OccursAt(h, n, r.value)
    ensures forall j :: i <= j && (r.Some? ==> j < r.value) ==> !OccursAt(h, n, j)
    decreases |h| - i
  {
    if i + |n| > |h| then None
    else if h[i..i + |n|] == n then Some(i)
    else FindFrom(h, n, i + 1)
  }

  /** First occurrence of `needle`; an empty needle is never found. */
  function FindSubslice(haystack: seq<byte>, needle: seq<byte>): (r: Option<nat>)
    ensures r.Some? ==> needle != [] && OccursAt(haystack, needle, r.value)
    ensures forall j :: needle != [] && (r.Some? ==> j < r.value) ==> !OccursAt(haystack, needle, j)
  {
    if needle == [] || |needle| > |haystack| then None else FindFrom(haystack, needle, 0)
  }

  /** Length of the longest suffix of `buf` that is a proper prefix of `pattern`. */
  function PartialSuffixMatch(buf: seq<byte>, pattern: seq<byte>): (r: nat)
    ensures r <= |buf| && (r < |pattern| || r == 0)
    ensures buf[|buf| - r..] == pattern[..r]
    ensures forall k :: r < k <= |buf| && k < |pattern| ==> buf[|buf| - k..] != pattern[..k]
  {
    if |pattern| <= 1 || buf == [] then 0
    else LongestSuffix(buf, pattern, if |buf| < |pattern| - 1 then |buf| else |pattern| - 1)
  }

  function LongestSuffix(buf: seq<byte>, pattern: seq<byte>, len: nat): (r: nat)
    requires len <= |buf| && len < |pattern|
    ensures r <= len && buf[|buf| - r..] == pattern[..r]
    ensures forall k :: r < k <= len ==> buf[|buf| - k..] != pattern[..k]
  {
    if len == 0 || buf[|buf| - len..] == pattern[..len] then len
    else LongestSuffix(buf, pattern, len - 1)
  }

  // ---------------------------------------------------------------------------
  // The `:digits` terminator that must follow a marker
  // ---------------------------------------------------------------------------

  ghost predicate AllDigits(d: seq<byte>) {
    forall i :: 0 <= i < |d| ==> IsDigit(d[i])
  }

  /** The grammar: a colon, one or more digits, then LF or CRLF. */
  ghost predicate IsTail(t: seq<byte>, d: seq<byte>) {
    d != [] && AllDigits(d) && (t == [COLON] + d + [LF] || t == [COLON] + d + [CR, LF])
  }

  function Decimal(d: seq<byte>): (n: int) {
    if d == [] then 0 else Decimal(d[..|d| - 1]) * 10 + d[|d| - 1] - 48
  }

  const I32_MAX: int := 0x7FFF_FFFF

  /** `parse::<i32>().unwrap_or(0)` on a digit string: out-of-range values read as 0. */
  function ParseI32(d: seq<byte>): (n: int) {
    if Decimal(d) <= I32_MAX then Decimal(d) else 0
  }

  function Pow10(n: nat): (p: nat) {
    if n == 0 then 1 else 10 * Pow10(n - 1)
  }

  /** Digits to the left weigh more. */
  lemma {:induction false} DecimalConcat(a: seq<byte>, b: seq<byte>)
    ensures Decimal(a + b) == Decimal(a) * Pow10(|b|) + Decimal(b)
    decreases |b|
  {
    if b == [] {
      assert a + b == a;
    } else {
      var n := |b| - 1;
      DecimalConcat(a, b[..n]);
      assert (a + b)[..|a + b| - 1] == a + b[..n] && (a + b)[|a + b| - 1] == b[n];
      TenTimes(Decimal(a), Pow10(n));
    }
  }

  lemma TenTimes(x: int, p: nat)
    ensures x * (10 * p) == 10 * (x * p)
  {
  }

  /** The i32 range, and the bytes of the digits, written out. */
  lemma ParseI32Range(d: seq<byte>)
    ensures Decimal(d) <= 2147483647 ==> ParseI32(d) == Decimal(d)
    ensures Decimal(d) > 2147483647 ==> ParseI32(d) == 0
    ensures Decimal([49, 50, 55]) == 127
  {
    assert [49, 50, 55][..2] == [49, 50] && [49, 50][..1] == [49] && [49][..0] == [];
  }

  /** The two forms of a tail, in bytes: `:digits\n` and `:digits\r\n`. */
  lemma TailForms(t: seq<byte>, d: seq<byte>)
    ensures IsTail(t, d) <==>
              && d != [] && (forall i :: 0 <= i < |d| ==> 48 <= d[i] <= 57)
              && (t == [58] + d + [10] || t == [58] + d + [13, 10])
  {
  }

  datatype Lookahead = Confirmed(code: int, consumed: nat) | Incomplete | Mismatch

  /** First index at or after `i` that does not hold a digit. */
  function DigitsEnd(s: seq<byte>, i: nat): (e: nat)
    requires i <= |s|
    ensures i <= e <= |s|
    ensures forall j :: i <= j < e ==> IsDigit(s[j])
    ensures e < |s| ==> !IsDigit(s[e])
    decreases |s| - i
  {
    if i < |s| && IsDigit(s[i]) then DigitsEnd(s, i + 1) else i
  }

  function LookaheadOf(after: seq<byte>): (r: Lookahead)
    ensures r.Confirmed? ==> r.consumed <= |after|
  {
    if after == [] then Incomplete
    else if after[0] != COLON then Mismatch
    else
      var i := DigitsEnd(after, 1);
      if i == 1 then (if i < |after| then Mismatch else Incomplete)
      else if i >= |after| then Incomplete
      else if after[i] == LF then Confirmed(ParseI32(after[1..i]), i + 1)
      else if after[i] == CR && i + 1 < |after| && after[i + 1] == LF then Confirmed(ParseI32(after[1..i]), i + 2)
      else if after[i] == CR && i + 1 >= |after| then Incomplete
      else Mismatch
  }

  lemma DigitsEndUnique(s: seq<byte>, i: nat, e: nat)
    requires i <= e <= |s|
    requires forall j :: i <= j < e ==> IsDigit(s[j])
    requires e < |s| ==> !IsDigit(s[e])
    ensures DigitsEnd(s, i) == e
  {
  }

  /** A buffer starting with a complete tail is confirmed, with that tail's code and length. */
  lemma TailIsConfirmed(after: seq<byte>, n: nat, d: seq<byte>)
    requires n <= |after| && IsTail(after[..n], d)
    ensures LookaheadOf(after) == Confirmed(ParseI32(d), n)
  {
    var t := after[..n];
    var e := |d| + 1;
    assert forall j :: 1 <= j < e ==> after[j] == t[j] == d[j - 1];
    assert after[0] == t[0] && after[e] == t[e];
    DigitsEndUnique(after, 1, e);
    assert after[1..e] == d;
    if t == [COLON] + d + [CR, LF] {
      assert after[e + 1] == t[e + 1];
    }
  }

  /** A buffer that a tail properly extends is still incomplete. */
  lemma TailPrefixIsIncomplete(after: seq<byte>, t: seq<byte>, d: seq<byte>)
    requires IsTail(t, d) && after < t
    ensures LookaheadOf(after) == Incomplete
  {
    assert forall j :: 0 <= j < |after| ==> after[j] == t[j];
    if after != [] {
      var e := if |after| < |d| + 1 then |after| else |d| + 1;
      DigitsEndUnique(after, 1, e);
    }
  }

  /** The bytes that would complete an incomplete buffer. */
  ghost function Completion(after: seq<byte>): (t: seq<byte>) {
    if after == [] then [COLON, 48, LF]
    else if |after| == 1 then after + [48, LF]
    else after + [LF]
  }

  lemma IncompleteHasCompletion(after: seq<byte>)
    requires LookaheadOf(after) == Incomplete
    ensures exists d :: IsTail(Completion(after), d)
    ensures after < Completion(after)
  {
    var t := Completion(after);
    if |after| <= 1 {
      assert t == [COLON] + [48] + [LF];
      assert IsTail(t, [48]);
    } else {
      var i := DigitsEnd(after, 1);
      var d := after[1..i];
      if i == |after| {
        assert t == [COLON] + d + [LF];
      } else {
        assert after == [COLON] + d + [CR];
        assert t == [COLON] + d + [CR, LF];
      }
      assert IsTail(t, d);
    }
  }

  lemma ConfirmedIsTail(after: seq<byte>) returns (d: seq<byte>)
    requires LookaheadOf(after).Confirmed?
    ensures IsTail(after[..LookaheadOf(after).consumed], d)
    ensures LookaheadOf(after).code == ParseI32(d)
  {
    var i := DigitsEnd(after, 1);
    d := after[1..i];
    var n := LookaheadOf(after).consumed;
    if after[i] == LF {
      assert after[..n] == [COLON] + d + [LF];
    } else {
      assert after[..n] == [COLON] + d + [CR, LF];
    }
  }

  /** The lookahead decides the grammar: confirmed, extensible to a tail, or neither. */
  lemma LookaheadMeaning(after: seq<byte>)
    ensures LookaheadOf(after).Confirmed? <==> exists n: nat, d :: n <= |after| && IsTail(after[..n], d)
    ensures LookaheadOf(after).Incomplete? <==> exists t, d :: IsTail(t, d) && after < t
  {
    hide LookaheadOf, IsTail;
    if LookaheadOf(after).Confirmed? {
      var d := ConfirmedIsTail(after);
    }
    if n: nat, d :| n <= |after| && IsTail(after[..n], d) {
      TailIsConfirmed(after, n, d);
    }
    if LookaheadOf(after).Incomplete? {
      IncompleteHasCompletion(after);
    }
    if t, d :| IsTail(t, d) && after < t {
      TailPrefixIsIncomplete(after, t, d);
    }
  }

  /** What a truncated buffer says about the whole: a mismatch or a confirmation is final. */
  lemma LookaheadOfPrefix(after: seq<byte>, k: nat)
    requires k <= |after|
    ensures LookaheadOf(after[..k]).Confirmed? ==> LookaheadOf(after) == LookaheadOf(after[..k])
    ensures LookaheadOf(after).Confirmed? ==>
              LookaheadOf(after[..k]) == if k < LookaheadOf(after).consumed then Incomplete else LookaheadOf(after)
  {
    var cut := after[..k];
    if LookaheadOf(cut).Confirmed? {
      var n := LookaheadOf(cut).consumed;
      var d := ConfirmedIsTail(cut);
      assert after[..n] == cut[..n];
      TailIsConfirmed(after, n, d);
    }
    if LookaheadOf(after).Confirmed? {
      var n := LookaheadOf(after).consumed;
      var d := ConfirmedIsTail(after);
      if k < n {
        assert cut < after[..n];
        TailPrefixIsIncomplete(cut, after[..n], d);
      } else {
        assert cut[..n] == after[..n];
        TailIsConfirmed(cut, n, d);
      }
    }
  }

  /** Counts digits with the source's index loop. */
  method LookaheadSentinel(after: seq<byte>) returns (r: Lookahead)
    ensures r == LookaheadOf(after)
  {
    if |after| == 0 {
      return Incomplete;
    }
    if after[0] != COLON {
      return Mismatch;
    }
    var i := 1;
    while i < |after| && IsDigit(after[i])
      invariant 1 <= i <= |after|
      invariant forall j :: 1 <= j < i ==> IsDigit(after[j])
    {
      i := i + 1;
    }
    DigitsEndUnique(after, 1, i);
    if i == 1 {
      return if i < |after| then Mismatch else Incomplete;
    }
    if i >= |after| {
      return Incomplete;
    }
    if after[i] == LF {
      r := Confirmed(ParseI32(after[1..i]), i + 1);
    } else if after[i] == CR && i + 1 < |after| && after[i + 1] == LF {
      r := Confirmed(ParseI32(after[1..i]), i + 2);
    } else if after[i] == CR && i + 1 >= |after| {
      r := Incomplete;
    } else {
      r := Mismatch;
    }
  }

  // ---------------------------------------------------------------------------
  // Searching a buffer for the sentinel
  // ---------------------------------------------------------------------------

  /** A marker occurrence at `p` followed by a complete tail. */
  predicate SentinelAt(s: seq<byte>, m: seq<byte>, p: int) {
    m != [] && OccursAt(s, m, p) && LookaheadOf(s[p + |m|..]).Confirmed?
  }

  function SentinelEnd(s: seq<byte>, m: seq<byte>, p: int): (e: nat)
    requires SentinelAt(s, m, p)
    ensures p + |m| <= e <= |s|
  {
    p + |m| + LookaheadOf(s[p + |m|..]).consumed
  }

  function SentinelCode(s: seq<byte>, m: seq<byte>, p: int): (c: int)
    requires SentinelAt(s, m, p)
  {
    LookaheadOf(s[p + |m|..]).code
  }

  ghost predicate FirstSentinelAt(s: seq<byte>, m: seq<byte>, p: int) {
    SentinelAt(s, m, p) && forall q :: q < p ==> !SentinelAt(s, m, q)
  }

  /** A sentinel is exactly `before ++ marker ++ tail ++ rest` with `tail` in the grammar. */
  lemma SentinelMeaning(s: seq<byte>, m: seq<byte>, before: seq<byte>, t: seq<byte>, d: seq<byte>, rest: seq<byte>)
    requires m != [] && IsTail(t, d) && s == before + m + t + rest
    ensures SentinelAt(s, m, |before|)
    ensures SentinelEnd(s, m, |before|) == |before| + |m| + |t|
    ensures SentinelCode(s, m, |before|) == ParseI32(d)
  {
    var after := s[|before| + |m|..];
    assert after[..|t|] == t;
    TailIsConfirmed(after, |t|, d);
  }

  datatype SentinelFind = Hit(pos: nat, code: int, end: nat) | Partial(pos: nat) | Nothing

  /** The search order of the source: on a false occurrence, jump a whole marker length. */
  function FindSentinelFrom(buf: seq<byte>, m: seq<byte>, from: nat): (r: SentinelFind)
    requires m != [] && from <= |buf|
    decreases |buf| - from
  {
    var found := FindFrom(buf, m, from);
    if found.None? then Nothing
    else
      var pos := found.value;
      match LookaheadOf(buf[pos + |m|..])
      case Confirmed(code, consumed) => Hit(pos, code, pos + |m| + consumed)
      case Incomplete => Partial(pos)
      case Mismatch => FindSentinelFrom(buf, m, pos + |m|)
  }

  function FindSentinelOf(buf: seq<byte>, m: seq<byte>): (r: SentinelFind)
    ensures r.Hit? ==> r.pos <= r.end <= |buf|
    ensures r.Partial? ==> r.pos <= |buf|
  {
    if m == [] then Nothing else FindSentinelFacts(buf, m, 0); FindSentinelFrom(buf, m, 0)
  }

  lemma {:induction false} FindSentinelFacts(buf: seq<byte>, m: seq<byte>, from: nat)
    requires m != [] && from <= |buf|
    ensures var r := FindSentinelFrom(buf, m, from);
            && (r.Hit? ==> from <= r.pos && SentinelAt(buf, m, r.pos)
                           && r.end == SentinelEnd(buf, m, r.pos) && r.code == SentinelCode(buf, m, r.pos))
            && (r.Partial? ==> from <= r.pos && OccursAt(buf, m, r.pos) && LookaheadOf(buf[r.pos + |m|..]).Incomplete?)
    decreases |buf| - from
  {
    hide LookaheadOf, FindFrom;
    var found := FindFrom(buf, m, from);
    if found.Some? && LookaheadOf(buf[found.value + |m|..]).Mismatch? {
      FindSentinelFacts(buf, m, found.value + |m|);
    }
  }

  /** Some marker occurrence begins before `p` and reaches past it. */
  ghost predicate Overlapped(s: seq<byte>, m: seq<byte>, p: int) {
    exists q :: q < p < q + |m| && OccursAt(s, m, q)
  }

  /**
   * The search cannot jump over an occurrence at `p` that no earlier occurrence overlaps
   * and whose lookahead is not a mismatch.
   */
  lemma {:induction false} SearchStopsBy(buf: seq<byte>, m: seq<byte>, from: nat, p: nat)
    requires m != [] && from <= p && OccursAt(buf, m, p)
    requires !Overlapped(buf, m, p) && !LookaheadOf(buf[p + |m|..]).Mismatch?
    ensures var r := FindSentinelFrom(buf, m, from); !r.Nothing? && r.pos <= p
    decreases |buf| - from
  {
    hide LookaheadOf;
    var found := FindFrom(buf, m, from);
    assert found.Some? && found.value <= p;
    if LookaheadOf(buf[found.value + |m|..]).Mismatch? {
      assert found.value + |m| <= p;
      SearchStopsBy(buf, m, found.value + |m|, p);
    }
  }

  method FindSentinel(buf: seq<byte>, marker: seq<byte>) returns (r: SentinelFind)
    ensures r == FindSentinelOf(buf, marker)
  {
    hide LookaheadOf, FindSubslice, FindFrom;
    if |marker| == 0 {
      return Nothing;
    }
    var searchFrom := 0;
    while true
      invariant searchFrom <= |buf|
      invariant FindSentinelFrom(buf, marker, searchFrom) == FindSentinelFrom(buf, marker, 0)
      decreases |buf| - searchFrom
    {
      SearchInTail(buf, marker, searchFrom);
      var rel := FindSubslice(buf[searchFrom..], marker);
      if rel.None? {
        return Nothing;
      }
      var pos := searchFrom + rel.value;
      var look := LookaheadSentinel(buf[pos + |marker|..]);
      match look
      case Confirmed(code, consumed) => return Hit(pos, code, pos + |marker| + consumed);
      case Incomplete => return Partial(pos);
      case Mismatch => searchFrom := pos + |marker|;
    }
  }

  lemma TailOccurs(buf: seq<byte>, m: seq<byte>, from: nat, j: nat)
    requires from <= |buf|
    ensures OccursAt(buf[from..], m, j) <==> OccursAt(buf, m, from + j)
  {
    if from + j + |m| <= |buf| {
      SliceOfSlice(buf, from, |buf|, j, j + |m|);
      assert buf[from..] == buf[from..|buf|];
    }
  }

  lemma SearchInTail(buf: seq<byte>, m: seq<byte>, from: nat)
    requires m != [] && from <= |buf|
    ensures var rel := FindSubslice(buf[from..], m);
            FindFrom(buf, m, from) == if rel.Some? then Some(from + rel.value) else None
  {
    hide FindFrom, FindSubslice;
    var tail := buf[from..];
    var rel := FindSubslice(tail, m);
    var abs := FindFrom(buf, m, from);
    if abs.Some? {
      TailOccurs(buf, m, from, abs.value - from);
    }
    if rel.Some? {
      TailOccurs(buf, m, from, rel.value);
    }
  }
}
