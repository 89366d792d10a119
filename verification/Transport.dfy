/**
 * A raw-mode command over the bastion: skip to the begin marker, forward or decode the
 * payload, stop at the end sentinel, keep what follows.
 */
module Transport {
  import opened Bytes
  import opened Sentinel
  import Scanner
  import Base64

  // ---------------------------------------------------------------------------
  // Phase 1: waiting for a marker in a trimmed buffer
  // ---------------------------------------------------------------------------

  datatype Found = Found(after: seq<byte>, unread: seq<seq<byte>>)

  /** Reference: search everything read so far after every chunk, forgetting nothing. */
  function SearchWhole(seen: seq<byte>, chunks: seq<seq<byte>>, m: seq<byte>): (r: Option<Found>)
    decreases |chunks|
  {
    var pos := FindSubslice(seen, m);
    if pos.Some? then Some(Found(seen[pos.value + |m|..], chunks))
    else if chunks == [] then None
    else SearchWhole(seen + chunks[0], chunks[1..], m)
  }

  /** The bytes of `seen` that can still matter: `buf` may be cut to its last `2 * |m|` bytes. */
  ghost predicate IsTrimmed(buf: seq<byte>, seen: seq<byte>, m: seq<byte>) {
    && |buf| <= |seen| && buf == seen[|seen| - |buf|..]
    && (buf == seen || |buf| >= 2 * |m|)
  }

  /** Trimming never loses an occurrence and never moves the bytes after it. */
  lemma TrimmedSearch(buf: seq<byte>, seen: seq<byte>, chunk: seq<byte>, m: seq<byte>)
    requires IsTrimmed(buf, seen, m) && FindSubslice(seen, m).None?
    ensures IsTrimmed(buf + chunk, seen + chunk, m)
    ensures var whole, trimmed := FindSubslice(seen + chunk, m), FindSubslice(buf + chunk, m);
            && whole.Some? == trimmed.Some?
            && (whole.Some? ==> (seen + chunk)[whole.value + |m|..] == (buf + chunk)[trimmed.value + |m|..])
  {
    hide FindSubslice;
    var d := |seen| - |buf|;
    var big, small := seen + chunk, buf + chunk;
    assert small == big[d..];
    var whole, trimmed := FindSubslice(big, m), FindSubslice(small, m);
    if trimmed.Some? {
      TailOccurs(big, m, d, trimmed.value);
    }
    if whole.Some? {
      NewOccurrenceIsLate(seen, chunk, m, whole.value);
      TailOccurs(big, m, d, whole.value - d);
    }
    if trimmed.Some? && whole.Some? {
      assert whole.value == d + trimmed.value;
    }
  }

  lemma NewOccurrenceIsLate(seen: seq<byte>, chunk: seq<byte>, m: seq<byte>, q: nat)
    requires m != [] && FindSubslice(seen, m).None? && OccursAt(seen + chunk, m, q)
    ensures q + |m| > |seen|
  {
    hide FindSubslice;
    PrefixOccurs(seen, chunk, m, q);
  }

  lemma PrefixOccurs(a: seq<byte>, b: seq<byte>, m: seq<byte>, q: nat)
    requires q + |m| <= |a| || OccursAt(a + b, m, q)
    ensures q + |m| <= |a| ==> (OccursAt(a, m, q) <==> OccursAt(a + b, m, q))
  {
    if q + |m| <= |a| {
      assert (a + b)[q..q + |m|] == a[q..q + |m|];
    }
  }

  lemma TrimStart(m: seq<byte>)
    ensures IsTrimmed([], [], m) && FindSubslice([], m).None?
  {
  }

  lemma TrimKeeps(buf: seq<byte>, seen: seq<byte>, m: seq<byte>)
    requires IsTrimmed(buf, seen, m) && |buf| >= 2 * |m|
    ensures IsTrimmed(buf[|buf| - |m| * 2..], seen, m)
  {
    var cut := buf[|buf| - |m| * 2..];
    var k := |seen| - |cut|;
    assert cut == seen[k..];
  }

  /**
   * Reads chunks until the marker appears. `limit` is the buffer length, in marker lengths, past
   * which the buffer is cut to two: 2 for the begin marker, 4 for the upload's ready marker.
   * None stands for a channel that closes first.
   */
  method WaitForMarker(chunks: seq<seq<byte>>, m: seq<byte>, limit: nat) returns (r: Option<Found>)
    requires limit == 2 || limit == 4
    ensures r == SearchWhole([], chunks, m)
  {
    hide FindSubslice, IsTrimmed, OccursAt;
    TrimStart(m);
    var buf: seq<byte> := [];
    ghost var seen: seq<byte> := [];
    assert chunks[0..] == chunks;
    for i := 0 to |chunks|
      invariant IsTrimmed(buf, seen, m) && FindSubslice(seen, m).None?
      invariant SearchWhole([], chunks, m) == SearchWhole(seen, chunks[i..], m)
    {
      TrimmedSearch(buf, seen, chunks[i], m);
      seen := seen + chunks[i];
      buf := buf + chunks[i];
      assert chunks[i..][1..] == chunks[i + 1..];
      var pos := FindSubslice(buf, m);
      if pos.Some? {
        OccursInBounds(buf, m, pos.value);
        return Some(Found(buf[pos.value + |m|..], chunks[i + 1..]));
      }
      if |buf| > |m| * limit {
        assert |m| * limit >= |m| * 2;
        TrimKeeps(buf, seen, m);
        buf := buf[|buf| - |m| * 2..];
      }
    }
    r := None;
  }

  /** The wait stops at the first occurrence in the stream and keeps exactly the bytes after it. */
  lemma {:induction false} WaitKeepsTheRest(seen: seq<byte>, chunks: seq<seq<byte>>, m: seq<byte>)
    ensures var s := seen + Flatten(chunks);
            var pos := FindSubslice(s, m);
            var r := SearchWhole(seen, chunks, m);
            && r.Some? == pos.Some?
            && (r.Some? ==> r.value.after + Flatten(r.value.unread) == s[pos.value + |m|..])
    decreases |chunks|
  {
    hide FindSubslice;
    var s := seen + Flatten(chunks);
    var here := FindSubslice(seen, m);
    if here.Some? {
      FoundInPrefix(seen, Flatten(chunks), m);
    } else if chunks == [] {
      assert s == seen;
    } else {
      WaitKeepsTheRest(seen + chunks[0], chunks[1..], m);
      assert seen + chunks[0] + Flatten(chunks[1..]) == s;
    }
  }

  lemma FoundInPrefix(a: seq<byte>, b: seq<byte>, m: seq<byte>)
    requires FindSubslice(a, m).Some?
    ensures FindSubslice(a + b, m) == FindSubslice(a, m)
    ensures a[FindSubslice(a, m).value + |m|..] + b == (a + b)[FindSubslice(a, m).value + |m|..]
  {
    hide FindSubslice;
    var i := FindSubslice(a, m).value;
    var s := a + b;
    PrefixOccurs(a, b, m, i);
    var j := FindSubslice(s, m).value;
    PrefixOccurs(a, b, m, j);
  }

  // ---------------------------------------------------------------------------
  // Phase 2: payload and end sentinel
  // ---------------------------------------------------------------------------

  datatype Payload = Plain | Encoded(decodeLen: nat)

  datatype Raw =
    | Closed
    | Failed(error: Base64.DecodeError)
    | Done(code: int, output: seq<byte>, pending: seq<byte>, unread: seq<seq<byte>>)

  /** How many chunks the scanner takes before it stops. */
  function Consumed(m: seq<byte>, st: Scanner.Scan, chunks: seq<seq<byte>>): (k: nat)
    ensures k <= |chunks|
    decreases |chunks|
  {
    if st.done || chunks == [] then 0
    else 1 + Consumed(m, Scanner.Fed(m, st, chunks[0]).0, chunks[1..])
  }

  /** What feeding `chunks` amounts to: the scanner's run, and the decoder's reading of the bytes it took. */
  function PayloadRun(end: seq<byte>, payload: Payload, chunks: seq<seq<byte>>): (r: Raw) {
    var o := Scanner.ScanAll(end, Scanner.FRESH, chunks);
    match payload
    case Plain =>
      if o.final.done then Done(o.final.code, o.forwarded, o.final.leftover, o.unread) else Closed
    case Encoded(n) =>
      var d := Base64.DecodeAll(n, Base64.FRESH, Flatten(chunks[..Consumed(end, Scanner.FRESH, chunks)]));
      if d.Err? then Failed(d.error)
      else if !o.final.done then Closed
      else if d.value.0.decoded != n then Failed(Base64.LengthMismatch)
      else Done(o.final.code, d.value.1, o.final.leftover, o.unread)
  }

  /** Mid-run: after `i` chunks the scanner is in state `sc` and has forwarded `fwd`. */
  ghost predicate ScanMid(m: seq<byte>, chunks: seq<seq<byte>>, i: nat, sc: Scanner.Scan, fwd: seq<byte>) {
    && i <= |chunks|
    && var rest := Scanner.ScanAll(m, sc, chunks[i..]);
    && Scanner.ScanAll(m, Scanner.FRESH, chunks) == rest.(forwarded := fwd + rest.forwarded)
    && Consumed(m, Scanner.FRESH, chunks) == i + Consumed(m, sc, chunks[i..])
  }

  lemma ScanMidStart(m: seq<byte>, chunks: seq<seq<byte>>)
    ensures ScanMid(m, chunks, 0, Scanner.FRESH, [])
  {
    assert chunks[0..] == chunks;
    var o := Scanner.ScanAll(m, Scanner.FRESH, chunks);
    assert [] + o.forwarded == o.forwarded;
  }

  lemma ScanMidStep(m: seq<byte>, chunks: seq<seq<byte>>, i: nat, sc: Scanner.Scan, fwd: seq<byte>)
    requires i < |chunks| && !sc.done && ScanMid(m, chunks, i, sc, fwd)
    ensures var (next, out) := Scanner.Fed(m, sc, chunks[i]); ScanMid(m, chunks, i + 1, next, fwd + out)
  {
    hide Scanner.Fed;
    var (next, out) := Scanner.Fed(m, sc, chunks[i]);
    assert chunks[i..][0] == chunks[i] && chunks[i..][1..] == chunks[i + 1..];
    var rest := Scanner.ScanAll(m, next, chunks[i + 1..]);
    assert fwd + (out + rest.forwarded) == fwd + out + rest.forwarded;
  }

  lemma ScanMidStop(m: seq<byte>, chunks: seq<seq<byte>>, i: nat, sc: Scanner.Scan, fwd: seq<byte>)
    requires ScanMid(m, chunks, i, sc, fwd) && (sc.done || i == |chunks|)
    ensures Scanner.ScanAll(m, Scanner.FRESH, chunks) == Scanner.Outcome(fwd, sc, chunks[i..])
    ensures Consumed(m, Scanner.FRESH, chunks) == i
  {
    assert fwd + [] == fwd;
  }

  /** A decoding error in the first `i` consumed chunks is the error of the whole run. */
  lemma EarlyErrorStands(n: nat, chunks: seq<seq<byte>>, i: nat, k: nat)
    requires i <= k <= |chunks| && Base64.DecodeAll(n, Base64.FRESH, Flatten(chunks[..i])).Err?
    ensures Base64.DecodeAll(n, Base64.FRESH, Flatten(chunks[..k])) == Base64.DecodeAll(n, Base64.FRESH, Flatten(chunks[..i]))
  {
    FlattenSplit(chunks[..k], i);
    assert chunks[..k][..i] == chunks[..i];
    Base64.DecodeConcat(n, Base64.FRESH, Flatten(chunks[..i]), Flatten(chunks[..k][i..]));
  }

  lemma DecodeNext(n: nat, chunks: seq<seq<byte>>, i: nat)
    requires i < |chunks| && Base64.DecodeAll(n, Base64.FRESH, Flatten(chunks[..i])).Ok?
    ensures var head := Base64.DecodeAll(n, Base64.FRESH, Flatten(chunks[..i])).value;
            var next := Base64.DecodeAll(n, head.0, chunks[i]);
            Base64.DecodeAll(n, Base64.FRESH, Flatten(chunks[..i + 1])) ==
            if next.Err? then next else Base64.Ok((next.value.0, head.1 + next.value.1))
  {
    FlattenPrefixStep(chunks, i);
    Base64.DecodeConcat(n, Base64.FRESH, Flatten(chunks[..i]), chunks[i]);
  }

  /** The run ended at the sentinel at `p` of the stream `s`: its code, and every byte after it is kept. */
  ghost predicate EndsAt(r: Raw, s: seq<byte>, end: seq<byte>, p: int) {
    && r.Done? && SentinelAt(s, end, p) && r.code == SentinelCode(s, end, p)
    && r.pending + Flatten(r.unread) == s[SentinelEnd(s, end, p)..]
  }

  ghost predicate HasSentinel(s: seq<byte>, end: seq<byte>) {
    exists p :: SentinelAt(s, end, p)
  }

  /** What a finished scan is for the stream it came from. */
  lemma ScanEnds(end: seq<byte>, chunks: seq<seq<byte>>, output: seq<byte>)
    ensures var s, o := Flatten(chunks), Scanner.ScanAll(end, Scanner.FRESH, chunks);
            && (o.final.done ==>
                  && |o.forwarded| <= |s| && o.forwarded == s[..|o.forwarded|]
                  && EndsAt(Done(o.final.code, output, o.final.leftover, o.unread), s, end, |o.forwarded|))
            && (!HasSentinel(s, end) ==> !o.final.done)
            && (forall p: nat :: FirstSentinelAt(s, end, p) && !Overlapped(s, end, p) ==>
                  o.final.done && |o.forwarded| == p)
  {
    hide SentinelAt, SentinelEnd, SentinelCode, Scanner.ScanAll, Overlapped, FirstSentinelAt;
    var s, o := Flatten(chunks), Scanner.ScanAll(end, Scanner.FRESH, chunks);
    assert s[0..] == s && s[..0] == [];
    Scanner.RunIsSound(end, Scanner.FRESH, s, 0, 0, chunks);
    assert [] + o.forwarded == o.forwarded;
    forall p: nat | FirstSentinelAt(s, end, p) && !Overlapped(s, end, p)
      ensures o.final.done && |o.forwarded| == p
    {
      FirstIsSentinel(s, end, p);
      Scanner.StreamingFindsFirst(end, s, chunks, p);
    }
  }

  lemma FirstIsSentinel(s: seq<byte>, end: seq<byte>, p: nat)
    requires FirstSentinelAt(s, end, p)
    ensures SentinelAt(s, end, p)
  {
  }

  /**
   * Plain mode: the scanner is the payload source.  A finished run stops at a sentinel of the stream,
   * with what precedes it as output; a stream without one only ever ends by the channel closing.
   */
  method RunPlain(end: seq<byte>, chunks: seq<seq<byte>>) returns (r: Raw)
    ensures r == PayloadRun(end, Plain, chunks)
    ensures !r.Failed?
    ensures r.Done? ==> |r.output| <= |Flatten(chunks)| && r.output == Flatten(chunks)[..|r.output|]
                        && EndsAt(r, Flatten(chunks), end, |r.output|)
    ensures !HasSentinel(Flatten(chunks), end) ==> r.Closed?
    ensures forall p: nat :: FirstSentinelAt(Flatten(chunks), end, p) && !Overlapped(Flatten(chunks), end, p) ==>
              r.Done? && |r.output| == p
  {
    hide Scanner.Fed, Scanner.ScanAll, ScanMid, Consumed, EndsAt, HasSentinel, FirstSentinelAt, Overlapped, Flatten;
    ScanEnds(end, chunks, Scanner.ScanAll(end, Scanner.FRESH, chunks).forwarded);
    var scanner := new Scanner.SentinelScanner(end);
    var sent: seq<byte> := [];
    ScanMidStart(end, chunks);
    for i := 0 to |chunks|
      invariant scanner.marker == end && !scanner.done
      invariant ScanMid(end, chunks, i, scanner.State(), sent)
    {
      ScanMidStep(end, chunks, i, scanner.State(), sent);
      var forward, done := scanner.Feed(chunks[i]);
      sent := sent + forward;
      if done {
        ScanMidStop(end, chunks, i + 1, scanner.State(), sent);
        var leftover := scanner.TakeLeftover();
        return Done(scanner.exitCode, sent, leftover, chunks[i + 1..]);
      }
    }
    ScanMidStop(end, chunks, |chunks|, scanner.State(), sent);
    r := Closed;
  }

  /** The decoder took the first `k` chunks without an error and made `output` of them. */
  ghost predicate DecodedFrom(n: nat, chunks: seq<seq<byte>>, k: int, output: seq<byte>) {
    && 0 <= k <= |chunks|
    && var d := Base64.DecodeAll(n, Base64.FRESH, Flatten(chunks[..k]));
    d.Ok? && d.value.1 == output
  }

  /**
   * Base64 mode: each chunk goes to the decoder first, then to the scanner, whose output is dropped.
   * A finished run stops at a sentinel and has decoded, from the chunks it took, exactly `n` bytes.
   */
  method RunEncoded(end: seq<byte>, n: nat, chunks: seq<seq<byte>>) returns (r: Raw)
    ensures r == PayloadRun(end, Encoded(n), chunks)
    ensures r.Done? ==> |r.output| == n && exists p :: EndsAt(r, Flatten(chunks), end, p)
    ensures r.Done? ==> |r.unread| <= |chunks| && r.unread == chunks[|chunks| - |r.unread|..]
                        && DecodedFrom(n, chunks, |chunks| - |r.unread|, r.output)
    ensures !HasSentinel(Flatten(chunks), end) ==>
              r == match Base64.DecodeAll(n, Base64.FRESH, Flatten(chunks)) case Ok(_) => Closed case Err(e) => Failed(e)
  {
    EncodedEnds(end, n, chunks);
    hide Scanner.Fed, Scanner.ScanAll, ScanMid, Consumed, Base64.DecodeAll, Flatten, EndsAt, HasSentinel, DecodedFrom;
    var scanner := new Scanner.SentinelScanner(end);
    var decoder := new Base64.B64Decoder(n);
    var sent: seq<byte> := [];
    ghost var dropped: seq<byte> := [];
    ScanMidStart(end, chunks);
    DecodeStart(n, chunks);
    for i := 0 to |chunks|
      invariant scanner.marker == end && !scanner.done && decoder.Valid() && decoder.expected == n
      invariant fresh(decoder) && fresh(decoder.quad) && fresh(scanner)
      invariant ScanMid(end, chunks, i, scanner.State(), dropped)
      invariant Base64.DecodeAll(n, Base64.FRESH, Flatten(chunks[..i])) == Base64.Ok((decoder.State(), sent))
    {
      DecodeNext(n, chunks, i);
      ScanMidStep(end, chunks, i, scanner.State(), dropped);
      var decoded := decoder.Feed(chunks[i]);
      if decoded.Err? {
        TookMore(end, chunks, i + 1, Scanner.Fed(end, scanner.State(), chunks[i]).0,
                 dropped + Scanner.Fed(end, scanner.State(), chunks[i]).1);
        EarlyErrorStands(n, chunks, i + 1, Consumed(end, Scanner.FRESH, chunks));
        return Failed(decoded.error);
      }
      sent := sent + decoded.value;
      var forward, done := scanner.Feed(chunks[i]);
      dropped := dropped + forward;
      if done {
        ScanMidStop(end, chunks, i + 1, scanner.State(), dropped);
        var leftover := scanner.TakeLeftover();
        var finish := decoder.Finish();
        if finish.Err? {
          return Failed(finish.error);
        }
        return Done(scanner.exitCode, sent, leftover, chunks[i + 1..]);
      }
    }
    ScanMidStop(end, chunks, |chunks|, scanner.State(), dropped);
    r := Closed;
  }

  lemma EncodedEnds(end: seq<byte>, n: nat, chunks: seq<seq<byte>>)
    ensures var r := PayloadRun(end, Encoded(n), chunks);
            && (r.Done? ==>
                  && |r.output| == n && (exists p :: EndsAt(r, Flatten(chunks), end, p))
                  && |r.unread| <= |chunks| && r.unread == chunks[|chunks| - |r.unread|..]
                  && DecodedFrom(n, chunks, |chunks| - |r.unread|, r.output))
            && (!HasSentinel(Flatten(chunks), end) ==>
                  r == match Base64.DecodeAll(n, Base64.FRESH, Flatten(chunks)) case Ok(_) => Closed case Err(e) => Failed(e))
  {
    hide Scanner.ScanAll, Consumed, Base64.DecodeAll, Flatten, EndsAt, HasSentinel;
    var r, o := PayloadRun(end, Encoded(n), chunks), Scanner.ScanAll(end, Scanner.FRESH, chunks);
    var k := Consumed(end, Scanner.FRESH, chunks);
    UnreadIsTheRest(end, Scanner.FRESH, chunks);
    if r.Done? {
      ScanEnds(end, chunks, r.output);
      assert EndsAt(r, Flatten(chunks), end, |o.forwarded|);
    }
    if !HasSentinel(Flatten(chunks), end) {
      ScanEnds(end, chunks, []);
      UndoneTakesAll(end, Scanner.FRESH, chunks);
      assert chunks[..|chunks|] == chunks;
    }
  }

  lemma {:induction false} UndoneTakesAll(m: seq<byte>, st: Scanner.Scan, chunks: seq<seq<byte>>)
    requires !Scanner.ScanAll(m, st, chunks).final.done
    ensures Consumed(m, st, chunks) == |chunks|
    decreases |chunks|
  {
    hide Scanner.Fed;
    if chunks != [] && !st.done {
      UndoneTakesAll(m, Scanner.Fed(m, st, chunks[0]).0, chunks[1..]);
    }
  }

  lemma TookMore(m: seq<byte>, chunks: seq<seq<byte>>, i: nat, sc: Scanner.Scan, fwd: seq<byte>)
    requires ScanMid(m, chunks, i, sc, fwd)
    ensures i <= Consumed(m, Scanner.FRESH, chunks)
  {
  }

  lemma DecodeStart(n: nat, chunks: seq<seq<byte>>)
    ensures Base64.DecodeAll(n, Base64.FRESH, Flatten(chunks[..0])) == Base64.Ok((Base64.FRESH, []))
  {
    assert chunks[..0] == [];
  }

  // ---------------------------------------------------------------------------
  // The whole exchange
  // ---------------------------------------------------------------------------

  /** What `printf '%s'` writes for a non-negative exit status. */
  function Digits(n: nat): (d: seq<byte>) {
    if n < 10 then [48 + n] else Digits(n / 10) + [48 + n % 10]
  }

  lemma {:induction false} DigitsRead(n: nat)
    ensures Digits(n) != [] && AllDigits(Digits(n)) && Decimal(Digits(n)) == n
  {
    if n < 10 {
      assert Decimal([]) == 0;
    } else {
      DigitsRead(n / 10);
      var d := Digits(n);
      assert d[..|d| - 1] == Digits(n / 10);
    }
  }

  lemma {:induction false} UnreadIsTheRest(m: seq<byte>, st: Scanner.Scan, chunks: seq<seq<byte>>)
    ensures Scanner.ScanAll(m, st, chunks).unread == chunks[Consumed(m, st, chunks)..]
    decreases |chunks|
  {
    hide Scanner.Fed;
    if !st.done && chunks != [] {
      UnreadIsTheRest(m, Scanner.Fed(m, st, chunks[0]).0, chunks[1..]);
    }
  }

  /** A marker that starts with `_` cannot begin inside base64 text, so the sentinel after it is the first. */
  lemma FirstAfterWire(w: seq<byte>, end: seq<byte>, t: seq<byte>, d: seq<byte>, rest: seq<byte>)
    requires UNDERSCORE !in w && end != [] && end[0] == UNDERSCORE && IsTail(t, d)
    ensures var s := w + end + t + rest;
            && FirstSentinelAt(s, end, |w|) && !Overlapped(s, end, |w|)
            && SentinelEnd(s, end, |w|) == |w| + |end| + |t| && SentinelCode(s, end, |w|) == ParseI32(d)
  {
    hide LookaheadOf, IsTail;
    var s := w + end + t + rest;
    SentinelMeaning(s, end, w, t, d, rest);
    forall q | q < |w|
      ensures !OccursAt(s, end, q)
    {
      if 0 <= q && q + |end| <= |s| {
        assert s[q..q + |end|][0] == w[q];
      }
    }
  }

  /**
   * For every payload, exit code and chunking: when the wire is cut short after `k` bytes (or not
   * at all), the run reports a length mismatch or delivers exactly the payload, the code and the
   * bytes after the sentinel; never anything else.
   */
  lemma EncodedTransfer(end: seq<byte>, w: seq<byte>, data: seq<byte>, k: nat, code: nat, t: seq<byte>,
                        trailing: seq<byte>, chunks: seq<seq<byte>>)
    requires end != [] && end[0] == UNDERSCORE && Base64.IsWireOf(w, data) && k <= |w|
    requires code <= 2147483647 && IsTail(t, Digits(code))
    requires Flatten(chunks) == w[..k] + end + t + trailing
    ensures var r := PayloadRun(end, Encoded(|data|), chunks);
            || (k < |w| && r == Failed(Base64.LengthMismatch))
            || (r.Done? && r.code == code && r.output == data && r.pending + Flatten(r.unread) == trailing)
  {
    hide IsTail, Base64.IsWireOf, Base64.DecodeAll, Scanner.ScanAll, SentinelAt, Consumed, Digits;
    var cut := w[..k];
    var s := Flatten(chunks);
    WireHasNoUnderscore(w, data);
    FirstAfterWire(cut, end, t, Digits(code), trailing);
    DigitsRead(code);
    Scanner.StreamingFindsFirst(end, s, chunks, k);
    var o := Scanner.ScanAll(end, Scanner.FRESH, chunks);
    assert s[SentinelEnd(s, end, k)..] == trailing;
    var c := Consumed(end, Scanner.FRESH, chunks);
    UnreadIsTheRest(end, Scanner.FRESH, chunks);
    FlattenSplit(chunks, c);
    var fed := Flatten(chunks[..c]);
    assert |fed| >= k + |end|;
    var text := fed[k..];
    assert text[0] == s[k] == UNDERSCORE;
    assert fed[..k] == s[..k] == cut;
    assert fed == cut + text;
    Base64.TruncatedWireIsSafe(w, data, k, text);
    if k == |w| {
      assert cut == w;
      Base64.WireThenTextDecodes(w, data, text);
    }
  }

  lemma WireHasNoUnderscore(w: seq<byte>, data: seq<byte>)
    requires Base64.IsWireOf(w, data)
    ensures UNDERSCORE !in w
  {
    Base64.WireChars(w, data);
  }

  /** What the stream holds after the first begin marker, if there is one. */
  function AfterBegin(s: seq<byte>, begin: seq<byte>): (r: Option<seq<byte>>) {
    var pos := FindSubslice(s, begin);
    if pos.Some? then Some(s[pos.value + |begin|..]) else None
  }

  /**
   * Skip to the begin marker, then run the payload phase on what follows it.  A finished run stops at a
   * sentinel after the begin marker; without one, or without a begin marker, there is no exit code.
   */
  method RunCommandRaw(begin: seq<byte>, end: seq<byte>, payload: Payload, chunks: seq<seq<byte>>) returns (r: Raw)
    ensures r == var found := SearchWhole([], chunks, begin);
                 if found.None? then Closed
                 else PayloadRun(end, payload, Remaining(found.value))
    ensures var body := AfterBegin(Flatten(chunks), begin);
            && (body.None? ==> r.Closed?)
            && (r.Done? ==> body.Some? && exists p :: EndsAt(r, body.value, end, p)
                                                      && (payload.Plain? ==> r.output == body.value[..p])
                                                      && (payload.Encoded? ==> |r.output| == payload.decodeLen))
            && (body.Some? && !HasSentinel(body.value, end) ==> !r.Done? && (payload.Plain? ==> r.Closed?))
  {
    hide Flatten, EndsAt, HasSentinel, FindSubslice, PayloadRun;
    var found := WaitForMarker(chunks, begin, 2);
    WaitKeepsTheRest([], chunks, begin);
    assert [] + Flatten(chunks) == Flatten(chunks);
    if found.None? {
      return Closed;
    }
    RemainingStream(found.value);
    if payload.Plain? {
      r := RunPlain(end, Remaining(found.value));
    } else {
      r := RunEncoded(end, payload.decodeLen, Remaining(found.value));
    }
  }

  /** Bytes already buffered after the begin marker are fed first, if there are any. */
  function Remaining(found: Found): (chunks: seq<seq<byte>>) {
    (if found.after == [] then [] else [found.after]) + found.unread
  }

  lemma RemainingStream(found: Found)
    ensures Flatten(Remaining(found)) == found.after + Flatten(found.unread)
  {
    var head: seq<seq<byte>> := if found.after == [] then [] else [found.after];
    FlattenConcat(head, found.unread);
    assert Flatten([found.after]) == found.after;
  }

  /**
   * End to end: noise, begin marker, a 76-column base64 body with LF or CRLF line ends, end
   * sentinel and trailing bytes, cut into any chunks, deliver the body's bytes and the exit code.
   */
  lemma EncodedCommandIsExact(begin: seq<byte>, end: seq<byte>, noise: seq<byte>, data: seq<byte>, crlf: bool,
                              code: nat, t: seq<byte>, trailing: seq<byte>, chunks: seq<seq<byte>>)
    requires begin != [] && end != [] && end[0] == UNDERSCORE
    requires code <= 2147483647 && IsTail(t, Digits(code))
    requires var w := if crlf then Base64.Onlcr(Base64.Wire(data)) else Base64.Wire(data);
             && Flatten(chunks) == noise + begin + (w + end + t + trailing)
             && FindSubslice(Flatten(chunks), begin) == Some(|noise|)
    ensures var found := SearchWhole([], chunks, begin);
            && found.Some?
            && var r := PayloadRun(end, Encoded(|data|), Remaining(found.value));
            && r.Done? && r.code == code && r.output == data && r.pending + Flatten(r.unread) == trailing
  {
    hide IsTail, Base64.Wire, Base64.Onlcr, FindSubslice, PayloadRun, Digits;
    var wire := Base64.Wire(data);
    var w := if crlf then Base64.Onlcr(wire) else wire;
    Base64.WireIsWire(data);
    Base64.OnlcrKeepsWire(wire);
    WaitKeepsTheRest([], chunks, begin);
    assert [] + Flatten(chunks) == Flatten(chunks);
    var found := SearchWhole([], chunks, begin);
    RemainingStream(found.value);
    assert w[..|w|] == w;
    assert Flatten(Remaining(found.value)) == w[..|w|] + end + t + trailing;
    EncodedTransfer(end, w, data, |w|, code, t, trailing, Remaining(found.value));
  }

  /**
   * End to end in plain mode: noise, begin marker and a body whose first sentinel no earlier marker
   * overlaps, cut into any chunks, deliver what precedes the sentinel, its code and what follows it.
   */
  lemma PlainCommandIsExact(begin: seq<byte>, end: seq<byte>, noise: seq<byte>, body: seq<byte>, p: nat,
                            chunks: seq<seq<byte>>)
    requires begin != [] && Flatten(chunks) == noise + begin + body
    requires FindSubslice(Flatten(chunks), begin) == Some(|noise|)
    requires FirstSentinelAt(body, end, p) && !Overlapped(body, end, p)
    ensures var found := SearchWhole([], chunks, begin);
            && found.Some?
            && var r := PayloadRun(end, Plain, Remaining(found.value));
            && r.Done? && r.code == SentinelCode(body, end, p) && r.output == body[..p]
            && r.pending + Flatten(r.unread) == body[SentinelEnd(body, end, p)..]
  {
    hide FindSubslice, SentinelAt, SentinelEnd, SentinelCode, Overlapped, Scanner.ScanAll;
    WaitKeepsTheRest([], chunks, begin);
    assert [] + Flatten(chunks) == Flatten(chunks);
    var found := SearchWhole([], chunks, begin);
    RemainingStream(found.value);
    assert Flatten(Remaining(found.value)) == body;
    Scanner.StreamingFindsFirst(end, body, Remaining(found.value), p);
  }
}
