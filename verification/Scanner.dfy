/**
 * The streaming scanner over every chunking of a stream: what it conserves, how little it
 * delays, and exactly when its answer does not depend on where the stream is cut.
 */
module Scanner {
  import opened Bytes
  import opened Sentinel

  datatype Scan = Scan(hold: seq<byte>, leftover: seq<byte>, done: bool, code: int)

  const FRESH: Scan := Scan([], [], false, 0)

  /** One `feed`: the next state and the bytes it forwards. */
  function Fed(m: seq<byte>, st: Scan, chunk: seq<byte>): (r: (Scan, seq<byte>)) {
    if st.done then (st, [])
    else
      var buf := st.hold + chunk;
      match FindSentinelOf(buf, m)
      case Hit(pos, code, end) => (Scan([], buf[end..], true, code), buf[..pos])
      case Partial(pos) => (st.(hold := buf[pos..]), buf[..pos])
      case Nothing =>
        var safe := |buf| - PartialSuffixMatch(buf, m);
        (st.(hold := buf[safe..]), buf[..safe])
  }

  class SentinelScanner {
    const marker: seq<byte>
    var hold: seq<byte>
    var leftover: seq<byte>
    var done: bool
    var exitCode: int

    ghost function State(): (st: Scan)
      reads this
    {
      Scan(hold, leftover, done, exitCode)
    }

    constructor (marker: seq<byte>)
      ensures this.marker == marker && State() == FRESH
    {
      this.marker := marker;
      hold, leftover, done, exitCode := [], [], false, 0;
    }

    method Feed(chunk: seq<byte>) returns (forward: seq<byte>, finished: bool)
      modifies this
      ensures (State(), forward) == Fed(marker, old(State()), chunk)
      ensures finished == done
      ensures old(done) ==> forward == [] && State() == old(State())
    {
      if done {
        return [], true;
      }
      hold := hold + chunk;
      var found := FindSentinel(hold, marker);
      match found {
        case Hit(pos, code, end) =>
          forward := hold[..pos];
          leftover := hold[end..];
          hold := [];
          exitCode := code;
          done := true;
        case Partial(pos) =>
          forward := hold[..pos];
          hold := hold[pos..];
        case Nothing =>
          var pm := PartialSuffixMatch(hold, marker);
          var safe := |hold| - pm;
          forward := hold[..safe];
          hold := hold[safe..];
      }
      finished := done;
    }

    method TakeLeftover() returns (bytes: seq<byte>)
      modifies this
      ensures bytes == old(leftover)
      ensures State() == old(State()).(leftover := [])
    {
      bytes := leftover;
      leftover := [];
    }
  }

  // ---------------------------------------------------------------------------
  // Conservation and minimal hold-back (no hypothesis on the stream)
  // ---------------------------------------------------------------------------

  /** A complete sentinel text for marker `m`. */
  ghost predicate IsSentinelText(m: seq<byte>, text: seq<byte>) {
    exists t, d :: IsTail(t, d) && text == m + t
  }

  /** `bytes` could still grow into a sentinel. */
  ghost predicate CouldBecomeSentinel(m: seq<byte>, bytes: seq<byte>) {
    exists text :: IsSentinelText(m, text) && bytes < text
  }

  /** Everything taken in is forwarded, held, or (at the match) the sentinel and the leftover. */
  lemma FeedConserves(m: seq<byte>, st: Scan, chunk: seq<byte>)
    requires !st.done
    ensures var (next, out) := Fed(m, st, chunk);
            && (!next.done ==> out + next.hold == st.hold + chunk)
            && (next.done ==> next.hold == []
                              && exists text :: IsSentinelText(m, text) && out + text + next.leftover == st.hold + chunk)
  {
    hide LookaheadOf, FindSentinelFrom, PartialSuffixMatch, IsSentinelText;
    var buf := st.hold + chunk;
    var r := FindSentinelOf(buf, m);
    if r.Hit? {
      FindSentinelFacts(buf, m, 0);
      HitText(buf, m, r.pos);
      var text := buf[r.pos..r.end];
      assert buf[..r.pos] + text + buf[r.end..] == buf;
    }
  }

  lemma HitText(s: seq<byte>, m: seq<byte>, p: nat)
    requires SentinelAt(s, m, p)
    ensures IsSentinelText(m, s[p..SentinelEnd(s, m, p)])
  {
    hide LookaheadOf;
    var after := s[p + |m|..];
    var n := LookaheadOf(after).consumed;
    var d := ConfirmedIsTail(after);
    assert s[p..p + |m| + n] == m + after[..n];
  }

  /** The held bytes are always a proper prefix of some sentinel, so nothing else is delayed. */
  lemma HoldIsMinimal(m: seq<byte>, st: Scan, chunk: seq<byte>)
    requires !st.done
    ensures !Fed(m, st, chunk).0.done ==> CouldBecomeSentinel(m, Fed(m, st, chunk).0.hold)
  {
    hide LookaheadOf, FindSentinelFrom, PartialSuffixMatch;
    var buf := st.hold + chunk;
    match FindSentinelOf(buf, m)
    case Hit(_, _, _) =>
    case Partial(pos) =>
      FindSentinelFacts(buf, m, 0);
      var after := buf[pos + |m|..];
      IncompleteHasCompletion(after);
      var text := m + Completion(after);
      assert buf[pos..] == m + after;
      assert IsSentinelText(m, text);
    case Nothing =>
      var pm := PartialSuffixMatch(buf, m);
      var t := [COLON] + [48] + [LF];
      assert IsTail(t, [48]);
      assert IsSentinelText(m, m + t);
      assert m[..pm] < m + t;
  }

  // ---------------------------------------------------------------------------
  // Runs
  // ---------------------------------------------------------------------------

  datatype Outcome = Outcome(forwarded: seq<byte>, final: Scan, unread: seq<seq<byte>>)

  /** Feed chunks in order until the scanner is done. */
  function ScanAll(m: seq<byte>, st: Scan, chunks: seq<seq<byte>>): (o: Outcome)
    decreases |chunks|
  {
    if st.done || chunks == [] then Outcome([], st, chunks)
    else
      var (next, out) := Fed(m, st, chunks[0]);
      var rest := ScanAll(m, next, chunks[1..]);
      rest.(forwarded := out + rest.forwarded)
  }

  /** The run found the sentinel at `p`: bytes before it, its code, and every byte after it. */
  ghost predicate Finds(o: Outcome, s: seq<byte>, m: seq<byte>, p: nat)
    requires SentinelAt(s, m, p)
  {
    && o.final.done
    && o.forwarded == s[..p]
    && o.final.code == SentinelCode(s, m, p)
    && o.final.leftover + Flatten(o.unread) == s[SentinelEnd(s, m, p)..]
  }

  /** Occurrences and lookaheads in the window `s[h..c]` of a stream. */
  lemma WindowOccurs(s: seq<byte>, m: seq<byte>, h: nat, c: nat, j: nat)
    requires h <= c <= |s|
    ensures OccursAt(s[h..c], m, j) <==> OccursAt(s, m, h + j) && h + j + |m| <= c
    ensures OccursAt(s[h..c], m, j) ==>
              s[h..c][j + |m|..] == s[h + j + |m|..][..c - (h + j + |m|)]
  {
    if h + j + |m| <= c {
      SliceOfSlice(s, h, c, j, j + |m|);
      var k := h + j + |m|;
      var a, b := s[h..c][j + |m|..], s[k..][..c - k];
      assert forall i :: 0 <= i < c - k ==> a[i] == s[k + i] == b[i];
    }
  }

  lemma WindowSentinel(s: seq<byte>, m: seq<byte>, h: nat, c: nat, j: nat)
    requires h <= c <= |s| && SentinelAt(s[h..c], m, j)
    ensures SentinelAt(s, m, h + j)
    ensures SentinelEnd(s, m, h + j) == h + SentinelEnd(s[h..c], m, j)
    ensures SentinelCode(s, m, h + j) == SentinelCode(s[h..c], m, j)
  {
    WindowOccurs(s, m, h, c, j);
    LookaheadOfPrefix(s[h + j + |m|..], c - (h + j + |m|));
  }

  lemma WindowNotOverlapped(s: seq<byte>, m: seq<byte>, h: nat, c: nat, j: nat)
    requires h <= c <= |s| && !Overlapped(s, m, h + j)
    ensures !Overlapped(s[h..c], m, j)
  {
    hide OccursAt;
    if q :| q < j < q + |m| && OccursAt(s[h..c], m, q) {
      OccursInBounds(s[h..c], m, q);
      WindowOccurs(s, m, h, c, q);
    }
  }

  /** How the first sentinel looks from a window that starts at or before it. */
  lemma WindowSeesFirst(s: seq<byte>, m: seq<byte>, h: nat, c: nat, p: nat)
    requires h <= c <= |s| && FirstSentinelAt(s, m, p) && h <= p && p + |m| <= c
    requires !Overlapped(s, m, p)
    ensures var r := FindSentinelOf(s[h..c], m);
            if SentinelEnd(s, m, p) <= c then
              r == Hit(p - h, SentinelCode(s, m, p), SentinelEnd(s, m, p) - h)
            else
              r.Partial? && h + r.pos <= p
  {
    hide LookaheadOf, FindSentinelFrom;
    var buf := s[h..c];
    var j := p - h;
    WindowOccurs(s, m, h, c, j);
    LookaheadOfPrefix(s[p + |m|..], c - (p + |m|));
    WindowNotOverlapped(s, m, h, c, j);
    SearchStopsBy(buf, m, 0, j);
    FindSentinelFacts(buf, m, 0);
    var r := FindSentinelOf(buf, m);
    if r.Hit? {
      WindowSentinel(s, m, h, c, r.pos);
    } else if SentinelEnd(s, m, p) <= c {
      PartialBeforeHit(s, m, h, c, p, r.pos);
    }
  }

  /** In a window that holds the whole first sentinel, nothing earlier is incomplete. */
  lemma PartialBeforeHit(s: seq<byte>, m: seq<byte>, h: nat, c: nat, p: nat, j: nat)
    requires h <= c <= |s| && SentinelAt(s, m, p) && h <= p && SentinelEnd(s, m, p) <= c
    requires !Overlapped(s, m, p)
    requires OccursAt(s[h..c], m, j) && h + j <= p
    ensures !LookaheadOf(s[h..c][j + |m|..]).Incomplete?
  {
    WindowOccurs(s, m, h, c, j);
    var after := s[h..c][j + |m|..];
    LookaheadOfPrefix(s[p + |m|..], c - (p + |m|));
    WindowOccurs(s, m, h, c, p - h);
    if h + j < p && LookaheadOf(after).Incomplete? {
      // `after` reaches over the marker at `p` and on to the tail behind it: too long to be a
      // proper prefix of a tail, because the tail at `p` holds a second colon.
      var k := p + |m| - (h + j + |m|);
      assert after[k] == s[p + |m|] == COLON;
      IncompleteHasOneColon(after, k);
    }
  }

  lemma IncompleteHasOneColon(after: seq<byte>, k: nat)
    requires LookaheadOf(after).Incomplete? && 0 < k < |after|
    ensures after[k] != COLON
  {
    var i := DigitsEnd(after, 1);
  }

  /** A window that ends inside the marker at `p` never moves its start past `p`. */
  lemma WindowEndsInMarker(s: seq<byte>, m: seq<byte>, h: nat, c: nat, p: nat)
    requires h <= c <= |s| && FirstSentinelAt(s, m, p) && h <= p && c < p + |m|
    ensures var r := FindSentinelOf(s[h..c], m);
            && !r.Hit?
            && (r.Partial? ==> h + r.pos <= p)
            && (r.Nothing? ==> c - PartialSuffixMatch(s[h..c], m) <= p)
  {
    hide LookaheadOf, FindSentinelFrom, PartialSuffixMatch;
    var buf := s[h..c];
    FindSentinelFacts(buf, m, 0);
    var r := FindSentinelOf(buf, m);
    if r.Hit? {
      WindowSentinel(s, m, h, c, r.pos);
    } else if r.Nothing? && p < c {
      var k := c - p;
      SliceOfSlice(s, h, c, p - h, c - h);
      SliceOfSlice(s, p, p + |m|, 0, k);
      assert buf[|buf| - k..] == m[..k];
    }
  }

  /** The state of a scanner that has taken in `s[..c]`, forwarded `s[..h]` and holds the rest. */
  ghost predicate Tracks(st: Scan, s: seq<byte>, h: nat, c: nat) {
    !st.done && h <= c <= |s| && st.hold == s[h..c]
  }

  lemma FeedTowardsFirst(m: seq<byte>, st: Scan, s: seq<byte>, h: nat, c: nat, c': nat, p: nat)
    requires Tracks(st, s, h, c) && c <= c' <= |s|
    requires FirstSentinelAt(s, m, p) && h <= p && !Overlapped(s, m, p)
    ensures var (next, out) := Fed(m, st, s[c..c']);
            if SentinelEnd(s, m, p) <= c' then
              && next == Scan([], s[SentinelEnd(s, m, p)..c'], true, SentinelCode(s, m, p))
              && out == s[h..p]
            else
              && Tracks(next, s, h + |out|, c') && h + |out| <= p && out == s[h..h + |out|]
  {
    hide FindSentinelOf, PartialSuffixMatch, SentinelAt;
    var buf := st.hold + s[c..c'];
    assert buf == s[h..c'];
    var r := FindSentinelOf(buf, m);
    if p + |m| <= c' {
      WindowSeesFirst(s, m, h, c', p);
    } else {
      WindowEndsInMarker(s, m, h, c', p);
    }
    var cut := if r.Hit? || r.Partial? then r.pos else |buf| - PartialSuffixMatch(buf, m);
    SliceOfSlice(s, h, c', 0, cut);
    SliceOfSlice(s, h, c', cut, c' - h);
    if r.Hit? {
      SliceOfSlice(s, h, c', r.end, c' - h);
    }
  }

  lemma {:induction false} RunFindsFirst(m: seq<byte>, st: Scan, s: seq<byte>, h: nat, c: nat,
                                         chunks: seq<seq<byte>>, p: nat)
    requires Tracks(st, s, h, c) && Flatten(chunks) == s[c..]
    requires FirstSentinelAt(s, m, p) && h <= p && c < SentinelEnd(s, m, p) && !Overlapped(s, m, p)
    ensures var o := ScanAll(m, st, chunks); Finds(o.(forwarded := s[..h] + o.forwarded), s, m, p)
    decreases |chunks|
  {
    hide LookaheadOf, OccursAt, Fed, Finds, SentinelAt, SentinelEnd, SentinelCode;
    var c' := c + |chunks[0]|;
    var e := SentinelEnd(s, m, p);
    assert s[c..c'] == chunks[0];
    assert s[c'..] == Flatten(chunks[1..]);
    FeedTowardsFirst(m, st, s, h, c, c', p);
    var (next, out) := Fed(m, st, chunks[0]);
    if e <= c' {
      StopIsSound(m, s, p, c', next, chunks[1..]);
      assert out + [] == out && s[..h] + out == s[..p];
    } else {
      var h' := h + |out|;
      RunFindsFirst(m, next, s, h', c', chunks[1..], p);
      var rest := ScanAll(m, next, chunks[1..]);
      assert s[..h] + (out + rest.forwarded) == s[..h'] + rest.forwarded;
    }
  }

  /**
   * Streaming refines the one-shot reading: under every chunking the scanner forwards what
   * precedes the first sentinel, reads its code and keeps what follows, as long as no marker
   * occurrence overlaps that sentinel from the left.
   */
  lemma StreamingFindsFirst(m: seq<byte>, s: seq<byte>, chunks: seq<seq<byte>>, p: nat)
    requires Flatten(chunks) == s && FirstSentinelAt(s, m, p) && !Overlapped(s, m, p)
    ensures Finds(ScanAll(m, FRESH, chunks), s, m, p)
  {
    hide LookaheadOf, OccursAt;
    RunFindsFirst(m, FRESH, s, 0, 0, chunks, p);
    var o := ScanAll(m, FRESH, chunks);
    assert s[..0] + o.forwarded == o.forwarded;
  }

  lemma FeedIsSound(m: seq<byte>, st: Scan, s: seq<byte>, h: nat, c: nat, c': nat)
    requires Tracks(st, s, h, c) && c <= c' <= |s|
    ensures var (next, out) := Fed(m, st, s[c..c']);
            var h' := h + |out|;
            && h' <= c' && out == s[h..h']
            && (!next.done ==> Tracks(next, s, h', c'))
            && (next.done ==> SentinelAt(s, m, h') && SentinelEnd(s, m, h') <= c'
                              && next == Scan([], s[SentinelEnd(s, m, h')..c'], true, SentinelCode(s, m, h')))
  {
    hide LookaheadOf, FindSentinelFrom, PartialSuffixMatch, OccursAt;
    var buf := st.hold + s[c..c'];
    assert buf == s[h..c'];
    var r := FindSentinelOf(buf, m);
    var cut := if r.Hit? || r.Partial? then r.pos else |buf| - PartialSuffixMatch(buf, m);
    SliceOfSlice(s, h, c', 0, cut);
    SliceOfSlice(s, h, c', cut, c' - h);
    if r.Hit? {
      FindSentinelFacts(buf, m, 0);
      WindowSentinel(s, m, h, c', r.pos);
      SliceOfSlice(s, h, c', r.end, c' - h);
    }
  }

  /** From byte `h` of the stream on: a stop is at a genuine sentinel, and otherwise nothing is lost or left unread. */
  ghost predicate RanSoundly(o: Outcome, s: seq<byte>, m: seq<byte>, h: nat)
    requires h <= |s|
  {
    if o.final.done then
      var p := h + |o.forwarded|;
      SentinelAt(s, m, p) && Finds(o.(forwarded := s[..h] + o.forwarded), s, m, p)
    else
      o.unread == [] && o.forwarded + o.final.hold == s[h..]
  }

  lemma RanFurther(rest: Outcome, s: seq<byte>, m: seq<byte>, h: nat, out: seq<byte>)
    requires h + |out| <= |s| && out == s[h..h + |out|] && RanSoundly(rest, s, m, h + |out|)
    ensures RanSoundly(rest.(forwarded := out + rest.forwarded), s, m, h)
  {
    hide SentinelAt, Finds;
    var h' := h + |out|;
    assert s[..h] + (out + rest.forwarded) == s[..h'] + rest.forwarded;
    assert out + rest.forwarded + rest.final.hold == out + (rest.forwarded + rest.final.hold);
    assert out + s[h'..] == s[h..];
  }

  /** Whatever the chunking, a scanner that stops has read a genuine sentinel, in full. */
  lemma {:induction false} RunIsSound(m: seq<byte>, st: Scan, s: seq<byte>, h: nat, c: nat, chunks: seq<seq<byte>>)
    requires Tracks(st, s, h, c) && Flatten(chunks) == s[c..]
    ensures RanSoundly(ScanAll(m, st, chunks), s, m, h)
    decreases |chunks|
  {
    hide LookaheadOf, OccursAt, SentinelAt, Fed, Finds, SentinelEnd, SentinelCode;
    if chunks != [] {
      var c' := c + |chunks[0]|;
      assert s[c..c'] == chunks[0];
      assert s[c'..] == Flatten(chunks[1..]);
      FeedIsSound(m, st, s, h, c, c');
      var (next, out) := Fed(m, st, chunks[0]);
      var h' := h + |out|;
      if next.done {
        StopIsSound(m, s, h', c', next, chunks[1..]);
        assert s[..h'] + [] == s[..h'];
      } else {
        RunIsSound(m, next, s, h', c', chunks[1..]);
      }
      RanFurther(ScanAll(m, next, chunks[1..]), s, m, h, out);
    } else {
      assert [] + st.hold == st.hold;
    }
  }

  /** A scanner that has just stopped leaves the rest of the stream alone. */
  lemma StopIsSound(m: seq<byte>, s: seq<byte>, p: nat, c: nat, st: Scan, unread: seq<seq<byte>>)
    requires SentinelAt(s, m, p) && SentinelEnd(s, m, p) <= c <= |s| && Flatten(unread) == s[c..]
    requires st == Scan([], s[SentinelEnd(s, m, p)..c], true, SentinelCode(s, m, p))
    ensures ScanAll(m, st, unread) == Outcome([], st, unread)
    ensures Finds(Outcome(s[..p], st, unread), s, m, p)
  {
    hide SentinelAt, SentinelCode;
    assert s[SentinelEnd(s, m, p)..c] + s[c..] == s[SentinelEnd(s, m, p)..];
  }

  /** A stream without a sentinel never stops the scanner, and all but the held bytes go out. */
  lemma NoSentinelNeverStops(m: seq<byte>, s: seq<byte>, chunks: seq<seq<byte>>)
    requires Flatten(chunks) == s && forall p :: !SentinelAt(s, m, p)
    ensures var o := ScanAll(m, FRESH, chunks); !o.final.done && o.forwarded + o.final.hold == s
  {
    hide LookaheadOf, OccursAt, SentinelAt;
    RunIsSound(m, FRESH, s, 0, 0, chunks);
    assert s[0..] == s;
  }

  // ---------------------------------------------------------------------------
  // Exactly when the answer does not depend on the chunking
  // ---------------------------------------------------------------------------

  const MARKER_HEAD: seq<byte> := [95, 95, 88, 72, 79, 95, 69, 95]  // __XHO_E_

  /** `make_marker`: `__XHO_E_` ++ 32 hexadecimal digits ++ `__`. */
  ghost predicate IsMadeMarker(m: seq<byte>) {
    && |m| == 42 && m[..8] == MARKER_HEAD && m[40..] == [UNDERSCORE, UNDERSCORE]
    && forall i :: 8 <= i < 40 ==> IsDigit(m[i]) || 97 <= m[i] <= 102
  }

  lemma MarkerHeadIs(i: nat)
    requires i < 8
    ensures |MARKER_HEAD| == 8 && MARKER_HEAD[i] as char == "__XHO_E_"[i]
  {
  }

  /** What the exactness result needs of a marker. */
  ghost predicate PlainMarker(m: seq<byte>) {
    && m != [] && COLON !in m && !IsDigit(m[0]) && m[0] != CR
    && exists i :: 0 < i < |m| && m[i] != m[0]
  }

  lemma MadeMarkersArePlain(m: seq<byte>)
    requires IsMadeMarker(m)
    ensures PlainMarker(m)
  {
    assert forall i :: 0 <= i < 8 ==> m[i] == m[..8][i];
    assert m[40..][0] == m[40] && m[40..][1] == m[41];
    assert m[2] != m[0];
  }

  /** Cutting the stream just before the last byte of an earlier occurrence makes the hold start there. */
  lemma CutAtOverlap(m: seq<byte>, s: seq<byte>, p: nat, q: nat)
    requires PlainMarker(m) && FirstSentinelAt(s, m, p) && q < p < q + |m| && OccursAt(s, m, q)
    ensures var c := q + |m| - 1;
            Fed(m, FRESH, s[..c]).0 == FRESH.(hold := s[q..c]) && Fed(m, FRESH, s[..c]).1 == s[..q]
  {
    hide FindSentinelOf, SentinelAt, PlainMarker, PartialSuffixMatch, OccursAt;
    OccursInBounds(s, m, q);
    var c := q + |m| - 1;
    NothingBeforeCut(m, s, p, q);
    SuffixAtCut(m, s, q);
    assert [] + s[..c] == s[..c];
    assert s[..c][q..] == s[q..c];
    assert s[..c][..q] == s[..q];
  }

  lemma SuffixAtCut(m: seq<byte>, s: seq<byte>, q: nat)
    requires m != [] && OccursAt(s, m, q)
    ensures PartialSuffixMatch(s[..q + |m| - 1], m) == |m| - 1
  {
    hide PartialSuffixMatch;
    var c, k := q + |m| - 1, |m| - 1;
    SliceOfSlice(s, q, q + |m|, 0, k);
    SliceOfSlice(s, 0, c, q, c);
    assert s[..c] == s[0..c];
    assert s[..c][c - k..] == m[..k];
  }

  lemma NothingBeforeCut(m: seq<byte>, s: seq<byte>, p: nat, q: nat)
    requires PlainMarker(m) && FirstSentinelAt(s, m, p) && q < p < q + |m| && OccursAt(s, m, q)
    ensures FindSentinelOf(s[..q + |m| - 1], m).Nothing?
  {
    hide FindSentinelFrom, LookaheadOf, PlainMarker;
    var c := q + |m| - 1;
    assert s[..c] == s[0..c];
    FindSentinelFacts(s[..c], m, 0);
    var r := FindSentinelOf(s[..c], m);
    if r.Hit? {
      WindowSentinel(s, m, 0, c, r.pos);
    } else if r.Partial? {
      WindowOccurs(s, m, 0, c, r.pos);
      NoPartialBeforeCut(m, s, q, r.pos);
    }
  }

  lemma NoPartialBeforeCut(m: seq<byte>, s: seq<byte>, q: nat, j: nat)
    requires PlainMarker(m) && OccursAt(s, m, q) && OccursAt(s, m, j) && j < q
    ensures !LookaheadOf(s[..q + |m| - 1][j + |m|..]).Incomplete?
  {
    var after := s[..q + |m| - 1][j + |m|..];
    NotOneApart(m, s, q);
    assert s[q..q + |m|] == m;
    if j + |m| >= q {
      var i := j + |m| - q;
      assert after[0] == s[q..q + |m|][i];
    } else {
      assert after[q - (j + |m|)] == s[q..q + |m|][0];
    }
  }

  /** Occurrences one apart would force a constant marker. */
  lemma NotOneApart(m: seq<byte>, s: seq<byte>, q: nat)
    requires PlainMarker(m) && OccursAt(s, m, q)
    ensures !OccursAt(s, m, q - 1)
  {
    if OccursAt(s, m, q - 1) {
      forall i | 0 < i < |m|
        ensures m[i] == m[i - 1]
      {
        assert m[i] == s[q - 1..q - 1 + |m|][i] && m[i - 1] == s[q..q + |m|][i - 1];
      }
      ConstantRun(m, |m| - 1);
    }
  }

  lemma {:induction false} ConstantRun(m: seq<byte>, k: nat)
    requires k < |m| && forall i :: 0 < i < |m| ==> m[i] == m[i - 1]
    ensures forall i :: 0 <= i <= k ==> m[i] == m[0]
  {
    if k > 0 {
      ConstantRun(m, k - 1);
      assert m[k] == m[k - 1] == m[0];
    }
  }

  /** From a hold that starts at the overlapping occurrence, the search jumps over the sentinel. */
  lemma OverlapHidesSentinel(m: seq<byte>, s: seq<byte>, p: nat, q: nat)
    requires PlainMarker(m) && FirstSentinelAt(s, m, p) && q < p < q + |m| && OccursAt(s, m, q)
    ensures var r := FindSentinelOf(s[q..], m); r.Hit? ==> q + r.pos > p
  {
    hide FindSentinelFrom;
    var buf := s[q..];
    var after := buf[|m|..];
    assert after[0] == s[q + |m|] == s[p..p + |m|][q + |m| - p];
    assert OccursAt(buf, m, 0);
    assert FindFrom(buf, m, 0) == Some(0);
    assert LookaheadOf(after) == Mismatch;
    FindSentinelFacts(buf, m, |m|);
    FirstFalseOccurrence(buf, m);
  }

  lemma FirstFalseOccurrence(buf: seq<byte>, m: seq<byte>)
    requires m != [] && OccursAt(buf, m, 0) && LookaheadOf(buf[|m|..]).Mismatch?
    ensures FindSentinelOf(buf, m) == FindSentinelFrom(buf, m, |m|)
  {
    hide LookaheadOf;
    assert FindFrom(buf, m, 0) == Some(0);
  }

  lemma ScanTwo(m: seq<byte>, a: seq<byte>, b: seq<byte>)
    requires !Fed(m, FRESH, a).0.done
    ensures Flatten([a, b]) == a + b
    ensures ScanAll(m, FRESH, [a, b]) ==
            Outcome(Fed(m, FRESH, a).1 + Fed(m, Fed(m, FRESH, a).0, b).1, Fed(m, Fed(m, FRESH, a).0, b).0, [])
  {
    hide Fed;
    var chunks: seq<seq<byte>> := [a, b];
    assert chunks[1..] == [b] && |chunks[1..][1..]| == 0;
    var (mid, first) := Fed(m, FRESH, a);
    var (last, second) := Fed(m, mid, b);
    assert ScanAll(m, last, []) == Outcome([], last, []);
    assert ScanAll(m, mid, [b]).forwarded == second;
    assert Flatten([b]) == b;
  }

  lemma ResumeAtOverlap(m: seq<byte>, s: seq<byte>, p: nat, q: nat)
    requires PlainMarker(m) && FirstSentinelAt(s, m, p) && q < p < q + |m| && OccursAt(s, m, q)
    ensures var c := q + |m| - 1;
            var (last, out) := Fed(m, FRESH.(hold := s[q..c]), s[c..]);
            last.done ==> q + |out| > p
  {
    hide LookaheadOf, FindSentinelFrom, PartialSuffixMatch, PlainMarker;
    OverlapHidesSentinel(m, s, p, q);
    assert s[q..q + |m| - 1] + s[q + |m| - 1..] == s[q..];
  }

  /** The chunking that loses the sentinel. */
  lemma CutLosesSentinel(m: seq<byte>, s: seq<byte>, p: nat, q: nat)
    requires PlainMarker(m) && FirstSentinelAt(s, m, p) && q < p < q + |m| && OccursAt(s, m, q)
    ensures Flatten([s[..q + |m| - 1], s[q + |m| - 1..]]) == s
    ensures var o := ScanAll(m, FRESH, [s[..q + |m| - 1], s[q + |m| - 1..]]);
            o.final.done ==> |o.forwarded| != p
  {
    hide SentinelAt, ScanAll, Flatten, PlainMarker, Fed, OccursAt;
    OccursInBounds(s, m, q);
    var c := q + |m| - 1;
    CutAtOverlap(m, s, p, q);
    ResumeAtOverlap(m, s, p, q);
    var a, b := s[..c], s[c..];
    ScanTwo(m, a, b);
    assert a + b == s;
  }

  /**
   * For every marker `make_marker` can produce and every stream with a first sentinel: all
   * chunkings find it if and only if no earlier marker occurrence overlaps it.
   */
  lemma ChunkingIsIrrelevantIff(m: seq<byte>, s: seq<byte>, p: nat)
    requires IsMadeMarker(m) && FirstSentinelAt(s, m, p)
    ensures (forall chunks :: Flatten(chunks) == s ==> Finds(ScanAll(m, FRESH, chunks), s, m, p))
              <==> !Overlapped(s, m, p)
  {
    hide LookaheadOf, FindSentinelFrom, ScanAll;
    if !Overlapped(s, m, p) {
      forall chunks | Flatten(chunks) == s
        ensures Finds(ScanAll(m, FRESH, chunks), s, m, p)
      {
        StreamingFindsFirst(m, s, chunks, p);
      }
    } else {
      MadeMarkersArePlain(m);
      var q :| q < p < q + |m| && OccursAt(s, m, q);
      CutLosesSentinel(m, s, p, q);
      var chunks := [s[..q + |m| - 1], s[q + |m| - 1..]];
      assert Flatten(chunks) == s && !Finds(ScanAll(m, FRESH, chunks), s, m, p);
    }
  }

  /** Two markers that share the underscores between them, then exit code 0. */
  function Doubled(m: seq<byte>): seq<byte>
    requires |m| == 42
  {
    m + m[2..] + [COLON, 48, LF]
  }

  lemma DoubledOccurrences(m: seq<byte>)
    requires IsMadeMarker(m)
    ensures OccursAt(Doubled(m), m, 0) && OccursAt(Doubled(m), m, 40)
    ensures Doubled(m) == m[..40] + m + [COLON, 48, LF] + []
  {
    var s := Doubled(m);
    assert m[..8][0] == m[0] && m[..8][1] == m[1] && m[40..][0] == m[40] && m[40..][1] == m[41];
    assert s[0..42] == m;
    assert s == m[..40] + m + [COLON, 48, LF] + [];
    assert s[40..82] == m;
  }

  lemma DoubledFirst(m: seq<byte>)
    requires IsMadeMarker(m)
    ensures FirstSentinelAt(Doubled(m), m, 40)
  {
    hide OccursAt;
    var s := Doubled(m);
    DoubledOccurrences(m);
    assert IsTail([COLON, 48, LF], [48]) by {
      assert [COLON] + [48] + [LF] == [COLON, 48, LF];
    }
    SentinelMeaning(s, m, m[..40], [COLON, 48, LF], [48], []);
    MadeMarkersArePlain(m);
    forall q | q < 40
      ensures !SentinelAt(s, m, q)
    {
      if OccursAt(s, m, q) {
        OccursInBounds(s, m, q);
        assert s[q + 42..][0] == s[q + 42] == m[q + 2];
        assert m[q + 2] in m;
      }
    }
  }

  /**
   * Every generated marker can overlap itself: in this stream the first sentinel is overlapped, and
   * cutting before the last byte of the earlier occurrence makes the scanner miss it.
   */
  lemma DoubledMarkerIsLost(m: seq<byte>)
    requires IsMadeMarker(m)
    ensures var s := Doubled(m);
            && FirstSentinelAt(s, m, 40) && Overlapped(s, m, 40)
            && Flatten([s[..41], s[41..]]) == s
            && !Finds(ScanAll(m, FRESH, [s[..41], s[41..]]), s, m, 40)
  {
    hide SentinelAt, ScanAll, Flatten, PlainMarker, OccursAt;
    var s := Doubled(m);
    DoubledOccurrences(m);
    DoubledFirst(m);
    MadeMarkersArePlain(m);
    assert 0 < 40 < 0 + |m|;
    CutLosesSentinel(m, s, 40, 0);
  }
}
