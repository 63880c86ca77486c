/** Reassembly of the CRYPTO frames of a QUIC Initial packet (QUICDefragCrypto of nfq/protocol.c).

    Lengths and offsets read from the packet stay below 2^62 and buffers are far smaller, so no sum in the
    original's 64-bit arithmetic wraps; they are unbounded here.
 */
module QuicDefrag {
  import opened Options
  import opened Bits
  import opened Bytes
  import opened Varint
  import Quicksort

  const MAX_DEFRAG_PIECES := 128

  /** A CRYPTO frame: stream offset, length, and where its data is in the packet. */
  datatype Crypto = Crypto(offset: nat, len: nat, at: nat)

  datatype Range = Range(offset: nat, len: nat)

  // ---------- the frames of a packet ----------

  /** The frame of type 6 whose type byte is at pos. */
  function CryptoAt(clean: seq<byte>, pos: nat): (f: Option<Crypto>)
    requires pos < |clean|
    ensures f.Some? ==> pos < f.value.at && f.value.at + f.value.len <= |clean|
  {
    if clean[pos] != 6 || pos + 1 >= |clean| then None
    else
      var p1 := pos + 1;
      if p1 + TvbGetSize(clean[p1]) >= |clean| then None
      else
        var p2 := p1 + TvbGetSize(clean[p1]);
        if p2 + TvbGetSize(clean[p2]) > |clean| then None
        else
          var p3, sz := p2 + TvbGetSize(clean[p2]), TvbGetVarint(clean, p2);
          if p3 + sz > |clean| then None else Some(Crypto(TvbGetVarint(clean, p1), sz, p3))
  }

  /** The CRYPTO frames from pos on; padding and ping are skipped, any other frame type is not understood. */
  function Frames(clean: seq<byte>, pos: nat): (r: Option<seq<Crypto>>)
    ensures r.Some? ==> forall k :: 0 <= k < |r.value| ==> r.value[k].at + r.value[k].len <= |clean|
    decreases |clean| - pos
  {
    if pos >= |clean| then Some([])
    else if clean[pos] <= 1 then Frames(clean, pos + 1)
    else
      var f := CryptoAt(clean, pos);
      if f.None? then None else Prepend([f.value], Frames(clean, f.value.at + f.value.len))
  }

  function Prepend(done: seq<Crypto>, rest: Option<seq<Crypto>>): Option<seq<Crypto>> {
    if rest.None? then None else Some(done + rest.value)
  }

  // ---------- what they amount to ----------

  /** Offset and length of each frame, exact duplicates left out. */
  function Ranges(frames: seq<Crypto>): seq<Range> {
    if frames == [] then []
    else
      var rest, f := frames[..|frames| - 1], frames[|frames| - 1];
      Ranges(rest) + (if Range(f.offset, f.len) in Ranges(rest) then [] else [Range(f.offset, f.len)])
  }

  function MaxEnd(frames: seq<Crypto>): nat {
    if frames == [] then 0 else Max(MaxEnd(frames[..|frames| - 1]), frames[|frames| - 1].offset + frames[|frames| - 1].len)
  }

  function Max(a: nat, b: nat): nat {
    if a < b then b else a
  }

  predicate In(p: nat, offset: nat, len: nat) {
    offset <= p < offset + len
  }

  predicate Covered(frames: seq<Crypto>, p: nat) {
    exists k :: 0 <= k < |frames| && In(p, frames[k].offset, frames[k].len)
  }

  /** The byte at stream offset p: that of the last frame which is not a duplicate and covers p, or zero. */
  function Content(clean: seq<byte>, frames: seq<Crypto>, p: nat): byte
    requires forall k :: 0 <= k < |frames| ==> frames[k].at + frames[k].len <= |clean|
  {
    if frames == [] then 0
    else
      var rest, f := frames[..|frames| - 1], frames[|frames| - 1];
      if Range(f.offset, f.len) !in Ranges(rest) && In(p, f.offset, f.len) then clean[f.at + (p - f.offset)]
      else Content(clean, rest, p)
  }

  /** Each frame fits the buffer, and when it comes there is a free slot for its range. */
  ghost predicate Fits(frames: seq<Crypto>, cap: nat) {
    forall k :: 0 <= k < |frames| ==> |Ranges(frames[..k])| < MAX_DEFRAG_PIECES && frames[k].offset + frames[k].len <= cap
  }

  lemma FramesStep(done: seq<Crypto>, f: Crypto)
    ensures (done + [f])[..|done|] == done
    ensures Ranges(done + [f]) == Ranges(done) + (if Range(f.offset, f.len) in Ranges(done) then [] else [Range(f.offset, f.len)])
    ensures MaxEnd(done + [f]) == Max(MaxEnd(done), f.offset + f.len)
  {
    assert (done + [f])[..|done|] == done;
  }

  lemma FitsStep(done: seq<Crypto>, f: Crypto, cap: nat)
    requires Fits(done, cap) && |Ranges(done)| < MAX_DEFRAG_PIECES && f.offset + f.len <= cap
    ensures Fits(done + [f], cap)
  {
    var all := done + [f];
    forall k | 0 <= k < |all|
      ensures |Ranges(all[..k])| < MAX_DEFRAG_PIECES && all[k].offset + all[k].len <= cap
    {
      if k < |done| {
        assert all[..k] == done[..k];
      } else {
        assert all[..k] == done;
      }
    }
  }

  /** One frame that does not fit spoils the packet. */
  lemma FitsNot(done: seq<Crypto>, f: Crypto, rest: seq<Crypto>, cap: nat)
    requires |Ranges(done)| >= MAX_DEFRAG_PIECES || f.offset + f.len > cap
    ensures !Fits(done + ([f] + rest), cap)
  {
    var all := done + ([f] + rest);
    assert all[..|done|] == done && all[|done|] == f;
  }

  lemma {:induction false} RangesNonEmpty(frames: seq<Crypto>)
    ensures frames != [] <==> Ranges(frames) != []
    ensures forall r :: r in Ranges(frames) <==> exists k :: 0 <= k < |frames| && r == Range(frames[k].offset, frames[k].len)
  {
    if frames != [] {
      var n := |frames| - 1;
      RangesNonEmpty(frames[..n]);
      forall r
        ensures r in Ranges(frames) <==> exists k :: 0 <= k < |frames| && r == Range(frames[k].offset, frames[k].len)
      {
        if r in Ranges(frames[..n]) {
          var k :| 0 <= k < n && r == Range(frames[..n][k].offset, frames[..n][k].len);
          assert frames[k] == frames[..n][k];
        }
        if k :| 0 <= k < |frames| && r == Range(frames[k].offset, frames[k].len) {
          if k < n {
            assert frames[..n][k] == frames[k];
          }
        }
      }
    }
  }

  lemma {:induction false} BelowMaxEnd(frames: seq<Crypto>, k: nat)
    requires k < |frames|
    ensures frames[k].offset + frames[k].len <= MaxEnd(frames)
  {
    if k < |frames| - 1 {
      BelowMaxEnd(frames[..|frames| - 1], k);
    }
  }

  /** The highest end is the end of some frame. */
  lemma {:induction false} MaxEndReached(frames: seq<Crypto>) returns (k: nat)
    requires frames != []
    ensures k < |frames| && frames[k].offset + frames[k].len == MaxEnd(frames)
  {
    var n := |frames| - 1;
    k := n;
    assert MaxEnd([]) == 0 && (n == 0 ==> frames[..n] == []);
    if frames[n].offset + frames[n].len < MaxEnd(frames) {
      k := MaxEndReached(frames[..n]);
    }
  }

  // ---------- collecting the data ----------

  /** After some frames: bytes below the highest end are what the frames say, and the ranges are listed. */
  ghost predicate Collected(clean: seq<byte>, frames: seq<Crypto>, defrag: array<byte>, ranges: array<Range>, range: nat, szmax: nat)
    reads defrag, ranges
  {
    && (forall k :: 0 <= k < |frames| ==> frames[k].at + frames[k].len <= |clean|)
    && szmax == MaxEnd(frames) && 10 + szmax <= defrag.Length
    && range <= ranges.Length && ranges[..range] == Ranges(frames)
    && forall q :: 10 <= q < 10 + szmax ==> defrag[q] == Content(clean, frames, q - 10)
  }

  /** The search for an exact duplicate. */
  method IsDuplicate(ranges: array<Range>, range: nat, offset: nat, sz: nat) returns (dup: bool)
    requires range <= ranges.Length
    ensures dup <==> Range(offset, sz) in ranges[..range]
  {
    for i := 0 to range
      invariant Range(offset, sz) !in ranges[..i]
    {
      if ranges[i].offset == offset && ranges[i].len == sz {
        assert ranges[..range][i] == Range(offset, sz);
        return true;
      }
      assert ranges[..i + 1] == ranges[..i] + [ranges[i]];
    }
    return false;
  }

  /** memset of a gap, then memcpy of the frame's data. */
  method StoreData(clean: seq<byte>, defrag: array<byte>, zeropos: nat, f: Crypto)
    requires f.at + f.len <= |clean| && 10 + zeropos <= defrag.Length && 10 + f.offset + f.len <= defrag.Length
    modifies defrag
    ensures forall q :: 10 <= q < 10 + Max(zeropos, f.offset + f.len) ==>
      defrag[q] == if In(q - 10, f.offset, f.len) then clean[f.at + (q - 10 - f.offset)]
                   else if q < 10 + zeropos then old(defrag[q]) else 0
  {
    var i := zeropos;
    while i < f.offset
      invariant zeropos <= i
      invariant forall q :: 10 <= q < 10 + i && q < defrag.Length ==>
        defrag[q] == if q < 10 + zeropos then old(defrag[q]) else 0
    {
      defrag[10 + i] := 0;
      i := i + 1;
    }
    ghost var was := defrag[..];
    for k := 0 to f.len
      invariant forall q :: 10 <= q < defrag.Length ==>
        defrag[q] == if In(q - 10, f.offset, k) then clean[f.at + (q - 10 - f.offset)] else was[q]
    {
      defrag[10 + f.offset + k] := clean[f.at + k];
    }
  }

  /** Take one CRYPTO frame in. */
  method AddFrame(clean: seq<byte>, defrag: array<byte>, ranges: array<Range>, range: nat, szmax: nat, f: Crypto,
                  ghost done: seq<Crypto>)
    returns (range': nat, szmax': nat)
    requires Collected(clean, done, defrag, ranges, range, szmax) && range < ranges.Length
    requires f.at + f.len <= |clean| && 10 + f.offset + f.len <= defrag.Length
    modifies defrag, ranges
    ensures Collected(clean, done + [f], defrag, ranges, range', szmax')
  {
    FramesStep(done, f);
    var dup := IsDuplicate(ranges, range, f.offset, f.len);
    if dup {
      DuplicateEnd(done, f);
      return range, szmax;
    }
    StoreData(clean, defrag, szmax, f);
    ranges[range] := Range(f.offset, f.len);
    assert ranges[..range + 1] == ranges[..range] + [ranges[range]];
    ContentBeyond(clean, done);
    return range + 1, Max(szmax, f.offset + f.len);
  }

  lemma DuplicateEnd(done: seq<Crypto>, f: Crypto)
    requires Range(f.offset, f.len) in Ranges(done)
    ensures f.offset + f.len <= MaxEnd(done)
  {
    RangesNonEmpty(done);
    var k :| 0 <= k < |done| && Range(f.offset, f.len) == Range(done[k].offset, done[k].len);
    BelowMaxEnd(done, k);
  }

  /** Nothing has been stored beyond the highest end. */
  lemma {:induction false} ContentBeyond(clean: seq<byte>, frames: seq<Crypto>)
    requires forall k :: 0 <= k < |frames| ==> frames[k].at + frames[k].len <= |clean|
    ensures forall p: nat :: MaxEnd(frames) <= p ==> Content(clean, frames, p) == 0
  {
    if frames != [] {
      ContentBeyond(clean, frames[..|frames| - 1]);
    }
  }

  // ---------- the loop over the frames ----------

  /** Offset and length of the CRYPTO frame whose type byte is at pos - 1. */
  method ReadCrypto(clean: seq<byte>, pos: nat) returns (f: Option<Crypto>)
    requires 0 < pos < |clean| && clean[pos - 1] == 6
    ensures f == CryptoAt(clean, pos - 1)
  {
    if pos + TvbGetSize(clean[pos]) >= |clean| {
      return None;
    }
    var offset := TvbGetVarint(clean, pos);
    var pos := pos + TvbGetSize(clean[pos]);
    if pos + TvbGetSize(clean[pos]) > |clean| {
      return None;
    }
    var sz := TvbGetVarint(clean, pos);
    pos := pos + TvbGetSize(clean[pos]);
    if pos + sz > |clean| {
      return None;
    }
    return Some(Crypto(offset, sz, pos));
  }

  /** The whole packet can be taken in. */
  ghost predicate Acceptable(clean: seq<byte>, cap: nat) {
    var r := Frames(clean, 0);
    r.Some? && Fits(r.value, cap)
  }

  method CollectFrames(clean: seq<byte>, defrag: array<byte>, cap: nat, ranges: array<Range>)
    returns (ok: bool, range: nat, szmax: nat)
    requires 10 + cap <= defrag.Length && ranges.Length == MAX_DEFRAG_PIECES
    modifies defrag, ranges
    ensures ok <==> Acceptable(clean, cap)
    ensures ok ==> Collected(clean, Frames(clean, 0).value, defrag, ranges, range, szmax) && szmax <= cap
  {
    var pos := 0;
    range, szmax := 0, 0;
    ghost var done: seq<Crypto> := [];
    ReadingStarts(clean, cap);
    while pos < |clean|
      invariant pos <= |clean| && Reading(clean, done, pos, cap)
      invariant Collected(clean, done, defrag, ranges, range, szmax) && szmax <= cap
      decreases |clean| - pos
    {
      if clean[pos] > 1 {
        var f := NextFrame(clean, pos, cap, range, done);
        if f.None? {
          return false, range, szmax;
        }
        range, szmax := AddFrame(clean, defrag, ranges, range, szmax, f.value, done);
        done := done + [f.value];
        pos := f.value.at + f.value.len;
      } else {
        ReadingStep(clean, done, pos, cap);
        pos := pos + 1;
      }
    }
    ReadingEnds(clean, done, pos, cap);
    ok := true;
  }

  /** A frame that is neither PADDING nor PING: it has to be understood, to fit, and to find a free slot. */
  method NextFrame(clean: seq<byte>, pos: nat, cap: nat, range: nat, ghost done: seq<Crypto>) returns (f: Option<Crypto>)
    requires pos < |clean| && clean[pos] > 1 && Reading(clean, done, pos, cap) && range == |Ranges(done)|
    ensures f.None? ==> !Acceptable(clean, cap)
    ensures f.Some? ==> range < MAX_DEFRAG_PIECES && f.value.offset + f.value.len <= cap && pos < f.value.at
    ensures f.Some? ==> f.value.at + f.value.len <= |clean| && Reading(clean, done + [f.value], f.value.at + f.value.len, cap)
  {
    f := None;
    if clean[pos] == 6 && pos + 1 < |clean| && range < MAX_DEFRAG_PIECES {
      f := ReadCrypto(clean, pos + 1);
    }
    if f.None? || f.value.offset + f.value.len > cap {
      ReadingRefused(clean, done, pos, cap);
      return None;
    }
    ReadingFrame(clean, done, pos, f.value, cap);
  }

  /** `done` are the frames up to pos, and they can be taken in. */
  ghost predicate Reading(clean: seq<byte>, done: seq<Crypto>, pos: nat, cap: nat) {
    Frames(clean, 0) == Prepend(done, Frames(clean, pos)) && Fits(done, cap)
  }

  lemma ReadingStarts(clean: seq<byte>, cap: nat)
    ensures Reading(clean, [], 0, cap)
  {
    var r := Frames(clean, 0);
    if r.Some? {
      assert [] + r.value == r.value;
    }
  }

  lemma ReadingEnds(clean: seq<byte>, done: seq<Crypto>, pos: nat, cap: nat)
    requires Reading(clean, done, pos, cap) && |clean| <= pos
    ensures Acceptable(clean, cap) && Frames(clean, 0).value == done
  {
    assert done + [] == done;
  }

  /** What the next byte means for the frames read so far. */
  lemma ReadingStep(clean: seq<byte>, done: seq<Crypto>, pos: nat, cap: nat)
    requires pos < |clean| && Reading(clean, done, pos, cap)
    ensures clean[pos] <= 1 ==> Reading(clean, done, pos + 1, cap)
    ensures clean[pos] > 1 && CryptoAt(clean, pos).None? ==> !Acceptable(clean, cap)
    ensures clean[pos] > 1 && |Ranges(done)| >= MAX_DEFRAG_PIECES ==> !Acceptable(clean, cap)
    ensures clean[pos] > 1 && CryptoAt(clean, pos).Some? ==>
      var f := CryptoAt(clean, pos).value;
      if |Ranges(done)| >= MAX_DEFRAG_PIECES || f.offset + f.len > cap then !Acceptable(clean, cap)
      else Reading(clean, done + [f], f.at + f.len, cap)
  {
    if clean[pos] > 1 && CryptoAt(clean, pos).Some? {
      ReadingFrame(clean, done, pos, CryptoAt(clean, pos).value, cap);
    }
  }

  lemma ReadingRefused(clean: seq<byte>, done: seq<Crypto>, pos: nat, cap: nat)
    requires pos < |clean| && clean[pos] > 1 && Reading(clean, done, pos, cap)
    requires var f := CryptoAt(clean, pos);
             f.None? || |Ranges(done)| >= MAX_DEFRAG_PIECES || f.value.offset + f.value.len > cap
    ensures !Acceptable(clean, cap)
  {
    ReadingStep(clean, done, pos, cap);
  }

  lemma ReadingFrame(clean: seq<byte>, done: seq<Crypto>, pos: nat, f: Crypto, cap: nat)
    requires pos < |clean| && clean[pos] > 1 && CryptoAt(clean, pos) == Some(f) && Reading(clean, done, pos, cap)
    ensures if |Ranges(done)| >= MAX_DEFRAG_PIECES || f.offset + f.len > cap then !Acceptable(clean, cap)
            else Reading(clean, done + [f], f.at + f.len, cap)
  {
    var rest := Frames(clean, f.at + f.len);
    assert Frames(clean, pos) == Prepend([f], rest);
    if |Ranges(done)| >= MAX_DEFRAG_PIECES || f.offset + f.len > cap {
      if rest.Some? {
        FitsNot(done, f, rest.value, cap);
      }
    } else {
      FitsStep(done, f, cap);
      PrependMore(done, f, rest);
    }
  }

  lemma PrependMore(done: seq<Crypto>, f: Crypto, rest: Option<seq<Crypto>>)
    ensures Prepend(done, Prepend([f], rest)) == Prepend(done + [f], rest)
  {
    if rest.Some? {
      assert done + ([f] + rest.value) == done + [f] + rest.value;
    }
  }

  // ---------- merging the ranges ----------

  ghost predicate ByOffset(s: seq<Range>) {
    forall i, j :: 0 <= i < j < |s| ==> s[i].offset <= s[j].offset
  }

  /** cmp_range64 */
  function CmpRange64(a: Range, b: Range): int {
    if a.offset < b.offset then -1 else if a.offset > b.offset then 1 else 0
  }

  predicate InSome(s: seq<Range>, p: nat) {
    exists k :: 0 <= k < |s| && In(p, s[k].offset, s[k].len)
  }

  /** e is the highest end of the first i ranges, and nothing is missing between the first offset and e. */
  ghost predicate Solid(s: seq<Range>, i: nat, e: nat)
    requires 0 < i <= |s|
  {
    && (forall k :: 0 <= k < i ==> s[k].offset + s[k].len <= e)
    && (forall p: nat :: s[0].offset <= p < e ==> InSome(s[..i], p))
  }

  /** Some byte between the first offset and the last is in no range at all. */
  ghost predicate HasGap(s: seq<Range>, i: nat)
    requires i <= |s|
  {
    exists g: nat, k :: 0 <= k < i && s[0].offset <= g < s[k].offset && !InSome(s, g)
  }

  /** The merge loop: it leaves one range, reaching from the first offset to the highest end, exactly if there is
      no gap. */
  method MergeRanges(ranges: array<Range>, range: nat) returns (left: nat)
    requires 0 < range <= ranges.Length && ByOffset(ranges[..range])
    modifies ranges
    ensures 0 < left <= range
    ensures left == 1 ==> ranges[0].offset == old(ranges[0]).offset && Solid(old(ranges[..range]), range, ranges[0].offset + ranges[0].len)
    ensures left != 1 ==> HasGap(old(ranges[..range]), range)
  {
    ghost var s := ranges[..range];
    var j, i := 0, 1;
    FirstSolid(s);
    while i < range
      invariant 0 <= j < i <= range && Merged(s, i, j, ranges[j])
      invariant forall k :: i <= k < range ==> ranges[k] == s[k]
    {
      MergeStep(s, i, j, ranges[j]);
      var currentEnd := ranges[j].offset + ranges[j].len;
      var nextStart := ranges[i].offset;
      var nextEnd := ranges[i].offset + ranges[i].len;
      if nextStart <= currentEnd {
        ranges[j] := Range(ranges[j].offset, Max(nextEnd, currentEnd) - ranges[j].offset);
      } else {
        j := j + 1;
        ranges[j] := ranges[i];
      }
      i := i + 1;
    }
    left := j + 1;
  }

  /** After i ranges: `r` is the last merged one, and there are j before it. */
  ghost predicate Merged(s: seq<Range>, i: nat, j: nat, r: Range)
    requires 0 < i <= |s|
  {
    && (forall k :: 0 <= k < i ==> s[k].offset + s[k].len <= r.offset + r.len)
    && s[0].offset <= r.offset <= s[i - 1].offset
    && (j == 0 ==> r.offset == s[0].offset && Solid(s, i, r.offset + r.len))
    && (j != 0 ==> HasGap(s, i))
  }

  lemma MergeStep(s: seq<Range>, i: nat, j: nat, r: Range)
    requires 0 < i < |s| && ByOffset(s) && Merged(s, i, j, r)
    ensures var end := r.offset + r.len;
            if s[i].offset <= end then Merged(s, i + 1, j, Range(r.offset, Max(s[i].offset + s[i].len, end) - r.offset))
            else Merged(s, i + 1, j + 1, s[i])
  {
    if s[i].offset <= r.offset + r.len {
      if j == 0 {
        SolidMore(s, i, r.offset + r.len);
      }
    } else {
      GapAt(s, i, r.offset + r.len);
    }
  }

  lemma FirstSolid(s: seq<Range>)
    requires s != []
    ensures Solid(s, 1, s[0].offset + s[0].len)
  {
    forall p: nat | s[0].offset <= p < s[0].offset + s[0].len
      ensures InSome(s[..1], p)
    {
      assert In(p, s[..1][0].offset, s[..1][0].len);
    }
  }

  lemma SolidMore(s: seq<Range>, i: nat, e: nat)
    requires 0 < i < |s| && Solid(s, i, e) && s[i].offset <= e
    ensures Solid(s, i + 1, Max(s[i].offset + s[i].len, e))
  {
    var more := s[..i + 1];
    forall p: nat | s[0].offset <= p < Max(s[i].offset + s[i].len, e)
      ensures InSome(more, p)
    {
      if p < e {
        assert InSome(s[..i], p);
        var k :| 0 <= k < i && In(p, s[..i][k].offset, s[..i][k].len);
        assert In(p, more[k].offset, more[k].len);
      } else {
        assert In(p, more[i].offset, more[i].len);
      }
    }
  }

  lemma GapAt(s: seq<Range>, i: nat, e: nat)
    requires 0 < i < |s| && ByOffset(s) && s[0].offset <= e < s[i].offset
    requires forall k :: 0 <= k < i ==> s[k].offset + s[k].len <= e
    ensures HasGap(s, i + 1)
  {
    assert !InSome(s, e);
  }

  // ---------- the result ----------

  /** Sorting does not change which bytes are in some range. */
  lemma SortedCovers(frames: seq<Crypto>, s: seq<Range>, p: nat)
    requires multiset(s) == multiset(Ranges(frames))
    ensures InSome(s, p) <==> Covered(frames, p)
  {
    RangesNonEmpty(frames);
    if InSome(s, p) {
      var k :| 0 <= k < |s| && In(p, s[k].offset, s[k].len);
      assert s[k] in multiset(s);
      assert s[k] in Ranges(frames);
      var i :| 0 <= i < |frames| && s[k] == Range(frames[i].offset, frames[i].len);
    }
    if Covered(frames, p) {
      var i :| 0 <= i < |frames| && In(p, frames[i].offset, frames[i].len);
      var r := Range(frames[i].offset, frames[i].len);
      assert r in Ranges(frames);
      assert r in multiset(s);
      var k :| 0 <= k < |s| && s[k] == r;
    }
  }

  /** Every byte of the message is in some frame. */
  ghost predicate FullyCovered(frames: seq<Crypto>) {
    forall p: nat :: p < MaxEnd(frames) ==> Covered(frames, p)
  }

  lemma InRangeEnds(frames: seq<Crypto>, s: seq<Range>, k: nat)
    requires multiset(s) == multiset(Ranges(frames)) && k < |s|
    ensures s[k].offset + s[k].len <= MaxEnd(frames)
  {
    RangesNonEmpty(frames);
    assert s[k] in multiset(s);
    assert s[k] in Ranges(frames);
    var i :| 0 <= i < |frames| && s[k] == Range(frames[i].offset, frames[i].len);
    BelowMaxEnd(frames, i);
  }

  lemma TopWithin(frames: seq<Crypto>, s: seq<Range>, e: nat)
    requires multiset(s) == multiset(Ranges(frames)) && frames != [] && ByOffset(s) && Solid(s, |s|, e)
    ensures MaxEnd(frames) <= e
  {
    RangesNonEmpty(frames);
    var top := MaxEndReached(frames);
    var r := Range(frames[top].offset, frames[top].len);
    assert r in Ranges(frames);
    assert r in multiset(s);
    var k :| 0 <= k < |s| && s[k] == r;
  }

  lemma SolidIsFull(frames: seq<Crypto>, s: seq<Range>, e: nat)
    requires multiset(s) == multiset(Ranges(frames)) && frames != [] && s != [] && ByOffset(s) && Solid(s, |s|, e)
    ensures FullyCovered(frames) <==> s[0].offset == 0
  {
    TopWithin(frames, s, e);
    assert s[..|s|] == s;
    if s[0].offset == 0 {
      forall p: nat | p < MaxEnd(frames)
        ensures Covered(frames, p)
      {
        SortedCovers(frames, s, p);
      }
    } else {
      InRangeEnds(frames, s, 0);
      SortedCovers(frames, s, 0);
      assert !InSome(s, 0);
    }
  }

  lemma GapIsNotFull(frames: seq<Crypto>, s: seq<Range>)
    requires multiset(s) == multiset(Ranges(frames)) && HasGap(s, |s|)
    ensures !FullyCovered(frames)
  {
    var g: nat, k :| 0 <= k < |s| && s[0].offset <= g < s[k].offset && !InSome(s, g);
    InRangeEnds(frames, s, k);
    SortedCovers(frames, s, g);
  }

  /** qsort of the ranges in use. */
  method SortRanges(ranges: array<Range>, range: nat)
    requires range <= ranges.Length < Quicksort.SIZE_T_LIMIT
    modifies ranges
    ensures ByOffset(ranges[..range]) && multiset(ranges[..range]) == multiset(old(ranges[..range]))
  {
    ghost var s0 := ranges[..range];
    var part := new Range[range](k requires 0 <= k < range && range <= ranges.Length reads ranges => ranges[k]);
    assert part[..] == s0;
    Quicksort.GnuQuicksort(part, CmpRange64);
    ghost var s1 := part[..];
    SortedByOffset(s1);
    for k := 0 to range
      invariant part[..] == s1 && ranges[..k] == s1[..k]
    {
      ranges[k] := part[k];
    }
    assert ranges[..range] == s1;
  }

  lemma SortedByOffset(s: seq<Range>)
    requires Quicksort.Sorted(s, CmpRange64)
    ensures ByOffset(s)
  {
    forall i, j | 0 <= i < j < |s|
      ensures s[i].offset <= s[j].offset
    {
      assert Quicksort.Le(CmpRange64, s[i], s[j]);
    }
  }

  /** Frame type, offset 0 and the length in 8 bytes. */
  method WriteHeader(defrag: array<byte>, szmax: nat)
    requires 10 <= defrag.Length && szmax < Pow2(8 * Width(3) - 2) && Width(3) == 8
    modifies defrag
    ensures defrag[..10] == [6, 0] + Encode(szmax, 3)
    ensures forall q :: 10 <= q < defrag.Length ==> defrag[q] == old(defrag[q])
  {
    defrag[0], defrag[1] := 6, 0;
    var b := ToBytes(szmax, 8);
    FirstByteSmall(szmax, 8);
    WriteBig(defrag, b);
    OrTopBits(b[0]);
    defrag[2] := Or(defrag[2], 0xC0);
    LongForm(defrag[..10], b, Encode(szmax, 3));
  }

  /** phton64 behind the two bytes of type and offset */
  method WriteBig(defrag: array<byte>, b: seq<byte>)
    requires 10 <= defrag.Length && |b| == 8
    modifies defrag
    ensures forall i :: 0 <= i < 8 ==> defrag[2 + i] == b[i]
    ensures forall q :: 0 <= q < 2 || 10 <= q < defrag.Length ==> defrag[q] == old(defrag[q])
  {
    for k := 0 to 8
      invariant forall i :: 0 <= i < k ==> defrag[2 + i] == b[i]
      invariant forall q :: 0 <= q < 2 || 10 <= q < defrag.Length ==> defrag[q] == old(defrag[q])
    {
      defrag[2 + k] := b[k];
    }
  }

  lemma LongForm(s: seq<byte>, b: seq<byte>, e: seq<byte>)
    requires |s| == 10 && |b| == |e| == 8 && s[0] == 6 && s[1] == 0 && s[2] == e[0]
    requires forall i :: 0 < i < 8 ==> s[2 + i] == b[i] && e[i] == b[i]
    ensures s == [6, 0] + e
  {
    assert s[2..] == e;
  }

  lemma OrTopBits(b: nat)
    requires b < 64
    ensures Or(b, 0xC0) == b + 0xC0
  {
    assert Pow2(6) == 64;
    OrDisjoint(b, 3, 6);
  }

  /** Bits that do not meet simply add up. */
  lemma {:induction false} OrDisjoint(x: nat, n: nat, z: nat)
    requires x < Pow2(z)
    ensures Or(x, n * Pow2(z)) == x + n * Pow2(z)
  {
    if z != 0 {
      MulDouble(n, Pow2(z - 1));
      OrDisjoint(x / 2, n, z - 1);
    }
  }

  /** The data of a packet's CRYPTO frames: refused unless every frame is understood, fits and finds a free slot; complete
      exactly if every byte up to the highest end is covered; bytes not covered are zero. */
  method QUICDefragCrypto(clean: seq<byte>, defrag: array<byte>, defragLen: nat)
    returns (found: bool, outLen: nat, full: bool)
    requires defragLen <= defrag.Length && defragLen < Pow2(8 * Width(3) - 2)
    modifies defrag
    ensures found <==> 10 <= defragLen && Acceptable(clean, defragLen - 10) && Frames(clean, 0).value != []
    ensures found ==> Defragged(clean, Frames(clean, 0).value, defrag, outLen, full)
  {
    outLen, full := 0, false;
    if defragLen < 10 {
      return false, 0, false;
    }
    var ranges := new Range[MAX_DEFRAG_PIECES];
    var ok, range, szmax := CollectFrames(clean, defrag, defragLen - 10, ranges);
    if !ok {
      return false, 0, false;
    }
    ghost var frames := Frames(clean, 0).value;
    RangesNonEmpty(frames);
    if range == 0 {
      return false, 0, false;
    }
    full := OneRange(ranges, range, frames);
    WidthAt3();
    WriteHeader(defrag, szmax);
    return true, szmax + 10, full;
  }

  /** Sort and merge: one range from offset 0 is left exactly if every byte up to the highest end is covered. */
  method OneRange(ranges: array<Range>, range: nat, ghost frames: seq<Crypto>) returns (full: bool)
    requires 0 < range <= ranges.Length < Quicksort.SIZE_T_LIMIT && frames != [] && ranges[..range] == Ranges(frames)
    modifies ranges
    ensures full <==> FullyCovered(frames)
  {
    SortRanges(ranges, range);
    ghost var s := ranges[..range];
    assert s[0] == ranges[0];
    var left := MergeRanges(ranges, range);
    if left == 1 {
      SolidIsFull(frames, s, ranges[0].offset + ranges[0].len);
    } else {
      GapIsNotFull(frames, s);
    }
    full := left == 1 && ranges[0].offset == 0;
  }

  /** What a successful call leaves in the buffer. */
  ghost predicate Defragged(clean: seq<byte>, frames: seq<Crypto>, defrag: array<byte>, outLen: nat, full: bool)
    requires forall k :: 0 <= k < |frames| ==> frames[k].at + frames[k].len <= |clean|
    reads defrag
  {
    && outLen == 10 + MaxEnd(frames) && outLen <= defrag.Length && MaxEnd(frames) < Pow2(8 * Width(3) - 2)
    && (full <==> FullyCovered(frames))
    && defrag[..10] == [6, 0] + Encode(MaxEnd(frames), 3)
    && forall q :: 10 <= q < outLen ==> defrag[q] == Content(clean, frames, q - 10)
  }
}
