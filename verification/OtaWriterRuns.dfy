/** Whole runs of the writer: what the requests alone say about flash at the end. */
module OtaWriterRuns {
  import opened Basics
  import opened OtaBytes
  import opened OtaWriterSpec

  /** A request to write the payload's bytes from at, len of them. */
  datatype Request = Request(at: nat, len: nat)

  /** The writer after a run of requests. */
  function Run(w: Writer, bs: nat, payload: Bytes, requests: seq<Request>): (r: Option<Writer>)
    ensures r.Some? ==> |r.value.mem| == |w.mem|
    decreases |requests|
  {
    if requests == [] then Some(w)
    else
      var q := requests[0];
      if q.at + q.len <= |payload| && w.Valid(bs) && q.at + q.len <= |w.mem| then
        Run(w.Write(bs, q.at, payload[q.at..q.at + q.len]), bs, payload, requests[1..])
      else None
  }

  // ---- what the requests leave ----

  /** sent holds every position that was sent; flag, offset and len describe the stage; holes
      are the positions of the stage that were filled from flash before they were sent. */
  datatype Trace = Trace(sent: set<nat>, flag: bool, offset: nat, len: nat, holes: set<nat>)

  const NOTHING := Trace({}, false, 0, 0, {})

  function Range(a: nat, b: nat): (r: set<nat>)
    ensures forall i: nat :: i in r <==> a <= i < b
    decreases b - a
  {
    if a >= b then {} else {a} + Range(a + 1, b)
  }

  /** A request elsewhere than behind the staged bytes flushes them. */
  function AfterFlush(t: Trace, at: nat): Trace {
    if t.flag && t.offset + t.len != at then t.(flag := false) else t
  }

  /** The part of a request in the block that it begins inside. */
  function AfterStage(bs: nat, t: Trace, at: nat, take: nat): Trace
    requires 0 < bs
  {
    var sent := t.sent + Range(at, at + take);
    var begin := at / bs * bs;
    BlockStart(bs, at);
    if t.flag then t.(len := t.len + take, sent := sent)
    else Trace(sent, true, begin, at - begin + take, Range(begin, at) - t.sent)
  }

  function AfterBegin(bs: nat, t: Trace, at: nat, take: nat): Trace
    requires 0 < bs
  {
    var v := AfterStage(bs, t, at, take);
    if v.len >= bs then v.(flag := false) else v
  }

  /** The part from a block boundary on, of which whole bytes are whole blocks. */
  function AfterWhole(t: Trace, at: nat, n: nat, whole: nat): Trace
    requires whole <= n
  {
    var v := t.(sent := t.sent + Range(at, at + n));
    if whole == n then v else v.(flag := true, offset := at + whole, len := n - whole, holes := {})
  }

  function AfterBlocks(bs: nat, t: Trace, at: nat, n: nat): Trace
    requires 0 < bs
  {
    BlockStart(bs, n);
    AfterWhole(t, at, n, n / bs * bs)
  }

  function Advance(bs: nat, t: Trace, at: nat, n: nat): Trace
    requires 0 < bs
  {
    var b := AfterFlush(t, at);
    if at % bs != 0 then
      var take := InBlock(bs, at, n);
      AfterBlocks(bs, AfterBegin(bs, b, at, take), at + take, n - take)
    else AfterBlocks(bs, b, at, n)
  }

  function Traced(bs: nat, t: Trace, requests: seq<Request>): Trace
    requires 0 < bs
    decreases |requests|
  {
    if requests == [] then t else Traced(bs, Advance(bs, t, requests[0].at, requests[0].len), requests[1..])
  }

  /** The image has the payload's bytes where they were sent and old ones elsewhere. */
  predicate Shows(w: Writer, payload: Bytes, base: Bytes, sent: set<nat>)
    requires w.offset + |w.staged| <= |w.mem|
  {
    && |payload| <= |base| == |w.mem|
    && (forall i | i in sent :: i < |payload|)
    && (forall i | 0 <= i < |base| :: w.Image()[i] == if i in sent then payload[i] else base[i])
  }

  /** b is the old byte at i if that is a hole, and the payload's byte there otherwise. */
  predicate HasByte(payload: Bytes, base: Bytes, sent: set<nat>, holes: set<nat>, i: nat, b: Byte) {
    if i in holes then i < |base| && b == base[i] else i in sent && i < |payload| && b == payload[i]
  }

  /** The stage has old bytes exactly in its holes. */
  predicate Stages(w: Writer, payload: Bytes, base: Bytes, t: Trace) {
    && w.flag == t.flag && |w.staged| == t.len && (t.len > 0 ==> w.offset == t.offset)
    && t.offset + t.len <= |base| && |payload| <= |base|
    && (forall i | i in t.holes :: t.offset <= i < t.offset + t.len)
    && (forall k | 0 <= k < t.len :: HasByte(payload, base, t.sent, t.holes, t.offset + k, w.staged[k]))
    && (t.flag ==> t.holes !! t.sent)
  }

  ghost predicate Tracks(w: Writer, bs: nat, payload: Bytes, base: Bytes, t: Trace) {
    w.Valid(bs) && Shows(w, payload, base, t.sent) && Stages(w, payload, base, t)
  }

  lemma ShowsMore(w: Writer, r: Writer, payload: Bytes, base: Bytes, sent: set<nat>, at: nat, n: nat)
    requires w.offset + |w.staged| <= |w.mem| && r.offset + |r.staged| <= |r.mem|
    requires Shows(w, payload, base, sent) && at + n <= |payload|
    requires r.Image() == Overlay(w.Image(), at, payload[at..at + n])
    ensures Shows(r, payload, base, sent + Range(at, at + n))
  {
    var m := sent + Range(at, at + n);
    var data := payload[at..at + n];
    hide Writer.Image, Overlay;
    forall i | 0 <= i < |base|
      ensures r.Image()[i] == if i in m then payload[i] else base[i]
    {
      if at <= i < at + n {
        assert r.Image()[i] == r.Image()[at..at + n][i - at];
      }
    }
  }

  lemma TracksFlush(w: Writer, bs: nat, payload: Bytes, base: Bytes, t: Trace, at: nat)
    requires Tracks(w, bs, payload, base, t)
    ensures w.Valid(bs) && Tracks(w.Before(at), bs, payload, base, AfterFlush(t, at))
    ensures w.Before(at).Valid(bs) && (w.Before(at).flag ==> w.Before(at).offset + |w.Before(at).staged| == at)
  {
    FlushKeepsImage(w, bs, at);
    hide Writer.Image, Overlay;
  }

  lemma TracksBegin(w: Writer, bs: nat, payload: Bytes, base: Bytes, t: Trace, at: nat, take: nat)
    requires Tracks(w, bs, payload, base, t) && at % bs != 0 && at + take <= |payload| && take <= bs - at % bs
    requires w.flag ==> w.offset + |w.staged| == at
    ensures Tracks(w.Begin(bs, at, payload[at..at + take]), bs, payload, base, AfterBegin(bs, t, at, take))
  {
    TracksBounds(w, bs, payload, base, t);
    var part := payload[at..at + take];
    BeginImage(w, bs, at, part);
    StagesBegin(w, bs, payload, base, t, at, take);
    BeginSends(bs, t, at, take);
    hide Overlay, Stages, Shows, HasByte, Range, AfterBegin, Writer.Image, Writer.Begin;
    ShowsMore(w, w.Begin(bs, at, part), payload, base, t.sent, at, take);
  }

  lemma BeginSends(bs: nat, t: Trace, at: nat, take: nat)
    requires 0 < bs
    ensures AfterBegin(bs, t, at, take).sent == t.sent + Range(at, at + take)
  {
    hide Range;
  }

  lemma BlocksSend(bs: nat, t: Trace, at: nat, n: nat)
    requires 0 < bs
    ensures AfterBlocks(bs, t, at, n).sent == t.sent + Range(at, at + n)
  {
    hide Range;
  }

  /** Bytes that continue the stage join it. */
  lemma StagesJoined(w: Writer, payload: Bytes, base: Bytes, t: Trace, at: nat, take: nat, v: Writer)
    requires Stages(w, payload, base, t) && t.flag && t.offset + t.len == at && at + take <= |payload|
    requires 0 < t.len && v.flag && v.offset == w.offset && v.staged == w.staged + payload[at..at + take]
    ensures Stages(v, payload, base, t.(len := t.len + take, sent := t.sent + Range(at, at + take)))
  {
  }

  /** Bytes that begin inside a block are staged behind what flash has of it. */
  lemma StagesAnew(w: Writer, payload: Bytes, base: Bytes, sent: set<nat>, begin: nat, at: nat, take: nat, v: Writer)
    requires w.offset + |w.staged| <= |w.mem| && !w.flag && Shows(w, payload, base, sent)
    requires begin <= at && at + take <= |payload|
    requires v.flag && v.offset == begin && v.staged == w.mem[begin..at] + payload[at..at + take]
    ensures Stages(v, payload, base,
                   Trace(sent + Range(at, at + take), true, begin, at - begin + take, Range(begin, at) - sent))
  {
    assert w.Image() == w.mem;
    forall k | 0 <= k < at - begin
      ensures v.staged[k] == if begin + k in sent then payload[begin + k] else base[begin + k]
    {
      assert v.staged[k] == w.mem[begin + k] == w.Image()[begin + k];
    }
  }

  lemma StagesUnflagged(w: Writer, payload: Bytes, base: Bytes, t: Trace, v: Writer)
    requires Stages(w, payload, base, t) && v.offset == w.offset && v.staged == w.staged
    ensures Stages(v.(flag := false), payload, base, t.(flag := false))
  {
  }

  lemma StagesBegin(w: Writer, bs: nat, payload: Bytes, base: Bytes, t: Trace, at: nat, take: nat)
    requires Tracks(w, bs, payload, base, t) && at % bs != 0 && at + take <= |payload| && take <= bs - at % bs
    requires w.flag ==> w.offset + |w.staged| == at
    ensures Stages(w.Begin(bs, at, payload[at..at + take]), payload, base, AfterBegin(bs, t, at, take))
  {
    TracksBounds(w, bs, payload, base, t);
    var part := payload[at..at + take];
    StagesStaged(w, bs, payload, base, t, at, take);
    StageFits(w, bs, at, part);
    hide Tracks, Writer.Valid, Writer.Stage, Writer.Begin, AfterStage, Overlay, Stages, Range;
    StagesCommitted(w.Stage(bs, at, part), bs, payload, base, AfterStage(bs, t, at, take));
  }

  /** A full block is written out and its stage kept. */
  lemma StagesCommitted(v: Writer, bs: nat, payload: Bytes, base: Bytes, u: Trace)
    requires Stages(v, payload, base, u) && v.offset + |v.staged| <= |v.mem|
    ensures Stages(v.Commit(bs), payload, base, if u.len >= bs then u.(flag := false) else u)
  {
    StagesSize(v, payload, base, u);
    hide Stages, Overlay;
    if u.len >= bs {
      StagesUnflagged(v, payload, base, u, v.Commit(bs));
    }
  }

  lemma StagesStaged(w: Writer, bs: nat, payload: Bytes, base: Bytes, t: Trace, at: nat, take: nat)
    requires 0 < bs && w.offset + |w.staged| <= |w.mem| && Shows(w, payload, base, t.sent)
    requires Stages(w, payload, base, t) && at + take <= |payload|
    requires w.flag ==> 0 < |w.staged| && w.offset + |w.staged| == at
    ensures at + take <= |w.mem|
    ensures Stages(w.Stage(bs, at, payload[at..at + take]), payload, base, AfterStage(bs, t, at, take))
  {
    ShowsSize(w, payload, base, t.sent);
    StagesSize(w, payload, base, t);
    BlockStart(bs, at);
    StageBegins(w, bs, at, payload[at..at + take], at / bs * bs);
    StageTraced(bs, t, at, take, at / bs * bs);
    hide Stages, Shows, AfterStage, Writer.Stage;
    StagesFrom(w, payload, base, t, at / bs * bs, at, take, w.Stage(bs, at, payload[at..at + take]));
  }

  lemma StageBegins(w: Writer, bs: nat, at: nat, part: Bytes, begin: nat)
    requires 0 < bs && at + |part| <= |w.mem| && begin == at / bs * bs <= at
    ensures w.Stage(bs, at, part) == if w.flag then w.(staged := w.staged + part)
                                     else w.(flag := true, offset := begin, staged := w.mem[begin..at] + part)
  {
  }

  lemma StageTraced(bs: nat, t: Trace, at: nat, take: nat, begin: nat)
    requires 0 < bs && begin == at / bs * bs <= at
    ensures AfterStage(bs, t, at, take) ==
            var sent := t.sent + Range(at, at + take);
            if t.flag then t.(len := t.len + take, sent := sent)
            else Trace(sent, true, begin, at - begin + take, Range(begin, at) - t.sent)
  {
  }

  lemma StagesFrom(w: Writer, payload: Bytes, base: Bytes, t: Trace, begin: nat, at: nat, take: nat, v: Writer)
    requires w.offset + |w.staged| <= |w.mem| && Shows(w, payload, base, t.sent) && Stages(w, payload, base, t)
    requires begin <= at && at + take <= |payload| <= |w.mem|
    requires w.flag ==> 0 < |w.staged| && w.offset + |w.staged| == at
    requires v == if w.flag then w.(staged := w.staged + payload[at..at + take])
                  else w.(flag := true, offset := begin, staged := w.mem[begin..at] + payload[at..at + take])
    ensures var sent := t.sent + Range(at, at + take);
            Stages(v, payload, base, if t.flag then t.(len := t.len + take, sent := sent)
                                     else Trace(sent, true, begin, at - begin + take, Range(begin, at) - t.sent))
  {
    StagesSize(w, payload, base, t);
    hide Stages, Shows, Range;
    if w.flag {
      StagesJoined(w, payload, base, t, at, take, v);
    } else {
      StagesAnew(w, payload, base, t.sent, begin, at, take, v);
    }
  }

  lemma ShowsSize(w: Writer, payload: Bytes, base: Bytes, sent: set<nat>)
    requires w.offset + |w.staged| <= |w.mem| && Shows(w, payload, base, sent)
    ensures |payload| <= |w.mem| == |base|
  {
  }

  lemma StagesSize(w: Writer, payload: Bytes, base: Bytes, t: Trace)
    requires Stages(w, payload, base, t)
    ensures w.flag == t.flag && |w.staged| == t.len && (t.len > 0 ==> w.offset == t.offset)
  {
  }

  lemma TracksBlocks(w: Writer, bs: nat, payload: Bytes, base: Bytes, t: Trace, at: nat, n: nat)
    requires Tracks(w, bs, payload, base, t) && !w.flag && at % bs == 0 && at + n <= |payload|
    ensures Tracks(w.Blocks(bs, at, payload[at..at + n]), bs, payload, base, AfterBlocks(bs, t, at, n))
  {
    TracksBounds(w, bs, payload, base, t);
    var data := payload[at..at + n];
    BlocksImage(w, bs, at, data);
    BlocksSend(bs, t, at, n);
    hide Overlay, Stages, Shows, HasByte, Range, AfterBlocks, Writer.Image, Writer.Blocks;
    ShowsMore(w, w.Blocks(bs, at, data), payload, base, t.sent, at, n);
    StagesBlocks(w, bs, payload, base, t, at, n);
  }

  lemma StagesBlocks(w: Writer, bs: nat, payload: Bytes, base: Bytes, t: Trace, at: nat, n: nat)
    requires 0 < bs && Stages(w, payload, base, t) && !w.flag && at + n <= |payload| <= |base| == |w.mem|
    ensures Stages(w.Blocks(bs, at, payload[at..at + n]), payload, base, AfterBlocks(bs, t, at, n))
  {
    hide Overlay, Stages, Writer.Blocks, AfterWhole;
    BlocksShape(w, bs, at, payload[at..at + n]);
    var whole := n / bs * bs;
    StagesWhole(w, payload, base, t, at, n, whole, w.Blocks(bs, at, payload[at..at + n]));
  }

  lemma StagesWhole(w: Writer, payload: Bytes, base: Bytes, t: Trace, at: nat, n: nat, whole: nat, r: Writer)
    requires Stages(w, payload, base, t) && !w.flag && at + n <= |payload| <= |base| && whole <= n
    requires if whole == n then r.staged == w.staged && r.offset == w.offset && !r.flag
             else r.staged == payload[at..at + n][whole..] && r.offset == at + whole && r.flag
    ensures Stages(r, payload, base, AfterWhole(t, at, n, whole))
  {
    StagesSize(w, payload, base, t);
    hide Stages, HasByte;
    if whole == n {
      StagesSent(w, payload, base, t, r, Range(at, at + n));
    } else {
      SliceTail(payload, at, at + n, whole);
      StagesRest(payload, base, t.sent + Range(at, at + n), at + whole, at + n, r);
    }
  }

  lemma BlocksShape(w: Writer, bs: nat, at: nat, data: Bytes)
    requires 0 < bs && at + |data| <= |w.mem|
    ensures var r, whole := w.Blocks(bs, at, data), |data| / bs * bs;
            && whole <= |data|
            && if whole == |data| then r.staged == w.staged && r.offset == w.offset && r.flag == w.flag
               else r.staged == data[whole..] && r.offset == at + whole && r.flag
  {
    BlockStart(bs, |data|);
    hide Overlay;
  }

  lemma SliceTail(s: Bytes, a: nat, b: nat, k: nat)
    requires a + k <= b <= |s|
    ensures s[a..b][k..] == s[a + k..b]
  {
  }

  lemma StagesSent(w: Writer, payload: Bytes, base: Bytes, t: Trace, r: Writer, more: set<nat>)
    requires Stages(w, payload, base, t) && !t.flag && !r.flag && r.offset == w.offset && r.staged == w.staged
    ensures Stages(r, payload, base, t.(sent := t.sent + more))
  {
  }

  lemma StagesRest(payload: Bytes, base: Bytes, sent: set<nat>, a: nat, b: nat, r: Writer)
    requires a <= b <= |payload| <= |base| && Range(a, b) <= sent
    requires r.flag && r.offset == a && r.staged == payload[a..b]
    ensures Stages(r, payload, base, Trace(sent, true, a, b - a, {}))
  {
    forall k | 0 <= k < b - a
      ensures HasByte(payload, base, sent, {}, a + k, r.staged[k])
    {
      assert a + k in Range(a, b);
    }
  }

  /** Every request takes the writer where its trace says. */
  lemma TracksStep(w: Writer, bs: nat, payload: Bytes, base: Bytes, t: Trace, at: nat, n: nat)
    requires Tracks(w, bs, payload, base, t) && at + n <= |payload| <= |w.mem|
    ensures Tracks(w.Write(bs, at, payload[at..at + n]), bs, payload, base, Advance(bs, t, at, n))
  {
    hide Tracks, Writer.Valid, Writer.Image, Writer.Before, AfterFlush, Writer.Begin, Writer.Blocks, AfterBegin,
         AfterBlocks, InBlock;
    TracksBounds(w, bs, payload, base, t);
    TracksFlush(w, bs, payload, base, t, at);
    var b, u := w.Before(at), AfterFlush(t, at);
    if at % bs == 0 {
      NotFlagged(b, bs, at);
      TracksBlocks(b, bs, payload, base, u, at, n);
    } else {
      var take := InBlock(bs, at, n);
      var chunk := payload[at..at + n];
      assert chunk[..take] == payload[at..at + take];
      SliceTail(payload, at, at + n, take);
      TracksUnaligned(b, bs, payload, base, u, at, chunk[..take], chunk[take..]);
    }
  }

  lemma TracksUnaligned(w: Writer, bs: nat, payload: Bytes, base: Bytes, t: Trace, at: nat, part: Bytes, rest: Bytes)
    requires Tracks(w, bs, payload, base, t) && at % bs != 0 && (w.flag ==> w.offset + |w.staged| == at)
    requires at + |part| + |rest| <= |payload| <= |w.mem|
    requires part == payload[at..at + |part|] && rest == payload[at + |part|..at + |part| + |rest|]
    requires |part| <= bs - at % bs && (rest == [] || |part| == bs - at % bs)
    ensures w.flag ==> w.offset + |w.staged + part| <= |w.mem|
    ensures Tracks(w.Begin(bs, at, part).Blocks(bs, at + |part|, rest), bs, payload, base,
                   AfterBlocks(bs, AfterBegin(bs, t, at, |part|), at + |part|, |rest|))
  {
    hide Tracks, Writer.Image, Writer.Begin, Writer.Blocks, AfterBegin, AfterBlocks, Writer.Valid;
    TracksBounds(w, bs, payload, base, t);
    TracksBegin(w, bs, payload, base, t, at, |part|);
    BeginImage(w, bs, at, part);
    var v := w.Begin(bs, at, part);
    if v.flag {
      assert rest == [];
      NoBlocks(v, bs, at + |part|);
      NoneAfter(bs, AfterBegin(bs, t, at, |part|), at + |part|);
    } else {
      BlockEnd(bs, at);
      TracksBlocks(v, bs, payload, base, AfterBegin(bs, t, at, |part|), at + |part|, |rest|);
    }
  }

  lemma NotFlagged(w: Writer, bs: nat, at: nat)
    requires w.Valid(bs) && at % bs == 0 && (w.flag ==> w.offset + |w.staged| == at)
    ensures !w.flag
  {
    if w.flag {
      SameBlock(bs, w.offset, |w.staged|);
    }
  }

  lemma NoneAfter(bs: nat, t: Trace, at: nat)
    requires 0 < bs
    ensures AfterBlocks(bs, t, at, 0) == t
  {
    assert t.sent + Range(at, at) == t.sent;
  }

  /** Requests for bytes that the payload has. */
  predicate Within(payload: Bytes, requests: seq<Request>) {
    forall q | q in requests :: q.at + q.len <= |payload|
  }

  lemma {:induction false} RunTracks(w: Writer, bs: nat, payload: Bytes, base: Bytes, t: Trace, requests: seq<Request>)
    requires Tracks(w, bs, payload, base, t) && Within(payload, requests)
    ensures Run(w, bs, payload, requests).Some?
    ensures Tracks(Run(w, bs, payload, requests).value, bs, payload, base, Traced(bs, t, requests))
    decreases |requests|
  {
    hide Writer.Write, Advance;
    TracksBounds(w, bs, payload, base, t);
    hide Tracks;
    if requests != [] {
      var q := requests[0];
      assert q in requests && forall p | p in requests[1..] :: p in requests;
      TracksStep(w, bs, payload, base, t, q.at, q.len);
      var r := w.Write(bs, q.at, payload[q.at..q.at + q.len]);
      RunTracks(r, bs, payload, base, Advance(bs, t, q.at, q.len), requests[1..]);
    }
  }

  lemma TracksBounds(w: Writer, bs: nat, payload: Bytes, base: Bytes, t: Trace)
    requires Tracks(w, bs, payload, base, t)
    ensures 0 < bs && w.Valid(bs) && w.flag == t.flag && w.offset + |w.staged| <= |w.mem|
    ensures |payload| <= |base| == |w.mem|
    ensures forall i | i in t.sent :: i < |payload|
  {
    hide Writer.Image;
  }

  /** The staged bytes are still due, or no hole of the stage was filled with a byte that
      differs from what flash had there. */
  predicate Spares(payload: Bytes, base: Bytes, t: Trace)
    requires |payload| <= |base| && forall i | i in t.sent :: i < |payload|
  {
    t.flag || forall i | i in t.holes && i in t.sent :: payload[i] == base[i]
  }

  /** Ending leaves the image in flash exactly then. */
  lemma EndSpares(w: Writer, bs: nat, payload: Bytes, base: Bytes, t: Trace)
    requires Tracks(w, bs, payload, base, t)
    ensures |payload| <= |base| && forall i | i in t.sent :: i < |payload|
    ensures w.End().mem == w.Image() <==> Spares(payload, base, t)
  {
    EndExact(w, bs);
    TracksBounds(w, bs, payload, base, t);
    StagesSize(w, payload, base, t);
    if !w.flag && w.staged != [] {
      FlashShows(w, payload, base, t.sent);
      StageWritten(w.mem, w.staged, payload, base, t);
    }
    hide Writer.Valid, Writer.Image, Writer.End, Shows;
    if w.staged == [] {
      assert forall i | i in t.holes :: false;
    }
  }

  lemma FlashShows(w: Writer, payload: Bytes, base: Bytes, sent: set<nat>)
    requires w.offset + |w.staged| <= |w.mem| && Shows(w, payload, base, sent) && !w.flag
    ensures forall i | 0 <= i < |base| :: w.mem[i] == if i in sent then payload[i] else base[i]
  {
  }

  /** A stage that is written out late leaves flash as it was exactly when its holes do. */
  lemma StageWritten(mem: Bytes, staged: Bytes, payload: Bytes, base: Bytes, t: Trace)
    requires |payload| <= |base| == |mem| && (forall i | i in t.sent :: i < |payload|)
    requires |staged| == t.len && t.offset + t.len <= |base|
    requires forall i | 0 <= i < |base| :: mem[i] == if i in t.sent then payload[i] else base[i]
    requires forall i | i in t.holes :: t.offset <= i < t.offset + t.len
    requires forall k | 0 <= k < t.len :: HasByte(payload, base, t.sent, t.holes, t.offset + k, staged[k])
    ensures mem[t.offset..t.offset + t.len] == staged <==>
            forall i | i in t.holes && i in t.sent :: payload[i] == base[i]
  {
    var part := mem[t.offset..t.offset + t.len];
    forall k | 0 <= k < t.len
      ensures part[k] == staged[k] <==>
                !(t.offset + k in t.holes && t.offset + k in t.sent) || payload[t.offset + k] == base[t.offset + k]
    {
      assert HasByte(payload, base, t.sent, t.holes, t.offset + k, staged[k]);
    }
    if part == staged {
      forall i | i in t.holes && i in t.sent
        ensures payload[i] == base[i]
      {
        assert part[i - t.offset] == staged[i - t.offset];
      }
    }
  }

  /** For every run over any flash: at the end the image has the payload's bytes where they
      were sent and the old ones elsewhere, and ending leaves that in flash exactly when the
      last stage is still due or no byte sent into one of its holes differs from the old one. */
  lemma RunExact(base: Bytes, bs: nat, payload: Bytes, requests: seq<Request>)
    requires 0 < bs && |payload| <= |base| && Within(payload, requests)
    ensures Run(Writer(base, false, 0, []), bs, payload, requests).Some?
    ensures var r, t := Run(Writer(base, false, 0, []), bs, payload, requests).value, Traced(bs, NOTHING, requests);
            && r.Valid(bs) && |r.mem| == |base| && (forall i | i in t.sent :: i < |payload|)
            && (forall i | 0 <= i < |base| :: r.Image()[i] == if i in t.sent then payload[i] else base[i])
            && (r.End().mem == r.Image() <==> Spares(payload, base, t))
  {
    var w := Writer(base, false, 0, []);
    assert Tracks(w, bs, payload, base, NOTHING);
    RunTracks(w, bs, payload, base, NOTHING, requests);
    var r, t := Run(w, bs, payload, requests).value, Traced(bs, NOTHING, requests);
    hide Run, Traced, Writer.Image, Writer.End, Spares;
    EndSpares(r, bs, payload, base, t);
  }

  lemma {:induction false} SentIs(bs: nat, t: Trace, requests: seq<Request>, i: nat)
    requires 0 < bs
    ensures i in Traced(bs, t, requests).sent <==>
              i in t.sent || exists q :: q in requests && q.at <= i < q.at + q.len
    decreases |requests|
  {
    if requests != [] {
      var q := requests[0];
      var u := Advance(bs, t, q.at, q.len);
      assert i in u.sent <==> i in t.sent || q.at <= i < q.at + q.len by { AdvanceSends(bs, t, q.at, q.len); }
      SentIs(bs, u, requests[1..], i);
      assert forall p :: p in requests <==> p == q || p in requests[1..];
    }
  }

  lemma AdvanceSends(bs: nat, t: Trace, at: nat, n: nat)
    requires 0 < bs
    ensures Advance(bs, t, at, n).sent == t.sent + Range(at, at + n)
  {
    var take := InBlock(bs, at, n);
    assert Range(at, at + take) + Range(at + take, at + n) == Range(at, at + n);
  }

  // ---- runs without gaps ----

  /** No request starts beyond what the earlier ones have covered up to top; bytes sent
      again are the payload's bytes again. */
  predicate GapFree(payload: Bytes, top: nat, requests: seq<Request>)
    decreases |requests|
  {
    requests == [] ||
    var q := requests[0];
    q.at <= top && q.at + q.len <= |payload| && GapFree(payload, Max(top, q.at + q.len), requests[1..])
  }

  /** How far a gap-free run reaches. */
  function Top(payload: Bytes, top: nat, requests: seq<Request>): (n: nat)
    requires top <= |payload| && GapFree(payload, top, requests)
    ensures top <= n <= |payload|
    decreases |requests|
  {
    if requests == [] then top
    else Top(payload, Max(top, requests[0].at + requests[0].len), requests[1..])
  }

  /** The stage of a run without gaps has no holes. */
  predicate Solid(t: Trace, top: nat) {
    t.holes == {} && t.sent == Range(0, top)
  }

  lemma SolidStep(bs: nat, t: Trace, top: nat, at: nat, n: nat)
    requires 0 < bs && Solid(t, top) && at <= top
    ensures Solid(Advance(bs, t, at, n), Max(top, at + n))
  {
    AdvanceSends(bs, t, at, n);
    assert Range(0, top) + Range(at, at + n) == Range(0, Max(top, at + n));
    assert forall begin: nat :: Range(begin, at) - Range(0, top) == {};
  }

  lemma {:induction false} SolidRun(bs: nat, payload: Bytes, t: Trace, top: nat, requests: seq<Request>)
    requires 0 < bs && Solid(t, top) && top <= |payload| && GapFree(payload, top, requests)
    ensures Solid(Traced(bs, t, requests), Top(payload, top, requests)) && Within(payload, requests)
    decreases |requests|
  {
    hide Solid, Advance;
    if requests != [] {
      var q := requests[0];
      SolidStep(bs, t, top, q.at, q.len);
      SolidRun(bs, payload, Advance(bs, t, q.at, q.len), Max(top, q.at + q.len), requests[1..]);
    }
  }

  /** The image has the payload up to top, and what is staged is the payload's. */
  predicate Follows(w: Writer, bs: nat, payload: Bytes, top: nat) {
    && w.Valid(bs) && top <= |payload| <= |w.mem|
    && w.Image()[..top] == payload[..top]
    && (w.staged != [] ==> w.offset + |w.staged| <= top && w.staged == payload[w.offset..w.offset + |w.staged|])
  }

  function FollowTrace(w: Writer, top: nat): Trace {
    Trace(Range(0, top), w.flag, if w.staged == [] then 0 else w.offset, |w.staged|, {})
  }

  lemma FollowsTracks(w: Writer, bs: nat, payload: Bytes, top: nat)
    requires Follows(w, bs, payload, top)
    ensures Tracks(w, bs, payload, w.Image(), FollowTrace(w, top)) && Solid(FollowTrace(w, top), top)
  {
    FollowsShows(w, payload, top);
    FollowsStages(w, payload, w.Image(), top);
    hide Writer.Image, Shows, Stages;
  }

  lemma FollowsShows(w: Writer, payload: Bytes, top: nat)
    requires w.offset + |w.staged| <= |w.mem| && top <= |payload| <= |w.mem| && w.Image()[..top] == payload[..top]
    ensures Shows(w, payload, w.Image(), Range(0, top))
  {
    hide Writer.Image;
    var image := w.Image();
    forall i | 0 <= i < top
      ensures image[i] == payload[i]
    {
      assert image[..top][i] == payload[..top][i];
    }
  }

  lemma FollowsStages(w: Writer, payload: Bytes, image: Bytes, top: nat)
    requires top <= |payload| <= |image| && (w.flag ==> w.staged != [])
    requires w.staged != [] ==>
               w.offset + |w.staged| <= top && w.staged == payload[w.offset..w.offset + |w.staged|]
    ensures Stages(w, payload, image, FollowTrace(w, top))
  {
    var t := FollowTrace(w, top);
    forall k | 0 <= k < t.len
      ensures HasByte(payload, image, t.sent, {}, t.offset + k, w.staged[k])
    {
      assert t.offset + k in t.sent;
    }
  }

  lemma TracksFollows(w: Writer, bs: nat, payload: Bytes, base: Bytes, t: Trace, top: nat)
    requires Tracks(w, bs, payload, base, t) && Solid(t, top) && top <= |payload|
    ensures Follows(w, bs, payload, top)
    ensures forall i | top <= i < |w.mem| :: w.Image()[i] == base[i]
  {
    ShowsFollows(w, payload, base, t.sent, top);
    StagesFollows(w, payload, base, t, top);
    TracksBounds(w, bs, payload, base, t);
    hide Writer.Image, Tracks, Solid, Writer.Valid;
  }

  lemma ShowsFollows(w: Writer, payload: Bytes, base: Bytes, sent: set<nat>, top: nat)
    requires w.offset + |w.staged| <= |w.mem| && Shows(w, payload, base, sent) && top <= |payload|
    requires forall i: nat :: i in sent <==> i < top
    ensures w.Image()[..top] == payload[..top]
    ensures forall i | top <= i < |w.mem| :: w.Image()[i] == base[i]
  {
    hide Writer.Image;
    assert forall i | 0 <= i < top :: i in sent;
  }

  lemma StagesFollows(w: Writer, payload: Bytes, base: Bytes, t: Trace, top: nat)
    requires Stages(w, payload, base, t) && Solid(t, top) && top <= |payload|
    ensures w.staged != [] ==>
              w.offset + |w.staged| <= top && w.staged == payload[w.offset..w.offset + |w.staged|]
  {
    if w.staged != [] {
      var last := |w.staged| - 1;
      assert HasByte(payload, base, t.sent, t.holes, t.offset + last, w.staged[last]);
      forall k | 0 <= k < |w.staged|
        ensures w.staged[k] == payload[w.offset + k]
      {
        assert HasByte(payload, base, t.sent, t.holes, t.offset + k, w.staged[k]);
      }
    }
  }

  lemma FollowsStep(w: Writer, bs: nat, payload: Bytes, top: nat, at: nat, len: nat)
    requires Follows(w, bs, payload, top) && at <= top && at + len <= |payload|
    ensures Follows(w.Write(bs, at, payload[at..at + len]), bs, payload, Max(top, at + len))
    ensures forall i | Max(top, at + len) <= i < |w.mem| ::
              w.Write(bs, at, payload[at..at + len]).Image()[i] == w.Image()[i]
  {
    FollowsTracks(w, bs, payload, top);
    var t := FollowTrace(w, top);
    TracksBounds(w, bs, payload, w.Image(), t);
    hide Writer.Write, Writer.Image, Tracks, Advance, Solid, FollowTrace, Writer.Valid;
    TracksStep(w, bs, payload, w.Image(), t, at, len);
    SolidStep(bs, t, top, at, len);
    var r := w.Write(bs, at, payload[at..at + len]);
    TracksFollows(r, bs, payload, w.Image(), Advance(bs, t, at, len), Max(top, at + len));
  }

  /** After any gap-free run the image and the final flash hold the payload, and the
      rest of flash is untouched. */
  lemma RunDelivers(w: Writer, bs: nat, payload: Bytes, top: nat, requests: seq<Request>)
    requires Follows(w, bs, payload, top) && GapFree(payload, top, requests)
    ensures Run(w, bs, payload, requests).Some?
    ensures var r := Run(w, bs, payload, requests).value;
            && r.Valid(bs) && r.End().mem == r.Image()
            && r.Image()[..Top(payload, top, requests)] == payload[..Top(payload, top, requests)]
            && forall i | Top(payload, top, requests) <= i < |w.mem| :: r.Image()[i] == w.Image()[i]
  {
    FollowsTracks(w, bs, payload, top);
    var t := FollowTrace(w, top);
    TracksBounds(w, bs, payload, w.Image(), t);
    hide Writer.Image, Writer.End, Tracks, Traced, Solid, FollowTrace, Run, GapFree, Top;
    SolidRun(bs, payload, t, top, requests);
    RunTracks(w, bs, payload, w.Image(), t, requests);
    var r, u := Run(w, bs, payload, requests).value, Traced(bs, t, requests);
    TracksFollows(r, bs, payload, w.Image(), u, Top(payload, top, requests));
    EndSpares(r, bs, payload, w.Image(), u);
    SolidSpares(payload, w.Image(), u, Top(payload, top, requests));
  }

  lemma SolidSpares(payload: Bytes, base: Bytes, t: Trace, top: nat)
    requires Solid(t, top) && |payload| <= |base| && forall i | i in t.sent :: i < |payload|
    ensures Spares(payload, base, t)
  {
  }

  lemma FollowsEnds(w: Writer, bs: nat, payload: Bytes, top: nat)
    requires Follows(w, bs, payload, top)
    ensures w.End().mem == w.Image()
  {
    RunDelivers(w, bs, payload, top, []);
  }

  /** With a gap the end of a download can undo what was written: the block is staged
      around bytes of old flash, then written whole, then overwritten by the stale stage. */
  lemma GapLosesBytes()
    ensures var w := Writer([9, 9, 9, 9], false, 0, []);
            var payload := [1, 2, 3, 4];
            var r := Run(w, 4, payload, [Request(2, 1), Request(0, 4)]);
            && w.Valid(4) && r.Some? && r.value.Valid(4)
            && r.value.Image() == payload
            && r.value.End().mem == [9, 9, 3, 4]
  {
    var w := Writer([9, 9, 9, 9], false, 0, []);
    var payload: Bytes := [1, 2, 3, 4];
    var w1 := Writer([9, 9, 9, 9], true, 0, [9, 9, 3]);
    var w2 := Writer([1, 2, 3, 4], false, 0, [9, 9, 3]);
    StagedWithGap();
    WrittenWhole();
    hide Writer.Write, Writer.Image;
    assert payload[2..3] == [3] && payload[0..4] == payload;
    var q := [Request(2, 1), Request(0, 4)];
    assert q[1..] == [Request(0, 4)] && q[1..][1..] == [];
    assert Run(w2, 4, payload, []) == Some(w2);
    assert Run(w1, 4, payload, q[1..]) == Some(w2);
    assert Run(w, 4, payload, q) == Some(w2);
  }

  lemma StagedWithGap()
    ensures Writer([9, 9, 9, 9], false, 0, []).Write(4, 2, [3]) == Writer([9, 9, 9, 9], true, 0, [9, 9, 3])
  {
  }

  lemma WrittenWhole()
    ensures Writer([9, 9, 9, 9], true, 0, [9, 9, 3]).Write(4, 0, [1, 2, 3, 4])
            == Writer([1, 2, 3, 4], false, 0, [9, 9, 3])
    ensures Writer([1, 2, 3, 4], false, 0, [9, 9, 3]).Image() == [1, 2, 3, 4]
  {
    assert Writer([9, 9, 9, 9], true, 0, [9, 9, 3]).Before(0) == Writer([9, 9, 3, 9], false, 0, [9, 9, 3]);
  }
}
