/**
 parse_host.py: packets of a capture file are sorted into time windows, with a cursor that never goes
 back.  A full scan of the windows for each packet is the specification, and the theorems say for which
 windows and captures the cursor meets it.
 */
module PacketWindows {

  datatype Window = Window(start: real, duration: real)

  function End(w: Window): real { w.start + w.duration }

  predicate Contains(w: Window, t: real) { w.start <= t <= End(w) }

  /** A packet of time t moves the cursor on from this window. */
  predicate Over(w: Window, t: real) { w.start <= t && End(w) < t }

  predicate Sorted(ws: seq<Window>) {
    forall i, j :: 0 <= i < j < |ws| ==> ws[i].start <= ws[j].start
  }

  /** The full scan: the first window from number i on that contains t, |ws| for none. */
  function FirstFrom(ws: seq<Window>, t: real, i: nat): (k: nat)
    requires i <= |ws|
    ensures i <= k <= |ws|
    ensures k < |ws| ==> Contains(ws[k], t)
    ensures forall m :: i <= m < k ==> !Contains(ws[m], t)
    decreases |ws| - i
  {
    if i == |ws| || Contains(ws[i], t) then i else FirstFrom(ws, t, i + 1)
  }

  function FullScan(ws: seq<Window>, t: real): nat { FirstFrom(ws, t, 0) }

  lemma {:induction false} FirstFromSkips(ws: seq<Window>, t: real, i: nat, k: nat)
    requires i <= k <= |ws| && forall m :: i <= m < k ==> !Contains(ws[m], t)
    ensures FirstFrom(ws, t, i) == FirstFrom(ws, t, k)
    decreases k - i
  {
    if i < k { FirstFromSkips(ws, t, i + 1, k); }
  }

  /** The scan from a cursor is right exactly when no window before the cursor contains t. */
  lemma FromCursorIff(ws: seq<Window>, t: real, cursor: nat)
    requires cursor <= |ws|
    ensures FirstFrom(ws, t, cursor) == FullScan(ws, t) <==> forall k :: 0 <= k < cursor ==> !Contains(ws[k], t)
    ensures FullScan(ws, t) == |ws| ==> FirstFrom(ws, t, cursor) == |ws|
  {
    if forall k :: 0 <= k < cursor ==> !Contains(ws[k], t) { FirstFromSkips(ws, t, 0, cursor); }
  }

  // ---------- the inner loop ----------

  /** Where the cursor is afterwards, the window hit (the number of windows for none), and the errors. */
  datatype Placed = Placed(cursor: nat, hit: nat, errors: nat)

  /** The loop from window idx on; an unrelated packet gives an error for each window it lies in. */
  function PlaceFrom(ws: seq<Window>, idx: nat, cursor: nat, t: real, related: bool): (p: Placed)
    requires idx <= |ws|
    ensures cursor <= p.cursor <= cursor + (|ws| - idx) && p.hit <= |ws| && (!related ==> p.hit == |ws|)
    decreases |ws| - idx
  {
    if idx == |ws| || t < ws[idx].start then Placed(cursor, |ws|, 0)
    else if t > End(ws[idx]) then PlaceFrom(ws, idx + 1, cursor + 1, t, related)
    else if related then Placed(cursor, idx, 0)
    else
      var p := PlaceFrom(ws, idx + 1, cursor, t, related);
      p.(errors := p.errors + 1)
  }

  method PlacePacket(ws: seq<Window>, cursor0: nat, t: real, related: bool) returns (cursor: nat, hit: nat, errors: nat)
    requires cursor0 <= |ws|
    ensures Placed(cursor, hit, errors) == PlaceFrom(ws, cursor0, cursor0, t, related)
  {
    cursor, hit, errors := cursor0, |ws|, 0;
    var idx := cursor0;
    while idx < |ws|
      invariant cursor0 <= cursor <= idx <= |ws| && hit == |ws|
      invariant var p := PlaceFrom(ws, idx, cursor, t, related);
                PlaceFrom(ws, cursor0, cursor0, t, related) == p.(errors := p.errors + errors)
    {
      if t < ws[idx].start {
        return;
      }
      if t > End(ws[idx]) {
        cursor := cursor + 1;
        idx := idx + 1;
        continue;
      }
      if !related {
        errors := errors + 1;
        idx := idx + 1;
        continue;
      }
      hit := idx;
      return;
    }
  }

  /** The break is no loss: windows behind one that has not begun have not begun. */
  lemma {:induction false} HitIs(ws: seq<Window>, idx: nat, cursor: nat, t: real, related: bool)
    requires Sorted(ws) && idx <= |ws|
    ensures PlaceFrom(ws, idx, cursor, t, related).hit == if related then FirstFrom(ws, t, idx) else |ws|
    decreases |ws| - idx
  {
    if idx < |ws| {
      if t < ws[idx].start {
        forall k | idx <= k < |ws| ensures !Contains(ws[k], t) {}
        FirstFromSkips(ws, t, idx, |ws|);
      } else {
        HitIs(ws, idx + 1, cursor + 1, t, related);
        HitIs(ws, idx + 1, cursor, t, related);
      }
    }
  }

  /** A window is over while an earlier one is not. */
  ghost predicate Nested(ws: seq<Window>) {
    exists j, k :: 0 <= j < k < |ws| && Over(ws[k], End(ws[j]))
  }

  lemma {:induction false} NoneOver(ws: seq<Window>, idx: nat, cursor: nat, t: real, related: bool)
    requires idx <= |ws| && forall k :: idx <= k < |ws| ==> !Over(ws[k], t)
    ensures PlaceFrom(ws, idx, cursor, t, related).cursor == cursor
    decreases |ws| - idx
  {
    if idx < |ws| { NoneOver(ws, idx + 1, cursor, t, related); }
  }

  /** The cursor stops at the first window that is not over, unless an unrelated packet lies in a nest. */
  lemma {:induction false} CursorMoves(ws: seq<Window>, cursor: nat, t: real, related: bool)
    requires cursor <= |ws| && (related || !Nested(ws))
    ensures var c := PlaceFrom(ws, cursor, cursor, t, related).cursor;
            && cursor <= c <= |ws| && (forall k :: cursor <= k < c ==> Over(ws[k], t))
            && (c < |ws| ==> !Over(ws[c], t))
    decreases |ws| - cursor
  {
    if cursor < |ws| && ws[cursor].start <= t {
      if End(ws[cursor]) < t {
        CursorMoves(ws, cursor + 1, t, related);
      } else if !related {
        forall k | cursor + 1 <= k < |ws| ensures !Over(ws[k], t) {
          assert !Over(ws[k], End(ws[cursor]));
        }
        NoneOver(ws, cursor + 1, cursor, t, related);
      }
    }
  }

  // ---------- the windows the cursor has passed ----------

  /** The window is over at the time of some packet seen. */
  ghost predicate SeenOver(w: Window, seen: seq<real>) {
    exists i :: 0 <= i < |seen| && Over(w, seen[i])
  }

  /** So is each window up to number k. */
  ghost predicate Gone(ws: seq<Window>, seen: seq<real>, k: nat)
    requires k < |ws|
  {
    forall j :: 0 <= j <= k ==> SeenOver(ws[j], seen)
  }

  ghost predicate CursorIs(ws: seq<Window>, seen: seq<real>, cursor: nat) {
    cursor <= |ws| && forall k :: 0 <= k < |ws| ==> (k < cursor <==> Gone(ws, seen, k))
  }

  lemma CursorFirst(ws: seq<Window>)
    ensures CursorIs(ws, [], 0)
  {
    forall k | 0 <= k < |ws| ensures !Gone(ws, [], k) {
      assert !SeenOver(ws[k], []);
    }
  }

  /** The cursor has passed just those windows, whatever the order of the packets. */
  lemma CursorNext(ws: seq<Window>, seen: seq<real>, cursor: nat, t: real, related: bool)
    requires CursorIs(ws, seen, cursor) && (related || !Nested(ws))
    ensures CursorIs(ws, seen + [t], PlaceFrom(ws, cursor, cursor, t, related).cursor)
  {
    var c, more := PlaceFrom(ws, cursor, cursor, t, related).cursor, seen + [t];
    CursorMoves(ws, cursor, t, related);
    forall k | 0 <= k < |ws| ensures k < c <==> Gone(ws, more, k) {
      if k < c {
        forall j | 0 <= j <= k ensures SeenOver(ws[j], more) {
          OverSeen(ws, seen, cursor, t, c, j);
        }
      } else {
        NotGone(ws, seen, cursor, t, c, k);
      }
    }
  }

  lemma OverSeen(ws: seq<Window>, seen: seq<real>, cursor: nat, t: real, c: nat, j: nat)
    requires CursorIs(ws, seen, cursor) && cursor <= c <= |ws| && j < c
    requires forall k :: cursor <= k < c ==> Over(ws[k], t)
    ensures SeenOver(ws[j], seen + [t])
  {
    if j < cursor {
      assert Gone(ws, seen, j) && SeenOver(ws[j], seen);
      var i :| 0 <= i < |seen| && Over(ws[j], seen[i]);
      assert (seen + [t])[i] == seen[i];
    } else {
      assert (seen + [t])[|seen|] == t;
    }
  }

  lemma NotGone(ws: seq<Window>, seen: seq<real>, cursor: nat, t: real, c: nat, k: nat)
    requires CursorIs(ws, seen, cursor) && cursor <= c <= k < |ws|
    requires (forall j :: cursor <= j < c ==> Over(ws[j], t)) && !Over(ws[c], t)
    ensures !Gone(ws, seen + [t], k)
  {
    if Gone(ws, seen + [t], k) {
      assert SeenOver(ws[c], seen + [t]);
      var i :| 0 <= i < |seen + [t]| && Over(ws[c], (seen + [t])[i]);
      assert i < |seen| && Over(ws[c], seen[i]);
      assert Gone(ws, seen, c) by {
        forall j | 0 <= j <= c ensures SeenOver(ws[j], seen) {
          if j < cursor { assert Gone(ws, seen, j); }
          if cursor <= j < c { assert Over(ws[j], seen[i]); }
        }
      }
    }
  }

  /** The next packet goes where the full scan puts it exactly when no window that is gone contains it. */
  ghost predicate NotTooLate(ws: seq<Window>, seen: seq<real>, t: real) {
    forall k :: 0 <= k < |ws| && Gone(ws, seen, k) ==> !Contains(ws[k], t)
  }

  lemma HitRightIff(ws: seq<Window>, seen: seq<real>, cursor: nat, t: real)
    requires Sorted(ws) && CursorIs(ws, seen, cursor)
    ensures PlaceFrom(ws, cursor, cursor, t, true).hit == FullScan(ws, t) <==> NotTooLate(ws, seen, t)
    ensures FullScan(ws, t) == |ws| ==> PlaceFrom(ws, cursor, cursor, t, true).hit == |ws|
  {
    HitIs(ws, cursor, cursor, t, true);
    FromCursorIff(ws, t, cursor);
  }

  /** Packets in time order are never too late. */
  lemma InTime(ws: seq<Window>, seen: seq<real>, t: real)
    requires forall i :: 0 <= i < |seen| ==> seen[i] <= t
    ensures NotTooLate(ws, seen, t)
  {
    forall k | 0 <= k < |ws| && Gone(ws, seen, k) ensures !Contains(ws[k], t) {
      assert SeenOver(ws[k], seen);
      var i :| 0 <= i < |seen| && Over(ws[k], seen[i]);
    }
  }

  /** Without nested windows, just the window's own end counts. */
  lemma NotTooLateIff(ws: seq<Window>, seen: seq<real>, t: real)
    requires Sorted(ws) && !Nested(ws)
    ensures NotTooLate(ws, seen, t)
       <==> forall i, k :: 0 <= i < |seen| && 0 <= k < |ws| && Over(ws[k], seen[i]) ==> !Contains(ws[k], t)
  {
    forall i, k | 0 <= i < |seen| && 0 <= k < |ws| && Over(ws[k], seen[i]) ensures Gone(ws, seen, k) {
      forall j | 0 <= j <= k ensures SeenOver(ws[j], seen) {
        assert j < k ==> ws[j].start <= ws[k].start && !Over(ws[k], End(ws[j]));
        assert Over(ws[j], seen[i]);
      }
    }
    forall k | 0 <= k < |ws| && Gone(ws, seen, k) ensures SeenOver(ws[k], seen) {}
  }

  // ---------- packets ----------

  datatype Packet = Packet(time: real, len: nat, src: nat, dst: nat, srcPort: nat, dstPort: nat)

  datatype Option<T> = None | Some(v: T)

  /** get_orientation_client, None for the exception */
  function OrientationClient(p: Packet, own: nat): Option<int> {
    if p.src == own then Some(1) else if p.dst == own then Some(-1) else None
  }
  function OrientationServer(p: Packet, own: nat): Option<int> {
    if p.src == own then Some(-1) else if p.dst == own then Some(1) else None
  }
  function PortOf(p: Packet, own: nat): Option<nat> {
    if p.src == own then Some(p.srcPort) else if p.dst == own then Some(p.dstPort) else None
  }

  /** A line written to the file of a window: the time since the window's start and the signed length. */
  datatype Line = Line(window: nat, time: real, size: int)

  ghost predicate TimeOrdered(ps: seq<Packet>) {
    forall i, j :: 0 <= i < j < |ps| ==> ps[i].time <= ps[j].time
  }

  // ---------- files of lines ----------

  /** f(0), f(1), ... f(n - 1) */
  function Joined<T>(f: nat -> seq<T>, n: nat): seq<T> {
    if n == 0 then [] else Joined(f, n - 1) + f(n - 1)
  }

  lemma {:induction false} JoinedShorter<T>(f: nat -> seq<T>, g: nat -> seq<T>, n: nat)
    requires forall i: nat :: i < n ==> |f(i)| <= |g(i)|
    ensures |Joined(f, n)| <= |Joined(g, n)|
  {
    if n != 0 { JoinedShorter(f, g, n - 1); }
  }

  /** When no part is longer than its counterpart, the wholes are equal only if all parts are. */
  lemma {:induction false} JoinedEqualIff<T>(f: nat -> seq<T>, g: nat -> seq<T>, n: nat)
    requires forall i: nat :: i < n ==> |f(i)| <= |g(i)|
    ensures Joined(f, n) == Joined(g, n) <==> forall i: nat :: i < n ==> f(i) == g(i)
  {
    if n != 0 {
      JoinedEqualIff(f, g, n - 1);
      JoinedShorter(f, g, n - 1);
      var a, b := Joined(f, n - 1), Joined(g, n - 1);
      if Joined(f, n) == Joined(g, n) {
        assert |a| == |b| && |f(n - 1)| == |g(n - 1)|;
        assert a == Joined(f, n)[..|a|] && b == Joined(g, n)[..|b|];
        assert f(n - 1) == Joined(f, n)[|a|..] && g(n - 1) == Joined(g, n)[|b|..];
      }
    }
  }

  lemma {:induction false} JoinedSame<T>(f: nat -> seq<T>, g: nat -> seq<T>, n: nat)
    requires forall i: nat :: i < n ==> f(i) == g(i)
    ensures Joined(f, n) == Joined(g, n)
  {
    if n != 0 { JoinedSame(f, g, n - 1); }
  }

  /** What a packet writes when it goes to window `hit`; nothing when that is no window. */
  function Written(ws: seq<Window>, hit: nat, p: Packet, orientation: Option<int>): seq<Line> {
    if |ws| <= hit || orientation.None? then [] else [Line(hit, p.time - ws[hit].start, p.len * orientation.v)]
  }

  function Scanned(ws: seq<Window>, p: Packet, orientation: Option<int>): seq<Line> {
    Written(ws, FullScan(ws, p.time), p, orientation)
  }

  /** What a full scan writes: one line, for the first window that contains the packet's time; nothing if none does. */
  lemma ScanWrites(ws: seq<Window>, p: Packet, orientation: Option<int>)
    ensures var r := Scanned(ws, p, orientation);
            if orientation.None? || forall k :: 0 <= k < |ws| ==> !(ws[k].start <= p.time <= ws[k].start + ws[k].duration) then r == []
            else
              && |r| == 1 && r[0].window < |ws| && r[0].size == p.len * orientation.v
              && var w := ws[r[0].window];
              && r[0].time == p.time - w.start && w.start <= p.time <= w.start + w.duration
              && forall k :: 0 <= k < r[0].window ==> !(ws[k].start <= p.time <= ws[k].start + ws[k].duration)
  {
    var k := FullScan(ws, p.time);
    if k < |ws| { assert Contains(ws[k], p.time); }
    forall m | 0 <= m < k ensures !(ws[m].start <= p.time <= ws[m].start + ws[m].duration) {
      assert !Contains(ws[m], p.time);
    }
  }

  /** The client's line: its own packets count positively, those to it negatively, and others are not written. */
  lemma ClientWrites(ws: seq<Window>, p: Packet, own: nat)
    ensures var r := Scanned(ws, p, OrientationClient(p, own));
            if (p.src != own && p.dst != own) || forall k :: 0 <= k < |ws| ==> !(ws[k].start <= p.time <= ws[k].start + ws[k].duration)
            then r == []
            else
              && |r| == 1 && r[0].window < |ws| && r[0].size == p.len * (if p.src == own then 1 else -1)
              && var w := ws[r[0].window];
              && r[0].time == p.time - w.start && w.start <= p.time <= w.start + w.duration
              && forall k :: 0 <= k < r[0].window ==> !(ws[k].start <= p.time <= ws[k].start + ws[k].duration)
  {
    ScanWrites(ws, p, OrientationClient(p, own));
  }

  // ---------- the client ----------

  /** The lines that a full scan for each packet would write, packet by packet. */
  function InflowLines(ws: seq<Window>, ps: seq<Packet>, own: nat): seq<Line> {
    Joined((i: nat) => if i < |ps| then Scanned(ws, ps[i], OrientationClient(ps[i], own)) else [], |ps|)
  }

  /** The file is written packet by packet. */
  lemma InflowAppends(ws: seq<Window>, ps: seq<Packet>, p: Packet, own: nat)
    ensures InflowLines(ws, [], own) == []
    ensures InflowLines(ws, ps + [p], own) == InflowLines(ws, ps, own) + Scanned(ws, p, OrientationClient(p, own))
  {
    hide Scanned;
    var more := ps + [p];
    var f := (i: nat) => if i < |ps| then Scanned(ws, ps[i], OrientationClient(ps[i], own)) else [];
    var g := (i: nat) => if i < |more| then Scanned(ws, more[i], OrientationClient(more[i], own)) else [];
    JoinedSame(f, g, |ps|);
    assert more[|ps|] == p;
  }

  /** Where the client's cursor is after n packets. */
  function InflowCursor(ws: seq<Window>, ps: seq<Packet>, own: nat, n: nat): (c: nat)
    requires n <= |ps|
    ensures c <= |ws|
  {
    if n == 0 then 0
    else
      var c := InflowCursor(ws, ps, own, n - 1);
      PlaceFrom(ws, c, c, ps[n - 1].time, OrientationClient(ps[n - 1], own).Some?).cursor
  }

  function InflowLine(ws: seq<Window>, ps: seq<Packet>, own: nat, n: nat): seq<Line> {
    if n < |ps| then
      var c, o := InflowCursor(ws, ps, own, n), OrientationClient(ps[n], own);
      Written(ws, PlaceFrom(ws, c, c, ps[n].time, o.Some?).hit, ps[n], o)
    else []
  }

  /** The lines that the cursor has them write. */
  function CursorInflow(ws: seq<Window>, ps: seq<Packet>, own: nat): seq<Line> {
    Joined((i: nat) => InflowLine(ws, ps, own, i), |ps|)
  }

  /** parse_pcap_inflow, for any windows and any capture. */
  method ParseInflow(ws: seq<Window>, ps: seq<Packet>, own: nat) returns (lines: seq<Line>)
    ensures lines == CursorInflow(ws, ps, own)
  {
    lines := [];
    var completed := 0;
    ghost var f := (i: nat) => InflowLine(ws, ps, own, i);
    for n := 0 to |ps|
      invariant completed == InflowCursor(ws, ps, own, n) && lines == Joined(f, n)
    {
      var orientation := OrientationClient(ps[n], own);
      var cursor, hit, errors := PlacePacket(ws, completed, ps[n].time, orientation.Some?);
      if hit < |ws| {
        lines := lines + [Line(hit, ps[n].time - ws[hit].start, ps[n].len * orientation.v)];
      }
      assert f(n) == Written(ws, hit, ps[n], orientation);
      completed := cursor;
    }
  }

  predicate Related(p: Packet, own: nat) { OrientationClient(p, own).Some? }

  function Times(ps: seq<Packet>, n: nat): seq<real>
    requires n <= |ps|
  {
    seq(n, i requires 0 <= i < n => ps[i].time)
  }

  lemma {:induction false} InflowCursorIs(ws: seq<Window>, ps: seq<Packet>, own: nat, n: nat)
    requires n <= |ps| && (!Nested(ws) || forall i :: 0 <= i < |ps| ==> Related(ps[i], own))
    ensures CursorIs(ws, Times(ps, n), InflowCursor(ws, ps, own, n))
  {
    if n == 0 {
      CursorFirst(ws);
      assert Times(ps, 0) == [];
    } else {
      InflowCursorIs(ws, ps, own, n - 1);
      assert Times(ps, n) == Times(ps, n - 1) + [ps[n - 1].time];
      assert Related(ps[n - 1], own) || !Nested(ws);
      CursorNext(ws, Times(ps, n - 1), InflowCursor(ws, ps, own, n - 1), ps[n - 1].time, Related(ps[n - 1], own));
    }
  }

  /** No packet of the client lies in a window that was over, with all before it, for packets before. */
  ghost predicate InflowInTime(ws: seq<Window>, ps: seq<Packet>, own: nat) {
    forall n :: 0 <= n < |ps| && Related(ps[n], own) ==> NotTooLate(ws, Times(ps, n), ps[n].time)
  }

  lemma InflowLineIff(ws: seq<Window>, ps: seq<Packet>, own: nat, n: nat)
    requires Sorted(ws) && n < |ps| && (!Nested(ws) || forall i :: 0 <= i < |ps| ==> Related(ps[i], own))
    ensures var o := OrientationClient(ps[n], own);
            && |InflowLine(ws, ps, own, n)| <= |Scanned(ws, ps[n], o)|
            && (InflowLine(ws, ps, own, n) == Scanned(ws, ps[n], o)
                <==> (o.Some? ==> NotTooLate(ws, Times(ps, n), ps[n].time)))
  {
    if Related(ps[n], own) {
      InflowCursorIs(ws, ps, own, n);
      HitRightIff(ws, Times(ps, n), InflowCursor(ws, ps, own, n), ps[n].time);
    }
  }

  /** For any capture, the file of the client is as full scans would have it exactly when no packet is too late. */
  lemma InflowRightIff(ws: seq<Window>, ps: seq<Packet>, own: nat)
    requires Sorted(ws) && (!Nested(ws) || forall i :: 0 <= i < |ps| ==> Related(ps[i], own))
    ensures CursorInflow(ws, ps, own) == InflowLines(ws, ps, own) <==> InflowInTime(ws, ps, own)
  {
    hide Scanned, InflowLine, NotTooLate;
    var f := (i: nat) => InflowLine(ws, ps, own, i);
    var g := (i: nat) => if i < |ps| then Scanned(ws, ps[i], OrientationClient(ps[i], own)) else [];
    forall i: nat | i < |ps|
      ensures |f(i)| <= |g(i)| && (f(i) == g(i) <==> (Related(ps[i], own) ==> NotTooLate(ws, Times(ps, i), ps[i].time)))
    {
      InflowLineIff(ws, ps, own, i);
    }
    JoinedEqualIff(f, g, |ps|);
  }

  /** A capture in time order is in time. */
  lemma InOrderInTime(ws: seq<Window>, ps: seq<Packet>, own: nat)
    requires TimeOrdered(ps)
    ensures InflowInTime(ws, ps, own)
  {
    forall n | 0 <= n < |ps| ensures NotTooLate(ws, Times(ps, n), ps[n].time) {
      InTime(ws, Times(ps, n), ps[n].time);
    }
  }

  /** Windows of equal length, as the experiments have them, are not nested. */
  lemma EqualLengthsDoNotNest(ws: seq<Window>)
    requires Sorted(ws) && forall i, j :: 0 <= i < j < |ws| ==> ws[i].duration == ws[j].duration
    ensures !Nested(ws)
  {
    forall j, k | 0 <= j < k < |ws| ensures !Over(ws[k], End(ws[j])) {
      assert ws[j].start <= ws[k].start && ws[j].duration == ws[k].duration;
    }
  }

  // ---------- when the client's cursor fails ----------

  lemma {:induction false} PassesOne(ws: seq<Window>, idx: nat, cursor: nat, t: real, k: nat)
    requires Sorted(ws) && idx <= k < |ws| && Over(ws[k], t)
    ensures PlaceFrom(ws, idx, cursor, t, false).cursor > cursor
    decreases k - idx
  {
    assert idx < k ==> ws[idx].start <= ws[k].start;
    if idx < k && t <= End(ws[idx]) { PassesOne(ws, idx + 1, cursor, t, k); }
  }

  /** An unrelated packet in window f and behind the end of a later one moves the cursor past window f. */
  lemma {:induction false} PassesTooMany(ws: seq<Window>, idx: nat, cursor: nat, t: real, k: nat)
    requires Sorted(ws) && idx <= |ws| && FirstFrom(ws, t, idx) < k < |ws| && Over(ws[k], t)
    ensures PlaceFrom(ws, idx, cursor, t, false).cursor > cursor + (FirstFrom(ws, t, idx) - idx)
    decreases |ws| - idx
  {
    var f := FirstFrom(ws, t, idx);
    if idx == f {
      PassesOne(ws, idx + 1, cursor, t, k);
    } else {
      assert ws[idx].start <= ws[f].start;
      PassesTooMany(ws, idx + 1, cursor + 1, t, k);
    }
  }

  lemma SecondMisplaced(ws: seq<Window>, t: real, k: nat)
    requires Sorted(ws) && FullScan(ws, t) < k < |ws| && Over(ws[k], t)
    ensures var c := PlaceFrom(ws, 0, 0, t, false).cursor;
            PlaceFrom(ws, c, c, t, true).hit != FullScan(ws, t)
  {
    var c := PlaceFrom(ws, 0, 0, t, false).cursor;
    PassesTooMany(ws, 0, 0, t, k);
    HitIs(ws, c, c, t, true);
    FromCursorIff(ws, t, c);
  }

  /** Nested windows: a packet of others and then one of the client, at the same time, which is misplaced. */
  lemma NestMisplaces(ws: seq<Window>, own: nat) returns (ps: seq<Packet>)
    requires Sorted(ws) && Nested(ws)
    ensures TimeOrdered(ps) && |ps| == 2 && CursorInflow(ws, ps, own) != InflowLines(ws, ps, own)
  {
    hide PlaceFrom, FirstFrom;
    var j, k :| 0 <= j < k < |ws| && Over(ws[k], End(ws[j]));
    var t := End(ws[j]);
    ps := [Packet(t, 0, own + 1, own + 1, 0, 0), Packet(t, 0, own, own, 0, 0)];
    assert ws[j].start <= ws[k].start && Contains(ws[j], t);
    SecondMisplaced(ws, t, k);
    assert InflowCursor(ws, ps, own, 0) == 0;
    assert InflowCursor(ws, ps, own, 1) == PlaceFrom(ws, 0, 0, t, false).cursor;
    var f := (i: nat) => InflowLine(ws, ps, own, i);
    var g := (i: nat) => if i < |ps| then Scanned(ws, ps[i], OrientationClient(ps[i], own)) else [];
    assert |f(0)| == 0 == |g(0)| && |f(1)| <= |g(1)| && f(1) != g(1);
    JoinedEqualIff(f, g, |ps|);
  }

  /** The cursor is right for all captures in time order exactly when the windows are not nested. */
  lemma WindowsSafeIff(ws: seq<Window>, own: nat)
    requires Sorted(ws)
    ensures !Nested(ws) <==> forall ps :: TimeOrdered(ps) ==> CursorInflow(ws, ps, own) == InflowLines(ws, ps, own)
  {
    if Nested(ws) {
      var ps := NestMisplaces(ws, own);
    } else {
      forall ps | TimeOrdered(ps) ensures CursorInflow(ws, ps, own) == InflowLines(ws, ps, own) {
        InOrderInTime(ws, ps, own);
        InflowRightIff(ws, ps, own);
      }
    }
  }

  /** Two packets out of order: the second one is lost, though it lies in a window. */
  lemma OutOfOrderLost()
    ensures var ws, ps := [Window(0.0, 60.0), Window(100.0, 60.0)], [Packet(100.0, 5, 1, 2, 0, 0), Packet(30.0, 7, 1, 2, 0, 0)];
            && InflowLines(ws, ps, 1) == [Line(1, 0.0, 5), Line(0, 30.0, 7)]
            && CursorInflow(ws, ps, 1) == [Line(1, 0.0, 5)]
  {
    var ws, ps := [Window(0.0, 60.0), Window(100.0, 60.0)], [Packet(100.0, 5, 1, 2, 0, 0), Packet(30.0, 7, 1, 2, 0, 0)];
    assert !Contains(ws[0], 100.0) && Contains(ws[1], 100.0) && Contains(ws[0], 30.0);
    assert FullScan(ws, 100.0) == 1 by { FirstFromSkips(ws, 100.0, 0, 1); }
    assert FullScan(ws, 30.0) == 0;
    assert PlaceFrom(ws, 0, 0, 100.0, true) == PlaceFrom(ws, 1, 1, 100.0, true) == Placed(1, 1, 0);
    assert InflowCursor(ws, ps, 1, 0) == 0 && InflowCursor(ws, ps, 1, 1) == 1;
    assert PlaceFrom(ws, 1, 1, 30.0, true) == Placed(1, 2, 0);
    var f := (i: nat) => InflowLine(ws, ps, 1, i);
    var g := (i: nat) => if i < |ps| then Scanned(ws, ps[i], OrientationClient(ps[i], 1)) else [];
    assert f(0) == g(0) == [Line(1, 0.0, 5)] && f(1) == [] && g(1) == [Line(0, 30.0, 7)];
    assert Joined(f, 1) == Joined(f, 0) + f(0) && Joined(g, 1) == Joined(g, 0) + g(0);
  }

  // ---------- the server ----------

  /** Line of a port's file, none or one. */
  function ForPort(port: nat, ls: seq<Line>): seq<(nat, Line)> {
    if ls == [] then [] else [(port, ls[0])]
  }

  /** The packet is one of the server's, on a port with windows. */
  predicate OnPort(info: map<nat, seq<Window>>, p: Packet, own: nat, port: nat) {
    PortOf(p, own) == Some(port) && port in info
  }

  /** What a full scan writes for a packet; packets of other hosts and ports write nothing. */
  function OutflowScan(info: map<nat, seq<Window>>, p: Packet, own: nat): seq<(nat, Line)> {
    var port := PortOf(p, own);
    if port.None? || port.v !in info then []
    else ForPort(port.v, Scanned(info[port.v], p, OrientationServer(p, own)))
  }

  /** The server's line is in the file of its own port, and has the opposite sign. */
  lemma ServerWrites(info: map<nat, seq<Window>>, p: Packet, own: nat)
    ensures var r, port := OutflowScan(info, p, own), if p.src == own then p.srcPort else p.dstPort;
            if (p.src != own && p.dst != own) || port !in info then r == []
            else
              var ws := info[port];
              if forall k :: 0 <= k < |ws| ==> !(ws[k].start <= p.time <= ws[k].start + ws[k].duration) then r == []
              else
                && |r| == 1 && r[0].0 == port && r[0].1.window < |ws| && r[0].1.size == p.len * (if p.src == own then -1 else 1)
                && var w := ws[r[0].1.window];
                && r[0].1.time == p.time - w.start && w.start <= p.time <= w.start + w.duration
                && forall k :: 0 <= k < r[0].1.window ==> !(ws[k].start <= p.time <= ws[k].start + ws[k].duration)
  {
    var port := if p.src == own then p.srcPort else p.dstPort;
    if (p.src == own || p.dst == own) && port in info { ScanWrites(info[port], p, OrientationServer(p, own)); }
  }

  function OutflowLines(info: map<nat, seq<Window>>, ps: seq<Packet>, own: nat): seq<(nat, Line)> {
    Joined((i: nat) => if i < |ps| then OutflowScan(info, ps[i], own) else [], |ps|)
  }

  lemma OutflowAppends(info: map<nat, seq<Window>>, ps: seq<Packet>, p: Packet, own: nat)
    ensures OutflowLines(info, [], own) == []
    ensures OutflowLines(info, ps + [p], own) == OutflowLines(info, ps, own) + OutflowScan(info, p, own)
  {
    hide OutflowScan;
    var more := ps + [p];
    var f := (i: nat) => if i < |ps| then OutflowScan(info, ps[i], own) else [];
    var g := (i: nat) => if i < |more| then OutflowScan(info, more[i], own) else [];
    JoinedSame(f, g, |ps|);
    assert more[|ps|] == p;
  }

  /** Where the cursor of a port is after n packets; only the port's own packets move it. */
  function OutflowCursor(ws: seq<Window>, ps: seq<Packet>, own: nat, port: nat, n: nat): (c: nat)
    requires n <= |ps|
    ensures c <= |ws|
  {
    if n == 0 then 0
    else
      var c := OutflowCursor(ws, ps, own, port, n - 1);
      if PortOf(ps[n - 1], own) == Some(port) then PlaceFrom(ws, c, c, ps[n - 1].time, true).cursor else c
  }

  function OutflowLine(info: map<nat, seq<Window>>, ps: seq<Packet>, own: nat, n: nat): seq<(nat, Line)> {
    if n >= |ps| || PortOf(ps[n], own).None? || PortOf(ps[n], own).v !in info then []
    else
      var port := PortOf(ps[n], own).v;
      var ws := info[port];
      var c := OutflowCursor(ws, ps, own, port, n);
      ForPort(port, Written(ws, PlaceFrom(ws, c, c, ps[n].time, true).hit, ps[n], OrientationServer(ps[n], own)))
  }

  function CursorOutflow(info: map<nat, seq<Window>>, ps: seq<Packet>, own: nat): seq<(nat, Line)> {
    Joined((i: nat) => OutflowLine(info, ps, own, i), |ps|)
  }

  /** The dictionary of cursors. */
  ghost predicate CursorsAre(info: map<nat, seq<Window>>, completed: map<nat, nat>, ps: seq<Packet>, own: nat, n: nat)
    requires n <= |ps|
  {
    && completed.Keys == info.Keys
    && forall port :: port in info ==> completed[port] == OutflowCursor(info[port], ps, own, port, n)
  }

  /** parse_pcap_outflow, for any windows and any capture. */
  method ParseOutflow(info: map<nat, seq<Window>>, ps: seq<Packet>, own: nat) returns (lines: seq<(nat, Line)>, errors: nat)
    ensures lines == CursorOutflow(info, ps, own)
    ensures errors == 0 <==> forall i :: 0 <= i < |ps| ==> OrientationServer(ps[i], own).Some?
  {
    hide OutflowLine, CursorsAre;
    lines, errors := [], 0;
    var completed: map<nat, nat> := map port: nat | port in info :: 0;
    assert CursorsAre(info, completed, ps, own, 0) by { CursorsFirst(info, completed, ps, own); }
    ghost var f := (i: nat) => OutflowLine(info, ps, own, i);
    for n := 0 to |ps|
      invariant CursorsAre(info, completed, ps, own, n) && lines == Joined(f, n)
      invariant errors == 0 <==> forall i :: 0 <= i < n ==> OrientationServer(ps[i], own).Some?
    {
      var e, ls;
      completed, e, ls := OutflowPacket(info, completed, ps, n, own);
      lines, errors := lines + ls, errors + e;
    }
  }

  lemma CursorsFirst(info: map<nat, seq<Window>>, completed: map<nat, nat>, ps: seq<Packet>, own: nat)
    requires completed.Keys == info.Keys && forall port :: port in info ==> completed[port] == 0
    ensures CursorsAre(info, completed, ps, own, 0)
  {
  }

  /** One packet: an error line, a line in a window's file, or nothing. */
  method OutflowPacket(info: map<nat, seq<Window>>, completed0: map<nat, nat>, ps: seq<Packet>, n: nat, own: nat)
      returns (completed: map<nat, nat>, errors: nat, lines: seq<(nat, Line)>)
    requires n < |ps| && CursorsAre(info, completed0, ps, own, n)
    ensures CursorsAre(info, completed, ps, own, n + 1) && lines == OutflowLine(info, ps, own, n)
    ensures errors == if OrientationServer(ps[n], own).None? then 1 else 0
  {
    var p := ps[n];
    completed, errors, lines := completed0, 0, [];
    var orientation, port := OrientationServer(p, own), PortOf(p, own);
    if orientation.None? {
      errors := 1;
    } else if port.v in info {
      var ws := info[port.v];
      var cursor, hit, e := PlacePacket(ws, completed[port.v], p.time, true);
      completed := completed[port.v := cursor];
      if hit < |ws| {
        lines := [(port.v, Line(hit, p.time - ws[hit].start, p.len * orientation.v))];
      }
    }
  }

  /** The times of the port's packets among the first n. */
  function PortTimes(ps: seq<Packet>, own: nat, port: nat, n: nat): seq<real>
    requires n <= |ps|
  {
    if n == 0 then []
    else PortTimes(ps, own, port, n - 1) + if PortOf(ps[n - 1], own) == Some(port) then [ps[n - 1].time] else []
  }

  lemma {:induction false} OutflowCursorIs(ws: seq<Window>, ps: seq<Packet>, own: nat, port: nat, n: nat)
    requires n <= |ps|
    ensures CursorIs(ws, PortTimes(ps, own, port, n), OutflowCursor(ws, ps, own, port, n))
  {
    if n == 0 {
      CursorFirst(ws);
    } else {
      OutflowCursorIs(ws, ps, own, port, n - 1);
      assert PortTimes(ps, own, port, n - 1) + [] == PortTimes(ps, own, port, n - 1);
      CursorNext(ws, PortTimes(ps, own, port, n - 1), OutflowCursor(ws, ps, own, port, n - 1), ps[n - 1].time, true);
    }
  }

  ghost predicate OutflowInTime(info: map<nat, seq<Window>>, ps: seq<Packet>, own: nat) {
    forall n, port :: 0 <= n < |ps| && OnPort(info, ps[n], own, port)
                  ==> NotTooLate(info[port], PortTimes(ps, own, port, n), ps[n].time)
  }

  lemma OutflowLineIff(info: map<nat, seq<Window>>, ps: seq<Packet>, own: nat, n: nat)
    requires (forall port :: port in info ==> Sorted(info[port])) && n < |ps|
    ensures |OutflowLine(info, ps, own, n)| <= |OutflowScan(info, ps[n], own)|
    ensures OutflowLine(info, ps, own, n) == OutflowScan(info, ps[n], own)
       <==> forall port :: OnPort(info, ps[n], own, port) ==> NotTooLate(info[port], PortTimes(ps, own, port, n), ps[n].time)
  {
    hide NotTooLate, CursorIs;
    var port := PortOf(ps[n], own);
    if port.Some? && port.v in info {
      var ws := info[port.v];
      OutflowCursorIs(ws, ps, own, port.v, n);
      HitRightIff(ws, PortTimes(ps, own, port.v, n), OutflowCursor(ws, ps, own, port.v, n), ps[n].time);
      assert OnPort(info, ps[n], own, port.v);
    }
  }

  /** The server's files, for any capture and windows of any length: each port's packets have the same condition. */
  lemma OutflowRightIff(info: map<nat, seq<Window>>, ps: seq<Packet>, own: nat)
    requires forall port :: port in info ==> Sorted(info[port])
    ensures CursorOutflow(info, ps, own) == OutflowLines(info, ps, own) <==> OutflowInTime(info, ps, own)
  {
    hide OutflowScan, OutflowLine, NotTooLate;
    var f := (i: nat) => OutflowLine(info, ps, own, i);
    var g := (i: nat) => if i < |ps| then OutflowScan(info, ps[i], own) else [];
    forall i: nat | i < |ps|
      ensures |f(i)| <= |g(i)|
      ensures f(i) == g(i)
         <==> forall port :: OnPort(info, ps[i], own, port) ==> NotTooLate(info[port], PortTimes(ps, own, port, i), ps[i].time)
    {
      OutflowLineIff(info, ps, own, i);
    }
    JoinedEqualIff(f, g, |ps|);
  }

  lemma {:induction false} PortTimesBefore(ps: seq<Packet>, own: nat, port: nat, n: nat, t: real)
    requires n <= |ps| && forall i :: 0 <= i < n ==> ps[i].time <= t
    ensures forall i :: 0 <= i < |PortTimes(ps, own, port, n)| ==> PortTimes(ps, own, port, n)[i] <= t
  {
    if n != 0 { PortTimesBefore(ps, own, port, n - 1, t); }
  }

  lemma InOrderOutflow(info: map<nat, seq<Window>>, ps: seq<Packet>, own: nat)
    requires (forall port :: port in info ==> Sorted(info[port])) && TimeOrdered(ps)
    ensures CursorOutflow(info, ps, own) == OutflowLines(info, ps, own)
  {
    forall n, port | 0 <= n < |ps| && OnPort(info, ps[n], own, port)
      ensures NotTooLate(info[port], PortTimes(ps, own, port, n), ps[n].time)
    {
      PortTimesBefore(ps, own, port, n, ps[n].time);
      InTime(info[port], PortTimes(ps, own, port, n), ps[n].time);
    }
    OutflowRightIff(info, ps, own);
  }

  /** The client's file, for windows of equal length and a capture in time order. */
  lemma InOrderInflow(ws: seq<Window>, ps: seq<Packet>, own: nat)
    requires Sorted(ws) && TimeOrdered(ps)
    requires forall i, j :: 0 <= i < j < |ws| ==> ws[i].duration == ws[j].duration
    ensures CursorInflow(ws, ps, own) == InflowLines(ws, ps, own)
  {
    EqualLengthsDoNotNest(ws);
    WindowsSafeIff(ws, own);
  }
}
