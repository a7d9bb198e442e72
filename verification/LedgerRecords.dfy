/** What each call does to each height's record. */
module LedgerRecords {
  // Entry by entry, without positions: which fields of which heights a call
  // writes, what it writes there, and that it leaves every other entry alone.

  import opened FixedWidth
  import opened SortedHoles
  import opened LedgerSpec
  import opened LedgerHistory

  lemma EntryHeight<T>(s: seq<Hole<T>>, e: Hole<T>)
    requires e in s
    ensures e.height in Heights(s)
  {
    var i :| 0 <= i < |s| && s[i] == e;
  }

  lemma OneEntry<T>(s: seq<Hole<T>>, a: Hole<T>, b: Hole<T>)
    requires Ascending(s) && a in s && b in s && a.height == b.height
    ensures a == b
  {
    var i :| 0 <= i < |s| && s[i] == a;
    var j :| 0 <= j < |s| && s[j] == b;
    assert !(i < j) && !(j < i);
  }

  lemma InsertAtHas<T>(s: seq<T>, i: nat, x: T)
    requires i <= |s|
    ensures x in InsertAt(s, i, x) && forall e :: e in s ==> e in InsertAt(s, i, x)
  {
    assert s == s[..i] + s[i..];
  }

  lemma RemoveAtHas<T>(s: seq<T>, i: nat, e: T)
    requires i < |s| && e in s && e != s[i]
    ensures e in RemoveAt(s, i)
  {
    assert s == s[..i] + [s[i]] + s[i + 1..];
  }

  lemma UpdateHas<T>(s: seq<T>, i: nat, x: T)
    requires i < |s|
    ensures x in s[i := x] && forall e :: e in s && e != s[i] ==> e in s[i := x]
  {
    assert s[i := x][i] == x;
    forall e | e in s && e != s[i] ensures e in s[i := x] {
      var k :| 0 <= k < |s| && s[k] == e;
      assert s[i := x][k] == e;
    }
  }

  // ---- requests and races ---------------------------------------------------

  lemma InsertRecords(out: seq<Outstanding>, h: u32, peer: u128, port: u16, now: u32)
    requires Ascending(out) && |out| <= OUTSTANDING_MAX && forall x :: x in Heights(out) ==> x < U32_MAX
    ensures var r := Insert(out, h, peer, port, now);
            && (forall e :: e in out && e.height != h && e.height != r.1 ==> e in r.0)
            && (forall e :: e in out && e.height == h ==>
                  Hole(h, e.info.(peer := peer, port := port, requestedAt := now)) in r.0)
            && (h !in Heights(out) ==> Hole(h, Retry(peer, port, now, 0, 0, 0, 1)) in r.0)
  {
    var i, added := LowerBound(out, h), Fresh(h, peer, port, now);
    hide LowerBoundFrom, Heights, Ascending;
    if i < |out| && out[i].height == h {
      UpdateHas(out, i, Hole(h, out[i].info.(peer := peer, port := port, requestedAt := now)));
      forall e | e in out && e.height == h ensures e == out[i] { OneEntry(out, e, out[i]); }
      EntryHeight(out, out[i]);
    } else {
      NotHeld(out, h);
      if |out| >= OUTSTANDING_MAX {
        InsertAtHas(out[1..], if i > 0 then i - 1 else 0, added);
        assert out == [out[0]] + out[1..];
      } else {
        InsertAtHas(out, i, added);
      }
    }
  }

  lemma NotHeld(out: seq<Outstanding>, h: u32)
    requires Ascending(out) && !Holds(out, h)
    ensures forall e :: e in out ==> e.height != h
  {
    HoldsIsMembership(out, h);
    forall e | e in out ensures e.height != h { EntryHeight(out, e); }
  }

  /** An entry after one insertion. */
  lemma InsertedRecord(out: seq<Outstanding>, h: u32, peer: u128, port: u16, now: u32, e: Outstanding)
    requires Ascending(out) && |out| <= OUTSTANDING_MAX && forall x :: x in Heights(out) ==> x < U32_MAX
    requires e in Insert(out, h, peer, port, now).0
    ensures e.height != h ==> e in out && e.height != Insert(out, h, peer, port, now).1
    ensures e.height == h && h in Heights(out) ==>
              exists o :: o in out && o.height == h &&
                          e == Hole(h, o.info.(peer := peer, port := port, requestedAt := now))
    ensures e.height == h && h !in Heights(out) ==> e == Hole(h, Retry(peer, port, now, 0, 0, 0, 1))
  {
    var r := Insert(out, h, peer, port, now);
    InsertKeeps(out, h, peer, port, now);
    InsertRecords(out, h, peer, port, now);
    hide Insert;
    EntryHeight(r.0, e);
    if e.height in Heights(out) {
      var i :| 0 <= i < |out| && out[i].height == e.height;
      assert out[i] in out;
      hide Ascending, Heights;
      OneEntry(r.0, e, if e.height != h then out[i]
                       else Hole(h, out[i].info.(peer := peer, port := port, requestedAt := now)));
    } else {
      hide Ascending, Heights;
      OneEntry(r.0, e, Hole(h, Retry(peer, port, now, 0, 0, 0, 1)));
    }
  }

  /** The entry keeps its past and takes the target and the time. */
  ghost predicate AskedAnew(out: seq<Outstanding>, e: Outstanding, peer: u128, port: u16, now: u32) {
    exists o :: o in out && o.height == e.height && e.info == o.info.(peer := peer, port := port, requestedAt := now)
  }

  /** An entry after a range was inserted. */
  lemma {:induction false} RangeRecord(out: seq<Outstanding>, from: nat, end: nat, peer: u128, port: u16, now: u32,
                                       e: Outstanding)
    requires from <= end <= U32_MAX && Ascending(out) && |out| <= OUTSTANDING_MAX
    requires forall x :: x in Heights(out) ==> x < U32_MAX
    requires e in InsertRange(out, from, end, peer, port, now).0
    ensures var dropped := Elems(InsertRange(out, from, end, peer, port, now).1);
            && (!(from <= e.height < end) ==> e in out && e.height !in dropped)
            && (from <= e.height < end && e.height in Heights(out) && e.height !in dropped ==>
                  AskedAnew(out, e, peer, port, now))
            && (from <= e.height < end && (e.height !in Heights(out) || e.height in dropped) ==>
                  e.info == Retry(peer, port, now, 0, 0, 0, 1))
    decreases end
  {
    hide Insert, Requested, Ascending, Heights;
    if from < end {
      var before, h: u32 := InsertRange(out, from, end - 1, peer, port, now), end - 1;
      var last := Insert(before.0, h, peer, port, now);
      InsertRangeKeeps(out, from, end - 1, peer, port, now);
      RequestedMeans(out, from, end - 1, before.0, Elems(before.1));
      InsertedRecord(before.0, h, peer, port, now, e);
      assert Elems(before.1 + [last.1]) == Elems(before.1) + {last.1};
      if e.height != h {
        RangeRecord(out, from, end - 1, peer, port, now, e);
      } else if h in Heights(before.0) {
        var o :| o in before.0 && o.height == h &&
          e == Hole(h, o.info.(peer := peer, port := port, requestedAt := now));
        RangeRecord(out, from, end - 1, peer, port, now, o);
        InsertKeeps(before.0, h, peer, port, now);
        EntryHeight(out, o);
      }
    }
  }

  lemma RequestedMeans(out: seq<Outstanding>, from: int, end: int, list: seq<Outstanding>, dropped: set<int>)
    requires Requested(out, from, end, list, dropped) && forall x :: x in Heights(out) ==> x < U32_MAX
    requires end < U32_MAX
    ensures Ascending(list) && |list| <= OUTSTANDING_MAX && forall x :: x in Heights(list) ==> x < U32_MAX
    ensures forall x :: x in Heights(out) ==> x in Heights(list) || x in dropped
  {
  }

  /** After a request: inside the range a height that stayed keeps its past and takes the target and the time, any other
      one is new; outside the range every entry is one from before. */
  lemma RequestRecords(w: World, op: Op, e: Outstanding)
    requires Sound(w) && Allowed(w.s, op) && op.RequestOp? && e in Apply(w.s, op).outstanding
    ensures Apply(w.s, op).gaveUp == w.s.gaveUp && Apply(w.s, op).lastDriveAt == w.s.lastDriveAt
    ensures var held := e.height in Heights(w.s.outstanding);
            var asked := Max(op.startH, w.s.abandonedBelow) <= e.height <= op.stopH;
            && (!asked ==> e in w.s.outstanding)
            && (asked && held && e.height !in Evictions(w.s, op) ==>
                  AskedAnew(w.s.outstanding, e, op.peer, op.port, op.now))
            && (asked && (!held || e.height in Evictions(w.s, op)) ==>
                  e.info == Retry(op.peer, op.port, op.now, 0, 0, 0, 1))
  {
    hide *;
    var from := Max(op.startH, w.s.abandonedBelow);
    RequestIs(w.s, op);
    RequestBounds(w, op);
    MaxIs(op.startH, w.s.abandonedBelow);
    if from <= op.stopH { RangeRecord(w.s.outstanding, from, op.stopH + 1, op.peer, op.port, op.now, e); }
  }

  lemma MaxIs(a: u32, b: u32)
    ensures Max(a, b) == if a < b then b else a
  {
  }

  lemma RequestBounds(w: World, op: Op)
    requires Sound(w) && Allowed(w.s, op) && op.RequestOp?
    ensures op.stopH < U32_MAX && Ascending(w.s.outstanding) && |w.s.outstanding| <= OUTSTANDING_MAX
    ensures forall x :: x in Heights(w.s.outstanding) ==> x < U32_MAX
  {
    hide Heights, Ascending;
  }

  lemma RequestIs(s: State, op: Op)
    requires op.RequestOp?
    ensures var from, t := Max(op.startH, s.abandonedBelow), Apply(s, op);
            && t.gaveUp == s.gaveUp && t.lastDriveAt == s.lastDriveAt
            && (op.stopH < from ==> t == s)
            && (from <= op.stopH ==>
                  var ins := InsertRange(s.outstanding, from, op.stopH + 1, op.peer, op.port, op.now);
                  t.outstanding == ins.0 && Evictions(s, op) == Elems(ins.1))
  {
    hide InsertRange;
  }

  lemma FlagRecord(out: seq<Outstanding>, h: u32, e: Outstanding)
    requires Ascending(out) && e in FlagHeaderRace(out, h)
    ensures e.height != h ==> e in out
    ensures e.height == h ==> exists o :: o in out && o.height == h && e == Hole(h, o.info.(headerRace := 1))
  {
    var i, r := LowerBound(out, h), FlagHeaderRace(out, h);
    var k :| 0 <= k < |r| && r[k] == e;
    assert out[k] in out;
    hide LowerBoundFrom;
    if !(i < |out| && out[i].height == h) {
      NotHeld(out, h);
    } else if k != i {
      assert out[k].height != h;
    }
  }

  /** After a header race: its height is flagged, and is new with nothing else on record unless it was outstanding;
      every other entry is one from before. */
  lemma RaceRecords(w: World, op: Op, e: Outstanding)
    requires Sound(w) && Allowed(w.s, op) && op.HeaderRaceOp? && e in Apply(w.s, op).outstanding
    ensures Apply(w.s, op).gaveUp == w.s.gaveUp && Apply(w.s, op).lastDriveAt == w.s.lastDriveAt
    ensures var held, marked := op.h in Heights(w.s.outstanding), op.h >= w.s.abandonedBelow && e.height == op.h;
            && (!marked ==> e in w.s.outstanding)
            && (marked && held ==>
                  exists o :: o in w.s.outstanding && o.height == op.h && e.info == o.info.(headerRace := 1))
            && (marked && !held ==> e.info == Retry(0, 0, 0, 0, 1, 0, 1))
  {
    var out, h := w.s.outstanding, op.h;
    assert forall x :: x in Heights(out) ==> x < U32_MAX;
    HoldsIsMembership(out, h);
    if h >= w.s.abandonedBelow {
      if Holds(out, h) {
        FlagRecord(out, h, e);
      } else {
        var ins := Insert(out, h, 0, 0, 0).0;
        InsertKeeps(out, h, 0, 0, 0);
        FlagRecord(ins, h, e);
        hide Insert, FlagHeaderRace, Heights, Ascending;
        if e.height == h {
          var o :| o in ins && o.height == h && e == Hole(h, o.info.(headerRace := 1));
          InsertedRecord(out, h, 0, 0, 0, o);
        } else {
          InsertedRecord(out, h, 0, 0, 0, e);
        }
      }
    }
  }

  // ---- calls that edit entries in their places ------------------------------

  /** Losing a peer: its holes lose their target and their latch, and nothing else changes. */
  lemma LosePeerRecords(s: State, peer: u128, port: u16, i: nat)
    requires i < |s.outstanding|
    ensures var t, r := ReArmPeer(s, peer, port), s.outstanding[i].info;
            && |t.outstanding| == |s.outstanding| && t.outstanding[i].height == s.outstanding[i].height
            && t.outstanding[i].info ==
                 (if r.peer == peer && r.port == port
                  then Retry(0, 0, r.requestedAt, r.attempts, r.headerRace, r.rearmCycles, 0) else r)
            && t == s.(outstanding := t.outstanding)
  {
  }

  /** Offers that missed their peer: the range loses its latch, and nothing else changes. */
  lemma MissedRecords(s: State, startH: u32, stopH: u32, i: nat)
    requires i < |s.outstanding|
    ensures var t, r := MarkOffersMissedLivePeer(s, startH, stopH), s.outstanding[i].info;
            && |t.outstanding| == |s.outstanding| && t.outstanding[i].height == s.outstanding[i].height
            && t.outstanding[i].info ==
                 Retry(r.peer, r.port, r.requestedAt, r.attempts, r.headerRace, r.rearmCycles,
                       if startH <= s.outstanding[i].height <= stopH then 0 else r.offersReachedLivePeer)
            && t == s.(outstanding := t.outstanding)
  {
  }

  /** A commit: the range has had one more offer, now, to the peer named. */
  lemma CommitRecords(s: State, startH: u32, stopH: u32, peer: u128, port: u16, now: u32, i: nat)
    requires i < |s.outstanding|
    ensures var t, r := CommitRerequest(s, startH, stopH, peer, port, now), s.outstanding[i].info;
            && |t.outstanding| == |s.outstanding| && t.outstanding[i].height == s.outstanding[i].height
            && t.outstanding[i].info ==
                 (if startH <= s.outstanding[i].height <= stopH
                  then Retry(peer, port, now, (r.attempts + 1) % 256, r.headerRace, r.rearmCycles,
                             r.offersReachedLivePeer)
                  else r)
            && t == s.(outstanding := t.outstanding)
  {
  }

  /** A restart: of an entry only its header race and its re-arm count survive, and the latch is set. */
  lemma RestartRecords(s: State, i: nat)
    requires i < |s.outstanding|
    ensures var t, r := Restored(s), s.outstanding[i].info;
            && |t.outstanding| == |s.outstanding| && t.outstanding[i].height == s.outstanding[i].height
            && t.outstanding[i].info == Retry(0, 0, 0, 0, r.headerRace, r.rearmCycles, 1)
            && t == s.(outstanding := t.outstanding, lastDriveAt := 0)
  {
  }

  // ---- retiring and driving -------------------------------------------------

  /** What is on record of a height parked with this evidence, over what was parked before. */
  ghost predicate Joined(before: seq<Parked>, e: Outstanding, p: Parked) {
    && p.height == e.height
    && (e.height !in Heights(before) ==> p.info == Verdict(e.info.rearmCycles, e.info.offersReachedLivePeer))
    && (forall q :: q in before && q.height == e.height ==>
          p.info.rearmCycles ==
            (if q.info.rearmCycles < e.info.rearmCycles then e.info.rearmCycles else q.info.rearmCycles) &&
          p.info.offersLive == (if e.info.offersReachedLivePeer == 0 then 0 else q.info.offersLive))
  }

  lemma ParkRecords(gave: seq<Parked>, e: Outstanding)
    requires Ascending(gave) && |gave| <= GAVEUP_MAX
    ensures var r := Park(gave, e.height, VerdictOf(e.info));
            && (r.1 ==> exists p :: p in r.0 && Joined(gave, e, p))
            && (forall q :: q in gave && (q.height != e.height || !r.1) ==> q in r.0)
            && (!r.1 <==> |gave| == GAVEUP_MAX && e.height !in Heights(gave))
  {
    var h, v := e.height, VerdictOf(e.info);
    var i := LowerBound(gave, h);
    HoldsIsMembership(gave, h);
    hide LowerBoundFrom;
    var r := Park(gave, h, v);
    if Holds(gave, h) {
      UpdateHas(gave, i, r.0[i]);
      forall q | q in gave && q.height == h ensures q == gave[i] { OneEntry(gave, q, gave[i]); }
      assert Joined(gave, e, r.0[i]);
    } else if |gave| < GAVEUP_MAX {
      InsertAtHas(gave, i, Hole(h, v));
      forall q | q in gave ensures q.height != h { EntryHeight(gave, q); }
      assert Joined(gave, e, Hole(h, v));
    }
  }

  lemma JoinedBefore(gave: seq<Parked>, more: seq<Parked>, e: Outstanding, p: Parked)
    requires Joined(more, e, p) && Heights(more) >= Heights(gave)
    requires e.height in Heights(more) ==> e.height in Heights(gave)
    requires forall q :: q in gave && q.height == e.height ==> q in more
    ensures Joined(gave, e, p)
  {
  }

  lemma {:induction false} RetireKeepsSome(out: seq<Outstanding>, gave: seq<Parked>, i: nat)
    requires i <= |out|
    ensures forall e :: e in RetireFrom(out, gave, i).0 ==> e in out
    decreases |out| - i
  {
    hide Park;
    if i < |out| {
      var p := Park(gave, out[i].height, VerdictOf(out[i].info));
      if out[i].info.attempts >= MAX_ATTEMPTS && p.1 {
        RetireKeepsSome(RemoveAt(out, i), p.0, i);
        assert forall e :: e in RemoveAt(out, i) ==> e in out;
      } else {
        RetireKeepsSome(out, gave, i + 1);
      }
    }
  }

  /** A parked height that no capped entry names stays as it is. */
  lemma {:induction false} ParkedStays(out: seq<Outstanding>, gave: seq<Parked>, i: nat, q: Parked)
    requires i <= |out| && Ascending(gave) && |gave| <= GAVEUP_MAX && q in gave
    requires forall e :: e in out && e.height == q.height ==> e.info.attempts < 5
    ensures q in RetireFrom(out, gave, i).1
    decreases |out| - i
  {
    hide Park, Heights, Ascending, Joined;
    if i < |out| {
      var c := out[i];
      var p := Park(gave, c.height, VerdictOf(c.info));
      if c.info.attempts >= MAX_ATTEMPTS {
        ParkRecords(gave, c);
        ParkKeeps(gave, c.height, VerdictOf(c.info));
      }
      if c.info.attempts >= MAX_ATTEMPTS && p.1 {
        assert c in out;
        assert forall e :: e in RemoveAt(out, i) ==> e in out;
        ParkedStays(RemoveAt(out, i), p.0, i, q);
      } else {
        ParkedStays(out, gave, i + 1, q);
      }
    }
  }

  /** What retiring from position i on does with an entry e of the list. */
  lemma {:induction false} RetireRecord(out: seq<Outstanding>, gave: seq<Parked>, i: nat, e: Outstanding)
    requires i <= |out| && Ascending(out) && Ascending(gave) && |gave| <= GAVEUP_MAX && e in out
    ensures var r := RetireFrom(out, gave, i);
            && (e in out[..i] || e.info.attempts < 5 ==> e in r.0)
            && (e in out[i..] && e.info.attempts >= 5 ==>
                  if e in r.0 then e.height !in Heights(gave) else exists p :: p in r.1 && Joined(gave, e, p))
    decreases |out| - i
  {
    hide Park, Heights, Ascending, Joined;
    if i < |out| {
      var c := out[i];
      var p := Park(gave, c.height, VerdictOf(c.info));
      assert out[i..] == [c] + out[i + 1..] && out[..i + 1] == out[..i] + [c];
      if c.info.attempts >= MAX_ATTEMPTS {
        ParkRecords(gave, c);
        ParkKeeps(gave, c.height, VerdictOf(c.info));
      }
      if c.info.attempts >= MAX_ATTEMPTS && p.1 {
        if e == c { RetiredNow(out, gave, i); } else {
          var rest := RemoveAt(out, i);
          RemoveAtHeights(out, i);
          RemoveAtHas(out, i, e);
          assert rest[..i] == out[..i] && rest[i..] == out[i + 1..];
          RetireRecord(rest, p.0, i, e);
          if e.height == c.height { OneEntry(out, e, c); }
          forall v | v in RetireFrom(rest, p.0, i).1 && Joined(p.0, e, v) ensures Joined(gave, e, v) {
            JoinedBefore(gave, p.0, e, v);
          }
        }
      } else {
        RetireRecord(out, gave, i + 1, e);
      }
    }
  }

  lemma RetiredNow(out: seq<Outstanding>, gave: seq<Parked>, i: nat)
    requires i < |out| && Ascending(out) && Ascending(gave) && |gave| <= GAVEUP_MAX
    requires out[i].info.attempts >= MAX_ATTEMPTS && Park(gave, out[i].height, VerdictOf(out[i].info)).1
    ensures var r := RetireFrom(out, gave, i);
            out[i] !in r.0 && out[i] !in out[..i] && exists p :: p in r.1 && Joined(gave, out[i], p)
  {
    hide Park, Heights, Ascending, Joined;
    var c, rest := out[i], RemoveAt(out, i);
    var p := Park(gave, c.height, VerdictOf(c.info));
    ParkRecords(gave, c);
    ParkKeeps(gave, c.height, VerdictOf(c.info));
    RemoveAtHeights(out, i);
    RetireKeepsSome(rest, p.0, i);
    forall e | e in rest ensures e.height != c.height { EntryHeight(rest, e); }
    assert forall e :: e in out[..i] ==> e in rest;
    var q :| q in p.0 && Joined(gave, c, q);
    JoinedHeight(gave, c, q);
    ParkedStays(rest, p.0, i, q);
  }

  lemma JoinedHeight(gave: seq<Parked>, e: Outstanding, p: Parked)
    requires Joined(gave, e, p)
    ensures p.height == e.height
  {
  }

  /** Retiring: what may still be offered stays; what has had its five offers is parked, its evidence joined to what was
      parked of the height, or stays when it was not parked and there is no room; a parked height without such an entry
      is left alone. */
  lemma RetireRecords(s: State)
    requires Ordered(s)
    ensures var t := RetireCapped(s);
            && (forall e :: e in s.outstanding && e.info.attempts < 5 ==> e in t.outstanding)
            && (forall e :: e in s.outstanding && e.info.attempts >= 5 ==>
                  if e in t.outstanding then e.height !in Heights(s.gaveUp)
                  else exists p :: p in t.gaveUp && Joined(s.gaveUp, e, p))
            && (forall q ::
                  q in s.gaveUp && (forall e :: e in s.outstanding && e.height == q.height ==> e.info.attempts < 5) ==>
                    q in t.gaveUp)
            && (forall e :: e in t.outstanding ==> e in s.outstanding)
            && Heights(t.outstanding) + Heights(t.gaveUp) == Heights(s.outstanding) + Heights(s.gaveUp)
            && t == s.(outstanding := t.outstanding, gaveUp := t.gaveUp)
  {
    var out, gave := s.outstanding, s.gaveUp;
    RetireFromKeeps(out, gave, 0);
    RetireKeepsSome(out, gave, 0);
    hide RetireFrom, Heights, Ascending, Joined;
    assert out[0..] == out;
    forall e | e in out { RetireRecord(out, gave, 0, e); }
    forall q | q in gave && (forall e :: e in out && e.height == q.height ==> e.info.attempts < 5)
      ensures q in RetireFrom(out, gave, 0).1
    {
      ParkedStays(out, gave, 0, q);
    }
  }

  /** A call of the single driver: it retires, notes the time, and offers the first entry that may be offered, which
      then has had one offer more, now; nothing else changes. */
  lemma NextRecords(s: State, now: u32) returns (i: nat)
    ensures var r, t := RetireCapped(s), NextRerequest(s, now);
            && i <= |r.outstanding| && (forall k :: 0 <= k < i ==> !Offerable(r.outstanding[k], now))
            && (i == |r.outstanding| ==> t == r.(lastDriveAt := now))
            && (i < |r.outstanding| ==>
                  var o := r.outstanding[i];
                  Offerable(o, now) && o.info.attempts < 5 &&
                  t == r.(lastDriveAt := now,
                          outstanding := r.outstanding[i := Hole(o.height, o.info.(attempts := o.info.attempts + 1,
                                                                                   requestedAt := now))]))
  {
    hide RetireCapped, Due;
    i := FirstOfferable(RetireCapped(s).outstanding, now, 0);
  }

  // ---- re-arming ------------------------------------------------------------

  /** A fresh cycle: no target, no time, no attempt, no race, one cycle more, the latch set. */
  function Cycle(cycles: u8): Retry { Retry(0, 0, 0, 0, 0, if cycles < 255 then cycles + 1 else 255, 1) }

  lemma ReArmParked(s: State, h: u32)
    requires Ordered(s) && Holds(s.gaveUp, h)
    ensures var r := RemoveAt(s.gaveUp, LowerBound(s.gaveUp, h));
            forall p :: p in r <==> p in s.gaveUp && p.height != h
  {
    var i := LowerBound(s.gaveUp, h);
    RemoveAtHeights(s.gaveUp, i);
    var r := RemoveAt(s.gaveUp, i);
    hide LowerBoundFrom, Ascending, Heights;
    forall p ensures p in r <==> p in s.gaveUp && p.height != h {
      if p in r { EntryHeight(r, p); assert p in s.gaveUp; }
      if p in s.gaveUp && p.height != h { RemoveAtHas(s.gaveUp, i, p); }
    }
  }

  /** A height inserted without a target or a time has neither. */
  lemma InsertedBlank(out: seq<Outstanding>, h: u32, i: nat)
    requires Ascending(out) && |out| <= OUTSTANDING_MAX && forall x :: x in Heights(out) ==> x < U32_MAX
    requires h < U32_MAX && i == LowerBound(Insert(out, h, 0, 0, 0).0, h)
    ensures var ins := Insert(out, h, 0, 0, 0).0;
            && Ascending(ins) && i < |ins| && ins[i].height == h
            && ins[i].info.peer == 0 && ins[i].info.port == 0 && ins[i].info.requestedAt == 0
  {
    var ins := Insert(out, h, 0, 0, 0).0;
    InsertKeeps(out, h, 0, 0, 0);
    HoldsIsMembership(ins, h);
    hide Insert, Heights, Ascending;
    assert ins[i] in ins;
    InsertedRecord(out, h, 0, 0, 0, ins[i]);
  }

  lemma ReArmOutstanding(s: State, h: u32, g: Parked)
    requires Ordered(s) && HolesInRange(s) && ReArmGaveUp(s, h).1 && g == s.gaveUp[LowerBound(s.gaveUp, h)]
    ensures var t := ReArmGaveUp(s, h).0.outstanding;
            && Hole(h, Cycle(g.info.rearmCycles)) in t
            && (forall e :: e in s.outstanding && e.height != h ==> e in t)
  {
    var ins := Insert(s.outstanding, h, 0, 0, 0).0;
    var i := LowerBound(ins, h);
    ReArmIs(s, h, g, ins, i);
    var out := s.outstanding;
    ReArmBounds(s, h);
    InsertedBlank(out, h, i);
    InsertRecords(out, h, 0, 0, 0);
    FreshIsCycle(ins[i], h, g.info.rearmCycles);
    UpdateHas(ins, i, Hole(h, Cycle(g.info.rearmCycles)));
    hide *;
    InsertDropsNone(out, h);
    forall e | e in out && e.height != h ensures e in ReArmGaveUp(s, h).0.outstanding { EntryHeight(out, e); }
  }

  lemma FreshIsCycle(e: Outstanding, h: u32, cycles: u8)
    requires e.height == h && e.info.peer == 0 && e.info.port == 0 && e.info.requestedAt == 0
    ensures FreshCycle(e, Saturated(cycles)) == Hole(h, Cycle(cycles))
  {
  }

  lemma ReArmBounds(s: State, h: u32)
    requires Ordered(s) && HolesInRange(s) && ReArmGaveUp(s, h).1
    ensures Ascending(s.outstanding) && |s.outstanding| < OUTSTANDING_MAX && h < U32_MAX && h in Heights(s.gaveUp)
    ensures forall x :: x in Heights(s.outstanding) ==> x < U32_MAX
  {
    HoldsIsMembership(s.gaveUp, h);
    hide Insert, Heights, Ascending;
  }

  lemma InsertDropsNone(out: seq<Outstanding>, h: u32)
    requires |out| < OUTSTANDING_MAX
    ensures Insert(out, h, 0, 0, 0).1 == NO_DROP && NO_DROP == U32_MAX
  {
    hide LowerBoundFrom;
  }

  lemma ReArmIs(s: State, h: u32, g: Parked, ins: seq<Outstanding>, i: nat)
    requires Ordered(s) && HolesInRange(s) && ReArmGaveUp(s, h).1 && g == s.gaveUp[LowerBound(s.gaveUp, h)]
    requires ins == Insert(s.outstanding, h, 0, 0, 0).0 && i == LowerBound(ins, h)
    ensures i < |ins| && ReArmGaveUp(s, h).0.outstanding == ins[i := FreshCycle(ins[i], Saturated(g.info.rearmCycles))]
  {
    ReArmBounds(s, h);
    InsertedBlank(s.outstanding, h, i);
    hide Insert, LowerBoundFrom, Heights, Ascending;
  }

  /** Re-arming one height is refused exactly below the floor, for a height that is not parked, or with no room; it
      moves the height from one list to the other and leaves every other entry alone. */
  lemma ReArmRecords(s: State, h: u32)
    requires Ordered(s) && HolesInRange(s)
    ensures var r := ReArmGaveUp(s, h);
            && (r.1 <==> h >= s.abandonedBelow && h in Heights(s.gaveUp) && |s.outstanding| < OUTSTANDING_MAX)
            && (!r.1 ==> r.0 == s)
            && (r.1 ==>
                  && r.0.requestedThrough == (if s.requestedThrough < h then h else s.requestedThrough)
                  && (forall p :: p in s.gaveUp && p.height == h ==>
                        Hole(h, Cycle(p.info.rearmCycles)) in r.0.outstanding)
                  && (forall e :: e in s.outstanding && e.height != h ==> e in r.0.outstanding)
                  && (forall p :: p in r.0.gaveUp <==> p in s.gaveUp && p.height != h)
                  && Heights(r.0.outstanding) == Heights(s.outstanding) + {h})
  {
    HoldsIsMembership(s.gaveUp, h);
    if ReArmGaveUp(s, h).1 {
      var g := s.gaveUp[LowerBound(s.gaveUp, h)];
      ReArmGaveUpLists(s, h);
      ReArmParked(s, h);
      ReArmOutstanding(s, h, g);
      forall p | p in s.gaveUp && p.height == h ensures p == g { OneEntry(s.gaveUp, p, g); }
    }
    hide Insert, Heights, Ascending, LowerBoundFrom;
  }

  /** Height k of s has started a fresh cycle in t: it had spent its offers, or was parked and not outstanding. */
  ghost predicate CycledAt(s: State, t: State, k: int) {
    && (forall e :: e in s.outstanding && e.height == k ==>
          e.info.attempts >= 5 && Hole(e.height, Cycle(e.info.rearmCycles)) in t.outstanding)
    && (k !in Heights(s.outstanding) ==>
          k in Heights(s.gaveUp) &&
          forall p :: p in s.gaveUp && p.height == k ==> Hole(p.height, Cycle(p.info.rearmCycles)) in t.outstanding)
  }

  /** Outside [from..end) the outstanding entries of s are in t; what is parked in t is what was parked in s, without
      the heights of [from..end) that were not outstanding as well. */
  ghost predicate OthersStay(s: State, t: State, from: int, end: int) {
    && (forall e :: e in s.outstanding && !(from <= e.height < end) ==> e in t.outstanding)
    && (forall p :: p in t.gaveUp <==>
          p in s.gaveUp && !(from <= p.height < end && p.height !in Heights(s.outstanding)))
    && (forall k :: k in Heights(t.outstanding) && !(from <= k < end) ==> k in Heights(s.outstanding))
  }

  /** The height at which a run stops cannot be re-armed. */
  ghost predicate Stuck(s: State, full: bool, k: int) {
    || k < s.abandonedBelow
    || (exists e :: e in s.outstanding && e.height == k && e.info.attempts < 5)
    || (k !in Heights(s.outstanding) && (k !in Heights(s.gaveUp) || full))
  }

  function ReArmStep(s: State, h: u32): State {
    if Holds(s.outstanding, h) then ReArmInPlace(s, h) else ReArmGaveUp(s, h).0
  }

  lemma InPlaceRecords(s: State, h: u32)
    requires Ordered(s) && HolesInRange(s) && Holds(s.outstanding, h)
    requires s.outstanding[LowerBound(s.outstanding, h)].info.attempts >= 5
    ensures CycledAt(s, ReArmInPlace(s, h), h) && OthersStay(s, ReArmInPlace(s, h), h, h + 1)
  {
    var i, out, t := LowerBound(s.outstanding, h), s.outstanding, ReArmInPlace(s, h);
    HoldsIsMembership(out, h);
    UpdateHas(out, i, t.outstanding[i]);
    SameHeightsKeep(out, t.outstanding);
    hide LowerBoundFrom, Heights, Ascending;
    forall e | e in out && e.height == h ensures e == out[i] { OneEntry(out, e, out[i]); }
  }

  lemma GaveUpRecords(s: State, h: u32)
    requires Ordered(s) && HolesInRange(s) && !Holds(s.outstanding, h) && ReArmGaveUp(s, h).1
    ensures CycledAt(s, ReArmGaveUp(s, h).0, h) && OthersStay(s, ReArmGaveUp(s, h).0, h, h + 1)
  {
    ReArmRecords(s, h);
    HoldsIsMembership(s.outstanding, h);
    NotHeld(s.outstanding, h);
    hide ReArmGaveUp, Heights, Ascending, LowerBoundFrom;
  }

  lemma StepThenRun(s: State, r: State, t: State, h: int, end: int)
    requires h < end && CycledAt(s, r, h) && OthersStay(s, r, h, h + 1) && OthersStay(r, t, h + 1, end)
    requires Heights(s.outstanding) <= Heights(r.outstanding)
    ensures CycledAt(s, t, h) && OthersStay(s, t, h, end)
    ensures forall k :: h < k < end && CycledAt(r, t, k) ==> CycledAt(s, t, k)
  {
  }

  lemma NoStep(s: State, h: u32, budget: nat)
    requires Ordered(s) && HolesInRange(s) && ReArmRun(s, h, budget).1 == 0
    ensures ReArmRun(s, h, budget).0 == s && OthersStay(s, s, h, h)
    ensures budget > 0 ==> Stuck(s, |s.outstanding| == OUTSTANDING_MAX, h)
  {
    if budget > 0 && h >= s.abandonedBelow {
      HoldsIsMembership(s.outstanding, h);
      if Holds(s.outstanding, h) {
        assert s.outstanding[LowerBound(s.outstanding, h)] in s.outstanding;
      } else {
        ReArmRecords(s, h);
        NotHeld(s.outstanding, h);
      }
    }
    hide ReArmGaveUp, ReArmInPlace, Heights, Ascending, LowerBoundFrom;
  }

  lemma StepTaken(s: State, h: u32, budget: nat)
    requires Ordered(s) && HolesInRange(s) && ReArmRun(s, h, budget).1 > 0
    ensures var r := ReArmStep(s, h);
            && budget > 0 && Ordered(r) && HolesInRange(r) && r.abandonedBelow == s.abandonedBelow
            && CycledAt(s, r, h) && OthersStay(s, r, h, h + 1) && Heights(s.outstanding) <= Heights(r.outstanding)
            && ReArmRun(s, h, budget) ==
               (if h == U32_MAX then (r, 1)
                else var rest := ReArmRun(r, h + 1, budget - 1); (rest.0, rest.1 + 1))
  {
    RunStarts(s, h, budget);
    hide ReArmRun, ReArmGaveUp, ReArmInPlace, CycledAt, OthersStay, Heights, Ascending, LowerBoundFrom;
    if Holds(s.outstanding, h) { InPlaceTaken(s, h); } else { GaveUpTaken(s, h); }
  }

  lemma InPlaceTaken(s: State, h: u32)
    requires Ordered(s) && HolesInRange(s) && Holds(s.outstanding, h)
    requires s.outstanding[LowerBound(s.outstanding, h)].info.attempts >= 5
    ensures var r := ReArmInPlace(s, h);
            && Ordered(r) && HolesInRange(r) && r.abandonedBelow == s.abandonedBelow
            && CycledAt(s, r, h) && OthersStay(s, r, h, h + 1) && Heights(s.outstanding) <= Heights(r.outstanding)
  {
    ReArmInPlaceKeeps(s, h);
    InPlaceRecords(s, h);
    SameHeightsKeep(s.outstanding, ReArmInPlace(s, h).outstanding);
    hide CycledAt, OthersStay, Heights, Ascending, LowerBoundFrom, HolesInRange;
  }

  lemma GaveUpTaken(s: State, h: u32)
    requires Ordered(s) && HolesInRange(s) && !Holds(s.outstanding, h) && ReArmGaveUp(s, h).1
    ensures var r := ReArmGaveUp(s, h).0;
            && Ordered(r) && HolesInRange(r) && r.abandonedBelow == s.abandonedBelow
            && CycledAt(s, r, h) && OthersStay(s, r, h, h + 1) && Heights(s.outstanding) <= Heights(r.outstanding)
  {
    hide CycledAt, OthersStay, Heights, Ascending, LowerBoundFrom, HolesInRange, ReArmGaveUp;
    ReArmGaveUpKeeps(s, h);
    GaveUpRecords(s, h);
    ReArmGaveUpLists(s, h);
  }

  lemma RunStarts(s: State, h: u32, budget: nat)
    requires ReArmRun(s, h, budget).1 > 0
    ensures budget > 0 && (!Holds(s.outstanding, h) ==> ReArmGaveUp(s, h).1)
    ensures Holds(s.outstanding, h) ==> s.outstanding[LowerBound(s.outstanding, h)].info.attempts >= 5
    ensures ReArmRun(s, h, budget) ==
            (if h == U32_MAX then (ReArmStep(s, h), 1)
             else var rest := ReArmRun(ReArmStep(s, h), h + 1, budget - 1); (rest.0, rest.1 + 1))
  {
    hide ReArmGaveUp, ReArmInPlace, LowerBoundFrom;
  }

  lemma StuckBefore(s: State, r: State, full: bool, h: int, k: int)
    requires Stuck(r, full, k) && k > h && r.abandonedBelow == s.abandonedBelow && Ascending(r.outstanding)
    requires OthersStay(s, r, h, h + 1) && Heights(s.outstanding) <= Heights(r.outstanding)
    ensures Stuck(s, full, k)
  {
    if e :| e in r.outstanding && e.height == k && e.info.attempts < 5 {
      EntryHeight(r.outstanding, e);
      var i :| 0 <= i < |s.outstanding| && s.outstanding[i].height == k;
      assert s.outstanding[i] in s.outstanding;
      OneEntry(r.outstanding, e, s.outstanding[i]);
    } else if k >= s.abandonedBelow {
      if k in Heights(s.gaveUp) {
        var i :| 0 <= i < |s.gaveUp| && s.gaveUp[i].height == k;
        assert s.gaveUp[i] in s.gaveUp && s.gaveUp[i] in r.gaveUp;
        EntryHeight(r.gaveUp, s.gaveUp[i]);
      }
    }
  }

  /** Re-arming a run: from the given height on, one height after another starts a fresh cycle, until the budget is
      spent or a height is stuck; every other entry is left alone. */
  lemma {:induction false} ReArmRunRecords(s: State, h: u32, budget: nat)
    requires Ordered(s) && HolesInRange(s)
    ensures var r := ReArmRun(s, h, budget);
            && r.1 <= budget && h + r.1 <= 0x1_0000_0000
            && (forall k :: h <= k < h + r.1 ==> CycledAt(s, r.0, k))
            && OthersStay(s, r.0, h, h + r.1)
            && (r.1 < budget && h + r.1 <= U32_MAX ==>
                  Stuck(s, |r.0.outstanding| == OUTSTANDING_MAX, h + r.1))
    decreases budget
  {
    hide ReArmGaveUp, ReArmInPlace, CycledAt, OthersStay, Stuck, Heights, Ascending, LowerBoundFrom;
    var n := ReArmRun(s, h, budget).1;
    if n == 0 {
      NoStep(s, h, budget);
    } else {
      var r := ReArmStep(s, h);
      StepTaken(s, h, budget);
      if h < U32_MAX {
        ReArmRunRecords(r, h + 1, budget - 1);
        StepThenRun(s, r, ReArmRun(s, h, budget).0, h, h + n);
        var full := |ReArmRun(s, h, budget).0.outstanding| == OUTSTANDING_MAX;
        if n < budget && h + n <= U32_MAX { StuckBefore(s, r, full, h, h + n); }
      }
    }
  }

  // ---- calls that only drop entries -----------------------------------------

  lemma SlicesAt<T>(s: seq<Hole<T>>, h: u32, e: Hole<T>)
    requires Ascending(s)
    ensures e in s[LowerBound(s, h)..] <==> e in s && e.height >= h
    ensures e in s[..LowerBound(s, h)] <==> e in s && e.height < h
  {
    var i := LowerBound(s, h);
    SplitsAt(s, h, i, e);
    hide LowerBoundFrom, Ascending;
  }

  lemma SplitsAt<T>(s: seq<Hole<T>>, h: u32, i: nat, e: Hole<T>)
    requires Ascending(s) && IsLowerBound(s, h, i)
    ensures e in s[i..] ==> e.height >= h
    ensures e in s[..i] ==> e.height < h
    ensures e in s <==> e in s[..i] || e in s[i..]
  {
    assert s == s[..i] + s[i..];
    if e in s[i..] {
      var k :| 0 <= k < |s[i..]| && s[i..][k] == e;
      assert s[i..][k] == s[i + k];
    }
  }

  lemma RemovesAt<T>(s: seq<Hole<T>>, h: u32, e: Hole<T>)
    requires Ascending(s)
    ensures e in Remove(s, h) <==> e in s && e.height != h
  {
    RemoveHeights(s, h);
    HoldsIsMembership(s, h);
    hide Heights, Ascending, LowerBoundFrom;
    if e in s {
      EntryHeight(s, e);
      if Holds(s, h) && e.height != h { RemoveAtHas(s, LowerBound(s, h), e); }
    }
    if e in Remove(s, h) {
      EntryHeight(Remove(s, h), e);
      assert e in s;
    }
  }

  /** The entries a dropping call keeps, as they were: all but the height evaluated, those from a new floor up, and
      those below a rewind's height. */
  lemma DropRecords(s: State, op: Op, e: Outstanding, p: Parked)
    requires Ordered(s) && HolesInRange(s)
    requires op.EvaluateOp? || op.AbandonGaveUpOp? || op.AbandonUnscannableOp? || op.RetireFloorOp? || op.RewindOp?
    ensures var t := Apply(s, op);
            && (op.EvaluateOp? ==>
                  && (e in t.outstanding <==> e in s.outstanding && e.height != op.h)
                  && (p in t.gaveUp <==> p in s.gaveUp && p.height != op.h))
            && (op.AbandonGaveUpOp? ==>
                  t.outstanding == s.outstanding && (p in t.gaveUp <==> p in s.gaveUp && p.height >= t.abandonedBelow))
            && (op.AbandonUnscannableOp? ==>
                  && (e in t.outstanding <==> e in s.outstanding && e.height >= t.abandonedBelow)
                  && (p in t.gaveUp <==> p in s.gaveUp && p.height >= t.abandonedBelow))
            && (op.RetireFloorOp? ==> t == s.(abandonedBelow := t.abandonedBelow))
            && (op.RewindOp? && op.next > 0 ==>
                  && (e in t.outstanding <==> e in s.outstanding && e.height < op.next)
                  && (p in t.gaveUp <==> p in s.gaveUp && p.height < op.next))
            && t.lastDriveAt == s.lastDriveAt
  {
    match op
    case EvaluateOp(h) => RemovesAt(s.outstanding, h, e); RemovesAt(s.gaveUp, h, p); EvaluateIs(s, h);
    case AbandonGaveUpOp(clamp) => GivenUpKept(s, clamp, p);
    case AbandonUnscannableOp(lo, floor) => UnscannableKept(s, lo, floor, e, p);
    case RetireFloorOp(_) =>
    case RewindOp(next) =>
      if next > 0 { SlicesAt(s.outstanding, next, e); SlicesAt(s.gaveUp, next, p); RewindIs(s, next); }
    hide *;
  }

  lemma EvaluateIs(s: State, h: u32)
    ensures var t := MarkEvaluated(s, h);
            && t.outstanding == Remove(s.outstanding, h) && t.gaveUp == Remove(s.gaveUp, h)
            && t.lastDriveAt == s.lastDriveAt
  {
    hide Remove, FirstHole;
  }

  lemma RewindIs(s: State, next: u32)
    requires next > 0
    ensures var t := RewindTo(s, next).0;
            && t.outstanding == s.outstanding[..LowerBound(s.outstanding, next)]
            && t.gaveUp == s.gaveUp[..LowerBound(s.gaveUp, next)] && t.lastDriveAt == s.lastDriveAt
  {
    hide LowerBoundFrom, FirstHole;
  }

  lemma GivenUpKept(s: State, clamp: u32, p: Parked)
    requires Ordered(s) && HolesInRange(s)
    ensures var t := AbandonGaveUpBelow(s, clamp).state;
            && t.outstanding == s.outstanding && (p in t.gaveUp <==> p in s.gaveUp && p.height >= t.abandonedBelow)
            && t.lastDriveAt == s.lastDriveAt
  {
    var r, gave := AbandonGaveUpBelow(s, clamp), s.gaveUp;
    var k := |gave| - |r.state.gaveUp|;
    AbandonGaveUpLists(s, clamp);
    FloorBelow(s, gave, p);
    if r.count > 0 {
      assert gave[k - 1].height == r.high && r.state.gaveUp == gave[k..];
      SplitsAt(gave, r.high + 1, k, p);
    }
    hide LowerBoundFrom, Heights, Ascending;
  }

  lemma FloorBelow<T>(s: State, list: seq<Hole<T>>, e: Hole<T>)
    requires forall h :: h in Heights(list) ==> s.abandonedBelow <= h
    ensures e in list ==> s.abandonedBelow <= e.height
  {
    if e in list { EntryHeight(list, e); }
  }

  lemma UnscannableKept(s: State, lo: u32, floor: u32, e: Outstanding, p: Parked)
    requires Ordered(s) && HolesInRange(s)
    ensures var t := AbandonUnscannableBelow(s, lo, floor).0;
            && (e in t.outstanding <==> e in s.outstanding && e.height >= t.abandonedBelow)
            && (p in t.gaveUp <==> p in s.gaveUp && p.height >= t.abandonedBelow)
            && t.lastDriveAt == s.lastDriveAt
  {
    FloorBelow(s, s.outstanding, e);
    FloorBelow(s, s.gaveUp, p);
    SlicesAt(s.outstanding, floor, e);
    SlicesAt(s.gaveUp, floor, p);
    hide LowerBoundFrom, Heights, Ascending, FirstHole;
  }

  /** Retiring the floor counts the heights it frees. */
  lemma RetireFloorCounts(s: State, newFloor: u32)
    ensures var r := RetireAbandonedTo(s, newFloor);
            r.1 == s.abandonedBelow - r.0.abandonedBelow && (r.1 > 0 <==> s.start <= newFloor < s.abandonedBelow)
  {
  }

  /** The lowest height still needed is the first that is above the mark and not below the floor; what lies between the
      start and it is settled. */
  lemma LowestNeededIs(w: World)
    requires Sound(w)
    ensures var n := LowestNeeded(w.s);
            && n > w.s.scannedThrough && n >= w.s.abandonedBelow
            && (n == w.s.scannedThrough + 1 || n == w.s.abandonedBelow)
            && (forall h :: w.s.start <= h < n ==> h in Settled(w.k))
  {
    hide Heights;
  }
}
