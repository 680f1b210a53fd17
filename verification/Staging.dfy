/**
 * What a sequence of HEX records asks for, and how a page buffer in front of flash
 * that can only clear bits keeps up with it.
 */
module Staging {
  import opened Bytes
  import opened FlashLayout
  import opened FlashStorage
  import opened HexParser

  /** One data byte, at its offset from the start of the image. */
  datatype Placement = Placement(offset: nat, value: byte)

  /** The image asked for so far: the last byte placed at `o`, or an erased one. */
  function Overlay(ps: seq<Placement>, o: nat): byte
  {
    if |ps| == 0 then ERASED
    else if ps[|ps| - 1].offset == o then ps[|ps| - 1].value
    else Overlay(ps[..|ps| - 1], o)
  }

  predicate Placed(ps: seq<Placement>, o: nat)
  {
    exists i :: 0 <= i < |ps| && ps[i].offset == o
  }

  /** Some byte of page `p` has been placed. */
  predicate PageUsed(ps: seq<Placement>, p: nat)
  {
    exists i :: 0 <= i < |ps| && ps[i].offset / PAGE == p
  }

  /** One past the highest offset placed. */
  function Extent(ps: seq<Placement>): nat
  {
    if |ps| == 0 then 0
    else
      var before, end := Extent(ps[..|ps| - 1]), ps[|ps| - 1].offset + 1;
      if end > before then end else before
  }

  lemma {:induction false} OverlayUnplaced(ps: seq<Placement>, o: nat)
    requires !Placed(ps, o)
    ensures Overlay(ps, o) == ERASED
  {
    if |ps| > 0 {
      var front := ps[..|ps| - 1];
      assert !Placed(front, o) by {
        forall i | 0 <= i < |front| ensures front[i].offset != o {
          assert ps[i].offset != o;
        }
      }
      assert ps[|ps| - 1].offset != o;
      OverlayUnplaced(front, o);
    }
  }

  lemma {:induction false} ExtentBounds(ps: seq<Placement>)
    ensures forall i :: 0 <= i < |ps| ==> ps[i].offset < Extent(ps)
    ensures |ps| > 0 ==> Placed(ps, Extent(ps) - 1)
  {
    if |ps| > 0 {
      var front := ps[..|ps| - 1];
      ExtentBounds(front);
      if Extent(ps) == Extent(front) {
        var i :| 0 <= i < |front| && front[i].offset == Extent(front) - 1;
        assert ps[i].offset == Extent(ps) - 1;
      } else {
        assert ps[|ps| - 1].offset == Extent(ps) - 1;
      }
    }
  }

  lemma OverlayAppend(ps: seq<Placement>, x: Placement, o: nat)
    ensures Overlay(ps + [x], o) == if x.offset == o then x.value else Overlay(ps, o)
    ensures Placed(ps + [x], o) <==> x.offset == o || Placed(ps, o)
    ensures Extent(ps + [x]) == if x.offset + 1 > Extent(ps) then x.offset + 1 else Extent(ps)
  {
    var all := ps + [x];
    assert all[..|all| - 1] == ps;
    if x.offset == o {
      assert all[|ps|].offset == o;
    }
    if Placed(ps, o) {
      var i :| 0 <= i < |ps| && ps[i].offset == o;
      assert all[i].offset == o;
    }
  }

  lemma {:induction false} OverlayConcat(a: seq<Placement>, b: seq<Placement>, o: nat)
    ensures Overlay(a + b, o) == if Placed(b, o) then Overlay(b, o) else Overlay(a, o)
    decreases |b|
  {
    if |b| == 0 {
      assert a + b == a;
    } else {
      var front, x := b[..|b| - 1], b[|b| - 1];
      assert a + b == (a + front) + [x] && b == front + [x];
      OverlayAppend(a + front, x, o);
      OverlayAppend(front, x, o);
      OverlayConcat(a, front, o);
    }
  }

  lemma PageUsedConcat(a: seq<Placement>, b: seq<Placement>, p: nat)
    ensures PageUsed(a + b, p) <==> PageUsed(a, p) || PageUsed(b, p)
  {
    var all := a + b;
    if PageUsed(a, p) {
      var i :| 0 <= i < |a| && a[i].offset / PAGE == p;
      assert all[i].offset / PAGE == p;
    }
    if PageUsed(b, p) {
      var i :| 0 <= i < |b| && b[i].offset / PAGE == p;
      assert all[|a| + i].offset / PAGE == p;
    }
  }

  lemma UnusedPage(ps: seq<Placement>, o: nat)
    requires !PageUsed(ps, o / PAGE)
    ensures !Placed(ps, o) && Overlay(ps, o) == ERASED
  {
    OverlayUnplaced(ps, o);
  }

  // ---- a page buffer in front of the flash ---------------------------------------------------

  /**
   * The region as it was and as it stands, the page being filled and where it belongs, and what
   * has been placed: all before `from` is in the flash, and the rest, the page's present visit,
   * in the buffer.
   */
  datatype Assembly = Assembly(start: seq<byte>, now: seq<byte>, page: seq<byte>, current: nat,
                               from: nat, placed: seq<Placement>)

  /** What the flash holds at `o` once `ps` is in it: in the pages they touch, what they ask for. */
  function Held(start: seq<byte>, ps: seq<Placement>, o: nat): byte
    requires o < |start|
  {
    if PageUsed(ps, o / PAGE) then Overlay(ps, o) else start[o]
  }

  /** Flash and buffer together hold exactly what has been asked for. */
  ghost predicate Tracks(a: Assembly)
  {
    && |a.start| == |a.now| && |a.page| == PAGE && a.from <= |a.placed|
    && (forall o :: 0 <= o < |a.now| ==> a.now[o] == Held(a.start, a.placed[..a.from], o))
    && (forall i :: 0 <= i < |a.placed| ==> a.placed[i].offset < |a.now|)
    && (forall i :: a.from <= i < |a.placed| ==> a.placed[i].offset / PAGE == a.current)
    && (a.from < |a.placed| ==>
          forall o :: 0 <= o < |a.now| && o / PAGE == a.current ==> a.page[o % PAGE] == Overlay(a.placed[a.from..], o))
  }

  /** reset_page */
  function WithBlankPage(a: Assembly, p: nat): Assembly
  {
    a.(page := Blank(PAGE), current := p)
  }

  /** A byte put in the page it belongs to. */
  function WithByte(a: Assembly, x: Placement): Assembly
    requires |a.page| == PAGE
  {
    a.(page := a.page[x.offset % PAGE := x.value], placed := a.placed + [x])
  }

  /** The page handed to flash that took it whole. */
  function WithPageWritten(a: Assembly, now: seq<byte>): Assembly
  {
    a.(now := now, from := |a.placed|)
  }

  lemma BlankPageTracks(a: Assembly, p: nat)
    requires Tracks(a) && a.from == |a.placed|
    ensures Tracks(WithBlankPage(a, p))
  {
  }

  /** Placing a byte in the page being filled, or in a fresh one, keeps everything in step. */
  lemma ByteTracks(a: Assembly, x: Placement)
    requires Tracks(a) && x.offset < |a.now| && x.offset / PAGE == a.current
    requires a.from == |a.placed| ==> a.page == Blank(PAGE)
    ensures Tracks(WithByte(a, x))
  {
    hide Held, Overlay, Placed, PageUsed;
    var b := WithByte(a, x);
    assert b.placed[..b.from] == a.placed[..a.from];
    assert b.placed[b.from..] == a.placed[a.from..] + [x];
    forall o | 0 <= o < |b.now| && o / PAGE == a.current ensures b.page[o % PAGE] == Overlay(a.placed[a.from..] + [x], o) {
      ByteInPage(a, x, o);
    }
  }

  lemma ByteInPage(a: Assembly, x: Placement, o: nat)
    requires Tracks(a) && x.offset / PAGE == a.current && o < |a.now| && o / PAGE == a.current
    requires a.from == |a.placed| ==> a.page == Blank(PAGE)
    ensures WithByte(a, x).page[o % PAGE] == Overlay(a.placed[a.from..] + [x], o)
  {
    hide Held, Overlay;
    var visit := a.placed[a.from..];
    OverlayAppend(visit, x, o);
    SamePlaceInPage(o, x.offset);
    if a.from == |a.placed| {
      OverlayUnplaced(visit, o);
    }
  }

  lemma SamePlaceInPage(o: nat, x: nat)
    requires o / PAGE == x / PAGE
    ensures o % PAGE == x % PAGE <==> o == x
  {
  }

  /** What programming the page over the region gives. */
  ghost predicate Programmed(a: Assembly, now: seq<byte>)
    requires |a.page| == PAGE
  {
    && |now| == |a.now| && (a.current + 1) * PAGE <= |now|
    && forall o :: 0 <= o < |now| ==>
         now[o] == if o / PAGE == a.current then And(a.now[o], a.page[o % PAGE]) else a.now[o]
  }

  /** And that it took. */
  ghost predicate TookPage(a: Assembly, now: seq<byte>)
    requires |a.page| == PAGE
  {
    && Programmed(a, now)
    && forall o :: 0 <= o < |now| && o / PAGE == a.current ==> now[o] == a.page[o % PAGE]
  }

  /**
   * A verified write never hides a loss: the flash could only clear bits, so a byte that
   * reads back erased was erased before, even in a page written and come back to.
   */
  lemma PageWrittenTracks(a: Assembly, now: seq<byte>)
    requires Tracks(a) && a.from < |a.placed| && TookPage(a, now)
    ensures Tracks(WithPageWritten(a, now))
  {
    hide Held, Overlay, PageUsed, Placed;
    var b := WithPageWritten(a, now);
    assert b.placed[..b.from] == a.placed;
    forall o | 0 <= o < |now| ensures now[o] == Held(a.start, a.placed, o) {
      WrittenByte(a, now, o);
    }
  }

  lemma WrittenByte(a: Assembly, now: seq<byte>, o: nat)
    requires Tracks(a) && a.from < |a.placed| && TookPage(a, now) && o < |now|
    ensures now[o] == Held(a.start, a.placed, o)
  {
    hide Overlay, PageUsed, Placed;
    var before, visit := a.placed[..a.from], a.placed[a.from..];
    assert a.placed == before + visit;
    PageUsedConcat(before, visit, o / PAGE);
    OverlayConcat(before, visit, o);
    VisitsOnePage(a.placed, a.from, o / PAGE);
    if o / PAGE != a.current {
      UnusedPage(visit, o);
    } else if !Placed(visit, o) {
      OverlayUnplaced(visit, o);
      AndErased(a.now[o]);
      if !PageUsed(before, o / PAGE) {
        UnusedPage(before, o);
      }
    }
  }

  lemma VisitsOnePage(ps: seq<Placement>, from: nat, p: nat)
    requires from < |ps| && forall i :: from <= i < |ps| ==> ps[i].offset / PAGE == ps[from].offset / PAGE
    ensures PageUsed(ps[from..], p) <==> p == ps[from].offset / PAGE
  {
    assert ps[from..][0] == ps[from];
  }

  // ---- when a page takes ---------------------------------------------------------------------

  predicate LandsAt(start: seq<byte>, ps: seq<Placement>, from: nat, o: nat)
    requires from <= |ps| && o < |start|
  {
    var value := Overlay(ps[from..], o);
    And(Held(start, ps[..from], o), value) == value
  }

  /** The visit that began at `from`, if there is one, asks for no bit the flash has already cleared. */
  predicate Lands(start: seq<byte>, ps: seq<Placement>, from: nat)
    requires from <= |ps|
  {
    from < |ps| ==>
      forall o :: 0 <= o < |start| && o / PAGE == ps[from].offset / PAGE ==> LandsAt(start, ps, from, o)
  }

  /** A page programmed reads back as itself exactly when it asked for no bit back. */
  lemma TakesIffLands(a: Assembly, now: seq<byte>)
    requires Tracks(a) && a.from < |a.placed| && Programmed(a, now)
    ensures TookPage(a, now) <==> Lands(a.start, a.placed, a.from)
  {
    hide Held, Overlay, And;
    forall o | 0 <= o < |now| && o / PAGE == a.current
      ensures now[o] == a.page[o % PAGE] <==> LandsAt(a.start, a.placed, a.from, o)
    {
    }
  }

  /** Where `x` leaves the visit in hand: a move to another page puts the page out, if it lands. */
  function Moved(start: seq<byte>, ps: seq<Placement>, from: nat, x: Placement): (r: Option<nat>)
    requires from <= |ps|
    ensures r.Some? ==> r.value == from || r.value == |ps|
  {
    if from < |ps| && x.offset / PAGE != ps[from].offset / PAGE then
      if Lands(start, ps, from) then Some(|ps|) else None
    else Some(from)
  }

  /** The same of any number of bytes, one after another. */
  function Through(start: seq<byte>, ps: seq<Placement>, from: nat, xs: seq<Placement>): (r: Option<nat>)
    requires from <= |ps|
    ensures r.Some? ==> r.value <= |ps| + |xs|
  {
    if |xs| == 0 then Some(from)
    else
      match Through(start, ps, from, xs[..|xs| - 1])
      case None => None
      case Some(f) => Moved(start, ps + xs[..|xs| - 1], f, xs[|xs| - 1])
  }

  lemma ThroughMore(start: seq<byte>, ps: seq<Placement>, from: nat, xs: seq<Placement>, x: Placement)
    requires from <= |ps|
    ensures Through(start, ps, from, xs + [x]) ==
              match Through(start, ps, from, xs)
              case None => None
              case Some(f) => Moved(start, ps + xs, f, x)
  {
    assert (xs + [x])[..|xs|] == xs;
  }

  lemma {:induction false} ThroughConcat(start: seq<byte>, ps: seq<Placement>, from: nat, xs: seq<Placement>, ys: seq<Placement>)
    requires from <= |ps|
    ensures Through(start, ps, from, xs + ys) ==
              match Through(start, ps, from, xs)
              case None => None
              case Some(f) => Through(start, ps + xs, f, ys)
    decreases |ys|
  {
    hide Moved;
    if |ys| == 0 {
      assert xs + ys == xs;
    } else {
      var front, y := ys[..|ys| - 1], ys[|ys| - 1];
      ThroughConcat(start, ps, from, xs, front);
      assert xs + ys == (xs + front) + [y] && ps + (xs + front) == (ps + xs) + front;
      ThroughMore(start, ps, from, xs + front, y);
    }
  }

  // ---- which images can be staged ----------------------------------------------------------

  /** Where the last of the visits that `ps` pays began. */
  function VisitFrom(ps: seq<Placement>): (from: nat)
    ensures from <= |ps| && (|ps| > 0 ==> from < |ps| && ps[from].offset / PAGE == ps[|ps| - 1].offset / PAGE)
  {
    var n := |ps| - 1;
    if n < 0 then 0 else if n == 0 || ps[n].offset / PAGE == ps[n - 1].offset / PAGE then VisitFrom(ps[..n]) else n
  }

  /** Just before the `k`th byte another page was being filled. */
  predicate Leaves(ps: seq<Placement>, k: nat)
  {
    0 < k < |ps| && ps[k - 1].offset / PAGE != ps[k].offset / PAGE
  }

  /** Every visit but the last lands. */
  predicate EarlierLand(start: seq<byte>, ps: seq<Placement>)
  {
    forall k :: 0 < k < |ps| && Leaves(ps, k) ==> Lands(start, ps[..k], VisitFrom(ps[..k]))
  }

  predicate AllLand(start: seq<byte>, ps: seq<Placement>)
  {
    EarlierLand(start, ps) && Lands(start, ps, VisitFrom(ps))
  }

  lemma EarlierLandMore(start: seq<byte>, ps: seq<Placement>, x: Placement)
    ensures EarlierLand(start, ps + [x]) <==>
              EarlierLand(start, ps) && (Leaves(ps + [x], |ps|) ==> Lands(start, ps, VisitFrom(ps)))
  {
    hide Lands, VisitFrom;
    var all := ps + [x];
    assert all[..|ps|] == ps;
    forall k | 0 < k < |ps| ensures all[..k] == ps[..k] && (Leaves(all, k) <==> Leaves(ps, k)) {
    }
    if EarlierLand(start, all) {
      forall k | 0 < k < |ps| && Leaves(ps, k) ensures Lands(start, ps[..k], VisitFrom(ps[..k])) {
        assert Leaves(all, k);
      }
    }
  }

  /** Byte by byte from an empty buffer, nothing fails exactly when every visit but the last lands. */
  lemma {:induction false} ThroughIff(start: seq<byte>, ps: seq<Placement>)
    ensures Through(start, [], 0, ps) == if EarlierLand(start, ps) then Some(VisitFrom(ps)) else None
  {
    hide Lands, EarlierLand, Through;
    if |ps| > 0 {
      var front, x := ps[..|ps| - 1], ps[|ps| - 1];
      assert ps == front + [x] && [] + front == front;
      ThroughIff(start, front);
      ThroughMore(start, [], 0, front, x);
      EarlierLandMore(start, front, x);
      LastVisit(front, x);
    } else {
      NothingThrough(start);
    }
  }

  lemma LastVisit(ps: seq<Placement>, x: Placement)
    ensures VisitFrom(ps + [x]) == if Leaves(ps + [x], |ps|) then |ps| else VisitFrom(ps)
  {
    assert (ps + [x])[..|ps|] == ps;
  }

  lemma NothingThrough(start: seq<byte>)
    ensures Through(start, [], 0, []) == Some(0) && EarlierLand(start, [])
  {
  }

  /** The image the records ask for. */
  function ImageOf(ps: seq<Placement>): (b: seq<byte>)
    ensures |b| == Extent(ps)
  {
    seq(Extent(ps), o requires 0 <= o < Extent(ps) => Overlay(ps, o))
  }

  lemma ExtentFits(a: Assembly)
    requires Tracks(a)
    ensures Extent(a.placed) <= |a.now|
  {
    ExtentBounds(a.placed);
    if |a.placed| > 0 {
      var i :| 0 <= i < |a.placed| && a.placed[i].offset == Extent(a.placed) - 1;
    }
  }

  /**
   * With nothing left in the buffer, the region holds the image asked for exactly when
   * the pages no record touched were erased to begin with.
   */
  lemma StagedIff(a: Assembly)
    requires Tracks(a) && a.from == |a.placed|
    ensures Extent(a.placed) <= |a.now|
    ensures a.now[..Extent(a.placed)] == ImageOf(a.placed) <==>
              forall o :: 0 <= o < Extent(a.placed) && !PageUsed(a.placed, o / PAGE) ==> a.start[o] == ERASED
  {
    hide PageUsed, Overlay, Extent;
    ExtentFits(a);
    var n, image := Extent(a.placed), ImageOf(a.placed);
    assert a.placed[..a.from] == a.placed;
    forall o | 0 <= o < n
      ensures a.now[o] == image[o] <==> PageUsed(a.placed, o / PAGE) || a.start[o] == ERASED
    {
      if !PageUsed(a.placed, o / PAGE) {
        UnusedPage(a.placed, o);
      }
    }
    if a.now[..n] == image {
      forall o | 0 <= o < n && !PageUsed(a.placed, o / PAGE) ensures a.start[o] == ERASED {
        assert a.now[..n][o] == image[o];
      }
    }
  }

  // ---- on erased flash -------------------------------------------------------------------

  /** Asked for again within the bits left, or never asked for as anything but erased. */
  predicate Resent(ps: seq<Placement>, from: nat, o: nat)
    requires from <= |ps|
  {
    var before, value := Overlay(ps[..from], o), Overlay(ps[from..], o);
    before == ERASED || (Placed(ps[from..], o) && And(before, value) == value)
  }

  /**
   * Over a page that began erased, a visit lands exactly when it asks again for every byte that
   * earlier visits had made anything but erased, and for none of the bits they cleared.
   */
  lemma LandsIffResent(start: seq<byte>, ps: seq<Placement>, from: nat)
    requires from < |ps| && forall o :: 0 <= o < |start| && o / PAGE == ps[from].offset / PAGE ==> start[o] == ERASED
    ensures Lands(start, ps, from) <==>
              forall o :: 0 <= o < |start| && o / PAGE == ps[from].offset / PAGE ==> Resent(ps, from, o)
  {
    hide Overlay, Placed, PageUsed, And;
    forall o | 0 <= o < |start| && o / PAGE == ps[from].offset / PAGE
      ensures LandsAt(start, ps, from, o) <==> Resent(ps, from, o)
    {
      var before := ps[..from];
      if !PageUsed(before, o / PAGE) {
        UnusedPage(before, o);
      }
      if !Placed(ps[from..], o) {
        OverlayUnplaced(ps[from..], o);
        AndErased(Overlay(before, o));
      }
      AndErased(Overlay(ps[from..], o));
    }
  }

  /** After `k` bytes a visit is over: the next byte belongs elsewhere, or there is none. */
  predicate VisitEnds(ps: seq<Placement>, k: nat)
  {
    0 < k <= |ps| && (k == |ps| || Leaves(ps, k))
  }

  /** The visit that ends after `k` bytes asks again for all that earlier ones put in its page. */
  predicate VisitResends(ps: seq<Placement>, k: nat, size: nat)
    requires 0 < k <= |ps|
  {
    forall o :: 0 <= o < size && o / PAGE == ps[k - 1].offset / PAGE ==> Resent(ps[..k], VisitFrom(ps[..k]), o)
  }

  /** On erased flash every visit lands exactly when each asks again for what it finds. */
  lemma AllLandIffResent(start: seq<byte>, ps: seq<Placement>)
    requires forall o :: 0 <= o < |start| ==> start[o] == ERASED
    ensures AllLand(start, ps) <==> forall k :: 0 < k <= |ps| && VisitEnds(ps, k) ==> VisitResends(ps, k, |start|)
  {
    hide Lands, Resent, VisitFrom, Leaves;
    forall k | 0 < k <= |ps| ensures Lands(start, ps[..k], VisitFrom(ps[..k])) <==> VisitResends(ps, k, |start|) {
      LandsIffResent(start, ps[..k], VisitFrom(ps[..k]));
    }
    assert ps[..|ps|] == ps;
    if |ps| > 0 {
      assert VisitEnds(ps, |ps|);
    } else {
      NothingToLand(start);
    }
    forall k | 0 < k < |ps| ensures VisitEnds(ps, k) <==> Leaves(ps, k) {
    }
  }

  lemma NothingToLand(start: seq<byte>)
    ensures AllLand(start, [])
  {
  }

  /** No page is come back to once it has been left. */
  predicate NeverReturns(ps: seq<Placement>)
  {
    forall j, k :: 0 <= j < k < |ps| && Leaves(ps, k) ==> ps[j].offset / PAGE != ps[k].offset / PAGE
  }

  lemma {:induction false} FirstVisit(ps: seq<Placement>, o: nat)
    requires NeverReturns(ps) && |ps| > 0 && o / PAGE == ps[|ps| - 1].offset / PAGE
    ensures !PageUsed(ps[..VisitFrom(ps)], o / PAGE)
  {
    var n := |ps| - 1;
    if n > 0 {
      var front := ps[..n];
      assert NeverReturns(front) by {
        forall j, k | 0 <= j < k < n && Leaves(front, k) ensures front[j].offset / PAGE != front[k].offset / PAGE {
          assert Leaves(ps, k);
        }
      }
      if ps[n].offset / PAGE == ps[n - 1].offset / PAGE {
        FirstVisit(front, o);
        assert front[..VisitFrom(front)] == ps[..VisitFrom(ps)];
      } else {
        assert Leaves(ps, n);
      }
    }
  }

  /** A file that comes back to no page can always be staged on erased flash, in whatever order its pages come. */
  lemma NeverReturningLands(start: seq<byte>, ps: seq<Placement>)
    requires NeverReturns(ps) && forall o :: 0 <= o < |start| ==> start[o] == ERASED
    ensures AllLand(start, ps)
  {
    hide NeverReturns, PageUsed;
    forall k | 0 < k <= |ps| ensures Lands(start, ps[..k], VisitFrom(ps[..k])) {
      PrefixNeverReturns(ps, k);
      LandsFirst(start, ps[..k]);
    }
    assert ps[..|ps|] == ps;
  }

  lemma PrefixNeverReturns(ps: seq<Placement>, k: nat)
    requires NeverReturns(ps) && k <= |ps|
    ensures NeverReturns(ps[..k])
  {
    forall i, j | 0 <= i < j < k && Leaves(ps[..k], j) ensures ps[i].offset / PAGE != ps[j].offset / PAGE {
      assert Leaves(ps, j);
    }
  }

  lemma LandsFirst(start: seq<byte>, ps: seq<Placement>)
    requires NeverReturns(ps) && |ps| > 0 && forall o :: 0 <= o < |start| ==> start[o] == ERASED
    ensures Lands(start, ps, VisitFrom(ps))
  {
    hide NeverReturns, PageUsed, Overlay, And;
    var from := VisitFrom(ps);
    forall o | 0 <= o < |start| && o / PAGE == ps[from].offset / PAGE ensures LandsAt(start, ps, from, o) {
      FirstVisit(ps, o);
      AndErased(Overlay(ps[from..], o));
    }
  }
}
