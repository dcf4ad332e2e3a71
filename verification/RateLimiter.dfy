/** The sliding one-second write limiter of the canvas store, against one that never forgets a stamp. */
module RateLimiter {
  import opened Numerals

  const WINDOW := 1000
  const IDLE := 5000
  const MAX_KEYS := 2000
  const PER_VIEWER := 10
  const PER_CANVAS := 50

  type Stamps = seq<nat>

  type History = map<string, Stamps>

  function At(h: History, key: string): Stamps { if key in h then h[key] else [] }

  /** The stamps less than a second old. */
  function Recent(stamps: Stamps, now: nat): (r: Stamps)
    ensures |r| <= |stamps|
    ensures forall t :: t in r <==> t in stamps && now - t < WINDOW
  {
    if stamps == [] then []
    else
      var n := |stamps| - 1;
      assert stamps == stamps[..n] + [stamps[n]];
      Recent(stamps[..n], now) + if now - stamps[n] < WINDOW then [stamps[n]] else []
  }

  function Repeat(now: nat, count: nat): (r: Stamps)
    ensures |r| == count && forall i :: 0 <= i < count ==> r[i] == now
  {
    seq(count, i => now)
  }

  predicate Fits(stamps: Stamps, perSecond: nat, count: nat, now: nat) { |Recent(stamps, now)| + count <= perSecond }

  /** The limiter that keeps the whole history. */
  function Charge(h: History, key: string, perSecond: nat, count: nat, now: nat): History {
    if Fits(At(h, key), perSecond, count, now) then h[key := At(h, key) + Repeat(now, count)] else h
  }

  ghost predicate UpTo(stamps: Stamps, now: nat) {
    (forall i, j :: 0 <= i < j < |stamps| ==> stamps[i] <= stamps[j]) && forall i :: 0 <= i < |stamps| ==>
        stamps[i] <= now
  }

  // ----- forgetting changes nothing -----

  lemma {:induction false} RecentOfRecent(stamps: Stamps, early: nat, now: nat)
    requires early <= now
    ensures Recent(Recent(stamps, early), now) == Recent(stamps, now)
  {
    if stamps != [] {
      var n := |stamps| - 1;
      RecentOfRecent(stamps[..n], early, now);
      var r := Recent(stamps[..n], early);
      if now - stamps[n] < WINDOW || early - stamps[n] < WINDOW {
        assert early - stamps[n] < WINDOW;
        assert (r + [stamps[n]])[..|r|] == r;
      } else {
        assert r + [] == r;
      }
    }
  }

  lemma {:induction false} RecentOfConcat(xs: Stamps, ys: Stamps, now: nat)
    ensures Recent(xs + ys, now) == Recent(xs, now) + Recent(ys, now)
  {
    if ys == [] {
      assert xs + ys == xs && Recent(xs, now) + [] == Recent(xs, now);
    } else {
      var n := |ys| - 1;
      RecentOfConcat(xs, ys[..n], now);
      assert (xs + ys)[..|xs + ys| - 1] == xs + ys[..n];
      var last := if now - ys[n] < WINDOW then [ys[n]] else [];
      assert Recent(xs, now) + (Recent(ys[..n], now) + last) == (Recent(xs, now) + Recent(ys[..n], now)) + last;
    }
  }

  /** A key whose newest stamp is old has nothing recent. */
  lemma {:induction false} IdleHasNothingRecent(stamps: Stamps, now: nat)
    requires UpTo(stamps, now)
    requires stamps == [] || now - stamps[|stamps| - 1] > IDLE
    ensures Recent(stamps, now) == []
  {
    if stamps != [] {
      var n := |stamps| - 1;
      if n > 0 { assert stamps[n - 1] <= stamps[n]; }
      var init := stamps[..n];
      forall i | 0 <= i < n ensures init[i] <= stamps[n] {}
      NothingRecent(stamps, now);
    }
  }

  lemma {:induction false} NothingRecent(stamps: Stamps, now: nat)
    requires forall i :: 0 <= i < |stamps| ==> now - stamps[i] >= WINDOW
    ensures Recent(stamps, now) == []
  {
    if stamps != [] { NothingRecent(stamps[..|stamps| - 1], now); }
  }

  lemma UpToSnoc(stamps: Stamps, last: nat, bound: nat)
    requires UpTo(stamps, bound) && last <= bound && forall i :: 0 <= i < |stamps| ==> stamps[i] <= last
    ensures UpTo(stamps + [last], bound)
  {
  }

  lemma {:induction false} RecentIsUpTo(stamps: Stamps, now: nat, bound: nat)
    requires UpTo(stamps, bound)
    ensures UpTo(Recent(stamps, now), bound)
  {
    if stamps != [] {
      var n := |stamps| - 1;
      var init := stamps[..n];
      var r := Recent(init, now);
      RecentIsUpTo(init, now, bound);
      forall i | 0 <= i < |r| ensures r[i] <= stamps[n] {
        assert r[i] in init;
        var j :| 0 <= j < n && init[j] == r[i];
      }
      UpToSnoc(r, stamps[n], bound);
      assert Recent(stamps, now) == r + (if now - stamps[n] < WINDOW then [stamps[n]] else []);
      assert r + [] == r;
    }
  }

  /** The limiter's map agrees with the whole history about the last second, and its stamps are in order. */
  ghost predicate Agrees(rate: History, full: History, clock: nat) {
    && (forall key :: Recent(At(rate, key), clock) == Recent(At(full, key), clock))
    && (forall key :: UpTo(At(rate, key), clock))
  }

  lemma AgreesLater(rate: History, full: History, clock: nat, now: nat)
    requires Agrees(rate, full, clock) && clock <= now
    ensures Agrees(rate, full, now)
  {
    forall key ensures Recent(At(rate, key), now) == Recent(At(full, key), now) {
      RecentOfRecent(At(rate, key), clock, now);
      RecentOfRecent(At(full, key), clock, now);
    }
    forall key ensures UpTo(At(rate, key), now) { assert UpTo(At(rate, key), clock); }
  }

  lemma AgreesElsewhere(rate: History, full: History, rate': History, full': History, now: nat, key: string)
    requires Agrees(rate, full, now)
    requires forall k :: k != key ==> At(rate', k) == At(rate, k) && At(full', k) == At(full, k)
    requires Recent(At(rate', key), now) == Recent(At(full', key), now) && UpTo(At(rate', key), now)
    ensures Agrees(rate', full', now)
  {
    hide Recent, UpTo;
    forall k ensures Recent(At(rate', k), now) == Recent(At(full', k), now) && UpTo(At(rate', k), now) {
      if k != key { assert Recent(At(rate, k), now) == Recent(At(full, k), now) && UpTo(At(rate, k), now); }
    }
  }

  lemma AgreesFiltered(rate: History, full: History, now: nat, key: string)
    requires Agrees(rate, full, now)
    ensures Agrees(rate[key := Recent(At(rate, key), now)], full, now)
  {
    hide Recent;
    RecentOfRecent(At(rate, key), now, now);
    assert UpTo(At(rate, key), now);
    RecentIsUpTo(At(rate, key), now, now);
    AgreesElsewhere(rate, full, rate[key := Recent(At(rate, key), now)], full, now, key);
  }

  lemma AgreesCharged(rate: History, full: History, now: nat, key: string, count: nat)
    requires Agrees(rate, full, now)
    ensures Agrees(rate[key := At(rate, key) + Repeat(now, count)], full[key := At(full, key) + Repeat(now, count)],
        now)
  {
    hide Recent;
    assert UpTo(At(rate, key), now) && Recent(At(rate, key), now) == Recent(At(full, key), now);
    RecentOfConcat(At(rate, key), Repeat(now, count), now);
    RecentOfConcat(At(full, key), Repeat(now, count), now);
    AgreesElsewhere(rate, full, rate[key := At(rate, key) + Repeat(now, count)],
                    full[key := At(full, key) + Repeat(now, count)], now, key);
  }

  /** The keys with a stamp of the last five seconds. */
  function Awake(rate: History, now: nat): History {
    map k | k in rate && rate[k] != [] && now - rate[k][|rate[k]| - 1] <= 5000 :: rate[k]
  }

  /** Pruned of the idle keys but the pending ones. */
  ghost function AwakeBut(rate: History, pending: set<string>, now: nat): History {
    map k | k in rate && (k in pending || k in Awake(rate, now)) :: rate[k]
  }

  lemma NothingPruned(rate: History, now: nat)
    ensures AwakeBut(rate, rate.Keys, now) == rate
  {
  }

  lemma AllPruned(rate: History, now: nat)
    ensures AwakeBut(rate, {}, now) == Awake(rate, now)
  {
  }

  lemma OneKeyPruned(rate: History, pending: set<string>, now: nat, k: string)
    requires k in pending && k in rate
    ensures k in AwakeBut(rate, pending, now) && AwakeBut(rate, pending, now)[k] == rate[k]
    ensures AwakeBut(rate, pending - {k}, now)
         == if rate[k] == [] || now - rate[k][|rate[k]| - 1] > 5000 then AwakeBut(rate, pending, now) - {k}
            else AwakeBut(rate, pending, now)
  {
  }

  class CanvasKvRate {
    var rate: History
    ghost var full: History
    ghost var clock: nat

    ghost predicate Valid()
      reads this
    {
      Agrees(rate, full, clock)
    }

    constructor ()
      ensures Valid() && full == map[] && clock == 0
    {
      rate, full, clock := map[], map[], 0;
    }

    /** Decides exactly as the limiter that never forgets, whatever was filtered out or pruned before. */
    method RateOk(key: string, perSecond: nat, count: nat, now: nat) returns (ok: bool)
      requires Valid() && clock <= now
      modifies this
      ensures Valid() && clock == now
      ensures ok <==> Fits(At(old(full), key), perSecond, count, now)
      ensures full == Charge(old(full), key, perSecond, count, now)
      ensures
        var stamps := Recent(At(old(rate), key), now);
        var kept := old(rate)[key := if ok then stamps + Repeat(now, count) else stamps];
        rate == if ok && |kept| > 2000 then Awake(kept, now) else kept
    {
      hide Recent;
      AgreesLater(rate, full, clock, now);
      AgreesFiltered(rate, full, now, key);
      clock := now;
      var stamps := Recent(At(rate, key), now);
      assert stamps == Recent(At(full, key), now);
      AgreesCharged(rate[key := stamps], full, now, key, count);
      if |stamps| + count > perSecond {
        rate := rate[key := stamps];
        return false;
      }
      assert rate[key := stamps][key := stamps + Repeat(now, count)] == rate[key := stamps + Repeat(now, count)];
      rate := rate[key := stamps + Repeat(now, count)];
      full := full[key := At(full, key) + Repeat(now, count)];
      if |rate| > MAX_KEYS { Prune(now); }
      return true;
    }

    /** Forgets the keys without a stamp of the last five seconds. */
    method Prune(now: nat)
      requires Valid() && clock == now
      modifies `rate
      ensures Valid() && rate == Awake(old(rate), now)
    {
      hide Recent, Agrees, Awake, AwakeBut;
      var keys := rate.Keys;
      NothingPruned(rate, now);
      while keys != {}
        invariant Valid() && keys <= old(rate).Keys
        invariant rate == AwakeBut(old(rate), keys, now)
        decreases keys
      {
        var k :| k in keys;
        OneKeyPruned(old(rate), keys, now, k);
        keys := keys - {k};
        if k in rate && (|rate[k]| == 0 || now - rate[k][|rate[k]| - 1] > IDLE) {
          ForgetIdle(rate, full, now, k);
          rate := rate - {k};
        }
      }
      AllPruned(old(rate), now);
    }

    /** Both limits of a write: the viewer's first, the canvas's only when the viewer's let it pass. */
    method WriteOk(r: WriteRequest, now: nat) returns (ok: bool)
      requires Valid() && clock <= now
      modifies this
      ensures Valid() && clock == now
      ensures (full, ok) == Write(old(full), r, now)
    {
      ok := RateOk(ViewerKey(r), PER_VIEWER, r.ops, now);
      if ok { ok := RateOk(CanvasKey(r), PER_CANVAS, r.ops, now); }
    }
  }

  lemma ForgetIdle(rate: History, full: History, now: nat, k: string)
    requires Agrees(rate, full, now) && k in rate
    requires rate[k] == [] || now - rate[k][|rate[k]| - 1] > IDLE
    ensures Agrees(rate - {k}, full, now)
  {
    assert UpTo(At(rate, k), now);
    IdleHasNothingRecent(rate[k], now);
    forall key ensures Recent(At(rate - {k}, key), now) == Recent(At(full, key), now)
        && UpTo(At(rate - {k}, key), now) {
      if key != k { assert At(rate - {k}, key) == At(rate, key); }
    }
  }

  // ----- no window holds more than the limit -----

  /** How many stamps lie in the 1000 milliseconds that begin at t. */
  function InWindow(stamps: Stamps, t: int): (n: nat)
    ensures n <= |stamps|
  {
    if stamps == [] then 0
    else
      var n := |stamps| - 1;
      InWindow(stamps[..n], t) + if t <= stamps[n] < t + 1000 then 1 else 0
  }

  ghost predicate Bounded(stamps: Stamps, perSecond: nat) { forall t: int :: InWindow(stamps, t) <= perSecond }

  lemma {:induction false} InWindowConcat(xs: Stamps, now: nat, count: nat, t: int)
    ensures InWindow(xs + Repeat(now, count), t) == InWindow(xs, t) + if t <= now < t + 1000 then count else 0
  {
    var ys := xs + Repeat(now, count);
    if count == 0 {
      assert ys == xs;
    } else {
      InWindowConcat(xs, now, count - 1, t);
      assert ys[..|ys| - 1] == xs + Repeat(now, count - 1);
    }
  }

  /** A window that holds the present moment only holds recent stamps. */
  lemma {:induction false} WindowIsRecent(stamps: Stamps, now: nat, t: int)
    requires t <= now < t + 1000
    ensures InWindow(stamps, t) <= |Recent(stamps, now)|
  {
    if stamps != [] { WindowIsRecent(stamps[..|stamps| - 1], now, t); }
  }

  lemma {:induction false} RecentIsWindow(stamps: Stamps, now: nat)
    requires forall i :: 0 <= i < |stamps| ==> stamps[i] <= now
    ensures |Recent(stamps, now)| == InWindow(stamps, now - 999)
  {
    if stamps != [] { RecentIsWindow(stamps[..|stamps| - 1], now); }
  }

  /** Nothing is refused without need: a write is admitted exactly when the second that ends with it still has room. */
  lemma AdmittedIffRoom(stamps: Stamps, perSecond: nat, count: nat, now: nat)
    requires UpTo(stamps, now)
    ensures Fits(stamps, perSecond, count, now)
        <==> InWindow(stamps + Repeat(now, count), now - 999) <= perSecond
  {
    RecentIsWindow(stamps, now);
    InWindowConcat(stamps, now, count, now - 999);
  }

  lemma ChargeWithin(h: History, charged: string, perSecond: nat, count: nat, now: nat, key: string, limit: nat)
    requires Bounded(At(h, key), limit) && (charged == key ==> perSecond <= limit)
    ensures Bounded(At(Charge(h, charged, perSecond, count, now), key), limit)
  {
    hide InWindow, Recent;
    if charged == key && Fits(At(h, key), perSecond, count, now) {
      forall t: int ensures InWindow(At(h, key) + Repeat(now, count), t) <= limit {
        InWindowConcat(At(h, key), now, count, t);
        assert InWindow(At(h, key), t) <= limit;
        if t <= now < t + 1000 { WindowIsRecent(At(h, key), now, t); }
      }
    }
  }

  datatype Call = Call(key: string, perSecond: nat, count: nat, now: nat)

  function ChargeAll(calls: seq<Call>): History {
    if calls == [] then map[]
    else
      var c := calls[|calls| - 1];
      Charge(ChargeAll(calls[..|calls| - 1]), c.key, c.perSecond, c.count, c.now)
  }

  /** With one limit per key no second, wherever it begins, holds more admitted writes of the key than the limit. */
  lemma {:induction false} NoWindowOverflows(calls: seq<Call>, key: string, perSecond: nat)
    requires forall i :: 0 <= i < |calls| && calls[i].key == key ==> calls[i].perSecond == perSecond
    ensures Bounded(At(ChargeAll(calls), key), perSecond)
  {
    hide InWindow, Recent;
    if calls == [] {
      NoStamps(perSecond);
    } else {
      var init, c := calls[..|calls| - 1], calls[|calls| - 1];
      NoWindowOverflows(init, key, perSecond);
      ChargeWithin(ChargeAll(init), c.key, c.perSecond, c.count, c.now, key, perSecond);
    }
  }

  lemma NoStamps(perSecond: nat)
    ensures Bounded([], perSecond)
  {
  }

  // ----- the two limits of a write -----

  /** A session has five canvases. */
  type Slot = s: nat | 1 <= s <= 5 witness 1

  datatype WriteRequest = WriteRequest(session: string, provider: string, subject: string, slot: Slot, ops: nat)

  function ViewerKey(r: WriteRequest): string { r.session + ":" + (r.provider + "/" + r.subject) }

  function CanvasKey(r: WriteRequest): string { r.session + ":" + Decimal(r.slot) }

  function Write(h: History, r: WriteRequest, now: nat): (History, bool) {
    var viewer := Fits(At(h, ViewerKey(r)), PER_VIEWER, r.ops, now);
    var h1 := Charge(h, ViewerKey(r), PER_VIEWER, r.ops, now);
    if !viewer then (h1, false)
    else (Charge(h1, CanvasKey(r), PER_CANVAS, r.ops, now), Fits(At(h1, CanvasKey(r)), PER_CANVAS, r.ops, now))
  }

  function WriteAll(requests: seq<(WriteRequest, nat)>): History {
    if requests == [] then map[]
    else Write(WriteAll(requests[..|requests| - 1]), requests[|requests| - 1].0, requests[|requests| - 1].1).0
  }

  /** The two keys of one write never agree: within a session only viewer keys carry a slash. */
  lemma OwnKeysDiffer(r: WriteRequest, q: WriteRequest)
    requires r.session == q.session
    ensures ViewerKey(r) != CanvasKey(q)
  {
    var d := Decimal(q.slot);
    assert forall i :: 0 <= i < |d| ==> IsDigit(d[i]);
    var v, c := ViewerKey(r), CanvasKey(q);
    var at := |r.session| + 1 + |r.provider|;
    assert v[at] == '/';
    if at < |c| { assert c[at] == d[at - |q.session| - 1]; }
  }

  lemma SlotIsOneDigit(slot: Slot)
    ensures Decimal(slot) == ['0' + slot as char]
  {
    assert Digits(slot, 10) == [slot];
  }

  /** Two canvases share a budget exactly when they are one: same session, same slot. */
  lemma CanvasKeysAgreeIff(q: WriteRequest, r: WriteRequest)
    ensures CanvasKey(q) == CanvasKey(r) <==> q.session == r.session && q.slot == r.slot
  {
    hide Decimal;
    SlotIsOneDigit(q.slot);
    SlotIsOneDigit(r.slot);
    var x, y := CanvasKey(q), CanvasKey(r);
    assert x[|x| - 1] == '0' + q.slot as char && y[|y| - 1] == '0' + r.slot as char;
    assert x[..|x| - 2] == q.session && y[..|y| - 2] == r.session;
  }

  /** Two viewers of a session share a budget exactly when provider and subject read the same, a slash between them. */
  lemma ViewerKeysAgreeIff(q: WriteRequest, r: WriteRequest)
    requires q.session == r.session
    ensures ViewerKey(q) == ViewerKey(r) <==> q.provider + "/" + q.subject == r.provider + "/" + r.subject
  {
    var x, y := ViewerKey(q), ViewerKey(r);
    var n := |q.session| + 1;
    assert q.provider + ("/" + q.subject) == q.provider + "/" + q.subject;
    assert r.provider + ("/" + r.subject) == r.provider + "/" + r.subject;
    assert x == (q.session + ":") + (q.provider + "/" + q.subject) && x[n..] == q.provider + "/" + q.subject;
    assert y == (r.session + ":") + (r.provider + "/" + r.subject) && y[n..] == r.provider + "/" + r.subject;
  }

  /** How many writes of a key the last second holds. */
  function Lately(h: History, key: string, now: nat): nat { InWindow(At(h, key), now - 999) }

  /**
   * A write in full: it lands exactly when the second that ends with it has room for it among 10 of the viewer and 50
   * of the canvas. Then it is charged to both; with room for the viewer alone only to him, and to nobody else ever.
   */
  lemma WriteIs(h: History, r: WriteRequest, now: nat)
    requires forall key :: UpTo(At(h, key), now)
    ensures
      var viewer, canvas := r.session + ":" + (r.provider + "/" + r.subject), r.session + ":" + ['0' + r.slot as char];
      var his, its := Lately(h, viewer, now) + r.ops <= 10, Lately(h, canvas, now) + r.ops <= 50;
      var (h', landed) := Write(h, r, now);
      && (landed <==> his && its)
      && At(h', viewer) == At(h, viewer) + (if his then Repeat(now, r.ops) else [])
      && At(h', canvas) == At(h, canvas) + (if his && its then Repeat(now, r.ops) else [])
      && forall key :: key != viewer && key != canvas ==> At(h', key) == At(h, key)
  {
    hide Recent, InWindow, UpTo, Decimal;
    SlotIsOneDigit(r.slot);
    OwnKeysDiffer(r, r);
    var viewer, canvas := ViewerKey(r), CanvasKey(r);
    FitsIs(At(h, viewer), 10, r.ops, now);
    FitsIs(At(h, canvas), 50, r.ops, now);
    assert At(h, viewer) + [] == At(h, viewer) && At(h, canvas) + [] == At(h, canvas);
  }

  lemma FitsIs(stamps: Stamps, perSecond: nat, count: nat, now: nat)
    requires UpTo(stamps, now)
    ensures Fits(stamps, perSecond, count, now) <==> InWindow(stamps, now - 999) + count <= perSecond
  {
    RecentIsWindow(stamps, now);
  }

  /** A colon with a slash somewhere behind it. */
  predicate ColonThenSlash(s: string) { exists i, j :: 0 <= i < j < |s| && s[i] == ':' && s[j] == '/' }

  /** A canvas key is also the key of some viewer exactly when its session id has a colon and later a slash. */
  lemma KeysMixIff(q: WriteRequest)
    ensures (exists r: WriteRequest :: ViewerKey(r) == CanvasKey(q)) <==> ColonThenSlash(q.session)
  {
    var c, d := CanvasKey(q), Decimal(q.slot);
    assert forall k :: 0 <= k < |d| ==> IsDigit(d[k]);
    forall k | |q.session| < k < |c| ensures c[k] != '/' { assert c[k] == d[k - |q.session| - 1]; }
    if ColonThenSlash(q.session) {
      var i, j :| 0 <= i < j < |q.session| && q.session[i] == ':' && q.session[j] == '/';
      var r := WriteRequest(c[..i], c[i + 1..j], c[j + 1..], q.slot, q.ops);
      assert c[..i] + ":" + (c[i + 1..j] + "/" + c[j + 1..]) == c;
      assert ViewerKey(r) == c;
    }
    if r: WriteRequest :| ViewerKey(r) == c {
      var i, j := |r.session|, |r.session| + 1 + |r.provider|;
      var v := ViewerKey(r);
      assert v[i] == ':' && v[j] == '/' && c[|q.session|] == ':';
      assert j < |q.session|;
    }
  }

  /** One write keeps any bound that is not below the limit of a key it may charge. */
  lemma WriteStaysBounded(h: History, r: WriteRequest, now: nat, key: string, limit: nat)
    requires limit >= PER_VIEWER && (CanvasKey(r) == key ==> limit >= PER_CANVAS)
    requires Bounded(At(h, key), limit)
    ensures Bounded(At(Write(h, r, now).0, key), limit)
  {
    hide Bounded, ViewerKey, CanvasKey;
    OwnKeysDiffer(r, r);
    var h1 := Charge(h, ViewerKey(r), PER_VIEWER, r.ops, now);
    ChargeWithin(h, ViewerKey(r), PER_VIEWER, r.ops, now, key, limit);
    if CanvasKey(r) == key {
      ChargeWithin(h1, CanvasKey(r), PER_CANVAS, r.ops, now, key, limit);
    }
  }

  predicate IsCanvas(requests: seq<(WriteRequest, nat)>, key: string) {
    exists i :: 0 <= i < |requests| && CanvasKey(requests[i].0) == key
  }

  /**
   * In every run no second holds more than 50 writes of any key, and none more than 10 of a key that no canvas of
   * the run has: whatever the session ids, a canvas keeps its limit and a viewer whose key is its own keeps his.
   */
  lemma {:induction false} BothLimitsHold(requests: seq<(WriteRequest, nat)>, key: string)
    ensures Bounded(At(WriteAll(requests), key), 50)
    ensures !IsCanvas(requests, key) ==> Bounded(At(WriteAll(requests), key), 10)
  {
    hide Bounded, ViewerKey, CanvasKey, Write;
    if requests == [] {
      NoStamps(PER_CANVAS);
      NoStamps(PER_VIEWER);
    } else {
      var init := requests[..|requests| - 1];
      var (r, now) := requests[|requests| - 1];
      BothLimitsHold(init, key);
      WriteStaysBounded(WriteAll(init), r, now, key, PER_CANVAS);
      if !IsCanvas(requests, key) {
        assert !IsCanvas(init, key) by { forall i | 0 <= i < |init| ensures init[i] == requests[i] {} }
        assert CanvasKey(requests[|requests| - 1].0) != key;
        WriteStaysBounded(WriteAll(init), r, now, key, PER_VIEWER);
      }
    }
  }

  // ----- crowds: many viewers writing at one instant -----

  /** The k-th viewer of a crowd, writing as much as a viewer may. */
  function Member(session: string, slot: Slot, k: nat): WriteRequest {
    WriteRequest(session, "crowd", seq(k, i => 'x'), slot, PER_VIEWER)
  }

  function Crowd(session: string, slot: Slot, k: nat): (requests: seq<(WriteRequest, nat)>)
    ensures |requests| == k
  {
    if k == 0 then [] else Crowd(session, slot, k - 1) + [(Member(session, slot, k - 1), 0)]
  }

  lemma MembersDiffer(session: string, slot: Slot, i: nat, j: nat)
    requires i != j
    ensures ViewerKey(Member(session, slot, i)) != ViewerKey(Member(session, slot, j))
  {
    assert |ViewerKey(Member(session, slot, i))| - |ViewerKey(Member(session, slot, j))| == i - j;
  }

  lemma {:induction false} RecentNow(k: nat)
    ensures |Recent(Repeat(0, k), 0)| == k
  {
    if k > 0 {
      RecentNow(k - 1);
      assert Repeat(0, k)[..k - 1] == Repeat(0, k - 1);
    }
  }

  lemma MemberLands(h: History, r: WriteRequest, n: nat)
    requires At(h, ViewerKey(r)) == [] && At(h, CanvasKey(r)) == Repeat(0, n) && r.ops == 10 && n <= 40
    ensures At(Write(h, r, 0).0, CanvasKey(r)) == Repeat(0, n + 10)
    ensures forall key :: key != ViewerKey(r) && key != CanvasKey(r) ==> At(Write(h, r, 0).0, key) == At(h, key)
  {
    hide Recent, ViewerKey, CanvasKey;
    OwnKeysDiffer(r, r);
    RecentNow(0);
    RecentNow(n);
    assert Repeat(0, 0) == [];
    assert Repeat(0, n) + Repeat(0, 10) == Repeat(0, n + 10);
  }

  lemma CrowdGrows(session: string, slot: Slot, k: nat)
    requires k > 0
    ensures WriteAll(Crowd(session, slot, k))
         == Write(WriteAll(Crowd(session, slot, k - 1)), Member(session, slot, k - 1), 0).0
  {
    hide Write, Member;
    assert Crowd(session, slot, k)[..k - 1] == Crowd(session, slot, k - 1);
  }

  lemma NobodyYet(session: string, slot: Slot)
    ensures WriteAll(Crowd(session, slot, 0)) == map[] && Repeat(0, 10 * 0) == [] && forall key :: At(map[], key) == []
  {
  }

  /** Up to five full viewers all land, and fill the canvas evenly. */
  lemma {:induction false} CrowdLands(session: string, slot: Slot, k: nat)
    requires k <= 5
    ensures At(WriteAll(Crowd(session, slot, k)), CanvasKey(Member(session, slot, 0))) == Repeat(0, 10 * k)
    ensures forall j: nat :: j >= k ==> At(WriteAll(Crowd(session, slot, k)), ViewerKey(Member(session, slot, j))) == []
  {
    hide *;
    if k == 0 {
      NobodyYet(session, slot);
    } else {
      var r := Member(session, slot, k - 1);
      CrowdLands(session, slot, k - 1);
      CrowdGrows(session, slot, k);
      MembersShareCanvas(session, slot, 0);
      MembersShareCanvas(session, slot, k - 1);
      MemberLands(WriteAll(Crowd(session, slot, k - 1)), r, 10 * (k - 1));
      forall j: nat | j >= k ensures At(WriteAll(Crowd(session, slot, k)), ViewerKey(Member(session, slot, j))) == [] {
        MembersDiffer(session, slot, k - 1, j);
        MembersShareCanvas(session, slot, j);
        OwnKeysDiffer(Member(session, slot, j), Member(session, slot, 0));
      }
    }
  }

  lemma MembersShareCanvas(session: string, slot: Slot, k: nat)
    ensures CanvasKey(Member(session, slot, k)) == CanvasKey(Member(session, slot, 0))
    ensures Member(session, slot, k).session == session && Member(session, slot, k).ops == 10
  {
  }

  /**
   * A key keeps the viewer's limit in all runs exactly when it is no canvas key: a viewer whose key some canvas has
   * can be charged, and refused, for the writes of others.
   */
  lemma ViewerLimitIff(key: string)
    ensures (forall requests :: Bounded(At(WriteAll(requests), key), 10))
            <==> forall q :: CanvasKey(q) != key
  {
    hide Bounded, CanvasKey;
    if forall q :: CanvasKey(q) != key {
      forall requests ensures Bounded(At(WriteAll(requests), key), PER_VIEWER) { BothLimitsHold(requests, key); }
    }
    if q :| CanvasKey(q) == key {
      CrowdOverfills(q);
      assert !Bounded(At(WriteAll(Crowd(q.session, q.slot, 2)), key), PER_VIEWER);
    }
  }

  lemma CrowdOverfills(q: WriteRequest)
    ensures !Bounded(At(WriteAll(Crowd(q.session, q.slot, 2)), CanvasKey(q)), PER_VIEWER)
  {
    CrowdLands(q.session, q.slot, 2);
    InWindowConcat([], 0, 20, 0);
    assert [] + Repeat(0, 20) == Repeat(0, 20);
    assert InWindow(Repeat(0, 20), 0) == 20;
  }

  // ----- refused writes -----

  /**
   * A refused write uses up the viewer's budget exactly when the viewer had room for it, that is when the canvas
   * limit refused it; a write the viewer's own limit refuses costs nothing.
   */
  lemma RefusedWriteIsChargedIff(h: History, r: WriteRequest, now: nat)
    requires r.ops > 0 && !Write(h, r, now).1
    ensures At(Write(h, r, now).0, ViewerKey(r)) != At(h, ViewerKey(r))
        <==> Fits(At(h, ViewerKey(r)), PER_VIEWER, r.ops, now)
    ensures At(Write(h, r, now).0, CanvasKey(r)) == At(h, CanvasKey(r))
  {
    hide ViewerKey, CanvasKey, Fits;
    OwnKeysDiffer(r, r);
    var stamps := At(h, ViewerKey(r));
    assert |stamps + Repeat(now, r.ops)| == |stamps| + r.ops;
  }

  /** A sixth viewer of a full canvas is refused, and is charged for what never landed. */
  lemma SixthViewerPaysForNothing(session: string, slot: Slot)
    ensures
      var h, r := WriteAll(Crowd(session, slot, 5)), Member(session, slot, 5);
      !Write(h, r, 0).1 && At(h, ViewerKey(r)) == [] && At(Write(h, r, 0).0, ViewerKey(r)) == Repeat(0, 10)
  {
    hide Recent, ViewerKey, CanvasKey, Member;
    var r := Member(session, slot, 5);
    CrowdLands(session, slot, 5);
    MembersShareCanvas(session, slot, 5);
    OwnKeysDiffer(r, r);
    RecentNow(0);
    RecentNow(50);
    assert Repeat(0, 0) == [] && [] + Repeat(0, 10) == Repeat(0, 10);
  }
}
